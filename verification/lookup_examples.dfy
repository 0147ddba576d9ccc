/**
 The lookup behaviour the registry's own test suite pins down, on small
 registries of the shape a build produces.
 */
module LookupExamples {
  import opened Options
  import opened Text
  import opened OrderedMap
  import opened Registry
  import opened Lookup

  const Foo: RegistryEntry := RegistryEntry("foo", "RedHatInsights/foo-app")
  const FooPath: string := "/app/foo"

  /** A registry holding only the path `/app/foo`. */
  function FooRegistry(): Registry {
    [(PathKey(FooPath), Foo)]
  }

  /** A sub-path and a query string both resolve to `/app/foo`'s entry. */
  lemma SubpathAndQueryMatch(rest: string)
    requires rest == "/bar" || rest == "?query=1"
    ensures Resolve(FooRegistry(), "foo", Some(FooPath + rest)) == Some(Foo)
  {
    var reg := FooRegistry();
    var pn := FooPath + rest;
    assert PathKey(pn) != PathKey(FooPath) by {
      assert |PathKey(pn)| != |PathKey(FooPath)|;
    }
    assert !HasKey(reg, PathKey(pn));
    assert PathKey(FooPath)[|PathPrefix|..] == FooPath;
    assert pn[|FooPath|] == rest[0];
    assert IsBest(reg, pn, 0);
    ResolveSpec(reg, "foo", Some(pn));
  }

  /** `/app/foobar` does not match `/app/foo`, and with no `foobar` appname nothing is found. */
  lemma NoMatchWithoutBoundary()
    ensures Resolve(FooRegistry(), "foobar", Some(FooPath + "bar")) == None
  {
    var reg := FooRegistry();
    NoMidSegmentMatch(FooPath, "bar");
    KeysDisjoint("foobar", FooPath);
    assert !HasKey(reg, AppNameKey("foobar"));
    ResolveSpec(reg, "foobar", Some(FooPath + "bar"));
  }

  const Advisor: RegistryEntry := RegistryEntry("advisor", "RedHatInsights/insights-advisor-frontend")
  const AdvisorSystems: RegistryEntry := RegistryEntry("advisor-systems", "RedHatInsights/insights-advisor-frontend")
  const AdvisorPath: string := "/insights/advisor"

  /** The advisor descriptor's three routes, in registration order. */
  function AdvisorRegistry(): Registry {
    [ (PathKey(AdvisorPath), Advisor),
      (PathKey(AdvisorPath + "/recommendations"), Advisor),
      (PathKey(AdvisorPath + "/systems"), AdvisorSystems) ]
  }

  /** Below `/insights/advisor/systems` the longer registered path wins over `/insights/advisor`. */
  lemma LongestPrefixWins(rest: string)
    requires |rest| > 0 && rest[0] == '/'
    ensures Resolve(AdvisorRegistry(), "advisor", Some(AdvisorPath + "/systems" + rest)) == Some(AdvisorSystems)
  {
    var reg := AdvisorRegistry();
    var sys := AdvisorPath + "/systems";
    var pn := sys + rest;
    assert pn == AdvisorPath + ("/systems" + rest);
    assert |PathKey(pn)| > |reg[2].0| > |reg[0].0|;
    assert PathKey(pn) != reg[1].0 by {
      var k := |PathPrefix| + |AdvisorPath| + 1;
      assert PathKey(pn)[k] == 's';
      assert reg[1].0[k] == 'r';
    }
    assert !HasKey(reg, PathKey(pn));
    assert reg[0].0[|PathPrefix|..] == AdvisorPath;
    assert reg[1].0[|PathPrefix|..] == AdvisorPath + "/recommendations";
    assert reg[2].0[|PathPrefix|..] == sys;
    assert pn[|sys|] == '/';
    assert pn[|AdvisorPath|] == '/';
    assert Candidate(pn, reg[0].0);
    assert !Candidate(pn, reg[1].0) by {
      var rec := AdvisorPath + "/recommendations";
      assert pn[|AdvisorPath| + 1] == 's' && rec[|AdvisorPath| + 1] == 'r';
    }
    assert IsBest(reg, pn, 2);
    ResolveSpec(reg, "advisor", Some(pn));
  }

  const LearningResources: RegistryEntry := RegistryEntry("learning-resources", "RedHatInsights/learning-resources")

  /** A repository with only a manifest is found through its appname, with or without a pathname. */
  lemma AppnameFallback(pathname: Option<string>)
    ensures Resolve([(AppNameKey("learning-resources"), LearningResources)], "learning-resources", pathname)
            == Some(LearningResources)
  {
    var reg := [(AppNameKey("learning-resources"), LearningResources)];
    forall j | 0 <= j < |reg| ensures !StartsWith(reg[j].0, PathPrefix) {
      assert reg[j].0[0] == 'a';
    }
    ResolveSpec(reg, "learning-resources", pathname);
  }
}
