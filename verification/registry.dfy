/**
 Registry construction (`buildRegistry`): the per-repository scan results are
 merged, batch by batch, into one map from namespaced keys to entries. A key
 is `"appname:" + appname` or `"path:" + pathname`, and is written only by the
 first result that produces it.
 */
module Registry {
  import opened Options
  import opened OrderedMap
  import opened RepoList
  import opened Descriptor
  import opened Scan

  /** The unit of resolution: an application id and the `org/name` repository that implements it. */
  datatype RegistryEntry = RegistryEntry(appId: string, githubRepo: string)

  /** The registry: a JavaScript Map from key to entry, in insertion order. */
  type Registry = seq<(string, RegistryEntry)>

  const AppNamePrefix: string := "appname:"
  const PathPrefix: string := "path:"

  function AppNameKey(appname: string): string {
    AppNamePrefix + appname
  }

  function PathKey(pathname: string): string {
    PathPrefix + pathname
  }

  function GithubRepo(repo: RepoRef): string {
    repo.org + "/" + repo.name
  }

  /** The two namespaces never share a key. */
  lemma KeysDisjoint(appname: string, pathname: string)
    ensures AppNameKey(appname) != PathKey(pathname)
  {
    assert AppNameKey(appname)[0] == 'a';
    assert PathKey(pathname)[0] == 'p';
  }

  /** A key determines the appname or pathname it was made from. */
  lemma KeysInjective(a: string, b: string)
    ensures AppNameKey(a) == AppNameKey(b) ==> a == b
    ensures PathKey(a) == PathKey(b) ==> a == b
  {
    assert AppNameKey(a)[|AppNamePrefix|..] == a && AppNameKey(b)[|AppNamePrefix|..] == b;
    assert PathKey(a)[|PathPrefix|..] == a && PathKey(b)[|PathPrefix|..] == b;
  }

  /** Every entry has a non-empty application id. */
  predicate Named(reg: Registry) {
    forall i :: 0 <= i < |reg| ==> reg[i].1.appId != ""
  }

  /** A registry under construction and its `foundCount`. */
  datatype Tally = Tally(registry: Registry, found: nat)

  /** `if (!registry.has(key)) { foundCount++; registry.set(key, entry) }`. */
  function Insert(t: Tally, key: string, entry: RegistryEntry): (r: Tally)
    ensures UniqueKeys(t.registry) ==> UniqueKeys(r.registry)
    ensures r.found + |t.registry| == t.found + |r.registry|
    ensures HasKey(r.registry, key)
    ensures Named(t.registry) && entry.appId != "" ==> Named(r.registry)
    ensures forall k :: HasKey(r.registry, k) <==> HasKey(t.registry, k) || k == key
    ensures forall k :: Get(r.registry, k) == if k == key && !HasKey(t.registry, key) then Some(entry) else Get(t.registry, k)
  {
    if HasKey(t.registry, key) then t
    else
      var r := Tally(t.registry + [(key, entry)], t.found + 1);
      assert forall k :: HasKey(r.registry, k) <==> HasKey(t.registry, k) || k == key by {
        forall k ensures HasKey(r.registry, k) <==> HasKey(t.registry, k) || k == key {
          if HasKey(t.registry, k) {
            var i :| 0 <= i < |t.registry| && t.registry[i].0 == k;
            assert r.registry[i].0 == k;
          }
          assert r.registry[|t.registry|].0 == key;
        }
      }
      assert forall k :: Get(r.registry, k) == if k == key then Some(entry) else Get(t.registry, k) by {
        forall k ensures Get(r.registry, k) == if k == key then Some(entry) else Get(t.registry, k) {
          AppendGet(t.registry, key, entry, k);
        }
      }
      r
  }

  lemma {:induction false} AppendGet(m: Registry, key: string, v: RegistryEntry, k: string)
    requires !HasKey(m, key)
    ensures Get(m + [(key, v)], k) == if k == key then Some(v) else Get(m, k)
  {
    var r := m + [(key, v)];
    match IndexOf(m, k)
    case Some(i) =>
      assert IndexOf(r, k) == Some(i) by {
        IndexOfPrefix(m, [(key, v)], k);
      }
    case None =>
      IndexOfPrefix(m, [(key, v)], k);
      if k == key {
        assert r[|m|].0 == k;
      } else {
        assert !HasKey(r, k);
      }
  }

  lemma {:induction false} IndexOfPrefix(m: Registry, tail: Registry, k: string)
    ensures IndexOf(m, k).Some? ==> IndexOf(m + tail, k) == IndexOf(m, k)
    ensures IndexOf(m, k).None? && IndexOf(m + tail, k).Some? ==> IndexOf(m + tail, k).value >= |m|
  {
    if |m| != 0 && m[0].0 != k {
      IndexOfPrefix(m[1..], tail, k);
      assert (m + tail)[1..] == m[1..] + tail;
    }
  }

  /** The pathnames of one module, registered in order under the module's id. */
  function MergePaths(t: Tally, moduleId: string, pathnames: seq<string>, repo: string): (r: Tally)
    ensures UniqueKeys(t.registry) ==> UniqueKeys(r.registry)
    ensures r.found + |t.registry| == t.found + |r.registry|
    ensures Named(t.registry) && moduleId != "" ==> Named(r.registry)
    decreases |pathnames|
  {
    if |pathnames| == 0 then t
    else MergePaths(Insert(t, PathKey(pathnames[0]), RegistryEntry(moduleId, repo)), moduleId, pathnames[1..], repo)
  }

  function MergeModules(t: Tally, modules: seq<ModuleRoute>, repo: string): (r: Tally)
    ensures UniqueKeys(t.registry) ==> UniqueKeys(r.registry)
    ensures r.found + |t.registry| == t.found + |r.registry|
    ensures Named(t.registry) && (forall m :: m in modules ==> WellFormed(m)) ==> Named(r.registry)
    decreases |modules|
  {
    if |modules| == 0 then t
    else
      assert modules[0] in modules;
      assert forall m :: m in modules[1..] ==> m in modules;
      MergeModules(MergePaths(t, modules[0].moduleId, modules[0].pathnames, repo), modules[1..], repo)
  }

  /** One repository's result: its appname first, then every pathname of every module. */
  function MergeScan(t: Tally, s: RepoScan): (r: Tally)
    ensures UniqueKeys(t.registry) ==> UniqueKeys(r.registry)
    ensures r.found + |t.registry| == t.found + |r.registry|
    ensures Named(t.registry) && (forall m :: m in s.modules ==> WellFormed(m)) ==> Named(r.registry)
  {
    var repo := GithubRepo(s.repo);
    var t1 :=
      if s.appname.Some? && s.appname.value != "" then Insert(t, AppNameKey(s.appname.value), RegistryEntry(s.appname.value, repo))
      else t;
    MergeModules(t1, s.modules, repo)
  }

  /** The results merged one after the other, in order. */
  function MergeAll(t: Tally, scans: seq<RepoScan>): (r: Tally)
    ensures UniqueKeys(t.registry) ==> UniqueKeys(r.registry)
    ensures r.found + |t.registry| == t.found + |r.registry|
    ensures Named(t.registry) && (forall i, m :: 0 <= i < |scans| && m in scans[i].modules ==> WellFormed(m)) ==> Named(r.registry)
    decreases |scans|
  {
    if |scans| == 0 then t else MergeAll(MergeScan(t, scans[0]), scans[1..])
  }

  const Concurrency: nat := 20

  /** The batch loop: results `i .. i + 20` are merged, then the next batch. */
  function MergeBatches(t: Tally, scans: seq<RepoScan>, i: nat): Tally
    decreases |scans| - i
  {
    if i >= |scans| then t
    else
      var end := if i + Concurrency <= |scans| then i + Concurrency else |scans|;
      MergeBatches(MergeAll(t, scans[i..end]), scans, i + Concurrency)
  }

  /** `buildRegistry`: the registry and `foundCount` after all batches. */
  function BuildRegistry(remote: Remote): Tally {
    MergeBatches(Tally([], 0), ScanAll(remote), 0)
  }

  /** Merging two runs of results one after the other is merging their concatenation. */
  lemma {:induction false} MergeAllAppend(t: Tally, a: seq<RepoScan>, b: seq<RepoScan>)
    ensures MergeAll(t, a + b) == MergeAll(MergeAll(t, a), b)
    decreases |a|
  {
    if |a| == 0 {
      assert a + b == b;
    } else {
      assert (a + b)[1..] == a[1..] + b;
      MergeAllAppend(MergeScan(t, a[0]), a[1..], b);
    }
  }

  /** Merging batch by batch gives the same registry and count as one in-order merge. */
  lemma {:induction false} BatchesAreOneMerge(t: Tally, scans: seq<RepoScan>, i: nat)
    requires i <= |scans|
    ensures MergeBatches(t, scans, i) == MergeAll(t, scans[i..])
    decreases |scans| - i
  {
    if i < |scans| {
      var end := if i + Concurrency <= |scans| then i + Concurrency else |scans|;
      assert scans[i..] == scans[i..end] + scans[end..];
      MergeAllAppend(t, scans[i..end], scans[end..]);
      if end < |scans| {
        BatchesAreOneMerge(MergeAll(t, scans[i..end]), scans, end);
      } else {
        assert scans[end..] == [];
      }
    }
  }

  /** `foundCount` is the number of keys in the built registry, and no key appears twice. */
  lemma BuildFoundCount(remote: Remote)
    ensures BuildRegistry(remote).found == |BuildRegistry(remote).registry|
    ensures UniqueKeys(BuildRegistry(remote).registry)
    ensures Named(BuildRegistry(remote).registry)
  {
    BatchesAreOneMerge(Tally([], 0), ScanAll(remote), 0);
  }

  /** The entry the first result declaring appname `x` registers, if any. */
  function FirstAppWriter(scans: seq<RepoScan>, x: string): Option<RegistryEntry> {
    if |scans| == 0 then None
    else if scans[0].appname == Some(x) && x != "" then Some(RegistryEntry(x, GithubRepo(scans[0].repo)))
    else FirstAppWriter(scans[1..], x)
  }

  /** The id of the first module listing pathname `p`, if any. */
  function FirstModuleWith(modules: seq<ModuleRoute>, p: string): Option<string> {
    if |modules| == 0 then None
    else if p in modules[0].pathnames then Some(modules[0].moduleId)
    else FirstModuleWith(modules[1..], p)
  }

  /** The entry the first result with a module routing pathname `p` registers, if any. */
  function FirstPathWriter(scans: seq<RepoScan>, p: string): Option<RegistryEntry> {
    if |scans| == 0 then None
    else
      match FirstModuleWith(scans[0].modules, p)
      case Some(id) => Some(RegistryEntry(id, GithubRepo(scans[0].repo)))
      case None => FirstPathWriter(scans[1..], p)
  }

  /** The value a key keeps if it is already present, else `v`. */
  function KeepOr(t: Tally, k: string, v: Option<RegistryEntry>): Option<RegistryEntry> {
    if HasKey(t.registry, k) then Get(t.registry, k) else v
  }

  lemma {:induction false} MergePathsGet(t: Tally, id: string, ps: seq<string>, repo: string, k: string)
    ensures Get(MergePaths(t, id, ps, repo).registry, k) ==
              if exists q :: q in ps && k == PathKey(q) then KeepOr(t, k, Some(RegistryEntry(id, repo))) else Get(t.registry, k)
    decreases |ps|
  {
    if |ps| != 0 {
      var t' := Insert(t, PathKey(ps[0]), RegistryEntry(id, repo));
      MergePathsGet(t', id, ps[1..], repo, k);
      assert forall q :: q in ps <==> q == ps[0] || q in ps[1..];
    }
  }

  lemma {:induction false} MergeModulesGet(t: Tally, ms: seq<ModuleRoute>, repo: string, k: string)
    ensures (forall p :: k != PathKey(p)) ==> Get(MergeModules(t, ms, repo).registry, k) == Get(t.registry, k)
    ensures forall p :: k == PathKey(p) ==>
              Get(MergeModules(t, ms, repo).registry, k) ==
                KeepOr(t, k, match FirstModuleWith(ms, p) case Some(id) => Some(RegistryEntry(id, repo)) case None => None)
    decreases |ms|
  {
    if |ms| != 0 {
      var t' := MergePaths(t, ms[0].moduleId, ms[0].pathnames, repo);
      MergePathsGet(t, ms[0].moduleId, ms[0].pathnames, repo, k);
      MergeModulesGet(t', ms[1..], repo, k);
      forall p | k == PathKey(p)
        ensures Get(MergeModules(t, ms, repo).registry, k) ==
                  KeepOr(t, k, match FirstModuleWith(ms, p) case Some(id) => Some(RegistryEntry(id, repo)) case None => None)
      {
        forall q | k == PathKey(q) ensures q == p {
          KeysInjective(p, q);
        }
        if p !in ms[0].pathnames {
          assert !exists q :: q in ms[0].pathnames && k == PathKey(q);
        }
      }
    }
  }

  /** One result: its appname key and its pathname keys are written only if absent. */
  lemma MergeScanGet(t: Tally, s: RepoScan, x: string, p: string)
    ensures Get(MergeScan(t, s).registry, AppNameKey(x)) ==
              KeepOr(t, AppNameKey(x), if s.appname == Some(x) && x != "" then Some(RegistryEntry(x, GithubRepo(s.repo))) else None)
    ensures Get(MergeScan(t, s).registry, PathKey(p)) ==
              KeepOr(t, PathKey(p), match FirstModuleWith(s.modules, p)
                                  case Some(id) => Some(RegistryEntry(id, GithubRepo(s.repo)))
                                  case None => None)
  {
    var repo := GithubRepo(s.repo);
    var t1 :=
      if s.appname.Some? && s.appname.value != "" then Insert(t, AppNameKey(s.appname.value), RegistryEntry(s.appname.value, repo))
      else t;
    forall q ensures AppNameKey(x) != PathKey(q) {
      KeysDisjoint(x, q);
    }
    MergeModulesGet(t1, s.modules, repo, AppNameKey(x));
    MergeModulesGet(t1, s.modules, repo, PathKey(p));
    if s.appname.Some? {
      KeysInjective(x, s.appname.value);
      KeysDisjoint(s.appname.value, p);
    }
  }

  /**
   First writer wins: after merging results in order, an appname key holds the
   entry of the first result declaring that appname and a path key the entry of
   the first result with a module routing that pathname, unless the key was
   already present.
   */
  lemma {:induction false} MergeAllGet(t: Tally, scans: seq<RepoScan>, x: string, p: string)
    ensures Get(MergeAll(t, scans).registry, AppNameKey(x)) == KeepOr(t, AppNameKey(x), FirstAppWriter(scans, x))
    ensures Get(MergeAll(t, scans).registry, PathKey(p)) == KeepOr(t, PathKey(p), FirstPathWriter(scans, p))
    decreases |scans|
  {
    if |scans| != 0 {
      MergeScanGet(t, scans[0], x, p);
      MergeAllGet(MergeScan(t, scans[0]), scans[1..], x, p);
    }
  }

  /** The built registry maps each key to the entry of its first writer in enumeration order. */
  lemma BuildFirstWriter(remote: Remote, x: string, p: string)
    ensures Get(BuildRegistry(remote).registry, AppNameKey(x)) == FirstAppWriter(ScanAll(remote), x)
    ensures Get(BuildRegistry(remote).registry, PathKey(p)) == FirstPathWriter(ScanAll(remote), p)
  {
    BatchesAreOneMerge(Tally([], 0), ScanAll(remote), 0);
    assert ScanAll(remote)[0..] == ScanAll(remote);
    MergeAllGet(Tally([], 0), ScanAll(remote), x, p);
  }
}
