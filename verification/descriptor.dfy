/**
 The deployment descriptor (`deploy/frontend.yaml` or the path named by the
 build config), already parsed, and the module walk of `fetchModulesWithRoutes`.

 A YAML list item can be `null`; reading a property of it throws a TypeError,
 which the source catches per attempt. The walk therefore reports the modules
 it emitted before such a throw and whether it threw.
 */
module Descriptor {
  import opened Options

  /** A route; an empty `pathname` stands for a missing or empty one (both falsy). */
  datatype RouteEntry = NullRoute | Route(pathname: string)

  /** A module; an empty `id` stands for a missing or empty one. */
  datatype ModuleEntry = NullModule | Module(id: string, routes: Option<seq<RouteEntry>>)

  datatype ModuleBlock = ModuleBlock(modules: Option<seq<ModuleEntry>>)

  datatype Spec = Spec(deploymentRepo: Option<string>, moduleSection: Option<ModuleBlock>)

  datatype ObjectEntry = NullObject | Object(spec: Option<Spec>)

  /** A parsed document; a null or scalar document has no `objects`. */
  datatype Document = Document(objects: Option<seq<ObjectEntry>>)

  /** A module id with the pathnames of its routes. */
  datatype ModuleRoute = ModuleRoute(moduleId: string, pathnames: seq<string>)

  /** What a walk emitted, and whether it stopped on a thrown error. */
  datatype Walk = Walk(found: seq<ModuleRoute>, threw: bool)

  /** A module the walk may emit: an id and at least one pathname, none of them empty. */
  predicate WellFormed(m: ModuleRoute) {
    m.moduleId != "" && |m.pathnames| > 0 && forall p :: p in m.pathnames ==> p != ""
  }

  /**
   `routes.filter(r => r.pathname).map(r => r.pathname)`: the non-empty
   pathnames in route order, or None when a null route makes the filter throw.
   */
  function RoutePathnames(routes: seq<RouteEntry>): (r: Option<seq<string>>)
    ensures r.None? <==> exists i :: 0 <= i < |routes| && routes[i].NullRoute?
    ensures r.Some? ==> forall p :: p in r.value <==> p != "" && Route(p) in routes
    ensures r.Some? ==> |r.value| <= |routes|
  {
    if |routes| == 0 then Some([])
    else
      var rest := RoutePathnames(routes[1..]);
      assert forall i :: 1 <= i < |routes| ==> routes[i] == routes[1..][i - 1];
      assert forall x :: x in routes <==> x == routes[0] || x in routes[1..];
      match routes[0]
      case NullRoute => None
      case Route(p) =>
        if rest.None? then None
        else Some((if p != "" then [p] else []) + rest.value)
  }

  /** A route with a non-empty pathname: one the filter keeps. */
  predicate Named(r: RouteEntry) {
    r.Route? && r.pathname != ""
  }

  /** How many routes carry a non-empty pathname. */
  function CountNamed(routes: seq<RouteEntry>): nat {
    if |routes| == 0 then 0 else (if Named(routes[0]) then 1 else 0) + CountNamed(routes[1..])
  }

  /**
   When no route is null, the pathnames come out one per named route and in
   route order: the route at index `i` lands at the position given by the
   number of named routes before it.
   */
  lemma {:induction false} RoutePathnamesInOrder(routes: seq<RouteEntry>)
    requires RoutePathnames(routes).Some?
    ensures var ps := RoutePathnames(routes).value;
            && |ps| == CountNamed(routes)
            && forall i :: 0 <= i < |routes| && Named(routes[i]) ==>
                 CountNamed(routes[..i]) < |ps| && ps[CountNamed(routes[..i])] == routes[i].pathname
  {
    if |routes| != 0 {
      assert routes[0].Route?;
      RoutePathnamesInOrder(routes[1..]);
      var ps := RoutePathnames(routes).value;
      forall i | 0 <= i < |routes| && Named(routes[i])
        ensures CountNamed(routes[..i]) < |ps| && ps[CountNamed(routes[..i])] == routes[i].pathname
      {
        if i == 0 {
          assert routes[..0] == [];
        } else {
          assert routes[..i][0] == routes[0];
          assert routes[..i][1..] == routes[1..][..i - 1];
          assert routes[1..][i - 1] == routes[i];
        }
      }
    }
  }

  /** The module loop over `spec.module.modules`. */
  function WalkModules(ms: seq<ModuleEntry>): (w: Walk)
    ensures forall m :: m in w.found ==> WellFormed(m)
    ensures forall m :: m in w.found ==>
              exists rs :: Module(m.moduleId, Some(rs)) in ms && RoutePathnames(rs) == Some(m.pathnames)
    ensures (forall i :: 0 <= i < |ms| ==> ms[i] != NullModule) && NoNullRoutes(ms) ==> !w.threw
  {
    if |ms| == 0 then Walk([], false)
    else
      assert forall i :: 1 <= i < |ms| ==> ms[i] == ms[1..][i - 1];
      match ms[0]
      case NullModule => Walk([], true)
      case Module(id, routes) =>
        if id == "" || routes.None? then WalkModules(ms[1..])
        else
          match RoutePathnames(routes.value)
          case None => Walk([], true)
          case Some(ps) =>
            var here := if |ps| > 0 then [ModuleRoute(id, ps)] else [];
            var rest := WalkModules(ms[1..]);
            Walk(here + rest.found, rest.threw)
  }

  /** A module entry whose handling throws: a null item, or an id and routes among which a route is null. */
  predicate Throws(m: ModuleEntry) {
    m.NullModule? || (m.id != "" && m.routes.Some? && RoutePathnames(m.routes.value).None?)
  }

  /** A module entry the loop pushes: an id, and routes without a null yielding some pathname. */
  predicate Emits(m: ModuleEntry) {
    && m.Module? && m.id != "" && m.routes.Some?
    && RoutePathnames(m.routes.value).Some? && |RoutePathnames(m.routes.value).value| > 0
  }

  /** What the loop pushes for an emitting entry. */
  function Emitted(m: ModuleEntry): ModuleRoute
    requires Emits(m)
  {
    ModuleRoute(m.id, RoutePathnames(m.routes.value).value)
  }

  /** How many entries the loop pushes for. */
  function CountEmits(ms: seq<ModuleEntry>): nat {
    if |ms| == 0 then 0 else (if Emits(ms[0]) then 1 else 0) + CountEmits(ms[1..])
  }

  /** Walking two lists one after the other: the second is walked only if the first did not throw. */
  lemma {:induction false} WalkModulesAppend(a: seq<ModuleEntry>, b: seq<ModuleEntry>)
    ensures WalkModules(a + b) == if WalkModules(a).threw then WalkModules(a)
                                 else Walk(WalkModules(a).found + WalkModules(b).found, WalkModules(b).threw)
  {
    if |a| == 0 {
      assert a + b == b;
    } else {
      assert (a + b)[0] == a[0];
      assert (a + b)[1..] == a[1..] + b;
      WalkModulesAppend(a[1..], b);
      var wa := WalkModules(a[1..]);
      var wb := WalkModules(b);
      if !wa.threw {
        assert forall x: seq<ModuleRoute> :: x + (wa.found + wb.found) == (x + wa.found) + wb.found;
      }
    }
  }

  /** The walk throws exactly when some entry throws. */
  lemma {:induction false} WalkModulesThrows(ms: seq<ModuleEntry>)
    ensures WalkModules(ms).threw <==> exists i :: 0 <= i < |ms| && Throws(ms[i])
  {
    if |ms| != 0 {
      WalkModulesThrows(ms[1..]);
      assert forall i :: 1 <= i < |ms| ==> ms[i] == ms[1..][i - 1];
      if !Throws(ms[0]) && exists i :: 0 <= i < |ms| && Throws(ms[i]) {
        var i :| 0 <= i < |ms| && Throws(ms[i]);
        assert Throws(ms[1..][i - 1]);
      }
    }
  }

  /** The entry at index `i`, when it emits, lands at the position counting the emitting entries before it. */
  lemma {:induction false} EmittedAt(ms: seq<ModuleEntry>, i: nat)
    requires i < |ms| && Emits(ms[i])
    requires forall j :: 0 <= j < |ms| ==> !Throws(ms[j])
    ensures CountEmits(ms[..i]) < |WalkModules(ms).found|
    ensures WalkModules(ms).found[CountEmits(ms[..i])] == Emitted(ms[i])
  {
    if i == 0 {
      assert ms[..0] == [];
    } else {
      var tail := ms[1..];
      assert tail[i - 1] == ms[i];
      assert forall j :: 0 <= j < |tail| ==> !Throws(tail[j]) by {
        forall j | 0 <= j < |tail| ensures !Throws(tail[j]) {
          assert tail[j] == ms[j + 1];
        }
      }
      EmittedAt(tail, i - 1);
      var head := if Emits(ms[0]) then 1 else 0;
      assert ms[..i][0] == ms[0];
      assert ms[..i][1..] == tail[..i - 1];
      assert CountEmits(ms[..i]) == head + CountEmits(tail[..i - 1]);
      assert !Throws(ms[0]);
      assert WalkModules(ms).found == (if Emits(ms[0]) then [Emitted(ms[0])] else []) + WalkModules(tail).found;
    }
  }

  /** A walk that does not throw pushes exactly one module per emitting entry. */
  lemma {:induction false} WalkModulesCount(ms: seq<ModuleEntry>)
    requires forall j :: 0 <= j < |ms| ==> !Throws(ms[j])
    ensures |WalkModules(ms).found| == CountEmits(ms)
  {
    if |ms| != 0 {
      assert forall j :: 1 <= j < |ms| ==> ms[j] == ms[1..][j - 1];
      WalkModulesCount(ms[1..]);
    }
  }

  /**
   The walk throws exactly when some entry throws, and a walk that does not
   throw pushes one module per emitting entry, in list order: the entry at
   index `i` lands at the position given by the number of emitting entries
   before it.
   */
  lemma WalkModulesInOrder(ms: seq<ModuleEntry>)
    ensures WalkModules(ms).threw <==> exists i :: 0 <= i < |ms| && Throws(ms[i])
    ensures (forall i :: 0 <= i < |ms| ==> !Throws(ms[i])) ==>
              var found := WalkModules(ms).found;
              && |found| == CountEmits(ms)
              && forall i :: 0 <= i < |ms| && Emits(ms[i]) ==>
                   CountEmits(ms[..i]) < |found| && found[CountEmits(ms[..i])] == Emitted(ms[i])
  {
    WalkModulesThrows(ms);
    if forall i :: 0 <= i < |ms| ==> !Throws(ms[i]) {
      WalkModulesCount(ms);
      forall i | 0 <= i < |ms| && Emits(ms[i])
        ensures CountEmits(ms[..i]) < |WalkModules(ms).found| && WalkModules(ms).found[CountEmits(ms[..i])] == Emitted(ms[i])
      {
        EmittedAt(ms, i);
      }
    }
  }

  /** A throwing entry ends the walk: what was pushed is the walk of the entries before it. */
  lemma StopsAtThrow(ms: seq<ModuleEntry>, k: nat)
    requires k < |ms| && Throws(ms[k]) && forall j :: 0 <= j < k ==> !Throws(ms[j])
    ensures WalkModules(ms) == Walk(WalkModules(ms[..k]).found, true)
  {
    assert ms == ms[..k] + ms[k..];
    WalkModulesAppend(ms[..k], ms[k..]);
    WalkModulesThrows(ms[..k]);
    assert ms[k..][0] == ms[k];
    assert ms[k..][0].NullModule? ==> WalkModules(ms[k..]) == Walk([], true);
    assert WalkModules(ms[k..]).found == [] && WalkModules(ms[k..]).threw;
    assert WalkModules(ms[..k]).found + [] == WalkModules(ms[..k]).found;
  }

  /** No module entry has a null route. */
  predicate NoNullRoutes(ms: seq<ModuleEntry>) {
    forall i, j :: 0 <= i < |ms| && ms[i].Module? && ms[i].routes.Some? && 0 <= j < |ms[i].routes.value|
                   ==> ms[i].routes.value[j] != NullRoute
  }

  /** `obj.spec?.module?.modules`. */
  function ModulesOf(spec: Option<Spec>): Option<seq<ModuleEntry>> {
    match spec
    case None => None
    case Some(sp) =>
      match sp.moduleSection
      case None => None
      case Some(block) => block.modules
  }

  /** The object loop over `yaml?.objects || []`. */
  function WalkObjects(objs: seq<ObjectEntry>): (w: Walk)
    ensures forall m :: m in w.found ==> WellFormed(m)
  {
    if |objs| == 0 then Walk([], false)
    else
      match objs[0]
      case NullObject => Walk([], true)
      case Object(spec) =>
        var here := match ModulesOf(spec) case None => Walk([], false) case Some(ms) => WalkModules(ms);
        if here.threw then here
        else
          var rest := WalkObjects(objs[1..]);
          Walk(here.found + rest.found, rest.threw)
  }

  /** The module entries an object contributes; a null object acts like a null module. */
  function ObjectModules(o: ObjectEntry): seq<ModuleEntry> {
    match o
    case NullObject => [NullModule]
    case Object(spec) => ModulesOf(spec).GetOr([])
  }

  /** The module entries of all objects, in document order. */
  function AllModules(objs: seq<ObjectEntry>): seq<ModuleEntry> {
    if |objs| == 0 then [] else ObjectModules(objs[0]) + AllModules(objs[1..])
  }

  /** The object loop is the module loop over all objects' modules in document order. */
  lemma {:induction false} WalkObjectsIsModuleWalk(objs: seq<ObjectEntry>)
    ensures WalkObjects(objs) == WalkModules(AllModules(objs))
  {
    if |objs| != 0 {
      WalkObjectsIsModuleWalk(objs[1..]);
      WalkModulesAppend(ObjectModules(objs[0]), AllModules(objs[1..]));
      if objs[0].NullObject? {
        assert [NullModule][1..] == [];
      } else if ModulesOf(objs[0].spec).None? {
        assert WalkModules([]) == Walk([], false);
        assert [] + WalkModules(AllModules(objs[1..])).found == WalkModules(AllModules(objs[1..])).found;
      }
    }
  }

  function WalkDocument(d: Document): (w: Walk)
    ensures forall m :: m in w.found ==> WellFormed(m)
  {
    WalkObjects(d.objects.GetOr([]))
  }

  /**
   A document's walk is one module loop over the modules of its objects in
   document order, so `WalkModulesInOrder` says what it finds and in which order.
   */
  lemma WalkDocumentIsModuleWalk(d: Document)
    ensures WalkDocument(d) == WalkModules(AllModules(d.objects.GetOr([])))
  {
    WalkObjectsIsModuleWalk(d.objects.GetOr([]));
  }

  /** What one (branch, path) attempt produced. */
  datatype DescriptorFetch =
    | NotOk              // response.ok was false
    | Failed             // the request, reading the body or parsing the YAML threw
    | Loaded(doc: Document)

  /** An attempt whose walk completes and emits at least one module. */
  predicate Usable(a: DescriptorFetch) {
    a.Loaded? && !WalkDocument(a.doc).threw && |WalkDocument(a.doc).found| > 0
  }

  /**
   The attempt loop exactly as the source writes it: the `modules` array is
   shared by all attempts, so what a walk pushed before throwing stays in it
   and is returned together with a later attempt's modules.
   */
  function FetchModulesAsWritten(attempts: seq<DescriptorFetch>, acc: seq<ModuleRoute>): (r: seq<ModuleRoute>)
    ensures |acc| <= |r| && r[..|acc|] == acc
    ensures (forall m :: m in acc ==> WellFormed(m)) ==> forall m :: m in r ==> WellFormed(m)
  {
    if |attempts| == 0 then acc
    else
      match attempts[0]
      case Loaded(doc) =>
        var w := WalkDocument(doc);
        var acc' := acc + w.found;
        if !w.threw && |acc'| > 0 then acc' else FetchModulesAsWritten(attempts[1..], acc')
      case _ => FetchModulesAsWritten(attempts[1..], acc)
  }

  /**
   The attempt loop as its comments intend: an attempt that throws contributes
   nothing, and the first attempt that yields modules is returned whole.
   */
  function FetchModules(attempts: seq<DescriptorFetch>): (r: seq<ModuleRoute>)
    ensures forall m :: m in r ==> WellFormed(m)
    ensures r == [] <==> forall i :: 0 <= i < |attempts| ==> !Usable(attempts[i])
    ensures r != [] ==> exists i :: 0 <= i < |attempts| && Usable(attempts[i])
                                    && r == WalkDocument(attempts[i].doc).found
                                    && forall j :: 0 <= j < i ==> !Usable(attempts[j])
  {
    if |attempts| == 0 then []
    else if Usable(attempts[0]) then WalkDocument(attempts[0].doc).found
    else
      var rest := FetchModules(attempts[1..]);
      assert forall i :: 1 <= i < |attempts| ==> attempts[i] == attempts[1..][i - 1];
      if rest != [] then
        var i :| 0 <= i < |attempts[1..]| && Usable(attempts[1..][i]) && rest == WalkDocument(attempts[1..][i].doc).found
                 && forall j :: 0 <= j < i ==> !Usable(attempts[1..][j]);
        assert Usable(attempts[i + 1]);
        rest
      else rest
  }

  /** When no walk throws, the source's loop and the intended one agree. */
  lemma {:induction false} AsWrittenAgreesWithoutThrows(attempts: seq<DescriptorFetch>)
    requires forall i :: 0 <= i < |attempts| && attempts[i].Loaded? ==> !WalkDocument(attempts[i].doc).threw
    ensures FetchModulesAsWritten(attempts, []) == FetchModules(attempts)
  {
    if |attempts| != 0 {
      assert forall i :: 1 <= i < |attempts| ==> attempts[i] == attempts[1..][i - 1];
      AsWrittenAgreesWithoutThrows(attempts[1..]);
      if attempts[0].Loaded? {
        assert [] + WalkDocument(attempts[0].doc).found == WalkDocument(attempts[0].doc).found;
      }
    }
  }

  const ModuleA: ModuleEntry := Module("a", Some([Route("/a")]))
  const ModuleB: ModuleEntry := Module("b", Some([Route("/b")]))

  /** A document whose module list is followed by a null list item (a stray `-`). */
  const DocAThenNull: Document :=
    Document(Some([Object(Some(Spec(None, Some(ModuleBlock(Some([ModuleA])))))), NullObject]))
  const DocB: Document :=
    Document(Some([Object(Some(Spec(None, Some(ModuleBlock(Some([ModuleB]))))))]))

  lemma SingleRouteModules()
    ensures WalkModules([ModuleA]) == Walk([ModuleRoute("a", ["/a"])], false)
    ensures WalkModules([ModuleB]) == Walk([ModuleRoute("b", ["/b"])], false)
  {
    assert [Route("/a")][1..] == [] && [Route("/b")][1..] == [];
    assert RoutePathnames([]) == Some([]);
    assert ["/a"] + [] == ["/a"] && ["/b"] + [] == ["/b"];
    assert RoutePathnames([Route("/a")]) == Some(["/a"]);
    assert RoutePathnames([Route("/b")]) == Some(["/b"]);
    assert [ModuleA][1..] == [] && [ModuleB][1..] == [];
  }

  lemma ExampleWalks()
    ensures WalkDocument(DocAThenNull) == Walk([ModuleRoute("a", ["/a"])], true)
    ensures WalkDocument(DocB) == Walk([ModuleRoute("b", ["/b"])], false)
  {
    SingleRouteModules();
    var objsA := DocAThenNull.objects.value;
    assert objsA[1..] == [NullObject];
    assert WalkObjects(objsA[1..]) == Walk([], true);
    assert ModulesOf(objsA[0].spec) == Some([ModuleA]);
    assert WalkObjects(objsA) == Walk([ModuleRoute("a", ["/a"])], true);
    var objsB := DocB.objects.value;
    assert objsB[1..] == [];
    assert ModulesOf(objsB[0].spec) == Some([ModuleB]);
    assert [ModuleRoute("b", ["/b"])] + [] == [ModuleRoute("b", ["/b"])];
    assert WalkObjects(objsB) == Walk([ModuleRoute("b", ["/b"])], false);
  }

  /**
   The source merges two attempts: module `a` from a walk that threw on the
   null item is returned together with module `b` from the next attempt. The
   intended loop returns the next attempt's modules alone.
   */
  lemma PartialWalkLeaks()
    ensures FetchModulesAsWritten([Loaded(DocAThenNull), Loaded(DocB)], [])
            == [ModuleRoute("a", ["/a"]), ModuleRoute("b", ["/b"])]
    ensures FetchModules([Loaded(DocAThenNull), Loaded(DocB)]) == [ModuleRoute("b", ["/b"])]
  {
    ExampleWalks();
    var attempts := [Loaded(DocAThenNull), Loaded(DocB)];
    assert attempts[1..] == [Loaded(DocB)];
    assert [Loaded(DocB)][1..] == [];
    assert !Usable(attempts[0]) && Usable(attempts[1]);
    assert [] + [ModuleRoute("a", ["/a"])] == [ModuleRoute("a", ["/a"])];
  }
}
