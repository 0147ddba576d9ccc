/**
 Registry lookup (`getAppRegistryEntry` after the registry is loaded): an exact
 `path:` key, else the longest registered path that the pathname extends at a
 segment boundary, else the `appname:` key.
 */
module Lookup {
  import opened Options
  import opened Text
  import opened OrderedMap
  import opened Registry

  /**
   `pathname` extends the registered `path` at a boundary: equal, or `path` is a
   prefix and the next character is '/', '?' or absent.
   */
  predicate Boundary(pathname: string, path: string) {
    pathname == path
    || (StartsWith(pathname, path)
        && (|pathname| == |path| || pathname[|path|] == '/' || pathname[|path|] == '?'))
  }

  /**
   A registry key whose path can win the prefix match: a non-empty path (the
   scan only replaces its best match by a strictly longer one, starting from
   length 0) that `pathname` extends at a boundary.
   */
  predicate Candidate(pathname: string, key: string) {
    StartsWith(key, PathPrefix) && |key| > |PathPrefix| && Boundary(pathname, key[|PathPrefix|..])
  }

  /**
   Index `i` holds the match the scan settles on: a candidate no other
   candidate is longer than, and strictly longer than every candidate before it.
   */
  predicate IsBest(reg: Registry, pathname: string, i: nat) {
    && i < |reg|
    && Candidate(pathname, reg[i].0)
    && (forall j :: 0 <= j < |reg| && Candidate(pathname, reg[j].0) ==> |reg[j].0| <= |reg[i].0|)
    && (forall j :: 0 <= j < i && Candidate(pathname, reg[j].0) ==> |reg[j].0| < |reg[i].0|)
  }

  /** `best` is the scan's state after the first `n` entries. */
  predicate BestSoFar(reg: Registry, pathname: string, n: nat, best: Option<nat>) {
    && n <= |reg|
    && (best.None? ==> forall j :: 0 <= j < n ==> !Candidate(pathname, reg[j].0))
    && (best.Some? ==>
          && best.value < n
          && Candidate(pathname, reg[best.value].0)
          && (forall j :: 0 <= j < n && Candidate(pathname, reg[j].0) ==> |reg[j].0| <= |reg[best.value].0|)
          && (forall j :: 0 <= j < best.value && Candidate(pathname, reg[j].0) ==> |reg[j].0| < |reg[best.value].0|))
  }

  /** The scan loop from entry `i` on, with `best` the index of the best match so far. */
  function ScanFrom(reg: Registry, pathname: string, i: nat, best: Option<nat>): (r: Option<nat>)
    requires BestSoFar(reg, pathname, i, best)
    ensures BestSoFar(reg, pathname, |reg|, r)
    decreases |reg| - i
  {
    if i == |reg| then best
    else
      var key := reg[i].0;
      var bestLen := if best.Some? then |reg[best.value].0| - |PathPrefix| else 0;
      if StartsWith(key, PathPrefix) && Boundary(pathname, key[|PathPrefix|..]) && |key| - |PathPrefix| > bestLen
      then ScanFrom(reg, pathname, i + 1, Some(i))
      else ScanFrom(reg, pathname, i + 1, best)
  }

  /** The longest-prefix match over the whole registry. */
  function LongestPrefixMatch(reg: Registry, pathname: string): (r: Option<RegistryEntry>)
    ensures r.None? <==> forall j :: 0 <= j < |reg| ==> !Candidate(pathname, reg[j].0)
    ensures r.Some? ==> exists i: nat :: IsBest(reg, pathname, i) && r.value == reg[i].1
  {
    match ScanFrom(reg, pathname, 0, None)
    case None => None
    case Some(i) => (assert IsBest(reg, pathname, i); Some(reg[i].1))
  }

  /** The resolution order once a registry is loaded. */
  function Resolve(reg: Registry, appname: string, pathname: Option<string>): Option<RegistryEntry> {
    if pathname.Some? && pathname.value != "" then
      match Get(reg, PathKey(pathname.value))
      case Some(e) => Some(e)
      case None =>
        match LongestPrefixMatch(reg, pathname.value)
        case Some(e) => Some(e)
        case None => Get(reg, AppNameKey(appname))
    else Get(reg, AppNameKey(appname))
  }

  /** At most one index is the best match. */
  lemma BestUnique(reg: Registry, pathname: string, i: nat, j: nat)
    requires IsBest(reg, pathname, i) && IsBest(reg, pathname, j)
    ensures i == j
  {
  }

  /** The prefix match returns the entry at the best index. */
  lemma LongestPrefixIs(reg: Registry, pathname: string, i: nat)
    requires IsBest(reg, pathname, i)
    ensures LongestPrefixMatch(reg, pathname) == Some(reg[i].1)
  {
    var r := LongestPrefixMatch(reg, pathname);
    assert r.Some?;
    var k: nat :| IsBest(reg, pathname, k) && r.value == reg[k].1;
    BestUnique(reg, pathname, i, k);
  }

  /** A registered path is a candidate for itself. */
  lemma ExactIsCandidate(pathname: string)
    requires pathname != ""
    ensures Candidate(pathname, PathKey(pathname))
  {
    assert PathKey(pathname)[|PathPrefix|..] == pathname;
  }

  /** A path that the pathname continues mid-segment is never a candidate. */
  lemma NoMidSegmentMatch(path: string, rest: string)
    requires |rest| > 0 && rest[0] != '/' && rest[0] != '?'
    ensures !Candidate(path + rest, PathKey(path))
  {
    assert PathKey(path)[|PathPrefix|..] == path;
    assert (path + rest)[|path|] == rest[0];
  }

  /**
   The full resolution order: the exact path key; else the entry at the best
   boundary match; else the appname key. Absent only when all three miss.
   */
  lemma ResolveSpec(reg: Registry, appname: string, pathname: Option<string>)
    ensures pathname.Some? && pathname.value != "" && HasKey(reg, PathKey(pathname.value)) ==>
              Resolve(reg, appname, pathname) == Get(reg, PathKey(pathname.value))
    ensures pathname.Some? && pathname.value != "" && !HasKey(reg, PathKey(pathname.value)) ==>
              forall i: nat :: IsBest(reg, pathname.value, i) ==> Resolve(reg, appname, pathname) == Some(reg[i].1)
    ensures (pathname.None? || pathname.value == ""
             || forall j :: 0 <= j < |reg| ==> !Candidate(pathname.value, reg[j].0)) ==>
              Resolve(reg, appname, pathname) == Get(reg, AppNameKey(appname))
    ensures Resolve(reg, appname, pathname).Some? ==> exists i :: 0 <= i < |reg| && reg[i].1 == Resolve(reg, appname, pathname).value
  {
    if pathname.Some? && pathname.value != "" {
      var pn := pathname.value;
      forall i: nat | IsBest(reg, pn, i) && !HasKey(reg, PathKey(pn)) ensures Resolve(reg, appname, pathname) == Some(reg[i].1) {
        LongestPrefixIs(reg, pn, i);
      }
      if HasKey(reg, PathKey(pn)) {
        var j :| 0 <= j < |reg| && reg[j].0 == PathKey(pn);
        ExactIsCandidate(pn);
        assert Candidate(pn, reg[j].0);
      }
    }
    GetFound(reg, PathKey(if pathname.Some? then pathname.value else ""));
    GetFound(reg, AppNameKey(appname));
  }

  /** A value `Get` returns is stored in the map. */
  lemma GetFound(reg: Registry, k: string)
    ensures Get(reg, k).Some? ==> exists i :: 0 <= i < |reg| && reg[i].1 == Get(reg, k).value
  {
    if Get(reg, k).Some? {
      var i := IndexOf(reg, k).value;
      assert reg[i].1 == Get(reg, k).value;
    }
  }
}
