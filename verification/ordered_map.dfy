/**
 A JavaScript `Map`: an association list with unique keys kept in insertion
 order. `Set` overwrites an existing key's value in place and appends a new key
 at the end, which is what `Map.prototype.set` does; iteration order (used by
 the lookup's tie-break and by `values()`) is the list order.
 */
module OrderedMap {
  import opened Options

  predicate HasKey<K(==), V>(m: seq<(K, V)>, k: K) {
    exists i :: 0 <= i < |m| && m[i].0 == k
  }

  predicate UniqueKeys<K(==), V>(m: seq<(K, V)>) {
    forall i, j :: 0 <= i < j < |m| ==> m[i].0 != m[j].0
  }

  /** Position of key `k`, the first one if several. */
  function IndexOf<K(==), V>(m: seq<(K, V)>, k: K): (r: Option<nat>)
    ensures r.Some? ==> r.value < |m| && m[r.value].0 == k
    ensures r.Some? ==> forall j :: 0 <= j < r.value ==> m[j].0 != k
    ensures r.None? <==> !HasKey(m, k)
  {
    if |m| == 0 then None
    else if m[0].0 == k then Some(0)
    else
      match IndexOf(m[1..], k)
      case None => (assert forall i :: 1 <= i < |m| ==> m[i] == m[1..][i - 1]; None)
      case Some(i) => Some(i + 1)
  }

  /** `map.get(k)`. */
  function Get<K(==), V>(m: seq<(K, V)>, k: K): (r: Option<V>)
    ensures r.Some? <==> HasKey(m, k)
  {
    match IndexOf(m, k)
    case None => None
    case Some(i) => Some(m[i].1)
  }

  /** `map.set(k, v)`. */
  function Set<K(==), V>(m: seq<(K, V)>, k: K, v: V): (r: seq<(K, V)>)
    ensures UniqueKeys(m) ==> UniqueKeys(r)
    ensures |r| == if HasKey(m, k) then |m| else |m| + 1
    ensures forall i :: 0 <= i < |m| && m[i].0 != k ==> r[i] == m[i]
    ensures forall p :: p in r ==> p in m || p == (k, v)
  {
    match IndexOf(m, k)
    case None => m + [(k, v)]
    case Some(i) => m[i := (k, v)]
  }

  /** The keys in iteration order. */
  function Keys<K, V>(m: seq<(K, V)>): (r: seq<K>)
    ensures |r| == |m|
    ensures forall i :: 0 <= i < |m| ==> r[i] == m[i].0
  {
    seq(|m|, i requires 0 <= i < |m| => m[i].0)
  }

  /** `Array.from(map.values())`. */
  function Values<K, V>(m: seq<(K, V)>): (r: seq<V>)
    ensures |r| == |m|
    ensures forall i :: 0 <= i < |m| ==> r[i] == m[i].1
  {
    seq(|m|, i requires 0 <= i < |m| => m[i].1)
  }

  /** `new Map(pairs)`: the pairs set one after the other. */
  function FromPairs<K(==), V>(ps: seq<(K, V)>): (r: seq<(K, V)>)
    ensures UniqueKeys(r)
  {
    if |ps| == 0 then []
    else Set(FromPairs(ps[..|ps| - 1]), ps[|ps| - 1].0, ps[|ps| - 1].1)
  }

  /** The value paired with `k` by its LAST occurrence in `ps`. */
  function LastValue<K(==), V>(ps: seq<(K, V)>, k: K): Option<V> {
    if |ps| == 0 then None
    else if ps[|ps| - 1].0 == k then Some(ps[|ps| - 1].1)
    else LastValue(ps[..|ps| - 1], k)
  }

  /** Reading back a key just set gives the new value; every other key reads as before. */
  lemma SetGet<K, V>(m: seq<(K, V)>, k: K, v: V, k': K)
    requires UniqueKeys(m)
    ensures Get(Set(m, k, v), k') == if k' == k then Some(v) else Get(m, k')
  {
    var r := Set(m, k, v);
    if k' == k {
      match IndexOf(m, k)
      case None =>
        assert r[|m|].0 == k;
      case Some(i) =>
        assert r[i].0 == k;
    } else {
      match IndexOf(m, k')
      case None =>
        assert !HasKey(r, k') by {
          forall j | 0 <= j < |r| ensures r[j].0 != k' {
            if j < |m| && m[j].0 != k {
            }
          }
        }
      case Some(i) =>
        assert r[i] == m[i];
    }
  }

  /** `new Map(pairs)` keeps the last value given for each key. */
  lemma {:induction false} FromPairsGet<K, V>(ps: seq<(K, V)>, k: K)
    ensures Get(FromPairs(ps), k) == LastValue(ps, k)
  {
    if |ps| != 0 {
      FromPairsGet(ps[..|ps| - 1], k);
      SetGet(FromPairs(ps[..|ps| - 1]), ps[|ps| - 1].0, ps[|ps| - 1].1, k);
    }
  }

  /** Every entry of `new Map(pairs)` is one of the pairs given. */
  lemma {:induction false} FromPairsElements<K, V>(ps: seq<(K, V)>)
    ensures forall p :: p in FromPairs(ps) ==> p in ps
  {
    if |ps| != 0 {
      FromPairsElements(ps[..|ps| - 1]);
    }
  }

  /** The keys of `new Map(pairs)` are exactly the keys occurring in `pairs`. */
  lemma {:induction false} FromPairsHasKey<K, V>(ps: seq<(K, V)>, k: K)
    ensures HasKey(FromPairs(ps), k) <==> HasKey(ps, k)
  {
    FromPairsGet(ps, k);
    LastValueSome(ps, k);
  }

  lemma {:induction false} LastValueSome<K, V>(ps: seq<(K, V)>, k: K)
    ensures LastValue(ps, k).Some? <==> HasKey(ps, k)
  {
    if |ps| != 0 {
      var init := ps[..|ps| - 1];
      LastValueSome(init, k);
      assert forall i :: 0 <= i < |init| ==> init[i] == ps[i];
      if ps[|ps| - 1].0 != k && HasKey(ps, k) {
        var i :| 0 <= i < |ps| && ps[i].0 == k;
        assert init[i].0 == k;
      }
    }
  }

  /** Rebuilding a map from its own entries gives the same map. */
  lemma {:induction false} FromPairsOfMap<K, V>(m: seq<(K, V)>)
    requires UniqueKeys(m)
    ensures FromPairs(m) == m
  {
    if |m| != 0 {
      var init := m[..|m| - 1];
      FromPairsOfMap(init);
      assert !HasKey(init, m[|m| - 1].0);
      assert init + [m[|m| - 1]] == m;
    }
  }
}
