/**
 Strings as `seq<char>`, whose Unicode scalar values stand in for JavaScript's
 UTF-16 code units, with the few string operations the registry and the flag
 list use: prefix test, substring search and lower-casing.
 */
module Text {

  /** `s.startsWith(p)`. */
  predicate StartsWith(s: string, p: string) {
    |p| <= |s| && s[..|p|] == p
  }

  /** True iff `w` occurs in `s` starting at position `i`. */
  predicate OccursAt(s: string, w: string, i: nat) {
    i + |w| <= |s| && s[i..i + |w|] == w
  }

  /** `s.includes(w)`, computed by scanning start positions from `from` upwards. */
  function ContainsFrom(s: string, w: string, from: nat): (b: bool)
    decreases |s| - from
  {
    if from + |w| > |s| then false
    else if StartsWith(s[from..], w) then true
    else ContainsFrom(s, w, from + 1)
  }

  function Contains(s: string, w: string): bool {
    ContainsFrom(s, w, 0)
  }

  /** The scan finds exactly the occurrences at or after `from`. */
  lemma {:induction false} ContainsFromSpec(s: string, w: string, from: nat)
    ensures ContainsFrom(s, w, from) <==> exists i :: from <= i && OccursAt(s, w, i)
    decreases |s| - from
  {
    if from + |w| > |s| {
      forall i | from <= i ensures !OccursAt(s, w, i) {
      }
    } else {
      assert StartsWith(s[from..], w) <==> OccursAt(s, w, from) by {
        assert s[from..][..|w|] == s[from..from + |w|];
      }
      ContainsFromSpec(s, w, from + 1);
      if !OccursAt(s, w, from) {
        forall i | from <= i && OccursAt(s, w, i) ensures from + 1 <= i {
        }
      }
    }
  }

  /** `Contains` is substring search: `w` occurs somewhere in `s`. */
  lemma ContainsSpec(s: string, w: string)
    ensures Contains(s, w) <==> exists i :: OccursAt(s, w, i)
  {
    ContainsFromSpec(s, w, 0);
  }

  /** The empty string occurs in every string. */
  lemma ContainsEmpty(s: string)
    ensures Contains(s, "")
  {
    ContainsSpec(s, "");
    assert OccursAt(s, "", 0);
  }

  /** Lower-case of one code unit (ASCII letters only). */
  function LowerChar(c: char): char {
    if 'A' <= c <= 'Z' then (c as int + 32) as char else c
  }

  /** `s.toLowerCase()` restricted to ASCII letters. */
  function Lower(s: string): (r: string)
    ensures |r| == |s|
    ensures forall i :: 0 <= i < |s| ==> r[i] == LowerChar(s[i])
  {
    seq(|s|, i requires 0 <= i < |s| => LowerChar(s[i]))
  }

  /** Lower-casing is idempotent, so a search term lower-cased twice matches the same names. */
  lemma LowerIdempotent(s: string)
    ensures Lower(Lower(s)) == Lower(s)
  {
  }

  /** Code-unit lexicographic order on strings: the model's total order on flag names. */
  predicate LessEq(a: string, b: string)
    decreases |a|
  {
    if |a| == 0 then true
    else if |b| == 0 then false
    else if a[0] < b[0] then true
    else if a[0] > b[0] then false
    else LessEq(a[1..], b[1..])
  }

  lemma {:induction false} LessEqTotal(a: string, b: string)
    ensures LessEq(a, b) || LessEq(b, a)
    decreases |a|
  {
    if |a| != 0 && |b| != 0 && a[0] == b[0] {
      LessEqTotal(a[1..], b[1..]);
    }
  }

  lemma {:induction false} LessEqTransitive(a: string, b: string, c: string)
    requires LessEq(a, b) && LessEq(b, c)
    ensures LessEq(a, c)
    decreases |a|
  {
    if |a| != 0 && |b| != 0 && |c| != 0 && a[0] == b[0] && b[0] == c[0] {
      LessEqTransitive(a[1..], b[1..], c[1..]);
    }
  }

  lemma {:induction false} LessEqAntisymmetric(a: string, b: string)
    requires LessEq(a, b) && LessEq(b, a)
    ensures a == b
    decreases |a|
  {
    if |a| != 0 && |b| != 0 {
      LessEqAntisymmetric(a[1..], b[1..]);
      assert a == [a[0]] + a[1..];
      assert b == [b[0]] + b[1..];
    }
  }
}
