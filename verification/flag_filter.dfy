/**
 The list shown by the Flags panel (`filteredAndSortedFlags`): the flags whose
 name contains the search text case-insensitively, narrowed by the
 enabled/disabled/overridden filter, sorted by name.
 */
module FlagFilter {
  import opened Text
  import opened FlagOverrides

  datatype EnabledFilter = All | EnabledOnly | DisabledOnly | OverriddenOnly

  /** An empty search matches everything; otherwise a case-insensitive substring match on the name. */
  predicate MatchesSearch(search: string, t: Toggle) {
    |search| == 0 || Contains(Lower(t.name), Lower(search))
  }

  predicate PassesFilter(filter: EnabledFilter, active: Overrides, t: Toggle) {
    match filter
    case All => true
    case EnabledOnly => t.enabled
    case DisabledOnly => !t.enabled
    case OverriddenOnly => t.name in active
  }

  /** Whether a flag is listed. */
  predicate Listed(search: string, filter: EnabledFilter, active: Overrides, t: Toggle) {
    MatchesSearch(search, t) && PassesFilter(filter, active, t)
  }

  /** `Array.prototype.filter`: the elements satisfying `p`, in order, each as often as it occurs. */
  function Keep(s: seq<Toggle>, p: Toggle -> bool): (r: seq<Toggle>)
    ensures |r| <= |s|
    ensures forall t :: multiset(r)[t] == if p(t) then multiset(s)[t] else 0
  {
    if |s| == 0 then []
    else
      assert s == [s[0]] + s[1..];
      (if p(s[0]) then [s[0]] else []) + Keep(s[1..], p)
  }

  predicate SortedByName(s: seq<Toggle>) {
    forall i, j :: 0 <= i < j < |s| ==> LessEq(s[i].name, s[j].name)
  }

  /** Insert `x` after every element whose name is at most its name. */
  function InsertByName(s: seq<Toggle>, x: Toggle): (r: seq<Toggle>)
    ensures multiset(r) == multiset(s) + multiset{x}
  {
    if |s| == 0 then [x]
    else if LessEq(s[0].name, x.name) then
      assert s == [s[0]] + s[1..];
      [s[0]] + InsertByName(s[1..], x)
    else [x] + s
  }

  /** Inserting into a sorted list keeps it sorted. */
  lemma {:induction false} InsertKeepsSorted(s: seq<Toggle>, x: Toggle)
    requires SortedByName(s)
    ensures SortedByName(InsertByName(s, x))
  {
    if |s| == 0 {
    } else if LessEq(s[0].name, x.name) {
      var rest := InsertByName(s[1..], x);
      InsertKeepsSorted(s[1..], x);
      forall i | 0 <= i < |rest| ensures LessEq(s[0].name, rest[i].name) {
        assert rest[i] in multiset(rest);
        if rest[i] != x {
          assert rest[i] in multiset(s[1..]);
          var j :| 0 <= j < |s[1..]| && s[1..][j] == rest[i];
          assert s[j + 1] == rest[i];
        }
      }
      assert InsertByName(s, x) == [s[0]] + rest;
    } else {
      LessEqTotal(s[0].name, x.name);
      forall i | 0 <= i < |s| ensures LessEq(x.name, s[i].name) {
        if i > 0 {
          LessEqTransitive(x.name, s[0].name, s[i].name);
        }
      }
    }
  }

  /** `result.sort((a, b) => a.name.localeCompare(b.name))`, with code-unit order standing in for the locale order. */
  function SortByName(s: seq<Toggle>): (r: seq<Toggle>)
    ensures SortedByName(r)
    ensures multiset(r) == multiset(s)
  {
    if |s| == 0 then []
    else
      assert s == s[..|s| - 1] + [s[|s| - 1]];
      var sorted := SortByName(s[..|s| - 1]);
      InsertKeepsSorted(sorted, s[|s| - 1]);
      InsertByName(sorted, s[|s| - 1])
  }

  /** `filteredAndSortedFlags`. */
  function FilteredAndSortedFlags(flags: seq<Toggle>, search: string, filter: EnabledFilter, active: Overrides): (r: seq<Toggle>)
    ensures SortedByName(r)
    ensures forall t :: multiset(r)[t] == if Listed(search, filter, active, t) then multiset(flags)[t] else 0
  {
    var searched := if |search| == 0 then flags else Keep(flags, (t: Toggle) => MatchesSearch(search, t));
    var narrowed :=
      match filter
      case All => searched
      case EnabledOnly => Keep(searched, (t: Toggle) => t.enabled)
      case DisabledOnly => Keep(searched, (t: Toggle) => !t.enabled)
      case OverriddenOnly => Keep(searched, (t: Toggle) => t.name in active);
    SortByName(narrowed)
  }

  /** A flag is listed exactly when it is one of the flags and passes the search and the filter. */
  lemma ListedExactly(flags: seq<Toggle>, search: string, filter: EnabledFilter, active: Overrides, t: Toggle)
    ensures t in FilteredAndSortedFlags(flags, search, filter, active) <==> t in flags && Listed(search, filter, active, t)
  {
    var r := FilteredAndSortedFlags(flags, search, filter, active);
    assert t in r <==> multiset(r)[t] > 0;
    assert t in flags <==> multiset(flags)[t] > 0;
  }

  /** Filtering by a predicate and by its negation splits a list between the two. */
  lemma {:induction false} KeepSplit(s: seq<Toggle>, p: Toggle -> bool, q: Toggle -> bool)
    requires forall t :: q(t) == !p(t)
    ensures |Keep(s, p)| + |Keep(s, q)| == |s|
  {
    if |s| != 0 {
      KeepSplit(s[1..], p, q);
    }
  }

  /** Filters that agree on every flag keep the same flags. */
  lemma {:induction false} KeepAgrees(s: seq<Toggle>, p: Toggle -> bool, q: Toggle -> bool)
    requires forall t :: q(t) == p(t)
    ensures Keep(s, p) == Keep(s, q)
  {
    if |s| != 0 {
      KeepAgrees(s[1..], p, q);
    }
  }

  /** Filtering by enabled and by disabled splits the search results between them. */
  lemma EnabledDisabledSplit(flags: seq<Toggle>, search: string, active: Overrides)
    ensures |FilteredAndSortedFlags(flags, search, EnabledOnly, active)| + |FilteredAndSortedFlags(flags, search, DisabledOnly, active)|
            == |FilteredAndSortedFlags(flags, search, All, active)|
  {
    var searched := if |search| == 0 then flags else Keep(flags, (t: Toggle) => MatchesSearch(search, t));
    KeepSplit(searched, (t: Toggle) => t.enabled, (t: Toggle) => !t.enabled);
    assert |multiset(FilteredAndSortedFlags(flags, search, EnabledOnly, active))| == |Keep(searched, (t: Toggle) => t.enabled)|;
    assert |multiset(FilteredAndSortedFlags(flags, search, DisabledOnly, active))| == |Keep(searched, (t: Toggle) => !t.enabled)|;
    assert |multiset(FilteredAndSortedFlags(flags, search, All, active))| == |searched|;
  }

  /** Searching is case-insensitive: the search text and its lower-case form list the same flags. */
  lemma SearchIgnoresCase(flags: seq<Toggle>, search: string, filter: EnabledFilter, active: Overrides)
    ensures FilteredAndSortedFlags(flags, search, filter, active) == FilteredAndSortedFlags(flags, Lower(search), filter, active)
  {
    LowerIdempotent(search);
    KeepAgrees(flags, (t: Toggle) => MatchesSearch(search, t), (t: Toggle) => MatchesSearch(Lower(search), t));
  }
}
