/**
 The build-config path extractor (`extractFrontendCRDPath`) and the per-branch
 search for a custom descriptor path (`fetchFrontendYamlPath`).

 The source applies the pattern  frontendCRDPath[^'"]*['"]([^'"]+)['"]  and
 strips one leading "./" from the captured group. Here the pattern is written
 out twice: `RegexMatchAt` says declaratively what a match starting at a given
 position is, and `Scan` finds the leftmost one by a direct scan.
 */
module CrdPath {
  import opened Options
  import opened Text

  const Marker: string := "frontendCRDPath"

  predicate IsQuote(c: char) {
    c == '\'' || c == '"'
  }

  /** No quote character in `s[a..b]`. */
  predicate NoQuote(s: string, a: nat, b: nat)
    requires a <= b <= |s|
  {
    forall i :: a <= i < b ==> !IsQuote(s[i])
  }

  /**
   The pattern matches at `p` with capture `cap`: the marker at `p`, then only
   non-quotes up to a quote at `q`, then `cap` (one or more non-quotes), then a
   quote.
   */
  ghost predicate RegexMatchAt(s: string, p: nat, cap: string) {
    OccursAt(s, Marker, p) && exists q: nat :: MatchWith(s, p, q, cap)
  }

  /** The match JavaScript reports: the one starting leftmost. */
  ghost predicate LeftmostMatch(s: string, p: nat, cap: string) {
    RegexMatchAt(s, p, cap) && forall p': nat, c' :: p' < p ==> !RegexMatchAt(s, p', c')
  }

  /** Position of the first quote at or after `from`. */
  function FirstQuote(s: string, from: nat): (r: Option<nat>)
    requires from <= |s|
    ensures r.Some? ==> from <= r.value < |s| && IsQuote(s[r.value]) && NoQuote(s, from, r.value)
    ensures r.None? ==> NoQuote(s, from, |s|)
    decreases |s| - from
  {
    if from == |s| then None
    else if IsQuote(s[from]) then Some(from)
    else FirstQuote(s, from + 1)
  }

  /** The capture of a match starting at `p`, if there is one. */
  function MatchAt(s: string, p: nat): Option<string> {
    if !OccursAt(s, Marker, p) then None
    else
      match FirstQuote(s, p + |Marker|)
      case None => None
      case Some(q) =>
        if q + 1 >= |s| || IsQuote(s[q + 1]) then None
        else
          match FirstQuote(s, q + 1)
          case None => None
          case Some(q2) => Some(s[q + 1..q2])
  }

  /** The leftmost match starting at or after `from`. */
  function Scan(s: string, from: nat): Option<string>
    decreases |s| - from
  {
    if from >= |s| then None
    else if MatchAt(s, from).Some? then MatchAt(s, from)
    else Scan(s, from + 1)
  }

  /** `.replace(/^\.\//, '')`. */
  function StripDotSlash(c: string): (r: string)
    ensures r == c || "./" + r == c
    ensures |c| >= 2 && c[..2] == "./" ==> |r| == |c| - 2
  {
    if |c| >= 2 && c[..2] == "./" then c[2..] else c
  }

  /** `extractFrontendCRDPath`: the leftmost capture with one leading "./" removed, or null. */
  function ExtractFrontendCrdPath(content: string): Option<string> {
    match Scan(content, 0)
    case None => None
    case Some(cap) => Some(StripDotSlash(cap))
  }

  /** The body of `RegexMatchAt` for a given position `q` of the first quote. */
  ghost predicate MatchWith(s: string, p: nat, q: nat, cap: string) {
    && p + |Marker| <= q
    && q + 1 + |cap| < |s|
    && NoQuote(s, p + |Marker|, q)
    && IsQuote(s[q])
    && |cap| > 0
    && s[q + 1..q + 1 + |cap|] == cap
    && NoQuote(s, q + 1, q + 1 + |cap|)
    && IsQuote(s[q + 1 + |cap|])
  }

  /** Every capture `MatchAt` reports is a match of the pattern. */
  lemma MatchAtSound(s: string, p: nat, cap: string)
    requires MatchAt(s, p) == Some(cap)
    ensures RegexMatchAt(s, p, cap)
  {
    var q := FirstQuote(s, p + |Marker|).value;
    var q2 := FirstQuote(s, q + 1).value;
    assert q + 1 + |cap| == q2;
    assert MatchWith(s, p, q, cap);
  }

  /** Every match of the pattern at `p` is the one `MatchAt` reports. */
  lemma MatchAtComplete(s: string, p: nat, cap: string)
    requires RegexMatchAt(s, p, cap)
    ensures MatchAt(s, p) == Some(cap)
  {
    var q: nat :| MatchWith(s, p, q, cap);
    assert FirstQuote(s, p + |Marker|) == Some(q);
    assert !IsQuote(s[q + 1]);
    assert FirstQuote(s, q + 1) == Some(q + 1 + |cap|);
  }

  /** `MatchAt` computes exactly the (unique) match at a position. */
  lemma MatchAtSpec(s: string, p: nat, cap: string)
    ensures MatchAt(s, p) == Some(cap) <==> RegexMatchAt(s, p, cap)
  {
    if RegexMatchAt(s, p, cap) {
      MatchAtComplete(s, p, cap);
    }
    if MatchAt(s, p) == Some(cap) {
      MatchAtSound(s, p, cap);
    }
  }

  /** `Scan` returns the capture of the leftmost match at or after `from`, and nothing when there is none. */
  lemma {:induction false} ScanSpec(s: string, from: nat)
    ensures Scan(s, from).None? ==> forall p: nat :: from <= p ==> MatchAt(s, p).None?
    ensures Scan(s, from).Some? ==>
              exists p: nat :: from <= p && MatchAt(s, p) == Scan(s, from)
                               && forall p': nat :: from <= p' < p ==> MatchAt(s, p').None?
    decreases |s| - from
  {
    if from >= |s| {
      forall p: nat | from <= p ensures MatchAt(s, p).None? {
      }
    } else if MatchAt(s, from).Some? {
      assert MatchAt(s, from) == Scan(s, from);
    } else {
      ScanSpec(s, from + 1);
      if Scan(s, from).Some? {
        var p: nat :| from + 1 <= p && MatchAt(s, p) == Scan(s, from + 1)
                      && forall p': nat :: from + 1 <= p' < p ==> MatchAt(s, p').None?;
        assert forall p': nat :: from <= p' < p ==> MatchAt(s, p').None?;
      }
    }
  }

  /** The extractor returns null exactly when the pattern does not match. */
  lemma ExtractNone(content: string)
    ensures ExtractFrontendCrdPath(content).None? <==> forall p: nat, c :: !RegexMatchAt(content, p, c)
  {
    ScanSpec(content, 0);
    if Scan(content, 0).Some? {
      var p: nat :| MatchAt(content, p) == Scan(content, 0);
      MatchAtSpec(content, p, Scan(content, 0).value);
    } else {
      forall p: nat, c ensures !RegexMatchAt(content, p, c) {
        MatchAtSpec(content, p, c);
      }
    }
  }

  /** When the pattern matches, the result is the leftmost capture with one leading "./" removed. */
  lemma ExtractLeftmost(content: string, p: nat, cap: string)
    requires LeftmostMatch(content, p, cap)
    ensures ExtractFrontendCrdPath(content) == Some(StripDotSlash(cap))
  {
    ScanSpec(content, 0);
    MatchAtSpec(content, p, cap);
    var r := Scan(content, 0);
    assert r.Some?;
    var p0: nat :| MatchAt(content, p0) == r && forall p': nat :: p' < p0 ==> MatchAt(content, p').None?;
    MatchAtSpec(content, p0, r.value);
    assert p <= p0;
    assert p0 <= p;
  }

  /** What reading `fec.config.js` on one branch produced. */
  datatype TextFetch = NotOk | Failed | Body(text: string)

  /** A config fetch whose content names a non-empty descriptor path (`if (path)` holds). */
  predicate YieldsPath(c: TextFetch) {
    c.Body? && ExtractFrontendCrdPath(c.text).Some? && ExtractFrontendCrdPath(c.text).value != ""
  }

  /**
   `fetchFrontendYamlPath`: the first branch whose config yields a non-empty
   path; a path that is empty after stripping counts as no path.
   `configs[i]` is the fetch on the i-th branch.
   */
  function FetchFrontendYamlPath(configs: seq<TextFetch>): (r: Option<string>)
    ensures r.Some? ==> r.value != ""
    ensures r.Some? ==> exists i :: 0 <= i < |configs| && YieldsPath(configs[i])
                                    && ExtractFrontendCrdPath(configs[i].text) == r
                                    && forall j :: 0 <= j < i ==> !YieldsPath(configs[j])
    ensures r.None? <==> forall i :: 0 <= i < |configs| ==> !YieldsPath(configs[i])
  {
    if |configs| == 0 then None
    else
      var here :=
        match configs[0]
        case Body(text) => ExtractFrontendCrdPath(text)
        case _ => None;
      if here.Some? && here.value != "" then here
      else
        var rest := FetchFrontendYamlPath(configs[1..]);
        assert forall i :: 1 <= i < |configs| ==> configs[i] == configs[1..][i - 1];
        if rest.Some? then
          var i :| 0 <= i < |configs[1..]| && YieldsPath(configs[1..][i])
                   && ExtractFrontendCrdPath(configs[1..][i].text) == rest
                   && forall j :: 0 <= j < i ==> !YieldsPath(configs[1..][j]);
          assert YieldsPath(configs[i + 1]);
          rest
        else rest
  }
}
