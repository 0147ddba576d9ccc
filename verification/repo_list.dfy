/**
 Repository enumeration (`fetchRepoList`): page through the organisation's
 repository listing, keep the usable repositories, stop on the first page that
 is not a full successful page, and append the fixed extra repositories.
 The remote listing is an input: `pages[i]` is what the request for page
 `i + 1` produced. Running past the end of `pages` is treated like a failed
 request.
 */
module RepoList {
  import opened Text

  /** One element of a listing page; an empty `name` stands for a missing or empty name. */
  datatype ListedRepo = ListedRepo(name: string, archived: bool)

  /** What one listing request produced. */
  datatype PageResponse =
    | NotOk(status: int)             // response.ok was false (403 = rate limited)
    | Failed                         // the request or the JSON decoding threw
    | NonArray                       // the body was not a JSON array
    | Page(items: seq<ListedRepo>)   // the body was an array

  /** A repository to scan. */
  datatype RepoRef = RepoRef(org: string, name: string)

  const GitHubOrg: string := "RedHatInsights"
  const PerPage: nat := 100
  const ExtraRepos: seq<RepoRef> := [RepoRef("osbuild", "image-builder-frontend")]

  /** Lower-cased names containing one of these are placeholder scaffolding repositories. */
  const ExcludedWords: seq<string> := ["starter", "template", "boilerplate"]

  /** The listing filter: named, not archived, and not a starter/template/boilerplate. */
  predicate Kept(r: ListedRepo) {
    && r.name != ""
    && !r.archived
    && !Contains(Lower(r.name), "starter")
    && !Contains(Lower(r.name), "template")
    && !Contains(Lower(r.name), "boilerplate")
  }

  /** A page's items that pass the filter, as organisation repositories, in listing order. */
  function PageRepos(items: seq<ListedRepo>): seq<RepoRef> {
    if |items| == 0 then []
    else
      PageRepos(items[..|items| - 1])
      + (if Kept(items[|items| - 1]) then [RepoRef(GitHubOrg, items[|items| - 1].name)] else [])
  }

  /** Paging goes on after this response only when it was a page of at least `PerPage` items. */
  predicate Continues(p: PageResponse) {
    p.Page? && |p.items| >= PerPage
  }

  /** The items a response contributes (none unless it is a page). */
  function ItemsOf(p: PageResponse): seq<ListedRepo> {
    if p.Page? then p.items else []
  }

  /** Index of the first response after which paging stops. */
  function StopIndex(pages: seq<PageResponse>): (k: nat)
    ensures k <= |pages|
    ensures forall i :: 0 <= i < k ==> Continues(pages[i])
    ensures k < |pages| ==> !Continues(pages[k])
  {
    if |pages| == 0 then 0
    else if !Continues(pages[0]) then 0
    else 1 + StopIndex(pages[1..])
  }

  /** Number of responses whose items are read: all full pages plus the one that stopped paging. */
  function PagesRead(pages: seq<PageResponse>): nat {
    var k := StopIndex(pages);
    if k < |pages| then k + 1 else k
  }

  /** The kept repositories of the first `n` responses, in order. */
  function Flatten(pages: seq<PageResponse>, n: nat): seq<RepoRef>
    requires n <= |pages|
  {
    if n == 0 then [] else Flatten(pages, n - 1) + PageRepos(ItemsOf(pages[n - 1]))
  }

  /** The filter loop over one page. */
  method KeepPage(items: seq<ListedRepo>) returns (kept: seq<RepoRef>)
    ensures kept == PageRepos(items)
  {
    kept := [];
    var j := 0;
    while j < |items|
      invariant j <= |items|
      invariant kept == PageRepos(items[..j])
    {
      assert items[..j + 1][..j] == items[..j];
      if Kept(items[j]) {
        kept := kept + [RepoRef(GitHubOrg, items[j].name)];
      }
      j := j + 1;
    }
    assert items[..j] == items;
  }

  /** Paging stops at the first response that does not continue it. */
  lemma {:induction false} StopsAt(pages: seq<PageResponse>, k: nat)
    requires k <= |pages|
    requires forall i :: 0 <= i < k ==> Continues(pages[i])
    requires k < |pages| ==> !Continues(pages[k])
    ensures StopIndex(pages) == k
  {
    if k > 0 {
      assert Continues(pages[0]);
      assert forall i :: 0 <= i < k - 1 ==> pages[1..][i] == pages[i + 1];
      StopsAt(pages[1..], k - 1);
    }
  }

  /**
   The enumeration loop. It never fails: whatever stops it, the result is the
   kept repositories of every page read, followed by `ExtraRepos`.
   */
  method FetchRepoList(pages: seq<PageResponse>) returns (repos: seq<RepoRef>)
    ensures repos == Flatten(pages, PagesRead(pages)) + ExtraRepos
  {
    var acc: seq<RepoRef> := [];
    var page := 0;
    var more := true;
    while more && page < |pages|
      invariant page <= |pages|
      invariant more ==> forall i :: 0 <= i < page ==> Continues(pages[i])
      invariant more ==> acc == Flatten(pages, page)
      invariant !more ==> acc == Flatten(pages, PagesRead(pages))
      decreases |pages| - page, more
    {
      if !Continues(pages[page]) {
        StopsAt(pages, page);
      }
      match pages[page]
      case Page(items) =>
        if |items| == 0 {
          assert PageRepos(items) == [];
          more := false;
        } else {
          var kept := KeepPage(items);
          acc := acc + kept;
          if |items| < PerPage {
            more := false;
          } else {
            page := page + 1;
          }
        }
      case _ =>
        more := false;
    }
    if more {
      StopsAt(pages, |pages|);
    }
    repos := acc + ExtraRepos;
  }

  /** A repository comes out of a page exactly when the page lists it under that name and it passes the filter. */
  lemma {:induction false} PageReposMembers(items: seq<ListedRepo>, r: RepoRef)
    ensures r in PageRepos(items) <==>
              r.org == GitHubOrg && exists i :: 0 <= i < |items| && items[i].name == r.name && Kept(items[i])
  {
    if |items| != 0 {
      var init := items[..|items| - 1];
      PageReposMembers(init, r);
      assert forall i :: 0 <= i < |init| ==> init[i] == items[i];
    }
  }

  /** A repository comes out of the enumeration exactly when a page that was read lists it and it passes the filter, or it is an extra repository. */
  lemma {:induction false} FlattenMembers(pages: seq<PageResponse>, n: nat, r: RepoRef)
    requires n <= |pages|
    ensures r in Flatten(pages, n) <==>
              r.org == GitHubOrg
              && exists p, i :: 0 <= p < n && 0 <= i < |ItemsOf(pages[p])|
                                && ItemsOf(pages[p])[i].name == r.name && Kept(ItemsOf(pages[p])[i])
  {
    if n != 0 {
      FlattenMembers(pages, n - 1, r);
      PageReposMembers(ItemsOf(pages[n - 1]), r);
    }
  }

  /** No enumerated organisation repository is archived, unnamed, or has an excluded word in its lower-cased name. */
  lemma FilteredRepos(pages: seq<PageResponse>, r: RepoRef)
    requires r in Flatten(pages, PagesRead(pages))
    ensures r.org == GitHubOrg && r.name != ""
    ensures forall w :: w in ExcludedWords ==> !Contains(Lower(r.name), w)
  {
    FlattenMembers(pages, PagesRead(pages), r);
  }

  /** Rate limiting on the first request leaves no organisation repositories, so the enumeration yields only the extra ones. */
  lemma RateLimitedFirstPage(pages: seq<PageResponse>)
    requires |pages| > 0 && pages[0] == NotOk(403)
    ensures Flatten(pages, PagesRead(pages)) == []
  {
    assert StopIndex(pages) == 0;
  }

  /** A repository named like the starter app is dropped whatever its other fields. */
  lemma StarterRepoDropped(archived: bool)
    ensures !Kept(ListedRepo("frontend-starter-app", archived))
  {
    ContainsSpec(Lower("frontend-starter-app"), "starter");
    assert OccursAt(Lower("frontend-starter-app"), "starter", 9);
  }

  /** A repository named like the template repository is dropped. */
  lemma TemplateRepoDropped(archived: bool)
    ensures !Kept(ListedRepo("template-repo", archived))
  {
    ContainsSpec(Lower("template-repo"), "template");
    assert OccursAt(Lower("template-repo"), "template", 0);
  }

  /** An ordinary application repository is kept unless archived. */
  lemma AppRepoKept(archived: bool)
    ensures Kept(ListedRepo("learning-resources", archived)) <==> !archived
  {
    var n := "learning-resources";
    assert Lower(n) == n;
    assert 't' !in n && 'b' !in n;
    NoOccurrence(n, "starter", 1);
    NoOccurrence(n, "template", 0);
    NoOccurrence(n, "boilerplate", 0);
  }

  /** `w` does not occur in `s` when one of its characters never does. */
  lemma NoOccurrence(s: string, w: string, k: nat)
    requires k < |w| && w[k] !in s
    ensures !Contains(s, w)
  {
    ContainsSpec(s, w);
    forall i: nat ensures !OccursAt(s, w, i) {
      if i + |w| <= |s| {
        assert s[i..i + |w|][k] == s[i + k];
      }
    }
  }
}
