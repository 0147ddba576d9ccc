/**
 Per-repository scanning: the manifest read of `fetchAppName` and the
 descriptor search of `fetchModulesWithRoutes`, over a remote host given as
 data. Every request outcome the host can produce is a value of `Remote`.
 */
module Scan {
  import opened Options
  import opened RepoList
  import opened CrdPath
  import opened Descriptor

  /** Branches tried, in order. */
  const Branches: seq<string> := ["master", "main"]

  /** Descriptor paths tried when the build config names none. */
  const DefaultDescriptorPaths: seq<string> := ["deploy/frontend.yaml", "deploy/frontend.yml"]

  /** What reading `package.json` on one branch produced; an empty `appname` stands for a missing `insights.appname`. */
  datatype ManifestFetch = NotOk | Failed | Manifest(appname: string)

  /** The remote host: the listing pages and what each raw-file request returns. */
  datatype Remote = Remote(
    pages: seq<PageResponse>,
    manifest: (RepoRef, string) -> ManifestFetch,
    config: (RepoRef, string) -> TextFetch,
    descriptor: (RepoRef, string, string) -> DescriptorFetch)

  /** `fetchAppName`: the first branch whose manifest declares a non-empty `insights.appname`. */
  function FetchAppName(manifests: seq<ManifestFetch>): (r: Option<string>)
    ensures r.Some? ==> r.value != "" && Manifest(r.value) in manifests
    ensures r.Some? <==> exists i :: 0 <= i < |manifests| && manifests[i].Manifest? && manifests[i].appname != ""
    ensures r.Some? ==> exists i :: 0 <= i < |manifests| && manifests[i] == Manifest(r.value)
                                    && forall j :: 0 <= j < i ==> !(manifests[j].Manifest? && manifests[j].appname != "")
  {
    if |manifests| == 0 then None
    else if manifests[0].Manifest? && manifests[0].appname != "" then Some(manifests[0].appname)
    else
      assert forall i :: 1 <= i < |manifests| ==> manifests[i] == manifests[1..][i - 1];
      var rest := FetchAppName(manifests[1..]);
      if rest.Some? then
        var i :| 0 <= i < |manifests[1..]| && manifests[1..][i] == Manifest(rest.value)
                 && forall j :: 0 <= j < i ==> !(manifests[1..][j].Manifest? && manifests[1..][j].appname != "");
        assert manifests[i + 1] == Manifest(rest.value);
        rest
      else rest
  }

  /** The descriptor paths to try: the custom one alone if there is one, else the two defaults. */
  function CandidatePaths(custom: Option<string>): (r: seq<string>)
    ensures custom.Some? && custom.value != "" ==> r == [custom.value]
    ensures custom.None? ==> r == DefaultDescriptorPaths
  {
    if custom.Some? && custom.value != "" then [custom.value] else DefaultDescriptorPaths
  }

  /** The (branch, path) attempts with branches in the outer loop and paths in the inner loop. */
  function AttemptOrder(branches: seq<string>, paths: seq<string>): (r: seq<(string, string)>)
    ensures |r| == |branches| * |paths|
  {
    if |branches| == 0 then []
    else
      var rest := AttemptOrder(branches[1..], paths);
      MulStep(|branches|, |paths|);
      seq(|paths|, j requires 0 <= j < |paths| => (branches[0], paths[j])) + rest
  }

  lemma MulStep(i: int, n: int)
    ensures i * n == n + (i - 1) * n
  {
  }

  /** Attempt number `i * |paths| + j` is branch `i` with path `j`. */
  lemma {:induction false} AttemptOrderIndex(branches: seq<string>, paths: seq<string>, i: nat, j: nat)
    requires i < |branches| && j < |paths|
    ensures i * |paths| + j < |AttemptOrder(branches, paths)|
    ensures AttemptOrder(branches, paths)[i * |paths| + j] == (branches[i], paths[j])
  {
    if i > 0 {
      AttemptOrderIndex(branches[1..], paths, i - 1, j);
      MulStep(i, |paths|);
      MulStep(|branches|, |paths|);
      assert (i - 1) * |paths| + j < |AttemptOrder(branches[1..], paths)|;
    }
  }

  /** `fetchFrontendYamlPath` for one repository: the build config read on each branch in turn. */
  function CustomPath(remote: Remote, repo: RepoRef): Option<string> {
    FetchFrontendYamlPath(seq(|Branches|, i requires 0 <= i < |Branches| => remote.config(repo, Branches[i])))
  }

  /** The (branch, descriptor path) pairs tried for one repository, in order. */
  function Attempts(remote: Remote, repo: RepoRef): seq<(string, string)> {
    AttemptOrder(Branches, CandidatePaths(CustomPath(remote, repo)))
  }

  /** What requesting the descriptor at one (branch, path) pair produced. */
  function Fetch(remote: Remote, repo: RepoRef, attempt: (string, string)): DescriptorFetch {
    remote.descriptor(repo, attempt.0, attempt.1)
  }

  /** The outcomes of all attempts for one repository, in attempt order. */
  function Fetches(remote: Remote, repo: RepoRef): (r: seq<DescriptorFetch>)
    ensures |r| == |Attempts(remote, repo)|
    ensures forall i :: 0 <= i < |r| ==> r[i] == Fetch(remote, repo, Attempts(remote, repo)[i])
  {
    var attempts := Attempts(remote, repo);
    seq(|attempts|, i requires 0 <= i < |attempts| => Fetch(remote, repo, attempts[i]))
  }

  /**
   `fetchModulesWithRoutes` for one repository, with an attempt that throws
   contributing nothing: the modules of the first (branch, path) attempt that
   loads and walks without throwing to at least one module, or nothing when
   no attempt does.
   */
  function FetchModulesWithRoutes(remote: Remote, repo: RepoRef): (r: seq<ModuleRoute>)
    ensures forall m :: m in r ==> WellFormed(m)
    ensures var a := Attempts(remote, repo);
            r == [] <==> forall i :: 0 <= i < |a| ==> !Usable(Fetch(remote, repo, a[i]))
    ensures var a := Attempts(remote, repo);
            r != [] ==> exists i :: 0 <= i < |a| && Usable(Fetch(remote, repo, a[i]))
                                    && r == WalkDocument(Fetch(remote, repo, a[i]).doc).found
                                    && forall j :: 0 <= j < i ==> !Usable(Fetch(remote, repo, a[j]))
  {
    FetchModules(Fetches(remote, repo))
  }

  /** When no descriptor walk throws, this is exactly the source's loop with its shared `modules` array. */
  lemma AgreesWithSourceWithoutThrows(remote: Remote, repo: RepoRef)
    requires forall a :: a in Attempts(remote, repo) && Fetch(remote, repo, a).Loaded? ==>
               !WalkDocument(Fetch(remote, repo, a).doc).threw
    ensures FetchModulesWithRoutes(remote, repo) == FetchModulesAsWritten(Fetches(remote, repo), [])
  {
    AsWrittenAgreesWithoutThrows(Fetches(remote, repo));
  }

  /** What scanning one repository yields. */
  datatype RepoScan = RepoScan(repo: RepoRef, appname: Option<string>, modules: seq<ModuleRoute>)

  function ScanRepo(remote: Remote, repo: RepoRef): (s: RepoScan)
    ensures s.repo == repo
    ensures s.appname.Some? ==> s.appname.value != ""
    ensures forall m :: m in s.modules ==> WellFormed(m)
  {
    RepoScan(
      repo,
      FetchAppName(seq(|Branches|, i requires 0 <= i < |Branches| => remote.manifest(repo, Branches[i]))),
      FetchModulesWithRoutes(remote, repo))
  }

  /** The repositories `fetchRepoList` enumerates. */
  function Repos(remote: Remote): seq<RepoRef> {
    Flatten(remote.pages, PagesRead(remote.pages)) + ExtraRepos
  }

  /** Every repository the build scans, in enumeration order. */
  function ScanAll(remote: Remote): (scans: seq<RepoScan>)
    ensures |scans| == |Repos(remote)|
    ensures forall i :: 0 <= i < |scans| ==> scans[i] == ScanRepo(remote, Repos(remote)[i])
  {
    var repos := Repos(remote);
    seq(|repos|, i requires 0 <= i < |repos| => ScanRepo(remote, repos[i]))
  }
}
