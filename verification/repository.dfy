/** `GitHubRepository`: the repository layer's in-memory caches, as maps threaded
    through the calls, and its decisions about installable releases, list tags,
    error messages and screenshot URLs. Every GitHub API answer is a parameter:
    a `Fetch` for one call, or a function giving the answer for each request. */
module Repository {

  import opened Wrappers
  import opened Text
  import opened Models
  import Sorting
  import ApkArchitecture

  const ScreenshotFolders: seq<string> :=
    ["screenshots", "screenshot", "images", "image", "assets", "art", "media", "pics", "pictures", "img"]
  const ImageExtensions: seq<string> := [".png", ".jpg", ".jpeg", ".gif", ".webp"]
  const InstallableExtensions: seq<string> := [".apk", ".aab"]

  const MaxScreenshots: int := 8
  const MaxReadmeImages: int := 5
  const MaxFolderImages: int := 4
  const DefaultBranch: string := "main"
  const RawContentHost: string := "https://raw.githubusercontent.com/"

  // ---------------------------------------------------------------------------
  // Installable releases

  /** `s` ends with one of `suffixes`. */
  function AnyEndsWith(s: string, suffixes: seq<string>): (r: bool)
    ensures r <==> exists k :: 0 <= k < |suffixes| && EndsWith(s, suffixes[k])
  {
    if |suffixes| == 0 then false
    else EndsWith(s, suffixes[0]) || AnyEndsWith(s, suffixes[1..])
  }

  /** An asset the store lists an app for: its lower-cased name ends with ".apk" or ".aab". */
  predicate IsInstallable(a: ReleaseAsset) {
    exists k :: 0 <= k < |InstallableExtensions| && EndsWith(Lower(a.name), InstallableExtensions[k])
  }

  function AnyInstallable(assets: seq<ReleaseAsset>): (r: bool)
    ensures r <==> exists i :: 0 <= i < |assets| && IsInstallable(assets[i])
  {
    if |assets| == 0 then false
    else
      AnyEndsWith(Lower(assets[0].name), InstallableExtensions) || AnyInstallable(assets[1..])
  }

  /** `hasInstallableAsset`: a release (none means false) with an installable asset. */
  function HasInstallableAsset(release: Option<GitHubRelease>): (r: bool)
    ensures r <==> release.Some? && exists i :: 0 <= i < |release.value.assets| && IsInstallable(release.value.assets[i])
  {
    release.Some? && AnyInstallable(release.value.assets)
  }

  /** Whenever the installer finds an APK to offer, the release counts as installable. */
  lemma SelectedApkIsInstallable(release: GitHubRelease, deviceAbis: seq<string>)
    requires !ApkArchitecture.SelectBestApk(release.assets, deviceAbis).NoApkFound?
    ensures HasInstallableAsset(Some(release))
  {
    var a := ApkArchitecture.SelectBestApk(release.assets, deviceAbis).asset;
    var i :| 0 <= i < |release.assets| && release.assets[i] == a;
    assert EndsWith(Lower(a.name), InstallableExtensions[0]);
  }

  /** The converse fails: a release whose assets are all ".aab" bundles is listed as
      installable, yet the installer finds no APK in it. */
  lemma BundleOnlyReleaseHasNoApk(release: GitHubRelease, deviceAbis: seq<string>)
    requires |release.assets| > 0
    requires forall i :: 0 <= i < |release.assets| ==> EndsWith(Lower(release.assets[i].name), ".aab")
    ensures HasInstallableAsset(Some(release))
    ensures ApkArchitecture.SelectBestApk(release.assets, deviceAbis).NoApkFound?
  {
    assert EndsWith(Lower(release.assets[0].name), InstallableExtensions[1]);
    forall i | 0 <= i < |release.assets| ensures !ApkArchitecture.IsApk(release.assets[i]) {
      var n := Lower(release.assets[i].name);
      assert n[|n| - 4..][2] == 'a';
    }
  }

  // ---------------------------------------------------------------------------
  // Caches

  /** The in-memory caches, keyed by "owner/repo". A release entry may hold `None`:
      a remembered "not found". */
  datatype Caches = Caches(
    releases: map<string, Option<GitHubRelease>>,
    screenshots: map<string, seq<string>>,
    apkRepos: map<string, bool>)

  const EmptyCaches: Caches := Caches(map[], map[], map[])

  function CacheKey(owner: string, repoName: string): string {
    owner + "/" + repoName
  }

  function RepoKey(repo: GitHubRepo): string {
    CacheKey(repo.owner.login, repo.name)
  }

  /** The answer of one `getLatestRelease` API call. */
  datatype Fetch =
    | Fetched(release: GitHubRelease)
    | HttpFailure(code: int, statusMessage: string)
    | Failed(message: Option<string>)

  /** Entries already decided in `c` keep their value in `d`, and so does the release
      stored under their key. */
  predicate Settled(c: Caches, d: Caches) {
    forall k :: k in c.apkRepos ==>
      && k in d.apkRepos && d.apkRepos[k] == c.apkRepos[k]
      && (k in d.releases <==> k in c.releases)
      && (k in c.releases ==> d.releases[k] == c.releases[k])
  }

  datatype ApkCheck = ApkCheck(caches: Caches, hasApk: bool)

  /** `repoHasApk`: a decided key answers from the cache; otherwise the latest release
      is fetched and the answer remembered, with the release when it is installable;
      a failed fetch is remembered as "no APK". */
  function RepoHasApk(c: Caches, owner: string, repoName: string, fetch: Fetch): (r: ApkCheck)
    ensures CacheKey(owner, repoName) in r.caches.apkRepos
    ensures r.caches.apkRepos[CacheKey(owner, repoName)] == r.hasApk
    ensures CacheKey(owner, repoName) in c.apkRepos ==> r == ApkCheck(c, c.apkRepos[CacheKey(owner, repoName)])
    ensures CacheKey(owner, repoName) !in c.apkRepos ==>
              (r.hasApk <==> fetch.Fetched? && HasInstallableAsset(Some(fetch.release)))
    ensures CacheKey(owner, repoName) !in c.apkRepos && r.hasApk ==>
              r.caches.releases == c.releases[CacheKey(owner, repoName) := Some(fetch.release)]
    ensures !r.hasApk ==> r.caches.releases == c.releases
    ensures r.caches.screenshots == c.screenshots
    ensures Settled(c, r.caches)
  {
    var key := CacheKey(owner, repoName);
    if key in c.apkRepos then ApkCheck(c, c.apkRepos[key])
    else
      match fetch
      case Fetched(release) =>
        var hasApk := HasInstallableAsset(Some(release));
        var releases := if hasApk then c.releases[key := Some(release)] else c.releases;
        ApkCheck(c.(apkRepos := c.apkRepos[key := hasApk], releases := releases), hasApk)
      case _ =>
        ApkCheck(c.(apkRepos := c.apkRepos[key := false]), false)
  }

  /** Asking twice gives the same answer, whatever the server says the second time,
      and the second call changes nothing. */
  lemma RepoHasApkMemoised(c: Caches, owner: string, repoName: string, first: Fetch, second: Fetch)
    ensures var r := RepoHasApk(c, owner, repoName, first);
            RepoHasApk(r.caches, owner, repoName, second) == r
  {
  }

  /** The release remembered under a key; an absent entry reads as none. */
  function CachedRelease(c: Caches, key: string): Option<GitHubRelease> {
    if key in c.releases then c.releases[key] else None
  }

  predicate Flagged(c: Caches, repo: GitHubRepo) {
    RepoKey(repo) in c.apkRepos && c.apkRepos[RepoKey(repo)]
  }

  /** The list item built for a repo from the cached release. `age` gives the whole
      days from a timestamp to now, or none when the timestamp does not parse. */
  function ItemFor(c: Caches, repo: GitHubRepo, age: string -> Option<int>): AppItem {
    var release := CachedRelease(c, RepoKey(repo));
    AppItem(repo, release, DetermineTag(repo, release, age))
  }

  /** Reference listing: the repos flagged in `c`, in their order, as list items. */
  function Listed(c: Caches, repos: seq<GitHubRepo>, age: string -> Option<int>): (r: seq<AppItem>)
    ensures |r| <= |repos|
    ensures forall x :: x in r ==> x.repo in repos && Flagged(c, x.repo) && x == ItemFor(c, x.repo, age)
    ensures forall i :: 0 <= i < |repos| && Flagged(c, repos[i]) ==> ItemFor(c, repos[i], age) in r
  {
    if |repos| == 0 then []
    else
      var rest := Listed(c, repos[1..], age);
      assert forall i :: 1 <= i < |repos| ==> repos[i] == repos[1..][i - 1];
      if Flagged(c, repos[0]) then [ItemFor(c, repos[0], age)] + rest else rest
  }

  datatype Filtered = Filtered(caches: Caches, items: seq<AppItem>)

  /** `filterReposWithApk`: checks every repo in list order (the source checks them
      concurrently) and keeps those with an installable release as list items. */
  function FilterReposWithApk(c: Caches, repos: seq<GitHubRepo>, server: (string, string) -> Fetch,
                              age: string -> Option<int>): (r: Filtered)
    ensures Settled(c, r.caches)
    ensures forall i :: 0 <= i < |repos| ==> RepoKey(repos[i]) in r.caches.apkRepos
    ensures r.caches.screenshots == c.screenshots
    decreases |repos|
  {
    if |repos| == 0 then Filtered(c, [])
    else
      var repo := repos[0];
      var check := RepoHasApk(c, repo.owner.login, repo.name, server(repo.owner.login, repo.name));
      var rest := FilterReposWithApk(check.caches, repos[1..], server, age);
      assert forall i :: 1 <= i < |repos| ==> repos[i] == repos[1..][i - 1];
      var head := if check.hasApk then [ItemFor(check.caches, repo, age)] else [];
      Filtered(rest.caches, head + rest.items)
  }

  lemma SettledItem(c: Caches, d: Caches, repo: GitHubRepo, age: string -> Option<int>)
    requires Settled(c, d) && RepoKey(repo) in c.apkRepos
    ensures Flagged(d, repo) == Flagged(c, repo)
    ensures ItemFor(d, repo, age) == ItemFor(c, repo, age)
  {
  }

  /** The items are exactly the repos the final caches flag, in list order, each with
      the release the caches hold for it. */
  lemma {:induction false} FilterListsFlaggedRepos(c: Caches, repos: seq<GitHubRepo>,
                                                   server: (string, string) -> Fetch, age: string -> Option<int>)
    ensures var r := FilterReposWithApk(c, repos, server, age);
            r.items == Listed(r.caches, repos, age)
    decreases |repos|
  {
    if |repos| > 0 {
      var repo := repos[0];
      var check := RepoHasApk(c, repo.owner.login, repo.name, server(repo.owner.login, repo.name));
      var rest := FilterReposWithApk(check.caches, repos[1..], server, age);
      FilterListsFlaggedRepos(check.caches, repos[1..], server, age);
      SettledItem(check.caches, rest.caches, repo, age);
    }
  }

  /** A repo seen for the first time is listed exactly when the server's latest release
      has an installable asset. */
  lemma FreshRepoListedIffInstallable(c: Caches, repo: GitHubRepo, server: (string, string) -> Fetch,
                                      age: string -> Option<int>)
    requires RepoKey(repo) !in c.apkRepos
    ensures var f := server(repo.owner.login, repo.name);
            var listed := |FilterReposWithApk(c, [repo], server, age).items| == 1;
            listed <==> f.Fetched? && HasInstallableAsset(Some(f.release))
  {
    var check := RepoHasApk(c, repo.owner.login, repo.name, server(repo.owner.login, repo.name));
    assert [repo][1..] == [];
  }

  // ---------------------------------------------------------------------------
  // Tags and errors

  /** `determineTag`: archived repos first; then repos created at most 30 days ago;
      then repos whose release was published at most 7 days ago. An unparsable date
      never earns a tag. Day counts truncate, so a date in the future also counts. */
  function DetermineTag(repo: GitHubRepo, release: Option<GitHubRelease>, age: string -> Option<int>): (r: Option<AppTag>)
    ensures r == Some(ARCHIVED) <==> repo.archived
    ensures r == Some(NEW) <==> !repo.archived && age(repo.createdAt).Some? && age(repo.createdAt).value <= 30
    ensures r == Some(UPDATED) ==> release.Some? && age(release.value.publishedAt).Some?
                                   && age(release.value.publishedAt).value <= 7
    ensures r.None? <==>
              && !repo.archived
              && (age(repo.createdAt).None? || age(repo.createdAt).value > 30)
              && (release.None? || age(release.value.publishedAt).None? || age(release.value.publishedAt).value > 7)
  {
    if repo.archived then Some(ARCHIVED)
    else if age(repo.createdAt).Some? && age(repo.createdAt).value <= 30 then Some(NEW)
    else if release.Some? && age(release.value.publishedAt).Some? && age(release.value.publishedAt).value <= 7 then Some(UPDATED)
    else None
  }

  /** A repo created within the week is tagged NEW, never UPDATED, whatever its release. */
  lemma NewOutranksUpdated(repo: GitHubRepo, release: Option<GitHubRelease>, age: string -> Option<int>)
    requires !repo.archived && age(repo.createdAt).Some? && age(repo.createdAt).value <= 7
    ensures DetermineTag(repo, release, age) == Some(NEW)
  {
  }

  const RateLimitExceeded: string :=
    "Rate limit exceeded. " + "Please wait a few minutes or add a GitHub token in settings."
  const ApiRateLimitReached: string :=
    "API rate limit reached. " + "Add a GitHub token to increase limit (60 → 5000 requests/hour)."
  const NotFound: string := "Not found"
  const ServerErrorMessage: string := "GitHub server error. Please try again."
  const NetworkErrorPrefix: string := "Network error: "

  /** How the repository words an HTTP error. */
  datatype HttpErrorKind = RateLimited | Forbidden | Missing | ServerError | NetworkError

  function ErrorKind(code: int): HttpErrorKind {
    if code == 429 then RateLimited
    else if code == 403 then Forbidden
    else if code == 404 then Missing
    else if code == 500 || code == 502 || code == 503 then ServerError
    else NetworkError
  }

  function HttpErrorMessage(code: int, statusMessage: string): (m: string)
    ensures ErrorKind(code) == NetworkError ==> StartsWith(m, NetworkErrorPrefix)
  {
    match ErrorKind(code)
    case RateLimited => RateLimitExceeded
    case Forbidden => ApiRateLimitReached
    case Missing => NotFound
    case ServerError => ServerErrorMessage
    case NetworkError =>
      StartsWithConcat(NetworkErrorPrefix, statusMessage);
      NetworkErrorPrefix + statusMessage
  }

  /** `handleHttpException`: always a failure, carrying the worded message. */
  function HandleHttpException<T>(code: int, statusMessage: string): (r: Result<T>)
    ensures r.Failure? && r.message == Some(HttpErrorMessage(code, statusMessage))
  {
    Failure(Some(HttpErrorMessage(code, statusMessage)))
  }

  /** The message tells the kinds of error apart, and for other codes gives back the
      server's status message. */
  lemma HttpErrorMessageDistinguishes(c1: int, s1: string, c2: int, s2: string)
    requires HttpErrorMessage(c1, s1) == HttpErrorMessage(c2, s2)
    ensures ErrorKind(c1) == ErrorKind(c2)
    ensures ErrorKind(c1) == NetworkError ==> s1 == s2
  {
    var m := HttpErrorMessage(c1, s1);
    if ErrorKind(c1) == NetworkError {
      NotNetworkErrorMessage(c2, s2);
      assert s1 == m[|NetworkErrorPrefix|..] == s2;
    } else if ErrorKind(c2) == NetworkError {
      NotNetworkErrorMessage(c1, s1);
    }
  }

  /** The worded message of a known code does not start as a network error's does. */
  lemma NotNetworkErrorMessage(code: int, statusMessage: string)
    ensures ErrorKind(code) != NetworkError <==> !StartsWith(HttpErrorMessage(code, statusMessage), NetworkErrorPrefix)
  {
    var m := HttpErrorMessage(code, statusMessage);
    match ErrorKind(code)
    case RateLimited => assert m == RateLimitExceeded && m[0] == 'R';
    case Forbidden => assert m == ApiRateLimitReached && m[0] == 'A';
    case Missing => assert m == NotFound;
    case ServerError => assert m == ServerErrorMessage && m[0] == 'G';
    case NetworkError =>
  }

  // ---------------------------------------------------------------------------
  // Latest release

  /** A cached release answers `getLatestRelease`; a remembered "not found" does not. */
  predicate ReleaseHit(c: Caches, key: string) {
    key in c.releases && c.releases[key].Some?
  }

  datatype ReleaseLookup = ReleaseLookup(caches: Caches, result: Result<GitHubRelease>)

  /** `getLatestRelease`: from the cache when it holds a release, otherwise fetched and
      remembered; a 404 is remembered as "not found"; HTTP errors are worded. */
  function GetLatestRelease(c: Caches, owner: string, repoName: string, fetch: Fetch): (r: ReleaseLookup)
    ensures ReleaseHit(c, CacheKey(owner, repoName)) ==>
              r == ReleaseLookup(c, Success(c.releases[CacheKey(owner, repoName)].value))
    ensures r.result.Success? <==> ReleaseHit(c, CacheKey(owner, repoName)) || fetch.Fetched?
    ensures r.result.Success? ==>
              ReleaseHit(r.caches, CacheKey(owner, repoName))
              && r.caches.releases[CacheKey(owner, repoName)] == Some(r.result.value)
    ensures !ReleaseHit(c, CacheKey(owner, repoName)) && fetch.Fetched? ==> r.result.value == fetch.release
    ensures !ReleaseHit(c, CacheKey(owner, repoName)) && fetch.HttpFailure? ==>
              r.result == HandleHttpException(fetch.code, fetch.statusMessage)
    ensures !ReleaseHit(c, CacheKey(owner, repoName)) && fetch.HttpFailure? && fetch.code == 404 ==>
              CacheKey(owner, repoName) in r.caches.releases && r.caches.releases[CacheKey(owner, repoName)].None?
    ensures !ReleaseHit(c, CacheKey(owner, repoName)) && fetch.Failed? ==> r.result == Failure(fetch.message)
    ensures r.result.Failure? && !(fetch.HttpFailure? && fetch.code == 404) ==> r.caches == c
    ensures r.caches.releases - {CacheKey(owner, repoName)} == c.releases - {CacheKey(owner, repoName)}
    ensures r.caches.apkRepos == c.apkRepos && r.caches.screenshots == c.screenshots
  {
    var key := CacheKey(owner, repoName);
    if ReleaseHit(c, key) then ReleaseLookup(c, Success(c.releases[key].value))
    else
      match fetch
      case Fetched(release) => ReleaseLookup(c.(releases := c.releases[key := Some(release)]), Success(release))
      case HttpFailure(code, statusMessage) =>
        var c' := if code == 404 then c.(releases := c.releases[key := None]) else c;
        ReleaseLookup(c', HandleHttpException(code, statusMessage))
      case Failed(message) => ReleaseLookup(c, Failure(message))
  }

  /** Once a release was fetched, later lookups return it without asking the server. */
  lemma LatestReleaseMemoised(c: Caches, owner: string, repoName: string, first: Fetch, second: Fetch)
    requires GetLatestRelease(c, owner, repoName, first).result.Success?
    ensures var r := GetLatestRelease(c, owner, repoName, first);
            GetLatestRelease(r.caches, owner, repoName, second) == r
  {
  }

  /** A remembered "not found" does not stop the next lookup from asking the server. */
  lemma NotFoundIsRetried(c: Caches, owner: string, repoName: string, status: string, release: GitHubRelease)
    requires !ReleaseHit(c, CacheKey(owner, repoName))
    ensures var r := GetLatestRelease(c, owner, repoName, HttpFailure(404, status));
            && r.result == Failure(Some(NotFound))
            && GetLatestRelease(r.caches, owner, repoName, Fetched(release)).result == Success(release)
  {
  }

  /** A release found installable by the APK check is served to the detail screen
      without another request. */
  lemma ApkCheckPrimesReleaseCache(c: Caches, owner: string, repoName: string, fetch: Fetch, later: Fetch)
    requires CacheKey(owner, repoName) !in c.apkRepos
    requires RepoHasApk(c, owner, repoName, fetch).hasApk
    ensures GetLatestRelease(RepoHasApk(c, owner, repoName, fetch).caches, owner, repoName, later).result
            == Success(fetch.release)
  {
  }

  // ---------------------------------------------------------------------------
  // Screenshots

  /** A URL that names an image: its lower-cased text contains an image extension. */
  predicate IsImageUrl(url: string) {
    exists k :: 0 <= k < |ImageExtensions| && Contains(Lower(url), ImageExtensions[k])
  }

  /** Kotlin's `trimStart('/')`. */
  function TrimLeadingSlashes(s: string): (r: string)
    ensures |r| <= |s| && r == s[|s| - |r|..]
    ensures |r| > 0 ==> r[0] != '/'
    ensures forall i :: 0 <= i < |s| - |r| ==> s[i] == '/'
    decreases |s|
  {
    if |s| > 0 && s[0] == '/' then
      var r := TrimLeadingSlashes(s[1..]);
      assert forall i :: 1 <= i < |s| ==> s[i] == s[1..][i - 1];
      r
    else s
  }

  /** The raw-content prefix of a file in the repo at `branch`. */
  function RawBase(owner: string, repoName: string, branch: string): (r: string)
    ensures StartsWith(r, RawContentHost)
  {
    StartsWithConcat(RawContentHost, owner + "/" + repoName + "/" + branch + "/");
    RawContentHost + (owner + "/" + repoName + "/" + branch + "/")
  }

  /** A README image link made absolute: links starting with "http" are kept, others
      are read as paths in the repo at `branch`, leading slashes dropped. */
  function ResolveImageUrl(owner: string, repoName: string, branch: string, url: string): (r: string)
    ensures StartsWith(url, "http") ==> r == url
    ensures !StartsWith(url, "http") ==>
              r == RawBase(owner, repoName, branch) + TrimLeadingSlashes(url)
              && StartsWith(r, RawContentHost)
  {
    if StartsWith(url, "http") then url
    else
      var base := RawBase(owner, repoName, branch);
      StartsWithConcat(base, TrimLeadingSlashes(url));
      assert (base + TrimLeadingSlashes(url))[..|RawContentHost|] == base[..|RawContentHost|];
      base + TrimLeadingSlashes(url)
  }

  /** Leading slashes on a relative link make no difference. */
  lemma LeadingSlashIgnored(owner: string, repoName: string, branch: string, url: string)
    requires !StartsWith(url, "http")
    ensures ResolveImageUrl(owner, repoName, branch, "/" + url) == ResolveImageUrl(owner, repoName, branch, url)
  {
    assert ("/" + url)[1..] == url;
    assert !StartsWith("/" + url, "http") by {
      assert ("/" + url)[0] == '/';
    }
  }

  /** Dropping leading slashes keeps every image extension in the text. */
  lemma TrimKeepsExtension(url: string, ext: string)
    requires |ext| > 0 && ext[0] == '.' && Contains(Lower(url), ext)
    ensures Contains(Lower(TrimLeadingSlashes(url)), ext)
  {
    var i :| 0 <= i <= |url| - |ext| && OccursAt(Lower(url), ext, i);
    var d := |url| - |TrimLeadingSlashes(url)|;
    OccurrencePastSlashes(url, ext, i);
    ShiftOccurrence(url, d, ext, i);
  }

  /** An occurrence of text starting with '.' lies after the leading slashes. */
  lemma OccurrencePastSlashes(url: string, ext: string, i: int)
    requires |ext| > 0 && ext[0] == '.' && OccursAt(Lower(url), ext, i)
    ensures i >= |url| - |TrimLeadingSlashes(url)|
  {
    assert Lower(url)[i] == '.' by {
      assert Lower(url)[i..i + |ext|][0] == Lower(url)[i];
    }
    assert LowerChar(url[i]) == '.';
  }

  lemma ShiftOccurrence(url: string, d: nat, ext: string, i: int)
    requires d <= i && OccursAt(Lower(url), ext, i) && TrimLeadingSlashes(url) == url[d..]
    ensures OccursAt(Lower(TrimLeadingSlashes(url)), ext, i - d)
  {
    LowerSuffix(url, d);
    OccursInSuffix(Lower(url), d, ext, i);
  }

  lemma LowerSuffix(s: string, d: nat)
    requires d <= |s|
    ensures Lower(s[d..]) == Lower(s)[d..]
  {
  }

  /** Text put in front keeps every extension the lower-cased rest contains. */
  lemma PrefixKeepsExtension(base: string, t: string, ext: string)
    requires Contains(Lower(t), ext)
    ensures Contains(Lower(base + t), ext)
  {
    ContainsExtend(Lower(base), Lower(t), [], ext);
    LowerConcat(base, t);
    assert Lower(base) + Lower(t) + [] == Lower(base + t);
  }

  /** A relative link keeps its image extension once resolved. */
  lemma RelativeKeepsExtension(owner: string, repoName: string, branch: string, url: string, ext: string)
    requires !StartsWith(url, "http") && |ext| > 0 && ext[0] == '.' && Contains(Lower(url), ext)
    ensures Contains(Lower(ResolveImageUrl(owner, repoName, branch, url)), ext)
  {
    TrimKeepsExtension(url, ext);
    PrefixKeepsExtension(RawBase(owner, repoName, branch), TrimLeadingSlashes(url), ext);
  }

  lemma ResolvedStartsWithHttp(owner: string, repoName: string, branch: string, url: string)
    ensures StartsWith(ResolveImageUrl(owner, repoName, branch, url), "http")
  {
    if !StartsWith(url, "http") {
      assert StartsWith(RawContentHost, "http");
      StartsWithTrans(ResolveImageUrl(owner, repoName, branch, url), RawContentHost, "http");
    }
  }

  lemma ImageExtensionDotted(k: int)
    requires 0 <= k < |ImageExtensions|
    ensures |ImageExtensions[k]| > 0 && ImageExtensions[k][0] == '.'
  {
    if k == 0 {
    } else if k == 1 {
    } else if k == 2 {
    } else if k == 3 {
    } else {
    }
  }

  /** Resolved URLs all start with "http" and still name an image. */
  lemma ResolvedImageUrl(owner: string, repoName: string, branch: string, url: string)
    requires IsImageUrl(url)
    ensures StartsWith(ResolveImageUrl(owner, repoName, branch, url), "http")
    ensures IsImageUrl(ResolveImageUrl(owner, repoName, branch, url))
  {
    ResolvedStartsWithHttp(owner, repoName, branch, url);
    if !StartsWith(url, "http") {
      var k :| 0 <= k < |ImageExtensions| && Contains(Lower(url), ImageExtensions[k]);
      ImageExtensionDotted(k);
      RelativeKeepsExtension(owner, repoName, branch, url, ImageExtensions[k]);
      assert Contains(Lower(ResolveImageUrl(owner, repoName, branch, url)), ImageExtensions[k]);
    }
  }

  /** The image links, in order. */
  function ImageLinks(links: seq<string>): (r: seq<string>)
    ensures |r| <= |links|
    ensures forall i :: 0 <= i < |r| ==> IsImageUrl(r[i]) && r[i] in links
    ensures forall u :: u in links && IsImageUrl(u) ==> u in r
  {
    if |links| == 0 then []
    else
      assert links == [links[0]] + links[1..];
      var rest := ImageLinks(links[1..]);
      if ApkArchitecture.AnyContained(Lower(links[0]), ImageExtensions) then [links[0]] + rest else rest
  }

  /** The image links are the links' `filter` on `IsImageUrl`, in document order. */
  lemma {:induction false} ImageLinksIsFilter(links: seq<string>)
    ensures ImageLinks(links) == Sorting.Filter(links, IsImageUrl)
    decreases |links|
  {
    if |links| > 0 {
      ImageLinksIsFilter(links[1..]);
    }
  }

  function ResolveAll(owner: string, repoName: string, branch: string, links: seq<string>): (r: seq<string>)
    ensures |r| == |links|
    ensures forall i :: 0 <= i < |links| ==> r[i] == ResolveImageUrl(owner, repoName, branch, links[i])
  {
    seq(|links|, i requires 0 <= i < |links| => ResolveImageUrl(owner, repoName, branch, links[i]))
  }

  /** `getImagesFromReadme`: the first five image links of the README, made absolute.
      `links` are the README's image links in document order (markdown images, then
      HTML `img` tags); it is empty when the README could not be read. */
  function ReadmeImages(owner: string, repoName: string, branch: string, links: seq<string>): (r: seq<string>)
    ensures |r| <= MaxReadmeImages
    ensures forall i :: 0 <= i < |r| ==> StartsWith(r[i], "http") && IsImageUrl(r[i])
    ensures forall i :: 0 <= i < |r| ==> exists j :: 0 <= j < |links| && IsImageUrl(links[j])
                                              && r[i] == ResolveImageUrl(owner, repoName, branch, links[j])
    ensures var images := ImageLinks(links);
            |r| == (if |images| < MaxReadmeImages then |images| else MaxReadmeImages)
            && forall i :: 0 <= i < |r| ==> r[i] == ResolveImageUrl(owner, repoName, branch, images[i])
  {
    var images := ImageLinks(links);
    var r := Sorting.Take(ResolveAll(owner, repoName, branch, images), MaxReadmeImages);
    forall i | 0 <= i < |r|
      ensures StartsWith(r[i], "http") && IsImageUrl(r[i])
      ensures exists j :: 0 <= j < |links| && IsImageUrl(links[j]) && r[i] == ResolveImageUrl(owner, repoName, branch, links[j])
    {
      ResolvedImageUrl(owner, repoName, branch, images[i]);
      var j :| 0 <= j < |links| && links[j] == images[i];
    }
    r
  }

  /** An entry the folder listing offers as an image: a file with an image extension. */
  predicate IsImageFile(e: GitHubContent) {
    e.kind == "file" && AnyEndsWith(Lower(e.name), ImageExtensions)
  }

  /** The URL an entry contributes: its download URL when it is an image file. */
  function ImageUrlOf(e: GitHubContent): Option<string> {
    if IsImageFile(e) then e.downloadUrl else None
  }

  predicate HasImageUrl(e: GitHubContent) {
    ImageUrlOf(e).Some?
  }

  /** `r` holds, in order, the download URL of every entry that offers an image. */
  predicate ListsImageUrls(entries: seq<GitHubContent>, r: seq<string>) {
    var kept := Sorting.Filter(entries, HasImageUrl);
    |r| == |kept| && forall i :: 0 <= i < |r| ==> ImageUrlOf(kept[i]) == Some(r[i])
  }

  /** The download URLs of the image files that have one, in order. */
  function ImageFileUrls(entries: seq<GitHubContent>): (r: seq<string>)
    ensures |r| <= |entries|
    ensures forall i :: 0 <= i < |r| ==> exists j :: 0 <= j < |entries| && ImageUrlOf(entries[j]) == Some(r[i])
    ensures forall j :: 0 <= j < |entries| && ImageUrlOf(entries[j]).Some? ==> ImageUrlOf(entries[j]).value in r
    ensures var kept := Sorting.Filter(entries, HasImageUrl);
            |r| == |kept| && forall i :: 0 <= i < |r| ==> ImageUrlOf(kept[i]) == Some(r[i])
  {
    if |entries| == 0 then []
    else
      var rest := ImageFileUrls(entries[1..]);
      var r := (if HasImageUrl(entries[0]) then [ImageUrlOf(entries[0]).value] else []) + rest;
      ImageUrlsStep(entries, rest);
      ImageUrlsMembers(entries, r);
      r
  }

  lemma ImageUrlsStep(entries: seq<GitHubContent>, rest: seq<string>)
    requires |entries| > 0 && ListsImageUrls(entries[1..], rest)
    ensures ListsImageUrls(entries, (if HasImageUrl(entries[0]) then [ImageUrlOf(entries[0]).value] else []) + rest)
  {
    var head := if HasImageUrl(entries[0]) then [ImageUrlOf(entries[0]).value] else [];
    var r := head + rest;
    var keptRest := Sorting.Filter(entries[1..], HasImageUrl);
    var kept := Sorting.Filter(entries, HasImageUrl);
    assert kept == (if HasImageUrl(entries[0]) then [entries[0]] + keptRest else keptRest);
    forall i | 0 <= i < |r| ensures ImageUrlOf(kept[i]) == Some(r[i]) {
      if i >= |head| {
        assert kept[i] == keptRest[i - |head|] && r[i] == rest[i - |head|];
      }
    }
  }

  /** Every listed URL comes from an entry, and every entry's image URL is listed. */
  lemma ImageUrlsMembers(entries: seq<GitHubContent>, r: seq<string>)
    requires ListsImageUrls(entries, r)
    ensures |r| <= |entries|
    ensures forall i :: 0 <= i < |r| ==> exists j :: 0 <= j < |entries| && ImageUrlOf(entries[j]) == Some(r[i])
    ensures forall j :: 0 <= j < |entries| && ImageUrlOf(entries[j]).Some? ==> ImageUrlOf(entries[j]).value in r
  {
    var kept := Sorting.Filter(entries, HasImageUrl);
    forall i | 0 <= i < |r|
      ensures exists j :: 0 <= j < |entries| && ImageUrlOf(entries[j]) == Some(r[i])
    {
      assert kept[i] in entries;
    }
    forall j | 0 <= j < |entries| && ImageUrlOf(entries[j]).Some?
      ensures ImageUrlOf(entries[j]).value in r
    {
      assert entries[j] in kept;
      var i :| 0 <= i < |kept| && kept[i] == entries[j];
      assert ImageUrlOf(kept[i]) == Some(r[i]);
    }
  }

  /** `getImagesFromFolder`: the first four image files' download URLs; a failed
      listing (`None`) gives none. */
  function FolderImages(listing: Option<seq<GitHubContent>>): (r: seq<string>)
    ensures |r| <= MaxFolderImages
    ensures listing.None? ==> r == []
    ensures forall i :: 0 <= i < |r| ==> exists j :: 0 <= j < |listing.value| && ImageUrlOf(listing.value[j]) == Some(r[i])
    ensures listing.Some? ==>
              var all := ImageFileUrls(listing.value);
              |r| == (if |all| < MaxFolderImages then |all| else MaxFolderImages)
              && forall i :: 0 <= i < |r| ==> r[i] == all[i]
  {
    match listing
    case None => []
    case Some(entries) =>
      var all := ImageFileUrls(entries);
      var r := Sorting.Take(all, MaxFolderImages);
      forall i | 0 <= i < |r|
        ensures exists j :: 0 <= j < |listing.value| && ImageUrlOf(listing.value[j]) == Some(r[i])
      {
        assert r[i] == all[i];
        var j :| 0 <= j < |entries| && ImageUrlOf(entries[j]) == Some(all[i]);
        assert listing.value[j] == entries[j];
      }
      r
  }

  /** `name` equals one of `folders`, ignoring case. */
  function NamesFolder(name: string, folders: seq<string>): (r: bool)
    ensures r <==> exists f :: 0 <= f < |folders| && EqualsIgnoreCase(name, folders[f])
  {
    if |folders| == 0 then false
    else EqualsIgnoreCase(name, folders[0]) || NamesFolder(name, folders[1..])
  }

  predicate IsScreenshotFolder(e: GitHubContent) {
    e.kind == "dir" && NamesFolder(e.name, ScreenshotFolders)
  }

  /** The index of the first screenshot folder among the root entries (`|root|` when none). */
  function FirstFolderIndex(root: seq<GitHubContent>): (k: nat)
    ensures k <= |root|
    ensures forall j :: 0 <= j < k ==> !IsScreenshotFolder(root[j])
    ensures k < |root| ==> IsScreenshotFolder(root[k])
  {
    if |root| == 0 then 0
    else if IsScreenshotFolder(root[0]) then 0
    else
      assert forall j :: 1 <= j < |root| ==> root[j] == root[1..][j - 1];
      FirstFolderIndex(root[1..]) + 1
  }

  /** The screenshots before de-duplication: the README's images, or, when it has none,
      the images of the first screenshot folder in the repo's root. `root` is the root
      listing and `folder` the listing of each path (`None` when a call fails). */
  function CollectScreenshots(owner: string, repoName: string, branch: string, links: seq<string>,
                              root: Option<seq<GitHubContent>>,
                              folder: string -> Option<seq<GitHubContent>>): (r: seq<string>)
    ensures |r| <= MaxReadmeImages
    ensures |ReadmeImages(owner, repoName, branch, links)| > 0 ==> r == ReadmeImages(owner, repoName, branch, links)
    ensures |ReadmeImages(owner, repoName, branch, links)| == 0 && (root.None? || FirstFolderIndex(root.value) == |root.value|) ==>
              r == []
    ensures |ReadmeImages(owner, repoName, branch, links)| == 0 && root.Some? && FirstFolderIndex(root.value) < |root.value| ==>
              r == FolderImages(folder(root.value[FirstFolderIndex(root.value)].path))
  {
    var fromReadme := ReadmeImages(owner, repoName, branch, links);
    if |fromReadme| > 0 then fromReadme
    else
      match root
      case None => []
      case Some(entries) =>
        var k := FirstFolderIndex(entries);
        if k < |entries| then FolderImages(folder(entries[k].path)) else []
  }

  datatype ScreenshotLookup = ScreenshotLookup(caches: Caches, screenshots: seq<string>)

  /** `getScreenshots`: the cached list when there is one; otherwise the collected
      images without repeats, at most eight, remembered under the repo's key. */
  function GetScreenshots(c: Caches, owner: string, repoName: string, defaultBranch: Option<string>,
                          links: seq<string>, root: Option<seq<GitHubContent>>,
                          folder: string -> Option<seq<GitHubContent>>): (r: ScreenshotLookup)
    ensures CacheKey(owner, repoName) in c.screenshots ==>
              r == ScreenshotLookup(c, c.screenshots[CacheKey(owner, repoName)])
    ensures CacheKey(owner, repoName) !in c.screenshots ==>
              && Sorting.NoDuplicates(r.screenshots)
              && |r.screenshots| <= MaxScreenshots
              && (forall u :: u in r.screenshots <==>
                    u in CollectScreenshots(owner, repoName, defaultBranch.GetOr(DefaultBranch), links, root, folder))
              && (var all := CollectScreenshots(owner, repoName, defaultBranch.GetOr(DefaultBranch), links, root, folder);
                  forall i, j :: 0 <= i < j < |r.screenshots| ==>
                    Sorting.FirstIndex(all, r.screenshots[i]) < Sorting.FirstIndex(all, r.screenshots[j]))
              && r.caches == c.(screenshots := c.screenshots[CacheKey(owner, repoName) := r.screenshots])
  {
    var key := CacheKey(owner, repoName);
    if key in c.screenshots then ScreenshotLookup(c, c.screenshots[key])
    else
      var shots := Sorting.Take(Sorting.Distinct(CollectScreenshots(owner, repoName, defaultBranch.GetOr(DefaultBranch), links, root, folder)), MaxScreenshots);
      ScreenshotLookup(c.(screenshots := c.screenshots[key := shots]), shots)
  }

  /** At most five images are ever collected, so the cap of eight never drops one. */
  lemma ScreenshotCapNeverBinds(owner: string, repoName: string, branch: string, links: seq<string>,
                                root: Option<seq<GitHubContent>>, folder: string -> Option<seq<GitHubContent>>)
    ensures var all := Sorting.Distinct(CollectScreenshots(owner, repoName, branch, links, root, folder));
            Sorting.Take(all, MaxScreenshots) == all
  {
  }

  /** A second request is answered from the cache with the same list, whatever the
      server would now say. */
  lemma ScreenshotsMemoised(c: Caches, owner: string, repoName: string, defaultBranch: Option<string>,
                            links: seq<string>, root: Option<seq<GitHubContent>>,
                            folder: string -> Option<seq<GitHubContent>>,
                            links2: seq<string>, root2: Option<seq<GitHubContent>>,
                            folder2: string -> Option<seq<GitHubContent>>)
    ensures var r := GetScreenshots(c, owner, repoName, defaultBranch, links, root, folder);
            GetScreenshots(r.caches, owner, repoName, defaultBranch, links2, root2, folder2) == r
  {
  }

  /** With README images present the repo's folders are never consulted. */
  lemma ReadmeImagesTakePrecedence(owner: string, repoName: string, branch: string, links: seq<string>,
                                   root: Option<seq<GitHubContent>>, folder: string -> Option<seq<GitHubContent>>,
                                   root2: Option<seq<GitHubContent>>, folder2: string -> Option<seq<GitHubContent>>)
    requires |ReadmeImages(owner, repoName, branch, links)| > 0
    ensures CollectScreenshots(owner, repoName, branch, links, root, folder)
            == CollectScreenshots(owner, repoName, branch, links, root2, folder2)
    ensures forall u :: u in CollectScreenshots(owner, repoName, branch, links, root, folder) ==>
              StartsWith(u, "http") && IsImageUrl(u)
  {
  }
}
