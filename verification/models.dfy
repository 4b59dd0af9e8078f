/** The records the core reads: GitHub API responses and the UI's list item, as
    immutable datatypes with the fields of the Kotlin data classes. Integers are
    unbounded; the 64-bit `Long` fields are never combined arithmetically here. */
module Models {

  import opened Wrappers
  import opened Text
  import Sorting

  datatype Owner = Owner(login: string, avatarUrl: string, htmlUrl: string)

  datatype GitHubRepo = GitHubRepo(
    id: int,
    name: string,
    fullName: string,
    description: Option<string>,
    htmlUrl: string,
    stars: int,
    forks: int,
    language: Option<string>,
    updatedAt: string,
    createdAt: string,
    archived: bool,
    owner: Owner,
    topics: Option<seq<string>>,
    defaultBranch: Option<string>)

  datatype ReleaseAsset = ReleaseAsset(
    id: int,
    name: string,
    size: int,
    downloadCount: int,
    downloadUrl: string,
    contentType: string)

  datatype GitHubRelease = GitHubRelease(
    id: int,
    tagName: string,
    name: Option<string>,
    body: Option<string>,
    htmlUrl: string,
    publishedAt: string,
    prerelease: bool,
    draft: bool,
    assets: seq<ReleaseAsset>)

  /** An entry of the GitHub contents API: `kind` is the JSON field `type`. */
  datatype GitHubContent = GitHubContent(
    name: string,
    path: string,
    kind: string,
    downloadUrl: Option<string>,
    htmlUrl: string,
    size: Option<int>)

  datatype AppTag = NEW | UPDATED | ARCHIVED

  datatype AppItem = AppItem(repo: GitHubRepo, latestRelease: Option<GitHubRelease>, tag: Option<AppTag>)

  /** The browse categories; `Name` is the Kotlin enum constant's name. */
  datatype AppCategory = ALL | TOOLS | PRODUCTIVITY | GAMES | OPEN_SOURCE {

    function Name(): string {
      match this
      case ALL => "ALL"
      case TOOLS => "TOOLS"
      case PRODUCTIVITY => "PRODUCTIVITY"
      case GAMES => "GAMES"
      case OPEN_SOURCE => "OPEN_SOURCE"
    }

    function Queries(): seq<string> {
      match this
      case ALL => ["android app", "topic:android"]
      case TOOLS => ["android tool", "android utility", "topic:android-tool"]
      case PRODUCTIVITY => ["android productivity", "android notes", "android todo", "topic:android-productivity"]
      case GAMES => ["android game", "topic:android-game", "mobile game android"]
      case OPEN_SOURCE => ["android foss", "android open-source", "topic:foss topic:android"]
    }

    /** The category's first search query. */
    function Query(): string {
      Queries()[0]
    }
  }

  const AllCategories: seq<AppCategory> := [ALL, TOOLS, PRODUCTIVITY, GAMES, OPEN_SOURCE]

  /** A row of the favourites table; `id` is the primary key. */
  datatype FavoriteApp = FavoriteApp(
    id: int,
    fullName: string,
    name: string,
    ownerLogin: string,
    ownerAvatarUrl: string,
    description: Option<string>,
    stars: int,
    language: Option<string>,
    addedAt: int)

  /** `FavoriteApp.fromRepo`: a field copy stamped with the current time `now`. */
  function FavoriteFromRepo(repo: GitHubRepo, now: int): (f: FavoriteApp)
    ensures f.id == repo.id && f.name == repo.name && f.addedAt == now
  {
    FavoriteApp(repo.id, repo.fullName, repo.name, repo.owner.login, repo.owner.avatarUrl,
                repo.description, repo.stars, repo.language, now)
  }

  /** `sortedByDescending { it.repo.stars }`: an item may stay ahead of one with no more stars. */
  function ByStars(): (AppItem, AppItem) -> bool {
    (a: AppItem, b: AppItem) => a.repo.stars >= b.repo.stars
  }

  /** `sortedByDescending { it.repo.updatedAt }`: string comparison, latest first. */
  function ByUpdatedAt(): (AppItem, AppItem) -> bool {
    (a: AppItem, b: AppItem) => LexLe(b.repo.updatedAt, a.repo.updatedAt)
  }

  lemma ByStarsIsPreorder()
    ensures Sorting.TotalPreorder(ByStars())
  {
  }

  lemma ByUpdatedAtIsPreorder()
    ensures Sorting.TotalPreorder(ByUpdatedAt())
  {
    forall a: AppItem, b: AppItem ensures ByUpdatedAt()(a, b) || ByUpdatedAt()(b, a) {
      LexLeTotal(a.repo.updatedAt, b.repo.updatedAt);
    }
    forall a: AppItem, b: AppItem, c: AppItem | ByUpdatedAt()(a, b) && ByUpdatedAt()(b, c)
      ensures ByUpdatedAt()(a, c)
    {
      LexLeTrans(c.repo.updatedAt, b.repo.updatedAt, a.repo.updatedAt);
    }
  }
}
