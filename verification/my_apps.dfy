/** `MyAppsViewModel`: the "my apps" screen lists the favourites that look installed.
    The package manager is an oracle: `installed` is its list of installed
    applications, or `None` when asking for it throws. */
module MyApps {

  import opened Wrappers
  import opened Text
  import opened Models
  import Sorting
  import Favorites

  /** An installed application: its label and its package name. */
  datatype InstalledApp = InstalledApp(appLabel: string, packageName: string)

  /** The label equals the name, or the package name contains it, ignoring case. */
  predicate Matches(app: InstalledApp, name: string) {
    EqualsIgnoreCase(app.appLabel, name) || Contains(Lower(app.packageName), Lower(name))
  }

  function AnyMatches(apps: seq<InstalledApp>, name: string): (r: bool)
    ensures r <==> exists i :: 0 <= i < |apps| && Matches(apps[i], name)
  {
    if |apps| == 0 then false
    else if Matches(apps[0], name) then true
    else
      var rest := AnyMatches(apps[1..], name);
      assert rest <==> exists i :: 1 <= i < |apps| && Matches(apps[i], name) by {
        if rest {
          var i :| 0 <= i < |apps[1..]| && Matches(apps[1..][i], name);
          assert apps[i + 1] == apps[1..][i];
        }
        if exists i :: 1 <= i < |apps| && Matches(apps[i], name) {
          var i :| 1 <= i < |apps| && Matches(apps[i], name);
          assert apps[1..][i - 1] == apps[i];
        }
      }
      rest
  }

  /** `isAppInstalled`: some installed application matches the name; false when the
      package list cannot be read. */
  function IsAppInstalled(installed: Option<seq<InstalledApp>>, name: string): (r: bool)
    ensures r <==> installed.Some? && exists i :: 0 <= i < |installed.value| && Matches(installed.value[i], name)
  {
    installed.Some? && AnyMatches(installed.value, name)
  }

  datatype MyAppsState = Loading | Shown(apps: seq<FavoriteApp>) | Empty

  /** The state shown before the favourites are first read. */
  const Initial: MyAppsState := Loading

  function InstalledFilter(installed: Option<seq<InstalledApp>>): FavoriteApp -> bool {
    (app: FavoriteApp) => IsAppInstalled(installed, app.name)
  }

  /** The state for one emission of the favourites: the installed ones, or `Empty`
      when there are none. */
  function Present(favorites: seq<FavoriteApp>, installed: Option<seq<InstalledApp>>): (r: MyAppsState)
    ensures r != Loading
    ensures r == Empty <==> forall i :: 0 <= i < |favorites| ==> !IsAppInstalled(installed, favorites[i].name)
    ensures r.Shown? ==> forall i :: 0 <= i < |r.apps| ==> r.apps[i] in favorites && IsAppInstalled(installed, r.apps[i].name)
    ensures r.Shown? ==> forall a :: a in favorites && IsAppInstalled(installed, a.name) ==> a in r.apps
    ensures r.Shown? ==> multiset(r.apps) <= multiset(favorites)
  {
    var shown := Sorting.Filter(favorites, InstalledFilter(installed));
    if |shown| == 0 then
      assert forall i :: 0 <= i < |favorites| ==> !IsAppInstalled(installed, favorites[i].name) by {
        forall i | 0 <= i < |favorites| ensures !IsAppInstalled(installed, favorites[i].name) {
          assert favorites[i] in favorites;
        }
      }
      Empty
    else
      assert shown[0] in favorites && IsAppInstalled(installed, shown[0].name);
      Shown(shown)
  }

  /** The listing keeps the favourites' newest-first order. */
  lemma PresentKeepsOrder(favorites: seq<FavoriteApp>, installed: Option<seq<InstalledApp>>)
    requires Sorting.SortedBy(favorites, Favorites.NewestFirst())
    ensures var r := Present(favorites, installed);
            r.Shown? ==> Sorting.SortedBy(r.apps, Favorites.NewestFirst())
  {
    Sorting.FilterSorted(favorites, InstalledFilter(installed), Favorites.NewestFirst());
  }

  /** When every favourite looks installed, all of them are listed, in order. */
  lemma AllInstalledListsAll(favorites: seq<FavoriteApp>, installed: Option<seq<InstalledApp>>)
    requires |favorites| > 0
    requires forall i :: 0 <= i < |favorites| ==> IsAppInstalled(installed, favorites[i].name)
    ensures Present(favorites, installed) == Shown(favorites)
  {
    Sorting.FilterKeepsAll(favorites, InstalledFilter(installed));
  }

  /** An empty name matches every package name, so it counts as installed as soon as
      any application is installed. */
  lemma EmptyNameLooksInstalled(installed: seq<InstalledApp>)
    requires |installed| > 0
    ensures IsAppInstalled(Some(installed), "")
  {
    assert OccursAt(Lower(installed[0].packageName), Lower(""), 0);
  }

  /** A package list that cannot be read hides every favourite. */
  lemma UnreadablePackagesShowNothing(favorites: seq<FavoriteApp>)
    ensures Present(favorites, None) == Empty
  {
  }
}
