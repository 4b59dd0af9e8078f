/** `AppListViewModel`: the search query for a list screen, and its paging as a
    state machine. A load or a "load more" is split into its request (which sets the
    loading state and names the page to fetch) and its completion (which receives
    the search result); the search itself is not part of this model. */
module AppList {

  import Wrappers
  import opened Models
  import Sorting

  // ---------------------------------------------------------------------------
  // The query

  datatype ListType = FEATURED | TRENDING | UPDATED | CATEGORY

  const DefaultQuery: string := "android app"
  const GamesQuery: string := "android game"
  const LoadFailed: string := "Failed to load apps"

  /** The category whose enum name is `name`, if there is one. */
  function FindCategory(name: string): (r: Wrappers.Option<AppCategory>)
    ensures r.Some? ==> r.value.Name() == name
    ensures r.None? <==> forall c: AppCategory :: c.Name() != name
  {
    if name == "ALL" then Wrappers.Some(ALL)
    else if name == "TOOLS" then Wrappers.Some(TOOLS)
    else if name == "PRODUCTIVITY" then Wrappers.Some(PRODUCTIVITY)
    else if name == "GAMES" then Wrappers.Some(GAMES)
    else if name == "OPEN_SOURCE" then Wrappers.Some(OPEN_SOURCE)
    else Wrappers.None
  }

  /** `getQuery`: "android game" for the games category, the category's own query
      for any other known category, and "android app" when there is no category or
      its name is unknown (every list type maps to that same query). */
  function GetQuery(categoryName: Wrappers.Option<string>): (r: string)
    ensures categoryName.Some? && FindCategory(categoryName.value) == Wrappers.Some(GAMES) ==> r == GamesQuery
    ensures categoryName.Some? && FindCategory(categoryName.value).Some? ==> r == FindCategory(categoryName.value).value.Query()
    ensures categoryName.None? || FindCategory(categoryName.value).None? ==> r == DefaultQuery
  {
    var category := if categoryName.Some? then FindCategory(categoryName.value) else Wrappers.None;
    if category == Wrappers.Some(GAMES) then GamesQuery
    else if category.Some? then category.value.Query()
    else DefaultQuery
  }

  // ---------------------------------------------------------------------------
  // Paging

  datatype UiState =
    | Loading
    | Empty
    | LoadingMore(currentApps: seq<AppItem>)
    | Shown(apps: seq<AppItem>)
    | Error(message: string)

  /** The view model's fields: `page` is `currentPage`, `loaded` is `loadedApps`,
      `loadingMore` is `isLoadingMore`, `ui` is the published state. */
  datatype Paging = Paging(page: int, loaded: seq<AppItem>, loadingMore: bool, ui: UiState)

  /** The state after a request: `request` is the page searched for, or `None` when
      the request was ignored. */
  datatype Launch = Launch(paging: Paging, request: Wrappers.Option<int>)

  /** A search page sorted for the list: most recently updated first for `UPDATED`,
      most starred first otherwise. */
  function SortFor(listType: ListType, apps: seq<AppItem>): (r: seq<AppItem>)
    ensures multiset(r) == multiset(apps)
  {
    if listType == ListType.UPDATED then Sorting.SortBy(apps, ByUpdatedAt()) else Sorting.SortBy(apps, ByStars())
  }

  lemma SortForSorted(listType: ListType, apps: seq<AppItem>)
    ensures listType == ListType.UPDATED ==> Sorting.SortedBy(SortFor(listType, apps), ByUpdatedAt())
    ensures listType != ListType.UPDATED ==> Sorting.SortedBy(SortFor(listType, apps), ByStars())
  {
    ByUpdatedAtIsPreorder();
    ByStarsIsPreorder();
    Sorting.SortBySorted(apps, ByUpdatedAt());
    Sorting.SortBySorted(apps, ByStars());
  }

  /** The fields before `init` runs. */
  const Fresh: Paging := Paging(1, [], false, Loading)

  /** The published state while a first page or a refresh is loading. */
  function LoadingState(loaded: seq<AppItem>): UiState {
    if |loaded| == 0 then Loading else LoadingMore(loaded)
  }

  /** The request half of `loadApps(refresh)`: a refresh starts again from page 1
      with an empty list; either way the current page is fetched. */
  function LoadApps(p: Paging, refresh: bool): (r: Launch)
    ensures r.request == Wrappers.Some(r.paging.page)
    ensures refresh ==> r.paging == Paging(1, [], false, Loading)
    ensures !refresh ==> r.paging == p.(ui := r.paging.ui)
    ensures r.paging.ui == Loading <==> |r.paging.loaded| == 0
    ensures r.paging.ui != Loading ==> r.paging.ui == LoadingMore(r.paging.loaded)
  {
    var q := if refresh then p.(page := 1, loaded := [], loadingMore := false) else p;
    Launch(q.(ui := LoadingState(q.loaded)), Wrappers.Some(q.page))
  }

  /** The completion half of `loadApps(refresh)`. A result for page 1 or for a
      refresh replaces the list, any other is appended; a failure keeps the list and
      reports an error only when there is nothing to show. */
  function LoadAppsDone(p: Paging, refresh: bool, listType: ListType, result: Wrappers.Result<seq<AppItem>>): (r: Paging)
    ensures r.page == p.page && !r.loadingMore
    ensures result.Failure? ==> r.loaded == p.loaded
    ensures result.Success? && (refresh || p.page == 1) ==> r.loaded == SortFor(listType, result.value)
    ensures result.Success? && !(refresh || p.page == 1) ==> r.loaded == p.loaded + SortFor(listType, result.value)
    ensures r.ui == Empty <==> result.Success? && |r.loaded| == 0
    ensures r.ui.Error? <==> result.Failure? && |r.loaded| == 0
    ensures r.ui.Error? ==> r.ui.message == result.message.GetOr(LoadFailed)
    ensures |r.loaded| > 0 ==> r.ui == Shown(r.loaded)
  {
    match result
    case Success(apps) =>
      var base := if refresh || p.page == 1 then [] else p.loaded;
      var loaded := base + SortFor(listType, apps);
      var ui := if |loaded| == 0 then Empty else Shown(loaded);
      Paging(p.page, loaded, false, ui)
    case Failure(message) =>
      var ui := if |p.loaded| == 0 then Error(message.GetOr(LoadFailed)) else Shown(p.loaded);
      p.(loadingMore := false, ui := ui)
  }

  /** The request half of `loadMore`: ignored while another page is on its way or the
      first load is showing its spinner; otherwise the next page is fetched. */
  function LoadMore(p: Paging): (r: Launch)
    ensures r.request.None? <==> p.loadingMore || p.ui == Loading
    ensures r.request.None? ==> r.paging == p
    ensures r.request.Some? ==> r.request.value == p.page + 1
    ensures r.request.Some? ==> r.paging == Paging(p.page + 1, p.loaded, true, LoadingMore(p.loaded))
  {
    if p.loadingMore || p.ui == Loading then Launch(p, Wrappers.None)
    else
      var next := p.page + 1;
      Launch(Paging(next, p.loaded, true, LoadingMore(p.loaded)), Wrappers.Some(next))
  }

  /** The completion half of `loadMore`: a page is appended; either way the list is
      shown, even when it is empty, and the page number stays advanced. */
  function LoadMoreDone(p: Paging, listType: ListType, result: Wrappers.Result<seq<AppItem>>): (r: Paging)
    ensures r.page == p.page && !r.loadingMore
    ensures result.Failure? ==> r.loaded == p.loaded
    ensures result.Success? ==> |r.loaded| == |p.loaded| + |result.value| && r.loaded[..|p.loaded|] == p.loaded
    ensures result.Success? ==> multiset(r.loaded[|p.loaded|..]) == multiset(result.value)
    ensures r.ui == Shown(r.loaded)
  {
    var loaded := if result.Success? then p.loaded + SortFor(listType, result.value) else p.loaded;
    assert result.Success? ==> loaded[..|p.loaded|] == p.loaded && loaded[|p.loaded|..] == SortFor(listType, result.value);
    Paging(p.page, loaded, false, Shown(loaded))
  }

  /** The published state always matches the list behind it, and the page is at
      least 1. */
  predicate Consistent(p: Paging) {
    && p.page >= 1
    && (p.ui == Loading || p.ui == Empty || p.ui.Error? ==> |p.loaded| == 0)
    && (p.ui.LoadingMore? ==> p.ui.currentApps == p.loaded)
    && (p.ui.Shown? ==> p.ui.apps == p.loaded)
  }

  /** The user actions and search completions the screen reacts to. */
  datatype Event =
    | Request(refresh: bool)
    | RequestMore
    | Completed(refresh: bool, result: Wrappers.Result<seq<AppItem>>)
    | CompletedMore(result: Wrappers.Result<seq<AppItem>>)

  function Step(p: Paging, listType: ListType, e: Event): Paging {
    match e
    case Request(refresh) => LoadApps(p, refresh).paging
    case RequestMore => LoadMore(p).paging
    case Completed(refresh, result) => LoadAppsDone(p, refresh, listType, result)
    case CompletedMore(result) => LoadMoreDone(p, listType, result)
  }

  function Run(p: Paging, listType: ListType, events: seq<Event>): Paging
    decreases |events|
  {
    if |events| == 0 then p else Run(Step(p, listType, events[0]), listType, events[1..])
  }

  /** `init` requests the first page from the fresh fields. */
  lemma InitialState()
    ensures LoadApps(Fresh, false) == Launch(Fresh, Wrappers.Some(1))
    ensures Consistent(Fresh)
  {
  }

  lemma StepConsistent(p: Paging, listType: ListType, e: Event)
    requires Consistent(p)
    ensures Consistent(Step(p, listType, e))
  {
  }

  /** Whatever the order in which requests and completions arrive (completions of
      cancelled or overlapping requests included), the screen never shows anything
      but the list it holds. */
  lemma {:induction false} RunConsistent(p: Paging, listType: ListType, events: seq<Event>)
    requires Consistent(p)
    ensures Consistent(Run(p, listType, events))
    decreases |events|
  {
    if |events| > 0 {
      StepConsistent(p, listType, events[0]);
      RunConsistent(Step(p, listType, events[0]), listType, events[1..]);
    }
  }

  /** Nothing already loaded is lost, unless a refresh or a first-page result
      replaces the list. */
  lemma {:induction false} LoadedOnlyGrows(p: Paging, listType: ListType, events: seq<Event>)
    requires p.page > 1
    requires forall i :: 0 <= i < |events| ==> !events[i].Request? && !events[i].Completed?
    ensures var q := Run(p, listType, events);
            |q.loaded| >= |p.loaded| && q.loaded[..|p.loaded|] == p.loaded && q.page >= p.page
    decreases |events|
  {
    if |events| > 0 {
      var q := Step(p, listType, events[0]);
      LoadedOnlyGrows(q, listType, events[1..]);
      var r := Run(q, listType, events[1..]);
      assert r.loaded[..|p.loaded|] == r.loaded[..|q.loaded|][..|p.loaded|];
    }
  }

  /** A failed "load more" leaves the page advanced, so the next one asks for the page
      after the one that failed. */
  lemma FailedLoadMoreSkipsPage(p: Paging, listType: ListType, message: Wrappers.Option<string>)
    requires !p.loadingMore && p.ui != Loading
    ensures var failed := LoadMoreDone(LoadMore(p).paging, listType, Wrappers.Failure(message));
            && failed.loaded == p.loaded
            && LoadMore(failed).request == Wrappers.Some(p.page + 2)
  {
  }
}
