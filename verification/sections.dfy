/** The home and games screens' `updateSections`: from one page of apps, the
    featured carousel (top starred), the trending or popular row (the star order with
    the top three skipped once there are more than five apps) and the recently
    updated row. Both screens slice their lists the same way. */
module Sections {

  import opened Wrappers
  import opened Models
  import Sorting

  const FeaturedCount: int := 5
  const RowCount: int := 10
  const SkippedTop: int := 3

  datatype Sections = Sections(featured: seq<AppItem>, trending: seq<AppItem>, updated: seq<AppItem>)

  /** Kotlin's `ifEmpty`: the list itself, or the fallback when it is empty. */
  function IfEmpty<T>(s: seq<T>, fallback: seq<T>): seq<T> {
    if |s| == 0 then fallback else s
  }

  function Min(a: int, b: int): int {
    if a < b then a else b
  }

  function StarOrder(apps: seq<AppItem>): seq<AppItem> {
    Sorting.SortBy(apps, ByStars())
  }

  function UpdatedOrder(apps: seq<AppItem>): seq<AppItem> {
    Sorting.SortBy(apps, ByUpdatedAt())
  }

  function FeaturedRow(apps: seq<AppItem>): seq<AppItem> {
    Sorting.Take(StarOrder(apps), Min(FeaturedCount, |apps|))
  }

  function UpdatedRow(apps: seq<AppItem>): seq<AppItem> {
    Sorting.Take(UpdatedOrder(apps), RowCount)
  }

  /** The trending row before its `ifEmpty` fallback. */
  function TrendingRow(apps: seq<AppItem>): seq<AppItem> {
    var sorted := StarOrder(apps);
    if |apps| > FeaturedCount then Sorting.Take(Sorting.Drop(sorted, SkippedTop), RowCount)
    else Sorting.Take(sorted, RowCount)
  }

  /** The sections shown for `apps`; `None` for an empty list, which leaves the
      screen as it was. */
  function UpdateSections(apps: seq<AppItem>): (r: Option<Sections>)
    ensures r.None? <==> |apps| == 0
    ensures r.Some? ==>
              && |r.value.featured| == Min(FeaturedCount, |apps|)
              && |r.value.trending| == (if |apps| > FeaturedCount then Min(RowCount, |apps| - SkippedTop) else |apps|)
              && |r.value.updated| == Min(RowCount, |apps|)
    ensures r.Some? ==>
              && multiset(r.value.featured) <= multiset(apps)
              && multiset(r.value.trending) <= multiset(apps)
              && multiset(r.value.updated) <= multiset(apps)
    ensures r.Some? ==>
              && Sorting.SortedBy(r.value.featured, ByStars())
              && Sorting.SortedBy(r.value.trending, ByStars())
              && Sorting.SortedBy(r.value.updated, ByUpdatedAt())
  {
    if |apps| == 0 then None
    else
      var sorted := StarOrder(apps);
      var trending := IfEmpty(TrendingRow(apps), Sorting.Take(sorted, RowCount));
      var updated := IfEmpty(UpdatedRow(apps), Sorting.Take(sorted, RowCount));
      FallbacksNeverFire(apps);
      SectionsAreSubMultisets(apps);
      SectionsAreSorted(apps);
      Some(Sections(FeaturedRow(apps), trending, updated))
  }

  /** For a non-empty page, neither `ifEmpty` fallback is ever used. */
  lemma FallbacksNeverFire(apps: seq<AppItem>)
    requires |apps| > 0
    ensures |TrendingRow(apps)| > 0
    ensures |UpdatedRow(apps)| > 0
  {
  }

  lemma SectionsAreSubMultisets(apps: seq<AppItem>)
    ensures multiset(FeaturedRow(apps)) <= multiset(apps)
    ensures multiset(TrendingRow(apps)) <= multiset(apps)
    ensures multiset(UpdatedRow(apps)) <= multiset(apps)
  {
    var sorted := StarOrder(apps);
    Sorting.TakeSubMultiset(sorted, Min(FeaturedCount, |apps|));
    Sorting.TakeSubMultiset(sorted, RowCount);
    Sorting.DropSubMultiset(sorted, SkippedTop);
    Sorting.TakeSubMultiset(Sorting.Drop(sorted, SkippedTop), RowCount);
    Sorting.TakeSubMultiset(UpdatedOrder(apps), RowCount);
  }

  lemma StarOrderSorted(apps: seq<AppItem>)
    ensures Sorting.SortedBy(StarOrder(apps), ByStars())
  {
    ByStarsIsPreorder();
    Sorting.SortBySorted(apps, ByStars());
  }

  lemma UpdatedOrderSorted(apps: seq<AppItem>)
    ensures Sorting.SortedBy(UpdatedOrder(apps), ByUpdatedAt())
  {
    ByUpdatedAtIsPreorder();
    Sorting.SortBySorted(apps, ByUpdatedAt());
  }

  lemma SectionsAreSorted(apps: seq<AppItem>)
    ensures Sorting.SortedBy(FeaturedRow(apps), ByStars())
    ensures Sorting.SortedBy(Sorting.Take(StarOrder(apps), RowCount), ByStars())
    ensures Sorting.SortedBy(TrendingRow(apps), ByStars())
    ensures Sorting.SortedBy(UpdatedRow(apps), ByUpdatedAt())
  {
    var sorted := StarOrder(apps);
    StarOrderSorted(apps);
    UpdatedOrderSorted(apps);
    Sorting.TakeSorted(sorted, ByStars(), Min(FeaturedCount, |apps|));
    Sorting.TakeSorted(sorted, ByStars(), RowCount);
    Sorting.DropSorted(sorted, ByStars(), SkippedTop);
    Sorting.TakeSorted(Sorting.Drop(sorted, SkippedTop), ByStars(), RowCount);
    Sorting.TakeSorted(UpdatedOrder(apps), ByUpdatedAt(), RowCount);
  }

  /** No app left out of the featured carousel has more stars than one in it. */
  lemma FeaturedAreTopStarred(apps: seq<AppItem>)
    requires |apps| > 0
    ensures var featured := UpdateSections(apps).value.featured;
            forall x, y :: x in featured && y in multiset(apps) - multiset(featured) ==> y.repo.stars <= x.repo.stars
  {
    assert UpdateSections(apps).value.featured == FeaturedRow(apps);
    FeaturedRowDominates(apps);
  }

  lemma FeaturedRowDominates(apps: seq<AppItem>)
    ensures var featured := FeaturedRow(apps);
            forall x, y :: x in featured && y in multiset(apps) - multiset(featured) ==> y.repo.stars <= x.repo.stars
  {
    var sorted := StarOrder(apps);
    var featured := FeaturedRow(apps);
    assert featured == sorted[..Min(FeaturedCount, |apps|)];
    StarOrderSorted(apps);
    Sorting.SortedPrefixDominates(sorted, ByStars(), Min(FeaturedCount, |apps|));
    forall x, y | x in featured && y in multiset(apps) - multiset(featured) ensures y.repo.stars <= x.repo.stars {
      assert ByStars()(x, y);
    }
  }

  /** The apps the trending row skips: the top three of the star order once there
      are more than five apps, none otherwise. */
  function SkippedTopApps(apps: seq<AppItem>): (r: seq<AppItem>)
    ensures |r| == if |apps| > FeaturedCount then SkippedTop else 0
    ensures multiset(r) <= multiset(apps)
    ensures forall x, y :: x in r && y in multiset(apps) - multiset(r) ==> y.repo.stars <= x.repo.stars
  {
    var sorted := StarOrder(apps);
    var k := if |apps| > FeaturedCount then SkippedTop else 0;
    StarOrderSorted(apps);
    Sorting.SortedPrefixDominates(sorted, ByStars(), k);
    assert sorted == sorted[..k] + sorted[k..];
    sorted[..k]
  }

  /** The trending row holds the best-starred apps once the skipped top three are set
      aside: it avoids those three, none of them has fewer stars than an app in the
      row, and no app left out of both has more stars than one in the row. */
  lemma TrendingAreTopStarredAfterSkip(apps: seq<AppItem>)
    requires |apps| > 0
    ensures var trending := UpdateSections(apps).value.trending;
            var top := SkippedTopApps(apps);
            && multiset(trending) <= multiset(apps) - multiset(top)
            && (forall z, x :: z in top && x in trending ==> x.repo.stars <= z.repo.stars)
            && (forall x, y :: x in trending && y in multiset(apps) - multiset(top) - multiset(trending) ==>
                  y.repo.stars <= x.repo.stars)
  {
    FallbacksNeverFire(apps);
    assert UpdateSections(apps).value.trending == TrendingRow(apps);
    TrendingRowDominates(apps);
  }

  lemma TrendingRowDominates(apps: seq<AppItem>)
    ensures var trending := TrendingRow(apps);
            var top := SkippedTopApps(apps);
            && multiset(trending) <= multiset(apps) - multiset(top)
            && (forall z, x :: z in top && x in trending ==> x.repo.stars <= z.repo.stars)
            && (forall x, y :: x in trending && y in multiset(apps) - multiset(top) - multiset(trending) ==>
                  y.repo.stars <= x.repo.stars)
  {
    var sorted := StarOrder(apps);
    var k := if |apps| > FeaturedCount then SkippedTop else 0;
    var top := SkippedTopApps(apps);
    var rest := sorted[k..];
    var trending := TrendingRow(apps);
    var m := Min(RowCount, |rest|);
    assert top == sorted[..k];
    assert sorted == top + rest;
    assert multiset(apps) - multiset(top) == multiset(rest);
    assert trending == rest[..m];
    assert rest == trending + rest[m..];
    StarOrderSorted(apps);
    Sorting.DropSorted(sorted, ByStars(), k);
    assert Sorting.Drop(sorted, k) == rest;
    Sorting.SortedPrefixDominates(rest, ByStars(), m);
    forall x, y | x in trending && y in multiset(rest) - multiset(trending) ensures y.repo.stars <= x.repo.stars {
      assert ByStars()(x, y);
    }
    forall z, x | z in top && x in trending ensures x.repo.stars <= z.repo.stars {
      assert x in multiset(apps) - multiset(top);
    }
  }

  /** No app left out of the updated row was updated later than one in it (timestamps
      compare as strings). */
  lemma UpdatedAreMostRecent(apps: seq<AppItem>)
    requires |apps| > 0
    ensures var updated := UpdateSections(apps).value.updated;
            forall x, y :: x in updated && y in multiset(apps) - multiset(updated) ==> Text.LexLe(y.repo.updatedAt, x.repo.updatedAt)
  {
    assert UpdateSections(apps).value.updated == UpdatedRow(apps);
    UpdatedRowDominates(apps);
  }

  lemma UpdatedRowDominates(apps: seq<AppItem>)
    ensures var updated := UpdatedRow(apps);
            forall x, y :: x in updated && y in multiset(apps) - multiset(updated) ==> Text.LexLe(y.repo.updatedAt, x.repo.updatedAt)
  {
    var byDate := UpdatedOrder(apps);
    var updated := UpdatedRow(apps);
    assert updated == byDate[..Min(RowCount, |apps|)];
    UpdatedOrderSorted(apps);
    Sorting.SortedPrefixDominates(byDate, ByUpdatedAt(), Min(RowCount, |apps|));
    forall x, y | x in updated && y in multiset(apps) - multiset(updated) ensures Text.LexLe(y.repo.updatedAt, x.repo.updatedAt) {
      assert ByUpdatedAt()(x, y);
    }
  }

  /** With more than five apps the trending row starts where the top three end, so
      it repeats the fourth and fifth featured apps; with five or fewer it shows
      exactly the featured apps again. */
  lemma TrendingOverlapsFeatured(apps: seq<AppItem>)
    requires |apps| > 0
    ensures var s := UpdateSections(apps).value;
            && (|apps| > FeaturedCount ==> s.trending[..2] == s.featured[SkippedTop..])
            && (|apps| <= FeaturedCount ==> s.trending == s.featured)
  {
    FallbacksNeverFire(apps);
    var s := UpdateSections(apps).value;
    assert s.featured == FeaturedRow(apps) && s.trending == TrendingRow(apps);
    RowsOverlap(apps);
  }

  lemma RowsOverlap(apps: seq<AppItem>)
    ensures |apps| > FeaturedCount ==> |TrendingRow(apps)| >= 2 && TrendingRow(apps)[..2] == FeaturedRow(apps)[SkippedTop..]
    ensures |apps| <= FeaturedCount ==> TrendingRow(apps) == FeaturedRow(apps)
  {
    var sorted := StarOrder(apps);
    if |apps| > FeaturedCount {
      assert FeaturedRow(apps) == sorted[..FeaturedCount];
      assert TrendingRow(apps)[..2] == sorted[SkippedTop..FeaturedCount];
    } else {
      assert FeaturedRow(apps) == sorted && TrendingRow(apps) == sorted;
    }
  }
}
