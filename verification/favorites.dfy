/** `FavoriteAppDao`: the favourites table as a map from a repository's id to its row,
    with insert-or-replace, delete, existence, count, and the listing newest first;
    and the detail screen's favourite toggle on top of it. */
module Favorites {

  import opened Models
  import Sorting

  type Table = map<int, FavoriteApp>

  /** Every row is stored under its own primary key. */
  predicate Keyed(t: Table) {
    forall id :: id in t ==> t[id].id == id
  }

  /** `addFavorite`: insert, replacing any row with the same id. */
  function Add(t: Table, app: FavoriteApp): (r: Table)
    requires Keyed(t)
    ensures Keyed(r)
    ensures IsFavorite(r, app.id) && r[app.id] == app
    ensures forall id :: id != app.id ==> (id in r <==> id in t) && (id in t ==> r[id] == t[id])
    ensures Count(r) == if IsFavorite(t, app.id) then Count(t) else Count(t) + 1
  {
    var r := t[app.id := app];
    assert app.id !in t ==> r.Keys == t.Keys + {app.id};
    assert app.id in t ==> r.Keys == t.Keys;
    r
  }

  /** `removeFavorite`: delete the row with this id, if there is one. */
  function Remove(t: Table, id: int): (r: Table)
    requires Keyed(t)
    ensures Keyed(r)
    ensures !IsFavorite(r, id)
    ensures forall other :: other != id ==> (other in r <==> other in t) && (other in t ==> r[other] == t[other])
    ensures Count(r) == if IsFavorite(t, id) then Count(t) - 1 else Count(t)
  {
    var r := t - {id};
    assert id in t ==> t.Keys == r.Keys + {id};
    assert id !in t ==> r.Keys == t.Keys;
    r
  }

  /** `isFavorite` and `isFavoriteSync`. */
  predicate IsFavorite(t: Table, id: int) {
    id in t
  }

  /** `getFavoriteCount`: the number of rows, one per distinct id. */
  function Count(t: Table): nat {
    |t.Keys|
  }

  /** `ORDER BY addedAt DESC`: a row may stay ahead of one added no later. */
  function NewestFirst(): (FavoriteApp, FavoriteApp) -> bool {
    (a: FavoriteApp, b: FavoriteApp) => a.addedAt >= b.addedAt
  }

  lemma NewestFirstIsPreorder()
    ensures Sorting.TotalPreorder(NewestFirst())
  {
  }

  /** `getAllFavorites`: every row once, newest first. The order among rows added at
      the same instant is the database's choice. */
  method AllFavorites(t: Table) returns (r: seq<FavoriteApp>)
    requires Keyed(t)
    ensures Sorting.SortedBy(r, NewestFirst())
    ensures |r| == Count(t)
    ensures forall id :: id in t ==> t[id] in r
    ensures forall a :: a in r ==> a.id in t && t[a.id] == a
  {
    var left := t.Keys;
    r := [];
    while |left| > 0
      invariant left <= t.Keys
      invariant |r| + |left| == |t.Keys|
      invariant Sorting.SortedBy(r, NewestFirst())
      invariant forall a :: a in r ==> a.id in t && t[a.id] == a
      invariant forall id :: id in t.Keys - left ==> t[id] in r
      decreases |left|
    {
      NonEmptyHasMember(left);
      var id :| id in left;
      var next := Sorting.InsertBy(t[id], r, NewestFirst());
      assert Sorting.SortedBy(next, NewestFirst()) by {
        NewestFirstIsPreorder();
        Sorting.InsertBySorted(t[id], r, NewestFirst());
      }
      Sorting.InsertByMembers(t[id], r, NewestFirst());
      r := next;
      left := left - {id};
    }
  }

  lemma EmptyIfNoMember(s: set<int>)
    requires forall k :: k !in s
    ensures |s| == 0
  {
    var none: set<int> := {};
    assert forall k :: k in s <==> k in none;
    assert s == none;
  }

  lemma NonEmptyHasMember(s: set<int>)
    requires |s| > 0
    ensures exists k :: k in s
  {
    if !exists k :: k in s {
      EmptyIfNoMember(s);
    }
  }

  /** The detail screen's favourite button: removes the repository if it is a
      favourite, otherwise adds it stamped with the time `now`. */
  function Toggle(t: Table, repo: GitHubRepo, now: int): (r: Table)
    requires Keyed(t)
    ensures Keyed(r)
    ensures IsFavorite(r, repo.id) <==> !IsFavorite(t, repo.id)
    ensures forall id :: id != repo.id ==> (id in r <==> id in t) && (id in t ==> r[id] == t[id])
  {
    if IsFavorite(t, repo.id) then Remove(t, repo.id) else Add(t, FavoriteFromRepo(repo, now))
  }

  /** Toggling twice restores membership and the count, and leaves every other row
      alone; a row that was there comes back with the new time stamp. */
  lemma ToggleTwice(t: Table, repo: GitHubRepo, now: int, later: int)
    requires Keyed(t)
    ensures var r := Toggle(Toggle(t, repo, now), repo, later);
            && (IsFavorite(r, repo.id) <==> IsFavorite(t, repo.id))
            && Count(r) == Count(t)
            && (IsFavorite(t, repo.id) ==> r[repo.id] == FavoriteFromRepo(repo, later))
            && (forall id :: id != repo.id && id in t ==> id in r && r[id] == t[id])
  {
  }

  /** Adding the same row twice is the same as adding it once. */
  lemma AddIdempotent(t: Table, app: FavoriteApp)
    requires Keyed(t)
    ensures Add(Add(t, app), app) == Add(t, app)
  {
  }

  /** Removing what was just added restores a table that did not hold the id. */
  lemma RemoveUndoesAdd(t: Table, app: FavoriteApp)
    requires Keyed(t)
    requires !IsFavorite(t, app.id)
    ensures Remove(Add(t, app), app.id) == t
  {
  }
}
