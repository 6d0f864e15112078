/** What the watchlist operations promise in sequence: an added title is
    found, a removed one is not, removal is idempotent, and each owner's
    answers depend on that owner's rows alone.
 */
module WatchlistLaws {
  import opened Outcome
  import opened Schema
  import Store
  import opened WatchlistService
  import opened WatchlistRepair

  /** An add changes the rows of its own key only: that key gains the new
      row and every other key keeps what it had; ids stay distinct. */
  lemma AddStep(t: Table, userId: string, profileId: string, movieId: int, now: Stamp)
    requires UniqueIds(t)
    ensures var out := AddToWatchlist(t, userId, profileId, movieId, now, Up);
      var k := Key(Owner(userId, profileId), movieId);
      && UniqueIds(out.table)
      && KeyRows(out.table, k) == KeyRows(t, k) + [out.result.value]
      && (forall k' :: k' != k ==> KeyRows(out.table, k') == KeyRows(t, k'))
  {
    var k := Key(Owner(userId, profileId), movieId);
    var out := AddToWatchlist(t, userId, profileId, movieId, now, Up);
    Store.AppendFreshKeepsUniqueIds(t, out.result.value, WatchListId);
    Store.FilterAppend(t, out.result.value, KeyedBy(k));
    forall k' | k' != k ensures KeyRows(out.table, k') == KeyRows(t, k') {
      Store.FilterAppend(t, out.result.value, KeyedBy(k'));
    }
  }

  /** After adding a title the key did not hold, `isInWatchlist` finds it. */
  lemma AddThenPresent(t: Table, userId: string, profileId: string, movieId: int, now: Stamp)
    requires KeyRows(t, Key(Owner(userId, profileId), movieId)) == []
    ensures var t' := AddToWatchlist(t, userId, profileId, movieId, now, Up).table;
      IsInWatchlist(t', userId, profileId, movieId, Up) == Ok(true)
  {
    var out := AddToWatchlist(t, userId, profileId, movieId, now, Up);
    Store.FilterAppend(t, out.result.value, KeyedBy(Key(Owner(userId, profileId), movieId)));
  }

  /** An add by one owner, or for another title, leaves every other key's
      `isInWatchlist` answer as it was. */
  lemma AddLeavesOthersAlone(
    t: Table, userId: string, profileId: string, movieId: int, now: Stamp,
    otherUser: string, otherProfile: string, otherMovie: int, link: Link)
    requires (otherUser, otherProfile, otherMovie) != (userId, profileId, movieId)
    ensures var t' := AddToWatchlist(t, userId, profileId, movieId, now, Up).table;
      IsInWatchlist(t', otherUser, otherProfile, otherMovie, link)
        == IsInWatchlist(t, otherUser, otherProfile, otherMovie, link)
  {
    var out := AddToWatchlist(t, userId, profileId, movieId, now, Up);
    Store.FilterAppend(t, out.result.value, KeyedBy(Key(Owner(otherUser, otherProfile), otherMovie)));
  }

  /** A successful removal empties the key, keeps every other key as it
      was, keeps ids distinct, makes `isInWatchlist` answer false, and a
      second removal changes nothing. */
  lemma RemoveStep(t: Table, userId: string, profileId: string, movieId: int)
    requires UniqueIds(t)
    ensures var out := RemoveFromWatchlist(t, userId, profileId, movieId, Up);
      var k := Key(Owner(userId, profileId), movieId);
      && UniqueIds(out.table)
      && (forall k' :: k' != k ==> KeyRows(out.table, k') == KeyRows(t, k'))
      && IsInWatchlist(out.table, userId, profileId, movieId, Up) == Ok(false)
      && RemoveFromWatchlist(out.table, userId, profileId, movieId, Up) == Store.Reply(out.table, Ok(()))
  {
    var k := Key(Owner(userId, profileId), movieId);
    var out := RemoveFromWatchlist(t, userId, profileId, movieId, Up);
    Store.FilterKeepsUniqueIds(t, Store.Not(KeyedBy(k)), WatchListId);
    forall k' | k' != k ensures KeyRows(out.table, k') == KeyRows(t, k') {
      Store.FilterNarrow(t, Store.Not(KeyedBy(k)), KeyedBy(k'));
    }
    RemoveAbsentIsNoOp(out.table, userId, profileId, movieId);
  }

  /** Removing a key with no rows succeeds and changes nothing. */
  lemma RemoveAbsentIsNoOp(t: Table, userId: string, profileId: string, movieId: int)
    requires KeyRows(t, Key(Owner(userId, profileId), movieId)) == []
    ensures RemoveFromWatchlist(t, userId, profileId, movieId, Up) == Store.Reply(t, Ok(()))
  {
    var k := Key(Owner(userId, profileId), movieId);
    Store.FilterEmpty(t, KeyedBy(k));
    Store.FilterAll(t, Store.Not(KeyedBy(k)));
  }

  /** Ownership isolation: `isInWatchlist(u, p, m)` answers the same on the
      whole table as on the rows of owner (u, p) alone. */
  lemma IsInWatchlistSeesOnlyOwner(t: Table, userId: string, profileId: string, movieId: int, link: Link)
    ensures IsInWatchlist(t, userId, profileId, movieId, link)
         == IsInWatchlist(OwnerRows(t, Owner(userId, profileId)), userId, profileId, movieId, link)
  {
    Store.FilterNarrow(t, OwnedBy(Owner(userId, profileId)), KeyedBy(Key(Owner(userId, profileId), movieId)));
  }

  /** Likewise `getWatchlist` answers from the owner's rows alone. */
  lemma GetWatchlistSeesOnlyOwner(t: Table, userId: string, profileId: string, link: Link)
    ensures GetWatchlist(t, userId, profileId, link)
         == GetWatchlist(OwnerRows(t, Owner(userId, profileId)), userId, profileId, link)
  {
    Store.FilterTwice(t, OwnedBy(Owner(userId, profileId)));
  }

  /** As written, `addToWatchlist` never looks for an existing row: adding
      the same title twice stores two rows, and `isInWatchlist`, whose
      `.single()` now sees two rows, answers false for a title that is
      saved. */
  lemma DoubleAddHidesTitle(t: Table, userId: string, profileId: string, movieId: int, first: Stamp, second: Stamp)
    requires KeyRows(t, Key(Owner(userId, profileId), movieId)) == []
    ensures var t1 := AddToWatchlist(t, userId, profileId, movieId, first, Up).table;
      var t2 := AddToWatchlist(t1, userId, profileId, movieId, second, Up).table;
      && |KeyRows(t2, Key(Owner(userId, profileId), movieId))| == 2
      && IsInWatchlist(t2, userId, profileId, movieId, Up) == Ok(false)
  {
    var t1 := AddToWatchlist(t, userId, profileId, movieId, first, Up).table;
    AddAppendsToKey(t, userId, profileId, movieId, first);
    AddAppendsToKey(t1, userId, profileId, movieId, second);
  }

  /** An add appends its row to the rows of its key. */
  lemma AddAppendsToKey(t: Table, userId: string, profileId: string, movieId: int, now: Stamp)
    ensures var out := AddToWatchlist(t, userId, profileId, movieId, now, Up);
      KeyRows(out.table, Key(Owner(userId, profileId), movieId))
        == KeyRows(t, Key(Owner(userId, profileId), movieId)) + [out.result.value]
  {
    var out := AddToWatchlist(t, userId, profileId, movieId, now, Up);
    Store.FilterAppend(t, out.result.value, KeyedBy(Key(Owner(userId, profileId), movieId)));
  }

  /** For the call's own key, the corrected add keeps at most one row
      whatever its round trips do; once it has succeeded the title is found, and adding it
      again is refused with `AlreadyExists` and changes nothing. */
  lemma AddOnceKeepsAtMostOne(
    t: Table, userId: string, profileId: string, movieId: int, now: Stamp, lookup: Link, write: Link)
    requires UniqueIds(t)
    requires Store.AtMostOne(t, KeyedBy(Key(Owner(userId, profileId), movieId)))
    ensures var out := AddToWatchlistOnce(t, userId, profileId, movieId, now, lookup, write);
      && UniqueIds(out.table)
      && Store.AtMostOne(out.table, KeyedBy(Key(Owner(userId, profileId), movieId)))
      && (out.result.Ok? ==> IsInWatchlist(out.table, userId, profileId, movieId, Up) == Ok(true))
      && (out.result.Ok? ==>
            AddToWatchlistOnce(out.table, userId, profileId, movieId, now, Up, write)
              == Store.Reply(out.table, Err(AlreadyExists)))
  {
    var out := AddToWatchlistOnce(t, userId, profileId, movieId, now, lookup, write);
    if out.result.Ok? {
      AddStep(t, userId, profileId, movieId, now);
    }
  }

  /** Over the whole table: when no key holds two rows before the corrected
      add, none does after it, whatever its round trips do. */
  lemma AddOnceKeepsOneRowPerKey(
    t: Table, userId: string, profileId: string, movieId: int, now: Stamp, lookup: Link, write: Link)
    requires UniqueIds(t) && Store.OneRowPerKey(t, KeyedBy)
    ensures var out := AddToWatchlistOnce(t, userId, profileId, movieId, now, lookup, write);
      UniqueIds(out.table) && Store.OneRowPerKey(out.table, KeyedBy)
  {
    var k := Key(Owner(userId, profileId), movieId);
    var out := AddToWatchlistOnce(t, userId, profileId, movieId, now, lookup, write);
    AddOnceKeepsAtMostOne(t, userId, profileId, movieId, now, lookup, write);
    if out.result.Ok? {
      AddStep(t, userId, profileId, movieId, now);
      forall k' ensures Store.AtMostOne(out.table, KeyedBy(k')) {
        if k' != k {
          assert KeyRows(out.table, k') == KeyRows(t, k');
        }
      }
    }
  }

  /** Over the whole table: a removal never makes a key hold two rows. */
  lemma RemoveKeepsOneRowPerKey(t: Table, userId: string, profileId: string, movieId: int, link: Link)
    requires UniqueIds(t) && Store.OneRowPerKey(t, KeyedBy)
    ensures var out := RemoveFromWatchlist(t, userId, profileId, movieId, link);
      UniqueIds(out.table) && Store.OneRowPerKey(out.table, KeyedBy)
  {
    var k := Key(Owner(userId, profileId), movieId);
    var out := RemoveFromWatchlist(t, userId, profileId, movieId, link);
    if link == Up {
      RemoveStep(t, userId, profileId, movieId);
      assert KeyRows(out.table, k) == [];
      forall k' ensures Store.AtMostOne(out.table, KeyedBy(k')) {
        if k' != k {
          assert KeyRows(out.table, k') == KeyRows(t, k');
        }
      }
    }
  }
}
