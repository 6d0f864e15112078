/** What the continue-watching operations promise when used in sequence:
    the corrected upsert, and `updateProgress` while its lookups answer,
    keep one row per key; other keys are never touched, removal is
    idempotent, and what was written reads back.
 */
module ContinueWatchingLaws {
  import opened Outcome
  import opened Schema
  import Store
  import opened ContinueWatchingService
  import opened ContinueWatchingRepair

  /** Store-assigned ids stay distinct through any `UpdateProgress`. */
  lemma UpdateProgressKeepsUniqueIds(
    t: Table, userId: string, profileId: string, movieId: int, progress: real,
    now: Stamp, lookup: Link, write: Link)
    requires UniqueIds(t)
    ensures UniqueIds(UpdateProgress(t, userId, profileId, movieId, progress, now, lookup, write).table)
  {
  }

  /** One `UpdateProgress` whose lookup and write both answer, on a key
      holding at most one row:
      afterwards the key holds exactly one row, with the clamped progress
      and the new timestamp, and every other key holds what it held. */
  lemma RecordStep(t: Table, userId: string, profileId: string, movieId: int, progress: real, now: Stamp)
    requires UniqueIds(t)
    requires Store.AtMostOne(t, KeyedBy(Key(Owner(userId, profileId), movieId)))
    ensures var t' := UpdateProgress(t, userId, profileId, movieId, progress, now, Up, Up).table;
      var k := Key(Owner(userId, profileId), movieId);
      && UniqueIds(t')
      && |KeyRows(t', k)| == 1
      && KeyRows(t', k)[0].progress == Clamp(progress)
      && KeyRows(t', k)[0].last_watched == now
      && (forall k' :: k' != k ==> KeyRows(t', k') == KeyRows(t, k'))
  {
    var k := Key(Owner(userId, profileId), movieId);
    var out := UpdateProgress(t, userId, profileId, movieId, progress, now, Up, Up);
    var t' := out.table;
    UpdateProgressKeepsUniqueIds(t, userId, profileId, movieId, progress, now, Up, Up);
    if |KeyRows(t, k)| == 0 {
      var row := out.result.value;
      Store.FilterAppend(t, row, KeyedBy(k));
      forall k' | k' != k ensures KeyRows(t', k') == KeyRows(t, k') {
        Store.FilterAppend(t, row, KeyedBy(k'));
      }
    } else {
      var patch := Touch(Clamp(progress), now);
      assert t' == Store.Rewrite(t, KeyedBy(k), patch);
      var row := KeyRows(t, k)[0];
      OnlyRowOfKey(t, k, row);
      var i :| 0 <= i < |t| && t[i] == row;
      forall j | 0 <= j < |t'| && j != i ensures !KeyedBy(k)(t'[j]) {
        Store.DistinctRows(t, ContinueWatchingId, i, j);
      }
      Store.FilterOnlyAt(t', KeyedBy(k), i);
      forall k' | k' != k ensures KeyRows(t', k') == KeyRows(t, k') {
        Store.FilterRewrite(t, KeyedBy(k), patch, KeyedBy(k'));
      }
    }
  }

  /** After an `UpdateProgress` whose lookup and write both answer, on a
      key holding at most one row, `getProgress` for the same key answers
      the clamped value that was written. */
  lemma ProgressReadsBack(t: Table, userId: string, profileId: string, movieId: int, progress: real, now: Stamp)
    requires UniqueIds(t)
    requires Store.AtMostOne(t, KeyedBy(Key(Owner(userId, profileId), movieId)))
    ensures var t' := UpdateProgress(t, userId, profileId, movieId, progress, now, Up, Up).table;
      GetProgress(t', userId, profileId, movieId, Up) == Ok(Clamp(progress))
  {
    RecordStep(t, userId, profileId, movieId, progress, now);
  }

  /** Two calls, each with its lookup and write answering, on a key with
      no row leave exactly one row for that key,
      holding the second clamped progress: the second call updates rather
      than duplicates. */
  lemma TwoUpdatesLeaveOneRow(
    t: Table, userId: string, profileId: string, movieId: int,
    first: real, firstAt: Stamp, second: real, secondAt: Stamp)
    requires UniqueIds(t)
    requires KeyRows(t, Key(Owner(userId, profileId), movieId)) == []
    ensures var t1 := UpdateProgress(t, userId, profileId, movieId, first, firstAt, Up, Up).table;
      var t2 := UpdateProgress(t1, userId, profileId, movieId, second, secondAt, Up, Up).table;
      var rows := KeyRows(t2, Key(Owner(userId, profileId), movieId));
      |rows| == 1 && rows[0].progress == Clamp(second) && |t2| == |t| + 1
  {
    var t1 := UpdateProgress(t, userId, profileId, movieId, first, firstAt, Up, Up).table;
    RecordStep(t, userId, profileId, movieId, first, firstAt);
    RecordStep(t1, userId, profileId, movieId, second, secondAt);
  }

  /** Removing a key whose rows are all gone succeeds and changes nothing. */
  lemma RemoveAbsentIsNoOp(t: Table, userId: string, profileId: string, movieId: int)
    requires KeyRows(t, Key(Owner(userId, profileId), movieId)) == []
    ensures RemoveFromContinueWatching(t, userId, profileId, movieId, Up) == Store.Reply(t, Ok(()))
  {
    var k := Key(Owner(userId, profileId), movieId);
    Store.FilterEmpty(t, KeyedBy(k));
    Store.FilterAll(t, Store.Not(KeyedBy(k)));
  }

  /** A successful removal empties the key, leaves every other key as it
      was, keeps ids distinct, and a second removal is a no-op. */
  lemma RemoveStep(t: Table, userId: string, profileId: string, movieId: int)
    requires UniqueIds(t)
    ensures var out := RemoveFromContinueWatching(t, userId, profileId, movieId, Up);
      var k := Key(Owner(userId, profileId), movieId);
      && UniqueIds(out.table)
      && KeyRows(out.table, k) == []
      && (forall k' :: k' != k ==> KeyRows(out.table, k') == KeyRows(t, k'))
      && RemoveFromContinueWatching(out.table, userId, profileId, movieId, Up) == Store.Reply(out.table, Ok(()))
  {
    var k := Key(Owner(userId, profileId), movieId);
    var out := RemoveFromContinueWatching(t, userId, profileId, movieId, Up);
    Store.FilterKeepsUniqueIds(t, Store.Not(KeyedBy(k)), ContinueWatchingId);
    forall k' | k' != k ensures KeyRows(out.table, k') == KeyRows(t, k') {
      Store.FilterNarrow(t, Store.Not(KeyedBy(k)), KeyedBy(k'));
    }
    RemoveAbsentIsNoOp(out.table, userId, profileId, movieId);
  }

  /** The discarded lookup error, as written: when the lookup fails on a
      key that already has a row, the insert branch adds a second row, and
      from then on `getProgress` reads 0 for that key. */
  lemma LookupFailureDuplicatesRow(
    t: Table, userId: string, profileId: string, movieId: int, progress: real, now: Stamp)
    requires |KeyRows(t, Key(Owner(userId, profileId), movieId))| >= 1
    ensures var t' := UpdateProgress(t, userId, profileId, movieId, progress, now, Down, Up).table;
      var k := Key(Owner(userId, profileId), movieId);
      && |KeyRows(t', k)| == |KeyRows(t, k)| + 1
      && GetProgress(t', userId, profileId, movieId, Up) == Ok(0.0)
  {
    var k := Key(Owner(userId, profileId), movieId);
    var out := UpdateProgress(t, userId, profileId, movieId, progress, now, Down, Up);
    Store.FilterAppend(t, out.result.value, KeyedBy(k));
  }

  /** Once a key holds two or more rows, no `UpdateProgress` repairs it
      (only a removal does, see `RemovalRepairsDuplicates`):
      every later call inserts yet another row or fails, and `getProgress`
      keeps reading 0 whatever progress is recorded. */
  lemma DuplicatesPersist(
    t: Table, userId: string, profileId: string, movieId: int, progress: real,
    now: Stamp, lookup: Link, write: Link)
    requires |KeyRows(t, Key(Owner(userId, profileId), movieId))| >= 2
    ensures var t' := UpdateProgress(t, userId, profileId, movieId, progress, now, lookup, write).table;
      && |KeyRows(t', Key(Owner(userId, profileId), movieId))| >= 2
      && GetProgress(t', userId, profileId, movieId, Up) == Ok(0.0)
  {
    var k := Key(Owner(userId, profileId), movieId);
    var out := UpdateProgress(t, userId, profileId, movieId, progress, now, lookup, write);
    if write == Up {
      Store.FilterAppend(t, out.result.value, KeyedBy(k));
    }
  }

  /** For the call's own key, the corrected upsert keeps at most one row
      and distinct ids whatever each of its two round trips does, and a
      failed call leaves the table as it was. */
  lemma CheckedKeepsAtMostOne(
    t: Table, userId: string, profileId: string, movieId: int, progress: real,
    now: Stamp, lookup: Link, write: Link)
    requires UniqueIds(t)
    requires Store.AtMostOne(t, KeyedBy(Key(Owner(userId, profileId), movieId)))
    ensures var out := UpdateProgressChecked(t, userId, profileId, movieId, progress, now, lookup, write);
      && UniqueIds(out.table)
      && Store.AtMostOne(out.table, KeyedBy(Key(Owner(userId, profileId), movieId)))
      && (out.result.Err? ==> out.table == t)
      && (out.result.Ok? ==> |KeyRows(out.table, Key(Owner(userId, profileId), movieId))| == 1)
  {
    if lookup == Up && write == Up {
      RecordStep(t, userId, profileId, movieId, progress, now);
    }
  }

  /** Over the whole table: when no key holds two rows before the corrected
      upsert, none does after it, whatever its round trips do. */
  lemma CheckedKeepsOneRowPerKey(
    t: Table, userId: string, profileId: string, movieId: int, progress: real,
    now: Stamp, lookup: Link, write: Link)
    requires UniqueIds(t) && Store.OneRowPerKey(t, KeyedBy)
    ensures var out := UpdateProgressChecked(t, userId, profileId, movieId, progress, now, lookup, write);
      UniqueIds(out.table) && Store.OneRowPerKey(out.table, KeyedBy)
  {
    var k := Key(Owner(userId, profileId), movieId);
    var out := UpdateProgressChecked(t, userId, profileId, movieId, progress, now, lookup, write);
    CheckedKeepsAtMostOne(t, userId, profileId, movieId, progress, now, lookup, write);
    if lookup == Up && write == Up {
      RecordStep(t, userId, profileId, movieId, progress, now);
      forall k' ensures Store.AtMostOne(out.table, KeyedBy(k')) {
        if k' != k {
          assert KeyRows(out.table, k') == KeyRows(t, k');
        }
      }
    }
  }

  /** Over the whole table: a removal never makes a key hold two rows. */
  lemma RemoveKeepsOneRowPerKey(t: Table, userId: string, profileId: string, movieId: int, link: Link)
    requires UniqueIds(t) && Store.OneRowPerKey(t, KeyedBy)
    ensures var out := RemoveFromContinueWatching(t, userId, profileId, movieId, link);
      UniqueIds(out.table) && Store.OneRowPerKey(out.table, KeyedBy)
  {
    var k := Key(Owner(userId, profileId), movieId);
    var out := RemoveFromContinueWatching(t, userId, profileId, movieId, link);
    if link == Up {
      RemoveStep(t, userId, profileId, movieId);
      forall k' ensures Store.AtMostOne(out.table, KeyedBy(k')) {
        if k' != k {
          assert KeyRows(out.table, k') == KeyRows(t, k');
        }
      }
    }
  }

  /** The update branch writes `last_watched`, which the update shape the
      schema declares for continue-watching does not carry: the branch's
      write is expressible as such an update exactly when it leaves
      `last_watched` as it was. */
  lemma TouchFitsUpdateShape(row: ContinueWatching, progress: real, now: Stamp)
    ensures (exists u :: ApplyContinueWatchingUpdate(row, u) == Touch(progress, now)(row))
        <==> now == row.last_watched
  {
    if now == row.last_watched {
      var u := ContinueWatchingUpdate(None, None, None, Some(progress));
      assert ApplyContinueWatchingUpdate(row, u) == Touch(progress, now)(row);
    }
  }

  /** A removal empties the key whatever it held, duplicates included;
      after it, an `UpdateProgress` whose round trips answer reads back. */
  lemma RemovalRepairsDuplicates(
    t: Table, userId: string, profileId: string, movieId: int, progress: real, now: Stamp)
    requires UniqueIds(t)
    ensures var t1 := RemoveFromContinueWatching(t, userId, profileId, movieId, Up).table;
      var t2 := UpdateProgress(t1, userId, profileId, movieId, progress, now, Up, Up).table;
      && KeyRows(t1, Key(Owner(userId, profileId), movieId)) == []
      && GetProgress(t2, userId, profileId, movieId, Up) == Ok(Clamp(progress))
  {
    var t1 := RemoveFromContinueWatching(t, userId, profileId, movieId, Up).table;
    RemoveStep(t, userId, profileId, movieId);
    ProgressReadsBack(t1, userId, profileId, movieId, progress, now);
  }
}
