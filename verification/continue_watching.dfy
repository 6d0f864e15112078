/** The continue-watching service: playback progress per
    (user, profile, movie), kept in the `continue_watching` table.
 */
module ContinueWatchingService {
  import opened Outcome
  import opened Schema
  import Store

  type Table = seq<ContinueWatching>

  /** `.eq('user_id', u).eq('profile_id', p)` */
  function OwnedBy(owner: Owner): ContinueWatching -> bool {
    (r: ContinueWatching) => r.RowOwner() == owner
  }

  /** `.eq('user_id', u).eq('profile_id', p).eq('movie_id', m)` */
  function KeyedBy(k: Key): ContinueWatching -> bool {
    (r: ContinueWatching) => r.RowKey() == k
  }

  /** `.eq('id', id)` */
  function IdIs(id: Id): ContinueWatching -> bool {
    (r: ContinueWatching) => r.id == id
  }

  /** The rows stored for one key. */
  function KeyRows(t: Table, k: Key): seq<ContinueWatching> {
    Store.Filter(t, KeyedBy(k))
  }

  predicate UniqueIds(t: Table) {
    Store.UniqueIds(t, ContinueWatchingId)
  }

  function FreshId(t: Table): (n: Id)
    ensures forall i :: 0 <= i < |t| ==> t[i].id < n
  {
    Store.FreshId(t, ContinueWatchingId)
  }

  function Min(a: real, b: real): real { if a <= b then a else b }
  function Max(a: real, b: real): real { if a >= b then a else b }

  /** `Math.max(0, Math.min(1, progress))` */
  function Clamp(progress: real): (v: real)
    ensures 0.0 <= v <= 1.0
    ensures 0.0 <= progress <= 1.0 ==> v == progress
    ensures progress < 0.0 ==> v == 0.0
    ensures progress > 1.0 ==> v == 1.0
  {
    Max(0.0, Min(1.0, progress))
  }

  /** The columns the update branch writes. */
  function Touch(progress: real, now: Stamp): ContinueWatching -> ContinueWatching {
    (r: ContinueWatching) => r.(progress := progress, last_watched := now)
  }

  /** getContinueWatching: the owner's rows, most recently watched first. */
  function GetContinueWatching(t: Table, userId: string, profileId: string, link: Link)
    : (r: Result<seq<ContinueWatching>>)
    ensures link == Down <==> r.Err?
    ensures r.Err? ==> r.error == Unavailable
    ensures r.Ok? ==> Store.SortedDesc(r.value, (x: ContinueWatching) => x.last_watched)
    ensures r.Ok? ==> forall x :: x in r.value <==> x in t && x.user_id == userId && x.profile_id == profileId
    ensures r.Ok? ==> forall x :: multiset(r.value)[x] ==
                        (if x.user_id == userId && x.profile_id == profileId then multiset(t)[x] else 0)
  {
    match Store.SelectAll(t, OwnedBy(Owner(userId, profileId)), link)
    case Err(e) => Err(e)
    case Ok(rows) =>
      Store.FilterContents(t, OwnedBy(Owner(userId, profileId)));
      var sorted := Store.OrderDesc(rows, (x: ContinueWatching) => x.last_watched);
      assert forall x :: x in sorted <==> x in rows by {
        forall x ensures x in sorted <==> x in rows {
          assert x in sorted <==> x in multiset(sorted);
        }
      }
      Ok(sorted)
  }

  /** updateProgress: clamp, look the key up, then update the one row found
      or insert a new one. The lookup's error is discarded, so a failed
      lookup, like a lookup matching zero or several rows, inserts. */
  function UpdateProgress(
    t: Table, userId: string, profileId: string, movieId: int, progress: real,
    now: Stamp, lookup: Link, write: Link)
    : (out: Store.Reply<ContinueWatching, ContinueWatching>)
    ensures write == Down ==> out == Store.Reply(t, Err(Unavailable))
    ensures out.result.Ok? ==>
      out.result.value.RowKey() == Key(Owner(userId, profileId), movieId) &&
      out.result.value.progress == Clamp(progress)
    // Update branch: the single stored row for the key is rewritten in place.
    ensures lookup == Up && write == Up && UniqueIds(t) &&
            |KeyRows(t, Key(Owner(userId, profileId), movieId))| == 1 ==>
      && out.result == Ok(KeyRows(t, Key(Owner(userId, profileId), movieId))[0]
                             .(progress := Clamp(progress), last_watched := now))
      && |out.table| == |t|
      && (forall i :: 0 <= i < |t| ==>
           out.table[i] == (if t[i].RowKey() == Key(Owner(userId, profileId), movieId)
                            then t[i].(progress := Clamp(progress), last_watched := now)
                            else t[i]))
    // Insert branch: a failed lookup, or one not matching exactly one row.
    ensures write == Up &&
            (lookup == Down || |KeyRows(t, Key(Owner(userId, profileId), movieId))| != 1) ==>
      && out.result.Ok?
      && out.table == t + [out.result.value]
      && out.result.value.last_watched == now
      && forall i :: 0 <= i < |t| ==> t[i].id < out.result.value.id
  {
    var k := Key(Owner(userId, profileId), movieId);
    var valid := Clamp(progress);
    var existing := Store.SelectSingle(t, KeyedBy(k), lookup);
    if existing.Ok? then
      var row := existing.value;
      UpdateAnswersRow(t, k, row, valid, now, write);
      UpdateTouchesKey(t, k, row, valid, now);
      Store.UpdateOne(t, IdIs(row.id), Touch(valid, now), write)
    else
      var ins := ContinueWatchingInsert(userId, profileId, movieId, valid);
      Store.InsertOne(t, NewContinueWatching(ins, FreshId(t), now), write)
  }

  /** When the lookup of a key found `row`, `row` is the only row stored
      under that key. */
  lemma OnlyRowOfKey(t: Table, k: Key, row: ContinueWatching)
    requires KeyRows(t, k) == [row]
    ensures row in t
    ensures forall j :: 0 <= j < |t| && t[j].RowKey() == k ==> t[j] == row
  {
    Store.FilterContents(t, KeyedBy(k));
    assert row in KeyRows(t, k);
    forall j | 0 <= j < |t| && t[j].RowKey() == k ensures t[j] == row {
      assert t[j] in KeyRows(t, k);
    }
  }

  /** The update branch of `UpdateProgress` updates by the id of the row
      the lookup returned. Whatever the ids, a successful answer is that row
      rewritten. */
  lemma UpdateAnswersRow(t: Table, k: Key, row: ContinueWatching, v: real, now: Stamp, write: Link)
    requires KeyRows(t, k) == [row]
    ensures var out := Store.UpdateOne(t, IdIs(row.id), Touch(v, now), write);
      out.result.Ok? ==> out.result.value == row.(progress := v, last_watched := now)
  {
    OnlyRowOfKey(t, k, row);
    var byId := Store.Filter(t, IdIs(row.id));
    Store.FilterContents(t, IdIs(row.id));
    if |byId| == 1 {
      assert row in byId;
    }
  }

  /** With unique ids, updating by the id of the only row of a key touches
      exactly the rows of that key. */
  lemma UpdateTouchesKey(t: Table, k: Key, row: ContinueWatching, v: real, now: Stamp)
    requires KeyRows(t, k) == [row]
    ensures UniqueIds(t) ==>
      var out := Store.UpdateOne(t, IdIs(row.id), Touch(v, now), Up);
      && out.result.Ok?
      && |out.table| == |t|
      && (forall i :: 0 <= i < |t| ==>
           out.table[i] == (if t[i].RowKey() == k then t[i].(progress := v, last_watched := now) else t[i]))
  {
    if UniqueIds(t) {
      OnlyRowOfKey(t, k, row);
      var i :| 0 <= i < |t| && t[i] == row;
      forall j | 0 <= j < |t| && j != i ensures !IdIs(row.id)(t[j]) {
        if j < i { assert t[j].id != t[i].id; } else { assert t[i].id != t[j].id; }
      }
      Store.FilterOnlyAt(t, IdIs(row.id), i);
      var table := Store.Rewrite(t, IdIs(row.id), Touch(v, now));
      assert Store.UpdateOne(t, IdIs(row.id), Touch(v, now), Up).table == table;
      forall j | 0 <= j < |t|
        ensures table[j] == (if t[j].RowKey() == k then t[j].(progress := v, last_watched := now) else t[j])
      {
        assert IdIs(row.id)(t[j]) <==> j == i;
      }
    }
  }

  /** removeFromContinueWatching: delete every row of the key. */
  function RemoveFromContinueWatching(t: Table, userId: string, profileId: string, movieId: int, link: Link)
    : (out: Store.Reply<ContinueWatching, ()>)
    ensures link == Down <==> out.result.Err?
    ensures link == Down ==> out == Store.Reply(t, Err(Unavailable))
    ensures link == Up ==> KeyRows(out.table, Key(Owner(userId, profileId), movieId)) == []
    ensures link == Up ==> forall x :: multiset(out.table)[x] ==
                             (if x.RowKey() == Key(Owner(userId, profileId), movieId) then 0 else multiset(t)[x])
  {
    var k := Key(Owner(userId, profileId), movieId);
    var out := Store.DeleteAll(t, KeyedBy(k), link);
    if link == Up then
      Store.FilterContents(t, Store.Not(KeyedBy(k)));
      Store.FilterNone(out.table, KeyedBy(k));
      out
    else out
  }

  /** getProgress: the stored progress, 0 when no single row matches
      (PGRST116), and any other error passed on. */
  function GetProgress(t: Table, userId: string, profileId: string, movieId: int, link: Link)
    : (r: Result<real>)
    ensures link == Down ==> r == Err(Unavailable)
    ensures link == Up ==> r.Ok?
    ensures link == Up && |KeyRows(t, Key(Owner(userId, profileId), movieId))| == 1 ==>
      r.value == KeyRows(t, Key(Owner(userId, profileId), movieId))[0].progress
    ensures link == Up && |KeyRows(t, Key(Owner(userId, profileId), movieId))| != 1 ==> r.value == 0.0
  {
    match Store.SelectSingle(t, KeyedBy(Key(Owner(userId, profileId), movieId)), link)
    case Ok(row) => Ok(row.progress)
    case Err(e) => if e.NoSingleRow? then Ok(0.0) else Err(e)
  }
}

/** The continue-watching upsert with the lookup's failure passed on
    instead of discarded, so a failed lookup can no longer insert a second
    row for a key that already has one. */
module ContinueWatchingRepair {
  import opened Outcome
  import opened Schema
  import Store
  import opened ContinueWatchingService

  function UpdateProgressChecked(
    t: Table, userId: string, profileId: string, movieId: int, progress: real,
    now: Stamp, lookup: Link, write: Link)
    : (out: Store.Reply<ContinueWatching, ContinueWatching>)
    ensures lookup == Down ==> out == Store.Reply(t, Err(Unavailable))
    ensures lookup == Up ==> out == UpdateProgress(t, userId, profileId, movieId, progress, now, Up, write)
  {
    var existing := Store.SelectSingle(t, KeyedBy(Key(Owner(userId, profileId), movieId)), lookup);
    if existing.Err? && !existing.error.NoSingleRow? then Store.Reply(t, Err(existing.error))
    else UpdateProgress(t, userId, profileId, movieId, progress, now, lookup, write)
  }
}
