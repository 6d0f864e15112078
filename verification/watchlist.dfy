/** The watchlist service: which movies each (user, profile) has saved,
    kept in the `watchlist` table.
 */
module WatchlistService {
  import opened Outcome
  import opened Schema
  import Store

  type Table = seq<WatchList>

  /** `.eq('user_id', u).eq('profile_id', p)` */
  function OwnedBy(owner: Owner): WatchList -> bool {
    (r: WatchList) => r.RowOwner() == owner
  }

  /** `.eq('user_id', u).eq('profile_id', p).eq('movie_id', m)` */
  function KeyedBy(k: Key): WatchList -> bool {
    (r: WatchList) => r.RowKey() == k
  }

  /** The rows stored for one key. */
  function KeyRows(t: Table, k: Key): seq<WatchList> {
    Store.Filter(t, KeyedBy(k))
  }

  /** The rows of one owner. */
  function OwnerRows(t: Table, owner: Owner): seq<WatchList> {
    Store.Filter(t, OwnedBy(owner))
  }

  predicate UniqueIds(t: Table) {
    Store.UniqueIds(t, WatchListId)
  }

  function FreshId(t: Table): (n: Id)
    ensures forall i :: 0 <= i < |t| ==> t[i].id < n
  {
    Store.FreshId(t, WatchListId)
  }

  /** getWatchlist: every row of the owner. No ordering is requested, so
      only the contents are promised; the model answers in table order. */
  function GetWatchlist(t: Table, userId: string, profileId: string, link: Link): (r: Result<seq<WatchList>>)
    ensures link == Down <==> r.Err?
    ensures r.Err? ==> r.error == Unavailable
    ensures r.Ok? ==> forall x :: x in r.value <==> x in t && x.user_id == userId && x.profile_id == profileId
    ensures r.Ok? ==> forall x :: multiset(r.value)[x] ==
                        (if x.user_id == userId && x.profile_id == profileId then multiset(t)[x] else 0)
  {
    Store.FilterContents(t, OwnedBy(Owner(userId, profileId)));
    Store.SelectAll(t, OwnedBy(Owner(userId, profileId)), link)
  }

  /** addToWatchlist: insert a row for the key, without looking for one
      already there. */
  function AddToWatchlist(t: Table, userId: string, profileId: string, movieId: int, now: Stamp, link: Link)
    : (out: Store.Reply<WatchList, WatchList>)
    ensures link == Down <==> out.result.Err?
    ensures link == Down ==> out.table == t && out.result.error == Unavailable
    ensures link == Up ==>
      && out.table == t + [out.result.value]
      && out.result.value.RowKey() == Key(Owner(userId, profileId), movieId)
      && out.result.value.added_at == now
      && (forall i :: 0 <= i < |t| ==> t[i].id < out.result.value.id)
  {
    var ins := WatchListInsert(userId, profileId, movieId);
    Store.InsertOne(t, NewWatchList(ins, FreshId(t), now), link)
  }

  /** removeFromWatchlist: delete every row of the key. */
  function RemoveFromWatchlist(t: Table, userId: string, profileId: string, movieId: int, link: Link)
    : (out: Store.Reply<WatchList, ()>)
    ensures link == Down <==> out.result.Err?
    ensures link == Down ==> out == Store.Reply(t, Err(Unavailable))
    ensures link == Up ==> KeyRows(out.table, Key(Owner(userId, profileId), movieId)) == []
    ensures link == Up ==> forall x :: multiset(out.table)[x] ==
                             (if x.RowKey() == Key(Owner(userId, profileId), movieId) then 0 else multiset(t)[x])
  {
    var k := Key(Owner(userId, profileId), movieId);
    var out := Store.DeleteAll(t, KeyedBy(k), link);
    if link == Up then
      Store.FilterContents(t, Store.Not(KeyedBy(k)));
      Store.FilterNone(out.table, KeyedBy(k));
      out
    else out
  }

  /** isInWatchlist: true when exactly one row of the key is found, false
      on the "no single row" answer (PGRST116), any other error passed on. */
  function IsInWatchlist(t: Table, userId: string, profileId: string, movieId: int, link: Link)
    : (r: Result<bool>)
    ensures link == Down ==> r == Err(Unavailable)
    ensures link == Up ==> r == Ok(|KeyRows(t, Key(Owner(userId, profileId), movieId))| == 1)
  {
    var found := Store.SelectSingle(t, KeyedBy(Key(Owner(userId, profileId), movieId)), link);
    if found.Err? && !found.error.NoSingleRow? then Err(found.error) else Ok(found.Ok?)
  }
}

/** The watchlist insert with the existence check that keeps one row per key:
    look the key up first and refuse to add it twice. */
module WatchlistRepair {
  import opened Outcome
  import opened Schema
  import Store
  import opened WatchlistService

  function AddToWatchlistOnce(
    t: Table, userId: string, profileId: string, movieId: int, now: Stamp, lookup: Link, write: Link)
    : (out: Store.Reply<WatchList, WatchList>)
    ensures out.result.Err? ==> out.table == t
    ensures lookup == Down ==> out.result == Err(Unavailable)
    ensures lookup == Up && |KeyRows(t, Key(Owner(userId, profileId), movieId))| == 1 ==>
      out.result == Err(AlreadyExists)
    ensures lookup == Up && |KeyRows(t, Key(Owner(userId, profileId), movieId))| != 1 ==>
      out == AddToWatchlist(t, userId, profileId, movieId, now, write)
  {
    match IsInWatchlist(t, userId, profileId, movieId, lookup)
    case Err(e) => Store.Reply(t, Err(e))
    case Ok(present) =>
      if present then Store.Reply(t, Err(AlreadyExists))
      else AddToWatchlist(t, userId, profileId, movieId, now, write)
  }
}
