/** The row types of the three tables and the shapes the client may send
    when inserting into or updating them.

    Row ids are strings the store generates; they are modelled as natural
    numbers so that "fresh" has a meaning. Timestamps are opaque instants
    (`Stamp`); ISO-8601 strings in one time zone order like the instants
    they name, so only their order is kept.
 */
module Schema {
  import opened Outcome
  import Store

  type Id = nat
  type Stamp = nat

  /** A row of `profiles`. */
  datatype Profile = Profile(
    id: Id,
    user_id: string,
    username: string,
    avatar_url: Option<string>,
    created_at: Stamp)

  /** Who owns a watchlist or continue-watching row. */
  datatype Owner = Owner(user_id: string, profile_id: string)

  /** The natural key of watchlist and continue-watching rows. */
  datatype Key = Key(owner: Owner, movie_id: int)

  /** A row of `watchlist`. */
  datatype WatchList = WatchList(
    id: Id,
    user_id: string,
    profile_id: string,
    movie_id: int,
    added_at: Stamp)
  {
    function RowOwner(): Owner { Owner(user_id, profile_id) }
    function RowKey(): Key { Key(RowOwner(), movie_id) }
  }

  /** A row of `continue_watching`. */
  datatype ContinueWatching = ContinueWatching(
    id: Id,
    user_id: string,
    profile_id: string,
    movie_id: int,
    progress: real,
    last_watched: Stamp)
  {
    function RowOwner(): Owner { Owner(user_id, profile_id) }
    function RowKey(): Key { Key(RowOwner(), movie_id) }
  }

  /** Insert shapes: every column except the id and the timestamp, which
      the store fills in. */
  datatype ProfileInsert = ProfileInsert(user_id: string, username: string, avatar_url: Option<string>)
  datatype WatchListInsert = WatchListInsert(user_id: string, profile_id: string, movie_id: int)
  datatype ContinueWatchingInsert =
    ContinueWatchingInsert(user_id: string, profile_id: string, movie_id: int, progress: real)

  /** Update shapes: any subset of the columns an insert may carry. */
  datatype ProfileUpdate = ProfileUpdate(user_id: Option<string>, username: Option<string>, avatar_url: Option<string>)
  datatype WatchListUpdate = WatchListUpdate(user_id: Option<string>, profile_id: Option<string>, movie_id: Option<int>)
  datatype ContinueWatchingUpdate = ContinueWatchingUpdate(
    user_id: Option<string>, profile_id: Option<string>, movie_id: Option<int>, progress: Option<real>)

  /** The row the store creates from an insert shape, a fresh id and the
      time of the insert. */
  function NewProfile(ins: ProfileInsert, id: Id, now: Stamp): (r: Profile)
    ensures r.id == id && r.created_at == now
    ensures r.user_id == ins.user_id && r.username == ins.username && r.avatar_url == ins.avatar_url
  {
    Profile(id, ins.user_id, ins.username, ins.avatar_url, now)
  }

  function NewWatchList(ins: WatchListInsert, id: Id, now: Stamp): (r: WatchList)
    ensures r.id == id && r.added_at == now
    ensures r.RowKey() == Key(Owner(ins.user_id, ins.profile_id), ins.movie_id)
  {
    WatchList(id, ins.user_id, ins.profile_id, ins.movie_id, now)
  }

  function NewContinueWatching(ins: ContinueWatchingInsert, id: Id, now: Stamp): (r: ContinueWatching)
    ensures r.id == id && r.last_watched == now
    ensures r.RowKey() == Key(Owner(ins.user_id, ins.profile_id), ins.movie_id)
    ensures r.progress == ins.progress
  {
    ContinueWatching(id, ins.user_id, ins.profile_id, ins.movie_id, ins.progress, now)
  }

  /** Applying an update shape: absent fields keep their value, present
      ones overwrite it; the id and the timestamp are out of its reach. */
  function ApplyProfileUpdate(row: Profile, u: ProfileUpdate): (r: Profile)
    ensures r.id == row.id && r.created_at == row.created_at
    ensures r.user_id == u.user_id.GetOr(row.user_id)
    ensures r.username == u.username.GetOr(row.username)
    ensures u.avatar_url.Some? ==> r.avatar_url == u.avatar_url
    ensures u.avatar_url.None? ==> r.avatar_url == row.avatar_url
  {
    row.(user_id := u.user_id.GetOr(row.user_id),
         username := u.username.GetOr(row.username),
         avatar_url := if u.avatar_url.Some? then u.avatar_url else row.avatar_url)
  }

  function ApplyContinueWatchingUpdate(row: ContinueWatching, u: ContinueWatchingUpdate): (r: ContinueWatching)
    ensures r.id == row.id && r.last_watched == row.last_watched
    ensures u.progress.None? ==> r.progress == row.progress
    ensures u == ContinueWatchingUpdate(None, None, None, None) ==> r == row
  {
    row.(user_id := u.user_id.GetOr(row.user_id),
         profile_id := u.profile_id.GetOr(row.profile_id),
         movie_id := u.movie_id.GetOr(row.movie_id),
         progress := u.progress.GetOr(row.progress))
  }

  /** Id columns, as values the generic store functions accept. */
  function ProfileId(r: Profile): Id { r.id }
  function WatchListId(r: WatchList): Id { r.id }
  function ContinueWatchingId(r: ContinueWatching): Id { r.id }
}
