/** The profile service: one user's display name and avatar, kept in the
    `profiles` table and addressed by `user_id` alone.
 */
module ProfileService {
  import opened Outcome
  import opened Schema
  import Store

  type Table = seq<Profile>

  /** What `updateProfile` accepts: a username and an avatar URL, each
      optional. The table's update shape also admits `user_id`; this one
      does not, so no update through the service can move a profile to
      another user. */
  type ProfileChanges = u: ProfileUpdate | u.user_id.None? witness ProfileUpdate(None, None, None)

  /** `.eq('user_id', u)` */
  function ForUser(userId: string): Profile -> bool {
    (r: Profile) => r.user_id == userId
  }

  /** The rows of one user. */
  function UserRows(t: Table, userId: string): seq<Profile> {
    Store.Filter(t, ForUser(userId))
  }

  predicate UniqueIds(t: Table) {
    Store.UniqueIds(t, ProfileId)
  }

  function FreshId(t: Table): (n: Id)
    ensures forall i :: 0 <= i < |t| ==> t[i].id < n
  {
    Store.FreshId(t, ProfileId)
  }

  function Changes(updates: ProfileChanges): Profile -> Profile {
    (r: Profile) => ApplyProfileUpdate(r, updates)
  }

  /** getProfile: the user's one row. Every error is raised, the "no single
      row" answer included: a user without a profile, or with several, is
      a failure here. */
  function GetProfile(t: Table, userId: string, link: Link): (r: Result<Profile>)
    ensures link == Down ==> r == Err(Unavailable)
    ensures link == Up && |UserRows(t, userId)| != 1 ==> r == Err(NoSingleRow(|UserRows(t, userId)|))
    ensures link == Up && |UserRows(t, userId)| == 1 ==> r.Ok?
    ensures r.Ok? ==> r.value in t && r.value.user_id == userId
  {
    Store.FilterContents(t, ForUser(userId));
    Store.SelectSingle(t, ForUser(userId), link)
  }

  /** createProfile: insert one row carrying the given user, name and
      avatar; the store supplies the id and `created_at`. */
  function CreateProfile(t: Table, userId: string, username: string, avatarUrl: Option<string>, now: Stamp, link: Link)
    : (out: Store.Reply<Profile, Profile>)
    ensures link == Down <==> out.result.Err?
    ensures link == Down ==> out.table == t && out.result.error == Unavailable
    ensures link == Up ==>
      && out.table == t + [out.result.value]
      && out.result.value.user_id == userId
      && out.result.value.username == username
      && out.result.value.avatar_url == avatarUrl
      && out.result.value.created_at == now
      && (forall i :: 0 <= i < |t| ==> t[i].id < out.result.value.id)
  {
    Store.InsertOne(t, NewProfile(ProfileInsert(userId, username, avatarUrl), FreshId(t), now), link)
  }

  /** updateProfile: apply the changes to the user's row and answer it.
      With `.single()` the update must touch exactly one row; otherwise it
      is rolled back and fails with the "no single row" answer. */
  function UpdateProfile(t: Table, userId: string, updates: ProfileChanges, link: Link)
    : (out: Store.Reply<Profile, Profile>)
    ensures |out.table| == |t|
    ensures forall i :: 0 <= i < |t| ==>
      out.table[i].id == t[i].id && out.table[i].user_id == t[i].user_id && out.table[i].created_at == t[i].created_at
    ensures out.result.Err? ==> out.table == t
    ensures link == Down ==> out.result == Err(Unavailable)
    ensures link == Up && |UserRows(t, userId)| != 1 ==> out.result == Err(NoSingleRow(|UserRows(t, userId)|))
    ensures link == Up && |UserRows(t, userId)| == 1 ==>
      && out.result == Ok(ApplyProfileUpdate(UserRows(t, userId)[0], updates))
      && out.result.value.user_id == userId
      && (forall i :: 0 <= i < |t| ==>
           out.table[i] == (if t[i].user_id == userId then ApplyProfileUpdate(t[i], updates) else t[i]))
  {
    Store.UpdateOne(t, ForUser(userId), Changes(updates), link)
  }

  /** deleteProfile: delete every row of the user. */
  function DeleteProfile(t: Table, userId: string, link: Link): (out: Store.Reply<Profile, ()>)
    ensures link == Down <==> out.result.Err?
    ensures link == Down ==> out == Store.Reply(t, Err(Unavailable))
    ensures link == Up ==> UserRows(out.table, userId) == []
    ensures link == Up ==> forall x :: multiset(out.table)[x] ==
                             (if x.user_id == userId then 0 else multiset(t)[x])
  {
    var out := Store.DeleteAll(t, ForUser(userId), link);
    if link == Up then
      Store.FilterContents(t, Store.Not(ForUser(userId)));
      Store.FilterNone(out.table, ForUser(userId));
      out
    else out
  }
}
