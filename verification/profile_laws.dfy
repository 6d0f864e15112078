/** What the profile operations promise in sequence: a created profile is
    read back, an update is read back and never moves a profile to another
    user, and a deleted profile is gone, reading it then being an error.
 */
module ProfileLaws {
  import opened Outcome
  import opened Schema
  import Store
  import opened ProfileService

  /** Creating the first profile of a user makes `getProfile` answer it,
      leaves other users' rows alone, and keeps ids distinct. */
  lemma CreateThenGet(t: Table, userId: string, username: string, avatarUrl: Option<string>, now: Stamp)
    requires UniqueIds(t)
    requires UserRows(t, userId) == []
    ensures var out := CreateProfile(t, userId, username, avatarUrl, now, Up);
      && UniqueIds(out.table)
      && GetProfile(out.table, userId, Up) == Ok(out.result.value)
      && (forall u :: u != userId ==> UserRows(out.table, u) == UserRows(t, u))
  {
    var out := CreateProfile(t, userId, username, avatarUrl, now, Up);
    Store.AppendFreshKeepsUniqueIds(t, out.result.value, ProfileId);
    Store.FilterAppend(t, out.result.value, ForUser(userId));
    forall u | u != userId ensures UserRows(out.table, u) == UserRows(t, u) {
      Store.FilterAppend(t, out.result.value, ForUser(u));
    }
  }

  /** With distinct ids, a user holding exactly one row holds it at exactly
      one position. */
  lemma OnlyPositionOfUser(t: Table, userId: string) returns (i: nat)
    requires UniqueIds(t) && |UserRows(t, userId)| == 1
    ensures i < |t| && t[i] == UserRows(t, userId)[0]
    ensures forall j :: 0 <= j < |t| && j != i ==> t[j].user_id != userId
  {
    var row := UserRows(t, userId)[0];
    Store.FilterContents(t, ForUser(userId));
    assert row in UserRows(t, userId);
    i :| 0 <= i < |t| && t[i] == row;
    forall j | 0 <= j < |t| && j != i ensures t[j].user_id != userId {
      Store.DistinctRows(t, ProfileId, i, j);
      assert t[j] in t;
    }
  }

  /** A successful update of a user's one profile is what `getProfile`
      answers next, and every other user's rows are as they were. */
  lemma UpdateThenGet(t: Table, userId: string, updates: ProfileChanges)
    requires UniqueIds(t)
    requires |UserRows(t, userId)| == 1
    ensures var out := UpdateProfile(t, userId, updates, Up);
      && UniqueIds(out.table)
      && GetProfile(out.table, userId, Up) == Ok(ApplyProfileUpdate(UserRows(t, userId)[0], updates))
      && (forall u :: u != userId ==> UserRows(out.table, u) == UserRows(t, u))
  {
    var t' := UpdateProfile(t, userId, updates, Up).table;
    assert t' == Store.Rewrite(t, ForUser(userId), Changes(updates));
    Store.RewriteKeepsUniqueIds(t, ForUser(userId), Changes(updates), ProfileId);
    var i := OnlyPositionOfUser(t, userId);
    Store.FilterOnlyAt(t', ForUser(userId), i);
    forall u | u != userId ensures UserRows(t', u) == UserRows(t, u) {
      Store.FilterRewrite(t, ForUser(userId), Changes(updates), ForUser(u));
    }
  }

  /** Removing a user with no rows succeeds and changes nothing. */
  lemma DeleteAbsentIsNoOp(t: Table, userId: string)
    requires UserRows(t, userId) == []
    ensures DeleteProfile(t, userId, Up) == Store.Reply(t, Ok(()))
  {
    Store.FilterEmpty(t, ForUser(userId));
    Store.FilterAll(t, Store.Not(ForUser(userId)));
  }

  /** After a successful delete the user has no rows, so `getProfile`
      raises the "no single row" error rather than answering an absent
      profile; other users keep their rows and a second delete is a no-op. */
  lemma DeleteStep(t: Table, userId: string)
    requires UniqueIds(t)
    ensures var out := DeleteProfile(t, userId, Up);
      && UniqueIds(out.table)
      && GetProfile(out.table, userId, Up) == Err(NoSingleRow(0))
      && (forall u :: u != userId ==> UserRows(out.table, u) == UserRows(t, u))
      && DeleteProfile(out.table, userId, Up) == Store.Reply(out.table, Ok(()))
  {
    var out := DeleteProfile(t, userId, Up);
    Store.FilterKeepsUniqueIds(t, Store.Not(ForUser(userId)), ProfileId);
    forall u | u != userId ensures UserRows(out.table, u) == UserRows(t, u) {
      Store.FilterNarrow(t, Store.Not(ForUser(userId)), ForUser(u));
    }
    DeleteAbsentIsNoOp(out.table, userId);
  }

  /** Every write keeps profile ids distinct (the primary key): a create
      for a user who already has a profile as much as a first one, an
      update whatever rows it matches, and a delete. */
  lemma WritesKeepUniqueIds(
    t: Table, userId: string, username: string, avatarUrl: Option<string>, now: Stamp,
    updates: ProfileChanges, link: Link)
    requires UniqueIds(t)
    ensures UniqueIds(CreateProfile(t, userId, username, avatarUrl, now, link).table)
    ensures UniqueIds(UpdateProfile(t, userId, updates, link).table)
    ensures UniqueIds(DeleteProfile(t, userId, link).table)
  {
    var created := CreateProfile(t, userId, username, avatarUrl, now, link);
    if link == Up {
      Store.AppendFreshKeepsUniqueIds(t, created.result.value, ProfileId);
      Store.FilterKeepsUniqueIds(t, Store.Not(ForUser(userId)), ProfileId);
    }
  }
}
