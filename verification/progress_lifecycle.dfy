/** The life of one (owner, movie) pair in continue-watching, as a small
    state machine:

      Unstarted --record(p)--> InProgress(p) --record(p')--> InProgress(p')
                                             --remove-----> Removed

    Recording after a removal starts the pair again; removing a pair that
    has no row changes nothing. A progress of 1.0 is an ordinary
    InProgress state: nothing removes finished titles automatically.

    The table refines the machine through the corrected upsert: whatever
    each round trip does, a call that fails leaves the pair's phase as it
    was and a call that succeeds moves it by `Next`. Through `updateProgress`
    as written it refines the machine too, as long as every lookup
    answers; a lookup that fails can leave two rows for the pair (see
    `ContinueWatchingLaws.LookupFailureDuplicatesRow`).
 */
module ProgressLifecycle {
  import opened Outcome
  import opened Schema
  import Store
  import opened ContinueWatchingService
  import opened ContinueWatchingRepair
  import opened ContinueWatchingLaws

  datatype Phase = Unstarted | InProgress(progress: real) | Removed

  /** One service call on the pair, with the fate of each round trip. */
  datatype Call =
    | Record(progress: real, now: Stamp, lookup: Link, write: Link)
    | Remove(link: Link)

  /** The abstract transition of a call that succeeded. */
  function Next(ph: Phase, c: Call): Phase {
    match c
    case Record(p, _, _, _) => InProgress(Clamp(p))
    case Remove(_) => if ph == Unstarted then Unstarted else Removed
  }

  /** What a phase leaves in the table: a progress, or no row. */
  function Stored(ph: Phase): Option<real> {
    if ph.InProgress? then Some(ph.progress) else None
  }

  /** What the table shows for a key: the progress of its one row, if it
      has exactly one. */
  function Observe(t: Table, k: Key): Option<real> {
    var rows := KeyRows(t, k);
    if |rows| == 1 then Some(rows[0].progress) else None
  }

  /** The phases the machine can be in from `ph` after `calls`. */
  function Run(ph: Phase, calls: seq<Call>): Phase
    decreases |calls|
  {
    if |calls| == 0 then ph else Run(Next(ph, calls[0]), calls[1..])
  }

  /** Every phase a run reaches holds a progress in [0, 1]. */
  lemma {:induction false} RunKeepsProgressInRange(ph: Phase, calls: seq<Call>)
    requires ph.InProgress? ==> 0.0 <= ph.progress <= 1.0
    ensures var end := Run(ph, calls); end.InProgress? ==> 0.0 <= end.progress <= 1.0
    decreases |calls|
  {
    if |calls| > 0 {
      RunKeepsProgressInRange(Next(ph, calls[0]), calls[1..]);
    }
  }

  /** Which upsert a `Record` call goes through: `updateProgress` as
      written, or the corrected one that gives up when its lookup fails. */
  datatype Upsert = AsWritten | Checked

  /** Every `Record` call's lookup round trip answers. */
  predicate LookupsSucceed(calls: seq<Call>) {
    forall i :: 0 <= i < |calls| && calls[i].Record? ==> calls[i].lookup == Up
  }

  /** Execute one call on the table through the chosen upsert; answer the
      new table and whether the call succeeded. */
  function Exec(t: Table, k: Key, c: Call, u: Upsert): (Table, bool) {
    match c
    case Record(p, now, lookup, write) =>
      var out :=
        if u == Checked
        then UpdateProgressChecked(t, k.owner.user_id, k.owner.profile_id, k.movie_id, p, now, lookup, write)
        else UpdateProgress(t, k.owner.user_id, k.owner.profile_id, k.movie_id, p, now, lookup, write);
      (out.table, out.result.Ok?)
    case Remove(link) =>
      var out := RemoveFromContinueWatching(t, k.owner.user_id, k.owner.profile_id, k.movie_id, link);
      (out.table, out.result.Ok?)
  }

  /** Execute calls in order; answer the final table and the calls that
      succeeded. */
  function Replay(t: Table, k: Key, calls: seq<Call>, u: Upsert): (Table, seq<Call>)
    decreases |calls|
  {
    if |calls| == 0 then (t, [])
    else
      var (t', ok) := Exec(t, k, calls[0], u);
      var (end, applied) := Replay(t', k, calls[1..], u);
      (end, if ok then [calls[0]] + applied else applied)
  }

  /** One call through the corrected upsert refines one step: the key keeps at most one row, a failed
      call changes nothing, and a successful one moves the observed phase
      by `Next`. */
  lemma ExecRefines(t: Table, k: Key, c: Call, ph: Phase)
    requires UniqueIds(t) && Store.AtMostOne(t, KeyedBy(k)) && Observe(t, k) == Stored(ph)
    ensures var (t', ok) := Exec(t, k, c, Checked);
      && UniqueIds(t') && Store.AtMostOne(t', KeyedBy(k))
      && (!ok ==> t' == t)
      && (ok ==> Observe(t', k) == Stored(Next(ph, c)))
  {
    if c.Record? {
      RecordRefines(t, k, c.progress, c.now, c.lookup, c.write);
    } else {
      RemoveRefines(t, k, c.link, ph);
    }
  }

  lemma RecordRefines(t: Table, k: Key, p: real, now: Stamp, lookup: Link, write: Link)
    requires UniqueIds(t) && Store.AtMostOne(t, KeyedBy(k))
    ensures var out := UpdateProgressChecked(t, k.owner.user_id, k.owner.profile_id, k.movie_id, p, now, lookup, write);
      && UniqueIds(out.table) && Store.AtMostOne(out.table, KeyedBy(k))
      && (out.result.Err? ==> out.table == t)
      && (out.result.Ok? ==> Observe(out.table, k) == Some(Clamp(p)))
  {
    CheckedKeepsAtMostOne(t, k.owner.user_id, k.owner.profile_id, k.movie_id, p, now, lookup, write);
    if lookup == Up && write == Up {
      RecordStep(t, k.owner.user_id, k.owner.profile_id, k.movie_id, p, now);
    }
  }

  lemma RemoveRefines(t: Table, k: Key, link: Link, ph: Phase)
    requires UniqueIds(t) && Store.AtMostOne(t, KeyedBy(k)) && Observe(t, k) == Stored(ph)
    ensures var out := RemoveFromContinueWatching(t, k.owner.user_id, k.owner.profile_id, k.movie_id, link);
      && UniqueIds(out.table) && Store.AtMostOne(out.table, KeyedBy(k))
      && (out.result.Err? ==> out.table == t)
      && (out.result.Ok? ==> Observe(out.table, k) == None)
  {
    if link == Up {
      RemoveStep(t, k.owner.user_id, k.owner.profile_id, k.movie_id);
    }
  }

  /** Any sequence of calls through the corrected upsert refines the
      machine run over the calls that succeeded: the table always shows exactly what that run's phase
      stores, and never more than one row for the key. */
  lemma {:induction false} ReplayRefines(t: Table, k: Key, calls: seq<Call>, ph: Phase)
    requires UniqueIds(t) && Store.AtMostOne(t, KeyedBy(k)) && Observe(t, k) == Stored(ph)
    ensures var (end, applied) := Replay(t, k, calls, Checked);
      && UniqueIds(end) && Store.AtMostOne(end, KeyedBy(k))
      && Observe(end, k) == Stored(Run(ph, applied))
    decreases |calls|
  {
    if |calls| > 0 {
      var (t', ok) := Exec(t, k, calls[0], Checked);
      ExecRefines(t, k, calls[0], ph);
      if ok {
        ReplayRefines(t', k, calls[1..], Next(ph, calls[0]));
        var (end, applied) := Replay(t', k, calls[1..], Checked);
        assert ([calls[0]] + applied)[1..] == applied;
      } else {
        ReplayRefines(t', k, calls[1..], ph);
      }
    }
  }

  /** Starting from a key with no row, `getProgress` after any sequence
      of calls through the corrected upsert answers the progress of the machine's phase, or 0 when the
      pair is unstarted or removed. */
  lemma {:induction false} ProgressFollowsMachine(t: Table, k: Key, calls: seq<Call>)
    requires UniqueIds(t) && KeyRows(t, k) == []
    ensures var (end, applied) := Replay(t, k, calls, Checked);
      GetProgress(end, k.owner.user_id, k.owner.profile_id, k.movie_id, Up)
        == Ok(Stored(Run(Unstarted, applied)).GetOr(0.0))
  {
    ReplayRefines(t, k, calls, Unstarted);
  }

  /** One call to `updateProgress` as written whose lookup answers refines
      one step, exactly as the corrected upsert does: the key keeps at most
      one row, a failed write changes nothing, and a successful one leaves
      the clamped progress as the key's one row. */
  lemma AsWrittenRecordRefines(t: Table, k: Key, p: real, now: Stamp, write: Link)
    requires UniqueIds(t) && Store.AtMostOne(t, KeyedBy(k))
    ensures var out := UpdateProgress(t, k.owner.user_id, k.owner.profile_id, k.movie_id, p, now, Up, write);
      && UniqueIds(out.table) && Store.AtMostOne(out.table, KeyedBy(k))
      && (out.result.Err? ==> out.table == t)
      && (out.result.Ok? ==> Observe(out.table, k) == Some(Clamp(p)))
  {
    RecordRefines(t, k, p, now, Up, write);
  }

  /** When every lookup answers, replaying through `updateProgress` as
      written gives the same tables and successes as the corrected upsert. */
  lemma {:induction false} ReplayAgrees(t: Table, k: Key, calls: seq<Call>)
    requires LookupsSucceed(calls)
    ensures Replay(t, k, calls, AsWritten) == Replay(t, k, calls, Checked)
    decreases |calls|
  {
    if |calls| > 0 {
      var (t', ok) := Exec(t, k, calls[0], Checked);
      assert Exec(t, k, calls[0], AsWritten) == (t', ok);
      assert LookupsSucceed(calls[1..]) by {
        forall i | 0 <= i < |calls[1..]| && calls[1..][i].Record?
          ensures calls[1..][i].lookup == Up
        {
          assert calls[1..][i] == calls[i + 1];
        }
      }
      ReplayAgrees(t', k, calls[1..]);
    }
  }

  /** Any sequence of calls through `updateProgress` as written, every
      lookup of which answers, refines the machine run over the calls that
      succeeded, and keeps at most one row for the key. */
  lemma ReplayAsWrittenRefines(t: Table, k: Key, calls: seq<Call>, ph: Phase)
    requires UniqueIds(t) && Store.AtMostOne(t, KeyedBy(k)) && Observe(t, k) == Stored(ph)
    requires LookupsSucceed(calls)
    ensures var (end, applied) := Replay(t, k, calls, AsWritten);
      && UniqueIds(end) && Store.AtMostOne(end, KeyedBy(k))
      && Observe(end, k) == Stored(Run(ph, applied))
  {
    ReplayAgrees(t, k, calls);
    ReplayRefines(t, k, calls, ph);
  }
}
