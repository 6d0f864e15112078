# Watchlist, continue-watching and profile services — a Dafny model

The mobile client keeps three kinds of per-user data in hosted tables:
the `watchlist` (titles a user/profile pair has saved), `continue_watching`
(playback progress per user, profile and title) and `profiles`. Each service
function is a short sequence of table requests — select with equality
filters, insert, update or delete, optionally followed by `.single()` — and
a little decision logic around them: clamping progress, choosing between
updating and inserting, and treating the store's "no single row" error
(code `PGRST116`) as "absent" instead of as a failure.

This project models that layer functionally:

* `outcome.dfy` — `Result`, `Option`, the error taxonomy (`NoSingleRow(n)`
  for PGRST116, `Unavailable` for a failed round trip) and `Link`, the fate
  of one round trip (`Up` or `Down`).
* `store.dfy` — the hosted table as a `seq` of rows: `.eq` chains are row
  predicates, `Filter` is a select, `Single` is `.single()`, `InsertOne`,
  `UpdateOne`, `DeleteAll` are the write requests, `OrderDesc` is
  `.order(col, { ascending: false })`, `FreshId` is the store's id
  generation; with lemmas about filtering (append, concatenation,
  narrowing, rewriting, distinct ids).
* `schema.dfy` — the row types `Profile`, `WatchList`, `ContinueWatching`
  and their insert and update shapes.
* `continue_watching.dfy`, `watchlist.dfy`, `profile.dfy` — one function per
  service operation, from (table, arguments, links) to (new table, result),
  plus a corrected upsert and a corrected watchlist insert (see Findings).
* `continue_watching_laws.dfy`, `watchlist_laws.dfy`, `profile_laws.dfy` —
  what the operations promise in sequence: the corrected upsert, and
  `updateProgress` while its lookups answer, keep one row per key,
  read-back after write, idempotent deletes, isolation between owners.
* `progress_lifecycle.dfy` — the per-(owner, title) state machine
  Unstarted → InProgress(p) → InProgress(p′) | Removed, and a proof that any
  sequence of calls through the corrected upsert and the delete refines it,
  as does any sequence through `updateProgress` as written whose lookups
  all answer.

Modelling choices:

* Every request is one atomic step. A request whose `Link` is `Down` fails
  with `Unavailable` and changes nothing.
* `.single()` answers the row when exactly one row matches and
  `NoSingleRow(n)` otherwise (zero or several rows), as PostgREST does. A
  write followed by `.select().single()` runs in one transaction and is
  rolled back when it touches other than exactly one row.
* Ids are store-generated strings; they are modelled as natural numbers and
  a new row gets one larger than every id in the table. Distinct ids (the
  primary key) is stated as `UniqueIds` and proved preserved by every
  successful write; a failed write changes nothing.
* Timestamps (`added_at`, `created_at`, `last_watched`, and the client's
  `new Date().toISOString()`) are opaque `Stamp` parameters. The insert
  shapes omit the timestamp column, so the store fills it; that it fills it
  with the call's `now` is an assumption of the model.
* Progress is a `real`.
* The code does not check for an existing row before adding to the
  watchlist, and `getWatchlist` requests no ordering; the model does the
  same, and promises only the contents of the watchlist, in table order.
* `updateProgress` discards the error of its lookup, so any lookup that does
  not yield exactly one row — including a failed round trip — takes the
  insert branch. The model does the same.
* The update shape `continue_watching` declares omits `last_watched`, yet
  `updateProgress` sends it; the model follows the code and writes it.

## Model

| member | source | states |
|---|---|---|
| `ContinueWatchingService.Clamp` | src/services/continueWatching.ts:22-23 | the progress written is in [0, 1]: unchanged inside it, 0 below it, 1 above it |
| `Store.OrderDesc` | src/services/continueWatching.ts:10 | ordering by a column descending yields a permutation of the rows that is sorted largest first |
| `ContinueWatchingService.GetContinueWatching` | src/services/continueWatching.ts:4-14 | a failed round trip is an error; otherwise the answer holds exactly the owner's rows, each as often as stored (empty when there are none), sorted by `last_watched` descending |
| `ContinueWatchingService.UpdateProgress` | src/services/continueWatching.ts:16-63 | the answered row has the key and the clamped progress; with one row for the key it is rewritten in place (progress, timestamp), that rewritten row is the answer, and nothing else changes; a failed lookup or a lookup not matching one row appends exactly one new row with a fresh id; a failed write changes nothing |
| `ContinueWatchingService.UpdateAnswersRow` | src/services/continueWatching.ts:33-45 | the update by id answers, when it succeeds, the row the lookup found with the new progress and timestamp |
| `ContinueWatchingService.UpdateTouchesKey` | src/services/continueWatching.ts:33-45 | with distinct ids, the update by the found row's id rewrites exactly the rows of the key and leaves the length unchanged |
| `ContinueWatchingService.RemoveFromContinueWatching` | src/services/continueWatching.ts:65-78 | a successful delete removes every row of the key and keeps every other row with its multiplicity; a failed one changes nothing |
| `ContinueWatchingService.GetProgress` | src/services/continueWatching.ts:80-91 | the progress of the key's one row; 0 when zero or several rows match; a failed round trip is an error, not 0 |
| `ContinueWatchingRepair.UpdateProgressChecked` | src/services/continueWatching.ts:25-33 | the upsert with its lookup failure passed on: a failed lookup changes nothing; otherwise it behaves as `updateProgress` |
| `ContinueWatchingLaws.UpdateProgressKeepsUniqueIds` | src/types/supabase.ts:58 | the insert never supplies an id, so rows keep distinct store-assigned ids through any call |
| `ContinueWatchingLaws.RecordStep` | src/services/continueWatching.ts:16-62 | on a key with at most one row, a call whose lookup and write both answer leaves exactly one row for the key, holding the clamped progress and the new timestamp, and every other key's rows unchanged |
| `ContinueWatchingLaws.ProgressReadsBack` | src/services/continueWatching.ts:80-91 | on a key with at most one row, `getProgress` after an `updateProgress` whose lookup and write both answer gives the clamped progress written |
| `ContinueWatchingLaws.TwoUpdatesLeaveOneRow` | src/services/continueWatching.ts:16-62 | two calls on a key with no row, each with its lookup and write answering, leave one row for it, holding the second clamped progress, and the table one row longer |
| `ContinueWatchingLaws.RemoveAbsentIsNoOp` | src/services/continueWatching.ts:65-78 | removing a key with no rows succeeds and leaves the table as it was |
| `ContinueWatchingLaws.RemoveStep` | src/services/continueWatching.ts:65-78 | after a removal the key has no rows, other keys keep theirs, ids stay distinct, and removing again is a no-op |
| `ContinueWatchingLaws.LookupFailureDuplicatesRow` | src/services/continueWatching.ts:25-33 | as written, a failed lookup on a key that has a row adds another row, after which `getProgress` reads 0 |
| `ContinueWatchingLaws.DuplicatesPersist` | src/services/continueWatching.ts:25-62 | once a key has two rows no `updateProgress` call repairs it: it keeps two or more rows and `getProgress` reads 0 |
| `ContinueWatchingLaws.RemovalRepairsDuplicates` | src/services/continueWatching.ts:65-91 | a removal empties the key whatever rows it held, duplicates included, and an `updateProgress` whose lookup and write both answer then reads back its clamped progress |
| `ContinueWatchingLaws.CheckedKeepsAtMostOne` | src/services/continueWatching.ts:25-62 | for the call's key, the corrected upsert keeps at most one row and distinct ids whatever each round trip does; a failed call changes nothing |
| `ContinueWatchingLaws.CheckedKeepsOneRowPerKey` | src/services/continueWatching.ts:25-62 | over the whole table, the corrected upsert keeps every key at one row at most and ids distinct, whatever each round trip does |
| `ContinueWatchingLaws.RemoveKeepsOneRowPerKey` | src/services/continueWatching.ts:65-78 | over the whole table, a removal keeps every key at one row at most and ids distinct |
| `ContinueWatchingLaws.TouchFitsUpdateShape` | src/types/supabase.ts:59 | the update branch's write is expressible in the declared update shape exactly when it leaves `last_watched` unchanged, so sending a new timestamp lies outside that shape |
| `ProgressLifecycle.RunKeepsProgressInRange` | src/services/continueWatching.ts:22-23 | every phase the state machine reaches holds a progress in [0, 1] |
| `ProgressLifecycle.RecordRefines` | src/services/continueWatching.ts:16-62 | a successful corrected upsert makes the table show the clamped progress for the key; a failed one changes nothing |
| `ProgressLifecycle.RemoveRefines` | src/services/continueWatching.ts:65-78 | a successful removal makes the table show no progress for the key; a failed one changes nothing |
| `ProgressLifecycle.ExecRefines` | src/services/continueWatching.ts:16-78 | one call through the corrected upsert is one machine step: failure stutters, success moves the observed phase by `Next` |
| `ProgressLifecycle.ReplayRefines` | src/services/continueWatching.ts:16-78 | after any sequence of calls through the corrected upsert the key has at most one row and shows exactly what the machine's phase stores, the machine having taken the calls that succeeded |
| `ProgressLifecycle.ProgressFollowsMachine` | src/services/continueWatching.ts:80-91 | from a key with no row, `getProgress` after any calls through the corrected upsert answers the machine phase's progress, or 0 when unstarted or removed |
| `ProgressLifecycle.AsWrittenRecordRefines` | src/services/continueWatching.ts:16-62 | `updateProgress` as written, when its lookup answers, keeps at most one row for the key; a successful call makes the key show the clamped progress, a failed write changes nothing |
| `ProgressLifecycle.ReplayAgrees` | src/services/continueWatching.ts:25-62 | when every lookup answers, a sequence of calls through `updateProgress` as written leaves the same tables and the same successes as through the corrected upsert |
| `ProgressLifecycle.ReplayAsWrittenRefines` | src/services/continueWatching.ts:16-78 | any sequence of calls through `updateProgress` as written whose lookups all answer keeps the key at one row at most and shows what the machine's phase stores, over the calls that succeeded |
| `WatchlistService.GetWatchlist` | src/services/watchlist.ts:5-14 | a failed round trip is an error; otherwise exactly the owner's rows, each as often as stored, empty when there are none |
| `WatchlistService.AddToWatchlist` | src/services/watchlist.ts:16-31 | a successful add appends exactly one row with the key and a fresh id, every earlier row untouched, whether or not the key already had a row; a failed one changes nothing |
| `WatchlistService.RemoveFromWatchlist` | src/services/watchlist.ts:33-42 | a successful delete removes every row of the key and keeps every other row with its multiplicity |
| `WatchlistService.IsInWatchlist` | src/services/watchlist.ts:44-55 | a failed round trip is an error, distinct from `false`; otherwise true exactly when one row of the key exists |
| `WatchlistRepair.AddToWatchlistOnce` | src/services/watchlist.ts:16-31 | the corrected add: refuses a key that has its row with `AlreadyExists`, passes a failed lookup on, and otherwise adds as `addToWatchlist` does; any failure changes nothing |
| `WatchlistLaws.AddStep` | src/services/watchlist.ts:16-31 | an add appends its row to its own key's rows, leaves every other key's rows unchanged and keeps ids distinct |
| `WatchlistLaws.AddAppendsToKey` | src/services/watchlist.ts:16-31 | an add appends its row to the rows of its key |
| `WatchlistLaws.AddThenPresent` | src/services/watchlist.ts:16-55 | after adding a title the key did not hold, `isInWatchlist` answers true |
| `WatchlistLaws.AddLeavesOthersAlone` | src/services/watchlist.ts:16-55 | an add leaves `isInWatchlist` of every other (user, profile, title) as it was |
| `WatchlistLaws.RemoveAbsentIsNoOp` | src/services/watchlist.ts:33-42 | removing a key with no rows succeeds and leaves the table as it was |
| `WatchlistLaws.RemoveStep` | src/services/watchlist.ts:33-55 | after a removal `isInWatchlist` answers false, other keys keep their rows, and removing again is a no-op |
| `WatchlistLaws.IsInWatchlistSeesOnlyOwner` | src/services/watchlist.ts:44-51 | `isInWatchlist(u, p, m)` answers the same from the whole table as from owner (u, p)'s rows alone |
| `WatchlistLaws.GetWatchlistSeesOnlyOwner` | src/services/watchlist.ts:5-10 | `getWatchlist(u, p)` answers the same from the whole table as from the owner's rows alone |
| `WatchlistLaws.DoubleAddHidesTitle` | src/services/watchlist.ts:16-55 | as written, adding a title twice stores two rows and `isInWatchlist` then answers false |
| `WatchlistLaws.AddOnceKeepsAtMostOne` | src/services/watchlist.ts:16-55 | for the call's key, the corrected add keeps at most one row; after it succeeds the title is found and a second add is refused with no change |
| `WatchlistLaws.AddOnceKeepsOneRowPerKey` | src/services/watchlist.ts:16-31 | over the whole table, the corrected add keeps every key at one row at most and ids distinct, whatever its round trips do |
| `WatchlistLaws.RemoveKeepsOneRowPerKey` | src/services/watchlist.ts:33-42 | over the whole table, a removal keeps every key at one row at most and ids distinct |
| `ProfileService.GetProfile` | src/services/profile.ts:4-13 | the user's one row; zero or several rows raise the no-single-row error like any other, with no special case; a failed round trip is an error |
| `ProfileService.CreateProfile` | src/services/profile.ts:15-30 | appends exactly one row with the given user, name and avatar and a fresh id, every earlier row untouched |
| `ProfileService.UpdateProfile` | src/services/profile.ts:32-45 | no row's id, user_id or created_at ever changes; with one row for the user only that row changes, by the given fields, and the answer is that row as now stored; otherwise nothing changes and the error is answered |
| `ProfileService.DeleteProfile` | src/services/profile.ts:47-54 | a successful delete removes every row of the user and keeps every other row with its multiplicity |
| `ProfileLaws.CreateThenGet` | src/services/profile.ts:15-30 | creating a user's first profile makes `getProfile` answer it; other users' rows and distinct ids are kept |
| `ProfileLaws.UpdateThenGet` | src/services/profile.ts:32-45 | after updating a user's one profile `getProfile` answers the updated row; other users' rows are unchanged |
| `ProfileLaws.DeleteAbsentIsNoOp` | src/services/profile.ts:47-54 | deleting a user with no rows succeeds and leaves the table as it was |
| `ProfileLaws.WritesKeepUniqueIds` | src/services/profile.ts:15-54 | with distinct ids before, create (also for a user who already has a profile), update and delete each leave ids distinct, whatever the link |
| `ProfileLaws.DeleteStep` | src/services/profile.ts:47-54 | after a delete `getProfile` raises the no-single-row error for that user, other users keep their rows, and deleting again is a no-op |
| `Schema.ApplyProfileUpdate` | src/types/supabase.ts:49 | an update shape cannot reach `id` or `created_at`; fields it carries overwrite, fields it lacks are kept |
| `Schema.ApplyContinueWatchingUpdate` | src/types/supabase.ts:59 | an update shape cannot reach `id` or `last_watched`; without a progress the progress is kept; an empty update changes nothing |

## Findings

| source | as written | input that shows it | evidently intended | confidence | as-written member | corrected member |
|---|---|---|---|---|---|---|
| src/services/continueWatching.ts:25-33 | the lookup's error is discarded, so a failed lookup takes the insert branch | a key holding one row (progress 0.5); `updateProgress` whose lookup round trip fails and whose insert succeeds: the key now has two rows, `getProgress` answers 0, and every later `updateProgress` inserts again | one row per (user, profile, movie); a failed lookup is reported like the other store errors | medium, not executed | `ContinueWatchingLaws.LookupFailureDuplicatesRow` (with `DuplicatesPersist`) | `ContinueWatchingRepair.UpdateProgressChecked`, proved by `ContinueWatchingLaws.CheckedKeepsOneRowPerKey` and `ProgressLifecycle.ReplayRefines` |
| src/services/watchlist.ts:16-31 | the insert does not look for an existing row | a key with no row; `addToWatchlist` twice: two rows, and `isInWatchlist`, whose `.single()` sees two rows, answers false for a saved title | one row per (user, profile, movie); adding a saved title again is refused | low, not executed (a unique constraint in the database, which is not part of this model, would prevent it) | `WatchlistLaws.DoubleAddHidesTitle` | `WatchlistRepair.AddToWatchlistOnce`, proved by `WatchlistLaws.AddOnceKeepsOneRowPerKey` |

## Left out

- The hosted store's client, its transport and PostgREST itself: replaced by the sequence model of `store.dfy`. The meaning of `.single()` (one row, else PGRST116) and the rollback of a write whose `.single()` fails are assumptions about that library, not verified.
- A request that the store applied but whose answer was lost: a `Down` link means the request had no effect.
- Concurrency: every call is one sequential step, so races between the lookup and the write of `updateProgress` are not modelled.
- Wall-clock time: timestamps are parameters, and nothing is claimed about `last_watched` growing from call to call.
- Floating point: progress is a `real`; NaN and rounding are not modelled (for NaN, `data?.progress || 0` would read 0).
- Row ids are strings in the store; here they are natural numbers drawn larger than every existing id.
- The store client of `continueWatching.ts` and `profile.ts`: both import `supabase` from `../types/supabase`, which declares only types, whereas `watchlist.ts` imports it from `../lib/supabase`. The model assumes all three services use the shared client of `../lib/supabase`; the code as written does not, and `src/lib/supabase.ts` is not part of this model.
- `ProgressLifecycle.ReplayAsWrittenRefines`: stated only for sequences whose lookups all answer, because a failed lookup as written can duplicate the key's row (see Findings).
- `getWatchlist` requests no ordering; the model answers in table order and no contract promises any order.
- `updateProfile` with no fields at all: what the store does with an empty update is not modelled; the model rewrites the row with no change.
- Applying a watchlist update shape: no service updates watchlist rows, so the shape is declared but never applied.
- `ContinueWatchingService.UpdateProgress`: the in-place-update clause is stated for tables whose ids are distinct (the primary key), because the update by id is only meaningful then; without it the model still answers a row of the key or an error.
- The `UserProfile` and `Movie` types, the sign-up and sign-in calls, the catalog HTTP client, the screens, the auth contexts, theme and API constants: outside the data-access layer.
- A scoped count of watchlist rows: no such operation exists in the code.
