# kchoo sources work queue, in Dafny

This project models `KchooDB` in `db.js`, the work queue of the kchoo image
scraper. The queue is a Postgres table of *sources*: remote accounts to scrape.
Each row has a site, a remote identifier, a state (`pending`, `populating`,
`standby` or `error`) and two optional cursors, `earliest_processed_id` and
`latest_processed_id`. Workers claim sources, save their progress, and then
finish them or mark them as errors. Each of the five operations is one SQL
statement, and this project models what each statement means for the table.

- `sources.dfy`, module `Sources`: the row datatype and the table
  (`map<int, Source>`). Each statement is a function on the table:
  `NewSource` for the INSERT, `Claimable`/`MatchingIds`/`ClaimOrder` for the
  claim's selection, `SetState` for the state updates, `SaveCursors` for the
  cursor update. The lemmas prove what the operations promise.
- `db.dfy`, module `Db`: class `KchooDB`. Its fields are the table (`rows`)
  and the id sequence (`nextId`), and it has the five operations as methods
  with `modifies this`. Each method's postcondition gives the new table as
  the `Sources` function applied to the old table. `SelectClaimable` is the
  claim's ordered scan, written as a loop. `PopulateCycle` is a client that
  runs add, claim, save and finish on an empty store, and asserts the outcome
  from the contracts alone.

Where the code departs from what it evidently means, the model follows the
intended meaning. A comment at the method marks each such place:

- The site filter at db.js:41 binds `$2`, which holds the count. The model
  filters by the site name, which is `$1`.
- db.js:103 and db.js:120 assign a column `status`. Every other statement
  uses `state` (db.js:14, 36, 45, 48), and the model updates `state`.

Some behaviours of the code that callers should know about, all modelled as
written:

- An unfinished `populating` row is re-claimed only once
  `latest_processed_id` is set (db.js:47-50); its earliest cursor plays no
  part in the claim.
- The claim returns only `id` and `remote_identifier` (db.js:58), not the
  saved cursors.
- `saveSource` always assigns `earliest_processed_id`, so an omitted
  `earliestID` is stored as NULL; only the latest cursor is conditional, on
  a truthy `latestID` (db.js:77-92).
- `finishPopulatingSources` moves every listed row to `standby` whatever its
  current state (db.js:119-121).
- `setErrors` and `finishPopulatingSources` have no empty-list
  short-circuit: an empty list builds `IN ()`, which the store rejects
  (db.js:97, 104, 114, 121). The model returns `Err(EmptyIdList)` and leaves
  the table unchanged.

The claim re-matches a claimed row once it has saved a latest cursor
(`ProgressMakesReclaimable`). So two claims in sequence can both return the
same row. This follows from the crash-recovery predicate, which the code
states on purpose.

## Model

| member | source | states |
|---|---|---|
| `Db.KchooDB.constructor` | db.js:3-7 | a handle on a store whose table and id sequence satisfy the id invariant |
| `Db.KchooDB.AddSource` | db.js:9-29 | the returned id was not in the table; the new row is `pending` with the given site and remote identifier and no cursors; every old row is unchanged; the id sequence advances |
| `Db.KchooDB.SelectClaimable` | db.js:37-57 | the ordered scan returns exactly the first `limit` matching ids in id order, each with its row's remote identifier; nothing changes |
| `Db.KchooDB.GetPendingSources` | db.js:31-68 | an omitted count means 1; a negative count is a store error with the table unchanged; otherwise the returned ids are the claim's selection of the old table, each with its remote identifier, and exactly those rows become `populating` |
| `Db.KchooDB.SaveSource` | db.js:72-94 | the new table is the cursor update of the old one; the row count is 1 when the id exists, else 0 |
| `Db.KchooDB.SetErrors` | db.js:96-108 | an empty list is a store error with the table unchanged; otherwise every listed row goes to `error` and the row count is the number of distinct existing listed ids |
| `Db.KchooDB.UpdateStates` | db.js:101-104 | the `UPDATE ... SET state WHERE id IN (...)` shared by `setErrors` and `finishPopulatingSources`: an empty list is a store error with the table unchanged; otherwise the table becomes `SetState` of the old one and the row count is the number of distinct existing listed ids |
| `Db.KchooDB.FinishPopulatingSources` | db.js:110-125 | an empty list is a store error with the table unchanged; otherwise every listed row goes to `standby`, with no condition on its state, and the row count is the number of distinct existing listed ids |
| `Sources.NewSource` | db.js:13-20 | the row the INSERT creates (site, `pending`, remote identifier, no cursors) is claimable for its own site |
| `Sources.Claimable` | db.js:41-51 | the claim's WHERE: the row's site is the requested one and it is `pending`, or `populating` with a non-null `latest_processed_id` (no contract: it is the predicate itself) |
| `Sources.ClaimableIds` | db.js:39-51 | the set of ids the claim's WHERE matches, all of them rows of the table |
| `Sources.ClaimOrder` | db.js:52-56 | the inner `SELECT ... ORDER BY id LIMIT`: at most `limit` ids, a prefix of the id-ordered matches |
| `Sources.ClaimLimit` | db.js:31 | the `count = 1` default of the parameter list: an omitted count is 1, a given one is used as is (no contract: it is the default itself) |
| `Sources.SetState` | db.js:35-37 | `UPDATE sources SET state = ... WHERE id IN (...)` as a function on the table; it keeps the set of ids |
| `Sources.Affected` | db.js:104 | the rows an `IN` list reaches, whose number is the update's row count; all of them rows of the table |
| `Sources.Truthy` | db.js:79 | the `if (latestID)` test on a cursor: `undefined`, `null` and `''` are falsy (no contract: it is the test itself) |
| `Sources.SaveCursors` | db.js:83-92 | the cursor UPDATE of `saveSource` as a function on the table; it keeps the set of ids |
| `Sources.MatchingIds` | db.js:39-55 | the scan over `[lo, hi)` yields strictly increasing ids, each a row of the site that is `pending` or `populating` with a latest cursor |
| `Sources.MatchingIdsComplete` | db.js:41-51 | every matching row in the range is found by the scan |
| `Sources.MatchingIdsExact` | db.js:39-51 | when all ids lie below the sequence, the scan lists exactly the matching rows, each once |
| `Sources.ClaimBounded` | db.js:56 | the claim takes `min(count, number of matching rows)` rows, so never more than `count` |
| `Sources.ClaimSound` | db.js:41-51 | every claimed row belonged to the site and was `pending` or `populating` with a non-null latest cursor |
| `Sources.ClaimInIdOrder` | db.js:55 | the claimed ids are strictly increasing |
| `Sources.ClaimTakesSmallest` | db.js:52-56 | a matching row outside the claim has a larger id than every claimed row |
| `Sources.ClaimMovesToPopulating` | db.js:35-37 | the claim's instance of `SetStateFrame`: a row the claim selects becomes `populating` with site, identifier and cursors untouched; a row it does not select is unchanged |
| `Sources.AddThenClaimOne` | db.js:13-22 | when no row of the site is claimable, `addSource` followed by a claim of one returns exactly the new row |
| `Sources.ClaimedWithoutProgressNotReclaimed` | db.js:44-50 | a claimed row with no latest cursor is not matched by the next claim |
| `Sources.ProgressMakesReclaimable` | db.js:46-50 | after a claimed row saves a truthy latest cursor, the next claim matches it again, with both saved cursors |
| `Sources.SaveCursorsFrame` | db.js:77-92 | the earliest cursor is always overwritten; the latest one changes only for a truthy value; site, identifier, state and every other row are unchanged |
| `Sources.SetStateFrame` | db.js:102-104 | every existing listed row takes the new state whatever its old state; unlisted rows and the set of ids are unchanged |
| `Sources.SetStateIdempotent` | db.js:119-121 | repeating the same state update changes nothing more |
| `Sources.AffectedCount` | db.js:104 | the row count of a state update is at most the length of the id list, and equals it when the listed ids are distinct and all exist |
| `Sources.SettledNotClaimable` | db.js:41-51 | a row moved to `standby` or `error` is not matched by the next claim |
| `Sources.SettledStaysSettled` | db.js:35-56 | a `standby` or `error` row is neither selected nor changed by a claim, keeps its state under the cursor update, and stays `standby` or `error` under either state update; with `SettledNotClaimable`, no later claim matches it |

## Left out

- Constructing the `pg` client and connecting (db.js:1-7), and the Promise
  plumbing. These are I/O in an external library. The constructor takes
  the store's current table as a parameter instead.
- Building SQL text by interpolation and `join(',')` (db.js:79-81, 97, 104,
  114, 121). The model uses set membership. It does not model that
  `latestID` is pasted unquoted into the SQL text (db.js:80): a digit
  string without leading zeros is stored as the model stores it, but a
  word such as `m1` reads as a column name and makes the statement fail,
  and `null`, `id` or
  `earliest_processed_id` succeed and assign NULL, the row id or the other
  cursor. The model stores the given value in every case, and the text is
  open to injection.
- Concurrent claims. The methods run one at a time. The claim is one
  atomic statement, but its inner SELECT (db.js:39-56) locks no rows: it has
  no `FOR UPDATE SKIP LOCKED`, and no isolation level is set. So two
  concurrent claims can both select the same row and both return it.
- Store failures other than the two failures the model raises (an
  empty `IN ()` list and a negative `LIMIT`). Connection loss and
  serialization conflicts are not modelled.
- `addSource` with an unknown site name, and any uniqueness constraint on
  `remote_identifier`. What happens depends on schema constraints that
  `db.js` does not show. The row stores the site name it was given.
- The code as literally written at db.js:41, 103 and 120 (see above). At
  db.js:41 the text never mentions `$1`, and the parameters are sent
  untyped, so Postgres cannot type `$1` and rejects the statement; `$2`,
  typed as text by `name = $2`, is also not a valid `LIMIT`. As written,
  every call to `getPendingSources` fails. What `status` at db.js:103 and
  120 does depends on a schema that is not shown.
- Db.KchooDB.GetPendingSources returns claims in id order. Postgres does
  not promise any order for the rows of `UPDATE ... RETURNING`. The order
  is a choice of the model, and callers may rely only on the set.
- Cursors are modelled as strings, with `undefined`, `null` and `''` falsy.
  Numeric cursors, whose falsy values are `0` and `NaN`, are not modelled.
  Neither is a `null` count, which Postgres reads as `LIMIT NULL`, meaning
  no limit, nor a fractional count such as `2.5`, which the store rejects
  as an integer parameter at db.js:56: the model's count is an integer.
- Image ingestion, the refresh sweep, `lastRefreshedAt` and the
  `refreshing` state. None of these appear in `db.js`, so they are not
  part of this model.
