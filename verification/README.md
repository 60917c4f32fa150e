# Freshness-gated reconciliation of `flask-api-updater`

This project models the two POST handlers of `src/app.py`. `update_builds` serves
`/update/builds`. It reconciles RSS channel records in the `builds` table, keyed
by `link`, with `lastBuildDate` as the freshness column. `update_feed` serves
`/update/feed`. It reconciles feed items in the `feed` table, keyed by `guid`,
with `pubDate` as the freshness column.

Both handlers run the same steps:

1. Read every column from the JSON body with `data.get`, so a missing member becomes `None`.
2. Select the stored freshness value for the incoming key.
3. If there is no row, insert every column and answer 201.
4. If the stored freshness differs from the incoming value, update every non-key column, commit, and answer 200.
5. If the two values are equal, write nothing and answer 200.
6. If any storage step raises, answer 500. A step that raises before the commit leaves nothing committed. On the no-op branch, the `with` block closes the connection while the SELECT's transaction is still open, and that close rolls the transaction back. If the rollback raises, the answer is 500 too.

The model holds one generic algorithm and instantiates it twice.

- `wrappers.dfy` — `Option`, standing for `None` (JSON null, missing member, SQL NULL, no row).
- `reconciler.dfy` — module `Reconciler`:
  - the table schema: key column, freshness column, column list;
  - the persisted table, as a `map` from key value to row;
  - the pure specification `Step` of one call;
  - the class `Table`, whose `Reconcile` method updates its `rows` field step by step. A write is staged, and it reaches `rows` only if the commit succeeds. The method is proved to follow `Step`.
- `properties.dfy` — module `Properties`: what one or two calls do. This covers insert, update, no-op, failure, the stored freshness, "only the keyed row changes", key growth, idempotence, and a single write per change.
- `app.dfy` — module `App`: the `builds` and `feed` column sets, and the handlers `UpdateBuilds` and `UpdateFeed`, which return the numeric HTTP status. It also holds the concrete channel scenario (201, then 200 no-op, then 200 update).
- `history.dfy` — module `History`: sequences of calls. Calls whose fault blocks the commit leave no trace. A key's stored freshness is the one carried by the latest unblocked call for that key. The table gains at most one key per unblocked call.

Column values are a type parameter `V`, compared only by equality. A storage failure is an explicit parameter `Fault`. It says where the storage layer raises:

- opening the connection;
- the SELECT;
- the INSERT or UPDATE;
- the commit;
- the rollback when the connection closes.

A fault at the write or the commit only matters on a branch that writes; the no-op branch issues neither. A fault at the close only matters on the no-op branch, where it answers 500. On a writing branch the close comes after the commit, so the write stays committed. `Fault.BlocksCommit` names the faults that stop a call before anything is committed. Those are all of them except a failure at the close.

## Model

| member | source | states |
|---|---|---|
| `Reconciler.StatusCode` | src/app.py:91-111 | 201 exactly for a creation, 200 exactly for an update or a no-op, 500 exactly for a failure |
| `Reconciler.Field` | src/app.py:48-57 | a member present in the body gives its value (JSON null as None); an absent member gives None |
| `Reconciler.RecordOf` | src/app.py:48-57 | the bound record has exactly the table's columns, whatever members the request carries |
| `Reconciler.Overwrite` | src/app.py:66-70 | the UPDATE keeps the row's set of columns and leaves the key column as stored |
| `Reconciler.Inserted` | src/app.py:95-107 | committing the INSERT keeps every row well formed (all columns, own key in the key column) |
| `Reconciler.Overwritten` | src/app.py:78-90 | committing the UPDATE keeps every row well formed and adds no key |
| `Reconciler.Step` | src/app.py:72-111 | one call keeps the table well formed; a failed call leaves it unchanged; keys grow by the incoming key only on creation; every other key's row is untouched |
| `Reconciler.Table.SelectFreshness` | src/app.py:74 | the lookup finds a value exactly when a row exists under the key, and returns that row's freshness column |
| `Reconciler.Table.Reconcile` | src/app.py:72-111 | the handler body keeps the table well formed; its outcome and the new contents of `rows` are those of `Step` on the old contents |
| `App.BuildsWellFormed` | src/app.py:62-70 | the `builds` column list contains its key `link` and its freshness column `lastBuildDate`, which differ |
| `App.FeedWellFormed` | src/app.py:126-131 | the `feed` column list contains its key `guid` and its freshness column `pubDate`, which differ |
| `App.UpdateBuilds` | src/app.py:45-111 | `/update/builds` answers the status code of `Step` over the `builds` columns and leaves the table as `Step` says |
| `App.UpdateFeed` | src/app.py:114-162 | `/update/feed` answers the status code of `Step` over the `feed` columns and leaves the table as `Step` says |
| `App.FeedUpdateOverwritesLink` | src/app.py:129-131 | an update of a feed item overwrites its `link` column, which is not the key of `feed` |
| `App.BuildsScenario` | src/app.py:74-108 | posting a new channel answers 201; posting it again answers 200 and leaves the table unchanged; posting a later `lastBuildDate` answers 200 and stores that date |
| `Properties.InsertWhenAbsent` | src/app.py:94-108 | with no row under the key, a row holding exactly the supplied values (None where missing) is added, the keys grow by that key, and the answer is 201 |
| `Properties.UpdateWhenFreshnessDiffers` | src/app.py:75-91 | with a row whose freshness differs, every non-key column takes the incoming value, the key column keeps the key, no key is added, and the answer is 200 |
| `Properties.UpdateOverwritesColumn` | src/app.py:136-147 | on the update branch, any named non-key column takes the incoming value |
| `Properties.UnchangedWhenSameFreshness` | src/app.py:92-93 | with a row whose freshness equals the incoming one, the table is unchanged for every fault; the answer is 200 exactly when connect, select and the closing rollback succeed, and 500 otherwise |
| `Properties.FailureCommitsNothing` | src/app.py:109-111 | the answer is 500 exactly when connect or select fails, when write or commit fails on a branch that writes, or when the close fails on the no-op branch; a 500 leaves the table unchanged |
| `Properties.BlockingFaultWritesNothing` | src/app.py:160-162 | a call whose fault strikes before the commit never changes the table; it answers 500 or is a no-op |
| `Properties.CloseFailureAfterWrite` | src/app.py:146-147 | on the insert and update branches, a failure at the close gives the same outcome and table as no fault |
| `Properties.CloseFailureCommitsAsFaultFree` | src/app.py:134-149 | a failure at the close commits exactly what a fault-free call commits; it turns only the no-op answer into a failure |
| `Properties.AcceptedFreshnessIsStored` | src/app.py:135-159 | after any call that did not fail, the key has a row and its freshness column holds the incoming value |
| `Properties.OtherRowsUntouched` | src/app.py:124-130 | for every key other than the incoming one, the key is present after the call exactly when it was before, with an identical row |
| `Properties.KeysGrowOnlyOnInsert` | src/app.py:150-159 | no key disappears; the key count grows by at most one, and by one exactly when the call creates |
| `Properties.Idempotent` | src/app.py:77 | the same request twice: the first call succeeds; the second is a no-op answering 200; the table after both equals the table after the first |
| `Properties.ChangeIsWrittenOnce` | src/app.py:138 | two requests for one key with different freshness: the second updates, overwrites the row with its own record, and leaves its freshness stored |
| `Properties.RecordHoldsField` | src/app.py:117-121 | the bound record holds, for each column, the request's value or None |
| `Properties.ExtraMembersIgnored` | src/app.py:116-121 | members of the request body outside the table's columns do not change the bound record |
| `History.Replay` | src/app.py:72-93 | a sequence of calls, each applied to the table the previous one committed, keeps the table well formed |
| `History.Unblocked` | src/app.py:109-111 | keeps exactly the calls whose fault does not block the commit: every kept call is such a call from the sequence, every such call is kept, and there are no more than the sequence had |
| `History.UnblockedAppend` | src/app.py:109-111 | filtering keeps order: the unblocked calls of `a + b` are those of `a` followed by those of `b` |
| `History.FaultyCallsInvisible` | src/app.py:160-162 | dropping every call whose fault blocks the commit gives the same final table |
| `History.UnblockedStoresLatest` | src/app.py:150-159 | after unblocked calls, a key's stored freshness is that of the latest call for it; a key no call carries keeps its original row or stays absent |
| `History.StoredFreshnessIsLatestAccepted` | src/app.py:135-149 | after any calls, a key's stored freshness is that of the latest call for it whose fault did not block the commit |
| `History.KeysGrowByAtMostOnePerCall` | src/app.py:94-108 | no row is ever removed, and the number of keys grows by at most the number of unblocked calls |

## Left out

- `init_connection_pool` and `init_db` (src/app.py:18-43) are not modelled. They choose a TCP, Unix-socket or managed connector from environment variables, and lazily set the module-global `db`. The connector modules they call are not part of this model.
- Flask routing, `request.json` parsing, `jsonify` and the response message texts are not modelled; only the numeric status code is kept. A request body that is not a JSON object fails before the `try` block, in Flask; that is not modelled either.
- SQL text, SQLAlchemy `execute`/`fetchone`/`commit` and transaction isolation are replaced by a map. A storage exception is the `Fault` parameter, chosen by the caller, and it leaves the map unchanged.
- SQL NULL semantics are not modelled. Under SQL, `link = NULL` matches no row, and a NULL key may break the primary key. The model compares keys, including `None`, by plain equality. A failing INSERT of such a row falls under `WriteFails`.
- Type coercion between a stored date and the incoming JSON string under Python `!=` is not modelled; freshness values are compared by equality.
- Logging (src/app.py:110, 161) is not modelled.
- Reconciler.Step: a failure while closing the connection after a committed INSERT or UPDATE is taken not to reach the handler. The transaction has already ended, so the close issues no rollback of its own. If such a failure did raise, the source would answer 500 with the write committed, and the model does not capture that.
- The toot upsert and the unposted-item selection are not part of this model: `src/app.py` does not contain them.
- Concurrent writers on the same key (the read-then-write race between the SELECT and the UPDATE) are not modelled; the model is sequential.
