# Posseidon job queue: a Dafny model

Posseidon is a single-node work queue. Clients submit jobs that name a file and a
callback URL. A SQLite-backed store (`SqliteQueue`) keeps one row per job. A
coordinator (`PosseidonService`) takes pending jobs one at a time behind a
single-flight busy flag and records their outcome in the store.

The model has three modules:

- `QueueTable` (queue_table.dfy) holds the values:
  - the job states and their column text;
  - the row record;
  - one function per SQL statement the store issues: the insert, the pending
    read, the oldest-pending select, the claim, the status update, the delete,
    the timestamp-ordered read and the retry sweep.

  It also holds the lemmas about those statements. A table is the sequence of
  its rows in rowid order.
- `Queue` (queue.dfy) has the class `SqliteQueue`. Its fields are:
  - `initialized`, which stands for `db !== null`;
  - `rows`, the table;
  - `nextId`, the AUTOINCREMENT counter;
  - a ghost set `issued` of every id ever assigned.

  Each method is one statement or one transaction, applied atomically. Its
  contract says:
  - the whole new state, in terms of the `QueueTable` functions;
  - the "Database not initialized" error while the handle is closed;
  - that `Valid()` is kept. `Valid()` means ids strictly increase in rowid
    order, every row's id was issued, and every issued id lies below `nextId`.
- `Service` (service.dfy) has the class `PosseidonService`. It owns a
  `SqliteQueue` and has the fields `jobs`, `jobStatus` and `processingFlag`.
  Its methods are `Start`, `NewJob` and `ProcessQueue`. `Fail` is the catch
  block of processQueue.

Clock readings (`Date.now()`) are method parameters. The calls the source does
not await run to completion where they are issued, and their rejections reach
no caller.

Behaviours of the code worth knowing, which the model keeps:

- retryFailed only resets the status. attempts, error_message and processed_at
  keep their values, so a retried row is pending with processed_at still set.
  The insert, the claim and the status update keep processed_at set exactly on
  completed and failed rows; `RetryBreaksProcessedAt` shows that retryFailed
  breaks this.
- updateStatus raises no error for an unknown id, which is a silent no-op, and
  accepts any status other than pending over any other status.
- processQueue does not claim through dequeue. It reads the pending rows, takes
  the first in rowid order (not the oldest by timestamp), and marks it
  completed. The row goes from pending to completed without passing through
  processing, and attempts is not incremented.
- With no pending job, processQueue rejects with "Queue is empty" and sets
  `_jobStatus` to failed. It does not return quietly.
- The busy-flag skip also runs the `finally`, so the flag is clear after the
  skip too.
- newJob returns nothing, not the new id. The outcome of processQueue does not
  reach newJob's caller.

## Model

| member | source | states |
|---|---|---|
| `QueueTable.ParseStatus` | service/queue/index.ts:40 | a status text is admitted exactly when it is the text of one of the four states, and then parses back to that state |
| `QueueTable.StatusTextRoundTrip` | service/queue/index.ts:5 | every state's column text parses back to the same state |
| `QueueTable.WithStatus` | service/queue/index.ts:124-129 | the read returns exactly the rows with the status, no others and at most as many as the table has |
| `QueueTable.WithStatusEmpty` | service/index.ts:40-42 | the read is empty, and processQueue reports "Queue is empty", exactly when no row has the status |
| `QueueTable.WithStatusHead` | service/index.ts:40-44 | the job processQueue takes, the head of the pending list, is the first pending row in rowid order |
| `QueueTable.GetStatusAsWritten` | service/queue/index.ts:129 | `db.get` yields one matching row, or none exactly when no row has the status |
| `QueueTable.GetStatusAsWrittenLosesRows` | service/queue/index.ts:127-131 | with two rows of a status, the list holds at least two rows and the single-row read misses one of them |
| `QueueTable.OldestPending` | service/queue/index.ts:77-82 | none exactly when no row is pending; otherwise a pending row whose timestamp is least among pending rows and strictly less than any earlier pending row's |
| `QueueTable.ClaimRowAt` | service/queue/index.ts:87-92 | the update by id changes only the claimed row: status processing, attempts plus one |
| `QueueTable.ClaimMovesOneRow` | service/queue/index.ts:87-92 | a claim removes one row from the pending set and adds one to the processing set |
| `QueueTable.ClaimRunCount` | service/queue/index.ts:72-94 | n dequeues against K pending rows claim exactly min(n, K) rows |
| `QueueTable.ClaimRunPending` | service/queue/index.ts:72-94 | every row a run of dequeues returns was a pending row of the starting table, exactly as it was there |
| `QueueTable.ClaimRunDistinctOrdered` | service/queue/index.ts:72-94 | a run of dequeues never returns the same id twice and returns rows in non-decreasing timestamp order |
| `QueueTable.FifoScenario` | service/queue/index.ts:77-94 | job A enqueued, then job B a millisecond later: dequeues return A, then B, then nothing |
| `QueueTable.SetStatusRow` | service/queue/index.ts:107-112 | no id changes, and an id that no row has leaves the table as it was |
| `QueueTable.SetStatusRowAt` | service/queue/index.ts:107-112 | the update by id changes only that row's status, error_message and processed_at |
| `QueueTable.CompleteFirstPendingStep` | service/index.ts:40-53 | the step completes the first pending row and changes no other row; the pending count drops by one and the completed count rises by one |
| `QueueTable.NewJobStep` | service/index.ts:25-30 | enqueue then one step leaves the number of pending rows unchanged; the new row is the one completed exactly when no other row was pending |
| `QueueTable.DeleteRow` | service/queue/index.ts:120 | the delete keeps exactly the rows whose id differs, and is a no-op for an absent id |
| `QueueTable.DeleteRowKeepsOrder` | service/queue/index.ts:120 | the rows left after a delete are still in increasing id order |
| `QueueTable.DeleteRowRemovesOne` | service/queue/index.ts:120 | deleting a present id removes exactly one row |
| `QueueTable.ByTimestamp` | service/queue/index.ts:138 | the listing is sorted by non-decreasing timestamp and is a permutation of the table |
| `QueueTable.RetryRows` | service/queue/index.ts:146-151 | the sweep changes status only, changes exactly the failed rows with attempts below the bound, and makes those pending |
| `QueueTable.RetryCountIsChanges` | service/queue/index.ts:146-152 | the count of matched rows equals the number of rows the sweep changed |
| `QueueTable.NewRowKeepsProcessedAt` | service/queue/index.ts:59-62 | inserting keeps processed_at set exactly on completed/failed rows |
| `QueueTable.ClaimKeepsProcessedAt` | service/queue/index.ts:87-92 | claiming a pending row keeps processed_at set exactly on completed/failed rows |
| `QueueTable.SetStatusKeepsProcessedAt` | service/queue/index.ts:107-111 | updateStatus keeps processed_at set exactly on completed/failed rows |
| `QueueTable.RetryBreaksProcessedAt` | service/queue/index.ts:146-151 | any retried row leaves a pending row with processed_at set |
| `Queue.SqliteQueue.constructor` | service/queue/index.ts:18-23 | a new store has no open handle, an empty table and the id counter at 1 |
| `Queue.SqliteQueue.Initialize` | service/queue/index.ts:28-50 | opens the handle and keeps the table, the counter and the issued ids |
| `Queue.SqliteQueue.Enqueue` | service/queue/index.ts:55-64 | appends exactly one pending row with attempts 0, the caller's callback_url and file, no metadata, and an id above every id ever issued; fails with "Database not initialized", changing nothing, when closed |
| `Queue.SqliteQueue.Dequeue` | service/queue/index.ts:69-99 | with no pending row, None and no change; otherwise returns the oldest pending row as it was and changes only that row, to processing with attempts plus one; fails unchanged when closed |
| `Queue.SqliteQueue.UpdateStatus` | service/queue/index.ts:104-113 | sets status and error_message of the row with the id, processed_at to now unless the status is processing (then cleared); an unknown id changes nothing; fails unchanged when closed |
| `Queue.SqliteQueue.Remove` | service/queue/index.ts:118-121 | deletes only the row with the id, keeps id order; fails unchanged when closed |
| `Queue.SqliteQueue.GetStatus` | service/queue/index.ts:123-131 | read-only; exactly the rows with the status, in rowid order; fails when closed |
| `Queue.SqliteQueue.ListAll` | service/queue/index.ts:133-139 | read-only; every row, sorted by timestamp; fails when closed |
| `Queue.SqliteQueue.RetryFailed` | service/queue/index.ts:144-153 | returns the failed rows below the bound to pending and reports how many rows changed; fails unchanged when closed |
| `Queue.SqliteQueue.Close` | service/queue/index.ts:158-163 | the handle is closed afterwards whatever its state (idempotent); the rows stay in the file |
| `Service.ErrorText` | service/index.ts:31 | an Error concatenated into a string ends with its message, after a non-empty prefix |
| `Service.ErrorJson` | service/index.ts:58 | the serialised error stored as error_message is non-empty |
| `Service.PosseidonService.constructor` | service/index.ts:3-14 | a fresh service owns a fresh closed store, no jobs read, status pending, flag clear |
| `Service.PosseidonService.Start` | service/index.ts:16-23 | the store is open and the busy flag clear; the table is unchanged |
| `Service.PosseidonService.NewJob` | service/index.ts:25-33 | closed store: rejects with "Error creating job: Error: Database not initialized" and changes no row. Open store: enqueues exactly one pending row, then runs one processing step on the table that contains it |
| `Service.PosseidonService.ProcessQueue` | service/index.ts:35-64 | flag set: returns, reads and writes nothing, clears the flag. Closed store or no pending row: rejects with the error text, rows unchanged, job status failed. Otherwise: returns the first pending row as read, marks it completed at now, job status completed. The flag is always clear on exit |
| `Service.PosseidonService.Fail` | service/index.ts:55-60 | sets job status failed; marks the first job of the last read failed, with a non-empty message, when the store is open; rejects with "Error processing queue: " and the error's text |

## Findings

| source | as written | input that shows it | evidently intended | confidence | as-written member | corrected member |
|---|---|---|---|---|---|---|
| service/queue/index.ts:129 | `getStatus` reads with `db.get`, which yields only the first matching row. processQueue (service/index.ts:41-44) then indexes `[0]` into a row object. That gives `undefined`, so it reports "Queue is empty" even when jobs are pending | a table with one pending row: the read yields that row object, its `[0]` is `undefined`, and processQueue rejects with "Queue is empty" | every row with the status, as a list, as the doc comment at service/queue/index.ts:124 says (`db.all`) | not executed; rests on the driver's documented `get`/`all` semantics | `QueueTable.GetStatusAsWritten` (`QueueTable.GetStatusAsWrittenLosesRows`) | `QueueTable.WithStatus`, used by `Queue.SqliteQueue.GetStatus` and `Service.PosseidonService.ProcessQueue` |

## Left out

- The sqlite driver, the SQL text, the database path and the file system are not modelled. Each statement is a function on the table, and each method applies it atomically.
- Driver failures are not modelled. These include a failing `open` in initialize and a failing statement inside dequeue's transaction (the ROLLBACK and rethrow at service/queue/index.ts:95-98). The only error the model raises is "Database not initialized".
- A database file that already holds rows when the store is constructed is not modelled. The constructor starts from an empty table. Close and a later initialize do keep the rows.
- Concurrency is not modelled. That covers async/await interleaving, the un-awaited promises (service/index.ts:17, 29, 52, 58) and several processes sharing one file. Calls run one after another. `ClaimRunCount`, `ClaimRunPending` and `ClaimRunDistinctOrdered` state what dequeues issued one after another do, each finishing before the next starts.
- Overlapping dequeue calls are not modelled. dequeue (service/queue/index.ts:76-98) runs BEGIN, SELECT, UPDATE and COMMIT on the one shared connection, with an `await` between statements. A second call that starts before the first commits fails at its BEGIN, and its ROLLBACK ends the first call's transaction. The first call's UPDATE then stands, but its COMMIT fails, so a row is marked processing and returned to no caller. The model runs each dequeue whole.
- The processing and callback step is only a comment (service/index.ts:46-47), so it always succeeds.
- The "Job id is undefined" branch (service/index.ts:49-51) cannot be taken, because every row read from the table has an id.
- `JSON.stringify(error)` is modelled as the text `{}`. An Error's properties are not enumerable, so that is what it yields.
- The fields `calbackResponse`, `file` and `project` (service/index.ts:7-9) are not modelled. Nothing reads them.
- service/app.ts, src/app.ts and server.ts are not part of this model. They hold the HTTP routing and startup.
- retryFailed's default bound of 3 is the constant `Queue.DefaultMaxAttempts`. `Queue.SqliteQueue.RetryFailed` always takes the bound as an argument.
- Ids, timestamps and attempts are unbounded integers. SQLite's 64-bit INTEGER and JavaScript's double-precision numbers are not modelled.
- `ORDER BY timestamp` leaves the order of equal timestamps open. The model keeps rowid order among them, in both the dequeue select and the listing. getStatus's select has no ORDER BY at all, so its rowid order is how SQLite evaluates that query, not something the SQL guarantees; the model fixes it as rowid order.
- NewJob takes the enqueue argument shape (callback_url, file, error_message, metadata). The source's `QueueItem` parameter has more fields, but only callback_url and file are read.
