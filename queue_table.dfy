/**
 * The `queue` table of the job store, as values.
 *
 * A table is the sequence of its rows in rowid order (the order in which
 * they were inserted). Each SQL statement the store issues is one function
 * from tables to tables or to a query result; the class in module Queue
 * applies them to its state. The lemmas here are what the statements promise.
 */
module QueueTable {

  datatype Option<T> = None | Some(value: T)

  /** The job states; the CHECK constraint on the status column admits exactly these. */
  datatype Status = Pending | Processing | Completed | Failed

  /** The text stored in the status column for each state. */
  function StatusText(s: Status): (t: string)
  {
    match s
    case Pending => "pending"
    case Processing => "processing"
    case Completed => "completed"
    case Failed => "failed"
  }

  /** The CHECK constraint: a status text is admitted exactly when it names a state. */
  function ParseStatus(t: string): (r: Option<Status>)
    ensures r.Some? ==> StatusText(r.value) == t
    ensures r.None? ==> forall s: Status :: StatusText(s) != t
  {
    if t == "pending" then Some(Pending)
    else if t == "processing" then Some(Processing)
    else if t == "completed" then Some(Completed)
    else if t == "failed" then Some(Failed)
    else None
  }

  /** Every state survives the trip through its column text. */
  lemma StatusTextRoundTrip(s: Status)
    ensures ParseStatus(StatusText(s)) == Some(s)
  {
  }

  /** One row of the queue table. */
  datatype QueueItem = QueueItem(
    id: nat,
    timestamp: int,
    callbackUrl: string,
    file: string,
    status: Status,
    attempts: nat,
    errorMessage: Option<string>,
    metadata: Option<string>,
    processedAt: Option<int>)

  /** The row fields a caller supplies to enqueue. */
  datatype NewItem = NewItem(
    callbackUrl: string,
    file: string,
    errorMessage: Option<string>,
    metadata: Option<string>)

  /** Rowids only grow, so in rowid order the ids are strictly increasing (hence unique). */
  predicate IdsIncreasing(rows: seq<QueueItem>)
  {
    forall i, j :: 0 <= i < j < |rows| ==> rows[i].id < rows[j].id
  }

  predicate Terminal(s: Status)
  {
    s == Completed || s == Failed
  }

  /** processed_at is set exactly on completed and failed rows; retryFailed breaks this (RetryBreaksProcessedAt). */
  predicate ProcessedAtConsistent(rows: seq<QueueItem>)
  {
    forall i :: 0 <= i < |rows| ==> (rows[i].processedAt.Some? <==> Terminal(rows[i].status))
  }

  predicate SortedByTimestamp(rows: seq<QueueItem>)
  {
    forall i, j :: 0 <= i < j < |rows| ==> rows[i].timestamp <= rows[j].timestamp
  }

  // ---------------------------------------------------------------------------
  // INSERT INTO queue (timestamp, callback_url, file, status, attempts)
  //   VALUES (?, ?, ?, 'pending', 0)

  /** The row enqueue inserts: only callback_url and file are taken from the caller. */
  function NewRow(id: nat, now: int, item: NewItem): QueueItem
  {
    QueueItem(id, now, item.callbackUrl, item.file, Pending, 0, None, None, None)
  }

  // ---------------------------------------------------------------------------
  // SELECT * FROM queue WHERE status = ? (no ORDER BY: rowid order)

  /** All rows with the given status, in rowid order. */
  function WithStatus(rows: seq<QueueItem>, s: Status): (r: seq<QueueItem>)
    ensures forall x :: x in r <==> x in rows && x.status == s
    ensures |r| <= |rows|
    decreases |rows|
  {
    if rows == [] then []
    else (if rows[0].status == s then [rows[0]] else []) + WithStatus(rows[1..], s)
  }

  /** The list of a status is empty exactly when no row has that status. */
  lemma WithStatusEmpty(rows: seq<QueueItem>, s: Status)
    ensures WithStatus(rows, s) == [] <==> forall i :: 0 <= i < |rows| ==> rows[i].status != s
  {
    if WithStatus(rows, s) != [] {
      assert WithStatus(rows, s)[0] in WithStatus(rows, s);
    }
  }

  /**
   * The head of WithStatus is the first row, in rowid order, that has the
   * status: this is the job the coordinator takes.
   */
  lemma {:induction false} WithStatusHead(rows: seq<QueueItem>, s: Status) returns (i: nat)
    requires WithStatus(rows, s) != []
    ensures i < |rows| && rows[i] == WithStatus(rows, s)[0] && rows[i].status == s
    ensures forall j :: 0 <= j < i ==> rows[j].status != s
    decreases |rows|
  {
    if rows[0].status == s {
      i := 0;
    } else {
      var k := WithStatusHead(rows[1..], s);
      i := k + 1;
    }
  }

  /** Replacing one row changes the number of rows with a status by at most one, as the statuses say. */
  lemma {:induction false} WithStatusUpdate(rows: seq<QueueItem>, i: nat, x: QueueItem, s: Status)
    requires i < |rows|
    ensures |WithStatus(rows[i := x], s)| ==
            |WithStatus(rows, s)| - (if rows[i].status == s then 1 else 0) + (if x.status == s then 1 else 0)
    decreases |rows|
  {
    if i == 0 {
      assert rows[i := x][1..] == rows[1..];
    } else {
      assert rows[i := x][1..] == rows[1..][i - 1 := x];
      WithStatusUpdate(rows[1..], i - 1, x, s);
    }
  }

  /** An appended row joins the end of the list of its status. */
  lemma {:induction false} WithStatusAppend(rows: seq<QueueItem>, x: QueueItem, s: Status)
    ensures WithStatus(rows + [x], s) == WithStatus(rows, s) + (if x.status == s then [x] else [])
    decreases |rows|
  {
    var tail := if x.status == s then [x] else [];
    if rows == [] {
      assert rows + [x] == [x];
    } else {
      var head := if rows[0].status == s then [rows[0]] else [];
      calc {
        WithStatus(rows + [x], s);
        head + WithStatus((rows + [x])[1..], s);
        { assert (rows + [x])[1..] == rows[1..] + [x]; }
        head + WithStatus(rows[1..] + [x], s);
        { WithStatusAppend(rows[1..], x, s); }
        head + (WithStatus(rows[1..], s) + tail);
        (head + WithStatus(rows[1..], s)) + tail;
      }
    }
  }

  /**
   * What `db.get` makes of the same query: only the first matching row.
   * The doc comment of getStatus promises a list of every matching row.
   */
  function GetStatusAsWritten(rows: seq<QueueItem>, s: Status): (r: Option<QueueItem>)
    ensures r.Some? ==> r.value in rows && r.value.status == s
    ensures r.None? <==> forall i :: 0 <= i < |rows| ==> rows[i].status != s
  {
    var all := WithStatus(rows, s);
    if all == [] then None else Some(all[0])
  }

  /**
   * With two rows of a status, the single-row read drops one of them that
   * the list contract returns.
   */
  lemma GetStatusAsWrittenLosesRows(rows: seq<QueueItem>, s: Status, i: nat, j: nat)
    requires IdsIncreasing(rows)
    requires i < j < |rows| && rows[i].status == s && rows[j].status == s
    ensures |WithStatus(rows, s)| >= 2
    ensures exists x :: x in WithStatus(rows, s) && GetStatusAsWritten(rows, s) != Some(x)
  {
    var all := WithStatus(rows, s);
    assert rows[i] in all && rows[j] in all;
    var ki :| 0 <= ki < |all| && all[ki] == rows[i];
    var kj :| 0 <= kj < |all| && all[kj] == rows[j];
    assert ki != kj;
    if all[0] != rows[i] {
      assert GetStatusAsWritten(rows, s) != Some(rows[i]);
    } else {
      assert GetStatusAsWritten(rows, s) != Some(rows[j]);
    }
  }

  // ---------------------------------------------------------------------------
  // SELECT * FROM queue WHERE status = 'pending' ORDER BY timestamp ASC LIMIT 1

  /**
   * The index of the row dequeue selects: a pending row of least timestamp,
   * the first in rowid order among rows of equal timestamp.
   */
  function OldestPending(rows: seq<QueueItem>): (r: Option<nat>)
    ensures r.None? <==> forall j :: 0 <= j < |rows| ==> rows[j].status != Pending
    ensures r.Some? ==> r.value < |rows| && rows[r.value].status == Pending
    ensures r.Some? ==> forall j :: 0 <= j < |rows| && rows[j].status == Pending ==>
                          rows[r.value].timestamp <= rows[j].timestamp
    ensures r.Some? ==> forall j :: 0 <= j < r.value && rows[j].status == Pending ==>
                          rows[r.value].timestamp < rows[j].timestamp
    decreases |rows|
  {
    if rows == [] then None
    else
      var best := OldestPending(rows[..|rows| - 1]);
      var last := rows[|rows| - 1];
      if last.status != Pending then best
      else if best.Some? && rows[best.value].timestamp <= last.timestamp then best
      else Some(|rows| - 1)
  }

  // ---------------------------------------------------------------------------
  // UPDATE queue SET status = 'processing', attempts = attempts + 1 WHERE id = ?

  function Claim(x: QueueItem): QueueItem
  {
    x.(status := Processing, attempts := x.attempts + 1)
  }

  function ClaimRow(rows: seq<QueueItem>, id: int): (r: seq<QueueItem>)
    ensures |r| == |rows|
    ensures forall i :: 0 <= i < |rows| ==> r[i].id == rows[i].id
  {
    seq(|rows|, i requires 0 <= i < |rows| => if rows[i].id == id then Claim(rows[i]) else rows[i])
  }

  /** With unique ids, the update by id is the update of the one row that has it. */
  lemma ClaimRowAt(rows: seq<QueueItem>, i: nat)
    requires IdsIncreasing(rows) && i < |rows|
    ensures ClaimRow(rows, rows[i].id) == rows[i := Claim(rows[i])]
  {
    var r := ClaimRow(rows, rows[i].id);
    forall j | 0 <= j < |rows|
      ensures r[j] == rows[i := Claim(rows[i])][j]
    {
      if j < i {
        assert rows[j].id < rows[i].id;
      } else if j > i {
        assert rows[i].id < rows[j].id;
      }
    }
  }

  /** Dequeue takes one row out of the pending set and adds it to the processing set. */
  lemma ClaimMovesOneRow(rows: seq<QueueItem>, i: nat)
    requires IdsIncreasing(rows) && i < |rows| && rows[i].status == Pending
    ensures |WithStatus(ClaimRow(rows, rows[i].id), Pending)| == |WithStatus(rows, Pending)| - 1
    ensures |WithStatus(ClaimRow(rows, rows[i].id), Processing)| == |WithStatus(rows, Processing)| + 1
  {
    ClaimRowAt(rows, i);
    WithStatusUpdate(rows, i, Claim(rows[i]), Pending);
    WithStatusUpdate(rows, i, Claim(rows[i]), Processing);
  }

  /** A row still pending after a claim was pending before it, unchanged, and is not the claimed row. */
  lemma PendingAfterClaim(rows: seq<QueueItem>, i: nat, y: QueueItem)
    requires IdsIncreasing(rows) && i < |rows|
    requires y in WithStatus(ClaimRow(rows, rows[i].id), Pending)
    ensures y in WithStatus(rows, Pending) && y.id != rows[i].id
  {
    ClaimRowAt(rows, i);
    var after := rows[i := Claim(rows[i])];
    var j :| 0 <= j < |after| && after[j] == y;
    assert j != i;
    assert rows[j] == y;
    assert y.id != rows[i].id by {
      if j < i { assert rows[j].id < rows[i].id; } else { assert rows[i].id < rows[j].id; }
    }
  }

  /**
   * The rows `n` dequeues return when each is issued after the previous one
   * has finished. Overlapping calls on the one connection do not behave
   * like this (their transactions interfere), and are not modelled.
   */
  function ClaimRun(rows: seq<QueueItem>, n: nat): seq<QueueItem>
    decreases n
  {
    if n == 0 then []
    else
      match OldestPending(rows)
      case None => []
      case Some(i) => [rows[i]] + ClaimRun(ClaimRow(rows, rows[i].id), n - 1)
  }

  /**
   * Job A enqueued, job B one millisecond later: dequeues return A, then B,
   * then nothing.
   */
  lemma FifoScenario(a: NewItem, b: NewItem, t: int)
    ensures ClaimRun([NewRow(1, t, a), NewRow(2, t + 1, b)], 3) == [NewRow(1, t, a), NewRow(2, t + 1, b)]
  {
    var rows := [NewRow(1, t, a), NewRow(2, t + 1, b)];
    assert rows[..1] == [rows[0]];
    assert OldestPending(rows) == Some(0);
    var after1 := ClaimRow(rows, 1);
    assert after1 == [Claim(rows[0]), rows[1]];
    assert OldestPending(after1) == Some(1);
    var after2 := ClaimRow(after1, 2);
    assert after2 == [Claim(rows[0]), Claim(rows[1])];
    assert OldestPending(after2) == None;
  }

  /** One dequeue of a run: the oldest pending row, then the rest of the run on the updated table. */
  lemma ClaimRunStep(rows: seq<QueueItem>, m: nat) returns (i: nat, next: seq<QueueItem>)
    requires OldestPending(rows).Some?
    ensures i == OldestPending(rows).value && i < |rows| && next == ClaimRow(rows, rows[i].id)
    ensures ClaimRun(rows, m + 1) == [rows[i]] + ClaimRun(next, m)
  {
    i := OldestPending(rows).value;
    next := ClaimRow(rows, rows[i].id);
  }

  function Min(a: int, b: int): int
  {
    if a <= b then a else b
  }

  /** `n` dequeues against a table with K pending rows claim exactly min(n, K) rows. */
  lemma {:induction false} ClaimRunCount(rows: seq<QueueItem>, n: nat)
    requires IdsIncreasing(rows)
    ensures |ClaimRun(rows, n)| == Min(n, |WithStatus(rows, Pending)|)
    decreases n
  {
    if n > 0 && OldestPending(rows).Some? {
      var m: nat := n - 1;
      var i, next := ClaimRunStep(rows, m);
      ClaimMovesOneRow(rows, i);
      assert IdsIncreasing(next);
      ClaimRunCount(next, m);
      assert |ClaimRun(rows, n)| == 1 + Min(m, |WithStatus(next, Pending)|);
      assert |WithStatus(next, Pending)| + 1 == |WithStatus(rows, Pending)|;
    } else if n > 0 {
      WithStatusEmpty(rows, Pending);
    }
  }

  /** Every row a run of dequeues returns is a pending row of the starting table, as it was there. */
  lemma {:induction false} ClaimRunPending(rows: seq<QueueItem>, n: nat)
    requires IdsIncreasing(rows)
    ensures forall y :: y in ClaimRun(rows, n) ==> y in WithStatus(rows, Pending)
    decreases n
  {
    if n > 0 && OldestPending(rows).Some? {
      var m: nat := n - 1;
      var i, next := ClaimRunStep(rows, m);
      ClaimRunPending(next, m);
      forall y | y in ClaimRun(next, m)
        ensures y in WithStatus(rows, Pending)
      {
        PendingAfterClaim(rows, i, y);
      }
    }
  }

  /** No row twice, oldest first. */
  predicate DistinctOldestFirst(items: seq<QueueItem>)
  {
    forall k, l :: 0 <= k < l < |items| ==> items[k].id != items[l].id && items[k].timestamp <= items[l].timestamp
  }

  lemma PrependDistinctOldestFirst(h: QueueItem, rest: seq<QueueItem>)
    requires DistinctOldestFirst(rest)
    requires forall y :: y in rest ==> y.id != h.id && h.timestamp <= y.timestamp
    ensures DistinctOldestFirst([h] + rest)
  {
    var items := [h] + rest;
    forall k, l | 0 <= k < l < |items|
      ensures items[k].id != items[l].id && items[k].timestamp <= items[l].timestamp
    {
      assert items[l] == rest[l - 1];
      if k > 0 {
        assert items[k] == rest[k - 1];
      }
    }
  }

  /** A run of dequeues never returns the same row twice and returns rows oldest first. */
  lemma {:induction false} ClaimRunDistinctOrdered(rows: seq<QueueItem>, n: nat)
    requires IdsIncreasing(rows)
    ensures DistinctOldestFirst(ClaimRun(rows, n))
    decreases n
  {
    if n > 0 && OldestPending(rows).Some? {
      var m: nat := n - 1;
      var i, next := ClaimRunStep(rows, m);
      ClaimRunDistinctOrdered(next, m);
      ClaimRunPending(next, m);
      forall y | y in ClaimRun(next, m)
        ensures y.id != rows[i].id && rows[i].timestamp <= y.timestamp
      {
        PendingAfterClaim(rows, i, y);
      }
      PrependDistinctOldestFirst(rows[i], ClaimRun(next, m));
    }
  }

  // ---------------------------------------------------------------------------
  // UPDATE queue SET status = ?, error_message = ?, processed_at = ? WHERE id = ?

  function SetStatus(x: QueueItem, s: Status, message: Option<string>, at: Option<int>): QueueItem
  {
    x.(status := s, errorMessage := message, processedAt := at)
  }

  function SetStatusRow(rows: seq<QueueItem>, id: int, s: Status, message: Option<string>, at: Option<int>)
    : (r: seq<QueueItem>)
    ensures |r| == |rows|
    ensures forall i :: 0 <= i < |rows| ==> r[i].id == rows[i].id
    ensures (forall i :: 0 <= i < |rows| ==> rows[i].id != id) ==> r == rows
  {
    seq(|rows|, i requires 0 <= i < |rows| => if rows[i].id == id then SetStatus(rows[i], s, message, at) else rows[i])
  }

  /** With unique ids, the update by id is the update of the one row that has it. */
  lemma SetStatusRowAt(rows: seq<QueueItem>, i: nat, s: Status, message: Option<string>, at: Option<int>)
    requires IdsIncreasing(rows) && i < |rows|
    ensures SetStatusRow(rows, rows[i].id, s, message, at) == rows[i := SetStatus(rows[i], s, message, at)]
  {
    var r := SetStatusRow(rows, rows[i].id, s, message, at);
    forall j | 0 <= j < |rows|
      ensures r[j] == rows[i := SetStatus(rows[i], s, message, at)][j]
    {
      if j < i {
        assert rows[j].id < rows[i].id;
      } else if j > i {
        assert rows[i].id < rows[j].id;
      }
    }
  }

  /**
   * The coordinator's step on the table: the first pending row in rowid order
   * is marked completed at `now` (no error message). With no pending row
   * nothing changes.
   */
  function CompleteFirstPending(rows: seq<QueueItem>, now: int): seq<QueueItem>
  {
    var pending := WithStatus(rows, Pending);
    if pending == [] then rows else SetStatusRow(rows, pending[0].id, Completed, None, Some(now))
  }

  /**
   * Each processing step completes exactly one pending row: the first in
   * rowid order, and no other row changes.
   */
  lemma CompleteFirstPendingStep(rows: seq<QueueItem>, now: int) returns (i: nat)
    requires IdsIncreasing(rows) && WithStatus(rows, Pending) != []
    ensures i < |rows| && rows[i] == WithStatus(rows, Pending)[0]
    ensures forall j :: 0 <= j < i ==> rows[j].status != Pending
    ensures CompleteFirstPending(rows, now) == rows[i := SetStatus(rows[i], Completed, None, Some(now))]
    ensures |WithStatus(CompleteFirstPending(rows, now), Pending)| == |WithStatus(rows, Pending)| - 1
    ensures |WithStatus(CompleteFirstPending(rows, now), Completed)| == |WithStatus(rows, Completed)| + 1
  {
    i := WithStatusHead(rows, Pending);
    SetStatusRowAt(rows, i, Completed, None, Some(now));
    WithStatusUpdate(rows, i, SetStatus(rows[i], Completed, None, Some(now)), Pending);
    WithStatusUpdate(rows, i, SetStatus(rows[i], Completed, None, Some(now)), Completed);
  }

  /**
   * newJob on an open store with a clear flag: the new row is pending, so the
   * step that follows completes a row, and the number of pending rows is
   * what it was before the call. The new row is the one completed exactly
   * when no other row was pending.
   */
  lemma NewJobStep(rows: seq<QueueItem>, id: nat, enqueuedAt: int, item: NewItem, now: int)
    requires IdsIncreasing(rows) && forall j :: 0 <= j < |rows| ==> rows[j].id < id
    ensures var after := CompleteFirstPending(rows + [NewRow(id, enqueuedAt, item)], now);
            && |after| == |rows| + 1
            && |WithStatus(after, Pending)| == |WithStatus(rows, Pending)|
            && (after[|rows|].status == Completed <==> WithStatus(rows, Pending) == [])
  {
    var x := NewRow(id, enqueuedAt, item);
    var enqueued := rows + [x];
    WithStatusAppend(rows, x, Pending);
    assert IdsIncreasing(enqueued);
    var i := CompleteFirstPendingStep(enqueued, now);
    if WithStatus(rows, Pending) == [] {
      assert i == |rows|;
    } else {
      var k := WithStatusHead(rows, Pending);
      assert enqueued[k] == rows[k];
      assert i == k;
    }
  }

  // ---------------------------------------------------------------------------
  // DELETE FROM queue WHERE id = ?

  function DeleteRow(rows: seq<QueueItem>, id: int): (r: seq<QueueItem>)
    ensures forall x :: x in r <==> x in rows && x.id != id
    ensures |r| <= |rows|
    ensures (forall i :: 0 <= i < |rows| ==> rows[i].id != id) ==> r == rows
    decreases |rows|
  {
    if rows == [] then []
    else
      var rest := DeleteRow(rows[1..], id);
      assert rows == [rows[0]] + rows[1..];
      (if rows[0].id == id then [] else [rows[0]]) + rest
  }

  /** Deleting keeps the remaining rows in rowid order. */
  lemma {:induction false} DeleteRowKeepsOrder(rows: seq<QueueItem>, id: int)
    requires IdsIncreasing(rows)
    ensures IdsIncreasing(DeleteRow(rows, id))
    decreases |rows|
  {
    if rows != [] {
      var tail := DeleteRow(rows[1..], id);
      DeleteRowKeepsOrder(rows[1..], id);
      forall x | x in tail
        ensures rows[0].id < x.id
      {
        assert x in rows[1..];
      }
      PrependIncreasing(if rows[0].id == id then [] else [rows[0]], tail);
    }
  }

  lemma PrependIncreasing(head: seq<QueueItem>, tail: seq<QueueItem>)
    requires |head| <= 1 && IdsIncreasing(tail)
    requires forall x :: x in head ==> forall y :: y in tail ==> x.id < y.id
    ensures IdsIncreasing(head + tail)
  {
    if head != [] {
      forall i, j | 0 <= i < j < |head + tail|
        ensures (head + tail)[i].id < (head + tail)[j].id
      {
        if i == 0 {
          assert (head + tail)[j] in tail;
        } else {
          assert (head + tail)[i] == tail[i - 1] && (head + tail)[j] == tail[j - 1];
        }
      }
    }
  }

  /** Deleting a present id removes exactly one row. */
  lemma {:induction false} DeleteRowRemovesOne(rows: seq<QueueItem>, i: nat)
    requires IdsIncreasing(rows) && i < |rows|
    ensures |DeleteRow(rows, rows[i].id)| == |rows| - 1
    decreases |rows|
  {
    if i == 0 {
      forall j | 0 <= j < |rows[1..]|
        ensures rows[1..][j].id != rows[0].id
      {
        assert rows[0].id < rows[j + 1].id;
      }
    } else {
      assert rows[1..][i - 1] == rows[i];
      DeleteRowRemovesOne(rows[1..], i - 1);
    }
  }

  // ---------------------------------------------------------------------------
  // SELECT * FROM queue ORDER BY timestamp ASC

  function InsertByTimestamp(x: QueueItem, sorted: seq<QueueItem>): (r: seq<QueueItem>)
    requires SortedByTimestamp(sorted)
    ensures SortedByTimestamp(r)
    ensures multiset(r) == multiset(sorted) + multiset{x}
    decreases |sorted|
  {
    if sorted == [] || x.timestamp <= sorted[0].timestamp then
      PrependSorted(x, sorted);
      [x] + sorted
    else
      var rest := InsertByTimestamp(x, sorted[1..]);
      assert sorted == [sorted[0]] + sorted[1..];
      forall y | y in rest
        ensures sorted[0].timestamp <= y.timestamp
      {
        assert y in multiset(rest);
        if y != x {
          assert y in sorted[1..];
        }
      }
      assert rest != [] ==> rest[0] in rest;
      PrependSorted(sorted[0], rest);
      [sorted[0]] + rest
  }

  lemma PrependSorted(x: QueueItem, sorted: seq<QueueItem>)
    requires SortedByTimestamp(sorted)
    requires sorted != [] ==> x.timestamp <= sorted[0].timestamp
    ensures SortedByTimestamp([x] + sorted)
  {
    forall i, j | 0 <= i < j < |[x] + sorted|
      ensures ([x] + sorted)[i].timestamp <= ([x] + sorted)[j].timestamp
    {
      if i == 0 {
        assert ([x] + sorted)[j] == sorted[j - 1];
        if j > 1 {
          assert sorted[0].timestamp <= sorted[j - 1].timestamp;
        }
      } else {
        assert ([x] + sorted)[i] == sorted[i - 1];
      }
    }
  }

  /** All rows, ordered by timestamp; rows of equal timestamp keep rowid order. */
  function ByTimestamp(rows: seq<QueueItem>): (r: seq<QueueItem>)
    ensures SortedByTimestamp(r)
    ensures multiset(r) == multiset(rows)
    decreases |rows|
  {
    if rows == [] then []
    else
      assert rows == [rows[0]] + rows[1..];
      InsertByTimestamp(rows[0], ByTimestamp(rows[1..]))
  }

  // ---------------------------------------------------------------------------
  // UPDATE queue SET status = 'pending' WHERE status = 'failed' AND attempts < ?

  predicate Retriable(x: QueueItem, maxAttempts: int)
  {
    x.status == Failed && x.attempts < maxAttempts
  }

  function RetryRows(rows: seq<QueueItem>, maxAttempts: int): (r: seq<QueueItem>)
    ensures |r| == |rows|
    ensures forall i :: 0 <= i < |rows| ==> r[i] == rows[i].(status := r[i].status)
    ensures forall i :: 0 <= i < |rows| ==> (r[i] != rows[i] <==> Retriable(rows[i], maxAttempts))
    ensures forall i :: 0 <= i < |rows| && Retriable(rows[i], maxAttempts) ==> r[i].status == Pending
  {
    seq(|rows|, i requires 0 <= i < |rows| => if Retriable(rows[i], maxAttempts) then rows[i].(status := Pending) else rows[i])
  }

  /** The number of rows the retry sweep matches: what it reports as `changes`. */
  function CountRetriable(rows: seq<QueueItem>, maxAttempts: int): nat
    decreases |rows|
  {
    if rows == [] then 0
    else (if Retriable(rows[0], maxAttempts) then 1 else 0) + CountRetriable(rows[1..], maxAttempts)
  }

  /** The number of positions at which two tables of equal length differ. */
  function Changed(before: seq<QueueItem>, after: seq<QueueItem>): nat
    requires |before| == |after|
    decreases |before|
  {
    if before == [] then 0
    else (if before[0] != after[0] then 1 else 0) + Changed(before[1..], after[1..])
  }

  /** The count the retry sweep returns is the number of rows it changed. */
  lemma {:induction false} RetryCountIsChanges(rows: seq<QueueItem>, maxAttempts: int)
    ensures CountRetriable(rows, maxAttempts) == Changed(rows, RetryRows(rows, maxAttempts))
    decreases |rows|
  {
    if rows != [] {
      assert RetryRows(rows, maxAttempts)[1..] == RetryRows(rows[1..], maxAttempts);
      RetryCountIsChanges(rows[1..], maxAttempts);
    }
  }

  // ---------------------------------------------------------------------------
  // processed_at is set exactly on terminal rows

  /** Inserting a fresh row keeps processed_at consistent. */
  lemma NewRowKeepsProcessedAt(rows: seq<QueueItem>, id: nat, now: int, item: NewItem)
    requires ProcessedAtConsistent(rows)
    ensures ProcessedAtConsistent(rows + [NewRow(id, now, item)])
  {
  }

  /** Claiming a pending row keeps processed_at consistent. */
  lemma ClaimKeepsProcessedAt(rows: seq<QueueItem>, i: nat)
    requires IdsIncreasing(rows) && i < |rows| && rows[i].status == Pending
    requires ProcessedAtConsistent(rows)
    ensures ProcessedAtConsistent(ClaimRow(rows, rows[i].id))
  {
    ClaimRowAt(rows, i);
  }

  /**
   * updateStatus stamps processed_at exactly when the new status is not
   * processing, so it keeps processed_at consistent.
   */
  lemma SetStatusKeepsProcessedAt(rows: seq<QueueItem>, id: int, s: Status, message: Option<string>, now: int)
    requires s != Pending && ProcessedAtConsistent(rows)
    ensures ProcessedAtConsistent(SetStatusRow(rows, id, s, message, if s != Processing then Some(now) else None))
  {
  }

  /**
   * The retry sweep sets status only: a failed row it returns to pending
   * keeps its processed_at, so the sweep breaks the consistency whenever it
   * retries anything.
   */
  lemma RetryBreaksProcessedAt(rows: seq<QueueItem>, i: nat, maxAttempts: int)
    requires ProcessedAtConsistent(rows)
    requires i < |rows| && Retriable(rows[i], maxAttempts)
    ensures !ProcessedAtConsistent(RetryRows(rows, maxAttempts))
  {
    var r := RetryRows(rows, maxAttempts);
    assert r[i].status == Pending && r[i].processedAt == rows[i].processedAt;
  }
}
