/**
 * The job store: a class over the `queue` table of a SQLite database.
 *
 * `initialized` stands for the open database handle (`db !== null`); every
 * operation but initialize and close fails with "Database not initialized"
 * and changes nothing while it is false. The table outlives the handle: it
 * lives in the database file, so close keeps the rows and a later
 * initialize finds them again (CREATE TABLE IF NOT EXISTS).
 *
 * Each method is one statement or one transaction, applied atomically; the
 * clock reading `Date.now()` is the parameter `now`.
 */
module Queue {
  import opened QueueTable

  /** The message of the Error every operation throws while the database is closed. */
  const NotInitialized: string := "Database not initialized"

  /** retryFailed's default bound on attempts. */
  const DefaultMaxAttempts: int := 3

  /** A settled promise: its value, or the message of the Error it was rejected with. */
  datatype Result<T> = Ok(value: T) | Err(message: string)

  /** The statuses updateStatus accepts. */
  type UpdatableStatus = s: Status | s != Pending witness Processing

  class SqliteQueue {
    /** db !== null */
    var initialized: bool
    /** The rows of the queue table, in rowid order. */
    var rows: seq<QueueItem>
    /** The AUTOINCREMENT counter: the id the next insert receives. */
    var nextId: nat
    /** Every id the table has ever assigned, including those of deleted rows. */
    ghost var issued: set<nat>

    ghost predicate Valid()
      reads this
    {
      && 1 <= nextId
      && IdsIncreasing(rows)
      && (forall i :: 0 <= i < |rows| ==> rows[i].id in issued)
      && (forall id :: id in issued ==> 1 <= id < nextId)
    }

    /** A store over a new database file; the handle is not open yet. */
    constructor ()
      ensures Valid() && !initialized && rows == [] && nextId == 1 && issued == {}
    {
      initialized := false;
      rows := [];
      nextId := 1;
      issued := {};
    }

    /** Opens the handle; the table and its rows are kept if they exist. */
    method Initialize()
      requires Valid()
      modifies this
      ensures Valid() && initialized
      ensures rows == old(rows) && nextId == old(nextId) && issued == old(issued)
    {
      initialized := true;
    }

    /**
     * Inserts one pending row with attempts 0, the caller's callback_url and
     * file, the timestamp `now` and a never-used id. Nothing else is stored:
     * the caller's metadata and error_message are dropped.
     */
    method Enqueue(item: NewItem, now: int) returns (r: Result<()>)
      requires Valid()
      modifies this
      ensures Valid() && initialized == old(initialized)
      ensures !old(initialized) ==> r == Err(NotInitialized)
      ensures !old(initialized) ==> rows == old(rows) && nextId == old(nextId) && issued == old(issued)
      ensures old(initialized) ==> r == Ok(())
      ensures old(initialized) ==> rows == old(rows) + [NewRow(old(nextId), now, item)]
      ensures old(initialized) ==> old(nextId) !in old(issued) && forall id :: id in old(issued) ==> id < old(nextId)
      ensures old(initialized) ==> nextId == old(nextId) + 1 && issued == old(issued) + {old(nextId)}
    {
      if !initialized {
        return Err(NotInitialized);
      }
      rows := rows + [NewRow(nextId, now, item)];
      issued := issued + {nextId};
      nextId := nextId + 1;
      r := Ok(());
    }

    /**
     * One transaction: selects the oldest pending row; with none, rolls back
     * and returns None. Otherwise marks that row processing, adds one to its
     * attempts, commits and returns the row as it was selected.
     */
    method Dequeue() returns (r: Result<Option<QueueItem>>)
      requires Valid()
      modifies this
      ensures Valid() && initialized == old(initialized)
      ensures nextId == old(nextId) && issued == old(issued)
      ensures !old(initialized) ==> r == Err(NotInitialized) && rows == old(rows)
      ensures old(initialized) && OldestPending(old(rows)).None? ==> r == Ok(None) && rows == old(rows)
      ensures old(initialized) && OldestPending(old(rows)).Some? ==>
                var i := OldestPending(old(rows)).value;
                && r == Ok(Some(old(rows)[i]))
                && rows == old(rows)[i := Claim(old(rows)[i])]
    {
      if !initialized {
        return Err(NotInitialized);
      }
      var found := OldestPending(rows);
      if found.None? {
        return Ok(None);
      }
      var item := rows[found.value];
      ClaimRowAt(rows, found.value);
      rows := ClaimRow(rows, item.id);
      r := Ok(Some(item));
    }

    /**
     * Sets status and error_message of the row with the id; processed_at
     * becomes `now` unless the new status is processing, which clears it.
     * An unknown id changes nothing and is not an error.
     */
    method UpdateStatus(id: int, status: UpdatableStatus, errorMessage: Option<string>, now: int)
      returns (r: Result<()>)
      requires Valid()
      modifies this
      ensures Valid() && initialized == old(initialized)
      ensures nextId == old(nextId) && issued == old(issued)
      ensures !old(initialized) ==> r == Err(NotInitialized) && rows == old(rows)
      ensures old(initialized) ==> r == Ok(())
      ensures old(initialized) ==>
                rows == SetStatusRow(old(rows), id, status, errorMessage, if status != Processing then Some(now) else None)
      ensures old(initialized) && (forall i :: 0 <= i < |old(rows)| ==> old(rows)[i].id != id) ==> rows == old(rows)
    {
      if !initialized {
        return Err(NotInitialized);
      }
      rows := SetStatusRow(rows, id, status, errorMessage, if status != Processing then Some(now) else None);
      r := Ok(());
    }

    /** Deletes the row with the id, if there is one. */
    method Remove(id: int) returns (r: Result<()>)
      requires Valid()
      modifies this
      ensures Valid() && initialized == old(initialized)
      ensures nextId == old(nextId) && issued == old(issued)
      ensures !old(initialized) ==> r == Err(NotInitialized) && rows == old(rows)
      ensures old(initialized) ==> r == Ok(()) && rows == DeleteRow(old(rows), id)
    {
      if !initialized {
        return Err(NotInitialized);
      }
      DeleteRowKeepsOrder(rows, id);
      rows := DeleteRow(rows, id);
      r := Ok(());
    }

    /**
     * Every row with the status, in rowid order. The source reads the rows
     * with `db.get`, which yields the first matching row only, while its
     * documentation and its caller expect the list; this is the list (see
     * GetStatusAsWritten).
     */
    method GetStatus(status: Status) returns (r: Result<seq<QueueItem>>)
      ensures !initialized ==> r == Err(NotInitialized)
      ensures initialized ==> r.Ok? && forall x :: x in r.value <==> x in rows && x.status == status
      ensures initialized ==> r == Ok(WithStatus(rows, status))
    {
      if !initialized {
        return Err(NotInitialized);
      }
      r := Ok(WithStatus(rows, status));
    }

    /** Every row, ordered by timestamp. */
    method ListAll() returns (r: Result<seq<QueueItem>>)
      ensures !initialized ==> r == Err(NotInitialized)
      ensures initialized ==> r.Ok? && SortedByTimestamp(r.value) && multiset(r.value) == multiset(rows)
      ensures initialized ==> r == Ok(ByTimestamp(rows))
    {
      if !initialized {
        return Err(NotInitialized);
      }
      r := Ok(ByTimestamp(rows));
    }

    /**
     * Returns every failed row with fewer than maxAttempts attempts to
     * pending, and reports how many rows that changed. attempts,
     * error_message and processed_at are left as they are.
     */
    method RetryFailed(maxAttempts: int) returns (r: Result<nat>)
      requires Valid()
      modifies this
      ensures Valid() && initialized == old(initialized)
      ensures nextId == old(nextId) && issued == old(issued)
      ensures !old(initialized) ==> r == Err(NotInitialized) && rows == old(rows)
      ensures old(initialized) ==> rows == RetryRows(old(rows), maxAttempts)
      ensures old(initialized) ==> r == Ok(Changed(old(rows), rows))
    {
      if !initialized {
        return Err(NotInitialized);
      }
      var changes := CountRetriable(rows, maxAttempts);
      RetryCountIsChanges(rows, maxAttempts);
      rows := RetryRows(rows, maxAttempts);
      r := Ok(changes);
    }

    /** Closes the handle if it is open; closing twice is harmless. The file keeps the rows. */
    method Close()
      requires Valid()
      modifies this
      ensures Valid() && !initialized
      ensures rows == old(rows) && nextId == old(nextId) && issued == old(issued)
    {
      if initialized {
        initialized := false;
      }
    }
  }
}
