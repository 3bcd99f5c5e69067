/**
 * The single-flight coordinator around the job store.
 *
 * Calls are taken one after another: the promises the source does not await
 * (initialize in start, processQueue in newJob, updateStatus in
 * processQueue) run to completion at the point they are issued, and a
 * rejection of theirs reaches nobody. Each clock reading is a parameter.
 */
module Service {
  import opened QueueTable
  import opened Queue

  /** How a processQueue call settles: no value, the job it took, or a rejection. */
  datatype ProcessResult = Skipped | Done(job: QueueItem) | Threw(message: string)

  /** The text of an Error object in a string concatenation: "Error: " and its message. */
  function ErrorText(message: string): (t: string)
    ensures |t| > |message| && t[|t| - |message|..] == message
  {
    "Error: " + message
  }

  /**
   * JSON.stringify of an Error object: its message and stack are not
   * enumerable properties, so the text is that of an empty object.
   */
  function ErrorJson(message: string): (t: string)
    ensures t != ""
  {
    "{}"
  }

  const QueueEmpty: string := "Queue is empty"

  class PosseidonService {
    const queue: SqliteQueue
    /** The pending rows of the last read, or null before the first one. */
    var jobs: Option<seq<QueueItem>>
    var jobStatus: Status
    /** Set while processQueue works on a job. */
    var processingFlag: bool

    ghost predicate Valid()
      reads this, queue
    {
      queue.Valid()
    }

    constructor ()
      ensures Valid() && fresh(queue)
      ensures !queue.initialized && queue.rows == []
      ensures jobs == None && jobStatus == Pending && !processingFlag
    {
      queue := new SqliteQueue();
      jobs := None;
      jobStatus := Pending;
      processingFlag := false;
    }

    /** Opens the store and clears the busy flag. */
    method Start()
      requires Valid()
      modifies this, queue
      ensures Valid() && queue.initialized && !processingFlag
      ensures queue.rows == old(queue.rows) && queue.nextId == old(queue.nextId)
      ensures queue.issued == old(queue.issued)
      ensures jobs == old(jobs) && jobStatus == old(jobStatus)
    {
      queue.Initialize();
      processingFlag := false;
    }

    /**
     * Enqueues the job, then runs processQueue, whose outcome does not reach
     * the caller. Only a failure of the enqueue is reported, wrapped as
     * "Error creating job: Error: <message>".
     */
    method NewJob(job: NewItem, enqueuedAt: int, processedAt: int) returns (r: Result<()>)
      requires Valid()
      modifies this, queue
      ensures Valid() && queue.initialized == old(queue.initialized)
      ensures processingFlag == (old(processingFlag) && !old(queue.initialized))
      ensures !old(queue.initialized) ==> r == Err("Error creating job: " + ErrorText(NotInitialized))
      ensures !old(queue.initialized) ==> queue.rows == old(queue.rows) && queue.nextId == old(queue.nextId)
      ensures !old(queue.initialized) ==> queue.issued == old(queue.issued)
      ensures !old(queue.initialized) ==> jobStatus == Pending && jobs == old(jobs)
      ensures old(queue.initialized) ==> r == Ok(()) && queue.nextId == old(queue.nextId) + 1
      ensures old(queue.initialized) ==> queue.issued == old(queue.issued) + {old(queue.nextId)}
      ensures old(queue.initialized) && old(processingFlag) ==>
                queue.rows == old(queue.rows) + [NewRow(old(queue.nextId), enqueuedAt, job)]
                && jobStatus == Pending && jobs == old(jobs)
      ensures old(queue.initialized) && !old(processingFlag) ==>
                var enqueued := old(queue.rows) + [NewRow(old(queue.nextId), enqueuedAt, job)];
                && queue.rows == CompleteFirstPending(enqueued, processedAt)
                && jobs == Some(WithStatus(enqueued, Pending))
                && jobStatus == Completed
    {
      jobStatus := Pending;
      var enqueued := queue.Enqueue(job, enqueuedAt);
      if enqueued.Err? {
        return Err("Error creating job: " + ErrorText(enqueued.message));
      }
      ghost var table := queue.rows;
      assert NewRow(old(queue.nextId), enqueuedAt, job) in WithStatus(table, Pending);
      var _ := ProcessQueue(processedAt);
      r := Ok(());
    }

    /**
     * The single-flight step. With the flag set it does nothing but clear
     * the flag. Otherwise it sets the flag, reads the pending rows and takes
     * the first; the processing itself is not there to model, so the job is
     * marked completed at `now` and returned as it was read. With no pending
     * row, or with the store closed, it marks the job it still holds from an
     * earlier read failed (which only takes effect on an open store), sets
     * the job status to failed and rejects with "Error processing queue: "
     * and the error's text. The flag is clear whatever the outcome.
     */
    method ProcessQueue(now: int) returns (r: ProcessResult)
      requires Valid()
      modifies this, queue
      ensures Valid() && !processingFlag
      ensures queue.initialized == old(queue.initialized) && queue.nextId == old(queue.nextId)
      ensures queue.issued == old(queue.issued)
      ensures old(processingFlag) ==>
                r == Skipped && queue.rows == old(queue.rows) && jobs == old(jobs) && jobStatus == old(jobStatus)
      ensures !old(processingFlag) && !old(queue.initialized) ==>
                && r == Threw("Error processing queue: " + ErrorText(NotInitialized))
                && queue.rows == old(queue.rows) && jobs == old(jobs) && jobStatus == Failed
      ensures !old(processingFlag) && old(queue.initialized) ==>
                jobs == Some(WithStatus(old(queue.rows), Pending))
      ensures !old(processingFlag) && old(queue.initialized) && WithStatus(old(queue.rows), Pending) == [] ==>
                && r == Threw("Error processing queue: " + ErrorText(QueueEmpty))
                && queue.rows == old(queue.rows) && jobStatus == Failed
      ensures !old(processingFlag) && old(queue.initialized) && WithStatus(old(queue.rows), Pending) != [] ==>
                && r == Done(WithStatus(old(queue.rows), Pending)[0])
                && queue.rows == CompleteFirstPending(old(queue.rows), now)
                && jobStatus == Completed
    {
      if processingFlag {
        processingFlag := false;
        return Skipped;
      }
      processingFlag := true;
      var read := queue.GetStatus(Pending);
      if read.Err? {
        r := Fail(read.message, now);
      } else {
        jobs := Some(read.value);
        if read.value == [] {
          r := Fail(QueueEmpty, now);
        } else {
          var job := read.value[0];
          jobStatus := Processing;
          jobStatus := Completed;
          var _ := queue.UpdateStatus(job.id, Completed, None, now);
          r := Done(job);
        }
      }
      processingFlag := false;
    }

    /**
     * The catch block of processQueue: the job status becomes failed, the
     * first job of the last read (if any) is marked failed with the error
     * serialised as its message, and the rejection carries the error's text.
     */
    method Fail(error: string, now: int) returns (r: ProcessResult)
      requires Valid()
      modifies this, queue
      ensures Valid() && jobStatus == Failed && jobs == old(jobs) && processingFlag == old(processingFlag)
      ensures r == Threw("Error processing queue: " + ErrorText(error))
      ensures queue.initialized == old(queue.initialized) && queue.nextId == old(queue.nextId)
      ensures queue.issued == old(queue.issued)
      ensures old(queue.initialized) && jobs.Some? && jobs.value != [] ==>
                queue.rows == SetStatusRow(old(queue.rows), jobs.value[0].id, Failed, Some(ErrorJson(error)), Some(now))
      ensures !old(queue.initialized) || jobs.None? || jobs.value == [] ==> queue.rows == old(queue.rows)
    {
      jobStatus := Failed;
      if jobs.Some? && jobs.value != [] {
        var _ := queue.UpdateStatus(jobs.value[0].id, Failed, Some(ErrorJson(error)), now);
      }
      r := Threw("Error processing queue: " + ErrorText(error));
    }
  }
}
