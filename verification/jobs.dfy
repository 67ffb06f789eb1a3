/**
 Job documents: insertion (`add_job`), admission-controlled leasing by a
 worker (`acquire_jobs`), completion (`release_job`) and the read-once job
 result (`get_job_result`).
 */
module Jobs {
  import opened Wrappers
  import opened Sequences
  import opened DataStore
  import opened Admission

  /** Inserts a job; a taken id raises the duplicate-key error and writes nothing. */
  function AddJob(st: Store, job: Job): (r: Reply<Result<(), StoreError>>)
    ensures r.value.Err? <==> HasJob(st.jobs, job.id)
    ensures r.value.Err? ==> r.value.error == DuplicateKeyError(job.id) && r.store == st
    ensures r.value.Ok? ==> r.store == st.(jobs := st.jobs + [job],
      events := st.events + [JobAdded(job.id, job.taskId, job.scheduleId, job.tags)])
  {
    if HasJob(st.jobs, job.id) then Reply(st, Err(DuplicateKeyError(job.id)))
    else Reply(st.(jobs := st.jobs + [job], events := st.events + [JobAdded(job.id, job.taskId, job.scheduleId, job.tags)]),
               Ok(()))
  }

  /** Insertion keeps job ids unique. */
  lemma AddJobKeepsValid(st: Store, job: Job)
    requires Valid(st)
    ensures Valid(AddJob(st, job).store)
  {
    if !HasJob(st.jobs, job.id) {
      var ys := st.jobs + [job];
      forall i, j | 0 <= i < j < |ys|
        ensures ys[i].id != ys[j].id
      {
        if j == |st.jobs| {
          assert ys[i] == st.jobs[i];
        }
      }
    }
  }

  /** The `acquire_jobs` filter: no live lease, and the task is not one the caller ignores. */
  predicate Eligible(j: Job, now: Timestamp, ignored: Option<set<TaskId>>) {
    LeaseFree(j.acquiredUntil, now) && (ignored.None? || j.taskId !in ignored.value)
  }

  function CreatedKey(j: Job): int {
    j.createdAt
  }

  /**
   The candidate pool: eligible jobs in ascending order of creation time,
   cut to `limit` (0 means no limit).
   */
  function CandidatePool(jobs: seq<Job>, now: Timestamp, limit: nat, ignored: Option<set<TaskId>>): (r: seq<Job>)
    ensures limit > 0 ==> |r| <= limit
    ensures SortedBy(r, CreatedKey)
    ensures forall k :: 0 <= k < |r| ==> r[k] in jobs && Eligible(r[k], now, ignored)
    ensures forall j :: j in jobs && Eligible(j, now, ignored) && j !in r ==>
      limit > 0 && |r| == limit && forall k :: 0 <= k < |r| ==> r[k].createdAt <= j.createdAt
    ensures multiset(r) <= multiset(jobs)
  {
    Query(jobs, j => Eligible(j, now, ignored), CreatedKey, limit)
  }

  /** The job's own lease duration, unless it is missing or zero (Python's `or`), else the store default. */
  function EffectiveDelay(j: Job, defaultDelay: int): int {
    if j.lockExpirationDelay.Some? && j.lockExpirationDelay.value != 0 then j.lockExpirationDelay.value
    else defaultDelay
  }

  /** The stored copy of a job once a worker has acquired it at `now`. */
  function Started(j: Job, workerId: OwnerId, now: Timestamp, defaultDelay: int): Job {
    j.(acquiredBy := Some(workerId), acquiredUntil := Some(now + EffectiveDelay(j, defaultDelay)),
       startedAt := Some(now))
  }

  function JobIdsOf(js: seq<Job>): set<JobId> {
    set j | j in js :: j.id
  }

  function LeaseJobs(jobs: seq<Job>, ids: set<JobId>, workerId: OwnerId, now: Timestamp, defaultDelay: int)
    : (r: seq<Job>)
    ensures |r| == |jobs|
    ensures forall i :: 0 <= i < |jobs| ==> r[i].id == jobs[i].id
    ensures forall i :: 0 <= i < |jobs| && jobs[i].id in ids ==> r[i] == Started(jobs[i], workerId, now, defaultDelay)
    ensures forall i :: 0 <= i < |jobs| && jobs[i].id !in ids ==> r[i] == jobs[i]
  {
    seq(|jobs|, i requires 0 <= i < |jobs| =>
      if jobs[i].id in ids then Started(jobs[i], workerId, now, defaultDelay) else jobs[i])
  }

  /** `$inc` of `running_jobs` by the tallied amount; ids with no task document are not created. */
  function Increment(tasks: map<TaskId, TaskRecord>, inc: map<TaskId, nat>): (r: map<TaskId, TaskRecord>)
    ensures r.Keys == tasks.Keys
    ensures forall t :: t in tasks ==> r[t].def == tasks[t].def
    ensures forall t :: t in tasks ==> r[t].runningJobs == tasks[t].runningJobs + (if t in inc then inc[t] else 0)
  {
    map t | t in tasks :: if t in inc then tasks[t].(runningJobs := tasks[t].runningJobs + inc[t]) else tasks[t]
  }

  function AcquiredEvents(js: seq<Job>, workerId: OwnerId): (r: seq<Event>)
    ensures |r| == |js|
    ensures forall k :: 0 <= k < |js| ==> r[k] == JobAcquired(js[k].id, workerId)
  {
    seq(|js|, k requires 0 <= k < |js| => JobAcquired(js[k].id, workerId))
  }

  /**
   The jobs `acquire_jobs` hands out: the candidate pool walked by
   admission control against the slots each capped task has left. They
   keep the pool's FIFO order and are all eligible.
   */
  function SelectJobs(tasks: map<TaskId, TaskRecord>, jobs: seq<Job>, now: Timestamp, limit: nat,
                      ignored: Option<set<TaskId>>): (r: seq<Job>)
    ensures limit > 0 ==> |r| <= limit
    ensures SortedBy(r, CreatedKey)
    ensures forall k :: 0 <= k < |r| ==> r[k] in jobs && Eligible(r[k], now, ignored)
    ensures IsSubsequence(r, CandidatePool(jobs, now, limit, ignored))
  {
    var pool := CandidatePool(jobs, now, limit, ignored);
    var admitted := Admit(pool, SlotsLeft(tasks, pool));
    AdmitSubsequence(pool, SlotsLeft(tasks, pool));
    SubsequenceMembers(admitted, pool);
    SubsequenceSorted(admitted, pool, CreatedKey);
    admitted
  }

  /**
   Admission per task, as `acquire_jobs` hands jobs out: of the candidates
   task `t` has in the pool, the leading ones are selected, as many as its
   quota allows, or all of them when it has no quota (uncapped, no task
   document, or already over its cap).
   */
  lemma SelectJobsPerTask(tasks: map<TaskId, TaskRecord>, jobs: seq<Job>, now: Timestamp, limit: nat,
                          ignored: Option<set<TaskId>>, t: TaskId)
    ensures var pool := OfTask(CandidatePool(jobs, now, limit, ignored), t);
            var picked := OfTask(SelectJobs(tasks, jobs, now, limit, ignored), t);
            picked <= pool &&
            |picked| == if Quota(tasks, t).Some? && Quota(tasks, t).value < |pool| then Quota(tasks, t).value else |pool|
  {
    AdmitTaskRecord(tasks, CandidatePool(jobs, now, limit, ignored), t);
  }

  /**
   Acquires jobs for `workerId`: admits from the candidate pool what the
   per-task slots allow, leases the admitted jobs, raises each task's
   `running_jobs` by its number of admissions and announces a JobAcquired
   per admitted job. The returned copies are the documents as read, before
   the lease was written.
   */
  function AcquireJobs(st: Store, now: Timestamp, workerId: OwnerId, limit: nat, ignored: Option<set<TaskId>>,
                       defaultDelay: int): (r: Reply<seq<Job>>)
    ensures r.store.schedules == st.schedules && r.store.results == st.results
    ensures r.value == SelectJobs(st.tasks, st.jobs, now, limit, ignored)
    ensures |r.store.jobs| == |st.jobs|
    ensures forall i :: 0 <= i < |st.jobs| && st.jobs[i].id in JobIdsOf(r.value) ==>
      r.store.jobs[i] == Started(st.jobs[i], workerId, now, defaultDelay)
    ensures forall i :: 0 <= i < |st.jobs| && st.jobs[i].id !in JobIdsOf(r.value) ==> r.store.jobs[i] == st.jobs[i]
    ensures r.store.tasks.Keys == st.tasks.Keys
    ensures forall t :: t in st.tasks ==>
      r.store.tasks[t].def == st.tasks[t].def &&
      r.store.tasks[t].runningJobs == st.tasks[t].runningJobs + |OfTask(r.value, t)|
    ensures r.store.events == st.events + AcquiredEvents(r.value, workerId)
  {
    var admitted := SelectJobs(st.tasks, st.jobs, now, limit, ignored);
    var jobs := LeaseJobs(st.jobs, JobIdsOf(admitted), workerId, now, defaultDelay);
    var tasks := Increment(st.tasks, Tally(admitted));
    Reply(st.(jobs := jobs, tasks := tasks, events := st.events + AcquiredEvents(admitted, workerId)), admitted)
  }

  /**
   The counter invariant: a task that respected its cap before an
   acquisition still respects it afterwards.
   */
  lemma AcquireJobsKeepsCeiling(st: Store, now: Timestamp, workerId: OwnerId, limit: nat,
                                ignored: Option<set<TaskId>>, defaultDelay: int, t: TaskId)
    requires t in st.tasks && st.tasks[t].def.maxRunningJobs.Some?
    requires st.tasks[t].runningJobs <= st.tasks[t].def.maxRunningJobs.value
    ensures AcquireJobs(st, now, workerId, limit, ignored, defaultDelay).store.tasks[t].runningJobs
            <= st.tasks[t].def.maxRunningJobs.value
  {
    var pool := CandidatePool(st.jobs, now, limit, ignored);
    var sel := SelectJobs(st.tasks, st.jobs, now, limit, ignored);
    AdmitTaskRecord(st.tasks, pool, t);
    assert Quota(st.tasks, t) == Some(st.tasks[t].def.maxRunningJobs.value - st.tasks[t].runningJobs);
    var r := AcquireJobs(st, now, workerId, limit, ignored, defaultDelay);
    assert r.store.tasks[t].runningJobs == st.tasks[t].runningJobs + |OfTask(sel, t)|;
  }

  /**
   A job just acquired cannot be acquired again, by any worker, until its
   lease has run out: the second call returns it only at a time past
   `now + EffectiveDelay`.
   */
  lemma JobLeaseExclusive(st: Store, now: Timestamp, a: OwnerId, limit: nat, ignored: Option<set<TaskId>>,
                          defaultDelay: int, now2: Timestamp, b: OwnerId, limit2: nat,
                          ignored2: Option<set<TaskId>>)
    requires Valid(st)
    ensures var first := AcquireJobs(st, now, a, limit, ignored, defaultDelay);
            var second := AcquireJobs(first.store, now2, b, limit2, ignored2, defaultDelay);
            forall k, m :: 0 <= k < |second.value| && 0 <= m < |first.value| && second.value[k].id == first.value[m].id
              ==> now2 > now + EffectiveDelay(first.value[m], defaultDelay)
  {
    var first := AcquireJobs(st, now, a, limit, ignored, defaultDelay);
    var second := AcquireJobs(first.store, now2, b, limit2, ignored2, defaultDelay);
    forall k, m | 0 <= k < |second.value| && 0 <= m < |first.value| && second.value[k].id == first.value[m].id
      ensures now2 > now + EffectiveDelay(first.value[m], defaultDelay)
    {
      LeasedJobIsBusy(st.jobs, first.store.jobs, first.value, a, now, defaultDelay, second.value[k], first.value[m], now2);
    }
  }

  lemma LeasedJobIsBusy(jobs: seq<Job>, jobs': seq<Job>, admitted: seq<Job>, a: OwnerId, now: Timestamp,
                        defaultDelay: int, x: Job, y: Job, now2: Timestamp)
    requires UniqueJobIds(jobs) && |jobs'| == |jobs|
    requires forall i :: 0 <= i < |jobs| && jobs[i].id in JobIdsOf(admitted) ==>
      jobs'[i] == Started(jobs[i], a, now, defaultDelay)
    requires forall i :: 0 <= i < |jobs| && jobs[i].id !in JobIdsOf(admitted) ==> jobs'[i] == jobs[i]
    requires y in admitted && y in jobs && x in jobs' && x.id == y.id && LeaseFree(x.acquiredUntil, now2)
    ensures now2 > now + EffectiveDelay(y, defaultDelay)
  {
    var i :| 0 <= i < |jobs'| && jobs'[i] == x;
    var j :| 0 <= j < |jobs| && jobs[j] == y;
    assert y.id in JobIdsOf(admitted);
    assert jobs'[i].id == jobs[i].id;
    assert i == j;
  }

  /**
   In a valid store, a job that is not handed out keeps its stored document
   unchanged, including any expired lease and start time it carried.
   */
  lemma SkippedJobKeepsDocument(st: Store, now: Timestamp, workerId: OwnerId, limit: nat,
                                ignored: Option<set<TaskId>>, defaultDelay: int, i: nat)
    requires Valid(st) && i < |st.jobs|
    requires st.jobs[i] !in AcquireJobs(st, now, workerId, limit, ignored, defaultDelay).value
    ensures AcquireJobs(st, now, workerId, limit, ignored, defaultDelay).store.jobs[i] == st.jobs[i]
  {
    var r := AcquireJobs(st, now, workerId, limit, ignored, defaultDelay);
    UnadmittedUnchanged(st.jobs, r.store.jobs, r.value, i);
  }

  lemma UnadmittedUnchanged(jobs: seq<Job>, jobs': seq<Job>, admitted: seq<Job>, i: nat)
    requires UniqueJobIds(jobs) && |jobs'| == |jobs| && i < |jobs|
    requires forall k :: 0 <= k < |admitted| ==> admitted[k] in jobs
    requires forall i :: 0 <= i < |jobs| && jobs[i].id !in JobIdsOf(admitted) ==> jobs'[i] == jobs[i]
    requires jobs[i] !in admitted
    ensures jobs'[i] == jobs[i]
  {
    forall y | y in admitted
      ensures y.id != jobs[i].id
    {
      var j :| 0 <= j < |jobs| && jobs[j] == y;
      assert j != i;
    }
  }

  /** Acquisition keeps job ids unique and tasks filed under their ids. */
  lemma AcquireJobsKeepsValid(st: Store, now: Timestamp, workerId: OwnerId, limit: nat,
                              ignored: Option<set<TaskId>>, defaultDelay: int)
    requires Valid(st)
    ensures Valid(AcquireJobs(st, now, workerId, limit, ignored, defaultDelay).store)
  {
  }

  /** An acquisition that admits no job leaves the store exactly as it was: no lease, no counter, no event. */
  lemma EmptyAcquisitionKeepsStore(st: Store, now: Timestamp, workerId: OwnerId, limit: nat,
                                   ignored: Option<set<TaskId>>, defaultDelay: int)
    requires AcquireJobs(st, now, workerId, limit, ignored, defaultDelay).value == []
    ensures AcquireJobs(st, now, workerId, limit, ignored, defaultDelay).store == st
  {
    var r := AcquireJobs(st, now, workerId, limit, ignored, defaultDelay);
    UnleasedJobsUnchanged(st.jobs, r.store.jobs, JobIdsOf(r.value));
    UncountedTasksUnchanged(st.tasks, r.store.tasks, r.value);
  }

  lemma UnleasedJobsUnchanged(jobs: seq<Job>, jobs': seq<Job>, ids: set<JobId>)
    requires ids == {} && |jobs'| == |jobs|
    requires forall i :: 0 <= i < |jobs| && jobs[i].id !in ids ==> jobs'[i] == jobs[i]
    ensures jobs' == jobs
  {
  }

  lemma UncountedTasksUnchanged(tasks: map<TaskId, TaskRecord>, tasks': map<TaskId, TaskRecord>, admitted: seq<Job>)
    requires admitted == [] && tasks'.Keys == tasks.Keys
    requires forall t :: t in tasks ==>
      tasks'[t].def == tasks[t].def && tasks'[t].runningJobs == tasks[t].runningJobs + |OfTask(admitted, t)|
    ensures tasks' == tasks
  {
    assert forall t :: t in tasks ==> tasks'[t] == tasks[t];
  }

  /** `delete_one` by id: removes the first job carrying `id`, if any. */
  function DeleteJob(jobs: seq<Job>, id: JobId): (r: seq<Job>)
    ensures HasJob(jobs, id) ==> |r| == |jobs| - 1
    ensures !HasJob(jobs, id) ==> r == jobs
    ensures IsSubsequence(r, jobs)
  {
    if jobs == [] then []
    else if jobs[0].id == id then
      assert IsSubsequence(jobs[1..], jobs[1..]) by { PrefixIsSubsequence(jobs[1..], jobs[1..]); }
      jobs[1..]
    else
      var rest := DeleteJob(jobs[1..], id);
      assert HasJob(jobs, id) <==> HasJob(jobs[1..], id) by {
        if HasJob(jobs, id) {
          var i :| 0 <= i < |jobs| && jobs[i].id == id;
          assert jobs[1..][i - 1] == jobs[i];
        }
        if HasJob(jobs[1..], id) {
          var i :| 0 <= i < |jobs[1..]| && jobs[1..][i].id == id;
          assert jobs[i + 1] == jobs[1..][i];
        }
      }
      assert jobs == [jobs[0]] + jobs[1..];
      [jobs[0]] + rest
  }

  /**
   Finishes a job: stores its result unless it is already expired or the
   job already has one (the duplicate is swallowed), deletes the job and,
   only if a job was deleted, decrements the given task's `running_jobs`.
   The worker id plays no part. No event is published.
   */
  function ReleaseJob(st: Store, workerId: OwnerId, taskId: TaskId, result: JobResult): (r: Reply<()>)
    ensures r.store.schedules == st.schedules && r.store.events == st.events
    ensures result.jobId in st.results || result.expiresAt <= result.finishedAt ==> r.store.results == st.results
    ensures result.jobId !in st.results && result.expiresAt > result.finishedAt ==>
      r.store.results == st.results[result.jobId := result]
    ensures |r.store.jobs| == |st.jobs| - (if HasJob(st.jobs, result.jobId) then 1 else 0)
    ensures IsSubsequence(r.store.jobs, st.jobs)
    ensures r.store.tasks.Keys == st.tasks.Keys
    ensures forall t :: t in st.tasks ==> r.store.tasks[t].def == st.tasks[t].def
    ensures forall t :: t in st.tasks ==>
      (r.store.tasks[t].runningJobs ==
       st.tasks[t].runningJobs - (if t == taskId && HasJob(st.jobs, result.jobId) then 1 else 0))
  {
    var results := if result.expiresAt > result.finishedAt && result.jobId !in st.results
                   then st.results[result.jobId := result] else st.results;
    var deleted := HasJob(st.jobs, result.jobId);
    var tasks := if deleted && taskId in st.tasks
                 then st.tasks[taskId := st.tasks[taskId].(runningJobs := st.tasks[taskId].runningJobs - 1)]
                 else st.tasks;
    Reply(st.(results := results, jobs := DeleteJob(st.jobs, result.jobId), tasks := tasks), ())
  }

  /** In a valid store, a released job is gone afterwards. */
  lemma ReleaseJobDeletes(st: Store, workerId: OwnerId, taskId: TaskId, result: JobResult)
    requires Valid(st)
    ensures !HasJob(ReleaseJob(st, workerId, taskId, result).store.jobs, result.jobId)
  {
    DeleteJobRemovesId(st.jobs, result.jobId);
  }

  lemma {:induction false} DeleteJobRemovesId(jobs: seq<Job>, id: JobId)
    requires UniqueJobIds(jobs)
    ensures !HasJob(DeleteJob(jobs, id), id)
  {
    if jobs != [] {
      if jobs[0].id != id {
        assert UniqueJobIds(jobs[1..]) by {
          forall i, j | 0 <= i < j < |jobs[1..]|
            ensures jobs[1..][i].id != jobs[1..][j].id
          {
            assert jobs[1..][i] == jobs[i + 1] && jobs[1..][j] == jobs[j + 1];
          }
        }
        DeleteJobRemovesId(jobs[1..], id);
      }
    }
  }

  /** Returns the job's result and deletes it; a missing result is None, not an error. */
  function GetJobResult(st: Store, jobId: JobId): (r: Reply<Option<JobResult>>)
    ensures r.value.Some? <==> jobId in st.results
    ensures r.value.Some? ==> r.value.value == st.results[jobId]
    ensures r.store == st.(results := st.results - {jobId})
  {
    if jobId in st.results then Reply(st.(results := st.results - {jobId}), Some(st.results[jobId]))
    else Reply(st, None)
  }

  /** A result can be read once: an immediate second read finds nothing. */
  lemma ResultReadOnce(st: Store, jobId: JobId)
    ensures GetJobResult(GetJobResult(st, jobId).store, jobId).value == None
  {
  }

  /** A result stored by `release_job` is what the next read returns. */
  lemma ReleaseThenReadResult(st: Store, workerId: OwnerId, taskId: TaskId, result: JobResult)
    requires result.expiresAt > result.finishedAt && result.jobId !in st.results
    ensures GetJobResult(ReleaseJob(st, workerId, taskId, result).store, result.jobId).value == Some(result)
  {
  }

  /** Completion and result reads keep the store invariant. */
  lemma CompletionKeepsValid(st: Store, workerId: OwnerId, taskId: TaskId, result: JobResult, jobId: JobId)
    requires Valid(st)
    ensures Valid(ReleaseJob(st, workerId, taskId, result).store)
    ensures Valid(GetJobResult(st, jobId).store)
  {
    var jobs := ReleaseJob(st, workerId, taskId, result).store.jobs;
    UniqueJobSubsequence(jobs, st.jobs);
  }

  lemma {:induction false} UniqueJobSubsequence(a: seq<Job>, b: seq<Job>)
    requires IsSubsequence(a, b)
    requires UniqueJobIds(b)
    ensures UniqueJobIds(a)
    decreases |b|
  {
    if a != [] {
      assert UniqueJobIds(b[1..]) by {
        forall i, j | 0 <= i < j < |b[1..]|
          ensures b[1..][i].id != b[1..][j].id
        {
          assert b[1..][i] == b[i + 1] && b[1..][j] == b[j + 1];
        }
      }
      if a[0] == b[0] && IsSubsequence(a[1..], b[1..]) {
        UniqueJobSubsequence(a[1..], b[1..]);
        SubsequenceMembers(a[1..], b[1..]);
        forall i, j | 0 <= i < j < |a|
          ensures a[i].id != a[j].id
        {
          assert a[j] == a[1..][j - 1];
          if i == 0 {
            var m :| 0 <= m < |b[1..]| && b[1..][m] == a[j];
            assert b[m + 1] == a[j];
          } else {
            assert a[i] == a[1..][i - 1];
          }
        }
      } else {
        UniqueJobSubsequence(a, b[1..]);
      }
    }
  }
}
