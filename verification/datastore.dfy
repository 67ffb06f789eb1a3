/**
 The abstract state of the MongoDB-backed data store: four collections (tasks,
 schedules, jobs, job results) and the log of events published to the event
 broker. Timestamps are integer seconds; ids are strings.
 */
module DataStore {
  import opened Wrappers

  type TaskId = string
  type ScheduleId = string
  type JobId = string
  /** Identity of a scheduler or a worker holding a lease. */
  type OwnerId = string
  type Timestamp = int
  /** A trigger as stored in a schedule document; its meaning is the trigger engine's. */
  type Trigger = string
  /** Document fields the core only stores and returns (callable, executor, outcome, ...). */
  type Payload = string

  /** The fields of a task document that `add_task` writes and `get_task` returns. */
  datatype TaskDef = TaskDef(id: TaskId, maxRunningJobs: Option<int>, settings: Payload)

  /** A stored task: its definition plus the store-side `running_jobs` counter. */
  datatype TaskRecord = TaskRecord(def: TaskDef, runningJobs: int)

  /**
   A schedule document. `triggerSerializable` stands for whether the
   serializer accepts the trigger; an unset lease is an absent field (`None`).
   */
  datatype Schedule = Schedule(
    id: ScheduleId,
    taskId: TaskId,
    trigger: Trigger,
    triggerSerializable: bool,
    nextFireTime: Option<Timestamp>,
    acquiredBy: Option<OwnerId>,
    acquiredUntil: Option<Timestamp>)

  /** A job document. */
  datatype Job = Job(
    id: JobId,
    taskId: TaskId,
    scheduleId: Option<ScheduleId>,
    tags: set<string>,
    createdAt: Timestamp,
    lockExpirationDelay: Option<int>,
    acquiredBy: Option<OwnerId>,
    acquiredUntil: Option<Timestamp>,
    startedAt: Option<Timestamp>)

  /** A job result document, keyed by the id of the job it belongs to. */
  datatype JobResult = JobResult(jobId: JobId, outcome: Payload, finishedAt: Timestamp, expiresAt: Timestamp)

  /** The events the store publishes after a mutation. */
  datatype Event =
    | TaskAdded(taskId: TaskId)
    | TaskUpdated(taskId: TaskId)
    | TaskRemoved(taskId: TaskId)
    | ScheduleAdded(scheduleId: ScheduleId, nextFireTime: Option<Timestamp>)
    | ScheduleUpdated(scheduleId: ScheduleId, nextFireTime: Option<Timestamp>)
    | ScheduleRemoved(scheduleId: ScheduleId)
    | JobAdded(jobId: JobId, taskId: TaskId, fromSchedule: Option<ScheduleId>, tags: set<string>)
    | JobAcquired(jobId: JobId, workerId: OwnerId)

  /** The errors the store raises to its callers. */
  datatype StoreError =
    | TaskLookupError(taskId: TaskId)
    | ConflictingIdError(scheduleId: ScheduleId)
    | SerializationError(scheduleId: ScheduleId)
    | DuplicateKeyError(jobId: JobId)

  /**
   The whole store. Schedules and jobs are kept in storage order, which is
   the order a query without a sort key, or with tied sort keys, yields.
   */
  datatype Store = Store(
    tasks: map<TaskId, TaskRecord>,
    schedules: seq<Schedule>,
    jobs: seq<Job>,
    results: map<JobId, JobResult>,
    events: seq<Event>)

  /** The state after an operation together with what it returns or raises. */
  datatype Reply<T> = Reply(store: Store, value: T)

  /**
   The lease filter shared by schedule and job acquisition: no lease is
   recorded, or the recorded one ended strictly before `now`.
   */
  predicate LeaseFree(acquiredUntil: Option<Timestamp>, now: Timestamp) {
    acquiredUntil.None? || acquiredUntil.value < now
  }

  /** Every document of a collection has its own `_id`. */
  ghost predicate UniqueScheduleIds(xs: seq<Schedule>) {
    forall i, j :: 0 <= i < j < |xs| ==> xs[i].id != xs[j].id
  }

  ghost predicate UniqueJobIds(xs: seq<Job>) {
    forall i, j :: 0 <= i < j < |xs| ==> xs[i].id != xs[j].id
  }

  /**
   The store invariant: ids are unique within each collection, and a task
   or result is filed under its own id.
   */
  ghost predicate Valid(st: Store) {
    && UniqueScheduleIds(st.schedules)
    && UniqueJobIds(st.jobs)
    && (forall t :: t in st.tasks ==> st.tasks[t].def.id == t)
    && (forall k :: k in st.results ==> st.results[k].jobId == k)
  }

  predicate HasSchedule(xs: seq<Schedule>, id: ScheduleId) {
    exists i :: 0 <= i < |xs| && xs[i].id == id
  }

  predicate HasJob(xs: seq<Job>, id: JobId) {
    exists i :: 0 <= i < |xs| && xs[i].id == id
  }

  /** Everything but the task collection and the event log is as before. */
  ghost predicate OnlyTasksChanged(st: Store, st': Store) {
    st'.schedules == st.schedules && st'.jobs == st.jobs && st'.results == st.results
  }

  /** Everything but the schedule collection and the event log is as before. */
  ghost predicate OnlySchedulesChanged(st: Store, st': Store) {
    st'.tasks == st.tasks && st'.jobs == st.jobs && st'.results == st.results
  }
}
