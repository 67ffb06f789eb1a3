# Lease and admission protocol of the MongoDB data store

A Dafny model of the decision logic in `AsyncMongoDBDataStore`, the
MongoDB-backed data store of APScheduler. Schedulers lease due schedules
from the store, and workers lease jobs from it. The store tracks, per task,
how many jobs are running, and admits new jobs only while a capped task has
slots left. Finished jobs leave a result that can be read once.

Each public coroutine is one atomic transition on an immutable `Store`. The
store holds four collections and the log of published events:

- tasks and job results are maps keyed by id;
- schedules and jobs are sequences in storage order;
- events are an append-only sequence.

Time is an explicit integer `now` passed by the caller. Errors the source
raises become `Err` values of a `Result`, and the store is unchanged after
an error.

Modules:

- `Wrappers`: `Option` and `Result`.
- `Sequences`: filter, stable sort and limit, i.e. a cursor's
  `find(...).sort(...).limit(...)` (`Query`), and order-preserving
  subsequences.
- `DataStore`: the documents, events, errors, the store and its invariant
  `Valid` (unique ids per collection).
- `Tasks`: `add_task`, `remove_task`, `get_task`.
- `Schedules`: `add_schedule`, `remove_schedules`, `acquire_schedules`,
  `get_next_schedule_run_time`.
- `ScheduleRelease`: `release_schedules`. It is modelled twice: once as
  written, and once with the loop's write placement corrected (see Findings).
- `Admission`: the per-task slot walk of `acquire_jobs`.
- `Jobs`: `add_job`, `acquire_jobs`, `release_job`, `get_job_result`.
- `Scenarios`: worked examples on small concrete stores.

Two behaviours of the code that are easy to miss:

- `release_schedules` publishes one event for every schedule passed in,
  whether or not the owner-guarded write matched a stored document. All
  ScheduleUpdated events come first, then all ScheduleRemoved events.
- `release_job` publishes no event and never looks at the worker id.

## Model

All source paths are `src/apscheduler/datastores/async_mongodb.py`.

| member | source | states |
|---|---|---|
| Tasks.AddTask | src/apscheduler/datastores/async_mongodb.py:138-153 | Upserts the definition. `running_jobs` is 0 on first insert and kept on update. Other tasks and other collections are unchanged. TaskUpdated is published when the task existed, TaskAdded otherwise. |
| Tasks.RemoveTask | src/apscheduler/datastores/async_mongodb.py:155-161 | Succeeds exactly when the task exists; the task is then gone and TaskRemoved is published. A missing task gives TaskLookupError and changes nothing. |
| Tasks.GetTask | src/apscheduler/datastores/async_mongodb.py:163-176 | Returns the stored definition exactly when the task exists, TaskLookupError otherwise. |
| Tasks.AddThenGetTask | src/apscheduler/datastores/async_mongodb.py:138-176 | Reading a task back after adding it returns the added definition. |
| Tasks.RemoveThenGetTask | src/apscheduler/datastores/async_mongodb.py:155-172 | After a successful removal, both a lookup and a second removal raise TaskLookupError. |
| Tasks.TaskOperationsKeepValid | src/apscheduler/datastores/async_mongodb.py:138-161 | Upsert and removal keep every task filed under its own id. |
| Schedules.AddSchedule | src/apscheduler/datastores/async_mongodb.py:209-237 | Succeeds exactly when the trigger serializes and the id is not taken under the `exception` policy. An unserializable trigger raises before any write. A fresh id is appended and publishes ScheduleAdded. A taken id under `exception` raises ConflictingIdError with the store unchanged. Under `replace` the stored document with that id is swapped for the new one in place, and one ScheduleUpdated is published. Under `do_nothing` nothing changes. |
| Schedules.ReplacedIsFound | src/apscheduler/datastores/async_mongodb.py:222-227 | After a replace, looking up the id finds exactly the new schedule. |
| Schedules.ConflictOutcomes | src/apscheduler/datastores/async_mongodb.py:219-232 | Under a taken id: `exception` gives an error and no change, `replace` publishes exactly one event, and `do_nothing` changes nothing. |
| Schedules.AddScheduleKeepsValid | src/apscheduler/datastores/async_mongodb.py:213-218 | Insertion keeps schedule ids unique. |
| Schedules.RemoveSchedules | src/apscheduler/datastores/async_mongodb.py:239-251 | Exactly the unselected schedules remain, in storage order. No ids means every schedule is selected. The events appended are one ScheduleRemoved per selected schedule, in storage order, so the event count plus the kept count equals the old count. |
| Schedules.RemoveSchedulesKeepsValid | src/apscheduler/datastores/async_mongodb.py:239-248 | Removal keeps schedule ids unique. |
| Sequences.Query | src/apscheduler/datastores/async_mongodb.py:258-274 | A cursor's filter, sort and limit: at most `limit` results (0 means no limit), sorted by the key, all drawn from the input and passing the filter, with no element returned more often than it is stored. A passing element is left out only when `limit` results that sort no later were returned. |
| Schedules.PickDue | src/apscheduler/datastores/async_mongodb.py:258-274 | The schedules acquisition selects: at most `limit`, ascending by fire time, each a stored schedule (none returned twice) with a fire time before `now` and no live lease. A due schedule is left out only when the limit is reached by schedules firing no later. |
| Schedules.AcquireSchedules | src/apscheduler/datastores/async_mongodb.py:253-294 | Returns the selected schedules as read. Each stored schedule with a returned id is stamped with `acquired_by = scheduler_id` and `acquired_until = now + delay`. All other schedules, the other collections and the event log are unchanged. |
| Schedules.AcquireLeasesPicked | src/apscheduler/datastores/async_mongodb.py:285-292 | After an acquisition, every stored schedule carrying a returned id is leased until `now + delay`. With ScheduleLeaseExclusive: a second acquisition by any scheduler before that lease runs out returns none of them. |
| Schedules.ScheduleLeaseExclusive | src/apscheduler/datastores/async_mongodb.py:258-274 | An acquisition at a time no later than the lease end of some stored schedules returns none of them, whoever holds the lease. |
| Schedules.AcquireSchedulesKeepsValid | src/apscheduler/datastores/async_mongodb.py:285-292 | Lease stamping keeps schedule ids unique. |
| Schedules.GetNextScheduleRunTime | src/apscheduler/datastores/async_mongodb.py:351-363 | None exactly when no stored schedule has a fire time. Otherwise it is the fire time of some stored schedule and no later than any other; leases are ignored. |
| ScheduleRelease.RequestFor | src/apscheduler/datastores/async_mongodb.py:304-332 | A schedule passed to release becomes an update request exactly when it has a fire time and a serializable trigger, and a delete request otherwise. Either request targets the schedule's id; an update writes the schedule's own trigger and next fire time. |
| ScheduleRelease.ReleaseEvents | src/apscheduler/datastores/async_mongodb.py:304-349 | One event per schedule passed. The events are the ScheduleUpdated (with its fire time) of each re-armed schedule in input order, followed by the ScheduleRemoved of each retired schedule in input order; as a multiset they are the per-schedule announcements. |
| ScheduleRelease.ReleaseSchedules | src/apscheduler/datastores/async_mongodb.py:296-349 | Intended release, every request written once. Only the schedule collection and the event log change. A stored schedule the scheduler does not hold, or that was not passed, is unchanged. In a valid store, a held schedule passed once is re-armed from the caller's copy (lease cleared) when it has a fire time and a serializable trigger, and deleted otherwise. Exactly one event per schedule passed is appended: the ScheduleUpdated of re-armed schedules in input order, then the ScheduleRemoved of retired ones in input order. |
| ScheduleRelease.RequestsLeaveOthersAlone | src/apscheduler/datastores/async_mongodb.py:304-340 | Ownership guard: a stored schedule the releasing scheduler does not hold, or one it did not pass, comes out of the written requests unchanged. |
| ScheduleRelease.RequestsOwned | src/apscheduler/datastores/async_mongodb.py:304-332 | With unique ids, a held schedule passed once is re-armed by the written requests when it has a fire time and a serializable trigger: lease cleared, trigger and fire time taken from the caller's copy. Otherwise it is deleted. |
| ScheduleRelease.ApplyAllIdempotent | src/apscheduler/datastores/async_mongodb.py:334-340 | Writing the same owner-guarded request list twice has the effect of writing it once, so repeated bulk writes are harmless. |
| ScheduleRelease.ReleaseKeepsValid | src/apscheduler/datastores/async_mongodb.py:296-340 | Release keeps schedule ids unique. |
| ScheduleRelease.ReleaseSchedulesAsWritten | src/apscheduler/datastores/async_mongodb.py:296-349 | Release as written, with the cumulative request list bulk-written at the end of each iteration that does not `continue`. The collection ends as if only the requests up to the last schedule whose trigger did not fail to serialize were written (a schedule with no next fire time never fails, since its trigger is not serialized). It publishes the same events as the intended release. |
| ScheduleRelease.FlushPoint | src/apscheduler/datastores/async_mongodb.py:307-340 | The number of leading requests written after `i` iterations: the position just past the last schedule among the first `i` whose trigger did not fail to serialize, and every later one among them failed. |
| ScheduleRelease.ReleaseAsWrittenAgrees | src/apscheduler/datastores/async_mongodb.py:304-340 | When the last schedule passed in does not fail to serialize, the loop as written and the intended release give the same store and events. |
| ScheduleRelease.ReleaseAsWrittenKeepsUnserializable | src/apscheduler/datastores/async_mongodb.py:307-349 | Counterexample: for one held schedule with an unserializable trigger, the loop as written keeps it and still publishes ScheduleRemoved, while the intended release deletes it. |
| Jobs.AddJob | src/apscheduler/datastores/async_mongodb.py:365-378 | A taken id raises the duplicate-key error and changes nothing. Otherwise the job is appended and JobAdded is published with its task, schedule and tags. |
| Jobs.AddJobKeepsValid | src/apscheduler/datastores/async_mongodb.py:365-370 | Insertion keeps job ids unique. |
| Jobs.CandidatePool | src/apscheduler/datastores/async_mongodb.py:406-419 | The candidate pool: at most `limit` stored jobs (none returned twice), ascending by `created_at`, each with no live lease and a task outside `ignored_tasks`. An eligible job is left out only when the limit is reached by jobs created no later. |
| Admission.SlotsLeft | src/apscheduler/datastores/async_mongodb.py:421-430 | Holds an entry exactly for each existing, capped task that the pool references. The entry is the cap minus the running count. |
| Admission.AdmitSubsequence | src/apscheduler/datastores/async_mongodb.py:432-447 | The admission walk only drops jobs: admitted jobs are an order-preserving subsequence of the pool. |
| Admission.AdmitPerTask | src/apscheduler/datastores/async_mongodb.py:439-447 | A task with `n >= 0` slots gets exactly the first `n` of its pool jobs admitted. A task absent from the slot map, or starting below 0, gets all of its jobs admitted. |
| Admission.AdmitCeiling | src/apscheduler/datastores/async_mongodb.py:439-447 | A task with `n >= 0` slots gets at most `n` admissions. |
| Admission.Tally | src/apscheduler/datastores/async_mongodb.py:434-447 | The `increments` map: a task has an entry exactly when some of its jobs were admitted, and the entry is that count. |
| Admission.AdmitTaskRecord | src/apscheduler/datastores/async_mongodb.py:421-447 | Per-task ceiling from the task documents. Each task's admitted jobs are a leading run of its candidates. A capped task with `n = cap - running >= 0` gets `min(n, candidates)` of them. Any other task, including one without a task document, gets all of its candidates. |
| Jobs.SelectJobs | src/apscheduler/datastores/async_mongodb.py:406-447 | The jobs handed out number at most `limit`, are FIFO by `created_at`, are all stored, eligible jobs, and are an order-preserving subsequence of the candidate pool. |
| Jobs.SelectJobsPerTask | src/apscheduler/datastores/async_mongodb.py:421-447 | For each task, the jobs handed out are a leading run of its candidates in the pool: as many as its quota `cap - running` allows when it is capped and not over its cap, all of them otherwise. |
| Jobs.AcquireJobs | src/apscheduler/datastores/async_mongodb.py:399-478 | Returns the selected jobs as read. Each stored job with a returned id gets `acquired_by = worker_id`, `started_at = now`, and `acquired_until = now + (job delay or default)`; other jobs are unchanged. Each task's `running_jobs` grows by exactly its admitted count. One JobAcquired is published per admitted job, in the order they are returned. |
| Jobs.AcquireJobsKeepsCeiling | src/apscheduler/datastores/async_mongodb.py:421-470 | A capped task whose running count was within its cap is still within it after an acquisition. |
| Jobs.SkippedJobKeepsDocument | src/apscheduler/datastores/async_mongodb.py:449-462 | In a valid store, a job that is not handed out keeps its stored document unchanged, including any expired lease and start time it carried. |
| Jobs.JobLeaseExclusive | src/apscheduler/datastores/async_mongodb.py:406-462 | A job handed out is handed out again, to any worker, only after its lease `now + effective delay` has passed. |
| Jobs.EmptyAcquisitionKeepsStore | src/apscheduler/datastores/async_mongodb.py:449-476 | An acquisition that admits no job leaves the whole store, counters and event log included, as it was. |
| Jobs.AcquireJobsKeepsValid | src/apscheduler/datastores/async_mongodb.py:449-470 | Acquisition keeps job ids unique. |
| Jobs.DeleteJob | src/apscheduler/datastores/async_mongodb.py:498 | `delete_one` by id: one job fewer exactly when the id is stored, otherwise nothing changes. The rest keep their order. |
| Jobs.ReleaseJob | src/apscheduler/datastores/async_mongodb.py:480-508 | The result is stored only when `expires_at > finished_at` and no result exists for the job; an existing result is never overwritten. The job is deleted. The caller-given task's counter drops by 1 exactly when a job was deleted. No event is published. |
| Jobs.ReleaseJobDeletes | src/apscheduler/datastores/async_mongodb.py:498 | In a valid store, the released job is gone afterwards. |
| Jobs.CompletionKeepsValid | src/apscheduler/datastores/async_mongodb.py:480-518 | Completion and result reads keep the store invariant. |
| Jobs.GetJobResult | src/apscheduler/datastores/async_mongodb.py:510-518 | Returns the stored result exactly when there is one, and removes it. A missing result is None, not an error. |
| Jobs.ResultReadOnce | src/apscheduler/datastores/async_mongodb.py:510-518 | An immediate second read of the same id returns None. |
| Jobs.ReleaseThenReadResult | src/apscheduler/datastores/async_mongodb.py:487-518 | A result stored by `release_job` is what the next read returns. |
| Scenarios.ConcurrencyCeilingScenario | src/apscheduler/datastores/async_mongodb.py:399-508 | A task capped at one job with two queued jobs. The first acquisition admits the older job and counts it. The next admits nothing. After release the counter is back to 0 and the younger job is admitted. |
| Scenarios.ScheduleLeaseScenario | src/apscheduler/datastores/async_mongodb.py:253-294 | A due schedule leased by scheduler A is refused to B until A's lease has run out, and is then leased to B. |

## Left out

- I/O and drivers: the Motor client, sessions, `bulk_write` and the `find_one_and_*` mechanics are not modelled. Each coroutine is one atomic transition, so retries (`_retry`, ConnectionFailure) and cross-process concurrency are not modelled either. That includes the over-admission that concurrent workers can cause.
- Startup: `_initialize`, `start` and index creation are not modelled.
- Serialization: `marshal`, `unmarshal`, the serializer and `CustomEncoder` are not modelled. Whether a trigger serializes is an opaque boolean on the schedule. Triggers, task settings and job outcomes are opaque strings.
- Deserialization failures (the `DeserializationError` branches of `get_schedules` and `get_jobs`) are not modelled.
- `get_tasks`, `get_schedules` and `get_jobs` are plain reads outside the protocol and are not modelled.
- Clock and event broker: `datetime` and time zones are integer seconds. The several clock reads of one call are one `now`. The event broker is the event sequence in the store. Logging is dropped.
- Jobs.AcquireJobs: `limit` is a natural number with 0 meaning no limit. Python's `None` limit and negative limits (which MongoDB treats as a one-batch absolute value) are not modelled.
- Schedules.AcquireSchedules: same restriction on `limit` as `acquire_jobs`.
- Sort ties are not specified by MongoDB. The model sorts stably, keeping storage order for equal keys, which is one admissible order.
- `update_one`/`delete_one` on `_id` act on at most one document. The model's requests act on every matching document, which is the same thing in a store whose ids are unique (`Valid`).
- Schedules.ScheduleLeaseExclusive: stated for an acquisition at or before the lease end. With a negative lease delay the lease is already expired when written, and nothing is claimed.
- ScheduleRelease.ReleaseSchedules: the requests are applied in list order, while the source writes them with `bulk_write(ordered=False)`, whose order MongoDB does not fix. The order matters only when the same id is passed twice; the per-schedule promise is made only for a schedule passed once, and the whole-collection equation fixes one admissible order.

## Findings

| source | as written | input that shows it | evidently intended | confidence | as-written member | corrected member |
|---|---|---|---|---|---|---|
| src/apscheduler/datastores/async_mongodb.py:307-340 | When a trigger fails to serialize, the `continue` at line 316 skips the `bulk_write` at lines 334-340 for that iteration. The write sits inside the loop. A DeleteOne queued for a trailing run of such schedules is never written, but their ScheduleRemoved events are still published (lines 348-349). | `release_schedules("A", [s1])` where `s1` is held by A, has a next fire time, and has an unserializable trigger. | Every queued request is written once, so `s1` is deleted. | not executed | ScheduleRelease.ReleaseSchedulesAsWritten (shown by ScheduleRelease.ReleaseAsWrittenKeepsUnserializable) | ScheduleRelease.ReleaseSchedules |
