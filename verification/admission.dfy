/**
 Per-task admission control of `acquire_jobs`: walking the FIFO candidate
 pool with the number of job slots each capped task has left.
 */
module Admission {
  import opened Wrappers
  import opened Sequences
  import opened DataStore

  /** The jobs of `js` that belong to task `t`, in order. */
  function OfTask(js: seq<Job>, t: TaskId): (r: seq<Job>)
    ensures |r| <= |js|
    ensures forall k :: 0 <= k < |r| ==> r[k].taskId == t && r[k] in js
  {
    if js == [] then []
    else if js[0].taskId == t then [js[0]] + OfTask(js[1..], t)
    else OfTask(js[1..], t)
  }

  function TaskIdsOf(js: seq<Job>): set<TaskId> {
    set j | j in js :: j.taskId
  }

  /**
   Slots left per capped task referenced by the pool: `max_running_jobs -
   running_jobs`. Tasks without a cap, and ids with no task document, are
   absent: their jobs are never held back.
   */
  function SlotsLeft(tasks: map<TaskId, TaskRecord>, pool: seq<Job>): (r: map<TaskId, int>)
    ensures forall t :: t in r <==> t in tasks && t in TaskIdsOf(pool) && tasks[t].def.maxRunningJobs.Some?
    ensures forall t :: t in r ==> r[t] == tasks[t].def.maxRunningJobs.value - tasks[t].runningJobs
  {
    map t | t in tasks && t in TaskIdsOf(pool) && tasks[t].def.maxRunningJobs.Some? ::
      tasks[t].def.maxRunningJobs.value - tasks[t].runningJobs
  }

  /**
   The admission walk: a job is skipped when its task has exactly 0 slots
   left; otherwise it is admitted and, if its task is capped, one slot is
   used up. A task starting below 0 therefore never reaches 0 and admits
   all its jobs.
   */
  function Admit(pool: seq<Job>, slots: map<TaskId, int>): seq<Job>
    decreases |pool|
  {
    if pool == [] then []
    else
      var t := pool[0].taskId;
      if t in slots && slots[t] == 0 then Admit(pool[1..], slots)
      else
        var slots' := if t in slots then slots[t := slots[t] - 1] else slots;
        [pool[0]] + Admit(pool[1..], slots')
  }

  /** Admission only drops jobs: the admitted ones keep the pool's order. */
  lemma {:induction false} AdmitSubsequence(pool: seq<Job>, slots: map<TaskId, int>)
    ensures IsSubsequence(Admit(pool, slots), pool)
    decreases |pool|
  {
    if pool != [] {
      var t := pool[0].taskId;
      if t in slots && slots[t] == 0 {
        AdmitSubsequence(pool[1..], slots);
      } else {
        var slots' := if t in slots then slots[t := slots[t] - 1] else slots;
        AdmitSubsequence(pool[1..], slots');
        assert ([pool[0]] + Admit(pool[1..], slots'))[1..] == Admit(pool[1..], slots');
      }
    }
  }

  /**
   What admission does to one task's jobs: a capped task with `n >= 0`
   slots left gets exactly the first `n` of its candidates (all of them if
   it has fewer) and the rest are skipped; a task that is uncapped, has no
   task document, or starts below 0 slots gets all of them.
   */
  lemma {:induction false} AdmitPerTask(pool: seq<Job>, slots: map<TaskId, int>, t: TaskId)
    ensures OfTask(Admit(pool, slots), t) ==
      if t in slots && slots[t] >= 0 then Prefix(OfTask(pool, t), slots[t]) else OfTask(pool, t)
    decreases |pool|
  {
    if pool != [] {
      var u := pool[0].taskId;
      var rest := pool[1..];
      if u in slots && slots[u] == 0 {
        AdmitPerTask(rest, slots, t);
      } else {
        var slots' := if u in slots then slots[u := slots[u] - 1] else slots;
        AdmitPerTask(rest, slots', t);
        var admitted := Admit(rest, slots');
        assert Admit(pool, slots) == [pool[0]] + admitted;
        if u == t {
          assert OfTask([pool[0]] + admitted, t) == [pool[0]] + OfTask(admitted, t);
          if t in slots && slots[t] > 0 {
            assert Prefix(OfTask(pool, t), slots[t]) == [pool[0]] + Prefix(OfTask(rest, t), slots[t] - 1);
          }
        } else {
          assert OfTask([pool[0]] + admitted, t) == OfTask(admitted, t);
        }
      }
    }
  }

  /**
   The slots task `t` starts admission with, when admission holds it back
   at all: `max_running_jobs - running_jobs` for a capped task that is not
   already over its cap, `None` otherwise.
   */
  function Quota(tasks: map<TaskId, TaskRecord>, t: TaskId): Option<nat> {
    if t in tasks && tasks[t].def.maxRunningJobs.Some? &&
       tasks[t].def.maxRunningJobs.value - tasks[t].runningJobs >= 0
    then Some(tasks[t].def.maxRunningJobs.value - tasks[t].runningJobs)
    else None
  }

  /**
   Admission as `acquire_jobs` runs it, with slots computed from the task
   documents: each task's admitted jobs are the leading ones of its
   candidates, as many as its quota allows, or all of them when it has none.
   */
  lemma AdmitTaskRecord(tasks: map<TaskId, TaskRecord>, pool: seq<Job>, t: TaskId)
    ensures OfTask(Admit(pool, SlotsLeft(tasks, pool)), t) <= OfTask(pool, t)
    ensures |OfTask(Admit(pool, SlotsLeft(tasks, pool)), t)| ==
      if Quota(tasks, t).Some? && Quota(tasks, t).value < |OfTask(pool, t)| then Quota(tasks, t).value
      else |OfTask(pool, t)|
  {
    AdmitPerTask(pool, SlotsLeft(tasks, pool), t);
    if t !in TaskIdsOf(pool) {
      NoJobsOfAbsentTask(pool, t);
    }
  }

  lemma {:induction false} NoJobsOfAbsentTask(js: seq<Job>, t: TaskId)
    requires t !in TaskIdsOf(js)
    ensures OfTask(js, t) == []
  {
    if js != [] {
      assert TaskIdsOf(js[1..]) <= TaskIdsOf(js);
      NoJobsOfAbsentTask(js[1..], t);
    }
  }

  /** The ceiling: a capped task with `n >= 0` slots left gets at most `n` admissions. */
  lemma AdmitCeiling(pool: seq<Job>, slots: map<TaskId, int>, t: TaskId)
    requires t in slots && slots[t] >= 0
    ensures |OfTask(Admit(pool, slots), t)| <= slots[t]
  {
    AdmitPerTask(pool, slots, t);
  }

  /**
   The `increments` dictionary: for each task with at least one admitted
   job, how many of its jobs were admitted.
   */
  function Tally(js: seq<Job>): (r: map<TaskId, nat>)
    ensures forall t :: t in r <==> |OfTask(js, t)| > 0
    ensures forall t :: t in r ==> r[t] == |OfTask(js, t)|
  {
    if js == [] then map[]
    else
      var m := Tally(js[1..]);
      var t := js[0].taskId;
      m[t := (if t in m then m[t] else 0) + 1]
  }
}
