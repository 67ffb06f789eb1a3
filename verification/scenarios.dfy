/** Worked examples of the lease and admission protocol on small concrete stores. */
module Scenarios {
  import opened Wrappers
  import Sequences
  import opened DataStore
  import opened Schedules
  import opened Admission
  import opened Jobs

  function J1(): Job { Job("J1", "T1", None, {}, 10, None, None, None, None) }
  function J2(): Job { Job("J2", "T1", None, {}, 20, None, None, None, None) }
  /** T1 with a cap of one running job and `running` jobs counted as running. */
  function T1(running: int): map<TaskId, TaskRecord> { map["T1" := TaskRecord(TaskDef("T1", Some(1), ""), running)] }

  lemma FirstAcquisition()
    ensures var r := AcquireJobs(Store(T1(0), [], [J1(), J2()], map[], []), 100, "W", 5, None, 30);
            r.value == [J1()] && r.store == Store(T1(1), [], [Started(J1(), "W", 100, 30), J2()], map[], [JobAcquired("J1", "W")])
  {
    FirstValue();
    FirstTasks();
    FirstJobs();
  }

  lemma FirstValue()
    ensures var r := AcquireJobs(Store(T1(0), [], [J1(), J2()], map[], []), 100, "W", 5, None, 30);
            r.value == [J1()] && r.store.events == [JobAcquired("J1", "W")]
  {
    FirstPool();
    FirstSlots();
    FirstAdmit();
  }

  lemma FirstTasks()
    ensures AcquireJobs(Store(T1(0), [], [J1(), J2()], map[], []), 100, "W", 5, None, 30).store.tasks == T1(1)
  {
    var r := AcquireJobs(Store(T1(0), [], [J1(), J2()], map[], []), 100, "W", 5, None, 30);
    FirstValue();
    FirstCounters(r.store.tasks, r.value);
  }

  lemma FirstJobs()
    ensures AcquireJobs(Store(T1(0), [], [J1(), J2()], map[], []), 100, "W", 5, None, 30).store.jobs ==
      [Started(J1(), "W", 100, 30), J2()]
  {
    var r := AcquireJobs(Store(T1(0), [], [J1(), J2()], map[], []), 100, "W", 5, None, 30);
    FirstValue();
    FirstLeases(r.store.jobs, r.value);
  }

  lemma FirstCounters(tasks: map<TaskId, TaskRecord>, admitted: seq<Job>)
    requires admitted == [J1()]
    requires tasks.Keys == T1(0).Keys
    requires forall t :: t in T1(0) ==>
      tasks[t].def == T1(0)[t].def && tasks[t].runningJobs == T1(0)[t].runningJobs + |OfTask(admitted, t)|
    ensures tasks == T1(1)
  {
    assert OfTask([J1()], "T1") == [J1()];
    assert tasks["T1"] == TaskRecord(TaskDef("T1", Some(1), ""), 1);
  }

  lemma FirstLeases(jobs: seq<Job>, admitted: seq<Job>)
    requires admitted == [J1()]
    requires |jobs| == 2
    requires forall i :: 0 <= i < 2 && [J1(), J2()][i].id in JobIdsOf(admitted) ==>
      jobs[i] == Started([J1(), J2()][i], "W", 100, 30)
    requires forall i :: 0 <= i < 2 && [J1(), J2()][i].id !in JobIdsOf(admitted) ==> jobs[i] == [J1(), J2()][i]
    ensures jobs == [Started(J1(), "W", 100, 30), J2()]
  {
    assert JobIdsOf(admitted) == {"J1"};
    assert jobs[0] == Started(J1(), "W", 100, 30);
    assert jobs[1] == J2();
  }

  lemma FirstSlots()
    ensures SlotsLeft(T1(0), [J1(), J2()]) == map["T1" := 1]
  {
    assert TaskIdsOf([J1(), J2()]) == {"T1"};
  }

  lemma FirstAdmit()
    ensures Admit([J1(), J2()], map["T1" := 1]) == [J1()]
  {
    assert [J1(), J2()][1..] == [J2()];
    assert map["T1" := 1]["T1" := 0] == map["T1" := 0];
    assert Admit([J2()], map["T1" := 0]) == [];
  }

  lemma FirstPool()
    ensures CandidatePool([J1(), J2()], 100, 5, None) == [J1(), J2()]
  {
    Sequences.QueryAll([J1(), J2()], j => Eligible(j, 100, None), CreatedKey, 5);
  }

  lemma SecondAcquisition()
    ensures var st := Store(T1(1), [], [Started(J1(), "W", 100, 30), J2()], map[], [JobAcquired("J1", "W")]);
            var r := AcquireJobs(st, 101, "W", 5, None, 30);
            r.value == [] && r.store == st
  {
    SecondValue();
    var st := Store(T1(1), [], [Started(J1(), "W", 100, 30), J2()], map[], [JobAcquired("J1", "W")]);
    EmptyAcquisitionKeepsStore(st, 101, "W", 5, None, 30);
  }

  lemma SecondValue()
    ensures AcquireJobs(Store(T1(1), [], [Started(J1(), "W", 100, 30), J2()], map[], [JobAcquired("J1", "W")]),
                        101, "W", 5, None, 30).value == []
  {
    SecondPool();
    SecondSlots();
    SecondAdmit();
  }

  lemma SecondSlots()
    ensures SlotsLeft(T1(1), [J2()]) == map["T1" := 0]
  {
    assert TaskIdsOf([J2()]) == {"T1"};
  }

  lemma SecondAdmit()
    ensures Admit([J2()], map["T1" := 0]) == []
  {
    assert [J2()][1..] == [];
  }

  /** J1 is leased until 130, so at 101 only J2 is a candidate. */
  lemma SecondPool()
    ensures CandidatePool([Started(J1(), "W", 100, 30), J2()], 101, 5, None) == [J2()]
  {
    var jobs := [Started(J1(), "W", 100, 30), J2()];
    assert jobs[1..] == [J2()];
    assert Sequences.Filter(jobs, j => Eligible(j, 101, None)) == [J2()];
    Sequences.SortBySorted([J2()], CreatedKey);
  }

  lemma Completion()
    ensures var st := Store(T1(1), [], [Started(J1(), "W", 100, 30), J2()], map[], [JobAcquired("J1", "W")]);
            ReleaseJob(st, "W", "T1", JobResult("J1", "", 110, 200)).store ==
              Store(T1(0), [], [J2()], map["J1" := JobResult("J1", "", 110, 200)], [JobAcquired("J1", "W")])
  {
    var st := Store(T1(1), [], [Started(J1(), "W", 100, 30), J2()], map[], [JobAcquired("J1", "W")]);
    assert HasJob(st.jobs, "J1") by { assert st.jobs[0].id == "J1"; }
    assert DeleteJob(st.jobs, "J1") == [J2()];
  }

  lemma ThirdAcquisition()
    ensures var st := Store(T1(0), [], [J2()], map["J1" := JobResult("J1", "", 110, 200)], [JobAcquired("J1", "W")]);
            AcquireJobs(st, 120, "W", 5, None, 30).value == [J2()]
  {
    Sequences.QueryAll([J2()], j => Eligible(j, 120, None), CreatedKey, 5);
    ThirdSlots();
    ThirdAdmit();
  }

  lemma ThirdSlots()
    ensures SlotsLeft(T1(0), [J2()]) == map["T1" := 1]
  {
    assert TaskIdsOf([J2()]) == {"T1"};
  }

  lemma ThirdAdmit()
    ensures Admit([J2()], map["T1" := 1]) == [J2()]
  {
    assert [J2()][1..] == [];
    assert map["T1" := 1]["T1" := 0] == map["T1" := 0];
  }

  /**
   Task T1 allows one running job and has two queued jobs, J1 (created at
   10) and J2 (created at 20). The first acquisition admits J1 only and
   counts it as running; a second one before J1 finishes admits nothing;
   once J1 is released the counter is back to 0 and the next acquisition
   admits J2.
   */
  lemma ConcurrencyCeilingScenario()
    ensures var st0 := Store(T1(0), [], [J1(), J2()], map[], []);
            var first := AcquireJobs(st0, 100, "W", 5, None, 30);
            var second := AcquireJobs(first.store, 101, "W", 5, None, 30);
            var done := ReleaseJob(second.store, "W", "T1", JobResult("J1", "", 110, 200));
            var third := AcquireJobs(done.store, 120, "W", 5, None, 30);
            && first.value == [J1()]
            && first.store.tasks["T1"].runningJobs == 1
            && second.value == []
            && done.store.tasks["T1"].runningJobs == 0
            && third.value == [J2()]
  {
    FirstAcquisition();
    SecondAcquisition();
    Completion();
    ThirdAcquisition();
  }

  /**
   Schedule S1 fell due a second ago. Scheduler A acquires it; B, right
   after, gets nothing; once A's lease has run out, B acquires it.
   */
  lemma ScheduleLeaseScenario()
    ensures var st0 := Store(map[], [S1()], [], map[], []);
            var a := AcquireSchedules(st0, 100, "A", 10, 30);
            var b := AcquireSchedules(a.store, 100, "B", 10, 30);
            var later := AcquireSchedules(b.store, 131, "B", 10, 30);
            && a.value == [S1()]
            && a.store.schedules[0].acquiredBy == Some("A")
            && b.value == []
            && |later.value| == 1 && later.value[0].id == "S1"
            && later.store.schedules[0].acquiredBy == Some("B")
  {
    LeaseByA();
    LeaseRefusedToB();
    LeaseAfterExpiry();
  }

  function S1(): Schedule { Schedule("S1", "T1", "trigger", true, Some(99), None, None) }

  lemma LeaseByA()
    ensures var a := AcquireSchedules(Store(map[], [S1()], [], map[], []), 100, "A", 10, 30);
            a.value == [S1()] && a.store == Store(map[], [Leased(S1(), "A", 130)], [], map[], [])
  {
    var a := AcquireSchedules(Store(map[], [S1()], [], map[], []), 100, "A", 10, 30);
    DueAt(S1(), 100);
    OneLeased(a.store.schedules, S1(), a.value, "A", 130);
  }

  lemma LeaseRefusedToB()
    ensures var st := Store(map[], [Leased(S1(), "A", 130)], [], map[], []);
            var b := AcquireSchedules(st, 100, "B", 10, 30);
            b.value == [] && b.store == st
  {
    assert PickDue([Leased(S1(), "A", 130)], 100, 10) == [];
  }

  lemma LeaseAfterExpiry()
    ensures var st := Store(map[], [Leased(S1(), "A", 130)], [], map[], []);
            var later := AcquireSchedules(st, 131, "B", 10, 30);
            later.value == [Leased(S1(), "A", 130)] && later.store.schedules == [Leased(S1(), "B", 161)]
  {
    var later := AcquireSchedules(Store(map[], [Leased(S1(), "A", 130)], [], map[], []), 131, "B", 10, 30);
    DueAt(Leased(S1(), "A", 130), 131);
    OneLeased(later.store.schedules, Leased(S1(), "A", 130), later.value, "B", 161);
  }

  lemma DueAt(x: Schedule, now: Timestamp)
    requires Due(x, now)
    ensures PickDue([x], now, 10) == [x]
  {
    assert [x][1..] == [];
    assert Sequences.Filter([x], y => Due(y, now)) == [x];
  }

  lemma OneLeased(xs: seq<Schedule>, x: Schedule, picked: seq<Schedule>, owner: OwnerId, until: Timestamp)
    requires picked == [x] && |xs| == 1
    requires forall i :: 0 <= i < 1 && [x][i] in picked ==> xs[i] == Leased([x][i], owner, until)
    ensures xs == [Leased(x, owner, until)]
  {
    assert [x][0] in picked;
  }
}
