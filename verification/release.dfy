/**
 Releasing schedules a scheduler has leased (`release_schedules`). Each
 schedule becomes one owner-guarded write request: a schedule with a next
 fire time whose trigger serializes is re-armed (lease cleared, trigger and
 fire time written); any other schedule is retired (deleted). A request only
 touches a stored schedule that the releasing scheduler still holds.
 */
module ScheduleRelease {
  import opened Wrappers
  import opened Sequences
  import opened DataStore
  import opened Schedules

  /** One write of the bulk request list; both kinds are guarded by `_id` and `acquired_by`. */
  datatype Request =
    | UpdateOne(id: ScheduleId, trigger: Trigger, nextFireTime: Timestamp)
    | DeleteOne(id: ScheduleId)

  predicate Owned(x: Schedule, owner: OwnerId) {
    x.acquiredBy == Some(owner)
  }

  /** Serializing the trigger of a schedule that has a next fire time fails. */
  predicate SerializationFails(s: Schedule) {
    s.nextFireTime.Some? && !s.triggerSerializable
  }

  /** The schedule has a next fire time and a storable trigger, so it is re-armed rather than retired. */
  predicate Rearms(s: Schedule) {
    s.nextFireTime.Some? && s.triggerSerializable
  }

  predicate Retires(s: Schedule) {
    !Rearms(s)
  }

  /** The event announcing what release does to one schedule passed in. */
  function ReleaseEvent(s: Schedule): Event {
    if Rearms(s) then ScheduleUpdated(s.id, s.nextFireTime) else ScheduleRemoved(s.id)
  }

  /** One event per schedule passed in, in input order. */
  function EventsOf(ss: seq<Schedule>): (r: seq<Event>)
    ensures |r| == |ss|
    ensures forall i :: 0 <= i < |ss| ==> r[i] == ReleaseEvent(ss[i])
  {
    seq(|ss|, i requires 0 <= i < |ss| => ReleaseEvent(ss[i]))
  }

  /** The `k`-th schedule passed in is the only one carrying its id. */
  predicate PassedOnce(ss: seq<Schedule>, k: int) {
    0 <= k < |ss| && forall j :: 0 <= j < |ss| && j != k ==> ss[j].id != ss[k].id
  }

  /** No request of the release can touch `x`: it is not held by the releasing scheduler, or it was not passed. */
  predicate OutOfReach(ss: seq<Schedule>, owner: OwnerId, x: Schedule) {
    !Owned(x, owner) || forall k :: 0 <= k < |ss| ==> ss[k].id != x.id
  }

  /** What release leaves of a held stored schedule `x`, given the caller's copy `s`. */
  function Released(x: Schedule, s: Schedule): Option<Schedule> {
    if Rearms(s) then
      Some(x.(acquiredBy := None, acquiredUntil := None, trigger := s.trigger, triggerSerializable := true,
              nextFireTime := s.nextFireTime))
    else None
  }

  function RequestFor(s: Schedule): (r: Request)
    ensures r.id == s.id
    ensures r.UpdateOne? <==> Rearms(s)
    ensures r.UpdateOne? ==> r.trigger == s.trigger && s.nextFireTime == Some(r.nextFireTime)
  {
    if Rearms(s) then UpdateOne(s.id, s.trigger, s.nextFireTime.value) else DeleteOne(s.id)
  }

  function Requests(ss: seq<Schedule>): (r: seq<Request>)
    ensures |r| == |ss|
    ensures forall i :: 0 <= i < |ss| ==> r[i] == RequestFor(ss[i])
  {
    seq(|ss|, i requires 0 <= i < |ss| => RequestFor(ss[i]))
  }

  /** The stored schedule after an update request: lease removed, new trigger and fire time. */
  function Rearmed(x: Schedule, req: Request): Schedule
    requires req.UpdateOne?
  {
    x.(acquiredBy := None, acquiredUntil := None, trigger := req.trigger, triggerSerializable := true,
       nextFireTime := Some(req.nextFireTime))
  }

  /**
   Applies one request to the collection. Ids are unique in a valid store,
   so acting on every matching document is the same as acting on the one.
   */
  function Apply(xs: seq<Schedule>, owner: OwnerId, req: Request): seq<Schedule>
  {
    if xs == [] then []
    else
      var rest := Apply(xs[1..], owner, req);
      if xs[0].id == req.id && Owned(xs[0], owner) then
        if req.UpdateOne? then [Rearmed(xs[0], req)] + rest else rest
      else [xs[0]] + rest
  }

  /** Applies the requests one after another. */
  function ApplyAll(xs: seq<Schedule>, owner: OwnerId, reqs: seq<Request>): seq<Schedule>
    decreases |reqs|
  {
    if reqs == [] then xs else ApplyAll(Apply(xs, owner, reqs[0]), owner, reqs[1..])
  }

  function UpdatedEvents(ss: seq<Schedule>): (r: seq<Event>)
    ensures |r| == |ss|
    ensures forall i :: 0 <= i < |ss| ==> r[i] == ScheduleUpdated(ss[i].id, ss[i].nextFireTime)
  {
    seq(|ss|, i requires 0 <= i < |ss| => ScheduleUpdated(ss[i].id, ss[i].nextFireTime))
  }

  /**
   The events `release_schedules` publishes: a ScheduleUpdated for every
   re-armed schedule, then a ScheduleRemoved for every retired one, each
   group in input order, whether or not the guarded write matched. They are
   the per-schedule events, with the updates moved to the front.
   */
  function ReleaseEvents(ss: seq<Schedule>): (r: seq<Event>)
    ensures |r| == |ss|
    ensures multiset(r) == multiset(EventsOf(ss))
    ensures forall i, j :: 0 <= i < j < |r| && r[i].ScheduleRemoved? ==> r[j].ScheduleRemoved?
    ensures r == Filter(EventsOf(ss), IsUpdate) + Filter(EventsOf(ss), IsRemoval)
  {
    var updated := UpdatedEvents(Filter(ss, Rearms));
    var removed := RemovedEvents(Filter(ss, Retires));
    FilterPartition(ss, Rearms, Retires);
    ReleaseEventsPermute(ss);
    UpdatesFirst(updated, removed);
    UpdatesInOrder(ss);
    RemovalsInOrder(ss);
    updated + removed
  }

  predicate IsUpdate(e: Event) {
    e.ScheduleUpdated?
  }

  predicate IsRemoval(e: Event) {
    e.ScheduleRemoved?
  }

  /** The ScheduleUpdated events are those of the re-armed schedules, in input order. */
  lemma {:induction false} UpdatesInOrder(ss: seq<Schedule>)
    ensures UpdatedEvents(Filter(ss, Rearms)) == Filter(EventsOf(ss), IsUpdate)
    decreases |ss|
  {
    if ss != [] {
      UpdatesInOrder(ss[1..]);
      FilterCons(ss, Rearms);
      EventsOfCons(ss);
      FilterCons(EventsOf(ss), IsUpdate);
      assert EventsOf(ss)[1..] == EventsOf(ss[1..]);
      if Rearms(ss[0]) {
        UpdatedCons(ss[0], Filter(ss[1..], Rearms));
      }
    }
  }

  /** The ScheduleRemoved events are those of the retired schedules, in input order. */
  lemma {:induction false} RemovalsInOrder(ss: seq<Schedule>)
    ensures RemovedEvents(Filter(ss, Retires)) == Filter(EventsOf(ss), IsRemoval)
    decreases |ss|
  {
    if ss != [] {
      RemovalsInOrder(ss[1..]);
      FilterCons(ss, Retires);
      EventsOfCons(ss);
      FilterCons(EventsOf(ss), IsRemoval);
      assert EventsOf(ss)[1..] == EventsOf(ss[1..]);
      if Retires(ss[0]) {
        RemovedCons(ss[0], Filter(ss[1..], Retires));
      }
    }
  }

  lemma UpdatesFirst(updated: seq<Event>, removed: seq<Event>)
    requires forall i :: 0 <= i < |updated| ==> updated[i].ScheduleUpdated?
    requires forall i :: 0 <= i < |removed| ==> removed[i].ScheduleRemoved?
    ensures var r := updated + removed;
            forall i, j :: 0 <= i < j < |r| && r[i].ScheduleRemoved? ==> r[j].ScheduleRemoved?
  {
    var r := updated + removed;
    forall i, j | 0 <= i < j < |r| && r[i].ScheduleRemoved?
      ensures r[j].ScheduleRemoved?
    {
      assert r[j] == removed[j - |updated|];
    }
  }

  lemma {:induction false} ReleaseEventsPermute(ss: seq<Schedule>)
    ensures multiset(UpdatedEvents(Filter(ss, Rearms)) + RemovedEvents(Filter(ss, Retires))) == multiset(EventsOf(ss))
    decreases |ss|
  {
    if ss != [] {
      var s, t := ss[0], ss[1..];
      var e := ReleaseEvent(s);
      var u, v := UpdatedEvents(Filter(t, Rearms)), RemovedEvents(Filter(t, Retires));
      ReleaseEventsPermute(t);
      FilterCons(ss, Rearms);
      FilterCons(ss, Retires);
      EventsOfCons(ss);
      if Rearms(s) {
        UpdatedCons(s, Filter(t, Rearms));
      } else {
        RemovedCons(s, Filter(t, Retires));
      }
      MultisetCons(e, u, v, EventsOf(t));
    }
  }

  /** Putting one more element at the front of either part keeps two sequences permutations of each other. */
  lemma MultisetCons(e: Event, u: seq<Event>, v: seq<Event>, rest: seq<Event>)
    requires multiset(u + v) == multiset(rest)
    ensures multiset(([e] + u) + v) == multiset([e] + rest)
    ensures multiset(u + ([e] + v)) == multiset([e] + rest)
  {
  }

  lemma EventsOfCons(ss: seq<Schedule>)
    requires ss != []
    ensures EventsOf(ss) == [ReleaseEvent(ss[0])] + EventsOf(ss[1..])
  {
    var a, b := EventsOf(ss), [ReleaseEvent(ss[0])] + EventsOf(ss[1..]);
    forall i | 0 <= i < |a|
      ensures a[i] == b[i]
    {
      if i > 0 {
        assert ss[1..][i - 1] == ss[i];
      }
    }
  }

  lemma UpdatedCons(s: Schedule, xs: seq<Schedule>)
    requires Rearms(s)
    ensures UpdatedEvents([s] + xs) == [ReleaseEvent(s)] + UpdatedEvents(xs)
  {
    var a, b := UpdatedEvents([s] + xs), [ReleaseEvent(s)] + UpdatedEvents(xs);
    forall i | 0 <= i < |a|
      ensures a[i] == b[i]
    {
      if i > 0 {
        assert ([s] + xs)[i] == xs[i - 1];
      }
    }
  }

  lemma RemovedCons(s: Schedule, xs: seq<Schedule>)
    requires Retires(s)
    ensures RemovedEvents([s] + xs) == [ReleaseEvent(s)] + RemovedEvents(xs)
  {
    var a, b := RemovedEvents([s] + xs), [ReleaseEvent(s)] + RemovedEvents(xs);
    forall i | 0 <= i < |a|
      ensures a[i] == b[i]
    {
      if i > 0 {
        assert ([s] + xs)[i] == xs[i - 1];
      }
    }
  }

  /**
   The intended `release_schedules`: every request is written once. The
   rest of the model uses this definition. A stored schedule the releasing
   scheduler does not hold, or that was not passed, is left alone; a held
   one passed once is re-armed or deleted; one event per schedule passed
   is appended, the updates first.
   */
  function ReleaseSchedules(st: Store, schedulerId: OwnerId, ss: seq<Schedule>): (r: Reply<()>)
    ensures OnlySchedulesChanged(st, r.store)
    ensures r.store.schedules == ApplyAll(st.schedules, schedulerId, Requests(ss))
    ensures forall x: Schedule :: FindSchedule(st.schedules, x.id) == Some(x) && OutOfReach(ss, schedulerId, x) ==>
      FindSchedule(r.store.schedules, x.id) == Some(x)
    ensures Valid(st) ==> forall k ::
      PassedOnce(ss, k) && FindSchedule(st.schedules, ss[k].id).Some? &&
      Owned(FindSchedule(st.schedules, ss[k].id).value, schedulerId) ==>
      FindSchedule(r.store.schedules, ss[k].id) == Released(FindSchedule(st.schedules, ss[k].id).value, ss[k])
    ensures r.store.events == st.events + ReleaseEvents(ss)
    ensures |r.store.events| == |st.events| + |ss| && r.store.events[..|st.events|] == st.events
    ensures multiset(r.store.events[|st.events|..]) == multiset(EventsOf(ss))
  {
    var xs := ApplyAll(st.schedules, schedulerId, Requests(ss));
    assert forall x: Schedule :: FindSchedule(st.schedules, x.id) == Some(x) && OutOfReach(ss, schedulerId, x) ==>
      FindSchedule(xs, x.id) == Some(x) by {
      forall x: Schedule | FindSchedule(st.schedules, x.id) == Some(x) && OutOfReach(ss, schedulerId, x)
        ensures FindSchedule(xs, x.id) == Some(x)
      {
        RequestsLeaveOthersAlone(st.schedules, schedulerId, ss, x);
      }
    }
    assert Valid(st) ==> forall k ::
      PassedOnce(ss, k) && FindSchedule(st.schedules, ss[k].id).Some? &&
      Owned(FindSchedule(st.schedules, ss[k].id).value, schedulerId) ==>
      FindSchedule(xs, ss[k].id) == Released(FindSchedule(st.schedules, ss[k].id).value, ss[k]) by {
      if Valid(st) {
        forall k | PassedOnce(ss, k) && FindSchedule(st.schedules, ss[k].id).Some? &&
          Owned(FindSchedule(st.schedules, ss[k].id).value, schedulerId)
          ensures FindSchedule(xs, ss[k].id) == Released(FindSchedule(st.schedules, ss[k].id).value, ss[k])
        {
          RequestsOwned(st.schedules, schedulerId, ss, k, FindSchedule(st.schedules, ss[k].id).value);
        }
      }
    }
    var events := st.events + ReleaseEvents(ss);
    assert events[|st.events|..] == ReleaseEvents(ss);
    Reply(st.(schedules := xs, events := events), ())
  }

  // ---------------------------------------------------------------------
  // The loop as written: the cumulative request list is bulk-written at
  // the end of every iteration, except after a serialization failure,
  // whose `continue` skips the write.
  // ---------------------------------------------------------------------

  /** The collection after iterations `i..` of the loop, starting from `cur`. */
  function FlushLoop(cur: seq<Schedule>, owner: OwnerId, ss: seq<Schedule>, i: nat): seq<Schedule>
    requires i <= |ss|
    decreases |ss| - i
  {
    if i == |ss| then cur
    else if SerializationFails(ss[i]) then FlushLoop(cur, owner, ss, i + 1)
    else FlushLoop(ApplyAll(cur, owner, Requests(ss)[..i + 1]), owner, ss, i + 1)
  }

  /**
   `release_schedules` as written: it amounts to writing the requests up to
   the last schedule whose trigger did not fail to serialize, so the deletes
   of a trailing run of unserializable schedules are never written. It
   publishes the same events as the intended version.
   */
  function ReleaseSchedulesAsWritten(st: Store, schedulerId: OwnerId, ss: seq<Schedule>): (r: Reply<()>)
    ensures OnlySchedulesChanged(st, r.store)
    ensures r.store.schedules == ApplyAll(st.schedules, schedulerId, Requests(ss)[..FlushPoint(ss, |ss|)])
    ensures r.store.events == st.events + ReleaseEvents(ss)
  {
    FlushLoopNetEffect(st.schedules, schedulerId, ss, 0, st.schedules);
    Reply(st.(schedules := FlushLoop(st.schedules, schedulerId, ss, 0),
              events := st.events + ReleaseEvents(ss)), ())
  }

  /** How many leading requests have been bulk-written after `i` iterations. */
  function FlushPoint(ss: seq<Schedule>, i: nat): (r: nat)
    requires i <= |ss|
    ensures r <= i
    ensures r == 0 || !SerializationFails(ss[r - 1])
    ensures forall k :: r <= k < i ==> SerializationFails(ss[k])
  {
    if i == 0 then 0
    else if !SerializationFails(ss[i - 1]) then i
    else FlushPoint(ss, i - 1)
  }

  // ---------------------------------------------------------------------
  // Algebra of the guarded requests
  // ---------------------------------------------------------------------

  /** No stored schedule carrying `id` is held by `owner`. */
  ghost predicate Disowned(xs: seq<Schedule>, owner: OwnerId, id: ScheduleId) {
    forall i :: 0 <= i < |xs| && xs[i].id == id ==> !Owned(xs[i], owner)
  }

  /** After a request, no schedule carrying its id is held by the releasing scheduler. */
  lemma {:induction false} ApplyDisowns(xs: seq<Schedule>, owner: OwnerId, req: Request)
    ensures Disowned(Apply(xs, owner, req), owner, req.id)
    decreases |xs|
  {
    if xs != [] {
      ApplyDisowns(xs[1..], owner, req);
    }
  }

  /** A request never hands a lease to anybody. */
  lemma {:induction false} ApplyKeepsDisowned(xs: seq<Schedule>, owner: OwnerId, req: Request, id: ScheduleId)
    requires Disowned(xs, owner, id)
    ensures Disowned(Apply(xs, owner, req), owner, id)
    decreases |xs|
  {
    if xs != [] {
      assert Disowned(xs[1..], owner, id) by {
        forall i | 0 <= i < |xs[1..]| && xs[1..][i].id == id
          ensures !Owned(xs[1..][i], owner)
        {
          assert xs[1..][i] == xs[i + 1];
        }
      }
      ApplyKeepsDisowned(xs[1..], owner, req, id);
    }
  }

  /** A request whose target is not held by the releasing scheduler changes nothing. */
  lemma {:induction false} ApplyNoop(xs: seq<Schedule>, owner: OwnerId, req: Request)
    requires Disowned(xs, owner, req.id)
    ensures Apply(xs, owner, req) == xs
    decreases |xs|
  {
    if xs != [] {
      assert Disowned(xs[1..], owner, req.id) by {
        forall i | 0 <= i < |xs[1..]| && xs[1..][i].id == req.id
          ensures !Owned(xs[1..][i], owner)
        {
          assert xs[1..][i] == xs[i + 1];
        }
      }
      ApplyNoop(xs[1..], owner, req);
      assert xs == [xs[0]] + xs[1..];
    }
  }

  /** A request only removes documents or rewrites their fields; it never introduces an id. */
  lemma {:induction false} ApplyKeepsIds(xs: seq<Schedule>, owner: OwnerId, req: Request)
    ensures IdsOf(Apply(xs, owner, req)) <= IdsOf(xs)
    decreases |xs|
  {
    if xs != [] {
      ApplyKeepsIds(xs[1..], owner, req);
      assert IdsOf(xs) == {xs[0].id} + IdsOf(xs[1..]) by {
        assert xs == [xs[0]] + xs[1..];
      }
    }
  }

  lemma UniqueCons(h: Schedule, t: seq<Schedule>)
    requires UniqueScheduleIds(t) && h.id !in IdsOf(t)
    ensures UniqueScheduleIds([h] + t)
  {
    var xs := [h] + t;
    forall i, j | 0 <= i < j < |xs|
      ensures xs[i].id != xs[j].id
    {
      assert xs[j] == t[j - 1];
      if i > 0 {
        assert xs[i] == t[i - 1];
      } else {
        assert t[j - 1] in t;
      }
    }
  }

  lemma UniqueTail(xs: seq<Schedule>)
    requires xs != [] && UniqueScheduleIds(xs)
    ensures UniqueScheduleIds(xs[1..]) && xs[0].id !in IdsOf(xs[1..])
  {
    var t := xs[1..];
    forall i, j | 0 <= i < j < |t|
      ensures t[i].id != t[j].id
    {
      assert t[i] == xs[i + 1] && t[j] == xs[j + 1];
    }
  }

  /** A request keeps ids unique. */
  lemma {:induction false} ApplyKeepsUnique(xs: seq<Schedule>, owner: OwnerId, req: Request)
    requires UniqueScheduleIds(xs)
    ensures UniqueScheduleIds(Apply(xs, owner, req))
    decreases |xs|
  {
    if xs != [] {
      UniqueTail(xs);
      ApplyKeepsUnique(xs[1..], owner, req);
      ApplyKeepsIds(xs[1..], owner, req);
      var rest := Apply(xs[1..], owner, req);
      if xs[0].id == req.id && Owned(xs[0], owner) {
        if req.UpdateOne? {
          UniqueCons(Rearmed(xs[0], req), rest);
        }
      } else {
        UniqueCons(xs[0], rest);
      }
    }
  }

  /** A request aimed at another id does not change what a lookup by `id` finds. */
  lemma {:induction false} ApplyFindOther(xs: seq<Schedule>, owner: OwnerId, req: Request, id: ScheduleId)
    requires req.id != id
    ensures FindSchedule(Apply(xs, owner, req), id) == FindSchedule(xs, id)
    decreases |xs|
  {
    if xs != [] {
      ApplyFindOther(xs[1..], owner, req, id);
    }
  }

  /** The ownership guard: a schedule held by somebody else, or by nobody, is left as it is. */
  lemma {:induction false} ApplyGuard(xs: seq<Schedule>, owner: OwnerId, req: Request, x: Schedule)
    requires FindSchedule(xs, x.id) == Some(x) && !Owned(x, owner)
    ensures FindSchedule(Apply(xs, owner, req), x.id) == Some(x)
    decreases |xs|
  {
    if xs[0].id != x.id {
      ApplyGuard(xs[1..], owner, req, x);
    }
  }

  /** An update request on a held schedule rewrites it in place. */
  lemma {:induction false} ApplyRearms(xs: seq<Schedule>, owner: OwnerId, req: Request, x: Schedule)
    requires req.UpdateOne?
    requires FindSchedule(xs, req.id) == Some(x) && Owned(x, owner)
    ensures FindSchedule(Apply(xs, owner, req), req.id) == Some(Rearmed(x, req))
    decreases |xs|
  {
    if xs[0].id != req.id {
      ApplyRearms(xs[1..], owner, req, x);
    }
  }

  /** A delete request removes a schedule held by the releasing scheduler. */
  lemma {:induction false} ApplyRetires(xs: seq<Schedule>, owner: OwnerId, req: Request)
    requires req.DeleteOne?
    requires forall i :: 0 <= i < |xs| && xs[i].id == req.id ==> Owned(xs[i], owner)
    ensures FindSchedule(Apply(xs, owner, req), req.id) == None
    decreases |xs|
  {
    if xs != [] {
      assert forall i :: 0 <= i < |xs[1..]| ==> xs[1..][i] == xs[i + 1];
      ApplyRetires(xs[1..], owner, req);
      var rest := Apply(xs[1..], owner, req);
      if !(xs[0].id == req.id && Owned(xs[0], owner)) {
        assert FindSchedule([xs[0]] + rest, req.id) == FindSchedule(rest, req.id);
      }
    }
  }

  lemma {:induction false} ApplyConcat(xs: seq<Schedule>, owner: OwnerId, a: seq<Request>, b: seq<Request>)
    ensures ApplyAll(xs, owner, a + b) == ApplyAll(ApplyAll(xs, owner, a), owner, b)
    decreases |a|
  {
    if a != [] {
      assert (a + b)[0] == a[0];
      assert (a + b)[1..] == a[1..] + b;
      ApplyConcat(Apply(xs, owner, a[0]), owner, a[1..], b);
    } else {
      assert a + b == b;
    }
  }

  lemma {:induction false} ApplyAllKeepsDisowned(xs: seq<Schedule>, owner: OwnerId, reqs: seq<Request>, id: ScheduleId)
    requires Disowned(xs, owner, id)
    ensures Disowned(ApplyAll(xs, owner, reqs), owner, id)
    decreases |reqs|
  {
    if reqs != [] {
      ApplyKeepsDisowned(xs, owner, reqs[0], id);
      ApplyAllKeepsDisowned(Apply(xs, owner, reqs[0]), owner, reqs[1..], id);
    }
  }

  /** After the requests are written, none of their targets is held by the releasing scheduler. */
  lemma {:induction false} ApplyAllDisowns(xs: seq<Schedule>, owner: OwnerId, reqs: seq<Request>)
    ensures forall k :: 0 <= k < |reqs| ==> Disowned(ApplyAll(xs, owner, reqs), owner, reqs[k].id)
    decreases |reqs|
  {
    if reqs != [] {
      var ys := Apply(xs, owner, reqs[0]);
      ApplyAllDisowns(ys, owner, reqs[1..]);
      ApplyDisowns(xs, owner, reqs[0]);
      ApplyAllKeepsDisowned(ys, owner, reqs[1..], reqs[0].id);
      forall k | 1 <= k < |reqs|
        ensures Disowned(ApplyAll(xs, owner, reqs), owner, reqs[k].id)
      {
        assert reqs[k] == reqs[1..][k - 1];
      }
    }
  }

  lemma {:induction false} ApplyAllNoop(ys: seq<Schedule>, owner: OwnerId, reqs: seq<Request>)
    requires forall k :: 0 <= k < |reqs| ==> Disowned(ys, owner, reqs[k].id)
    ensures ApplyAll(ys, owner, reqs) == ys
    decreases |reqs|
  {
    if reqs != [] {
      ApplyNoop(ys, owner, reqs[0]);
      assert forall k :: 0 <= k < |reqs[1..]| ==> reqs[1..][k] == reqs[k + 1];
      ApplyAllNoop(ys, owner, reqs[1..]);
    }
  }

  /** Writing the same guarded requests a second time has no further effect. */
  lemma ApplyAllIdempotent(xs: seq<Schedule>, owner: OwnerId, reqs: seq<Request>)
    ensures ApplyAll(ApplyAll(xs, owner, reqs), owner, reqs) == ApplyAll(xs, owner, reqs)
  {
    ApplyAllDisowns(xs, owner, reqs);
    ApplyAllNoop(ApplyAll(xs, owner, reqs), owner, reqs);
  }

  lemma {:induction false} ApplyAllFindOther(xs: seq<Schedule>, owner: OwnerId, reqs: seq<Request>, id: ScheduleId)
    requires forall k :: 0 <= k < |reqs| ==> reqs[k].id != id
    ensures FindSchedule(ApplyAll(xs, owner, reqs), id) == FindSchedule(xs, id)
    decreases |reqs|
  {
    if reqs != [] {
      ApplyFindOther(xs, owner, reqs[0], id);
      assert forall k :: 0 <= k < |reqs[1..]| ==> reqs[1..][k] == reqs[k + 1];
      ApplyAllFindOther(Apply(xs, owner, reqs[0]), owner, reqs[1..], id);
    }
  }

  lemma {:induction false} ApplyAllGuard(xs: seq<Schedule>, owner: OwnerId, reqs: seq<Request>, x: Schedule)
    requires FindSchedule(xs, x.id) == Some(x) && !Owned(x, owner)
    ensures FindSchedule(ApplyAll(xs, owner, reqs), x.id) == Some(x)
    decreases |reqs|
  {
    if reqs != [] {
      ApplyGuard(xs, owner, reqs[0], x);
      ApplyAllGuard(Apply(xs, owner, reqs[0]), owner, reqs[1..], x);
    }
  }

  lemma {:induction false} ApplyAllKeepsUnique(xs: seq<Schedule>, owner: OwnerId, reqs: seq<Request>)
    requires UniqueScheduleIds(xs)
    ensures UniqueScheduleIds(ApplyAll(xs, owner, reqs))
    decreases |reqs|
  {
    if reqs != [] {
      ApplyKeepsUnique(xs, owner, reqs[0]);
      ApplyAllKeepsUnique(Apply(xs, owner, reqs[0]), owner, reqs[1..]);
    }
  }

  // ---------------------------------------------------------------------
  // Properties of release
  // ---------------------------------------------------------------------

  /**
   Ownership guard of `release_schedules`: a stored schedule that the
   releasing scheduler does not hold comes out unchanged, whatever the
   caller passed; so does one the caller did not pass at all.
   */
  lemma RequestsLeaveOthersAlone(xs: seq<Schedule>, schedulerId: OwnerId, ss: seq<Schedule>, x: Schedule)
    requires FindSchedule(xs, x.id) == Some(x)
    requires OutOfReach(ss, schedulerId, x)
    ensures FindSchedule(ApplyAll(xs, schedulerId, Requests(ss)), x.id) == Some(x)
  {
    if !Owned(x, schedulerId) {
      ApplyAllGuard(xs, schedulerId, Requests(ss), x);
    } else {
      ApplyAllFindOther(xs, schedulerId, Requests(ss), x.id);
    }
  }

  /**
   A schedule the releasing scheduler holds, passed once: with a next fire
   time and a serializable trigger it stays, its lease cleared and its
   trigger and fire time taken from the caller's copy; otherwise it is
   deleted.
   */
  lemma RequestsOwned(xs: seq<Schedule>, schedulerId: OwnerId, ss: seq<Schedule>, k: nat, x: Schedule)
    requires UniqueScheduleIds(xs)
    requires PassedOnce(ss, k)
    requires FindSchedule(xs, ss[k].id) == Some(x) && Owned(x, schedulerId)
    ensures FindSchedule(ApplyAll(xs, schedulerId, Requests(ss)), ss[k].id) == Released(x, ss[k])
  {
    var id := ss[k].id;
    var reqs := Requests(ss);
    var before, req, after := reqs[..k], reqs[k], reqs[k + 1..];
    assert reqs == before + ([req] + after);
    ApplyConcat(xs, schedulerId, before, [req] + after);
    var ys := ApplyAll(xs, schedulerId, before);
    ApplyConcat(ys, schedulerId, [req], after);
    assert ApplyAll(ys, schedulerId, [req]) == Apply(ys, schedulerId, req);
    var zs := Apply(ys, schedulerId, req);
    ApplyAllFindOther(xs, schedulerId, before, id);
    ApplyAllFindOther(zs, schedulerId, after, id);
    if Rearms(ss[k]) {
      ApplyRearms(ys, schedulerId, req, x);
    } else {
      ApplyAllKeepsUnique(xs, schedulerId, before);
      forall i | 0 <= i < |ys| && ys[i].id == id
        ensures Owned(ys[i], schedulerId)
      {
        var m :| 0 <= m < |ys| && ys[m] == x;
        assert i == m;
      }
      ApplyRetires(ys, schedulerId, req);
    }
  }

  /** Release keeps ids unique. */
  lemma ReleaseKeepsValid(st: Store, schedulerId: OwnerId, ss: seq<Schedule>)
    requires Valid(st)
    ensures Valid(ReleaseSchedules(st, schedulerId, ss).store)
  {
    ApplyAllKeepsUnique(st.schedules, schedulerId, Requests(ss));
  }

  // ---------------------------------------------------------------------
  // The loop as written, against the intended release
  // ---------------------------------------------------------------------

  lemma {:induction false} FlushLoopNetEffect(xs0: seq<Schedule>, owner: OwnerId, ss: seq<Schedule>, i: nat,
                                              cur: seq<Schedule>)
    requires i <= |ss|
    requires cur == ApplyAll(xs0, owner, Requests(ss)[..FlushPoint(ss, i)])
    ensures FlushLoop(cur, owner, ss, i) == ApplyAll(xs0, owner, Requests(ss)[..FlushPoint(ss, |ss|)])
    decreases |ss| - i
  {
    if i < |ss| {
      var next := FlushNext(xs0, owner, ss, i, cur);
      FlushLoopNetEffect(xs0, owner, ss, i + 1, next);
    }
  }

  /**
   One iteration of the loop as written: afterwards the collection is the
   one the requests up to the new flush point produce.
   */
  lemma FlushNext(xs0: seq<Schedule>, owner: OwnerId, ss: seq<Schedule>, i: nat, cur: seq<Schedule>)
    returns (next: seq<Schedule>)
    requires i < |ss|
    requires cur == ApplyAll(xs0, owner, Requests(ss)[..FlushPoint(ss, i)])
    ensures FlushLoop(cur, owner, ss, i) == FlushLoop(next, owner, ss, i + 1)
    ensures next == ApplyAll(xs0, owner, Requests(ss)[..FlushPoint(ss, i + 1)])
  {
    if SerializationFails(ss[i]) {
      next := cur;
      assert FlushPoint(ss, i + 1) == FlushPoint(ss, i);
    } else {
      next := FlushStep(xs0, owner, ss, i, cur);
    }
  }

  /** One iteration that writes: the collection it leaves is the one the first `i + 1` requests produce. */
  lemma FlushStep(xs0: seq<Schedule>, owner: OwnerId, ss: seq<Schedule>, i: nat, cur: seq<Schedule>)
    returns (next: seq<Schedule>)
    requires i < |ss| && !SerializationFails(ss[i])
    requires cur == ApplyAll(xs0, owner, Requests(ss)[..FlushPoint(ss, i)])
    ensures FlushLoop(cur, owner, ss, i) == FlushLoop(next, owner, ss, i + 1)
    ensures next == ApplyAll(xs0, owner, Requests(ss)[..FlushPoint(ss, i + 1)])
  {
    var reqs := Requests(ss);
    next := ApplyAll(cur, owner, reqs[..i + 1]);
    RewritePrefix(xs0, owner, reqs, FlushPoint(ss, i), i + 1);
  }

  /** Writing a longer run of requests over a collection that already has a prefix of them applied changes nothing extra. */
  lemma RewritePrefix(xs0: seq<Schedule>, owner: OwnerId, reqs: seq<Request>, f: nat, n: nat)
    requires f <= n <= |reqs|
    ensures ApplyAll(ApplyAll(xs0, owner, reqs[..f]), owner, reqs[..n]) == ApplyAll(xs0, owner, reqs[..n])
  {
    var written := reqs[..f];
    assert reqs[..n] == written + reqs[f..n];
    ApplyConcat(ApplyAll(xs0, owner, written), owner, written, reqs[f..n]);
    ApplyAllIdempotent(xs0, owner, written);
    ApplyConcat(xs0, owner, written, reqs[f..n]);
  }

  /** When the last schedule passed in serializes (or none is passed), the loop as written does what is intended. */
  lemma ReleaseAsWrittenAgrees(st: Store, schedulerId: OwnerId, ss: seq<Schedule>)
    requires ss == [] || !SerializationFails(ss[|ss| - 1])
    ensures ReleaseSchedulesAsWritten(st, schedulerId, ss) == ReleaseSchedules(st, schedulerId, ss)
  {
    assert Requests(ss)[..|ss|] == Requests(ss);
  }

  /**
   The discrepancy: releasing a single held schedule whose trigger cannot be
   serialized announces its removal, yet the loop as written never deletes
   it, while the intended release does.
   */
  lemma ReleaseAsWrittenKeepsUnserializable()
    ensures var x := Schedule("s1", "t1", "trigger", false, Some(5), Some("A"), Some(100));
            var st := Store(map[], [x], [], map[], []);
            && ReleaseSchedulesAsWritten(st, "A", [x]).store.schedules == [x]
            && ReleaseSchedules(st, "A", [x]).store.schedules == []
            && ReleaseSchedulesAsWritten(st, "A", [x]).store.events == [ScheduleRemoved("s1")]
  {
    var x := Schedule("s1", "t1", "trigger", false, Some(5), Some("A"), Some(100));
    assert Requests([x]) == [DeleteOne("s1")];
    assert Apply([x], "A", DeleteOne("s1")) == [];
    assert Filter([x], Rearms) == [];
    assert Filter([x], Retires) == [x];
  }
}
