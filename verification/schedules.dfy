/**
 Schedule documents: insertion under a conflict policy, bulk removal, lease
 acquisition by a scheduler and the earliest pending fire time.
 */
module Schedules {
  import opened Wrappers
  import opened Sequences
  import opened DataStore

  /** What `add_schedule` does when the schedule's id is already taken. */
  datatype ConflictPolicy = Replace | DoNothing | Exception

  /** The first stored schedule with the given id, if any. */
  function FindSchedule(xs: seq<Schedule>, id: ScheduleId): (r: Option<Schedule>)
    ensures r.Some? ==> r.value in xs && r.value.id == id
    ensures r.None? <==> !HasSchedule(xs, id)
  {
    if xs == [] then None
    else if xs[0].id == id then Some(xs[0])
    else
      var r := FindSchedule(xs[1..], id);
      assert HasSchedule(xs[1..], id) ==> HasSchedule(xs, id) by {
        if HasSchedule(xs[1..], id) {
          var i :| 0 <= i < |xs[1..]| && xs[1..][i].id == id;
          assert xs[i + 1].id == id;
        }
      }
      r
  }

  /** Overwrites, in place, the stored schedule carrying `s.id` by `s`. */
  function ReplaceSchedule(xs: seq<Schedule>, s: Schedule): (r: seq<Schedule>)
    ensures |r| == |xs|
    ensures forall i :: 0 <= i < |xs| ==> r[i] == if xs[i].id == s.id then s else xs[i]
  {
    seq(|xs|, i requires 0 <= i < |xs| => if xs[i].id == s.id then s else xs[i])
  }

  /**
   Inserts a schedule. The trigger is serialized first, so an unserializable
   trigger raises before anything is written. A fresh id is appended and
   announced with ScheduleAdded. On a taken id, `Exception` raises
   ConflictingIdError, `Replace` overwrites the stored document and announces
   ScheduleUpdated, and any other policy drops the insert silently.
   */
  function AddSchedule(st: Store, s: Schedule, policy: ConflictPolicy): (r: Reply<Result<(), StoreError>>)
    ensures OnlySchedulesChanged(st, r.store)
    ensures r.value.Err? ==> r.store == st
    ensures r.value == Err(SerializationError(s.id)) <==> !s.triggerSerializable
    ensures r.value == Err(ConflictingIdError(s.id)) <==>
      s.triggerSerializable && HasSchedule(st.schedules, s.id) && policy == Exception
    ensures r.value.Ok? && !HasSchedule(st.schedules, s.id) ==>
      r.store.schedules == st.schedules + [s] && r.store.events == st.events + [ScheduleAdded(s.id, s.nextFireTime)]
    ensures r.value.Ok? <==> s.triggerSerializable && !(HasSchedule(st.schedules, s.id) && policy == Exception)
    ensures r.value.Ok? && HasSchedule(st.schedules, s.id) && policy == Replace ==>
      r.store.schedules == ReplaceSchedule(st.schedules, s) &&
      FindSchedule(r.store.schedules, s.id) == Some(s) &&
      r.store.events == st.events + [ScheduleUpdated(s.id, s.nextFireTime)]
    ensures HasSchedule(st.schedules, s.id) && policy == DoNothing ==> r.store == st
  {
    if !s.triggerSerializable then Reply(st, Err(SerializationError(s.id)))
    else if !HasSchedule(st.schedules, s.id) then
      Reply(st.(schedules := st.schedules + [s], events := st.events + [ScheduleAdded(s.id, s.nextFireTime)]), Ok(()))
    else
      match policy
      case Exception => Reply(st, Err(ConflictingIdError(s.id)))
      case Replace =>
        var xs := ReplaceSchedule(st.schedules, s);
        ReplacedIsFound(st.schedules, s);
        Reply(st.(schedules := xs, events := st.events + [ScheduleUpdated(s.id, s.nextFireTime)]), Ok(()))
      case DoNothing => Reply(st, Ok(()))
  }

  lemma {:induction false} ReplacedIsFound(xs: seq<Schedule>, s: Schedule)
    requires HasSchedule(xs, s.id)
    ensures FindSchedule(ReplaceSchedule(xs, s), s.id) == Some(s)
  {
    var ys := ReplaceSchedule(xs, s);
    var i :| 0 <= i < |xs| && xs[i].id == s.id;
    assert ys[i] == s;
    assert HasSchedule(ys, s.id);
    var found := FindSchedule(ys, s.id);
    var k :| 0 <= k < |ys| && ys[k] == found.value;
  }

  /** Schedule insertion keeps ids unique. */
  lemma AddScheduleKeepsValid(st: Store, s: Schedule, policy: ConflictPolicy)
    requires Valid(st)
    ensures Valid(AddSchedule(st, s, policy).store)
  {
    var xs := st.schedules;
    if s.triggerSerializable && !HasSchedule(xs, s.id) {
      var ys := xs + [s];
      forall i, j | 0 <= i < j < |ys|
        ensures ys[i].id != ys[j].id
      {
        if j == |xs| {
          assert xs[i].id != s.id;
        }
      }
    }
  }

  /** Under a conflicting id, exactly one of: an error, a single ScheduleUpdated, or no effect at all. */
  lemma ConflictOutcomes(st: Store, s: Schedule, policy: ConflictPolicy)
    requires s.triggerSerializable && HasSchedule(st.schedules, s.id)
    ensures policy == Exception ==> AddSchedule(st, s, policy) == Reply(st, Err(ConflictingIdError(s.id)))
    ensures policy == Replace ==> |AddSchedule(st, s, policy).store.events| == |st.events| + 1
    ensures policy == DoNothing ==> AddSchedule(st, s, policy) == Reply(st, Ok(()))
  {
  }

  /** Whether `remove_schedules` selects the schedule: every schedule when no ids are given. */
  predicate Selected(ids: Option<set<ScheduleId>>, x: Schedule) {
    ids.None? || x.id in ids.value
  }

  function RemovedEvents(xs: seq<Schedule>): (r: seq<Event>)
    ensures |r| == |xs|
    ensures forall i :: 0 <= i < |xs| ==> r[i] == ScheduleRemoved(xs[i].id)
  {
    seq(|xs|, i requires 0 <= i < |xs| => ScheduleRemoved(xs[i].id))
  }

  /** `Selected` as a filter for the given selection. */
  function SelectedBy(ids: Option<set<ScheduleId>>): Schedule -> bool {
    x => Selected(ids, x)
  }

  /**
   Deletes the selected schedules and announces a ScheduleRemoved for each
   one that existed, in storage order; ids with no stored schedule produce
   no event.
   */
  function RemoveSchedules(st: Store, ids: Option<set<ScheduleId>>): (r: Reply<()>)
    ensures OnlySchedulesChanged(st, r.store)
    ensures forall x :: x in r.store.schedules <==> x in st.schedules && !Selected(ids, x)
    ensures IsSubsequence(r.store.schedules, st.schedules)
    ensures |st.events| <= |r.store.events|
    ensures |r.store.events| - |st.events| + |r.store.schedules| == |st.schedules|
    ensures r.store.events[..|st.events|] == st.events
    ensures forall k :: |st.events| <= k < |r.store.events| ==>
      exists i :: 0 <= i < |st.schedules| && Selected(ids, st.schedules[i]) &&
        r.store.events[k] == ScheduleRemoved(st.schedules[i].id)
    ensures r.store.events[|st.events|..] == RemovedEvents(Filter(st.schedules, SelectedBy(ids)))
  {
    var removed := Filter(st.schedules, SelectedBy(ids));
    var kept := Filter(st.schedules, x => !Selected(ids, x));
    FilterPartition(st.schedules, SelectedBy(ids), x => !Selected(ids, x));
    Reply(st.(schedules := kept, events := st.events + RemovedEvents(removed)), ())
  }

  /** The `acquire_schedules` filter: a fire time strictly before `now`, and no live lease. */
  predicate Due(x: Schedule, now: Timestamp) {
    x.nextFireTime.Some? && x.nextFireTime.value < now && LeaseFree(x.acquiredUntil, now)
  }

  /** The sort key of schedule acquisition (only ever applied to schedules with a fire time). */
  function FireKey(x: Schedule): int {
    x.nextFireTime.GetOr(0)
  }

  function IdsOf(xs: seq<Schedule>): set<ScheduleId> {
    set x | x in xs :: x.id
  }

  /** The stored copy of a schedule once `owner` holds its lease until `until`. */
  function Leased(x: Schedule, owner: OwnerId, until: Timestamp): Schedule {
    x.(acquiredBy := Some(owner), acquiredUntil := Some(until))
  }

  /**
   The schedules `acquire_schedules` selects: the due ones, sorted by fire
   time, cut to `limit` (0 means no limit).
   */
  function PickDue(xs: seq<Schedule>, now: Timestamp, limit: nat): (r: seq<Schedule>)
    ensures limit > 0 ==> |r| <= limit
    ensures SortedBy(r, FireKey)
    ensures forall k :: 0 <= k < |r| ==> r[k] in xs && Due(r[k], now)
    ensures forall x :: x in xs && Due(x, now) && x !in r ==>
      limit > 0 && |r| == limit && forall k :: 0 <= k < |r| ==> FireKey(r[k]) <= FireKey(x)
    ensures multiset(r) <= multiset(xs)
  {
    Query(xs, x => Due(x, now), FireKey, limit)
  }

  /** Writes the lease of `owner` until `until` on every stored schedule whose id is in `ids`. */
  function LeaseSchedules(xs: seq<Schedule>, ids: set<ScheduleId>, owner: OwnerId, until: Timestamp)
    : (r: seq<Schedule>)
    ensures |r| == |xs|
    ensures forall i :: 0 <= i < |xs| ==> r[i].id == xs[i].id
    ensures forall i :: 0 <= i < |xs| && xs[i].id in ids ==> r[i] == Leased(xs[i], owner, until)
    ensures forall i :: 0 <= i < |xs| && xs[i].id !in ids ==> r[i] == xs[i]
  {
    seq(|xs|, i requires 0 <= i < |xs| => if xs[i].id in ids then Leased(xs[i], owner, until) else xs[i])
  }

  /**
   Leases up to `limit` due schedules (0 means no limit) in ascending order
   of fire time to `schedulerId` until `now + leaseDelay`. The returned
   copies are the documents as read, before the lease was written. No event
   is published.
   */
  function AcquireSchedules(st: Store, now: Timestamp, schedulerId: OwnerId, limit: nat, leaseDelay: int)
    : (r: Reply<seq<Schedule>>)
    ensures OnlySchedulesChanged(st, r.store) && r.store.events == st.events
    ensures r.value == PickDue(st.schedules, now, limit)
    ensures |r.store.schedules| == |st.schedules|
    ensures forall i :: 0 <= i < |st.schedules| && st.schedules[i].id in IdsOf(r.value) ==>
      r.store.schedules[i] == Leased(st.schedules[i], schedulerId, now + leaseDelay)
    ensures forall i :: 0 <= i < |st.schedules| && st.schedules[i].id !in IdsOf(r.value) ==>
      r.store.schedules[i] == st.schedules[i]
  {
    var picked := PickDue(st.schedules, now, limit);
    var ids := IdsOf(picked);
    var leased := LeaseSchedules(st.schedules, ids, schedulerId, now + leaseDelay);
    Reply(st.(schedules := leased), picked)
  }

  /** The earliest fire time of any stored schedule, leased or not; None when no schedule has one. */
  function GetNextScheduleRunTime(xs: seq<Schedule>): (r: Option<Timestamp>)
    ensures r.None? <==> forall i :: 0 <= i < |xs| ==> xs[i].nextFireTime.None?
    ensures r.Some? ==> exists i :: 0 <= i < |xs| && xs[i].nextFireTime == r
    ensures r.Some? ==> forall i :: 0 <= i < |xs| && xs[i].nextFireTime.Some? ==> r.value <= xs[i].nextFireTime.value
  {
    if xs == [] then None
    else
      var rest := GetNextScheduleRunTime(xs[1..]);
      assert forall i :: 1 <= i < |xs| ==> xs[i] == xs[1..][i - 1];
      if xs[0].nextFireTime.None? then rest
      else if rest.None? || xs[0].nextFireTime.value <= rest.value then xs[0].nextFireTime
      else rest
  }

  /** Every stored schedule carrying one of `ids` is leased until `until`. */
  ghost predicate LeasedUntil(xs: seq<Schedule>, ids: set<ScheduleId>, until: Timestamp) {
    forall i :: 0 <= i < |xs| && xs[i].id in ids ==> xs[i].acquiredUntil == Some(until)
  }

  /** No schedule of `xs` carries an id in `ids`. */
  ghost predicate NoneCarries(xs: seq<Schedule>, ids: set<ScheduleId>) {
    forall k :: 0 <= k < |xs| ==> xs[k].id !in ids
  }

  /** After acquisition, every schedule it returned is stored with a lease until `now + delay`. */
  lemma AcquireLeasesPicked(st: Store, now: Timestamp, owner: OwnerId, limit: nat, delay: int)
    ensures var r := AcquireSchedules(st, now, owner, limit, delay);
            LeasedUntil(r.store.schedules, IdsOf(r.value), now + delay)
  {
    var r := AcquireSchedules(st, now, owner, limit, delay);
    var ys := r.store.schedules;
    forall i | 0 <= i < |ys| && ys[i].id in IdsOf(r.value)
      ensures ys[i].acquiredUntil == Some(now + delay)
    {
      assert ys[i].id == st.schedules[i].id;
    }
  }

  /**
   Acquisition at a time no later than `until` returns none of the schedules
   leased until `until`, whoever holds them. Together with
   AcquireLeasesPicked: a schedule just leased with a non-negative delay
   cannot be acquired again, by any scheduler, before its lease runs out.
   */
  lemma ScheduleLeaseExclusive(st: Store, ids: set<ScheduleId>, until: Timestamp, now: Timestamp, owner: OwnerId,
                               limit: nat, delay: int)
    requires now <= until && LeasedUntil(st.schedules, ids, until)
    ensures NoneCarries(AcquireSchedules(st, now, owner, limit, delay).value, ids)
  {
    var picked := PickDue(st.schedules, now, limit);
    forall k | 0 <= k < |picked|
      ensures picked[k].id !in ids
    {
      var i :| 0 <= i < |st.schedules| && st.schedules[i] == picked[k];
    }
  }

  /** Acquisition stamps leases only; it keeps ids unique. */
  lemma AcquireSchedulesKeepsValid(st: Store, now: Timestamp, owner: OwnerId, limit: nat, delay: int)
    requires Valid(st)
    ensures Valid(AcquireSchedules(st, now, owner, limit, delay).store)
  {
  }

  /** Removal keeps ids unique. */
  lemma RemoveSchedulesKeepsValid(st: Store, ids: Option<set<ScheduleId>>)
    requires Valid(st)
    ensures Valid(RemoveSchedules(st, ids).store)
  {
    var kept := RemoveSchedules(st, ids).store.schedules;
    UniqueSubsequence(kept, st.schedules);
  }

  lemma {:induction false} UniqueSubsequence(a: seq<Schedule>, b: seq<Schedule>)
    requires IsSubsequence(a, b)
    requires UniqueScheduleIds(b)
    ensures UniqueScheduleIds(a)
    decreases |b|
  {
    if a != [] {
      if a[0] == b[0] && IsSubsequence(a[1..], b[1..]) {
        UniqueSubsequence(a[1..], b[1..]);
        SubsequenceMembers(a[1..], b[1..]);
        forall i, j | 0 <= i < j < |a|
          ensures a[i].id != a[j].id
        {
          if i == 0 {
            assert a[j] == a[1..][j - 1];
            var m :| 0 <= m < |b[1..]| && b[1..][m] == a[j];
            assert b[m + 1] == a[j];
          } else {
            assert a[i] == a[1..][i - 1] && a[j] == a[1..][j - 1];
          }
        }
      } else {
        UniqueSubsequence(a, b[1..]);
      }
    }
  }
}
