/** `Dispatcher`: tracked jobs, the heap of their launches, and the events sent. */
module Dispatcher {
  import opened Basics
  import opened HeapOrder
  import opened PeriodicHeap
  import Schedule

  const EVENT_BUFFER := 10

  /** What the dispatcher knows: the tracked jobs and the planned launches; and
      the jobs it has offered to the event channel. */
  datatype View = View(tracked: map<string, PJob>, plans: map<string, Plan>, offered: seq<PJob>)

  /** A duplicate replaces the tracked job; the planned launch keeps the old one. */
  function AfterAdd(v: View, job: PJob, now: Time): View {
    v.(tracked := v.tracked[job.id := job], plans := Planned(v.plans, job, now + job.period))
  }

  function AfterRemove(v: View, id: string): View {
    v.(tracked := v.tracked - {id}, plans := v.plans - {id})
  }

  lemma PlanKeys(plans: map<string, Plan>, job: PJob, next: Time)
    ensures Planned(plans, job, next).Keys == plans.Keys + {job.id}
    ensures job.id in plans ==> Replanned(plans, job.id, next).Keys == plans.Keys
  {}

  /** A due job that no other job precedes. */
  ghost predicate CanFire(plans: map<string, Plan>, id: string, now: Time) {
    Minimal(plans, id) && plans[id].next != ZERO_TIME && plans[id].next <= now
  }

  function Fired(plans: map<string, Plan>, id: string): map<string, Plan>
    requires id in plans
  {
    Replanned(plans, id, plans[id].next + plans[id].value.period)
  }

  /** The launch time of a job has come; the zero time never does. */
  predicate Overdue(plans: map<string, Plan>, id: string, now: Time) {
    id in plans && plans[id].next != 0 && plans[id].next <= now
  }

  /** The earliest of the launch times that have come. */
  ghost predicate Foremost(plans: map<string, Plan>, id: string, now: Time) {
    Overdue(plans, id, now) && forall other :: Overdue(plans, other, now) ==> plans[id].next <= plans[other].next
  }

  /** What can fire is the earliest of what is due. */
  lemma FireIff(plans: map<string, Plan>, id: string, now: Time)
    ensures CanFire(plans, id, now) <==> Foremost(plans, id, now)
  {
    if Foremost(plans, id, now) {
      forall other | other in plans
        ensures !Earlier(plans[other].next, plans[id].next)
      {
        assert Overdue(plans, other, now) ==> plans[id].next <= plans[other].next;
      }
    }
    if CanFire(plans, id, now) {
      forall other | Overdue(plans, other, now)
        ensures plans[id].next <= plans[other].next
      {
        assert !Earlier(plans[other].next, plans[id].next);
      }
    }
  }

  /** If a job that no other precedes is not due, none is. */
  lemma NoneOverdue(plans: map<string, Plan>, first: string, now: Time)
    requires Minimal(plans, first) && (plans[first].next == ZERO_TIME || plans[first].next > now)
    ensures forall id :: !Overdue(plans, id, now)
  {
    forall id
      ensures !Overdue(plans, id, now)
    {
      assert id in plans ==> !Earlier(plans[id].next, plans[first].next);
    }
  }

  class Dispatcher {
    var tracked: map<string, PJob>
    const heap: PeriodicHeap
    /** The buffered event channel; a full one drops the event. */
    var events: seq<PJob>
    /** Every job offered to it. */
    ghost var offered: seq<PJob>

    ghost function Seen(): View
      reads this, heap
    {
      View(tracked, heap.plans, offered)
    }

    /** Tracked and planned jobs are the same. */
    ghost predicate Valid()
      reads this, heap, heap.items
    {
      && heap.Valid()
      && tracked.Keys == heap.plans.Keys
      && forall id :: id in tracked ==> tracked[id].id == id
    }

    constructor ()
      ensures Valid() && Seen() == View(map[], map[], []) && events == [] && fresh(heap)
    {
      tracked := map[];
      heap := new PeriodicHeap();
      events := [];
      offered := [];
    }

    method Add(job: PJob, now: Time) returns (ok: bool)
      requires Valid()
      modifies this`tracked, heap, heap.items
      ensures Valid() && fresh(heap.items - old(heap.items))
      ensures ok <==> job.id !in old(tracked)
      ensures Seen() == After(old(Seen()), Schedule.Add(job.id, job.period, now))
    {
      ok := Track(job, now + job.period);
      assert PJob(job.id, job.period) == job;
    }

    method Track(job: PJob, next: Time) returns (ok: bool)
      requires Valid()
      modifies this`tracked, heap, heap.items
      ensures Valid() && fresh(heap.items - old(heap.items))
      ensures ok <==> job.id !in old(tracked)
      ensures tracked == old(tracked)[job.id := job] && heap.plans == Planned(old(heap.plans), job, next)
    {
      ghost var plans := heap.plans;
      tracked := tracked[job.id := job];
      ok := heap.Push(job, next);
      PlanKeys(plans, job, next);
      assert tracked.Keys == heap.plans.Keys;
    }

    method Contains(id: string) returns (found: bool)
      requires Valid()
      ensures found <==> id in heap.plans
    {
      found := id in tracked;
    }

    /** The error of the heap's Remove is never seen. */
    method Remove(id: string) returns (failed: bool)
      requires Valid()
      modifies this`tracked, heap, heap.items
      ensures Valid() && !failed && heap.items <= old(heap.items)
      ensures Seen() == After(old(Seen()), Schedule.Remove(id))
    {
      assert id !in tracked ==> tracked - {id} == tracked && heap.plans - {id} == heap.plans;
      if id !in tracked {
        return false;
      }
      var job := tracked[id];
      tracked := tracked - {id};
      var ok := heap.Remove(job.id);
      return !ok;
    }

    method NextLaunch() returns (job: Option<PJob>, launch: Time)
      requires heap.Valid()
      ensures job.None? <==> heap.plans == map[]
      ensures job.None? ==> launch == ZERO_TIME
      ensures job.Some? ==> Minimal(heap.plans, job.value.id) && heap.plans[job.value.id] == Plan(job.value, launch)
    {
      var n := heap.Length();
      if n == 0 {
        return None, ZERO_TIME;
      }
      var item := heap.Peek();
      assert item.id in heap.plans;
      return Some(item.value), item.next;
    }

    /** Plans the job's next launch and offers the event. */
    method Dispatch(job: PJob, launch: Time)
      requires heap.Valid()
      modifies this`events, this`offered, heap, heap.items
      ensures heap.Valid() && heap.items == old(heap.items)
      ensures heap.plans == Replanned(old(heap.plans), job.id, launch + job.period)
      ensures offered == old(offered) + [job]
      ensures events == if |old(events)| < 10 then old(events) + [job] else old(events)
    {
      var nextLaunch := launch + job.period;
      var _ := heap.Update(job.id, nextLaunch);
      offered := offered + [job];
      if |events| < EVENT_BUFFER {
        events := events + [job];
      }
    }

    /** A turn of the run loop in which the launch timer fires at `now`, with
        no change between the peek and the dispatch. */
    method RunOnce(now: Time) returns (fired: Option<PJob>)
      requires Valid()
      modifies this`events, this`offered, heap, heap.items
      ensures Valid() && heap.items == old(heap.items)
      ensures fired.Some? ==>
        && Foremost(old(heap.plans), fired.value.id, now) && fired.value == old(heap.plans)[fired.value.id].value
        && Seen() == After(old(Seen()), Schedule.Fire(fired.value.id, now))
        && events == if |old(events)| < 10 then old(events) + [fired.value] else old(events)
      ensures fired.None? ==>
        Seen() == old(Seen()) && events == old(events) && forall id :: !Overdue(heap.plans, id, now)
    {
      fired := FireNext(now);
      if fired.Some? {
        PlanKeys(old(heap.plans), fired.value, old(heap.plans)[fired.value.id].next + fired.value.period);
        FireIff(old(heap.plans), fired.value.id, now);
      }
    }

    method FireNext(now: Time) returns (fired: Option<PJob>)
      requires heap.Valid()
      modifies this`events, this`offered, heap, heap.items
      ensures heap.Valid() && heap.items == old(heap.items)
      ensures fired.Some? ==>
        && CanFire(old(heap.plans), fired.value.id, now) && heap.plans == Fired(old(heap.plans), fired.value.id)
        && fired.value == old(heap.plans)[fired.value.id].value && offered == old(offered) + [fired.value]
        && events == if |old(events)| < 10 then old(events) + [fired.value] else old(events)
      ensures fired.None? ==>
        && heap.plans == old(heap.plans) && offered == old(offered) && events == old(events)
        && forall id :: !Overdue(heap.plans, id, now)
    {
      var job, launch := NextLaunch();
      if job.None? {
        return None;
      }
      if launch == ZERO_TIME || launch > now {
        NoneOverdue(heap.plans, job.value.id, now);
        return None;
      }
      assert Fired(heap.plans, job.value.id) == Replanned(heap.plans, job.value.id, launch + job.value.period);
      Dispatch(job.value, launch);
      return job;
    }
  }

  // ----- following the schedule -----

  ghost predicate Allowed(v: View, clock: Time, op: Schedule.Op) {
    match op
    case Add(_, _, now) => now >= clock
    case Remove(_) => true
    case Fire(id, now) => now >= clock && CanFire(v.plans, id, now)
  }

  function After(v: View, op: Schedule.Op): View
    requires op.Fire? ==> op.id in v.plans
  {
    match op
    case Add(id, period, now) => AfterAdd(v, PJob(id, period), now)
    case Remove(id) => AfterRemove(v, id)
    case Fire(id, _) => v.(plans := Fired(v.plans, id), offered := v.offered + [v.plans[id].value])
  }

  ghost predicate Follows(p: Plan, id: string, t: Schedule.Task) {
    p.value.id == id && p.value.period == t.period && p.next == t.next
  }

  /** The jobs offered, one for one, are those of a launch log. */
  ghost predicate Offers(offered: seq<PJob>, log: seq<Schedule.Launch>) {
    |offered| == |log| && forall i :: 0 <= i < |log| ==> offered[i].id == log[i].id
  }

  /** The planned launches are those of the schedule, and the jobs offered are those it has launched. */
  ghost predicate Agree(v: View, s: Schedule.State) {
    && Offers(v.offered, s.log)
    && v.tracked.Keys == v.plans.Keys == s.tasks.Keys
    && (forall id :: id in v.plans ==> Follows(v.plans[id], id, s.tasks[id]))
  }

  lemma AgreeOnDue(v: View, s: Schedule.State, id: string, now: Time)
    requires Agree(v, s)
    ensures CanFire(v.plans, id, now) <==> Schedule.Due(s, id, now)
  {
    if id in v.plans {
      assert Follows(v.plans[id], id, s.tasks[id]);
      assert forall other :: other in v.plans ==> Follows(v.plans[other], other, s.tasks[other]);
      if Schedule.Due(s, id, now) {
        forall other | other in v.plans
          ensures !Earlier(v.plans[other].next, v.plans[id].next)
        {
          assert !Earlier(s.tasks[other].next, s.tasks[id].next);
        }
      }
    }
  }

  /** Each operation takes agreeing states to agreeing states. */
  lemma AgreeStep(v: View, s: Schedule.State, op: Schedule.Op)
    requires Agree(v, s)
    ensures Allowed(v, s.now, op) <==> Schedule.Enabled(s, op)
    ensures Allowed(v, s.now, op) ==> Agree(After(v, op), Schedule.Step(s, op))
  {
    if op.Fire? {
      AgreeOnDue(v, s, op.id, op.now);
      if op.id in v.plans { assert Follows(v.plans[op.id], op.id, s.tasks[op.id]); }
    }
  }

  ghost predicate ViewRun(views: seq<View>, states: seq<Schedule.State>, ops: seq<Schedule.Op>) {
    && |views| == |states| == |ops| + 1
    && views[0] == View(map[], map[], []) && states[0] == Schedule.INITIAL
    && (forall i :: 0 <= i < |ops| ==>
          Allowed(views[i], states[i].now, ops[i]) && views[i + 1] == After(views[i], ops[i]))
    && (forall i :: 0 <= i < |ops| ==>
          Schedule.Enabled(states[i], ops[i]) ==> states[i + 1] == Schedule.Step(states[i], ops[i]))
  }

  /** Every run of the dispatcher follows the schedule, hence launches on time and in order. */
  lemma {:induction false} RunFollowsSchedule(views: seq<View>, states: seq<Schedule.State>, ops: seq<Schedule.Op>,
      n: nat)
    requires ViewRun(views, states, ops) && n <= |ops|
    ensures Agree(views[n], states[n]) && Schedule.Inv(states[n]) && Offers(views[n].offered, states[n].log)
  {
    if n > 0 {
      RunFollowsSchedule(views, states, ops, n - 1);
      AgreeStep(views[n - 1], states[n - 1], ops[n - 1]);
      assert Allowed(views[n - 1], states[n - 1].now, ops[n - 1]) && views[n] == After(views[n - 1], ops[n - 1]);
      Schedule.StepInv(states[n - 1], ops[n - 1]);
    }
  }
}
