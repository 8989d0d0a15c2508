/** The dispatcher's loop with its peek and its dispatch as separate steps:
    jobs may be added and removed between the two. */
module Launching {
  import opened Basics
  import opened HeapOrder
  import opened Schedule

  /** What the loop took from the heap and will dispatch when the timer fires. */
  datatype Peek = Peek(id: string, period: int, launch: Time)

  /** `removed`: the peeked job was removed since.  `clean`: no removed job was dispatched so far. */
  datatype Loop = Loop(s: State, peeked: Option<Peek>, removed: bool, clean: bool)

  datatype Action =
    | Change(op: Op)        // Add or Remove by another thread
    | Look(id: string)      // nextLaunch
    | Again                 // the update signal: the loop looks again
    | Dispatch(now: Time)   // the timer fires

  predicate First(s: State, id: string) {
    id in s.tasks && forall other :: other in s.tasks ==> !Earlier(s.tasks[other].next, s.tasks[id].next)
  }

  predicate Possible(l: Loop, a: Action) {
    match a
    case Change(op) => !op.Fire? && Enabled(l.s, op)
    case Look(id) => l.peeked.None? && First(l.s, id)
    case Again => l.peeked.Some?
    case Dispatch(now) =>
      l.peeked.Some? && l.peeked.value.launch != ZERO_TIME && l.peeked.value.launch <= now && now >= l.s.now
  }

  /** `dispatch`: replans the job if it is there, and launches it in any case. */
  function Launched(s: State, p: Peek, now: Time): State {
    s.(now := now, log := s.log + [Launch(p.id, p.launch)],
       tasks := if p.id in s.tasks then s.tasks[p.id := s.tasks[p.id].(next := p.launch + p.period)] else s.tasks)
  }

  function Next(l: Loop, a: Action): Loop
    requires Possible(l, a)
  {
    match a
    case Change(op) =>
      l.(s := Step(l.s, op), removed := l.removed || (op.Remove? && l.peeked.Some? && l.peeked.value.id == op.id))
    case Look(id) => l.(peeked := Some(Peek(id, l.s.tasks[id].period, l.s.tasks[id].next)), removed := false)
    case Again => l.(peeked := None)
    case Dispatch(now) => l.(s := Launched(l.s, l.peeked.value, now), peeked := None, clean := l.clean && !l.removed)
  }

  /** Unless it was removed, the peeked job is planned as it was when the loop looked. */
  ghost predicate Inv(l: Loop) {
    && (l.clean ==> AllOnTime(l.s))
    && (l.peeked.Some? && !l.removed ==>
          var p := l.peeked.value;
          p.id in l.s.tasks && l.s.tasks[p.id].next == p.launch && l.s.tasks[p.id].period == p.period)
  }

  /** A dispatch keeps every job on time if and only if the job is gone or still
      has the next launch that follows from the one dispatched. */
  lemma DispatchOnTimeIff(s: State, p: Peek, now: Time)
    requires AllOnTime(s)
    ensures AllOnTime(Launched(s, p, now)) <==>
            p.id !in s.tasks || p.launch + p.period == s.tasks[p.id].next + s.tasks[p.id].period
  {
    var s' := Launched(s, p, now);
    forall id | id in s'.tasks
      ensures OnTime(s', id) <==> StillRight(s, p, id)
    {
      OneOnTimeIff(s, p, now, id);
    }
    assert p.id in s.tasks ==> p.id in s'.tasks;
  }

  predicate StillRight(s: State, p: Peek, id: string)
    requires id in s.tasks
  {
    id != p.id || p.launch + p.period == s.tasks[id].next + s.tasks[id].period
  }

  lemma OneOnTimeIff(s: State, p: Peek, now: Time, id: string)
    requires id in s.tasks && OnTime(s, id)
    ensures OnTime(Launched(s, p, now), id) <==> StillRight(s, p, id)
  {
    LaunchesAppend(s.log, s.tasks[id].since, Launch(p.id, p.launch), id);
  }

  lemma NextInv(l: Loop, a: Action)
    requires Inv(l) && Possible(l, a)
    ensures Inv(Next(l, a))
  {
    match a
    case Change(op) =>
      if l.clean && op.Add? { AddOnTime(l.s, op.id, op.period, op.now); }
      if l.clean && op.Remove? { RemoveOnTime(l.s, op.id); }
    case Look(id) =>
    case Again =>
    case Dispatch(now) =>
      if l.clean { DispatchOnTimeIff(l.s, l.peeked.value, now); }
  }

  ghost predicate Run(loops: seq<Loop>, actions: seq<Action>) {
    && |loops| == |actions| + 1 && loops[0] == Loop(INITIAL, None, false, true)
    && forall i :: 0 <= i < |actions| ==> Possible(loops[i], actions[i]) && loops[i + 1] == Next(loops[i], actions[i])
  }

  /** In every run in which no job is removed between the look at it and its
      dispatch, each planned launch is the first plus a period per launch. */
  lemma {:induction false} OnTimeUnlessRemoved(loops: seq<Loop>, actions: seq<Action>, n: nat)
    requires Run(loops, actions) && n <= |actions|
    ensures Inv(loops[n]) && (loops[n].clean ==> AllOnTime(loops[n].s))
  {
    if n > 0 {
      OnTimeUnlessRemoved(loops, actions, n - 1);
      NextInv(loops[n - 1], actions[n - 1]);
      assert loops[n] == Next(loops[n - 1], actions[n - 1]);
    }
  }

  lemma {:induction false} StillPeeked(loops: seq<Loop>, actions: seq<Action>, i: nat, k: nat, id: string)
    requires Run(loops, actions) && i < k <= |actions| && actions[i] == Look(id)
    requires forall j :: i < j < k ==> actions[j].Change?
    ensures id in loops[i].s.tasks
    ensures var t := loops[i].s.tasks[id]; loops[k].peeked == Some(Peek(id, t.period, t.next))
  {
    assert Possible(loops[k - 1], actions[k - 1]) && loops[k] == Next(loops[k - 1], actions[k - 1]);
    if i < k - 1 {
      StillPeeked(loops, actions, i, k - 1, id);
    }
  }

  /** In every run the job looked at is launched when the timer fires, at the
      time it had then, whatever is added and removed in between. */
  lemma LookedAtIsLaunched(loops: seq<Loop>, actions: seq<Action>, i: nat, k: nat, id: string)
    requires Run(loops, actions) && i < k < |actions| && actions[i] == Look(id) && actions[k].Dispatch?
    requires forall j :: i < j < k ==> actions[j].Change?
    ensures id in loops[i].s.tasks
    ensures loops[k + 1].s.log == loops[k].s.log + [Launch(id, loops[i].s.tasks[id].next)]
  {
    StillPeeked(loops, actions, i, k, id);
    assert Possible(loops[k], actions[k]) && loops[k + 1] == Next(loops[k], actions[k]);
  }

  /** A job looked at, removed and added again, about to be dispatched for its old plan. */
  const STALE := Loop(State(12, map["a" := Task(10, 22, 0, 22)], [], true), Some(Peek("a", 10, 11)), true, true)

  lemma StaleRun() returns (loops: seq<Loop>, actions: seq<Action>)
    ensures Run(loops, actions) && loops[|actions|] == STALE && Possible(STALE, Dispatch(12))
  {
    var a := [Change(Add("a", 10, 1)), Look("a"), Change(Remove("a")), Change(Add("a", 10, 12))];
    var planned := State(1, map["a" := Task(10, 11, 0, 11)], [], true);
    var l0 := Loop(INITIAL, None, false, true);
    var l1 := Loop(planned, None, false, true);
    var l2 := Loop(planned, Some(Peek("a", 10, 11)), false, true);
    var l3 := Loop(State(1, map[], [], true), Some(Peek("a", 10, 11)), true, true);
    assert Possible(l0, a[0]) && Next(l0, a[0]) == l1;
    assert Possible(l1, a[1]) && Next(l1, a[1]) == l2;
    assert planned.tasks - {"a"} == map[];
    assert Possible(l2, a[2]) && Next(l2, a[2]) == l3;
    assert Possible(l3, a[3]) && Next(l3, a[3]) == STALE;
    loops, actions := [l0, l1, l2, l3, STALE], a;
  }

  /** Dispatching it puts it off its new schedule. */
  lemma StaleDispatch()
    ensures AllOnTime(STALE.s) && !AllOnTime(Next(STALE, Dispatch(12)).s)
  {
    assert STALE.s.log[0..] == [] && OnTime(STALE.s, "a");
    DispatchOnTimeIff(STALE.s, STALE.peeked.value, 12);
  }
}
