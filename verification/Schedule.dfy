/** The schedule the dispatcher follows, as a machine over additions, removals and launches. */
module Schedule {
  import opened HeapOrder

  /** `first` is the first planned launch, `since` the length of the log when the job was added. */
  datatype Task = Task(period: int, first: Time, since: nat, next: Time)
  datatype Launch = Launch(id: string, at: Time)

  /** `calm`: the clock was positive and no added job had a negative period. */
  datatype State = State(now: Time, tasks: map<string, Task>, log: seq<Launch>, calm: bool)

  datatype Op =
    | Add(id: string, period: int, now: Time)
    | Remove(id: string)
    | Fire(id: string, now: Time)

  const INITIAL := State(0, map[], [], true)

  /** Adding a job that is already planned changes nothing. */
  function AddTask(s: State, id: string, period: int, now: Time): State {
    if id in s.tasks then s.(now := now)
    else s.(now := now, calm := s.calm && period >= 0 && now > 0,
            tasks := s.tasks[id := Task(period, now + period, |s.log|, now + period)])
  }

  function RemoveTask(s: State, id: string): State {
    s.(tasks := s.tasks - {id})
  }

  function FireTask(s: State, id: string, now: Time): State
    requires id in s.tasks
  {
    var t := s.tasks[id];
    s.(now := now, log := s.log + [Launch(id, t.next)], tasks := s.tasks[id := t.(next := t.next + t.period)])
  }

  /** A job is launched only when due, and only if no other job is due earlier. */
  predicate Due(s: State, id: string, now: Time) {
    && id in s.tasks && s.tasks[id].next != ZERO_TIME && s.tasks[id].next <= now
    && forall other :: other in s.tasks ==> !Earlier(s.tasks[other].next, s.tasks[id].next)
  }

  predicate Enabled(s: State, op: Op) {
    match op
    case Add(_, _, now) => now >= s.now
    case Remove(_) => true
    case Fire(id, now) => now >= s.now && Due(s, id, now)
  }

  function Step(s: State, op: Op): State
    requires Enabled(s, op)
  {
    match op
    case Add(id, period, now) => AddTask(s, id, period, now)
    case Remove(id) => RemoveTask(s, id)
    case Fire(id, now) => FireTask(s, id, now)
  }

  function Launches(log: seq<Launch>, id: string): nat {
    if log == [] then 0
    else Launches(log[..|log| - 1], id) + if log[|log| - 1].id == id then 1 else 0
  }

  lemma LaunchesAppend(log: seq<Launch>, since: nat, l: Launch, id: string)
    requires since <= |log|
    ensures Launches((log + [l])[since..], id) == Launches(log[since..], id) + if l.id == id then 1 else 0
  {
    assert (log + [l])[since..] == log[since..] + [l];
    assert (log[since..] + [l])[..|log| - since] == log[since..];
  }

  /** `n` periods, one after the other. */
  function Periods(period: int, n: nat): int {
    if n == 0 then 0 else Periods(period, n - 1) + period
  }

  lemma {:induction false} PeriodsIsProduct(period: int, n: nat)
    ensures Periods(period, n) == period * n
  {
    if n > 0 {
      PeriodsIsProduct(period, n - 1);
      assert period * (n - 1) + period == period * n;
    }
  }

  /** The planned launch lies one period after the first for every launch since the job was added. */
  ghost predicate OnTime(s: State, id: string)
    requires id in s.tasks
  {
    var t := s.tasks[id];
    t.since <= |s.log| && t.next == t.first + Periods(t.period, Launches(s.log[t.since..], id))
  }

  ghost predicate NonDecreasing(log: seq<Launch>) {
    forall i, j :: 0 <= i < j < |log| ==> log[i].at <= log[j].at
  }

  function LastLaunch(s: State): Time
    requires s.log != []
  {
    s.log[|s.log| - 1].at
  }

  ghost predicate AllOnTime(s: State) {
    forall id :: id in s.tasks ==> OnTime(s, id)
  }

  /** With a positive clock and no negative period: launches in order, none later than a pending one. */
  ghost predicate InOrder(s: State) {
    && NonDecreasing(s.log)
    && (forall id :: id in s.tasks ==> s.tasks[id].period >= 0 && s.tasks[id].next > 0)
    && (s.log != [] ==> forall id :: id in s.tasks ==> LastLaunch(s) <= s.tasks[id].next)
  }

  ghost predicate Inv(s: State) {
    AllOnTime(s) && (s.log != [] ==> LastLaunch(s) <= s.now) && (s.calm ==> InOrder(s))
  }

  lemma AddInv(s: State, id: string, period: int, now: Time)
    requires Inv(s) && now >= s.now
    ensures Inv(AddTask(s, id, period, now))
  {
    AddOnTime(s, id, period, now);
    if AddTask(s, id, period, now).calm { AddInOrder(s, id, period, now); }
  }

  lemma AddInOrder(s: State, id: string, period: int, now: Time)
    requires InOrder(s) && now >= s.now && (s.log != [] ==> LastLaunch(s) <= s.now)
    requires id !in s.tasks ==> period >= 0 && now > 0
    ensures InOrder(AddTask(s, id, period, now))
  {}

  lemma AddOnTime(s: State, id: string, period: int, now: Time)
    requires AllOnTime(s)
    ensures AllOnTime(AddTask(s, id, period, now))
  {
    var s' := AddTask(s, id, period, now);
    forall other | other in s'.tasks
      ensures OnTime(s', other)
    {
      if other in s.tasks {
        assert OnTime(s, other);
      } else {
        assert s'.log[|s.log|..] == [];
      }
    }
  }

  lemma RemoveInv(s: State, id: string)
    requires Inv(s)
    ensures Inv(RemoveTask(s, id))
  {
    RemoveOnTime(s, id);
  }

  lemma RemoveOnTime(s: State, id: string)
    requires AllOnTime(s)
    ensures AllOnTime(RemoveTask(s, id))
  {
    forall other | other in RemoveTask(s, id).tasks
      ensures OnTime(RemoveTask(s, id), other)
    {
      assert OnTime(s, other);
    }
  }

  lemma FireOnTime(s: State, id: string, now: Time)
    requires AllOnTime(s) && id in s.tasks
    ensures AllOnTime(FireTask(s, id, now))
  {
    var s', t := FireTask(s, id, now), s.tasks[id];
    forall other | other in s'.tasks
      ensures OnTime(s', other)
    {
      var u := s.tasks[other];
      assert OnTime(s, other);
      LaunchesAppend(s.log, u.since, Launch(id, t.next), other);
    }
  }

  lemma FireInOrder(s: State, id: string, now: Time)
    requires InOrder(s) && Due(s, id, now)
    ensures InOrder(FireTask(s, id, now))
  {
    var s' := FireTask(s, id, now);
    forall i, j | 0 <= i < j < |s'.log|
      ensures s'.log[i].at <= s'.log[j].at
    {
      if j == |s.log| && i < j - 1 { assert s.log[i].at <= s.log[j - 1].at; }
    }
  }

  lemma StepInv(s: State, op: Op)
    requires Inv(s) && Enabled(s, op)
    ensures Inv(Step(s, op))
  {
    match op
    case Add(id, period, now) => AddInv(s, id, period, now);
    case Remove(id) => RemoveInv(s, id);
    case Fire(id, now) =>
      FireOnTime(s, id, now);
      if s.calm { FireInOrder(s, id, now); }
  }

  /** The states of a run. */
  ghost predicate Run(states: seq<State>, ops: seq<Op>) {
    && |states| == |ops| + 1
    && states[0] == INITIAL
    && forall i :: 0 <= i < |ops| ==> Enabled(states[i], ops[i]) && states[i + 1] == Step(states[i], ops[i])
  }

  lemma {:induction false} RunInv(states: seq<State>, ops: seq<Op>, i: nat)
    requires Run(states, ops) && i <= |ops|
    ensures Inv(states[i])
  {
    if i > 0 {
      RunInv(states, ops, i - 1);
      StepInv(states[i - 1], ops[i - 1]);
      assert states[i] == Step(states[i - 1], ops[i - 1]);
    }
  }

  /** In every run: each planned launch is the first one plus a period per
      launch so far; with a positive clock and no negative period, launches
      happen in order of their times, none later than a pending one. */
  lemma RunOnSchedule(states: seq<State>, ops: seq<Op>)
    requires Run(states, ops)
    ensures var s := states[|ops|];
      && (s.calm ==> InOrder(s))
      && forall id :: id in s.tasks ==>
           var t := s.tasks[id];
           t.since <= |s.log| && t.next == t.first + t.period * Launches(s.log[t.since..], id)
  {
    RunInv(states, ops, |ops|);
    var s := states[|ops|];
    forall id | id in s.tasks
      ensures var t := s.tasks[id];
        OnTime(s, id) && t.next == t.first + t.period * Launches(s.log[t.since..], id)
    {
      assert OnTime(s, id);
      PeriodsIsProduct(s.tasks[id].period, Launches(s.log[s.tasks[id].since..], id));
    }
  }

  /** Call `k` added the job; it is planned ever since, first for one period after that call. */
  ghost predicate StartedBy(states: seq<State>, ops: seq<Op>, k: nat, n: nat, id: string)
    requires |states| == |ops| + 1 && n <= |ops|
  {
    && k < n && ops[k].Add? && ops[k].id == id && id !in states[k].tasks
    && (forall j :: k < j <= n ==> id in states[j].tasks)
    && var t := states[n].tasks[id];
       t.period == ops[k].period && t.first == ops[k].now + ops[k].period && t.since == |states[k].log|
  }

  /** In every run a planned job was added by some call, and its first launch is one period after it. */
  lemma {:induction false} PlannedSince(states: seq<State>, ops: seq<Op>, n: nat, id: string)
    requires Run(states, ops) && n <= |ops| && id in states[n].tasks
    ensures exists k :: StartedBy(states, ops, k, n, id)
  {
    if n > 0 {
      assert Enabled(states[n - 1], ops[n - 1]) && states[n] == Step(states[n - 1], ops[n - 1]);
      if id in states[n - 1].tasks {
        PlannedSince(states, ops, n - 1, id);
        var k :| StartedBy(states, ops, k, n - 1, id);
        assert StartedBy(states, ops, k, n, id);
      } else {
        assert StartedBy(states, ops, n - 1, n, id);
      }
    }
  }
}
