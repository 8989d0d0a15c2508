/** Closing a session: Disconnect, Close, exitErr and WriteRawMsg by any
    number of threads, interleaved between lock operations. */
module Shutdown {
  import opened Basics

  type Thread = nat
  type Reason = nat

  const QUITTING: Reason := 8

  /** Where a thread is.  In the last three phases it holds the shutdown lock. */
  datatype Phase =
    | Idle
    | Exiting(err: Reason)        // exitErr, before its first critical section
    | Disconnecting(why: Reason)  // Disconnect, before it has the lock
    | Writing(reason: Reason)     // about to write the disconnect frame
    | Closing                     // about to mark the session closed
    | Finishing                   // about to close the channel and release the lock

  datatype Frame = Disconnect(sender: Thread, reason: Reason) | Data(sender: Thread)

  /** `notice` records the disconnect frame's write, made or not and whether it succeeded. */
  datatype State = State(
    threads: map<Thread, Phase>, holder: Option<Thread>,
    shutdown: bool, err: Option<Reason>, closed: bool, channelCloses: nat, frames: seq<Frame>, notice: Option<bool>)

  datatype Step =
    | CallDisconnect(t: Thread, r: Reason)
    | CallExitErr(t: Thread, r: Reason)
    | RecordErr(t: Thread)       // exitErr's critical section
    | Lock(t: Thread)            // Disconnect takes the lock and tests shutdown
    | SendDisconnect(t: Thread, ok: bool)  // WriteRawMsg inside Disconnect, under the state lock; its error is ignored
    | MarkClosed(t: Thread)      // under the state lock
    | Finish(t: Thread)
    | WriteRaw(t: Thread, ok: bool)        // any other WriteRawMsg, under the state lock

  predicate At(s: State, t: Thread, p: Phase) {
    t in s.threads && s.threads[t] == p
  }

  predicate Enabled(s: State, step: Step) {
    match step
    case CallDisconnect(t, r) => At(s, t, Idle)
    case CallExitErr(t, r) => At(s, t, Idle)
    case RecordErr(t) => t in s.threads && s.threads[t].Exiting? && s.holder.None?
    case Lock(t) => t in s.threads && s.threads[t].Disconnecting? && s.holder.None?
    case SendDisconnect(t, _) => t in s.threads && s.threads[t].Writing?
    case MarkClosed(t) => At(s, t, Closing)
    case Finish(t) => At(s, t, Finishing)
    case WriteRaw(t, _) => At(s, t, Idle)
  }

  /** WriteRawMsg refuses to write once the session is closed; a failed write adds no frame. */
  function Send(s: State, f: Frame, ok: bool): seq<Frame> {
    if s.closed || !ok then s.frames else s.frames + [f]
  }

  function FirstErr(s: State, r: Reason): Option<Reason> {
    if s.err.None? then Some(r) else s.err
  }

  function Next(s: State, step: Step): State
    requires Enabled(s, step)
  {
    match step
    case CallDisconnect(t, r) => s.(threads := s.threads[t := Disconnecting(r)])
    case CallExitErr(t, r) => s.(threads := s.threads[t := Exiting(r)])
    case RecordErr(t) => s.(err := FirstErr(s, s.threads[t].err), threads := s.threads[t := Disconnecting(QUITTING)])
    case Lock(t) =>
      if s.shutdown then s.(threads := s.threads[t := Idle])
      else
        var why := s.threads[t].why;
        s.(holder := Some(t), shutdown := true, err := FirstErr(s, why), threads := s.threads[t := Writing(why)])
    case SendDisconnect(t, ok) =>
      s.(frames := Send(s, Disconnect(t, s.threads[t].reason), ok), notice := Some(ok),
         threads := s.threads[t := Closing])
    case MarkClosed(t) => s.(closed := true, threads := s.threads[t := Finishing])
    case Finish(t) => s.(channelCloses := s.channelCloses + 1, holder := None, threads := s.threads[t := Idle])
    case WriteRaw(t, ok) => s.(frames := Send(s, Data(t), ok))
  }

  function Disconnects(frames: seq<Frame>): nat {
    if frames == [] then 0
    else Disconnects(frames[..|frames| - 1]) + if frames[|frames| - 1].Disconnect? then 1 else 0
  }

  lemma DisconnectsAppend(frames: seq<Frame>, f: Frame)
    ensures Disconnects(frames + [f]) == Disconnects(frames) + if f.Disconnect? then 1 else 0
  {
    assert (frames + [f])[..|frames|] == frames;
  }

  predicate Holding(p: Phase) {
    p.Writing? || p.Closing? || p.Finishing?
  }

  /** How far the one shutdown has come. */
  ghost predicate Progress(s: State) {
    && Disconnects(s.frames) == (if s.notice == Some(true) then 1 else 0)
    && if s.holder.None? then
         if s.shutdown then s.closed && s.channelCloses == 1 && s.notice.Some?
         else !s.closed && s.channelCloses == 0 && s.notice.None?
       else
         && s.shutdown && s.channelCloses == 0 && s.holder.value in s.threads
         && match s.threads[s.holder.value]
            case Writing(_) => !s.closed && s.notice.None?
            case Closing => !s.closed && s.notice.Some?
            case Finishing => s.closed && s.notice.Some?
            case _ => false
  }

  ghost predicate HolderOnly(s: State) {
    forall t :: t in s.threads && Holding(s.threads[t]) ==> s.holder == Some(t)
  }

  ghost predicate Inv(s: State) {
    HolderOnly(s) && (s.shutdown ==> s.err.Some?) && Progress(s)
  }

  lemma {:induction false} NextHolder(s: State, step: Step)
    requires HolderOnly(s) && Enabled(s, step)
    ensures HolderOnly(Next(s, step))
  {
    var s' := Next(s, step);
    forall t | t in s'.threads && Holding(s'.threads[t])
      ensures s'.holder == Some(t)
    {
      if t != step.t { assert Holding(s.threads[t]); }
      if Holding(s.threads[step.t]) { assert s.holder == Some(step.t); }
    }
  }

  lemma {:induction false} NextProgress(s: State, step: Step)
    requires Inv(s) && Enabled(s, step)
    ensures Progress(Next(s, step))
  {
    if step.SendDisconnect? {
      DisconnectsAppend(s.frames, Disconnect(step.t, s.threads[step.t].reason));
    } else if step.WriteRaw? {
      DisconnectsAppend(s.frames, Data(step.t));
    }
    if Holding(s.threads[step.t]) { assert s.holder == Some(step.t); }
  }

  lemma {:induction false} NextInv(s: State, step: Step)
    requires Inv(s) && Enabled(s, step)
    ensures Inv(Next(s, step))
  {
    NextHolder(s, step);
    NextProgress(s, step);
  }

  // ----- runs -----

  ghost predicate Run(states: seq<State>, steps: seq<Step>) {
    && |states| == |steps| + 1
    && states[0] == State(states[0].threads, None, false, None, false, 0, [], None)
    && (forall t :: t in states[0].threads ==> states[0].threads[t] == Idle)
    && forall i :: 0 <= i < |steps| ==> Enabled(states[i], steps[i]) && states[i + 1] == Next(states[i], steps[i])
  }

  lemma {:induction false} RunInv(states: seq<State>, steps: seq<Step>, n: nat)
    requires Run(states, steps) && n <= |steps|
    ensures Inv(states[n])
  {
    if n > 0 {
      RunInv(states, steps, n - 1);
      NextInv(states[n - 1], steps[n - 1]);
      assert states[n] == Next(states[n - 1], steps[n - 1]);
    }
  }

  /** In every run the channel is closed at most once, at most one disconnect
      frame is written, the write is tried before the session is closed and
      leaves a frame exactly if it succeeds, and a session shut down has a
      recorded reason. */
  lemma ClosedOnce(states: seq<State>, steps: seq<Step>, n: nat)
    requires Run(states, steps) && n <= |steps|
    ensures var s := states[n];
      && s.channelCloses <= 1 && Disconnects(s.frames) <= 1
      && (Disconnects(s.frames) == 1 <==> s.notice == Some(true)) && (s.closed ==> s.shutdown && s.notice.Some?)
      && (s.shutdown ==> s.err.Some?)
  {
    RunInv(states, steps, n);
  }

  lemma StepKeeps(s: State, step: Step)
    requires Enabled(s, step)
    ensures s.err.Some? ==> Next(s, step).err == s.err
    ensures s.closed ==> Next(s, step).closed && Next(s, step).frames == s.frames
  {}

  /** The first recorded reason stays, and once the session is closed it stays
      closed and no frame is written any more. */
  lemma {:induction false} FirstReasonStays(states: seq<State>, steps: seq<Step>, n: nat, m: nat)
    requires Run(states, steps) && n <= m <= |steps|
    ensures states[n].err.Some? ==> states[m].err == states[n].err
    ensures states[n].closed ==> states[m].closed && states[m].frames == states[n].frames
    decreases m - n
  {
    if n < m {
      FirstReasonStays(states, steps, n, m - 1);
      assert states[m] == Next(states[m - 1], steps[m - 1]);
      StepKeeps(states[m - 1], steps[m - 1]);
    }
  }

  /** The lock's holder can always go on, so the session gets closed, whether or
      not the disconnect frame can be written: at most three of its steps away. */
  lemma HolderFinishes(s: State, ok: bool) returns (t: State)
    requires Inv(s) && s.holder.Some?
    ensures t.holder.None? && t.closed && t.channelCloses == 1 && Inv(t)
    ensures exists steps: seq<Step> :: 1 <= |steps| <= 3 && Executes(s, steps, t)
  {
    var h := s.holder.value;
    var steps: seq<Step> := [];
    t := s;
    while t.holder.Some?
      invariant Inv(t) && (t.holder == Some(h) || (t.holder.None? && t.shutdown && |steps| > 0))
      invariant Executes(s, steps, t)
      invariant t.holder.Some? ==> |steps| + Remaining(t.threads[h]) <= 3
      invariant |steps| <= 3
      decreases t.holder.Some?, if t.holder.Some? then Remaining(t.threads[h]) else 0
    {
      var step := match t.threads[h]
        case Writing(_) => SendDisconnect(h, ok)
        case Closing => MarkClosed(h)
        case _ => Finish(h);
      NextInv(t, step);
      ExecutesAppend(s, steps, t, step);
      steps, t := steps + [step], Next(t, step);
    }
  }

  function Remaining(p: Phase): nat {
    match p
    case Writing(_) => 3
    case Closing => 2
    case Finishing => 1
    case _ => 0
  }

  ghost predicate Executes(s: State, steps: seq<Step>, t: State)
    decreases |steps|
  {
    if steps == [] then s == t
    else Enabled(s, steps[0]) && Executes(Next(s, steps[0]), steps[1..], t)
  }

  lemma {:induction false} ExecutesAppend(s: State, steps: seq<Step>, t: State, step: Step)
    requires Executes(s, steps, t) && Enabled(t, step)
    ensures Executes(s, steps + [step], Next(t, step))
    decreases |steps|
  {
    if steps == [] {
      assert [] + [step] == [step] && [step][1..] == [];
    } else {
      ExecutesAppend(Next(s, steps[0]), steps[1..], t, step);
      assert (steps + [step])[1..] == steps[1..] + [step];
    }
  }

  // ----- which reason is recorded, and what is written -----

  /** The reason a step brings up: exitErr's error, or that of a Disconnect that is not too late. */
  function Brought(s: State, step: Step): Option<Reason>
    requires Enabled(s, step)
  {
    match step
    case RecordErr(t) => Some(s.threads[t].err)
    case Lock(t) => if s.shutdown then None else Some(s.threads[t].why)
    case _ => None
  }

  ghost function FirstBrought(states: seq<State>, steps: seq<Step>, n: nat): Option<Reason>
    requires Run(states, steps) && n <= |steps|
  {
    if n == 0 then None
    else
      var r := FirstBrought(states, steps, n - 1);
      if r.Some? then r else Brought(states[n - 1], steps[n - 1])
  }

  /** In every run the recorded reason is the first one brought up. */
  lemma {:induction false} RecordedIsFirst(states: seq<State>, steps: seq<Step>, n: nat)
    requires Run(states, steps) && n <= |steps|
    ensures states[n].err == FirstBrought(states, steps, n)
  {
    if n > 0 {
      RecordedIsFirst(states, steps, n - 1);
      assert Enabled(states[n - 1], steps[n - 1]) && states[n] == Next(states[n - 1], steps[n - 1]);
    }
  }

  /** The latest call a thread made in the first `n` steps. */
  function LatestCall(steps: seq<Step>, n: nat, t: Thread): Option<Step>
    requires n <= |steps|
  {
    if n == 0 then None
    else
      var step := steps[n - 1];
      if step.t == t && (step.CallDisconnect? || step.CallExitErr?) then Some(step) else LatestCall(steps, n - 1, t)
  }

  /** A thread's phase carries what its call said; exitErr disconnects with reason 8. */
  predicate Carries(p: Phase, call: Option<Step>, t: Thread) {
    match p
    case Exiting(err) => call == Some(CallExitErr(t, err))
    case Disconnecting(why) => GivenBy(why, call, t)
    case Writing(why) => GivenBy(why, call, t)
    case _ => true
  }

  predicate GivenBy(why: Reason, call: Option<Step>, t: Thread) {
    call == Some(CallDisconnect(t, why)) || (why == 8 && call.Some? && call.value.CallExitErr?)
  }

  lemma {:induction false} PhaseIsCall(states: seq<State>, steps: seq<Step>, n: nat, t: Thread)
    requires Run(states, steps) && n <= |steps| && t in states[n].threads
    ensures Carries(states[n].threads[t], LatestCall(steps, n, t), t)
  {
    if n > 0 {
      var s, step := states[n - 1], steps[n - 1];
      assert Enabled(s, step) && states[n] == Next(s, step);
      PhaseIsCall(states, steps, n - 1, t);
    }
  }

  /** The call's reason goes out in a frame, if the connection takes it. */
  ghost predicate Announces(frames: seq<Frame>, frames': seq<Frame>, call: Option<Step>, t: Thread, why: Reason,
      ok: bool) {
    GivenBy(why, call, t) && frames' == frames + if ok then [Disconnect(t, why)] else []
  }

  /** In every run the disconnect frame carries the reason of the call that shuts
      the session down, or 8 if that is exitErr, and is written whenever it can be. */
  lemma NoticeIs(states: seq<State>, steps: seq<Step>, n: nat, t: Thread, ok: bool) returns (why: Reason)
    requires Run(states, steps) && n < |steps| && steps[n] == SendDisconnect(t, ok)
    ensures Announces(states[n].frames, states[n + 1].frames, LatestCall(steps, n, t), t, why, ok)
  {
    var s := states[n];
    assert Enabled(s, steps[n]) && states[n + 1] == Next(s, steps[n]);
    RunInv(states, steps, n);
    PhaseIsCall(states, steps, n, t);
    assert Holding(s.threads[t]);
    assert s.frames + [] == s.frames;
    why := s.threads[t].reason;
  }

  /** Any other write adds its frame exactly if the session is open and the connection takes it. */
  lemma WriteRawIs(states: seq<State>, steps: seq<Step>, n: nat)
    requires Run(states, steps) && n < |steps| && steps[n].WriteRaw?
    ensures var (t, ok) := (steps[n].t, steps[n].ok);
      states[n + 1] == states[n].(frames := states[n].frames + if ok && !states[n].closed then [Data(t)] else [])
  {
    assert Enabled(states[n], steps[n]) && states[n + 1] == Next(states[n], steps[n]);
    assert states[n].frames + [] == states[n].frames;
  }

  /** The whole of a Disconnect that finds the lock free and the session open. */
  lemma DisconnectCloses(s: State, t: Thread, r: Reason, ok: bool)
    requires At(s, t, Idle) && s.holder.None? && !s.shutdown && !s.closed
    ensures var s' := s.(shutdown := true, err := if s.err.Some? then s.err else Some(r), closed := true,
        channelCloses := s.channelCloses + 1, frames := s.frames + (if ok then [Disconnect(t, r)] else []),
        notice := Some(ok));
      Executes(s, [CallDisconnect(t, r), Lock(t), SendDisconnect(t, ok), MarkClosed(t), Finish(t)], s')
  {
    var s1 := s.(threads := s.threads[t := Disconnecting(r)]);
    ShutsDown(s1, t, r, ok);
    var rest := [Lock(t), SendDisconnect(t, ok), MarkClosed(t), Finish(t)];
    assert ([CallDisconnect(t, r)] + rest)[1..] == rest;
    assert s1.threads[t := Idle] == s.threads;
  }

  /** And of an exitErr: its error is recorded, the frame says 8. */
  lemma ExitErrCloses(s: State, t: Thread, r: Reason, ok: bool)
    requires At(s, t, Idle) && s.holder.None? && !s.shutdown && !s.closed
    ensures var s' := s.(shutdown := true, err := if s.err.Some? then s.err else Some(r), closed := true,
        channelCloses := s.channelCloses + 1, frames := s.frames + (if ok then [Disconnect(t, 8)] else []),
        notice := Some(ok));
      Executes(s, [CallExitErr(t, r), RecordErr(t), Lock(t), SendDisconnect(t, ok), MarkClosed(t), Finish(t)], s')
  {
    var s1 := s.(threads := s.threads[t := Exiting(r)]);
    var s2 := s1.(err := if s.err.Some? then s.err else Some(r), threads := s1.threads[t := Disconnecting(8)]);
    ShutsDown(s2, t, 8, ok);
    var rest := [Lock(t), SendDisconnect(t, ok), MarkClosed(t), Finish(t)];
    assert ([RecordErr(t)] + rest)[1..] == rest;
    assert ([CallExitErr(t, r)] + ([RecordErr(t)] + rest))[1..] == [RecordErr(t)] + rest;
    assert [CallExitErr(t, r)] + ([RecordErr(t)] + rest) ==
      [CallExitErr(t, r), RecordErr(t), Lock(t), SendDisconnect(t, ok), MarkClosed(t), Finish(t)];
    assert Next(s, CallExitErr(t, r)) == s1 && Next(s1, RecordErr(t)) == s2;
    assert s2.threads[t := Idle] == s.threads;
  }

  lemma ShutsDown(s: State, t: Thread, r: Reason, ok: bool)
    requires At(s, t, Disconnecting(r)) && s.holder.None? && !s.shutdown && !s.closed
    ensures var s' := s.(shutdown := true, err := if s.err.Some? then s.err else Some(r), closed := true,
        channelCloses := s.channelCloses + 1, frames := s.frames + (if ok then [Disconnect(t, r)] else []),
        notice := Some(ok), threads := s.threads[t := Idle]);
      Executes(s, [Lock(t), SendDisconnect(t, ok), MarkClosed(t), Finish(t)], s')
  {
    var s1 := Next(s, Lock(t));
    var s2 := Next(s1, SendDisconnect(t, ok));
    var s3 := Next(s2, MarkClosed(t));
    assert s.frames + [] == s.frames;
    assert s3.threads[t := Idle] == s.threads[t := Idle];
    assert Executes(s3, [Finish(t)], Next(s3, Finish(t))) by { assert [Finish(t)][1..] == []; }
    var a := [MarkClosed(t), Finish(t)];
    var b := [SendDisconnect(t, ok), MarkClosed(t), Finish(t)];
    assert a[1..] == [Finish(t)] && b[1..] == a;
    assert ([Lock(t)] + b)[1..] == b && [Lock(t)] + b == [Lock(t), SendDisconnect(t, ok), MarkClosed(t), Finish(t)];
  }
}
