/** Blocking reads of a stream: any number of readers and writers around the
    receive buffer and the one-slot notification channel. */
module Wakeup {

  /** Where a reader is in `read`: about to look at the buffer, waiting in the
      select, or about to run the deferred notification. */
  datatype Reader = Away | Checking | Waiting | Leaving

  /** A writer in `readData`: outside, or between the append and the notification. */
  datatype Writer = Out | Notifying

  type Thread = nat

  /** `bytes` is what the buffer holds, `token` whether the channel does. */
  datatype State = State(bytes: nat, token: bool, readers: map<Thread, Reader>, writers: map<Thread, Writer>)

  datatype Step =
    | Enter(r: Thread)            // read is called with a non-empty slice
    | Check(r: Thread, n: nat)    // takes n bytes, or goes to wait
    | Wake(r: Thread)             // receives the token
    | GiveUp(r: Thread)           // error or deadline
    | Leave(r: Thread)            // the deferred asyncNotify
    | Append(w: Thread, n: nat)   // a frame is copied into the buffer
    | Notify(w: Thread)           // asyncNotify after the append

  predicate At(s: State, r: Thread, pc: Reader) {
    r in s.readers && s.readers[r] == pc
  }

  predicate Writes(s: State, w: Thread, pc: Writer) {
    w in s.writers && s.writers[w] == pc
  }

  predicate Enabled(s: State, step: Step) {
    match step
    case Enter(r) => At(s, r, Away)
    case Check(r, n) => At(s, r, Checking) && (s.bytes > 0 ==> 1 <= n <= s.bytes)
    case Wake(r) => At(s, r, Waiting) && s.token
    case GiveUp(r) => At(s, r, Waiting)
    case Leave(r) => At(s, r, Leaving)
    case Append(w, n) => Writes(s, w, Out) && n > 0
    case Notify(w) => Writes(s, w, Notifying)
  }

  function Next(s: State, step: Step): State
    requires Enabled(s, step)
  {
    match step
    case Enter(r) => s.(readers := s.readers[r := Checking])
    case Check(r, n) =>
      if s.bytes == 0 then s.(readers := s.readers[r := Waiting])
      else s.(bytes := s.bytes - n, readers := s.readers[r := Leaving])
    case Wake(r) => s.(token := false, readers := s.readers[r := Checking])
    case GiveUp(r) => s.(readers := s.readers[r := Leaving])
    case Leave(r) => s.(token := true, readers := s.readers[r := Away])
    case Append(w, n) => s.(bytes := s.bytes + n, writers := s.writers[w := Notifying])
    case Notify(w) => s.(token := true, writers := s.writers[w := Out])
  }

  predicate SomeoneWaits(s: State) {
    exists r :: r in s.readers && s.readers[r] == Waiting
  }

  /** A wake-up is on its way: a token, a notification about to be sent, or a
      reader that will look again or notify when it leaves. */
  predicate WakeupComing(s: State) {
    || s.token
    || (exists w :: w in s.writers && s.writers[w] == Notifying)
    || (exists r :: r in s.readers && s.readers[r] in {Checking, Leaving})
  }

  ghost predicate Inv(s: State) {
    SomeoneWaits(s) && s.bytes > 0 ==> WakeupComing(s)
  }

  lemma NextInv(s: State, step: Step)
    requires Inv(s) && Enabled(s, step)
    ensures Inv(Next(s, step))
  {
    var s' := Next(s, step);
    match step
    case Enter(r) => assert s'.readers[r] == Checking;
    case Check(r, n) => if s.bytes > 0 { assert s'.readers[r] == Leaving; }
    case Wake(r) => assert s'.readers[r] == Checking;
    case GiveUp(r) => assert s'.readers[r] == Leaving;
    case Leave(r) =>
    case Append(w, n) => assert s'.writers[w] == Notifying;
    case Notify(w) =>
  }

  ghost predicate Run(states: seq<State>, steps: seq<Step>) {
    && |states| == |steps| + 1
    && (forall r :: r in states[0].readers ==> states[0].readers[r] == Away)
    && forall i :: 0 <= i < |steps| ==> Enabled(states[i], steps[i]) && states[i + 1] == Next(states[i], steps[i])
  }

  /** No lost wake-up, in every run. */
  lemma {:induction false} NoLostWakeup(states: seq<State>, steps: seq<Step>, n: nat)
    requires Run(states, steps) && n <= |steps|
    ensures SomeoneWaits(states[n]) && states[n].bytes > 0 ==> WakeupComing(states[n])
  {
    if n > 0 {
      NoLostWakeup(states, steps, n - 1);
      NextInv(states[n - 1], steps[n - 1]);
      assert states[n] == Next(states[n - 1], steps[n - 1]);
    }
  }

  /** The bytes appended in the first `n` steps. */
  function Appended(steps: seq<Step>, n: nat): nat
    requires n <= |steps|
  {
    if n == 0 then 0 else Appended(steps, n - 1) + if steps[n - 1].Append? then steps[n - 1].n else 0
  }

  /** The bytes readers took in the first `n` steps: a check of an empty buffer takes none. */
  ghost function Taken(states: seq<State>, steps: seq<Step>, n: nat): nat
    requires Run(states, steps) && n <= |steps|
  {
    if n == 0 then 0
    else
      var step := steps[n - 1];
      Taken(states, steps, n - 1) + if step.Check? && states[n - 1].bytes > 0 then step.n else 0
  }

  /** In every run no byte is lost or read twice. */
  lemma {:induction false} BytesConserved(states: seq<State>, steps: seq<Step>, n: nat)
    requires Run(states, steps) && n <= |steps|
    ensures states[n].bytes + Taken(states, steps, n) == states[0].bytes + Appended(steps, n)
  {
    if n > 0 {
      BytesConserved(states, steps, n - 1);
      assert Enabled(states[n - 1], steps[n - 1]) && states[n] == Next(states[n - 1], steps[n - 1]);
    }
  }

  /** A reader that looks at an empty buffer waits, and one that finds bytes takes some and is done. */
  lemma CheckIs(states: seq<State>, steps: seq<Step>, n: nat)
    requires Run(states, steps) && n < |steps| && steps[n].Check?
    ensures At(states[n + 1], steps[n].r, Waiting) <==> states[n].bytes == 0
    ensures At(states[n + 1], steps[n].r, Leaving) <==> states[n].bytes > states[n + 1].bytes
  {
    assert Enabled(states[n], steps[n]) && states[n + 1] == Next(states[n], steps[n]);
  }

  /** Steps a thread takes on its own once inside read or readData. */
  predicate Internal(step: Step) {
    step.Check? || step.Wake? || step.Leave? || step.Notify?
  }

  ghost predicate Executes(s: State, steps: seq<Step>, t: State)
    decreases |steps|
  {
    if steps == [] then s == t
    else Internal(steps[0]) && Enabled(s, steps[0]) && Executes(Next(s, steps[0]), steps[1..], t)
  }

  lemma OneStep(s: State, step: Step)
    requires Internal(step) && Enabled(s, step)
    ensures Executes(s, [step], Next(s, step))
  {
    assert [step][1..] == [];
  }

  lemma {:induction false} Before(s: State, step: Step, steps: seq<Step>, t: State)
    requires Internal(step) && Enabled(s, step) && Executes(Next(s, step), steps, t)
    ensures Executes(s, [step] + steps, t)
  {
    assert ([step] + steps)[1..] == steps;
  }

  /** With data and a waiting reader the threads already inside can always go
      on, without any new call, until some reader takes data: at most three steps. */
  lemma NeverStuck(s: State) returns (steps: seq<Step>, t: State)
    requires Inv(s) && SomeoneWaits(s) && s.bytes > 0
    ensures 1 <= |steps| <= 3 && Executes(s, steps, t) && t.bytes < s.bytes
  {
    if r :| r in s.readers && s.readers[r] == Checking {
      steps, t := [Check(r, 1)], Next(s, Check(r, 1));
      OneStep(s, Check(r, 1));
    } else if s.token {
      steps, t := WithToken(s);
    } else {
      var step;
      if w :| w in s.writers && s.writers[w] == Notifying {
        step := Notify(w);
      } else {
        var r :| r in s.readers && s.readers[r] in {Checking, Leaving};
        step := Leave(r);
      }
      var waiting :| waiting in s.readers && s.readers[waiting] == Waiting;
      var s1 := Next(s, step);
      assert s1.readers[waiting] == Waiting;
      var rest;
      rest, t := WithToken(s1);
      Before(s, step, rest, t);
      steps := [step] + rest;
    }
  }

  lemma WithToken(s: State) returns (steps: seq<Step>, t: State)
    requires s.token && SomeoneWaits(s) && s.bytes > 0
    ensures |steps| == 2 && Executes(s, steps, t) && t.bytes < s.bytes
  {
    var r :| r in s.readers && s.readers[r] == Waiting;
    var s1 := Next(s, Wake(r));
    t := Next(s1, Check(r, 1));
    OneStep(s1, Check(r, 1));
    Before(s, Wake(r), [Check(r, 1)], t);
    steps := [Wake(r)] + [Check(r, 1)];
  }
}
