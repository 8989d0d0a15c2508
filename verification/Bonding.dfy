/** Endpoint proof in Node Discovery v4: how a node gets into `nodes` and who
    is answered, for packets, probes and timeouts in any order. */
module Bonding {
  import opened Basics

  type ID = string
  type Time = int
  type Probe = nat
  type Handler = nat

  /** 24 hours, in nanoseconds. */
  const BOND_EXPIRATION: Time := 86_400_000_000_000

  /** A call of probeNode: registered and not yet listening, waiting for its
      acknowledgement, or acknowledged with the pong's time and not yet through updatePeer. */
  datatype ProbeState = Sending(id: ID) | Pinging(id: ID) | Acknowledged(id: ID, at: Time)

  /** A ping handler between its bond check and updatePeer. */
  datatype PingState = Checked(id: ID, at: Time, against: Time)

  /** What has happened, for the record. */
  datatype Event =
    | PongCompleted(id: ID, at: Time)                     // a signed pong met a registered, waiting probe
    | PingAccepted(id: ID, at: Time, against: Time)       // a ping found the bond unexpired
    | NeighborsSent(id: ID, at: Time, against: Time)      // a findnode request was answered

  datatype State = State(
    nodes: map<ID, Time>,           // the last-seen time of each bonded node
    pongHandlers: map<ID, Probe>,   // the registered pong handler of a node, by the probe that waits on it
    probes: map<Probe, ProbeState>,
    pings: map<Handler, PingState>,
    log: seq<Event>)

  const INITIAL := State(map[], map[], map[], map[], [])

  datatype Step =
    | StartProbe(p: Probe, id: ID)
    | Listen(p: Probe)                       // the ping is sent and the probe waits on its channel
    | Timeout(p: Probe, id: ID)              // the timer of a probe's handler: drops whatever handler is
                                             // registered for the node
    | Pong(id: ID, at: Time)                 // a valid pong signed by id
    | SetLast(p: Probe)                      // peer.Last = resp.Timestamp, outside the lock, on a peer that is
                                             // also in nodes
    | FinishProbe(p: Probe)                  // updatePeer, under validLock
    | Ping(h: Handler, id: ID, at: Time)     // a valid ping signed by id, received at `at`: the bond check
    | FinishPing(h: Handler)                 // updatePeer, under validLock
    | FindNode(id: ID, at: Time)             // a valid findnode signed by id

  /** Peer.hasExpired against the stored time. */
  predicate Expired(s: State, id: ID, at: Time) {
    id !in s.nodes || s.nodes[id] + BOND_EXPIRATION < at
  }

  predicate Enabled(s: State, step: Step) {
    match step
    case StartProbe(p, id) => p !in s.probes
    case Listen(p) => p in s.probes && s.probes[p].Sending?
    case Timeout(p, id) => p in s.probes ==> s.probes[p].id == id
    case Pong(id, at) => true
    case SetLast(p) => p in s.probes && s.probes[p].Acknowledged? && s.probes[p].id in s.nodes
    case FinishProbe(p) => p in s.probes && s.probes[p].Acknowledged?
    case Ping(h, id, at) => h !in s.pings
    case FinishPing(h) => h in s.pings
    case FindNode(id, at) => true
  }

  function Next(s: State, step: Step): State
    requires Enabled(s, step)
  {
    match step
    case StartProbe(p, id) => s.(pongHandlers := s.pongHandlers[id := p], probes := s.probes[p := Sending(id)])
    case Listen(p) => s.(probes := s.probes[p := Pinging(s.probes[p].id)])
    case Timeout(p, id) =>
      s.(pongHandlers := s.pongHandlers - {id},
         probes := if p in s.probes && s.probes[p].Pinging? then s.probes - {p} else s.probes)
    case Pong(id, at) => Acknowledge(s, id, at)
    case SetLast(p) => s.(nodes := s.nodes[s.probes[p].id := s.probes[p].at])
    case FinishProbe(p) => s.(nodes := s.nodes[s.probes[p].id := s.probes[p].at], probes := s.probes - {p})
    case Ping(h, id, at) =>
      if Expired(s, id, at) then s
      else s.(pings := s.pings[h := Checked(id, at, s.nodes[id])], log := s.log + [PingAccepted(id, at, s.nodes[id])])
    case FinishPing(h) => s.(nodes := s.nodes[s.pings[h].id := s.pings[h].at], pings := s.pings - {h})
    case FindNode(id, at) =>
      if Expired(s, id, at) then s else s.(log := s.log + [NeighborsSent(id, at, s.nodes[id])])
  }

  /** HandlePacket for a pong: only a handler registered for the signer sees it,
      and only a probe that still waits takes it. */
  function Acknowledge(s: State, id: ID, at: Time): State {
    if id !in s.pongHandlers then s
    else
      var p := s.pongHandlers[id];
      if p in s.probes && s.probes[p].Pinging? && s.probes[p].id == id then
        s.(probes := s.probes[p := Acknowledged(id, at)], log := s.log + [PongCompleted(id, at)])
      else s
  }

  // ----- where a bond comes from -----

  /** The first `n` events prove the bond time `t` of `id`: it is the time of a
      completed pong, or of an accepted ping that came at most a bond lifetime
      after a time proved earlier. */
  predicate Proved(log: seq<Event>, n: nat, id: ID, t: Time)
    requires n <= |log|
    decreases n
  {
    n > 0 && (
      || log[n - 1] == PongCompleted(id, t)
      || (log[n - 1].PingAccepted? && log[n - 1].id == id && log[n - 1].at == t
          && t <= log[n - 1].against + BOND_EXPIRATION && Proved(log, n - 1, id, log[n - 1].against))
      || Proved(log, n - 1, id, t))
  }

  lemma {:induction false} ProvedStays(log: seq<Event>, n: nat, id: ID, t: Time, e: Event)
    requires n <= |log| && Proved(log, n, id, t)
    ensures Proved(log + [e], n, id, t) && Proved(log + [e], |log| + 1, id, t)
    decreases n
  {
    ProvedPrefix(log, n, id, t, log + [e]);
    ProvedLater(log + [e], n, |log| + 1, id, t);
  }

  lemma {:induction false} ProvedPrefix(log: seq<Event>, n: nat, id: ID, t: Time, more: seq<Event>)
    requires n <= |log| && log <= more
    ensures Proved(log, n, id, t) == Proved(more, n, id, t)
    decreases n
  {
    if n > 0 {
      ProvedPrefix(log, n - 1, id, t, more);
      if log[n - 1].PingAccepted? {
        ProvedPrefix(log, n - 1, id, log[n - 1].against, more);
      }
    }
  }

  lemma {:induction false} ProvedLater(log: seq<Event>, n: nat, m: nat, id: ID, t: Time)
    requires n <= m <= |log| && Proved(log, n, id, t)
    ensures Proved(log, m, id, t)
    decreases m
  {
    if n < m {
      ProvedLater(log, n, m - 1, id, t);
    }
  }

  /** Every answered request and accepted ping was checked against a proved bond that had not expired. */
  ghost predicate Justified(log: seq<Event>, i: nat)
    requires i < |log|
  {
    match log[i]
    case PongCompleted(_, _) => true
    case PingAccepted(id, at, against) => at <= against + BOND_EXPIRATION && Proved(log, i, id, against)
    case NeighborsSent(id, at, against) => at <= against + BOND_EXPIRATION && Proved(log, i, id, against)
  }

  ghost predicate Inv(s: State) {
    && (forall id :: id in s.nodes ==> Proved(s.log, |s.log|, id, s.nodes[id]))
    && (forall p :: p in s.probes && s.probes[p].Acknowledged? ==>
          Proved(s.log, |s.log|, s.probes[p].id, s.probes[p].at))
    && (forall h :: h in s.pings ==> Proved(s.log, |s.log|, s.pings[h].id, s.pings[h].at))
    && (forall i :: 0 <= i < |s.log| ==> Justified(s.log, i))
  }

  /** Logging a justified event keeps all earlier proofs. */
  lemma LogEvent(s: State, e: Event)
    requires Inv(s)
    requires e.PongCompleted? || (e.at <= e.against + BOND_EXPIRATION && Proved(s.log, |s.log|, e.id, e.against))
    ensures Inv(s.(log := s.log + [e]))
    ensures !e.NeighborsSent? ==> Proved(s.log + [e], |s.log| + 1, e.id, e.at)
  {
    var log := s.log + [e];
    forall id | id in s.nodes
      ensures Proved(log, |log|, id, s.nodes[id])
    {
      ProvedStays(s.log, |s.log|, id, s.nodes[id], e);
    }
    forall p | p in s.probes && s.probes[p].Acknowledged?
      ensures Proved(log, |log|, s.probes[p].id, s.probes[p].at)
    {
      ProvedStays(s.log, |s.log|, s.probes[p].id, s.probes[p].at, e);
    }
    forall h | h in s.pings
      ensures Proved(log, |log|, s.pings[h].id, s.pings[h].at)
    {
      ProvedStays(s.log, |s.log|, s.pings[h].id, s.pings[h].at, e);
    }
    forall i | 0 <= i < |log|
      ensures Justified(log, i)
    {
      if i < |s.log| {
        assert Justified(s.log, i);
        if !s.log[i].PongCompleted? { ProvedPrefix(s.log, i, s.log[i].id, s.log[i].against, log); }
      } else if !e.PongCompleted? {
        ProvedPrefix(s.log, |s.log|, e.id, e.against, log);
      }
    }
    if e.PingAccepted? { ProvedPrefix(s.log, |s.log|, e.id, e.against, log); }
  }

  lemma NextInv(s: State, step: Step)
    requires Inv(s) && Enabled(s, step)
    ensures Inv(Next(s, step))
  {
    match step
    case Pong(id, at) => LogEvent(s, PongCompleted(id, at));
    case Ping(h, id, at) => if !Expired(s, id, at) { LogEvent(s, PingAccepted(id, at, s.nodes[id])); }
    case FindNode(id, at) => if !Expired(s, id, at) { LogEvent(s, NeighborsSent(id, at, s.nodes[id])); }
    case _ =>
  }

  // ----- runs -----

  ghost predicate Run(states: seq<State>, steps: seq<Step>) {
    && |states| == |steps| + 1 && states[0] == INITIAL
    && forall i :: 0 <= i < |steps| ==> Enabled(states[i], steps[i]) && states[i + 1] == Next(states[i], steps[i])
  }

  lemma {:induction false} RunInv(states: seq<State>, steps: seq<Step>, n: nat)
    requires Run(states, steps) && n <= |steps|
    ensures Inv(states[n])
  {
    if n > 0 {
      RunInv(states, steps, n - 1);
      NextInv(states[n - 1], steps[n - 1]);
      assert states[n] == Next(states[n - 1], steps[n - 1]);
    }
  }

  /** In every run neighbours go only to nodes whose bond time is the time of a
      completed pong, or linked back to one by accepted pings, each within a
      bond lifetime of the time it was checked against. */
  lemma OnlyBondedAnswered(states: seq<State>, steps: seq<Step>, n: nat, i: nat)
    requires Run(states, steps) && n <= |steps| && i < |states[n].log| && states[n].log[i].NeighborsSent?
    ensures var e := states[n].log[i]; e.at <= e.against + BOND_EXPIRATION && Proved(states[n].log, i, e.id, e.against)
  {
    RunInv(states, steps, n);
    assert Justified(states[n].log, i);
  }

  /** A proved bond starts with a completed pong of that very node. */
  lemma {:induction false} ProofStartsWithPong(log: seq<Event>, n: nat, id: ID, t: Time)
    requires n <= |log| && Proved(log, n, id, t)
    ensures exists i :: 0 <= i < n && log[i].PongCompleted? && log[i].id == id
    decreases n
  {
    if log[n - 1] != PongCompleted(id, t) {
      if Proved(log, n - 1, id, t) {
        ProofStartsWithPong(log, n - 1, id, t);
      } else {
        ProofStartsWithPong(log, n - 1, id, log[n - 1].against);
      }
    }
  }

  /** In every run a node is listed only after its own signed pong arrived
      while a probe of it was registered and waiting. */
  lemma ListedOnlyAfterPong(states: seq<State>, steps: seq<Step>, n: nat, id: ID)
    requires Run(states, steps) && n <= |steps| && id in states[n].nodes
    ensures exists k, p :: 0 <= k < n && PongMeetsProbe(states[k], steps[k], id, p)
  {
    RunInv(states, steps, n);
    var log := states[n].log;
    ProofStartsWithPong(log, |log|, id, states[n].nodes[id]);
    var i :| 0 <= i < |log| && log[i].PongCompleted? && log[i].id == id;
    PongInLog(states, steps, n, i);
  }

  /** The step is a pong of `id`, and probe `p` of `id` is registered for it and waiting. */
  predicate PongMeetsProbe(s: State, step: Step, id: ID, p: Probe) {
    && step.Pong? && step.id == id
    && id in s.pongHandlers && s.pongHandlers[id] == p && p in s.probes && s.probes[p].Pinging? && s.probes[p].id == id
  }

  lemma {:induction false} PongInLog(states: seq<State>, steps: seq<Step>, n: nat, i: nat)
    requires Run(states, steps) && n <= |steps| && i < |states[n].log| && states[n].log[i].PongCompleted?
    ensures exists k, p :: 0 <= k < n && PongMeetsProbe(states[k], steps[k], states[n].log[i].id, p)
  {
    if n > 0 {
      var s, step := states[n - 1], steps[n - 1];
      assert Enabled(s, step) && states[n] == Next(s, step);
      if i < |s.log| {
        assert states[n].log[i] == s.log[i];
        PongInLog(states, steps, n - 1, i);
      } else {
        assert PongMeetsProbe(s, step, states[n].log[i].id, s.pongHandlers[states[n].log[i].id]);
      }
    }
  }

  // ----- who is listed, and who is answered -----

  /** The bond time a step records for `id`, if it records one. */
  function Recorded(s: State, step: Step, id: ID): Option<Time>
    requires Enabled(s, step)
  {
    match step
    case SetLast(p) => if s.probes[p].id == id then Some(s.probes[p].at) else None
    case FinishProbe(p) => if s.probes[p].id == id then Some(s.probes[p].at) else None
    case FinishPing(h) => if s.pings[h].id == id then Some(s.pings[h].at) else None
    case _ => None
  }

  /** The latest bond time recorded for `id` in the first `n` steps. */
  ghost function Latest(states: seq<State>, steps: seq<Step>, n: nat, id: ID): Option<Time>
    requires Run(states, steps) && n <= |steps|
  {
    if n == 0 then None
    else
      var r := Recorded(states[n - 1], steps[n - 1], id);
      if r.Some? then r else Latest(states, steps, n - 1, id)
  }

  function NodeTime(s: State, id: ID): Option<Time> {
    if id in s.nodes then Some(s.nodes[id]) else None
  }

  /** In every run `nodes` holds each node's latest recorded bond time, and nothing else. */
  lemma {:induction false} NodesAreLatest(states: seq<State>, steps: seq<Step>, n: nat, id: ID)
    requires Run(states, steps) && n <= |steps|
    ensures NodeTime(states[n], id) == Latest(states, steps, n, id)
  {
    if n > 0 {
      NodesAreLatest(states, steps, n - 1, id);
      assert Enabled(states[n - 1], steps[n - 1]) && states[n] == Next(states[n - 1], steps[n - 1]);
    }
  }

  /** A node once listed stays listed. */
  lemma {:induction false} ListedStays(states: seq<State>, steps: seq<Step>, n: nat, m: nat, id: ID)
    requires Run(states, steps) && n <= m <= |steps| && id in states[n].nodes
    ensures id in states[m].nodes
  {
    if n < m {
      ListedStays(states, steps, n, m - 1, id);
      assert Enabled(states[m - 1], steps[m - 1]) && states[m] == Next(states[m - 1], steps[m - 1]);
    }
  }

  /** The latest bond time recorded for `id` before step `n` is at most 24 hours before `at`. */
  ghost predicate Bonded(states: seq<State>, steps: seq<Step>, n: nat, id: ID, at: Time)
    requires Run(states, steps) && n <= |steps|
  {
    var t := Latest(states, steps, n, id);
    t.Some? && at <= t.value + 86_400_000_000_000
  }

  /** In every run a findnode request is answered exactly if the sender is bonded. */
  lemma AnsweredIff(states: seq<State>, steps: seq<Step>, n: nat)
    requires Run(states, steps) && n < |steps| && steps[n].FindNode?
    ensures var (id, at) := (steps[n].id, steps[n].at); var t := Latest(states, steps, n, id);
      states[n + 1].log == states[n].log +
      if Bonded(states, steps, n, id, at) then [NeighborsSent(id, at, t.value)] else []
  {
    NodesAreLatest(states, steps, n, steps[n].id);
    assert Enabled(states[n], steps[n]) && states[n + 1] == Next(states[n], steps[n]);
  }

  /** In every run a ping is accepted exactly if the sender is bonded; then its handler goes on to record it. */
  lemma AcceptedIff(states: seq<State>, steps: seq<Step>, n: nat)
    requires Run(states, steps) && n < |steps| && steps[n].Ping?
    ensures var (h, id, at) := (steps[n].h, steps[n].id, steps[n].at); var t := Latest(states, steps, n, id);
      if Bonded(states, steps, n, id, at) then
        && states[n + 1].log == states[n].log + [PingAccepted(id, at, t.value)]
        && states[n + 1].pings == states[n].pings[h := Checked(id, at, t.value)]
      else states[n + 1] == states[n]
  {
    NodesAreLatest(states, steps, n, steps[n].id);
    assert Enabled(states[n], steps[n]) && states[n + 1] == Next(states[n], steps[n]);
  }

  lemma {:induction false} StillChecked(states: seq<State>, steps: seq<Step>, k: nat, m: nat, h: Handler, p: PingState)
    requires Run(states, steps) && k <= m <= |steps| && h in states[k].pings && states[k].pings[h] == p
    requires forall j :: k <= j < m ==> steps[j] != FinishPing(h)
    ensures h in states[m].pings && states[m].pings[h] == p
  {
    if k < m {
      StillChecked(states, steps, k, m - 1, h, p);
      assert Enabled(states[m - 1], steps[m - 1]) && states[m] == Next(states[m - 1], steps[m - 1]);
    }
  }

  /** An accepted ping can be finished at any time later, which records its own time. */
  lemma PingRecorded(states: seq<State>, steps: seq<Step>, k: nat, m: nat, h: Handler, id: ID, at: Time)
    requires Run(states, steps) && k < m <= |steps| && steps[k] == Ping(h, id, at) && Bonded(states, steps, k, id, at)
    requires forall j :: k < j < m ==> steps[j] != FinishPing(h)
    ensures Enabled(states[m], FinishPing(h)) && Next(states[m], FinishPing(h)).nodes == states[m].nodes[id := at]
  {
    AcceptedIff(states, steps, k);
    StillChecked(states, steps, k + 1, m, h, states[k + 1].pings[h]);
  }

  /** A probe of `id` is the one registered for it, and has come this far. */
  predicate Registered(s: State, p: Probe, id: ID, phase: ProbeState) {
    p in s.probes && s.probes[p] == phase && id in s.pongHandlers && s.pongHandlers[id] == p
  }

  /** A step that leaves a waiting probe of `id` alone: no new probe of it, no timeout and no pong. */
  predicate LeavesAlone(step: Step, id: ID) {
    (step.StartProbe? || step.Timeout? || step.Pong?) ==> step.id != id
  }

  lemma {:induction false} StillAcknowledged(states: seq<State>, steps: seq<Step>, k: nat, m: nat, p: Probe, id: ID)
    requires Run(states, steps) && k < m <= |steps| && Registered(states[k], p, id, Pinging(id))
    requires steps[k].Pong? && steps[k].id == id && forall j :: k < j < m ==> steps[j] != FinishProbe(p)
    ensures p in states[m].probes && states[m].probes[p] == Acknowledged(id, steps[k].at)
  {
    assert Enabled(states[m - 1], steps[m - 1]) && states[m] == Next(states[m - 1], steps[m - 1]);
    if k < m - 1 {
      StillAcknowledged(states, steps, k, m - 1, p, id);
    }
  }

  /** In every run, whatever else happens: a probe that waits, and that no newer
      probe of the node, timeout or pong gets in the way of, is completed by the node's pong,
      and can then be finished at any time, which lists the node with the pong's time. */
  lemma ProbeLists(states: seq<State>, steps: seq<Step>, i: nat, h: nat, k: nat, m: nat, p: Probe, id: ID, at: Time)
    requires Run(states, steps) && i < h < k < m <= |steps|
    requires steps[i] == StartProbe(p, id) && steps[h] == Listen(p) && steps[k] == Pong(id, at)
    requires forall j :: i < j < k ==> LeavesAlone(steps[j], id)
    requires forall j :: k < j < m ==> steps[j] != FinishProbe(p)
    ensures states[k + 1].log == states[k].log + [PongCompleted(id, at)]
    ensures Enabled(states[m], FinishProbe(p)) && Next(states[m], FinishProbe(p)).nodes == states[m].nodes[id := at]
  {
    ProbeWaits(states, steps, i, h, k, p, id);
    StillAcknowledged(states, steps, k, m, p, id);
    assert Enabled(states[k], steps[k]) && states[k + 1] == Next(states[k], steps[k]);
  }

  lemma ProbeWaits(states: seq<State>, steps: seq<Step>, i: nat, h: nat, k: nat, p: Probe, id: ID)
    requires Run(states, steps) && i < h < k <= |steps| && steps[i] == StartProbe(p, id) && steps[h] == Listen(p)
    requires forall j :: i < j < k ==> LeavesAlone(steps[j], id)
    ensures Registered(states[k], p, id, Pinging(id))
  {
    assert Enabled(states[i], steps[i]) && states[i + 1] == Next(states[i], steps[i]);
    StillProbing(states, steps, i + 1, h, p, id);
    assert Enabled(states[h], steps[h]) && states[h + 1] == Next(states[h], steps[h]);
    StillProbing(states, steps, h + 1, k, p, id);
  }

  predicate Probing(s: State, p: Probe, id: ID) {
    && p in s.probes && !s.probes[p].Acknowledged? && s.probes[p].id == id
    && id in s.pongHandlers && s.pongHandlers[id] == p
  }

  lemma {:induction false} StillProbing(states: seq<State>, steps: seq<Step>, i: nat, k: nat, p: Probe, id: ID)
    requires Run(states, steps) && i <= k <= |steps| && Probing(states[i], p, id)
    requires forall j :: i <= j < k ==> LeavesAlone(steps[j], id)
    ensures Probing(states[k], p, id) && (states[i].probes[p].Pinging? ==> states[k].probes[p].Pinging?)
    decreases k - i
  {
    if i < k {
      ProbingStep(states, steps, i, p, id);
      StillProbing(states, steps, i + 1, k, p, id);
    }
  }

  lemma ProbingStep(states: seq<State>, steps: seq<Step>, i: nat, p: Probe, id: ID)
    requires Run(states, steps) && i < |steps| && Probing(states[i], p, id) && LeavesAlone(steps[i], id)
    ensures Probing(states[i + 1], p, id) && (states[i].probes[p].Pinging? ==> states[i + 1].probes[p].Pinging?)
  {
    assert Enabled(states[i], steps[i]) && states[i + 1] == Next(states[i], steps[i]);
  }

  /** A pong completes something if and only if a probe of the node is registered and waits. */
  lemma PongIff(states: seq<State>, steps: seq<Step>, k: nat, id: ID, at: Time)
    requires Run(states, steps) && k < |steps| && steps[k] == Pong(id, at)
    ensures states[k + 1].log == states[k].log + [PongCompleted(id, at)] <==>
            exists p :: Registered(states[k], p, id, Pinging(id))
    ensures !(exists p :: Registered(states[k], p, id, Pinging(id))) ==> states[k + 1] == states[k]
  {
    var s := states[k];
    assert Enabled(s, steps[k]) && states[k + 1] == Next(s, steps[k]);
    if id in s.pongHandlers {
      assert Registered(s, s.pongHandlers[id], id, Pinging(id)) <==>
        s.pongHandlers[id] in s.probes && s.probes[s.pongHandlers[id]] == Pinging(id);
    }
    assert |s.log + [PongCompleted(id, at)]| > |s.log|;
  }

  /** A timeout ends a waiting probe: the pongs of its node complete nothing until the next probe of it. */
  lemma {:induction false} TimeoutForgets(states: seq<State>, steps: seq<Step>, i: nat, k: nat, id: ID)
    requires Run(states, steps) && i < k < |steps| && steps[i].Timeout? && steps[i].id == id && steps[k].Pong?
    requires steps[k].id == id && forall j :: i < j < k ==> !(steps[j].StartProbe? && steps[j].id == id)
    ensures states[k + 1] == states[k]
  {
    NoHandler(states, steps, i, k, id);
    assert Enabled(states[k], steps[k]) && states[k + 1] == Next(states[k], steps[k]);
  }

  lemma {:induction false} NoHandler(states: seq<State>, steps: seq<Step>, i: nat, k: nat, id: ID)
    requires Run(states, steps) && i < k <= |steps| && steps[i].Timeout? && steps[i].id == id
    requires forall j :: i < j < k ==> !(steps[j].StartProbe? && steps[j].id == id)
    ensures id !in states[k].pongHandlers
  {
    assert Enabled(states[k - 1], steps[k - 1]) && states[k] == Next(states[k - 1], steps[k - 1]);
    if i < k - 1 {
      NoHandler(states, steps, i, k - 1, id);
    }
  }
}
