/** The routing table and the `nodes` map of the discovery backend: updatePeer
    and NearestPeersFromTarget by any number of threads, interleaved between
    lock operations. */
module PeerIndex {
  import opened Basics
  import opened Table
  import opened Nearest
  import opened Layers

  type Thread = nat

  /** An updater holds validLock in the last two phases. */
  datatype Updater = Ready | Locked(id: string) | Tabled(id: string)

  /** A reader looks up, one by one, the identifiers the table returned. */
  datatype Reader = Idle | Resolving(ids: seq<string>) | NotFound

  datatype State = State(
    table: KTable, nodes: set<string>, holder: Option<Thread>,
    updaters: map<Thread, Updater>, readers: map<Thread, Reader>)

  datatype Step =
    | Lock(t: Thread, id: string)     // updatePeer takes validLock
    | UpdateTable(t: Thread)          // table.Update, under the table's own lock
    | Insert(t: Thread)               // nodes[id] = peer, and unlock
    | Query(t: Thread, target: string, count: nat, out: seq<string>)  // table.NearestPeers
    | GetPeer(t: Thread)              // getPeer of the next identifier, under validLock
    | Done(t: Thread)

  ghost predicate Enabled(c: Config, s: State, step: Step)
    requires Table.Inv(c, s.table)
  {
    match step
    case Lock(t, id) => t in s.updaters && s.updaters[t].Ready? && s.holder.None?
    case UpdateTable(t) => t in s.updaters && s.updaters[t].Locked?
    case Insert(t) => t in s.updaters && s.updaters[t].Tabled?
    case Query(t, target, count, out) => t in s.readers && s.readers[t].Idle? && Answer(c, s.table, target, count, out)
    case GetPeer(t) => t in s.readers && s.readers[t].Resolving? && s.readers[t].ids != [] && s.holder.None?
    case Done(t) => t in s.readers && s.readers[t] == Resolving([])
  }

  ghost function Next(c: Config, s: State, step: Step): State
    requires Table.Inv(c, s.table) && Enabled(c, s, step)
  {
    match step
    case Lock(t, id) => s.(holder := Some(t), updaters := s.updaters[t := Locked(id)])
    case UpdateTable(t) =>
      s.(table := Update(c, s.table, s.updaters[t].id).0, updaters := s.updaters[t := Tabled(s.updaters[t].id)])
    case Insert(t) => s.(nodes := s.nodes + {s.updaters[t].id}, holder := None, updaters := s.updaters[t := Ready])
    case Query(t, _, _, out) => s.(readers := s.readers[t := Resolving(out)])
    case GetPeer(t) =>
      var ids := s.readers[t].ids;
      s.(readers := s.readers[t := if ids[0] in s.nodes then Resolving(ids[1..]) else NotFound])
    case Done(t) => s.(readers := s.readers[t := Idle])
  }

  /** The identifier that is in the table but perhaps not yet in `nodes`. */
  function InTransit(s: State): set<string> {
    if s.holder.Some? && s.holder.value in s.updaters && s.updaters[s.holder.value].Tabled?
    then {s.updaters[s.holder.value].id} else {}
  }

  ghost predicate Inv(c: Config, s: State) {
    && Table.Inv(c, s.table)
    && Stored(s.table) <= s.nodes + InTransit(s)
    && (forall t :: t in s.updaters && !s.updaters[t].Ready? ==> s.holder == Some(t))
    && (forall t :: t in s.readers ==> !s.readers[t].NotFound?)
    && (forall t :: t in s.readers && s.readers[t].Resolving? ==> Elems(s.readers[t].ids) <= s.nodes + InTransit(s))
  }

  /** Whatever the search returns is stored. */
  lemma AnswerIsStored(c: Config, t: KTable, target: string, count: nat, out: seq<string>)
    requires Table.Inv(c, t) && Answer(c, t, target, count, out)
    ensures Elems(out) <= Stored(t)
  {
    SearchedIsNear(c, t, target, count);
    NearInUnion(Rows(t), Slot(t, c.PeerCpl(target)), count);
    UnionOfRows(t);
  }

  lemma NextInv(c: Config, s: State, step: Step)
    requires Inv(c, s) && Enabled(c, s, step)
    ensures Inv(c, Next(c, s, step))
  {
    var s' := Next(c, s, step);
    match step
    case Lock(t, id) =>
    case UpdateTable(t) =>
      var id := s.updaters[t].id;
      UpdateInv(c, s.table, id);
      UpdateRefines(c, s.table, id);
    case Insert(t) =>
    case Query(t, target, count, out) =>
      AnswerIsStored(c, s.table, target, count, out);
    case GetPeer(t) =>
      var ids := s.readers[t].ids;
      assert ids[0] in Elems(ids);
      assert Elems(ids[1..]) <= Elems(ids);
    case Done(t) =>
  }

  ghost predicate Run(c: Config, states: seq<State>, steps: seq<Step>) {
    && |states| == |steps| + 1
    && states[0] == State([[]], {}, None, states[0].updaters, states[0].readers)
    && (forall t :: t in states[0].updaters ==> states[0].updaters[t] == Ready)
    && (forall t :: t in states[0].readers ==> states[0].readers[t] == Idle)
    && forall i :: 0 <= i < |steps| ==>
         Table.Inv(c, states[i].table) && Enabled(c, states[i], steps[i])
           && states[i + 1] == Next(c, states[i], steps[i])
  }

  /** In every interleaving each identifier the table returned is found: the
      "peer not found" branch is never taken. */
  lemma {:induction false} AlwaysFound(c: Config, states: seq<State>, steps: seq<Step>, n: nat)
    requires c.Valid() && Run(c, states, steps) && n <= |steps|
    ensures Inv(c, states[n])
    ensures forall t :: t in states[n].readers ==> states[n].readers[t] != NotFound
  {
    if n == 0 {
      EmptyTableInv(c);
      assert Stored([[]]) == {};
    } else {
      AlwaysFound(c, states, steps, n - 1);
      NextInv(c, states[n - 1], steps[n - 1]);
      assert states[n] == Next(c, states[n - 1], steps[n - 1]);
    }
  }

  // ----- what the updates leave -----

  /** The identifier of the latest Lock of a thread. */
  function LatestLock(steps: seq<Step>, n: nat, t: Thread): Option<string>
    requires n <= |steps|
  {
    if n == 0 then None
    else if steps[n - 1].Lock? && steps[n - 1].t == t then Some(steps[n - 1].id)
    else LatestLock(steps, n - 1, t)
  }

  /** The table updates of the first `n` steps, each for the identifier its thread locked for. */
  function Updates(steps: seq<Step>, n: nat): seq<Op>
    requires n <= |steps|
  {
    if n == 0 then []
    else
      var step := steps[n - 1];
      var id := LatestLock(steps, n - 1, step.t);
      Updates(steps, n - 1) + if step.UpdateTable? && id.Some? then [UpdateOp(id.value)] else []
  }

  /** The identifiers inserted in the first `n` steps. */
  function Inserted(steps: seq<Step>, n: nat): set<string>
    requires n <= |steps|
  {
    if n == 0 then {}
    else
      var step := steps[n - 1];
      var id := LatestLock(steps, n - 1, step.t);
      Inserted(steps, n - 1) + if step.Insert? && id.Some? then {id.value} else {}
  }

  lemma {:induction false} LockedFor(c: Config, states: seq<State>, steps: seq<Step>, n: nat, t: Thread)
    requires c.Valid() && Run(c, states, steps) && n <= |steps|
    requires t in states[n].updaters && !states[n].updaters[t].Ready?
    ensures LatestLock(steps, n, t) == Some(states[n].updaters[t].id)
  {
    if n > 0 {
      assert Enabled(c, states[n - 1], steps[n - 1]) && states[n] == Next(c, states[n - 1], steps[n - 1]);
      if !(steps[n - 1].Lock? && steps[n - 1].t == t) {
        LockedFor(c, states, steps, n - 1, t);
      }
    }
  }

  lemma OneUpdate(c: Config, ops: seq<Op>, id: string)
    requires c.Valid()
    ensures Table.Run(c, ops + [UpdateOp(id)]).0 == Update(c, Table.Run(c, ops).0, id).0
  {
    assert (ops + [UpdateOp(id)])[..|ops|] == ops;
  }

  /** In every interleaving the table is the one its updates leave, one after the other. */
  lemma {:induction false} UpdatesLand(c: Config, states: seq<State>, steps: seq<Step>, n: nat)
    requires c.Valid() && Run(c, states, steps) && n <= |steps|
    ensures states[n].table == Table.Run(c, Updates(steps, n)).0
  {
    if n > 0 {
      var step, ops := steps[n - 1], Updates(steps, n - 1);
      UpdatesLand(c, states, steps, n - 1);
      assert Enabled(c, states[n - 1], step) && states[n] == Next(c, states[n - 1], step);
      if step.UpdateTable? {
        LockedFor(c, states, steps, n - 1, step.t);
        OneUpdate(c, ops, states[n - 1].updaters[step.t].id);
      } else {
        assert ops + [] == ops;
      }
    }
  }

  /** And `nodes` are the identifiers inserted. */
  lemma {:induction false} InsertsLand(c: Config, states: seq<State>, steps: seq<Step>, n: nat)
    requires c.Valid() && Run(c, states, steps) && n <= |steps|
    ensures states[n].nodes == Inserted(steps, n)
  {
    if n > 0 {
      InsertsLand(c, states, steps, n - 1);
      assert Enabled(c, states[n - 1], steps[n - 1]) && states[n] == Next(c, states[n - 1], steps[n - 1]);
      if steps[n - 1].Insert? {
        LockedFor(c, states, steps, n - 1, steps[n - 1].t);
      }
    }
  }
}
