/** `LookupTarget`: a work list with at most three queries in flight. */
module Lookup {
  import opened Basics

  type ID = string

  const ALPHA: nat := 3

  /** The fixed reply relation: what a query to a node eventually brings back,
      in order; nothing if it fails. */
  type Replies = ID -> seq<ID>

  // ----- reachability -----

  ghost predicate Path(replies: Replies, p: seq<ID>) {
    |p| >= 2 && forall i :: 0 <= i < |p| - 1 ==> p[i + 1] in replies(p[i])
  }

  /** `x` is named in a reply, in a chain of replies that starts at one of `start`. */
  ghost predicate Reachable(start: seq<ID>, replies: Replies, x: ID) {
    exists p: seq<ID> :: Path(replies, p) && p[0] in start && p[|p| - 1] == x
  }

  lemma ReachStart(start: seq<ID>, replies: Replies, y: ID, x: ID)
    requires y in start && x in replies(y)
    ensures Reachable(start, replies, x)
  {
    var p := [y, x];
    assert Path(replies, p) && p[0] == y && p[|p| - 1] == x;
  }

  lemma ReachOn(start: seq<ID>, replies: Replies, y: ID, x: ID)
    requires Reachable(start, replies, y) && x in replies(y)
    ensures Reachable(start, replies, x)
  {
    var p: seq<ID> :| Path(replies, p) && p[0] in start && p[|p| - 1] == y;
    var q := p + [x];
    forall i | 0 <= i < |q| - 1
      ensures q[i + 1] in replies(q[i])
    {
      if i < |p| - 1 { assert q[i] == p[i] && q[i + 1] == p[i + 1]; }
    }
    assert Path(replies, q) && q[0] in start && q[|q| - 1] == x;
  }

  /** A set that has every reply of the start and of itself has everything reachable. */
  lemma {:induction false} ClosedHasPath(start: seq<ID>, replies: Replies, s: set<ID>, p: seq<ID>)
    requires Path(replies, p) && p[0] in start
    requires forall y :: y in start || y in s ==> Elems(replies(y)) <= s
    ensures p[|p| - 1] in s
    decreases |p|
  {
    var n := |p| - 1;
    assert p[n] in replies(p[n - 1]);
    if n > 1 {
      var q := p[..n];
      forall i | 0 <= i < |q| - 1
        ensures q[i + 1] in replies(q[i])
      {
        assert p[i + 1] in replies(p[i]);
      }
      ClosedHasPath(start, replies, s, q);
    }
    assert p[n] in Elems(replies(p[n - 1]));
  }

  // ----- the loop's state -----

  /** `todo` are the nodes in flight or queued, `asked` those whose reply has been processed. */
  ghost predicate Known(start: seq<ID>, visited: set<ID>, todo: seq<ID>, asked: set<ID>, replies: Replies) {
    && Elems(todo) <= Elems(start) + visited
    && Elems(start) + visited <= asked + Elems(todo)
    && (forall x :: x in asked ==> Elems(replies(x)) <= visited)
    && (forall x :: x in visited ==> Reachable(start, replies, x))
  }

  /** The nodes everything happens among. */
  ghost predicate Closed(universe: set<ID>, start: seq<ID>, replies: Replies) {
    Elems(start) <= universe && forall y :: y in universe ==> Elems(replies(y)) <= universe
  }

  /** The seeding loop.  Its bound is recomputed from the shrinking queue, so it
      starts about half of a short queue, not all of it. */
  method Seed(start: seq<ID>) returns (queue: seq<ID>, pending: seq<ID>)
    ensures pending + queue == start
    ensures |pending| == Min(3, (|start| + 1) / 2)
  {
    queue, pending := start, [];
    var i := 0;
    while i < Min(|queue|, ALPHA)
      invariant i == |pending| <= ALPHA && pending + queue == start
      invariant |pending| <= (|start| + 1) / 2
      decreases ALPHA - i
    {
      pending, queue := pending + [queue[0]], queue[1..];
      i := i + 1;
    }
  }

  /** Adds the nodes of a reply that were not seen before. */
  method Discover(visited: set<ID>, queue: seq<ID>, nodes: seq<ID>)
    returns (visited': set<ID>, queue': seq<ID>, novel: seq<ID>)
    ensures visited' == visited + Elems(nodes) && queue' == queue + novel
    ensures NoDup(novel) && Elems(novel) == Elems(nodes) - visited
  {
    visited', queue', novel := visited, queue, [];
    for i := 0 to |nodes|
      invariant visited' == visited + Elems(nodes[..i]) && queue' == queue + novel
      invariant NoDup(novel) && Elems(novel) == Elems(nodes[..i]) - visited
    {
      var p := nodes[i];
      assert nodes[..i + 1] == nodes[..i] + [p];
      assert Elems(nodes[..i + 1]) == Elems(nodes[..i]) + {p};
      if p !in visited' {
        assert Elems(novel + [p]) == Elems(novel) + {p};
        assert forall j :: 0 <= j < |novel| ==> novel[j] in Elems(novel);
        visited' := visited' + {p};
        queue' := queue' + [p];
        novel := novel + [p];
      }
    }
    assert nodes[..|nodes|] == nodes;
  }

  /** Starts queries until three are in flight or the queue is empty. */
  method Refill(queue: seq<ID>, pending: seq<ID>) returns (queue': seq<ID>, pending': seq<ID>)
    requires |pending| <= ALPHA
    ensures pending' + queue' == pending + queue && |pending| <= |pending'| <= ALPHA
    ensures |pending'| == 3 || queue' == []
  {
    queue', pending' := queue, pending;
    while |pending'| < ALPHA && |queue'| != 0
      invariant pending' + queue' == pending + queue && |pending| <= |pending'| <= ALPHA
      decreases |queue'|
    {
      pending', queue' := pending' + [queue'[0]], queue'[1..];
    }
  }

  lemma SizeOfNew(universe: set<ID>, visited: set<ID>, novel: seq<ID>)
    requires NoDup(novel) && Elems(novel) <= universe - visited
    ensures |universe - (visited + Elems(novel))| + |novel| == |universe - visited|
  {
    NoDupSize(novel);
    assert (universe - (visited + Elems(novel))) + Elems(novel) == universe - visited;
  }

  lemma WithoutAtElems(s: seq<ID>, k: nat)
    requires k < |s|
    ensures Elems(s) == Elems(WithoutAt(s, k)) + {s[k]}
  {
    assert s == s[..k] + [s[k]] + s[k + 1..];
  }

  lemma ElemsConcat(a: seq<ID>, b: seq<ID>)
    ensures Elems(a + b) == Elems(a) + Elems(b)
  {}

  /** One processed reply keeps what is known. */
  lemma ReplyKeeps(start: seq<ID>, visited: set<ID>, queue: seq<ID>, pending: seq<ID>, asked: set<ID>, replies: Replies,
                   k: nat, novel: seq<ID>)
    requires Known(start, visited, pending + queue, asked, replies) && k < |pending|
    requires Elems(novel) == Elems(replies(pending[k])) - visited
    ensures Known(start, visited + Elems(replies(pending[k])), WithoutAt(pending, k) + (queue + novel),
                  asked + {pending[k]}, replies)
  {
    var p, rest := pending[k], WithoutAt(pending, k);
    WithoutAtElems(pending, k);
    ElemsConcat(pending, queue);
    ElemsConcat(queue, novel);
    ElemsConcat(rest, queue + novel);
    assert p in Elems(pending + queue);
    forall x | x in Elems(replies(p))
      ensures Reachable(start, replies, x)
    {
      if p in start { ReachStart(start, replies, p, x); } else { ReachOn(start, replies, p, x); }
    }
  }

  /** The loop's variables, with a record of what was enqueued and asked. */
  datatype Work = Work(queue: seq<ID>, pending: seq<ID>, visited: set<ID>, enqueued: seq<ID>, queries: nat,
      asked: set<ID>)

  ghost predicate Sound(w: Work, start: seq<ID>, replies: Replies, universe: set<ID>) {
    && |w.pending| <= ALPHA && (w.pending == [] ==> w.queue == [])
    && Known(start, w.visited, w.pending + w.queue, w.asked, replies)
    && w.visited <= universe
    && NoDup(w.enqueued) && Elems(w.enqueued) == w.visited
    && w.queries + |w.queue| == |start| + |w.enqueued|
  }

  ghost function Measure(w: Work, universe: set<ID>): nat {
    |universe - w.visited| + |w.queue| + |w.pending|
  }

  /** One turn of the main loop, for the reply of the query at `k`. */
  method Answer(w: Work, k: nat, start: seq<ID>, replies: Replies, ghost universe: set<ID>) returns (w': Work)
    requires Closed(universe, start, replies) && Sound(w, start, replies, universe) && k < |w.pending|
    ensures Sound(w', start, replies, universe) && Measure(w', universe) < Measure(w, universe)
    ensures |w'.pending| == 3 || w'.queue == []
  {
    var node, rest := w.pending[k], WithoutAt(w.pending, k);
    InUniverse(universe, start, replies, w, k);
    var visited, grown, novel := Discover(w.visited, w.queue, replies(node));
    var queue, pending := Refill(grown, rest);
    AnswerKeeps(w, k, start, replies, universe, novel, queue, pending);
    w' := Work(queue, pending, visited, w.enqueued + novel, w.queries + (|pending| - |rest|), w.asked + {node});
  }

  lemma AnswerKeeps(w: Work, k: nat, start: seq<ID>, replies: Replies, universe: set<ID>, novel: seq<ID>,
      queue: seq<ID>, pending: seq<ID>)
    requires Sound(w, start, replies, universe) && k < |w.pending|
    requires Elems(replies(w.pending[k])) <= universe
    requires NoDup(novel) && Elems(novel) == Elems(replies(w.pending[k])) - w.visited
    requires pending + queue == WithoutAt(w.pending, k) + (w.queue + novel)
    requires |w.pending| - 1 <= |pending| <= ALPHA && (pending == [] ==> queue == [])
    ensures var w' := Work(queue, pending, w.visited + Elems(replies(w.pending[k])), w.enqueued + novel,
                           w.queries + (|pending| - (|w.pending| - 1)), w.asked + {w.pending[k]});
      Sound(w', start, replies, universe) && Measure(w', universe) < Measure(w, universe)
  {
    var node, rest := w.pending[k], WithoutAt(w.pending, k);
    LogNovel(w.enqueued, novel, w.visited);
    ReplyKeeps(start, w.visited, w.queue, w.pending, w.asked, replies, k, novel);
    Counts(w, universe, rest, novel, queue, pending);
    assert w.visited + Elems(novel) == w.visited + Elems(replies(node));
  }

  lemma Counts(w: Work, universe: set<ID>, rest: seq<ID>, novel: seq<ID>, queue: seq<ID>, pending: seq<ID>)
    requires |rest| == |w.pending| - 1 && pending + queue == rest + (w.queue + novel)
    requires NoDup(novel) && Elems(novel) <= universe - w.visited
    ensures |universe - (w.visited + Elems(novel))| + |queue| + |pending| == Measure(w, universe) - 1
    ensures |pending| - |rest| + |queue| == |w.queue| + |novel|
  {
    SizeOfNew(universe, w.visited, novel);
    assert |pending| + |queue| == |pending + queue|;
    assert |rest| + (|w.queue| + |novel|) == |rest + (w.queue + novel)|;
  }

  /** The lookup for any order of replies (`k` is chosen arbitrarily): it ends,
      never has more than three queries in flight, enqueues every discovered
      node exactly once, and discovers exactly the reachable nodes. */
  method Explore(start: seq<ID>, replies: Replies, ghost universe: set<ID>)
    returns (visited: set<ID>, peak: nat, queries: nat, enqueued: seq<ID>)
    requires Closed(universe, start, replies)
    ensures forall x :: x in visited <==> Reachable(start, replies, x)
    ensures peak <= 3
    ensures NoDup(enqueued) && Elems(enqueued) == visited && queries == |start| + |enqueued|
  {
    var queue, pending := Seed(start);
    var w := Work(queue, pending, {}, [], |pending|, {});
    SoundAtFirst(w, start, replies, universe);
    peak := |pending|;
    while |w.pending| > 0
      invariant peak <= ALPHA && Sound(w, start, replies, universe)
      decreases Measure(w, universe)
    {
      var k :| 0 <= k < |w.pending|;
      w := Answer(w, k, start, replies, universe);
      peak := if |w.pending| > peak then |w.pending| else peak;
    }
    Complete(start, replies, w, universe);
    return w.visited, peak, w.queries, w.enqueued;
  }

  lemma InUniverse(universe: set<ID>, start: seq<ID>, replies: Replies, w: Work, k: nat)
    requires Closed(universe, start, replies) && Sound(w, start, replies, universe) && k < |w.pending|
    ensures w.pending[k] in universe && Elems(replies(w.pending[k])) <= universe
  {
    assert (w.pending + w.queue)[k] in Elems(w.pending + w.queue);
  }

  lemma LogNovel(log: seq<ID>, novel: seq<ID>, visited: set<ID>)
    requires NoDup(log) && Elems(log) == visited && NoDup(novel) && Elems(novel) !! visited
    ensures NoDup(log + novel) && Elems(log + novel) == visited + Elems(novel)
  {
    forall i, j | 0 <= i < |log| && 0 <= j < |novel|
      ensures log[i] != novel[j]
    {
      assert log[i] in Elems(log) && novel[j] in Elems(novel);
    }
  }

  lemma SoundAtFirst(w: Work, start: seq<ID>, replies: Replies, universe: set<ID>)
    requires w.pending + w.queue == start && |w.pending| <= ALPHA && (w.pending == [] ==> w.queue == [])
    requires w.visited == {} && w.enqueued == [] && w.asked == {} && w.queries == |w.pending|
    ensures Sound(w, start, replies, universe)
  {
    assert |w.pending| + |w.queue| == |w.pending + w.queue|;
  }

  lemma Complete(start: seq<ID>, replies: Replies, w: Work, universe: set<ID>)
    requires Sound(w, start, replies, universe) && w.pending == []
    ensures w.queries == |start| + |w.enqueued|
    ensures forall x :: x in w.visited <==> Reachable(start, replies, x)
  {
    var visited := w.visited;
    assert w.pending + w.queue == [];
    forall y | y in start || y in visited
      ensures Elems(replies(y)) <= visited
    {
      assert y in Elems(start) + visited;
    }
    forall x | Reachable(start, replies, x)
      ensures x in visited
    {
      var p: seq<ID> :| Path(replies, p) && p[0] in start && p[|p| - 1] == x;
      ClosedHasPath(start, replies, visited, p);
    }
  }

  /** The call as a whole, without a shutdown: an inactive backend answers with
      nothing; otherwise the discovered nodes are returned if all of them are
      known peers by then, and the call fails if one is not. */
  method LookupTarget(active: bool, nearest: seq<ID>, replies: Replies, nodes: set<ID>, ghost universe: set<ID>)
    returns (r: Option<set<ID>>)
    requires Closed(universe, nearest, replies)
    ensures !active ==> r == Some({})
    ensures active && r.Some? ==> forall x :: x in r.value <==> Reachable(nearest, replies, x)
    ensures active ==> (r.Some? <==> forall x :: Reachable(nearest, replies, x) ==> x in nodes)
  {
    if !active {
      return Some({});
    }
    var visited, _, _, _ := Explore(nearest, replies, universe);
    if visited <= nodes {
      return Some(visited);
    }
    return None;
  }
}
