/** The routing table determined by the calls made on it: which peers, in how
    many buckets, and in which order. */
module Recency {
  import opened Basics
  import opened Buckets
  import opened Table

  // ----- the order within a bucket -----

  /** When a peer was last seen: the number of the latest Update call on it that
      the plain set-per-prefix-length table accepts, or 0. */
  ghost function Seen(c: Config, ops: seq<Op>, id: string): (n: nat)
    requires c.Valid()
    ensures n <= |ops|
  {
    if ops == [] then 0
    else
      var before := ops[..|ops| - 1];
      if ops[|ops| - 1] == UpdateOp(id) && AbstractUpdate(c, AbstractRun(c, before), id).1 then |ops|
      else Seen(c, before, id)
  }

  ghost predicate Later(c: Config, ops: seq<Op>, a: string, b: string)
    requires c.Valid()
  {
    Seen(c, ops, a) > Seen(c, ops, b)
  }

  /** Most recently seen first. */
  ghost predicate Recent(c: Config, ops: seq<Op>, l: seq<Entry>)
    requires c.Valid()
  {
    forall x, y :: 0 <= x < y < |l| ==> Later(c, ops, l[x].id, l[y].id)
  }

  lemma PartRecent(c: Config, ops: seq<Op>, s: seq<Entry>, l: seq<Entry>)
    requires c.Valid() && Recent(c, ops, l) && SubOrder(s, l)
    ensures Recent(c, ops, s)
  {
    var pos :| Embeds(s, l, pos);
  }

  /** A call on another peer does not change when a peer was last seen. */
  lemma OthersRecent(c: Config, ops: seq<Op>, op: Op, l: seq<Entry>)
    requires c.Valid() && Recent(c, ops, l) && op.peer !in Ids(l)
    ensures Recent(c, ops + [op], l)
  {
    assert (ops + [op])[..|ops|] == ops;
    forall x, y | 0 <= x < y < |l|
      ensures Later(c, ops + [op], l[x].id, l[y].id)
    {
      assert Ids(l)[x] != op.peer && Ids(l)[y] != op.peer;
      assert Later(c, ops, l[x].id, l[y].id);
    }
  }

  /** Neither does a call that is no accepted update. */
  lemma IdleRecent(c: Config, ops: seq<Op>, op: Op, l: seq<Entry>)
    requires c.Valid() && Recent(c, ops, l)
    requires op.RemoveOp? || !AbstractUpdate(c, AbstractRun(c, ops), op.peer).1
    ensures Recent(c, ops + [op], l)
  {
    assert (ops + [op])[..|ops|] == ops;
    forall x, y | 0 <= x < y < |l|
      ensures Later(c, ops + [op], l[x].id, l[y].id)
    {
      assert Later(c, ops, l[x].id, l[y].id);
    }
  }

  /** The peer just updated goes in front of the others. */
  lemma FrontRecent(c: Config, ops: seq<Op>, e: Entry, l: seq<Entry>)
    requires c.Valid() && Recent(c, ops, l) && e.id !in Ids(l)
    requires AbstractUpdate(c, AbstractRun(c, ops), e.id).1
    ensures Recent(c, ops + [UpdateOp(e.id)], [e] + l)
  {
    var ops' := ops + [UpdateOp(e.id)];
    assert ops'[..|ops|] == ops;
    OthersRecent(c, ops, UpdateOp(e.id), l);
    forall x, y | 0 <= x < y < |[e] + l|
      ensures Later(c, ops', ([e] + l)[x].id, ([e] + l)[y].id)
    {
      if x == 0 {
        assert Ids(l)[y - 1] != e.id;
      } else {
        assert Later(c, ops', l[x - 1].id, l[y - 1].id);
      }
    }
  }

  lemma WithoutInOrder(l: seq<Entry>, k: nat)
    requires k < |l|
    ensures SubOrder(WithoutAt(l, k), l)
  {
    assert Embeds(WithoutAt(l, k), l, seq(|l| - 1, i requires 0 <= i < |l| - 1 => if i < k then i else i + 1));
  }

  // ----- the order in the whole table -----

  ghost predicate AllRecent(c: Config, ops: seq<Op>, t: KTable)
    requires c.Valid()
  {
    forall i :: 0 <= i < |t| ==> Recent(c, ops, t[i])
  }

  lemma NotElsewhere(c: Config, t: KTable, p: string, i: nat)
    requires Inv(c, t) && i < |t| && i != Slot(t, c.PeerCpl(p))
    ensures p !in Ids(t[i])
  {
    if p in Ids(t[i]) {
      var k :| 0 <= k < |t[i]| && Ids(t[i])[k] == p;
      WhereStored(c, t, i, k);
    }
  }

  lemma PushRecent(c: Config, ops: seq<Op>, t: KTable, p: string)
    requires Inv(c, t) && AllRecent(c, ops, t)
    requires AbstractUpdate(c, AbstractRun(c, ops), p).1 && !Holds(t[Slot(t, c.PeerCpl(p))], p)
    ensures AllRecent(c, ops + [UpdateOp(p)], Push(c, t, Slot(t, c.PeerCpl(p)), p))
  {
    var b := Slot(t, c.PeerCpl(p));
    HoldsMeansMember(t[b], p);
    FrontRecent(c, ops, Entry(p, c.digest(p)), t[b]);
    forall i | 0 <= i < |t| && i != b
      ensures Recent(c, ops + [UpdateOp(p)], t[i])
    {
      NotElsewhere(c, t, p, i);
      OthersRecent(c, ops, UpdateOp(p), t[i]);
    }
  }

  lemma MoveRecent(c: Config, ops: seq<Op>, t: KTable, p: string)
    requires Inv(c, t) && AllRecent(c, ops, t)
    requires AbstractUpdate(c, AbstractRun(c, ops), p).1 && Holds(t[Slot(t, c.PeerCpl(p))], p)
    ensures var b := Slot(t, c.PeerCpl(p));
      AllRecent(c, ops + [UpdateOp(p)], t[b := MovedToFront(t[b], p)])
  {
    var b := Slot(t, c.PeerCpl(p));
    var k := IndexOf(t[b], p);
    assert BucketAtOk(c, t, b);
    RemoveFacts(t[b], k);
    WithoutInOrder(t[b], k);
    PartRecent(c, ops, WithoutAt(t[b], k), t[b]);
    FrontRecent(c, ops, t[b][k], WithoutAt(t[b], k));
    forall i | 0 <= i < |t| && i != b
      ensures Recent(c, ops + [UpdateOp(p)], t[i])
    {
      NotElsewhere(c, t, p, i);
      OthersRecent(c, ops, UpdateOp(p), t[i]);
    }
  }

  lemma UnfoldRecent(c: Config, ops: seq<Op>, t: KTable)
    requires Inv(c, t) && AllRecent(c, ops, t) && t[|t| - 1] != []
    ensures AllRecent(c, ops, Unfold(c, t))
  {
    var n, u := |t| - 1, Unfold(c, t);
    UnfoldInv(c, t);
    forall i | 0 <= i < |u|
      ensures Recent(c, ops, u[i])
    {
      if i < n {
        assert u[i] == u[..n][i] == t[i];
      } else {
        UnfoldKeepsOrder(c, t, i);
        PartRecent(c, ops, u[i], t[n]);
      }
    }
  }

  lemma IdleTable(c: Config, ops: seq<Op>, op: Op, t: KTable)
    requires c.Valid() && AllRecent(c, ops, t)
    requires op.RemoveOp? || !AbstractUpdate(c, AbstractRun(c, ops), op.peer).1
    ensures AllRecent(c, ops + [op], t)
  {
    forall i | 0 <= i < |t|
      ensures Recent(c, ops + [op], t[i])
    {
      IdleRecent(c, ops, op, t[i]);
    }
  }

  lemma UpdateRecent(c: Config, ops: seq<Op>, t: KTable, p: string)
    requires Inv(c, t) && AllRecent(c, ops, t) && Stored(t) == AbstractRun(c, ops)
    ensures AllRecent(c, ops + [UpdateOp(p)], Update(c, t, p).0)
  {
    var cpl := c.PeerCpl(p);
    var b := Slot(t, cpl);
    UpdateRefines(c, t, p);
    if Holds(t[b], p) {
      MoveRecent(c, ops, t, p);
    } else if |t[b]| < c.bucketsize {
      PushRecent(c, ops, t, p);
    } else if b == |t| - 1 {
      UnfoldRecent(c, ops, t);
      UnfoldInv(c, t);
      UnfoldAbsent(c, t, p);
      var u := Unfold(c, t);
      if |u[Slot(u, cpl)]| >= c.bucketsize {
        IdleTable(c, ops, UpdateOp(p), u);
      } else {
        PushRecent(c, ops, u, p);
      }
    } else {
      IdleTable(c, ops, UpdateOp(p), t);
    }
  }

  lemma RemoveRecent(c: Config, ops: seq<Op>, t: KTable, p: string)
    requires Inv(c, t) && AllRecent(c, ops, t)
    ensures AllRecent(c, ops + [RemoveOp(p)], Remove(c, t, p).0)
  {
    var b := Slot(t, c.PeerCpl(p));
    var t' := Remove(c, t, p).0;
    if Holds(t[b], p) {
      WithoutInOrder(t[b], IndexOf(t[b], p));
      PartRecent(c, ops, t'[b], t[b]);
    }
    assert AllRecent(c, ops, t');
    IdleTable(c, ops, RemoveOp(p), t');
  }

  /** After every run each bucket lists its peers by their latest accepted
      Update, the most recent first. */
  lemma {:induction false} RunRecent(c: Config, ops: seq<Op>)
    requires c.Valid()
    ensures AllRecent(c, ops, Run(c, ops).0)
  {
    if ops != [] {
      var before, op := ops[..|ops| - 1], ops[|ops| - 1];
      var t := Run(c, before).0;
      RunRecent(c, before);
      RunRefines(c, before);
      assert ops == before + [op];
      if op.UpdateOp? {
        UpdateRecent(c, before, t, op.peer);
      } else {
        RemoveRecent(c, before, t, op.peer);
      }
    }
  }

  // ----- the number of buckets -----

  /** The peers that share at least `k` leading bits with the local identifier. */
  ghost function AtLeast(c: Config, s: set<string>, k: nat): set<string>
    requires c.Valid()
  {
    set id | id in s && c.PeerCpl(id) >= k
  }

  /** The least number of buckets, from `n` on, whose last one would be below capacity. */
  ghost function Enough(c: Config, s: set<string>, n: nat): (m: nat)
    requires c.Valid() && n >= 1
    ensures m >= n
    decreases 8 * c.hashLen + 2 - n
  {
    if n >= 8 * c.hashLen + 2 || |AtLeast(c, s, n - 1)| < c.bucketsize then n else Enough(c, s, n + 1)
  }

  /** The number of buckets after one more call: a new peer that finds the last one full adds as many
      as it takes for the last one to be below capacity. */
  ghost function Deeper(c: Config, s: set<string>, n: nat, op: Op): (m: nat)
    requires c.Valid() && n >= 1
    ensures m >= n
  {
    if op.UpdateOp? && op.peer !in s && c.PeerCpl(op.peer) >= n - 1 && |AtLeast(c, s, n - 1)| >= c.bucketsize
    then Enough(c, s, n + 1) else n
  }

  /** The number of buckets after a run, one at first. */
  ghost function Depth(c: Config, ops: seq<Op>): (n: nat)
    requires c.Valid()
    ensures n >= 1
  {
    if ops == [] then 1
    else
      var before := ops[..|ops| - 1];
      Deeper(c, AbstractRun(c, before), Depth(c, before), ops[|ops| - 1])
  }

  lemma LastBucket(c: Config, t: KTable)
    requires Inv(c, t)
    ensures IdSet(t[|t| - 1]) == AtLeast(c, Stored(t), |t| - 1)
    ensures |t[|t| - 1]| == |AtLeast(c, Stored(t), |t| - 1)|
  {
    var n := |t| - 1;
    var held, far := IdSet(t[n]), AtLeast(c, Stored(t), n);
    assert BucketAtOk(c, t, n);
    UniqueCount(t[n]);
    forall id | id in far
      ensures id in held
    {
      StoredIffHeld(c, t, id);
      assert t[n][IndexOf(t[n], id)] in t[n];
    }
    forall id | id in held
      ensures id in far
    {
      var e :| e in t[n] && e.id == id;
      assert Placed(c, e, n, false) && t[n] in t;
    }
    assert held == far;
  }

  lemma SplitStored(c: Config, t: KTable)
    requires Inv(c, t)
    ensures Stored(SplitLast(c, t)) == Stored(t)
  {
    SplitConserves(c, t);
    StoredIsFlatten(t);
    StoredIsFlatten(SplitLast(c, t));
    SameIds(Flatten(t), Flatten(SplitLast(c, t)));
  }

  /** Unfolding adds just as many buckets as it takes. */
  lemma {:induction false} UnfoldLeast(c: Config, t: KTable)
    requires Inv(c, t) && t[|t| - 1] != []
    ensures |Unfold(c, t)| == Enough(c, Stored(t), |t| + 1)
    decreases 8 * c.hashLen + 2 - |t|
  {
    SplitLastInv(c, t);
    NonEmptyLastBound(c, t);
    SplitStored(c, t);
    var s := SplitLast(c, t);
    LastBucket(c, s);
    if |s[|t|]| >= c.bucketsize {
      NonEmptyLastBound(c, s);
      UnfoldLeast(c, s);
    }
  }

  lemma UpdateDepth(c: Config, t: KTable, p: string)
    requires Inv(c, t)
    ensures var n, s := |t|, Stored(t);
      |Update(c, t, p).0| ==
      if p !in s && c.PeerCpl(p) >= n - 1 && |AtLeast(c, s, n - 1)| >= c.bucketsize then Enough(c, s, n + 1) else n
  {
    StoredIffHeld(c, t, p);
    LastBucket(c, t);
    var b := Slot(t, c.PeerCpl(p));
    if !Holds(t[b], p) && b == |t| - 1 && |t[b]| >= c.bucketsize {
      UnfoldLeast(c, t);
      UnfoldInv(c, t);
    }
  }

  lemma ApplyDepth(c: Config, t: KTable, op: Op)
    requires Inv(c, t)
    ensures |Apply(c, t, op).0| == Deeper(c, Stored(t), |t|, op)
  {
    if op.UpdateOp? {
      UpdateDepth(c, t, op.peer);
    }
  }

  lemma RunLast(c: Config, ops: seq<Op>)
    requires c.Valid() && ops != []
    ensures Run(c, ops).0 == Apply(c, Run(c, ops[..|ops| - 1]).0, ops[|ops| - 1]).0
  {}

  /** The number of buckets after every run. */
  lemma {:induction false} RunDepth(c: Config, ops: seq<Op>)
    requires c.Valid()
    ensures |Run(c, ops).0| == Depth(c, ops)
  {
    if ops != [] {
      var before, op := ops[..|ops| - 1], ops[|ops| - 1];
      RunDepth(c, before);
      RunRefines(c, before);
      RunLast(c, ops);
      ApplyDepth(c, Run(c, before).0, op);
    }
  }

  // ----- the whole table -----

  /** Bucket `i` of the table after a run: exactly the peers the plain table
      holds with that prefix length, or at least that for the last bucket. */
  ghost function Members(c: Config, ops: seq<Op>, i: nat): set<string>
    requires c.Valid()
  {
    var s := AbstractRun(c, ops);
    if i < Depth(c, ops) - 1 then SameCpl(c, s, i) else AtLeast(c, s, i)
  }

  /** A table is what the calls on it say: buckets, their members and their order. */
  ghost predicate Told(c: Config, ops: seq<Op>, t: KTable)
    requires c.Valid()
  {
    && |t| == Depth(c, ops) && AllRecent(c, ops, t)
    && forall i: nat :: i < |t| ==> IdSet(t[i]) == Members(c, ops, i)
  }

  lemma MembersOf(c: Config, ops: seq<Op>, t: KTable, i: nat)
    requires Inv(c, t) && Stored(t) == AbstractRun(c, ops) && |t| == Depth(c, ops) && i < |t|
    ensures IdSet(t[i]) == Members(c, ops, i)
  {
    if i == |t| - 1 {
      LastBucket(c, t);
    } else {
      var held, same := IdSet(t[i]), SameCpl(c, Stored(t), i);
      forall id | id in same
        ensures id in held
      {
        StoredIffHeld(c, t, id);
        assert t[i][IndexOf(t[i], id)] in t[i];
      }
      assert BucketAtOk(c, t, i);
      forall id | id in held
        ensures id in same
      {
        var e :| e in t[i] && e.id == id;
        assert Placed(c, e, i, true) && t[i] in t;
      }
    }
  }

  /** Every run leaves the table its calls determine. */
  lemma RunTold(c: Config, ops: seq<Op>)
    requires c.Valid()
    ensures Told(c, ops, Run(c, ops).0)
  {
    RunRecent(c, ops);
    RunDepth(c, ops);
    RunRefines(c, ops);
    forall i: nat | i < Depth(c, ops)
      ensures IdSet(Run(c, ops).0[i]) == Members(c, ops, i)
    {
      MembersOf(c, ops, Run(c, ops).0, i);
    }
  }

  lemma NoIds(l: seq<Entry>)
    ensures IdSet(l) == {} <==> l == []
    ensures l != [] ==> l[0].id in IdSet(l)
  {
    assert l != [] ==> l[0] in l && l[0].id in IdSet(l);
  }

  lemma RestIds(c: Config, ops: seq<Op>, l: seq<Entry>)
    requires c.Valid() && l != [] && Recent(c, ops, l)
    ensures IdSet(l[1..]) == IdSet(l) - {l[0].id} && Recent(c, ops, l[1..])
  {
    assert l == [l[0]] + l[1..];
    assert forall y :: 0 <= y < |l| - 1 ==> Later(c, ops, l[0].id, l[y + 1].id) && l[1..][y] == l[y + 1];
  }

  lemma FirstIsLatest(c: Config, ops: seq<Op>, l: seq<Entry>, id: string)
    requires c.Valid() && Recent(c, ops, l) && id in IdSet(l)
    ensures id == l[0].id || Later(c, ops, l[0].id, id)
  {
    var e :| e in l && e.id == id;
    var x :| 0 <= x < |l| && l[x] == e;
    assert x > 0 ==> Later(c, ops, l[0].id, l[x].id);
  }

  /** Only one list has these members in this order. */
  lemma {:induction false} OneOrder(c: Config, ops: seq<Op>, l: seq<Entry>, m: seq<Entry>)
    requires c.Valid() && Recent(c, ops, l) && Recent(c, ops, m) && IdSet(l) == IdSet(m)
    ensures Ids(l) == Ids(m)
  {
    NoIds(l);
    NoIds(m);
    if l != [] {
      FirstIsLatest(c, ops, l, m[0].id);
      FirstIsLatest(c, ops, m, l[0].id);
      RestIds(c, ops, l);
      RestIds(c, ops, m);
      OneOrder(c, ops, l[1..], m[1..]);
      assert Ids(l) == [l[0].id] + Ids(l[1..]) && Ids(m) == [m[0].id] + Ids(m[1..]);
    }
  }

  /** And there is only one such table. */
  lemma ToldUnique(c: Config, ops: seq<Op>, t: KTable, u: KTable)
    requires c.Valid() && Told(c, ops, t) && Told(c, ops, u)
    ensures |t| == |u| && forall i :: 0 <= i < |t| ==> Ids(t[i]) == Ids(u[i])
  {
    forall i | 0 <= i < |t|
      ensures Ids(t[i]) == Ids(u[i])
    {
      assert IdSet(t[i]) == Members(c, ops, i) == IdSet(u[i]);
      OneOrder(c, ops, t[i], u[i]);
    }
  }

  /** An accepted Update leaves its peer first in its bucket. */
  lemma UpdateInFront(c: Config, t: KTable, p: string)
    requires Inv(c, t) && Update(c, t, p).1 != Rejected
    ensures var t' := Update(c, t, p).0;
      t' != [] && var l := t'[Slot(t', c.PeerCpl(p))]; l != [] && l[0].id == p
  {
    var b := Slot(t, c.PeerCpl(p));
    if |t[b]| >= c.bucketsize && b == |t| - 1 && !Holds(t[b], p) {
      UnfoldInv(c, t);
    }
  }

  /** The table and the notifications that a list of calls leaves. */
  ghost predicate Follows(c: Config, ops: seq<Op>, t: KTable, h: seq<Event>)
    requires c.Valid()
  {
    Run(c, ops) == (t, h) && Told(c, ops, t)
  }

  /** One more call of a run. */
  lemma RunOneMore(c: Config, ops: seq<Op>, t: KTable, h: seq<Event>, op: Op)
    requires c.Valid() && Inv(c, t) && Follows(c, ops, t, h)
    ensures var (t', e) := Apply(c, t, op);
      Follows(c, ops + [op], t', h + e) && Inv(c, t') && Replay(h + e) == Stored(t')
  {
    assert (ops + [op])[..|ops|] == ops;
    RunRefines(c, ops + [op]);
    RunTold(c, ops + [op]);
  }

  /** Whom an Update accepts and announces, and where it puts the peer. */
  lemma UpdateEffect(c: Config, t: KTable, p: string)
    requires Inv(c, t)
    ensures var (t', v) := Update(c, t, p); var e := Apply(c, t, UpdateOp(p)).1;
      && AbstractUpdate(c, Stored(t), p) == (Stored(t'), v != Rejected)
      && e == (if p in Stored(t') - Stored(t) then [PeerAdded(p)] else [])
      && (v != Rejected ==> t' != [] && var l := t'[Slot(t', c.PeerCpl(p))]; l != [] && l[0].id == p)
  {
    UpdateRefines(c, t, p);
    if Update(c, t, p).1 != Rejected {
      UpdateInFront(c, t, p);
    }
  }
}
