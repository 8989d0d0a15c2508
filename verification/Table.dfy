/** The routing table as a value: a list of buckets in which bucket `i` holds
    the peers sharing exactly `i` leading bits with the local identifier,
    except the last, which holds every peer sharing at least that many. */
module Table {
  import opened Basics
  import opened XorMetric
  import opened Buckets

  type KTable = seq<seq<Entry>>

  /** Bucket capacity, the hash (a pure function to strings of one length) and the local identifier. */
  datatype Config = Config(bucketsize: nat, hashLen: nat, digest: string -> ID, local: ID) {
    ghost predicate Valid() {
      bucketsize >= 1 && |local| == hashLen && forall s: string :: |digest(s)| == hashLen
    }

    function PeerCpl(id: string): nat
      requires Valid()
    {
      Cpl(digest(id), local)
    }
  }

  // ----- invariant -----

  ghost predicate Placed(c: Config, e: Entry, i: nat, exact: bool)
    requires c.Valid()
  {
    e.hash == c.digest(e.id) && (if exact then c.PeerCpl(e.id) == i else c.PeerCpl(e.id) >= i)
  }

  ghost predicate BucketOk(c: Config, l: seq<Entry>, i: nat, exact: bool)
    requires c.Valid()
  {
    Unique(l) && |l| <= c.bucketsize && forall e :: e in l ==> Placed(c, e, i, exact)
  }

  /** Bucket `i` holds peers of prefix length `i`, or at least `i` if it is the last. */
  ghost predicate BucketAtOk(c: Config, t: KTable, i: nat)
    requires c.Valid() && i < |t|
  {
    BucketOk(c, t[i], i, i < |t| - 1)
  }

  /** What every reachable table satisfies. */
  ghost predicate Inv(c: Config, t: KTable) {
    && c.Valid()
    && 1 <= |t| <= 8 * c.hashLen + 2
    && forall i: nat :: i < |t| ==> BucketAtOk(c, t, i)
  }

  lemma EmptyTableInv(c: Config)
    requires c.Valid()
    ensures Inv(c, [[]])
  {}

  lemma PeerCplBound(c: Config, id: string)
    requires c.Valid()
    ensures c.PeerCpl(id) <= 8 * c.hashLen
  {
    CplSpec(c.digest(id), c.local);
  }

  lemma BucketMeasurable(c: Config, t: KTable, i: nat)
    requires Inv(c, t) && i < |t|
    ensures Measurable(t[i], c.local)
  {
    assert BucketAtOk(c, t, i);
    assert forall k :: 0 <= k < |t[i]| ==> t[i][k] in t[i];
  }

  // ----- unfolding the last bucket -----

  /** One step of `nextBucket`: the last bucket keeps the peers of its own prefix length. */
  function SplitLast(c: Config, t: KTable): KTable
    requires Inv(c, t)
  {
    var n := |t| - 1;
    BucketMeasurable(c, t, n);
    t[..n] + [Select(t[n], n, c.local, false), Select(t[n], n, c.local, true)]
  }

  /** A non-empty last bucket bounds the number of buckets: its peers' prefixes are at least that long. */
  lemma NonEmptyLastBound(c: Config, t: KTable)
    requires Inv(c, t) && t[|t| - 1] != []
    ensures |t| <= 8 * c.hashLen + 1
  {
    var e := t[|t| - 1][0];
    assert BucketAtOk(c, t, |t| - 1);
    assert e in t[|t| - 1] && Placed(c, e, |t| - 1, false);
    PeerCplBound(c, e.id);
  }

  lemma SplitLastInv(c: Config, t: KTable)
    requires Inv(c, t) && t[|t| - 1] != []
    ensures Inv(c, SplitLast(c, t))
  {
    var n, s := |t| - 1, SplitLast(c, t);
    var l := t[n];
    NonEmptyLastBound(c, t);
    BucketMeasurable(c, t, n);
    assert BucketAtOk(c, t, n);
    SelectMembers(l, n, c.local, true);
    SelectMembers(l, n, c.local, false);
    SelectUnique(l, n, c.local, true);
    SelectUnique(l, n, c.local, false);
    SelectPartition(l, n, c.local);
    assert BucketOk(c, s[n], n, true);
    assert BucketOk(c, s[n + 1], n + 1, false);
    forall i: nat | i < |s|
      ensures BucketAtOk(c, s, i)
    {
      if i < n { assert BucketAtOk(c, t, i); }
    }
  }

  /** `nextBucket`: split until the last bucket is below capacity. */
  function Unfold(c: Config, t: KTable): KTable
    requires Inv(c, t) && t[|t| - 1] != []
    decreases 8 * c.hashLen + 2 - |t|
  {
    SplitLastInv(c, t);
    NonEmptyLastBound(c, t);
    var s := SplitLast(c, t);
    if |s[|t|]| >= c.bucketsize then Unfold(c, s) else s
  }

  /** The last bucket ends below capacity, all earlier buckets are untouched. */
  lemma {:induction false} UnfoldInv(c: Config, t: KTable)
    requires Inv(c, t) && t[|t| - 1] != []
    ensures Inv(c, Unfold(c, t))
    ensures |Unfold(c, t)| > |t|
    ensures Unfold(c, t)[..|t| - 1] == t[..|t| - 1]
    ensures |Unfold(c, t)[|Unfold(c, t)| - 1]| < c.bucketsize
    decreases 8 * c.hashLen + 2 - |t|
  {
    SplitLastInv(c, t);
    NonEmptyLastBound(c, t);
    var s := SplitLast(c, t);
    if |s[|t|]| >= c.bucketsize {
      UnfoldInv(c, s);
      var n := |t| - 1;
      assert Unfold(c, s)[..n] == Unfold(c, s)[..n + 1][..n] == s[..n];
    }
  }

  // ----- the peers held -----

  function Flatten(t: KTable): seq<Entry> {
    if t == [] then [] else Flatten(t[..|t| - 1]) + t[|t| - 1]
  }

  lemma FlattenPush(t: KTable, l: seq<Entry>)
    ensures Flatten(t + [l]) == Flatten(t) + l
  {
    assert (t + [l])[..|t|] == t;
  }

  lemma FlattenSplit(t: KTable, l: seq<Entry>, a: seq<Entry>, b: seq<Entry>)
    requires multiset(a) + multiset(b) == multiset(l)
    ensures multiset(Flatten(t + [a, b])) == multiset(Flatten(t + [l]))
  {
    FlattenPush(t, l);
    FlattenPush(t, a);
    FlattenPush(t + [a], b);
    assert t + [a, b] == (t + [a]) + [b];
  }

  lemma SplitConserves(c: Config, t: KTable)
    requires Inv(c, t)
    ensures multiset(Flatten(SplitLast(c, t))) == multiset(Flatten(t))
  {
    var n := |t| - 1;
    BucketMeasurable(c, t, n);
    SelectPartition(t[n], n, c.local);
    FlattenSplit(t[..n], t[n], Select(t[n], n, c.local, false), Select(t[n], n, c.local, true));
    InitLast(t);
  }

  lemma SplitKeepsOrder(c: Config, t: KTable)
    requires Inv(c, t)
    ensures SubOrder(SplitLast(c, t)[|t| - 1], t[|t| - 1]) && SubOrder(SplitLast(c, t)[|t|], t[|t| - 1])
  {
    var n := |t| - 1;
    BucketMeasurable(c, t, n);
    SelectKeepsOrder(t[n], n, c.local, false);
    SelectKeepsOrder(t[n], n, c.local, true);
  }

  /** Unfolding conserves the collection of peers. */
  lemma {:induction false} UnfoldConserves(c: Config, t: KTable)
    requires Inv(c, t) && t[|t| - 1] != []
    ensures multiset(Flatten(Unfold(c, t))) == multiset(Flatten(t))
    decreases 8 * c.hashLen + 2 - |t|
  {
    SplitLastInv(c, t);
    NonEmptyLastBound(c, t);
    SplitConserves(c, t);
    var s := SplitLast(c, t);
    if |s[|t|]| >= c.bucketsize {
      UnfoldConserves(c, s);
    }
  }

  /** Unfolding keeps the peers' relative order within every bucket it makes. */
  lemma {:induction false} UnfoldKeepsOrder(c: Config, t: KTable, i: nat)
    requires Inv(c, t) && t[|t| - 1] != []
    requires |t| - 1 <= i < |Unfold(c, t)|
    ensures SubOrder(Unfold(c, t)[i], t[|t| - 1])
    decreases 8 * c.hashLen + 2 - |t|
  {
    SplitLastInv(c, t);
    NonEmptyLastBound(c, t);
    SplitKeepsOrder(c, t);
    var n, s := |t| - 1, SplitLast(c, t);
    if |s[|t|]| >= c.bucketsize {
      UnfoldInv(c, s);
      var u := Unfold(c, s);
      if i == n {
        assert u[n] == u[..n + 1][n] == s[n];
      } else {
        UnfoldKeepsOrder(c, s, i);
        SubOrderTransitive(u[i], s[n + 1], t[n]);
      }
    }
  }

  // ----- operations -----

  /** The bucket responsible for a peer with this common-prefix length. */
  function Slot(t: KTable, cpl: nat): nat
    requires t != []
  {
    if cpl >= |t| then |t| - 1 else cpl
  }

  datatype Verdict = Refreshed | Added | Rejected

  function Push(c: Config, t: KTable, b: nat, p: string): KTable
    requires b < |t|
  {
    t[b := [Entry(p, c.digest(p))] + t[b]]
  }

  function Update(c: Config, t: KTable, p: string): (KTable, Verdict)
    requires Inv(c, t)
  {
    var cpl := c.PeerCpl(p);
    var b := Slot(t, cpl);
    if Holds(t[b], p) then (t[b := MovedToFront(t[b], p)], Refreshed)
    else if |t[b]| < c.bucketsize then (Push(c, t, b, p), Added)
    else if b == |t| - 1 then
      UnfoldInv(c, t);
      var u := Unfold(c, t);
      var b' := Slot(u, cpl);
      if |u[b']| >= c.bucketsize then (u, Rejected) else (Push(c, u, b', p), Added)
    else (t, Rejected)
  }

  function Remove(c: Config, t: KTable, p: string): (KTable, bool)
    requires Inv(c, t)
  {
    var b := Slot(t, c.PeerCpl(p));
    (t[b := Without(t[b], p)], Holds(t[b], p))
  }

  // ----- every operation keeps the invariant -----

  lemma ReplaceBucketInv(c: Config, t: KTable, b: nat, l: seq<Entry>)
    requires Inv(c, t) && b < |t| && BucketOk(c, l, b, b < |t| - 1)
    ensures Inv(c, t[b := l])
  {
    var s := t[b := l];
    forall i: nat | i < |s|
      ensures BucketAtOk(c, s, i)
    {
      if i != b { assert BucketAtOk(c, t, i); }
    }
  }

  lemma PushInv(c: Config, t: KTable, p: string)
    requires Inv(c, t)
    requires !Holds(t[Slot(t, c.PeerCpl(p))], p) && |t[Slot(t, c.PeerCpl(p))]| < c.bucketsize
    ensures Inv(c, Push(c, t, Slot(t, c.PeerCpl(p)), p))
  {
    var b := Slot(t, c.PeerCpl(p));
    HoldsMeansMember(t[b], p);
    PushFrontFacts(t[b], Entry(p, c.digest(p)));
    assert BucketAtOk(c, t, b);
    ReplaceBucketInv(c, t, b, [Entry(p, c.digest(p))] + t[b]);
  }

  /** Only the responsible bucket can hold a peer. */
  lemma WhereStored(c: Config, t: KTable, i: nat, k: nat)
    requires Inv(c, t) && i < |t| && k < |t[i]|
    ensures i == Slot(t, c.PeerCpl(t[i][k].id))
  {
    assert BucketAtOk(c, t, i);
    assert t[i][k] in t[i] && Placed(c, t[i][k], i, i < |t| - 1);
  }

  /** A peer absent from the table stays absent when the table is unfolded. */
  lemma UnfoldAbsent(c: Config, t: KTable, p: string)
    requires Inv(c, t) && t[|t| - 1] != []
    requires !Holds(t[Slot(t, c.PeerCpl(p))], p)
    ensures var u := Unfold(c, t); u != [] && !Holds(u[Slot(u, c.PeerCpl(p))], p)
  {
    UnfoldInv(c, t);
    var u := Unfold(c, t);
    StoredIffHeld(c, t, p);
    StoredIffHeld(c, u, p);
    UnfoldConserves(c, t);
    StoredIsFlatten(t);
    StoredIsFlatten(u);
    assert forall e :: e in Flatten(t) <==> e in multiset(Flatten(t));
  }

  lemma MoveInv(c: Config, t: KTable, b: nat, p: string)
    requires Inv(c, t) && b < |t|
    ensures Inv(c, t[b := MovedToFront(t[b], p)])
  {
    var l := MovedToFront(t[b], p);
    assert BucketAtOk(c, t, b);
    MoveFacts(t[b], p);
    SameElems(l, t[b]);
    assert forall e :: e in l ==> e in Elems(t[b]);
    ReplaceBucketInv(c, t, b, l);
  }

  lemma UpdateInv(c: Config, t: KTable, p: string)
    requires Inv(c, t)
    ensures Inv(c, Update(c, t, p).0)
  {
    var b := Slot(t, c.PeerCpl(p));
    if Holds(t[b], p) {
      MoveInv(c, t, b, p);
    } else if |t[b]| < c.bucketsize {
      PushInv(c, t, p);
    } else if b == |t| - 1 {
      UnfoldInv(c, t);
      UnfoldAbsent(c, t, p);
      var u := Unfold(c, t);
      if |u[Slot(u, c.PeerCpl(p))]| < c.bucketsize {
        PushInv(c, u, p);
      }
    }
  }

  lemma RemoveInv(c: Config, t: KTable, p: string)
    requires Inv(c, t)
    ensures Inv(c, Remove(c, t, p).0)
  {
    var b := Slot(t, c.PeerCpl(p));
    assert BucketAtOk(c, t, b);
    if Holds(t[b], p) {
      RemoveFacts(t[b], IndexOf(t[b], p));
    }
    ReplaceBucketInv(c, t, b, Without(t[b], p));
  }

  // ----- the set of stored peers -----

  ghost function IdSet(l: seq<Entry>): set<string> {
    set e | e in l :: e.id
  }

  ghost function Stored(t: KTable): set<string> {
    set l, e | l in t && e in l :: e.id
  }

  lemma StoredIffHeld(c: Config, t: KTable, p: string)
    requires Inv(c, t)
    ensures p in Stored(t) <==> Holds(t[Slot(t, c.PeerCpl(p))], p)
  {
    if p in Stored(t) {
      var l, e :| l in t && e in l && e.id == p;
      var i :| 0 <= i < |t| && t[i] == l;
      var k :| 0 <= k < |l| && l[k] == e;
      WhereStored(c, t, i, k);
    }
    var b := Slot(t, c.PeerCpl(p));
    if Holds(t[b], p) {
      var e := t[b][IndexOf(t[b], p)];
      assert t[b] in t && e in t[b] && e.id == p;
    }
  }

  lemma {:induction false} StoredIsFlatten(t: KTable)
    ensures Stored(t) == IdSet(Flatten(t))
  {
    if t != [] {
      var n := |t| - 1;
      StoredIsFlatten(t[..n]);
      assert t == t[..n] + [t[n]];
      assert Stored(t) == Stored(t[..n]) + IdSet(t[n]);
      assert IdSet(Flatten(t)) == IdSet(Flatten(t[..n])) + IdSet(t[n]);
    }
  }

  lemma {:induction false} UniqueCount(l: seq<Entry>)
    requires Unique(l)
    ensures |IdSet(l)| == |l|
  {
    if l != [] {
      var n := |l| - 1;
      UniqueCount(l[..n]);
      assert l == l[..n] + [l[n]];
      assert IdSet(l) == IdSet(l[..n]) + {l[n].id};
      assert l[n].id !in IdSet(l[..n]);
    } else {
      assert IdSet(l) == {};
    }
  }

  /** No identifier occurs twice anywhere in the table. */
  lemma {:induction false} FlattenUnique(c: Config, t: KTable, n: nat)
    requires Inv(c, t) && n <= |t|
    ensures Unique(Flatten(t[..n]))
    ensures forall e :: e in Flatten(t[..n]) ==> exists i :: 0 <= i < n && e in t[i]
  {
    if n > 0 {
      FlattenUnique(c, t, n - 1);
      var f, l := Flatten(t[..n - 1]), t[n - 1];
      assert t[..n][..n - 1] == t[..n - 1];
      assert BucketAtOk(c, t, n - 1);
      forall x, y | 0 <= x < |f| && 0 <= y < |l|
        ensures f[x].id != l[y].id
      {
        assert f[x] in f;
        var i :| 0 <= i < n - 1 && f[x] in t[i];
        var k :| 0 <= k < |t[i]| && t[i][k] == f[x];
        WhereStored(c, t, i, k);
        WhereStored(c, t, n - 1, y);
      }
      assert forall e :: e in f + l ==> e in f || e in t[n - 1];
    }
  }

  // ----- refinement to one capacity-bounded set per prefix length -----

  ghost function SameCpl(c: Config, s: set<string>, cpl: nat): set<string>
    requires c.Valid()
  {
    set id | id in s && c.PeerCpl(id) == cpl
  }

  /** The abstract table is just the set of stored peers. */
  ghost function AbstractUpdate(c: Config, s: set<string>, p: string): (set<string>, bool)
    requires c.Valid()
  {
    if p in s then (s, true)
    else if |SameCpl(c, s, c.PeerCpl(p))| < c.bucketsize then (s + {p}, true)
    else (s, false)
  }

  /** The dedicated bucket of a prefix length holds all stored peers of that length. */
  lemma DedicatedBucket(c: Config, t: KTable, cpl: nat)
    requires Inv(c, t)
    ensures |SameCpl(c, Stored(t), cpl)| <= |t[Slot(t, cpl)]|
    ensures cpl < |t| - 1 ==> |SameCpl(c, Stored(t), cpl)| == |t[cpl]|
  {
    var b := Slot(t, cpl);
    var same, held := SameCpl(c, Stored(t), cpl), IdSet(t[b]);
    assert BucketAtOk(c, t, b);
    UniqueCount(t[b]);
    forall id | id in same
      ensures id in held
    {
      StoredIffHeld(c, t, id);
      assert t[b][IndexOf(t[b], id)] in t[b];
    }
    SubsetSize(same, held);
    if cpl < |t| - 1 {
      assert held <= same;
      assert held == same;
    }
  }

  lemma StoredReplace(t: KTable, b: nat, l: seq<Entry>)
    requires b < |t|
    ensures forall e :: e in l ==> e.id in Stored(t[b := l])
    ensures Stored(t[b := l]) <= Stored(t) + IdSet(l)
    ensures IdSet(t[b]) <= IdSet(l) ==> Stored(t) <= Stored(t[b := l])
  {
    var t' := t[b := l];
    forall id | id in Stored(t')
      ensures id in Stored(t) + IdSet(l)
    {
      var m, e :| m in t' && e in m && e.id == id;
      var i :| 0 <= i < |t'| && t'[i] == m;
      if i != b { assert m == t[i] && m in t; }
    }
    forall e | e in l
      ensures e.id in Stored(t')
    {
      assert t'[b] in t';
    }
    if IdSet(t[b]) <= IdSet(l) {
      forall id | id in Stored(t)
        ensures id in Stored(t')
      {
        var m, e :| m in t && e in m && e.id == id;
        var i :| 0 <= i < |t| && t[i] == m;
        if i != b {
          assert t'[i] in t';
        } else {
          assert id in IdSet(t[b]);
          assert t'[b] in t';
        }
      }
    }
  }

  lemma PushStored(c: Config, t: KTable, b: nat, p: string)
    requires b < |t|
    ensures Stored(Push(c, t, b, p)) == Stored(t) + {p}
  {
    var x := Entry(p, c.digest(p));
    var l := [x] + t[b];
    StoredReplace(t, b, l);
    assert x in l;
    assert IdSet(l) == IdSet(t[b]) + {p};
    assert IdSet(t[b]) <= Stored(t) by { assert t[b] in t; }
  }

  lemma SameIds(l: seq<Entry>, m: seq<Entry>)
    requires multiset(l) == multiset(m)
    ensures IdSet(l) == IdSet(m)
  {
    assert forall e :: e in l <==> e in multiset(l);
    assert forall e :: e in m <==> e in multiset(m);
  }

  lemma MoveStored(t: KTable, b: nat, p: string)
    requires b < |t|
    ensures Stored(t[b := MovedToFront(t[b], p)]) == Stored(t)
  {
    var l := MovedToFront(t[b], p);
    MoveFacts(t[b], p);
    SameIds(l, t[b]);
    StoredReplace(t, b, l);
    assert IdSet(t[b]) <= Stored(t) by { assert t[b] in t; }
  }

  /** Unfolding does not change which peers are stored. */
  lemma UnfoldStored(c: Config, t: KTable)
    requires Inv(c, t) && t[|t| - 1] != []
    ensures Stored(Unfold(c, t)) == Stored(t)
  {
    UnfoldConserves(c, t);
    StoredIsFlatten(t);
    StoredIsFlatten(Unfold(c, t));
    assert forall e :: e in Flatten(t) <==> e in multiset(Flatten(t));
    assert forall e :: e in Flatten(Unfold(c, t)) <==> e in multiset(Flatten(Unfold(c, t)));
  }

  /** Update on the lazily unfolded table is the abstract update: it accepts a
      peer exactly when the peer is present or its prefix length still has
      room, and it never drops anyone. */
  lemma UpdateRefines(c: Config, t: KTable, p: string)
    requires Inv(c, t)
    ensures var (t', v) := Update(c, t, p);
            && AbstractUpdate(c, Stored(t), p) == (Stored(t'), v != Rejected)
            && (v == Added <==> p in Stored(t') - Stored(t))
  {
    var cpl := c.PeerCpl(p);
    var b := Slot(t, cpl);
    StoredIffHeld(c, t, p);
    DedicatedBucket(c, t, cpl);
    if Holds(t[b], p) {
      MoveStored(t, b, p);
    } else if |t[b]| < c.bucketsize {
      PushStored(c, t, b, p);
    } else {
      assert BucketAtOk(c, t, b);
      if b == |t| - 1 {
        UnfoldInv(c, t);
        UnfoldStored(c, t);
        var u := Unfold(c, t);
        DedicatedBucket(c, u, cpl);
        PushStored(c, u, Slot(u, cpl), p);
      }
    }
  }

  lemma RemoveRefines(c: Config, t: KTable, p: string)
    requires Inv(c, t)
    ensures var (t', removed) := Remove(c, t, p);
            Stored(t') == Stored(t) - {p} && (removed <==> p in Stored(t))
  {
    var b := Slot(t, c.PeerCpl(p));
    var t' := Remove(c, t, p).0;
    StoredIffHeld(c, t, p);
    RemoveInv(c, t, p);
    StoredIffHeld(c, t', p);
    assert BucketAtOk(c, t, b);
    if Holds(t[b], p) {
      var l := Without(t[b], p);
      WithoutIds(t[b], p);
      RemoveFacts(t[b], IndexOf(t[b], p));
      HoldsMeansMember(l, p);
      StoredReplace(t, b, l);
      StoredReplace(t', b, t[b]);
      assert t'[b := t[b]] == t;
      assert IdSet(l) <= Stored(t') by { assert t'[b] in t'; }
      assert IdSet(l) <= Stored(t) by { assert t[b] in t; }
    } else {
      assert t' == t;
    }
  }

  lemma WithoutIds(l: seq<Entry>, p: string)
    requires Holds(l, p)
    ensures IdSet(l) == IdSet(Without(l, p)) + {p}
  {
    var k := IndexOf(l, p);
    assert l == l[..k] + [l[k]] + l[k + 1..];
  }

  // ----- whole runs -----

  datatype Op = UpdateOp(peer: string) | RemoveOp(peer: string)
  datatype Event = PeerAdded(peer: string) | PeerRemoved(peer: string)

  /** What a call does: the new table and the notifications it sends. */
  function Apply(c: Config, t: KTable, op: Op): (KTable, seq<Event>)
    requires Inv(c, t)
  {
    if op.UpdateOp? then
      var (t', v) := Update(c, t, op.peer);
      (t', if v == Added then [PeerAdded(op.peer)] else [])
    else
      var (t', removed) := Remove(c, t, op.peer);
      (t', if removed then [PeerRemoved(op.peer)] else [])
  }

  lemma ApplyInv(c: Config, t: KTable, op: Op)
    requires Inv(c, t)
    ensures Inv(c, Apply(c, t, op).0)
  {
    UpdateInv(c, t, op.peer);
    RemoveInv(c, t, op.peer);
  }

  function Observe(s: set<string>, e: Event): set<string> {
    if e.PeerAdded? then s + {e.peer} else s - {e.peer}
  }

  /** The peer set an observer of the notifications reconstructs. */
  function Replay(events: seq<Event>): set<string> {
    if events == [] then {} else Observe(Replay(events[..|events| - 1]), events[|events| - 1])
  }

  lemma ReplayAppend(events: seq<Event>, e: Event)
    ensures Replay(events + [e]) == Observe(Replay(events), e)
    ensures Replay(events + []) == Replay(events)
  {
    assert (events + [e])[..|events|] == events;
    assert events + [] == events;
  }

  /** Table and notification history after any sequence of calls on a new table. */
  function Run(c: Config, ops: seq<Op>): (r: (KTable, seq<Event>))
    requires c.Valid()
    ensures Inv(c, r.0)
  {
    if ops == [] then ([[]], [])
    else
      var (t, h) := Run(c, ops[..|ops| - 1]);
      ApplyInv(c, t, ops[|ops| - 1]);
      var (t', e) := Apply(c, t, ops[|ops| - 1]);
      (t', h + e)
  }

  ghost function AbstractRun(c: Config, ops: seq<Op>): set<string>
    requires c.Valid()
  {
    if ops == [] then {}
    else
      var s, op := AbstractRun(c, ops[..|ops| - 1]), ops[|ops| - 1];
      if op.UpdateOp? then AbstractUpdate(c, s, op.peer).0 else s - {op.peer}
  }

  /** After every run the stored peers are those of the plain
      set-per-prefix-length table, and the notifications replay to them. */
  lemma {:induction false} RunRefines(c: Config, ops: seq<Op>)
    requires c.Valid()
    ensures Stored(Run(c, ops).0) == AbstractRun(c, ops) == Replay(Run(c, ops).1)
  {
    if ops != [] {
      var (t, h) := Run(c, ops[..|ops| - 1]);
      var op := ops[|ops| - 1];
      RunRefines(c, ops[..|ops| - 1]);
      if op.UpdateOp? {
        UpdateRefines(c, t, op.peer);
        ReplayAppend(h, PeerAdded(op.peer));
      } else {
        RemoveRefines(c, t, op.peer);
        ReplayAppend(h, PeerRemoved(op.peer));
      }
    } else {
      assert Stored([[]]) == {};
    }
  }

  /** ListPeers names every stored peer exactly once. */
  lemma ListingExact(c: Config, t: KTable)
    requires Inv(c, t)
    ensures Unique(Flatten(t)) && IdSet(Flatten(t)) == Stored(t) && |Flatten(t)| == |Stored(t)|
  {
    assert t[..|t|] == t;
    FlattenUnique(c, t, |t|);
    StoredIsFlatten(t);
    UniqueCount(Flatten(t));
  }
}
