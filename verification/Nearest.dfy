/** What `NearestPeers` answers, measured against sorting the whole table. */
module Nearest {
  import opened Basics
  import opened XorMetric
  import opened Buckets
  import opened Table
  import opened Layers

  /** `p` is strictly nearer to `x` than `q` is. */
  predicate Closer(c: Config, x: string, p: string, q: string)
    requires c.Valid()
  {
    Nearer(c.digest(x), c.digest(p), c.digest(q))
  }

  ghost function MetricOf(c: Config, x: string): Order<string>
    requires c.Valid()
  {
    (p, q) => Closer(c, x, p, q)
  }

  /** The peers looked at: the bucket of `x`, and both neighbours when that one is short. */
  function Searched(c: Config, t: KTable, x: string, count: nat): seq<Entry>
    requires Inv(c, t)
  {
    Around(t, Slot(t, c.PeerCpl(x)), count)
  }

  function Around(t: KTable, k: int, count: nat): seq<Entry> {
    if |BucketAt(t, k)| >= count then BucketAt(t, k)
    else BucketAt(t, k) + BucketAt(t, k - 1) + BucketAt(t, k + 1)
  }

  /** Bucket `i`, if there is one. */
  function BucketAt(t: KTable, i: int): seq<Entry> {
    if 0 <= i < |t| then t[i] else []
  }

  /** `out` lists the `count` nearest of the peers looked at, nearest first;
      the sort is not stable, so ties may fall either way. */
  ghost predicate Answer(c: Config, t: KTable, x: string, count: nat, out: seq<string>)
    requires Inv(c, t)
  {
    Best(MetricOf(c, x), IdSet(Searched(c, t, x, count)), count, out)
  }

  /** `out` lists the `count` nearest peers of the whole table, nearest first. */
  ghost predicate Exact(c: Config, t: KTable, x: string, count: nat, out: seq<string>)
    requires c.Valid()
  {
    Best(MetricOf(c, x), Stored(t), count, out)
  }

  /** What a caller can check beforehand, from the sizes of the buckets and one
      bit of the target: a row is a bucket's identifiers, so its size is the
      number of peers in the bucket (`BucketRow`). */
  ghost predicate Sufficient(c: Config, t: KTable, x: string, count: nat)
    requires Inv(c, t)
  {
    var k := Slot(t, c.PeerCpl(x));
    Enough(Rows(t), k, TurnsAway(c, x, k + 1), count)
  }

  /** Bit `i` of the target differs from the local one. */
  predicate TurnsAway(c: Config, x: string, i: nat)
    requires c.Valid()
  {
    i < 8 * c.hashLen && Bit(c.digest(x), i) != Bit(c.local, i)
  }

  // ----- the table is layered around every target -----

  ghost function Rows(t: KTable): seq<set<string>> {
    seq(|t|, i requires 0 <= i < |t| => IdSet(t[i]))
  }

  lemma UnionOfRows(t: KTable)
    ensures Union(Rows(t)) == Stored(t)
  {
    forall p | p in Stored(t)
      ensures p in Union(Rows(t))
    {
      var l, e :| l in t && e in l && e.id == p;
      var i :| 0 <= i < |t| && t[i] == l;
      RowInUnion(Rows(t), i);
    }
    forall p | p in Union(Rows(t))
      ensures p in Stored(t)
    {
      var i := InSomeRow(Rows(t), p);
      assert t[i] in t;
    }
  }

  lemma InRow(c: Config, t: KTable, i: int, p: string)
    requires Inv(c, t) && p in Row(Rows(t), i)
    ensures 0 <= i < |t| && (if i < |t| - 1 then c.PeerCpl(p) == i else c.PeerCpl(p) >= i)
    ensures c.PeerCpl(p) <= 8 * c.hashLen
  {
    assert BucketAtOk(c, t, i);
    var e :| e in t[i] && e.id == p;
    assert Placed(c, e, i, i < |t| - 1);
    PeerCplBound(c, p);
  }

  /** How long a peer's prefix with `x` is, from both prefixes with the local identifier. */
  lemma Prefixes(local: ID, x: ID, p: ID)
    requires |local| == |x| == |p|
    ensures Cpl(p, local) < Cpl(x, local) ==> Cpl(p, x) == Cpl(p, local)
    ensures Cpl(p, local) > Cpl(x, local) ==> Cpl(p, x) == Cpl(x, local)
    ensures Cpl(p, local) == Cpl(x, local) ==> Cpl(p, x) >= Cpl(x, local)
    ensures Cpl(p, local) == Cpl(x, local) < 8 * |x| ==> Cpl(p, x) > Cpl(x, local)
  {
    Ultrametric(p, local, x);
    Ultrametric(x, local, p);
    Ultrametric(local, x, x);
    Ultrametric(local, p, p);
    Ultrametric(p, x, x);
    CplSpec(p, local);
    CplSpec(x, local);
    if Cpl(p, local) == Cpl(x, local) == 8 * |x| {
      CplUnique(p, x, 8 * |x|);
    }
  }

  /** Seen from `x`: its own bucket first, then all buckets above it, then those below in falling order. */
  lemma BucketOrder(c: Config, t: KTable, x: string, i: int, p: string, j: int, q: string)
    requires Inv(c, t) && p in Row(Rows(t), i) && q in Row(Rows(t), j) && Before(i, j, Slot(t, c.PeerCpl(x)))
    ensures Closer(c, x, p, q) && !Closer(c, x, q, p)
  {
    InRow(c, t, i, p);
    InRow(c, t, j, q);
    Prefixes(c.local, c.digest(x), c.digest(p));
    Prefixes(c.local, c.digest(x), c.digest(q));
    LongerPrefixIsNearer(c.digest(x), c.digest(p), c.digest(q));
  }

  /** Among the buckets above `x`'s own, one bit of `x` decides whether the adjacent one comes first. */
  lemma UpperOrder(c: Config, t: KTable, x: string, i: int, p: string, j: int, q: string)
    requires Inv(c, t) && p in Row(Rows(t), i) && q in Row(Rows(t), j) && i < j
    ensures if TurnsAway(c, x, i) then Closer(c, x, p, q) && !Closer(c, x, q, p)
            else Closer(c, x, q, p) && !Closer(c, x, p, q)
  {
    var X, P, Q, local := c.digest(x), c.digest(p), c.digest(q), c.local;
    InRow(c, t, i, p);
    InRow(c, t, j, q);
    CplSpec(P, local);
    CplSpec(Q, local);
    Ultrametric(local, Q, Q);
    Ultrametric(P, local, Q);
    Ultrametric(P, Q, Q);
    NearerByBit(X, P, Q);
    NearerByBit(X, Q, P);
  }

  /** No peer is in two buckets. */
  lemma RowsApart(c: Config, t: KTable, i: int, j: int)
    requires Inv(c, t)
    ensures Apart(Rows(t), i, j)
  {
    forall p | p in Row(Rows(t), i) && p in Row(Rows(t), j)
      ensures i == j
    {
      InRow(c, t, i, p);
      InRow(c, t, j, p);
    }
  }

  lemma TableIsLayered(c: Config, t: KTable, x: string)
    requires Inv(c, t)
    ensures var k := Slot(t, c.PeerCpl(x)); Layered(Rows(t), k, MetricOf(c, x), TurnsAway(c, x, k + 1))
  {
    var rows, k, closer := Rows(t), Slot(t, c.PeerCpl(x)), MetricOf(c, x);
    forall i, j
      ensures InTurn(rows, i, j, k, closer)
    {
      forall p, q | Before(i, j, k) && p in Row(rows, i) && q in Row(rows, j)
        ensures closer(p, q) && !closer(q, p)
      {
        BucketOrder(c, t, x, i, p, j, q);
      }
    }
    var adjacent := TurnsAway(c, x, k + 1);
    forall j
      ensures Above(rows, k, j, closer, adjacent)
    {
      forall p, q | k + 1 < j && p in Row(rows, k + 1) && q in Row(rows, j)
        ensures if adjacent then closer(p, q) && !closer(q, p) else closer(q, p) && !closer(p, q)
      {
        UpperOrder(c, t, x, k + 1, p, j, q);
      }
    }
    forall i, j
      ensures Apart(rows, i, j)
    {
      RowsApart(c, t, i, j);
    }
    assert |rows| == |t|;
  }

  // ----- what was searched -----

  lemma UniqueConcat(a: seq<Entry>, b: seq<Entry>)
    requires Unique(a) && Unique(b) && IdSet(a) !! IdSet(b)
    ensures Unique(a + b) && IdSet(a + b) == IdSet(a) + IdSet(b)
  {
    forall i, j | 0 <= i < |a| && 0 <= j < |b|
      ensures a[i].id != b[j].id
    {
      assert a[i].id in IdSet(a) && b[j].id in IdSet(b);
    }
  }

  /** The bucket with index `i`, or nothing. */
  lemma BucketRow(c: Config, t: KTable, i: int)
    requires Inv(c, t)
    ensures Unique(BucketAt(t, i)) && IdSet(BucketAt(t, i)) == Row(Rows(t), i) && |BucketAt(t, i)| == |Row(Rows(t), i)|
  {
    if 0 <= i < |t| {
      assert BucketAtOk(c, t, i);
    }
    UniqueCount(BucketAt(t, i));
  }

  lemma SearchedIsNear(c: Config, t: KTable, x: string, count: nat)
    requires Inv(c, t)
    ensures var s := Searched(c, t, x, count);
      Unique(s) && IdSet(s) == Near(Rows(t), Slot(t, c.PeerCpl(x)), count) && |IdSet(s)| == |s|
  {
    var k := Slot(t, c.PeerCpl(x));
    BucketRow(c, t, k);
    ThreeBuckets(c, t, k);
    AroundIsNear(t, k, count);
  }

  lemma AroundIsNear(t: KTable, k: int, count: nat)
    requires var own := BucketAt(t, k); Unique(own) && IdSet(own) == Row(Rows(t), k) && |own| == |Row(Rows(t), k)|
    requires var s := BucketAt(t, k) + BucketAt(t, k - 1) + BucketAt(t, k + 1);
      Unique(s) && IdSet(s) == Row(Rows(t), k) + Row(Rows(t), k - 1) + Row(Rows(t), k + 1)
    ensures var s := Around(t, k, count); Unique(s) && IdSet(s) == Near(Rows(t), k, count) && |IdSet(s)| == |s|
  {
    UniqueCount(Around(t, k, count));
  }

  lemma ThreeBuckets(c: Config, t: KTable, k: int)
    requires Inv(c, t)
    ensures var s := BucketAt(t, k) + BucketAt(t, k - 1) + BucketAt(t, k + 1);
      Unique(s) && IdSet(s) == Row(Rows(t), k) + Row(Rows(t), k - 1) + Row(Rows(t), k + 1)
  {
    BucketRow(c, t, k);
    BucketRow(c, t, k - 1);
    BucketRow(c, t, k + 1);
    RowsApart(c, t, k, k - 1);
    RowsApart(c, t, k, k + 1);
    RowsApart(c, t, k - 1, k + 1);
    ThreeUnique(BucketAt(t, k), BucketAt(t, k - 1), BucketAt(t, k + 1));
  }

  lemma ThreeUnique(a: seq<Entry>, b: seq<Entry>, c: seq<Entry>)
    requires Unique(a) && Unique(b) && Unique(c)
    requires IdSet(a) !! IdSet(b) && IdSet(a) !! IdSet(c) && IdSet(b) !! IdSet(c)
    ensures Unique(a + b + c) && IdSet(a + b + c) == IdSet(a) + IdSet(b) + IdSet(c)
  {
    UniqueConcat(a, b);
    UniqueConcat(a + b, c);
  }

  lemma IdsElems(l: seq<Entry>)
    ensures Elems(Ids(l)) == IdSet(l)
    ensures Unique(l) ==> NoDup(Ids(l))
  {
    forall id | id in IdSet(l)
      ensures id in Ids(l)
    {
      var e :| e in l && e.id == id;
      var i :| 0 <= i < |l| && l[i] == e;
      assert Ids(l)[i] == id;
    }
    forall id | id in Ids(l)
      ensures id in IdSet(l)
    {
      var i :| 0 <= i < |l| && Ids(l)[i] == id;
      assert l[i] in l;
    }
  }

  /** Sorting the peers looked at by distance and cutting off after `count` gives an answer. */
  lemma SortedHeadAnswers(c: Config, t: KTable, x: string, count: nat, full: seq<string>)
    requires Inv(c, t) && Ascending(MetricOf(c, x), full) && multiset(full) == multiset(Ids(Searched(c, t, x, count)))
    ensures Answer(c, t, x, count, full[..Min(count, |full|)])
  {
    var s := Searched(c, t, x, count);
    SearchedIsNear(c, t, x, count);
    IdsElems(s);
    PermutationFacts(Ids(s), full);
    HeadIsBest(MetricOf(c, x), full, count);
  }

  lemma AnswerIsNear(c: Config, t: KTable, x: string, count: nat, out: seq<string>)
    requires Inv(c, t) && Answer(c, t, x, count, out)
    ensures Best(MetricOf(c, x), Near(Rows(t), Slot(t, c.PeerCpl(x)), count), count, out)
  {
    SearchedIsNear(c, t, x, count);
  }

  /** For every reachable table, target and count, the answer is the exact
      list of nearest peers of the whole table if and only if `Sufficient` holds. */
  lemma NearestExactIff(c: Config, t: KTable, x: string, count: nat, out: seq<string>)
    requires Inv(c, t) && Answer(c, t, x, count, out)
    ensures Exact(c, t, x, count, out) <==> Sufficient(c, t, x, count)
  {
    var k := Slot(t, c.PeerCpl(x));
    TableIsLayered(c, t, x);
    AnswerIsNear(c, t, x, count, out);
    ThreeRowsIff(Rows(t), k, MetricOf(c, x), TurnsAway(c, x, k + 1), count, out);
    UnionOfRows(t);
  }

  /** In terms of the buckets: exact when the chosen bucket has enough peers, or
      when it is one of the last two and either one of the first two or the
      buckets searched have enough. */
  lemma ExactWhen(c: Config, t: KTable, x: string, count: nat, out: seq<string>)
    requires Inv(c, t) && Answer(c, t, x, count, out)
    requires var k := Slot(t, c.PeerCpl(x));
      count <= |t[k]| || (k + 2 >= |t| && (k <= 1 || count <= |Searched(c, t, x, count)|))
    ensures Exact(c, t, x, count, out)
  {
    NearestExactIff(c, t, x, count, out);
    BucketRow(c, t, Slot(t, c.PeerCpl(x)));
    SearchedIsNear(c, t, x, count);
    assert |Rows(t)| == |t|;
  }

  // ----- a reachable table where the answer is wrong -----

  /** One-byte hashes: "l" is 00000000, "p" is 01000000, "q" is 00100000, everything else 10000000. */
  function SmallDigest(s: string): ID {
    if s == "l" then [0x00] else if s == "p" then [0x40] else if s == "q" then [0x20] else [0x80]
  }

  /** What the table of the peer "l" is constructed with. */
  function SmallConfig(): Config {
    Config(1, 1, SmallDigest, SmallDigest("l"))
  }

  lemma SmallPrefixes()
    ensures SmallConfig().Valid()
    ensures SmallConfig().PeerCpl("p") == 1 && SmallConfig().PeerCpl("q") == 2 && SmallConfig().PeerCpl("x") == 0
  {
    var c := SmallConfig();
    CplUnique(c.digest("p"), c.local, 1);
    CplUnique(c.digest("q"), c.local, 2);
    CplUnique(c.digest("x"), c.local, 0);
  }

  lemma SmallFirst()
    ensures SmallConfig().Valid()
    ensures Run(SmallConfig(), [UpdateOp("p")]).0 == [[Entry("p", [0x40])]]
  {
    var c, P := SmallConfig(), Entry("p", [0x40]);
    SmallPrefixes();
    assert [UpdateOp("p")][..0] == [];
    assert Run(c, []).0 == [[]];
    assert [P] + [] == [P];
    assert Push(c, [[]], 0, "p") == [[P]];
    assert Run(c, [UpdateOp("p")]).0 == Apply(c, [[]], UpdateOp("p")).0;
  }

  lemma SmallSplit(c: Config, P: Entry)
    requires c == SmallConfig() && P == Entry("p", [0x40])
    ensures Inv(c, [[P]]) && SplitLast(c, [[P]]) == [[], [P]] && Inv(c, [[], [P]])
  {
    SmallPrefixes();
    SmallFirst();
    assert Inv(c, Run(c, [UpdateOp("p")]).0);
    BucketMeasurable(c, [[P]], 0);
    SelectOne(P, 0, c.local, true);
    SelectOne(P, 0, c.local, false);
    SplitLastInv(c, [[P]]);
  }

  lemma SmallSplitAgain(c: Config, P: Entry)
    requires c == SmallConfig() && P == Entry("p", [0x40]) && Inv(c, [[], [P]])
    ensures SplitLast(c, [[], [P]]) == [[], [P], []]
  {
    SmallPrefixes();
    BucketMeasurable(c, [[], [P]], 1);
    SelectOne(P, 1, c.local, true);
    SelectOne(P, 1, c.local, false);
  }

  lemma SmallUnfold(c: Config, P: Entry)
    requires c == SmallConfig() && P == Entry("p", [0x40])
    ensures Inv(c, [[P]]) && Unfold(c, [[P]]) == [[], [P], []]
  {
    SmallSplit(c, P);
    SmallSplitAgain(c, P);
    assert Unfold(c, [[], [P]]) == [[], [P], []];
  }

  lemma SmallSecond(c: Config, P: Entry)
    requires c == SmallConfig() && P == Entry("p", [0x40])
    ensures Inv(c, [[P]]) && Update(c, [[P]], "q").0 == [[], [P], [Entry("q", [0x20])]]
  {
    SmallPrefixes();
    SmallUnfold(c, P);
    assert !Holds([P], "q");
    assert Update(c, [[P]], "q").0 == Push(c, [[], [P], []], 2, "q");
    assert [Entry("q", [0x20])] + [] == [Entry("q", [0x20])];
  }

  lemma SmallRun()
    ensures SmallConfig().Valid()
    ensures Run(SmallConfig(), [UpdateOp("p"), UpdateOp("q")]).0 == [[], [Entry("p", [0x40])], [Entry("q", [0x20])]]
  {
    var c, P := SmallConfig(), Entry("p", [0x40]);
    SmallPrefixes();
    SmallFirst();
    SmallSecond(c, P);
    assert [UpdateOp("p"), UpdateOp("q")][..1] == [UpdateOp("p")];
    assert Run(c, [UpdateOp("p"), UpdateOp("q")]).0 == Apply(c, [[P]], UpdateOp("q")).0;
  }

  /** In the table of "l", after adding "p" and "q", the single nearest peer to "x" is reported as "p",
      though "q" is nearer. */
  lemma NearestCanBeWrong()
    ensures SmallConfig().Valid() && SmallConfig().local == SmallConfig().digest("l")
    ensures var c, t := SmallConfig(), Run(SmallConfig(), [UpdateOp("p"), UpdateOp("q")]).0;
      Answer(c, t, "x", 1, ["p"]) && !Exact(c, t, "x", 1, ["p"])
  {
    SmallRun();
    var c, t := SmallConfig(), Run(SmallConfig(), [UpdateOp("p"), UpdateOp("q")]).0;
    SmallAnswer(c, t);
    SmallInsufficient(c, t);
    NearestExactIff(c, t, "x", 1, ["p"]);
  }

  lemma SmallAnswer(c: Config, t: KTable)
    requires c == SmallConfig() && Inv(c, t) && t == [[], [Entry("p", [0x40])], [Entry("q", [0x20])]]
    ensures Answer(c, t, "x", 1, ["p"])
  {
    SmallPrefixes();
    assert Searched(c, t, "x", 1) == t[1];
    SingleAnswer(c, t, "x", t[1][0]);
  }

  lemma SingleAnswer(c: Config, t: KTable, x: string, e: Entry)
    requires Inv(c, t) && Searched(c, t, x, 1) == [e]
    ensures Answer(c, t, x, 1, [e.id])
  {
    assert Ids([e]) == [e.id];
    assert [e.id] == [e.id][..Min(1, |[e.id]|)];
    SortedHeadAnswers(c, t, x, 1, [e.id]);
  }

  lemma SmallInsufficient(c: Config, t: KTable)
    requires c == SmallConfig() && Inv(c, t) && t == [[], [Entry("p", [0x40])], [Entry("q", [0x20])]]
    ensures !Sufficient(c, t, "x", 1)
  {
    SmallPrefixes();
    var rows := Rows(t);
    assert |rows| == 3 && Row(rows, 0) == IdSet(t[0]) == {};
    assert t[2][0].id in IdSet(t[2]) && Row(rows, 2) == IdSet(t[2]);
    assert !EmptyRows(rows, 2, 3);
    SmallTurn(c);
  }

  lemma SmallTurn(c: Config)
    requires c == SmallConfig() && c.Valid()
    ensures !TurnsAway(c, "x", 1)
  {
    assert !ByteBit(0x80, 1) && !ByteBit(0x00, 1);
    assert Bit([0x80], 1) == ByteBit(0x80, 1) && Bit([0x00], 1) == ByteBit(0x00, 1);
  }

  // ----- looking up one peer -----

  /** Nobody stored besides `id` has `id`'s hash. */
  ghost predicate CollisionFree(c: Config, t: KTable, id: string) {
    forall q :: q in Stored(t) && c.digest(q) == c.digest(id) ==> q == id
  }

  /** `Find`, from the answer to the search for one peer. */
  function FindIn(out: seq<string>, id: string): string {
    if out == [] || out[0] != id then "" else out[0]
  }

  lemma FindCorrect(c: Config, t: KTable, id: string, out: seq<string>)
    requires Inv(c, t) && Answer(c, t, id, 1, out) && id != ""
    ensures FindIn(out, id) == id ==> id in Stored(t)
    ensures id in Stored(t) && CollisionFree(c, t, id) ==> FindIn(out, id) == id
    ensures FindIn(out, id) in {"", id}
  {
    var k, s := Slot(t, c.PeerCpl(id)), IdSet(Searched(c, t, id, 1));
    SearchedIsNear(c, t, id, 1);
    NearInUnion(Rows(t), k, 1);
    UnionOfRows(t);
    if out != [] {
      assert out[0] in Elems(out);
    }
    if id in Stored(t) && CollisionFree(c, t, id) {
      StoredIffHeld(c, t, id);
      assert t[k][IndexOf(t[k], id)] in Searched(c, t, id, 1);
      SubsetSize({id}, s);
      if out[0] != id {
        SelfIsNearest(c.digest(id), c.digest(out[0]));
        CloserIsIncluded(MetricOf(c, id), s, 1, out, out[0], id);
      }
    }
  }

  lemma SelfIsNearest(x: ID, p: ID)
    requires |x| == |p| && x != p
    ensures Nearer(x, x, p)
  {
    NearerByBit(x, x, p);
    CplSpec(x, p);
    if Cpl(x, p) == 8 * |x| {
      forall i | 0 <= i < |x|
        ensures x[i] == p[i]
      {
        SameByte(x, p, i);
      }
    }
  }

  lemma SameByte(x: ID, p: ID, i: nat)
    requires |x| == |p| && i < |x| && Agree(x, p, 8 * |x|)
    ensures x[i] == p[i]
  {
    forall b: nat | b < 8
      ensures ByteBit(x[i], b) == ByteBit(p[i], b)
    {
      assert Bit(x, 8 * i + b) == Bit(p, 8 * i + b);
    }
    SameBits(x[i], p[i]);
  }
}
