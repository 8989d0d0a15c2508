/** The routing table object: buckets that are split and edited in place. */
module RoutingTable {
  import opened Basics
  import opened XorMetric
  import opened Buckets
  import opened DistanceSort
  import Table
  import Nearest
  import Recency

  datatype Error = NoCapacity

  class RoutingTable {
    const config: Table.Config
    var buckets: seq<Bucket>
    /** The calls made to the PeerAdded and PeerRemoved hooks. */
    var notices: seq<Table.Event>
    /** The buckets' contents. */
    ghost var table: Table.KTable
    /** The calls made so far. */
    ghost var calls: seq<Table.Op>

    /** The bucket objects are distinct and hold `table`. */
    ghost predicate Layout()
      reads this, buckets
    {
      && |buckets| == |table|
      && (forall i :: 0 <= i < |buckets| ==> buckets[i].list == table[i])
      && (forall i, j :: 0 <= i < j < |buckets| ==> buckets[i] != buckets[j])
    }

    ghost predicate Extends(now: seq<Bucket>, before: seq<Bucket>) {
      |before| <= |now| && now[..|before|] == before
    }

    ghost predicate Valid()
      reads this, buckets
    {
      && Layout()
      && Table.Inv(config, table)
      && Table.Replay(notices) == Table.Stored(table)
      && Recency.Follows(config, calls, table, notices)
    }

    constructor (bucketsize: nat, peer: string, hashLen: nat, digest: string -> ID)
      requires bucketsize >= 1 && forall s: string :: |digest(s)| == hashLen
      ensures Valid() && fresh(buckets) && table == [[]] && notices == [] && calls == []
      ensures config == Table.Config(bucketsize, hashLen, digest, digest(peer))
    {
      var b := new Bucket();
      config := Table.Config(bucketsize, hashLen, digest, digest(peer));
      buckets := [b];
      notices := [];
      table := [[]];
      calls := [];
      new;
      Table.EmptyTableInv(config);
      Recency.RunTold(config, []);
      assert Table.Stored(table) == {};
    }

    /** The responsible bucket's index. */
    method BucketIndex(p: string) returns (b: nat)
      requires Layout() && Table.Inv(config, table)
      ensures b == Table.Slot(table, config.PeerCpl(p))
    {
      b := CommonPrefixLen(config.digest(p), config.local);
      if b >= |buckets| {
        b := |buckets| - 1;
      }
    }

    method Update(p: string) returns (evicted: string, err: Option<Error>)
      requires Valid()
      modifies this`buckets, this`notices, this`table, this`calls, buckets
      ensures Valid() && calls == old(calls) + [Table.UpdateOp(p)]
      ensures Extends(buckets, old(buckets)) && fresh(buckets[|old(buckets)|..])
      ensures table == Table.Update(config, old(table), p).0
      ensures evicted == ""
      ensures Table.AbstractUpdate(config, Table.Stored(old(table)), p) == (Table.Stored(table), err.None?)
      ensures notices == old(notices) +
        if p in Table.Stored(table) - Table.Stored(old(table)) then [Table.PeerAdded(p)] else []
      ensures err.None? ==> var l := table[Table.Slot(table, config.PeerCpl(p))]; l != [] && l[0].id == p
    {
      Recency.RunOneMore(config, calls, table, notices, Table.UpdateOp(p));
      Recency.UpdateEffect(config, table, p);
      assert notices + [] == notices;
      calls := calls + [Table.UpdateOp(p)];
      var verdict := Place(p);
      return "", if verdict == Table.Rejected then Some(NoCapacity) else None;
    }

    /** The body of Update under the table lock. */
    method Place(p: string) returns (v: Table.Verdict)
      requires Layout() && Table.Inv(config, table)
      modifies this`buckets, this`notices, this`table, buckets
      ensures Layout()
      ensures Extends(buckets, old(buckets)) && fresh(buckets[|old(buckets)|..])
      ensures (table, v) == Table.Update(config, old(table), p)
      ensures notices == if v == Table.Added then old(notices) + [Table.PeerAdded(p)] else old(notices)
    {
      var b := BucketIndex(p);
      HoldsMeansMember(buckets[b].list, p);
      var has := buckets[b].Has(p);
      if has {
        Refresh(b, p);
        return Table.Refreshed;
      }
      var len := buckets[b].Len();
      if len < config.bucketsize {
        Insert(b, p);
        return Table.Added;
      }
      if b == |buckets| - 1 {
        v := Overflow(p);
        return;
      }
      return Table.Rejected;
    }

    method Refresh(b: nat, p: string)
      requires Layout() && Table.Inv(config, table) && b < |buckets|
      modifies this`table, buckets[b]
      ensures Layout() && table == old(table)[b := MovedToFront(old(table)[b], p)]
    {
      assert Table.BucketAtOk(config, table, b);
      buckets[b].MoveToFront(p);
      table := table[b := buckets[b].list];
    }

    /** The last bucket is full: unfold the table and try once more. */
    method Overflow(p: string) returns (v: Table.Verdict)
      requires Layout() && Table.Inv(config, table) && table[|table| - 1] != []
      modifies this`buckets, this`notices, this`table, buckets
      ensures Layout()
      ensures Extends(buckets, old(buckets)) && fresh(buckets[|old(buckets)|..])
      ensures var u := Table.Unfold(config, old(table));
        u != [] && var b := Table.Slot(u, config.PeerCpl(p));
        if |u[b]| >= config.bucketsize then v == Table.Rejected && table == u && notices == old(notices)
        else v == Table.Added && table == Table.Push(config, u, b, p) && notices == old(notices) + [Table.PeerAdded(p)]
    {
      Table.UnfoldInv(config, table);
      NextBucket();
      assert forall i :: 0 <= i < |buckets| ==>
        if i < |old(buckets)| then buckets[i] == old(buckets)[i] else buckets[i] in buckets[|old(buckets)|..];
      v := Retry(p);
    }

    /** The second attempt, after the structure of the table has changed. */
    method Retry(p: string) returns (v: Table.Verdict)
      requires Layout() && Table.Inv(config, table)
      modifies this`notices, this`table, buckets
      ensures Layout()
      ensures var b := Table.Slot(old(table), config.PeerCpl(p));
        if |old(table)[b]| >= config.bucketsize then
          v == Table.Rejected && table == old(table) && notices == old(notices)
        else
          && v == Table.Added && table == Table.Push(config, old(table), b, p)
          && notices == old(notices) + [Table.PeerAdded(p)]
    {
      var b := BucketIndex(p);
      var len := buckets[b].Len();
      if len >= config.bucketsize {
        return Table.Rejected;
      }
      Insert(b, p);
      return Table.Added;
    }

    /** PushFront and the PeerAdded hook. */
    method Insert(b: nat, p: string)
      requires Layout() && b < |buckets|
      modifies this`table, this`notices, buckets[b]
      ensures Layout() && table == Table.Push(config, old(table), b, p)
      ensures notices == old(notices) + [Table.PeerAdded(p)]
    {
      buckets[b].PushFront(Entry(p, config.digest(p)));
      notices := notices + [Table.PeerAdded(p)];
      table := Table.Push(config, table, b, p);
    }

    /** Unfolds the last bucket until it is below capacity; ends because a
        non-empty bucket's index is at most the hash length in bits. */
    method NextBucket()
      requires Layout() && Table.Inv(config, table) && table[|table| - 1] != []
      modifies this`buckets, this`table, buckets[|buckets| - 1]
      ensures Layout()
      ensures Extends(buckets, old(buckets)) && fresh(buckets[|old(buckets)|..])
      ensures table == Table.Unfold(config, old(table))
      decreases 8 * config.hashLen + 2 - |table|
    {
      Table.SplitLastInv(config, table);
      Table.NonEmptyLastBound(config, table);
      ghost var m := |buckets|;
      var newBucket := SplitBucket();
      var len := newBucket.Len();
      if len >= config.bucketsize {
        NextBucket();
        assert buckets[m] == buckets[..m + 1][m] == newBucket;
        assert buckets[m..] == [newBucket] + buckets[m + 1..];
      }
    }

    /** Splits the last bucket and appends the part taken out of it. */
    method SplitBucket() returns (newBucket: Bucket)
      requires Layout() && Table.Inv(config, table) && table[|table| - 1] != []
      modifies this`buckets, this`table, buckets[|buckets| - 1]
      ensures Layout() && fresh(newBucket) && buckets == old(buckets) + [newBucket]
      ensures table == Table.SplitLast(config, old(table))
    {
      ghost var t, n := table, |table| - 1;
      var bucket := buckets[|buckets| - 1];
      Table.BucketMeasurable(config, t, n);
      newBucket := bucket.Split(|buckets| - 1, config.local);
      buckets := buckets + [newBucket];
      table := Table.SplitLast(config, t);
    }

    method Remove(p: string)
      requires Valid()
      modifies this`notices, this`table, this`calls, buckets
      ensures Valid() && calls == old(calls) + [Table.RemoveOp(p)]
      ensures table == Table.Remove(config, old(table), p).0
      ensures notices == old(notices) + if p in Table.Stored(old(table)) then [Table.PeerRemoved(p)] else []
      ensures Table.Stored(table) == Table.Stored(old(table)) - {p}
    {
      Recency.RunOneMore(config, calls, table, notices, Table.RemoveOp(p));
      Table.RemoveRefines(config, table, p);
      assert notices + [] == notices;
      var b := BucketIndex(p);
      HoldsMeansMember(buckets[b].list, p);
      var removed := buckets[b].Remove(p);
      table := table[b := buckets[b].list];
      if removed {
        notices := notices + [Table.PeerRemoved(p)];
      }
      calls := calls + [Table.RemoveOp(p)];
    }

    /** The peers NearestPeers sorts, with their distances. */
    method Collect(peer: string, count: nat) returns (pds: PeerDistanceSorter)
      requires Layout() && Table.Inv(config, table)
      ensures fresh(pds) && pds.target == config.digest(peer)
      ensures Reaches(pds.target, Nearest.Searched(config, table, peer, count))
      ensures pds.peers == Distances(pds.target, Nearest.Searched(config, table, peer, count))
    {
      var cpl := BucketIndex(peer);
      pds := new PeerDistanceSorter(config.digest(peer));
      CollectAround(pds, cpl, peer, count);
    }

    /** The bucket at `cpl`, and if it is short the two beside it. */
    method CollectAround(pds: PeerDistanceSorter, cpl: int, ghost peer: string, count: nat)
      requires Layout() && Table.Inv(config, table)
      requires pds.target == config.digest(peer) && pds.peers == []
      modifies pds
      ensures Reaches(pds.target, Nearest.Around(table, cpl, count))
      ensures pds.peers == Distances(pds.target, Nearest.Around(table, cpl, count))
    {
      ghost var own := Nearest.BucketAt(table, cpl);
      AppendBucket(pds, cpl, peer, []);
      assert [] + own == own;
      if |pds.peers| < count {
        AppendNeighbours(pds, cpl, peer, own);
      }
    }

    method AppendNeighbours(pds: PeerDistanceSorter, cpl: int, ghost peer: string, ghost own: seq<Entry>)
      requires Layout() && Table.Inv(config, table)
      requires pds.target == config.digest(peer) && Reaches(pds.target, own) && pds.peers == Distances(pds.target, own)
      modifies pds
      ensures var l := own + Nearest.BucketAt(table, cpl - 1) + Nearest.BucketAt(table, cpl + 1);
        Reaches(pds.target, l) && pds.peers == Distances(pds.target, l)
    {
      AppendBucket(pds, cpl - 1, peer, own);
      AppendBucket(pds, cpl + 1, peer, own + Nearest.BucketAt(table, cpl - 1));
    }

    /** Adds a bucket's peers, if there is such a bucket. */
    method AppendBucket(pds: PeerDistanceSorter, i: int, ghost peer: string, ghost l: seq<Entry>)
      requires Layout() && Table.Inv(config, table)
      requires pds.target == config.digest(peer) && Reaches(pds.target, l) && pds.peers == Distances(pds.target, l)
      modifies pds
      ensures Reaches(pds.target, l + Nearest.BucketAt(table, i))
      ensures pds.peers == Distances(pds.target, l + Nearest.BucketAt(table, i))
    {
      if 0 <= i < |buckets| {
        RowReaches(config, table, peer, i);
        DistancesConcat(pds.target, l, table[i]);
        pds.AppendPeersFromList(buckets[i].list);
      } else {
        assert l + [] == l;
      }
    }

    method NearestPeers(peer: string, count: nat) returns (out: seq<string>)
      requires Valid()
      ensures Nearest.Answer(config, table, peer, count, out)
      ensures Nearest.Exact(config, table, peer, count, out) <==> Nearest.Sufficient(config, table, peer, count)
    {
      var pds := Collect(peer, count);
      ghost var x, l := config.digest(peer), Nearest.Searched(config, table, peer, count);
      pds.Sort();
      ghost var full := pds.peers;
      SortedAnswer(config, table, peer, count, full);
      out := Head(pds.peers, count);
      Nearest.NearestExactIff(config, table, peer, count, out);
    }

    method Find(id: string) returns (r: string)
      requires Valid()
      ensures id != "" && r == id ==> id in Table.Stored(table)
      ensures id != "" && id in Table.Stored(table) && Nearest.CollisionFree(config, table, id) ==> r == id
      ensures r == "" || r == id
    {
      var srch := NearestPeers(id, 1);
      if id != "" {
        Nearest.FindCorrect(config, table, id, srch);
      }
      if |srch| == 0 || srch[0] != id {
        return "";
      }
      return srch[0];
    }

    method Size() returns (tot: nat)
      requires Valid()
      ensures tot == |Table.Stored(table)|
    {
      tot := 0;
      for i := 0 to |buckets|
        invariant tot == |Table.Flatten(table[..i])|
      {
        assert table[..i + 1][..i] == table[..i];
        var len := buckets[i].Len();
        tot := tot + len;
      }
      assert table[..|table|] == table;
      Table.ListingExact(config, table);
    }

    method ListPeers() returns (peers: seq<string>)
      requires Valid()
      ensures peers == Ids(Table.Flatten(table))
      ensures NoDup(peers) && Elems(peers) == Table.Stored(table) == Table.Replay(notices)
    {
      peers := [];
      for i := 0 to |buckets|
        invariant peers == Ids(Table.Flatten(table[..i]))
      {
        OneMoreBucket(table, i);
        var ps := buckets[i].Peers();
        peers := peers + ps;
      }
      assert table[..|table|] == table;
      Table.ListingExact(config, table);
      Nearest.IdsElems(Table.Flatten(table));
    }
  }

  lemma OneMoreBucket(t: Table.KTable, i: nat)
    requires i < |t|
    ensures Ids(Table.Flatten(t[..i + 1])) == Ids(Table.Flatten(t[..i])) + Ids(t[i])
  {
    assert t[..i + 1][..i] == t[..i];
  }

  /** The first `count` names. */
  method Head(peers: seq<PeerDistance>, count: nat) returns (out: seq<string>)
    ensures out == Names(peers)[..Min(count, |peers|)]
  {
    var kept := peers;
    if count < |kept| {
      kept := kept[..count];
    }
    out := [];
    for i := 0 to |kept|
      invariant out == Names(peers)[..i]
    {
      out := out + [kept[i].p];
    }
  }

  lemma RowReaches(c: Table.Config, t: Table.KTable, peer: string, i: nat)
    requires Table.Inv(c, t) && i < |t|
    ensures Reaches(c.digest(peer), t[i])
    ensures forall k :: 0 <= k < |t[i]| ==> t[i][k].hash == c.digest(t[i][k].id)
  {
    assert Table.BucketAtOk(c, t, i);
    assert forall k :: 0 <= k < |t[i]| ==> Table.Placed(c, t[i][k], i, i < |t| - 1);
  }

  /** A sorted permutation of the measured peers is an answer. */
  lemma SortedAnswer(c: Table.Config, t: Table.KTable, peer: string, count: nat, full: seq<PeerDistance>)
    requires Table.Inv(c, t)
    requires var l := Nearest.Searched(c, t, peer, count);
      && Reaches(c.digest(peer), l)
      && multiset(full) == multiset(Distances(c.digest(peer), l))
    requires Ascending(ByDistance(), full)
    ensures Nearest.Answer(c, t, peer, count, Names(full)[..Min(count, |full|)])
  {
    var x, l := c.digest(peer), Nearest.Searched(c, t, peer, count);
    var names := Names(full);
    NamesPermute(full, Distances(x, l));
    NamesOfDistances(x, l);
    forall i | 0 <= i < |full|
      ensures full[i].distance == Xor(x, c.digest(full[i].p))
    {
      assert full[i] in multiset(full);
      assert full[i] in Distances(x, l);
      var k :| 0 <= k < |l| && Distances(x, l)[k] == full[i];
      SearchedHash(c, t, peer, count, k);
    }
    forall i: nat, j: nat | i < j < |names|
      ensures NotBefore(Nearest.MetricOf(c, peer), names, i, j)
    {
      assert NotBefore(ByDistance(), full, i, j);
    }
    assert Ascending(Nearest.MetricOf(c, peer), names);
    Nearest.SortedHeadAnswers(c, t, peer, count, names);
  }

  lemma SearchedHash(c: Table.Config, t: Table.KTable, peer: string, count: nat, k: nat)
    requires Table.Inv(c, t) && k < |Nearest.Searched(c, t, peer, count)|
    ensures Nearest.Searched(c, t, peer, count)[k].hash == c.digest(Nearest.Searched(c, t, peer, count)[k].id)
  {
    forall i | 0 <= i < |t|
      ensures forall k :: 0 <= k < |t[i]| ==> t[i][k].hash == c.digest(t[i][k].id)
    {
      RowReaches(c, t, peer, i);
    }
  }
}
