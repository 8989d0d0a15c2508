/** `peerDistanceSorter`: collects peers with their distance to a target and sorts them. */
module DistanceSort {
  import opened Basics
  import opened XorMetric
  import opened Buckets

  datatype PeerDistance = PeerDistance(p: string, distance: ID)

  function Measure(target: ID, e: Entry): PeerDistance
    requires |target| <= |e.hash|
  {
    PeerDistance(e.id, Xor(target, e.hash))
  }

  ghost predicate Reaches(target: ID, l: seq<Entry>) {
    forall i :: 0 <= i < |l| ==> |target| <= |l[i].hash|
  }

  function Distances(target: ID, l: seq<Entry>): seq<PeerDistance>
    requires Reaches(target, l)
  {
    seq(|l|, i requires 0 <= i < |l| => Measure(target, l[i]))
  }

  lemma DistancesConcat(target: ID, a: seq<Entry>, b: seq<Entry>)
    requires Reaches(target, a) && Reaches(target, b)
    ensures Reaches(target, a + b) && Distances(target, a + b) == Distances(target, a) + Distances(target, b)
  {}

  function Names(s: seq<PeerDistance>): seq<string> {
    seq(|s|, i requires 0 <= i < |s| => s[i].p)
  }

  /** Ordered by distance. */
  function ByDistance(): Order<PeerDistance> {
    (a: PeerDistance, b: PeerDistance) => Less(a.distance, b.distance)
  }

  lemma DistanceIsWeakOrder()
    ensures WeakOrder(ByDistance())
  {
    forall x, y, z | !ByDistance()(y, x) && !ByDistance()(z, y)
      ensures !ByDistance()(z, x)
    {
      NotLessTransitive(x.distance, y.distance, z.distance);
    }
    forall x, y | ByDistance()(x, y)
      ensures !ByDistance()(y, x)
    {
      LessTotal(x.distance, y.distance);
    }
  }

  class PeerDistanceSorter {
    var peers: seq<PeerDistance>
    const target: ID

    constructor (target: ID)
      ensures peers == [] && this.target == target
    {
      peers := [];
      this.target := target;
    }

    method AppendPeer(e: Entry)
      requires |target| <= |e.hash|
      modifies this
      ensures peers == old(peers) + [Measure(target, e)]
    {
      var d := XorBytes(target, e.hash);
      peers := peers + [PeerDistance(e.id, d)];
    }

    method AppendPeersFromList(l: seq<Entry>)
      requires Reaches(target, l)
      modifies this
      ensures peers == old(peers) + Distances(target, l)
    {
      for i := 0 to |l|
        invariant peers == old(peers) + Distances(target, l)[..i]
      {
        AppendPeer(l[i]);
      }
    }

    predicate Before(i: nat, j: nat)
      reads this
      requires i < |peers| && j < |peers|
    {
      Less(peers[i].distance, peers[j].distance)
    }

    method Swap(i: nat, j: nat)
      requires i < |peers| && j < |peers|
      modifies this
      ensures peers == Swapped(old(peers), i, j)
    {
      peers := peers[i := peers[j]][j := peers[i]];
    }

    /** The source calls the library sort, of which only this is used: an
        ordered permutation, ties in any order. */
    method Sort()
      modifies this
      ensures multiset(peers) == multiset(old(peers))
      ensures Ascending(ByDistance(), peers)
    {
      for i := 0 to |peers|
        invariant |peers| == |old(peers)| && multiset(peers) == multiset(old(peers))
        invariant AscendingTo(ByDistance(), peers, i)
      {
        Sink(i);
      }
    }

    method Sink(i: nat)
      requires i < |peers| && AscendingTo(ByDistance(), peers, i)
      modifies this
      ensures multiset(peers) == multiset(old(peers)) && |peers| == |old(peers)|
      ensures AscendingTo(ByDistance(), peers, i + 1)
    {
      var j := i;
      while true
        invariant 0 <= j <= i < |peers| == |old(peers)|
        invariant multiset(peers) == multiset(old(peers))
        invariant AscendingBut(ByDistance(), peers, i + 1, j)
        decreases j
      {
        var k := SinkOnce(i + 1, j);
        if k == j {
          return;
        }
        j := k;
      }
    }

    /** One turn: where the element is afterwards; unmoved means it is in place. */
    method SinkOnce(n: nat, j: nat) returns (k: nat)
      requires j < n <= |peers| && AscendingBut(ByDistance(), peers, n, j)
      modifies this
      ensures k <= j && multiset(peers) == multiset(old(peers)) && |peers| == |old(peers)|
      ensures if k == j then AscendingTo(ByDistance(), peers, n) else AscendingBut(ByDistance(), peers, n, k)
    {
      SinkCloser(peers, n, j);
      if j == 0 || !Before(j, j - 1) {
        return j;
      }
      Swap(j - 1, j);
      return j - 1;
    }
  }

  /** A turn of the loop, or its end. */
  lemma SinkCloser(s: seq<PeerDistance>, n: nat, j: nat)
    requires j < n <= |s| && AscendingBut(ByDistance(), s, n, j)
    ensures if j > 0 && Less(s[j].distance, s[j - 1].distance)
            then AscendingBut(ByDistance(), Swapped(s, j - 1, j), n, j - 1)
              && multiset(Swapped(s, j - 1, j)) == multiset(s)
            else AscendingTo(ByDistance(), s, n)
  {
    DistanceIsWeakOrder();
    if j > 0 && Less(s[j].distance, s[j - 1].distance) {
      SinkStep(ByDistance(), s, n, j);
    } else {
      SinkEnd(ByDistance(), s, n, j);
    }
  }

  /** Sorting distances sorts the names: same names, and the order is by distance. */
  lemma {:induction false} NamesPermute(a: seq<PeerDistance>, b: seq<PeerDistance>)
    requires multiset(a) == multiset(b)
    ensures multiset(Names(a)) == multiset(Names(b))
    decreases |a|
  {
    assert |multiset(a)| == |a| && |multiset(b)| == |b|;
    if a != [] {
      var x, n := a[|a| - 1], |a| - 1;
      assert x in multiset(b);
      var i :| 0 <= i < |b| && b[i] == x;
      NamesWithoutAt(a, n);
      NamesWithoutAt(b, i);
      assert multiset(WithoutAt(a, n)) == multiset(a) - multiset{x} == multiset(WithoutAt(b, i));
      NamesPermute(WithoutAt(a, n), WithoutAt(b, i));
    } else {
      assert b == [];
    }
  }

  /** Dropping an element drops its name. */
  lemma NamesWithoutAt(s: seq<PeerDistance>, i: nat)
    requires i < |s|
    ensures multiset(s) == multiset(WithoutAt(s, i)) + multiset{s[i]}
    ensures multiset(Names(s)) == multiset(Names(WithoutAt(s, i))) + multiset{s[i].p}
  {
    WithoutAtMultiset(s, i);
    WithoutAtMultiset(Names(s), i);
    assert Names(WithoutAt(s, i)) == WithoutAt(Names(s), i);
  }

  lemma NamesOfDistances(target: ID, l: seq<Entry>)
    requires Reaches(target, l)
    ensures Names(Distances(target, l)) == Ids(l)
  {}
}
