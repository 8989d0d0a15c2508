/** Searching layers instead of everything.  Peers are grouped in rows, a
    search starts at row `k`, and the metric orders whole rows: row `k` first,
    then all rows above it, then the rows below it in falling order. */
module Layers {
  import opened Basics

  // ----- rows -----

  ghost predicate AllCloser<T>(a: set<T>, b: set<T>, closer: Order<T>) {
    forall p, q :: p in a && q in b ==> closer(p, q) && !closer(q, p)
  }

  ghost function Row<T>(rows: seq<set<T>>, i: int): set<T> {
    if 0 <= i < |rows| then rows[i] else {}
  }

  ghost predicate Before(i: int, j: int, k: int) {
    i == k != j || i > k > j || j < i < k
  }

  ghost predicate InTurn<T>(rows: seq<set<T>>, i: int, j: int, k: int, closer: Order<T>) {
    Before(i, j, k) ==> AllCloser(Row(rows, i), Row(rows, j), closer)
  }

  /** Of the rows above `k`, row `k + 1` is the nearest if `adjacent`, otherwise it is the farthest. */
  ghost predicate Above<T>(rows: seq<set<T>>, k: int, j: int, closer: Order<T>, adjacent: bool) {
    k + 1 < j ==> if adjacent then AllCloser(Row(rows, k + 1), Row(rows, j), closer)
                  else AllCloser(Row(rows, j), Row(rows, k + 1), closer)
  }

  ghost predicate Apart<T>(rows: seq<set<T>>, i: int, j: int) {
    i != j ==> Row(rows, i) !! Row(rows, j)
  }

  ghost predicate Layered<T>(rows: seq<set<T>>, k: nat, closer: Order<T>, adjacent: bool) {
    && k < |rows|
    && (forall i, j :: InTurn(rows, i, j, k, closer))
    && (forall j :: Above(rows, k, j, closer, adjacent))
    && (forall i, j :: Apart(rows, i, j))
  }

  ghost function Union<T>(rows: seq<set<T>>): set<T> {
    set r, p | r in rows && p in r :: p
  }

  lemma InSomeRow<T>(rows: seq<set<T>>, p: T) returns (i: int)
    requires p in Union(rows)
    ensures 0 <= i < |rows| && p in Row(rows, i)
  {
    var r :| r in rows && p in r;
    i :| 0 <= i < |rows| && rows[i] == r;
  }

  lemma RowInUnion<T>(rows: seq<set<T>>, i: int)
    ensures Row(rows, i) <= Union(rows)
  {
    if 0 <= i < |rows| { assert rows[i] in rows; }
  }

  // ----- best lists -----

  ghost predicate NoneCloser<T>(closer: Order<T>, rest: set<T>, out: seq<T>) {
    forall p, q :: p in out && q in rest ==> !closer(q, p)
  }

  /** `out` lists the `count` nearest members of `s` (all of them if there are fewer), nearest first. */
  ghost predicate Best<T>(closer: Order<T>, s: set<T>, count: nat, out: seq<T>) {
    && NoDup(out) && Elems(out) <= s
    && |out| == Min(count, |s|)
    && Ascending(closer, out)
    && NoneCloser(closer, s - Elems(out), out)
  }

  /** The head of an ordered arrangement is a best list. */
  lemma HeadIsBest<T>(closer: Order<T>, full: seq<T>, count: nat)
    requires NoDup(full) && Ascending(closer, full)
    ensures Best(closer, Elems(full), count, full[..Min(count, |full|)])
  {
    var out := full[..Min(count, |full|)];
    NoDupSize(full);
    forall a: nat, b: nat | a < b < |out|
      ensures NotBefore(closer, out, a, b)
    {
      assert NotBefore(closer, full, a, b);
    }
    forall p, q | p in out && q in Elems(full) - Elems(out)
      ensures !closer(q, p)
    {
      var i :| 0 <= i < |out| && out[i] == p;
      var j :| 0 <= j < |full| && full[j] == q;
      assert j >= |out|;
      assert full[i] == p && NotBefore(closer, full, i, j);
    }
  }

  lemma CloserIsIncluded<T>(closer: Order<T>, s: set<T>, count: nat, out: seq<T>, p: T, r: T)
    requires Best(closer, s, count, out) && p in out && r in s && closer(r, p)
    ensures r in Elems(out)
  {}

  // ----- searching three rows -----

  ghost function Near<T>(rows: seq<set<T>>, k: int, count: nat): set<T> {
    if |Row(rows, k)| >= count then Row(rows, k)
    else Row(rows, k) + Row(rows, k - 1) + Row(rows, k + 1)
  }

  ghost predicate EmptyRows<T>(rows: seq<set<T>>, lo: int, hi: int) {
    forall i :: lo <= i < hi ==> Row(rows, i) == {}
  }

  /** Row `k` alone is enough; or nothing lies beyond row `k + 1` and either nothing lies below
      row `k - 1` or the three rows searched hold enough; or the target turns away from the
      rows above, and rows `k` and `k + 1` hold enough. */
  ghost predicate Enough<T>(rows: seq<set<T>>, k: int, adjacent: bool, count: nat) {
    if count <= |Row(rows, k)| then true
    else if EmptyRows(rows, k + 2, |rows|) then EmptyRows(rows, 0, k - 1) || count <= |Near(rows, k, count)|
    else adjacent && count <= |Row(rows, k)| + |Row(rows, k + 1)|
  }

  /** A near row and a far one: which comes first. */
  lemma FarRow<T>(rows: seq<set<T>>, k: nat, closer: Order<T>, adjacent: bool, i: int, p: T, j: int, q: T)
    requires Layered(rows, k, closer, adjacent) && p in Row(rows, i) && q in Row(rows, j)
    ensures Before(i, j, k) ==> closer(p, q) && !closer(q, p)
    ensures i == k + 1 < j ==> if adjacent then closer(p, q) && !closer(q, p) else closer(q, p)
  {
    assert InTurn(rows, i, j, k, closer) && Above(rows, k, j, closer, adjacent);
  }

  /** The row searched and the one above have nobody in common. */
  lemma TwoRows<T>(rows: seq<set<T>>, k: nat, closer: Order<T>, adjacent: bool)
    requires Layered(rows, k, closer, adjacent)
    ensures |Row(rows, k) + Row(rows, k + 1)| == |Row(rows, k)| + |Row(rows, k + 1)|
  {
    assert Apart(rows, k, k + 1);
  }

  /** If the own and the next row suffice, nobody from the row below is returned. */
  lemma NoneFromBelow<T>(rows: seq<set<T>>, k: nat, closer: Order<T>, adjacent: bool, count: nat, out: seq<T>, p: T)
    requires Layered(rows, k, closer, adjacent) && Best(closer, Near(rows, k, count), count, out)
    requires |Row(rows, k)| < count <= |Row(rows, k)| + |Row(rows, k + 1)|
    requires p in out
    ensures p !in Row(rows, k - 1)
  {
    if p in Row(rows, k - 1) {
      var both := Row(rows, k) + Row(rows, k + 1);
      forall r | r in both
        ensures r in Elems(out)
      {
        FarRow(rows, k, closer, adjacent, if r in Row(rows, k) then k else k + 1, r, k - 1, p);
        CloserIsIncluded(closer, Near(rows, k, count), count, out, p, r);
      }
      TwoRows(rows, k, closer, adjacent);
      assert Apart(rows, k - 1, k) && Apart(rows, k - 1, k + 1);
      assert p !in both;
      SubsetSize(both + {p}, Elems(out));
      NoDupSize(out);
    }
  }

  /** Which row a searched member is in. */
  lemma NearRow<T>(rows: seq<set<T>>, k: nat, count: nat, p: T) returns (i: int)
    requires p in Near(rows, k, count)
    ensures p in Row(rows, i) && k - 1 <= i <= k + 1
    ensures count <= |Row(rows, k)| ==> i == k
  {
    i := if p in Row(rows, k) then k else if p in Row(rows, k - 1) then k - 1 else k + 1;
  }

  lemma NearInUnion<T>(rows: seq<set<T>>, k: nat, count: nat)
    ensures Near(rows, k, count) <= Union(rows)
    ensures |Near(rows, k, count)| <= |Union(rows)|
  {
    RowInUnion(rows, k);
    RowInUnion(rows, k - 1);
    RowInUnion(rows, k + 1);
    SubsetSize(Near(rows, k, count), Union(rows));
  }

  lemma UnsearchedFarther<T>(rows: seq<set<T>>, k: nat, closer: Order<T>, adjacent: bool, count: nat, out: seq<T>,
      p: T, q: T)
    requires Layered(rows, k, closer, adjacent) && Best(closer, Near(rows, k, count), count, out)
    requires Enough(rows, k, adjacent, count) && p in out && q in Union(rows) - Near(rows, k, count)
    ensures !closer(q, p)
  {
    var j := InSomeRow(rows, q);
    assert p in Elems(out);
    var i := NearRow(rows, k, count, p);
    if count > |Row(rows, k)| && j > k + 1 {
      assert !EmptyRows(rows, k + 2, |rows|);
      NoneFromBelow(rows, k, closer, adjacent, count, out, p);
    }
    FarRow(rows, k, closer, adjacent, i, p, j, q);
  }

  lemma EnoughIsBest<T>(rows: seq<set<T>>, k: nat, closer: Order<T>, adjacent: bool, count: nat, out: seq<T>)
    requires Layered(rows, k, closer, adjacent) && Best(closer, Near(rows, k, count), count, out)
    requires Enough(rows, k, adjacent, count)
    ensures Best(closer, Union(rows), count, out)
  {
    NearInUnion(rows, k, count);
    forall p, q | p in out && q in Union(rows) - Elems(out)
      ensures !closer(q, p)
    {
      if q !in Near(rows, k, count) { UnsearchedFarther(rows, k, closer, adjacent, count, out, p, q); }
    }
    if |Near(rows, k, count)| < count {
      ShortIsAll(rows, k, closer, adjacent, count);
    }
  }

  /** A search that comes back short has looked at everyone. */
  lemma ShortIsAll<T>(rows: seq<set<T>>, k: nat, closer: Order<T>, adjacent: bool, count: nat)
    requires Layered(rows, k, closer, adjacent) && Enough(rows, k, adjacent, count)
    requires |Near(rows, k, count)| < count
    ensures Near(rows, k, count) == Union(rows)
  {
    NearInUnion(rows, k, count);
    SubsetSize(Row(rows, k) + Row(rows, k + 1), Near(rows, k, count));
    TwoRows(rows, k, closer, adjacent);
    forall q | q in Union(rows)
      ensures q in Near(rows, k, count)
    {
      var j := InSomeRow(rows, q);
      assert EmptyRows(rows, k + 2, |rows|) && EmptyRows(rows, 0, k - 1);
    }
  }

  lemma Unsearched<T>(rows: seq<set<T>>, k: nat, closer: Order<T>, adjacent: bool, count: nat, j: int) returns (q: T)
    requires Layered(rows, k, closer, adjacent) && Row(rows, j) != {} && (j < k - 1 || j > k + 1)
    ensures q in Row(rows, j) && q in Union(rows) - Near(rows, k, count)
    ensures |Near(rows, k, count)| < |Union(rows)|
  {
    q :| q in Row(rows, j);
    RowInUnion(rows, j);
    NearInUnion(rows, k, count);
    assert Apart(rows, j, k) && Apart(rows, j, k - 1) && Apart(rows, j, k + 1);
    SubsetSize(Near(rows, k, count), Union(rows) - {q});
  }

  /** A member missed above the searched rows is closer than everyone who would have to fill the list. */
  lemma MissedAbove<T>(rows: seq<set<T>>, k: nat, closer: Order<T>, adjacent: bool, count: nat, out: seq<T>,
      j: int, q: T)
    requires Layered(rows, k, closer, adjacent) && Best(closer, Near(rows, k, count), count, out)
    requires !Enough(rows, k, adjacent, count) && j > k + 1
    requires q in Row(rows, j) && q in Union(rows) - Near(rows, k, count)
    requires NoneCloser(closer, Union(rows) - Elems(out), out)
    ensures |out| < count
  {
    var room := if adjacent then Row(rows, k) + Row(rows, k + 1) else Row(rows, k);
    assert !EmptyRows(rows, k + 2, |rows|);
    forall p | p in Elems(out)
      ensures p in room
    {
      var i := NearRow(rows, k, count, p);
      FarRow(rows, k, closer, adjacent, i, p, j, q);
      FarRow(rows, k, closer, adjacent, j, q, i, p);
    }
    SubsetSize(Elems(out), room);
    NoDupSize(out);
    TwoRows(rows, k, closer, adjacent);
  }

  /** Searching three rows finds the best list of all rows if and only if `Enough` holds. */
  lemma ThreeRowsIff<T>(rows: seq<set<T>>, k: nat, closer: Order<T>, adjacent: bool, count: nat, out: seq<T>)
    requires Layered(rows, k, closer, adjacent) && Best(closer, Near(rows, k, count), count, out)
    ensures Best(closer, Union(rows), count, out) <==> Enough(rows, k, adjacent, count)
  {
    if Enough(rows, k, adjacent, count) {
      EnoughIsBest(rows, k, closer, adjacent, count, out);
    } else {
      NearInUnion(rows, k, count);
      if EmptyRows(rows, k + 2, |rows|) {
        var j :| 0 <= j < k - 1 && Row(rows, j) != {};
        var _ := Unsearched(rows, k, closer, adjacent, count, j);
      } else {
        var j :| k + 2 <= j < |rows| && Row(rows, j) != {};
        var q := Unsearched(rows, k, closer, adjacent, count, j);
        if NoneCloser(closer, Union(rows) - Elems(out), out) {
          MissedAbove(rows, k, closer, adjacent, count, out, j, q);
        }
      }
    }
  }
}
