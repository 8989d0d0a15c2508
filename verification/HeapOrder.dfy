/** Heap order on launch times, and the steps of the sift loops of Go's container/heap. */
module HeapOrder {
  import opened Basics

  /** Instants; 0 stands for the zero time, which sorts after every other. */
  type Time = int

  const ZERO_TIME: Time := 0

  predicate Earlier(a: Time, b: Time) {
    if a == ZERO_TIME then false
    else if b == ZERO_TIME then true
    else a < b
  }

  function Parent(i: nat): nat { if i == 0 then 0 else (i - 1) / 2 }

  ghost predicate Ordered(k: seq<Time>, n: nat)
    requires n <= |k|
  {
    forall a :: 1 <= a < n ==> !Earlier(k[a], k[Parent(a)])
  }

  /** The root of a heap is a minimum. */
  lemma {:induction false} RootIsMinimum(k: seq<Time>, n: nat, a: nat)
    requires n <= |k| && Ordered(k, n) && a < n
    ensures !Earlier(k[a], k[0])
    decreases a
  {
    if a > 0 {
      RootIsMinimum(k, n, Parent(a));
    }
  }

  /** Order everywhere except between position `i` and its parent and children;
      the children of `i` are in order with its parent. */
  ghost predicate OrderedBut(k: seq<Time>, n: nat, i: nat)
    requires n <= |k|
  {
    && (forall a :: 1 <= a < n && a != i && Parent(a) != i ==> !Earlier(k[a], k[Parent(a)]))
    && (forall c :: 1 <= c < n && Parent(c) == i && 0 < i < n ==> !Earlier(k[c], k[Parent(i)]))
  }

  ghost predicate ChildrenInOrder(k: seq<Time>, n: nat, i: nat)
    requires i < |k| && n <= |k|
  {
    forall c :: 1 <= c < n && Parent(c) == i ==> !Earlier(k[c], k[i])
  }

  /** Changing one key of a heap, or putting any key there, leaves the rest in order. */
  lemma ChangeOne(k: seq<Time>, n: nat, i: nat, t: Time)
    requires i < n <= |k| && Ordered(k, n)
    ensures OrderedBut(k[i := t], n, i)
  {
    forall c | 1 <= c < n && Parent(c) == i && 0 < i
      ensures !Earlier(k[c], k[Parent(i)])
    {
      assert !Earlier(k[c], k[Parent(c)]) && !Earlier(k[i], k[Parent(i)]);
    }
  }

  lemma UpStep(k: seq<Time>, n: nat, j: nat)
    requires 0 < j < n <= |k| && OrderedBut(k, n, j) && ChildrenInOrder(k, n, j)
    requires Earlier(k[j], k[Parent(j)])
    ensures var k' := Swapped(k, Parent(j), j); OrderedBut(k', n, Parent(j)) && ChildrenInOrder(k', n, Parent(j))
  {
    var p := Parent(j);
    var k' := Swapped(k, p, j);
    forall a | 1 <= a < n && a != p && Parent(a) != p
      ensures !Earlier(k'[a], k'[Parent(a)])
    {
      if Parent(a) != j { assert !Earlier(k[a], k[Parent(a)]); }
    }
    forall c | 1 <= c < n && Parent(c) == p
      ensures !Earlier(k'[c], k'[p])
      ensures p > 0 ==> !Earlier(k'[c], k'[Parent(p)])
    {
      assert c != j ==> !Earlier(k[c], k[p]);
      assert p > 0 ==> !Earlier(k[p], k[Parent(p)]);
    }
  }

  lemma UpEnd(k: seq<Time>, n: nat, j: nat)
    requires j < n <= |k| && OrderedBut(k, n, j) && ChildrenInOrder(k, n, j)
    requires j > 0 ==> !Earlier(k[j], k[Parent(j)])
    ensures Ordered(k, n)
  {}

  ghost predicate SmallerChild(k: seq<Time>, n: nat, i: nat, j: nat)
    requires n <= |k|
  {
    && 1 <= j < n && Parent(j) == i
    && forall c :: 1 <= c < n && Parent(c) == i ==> !Earlier(k[c], k[j])
  }

  lemma DownStep(k: seq<Time>, n: nat, i: nat, j: nat)
    requires i < n <= |k| && OrderedBut(k, n, i) && SmallerChild(k, n, i, j) && Earlier(k[j], k[i])
    ensures var k' := Swapped(k, i, j); OrderedBut(k', n, j) && !Earlier(k'[j], k'[i])
    ensures j > i
  {
    var k' := Swapped(k, i, j);
    forall a | 1 <= a < n && a != j && Parent(a) != j
      ensures !Earlier(k'[a], k'[Parent(a)])
    {
      if a != i && Parent(a) != i { assert !Earlier(k[a], k[Parent(a)]); }
    }
    forall c | 1 <= c < n && Parent(c) == j
      ensures !Earlier(k'[c], k'[i])
    {
      assert !Earlier(k[c], k[j]);
    }
  }

  lemma DownEnd(k: seq<Time>, n: nat, i: nat)
    requires i < n <= |k| && OrderedBut(k, n, i) && ChildrenInOrder(k, n, i)
    ensures i > 0 && !Earlier(k[i], k[Parent(i)]) ==> Ordered(k, n)
    ensures i == 0 ==> Ordered(k, n)
  {}

  lemma ChildIndices(i: nat, c: nat)
    requires c >= 1
    ensures Parent(c) == i <==> c == 2 * i + 1 || c == 2 * i + 2
  {}
}
