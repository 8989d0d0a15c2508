/** Options, bytes, lists and sorting steps that several modules share. */
module Basics {

  datatype Option<T> = None | Some(value: T)

  function Min(a: nat, b: nat): nat { if a < b then a else b }

  // ----- bytes -----

  type Byte = x: nat | x < 256
  type Bytes = seq<Byte>
  type Uint32 = x: nat | x < 0x1_0000_0000
  type Uint64 = x: nat | x < 0x1_0000_0000_0000_0000

  /** The number a byte string stands for, most significant byte first. */
  function Value(b: Bytes): nat {
    if b == [] then 0 else 256 * Value(b[..|b| - 1]) + b[|b| - 1]
  }

  /** The last `width` bytes of a number, most significant first. */
  function BigEndian(n: nat, width: nat): (b: Bytes)
    ensures |b| == width
  {
    if width == 0 then [] else BigEndian(n / 256, width - 1) + [n % 256]
  }

  function Power(width: nat): nat {
    if width == 0 then 1 else 256 * Power(width - 1)
  }

  /** The bytes stand for the number if it fits. */
  lemma {:induction false} BigEndianValue(n: nat, width: nat)
    requires n < Power(width)
    ensures Value(BigEndian(n, width)) == n
  {
    if width > 0 {
      BigEndianValue(n / 256, width - 1);
      var b := BigEndian(n, width);
      assert b[..width - 1] == BigEndian(n / 256, width - 1);
    }
  }

  /** A number's shortest byte string: no leading zero. */
  predicate Shortest(b: Bytes, n: nat) {
    Value(b) == n && (b != [] ==> b[0] != 0)
  }

  lemma {:induction false} ShortestPositive(b: Bytes)
    requires b != [] && b[0] != 0
    ensures Value(b) > 0
  {
    if |b| > 1 {
      ShortestPositive(b[..|b| - 1]);
    }
  }

  lemma {:induction false} ShortestUnique(a: Bytes, b: Bytes, n: nat)
    requires Shortest(a, n) && Shortest(b, n)
    ensures a == b
  {
    if a != [] && b != [] {
      var a', b' := a[..|a| - 1], b[..|b| - 1];
      ShortestUnique(a', b', n / 256);
      assert a == a' + [a[|a| - 1]] && b == b' + [b[|b| - 1]];
    } else if a != [] {
      ShortestPositive(a);
    } else if b != [] {
      ShortestPositive(b);
    }
  }

  lemma {:induction false} BigEndianShortest(n: nat, width: nat)
    requires width > 0 && Power(width - 1) <= n < Power(width)
    ensures Shortest(BigEndian(n, width), n)
  {
    BigEndianValue(n, width);
    BigEndianFirst(n, width);
  }

  lemma {:induction false} BigEndianFirst(n: nat, width: nat)
    requires width > 0 && Power(width - 1) <= n < Power(width)
    ensures BigEndian(n, width)[0] != 0
  {
    if width > 1 {
      BigEndianFirst(n / 256, width - 1);
    }
  }

  lemma Powers()
    ensures Power(1) == 0x100 && Power(2) == 0x1_0000 && Power(3) == 0x100_0000 && Power(4) == 0x1_0000_0000
    ensures Power(5) == 0x100_0000_0000 && Power(6) == 0x1_0000_0000_0000 && Power(7) == 0x100_0000_0000_0000
    ensures Power(8) == 0x1_0000_0000_0000_0000
  {
    assert Power(1) == 256 * Power(0);
    assert Power(2) == 256 * Power(1);
    assert Power(3) == 256 * Power(2);
    assert Power(4) == 256 * Power(3);
    assert Power(5) == 256 * Power(4);
    assert Power(6) == 256 * Power(5);
    assert Power(7) == 256 * Power(6);
  }

  // ----- lists -----

  lemma InitLast<T>(s: seq<T>)
    requires s != []
    ensures s[..|s| - 1] + [s[|s| - 1]] == s
  {}

  ghost function Elems<T>(s: seq<T>): set<T> {
    set x | x in s
  }

  function Swapped<T>(s: seq<T>, i: nat, j: nat): seq<T>
    requires i < |s| && j < |s|
  {
    s[i := s[j]][j := s[i]]
  }

  function WithoutAt<T>(s: seq<T>, k: nat): seq<T>
    requires k < |s|
  {
    s[..k] + s[k + 1..]
  }

  lemma Associative<T>(x: seq<T>, y: seq<T>, z: seq<T>)
    ensures (x + y) + z == x + (y + z)
  {}

  lemma WithoutAtMultiset<T>(s: seq<T>, k: nat)
    requires k < |s|
    ensures multiset(s) == multiset(WithoutAt(s, k)) + multiset{s[k]}
  {
    assert s == (s[..k] + [s[k]]) + s[k + 1..];
  }

  /** Lists with the same elements, counted, have the same elements and lengths. */
  lemma SameElems<T>(a: seq<T>, b: seq<T>)
    requires multiset(a) == multiset(b)
    ensures Elems(a) == Elems(b) && |a| == |b|
  {
    assert forall x :: x in a <==> x in multiset(a);
    assert forall x :: x in b <==> x in multiset(b);
    assert |multiset(a)| == |a| && |multiset(b)| == |b|;
  }

  // ----- lists without repetition -----

  ghost predicate NoDup<T>(s: seq<T>) {
    forall i, j :: 0 <= i < j < |s| ==> s[i] != s[j]
  }

  lemma {:induction false} NoDupSize<T>(s: seq<T>)
    requires NoDup(s)
    ensures |Elems(s)| == |s|
  {
    if s != [] {
      var n := |s| - 1;
      NoDupSize(s[..n]);
      assert Elems(s) == Elems(s[..n]) + {s[n]};
    } else {
      assert Elems(s) == {};
    }
  }

  lemma {:induction false} NoDupCounts<T>(s: seq<T>)
    ensures NoDup(s) <==> forall x :: x in s ==> multiset(s)[x] == 1
  {
    if s != [] {
      var n := |s| - 1;
      NoDupCounts(s[..n]);
      assert s == s[..n] + [s[n]];
      if s[n] in s[..n] {
        assert multiset(s)[s[n]] >= 2;
      } else {
        assert forall x :: x in s[..n] ==> multiset(s)[x] == multiset(s[..n])[x];
        assert forall x :: x in s ==> x in s[..n] || x == s[n];
      }
    }
  }

  lemma PermutationFacts<T>(a: seq<T>, b: seq<T>)
    requires multiset(a) == multiset(b) && NoDup(a)
    ensures NoDup(b) && Elems(a) == Elems(b) && |a| == |b|
  {
    NoDupCounts(a);
    NoDupCounts(b);
    SameElems(a, b);
  }

  lemma {:induction false} SubsetSize<T>(a: set<T>, b: set<T>)
    requires a <= b
    ensures |a| <= |b|
    ensures |a| == |b| ==> a == b
  {
    if a != {} {
      var x :| x in a;
      SubsetSize(a - {x}, b - {x});
    }
  }

  // ----- insertion sort, one exchange at a time -----

  type Order<!T> = (T, T) -> bool

  /** Element `b` does not come before element `a`. */
  ghost predicate NotBefore<T>(less: Order<T>, s: seq<T>, a: nat, b: nat)
    requires a < |s| && b < |s|
  {
    !less(s[b], s[a])
  }

  /** No later element comes before an earlier one. */
  ghost predicate Ascending<T>(less: Order<T>, s: seq<T>) {
    AscendingTo(less, s, |s|)
  }

  /** The same of the first `n` elements. */
  ghost predicate AscendingTo<T>(less: Order<T>, s: seq<T>, n: nat)
    requires n <= |s|
  {
    forall a: nat, b: nat :: a < b < n ==> NotBefore(less, s, a, b)
  }

  /** The same without element `j`, which may come before earlier ones. */
  ghost predicate AscendingBut<T>(less: Order<T>, s: seq<T>, n: nat, j: nat)
    requires n <= |s|
  {
    forall a: nat, b: nat :: a < b < n && b != j ==> NotBefore(less, s, a, b)
  }

  /** "Not before" is transitive, and nothing is before what is before it. */
  ghost predicate WeakOrder<T(!new)>(less: Order<T>) {
    && (forall x, y, z :: !less(y, x) && !less(z, y) ==> !less(z, x))
    && (forall x, y :: less(x, y) ==> !less(y, x))
  }

  /** Exchanging the misplaced element with the one before it. */
  lemma SinkStep<T(!new)>(less: Order<T>, s: seq<T>, n: nat, j: nat)
    requires WeakOrder(less) && 0 < j < n <= |s| && AscendingBut(less, s, n, j) && less(s[j], s[j - 1])
    ensures AscendingBut(less, Swapped(s, j - 1, j), n, j - 1)
    ensures multiset(Swapped(s, j - 1, j)) == multiset(s)
  {
    var t := Swapped(s, j - 1, j);
    forall a: nat, b: nat | a < b < n && b != j - 1
      ensures NotBefore(less, t, a, b)
    {
      var a' := if a == j then j - 1 else if a == j - 1 then j else a;
      var b' := if b == j then j - 1 else b;
      assert t[a] == s[a'] && t[b] == s[b'];
      if a != j - 1 || b != j { assert NotBefore(less, s, a', b'); }
    }
  }

  /** The misplaced element has reached its place. */
  lemma SinkEnd<T(!new)>(less: Order<T>, s: seq<T>, n: nat, j: nat)
    requires WeakOrder(less) && j < n <= |s| && AscendingBut(less, s, n, j) && (j > 0 ==> !less(s[j], s[j - 1]))
    ensures AscendingTo(less, s, n)
  {
    forall a: nat, b: nat | a < b < n
      ensures NotBefore(less, s, a, b)
    {
      if b == j && a < j - 1 {
        assert NotBefore(less, s, a, j - 1);
      }
    }
  }
}
