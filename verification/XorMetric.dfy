/** The XOR metric of the Kademlia table: identifiers are byte strings, the
    distance of two identifiers is their bytewise XOR, and distances are
    compared as byte strings.  The reference view is bitwise: `Cpl` is the
    length of the longest common bit prefix, found by scanning bits. */
module XorMetric {

  type ID = seq<bv8>

  // ----- bits -----

  /** The byte whose only bit is bit `i`; bit 0 is the most significant one. */
  function Mask(i: nat): bv8
    requires i < 8
  {
    if i == 0 then 0x80
    else if i == 1 then 0x40
    else if i == 2 then 0x20
    else if i == 3 then 0x10
    else if i == 4 then 0x08
    else if i == 5 then 0x04
    else if i == 6 then 0x02
    else 0x01
  }

  function ByteBit(b: bv8, i: nat): bool
    requires i < 8
  {
    b & Mask(i) != 0
  }

  function Bit(id: ID, i: nat): bool
    requires i < 8 * |id|
  {
    ByteBit(id[i / 8], i % 8)
  }

  /** The first `n` bits of `a` and `b` are the same. */
  ghost predicate Agree(a: ID, b: ID, n: nat)
    requires |a| == |b| && n <= 8 * |a|
  {
    forall i: nat :: i < n ==> Bit(a, i) == Bit(b, i)
  }

  /** `n` is the length of the longest common bit prefix. */
  ghost predicate IsCpl(a: ID, b: ID, n: nat)
    requires |a| == |b|
  {
    n <= 8 * |a| && Agree(a, b, n) && (n < 8 * |a| ==> Bit(a, n) != Bit(b, n))
  }

  /** First position from `i` on where the bits differ. */
  function CplFrom(a: ID, b: ID, i: nat): nat
    requires |a| == |b| && i <= 8 * |a|
    decreases 8 * |a| - i
  {
    if i == 8 * |a| || Bit(a, i) != Bit(b, i) then i else CplFrom(a, b, i + 1)
  }

  function Cpl(a: ID, b: ID): nat
    requires |a| == |b|
  {
    CplFrom(a, b, 0)
  }

  lemma {:induction false} CplFromSpec(a: ID, b: ID, i: nat)
    requires |a| == |b| && i <= 8 * |a| && Agree(a, b, i)
    ensures IsCpl(a, b, CplFrom(a, b, i))
    decreases 8 * |a| - i
  {
    if i < 8 * |a| && Bit(a, i) == Bit(b, i) {
      CplFromSpec(a, b, i + 1);
    }
  }

  /** `Cpl` is the one length with these two properties. */
  lemma CplSpec(a: ID, b: ID)
    requires |a| == |b|
    ensures IsCpl(a, b, Cpl(a, b))
  {
    CplFromSpec(a, b, 0);
  }

  lemma CplUnique(a: ID, b: ID, n: nat)
    requires |a| == |b| && IsCpl(a, b, n)
    ensures n == Cpl(a, b)
  {
    CplSpec(a, b);
  }

  // ----- bytes -----

  /** bits.LeadingZeros8 */
  function LeadingZeros8(b: bv8): nat {
    if b >= 0x80 then 0
    else if b >= 0x40 then 1
    else if b >= 0x20 then 2
    else if b >= 0x10 then 3
    else if b >= 0x08 then 4
    else if b >= 0x04 then 5
    else if b >= 0x02 then 6
    else if b >= 0x01 then 7
    else 8
  }

  lemma LeadingZerosBits(b: bv8, i: nat)
    requires i < 8
    ensures i < LeadingZeros8(b) ==> !ByteBit(b, i)
    ensures i == LeadingZeros8(b) ==> ByteBit(b, i)
  {}

  lemma XorByteBit(a: bv8, b: bv8, i: nat)
    requires i < 8
    ensures ByteBit(a ^ b, i) == (ByteBit(a, i) != ByteBit(b, i))
  {
    XorMask(a, b, Mask(i));
  }

  lemma XorMask(a: bv8, b: bv8, m: bv8)
    requires m & (m - 1) == 0
    ensures ((a ^ b) & m != 0) == ((a & m != 0) != (b & m != 0))
  {
    XorDistributes(a, b, m);
    SingleBit(a, m);
    SingleBit(b, m);
  }

  lemma XorDistributes(a: bv8, b: bv8, m: bv8)
    ensures (a ^ b) & m == (a & m) ^ (b & m)
  {}

  lemma SingleBit(a: bv8, m: bv8)
    requires m & (m - 1) == 0
    ensures a & m == 0 || a & m == m
  {}

  lemma ZeroByteBits(i: nat)
    requires i < 8
    ensures !ByteBit(0, i)
  {}

  /** The first differing bit decides the order of two bytes. */
  lemma ByteOrder(a: bv8, b: bv8, n: nat)
    requires n < 8
    requires forall i: nat :: i < n ==> ByteBit(a, i) == ByteBit(b, i)
    requires ByteBit(a, n) != ByteBit(b, n)
    ensures (a < b) == !ByteBit(a, n)
    ensures a != b
  {
    HighBits(a, b, n);
    MaskOrder(a, b, Mask(n));
  }

  /** Clearing all bits from `n` downwards makes the two bytes equal. */
  lemma {:induction false} HighBits(a: bv8, b: bv8, n: nat)
    requires n < 8
    requires forall i: nat :: i < n ==> ByteBit(a, i) == ByteBit(b, i)
    ensures a & !(Mask(n) | (Mask(n) - 1)) == b & !(Mask(n) | (Mask(n) - 1))
  {
    if n > 0 {
      HighBits(a, b, n - 1);
      assert ByteBit(a, n - 1) == ByteBit(b, n - 1);
      OneMoreBit(a, b, Mask(n - 1), Mask(n));
    }
  }

  lemma OneMoreBit(a: bv8, b: bv8, m: bv8, m': bv8)
    requires m & (m - 1) == 0 && m == m' << 1 && m' != 0
    requires a & !(m | (m - 1)) == b & !(m | (m - 1))
    requires (a & m != 0) == (b & m != 0)
    ensures a & !(m' | (m' - 1)) == b & !(m' | (m' - 1))
  {}

  lemma MaskOrder(a: bv8, b: bv8, m: bv8)
    requires m & (m - 1) == 0
    requires a & !(m | (m - 1)) == b & !(m | (m - 1))
    requires (a & m != 0) != (b & m != 0)
    ensures (a < b) == (a & m == 0)
  {}

  function Xor(a: ID, b: ID): (c: ID)
    requires |a| <= |b|
    ensures |c| == |a|
    ensures forall i :: 0 <= i < |a| ==> c[i] == a[i] ^ b[i]
  {
    seq(|a|, i requires 0 <= i < |a| => a[i] ^ b[i])
  }

  /** `xor`: fills a fresh slice byte by byte. */
  method XorBytes(a: ID, b: ID) returns (c: ID)
    requires |a| <= |b|
    ensures c == Xor(a, b)
  {
    c := [];
    for i := 0 to |a|
      invariant |c| == i
      invariant forall j :: 0 <= j < i ==> c[j] == a[j] ^ b[j]
    {
      c := c + [a[i] ^ b[i]];
    }
  }

  /** `zeroPrefixLen`: scans bytes, then counts the leading zeros of the first non-zero one. */
  method ZeroPrefixLen(id: ID) returns (n: nat)
    ensures n <= 8 * |id|
    ensures forall i: nat :: i < n ==> !Bit(id, i)
    ensures n < 8 * |id| ==> Bit(id, n)
  {
    for i := 0 to |id|
      invariant forall j :: 0 <= j < i ==> id[j] == 0
    {
      if id[i] != 0 {
        n := i * 8 + LeadingZeros8(id[i]);
        ZeroPrefixBits(id, i, n);
        return;
      }
    }
    ZeroPrefixBits(id, |id|, 8 * |id|);
    return |id| * 8;
  }

  lemma ZeroPrefixBits(id: ID, k: nat, n: nat)
    requires k <= |id| && forall j :: 0 <= j < k ==> id[j] == 0
    requires if k < |id| then id[k] != 0 && n == 8 * k + LeadingZeros8(id[k]) else n == 8 * k
    ensures n <= 8 * |id|
    ensures forall i: nat :: i < n ==> !Bit(id, i)
    ensures n < 8 * |id| ==> Bit(id, n)
  {
    forall i: nat | i < n
      ensures !Bit(id, i)
    {
      if i / 8 < k {
        ZeroByteBits(i % 8);
      } else {
        LeadingZerosBits(id[k], i % 8);
      }
    }
    if n < 8 * |id| {
      LeadingZerosBits(id[k], n - 8 * k);
    }
  }

  /** Common-prefix length as the source computes it equals the bitwise reference. */
  method CommonPrefixLen(a: ID, b: ID) returns (n: nat)
    requires |a| == |b|
    ensures n == Cpl(a, b)
  {
    var c := XorBytes(a, b);
    n := ZeroPrefixLen(c);
    XorBits(a, b);
    CplUnique(a, b, n);
  }

  lemma XorBits(a: ID, b: ID)
    requires |a| == |b|
    ensures forall i: nat :: i < 8 * |a| ==> Bit(Xor(a, b), i) == (Bit(a, i) != Bit(b, i))
  {
    forall i: nat | i < 8 * |a|
      ensures Bit(Xor(a, b), i) == (Bit(a, i) != Bit(b, i))
    {
      XorByteBit(a[i / 8], b[i / 8], i % 8);
    }
  }

  // ----- order -----

  /** `ID.less`: bytes.Compare(x, y) < 0. */
  predicate Less(x: ID, y: ID) {
    y != [] && (x == [] || x[0] < y[0] || (x[0] == y[0] && Less(x[1..], y[1..])))
  }

  lemma {:induction false} LessTransitive(x: ID, y: ID, z: ID)
    requires Less(x, y) && Less(y, z)
    ensures Less(x, z)
  {
    if x != [] && x[0] == y[0] == z[0] {
      LessTransitive(x[1..], y[1..], z[1..]);
    }
  }

  lemma {:induction false} LessTotal(x: ID, y: ID)
    ensures Less(x, y) || Less(y, x) || x == y
    ensures !(Less(x, y) && Less(y, x))
    ensures !Less(x, x)
  {
    if x != [] {
      LessTotal(x[1..], x[1..]);
    }
    if x != [] && y != [] && x[0] == y[0] {
      LessTotal(x[1..], y[1..]);
      assert x == [x[0]] + x[1..] && y == [y[0]] + y[1..];
    }
  }

  /** `!Less` is transitive too: the order is a strict weak one. */
  lemma NotLessTransitive(x: ID, y: ID, z: ID)
    requires !Less(y, x) && !Less(z, y)
    ensures !Less(z, x)
  {
    LessTotal(x, y);
    LessTotal(y, z);
    LessTotal(x, z);
    if Less(x, y) && Less(y, z) { LessTransitive(x, y, z); }
  }

  /** Byte order of equally long strings is decided by their first differing bit. */
  lemma {:induction false} LessByBit(x: ID, y: ID)
    requires |x| == |y|
    ensures Less(x, y) <==> Cpl(x, y) < 8 * |x| && !Bit(x, Cpl(x, y))
  {
    var n := Cpl(x, y);
    CplSpec(x, y);
    if x != [] {
      var x', y' := x[1..], y[1..];
      if n < 8 {
        assert forall i: nat :: i < 8 ==> Bit(x, i) == ByteBit(x[0], i) && Bit(y, i) == ByteBit(y[0], i);
        ByteOrder(x[0], y[0], n);
      } else {
        SameFirstByte(x, y);
        assert forall i: nat :: i < 8 * |x'| ==> Bit(x', i) == Bit(x, i + 8) && Bit(y', i) == Bit(y, i + 8);
        CplUnique(x', y', n - 8);
        LessByBit(x', y');
      }
    }
  }

  lemma SameFirstByte(x: ID, y: ID)
    requires |x| == |y| > 0 && Agree(x, y, 8)
    ensures x[0] == y[0]
  {
    assert forall i: nat :: i < 8 ==> Bit(x, i) == ByteBit(x[0], i) && Bit(y, i) == ByteBit(y[0], i);
    SameBits(x[0], y[0]);
  }

  lemma SameBits(a: bv8, b: bv8)
    requires forall i: nat :: i < 8 ==> ByteBit(a, i) == ByteBit(b, i)
    ensures a == b
  {
    assert ByteBit(a, 0) == ByteBit(b, 0);
    assert ByteBit(a, 1) == ByteBit(b, 1);
    assert ByteBit(a, 2) == ByteBit(b, 2);
    assert ByteBit(a, 3) == ByteBit(b, 3);
    assert ByteBit(a, 4) == ByteBit(b, 4);
    assert ByteBit(a, 5) == ByteBit(b, 5);
    assert ByteBit(a, 6) == ByteBit(b, 6);
    assert ByteBit(a, 7) == ByteBit(b, 7);
  }

  /** `a` is strictly nearer to `target` than `b` is. */
  predicate Nearer(target: ID, a: ID, b: ID)
    requires |target| == |a| == |b|
  {
    Less(Xor(target, a), Xor(target, b))
  }

  /** Meaning of the metric: at the first bit where `a` and `b` differ, the nearer one has the target's bit. */
  lemma NearerByBit(target: ID, a: ID, b: ID)
    requires |target| == |a| == |b|
    ensures Nearer(target, a, b) <==> Cpl(a, b) < 8 * |a| && Bit(a, Cpl(a, b)) == Bit(target, Cpl(a, b))
  {
    var x, y := Xor(target, a), Xor(target, b);
    XorBits(target, a);
    XorBits(target, b);
    CplSpec(a, b);
    CplUnique(x, y, Cpl(a, b));
    LessByBit(x, y);
  }

  // ----- common prefixes of three identifiers -----

  /** Of the three pairwise common prefixes the two shortest are equal. */
  lemma Ultrametric(a: ID, b: ID, c: ID)
    requires |a| == |b| == |c|
    ensures Cpl(a, b) == Cpl(b, a)
    ensures Cpl(a, b) < Cpl(b, c) ==> Cpl(a, c) == Cpl(a, b)
    ensures Cpl(a, b) == Cpl(b, c) < 8 * |a| ==> Cpl(a, c) > Cpl(a, b)
  {
    CplSpec(a, b);
    CplSpec(b, c);
    CplUnique(b, a, Cpl(a, b));
    if Cpl(a, b) < Cpl(b, c) {
      CplUnique(a, c, Cpl(a, b));
    } else if Cpl(a, b) == Cpl(b, c) < 8 * |a| {
      var n := Cpl(a, b);
      assert Bit(a, n) == Bit(c, n);
      CplSpec(a, c);
    }
  }

  /** A longer prefix in common with the target means nearer. */
  lemma LongerPrefixIsNearer(target: ID, a: ID, b: ID)
    requires |target| == |a| == |b|
    requires Cpl(a, target) > Cpl(b, target)
    ensures Nearer(target, a, b) && !Nearer(target, b, a)
  {
    Ultrametric(b, target, a);
    Ultrametric(a, target, target);
    Ultrametric(a, b, b);
    assert Cpl(target, a) == Cpl(a, target) by { Ultrametric(target, a, a); }
    assert Cpl(b, a) == Cpl(b, target);
    CplSpec(target, a);
    CplSpec(b, target);
    NearerByBit(target, a, b);
    NearerByBit(target, b, a);
  }
}
