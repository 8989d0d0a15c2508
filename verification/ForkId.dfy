/** Fork identifiers (EIP-2124): construction from a list of fork blocks and validation of a remote identifier. */
module ForkId {
  import opened Basics

  const MAX_UINT64: nat := 0xffff_ffff_ffff_ffff

  type Block = x: nat | x <= MAX_UINT64

  // ----- fork lists -----

  ghost predicate Strict(s: seq<Block>) {
    forall i, j :: 0 <= i < j < |s| ==> s[i] < s[j]
  }

  ghost predicate Sorted(s: seq<Block>) {
    forall i, j :: 0 <= i < j < |s| ==> s[i] <= s[j]
  }

  /** A strictly increasing list is determined by its elements. */
  lemma {:induction false} StrictUnique(a: seq<Block>, b: seq<Block>)
    requires Strict(a) && Strict(b) && Elems(a) == Elems(b)
    ensures a == b
    decreases |a|
  {
    assert a != [] ==> a[0] in Elems(a);
    assert b != [] ==> b[0] in Elems(b);
    if a != [] {
      var n, m := |a| - 1, |b| - 1;
      assert a[n] in Elems(a) && b[m] in Elems(b);
      assert a[n] in b && b[m] in a;
      assert a[n] == b[m];
      assert Elems(a[..n]) == Elems(a) - {a[n]};
      assert Elems(b[..m]) == Elems(b) - {b[m]};
      StrictUnique(a[..n], b[..m]);
    }
  }

  /** The cleaned list: the non-zero fork blocks, each once, in increasing order. */
  ghost predicate Cleaned(forks: seq<Block>, clean: seq<Block>) {
    Strict(clean) && Elems(clean) == Elems(forks) - {0}
  }

  // ----- cleaning, in place -----

  function Smaller(): Order<Block> {
    (x: Block, y: Block) => x < y
  }

  lemma SmallerIsWeakOrder()
    ensures WeakOrder(Smaller())
  {}

  /** The library sort of a slice of length `n`: an increasing permutation. */
  method SortSlice(a: array<Block>, n: nat)
    requires n <= a.Length
    modifies a
    ensures Sorted(a[..n]) && multiset(a[..n]) == multiset(old(a[..n])) && a[n..] == old(a[n..])
  {
    for i := 0 to n
      invariant AscendingTo(Smaller(), a[..n], i)
      invariant multiset(a[..n]) == multiset(old(a[..n])) && a[n..] == old(a[n..])
    {
      Sink(a, i, n);
    }
    AscendingIsSorted(a[..n]);
  }

  lemma AscendingIsSorted(s: seq<Block>)
    requires Ascending(Smaller(), s)
    ensures Sorted(s)
  {
    forall i, j | 0 <= i < j < |s|
      ensures s[i] <= s[j]
    {
      assert NotBefore(Smaller(), s, i, j);
    }
  }

  method Sink(a: array<Block>, i: nat, n: nat)
    requires i < n <= a.Length && AscendingTo(Smaller(), a[..n], i)
    modifies a
    ensures AscendingTo(Smaller(), a[..n], i + 1)
    ensures multiset(a[..n]) == multiset(old(a[..n])) && a[n..] == old(a[n..])
  {
    var j := i;
    ghost var s := a[..n];
    SmallerIsWeakOrder();
    while j > 0 && a[j] < a[j - 1]
      invariant 0 <= j <= i && a[..n] == s && a[n..] == old(a[n..])
      invariant AscendingBut(Smaller(), s, i + 1, j) && multiset(s) == multiset(old(a[..n]))
    {
      assert s[j] == a[j] && s[j - 1] == a[j - 1];
      SinkStep(Smaller(), s, i + 1, j);
      a[j - 1], a[j] := a[j], a[j - 1];
      s := Swapped(s, j - 1, j);
      assert a[..n] == s;
      j := j - 1;
    }
    assert s[j] == a[j] && (j > 0 ==> s[j - 1] == a[j - 1]);
    SinkEnd(Smaller(), s, i + 1, j);
  }

  /** How many elements the cleaned slice is taken from: an empty slice is
      extended by the first element of its spare capacity. */
  function Taken(n: nat): nat { if n == 0 then 1 else n }

  /** `cleanForks` on the slice of the first `n` elements: sorts it, drops
      repeats by compacting it, and skips a leading zero; the result is the
      slice from `lo` to `hi`.  An empty slice without capacity is not sliced. */
  method CleanForks(forks: array<Block>, n: nat) returns (lo: nat, hi: nat)
    requires n <= forks.Length && 1 <= forks.Length
    modifies forks
    ensures lo <= hi <= forks.Length
    ensures Cleaned(old(forks[..Taken(n)]), forks[lo..hi])
    ensures Cleaned(old(forks[..n]), forks[lo..hi]) <==> n > 0 || old(forks[0]) == 0
  {
    var m := Taken(n);
    SortSlice(forks, n);
    SameElems(forks[..m], old(forks[..m]));
    hi := Compact(forks, m);
    lo := SkipZero(forks, hi);
    if n == 0 {
      assert old(forks[..0]) == [] && old(forks[..1]) == [old(forks[0])];
      EmptyForks(old(forks[0]), forks[lo..hi]);
    }
  }

  lemma EmptyForks(x: Block, clean: seq<Block>)
    requires Cleaned([x], clean)
    ensures Cleaned([], clean) <==> x == 0
  {
    assert x in Elems([x]);
    assert Elems<Block>([]) == {};
    assert x != 0 ==> x in Elems(clean);
  }

  /** The loop that skips the genesis block. */
  method SkipZero(forks: array<Block>, hi: nat) returns (lo: nat)
    requires hi <= forks.Length && Strict(forks[..hi])
    ensures lo <= hi && Strict(forks[lo..hi]) && Elems(forks[lo..hi]) == Elems(forks[..hi]) - {0}
  {
    ghost var s := forks[..hi];
    lo := 0;
    while lo < hi && forks[lo] == 0
      invariant lo <= hi && forall k :: 0 <= k < lo ==> s[k] == 0
    {
      lo := lo + 1;
    }
    assert forks[lo..hi] == s[lo..];
    AfterZeros(s, lo);
  }

  lemma AfterZeros(s: seq<Block>, lo: nat)
    requires Strict(s) && lo <= |s| && (forall k :: 0 <= k < lo ==> s[k] == 0) && (lo < |s| ==> s[lo] != 0)
    ensures Strict(s[lo..]) && Elems(s[lo..]) == Elems(s) - {0}
  {
    assert s == s[..lo] + s[lo..];
    assert forall k :: lo <= k < |s| ==> s[k] != 0;
    assert forall k :: 0 <= k < |s[lo..]| ==> s[lo..][k] == s[lo + k];
  }

  /** The loop removing repeated items; the kept ones end up in front. */
  method Compact(forks: array<Block>, n: nat) returns (j: nat)
    requires 1 <= n <= forks.Length && Sorted(forks[..n])
    modifies forks
    ensures 1 <= j <= n
    ensures Strict(forks[..j]) && Elems(forks[..j]) == Elems(old(forks[..n]))
  {
    ghost var s := forks[..n];
    j := 1;
    assert Elems(forks[..1]) == Elems(s[..1]);
    for i := 1 to n
      invariant 1 <= j <= i
      invariant forall k :: i - 1 <= k < n ==> forks[k] == s[k]
      invariant forks[j - 1] == s[i - 1]
      invariant Strict(forks[..j]) && Elems(forks[..j]) == Elems(s[..i])
    {
      ghost var kept := forks[..j];
      CompactStep(s, i, kept);
      if forks[i] != forks[i - 1] {
        forks[j] := forks[i];
        assert forks[..j + 1] == kept + [s[i]];
        j := j + 1;
      }
    }
    assert s[..n] == s;
  }

  /** `kept` has the distinct elements of the first `i`; the next one is new exactly if it differs from the last. */
  lemma CompactStep(s: seq<Block>, i: nat, kept: seq<Block>)
    requires Sorted(s) && 1 <= i < |s| && kept != [] && kept[|kept| - 1] == s[i - 1]
    requires Strict(kept) && Elems(kept) == Elems(s[..i])
    ensures if s[i] != s[i - 1] then Strict(kept + [s[i]]) && Elems(kept + [s[i]]) == Elems(s[..i + 1])
            else Elems(kept) == Elems(s[..i + 1])
  {
    assert s[..i + 1] == s[..i] + [s[i]];
    assert Elems(s[..i + 1]) == Elems(s[..i]) + {s[i]};
    if s[i] != s[i - 1] {
      assert Elems(kept + [s[i]]) == Elems(kept) + {s[i]};
    } else {
      assert s[i - 1] == s[..i][i - 1];
    }
  }

  // ----- checksums -----

  /** CRC-32: the checksum of a byte string, and the one of a string continued
      by another; the arithmetic is not modelled. */
  datatype Crc = Crc(checksum: Bytes -> Uint32, update: (Uint32, Bytes) -> Uint32) {
    /** Continuing a checksum gives the checksum of the whole. */
    ghost predicate Valid() {
      forall a: Bytes, b: Bytes :: update(checksum(a), b) == checksum(a + b)
    }
  }

  /** `crc32Checksum.Add` */
  function Add(crc: Crc, h: Uint32, fork: Block): Uint32 {
    crc.update(h, BigEndian(fork, 8))
  }

  /** `crc32Checksum.Hash` */
  function Blob(h: Uint32): Bytes {
    BigEndian(h, 4)
  }

  function Chain(crc: Crc, genesis: Bytes, forks: seq<Block>): Uint32 {
    if forks == [] then crc.checksum(genesis)
    else Add(crc, Chain(crc, genesis, forks[..|forks| - 1]), forks[|forks| - 1])
  }

  /** The four-byte checksum of a genesis and a list of passed forks. */
  function SumOf(crc: Crc, genesis: Bytes, forks: seq<Block>): Bytes {
    Blob(Chain(crc, genesis, forks))
  }

  /** The fork hash's input in EIP-2124: the genesis hash followed by the passed
      fork blocks, each as eight bytes, most significant first. */
  ghost predicate IsInput(genesis: Bytes, forks: seq<Block>, b: Bytes) {
    && |b| == |genesis| + 8 * |forks| && b[..|genesis|] == genesis
    && forall i :: 0 <= i < |forks| ==> Value(b[|genesis| + 8 * i..|genesis| + 8 * i + 8]) == forks[i]
  }

  function Input(genesis: Bytes, forks: seq<Block>): (b: Bytes)
    ensures |b| == |genesis| + 8 * |forks|
  {
    if forks == [] then genesis else Input(genesis, forks[..|forks| - 1]) + BigEndian(forks[|forks| - 1], 8)
  }

  lemma {:induction false} InputIs(genesis: Bytes, forks: seq<Block>)
    ensures IsInput(genesis, forks, Input(genesis, forks))
  {
    if forks != [] {
      var n := |forks| - 1;
      var b, b', g := Input(genesis, forks), Input(genesis, forks[..n]), |genesis|;
      InputIs(genesis, forks[..n]);
      assert b[..g] == b'[..g];
      Powers();
      BigEndianValue(forks[n], 8);
      forall i | 0 <= i < |forks|
        ensures Value(b[g + 8 * i..g + 8 * i + 8]) == forks[i]
      {
        if i < n {
          assert b[g + 8 * i..g + 8 * i + 8] == b'[g + 8 * i..g + 8 * i + 8];
        } else {
          assert b[g + 8 * n..g + 8 * n + 8] == BigEndian(forks[n], 8);
        }
      }
    }
  }

  lemma {:induction false} ChainIsChecksum(crc: Crc, genesis: Bytes, forks: seq<Block>)
    requires crc.Valid()
    ensures Chain(crc, genesis, forks) == crc.checksum(Input(genesis, forks))
  {
    if forks != [] {
      ChainIsChecksum(crc, genesis, forks[..|forks| - 1]);
    }
  }

  /** The checksum computed fork by fork is EIP-2124's fork hash: the four bytes
      of the CRC-32 of the genesis followed by the forks. */
  lemma ForkHash(crc: Crc, genesis: Bytes, forks: seq<Block>)
    requires crc.Valid()
    ensures |SumOf(crc, genesis, forks)| == 4
    ensures Value(SumOf(crc, genesis, forks)) == crc.checksum(Input(genesis, forks))
    ensures IsInput(genesis, forks, Input(genesis, forks))
  {
    ChainIsChecksum(crc, genesis, forks);
    InputIs(genesis, forks);
    Powers();
    BigEndianValue(Chain(crc, genesis, forks), 4);
  }

  datatype Checksum = Checksum(number: Block, sum: Bytes)
  datatype ID = ID(hash: Bytes, next: Block)

  /** Forks with the sentinel at infinity. */
  function Extended(forks: seq<Block>): seq<Block> {
    forks + [MAX_UINT64]
  }

  function Sums(crc: Crc, genesis: Bytes, forks: seq<Block>): (r: seq<Checksum>)
    ensures |r| == |forks| + 2
    ensures r[0] == Checksum(0, SumOf(crc, genesis, []))
    ensures forall i :: 1 <= i < |r| ==> r[i] == Checksum(Extended(forks)[i - 1], SumOf(crc, genesis,
        Extended(forks)[..i]))
  {
    seq(|forks| + 2, i requires 0 <= i < |forks| + 2 =>
      Checksum(if i == 0 then 0 else Extended(forks)[i - 1], SumOf(crc, genesis, Extended(forks)[..i])))
  }

  method NewForkID(crc: Crc, genesis: Bytes, forks: array<Block>, n: nat)
    returns (sums: seq<Checksum>, ghost clean: seq<Block>)
    requires n <= forks.Length && 1 <= forks.Length
    modifies forks
    ensures Cleaned(old(forks[..Taken(n)]), clean)
    ensures sums == Sums(crc, genesis, clean)
  {
    var lo, hi := CleanForks(forks, n);
    clean := forks[lo..hi];
    sums := BuildSums(crc, genesis, forks[lo..hi]);
  }

  /** The loop over the cleaned forks, and the sentinel. */
  method BuildSums(crc: Crc, genesis: Bytes, clean: seq<Block>) returns (sums: seq<Checksum>)
    ensures sums == Sums(crc, genesis, clean)
  {
    var builder := crc.checksum(genesis);
    sums := [Checksum(0, Blob(builder))];
    for i := 0 to |clean|
      invariant builder == Chain(crc, genesis, clean[..i])
      invariant sums == Sums(crc, genesis, clean)[..i + 1]
    {
      SumsStep(crc, genesis, clean, i);
      builder := Add(crc, builder, clean[i]);
      sums := sums + [Checksum(clean[i], Blob(builder))];
    }
    SumsStep(crc, genesis, clean, |clean|);
    builder := Add(crc, builder, MAX_UINT64);
    sums := sums + [Checksum(MAX_UINT64, Blob(builder))];
    assert Sums(crc, genesis, clean)[..|clean| + 2] == Sums(crc, genesis, clean);
  }

  lemma SumsStep(crc: Crc, genesis: Bytes, forks: seq<Block>, n: nat)
    requires n <= |forks|
    ensures var ext, h := Extended(forks), Chain(crc, genesis, forks[..n]);
      && Chain(crc, genesis, ext[..n + 1]) == Add(crc, h, ext[n])
      && (n < |forks| ==> ext[..n + 1] == forks[..n + 1])
      && Sums(crc, genesis, forks)[..n + 2]
         == Sums(crc, genesis, forks)[..n + 1] + [Checksum(ext[n], Blob(Add(crc, h, ext[n])))]
  {
    var ext := Extended(forks);
    assert ext[..n + 1][..n] == forks[..n];
  }

  // ----- passed and upcoming forks -----

  /** The forks at or below a block: the longest such prefix. */
  function Passed(forks: seq<Block>, head: Block): (r: seq<Block>)
    ensures r <= forks
  {
    if forks == [] || forks[0] > head then [] else [forks[0]] + Passed(forks[1..], head)
  }

  function NextFork(forks: seq<Block>, head: Block): Block {
    if |Passed(forks, head)| < |forks| then forks[|Passed(forks, head)|] else MAX_UINT64
  }

  lemma {:induction false} PassedFacts(forks: seq<Block>, head: Block)
    requires Strict(forks)
    ensures forall i :: 0 <= i < |forks| ==> (forks[i] <= head <==> i < |Passed(forks, head)|)
  {
    if forks != [] && forks[0] <= head {
      PassedFacts(forks[1..], head);
      assert forks == [forks[0]] + forks[1..];
    }
  }

  /** `findForkAt` on the checksums of a fork list: the number of passed forks. */
  method FindForkAt(f: seq<Checksum>, block: Block) returns (i: int)
    requires forall a, b :: 0 <= a < b < |f| ==> f[a].number <= f[b].number
    ensures -1 <= i < |f|
    ensures forall k :: 0 <= k < |f| ==> (f[k].number <= block <==> k <= i)
  {
    var lo, hi := 0, |f|;
    while lo < hi
      invariant 0 <= lo <= hi <= |f|
      invariant forall k :: 0 <= k < lo ==> f[k].number <= block
      invariant forall k :: hi <= k < |f| ==> f[k].number > block
    {
      var mid := (lo + hi) / 2;
      if f[mid].number > block { hi := mid; } else { lo := mid + 1; }
    }
    return lo - 1;
  }

  lemma SumsOrdered(crc: Crc, genesis: Bytes, forks: seq<Block>)
    requires Strict(forks)
    ensures var f := Sums(crc, genesis, forks); forall a, b :: 0 <= a < b < |f| ==> f[a].number <= f[b].number
  {}

  /** The forks reached at a block, counting the sentinel. */
  function Reached(forks: seq<Block>, head: Block): seq<Block> {
    if head < MAX_UINT64 then Passed(forks, head) else Extended(forks)
  }

  lemma ReachedIsPrefix(forks: seq<Block>, head: Block)
    ensures Reached(forks, head) <= Extended(forks)
  {}

  /** Where the search ends is determined by the forks reached. */
  lemma IndexIsReached(crc: Crc, genesis: Bytes, forks: seq<Block>, head: Block, i: int)
    requires Strict(forks)
    requires var f := Sums(crc, genesis, forks);
      -1 <= i < |f| && forall k :: 0 <= k < |f| ==> (f[k].number <= head <==> k <= i)
    ensures i == |Reached(forks, head)|
  {
    var f, n := Sums(crc, genesis, forks), |Reached(forks, head)|;
    if head < MAX_UINT64 {
      IndexIsPassed(crc, genesis, forks, head, i);
    } else {
      assert f[n].number <= head;
    }
  }

  lemma IndexIsPassed(crc: Crc, genesis: Bytes, forks: seq<Block>, head: Block, i: int)
    requires Strict(forks) && head < MAX_UINT64
    requires var f := Sums(crc, genesis, forks);
      -1 <= i < |f| && forall k :: 0 <= k < |f| ==> (f[k].number <= head <==> k <= i)
    ensures i == |Passed(forks, head)|
  {
    PassedFacts(forks, head);
    var f, n := Sums(crc, genesis, forks), |Passed(forks, head)|;
    assert f[0].number <= head;
    assert f[n].number <= head;
    assert f[n + 1].number > head;
  }

  /** The identifier at a block names exactly the passed forks and the first one not passed. */
  method At(f: seq<Checksum>, block: Block, ghost crc: Crc, ghost genesis: Bytes, ghost forks: seq<Block>)
    returns (id: ID)
    requires block < MAX_UINT64
    requires Strict(forks) && f == Sums(crc, genesis, forks)
    ensures id == ID(SumOf(crc, genesis, Passed(forks, block)), NextFork(forks, block))
  {
    SumsOrdered(crc, genesis, forks);
    var i := FindForkAt(f, block);
    IndexIsPassed(crc, genesis, forks, block, i);
    PassedFacts(forks, block);
    assert Extended(forks)[..i] == Passed(forks, block);
    id := ID(f[i].sum, f[i + 1].number);
  }

  // ----- validation -----

  datatype Verdict = Accept | RemoteStale | LocalIncompatibleOrStale

  /** First position from `lo` on, below `hi`, with this checksum; `hi` if none. */
  function FirstMatch(f: seq<Checksum>, id: Bytes, lo: nat, hi: nat): (k: nat)
    requires lo <= hi <= |f|
    ensures lo <= k <= hi
    ensures k < hi ==> f[k].sum == id
    ensures forall i :: lo <= i < k ==> f[i].sum != id
    decreases hi - lo
  {
    if lo == hi || f[lo].sum == id then lo else FirstMatch(f, id, lo + 1, hi)
  }

  /** The code's decision, from checksums alone. */
  function Judge(f: seq<Checksum>, at: nat, head: Block, id: Bytes, next: Block): Verdict
    requires at < |f|
  {
    if f[at].sum == id then
      if next > 0 && head >= next then LocalIncompatibleOrStale else Accept
    else
      var k := FirstMatch(f, id, 0, at);
      if k < at then (if next != f[k + 1].number then RemoteStale else Accept)
      else if FirstMatch(f, id, at, |f|) < |f| then Accept
      else LocalIncompatibleOrStale
  }

  method Validate(f: seq<Checksum>, head: Block, id: Bytes, next: Block, ghost crc: Crc,
      ghost genesis: Bytes, ghost forks: seq<Block>)
    returns (v: Verdict)
    requires crc.Valid() && Strict(forks) && f == Sums(crc, genesis, forks)
    ensures v == Judge(f, |Reached(forks, head)|, head, id, next)
    ensures forall other: Bytes, passed: seq<Block> ::
      SumOf(crc, other, passed) == id && NoCollision(crc, genesis, forks, other, passed) ==>
        v == if other == genesis then EipVerdict(forks, head, passed, next) else LocalIncompatibleOrStale
  {
    SumsOrdered(crc, genesis, forks);
    var at := FindForkAt(f, head);
    IndexIsReached(crc, genesis, forks, head, at);
    v := Scan(f, at, head, id, next);
    forall other: Bytes, passed: seq<Block> |
      SumOf(crc, other, passed) == id && NoCollision(crc, genesis, forks, other, passed)
      ensures v == if other == genesis then EipVerdict(forks, head, passed, next) else LocalIncompatibleOrStale
    {
      if other == genesis {
        JudgeIsEip(crc, genesis, forks, head, passed, next);
      } else {
        ForeignRejected(crc, genesis, forks, head, other, passed, next);
      }
    }
  }

  /** The two scans of Validate. */
  method Scan(f: seq<Checksum>, at: nat, head: Block, id: Bytes, next: Block) returns (v: Verdict)
    requires at < |f|
    ensures v == Judge(f, at, head, id, next)
  {
    if f[at].sum == id {
      if next > 0 && head >= next {
        return LocalIncompatibleOrStale;
      }
      return Accept;
    }
    for i := 0 to at
      invariant FirstMatch(f, id, 0, at) >= i
    {
      if f[i].sum == id {
        if next != f[i + 1].number {
          return RemoteStale;
        }
        return Accept;
      }
    }
    for i := at to |f|
      invariant FirstMatch(f, id, at, |f|) >= i
    {
      if f[i].sum == id {
        return Accept;
      }
    }
    return LocalIncompatibleOrStale;
  }

  /** CRC-32 tells the inputs of two histories apart. */
  predicate TellsApart(crc: Crc, genesis: Bytes, a: seq<Block>, other: Bytes, b: seq<Block>) {
    crc.checksum(Input(genesis, a)) == crc.checksum(Input(other, b)) ==> genesis == other && a == b
  }

  /** The remote's history, over its genesis `other`, is told apart from the prefixes of the local one. */
  ghost predicate NoCollision(crc: Crc, genesis: Bytes, forks: seq<Block>, other: Bytes, passed: seq<Block>) {
    forall i :: 0 <= i <= |forks| + 1 ==> TellsApart(crc, genesis, Extended(forks)[..i], other, passed)
  }

  /** The validation rules of EIP-2124, over lists of forks: `passed` and
      `next` are the remote's passed forks and its next one.  A remote that
      has passed the sentinel is treated as being ahead. */
  function EipVerdict(forks: seq<Block>, head: Block, passed: seq<Block>, next: Block): Verdict {
    var mine := Reached(forks, head);
    if passed == mine then (if 0 < next <= head then LocalIncompatibleOrStale else Accept)
    else if passed < mine then (if next == mine[|passed|] then Accept else RemoteStale)
    else if mine < passed && passed <= Extended(forks) then Accept
    else LocalIncompatibleOrStale
  }

  /** Deciding by checksums is deciding by fork lists. */
  lemma JudgeIsEip(crc: Crc, genesis: Bytes, forks: seq<Block>, head: Block, passed: seq<Block>, next: Block)
    requires crc.Valid() && Strict(forks) && NoCollision(crc, genesis, forks, genesis, passed)
    ensures Judge(Sums(crc, genesis, forks), |Reached(forks, head)|, head, SumOf(crc, genesis, passed), next)
         == EipVerdict(forks, head, passed, next)
  {
    var f, id := Sums(crc, genesis, forks), SumOf(crc, genesis, passed);
    ReachedIsPrefix(forks, head);
    MatchIsPrefix(crc, genesis, forks, genesis, passed);
    if passed <= Extended(forks) {
      MatchesAt(crc, genesis, forks, passed);
      JudgeOneMatch(f, |Reached(forks, head)|, head, id, next, |passed|);
      EipByLength(forks, head, passed, next);
    } else {
      JudgeNoMatch(f, |Reached(forks, head)|, head, id, next);
    }
  }

  lemma MatchesAt(crc: Crc, genesis: Bytes, forks: seq<Block>, passed: seq<Block>)
    requires crc.Valid() && NoCollision(crc, genesis, forks, genesis, passed) && passed <= Extended(forks)
    ensures forall i :: 0 <= i < |forks| + 2 ==>
      (Sums(crc, genesis, forks)[i].sum == SumOf(crc, genesis, passed) <==> i == |passed|)
  {
    MatchIsPrefix(crc, genesis, forks, genesis, passed);
    assert passed == Extended(forks)[..|passed|];
    forall i | 0 <= i < |forks| + 2
      ensures Sums(crc, genesis, forks)[i].sum == SumOf(crc, genesis, passed) <==> i == |passed|
    {
      assert |Extended(forks)[..i]| == i;
    }
  }

  /** The rules of EIP-2124 for a remote that has passed a prefix of the local forks: only its length matters. */
  lemma EipByLength(forks: seq<Block>, head: Block, passed: seq<Block>, next: Block)
    requires passed <= Extended(forks)
    ensures var n := |Reached(forks, head)|;
      EipVerdict(forks, head, passed, next) ==
      if |passed| == n then (if next > 0 && head >= next then LocalIncompatibleOrStale else Accept)
      else if |passed| < n then (if next != Extended(forks)[|passed|] then RemoteStale else Accept)
      else Accept
  {
    var mine := Reached(forks, head);
    ReachedIsPrefix(forks, head);
    PrefixByLength(Extended(forks), passed, mine);
    PrefixByLength(Extended(forks), mine, passed);
  }

  /** The decision when the remote checksum does not occur. */
  lemma JudgeNoMatch(f: seq<Checksum>, at: nat, head: Block, id: Bytes, next: Block)
    requires at < |f| && forall i :: 0 <= i < |f| ==> f[i].sum != id
    ensures Judge(f, at, head, id, next) == LocalIncompatibleOrStale
  {}

  lemma PrefixByLength(s: seq<Block>, a: seq<Block>, b: seq<Block>)
    requires a <= s && b <= s
    ensures a == b <==> |a| == |b|
    ensures a < b <==> |a| < |b|
  {
    assert a == s[..|a|] && b == s[..|b|];
  }

  /** The decision when the remote checksum occurs at exactly one position. */
  lemma JudgeOneMatch(f: seq<Checksum>, at: nat, head: Block, id: Bytes, next: Block, k: nat)
    requires at < |f| && k < |f| && forall i :: 0 <= i < |f| ==> (f[i].sum == id <==> i == k)
    ensures Judge(f, at, head, id, next) ==
      if k == at then (if next > 0 && head >= next then LocalIncompatibleOrStale else Accept)
      else if k < at then (if next != f[k + 1].number then RemoteStale else Accept)
      else Accept
  {
    assert f[k].sum == id;
  }

  /** The checksum found at position `i` is the remote's exactly when the remote
      has the same genesis and has passed the first `i` forks. */
  lemma MatchIsPrefix(crc: Crc, genesis: Bytes, forks: seq<Block>, other: Bytes, passed: seq<Block>)
    requires crc.Valid() && NoCollision(crc, genesis, forks, other, passed)
    ensures forall i :: 0 <= i < |forks| + 2 ==>
      (Sums(crc, genesis, forks)[i].sum == SumOf(crc, other, passed) <==>
       genesis == other && passed == Extended(forks)[..i])
  {
    var f, ext := Sums(crc, genesis, forks), Extended(forks);
    ForkHash(crc, other, passed);
    forall i | 0 <= i < |f|
      ensures f[i].sum == SumOf(crc, other, passed) <==> genesis == other && passed == ext[..i]
    {
      assert ext[..0] == [];
      ForkHash(crc, genesis, ext[..i]);
      assert f[i].sum == SumOf(crc, genesis, ext[..i]) && TellsApart(crc, genesis, ext[..i], other, passed);
    }
  }

  /** An identifier of another genesis is rejected at every head, whatever its forks and its next one. */
  lemma ForeignRejected(crc: Crc, genesis: Bytes, forks: seq<Block>, head: Block, other: Bytes, passed: seq<Block>,
      next: Block)
    requires crc.Valid() && Strict(forks) && other != genesis && NoCollision(crc, genesis, forks, other, passed)
    ensures Judge(Sums(crc, genesis, forks), |Reached(forks, head)|, head, SumOf(crc, other, passed), next)
         == LocalIncompatibleOrStale
  {
    ReachedIsPrefix(forks, head);
    MatchIsPrefix(crc, genesis, forks, other, passed);
    JudgeNoMatch(Sums(crc, genesis, forks), |Reached(forks, head)|, head, SumOf(crc, other, passed), next);
  }

  // ----- what it means for two nodes -----

  /** Two nodes over one genesis exchange identifiers: `forks` and `head` are
      the local ones, `remote` and `remoteHead` the other side's.  The local
      side accepts exactly in the three cases of the specification. */
  lemma AcceptsIff(crc: Crc, genesis: Bytes, forks: seq<Block>, head: Block, remote: seq<Block>, remoteHead: Block)
    requires Strict(forks) && Strict(remote) && head < MAX_UINT64 && remoteHead < MAX_UINT64
    requires forall i :: 0 <= i < |remote| ==> remote[i] > 0
    requires crc.Valid() && NoCollision(crc, genesis, forks, genesis, Passed(remote, remoteHead))
    ensures var mine, theirs, next := Passed(forks, head), Passed(remote, remoteHead), NextFork(remote, remoteHead);
      Judge(Sums(crc, genesis, forks), |mine|, head, SumOf(crc, genesis, theirs), next) == Accept <==>
        || (theirs == mine && next > head)
        || (theirs < mine && next == forks[|theirs|])
        || (mine < theirs && theirs <= forks)
  {
    var theirs, next := Passed(remote, remoteHead), NextFork(remote, remoteHead);
    JudgeIsEip(crc, genesis, forks, head, theirs, next);
    AcceptCases(forks, head, remote, remoteHead);
  }

  /** The same on fork lists. */
  lemma AcceptCases(forks: seq<Block>, head: Block, remote: seq<Block>, remoteHead: Block)
    requires Strict(forks) && Strict(remote) && head < MAX_UINT64 && remoteHead < MAX_UINT64
    requires forall i :: 0 <= i < |remote| ==> remote[i] > 0
    ensures var mine, theirs, next := Passed(forks, head), Passed(remote, remoteHead), NextFork(remote, remoteHead);
      EipVerdict(forks, head, theirs, next) == Accept <==>
        || (theirs == mine && next > head)
        || (theirs < mine && next == forks[|theirs|])
        || (mine < theirs && theirs <= forks)
  {
    var theirs := Passed(remote, remoteHead);
    PassedFacts(remote, remoteHead);
    assert forall i :: 0 <= i < |theirs| ==> theirs[i] == remote[i];
    WithoutSentinel(forks, theirs);
  }

  lemma WithoutSentinel(forks: seq<Block>, passed: seq<Block>)
    requires forall i :: 0 <= i < |passed| ==> passed[i] < MAX_UINT64
    ensures passed <= Extended(forks) <==> passed <= forks
  {
    var ext := Extended(forks);
    assert ext[|forks|] == MAX_UINT64;
    assert forall i :: 0 <= i < |forks| ==> ext[i] == forks[i];
  }

  /** Nodes with the same forks accept each other whatever their heads. */
  lemma SameForksAccept(crc: Crc, genesis: Bytes, forks: seq<Block>, head: Block, remoteHead: Block)
    requires Strict(forks) && head < MAX_UINT64 && remoteHead < MAX_UINT64
    requires forall i :: 0 <= i < |forks| ==> forks[i] > 0
    requires crc.Valid() && NoCollision(crc, genesis, forks, genesis, Passed(forks, remoteHead))
    ensures Judge(Sums(crc, genesis, forks), |Passed(forks, head)|, head,
                  SumOf(crc, genesis, Passed(forks, remoteHead)), NextFork(forks, remoteHead)) == Accept
  {
    AcceptsIff(crc, genesis, forks, head, forks, remoteHead);
    PassedFacts(forks, head);
    PassedFacts(forks, remoteHead);
  }
}
