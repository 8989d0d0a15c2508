/** Sharing one session among protocols ("Capability Messaging" in the RLPx
    transport specification): code ranges, routing, and the byte queue of a stream. */
module Multiplex {
  import opened Basics
  import opened Framing
  import opened FrameRuns

  const UINT64: nat := 0x1_0000_0000_0000_0000
  const BASE_PROTOCOL_LENGTH: Uint64 := 16

  datatype Spec = Spec(name: string, version: nat, length: Uint64)
  datatype Cap = Cap(name: string, version: nat)

  /** The code range of a stream. */
  datatype Range = Range(offset: Uint64, length: Uint64, spec: Spec)

  // ----- negotiation -----

  predicate Offers(p: Spec, cap: Cap) {
    p.name == cap.name && p.version == cap.version
  }

  /** `getProtocol`: the first local protocol with this name and version. */
  function Protocol(backends: seq<Spec>, cap: Cap): Option<Spec> {
    if backends == [] then None
    else if Offers(backends[0], cap) then Some(backends[0])
    else Protocol(backends[1..], cap)
  }

  /** The answer is the first protocol that offers the capability; there is none exactly if no protocol does. */
  ghost predicate FirstOffer(backends: seq<Spec>, cap: Cap, p: Option<Spec>) {
    if p.None? then forall i :: 0 <= i < |backends| ==> !Offers(backends[i], cap)
    else
      && Offers(p.value, cap)
      && exists i :: 0 <= i < |backends| && p.value == backends[i] && NoOfferBefore(backends, cap, i)
  }

  ghost predicate NoOfferBefore(backends: seq<Spec>, cap: Cap, i: nat)
    requires i <= |backends|
  {
    forall j :: 0 <= j < i ==> !Offers(backends[j], cap)
  }

  lemma {:induction false} ProtocolIsFirst(backends: seq<Spec>, cap: Cap)
    ensures FirstOffer(backends, cap, Protocol(backends, cap))
  {
    if backends != [] {
      var p, rest := Protocol(backends, cap), backends[1..];
      assert forall j :: 0 <= j < |rest| ==> rest[j] == backends[j + 1];
      ProtocolIsFirst(rest, cap);
      if Offers(backends[0], cap) {
        assert p.value == backends[0] && NoOfferBefore(backends, cap, 0);
      } else if p.Some? {
        var i :| 0 <= i < |rest| && p.value == rest[i] && Offers(p.value, cap) && NoOfferBefore(rest, cap, i);
        assert forall j :: 1 <= j < i + 1 ==> backends[j] == rest[j - 1];
        assert p.value == backends[i + 1] && NoOfferBefore(backends, cap, i + 1);
      } else {
        assert forall i :: 1 <= i < |backends| ==> backends[i] == rest[i - 1];
      }
    }
  }

  /** The shared protocols, in the order of the remote's capabilities. */
  function Shared(backends: seq<Spec>, caps: seq<Cap>): seq<Spec> {
    if caps == [] then []
    else
      var p := Protocol(backends, caps[|caps| - 1]);
      Shared(backends, caps[..|caps| - 1]) + if p.Some? then [p.value] else []
  }

  predicate Picked(backends: seq<Spec>, caps: seq<Cap>, i: nat, p: Spec) {
    i < |caps| && Protocol(backends, caps[i]) == Some(p)
  }

  ghost predicate Increasing(pos: seq<nat>) {
    forall k, l :: 0 <= k < l < |pos| ==> pos[k] < pos[l]
  }

  /** Which capabilities the list comes from: those some protocol offers, each
      once, in the order of the capabilities. */
  ghost predicate PickedFrom(backends: seq<Spec>, caps: seq<Cap>, specs: seq<Spec>, pos: seq<nat>) {
    && |pos| == |specs| && Increasing(pos)
    && (forall k :: 0 <= k < |pos| ==> Picked(backends, caps, pos[k], specs[k]))
    && (forall i: nat, p :: Picked(backends, caps, i, p) ==> i in pos)
  }

  lemma {:induction false} SharedIsPicked(backends: seq<Spec>, caps: seq<Cap>) returns (pos: seq<nat>)
    ensures PickedFrom(backends, caps, Shared(backends, caps), pos)
  {
    pos := [];
    if caps != [] {
      var n := |caps| - 1;
      var init, specs := caps[..n], Shared(backends, caps[..n]);
      pos := SharedIsPicked(backends, init);
      assert caps == init + [caps[n]];
      var p := Protocol(backends, caps[n]);
      if p.Some? {
        PickOneMore(backends, init, caps[n], specs, pos, p.value);
        pos := pos + [n];
      } else {
        PickNoMore(backends, init, caps[n], specs, pos);
        assert specs + [] == specs;
      }
    }
  }

  lemma PickNoMore(backends: seq<Spec>, caps: seq<Cap>, cap: Cap, specs: seq<Spec>, pos: seq<nat>)
    requires PickedFrom(backends, caps, specs, pos) && Protocol(backends, cap) == None
    ensures PickedFrom(backends, caps + [cap], specs, pos)
  {
    var more := caps + [cap];
    forall k | 0 <= k < |pos|
      ensures Picked(backends, more, pos[k], specs[k])
    {
      assert Picked(backends, caps, pos[k], specs[k]);
    }
    forall i: nat, p | Picked(backends, more, i, p)
      ensures i in pos
    {
      assert Picked(backends, caps, i, p);
    }
  }

  lemma PickOneMore(backends: seq<Spec>, caps: seq<Cap>, cap: Cap, specs: seq<Spec>, pos: seq<nat>, p: Spec)
    requires PickedFrom(backends, caps, specs, pos) && Protocol(backends, cap) == Some(p)
    ensures PickedFrom(backends, caps + [cap], specs + [p], pos + [|caps|])
  {
    var more, specs', pos' := caps + [cap], specs + [p], pos + [|caps|];
    forall k | 0 <= k < |pos'|
      ensures Picked(backends, more, pos'[k], specs'[k])
    {
      if k < |pos| { assert Picked(backends, caps, pos[k], specs[k]); }
    }
    forall k, l | 0 <= k < l < |pos'|
      ensures pos'[k] < pos'[l]
    {
      assert Picked(backends, caps, pos[k], specs[k]);
    }
    forall i: nat, q | Picked(backends, more, i, q)
      ensures i in pos'
    {
      if i < |caps| { assert Picked(backends, caps, i, q); } else { assert pos'[|pos|] == i; }
    }
  }

  /** Sum of lengths, without overflow. */
  function Total(specs: seq<Spec>): nat {
    if specs == [] then 0 else Total(specs[..|specs| - 1]) + specs[|specs| - 1].length
  }

  function Start(specs: seq<Spec>): Uint64 {
    (BASE_PROTOCOL_LENGTH + Total(specs)) % UINT64
  }

  /** The ranges negotiation lays out one after the other; offsets wrap like uint64. */
  function Layout(specs: seq<Spec>): (r: seq<Range>)
    ensures |r| == |specs|
  {
    if specs == [] then []
    else
      var init := specs[..|specs| - 1];
      Layout(init) + [Range(Start(init), specs[|specs| - 1].length, specs[|specs| - 1])]
  }

  method GetProtocol(backends: seq<Spec>, cap: Cap) returns (p: Option<Spec>)
    ensures p == Protocol(backends, cap) && FirstOffer(backends, cap, p)
  {
    ProtocolIsFirst(backends, cap);
    for i := 0 to |backends|
      invariant Protocol(backends, cap) == Protocol(backends[i..], cap)
    {
      assert backends[i..][0] == backends[i] && backends[i..][1..] == backends[i + 1..];
      if Offers(backends[i], cap) {
        return Some(backends[i]);
      }
    }
    return None;
  }

  method NegotiateProtocols(backends: seq<Spec>, caps: seq<Cap>) returns (streams: seq<Range>, ok: bool)
    ensures streams == Layout(Shared(backends, caps))
    ensures ok <==> Shared(backends, caps) != []
  {
    var offset: Uint64 := BASE_PROTOCOL_LENGTH;
    streams := [];
    ghost var shared: seq<Spec> := [];
    for i := 0 to |caps|
      invariant shared == Shared(backends, caps[..i])
      invariant streams == Layout(shared) && offset == Start(shared)
    {
      SharedStep(backends, caps, i);
      var b := GetProtocol(backends, caps[i]);
      if b.Some? {
        streams, offset := OpenStream(streams, offset, b.value, shared);
        shared := shared + [b.value];
      }
    }
    assert caps[..|caps|] == caps;
    return streams, |streams| != 0;
  }

  /** `OpenStream`, and the offset after it. */
  method OpenStream(streams: seq<Range>, offset: Uint64, p: Spec, ghost shared: seq<Spec>)
    returns (streams': seq<Range>, offset': Uint64)
    requires streams == Layout(shared) && offset == Start(shared)
    ensures streams' == Layout(shared + [p]) && offset' == Start(shared + [p])
  {
    LayoutStep(shared, p);
    return streams + [Range(offset, p.length, p)], (offset + p.length) % UINT64;
  }

  lemma SharedStep(backends: seq<Spec>, caps: seq<Cap>, i: nat)
    requires i < |caps|
    ensures var p := Protocol(backends, caps[i]);
      Shared(backends, caps[..i + 1]) == if p.Some? then Shared(backends, caps[..i]) + [p.value]
          else Shared(backends, caps[..i])
  {
    assert caps[..i + 1][..i] == caps[..i];
  }

  lemma LayoutStep(specs: seq<Spec>, p: Spec)
    ensures Layout(specs + [p]) == Layout(specs) + [Range(Start(specs), p.length, p)]
    ensures Start(specs + [p]) == (Start(specs) + p.length) % UINT64
  {
    assert (specs + [p])[..|specs|] == specs;
    var a, b := BASE_PROTOCOL_LENGTH + Total(specs), p.length;
    assert (a + b) % UINT64 == (a % UINT64 + b) % UINT64;
  }

  // ----- ranges -----

  /** All codes of the session fit in 64 bits. */
  predicate NoOverflow(specs: seq<Spec>) {
    BASE_PROTOCOL_LENGTH + Total(specs) < UINT64
  }

  /** The ranges are consecutive, starting after the base protocol. */
  lemma {:induction false} Consecutive(specs: seq<Spec>, i: nat)
    requires NoOverflow(specs) && i < |specs|
    ensures var r := Layout(specs);
      && r[i].offset == 16 + Total(specs[..i]) && r[i].length == specs[i].length
      && r[i].spec == specs[i]
      && r[i].offset + r[i].length <= BASE_PROTOCOL_LENGTH + Total(specs)
      && (i + 1 < |specs| ==> r[i + 1].offset == r[i].offset + r[i].length)
  {
    var n := |specs| - 1;
    var init := specs[..n];
    if i < n {
      Consecutive(init, i);
      assert init[..i] == specs[..i];
      if i + 1 == n {
        assert Layout(specs)[n].offset == Start(init);
        assert specs[..i + 1] == init && init[..i] == specs[..i];
      }
    }
  }

  lemma {:induction false} LaterStartsAfter(specs: seq<Spec>, i: nat, j: nat)
    requires NoOverflow(specs) && i < j < |specs|
    ensures Layout(specs)[i].offset + Layout(specs)[i].length <= Layout(specs)[j].offset
    decreases j - i
  {
    Consecutive(specs, i);
    Consecutive(specs, j);
    if i + 1 < j {
      Consecutive(specs, i + 1);
      LaterStartsAfter(specs, i + 1, j);
    }
  }

  /** `getStream`'s test, in 64-bit arithmetic. */
  predicate Covers(r: Range, code: Uint64) {
    code >= r.offset && code < (r.offset + r.length) % UINT64
  }

  function Owner(streams: seq<Range>, code: Uint64): Option<nat> {
    OwnerFrom(streams, code, 0)
  }

  function OwnerFrom(streams: seq<Range>, code: Uint64, i: nat): (o: Option<nat>)
    requires i <= |streams|
    ensures o.Some? ==> i <= o.value < |streams| && Covers(streams[o.value], code)
    ensures o.Some? ==> forall k :: i <= k < o.value ==> !Covers(streams[k], code)
    ensures o.None? ==> forall k :: i <= k < |streams| ==> !Covers(streams[k], code)
    decreases |streams| - i
  {
    if i == |streams| then None else if Covers(streams[i], code) then Some(i) else OwnerFrom(streams, code, i + 1)
  }

  method GetStream(streams: seq<Range>, code: Uint64) returns (o: Option<nat>)
    ensures o == Owner(streams, code)
  {
    for i := 0 to |streams|
      invariant Owner(streams, code) == OwnerFrom(streams, code, i)
    {
      if Covers(streams[i], code) {
        return Some(i);
      }
    }
    return None;
  }

  /** A code has at most one owner. */
  lemma {:induction false} UniqueOwner(specs: seq<Spec>, code: Uint64, i: nat, j: nat)
    requires NoOverflow(specs) && i < j < |specs|
    ensures !(Covers(Layout(specs)[i], code) && Covers(Layout(specs)[j], code))
  {
    Consecutive(specs, i);
    Consecutive(specs, j);
    LaterStartsAfter(specs, i, j);
  }

  /** A message written on stream `i` as `code` arrives on stream `i` if and
      only if the code is one of the protocol's. */
  lemma {:induction false} RoutingInverts(specs: seq<Spec>, i: nat, code: Uint64)
    requires NoOverflow(specs) && i < |specs| && Layout(specs)[i].offset + code < UINT64
    ensures Owner(Layout(specs), Layout(specs)[i].offset + code) == Some(i) <==> code < specs[i].length
  {
    var r := Layout(specs);
    var sent := r[i].offset + code;
    Consecutive(specs, i);
    if code < specs[i].length {
      assert Covers(r[i], sent);
      var o := Owner(r, sent);
      if o.value < i {
        UniqueOwner(specs, sent, o.value, i);
      }
    }
  }

  /** The table determines the list of protocols it was laid out for. */
  lemma {:induction false} SameTable(a: seq<Spec>, b: seq<Spec>)
    ensures Layout(a) == Layout(b) <==> a == b
  {
    if Layout(a) == Layout(b) {
      assert |a| == |b|;
      if a != [] {
        var n := |a| - 1;
        LayoutInit(a);
        LayoutInit(b);
        SameTable(a[..n], b[..n]);
        assert a == a[..n] + [a[n]] && b == b[..n] + [b[n]];
      }
    }
  }

  lemma LayoutInit(a: seq<Spec>)
    requires a != []
    ensures Layout(a)[|a| - 1].spec == a[|a| - 1] && Layout(a)[..|a| - 1] == Layout(a[..|a| - 1])
  {}

  // ----- the byte queue of a stream -----

  const HEADER_SIZE: nat := 6
  const UINT16: nat := 0x1_0000
  const UINT32: nat := 0x1_0000_0000

  /** `Header.Encode` */
  function Head(code: nat, size: nat): (h: Bytes)
    requires code < UINT16 && size < UINT32
    ensures |h| == HEADER_SIZE
  {
    [code / 256, code % 256, size / 0x100_0000, size / 0x1_0000 % 256, size / 0x100 % 256, size % 256]
  }

  function MsgType(h: Bytes): nat
    requires |h| >= HEADER_SIZE
  {
    var hi: nat, lo: nat := h[0], h[1];
    256 * hi + lo
  }

  function Length(h: Bytes): nat
    requires |h| >= HEADER_SIZE
  {
    var a: nat, b: nat, c: nat, d: nat := h[2], h[3], h[4], h[5];
    0x100_0000 * a + 0x1_0000 * b + 0x100 * c + d
  }

  lemma HeadRoundTrip(code: nat, size: nat)
    requires code < UINT16 && size < UINT32
    ensures MsgType(Head(code, size)) == code && Length(Head(code, size)) == size
  {
    SplitBytes(size);
  }

  /** The code in two bytes and the size in four, most significant first. */
  lemma HeadLayout(code: nat, size: nat)
    requires code < 0x1_0000 && size < 0x1_0000_0000
    ensures var h := Head(code, size); |h| == 6 && Value(h[..2]) == code && Value(h[2..]) == size
  {
    var h := Head(code, size);
    SplitBytes(size);
    assert h[..2][..1] == [h[0]] && h[2..][..3][..2][..1] == [h[2]];
    assert h[2..][..3][..2] == [h[2], h[3]] && h[2..][..3] == [h[2], h[3], h[4]];
    assert Value([h[0]]) == h[0] && Value([h[2]]) == h[2];
    assert Value([h[2], h[3]]) == 256 * Value([h[2], h[3]][..1]) + h[3];
    assert Value(h[2..][..3]) == 256 * Value(h[2..][..3][..2]) + h[4];
  }

  lemma SplitBytes(n: nat)
    requires n < UINT32
    ensures n == 0x100_0000 * (n / 0x100_0000) + 0x1_0000 * (n / 0x1_0000 % 256) + 0x100 * (n / 0x100 % 256) + n % 256
  {
    assert n / 0x1_0000 == 256 * (n / 0x100_0000) + n / 0x1_0000 % 256;
    assert n / 0x100 == 256 * (n / 0x1_0000) + n / 0x100 % 256;
  }

  predicate Queueable(m: Message) {
    m.code < UINT16 && |m.payload| < UINT32
  }

  function Queued(m: Message): Bytes
    requires Queueable(m)
  {
    Head(m.code, |m.payload|) + m.payload
  }

  ghost predicate AllQueueable(msgs: seq<Message>) {
    forall i :: 0 <= i < |msgs| ==> Queueable(msgs[i])
  }

  function QueuedAll(msgs: seq<Message>): Bytes
    requires AllQueueable(msgs)
  {
    if msgs == [] then [] else Queued(msgs[0]) + QueuedAll(msgs[1..])
  }

  lemma {:induction false} QueueOneMore(msgs: seq<Message>, m: Message)
    requires AllQueueable(msgs) && Queueable(m)
    ensures QueuedAll(msgs + [m]) == QueuedAll(msgs) + Queued(m)
  {
    if msgs == [] {
      assert msgs + [m] == [m];
      assert QueuedAll([m]) == Queued(m) + QueuedAll([]);
    } else {
      assert (msgs + [m])[1..] == msgs[1..] + [m];
      QueueOneMore(msgs[1..], m);
    }
  }
}
