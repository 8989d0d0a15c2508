/** RLPx frames ("Framing" in the RLPx transport specification) as values:
    what `write` emits and what `read` makes of a byte stream. */
module Framing {
  import opened Basics

  type Block = s: Bytes | |s| == 16 witness seq(16, _ => 0)
  type Digest = s: Bytes | |s| == 32 witness seq(32, _ => 0)

  const MAX_UINT24: nat := 0xff_ffff

  /** The session's secrets and libraries: an indexed keystream with the
      operation that applies it, the running hash behind the MAC as a function
      of everything absorbed, the MAC's block cipher, and snappy. */
  datatype Crypto = Crypto(
    xor: (Byte, Byte) -> Byte,
    keystream: nat -> Byte,
    sum: Bytes -> Digest,
    encrypt: Block -> Block,
    compress: Bytes -> Bytes,
    decompress: Bytes -> Option<Bytes>)
  {
    /** All that is used of XOR and of snappy: applying a keystream byte twice is the identity, and
        compression is lossless. */
    ghost predicate Valid() {
      && (forall a: Byte, k: Byte :: xor(xor(a, k), k) == a)
      && (forall b: Bytes :: decompress(compress(b)) == Some(b))
    }
  }

  // ----- cipher and MAC -----

  /** XORKeyStream from position `pos`. */
  function Mask(c: Crypto, pos: nat, b: Bytes): (r: Bytes)
    ensures |r| == |b|
  {
    seq(|b|, i requires 0 <= i < |b| => c.xor(b[i], c.keystream(pos + i)))
  }

  lemma MaskTwice(c: Crypto, pos: nat, b: Bytes)
    requires c.Valid()
    ensures Mask(c, pos, Mask(c, pos, b)) == b
  {}

  lemma MaskConcat(c: Crypto, pos: nat, a: Bytes, b: Bytes)
    ensures Mask(c, pos, a + b) == Mask(c, pos, a) + Mask(c, pos + |a|, b)
  {}

  /** updateMacImpl: what is absorbed in addition; the MAC is the hash's first half after that. */
  function MacSeed(c: Crypto, src: Digest, seed: Bytes): Bytes
    requires |seed| >= 16
  {
    var e := c.encrypt(src[..16]);
    seq(16, i requires 0 <= i < 16 => c.xor(e[i], seed[i]))
  }

  function AfterHeader(c: Crypto, mac: Bytes, header: Bytes): Bytes
    requires |header| >= 16
  {
    mac + MacSeed(c, c.sum(mac), header)
  }

  function AfterBody(c: Crypto, mac: Bytes): Bytes {
    mac + MacSeed(c, c.sum(mac), c.sum(mac))
  }

  function Tag(c: Crypto, mac: Bytes): Bytes {
    c.sum(mac)[..16]
  }

  // ----- sizes and codes -----

  function Put24(n: nat): (b: Bytes)
    requires n <= MAX_UINT24
    ensures |b| == 3
  {
    [n / 65536, n / 256 % 256, n % 256]
  }

  function Get24(b: Bytes): nat
    requires |b| >= 3
  {
    var hi: nat, mid: nat, lo: nat := b[0], b[1], b[2];
    lo + 256 * mid + 65536 * hi
  }

  lemma SizeRoundTrip(n: nat, rest: Bytes)
    requires n <= MAX_UINT24
    ensures Get24(Put24(n) + rest) == n
  {}

  /** The content length rounded up to full blocks. */
  function Padded(n: nat): nat {
    if n % 16 > 0 then n + (16 - n % 16) else n
  }

  function Width(n: Uint64): (w: nat)
    ensures 1 <= w <= 8
  {
    if n < 0x100 then 1 else if n < 0x1_0000 then 2 else if n < 0x100_0000 then 3 else if n < 0x1_0000_0000 then 4
    else if n < 0x100_0000_0000 then 5 else if n < 0x1_0000_0000_0000 then 6
        else if n < 0x100_0000_0000_0000 then 7 else 8
  }

  /** The RLP encoding of a message code. */
  function EncodeCode(code: Uint64): Bytes {
    if code == 0 then [0x80] else if code < 0x80 then [code] else [0x80 + Width(code)] + BigEndian(code, Width(code))
  }

  /** RLP's rule for a string of at most 55 bytes: a single byte below 0x80
      stands for itself, anything else follows its length. */
  ghost predicate IsRlpString(x: Bytes, data: Bytes) {
    if |data| == 1 && data[0] < 0x80 then x == data
    else |data| <= 55 && |x| == 1 + |data| && x[0] == 0x80 + |data| && x[1..] == data
  }

  /** RLP's rule for a number: the string of its shortest big-endian form, which is empty for 0. */
  ghost predicate IsRlp(x: Bytes, n: nat) {
    exists data :: Shortest(data, n) && IsRlpString(x, data)
  }

  function ShortestForm(n: Uint64): Bytes {
    if n == 0 then [] else BigEndian(n, Width(n))
  }

  lemma WidthIs(n: Uint64)
    requires n > 0
    ensures Power(Width(n) - 1) <= n < Power(Width(n))
  {
    Powers();
    assert Power(0) == 1;
  }

  lemma OneByte(n: nat)
    requires n < 0x100
    ensures BigEndian(n, 1) == [n]
  {
    assert BigEndian(n / 256, 0) == [];
  }

  lemma ShortestFormIs(n: Uint64)
    ensures Shortest(ShortestForm(n), n) && |ShortestForm(n)| <= 8
  {
    if n > 0 {
      WidthIs(n);
      BigEndianShortest(n, Width(n));
    }
  }

  lemma EncodesForm(code: Uint64)
    ensures IsRlpString(EncodeCode(code), ShortestForm(code))
  {
    var x, form := EncodeCode(code), ShortestForm(code);
    if 0 < code < 0x100 {
      OneByte(code);
    }
    if code >= 0x80 {
      assert x[1..] == form;
    }
  }

  lemma OneRlpString(x: Bytes, y: Bytes, data: Bytes)
    requires IsRlpString(x, data) && IsRlpString(y, data)
    ensures x == y
  {
    if |x| == 1 + |data| {
      assert x == [x[0]] + x[1..] && y == [y[0]] + y[1..];
    }
  }

  /** A code is written as its RLP encoding, the only one it has. */
  lemma CodeIsRlp(code: Uint64, x: Bytes)
    ensures IsRlp(x, code) <==> x == EncodeCode(code)
  {
    ShortestFormIs(code);
    EncodesForm(code);
    forall data | Shortest(data, code) && IsRlpString(x, data)
      ensures x == EncodeCode(code)
    {
      ShortestUnique(data, ShortestForm(code), code);
      OneRlpString(x, EncodeCode(code), data);
    }
  }

  datatype Error = Eof | HeaderMac | PayloadMac | IncorrectLength | CodeTooBig | Snappy | EmptyFrame

  datatype CodeResult = Code(code: Uint64, rest: Bytes) | BadCode(error: Error)

  /** `readCode`; an empty frame makes the source index out of range. */
  function DecodeCode(b: Bytes): CodeResult {
    if b == [] then BadCode(EmptyFrame)
    else if b[0] < 0x80 then Code(b[0], b[1..])
    else if b[0] < 0xB8 then
      var size := b[0] - 0x80;
      if size > |b| then BadCode(IncorrectLength)
      else if size == 0 then Code(0, b[1..])
      else BadCode(CodeTooBig)
    else BadCode(CodeTooBig)
  }

  /** The reader recovers a written code exactly when it is below 0x80. */
  lemma CodeRoundTrip(code: Uint64, rest: Bytes)
    ensures DecodeCode(EncodeCode(code) + rest) == if code < 0x80 then Code(code, rest) else BadCode(CodeTooBig)
  {
    assert code < 0x80 ==> (EncodeCode(code) + rest)[1..] == rest;
  }

  /** The reader takes a first byte below 0x80 as the code and 0x80 as code 0; what it makes of every other content. */
  lemma DecodesIff(b: Bytes, code: Uint64, rest: Bytes)
    ensures DecodeCode(b) == Code(code, rest) <==>
      (code < 0x80 && b == [code] + rest) || (code == 0 && b == [0x80] + rest)
    ensures DecodeCode(b) == BadCode(EmptyFrame) <==> b == []
    ensures DecodeCode(b) == BadCode(IncorrectLength) <==> b != [] && 0x80 + |b| < b[0] < 0xB8
    ensures DecodeCode(b) == BadCode(CodeTooBig) <==> b != [] && (0x81 <= b[0] <= 0x80 + |b| || 0xB8 <= b[0])
  {
    if b != [] {
      assert b == [b[0]] + b[1..];
      assert forall x: Byte :: b == [x] + rest ==> b[0] == x && b[1..] == rest;
    }
  }

  // ----- one frame -----

  /** Position in the keystream and bytes absorbed by the MAC. */
  datatype Link = Link(pos: nat, mac: Bytes)

  /** The writing half; `header` is what its header buffer still holds. */
  datatype Sender = Sender(link: Link, header: Block)

  function Content(c: Crypto, snappy: bool, code: Uint64, payload: Bytes): (r: Bytes)
    ensures |r| >= 1
  {
    EncodeCode(code) + if snappy then c.compress(payload) else payload
  }

  predicate Fits(c: Crypto, snappy: bool, code: Uint64, payload: Bytes) {
    |Content(c, snappy, code, payload)| <= MAX_UINT24
  }

  /** The header before encryption: bytes 6 to 15 are left over from the previous frame. */
  function PlainHeader(s: Sender, size: nat): Block
    requires size <= MAX_UINT24
  {
    Put24(size) + [0xC0, 0x80, 0x80] + s.header[6..]
  }

  function Zeros(n: nat): Bytes { seq(n, _ => 0) }

  function HeaderBytes(c: Crypto, s: Sender, size: nat): Block
    requires size <= MAX_UINT24
  {
    Mask(c, s.link.pos, PlainHeader(s, size))
  }

  /** The encrypted content, padded to full blocks. */
  function BodyBytes(c: Crypto, pos: nat, content: Bytes): (r: Bytes)
    ensures |r| == Padded(|content|)
  {
    Mask(c, pos, content + Zeros(Padded(|content|) - |content|))
  }

  datatype Frame = Frame(header: Block, headerTag: Bytes, body: Bytes, bodyTag: Bytes, link: Link)

  function Build(c: Crypto, s: Sender, content: Bytes): (f: Frame)
    requires |content| <= MAX_UINT24
    ensures |f.body| == Padded(|content|) && |f.headerTag| == |f.bodyTag| == 16
  {
    var header := HeaderBytes(c, s, |content|);
    var mac1 := AfterHeader(c, s.link.mac, header);
    var body := BodyBytes(c, s.link.pos + 16, content);
    var mac2 := AfterBody(c, mac1 + body);
    Frame(header, Tag(c, mac1), body, Tag(c, mac2), Link(s.link.pos + 16 + |body|, mac2))
  }

  function Emitted(f: Frame): Bytes {
    f.header + f.headerTag + f.body + f.bodyTag
  }

  // ----- the layout of a frame -----

  ghost predicate Enciphers(c: Crypto, pos: nat, plain: Bytes, x: Bytes) {
    |x| == |plain| && forall i :: 0 <= i < |x| ==> x[i] == c.xor(plain[i], c.keystream(pos + i))
  }

  /** The size in three bytes, RLP's empty list and two empty strings, and what was there before. */
  ghost predicate IsHeader(size: nat, before: Block, plain: Block) {
    && Value(plain[..3]) == size
    && plain[3] == 0xC0 && plain[4] == 0x80 && plain[5] == 0x80
    && forall i :: 6 <= i < 16 ==> plain[i] == before[i]
  }

  ghost predicate IsBody(content: Bytes, plain: Bytes) {
    && |plain| % 16 == 0 && |content| <= |plain| < |content| + 16 && content <= plain
    && forall i :: |content| <= i < |plain| ==> plain[i] == 0
  }

  /** The MAC absorbs 16 bytes: the enciphered first half of its hash, combined with the first half of `seed`. */
  ghost predicate Absorbs(c: Crypto, mac: Bytes, seed: Bytes, mac': Bytes)
    requires |seed| >= 16
  {
    && |mac'| == |mac| + 16 && mac <= mac'
    && forall i :: 0 <= i < 16 ==> mac'[|mac| + i] == c.xor(c.encrypt(c.sum(mac)[..16])[i], seed[i])
  }

  /** The header's tag is the first half of the hash once the enciphered header
      is absorbed. The body's is that once the body is, with the hash itself as seed. */
  ghost predicate IsTagged(c: Crypto, mac: Bytes, header: Block, tag: Bytes, body: Bytes, tag': Bytes, mac': Bytes) {
    exists m :: Absorbs(c, mac, header, m) && tag == c.sum(m)[..16]
      && Absorbs(c, m + body, c.sum(m + body), mac') && tag' == c.sum(mac')[..16]
  }

  ghost predicate HasHeader(c: Crypto, s: Sender, size: nat, x: Bytes) {
    exists plain: Block :: IsHeader(size, s.header, plain) && Enciphers(c, s.link.pos, plain, x)
  }

  ghost predicate HasBody(c: Crypto, pos: nat, content: Bytes, x: Bytes) {
    exists plain :: IsBody(content, plain) && Enciphers(c, pos, plain, x)
  }

  /** A frame on the wire: header and tag, body and tag; and the link state after it. */
  ghost predicate IsFrame(c: Crypto, s: Sender, content: Bytes, f: Frame) {
    && HasHeader(c, s, |content|, f.header) && HasBody(c, s.link.pos + 16, content, f.body)
    && IsTagged(c, s.link.mac, f.header, f.headerTag, f.body, f.bodyTag, f.link.mac)
    && f.link.pos == s.link.pos + 16 + |f.body|
  }

  /** The layout of a frame on the wire, byte by byte. */
  lemma FrameLayout(c: Crypto, s: Sender, content: Bytes)
    requires |content| < 0x100_0000
    ensures var f := Build(c, s, content);
      IsFrame(c, s, content, f) && Emitted(f) == f.header + f.headerTag + f.body + f.bodyTag
  {
    var f := Build(c, s, content);
    HeaderLayout(c, s, |content|);
    BodyLayout(c, s.link.pos + 16, content);
    TagLayout(c, s.link.mac, f.header, f.body);
  }

  lemma HeaderLayout(c: Crypto, s: Sender, size: nat)
    requires size < 0x100_0000
    ensures HasHeader(c, s, size, HeaderBytes(c, s, size))
  {
    var plain := PlainHeader(s, size);
    SizeBytes(size);
    assert plain[..3] == Put24(size);
    assert IsHeader(size, s.header, plain);
    assert Enciphers(c, s.link.pos, plain, HeaderBytes(c, s, size));
  }

  lemma BodyLayout(c: Crypto, pos: nat, content: Bytes)
    ensures HasBody(c, pos, content, BodyBytes(c, pos, content))
  {
    var plain := content + Zeros(Padded(|content|) - |content|);
    PaddedIs(|content|);
    assert IsBody(content, plain) && Enciphers(c, pos, plain, BodyBytes(c, pos, content));
  }

  lemma TagLayout(c: Crypto, mac: Bytes, header: Block, body: Bytes)
    ensures var m := AfterHeader(c, mac, header); var m' := AfterBody(c, m + body);
      IsTagged(c, mac, header, Tag(c, m), body, Tag(c, m'), m')
  {
    var m := AfterHeader(c, mac, header);
    assert Absorbs(c, mac, header, m) && Absorbs(c, m + body, c.sum(m + body), AfterBody(c, m + body));
  }

  lemma SizeBytes(n: nat)
    requires n < 0x100_0000
    ensures Value(Put24(n)) == n
  {
    ThreeBytes(Put24(n));
  }

  lemma ThreeBytes(b: Bytes)
    requires |b| == 3
    ensures Value(b) == Get24(b)
  {
    assert b[..2][..1] == [b[0]] && b[..1][..0] == [];
    assert Value(b[..2][..1]) == b[0] && Value(b[..2]) == 256 * Value(b[..2][..1]) + b[1];
  }

  lemma PaddedIs(n: nat)
    ensures Padded(n) % 16 == 0 && n <= Padded(n) < n + 16
  {}

  /** What is framed: the code's RLP encoding, then the payload, compressed or not; and when it is. */
  lemma ContentIs(c: Crypto, snappy: bool, code: Uint64, payload: Bytes)
    ensures var packed := if snappy then c.compress(payload) else payload;
      exists t :: IsRlp(t, code) && Content(c, snappy, code, payload) == t + packed
    ensures Fits(c, snappy, code, payload) <==> |Content(c, snappy, code, payload)| < 0x100_0000
  {
    CodeIsRlp(code, EncodeCode(code));
  }

  datatype Read = Got(code: Uint64, payload: Bytes, link: Link, rest: Bytes) | Failed(error: Error)

  /** `read` on the bytes available. */
  function ReadFrame(c: Crypto, snappy: bool, l: Link, input: Bytes): Read {
    if |input| < 32 then Failed(Eof)
    else
      var mac := AfterHeader(c, l.mac, input[..16]);
      if Tag(c, mac) != input[16..32] then Failed(HeaderMac)
      else ReadBody(c, snappy, Link(l.pos + 16, mac), Get24(Mask(c, l.pos, input[..16])), input[32..])
  }

  /** The part of `read` after the header. */
  function ReadBody(c: Crypto, snappy: bool, l: Link, size: nat, input: Bytes): Read {
    var full := Padded(size);
    if |input| < full + 16 then Failed(Eof)
    else
      var mac := AfterBody(c, l.mac + input[..full]);
      if Tag(c, mac) != input[full..full + 16] then Failed(PayloadMac)
      else Open(c, snappy, Mask(c, l.pos, input[..full])[..size], Link(l.pos + full, mac), input[full + 16..])
  }

  /** Code and payload of a decrypted content. */
  function Open(c: Crypto, snappy: bool, content: Bytes, l: Link, rest: Bytes): Read {
    match DecodeCode(content)
    case BadCode(e) => Failed(e)
    case Code(code, data) =>
      if !snappy then Got(code, data, l, rest)
      else match c.decompress(data)
        case None => Failed(Snappy)
        case Some(payload) => Got(code, payload, l, rest)
  }

  /** Where reading a header leaves the reader and its input, whatever comes of
      it; running out of bytes consumes them. */
  function HeaderState(c: Crypto, l: Link, input: Bytes): (Link, Bytes) {
    if |input| < 32 then (l, [])
    else
      var mac := AfterHeader(c, l.mac, input[..16]);
      (Link(if Tag(c, mac) == input[16..32] then l.pos + 16 else l.pos, mac), input[32..])
  }

  function BodyState(c: Crypto, l: Link, size: nat, input: Bytes): (Link, Bytes) {
    var full := Padded(size);
    if |input| < full then (l, [])
    else if |input| < full + 16 then (Link(l.pos, l.mac + input[..full]), [])
    else
      var mac := AfterBody(c, l.mac + input[..full]);
      (Link(if Tag(c, mac) == input[full..full + 16] then l.pos + full else l.pos, mac), input[full + 16..])
  }

  function ReadState(c: Crypto, l: Link, input: Bytes): (Link, Bytes) {
    var (l', rest) := HeaderState(c, l, input);
    if |input| < 32 || Tag(c, l'.mac) != input[16..32] then (l', rest)
    else BodyState(c, l', Get24(Mask(c, l.pos, input[..16])), rest)
  }

  // ----- what a reader accepts -----

  /** The input starts with a frame of the right size and with the right tags for a reader at `l`. */
  ghost predicate Authentic(c: Crypto, l: Link, input: Bytes, f: Frame, plain: Block, rest: Bytes) {
    && Enciphers(c, l.pos, plain, f.header)
    && |f.body| % 16 == 0 && Value(plain[..3]) <= |f.body| < Value(plain[..3]) + 16
    && IsTagged(c, l.mac, f.header, f.headerTag, f.body, f.bodyTag, f.link.mac)
    && f.link.pos == l.pos + 16 + |f.body| && input == f.header + f.headerTag + f.body + f.bodyTag + rest
  }

  predicate Checked(r: Read) {
    r.Got? || r.error !in {Eof, HeaderMac, PayloadMac}
  }

  lemma TagsAre(c: Crypto, mac: Bytes, header: Block, tag: Bytes, body: Bytes, tag': Bytes, mac': Bytes)
    requires IsTagged(c, mac, header, tag, body, tag', mac')
    ensures var m := AfterHeader(c, mac, header);
      tag == Tag(c, m) && mac' == AfterBody(c, m + body) && tag' == Tag(c, mac')
  {
    var m :| Absorbs(c, mac, header, m) && tag == c.sum(m)[..16]
      && Absorbs(c, m + body, c.sum(m + body), mac') && tag' == c.sum(mac')[..16];
    assert m == AfterHeader(c, mac, header);
    assert mac' == AfterBody(c, m + body);
  }

  lemma SizeOf(c: Crypto, pos: nat, plain: Block, header: Block)
    requires c.Valid()
    ensures Enciphers(c, pos, plain, header) <==> plain == Mask(c, pos, header)
    ensures Get24(plain) == Value(plain[..3])
  {
    if plain == Mask(c, pos, header) {
      MaskTwice(c, pos, header);
    }
    assert Enciphers(c, pos, plain, header) ==> plain == Mask(c, pos, header);
    ThreeBytes(plain[..3]);
  }

  lemma SameSize(n: nat, full: nat)
    ensures full == Padded(n) <==> full % 16 == 0 && n <= full < n + 16
  {}

  lemma InParts(x: Bytes, n: nat)
    requires |x| >= 48 + n
    ensures var y := x[32..]; x == x[..16] + x[16..32] + y[..n] + y[n..n + 16] + y[n + 16..]
  {}

  /** A reader gets past the MAC checks only on input that starts with an
      authentic frame (and on every such input, `AuthenticIsChecked`), and then stands behind it. */
  lemma CheckedIsAuthentic(c: Crypto, snappy: bool, l: Link, input: Bytes)
    requires c.Valid() && Checked(ReadFrame(c, snappy, l, input))
    ensures exists f: Frame, plain: Block ::
      Authentic(c, l, input, f, plain, ReadState(c, l, input).1) && f.link == ReadState(c, l, input).0
  {
    var header: Block := input[..16];
    var plain: Block := Mask(c, l.pos, header);
    var full := Padded(Get24(plain));
    var body: Bytes := input[32..][..full];
    var (l', rest) := ReadState(c, l, input);
    var f := Frame(header, input[16..32], body, input[32..][full..full + 16], l');
    SizeOf(c, l.pos, plain, header);
    SameSize(Get24(plain), full);
    TagLayout(c, l.mac, header, body);
    InParts(input, full);
    assert Authentic(c, l, input, f, plain, rest);
  }

  lemma AuthenticIsChecked(c: Crypto, snappy: bool, l: Link, input: Bytes, f: Frame, plain: Block, rest: Bytes)
    requires c.Valid() && Authentic(c, l, input, f, plain, rest)
    ensures Checked(ReadFrame(c, snappy, l, input)) && ReadState(c, l, input) == (f.link, rest)
  {
    TagsAre(c, l.mac, f.header, f.headerTag, f.body, f.bodyTag, f.link.mac);
    SizeOf(c, l.pos, plain, f.header);
    SameSize(Get24(plain), |f.body|);
    var n := |f.body|;
    assert input[..16] == f.header && input[16..32] == f.headerTag && input[32..] == f.body + f.bodyTag + rest;
    assert input[32..][..n] == f.body && input[32..][n..n + 16] == f.bodyTag && input[32..][n + 16..] == rest;
  }

  lemma OpenContent(c: Crypto, snappy: bool, code: Uint64, payload: Bytes, l: Link, rest: Bytes)
    requires c.Valid()
    ensures Open(c, snappy, Content(c, snappy, code, payload), l, rest)
         == if code < 0x80 then Got(code, payload, l, rest) else Failed(CodeTooBig)
  {
    CodeRoundTrip(code, if snappy then c.compress(payload) else payload);
  }

  /** The pieces the reader cuts an emitted frame into. */
  lemma Pieces(f: Frame, rest: Bytes)
    requires |f.headerTag| == |f.bodyTag| == 16
    ensures var x := Emitted(f) + rest;
      |x| >= 32 && x[..16] == f.header && x[16..32] == f.headerTag && x[32..] == f.body + f.bodyTag + rest
  {}

  lemma HeaderSize(c: Crypto, s: Sender, size: nat)
    requires c.Valid() && size <= MAX_UINT24
    ensures Get24(Mask(c, s.link.pos, Mask(c, s.link.pos, PlainHeader(s, size)))) == size
  {
    MaskTwice(c, s.link.pos, PlainHeader(s, size));
    SizeRoundTrip(size, [0xC0, 0x80, 0x80] + s.header[6..]);
    assert PlainHeader(s, size) == Put24(size) + ([0xC0, 0x80, 0x80] + s.header[6..]);
  }

  /** One frame, whatever follows it: a reader at the same link state accepts
      both MACs, ends at the writer's new link state and at the end of the
      frame, and recovers code and payload exactly if the code is below 0x80. */
  lemma FrameRoundTrip(c: Crypto, snappy: bool, s: Sender, code: Uint64, payload: Bytes, rest: Bytes)
    requires c.Valid() && Fits(c, snappy, code, payload)
    ensures var f := Build(c, s, Content(c, snappy, code, payload));
      ReadFrame(c, snappy, s.link, Emitted(f) + rest)
      == if code < 0x80 then Got(code, payload, f.link, rest) else Failed(CodeTooBig)
  {
    var content := Content(c, snappy, code, payload);
    var f := Build(c, s, content);
    HeaderAccepted(c, snappy, s, content, f.body + f.bodyTag + rest);
    Pieces(f, rest);
    assert Emitted(f) + rest == f.header + f.headerTag + (f.body + f.bodyTag + rest);
    BodyAccepted(c, snappy, s, content, rest);
    OpenContent(c, snappy, code, payload, f.link, rest);
  }

  lemma HeaderAccepted(c: Crypto, snappy: bool, s: Sender, content: Bytes, rest: Bytes)
    requires c.Valid() && |content| <= MAX_UINT24
    ensures var f := Build(c, s, content);
      ReadFrame(c, snappy, s.link, f.header + f.headerTag + rest)
      == ReadBody(c, snappy, Link(s.link.pos + 16, AfterHeader(c, s.link.mac, f.header)), |content|, rest)
  {
    var f := Build(c, s, content);
    var x := f.header + f.headerTag + rest;
    assert x[..16] == f.header && x[16..32] == f.headerTag && x[32..] == rest;
    HeaderSize(c, s, |content|);
  }

  lemma BodyAccepted(c: Crypto, snappy: bool, s: Sender, content: Bytes, rest: Bytes)
    requires c.Valid() && |content| <= MAX_UINT24
    ensures var f := Build(c, s, content);
      ReadBody(c, snappy, Link(s.link.pos + 16, AfterHeader(c, s.link.mac, f.header)), |content|,
          f.body + f.bodyTag + rest)
      == Open(c, snappy, content, f.link, rest)
  {
    var f, n := Build(c, s, content), Padded(|content|);
    var x, pad := f.body + f.bodyTag + rest, Zeros(n - |content|);
    assert x[..n] == f.body && x[n..n + 16] == f.bodyTag && x[n + 16..] == rest;
    MaskTwice(c, s.link.pos + 16, content + pad);
    assert (content + pad)[..|content|] == content;
  }

  /** A frame whose code is rejected leaves the reader in step with the writer all the same. */
  lemma RejectedInStep(c: Crypto, s: Sender, content: Bytes, rest: Bytes)
    requires c.Valid() && |content| <= MAX_UINT24
    ensures var f := Build(c, s, content); ReadState(c, s.link, Emitted(f) + rest) == (f.link, rest)
  {
    var f := Build(c, s, content);
    var n, x := Padded(|content|), f.body + f.bodyTag + rest;
    Pieces(f, rest);
    HeaderSize(c, s, |content|);
    assert x[..n] == f.body && x[n..n + 16] == f.bodyTag && x[n + 16..] == rest;
  }

  /** A proper prefix of a frame is never mistaken for anything: the reader runs out of bytes. */
  lemma CutFrame(c: Crypto, snappy: bool, s: Sender, content: Bytes, cut: Bytes)
    requires c.Valid() && |content| <= MAX_UINT24
    requires cut < Emitted(Build(c, s, content))
    ensures ReadFrame(c, snappy, s.link, cut) == Failed(Eof)
  {
    var f := Build(c, s, content);
    if |cut| >= 32 {
      assert cut[..32] == Emitted(f)[..32] == f.header + f.headerTag;
      assert cut == f.header + f.headerTag + cut[32..];
      HeaderAccepted(c, snappy, s, content, cut[32..]);
    }
  }
}
