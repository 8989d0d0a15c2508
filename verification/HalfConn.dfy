/** `halfConn`: one direction of an RLPx session, with its reused buffers. */
module HalfConn {
  import opened Basics
  import opened Framing

  /** Writing `b` on a connection that takes `room` more bytes before it fails. */
  ghost predicate Sent(data: Bytes, room: nat, b: Bytes, data': Bytes, room': nat, ok: bool) {
    var n := Min(|b|, room);
    (ok <==> |b| <= room) && data' == data + b[..n] && room' == room - n
  }

  /** Two writes in a row are one write of both. */
  lemma SentBoth(d0: Bytes, r0: nat, x: Bytes, d1: Bytes, r1: nat, y: Bytes, d2: Bytes, r2: nat, ok: bool)
    requires Sent(d0, r0, x, d1, r1, true) && Sent(d1, r1, y, d2, r2, ok)
    ensures Sent(d0, r0, x + y, d2, r2, ok)
  {
    assert (x + y)[..Min(|x + y|, r0)] == x + y[..Min(|y|, r1)];
  }

  /** A write that failed fails as part of a longer one, in the same way. */
  lemma SentStops(d0: Bytes, r0: nat, x: Bytes, d1: Bytes, r1: nat, y: Bytes)
    requires Sent(d0, r0, x, d1, r1, false)
    ensures Sent(d0, r0, x + y, d1, r1, false)
  {
    assert (x + y)[..r0] == x[..r0];
  }

  /** A failed write leaves a proper prefix. */
  lemma SentCut(data: Bytes, room: nat, b: Bytes, data': Bytes, room': nat)
    requires Sent(data, room, b, data', room', false)
    ensures b[..room] < b && data' == data + b[..room] && room' == 0
  {}

  /** One direction of the connection: bytes written and not yet read, and how
      many more it takes before writing fails. */
  class Conn {
    var data: Bytes
    var room: nat

    constructor (room: nat)
      ensures data == [] && this.room == room
    {
      data := [];
      this.room := room;
    }

    method Write(b: Bytes) returns (ok: bool)
      modifies this
      ensures Sent(old(data), old(room), b, data, room, ok)
    {
      var n := Min(|b|, room);
      data := data + b[..n];
      room := room - n;
      ok := n == |b|;
    }
  }

  /** A slice of a buffer. */
  datatype Slice = Slice(arr: array<Byte>, lo: nat, hi: nat)

  ghost predicate Within(s: Slice) {
    s.lo <= s.hi <= s.arr.Length
  }

  datatype Result = Written | TooLarge | ConnFailed

  datatype Outcome = Msg(code: Uint64, content: Slice) | Err(error: Error)

  class HalfConn {
    const c: Crypto
    const conn: Conn
    const header: array<Byte>
    var snappy: bool
    var buf: array<Byte>
    var tmp: array<Byte>
    /** Keystream position, and everything the MAC has absorbed. */
    var pos: nat
    var mac: Bytes

    ghost predicate Valid()
      reads this
    {
      header.Length == 32 && buf != header && tmp != header && tmp != buf
    }

    ghost function SenderState(): Sender
      reads this, header
      requires Valid()
    {
      Sender(Link(pos, mac), header[..16])
    }

    /** `seed` is what the handshake left absorbed in the MAC. */
    constructor (c: Crypto, conn: Conn, seed: Bytes)
      ensures Valid() && fresh(header) && fresh(buf) && fresh(tmp) && this.c == c && this.conn == conn
      ensures !snappy && SenderState() == Sender(Link(0, seed), Zeros(16))
    {
      this.c := c;
      this.conn := conn;
      header := new Byte[32](_ => 0);
      buf := new Byte[0];
      tmp := new Byte[0];
      snappy, pos, mac := false, 0, seed;
    }

    /** XORKeyStream over the first `n` bytes of a buffer, in place. */
    method XorKeyStream(b: array<Byte>, n: nat)
      requires n <= b.Length
      modifies b, this`pos
      ensures b[..n] == Mask(c, old(pos), old(b[..n])) && b[n..] == old(b[n..])
      ensures pos == old(pos) + n
    {
      for i := 0 to n
        modifies b
        invariant forall k :: 0 <= k < i ==> b[k] == c.xor(old(b[k]), c.keystream(pos + k))
        invariant forall k :: i <= k < b.Length ==> b[k] == old(b[k])
      {
        b[i] := c.xor(b[i], c.keystream(pos + i));
      }
      pos := pos + n;
    }

    /** updateMacImpl */
    method UpdateMac(src: Digest, seed: Bytes) returns (tag: Bytes)
      requires |seed| >= 16
      modifies this`mac
      ensures mac == old(mac) + MacSeed(c, src, seed) && tag == Tag(c, mac)
    {
      var e := c.encrypt(src[..16]);
      var aes := new Byte[16](i requires 0 <= i < 16 => e[i]);
      for i := 0 to 16
        modifies aes
        invariant forall k :: 0 <= k < i ==> aes[k] == c.xor(e[k], seed[k])
        invariant forall k :: i <= k < 16 ==> aes[k] == e[k]
      {
        aes[i] := c.xor(aes[i], seed[i]);
      }
      assert aes[..] == MacSeed(c, src, seed);
      mac := mac + aes[..];
      tag := c.sum(mac)[..16];
    }

    /** Encrypts, writes and absorbs; nothing is absorbed if the write fails. */
    method WriteData(b: array<Byte>, n: nat) returns (ok: bool)
      requires n <= b.Length
      modifies b, conn, this`pos, this`mac
      ensures var m := Mask(c, old(pos), old(b[..n]));
        Sent(old(conn.data), old(conn.room), m, conn.data, conn.room, ok) && mac ==
            if ok then old(mac) + m else old(mac)
      ensures pos == old(pos) + n
    {
      XorKeyStream(b, n);
      ok := conn.Write(b[..n]);
      if ok {
        mac := mac + b[..n];
      }
    }

    /** extendByteSlice: a bigger buffer only when the old one is too small, with
        the old bytes in front and zeros behind them; the slice is its first `n` bytes. */
    method ExtendBuf(n: nat)
      requires Valid()
      modifies this`buf
      ensures Valid() && buf.Length >= n
      ensures if old(buf.Length) >= n then buf == old(buf)
              else fresh(buf) && buf[..] == old(buf[..]) + Zeros(n - old(buf.Length))
    {
      if buf.Length < n {
        var was := buf[..];
        buf := new Byte[n](i requires 0 <= i < n => if i < |was| then was[i] else 0);
        assert buf[..] == was + Zeros(n - |was|);
      }
    }

    method CopyIntoBuf(b: Bytes)
      requires Valid() && buf.Length >= |b|
      modifies buf
      ensures buf[..|b|] == b
    {
      for i := 0 to |b|
        modifies buf
        invariant forall k :: 0 <= k < i ==> buf[k] == b[k]
      {
        buf[i] := b[i];
      }
    }

    /** The decompressed payload goes into the second buffer, extended in the same way. */
    method CopyIntoTmp(b: Bytes)
      requires Valid()
      modifies this`tmp, tmp
      ensures Valid() && (tmp == old(tmp) || fresh(tmp)) && tmp.Length >= |b| && tmp[0..|b|] == b
    {
      if tmp.Length < |b| {
        tmp := new Byte[|b|];
      }
      for i := 0 to |b|
        modifies tmp
        invariant forall k :: 0 <= k < i ==> tmp[k] == b[k]
      {
        tmp[i] := b[i];
      }
    }

    method Write(code: Uint64, payload: Bytes) returns (r: Result)
      requires Valid()
      modifies this`buf, this`pos, this`mac, header, buf, conn
      ensures Valid() && (buf == old(buf) || fresh(buf))
      ensures r == TooLarge <==> |Content(c, snappy, code, payload)| >= 0x100_0000
      ensures r == TooLarge ==>
        SenderState() == old(SenderState()) && conn.data == old(conn.data) && conn.room == old(conn.room)
      ensures r != TooLarge ==>
        var f := Build(c, old(SenderState()), Content(c, snappy, code, payload));
        && Sent(old(conn.data), old(conn.room), Emitted(f), conn.data, conn.room, r == Written)
        && (r == Written ==> SenderState() == Sender(f.link, f.header))
    {
      var ptype := EncodeCode(code);
      var packed := if snappy then c.compress(payload) else payload;
      ExtendBuf(|packed|);
      CopyIntoBuf(packed);
      var fullSize := |ptype| + |packed|;
      if fullSize > MAX_UINT24 {
        return TooLarge;
      }
      var ok := EmitFrame(ptype, |packed|);
      return if ok then Written else ConnFailed;
    }

    method EmitFrame(ptype: Bytes, n: nat) returns (ok: bool)
      requires Valid() && n <= buf.Length && |ptype| + n <= MAX_UINT24
      modifies this`pos, this`mac, header, buf, conn
      ensures Valid()
      ensures var f := Build(c, old(SenderState()), ptype + old(buf[..n]));
        && Sent(old(conn.data), old(conn.room), Emitted(f), conn.data, conn.room, ok)
        && (ok ==> SenderState() == Sender(f.link, f.header))
    {
      ghost var f, d0, r0 := Build(c, SenderState(), ptype + buf[..n]), conn.data, conn.room;
      ghost var head, body := f.header + f.headerTag, f.body + f.bodyTag;
      assert Emitted(f) == head + body;
      ok := WriteHeader(|ptype| + n);
      if !ok {
        SentStops(d0, r0, head, conn.data, conn.room, body);
        return;
      }
      assert header[..16] == f.header;
      ghost var d1, r1 := conn.data, conn.room;
      ok := WriteBody(ptype, n);
      SentBoth(d0, r0, head, d1, r1, body, conn.data, conn.room, ok);
    }

    method WriteHeader(size: nat) returns (ok: bool)
      requires Valid() && size <= MAX_UINT24
      modifies this`pos, this`mac, header, conn
      ensures Valid()
      ensures var h := HeaderBytes(c, old(SenderState()), size); var m := AfterHeader(c, old(mac), h);
        && Sent(old(conn.data), old(conn.room), h + Tag(c, m), conn.data, conn.room, ok)
        && (ok ==> header[..16] == h && pos == old(pos) + 16 && mac == m)
    {
      ghost var plain, d0, r0 := PlainHeader(SenderState(), size), conn.data, conn.room;
      header[0], header[1], header[2] := size / 65536, size / 256 % 256, size % 256;
      header[3], header[4], header[5] := 0xC0, 0x80, 0x80;
      assert header[..16] == plain;
      XorKeyStream(header, 16);
      ghost var h := header[..16];
      ghost var m := AfterHeader(c, mac, h);
      ok := conn.Write(header[..16]);
      if !ok {
        SentStops(d0, r0, h, conn.data, conn.room, Tag(c, m));
        return;
      }
      ghost var d1, r1 := conn.data, conn.room;
      var tag := UpdateMac(c.sum(mac), header[..16]);
      ok := conn.Write(tag);
      SentBoth(d0, r0, h, d1, r1, tag, conn.data, conn.room, ok);
    }

    method WriteBody(ptype: Bytes, n: nat) returns (ok: bool)
      requires Valid() && n <= buf.Length
      modifies this`pos, this`mac, buf, conn
      ensures Valid()
      ensures var body := BodyBytes(c, old(pos), ptype + old(buf[..n])); var m := AfterBody(c, old(mac) + body);
        && Sent(old(conn.data), old(conn.room), body + Tag(c, m), conn.data, conn.room, ok)
        && (ok ==> pos == old(pos) + |body| && mac == m)
    {
      ghost var body := BodyBytes(c, pos, ptype + buf[..n]);
      ghost var m, d0, r0 := AfterBody(c, mac + body), conn.data, conn.room;
      ok := WritePieces(ptype, n, Padded(|ptype| + n) - (|ptype| + n));
      if !ok {
        SentStops(d0, r0, body, conn.data, conn.room, Tag(c, m));
        return;
      }
      ghost var d1, r1 := conn.data, conn.room;
      var tag := UpdateMac(c.sum(mac), c.sum(mac));
      ok := conn.Write(tag);
      SentBoth(d0, r0, body, d1, r1, tag, conn.data, conn.room, ok);
    }

    /** Code, payload and padding, each encrypted, written and absorbed in turn. */
    method WritePieces(ptype: Bytes, n: nat, pad: nat) returns (ok: bool)
      requires n <= buf.Length
      modifies this`pos, this`mac, buf, conn
      ensures var m := Mask(c, old(pos), ptype + old(buf[..n]) + Zeros(pad));
        && Sent(old(conn.data), old(conn.room), m, conn.data, conn.room, ok)
        && (ok ==> pos == old(pos) + |m| && mac == old(mac) + m)
    {
      ghost var content, d0, r0, m0 := ptype + buf[..n], conn.data, conn.room, mac;
      ghost var x := Mask(c, pos, content);
      MaskConcat(c, pos, content, Zeros(pad));
      ok := WriteContent(ptype, n);
      if !ok {
        SentStops(d0, r0, x, conn.data, conn.room, Mask(c, old(pos) + |content|, Zeros(pad)));
        return;
      }
      var padding := new Byte[pad](_ => 0);
      assert padding[..pad] == Zeros(pad);
      ok := ThenData(padding, pad, d0, r0, m0, x);
    }

    /** Code and payload. */
    method WriteContent(ptype: Bytes, n: nat) returns (ok: bool)
      requires n <= buf.Length
      modifies this`pos, this`mac, buf, conn
      ensures var m := Mask(c, old(pos), ptype + old(buf[..n]));
        && Sent(old(conn.data), old(conn.room), m, conn.data, conn.room, ok)
        && (ok ==> pos == old(pos) + |ptype| + n && mac == old(mac) + m)
    {
      ghost var d0, r0, m0 := conn.data, conn.room, mac;
      ghost var x, payload := Mask(c, pos, ptype), buf[..n];
      MaskConcat(c, pos, ptype, payload);
      ok := WriteBytes(ptype);
      if !ok {
        SentStops(d0, r0, x, conn.data, conn.room, Mask(c, old(pos) + |ptype|, payload));
        return;
      }
      assert buf[..n] == payload;
      ok := ThenData(buf, n, d0, r0, m0, x);
    }

    /** writeData after `x` has been written and absorbed. */
    method ThenData(b: array<Byte>, n: nat, ghost d0: Bytes, ghost r0: nat, ghost m0: Bytes, ghost x: Bytes)
      returns (ok: bool)
      requires n <= b.Length && Sent(d0, r0, x, conn.data, conn.room, true) && mac == m0 + x
      modifies b, conn, this`pos, this`mac
      ensures var m := x + Mask(c, old(pos), old(b[..n]));
        Sent(d0, r0, m, conn.data, conn.room, ok) && (ok ==> mac == m0 + m)
      ensures pos == old(pos) + n
    {
      ghost var d1, r1, y := conn.data, conn.room, Mask(c, pos, b[..n]);
      Associative(m0, x, y);
      ok := WriteData(b, n);
      SentBoth(d0, r0, x, d1, r1, y, conn.data, conn.room, ok);
    }

    /** writeData of a fresh slice; nothing happens for an empty one. */
    method WriteBytes(b: Bytes) returns (ok: bool)
      modifies conn, this`pos, this`mac
      ensures var m := Mask(c, old(pos), b);
        && Sent(old(conn.data), old(conn.room), m, conn.data, conn.room, ok)
        && pos == old(pos) + |b| && (ok ==> mac == old(mac) + m)
    {
      var p := new Byte[|b|](i requires 0 <= i < |b| => b[i]);
      assert p[..|b|] == b;
      ok := WriteData(p, |b|);
    }

    /** io.ReadFull of `n` bytes; what there is of too few is consumed. */
    method Take(n: nat) returns (ok: bool, b: Bytes)
      modifies conn
      ensures ok <==> |old(conn.data)| >= n
      ensures ok ==> b == old(conn.data)[..n] && conn.data == old(conn.data)[n..]
      ensures !ok ==> conn.data == []
    {
      if |conn.data| < n {
        conn.data := [];
        return false, [];
      }
      b := conn.data[..n];
      conn.data := conn.data[n..];
      return true, b;
    }

    /** `read`: the content returned is a slice of a buffer that the next call overwrites. */
    method Read() returns (r: Outcome)
      requires Valid()
      modifies this`buf, this`tmp, this`pos, this`mac, header, buf, tmp, conn
      ensures Valid() && (buf == old(buf) || fresh(buf)) && (tmp == old(tmp) || fresh(tmp))
      ensures match ReadFrame(c, snappy, Link(old(pos), old(mac)), old(conn.data))
        case Failed(e) => r == Err(e)
        case Got(code, payload, l, rest) =>
          && r.Msg? && r.code == code && Within(r.content)
          && r.content.arr[r.content.lo..r.content.hi] == payload
          && Link(pos, mac) == l && conn.data == rest
      ensures (Link(pos, mac), conn.data) == ReadState(c, Link(old(pos), old(mac)), old(conn.data))
    {
      var err, size := ReadHeader();
      if err.Some? {
        return Err(err.value);
      }
      r := ReadContent(size);
    }

    method ReadHeader() returns (err: Option<Error>, size: nat)
      requires Valid()
      modifies this`pos, this`mac, header, conn
      ensures var l, input := Link(old(pos), old(mac)), old(conn.data);
        if |input| < 32 then err == Some(Eof)
        else if Tag(c, AfterHeader(c, l.mac, input[..16])) != input[16..32] then err == Some(HeaderMac)
        else err == None && size == Get24(Mask(c, l.pos, input[..16]))
      ensures (Link(pos, mac), conn.data) == HeaderState(c, Link(old(pos), old(mac)), old(conn.data))
    {
      var ok, b := Take(32);
      if !ok {
        return Some(Eof), 0;
      }
      for i := 0 to 32
        modifies header
        invariant header[..i] == b[..i]
      {
        header[i] := b[i];
      }
      var tag := UpdateMac(c.sum(mac), header[..16]);
      assert header[..16] == b[..16] == old(conn.data)[..16];
      assert header[16..] == b[16..] == old(conn.data)[16..32];
      if tag != header[16..] {
        return Some(HeaderMac), 0;
      }
      XorKeyStream(header, 16);
      return None, Get24(header[..16]);
    }

    method ReadContent(size: nat) returns (r: Outcome)
      requires Valid()
      modifies this`buf, this`tmp, this`pos, this`mac, header, buf, tmp, conn
      ensures Valid() && (buf == old(buf) || fresh(buf)) && (tmp == old(tmp) || fresh(tmp))
      ensures match ReadBody(c, snappy, Link(old(pos), old(mac)), size, old(conn.data))
        case Failed(e) => r == Err(e)
        case Got(code, payload, l, rest) =>
          && r.Msg? && r.code == code && Within(r.content)
          && r.content.arr[r.content.lo..r.content.hi] == payload
          && Link(pos, mac) == l && conn.data == rest
      ensures (Link(pos, mac), conn.data) == BodyState(c, Link(old(pos), old(mac)), size, old(conn.data))
    {
      var err := ReadPayload(size);
      if err.Some? {
        return Err(err.value);
      }
      assert buf[..Padded(size)][..size] == buf[..size];
      match DecodeCode(buf[..size])
      case BadCode(e) => return Err(e);
      case Code(code, content) =>
        if !snappy {
          return Msg(code, Slice(buf, 1, size));
        }
        var packed := c.decompress(content);
        if packed.None? {
          return Err(Snappy);
        }
        CopyIntoTmp(packed.value);
        return Msg(code, Slice(tmp, 0, |packed.value|));
    }

    /** Reads, checks and decrypts the padded body into the buffer. */
    method ReadPayload(size: nat) returns (err: Option<Error>)
      requires Valid()
      modifies this`buf, this`pos, this`mac, header, buf, conn
      ensures Valid() && (buf == old(buf) || fresh(buf))
      ensures var l, input, full := Link(old(pos), old(mac)), old(conn.data), Padded(size);
        if |input| < full + 16 then err == Some(Eof)
        else if Tag(c, AfterBody(c, l.mac + input[..full])) != input[full..full + 16] then err == Some(PayloadMac)
        else err == None && buf.Length >= full && buf[..full] == Mask(c, l.pos, input[..full])
      ensures (Link(pos, mac), conn.data) == BodyState(c, Link(old(pos), old(mac)), size, old(conn.data))
    {
      var full := Padded(size);
      ExtendBuf(full);
      var ok, b := Take(full);
      if !ok {
        return Some(Eof);
      }
      CopyIntoBuf(b);
      mac := mac + b;
      ok, b := Take(16);
      if !ok {
        return Some(Eof);
      }
      var tag := UpdateMac(c.sum(mac), c.sum(mac));
      if tag != b {
        return Some(PayloadMac);
      }
      XorKeyStream(buf, full);
      return None;
    }
  }
}
