/** `Stream` and the receive loop that feeds it. */
module Streams {
  import opened Basics
  import opened Framing
  import opened FrameRuns
  import opened Multiplex
  import opened HalfConn

  // ----- reading a queue -----

  /** A buffer of `n` bytes of which the first `|b|` were filled. */
  function Filled(b: Bytes, n: nat): (r: Bytes)
    requires |b| <= n
    ensures |r| == n
  {
    b + Zeros(n - |b|)
  }

  /** `ReadMsg` on a non-empty queue: each of its two reads takes what is there. */
  function TakeMsg(q: Bytes): (Message, Bytes)
    requires q != []
  {
    var (h, rest) := TakeHead(q);
    TakeBody(h, rest)
  }

  /** The first read: the header and what it leaves. */
  function TakeHead(q: Bytes): (r: (Bytes, Bytes))
    ensures |r.0| == HEADER_SIZE
  {
    var i := Min(HEADER_SIZE, |q|);
    (Filled(q[..i], HEADER_SIZE), q[i..])
  }

  /** The second read: the message and what it leaves. */
  function TakeBody(h: Bytes, q: Bytes): (Message, Bytes)
    requires |h| == HEADER_SIZE
  {
    var i := Min(Length(h), |q|);
    (Message(MsgType(h), Filled(q[..i], Length(h))), q[i..])
  }

  /** One of the two reads finds nothing and waits. */
  predicate Blocks(q: Bytes) {
    q == [] || (|q| <= HEADER_SIZE && Length(Filled(q, HEADER_SIZE)) > 0)
  }

  /** On a queue that starts with a whole message the first read takes its header. */
  lemma HeadOfWhole(m: Message, rest: Bytes)
    requires Queueable(m)
    ensures TakeHead(Queued(m) + rest) == (Head(m.code, |m.payload|), m.payload + rest)
  {
    var q, h := Queued(m) + rest, Head(m.code, |m.payload|);
    assert q[..HEADER_SIZE] == h && q[HEADER_SIZE..] == m.payload + rest;
    assert Filled(h, HEADER_SIZE) == h + [] == h;
  }

  /** After the header of a message the second read takes its payload. */
  lemma BodyOfWhole(m: Message, rest: Bytes)
    requires Queueable(m)
    ensures Length(Head(m.code, |m.payload|)) == |m.payload|
    ensures TakeBody(Head(m.code, |m.payload|), m.payload + rest) == (m, rest)
  {
    var n := |m.payload|;
    HeadRoundTrip(m.code, n);
    assert (m.payload + rest)[..n] == m.payload && (m.payload + rest)[n..] == rest;
    assert Filled(m.payload, n) == m.payload + [] == m.payload;
  }

  /** On a queue of whole messages that is the first message and the others, without waiting. */
  lemma TakeWhole(m: Message, rest: Bytes)
    requires Queueable(m)
    ensures !Blocks(Queued(m) + rest) && TakeMsg(Queued(m) + rest) == (m, rest)
  {
    HeadOfWhole(m, rest);
    BodyOfWhole(m, rest);
    var q := Queued(m) + rest;
    assert |q| <= HEADER_SIZE ==> q == q[..HEADER_SIZE];
  }

  /** `readData`: the queue grown by a message, its code made relative to the stream. */
  function Grown(q: Bytes, offset: Uint64, code: Uint64, payload: Bytes): Bytes {
    q + Head((code - offset) % UINT16, |payload| % UINT32) + payload
  }

  class Stream {
    const offset: Uint64
    const length: Uint64
    var recvBuf: Bytes

    constructor (offset: Uint64, length: Uint64)
      ensures this.offset == offset && this.length == length && recvBuf == []
    {
      this.offset := offset;
      this.length := length;
      recvBuf := [];
    }

    /** Copies the message out of the read buffer, behind a header with the code relative to the stream. */
    method ReadData(code: Uint64, content: Slice)
      requires Within(content)
      modifies this
      ensures recvBuf == Grown(old(recvBuf), offset, code, content.arr[content.lo..content.hi])
    {
      var h := Head((code - offset) % UINT16, (content.hi - content.lo) % UINT32);
      recvBuf := recvBuf + h;
      recvBuf := recvBuf + content.arr[content.lo..content.hi];
    }

    /** `read` with a buffer of `n` bytes; `None` when it would block. */
    method Read(n: nat) returns (b: Option<Bytes>)
      modifies this
      ensures b.None? <==> n > 0 && old(recvBuf) == []
      ensures b.None? ==> recvBuf == old(recvBuf)
      ensures b.Some? ==> var i := Min(n, |old(recvBuf)|); b.value == old(recvBuf)[..i] && recvBuf == old(recvBuf)[i..]
    {
      if n == 0 {
        return Some([]);
      }
      if |recvBuf| == 0 {
        return None;
      }
      var i := Min(n, |recvBuf|);
      b := Some(recvBuf[..i]);
      recvBuf := recvBuf[i..];
    }

    method ReadMsg() returns (r: Option<Message>)
      modifies this
      ensures r.None? <==> Blocks(old(recvBuf))
      ensures r.None? ==> recvBuf == []
      ensures r.Some? ==> (r.value, recvBuf) == TakeMsg(old(recvBuf))
    {
      var b := Read(HEADER_SIZE);
      if b.None? {
        return None;
      }
      var header := Filled(b.value, HEADER_SIZE);
      assert |old(recvBuf)| <= HEADER_SIZE ==> b.value == old(recvBuf);
      var size := Length(header);
      b := Read(size);
      if b.None? {
        return None;
      }
      return Some(Message(MsgType(header), Filled(b.value, size)));
    }
  }

  // ----- the receive loop -----

  const DISC_MSG: Uint64 := 1
  const PING_MSG: Uint64 := 2
  const PONG_MSG: Uint64 := 3

  /** The empty list in RLP. */
  const EMPTY_RLP: Bytes := [0xC0]

  /** What a turn of the loop does with a frame; a code without a stream makes the source dereference nil. */
  datatype Action = SendPong | Ignore | Stop | Deliver(stream: nat) | NoStream | Broken(error: Error)

  function Dispatch(table: seq<Range>, code: Uint64): Action {
    if code == PING_MSG then SendPong
    else if code == PONG_MSG then Ignore
    else if code == DISC_MSG then Stop
    else
      var o := Owner(table, code);
      if o.Some? then Deliver(o.value) else NoStream
  }

  /** A ping and nothing else is answered, a disconnect message and nothing else
      ends the loop, and only other codes, in the range of a stream, are delivered. */
  lemma DispatchIff(table: seq<Range>, code: Uint64)
    ensures Dispatch(table, code) == SendPong <==> code == 2
    ensures Dispatch(table, code) == Ignore <==> code == 3
    ensures Dispatch(table, code) == Stop <==> code == 1
    ensures forall i: nat ::
      Dispatch(table, code) == Deliver(i) <==> code !in {1, 2, 3} && Owner(table, code) == Some(i)
  {}

  ghost predicate Tabled(streams: seq<Stream>, table: seq<Range>) {
    && |streams| == |table|
    && (forall i :: 0 <= i < |table| ==> streams[i].offset == table[i].offset && streams[i].length == table[i].length)
    && forall i, j :: 0 <= i < j < |streams| ==> streams[i] != streams[j]
  }

  /** The two directions of a session share nothing that writing or reading changes. */
  ghost predicate Apart(a: HalfConn, b: HalfConn)
    reads a, b
  {
    && a != b && a.conn != b.conn
    && b.header != a.header && b.header != a.buf && b.header != a.tmp
    && b.buf != a.header && b.buf != a.buf && b.buf != a.tmp
  }

  /** A pong with the empty list as its payload is written, or the part of its frame the connection takes. */
  ghost predicate Ponged(c: Crypto, snappy: bool, s: Sender, data: Bytes, room: nat,
      s': Sender, data': Bytes, room': nat, ok: bool) {
    var content := Content(c, snappy, 3, [0xC0]);
    if |content| >= 0x100_0000 then !ok && (s', data', room') == (s, data, room)
    else
      var f := Build(c, s, content);
      Sent(data, room, Emitted(f), data', room', ok) && (ok ==> s' == Sender(f.link, f.header))
  }

  /** What the loop answers: a ping with `writeCode` of a pong through
      WriteRawMsg, which fails on a closed session, and anything else with nothing. */
  method Reply(out: HalfConn, open: bool, a: Action) returns (ok: bool)
    requires out.Valid()
    modifies out`buf, out`pos, out`mac, out.header, out.buf, out.conn
    ensures out.Valid() && (out.buf == old(out.buf) || fresh(out.buf))
    ensures a == SendPong && open ==>
      Ponged(out.c, out.snappy, old(out.SenderState()), old(out.conn.data), old(out.conn.room),
             out.SenderState(), out.conn.data, out.conn.room, ok)
    ensures a != SendPong || !open ==> !ok && out.SenderState() == old(out.SenderState()) && unchanged(out.conn)
  {
    if a != SendPong || !open {
      return false;
    }
    var r := out.Write(PONG_MSG, EMPTY_RLP);
    return r == Written;
  }

  ghost function Queues(streams: seq<Stream>): (q: seq<Bytes>)
    reads streams
    ensures |q| == |streams| && forall i :: 0 <= i < |streams| ==> q[i] == streams[i].recvBuf
  {
    seq(|streams|, i requires 0 <= i < |streams| reads streams => streams[i].recvBuf)
  }

  /** A turn of the loop on the bytes available: what it does, where it leaves
      the reader, and that a delivered message goes to its stream's queue only. */
  ghost predicate Handled(c: Crypto, snappy: bool, table: seq<Range>, l: Link, input: Bytes, queues: seq<Bytes>,
      a: Action, l': Link, input': Bytes, queues': seq<Bytes>)
    requires |queues| == |table|
  {
    && (l', input') == ReadState(c, l, input)
    && match ReadFrame(c, snappy, l, input)
       case Failed(e) => a == Broken(e) && queues' == queues
       case Got(code, payload, _, _) =>
         && a == Dispatch(table, code) && (a == SendPong <==> code == 2)
         && if a.Deliver? then
              var i := a.stream;
              queues' == queues[i := Grown(queues[i], table[i].offset, code, payload)]
            else queues' == queues
  }

  /** Reads a frame and hands it on.  The stream gets its own copy, so reusing
      the read buffer later does not disturb it. */
  method TakeFrame(conn: HalfConn, streams: seq<Stream>, table: seq<Range>) returns (a: Action)
    requires conn.Valid() && Tabled(streams, table)
    modifies conn`buf, conn`tmp, conn`pos, conn`mac, conn.header, conn.buf, conn.tmp, conn.conn, streams
    ensures conn.Valid() && (conn.buf == old(conn.buf) || fresh(conn.buf))
    ensures conn.tmp == old(conn.tmp) || fresh(conn.tmp)
    ensures Handled(conn.c, conn.snappy, table, Link(old(conn.pos), old(conn.mac)), old(conn.conn.data),
      old(Queues(streams)), a, Link(conn.pos, conn.mac), conn.conn.data, Queues(streams))
  {
    var r := conn.Read();
    assert Queues(streams) == old(Queues(streams));
    if r.Err? {
      return Broken(r.error);
    }
    a := Dispatch(table, r.code);
    if a.Deliver? {
      HandOver(streams, table, a.stream, r.code, r.content);
    }
  }

  /** handleStreamMessage */
  method HandOver(streams: seq<Stream>, table: seq<Range>, i: nat, code: Uint64, content: Slice)
    requires Tabled(streams, table) && i < |streams| && Within(content)
    modifies streams
    ensures Queues(streams) ==
      old(Queues(streams))[i := Grown(old(streams[i].recvBuf), table[i].offset, code,
                                      content.arr[content.lo..content.hi])]
  {
    streams[i].ReadData(code, content);
  }

  /** One turn of `recvLoop`: a ping, and nothing else, makes it write a pong. */
  method RecvOnce(conn: HalfConn, out: HalfConn, open: bool, streams: seq<Stream>, table: seq<Range>)
    returns (a: Action, ponged: bool)
    requires conn.Valid() && out.Valid() && Apart(conn, out) && Tabled(streams, table)
    modifies conn`buf, conn`tmp, conn`pos, conn`mac, conn.header, conn.buf, conn.tmp, conn.conn, streams
    modifies out`buf, out`pos, out`mac, out.header, out.buf, out.conn
    ensures conn.Valid() && out.Valid() && Apart(conn, out)
    ensures Handled(conn.c, conn.snappy, table, Link(old(conn.pos), old(conn.mac)), old(conn.conn.data),
      old(Queues(streams)), a, Link(conn.pos, conn.mac), conn.conn.data, Queues(streams))
    ensures a == SendPong && open ==>
      Ponged(out.c, out.snappy, old(out.SenderState()), old(out.conn.data), old(out.conn.room),
             out.SenderState(), out.conn.data, out.conn.room, ponged)
    ensures a != SendPong || !open ==>
      !ponged && out.SenderState() == old(out.SenderState()) && unchanged(out.conn)
  {
    a := TakeFrame(conn, streams, table);
    assert out.SenderState() == old(out.SenderState()) && Apart(conn, out);
    ghost var q := Queues(streams);
    ponged := Reply(out, open, a);
    assert Queues(streams) == q;
  }
}
