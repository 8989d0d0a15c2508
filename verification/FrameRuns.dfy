/** Whole runs of frames over one direction of a session. */
module FrameRuns {
  import opened Basics
  import opened Framing

  datatype Message = Message(code: Uint64, payload: Bytes)

  /** What one write emits and leaves behind; an oversized message is rejected and changes nothing. */
  function WriteOne(c: Crypto, snappy: bool, s: Sender, m: Message): (Bytes, Sender) {
    if !Fits(c, snappy, m.code, m.payload) then ([], s)
    else
      var f := Build(c, s, Content(c, snappy, m.code, m.payload));
      (Emitted(f), Sender(f.link, f.header))
  }

  /** Writing and reading one frame, as a run sees them. */
  datatype Codec = Codec(
    write: (Sender, Message) -> (Bytes, Sender),
    read: (Link, Bytes) -> Read,
    fits: Message -> bool)

  function CodecOf(c: Crypto, snappy: bool): Codec {
    Codec((s, m) => WriteOne(c, snappy, s, m),
          (l, b) => ReadFrame(c, snappy, l, b),
          (m: Message) => Fits(c, snappy, m.code, m.payload))
  }

  /** Rejected messages leave no trace; others are read back whole, whatever
      follows them, if their code is below 0x80, and otherwise fail. */
  ghost predicate ReadsBack(k: Codec, s: Sender, m: Message, rest: Bytes) {
    var (b, s') := k.write(s, m);
    if !k.fits(m) then b == [] && s' == s
    else |b| > 0 && k.read(s.link, b + rest) == if m.code < 0x80 then Got(m.code, m.payload, s'.link,
        rest) else Failed(CodeTooBig)
  }

  /** An incomplete frame only makes the reader wait. */
  ghost predicate Waits(k: Codec, s: Sender, m: Message, cut: Bytes) {
    cut < k.write(s, m).0 ==> k.read(s.link, cut) == Failed(Eof)
  }

  ghost predicate Faithful(k: Codec) {
    && (forall s: Sender, m: Message, rest: Bytes :: ReadsBack(k, s, m, rest))
    && (forall s: Sender, m: Message, cut: Bytes :: Waits(k, s, m, cut))
    && (forall l: Link :: k.read(l, []) == Failed(Eof))
  }

  lemma FramesAreFaithful(c: Crypto, snappy: bool)
    requires c.Valid()
    ensures Faithful(CodecOf(c, snappy))
  {
    var k := CodecOf(c, snappy);
    forall s: Sender, m: Message, rest: Bytes
      ensures ReadsBack(k, s, m, rest)
    {
      if Fits(c, snappy, m.code, m.payload) { FrameRoundTrip(c, snappy, s, m.code, m.payload, rest); }
    }
    forall s: Sender, m: Message, cut: Bytes
      ensures Waits(k, s, m, cut)
    {
      if cut < k.write(s, m).0 { CutFrame(c, snappy, s, Content(c, snappy, m.code, m.payload), cut); }
    }
  }

  // ----- runs -----

  /** What a run of writes puts on the wire. */
  function WriteAll(k: Codec, s: Sender, msgs: seq<Message>): Bytes
    decreases |msgs|
  {
    if msgs == [] then [] else k.write(s, msgs[0]).0 + WriteAll(k, k.write(s, msgs[0]).1, msgs[1..])
  }

  /** The writing half after a run of writes. */
  function After(k: Codec, s: Sender, msgs: seq<Message>): Sender
    decreases |msgs|
  {
    if msgs == [] then s else After(k, k.write(s, msgs[0]).1, msgs[1..])
  }

  function Accepted(k: Codec, msgs: seq<Message>): seq<Message> {
    if msgs == [] then [] else (if k.fits(msgs[0]) then [msgs[0]] else []) + Accepted(k, msgs[1..])
  }

  /** Reading until the first failure: the messages, and where and why it stopped. */
  datatype Reception = Reception(msgs: seq<Message>, link: Link, left: Bytes, error: Error)

  function ReadAll(k: Codec, l: Link, input: Bytes): Reception
    decreases |input|
  {
    match k.read(l, input)
    case Failed(e) => Reception([], l, input, e)
    case Got(code, payload, l', rest) =>
      if |rest| >= |input| then Reception([], l, input, Eof)
      else
        var r := ReadAll(k, l', rest);
        r.(msgs := [Message(code, payload)] + r.msgs)
  }

  /** Codes the reader accepts. */
  ghost predicate SmallCodes(msgs: seq<Message>) {
    forall i :: 0 <= i < |msgs| ==> msgs[i].code < 0x80
  }

  /** A message that is written and that the reader fails on. */
  predicate Fatal(k: Codec, m: Message) {
    k.fits(m) && m.code >= 0x80
  }

  /** The messages before the first fatal one. */
  function Readable(k: Codec, msgs: seq<Message>): seq<Message> {
    if msgs == [] || Fatal(k, msgs[0]) then [] else [msgs[0]] + Readable(k, msgs[1..])
  }

  lemma {:induction false} SmallIsReadable(k: Codec, msgs: seq<Message>)
    requires SmallCodes(msgs)
    ensures Readable(k, msgs) == msgs
  {
    if msgs != [] {
      SmallIsReadable(k, msgs[1..]);
    }
  }

  /** Reading what starts with one write: the message, if it was accepted, and then the rest. */
  lemma ReadFirst(k: Codec, s: Sender, m: Message, rest: Bytes)
    requires Faithful(k) && !Fatal(k, m)
    ensures var (b, s') := k.write(s, m); var r := ReadAll(k, s'.link, rest);
      ReadAll(k, s.link, b + rest) == if k.fits(m) then r.(msgs := [m] + r.msgs) else r
  {
    assert ReadsBack(k, s, m, rest);
    assert Message(m.code, m.payload) == m && [] + rest == rest;
  }

  lemma AcceptedFirst(k: Codec, msgs: seq<Message>)
    requires msgs != []
    ensures Accepted(k, msgs) == if k.fits(msgs[0]) then [msgs[0]] + Accepted(k, msgs[1..]) else Accepted(k, msgs[1..])
  {}

  ghost predicate Exact(k: Codec, s: Sender, msgs: seq<Message>) {
    var p := Readable(k, msgs);
    && p <= msgs
    && ReadAll(k, s.link, WriteAll(k, s, msgs)) ==
       Reception(Accepted(k, p), After(k, s, p).link, WriteAll(k, After(k, s, p), msgs[|p|..]),
                 if p == msgs then Eof else CodeTooBig)
  }

  /** Every run: a reader in the mirrored initial state recovers exactly the
      accepted messages before the first fatal one and is then in the writer's
      link state, with the bytes from there on left; it fails on the fatal
      message, or has consumed everything if there is none. */
  lemma {:induction false} RunExact(k: Codec, s: Sender, msgs: seq<Message>)
    requires Faithful(k)
    ensures Exact(k, s, msgs)
    decreases |msgs|
  {
    if msgs != [] {
      if Fatal(k, msgs[0]) {
        ExactFatal(k, s, msgs);
      } else {
        RunExact(k, k.write(s, msgs[0]).1, msgs[1..]);
        ExactNext(k, s, msgs);
      }
    }
  }

  lemma ExactFatal(k: Codec, s: Sender, msgs: seq<Message>)
    requires Faithful(k) && msgs != [] && Fatal(k, msgs[0])
    ensures Exact(k, s, msgs)
  {
    assert ReadsBack(k, s, msgs[0], WriteAll(k, k.write(s, msgs[0]).1, msgs[1..]));
    assert msgs[0..] == msgs;
  }

  lemma {:induction false} ExactNext(k: Codec, s: Sender, msgs: seq<Message>)
    requires Faithful(k) && msgs != [] && !Fatal(k, msgs[0]) && Exact(k, k.write(s, msgs[0]).1, msgs[1..])
    ensures Exact(k, s, msgs)
  {
    var m, rest := msgs[0], msgs[1..];
    var s', q := k.write(s, m).1, Readable(k, rest);
    var p := [m] + q;
    ReadFirst(k, s, m, WriteAll(k, s', rest));
    AcceptedFirst(k, p);
    assert p[1..] == q && msgs[|p|..] == rest[|q|..];
    assert p == msgs <==> q == rest by { assert msgs == [m] + rest; }
  }

  /** Without codes of 0x80 and more the reader recovers exactly the accepted
      messages, consumes every byte, and ends in the writer's link state. */
  lemma RunRoundTrip(k: Codec, s: Sender, msgs: seq<Message>)
    requires Faithful(k) && SmallCodes(msgs)
    ensures ReadAll(k, s.link, WriteAll(k, s, msgs)) == Reception(Accepted(k, msgs), After(k, s, msgs).link, [], Eof)
  {
    SmallIsReadable(k, msgs);
    RunExact(k, s, msgs);
    assert msgs[|msgs|..] == [];
  }

  /** While only part of the wire has arrived, the reader has a prefix of the
      accepted messages before the first fatal one, and is waiting for more
      bytes unless it has met that one. */
  lemma {:induction false} PartialRun(k: Codec, s: Sender, msgs: seq<Message>, arrived: Bytes)
    requires Faithful(k) && arrived <= WriteAll(k, s, msgs)
    ensures var r, p := ReadAll(k, s.link, arrived), Readable(k, msgs);
      && r.msgs <= Accepted(k, p)
      && (r.error == Eof || (r.error == CodeTooBig && r.msgs == Accepted(k, p) && p != msgs))
    decreases |msgs|
  {
    if msgs != [] {
      var m := msgs[0];
      var (b, s') := k.write(s, m);
      var tail := WriteAll(k, s', msgs[1..]);
      assert ReadsBack(k, s, m, tail);
      if |arrived| < |b| {
        assert arrived == (b + tail)[..|arrived|] == b[..|arrived|];
        assert Waits(k, s, m, arrived);
      } else {
        var rest := arrived[|b|..];
        assert arrived[..|b|] == b && rest <= tail;
        assert arrived == b + rest;
        if Fatal(k, m) {
          assert ReadsBack(k, s, m, rest);
        } else {
          var q := Readable(k, msgs[1..]);
          PartialRun(k, s', msgs[1..], rest);
          ReadFirst(k, s, m, rest);
          AcceptedFirst(k, [m] + q);
          assert ([m] + q)[1..] == q && msgs == [m] + msgs[1..];
        }
      }
    }
  }

  /** A write that fails on the way leaves the reader with exactly the messages
      before it, waiting for the rest of the cut frame. */
  lemma {:induction false} BrokenRun(k: Codec, s: Sender, msgs: seq<Message>, m: Message, cut: Bytes)
    requires Faithful(k) && Readable(k, msgs) == msgs && cut < k.write(After(k, s, msgs), m).0
    ensures ReadAll(k, s.link, WriteAll(k, s, msgs) + cut) == Reception(Accepted(k, msgs), After(k, s,
        msgs).link, cut, Eof)
    decreases |msgs|
  {
    if msgs == [] {
      assert WriteAll(k, s, msgs) + cut == cut;
      assert Waits(k, s, m, cut);
    } else {
      var (b, s') := k.write(s, msgs[0]);
      var tail := WriteAll(k, s', msgs[1..]);
      assert After(k, s, msgs) == After(k, s', msgs[1..]);
      assert Readable(k, msgs)[1..] == Readable(k, msgs[1..]);
      BrokenRun(k, s', msgs[1..], m, cut);
      assert WriteAll(k, s, msgs) + cut == b + (tail + cut) by { Associative(b, tail, cut); }
      ReadFirst(k, s, msgs[0], tail + cut);
      AcceptedFirst(k, msgs);
    }
  }

  /** One more write. */
  lemma {:induction false} WriteOneMore(k: Codec, s: Sender, msgs: seq<Message>, m: Message)
    ensures var (b, s') := k.write(After(k, s, msgs), m);
      WriteAll(k, s, msgs + [m]) == WriteAll(k, s, msgs) + b && After(k, s, msgs + [m]) == s'
    decreases |msgs|
  {
    if msgs == [] {
      assert msgs + [m] == [m] && [m][1..] == [];
      assert WriteAll(k, s, [m]) == k.write(s, m).0 + [];
    } else {
      assert (msgs + [m])[0] == msgs[0] && (msgs + [m])[1..] == msgs[1..] + [m];
      WriteOneMore(k, k.write(s, msgs[0]).1, msgs[1..], m);
    }
  }

  /** For RLPx frames: every run is received exactly up to the first written
      message with a code of 0x80 or more, and both ends are in step until then. */
  lemma FrameRun(c: Crypto, snappy: bool, s: Sender, msgs: seq<Message>)
    requires c.Valid()
    ensures var k := CodecOf(c, snappy); var p := Readable(k, msgs);
      && p <= msgs
      && ReadAll(k, s.link, WriteAll(k, s, msgs)) ==
         Reception(Accepted(k, p), After(k, s, p).link, WriteAll(k, After(k, s, p), msgs[|p|..]),
                   if p == msgs then Eof else CodeTooBig)
  {
    FramesAreFaithful(c, snappy);
    RunExact(CodecOf(c, snappy), s, msgs);
  }
}
