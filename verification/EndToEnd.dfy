/** Two ends of a session that computed the same stream table: writers on one
    side, the wire, the receive loop and one reader per stream on the other, in
    any interleaving of their steps. */
module EndToEnd {
  import opened Basics
  import opened Framing
  import opened FrameRuns
  import opened Multiplex
  import opened Streams

  /** The whole system in one direction.  `reading` is the header a stream's
      reader has taken when it is between its two reads.  `sent` and `got` are
      what WriteMsg accepted and ReadMsg returned per stream.  `tail`, `flight`
      and `waiting` are history: the messages on the wire, written from `tail`
      on, and those not yet returned. */
  datatype State = State(
    sender: Sender, wire: Bytes, link: Link, queues: seq<Bytes>, reading: seq<Option<Bytes>>, loop: Status,
    sent: seq<seq<Message>>, got: seq<seq<Message>>,
    tail: Sender, flight: seq<Message>, waiting: seq<seq<Message>>)

  /** The receive loop goes on, has returned on a disconnect message, or has returned with an error. */
  datatype Status = Running | Disconnected | Crashed

  datatype Step =
    | Write(stream: nat, msg: Message)   // WriteMsg on a stream
    | Control(msg: Message)              // a ping, pong or disconnect message
    | Receive                            // a turn of the receive loop
    | ReadHead(stream: nat)              // the first read of ReadMsg
    | ReadBody(stream: nat)              // the second read of ReadMsg, which returns

  /** The session: how frames are coded, and the shared protocols as the writing
      end (`near`) and the reading end (`far`) negotiated them. */
  datatype Session = Session(codec: Codec, near: seq<Spec>, far: seq<Spec>) {
    ghost predicate Valid() {
      Faithful(codec) && NoOverflow(near) && Layout(near) == Layout(far)
    }

    /** The writer's offsets. */
    function Offsets(): seq<Range> {
      Layout(near)
    }

    /** The reader's ranges. */
    function Table(): seq<Range> {
      Layout(far)
    }

    function Raw(i: nat, m: Message): Message
      requires i < |near| && Offsets()[i].offset + m.code < UINT64
    {
      Message(Offsets()[i].offset + m.code, m.payload)
    }

    /** A message of the protocol. */
    predicate Proper(i: nat, m: Message) {
      i < |near| && m.code < near[i].length && Offsets()[i].offset + m.code < UINT64 && |m.payload| < UINT32
    }
  }

  function Initial(n: nat, s: Sender): State {
    State(s, [], s.link, seq(n, _ => []), seq(n, _ => None), Running,
          seq(n, _ => []), seq(n, _ => []), s, [], seq(n, _ => []))
  }

  predicate Base(m: Message) {
    m.code == PING_MSG || m.code == PONG_MSG || m.code == DISC_MSG
  }

  predicate Allowed(z: Session, s: State, step: Step) {
    match step
    case Write(i, m) => z.Proper(i, m)
    case Control(m) => Base(m)
    case Receive => s.loop == Running
    case ReadHead(i) => i < |s.reading| && s.reading[i].None?
    case ReadBody(i) => i < |s.reading| && s.reading[i].Some?
  }

  /** A write of a raw message; a rejected one changes nothing. */
  function Emit(z: Session, s: State, m: Message): State {
    var (b, sender) := z.codec.write(s.sender, m);
    if z.codec.fits(m) then s.(sender := sender, wire := s.wire + b, flight := s.flight + [m]) else s
  }

  function WriteStep(z: Session, s: State, i: nat, m: Message): State
    requires z.Proper(i, m) && i < |s.sent|
  {
    var raw := z.Raw(i, m);
    var s' := Emit(z, s, raw);
    if z.codec.fits(raw) then s'.(sent := s.sent[i := s.sent[i] + [m]]) else s'
  }

  /** The receive loop's turn; a reader short of bytes waits, any other failure
      or an unowned code is a crash, and a disconnect message ends the loop. */
  function ReceiveStep(z: Session, s: State): State
    requires |s.queues| == |s.waiting| == |z.far|
  {
    match z.codec.read(s.link, s.wire)
    case Failed(e) => if e == Eof then s else s.(loop := Crashed)
    case Got(code, payload, link, rest) =>
      var s' := s.(link := link, wire := rest,
                   tail := if s.flight == [] then s.tail else z.codec.write(s.tail, s.flight[0]).1,
                   flight := if s.flight == [] then [] else s.flight[1..]);
      match Dispatch(z.Table(), code)
      case SendPong => s'
      case Ignore => s'
      case Stop => s'.(loop := Disconnected)
      case Deliver(i) =>
        if i >= |s.queues| then s.(loop := Crashed)
        else
          var offset := z.Table()[i].offset;
          s'.(queues := s.queues[i := Grown(s.queues[i], offset, code, payload)],
              waiting := s.waiting[i := s.waiting[i] + [Message((code - offset) % UINT16, payload)]])
      case _ => s.(loop := Crashed)
  }

  /** The first read waits on an empty queue, and otherwise takes what is there. */
  function HeadStep(s: State, i: nat): State
    requires i < |s.queues| == |s.reading|
  {
    if s.queues[i] == [] then s
    else
      var (h, rest) := TakeHead(s.queues[i]);
      s.(queues := s.queues[i := rest], reading := s.reading[i := Some(h)])
  }

  /** The second read waits on an empty queue if there is something to read, and otherwise takes what is there. */
  function BodyStep(s: State, i: nat): State
    requires i < |s.queues| == |s.reading| == |s.got| == |s.waiting| && s.reading[i].Some?
    requires |s.reading[i].value| == HEADER_SIZE
  {
    var h := s.reading[i].value;
    if Length(h) > 0 && s.queues[i] == [] then s
    else
      var (m, rest) := TakeBody(h, s.queues[i]);
      s.(queues := s.queues[i := rest], reading := s.reading[i := None], got := s.got[i := s.got[i] + [m]],
         waiting := s.waiting[i := if s.waiting[i] == [] then [] else s.waiting[i][1..]])
  }

  ghost predicate Shaped(z: Session, s: State) {
    && |s.queues| == |s.reading| == |s.sent| == |s.got| == |s.waiting| == |z.near| == |z.far|
    && forall i :: 0 <= i < |s.reading| && s.reading[i].Some? ==> |s.reading[i].value| == HEADER_SIZE
  }

  function Next(z: Session, s: State, step: Step): State
    requires Allowed(z, s, step) && Shaped(z, s)
  {
    match step
    case Write(i, m) => WriteStep(z, s, i, m)
    case Control(m) => Emit(z, s, m)
    case Receive => ReceiveStep(z, s)
    case ReadHead(i) => HeadStep(s, i)
    case ReadBody(i) => BodyStep(s, i)
  }

  // ----- the invariant -----

  /** A raw message on the wire: base protocol, or one of a stream. */
  predicate OnWire(z: Session, m: Message) {
    z.codec.fits(m) && (Base(m) || (Owned(z, m.code) && |m.payload| < UINT32))
  }

  predicate Owned(z: Session, code: Uint64) {
    code >= BASE_PROTOCOL_LENGTH && Owner(z.Table(), code).Some?
  }

  /** The messages in flight for stream `i`, with their own codes. */
  function For(z: Session, flight: seq<Message>, i: nat): seq<Message>
    requires i < |z.far|
  {
    if flight == [] then []
    else
      (if GoesTo(z, flight[0], i) then [Own(z, flight[0], i)] else []) + For(z, flight[1..], i)
  }

  predicate GoesTo(z: Session, m: Message, i: nat) {
    m.code >= BASE_PROTOCOL_LENGTH && Owner(z.Table(), m.code) == Some(i)
  }

  /** The message with the code of its protocol. */
  function Own(z: Session, m: Message, i: nat): Message
    requires i < |z.far| && GoesTo(z, m, i)
  {
    Message(m.code - z.Table()[i].offset, m.payload)
  }

  ghost predicate WireOk(z: Session, s: State) {
    && s.tail.link == s.link && s.wire == WriteAll(z.codec, s.tail, s.flight)
    && s.sender == After(z.codec, s.tail, s.flight)
    && forall j :: 0 <= j < |s.flight| ==> OnWire(z, s.flight[j])
  }

  /** A stream's queue holds the messages waiting, without the header its reader has taken. */
  ghost predicate Holds(q: Bytes, header: Option<Bytes>, waiting: seq<Message>)
    requires AllQueueable(waiting)
  {
    if header.None? then q == QueuedAll(waiting)
    else
      && waiting != [] && header.value == Head(waiting[0].code, |waiting[0].payload|)
      && q == waiting[0].payload + QueuedAll(waiting[1..])
  }

  ghost predicate QueueOk(z: Session, s: State, i: nat)
    requires Shaped(z, s) && i < |z.far|
  {
    && AllQueueable(s.waiting[i]) && Holds(s.queues[i], s.reading[i], s.waiting[i])
    && s.sent[i] == s.got[i] + s.waiting[i] + For(z, s.flight, i)
  }

  ghost predicate Inv(z: Session, s: State) {
    && z.Valid() && Shaped(z, s) && WireOk(z, s)
    && (s.loop == Crashed ==> s.flight != [] && s.flight[0].code >= 0x80)
    && forall i :: 0 <= i < |z.far| ==> QueueOk(z, s, i)
  }

  lemma InitialInv(z: Session, s: Sender)
    requires z.Valid()
    ensures Inv(z, Initial(|z.far|, s))
  {}

  lemma {:induction false} ForAppend(z: Session, flight: seq<Message>, m: Message, i: nat)
    requires i < |z.far|
    ensures For(z, flight + [m], i) == For(z, flight, i) + For(z, [m], i)
  {
    if flight == [] {
      assert flight + [m] == [m];
    } else {
      assert (flight + [m])[1..] == flight[1..] + [m];
      ForAppend(z, flight[1..], m, i);
    }
  }

  /** Appending one frame keeps the wire readable. */
  lemma EmitWire(z: Session, s: State, m: Message)
    requires z.Valid() && WireOk(z, s) && (z.codec.fits(m) ==> OnWire(z, m))
    ensures WireOk(z, Emit(z, s, m))
  {
    if z.codec.fits(m) {
      WriteOneMore(z.codec, s.tail, s.flight, m);
    }
  }

  /** A written message is in flight for its own stream and no other. */
  lemma {:induction false} ForRaw(z: Session, i: nat, m: Message, j: nat)
    requires z.Valid() && z.Proper(i, m) && j < |z.far|
    ensures Owned(z, z.Raw(i, m).code) && Owner(z.Table(), z.Raw(i, m).code) == Some(i)
    ensures For(z, [z.Raw(i, m)], j) == if j == i then [m] else []
  {
    SameTable(z.near, z.far);
    RoutingInverts(z.far, i, m.code);
    Consecutive(z.far, i);
    assert [z.Raw(i, m)][1..] == [];
    assert For(z, [], j) == [];
  }

  lemma {:induction false} WriteInv(z: Session, s: State, i: nat, m: Message)
    requires Inv(z, s) && z.Proper(i, m)
    ensures Inv(z, WriteStep(z, s, i, m))
  {
    var raw, s' := z.Raw(i, m), WriteStep(z, s, i, m);
    ForRaw(z, i, m, i);
    EmitWire(z, s, raw);
    if z.codec.fits(raw) {
      forall j | 0 <= j < |z.far|
        ensures QueueOk(z, s', j)
      {
        WriteQueue(z, s, i, m, j);
      }
    }
  }

  lemma {:induction false} WriteQueue(z: Session, s: State, i: nat, m: Message, j: nat)
    requires Inv(z, s) && z.Proper(i, m) && j < |z.far| && z.codec.fits(z.Raw(i, m))
    ensures Shaped(z, WriteStep(z, s, i, m)) && QueueOk(z, WriteStep(z, s, i, m), j)
  {
    assert QueueOk(z, s, j);
    ForRaw(z, i, m, j);
    ForAppend(z, s.flight, z.Raw(i, m), j);
    assert s.got[j] + s.waiting[j] + (For(z, s.flight, j) + [m]) == s.got[j] + s.waiting[j] + For(z, s.flight, j) + [m];
    assert For(z, s.flight, j) + [] == For(z, s.flight, j);
  }

  lemma {:induction false} ControlInv(z: Session, s: State, m: Message)
    requires Inv(z, s) && Base(m)
    ensures Inv(z, Emit(z, s, m))
  {
    var s' := Emit(z, s, m);
    EmitWire(z, s, m);
    forall j | 0 <= j < |z.far|
      ensures QueueOk(z, s', j)
    {
      assert QueueOk(z, s, j);
      ForAppend(z, s.flight, m, j);
      assert [m][1..] == [];
      assert For(z, [m], j) == [];
    }
  }

  /** What the receive loop reads is the oldest message in flight. */
  lemma ReadsOldest(z: Session, s: State)
    requires z.Valid() && WireOk(z, s)
    ensures s.flight == [] ==> z.codec.read(s.link, s.wire) == Failed(Eof)
    ensures s.flight != [] ==>
      var m, (b, t) := s.flight[0], z.codec.write(s.tail, s.flight[0]);
      z.codec.read(s.link, s.wire) ==
      if m.code < 0x80 then Got(m.code, m.payload, t.link, WriteAll(z.codec, t, s.flight[1..])) else Failed(CodeTooBig)
  {
    if s.flight != [] {
      var m := s.flight[0];
      assert OnWire(z, m);
      var (b, t) := z.codec.write(s.tail, m);
      assert ReadsBack(z.codec, s.tail, m, WriteAll(z.codec, t, s.flight[1..]));
    }
  }

  /** The loop crashes exactly if the oldest message in flight has a raw code of
      0x80 or more, and returns exactly if it is a disconnect message. */
  lemma LoopEndsIff(z: Session, s: State)
    requires Inv(z, s) && s.loop == Running
    ensures ReceiveStep(z, s).loop == Crashed <==> s.flight != [] && s.flight[0].code >= 0x80
    ensures ReceiveStep(z, s).loop == Disconnected <==> s.flight != [] && s.flight[0].code == DISC_MSG
  {
    ReadsOldest(z, s);
    if s.flight != [] {
      var m := s.flight[0];
      assert OnWire(z, m);
    }
  }

  lemma {:induction false} ReceiveInv(z: Session, s: State)
    requires Inv(z, s) && s.loop == Running
    ensures Inv(z, ReceiveStep(z, s))
  {
    ReadsOldest(z, s);
    LoopEndsIff(z, s);
    if s.flight != [] && s.flight[0].code < 0x80 {
      var s', m := ReceiveStep(z, s), s.flight[0];
      assert OnWire(z, m);
      assert WireOk(z, s');
      forall j | 0 <= j < |z.far|
        ensures QueueOk(z, s', j)
      {
        assert QueueOk(z, s, j);
        Arrives(z, s, j);
      }
    } else {
      CrashKeeps(z, s);
    }
  }

  /** A turn that crashes or waits touches nothing else. */
  lemma CrashKeeps(z: Session, s: State)
    requires Inv(z, s) && s.loop == Running && (s.flight == [] || s.flight[0].code >= 0x80)
    ensures ReceiveStep(z, s) == s.(loop := if s.flight == [] then Running else Crashed)
    ensures Inv(z, ReceiveStep(z, s))
  {
    ReadsOldest(z, s);
    var s' := ReceiveStep(z, s);
    forall j | 0 <= j < |z.far|
      ensures QueueOk(z, s', j)
    {
      assert QueueOk(z, s, j);
    }
  }

  /** The oldest message is off the wire. */
  function Popped(z: Session, s: State): State
    requires s.flight != []
  {
    var t := z.codec.write(s.tail, s.flight[0]).1;
    s.(link := t.link, wire := WriteAll(z.codec, t, s.flight[1..]), tail := t, flight := s.flight[1..])
  }

  /** A turn that reads a message: one of the base protocol goes to no stream, any other to its owner. */
  lemma ReceiveIs(z: Session, s: State)
    requires z.Valid() && Shaped(z, s) && WireOk(z, s) && s.flight != [] && s.flight[0].code < 0x80
    ensures OnWire(z, s.flight[0])
    ensures var m := s.flight[0];
      if Base(m) then ReceiveStep(z, s) == Popped(z, s).(loop := if m.code == DISC_MSG then Disconnected else s.loop)
      else
        var i := Owner(z.Table(), m.code).value;
        && GoesTo(z, m, i)
        && ReceiveStep(z, s) ==
           Popped(z, s).(queues := s.queues[i := Grown(s.queues[i], z.Table()[i].offset, m.code, m.payload)],
                         waiting := s.waiting[i := s.waiting[i] + [Own(z, m, i)]])
  {
    ReadsOldest(z, s);
    assert OnWire(z, s.flight[0]);
  }

  /** What the turn does to a stream. */
  lemma ReceiveEffect(z: Session, s: State, j: nat)
    requires z.Valid() && Shaped(z, s) && WireOk(z, s) && s.flight != [] && s.flight[0].code < 0x80 && j < |z.far|
    ensures var s', m := ReceiveStep(z, s), s.flight[0];
      && OnWire(z, m) && s'.flight == s.flight[1..] && Shaped(z, s')
      && s'.sent[j] == s.sent[j] && s'.got[j] == s.got[j] && s'.reading[j] == s.reading[j]
      && if GoesTo(z, m, j) then
           && s'.queues[j] == Grown(s.queues[j], z.Table()[j].offset, m.code, m.payload)
           && s'.waiting[j] == s.waiting[j] + [Own(z, m, j)]
         else s'.queues[j] == s.queues[j] && s'.waiting[j] == s.waiting[j]
  {
    ReceiveIs(z, s);
  }

  /** The arriving message moves from the wire into its stream's queue. */
  lemma {:induction false} Arrives(z: Session, s: State, j: nat)
    requires z.Valid() && Shaped(z, s) && WireOk(z, s) && s.flight != [] && s.flight[0].code < 0x80
    requires j < |z.far| && QueueOk(z, s, j)
    ensures Shaped(z, ReceiveStep(z, s)) && QueueOk(z, ReceiveStep(z, s), j)
  {
    ReceiveEffect(z, s, j);
    ForFirst(z, s.flight, j);
    if GoesTo(z, s.flight[0], j) {
      ArrivesOwn(z, s, j);
    }
  }

  lemma {:induction false} ArrivesOwn(z: Session, s: State, j: nat)
    requires Shaped(z, s) && s.flight != [] && s.flight[0].code < 0x80 && |s.flight[0].payload| < UINT32
    requires j < |z.far| && QueueOk(z, s, j) && GoesTo(z, s.flight[0], j)
    ensures var m := s.flight[0]; var w, own := s.waiting[j], Own(z, m, j);
      && AllQueueable(w + [own])
      && Holds(Grown(s.queues[j], z.Table()[j].offset, m.code, m.payload), s.reading[j], w + [own])
      && s.sent[j] == s.got[j] + (w + [own]) + For(z, s.flight[1..], j)
  {
    var m := s.flight[0];
    ForFirst(z, s.flight, j);
    GrownIsQueued(s.queues[j], z.Table()[j].offset, m.code, m.payload);
    HoldsOneMore(s.queues[j], s.reading[j], s.waiting[j], Own(z, m, j));
    MoveAlong(s.got[j], s.waiting[j], Own(z, m, j), For(z, s.flight[1..], j));
  }

  lemma ForFirst(z: Session, flight: seq<Message>, j: nat)
    requires flight != [] && j < |z.far|
    ensures For(z, flight, j) ==
            if GoesTo(z, flight[0], j) then [Own(z, flight[0], j)] + For(z, flight[1..], j) else For(z, flight[1..], j)
  {
    var rest := For(z, flight[1..], j);
    assert [] + rest == rest;
  }

  lemma MoveAlong(got: seq<Message>, waiting: seq<Message>, m: Message, rest: seq<Message>)
    ensures got + waiting + ([m] + rest) == got + (waiting + [m]) + rest
  {}

  lemma GrownIsQueued(q: Bytes, offset: Uint64, code: Uint64, payload: Bytes)
    requires |payload| < UINT32 && offset <= code < 0x80
    ensures Grown(q, offset, code, payload) == q + Queued(Message(code - offset, payload))
  {
    assert (code - offset) % UINT16 == code - offset && |payload| % UINT32 == |payload|;
    Associative(q, Head(code - offset, |payload|), payload);
  }

  /** A message appended to the queue waits behind the others, also between the reader's two reads. */
  lemma HoldsOneMore(q: Bytes, header: Option<Bytes>, waiting: seq<Message>, m: Message)
    requires AllQueueable(waiting) && Queueable(m) && Holds(q, header, waiting)
    ensures AllQueueable(waiting + [m]) && Holds(q + Queued(m), header, waiting + [m])
  {
    if header.None? {
      QueueOneMore(waiting, m);
    } else {
      QueueOneMore(waiting[1..], m);
      assert (waiting + [m])[1..] == waiting[1..] + [m];
      Associative(waiting[0].payload, QueuedAll(waiting[1..]), Queued(m));
    }
  }

  lemma {:induction false} HeadInv(z: Session, s: State, i: nat)
    requires Inv(z, s) && i < |z.far| && s.reading[i].None?
    ensures Inv(z, HeadStep(s, i))
  {
    var s', w := HeadStep(s, i), s.waiting[i];
    assert QueueOk(z, s, i);
    if w != [] {
      HeadOfWhole(w[0], QueuedAll(w[1..]));
    }
    forall j | 0 <= j < |z.far|
      ensures QueueOk(z, s', j)
    {
      assert QueueOk(z, s, j);
    }
  }

  /** The second read never waits: a message arrives as a whole. */
  lemma {:induction false} BodyEffect(z: Session, s: State, i: nat)
    requires Inv(z, s) && i < |z.far| && s.reading[i].Some?
    ensures var s', w := BodyStep(s, i), s.waiting[i];
      && w != [] && AllQueueable(w[1..]) && s' == s.(queues := s.queues[i := QueuedAll(w[1..])],
          reading := s.reading[i := None],
                             got := s.got[i := s.got[i] + [w[0]]], waiting := s.waiting[i := w[1..]])
  {
    var w := s.waiting[i];
    assert QueueOk(z, s, i);
    BodyOfWhole(w[0], QueuedAll(w[1..]));
  }

  lemma {:induction false} BodyInv(z: Session, s: State, i: nat)
    requires Inv(z, s) && i < |z.far| && s.reading[i].Some?
    ensures Inv(z, BodyStep(s, i)) && s.waiting[i] != [] && BodyStep(s, i).got[i] == s.got[i] + [s.waiting[i][0]]
  {
    var s', w := BodyStep(s, i), s.waiting[i];
    BodyEffect(z, s, i);
    assert WireOk(z, s');
    forall j | 0 <= j < |z.far|
      ensures QueueOk(z, s', j)
    {
      assert QueueOk(z, s, j);
      if j == i {
        assert w == [w[0]] + w[1..];
        Taken(s.got[i], w, For(z, s.flight, i));
      }
    }
  }

  lemma Taken(got: seq<Message>, w: seq<Message>, rest: seq<Message>)
    requires w != []
    ensures got + w + rest == (got + [w[0]]) + w[1..] + rest
  {
    assert w == [w[0]] + w[1..];
  }

  lemma NextInv(z: Session, s: State, step: Step)
    requires Inv(z, s) && Allowed(z, s, step)
    ensures Inv(z, Next(z, s, step))
  {
    match step
    case Write(i, m) => WriteInv(z, s, i, m);
    case Control(m) => ControlInv(z, s, m);
    case Receive => ReceiveInv(z, s);
    case ReadHead(i) => HeadInv(z, s, i);
    case ReadBody(i) => BodyInv(z, s, i);
  }

  // ----- every run -----

  ghost predicate Run(z: Session, start: Sender, states: seq<State>, steps: seq<Step>) {
    && |states| == |steps| + 1
    && states[0] == Initial(|z.far|, start)
    && forall i :: 0 <= i < |steps| ==>
         Shaped(z, states[i]) && Allowed(z, states[i], steps[i]) && states[i + 1] == Next(z, states[i], steps[i])
  }

  lemma {:induction false} RunInv(z: Session, start: Sender, states: seq<State>, steps: seq<Step>, n: nat)
    requires z.Valid() && Run(z, start, states, steps) && n <= |steps|
    ensures Inv(z, states[n])
  {
    if n == 0 {
      InitialInv(z, start);
    } else {
      RunInv(z, start, states, steps, n - 1);
      NextInv(z, states[n - 1], steps[n - 1]);
      assert states[n] == Next(z, states[n - 1], steps[n - 1]);
    }
  }

  lemma NonEmptyWire(z: Session, s: State)
    requires z.Valid() && WireOk(z, s)
    ensures s.flight != [] ==> s.wire != []
  {
    if s.flight != [] {
      assert OnWire(z, s.flight[0]);
      assert ReadsBack(z.codec, s.tail, s.flight[0], []);
    }
  }

  /** At every moment of every run, what the reader of a stream has got is a
      prefix of what was sent on it, and a drained system has delivered
      everything; the receive loop has crashed only if the message it is at
      has a raw code of 0x80 or more. */
  lemma DeliveredInOrder(z: Session, start: Sender, states: seq<State>, steps: seq<Step>, n: nat, i: nat)
    requires z.Valid() && Run(z, start, states, steps) && n <= |steps| && i < |z.far|
    ensures var s := states[n];
      && Shaped(z, s) && s.got[i] <= s.sent[i]
      && (s.wire == [] && s.queues[i] == [] && s.reading[i].None? ==> s.got[i] == s.sent[i])
      && (s.loop == Crashed ==> s.flight != [] && s.flight[0].code >= 0x80)
  {
    RunInv(z, start, states, steps, n);
    var s := states[n];
    assert QueueOk(z, s, i);
    NonEmptyWire(z, s);
    assert s.queues[i] == [] && s.reading[i].None? ==> s.waiting[i] == [];
  }

  // ----- nothing is stuck -----

  /** A write is accepted exactly if its frame fits, and then is behind everything in flight. */
  lemma WriteIff(z: Session, s: State, i: nat, m: Message)
    requires Shaped(z, s) && z.Proper(i, m)
    ensures var s' := WriteStep(z, s, i, m);
      && (s'.sent[i] == s.sent[i] + [m] <==> z.codec.fits(z.Raw(i, m)))
      && (z.codec.fits(z.Raw(i, m)) ==> s'.flight == s.flight + [z.Raw(i, m)])
      && (!z.codec.fits(z.Raw(i, m)) ==> s' == s)
  {
    assert |s.sent[i] + [m]| > |s.sent[i]|;
  }

  ghost predicate Executes(z: Session, s: State, steps: seq<Step>, t: State)
    decreases |steps|
  {
    if steps == [] then s == t
    else Shaped(z, s) && Allowed(z, s, steps[0]) && Executes(z, Next(z, s, steps[0]), steps[1..], t)
  }

  lemma {:induction false} ExecutesThen(z: Session, s: State, a: seq<Step>, t: State, b: seq<Step>, u: State)
    requires Executes(z, s, a, t) && Executes(z, t, b, u)
    ensures Executes(z, s, a + b, u)
    decreases |a|
  {
    if a == [] {
      assert a + b == b;
    } else {
      ExecutesThen(z, Next(z, s, a[0]), a[1..], t, b, u);
      assert (a + b)[1..] == a[1..] + b;
    }
  }

  lemma ExecutesOne(z: Session, s: State, step: Step)
    requires Shaped(z, s) && Allowed(z, s, step)
    ensures Executes(z, s, [step], Next(z, s, step))
  {
    assert [step][1..] == [];
  }

  /** What is in flight neither crashes the loop nor ends it. */
  ghost predicate Harmless(flight: seq<Message>) {
    forall j :: 0 <= j < |flight| ==> flight[j].code < 0x80 && flight[j].code != 1
  }

  /** The receive loop can take everything off the wire. */
  lemma {:induction false} ReceiveAll(z: Session, s: State) returns (steps: seq<Step>, t: State)
    requires Inv(z, s) && s.loop == Running && Harmless(s.flight)
    ensures Executes(z, s, steps, t) && Inv(z, t) && t.flight == [] && t.sent == s.sent
    decreases |s.flight|
  {
    if s.flight == [] {
      return [], s;
    }
    var s' := ReceiveStep(z, s);
    ReceiveInv(z, s);
    LoopEndsIff(z, s);
    ReceiveIs(z, s);
    assert s'.flight == s.flight[1..] && s'.sent == s.sent;
    ExecutesOne(z, s, Receive);
    var more;
    more, t := ReceiveAll(z, s');
    ExecutesThen(z, s, [Receive], s', more, t);
    steps := [Receive] + more;
  }

  /** The reader of a stream can take one more message if one waits. */
  lemma {:induction false} ReadOne(z: Session, s: State, i: nat) returns (steps: seq<Step>, t: State)
    requires Inv(z, s) && i < |z.far| && s.waiting[i] != []
    ensures Executes(z, s, steps, t) && Inv(z, t) && t.flight == s.flight && t.sent == s.sent
    ensures t.waiting[i] == s.waiting[i][1..]
  {
    var s', before := s, [];
    if s.reading[i].None? {
      assert QueueOk(z, s, i);
      HeadInv(z, s, i);
      ExecutesOne(z, s, ReadHead(i));
      s', before := HeadStep(s, i), [ReadHead(i)];
    }
    BodyEffect(z, s', i);
    BodyInv(z, s', i);
    ExecutesOne(z, s', ReadBody(i));
    t := BodyStep(s', i);
    ExecutesThen(z, s, before, s', [ReadBody(i)], t);
    steps := before + [ReadBody(i)];
  }

  lemma {:induction false} ReadRest(z: Session, s: State, i: nat) returns (steps: seq<Step>, t: State)
    requires Inv(z, s) && i < |z.far|
    ensures Executes(z, s, steps, t) && Inv(z, t) && t.flight == s.flight && t.sent == s.sent && t.waiting[i] == []
    decreases |s.waiting[i]|
  {
    if s.waiting[i] == [] {
      return [], s;
    }
    var first, s' := ReadOne(z, s, i);
    var more;
    more, t := ReadRest(z, s', i);
    ExecutesThen(z, s, first, s', more, t);
    steps := first + more;
  }

  /** At every moment of every run in which the loop runs, and unless a message in flight crashes it or ends it, the
      run can go on so that the reader of a stream has got exactly what was sent on it. */
  lemma CanBeDelivered(z: Session, start: Sender, states: seq<State>, steps: seq<Step>, n: nat, i: nat)
    requires z.Valid() && Run(z, start, states, steps) && n <= |steps| && i < |z.far|
    requires states[n].loop == Running && Harmless(states[n].flight)
    ensures Shaped(z, states[n])
    ensures exists more: seq<Step>, t: State ::
      Executes(z, states[n], more, t) && Shaped(z, t) && t.sent == states[n].sent && t.got[i] == t.sent[i]
  {
    RunInv(z, start, states, steps, n);
    var s := states[n];
    var a, s' := ReceiveAll(z, s);
    var b, t := ReadRest(z, s', i);
    ExecutesThen(z, s, a, s', b, t);
    assert QueueOk(z, t, i);
    assert t.got[i] == t.sent[i];
  }

  // ----- which sessions can crash -----

  /** The step writes this raw message. */
  predicate Writes(z: Session, step: Step, raw: Message) {
    match step
    case Write(i, m) => z.Proper(i, m) && z.Raw(i, m) == raw
    case Control(m) => Base(m) && m == raw
    case _ => false
  }

  /** A message in flight after a step was written by it, or was in flight before. */
  lemma FlightStep(z: Session, s: State, step: Step, j: nat) returns (i: nat)
    requires Inv(z, s) && Allowed(z, s, step) && j < |Next(z, s, step).flight|
    ensures i < |s.flight| ==> Next(z, s, step).flight[j] == s.flight[i]
    ensures i >= |s.flight| ==> Writes(z, step, Next(z, s, step).flight[j])
  {
    if step.Receive? { ReadsOldest(z, s); }
    i := if step.Receive? && |Next(z, s, step).flight| < |s.flight| then j + 1 else j;
  }

  /** Whatever is in flight was written. */
  lemma {:induction false} FlightWasWritten(z: Session, start: Sender, states: seq<State>, steps: seq<Step>,
      n: nat, j: nat)
    returns (k: nat)
    requires z.Valid() && Run(z, start, states, steps) && n <= |steps| && j < |states[n].flight|
    ensures k < n && Writes(z, steps[k], states[n].flight[j])
    decreases n
  {
    RunInv(z, start, states, steps, n - 1);
    assert states[n] == Next(z, states[n - 1], steps[n - 1]);
    var i := FlightStep(z, states[n - 1], steps[n - 1], j);
    if i < |states[n - 1].flight| {
      k := FlightWasWritten(z, start, states, steps, n - 1, i);
    } else {
      k := n - 1;
    }
  }

  /** In some run the receive loop crashes. */
  ghost predicate CanCrash(z: Session) {
    exists start: Sender, states: seq<State>, steps: seq<Step> ::
      Run(z, start, states, steps) && states[|steps|].loop == Crashed
  }

  /** A message of a shared protocol that is written and that the reader fails on. */
  predicate Fatally(z: Session, i: nat, m: Message) {
    z.Proper(i, m) && Fatal(z.codec, z.Raw(i, m))
  }

  /** Some run crashes if and only if some shared protocol has a message whose raw code is 0x80 or more. */
  lemma CrashIff(z: Session)
    requires z.Valid()
    ensures CanCrash(z) <==> exists i, m :: Fatally(z, i, m)
  {
    if i, m :| Fatally(z, i, m) {
      FatalRun(z, i, m);
    }
    if CanCrash(z) {
      var start: Sender, states: seq<State>, steps: seq<Step> :|
        Run(z, start, states, steps) && states[|steps|].loop == Crashed;
      RunInv(z, start, states, steps, |steps|);
      assert OnWire(z, states[|steps|].flight[0]);
      var k := FlightWasWritten(z, start, states, steps, |steps|, 0);
      assert Fatally(z, steps[k].stream, steps[k].msg);
    }
  }

  lemma FatalRun(z: Session, i: nat, m: Message)
    requires z.Valid() && Fatally(z, i, m)
    ensures CanCrash(z)
  {
    var link := Link(0, []);
    var start := Sender(link, Zeros(16));
    var s0 := Initial(|z.far|, start);
    InitialInv(z, start);
    var s1 := WriteStep(z, s0, i, m);
    WriteInv(z, s0, i, m);
    assert s1.flight == [z.Raw(i, m)];
    LoopEndsIff(z, s1);
    var states, steps := [s0, s1, ReceiveStep(z, s1)], [Write(i, m), Receive];
    assert Run(z, start, states, steps);
  }

  // ----- RLPx sessions -----

  /** RLPx sessions whose ends agree on the table are sessions in this sense. */
  lemma RlpxSession(c: Crypto, snappy: bool, near: seq<Spec>, far: seq<Spec>)
    requires c.Valid() && NoOverflow(near) && Layout(near) == Layout(far)
    ensures Session(CodecOf(c, snappy), near, far).Valid()
  {
    FramesAreFaithful(c, snappy);
  }

  /** The protocol whose range reaches beyond 0x80. */
  lemma {:induction false} LargeProtocol(specs: seq<Spec>, n: nat) returns (i: nat)
    requires n <= |specs| && BASE_PROTOCOL_LENGTH + Total(specs[..n]) > 0x80
    ensures i < n && specs[i].length > 0 && BASE_PROTOCOL_LENGTH + Total(specs[..i]) + specs[i].length > 0x80
  {
    assert specs[..n][..n - 1] == specs[..n - 1];
    if specs[n - 1].length > 0 {
      i := n - 1;
    } else {
      i := LargeProtocol(specs, n - 1);
    }
  }

  /** An RLPx session can crash if and only if the base protocol and the shared
      protocols together have more than 0x80 codes.  With snappy this needs
      that the empty payload compresses to a few bytes. */
  lemma RlpxCrashIff(c: Crypto, snappy: bool, specs: seq<Spec>)
    requires c.Valid() && NoOverflow(specs) && (snappy ==> |c.compress([])| <= 0xffff)
    ensures CanCrash(Session(CodecOf(c, snappy), specs, specs)) <==> 16 + Total(specs) > 0x80
  {
    var z := Session(CodecOf(c, snappy), specs, specs);
    RlpxSession(c, snappy, specs, specs);
    CrashIff(z);
    if 16 + Total(specs) > 0x80 {
      var i, m := FatalMessage(c, snappy, specs);
    } else {
      forall i, m | z.Proper(i, m)
        ensures !Fatally(z, i, m)
      {
        Consecutive(specs, i);
      }
    }
  }

  lemma FatalMessage(c: Crypto, snappy: bool, specs: seq<Spec>) returns (i: nat, m: Message)
    requires NoOverflow(specs) && (snappy ==> |c.compress([])| <= 0xffff) && 16 + Total(specs) > 0x80
    ensures Fatally(Session(CodecOf(c, snappy), specs, specs), i, m)
  {
    assert specs[..|specs|] == specs;
    i := LargeProtocol(specs, |specs|);
    Consecutive(specs, i);
    m := Message(specs[i].length - 1, []);
    EmptyFits(c, snappy, Layout(specs)[i].offset + m.code);
  }

  lemma EmptyFits(c: Crypto, snappy: bool, code: Uint64)
    requires snappy ==> |c.compress([])| <= 0xffff
    ensures Fits(c, snappy, code, [])
  {}
}
