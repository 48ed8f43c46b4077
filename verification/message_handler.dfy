/**
 * The message handler (`MspMessageHandler`) and the byte loop around it. The
 * handler holds its OWN copy of the flight model, taken when it is built, and
 * copies every message's bytes into that copy's frame buffer; its dispatcher
 * runs the executors on the caller's SHARED model. The two never meet: the
 * executors never see the frame buffer, and the handler's copy never sees an
 * executor.
 */
module MessageHandler {
  import opened Octets
  import opened MspTypes
  import opened MspParser
  import opened FlightData
  import opened Executors
  import opened Dispatcher
  import opened MspFrames

  /** `sizeof(MspMessage)`: four one-byte fields and the payload array, without padding. */
  const MessageImageSize: nat := 4 + MaxPayloadSize

  /** The `uint8_t` value of a direction. */
  function DirectionByte(d: Direction): byte
  {
    match d
    case Outbound => 0
    case Inbound => 1
  }

  /** The bytes of a message record as laid out in memory: direction, command, size, checksum, payload. */
  function MessageImage(m: Message): (img: seq<byte>)
    ensures |img| == MessageImageSize
    ensures img[0] == DirectionByte(m.direction)
    ensures img[1] == m.cmd.Id() && img[2] == m.size && img[3] == m.checksum
    ensures img[4..] == m.payload
  {
    [DirectionByte(m.direction), m.cmd.Id(), m.size, m.checksum] + m.payload
  }

  /** The record can be read back from its image. */
  lemma MessageImageRoundTrip(m: Message)
    ensures var img := MessageImage(m);
      Message(if img[0] == 0 then Outbound else Inbound, ToMspCommand(img[1]), img[2], img[3], img[4..]) == m
  {
    CommandIdRoundTrip(m.cmd);
  }

  datatype Handler = Handler(own: FlightDataModel, dispatcher: Dispatcher)

  /** Construction: the model is copied into the handler, and the dispatcher has its base executors. */
  function NewHandler(shared: FlightDataModel): (h: Handler)
    ensures h.own == shared && h.dispatcher == NewDispatcher()
  {
    Handler(shared, NewDispatcher())
  }

  /**
   * `onMspMessage`: the message's image goes into the handler's own frame
   * buffer, and the message is dispatched on the shared model. Returns the
   * handler, the shared model and the reports sent.
   */
  function OnMessage(h: Handler, shared: FlightDataModel, msg: Message)
    : (r: (Handler, FlightDataModel, seq<AlinkReport>))
    ensures r.0.dispatcher == h.dispatcher
    ensures r.0.own.(frameBuffer := h.own.frameBuffer, fbCursor := h.own.fbCursor) == h.own
    ensures MessageImageSize <= r.0.own.fbCursor <= FrameBufferSize
    ensures r.1.frameBuffer == shared.frameBuffer && r.1.fbCursor == shared.fbCursor
    ensures (r.1, r.2) == Dispatch(h.dispatcher, msg, shared)
  {
    var img := MessageImage(msg);
    var own := CopyToFrameBuffer(h.own, img);
    var d := Dispatch(h.dispatcher, msg, shared);
    (h.(own := own), d.0, d.1)
  }

  /** After a message, its image is the 260 bytes just before the cursor of the handler's own buffer. */
  lemma OnMessageStoresImage(h: Handler, shared: FlightDataModel, msg: Message)
    ensures var own := OnMessage(h, shared, msg).0.own;
      forall i | 0 <= i < MessageImageSize ::
        own.frameBuffer[own.fbCursor - MessageImageSize + i] == MessageImage(msg)[i]
  {
    var img := MessageImage(msg);
    var own := CopyToFrameBuffer(h.own, img);
    assert OnMessage(h, shared, msg).0.own == own;
    assert forall i | 0 <= i < |img| :: own.frameBuffer[own.fbCursor - |img| + i] == img[i];
  }

  /**
   * Images are 260 bytes and the buffer 1024, so three fit: the cursor runs
   * 260, 520, 780 and then, the fourth not fitting, flushes back to 260.
   */
  lemma OnMessageCursorCycle(h: Handler, shared: FlightDataModel, msg: Message)
    requires h.own.fbCursor in {0, 260, 520, 780}
    ensures OnMessage(h, shared, msg).0.own.fbCursor
         == (if h.own.fbCursor == 780 then 260 else h.own.fbCursor + MessageImageSize)
  {
  }

  /** Handles `msgs` in order, threading the handler and the shared model. */
  function HandleAll(h: Handler, shared: FlightDataModel, msgs: seq<Message>)
    : (r: (Handler, FlightDataModel, seq<AlinkReport>))
    ensures r.0.dispatcher == h.dispatcher
    ensures r.0.own.(frameBuffer := h.own.frameBuffer, fbCursor := h.own.fbCursor) == h.own
    ensures r.1.frameBuffer == shared.frameBuffer && r.1.fbCursor == shared.fbCursor
    decreases |msgs|
  {
    if |msgs| == 0 then (h, shared, [])
    else
      var o := OnMessage(h, shared, msgs[0]);
      var rest := HandleAll(o.0, o.1, msgs[1..]);
      (rest.0, rest.1, o.2 + rest.2)
  }

  /** The running program: parser, handler and the shared model the executors update. */
  datatype Session = Session(parser: Parser, handler: Handler, shared: FlightDataModel)

  /** Start-up: reset parser, a handler built on the shared model, and the RC executors wired in. */
  function StartSession(shared: FlightDataModel, outPort: int): (s: Session)
    ensures s.parser == Reset() && s.handler.own == shared && s.shared == shared
    ensures s.handler.dispatcher == StartupDispatcher(outPort)
  {
    var h := NewHandler(shared);
    Session(Reset(), h.(dispatcher := WireRc(h.dispatcher, outPort)), shared)
  }

  /** One byte: the parser steps, and a completed message is handled at once. */
  function ProcessByte(s: Session, b: byte): (r: (Session, seq<AlinkReport>))
    requires Safe(s.parser)
    ensures Safe(r.0.parser)
    ensures r.0.parser == Step(s.parser, b).0
    ensures r.0.handler.dispatcher == s.handler.dispatcher
    ensures Step(s.parser, b).1 == None ==> r == (s.(parser := r.0.parser), [])
  {
    var st := Step(s.parser, b);
    if st.1.Some? then
      var o := OnMessage(s.handler, s.shared, st.1.value);
      (Session(st.0, o.0, o.1), o.2)
    else (s.(parser := st.0), [])
  }

  /** The read loop: every byte in order. */
  function Process(s: Session, bs: seq<byte>): (r: (Session, seq<AlinkReport>))
    requires Safe(s.parser)
    ensures Safe(r.0.parser)
    ensures r.0.parser == Feed(s.parser, bs).0
    ensures r.0.handler.dispatcher == s.handler.dispatcher
    decreases |bs|
  {
    if |bs| == 0 then (s, [])
    else
      var p := ProcessByte(s, bs[0]);
      var q := Process(p.0, bs[1..]);
      (q.0, p.1 + q.1)
  }

  /** What `Process` must equal: parse the whole input, then handle the emitted messages in order. */
  predicate ProcessIsParseThenHandle(s: Session, bs: seq<byte>)
    requires Safe(s.parser)
  {
    var f := Feed(s.parser, bs);
    var h := HandleAll(s.handler, s.shared, f.1);
    Process(s, bs) == (Session(f.0, h.0, h.1), h.2)
  }

  lemma HandleAllCons(h: Handler, shared: FlightDataModel, m: Message, msgs: seq<Message>)
    ensures var o := OnMessage(h, shared, m);
      var rest := HandleAll(o.0, o.1, msgs);
      HandleAll(h, shared, [m] + msgs) == (rest.0, rest.1, o.2 + rest.2)
  {
    assert ([m] + msgs)[0] == m;
    assert ([m] + msgs)[1..] == msgs;
  }

  lemma HandleAllNil(h: Handler, shared: FlightDataModel, msgs: seq<Message>)
    ensures HandleAll(h, shared, [] + msgs) == HandleAll(h, shared, msgs)
  {
    assert [] + msgs == msgs;
  }

  lemma ProcessStepQuiet(s: Session, bs: seq<byte>)
    requires Safe(s.parser) && |bs| > 0 && Step(s.parser, bs[0]).1 == None
    requires ProcessIsParseThenHandle(s.(parser := Step(s.parser, bs[0]).0), bs[1..])
    ensures ProcessIsParseThenHandle(s, bs)
  {
    var st := Step(s.parser, bs[0]);
    var f := Feed(st.0, bs[1..]);
    assert Feed(s.parser, bs) == (f.0, [] + f.1);
    HandleAllNil(s.handler, s.shared, f.1);
    var q := Process(s.(parser := st.0), bs[1..]);
    assert [] + q.1 == q.1;
  }

  lemma ProcessStepEmit(s: Session, bs: seq<byte>)
    requires Safe(s.parser) && |bs| > 0 && Step(s.parser, bs[0]).1.Some?
    requires var st := Step(s.parser, bs[0]);
      var o := OnMessage(s.handler, s.shared, st.1.value);
      ProcessIsParseThenHandle(Session(st.0, o.0, o.1), bs[1..])
    ensures ProcessIsParseThenHandle(s, bs)
  {
    var st := Step(s.parser, bs[0]);
    var m := st.1.value;
    var o := OnMessage(s.handler, s.shared, m);
    var f := Feed(st.0, bs[1..]);
    assert Feed(s.parser, bs) == (f.0, [m] + f.1);
    HandleAllCons(s.handler, s.shared, m, f.1);
    var rest := HandleAll(o.0, o.1, f.1);
    assert Process(s, bs).1 == o.2 + rest.2;
  }

  /**
   * Processing bytes one at a time is the same as feeding them all to the
   * parser and then handling the messages it emitted, in order.
   */
  lemma {:induction false} ProcessParsesThenHandles(s: Session, bs: seq<byte>)
    requires Safe(s.parser)
    ensures ProcessIsParseThenHandle(s, bs)
    decreases |bs|
  {
    if |bs| == 0 {
      assert Feed(s.parser, bs) == (s.parser, []);
    } else {
      var st := Step(s.parser, bs[0]);
      if st.1.Some? {
        var o := OnMessage(s.handler, s.shared, st.1.value);
        ProcessParsesThenHandles(Session(st.0, o.0, o.1), bs[1..]);
        ProcessStepEmit(s, bs);
      } else {
        ProcessParsesThenHandles(s.(parser := st.0), bs[1..]);
        ProcessStepQuiet(s, bs);
      }
    }
  }

  /**
   * Separation: however many bytes are processed, the shared model's frame
   * buffer and cursor are untouched, and the handler's own copy changes only
   * in its frame buffer and cursor.
   */
  lemma ProcessSeparation(s: Session, bs: seq<byte>)
    requires Safe(s.parser)
    ensures var r := Process(s, bs).0;
      && r.shared.frameBuffer == s.shared.frameBuffer && r.shared.fbCursor == s.shared.fbCursor
      && r.handler.own.(frameBuffer := s.handler.own.frameBuffer, fbCursor := s.handler.own.fbCursor) == s.handler.own
      && r.handler.dispatcher == s.handler.dispatcher
  {
    ProcessParsesThenHandles(s, bs);
  }

  /** The STATUS frame `$M<` 07 65 00 00 00 00 00 00 01 and its checksum. */
  function ArmingFrame(): seq<byte>
  {
    Encode(Outbound, 0x65, ArmingPayload())
  }

  function ArmingPayload(): seq<byte>
  {
    [0, 0, 0, 0, 0, 0, 1]
  }

  lemma ArmingFrameDecodes()
    ensures Feed(Reset(), ArmingFrame()) == (Reset(), [Decoded(Outbound, 0x65, ArmingPayload())])
  {
    RoundTrip([], Outbound, 0x65, ArmingPayload());
    assert [] + ArmingFrame() == ArmingFrame();
  }

  lemma ArmingDispatch(shared: FlightDataModel, outPort: int)
    ensures Dispatch(StartupDispatcher(outPort), Decoded(Outbound, 0x65, ArmingPayload()), shared)
         == (shared.(armed := true), [])
  {
    var m := Decoded(Outbound, 0x65, ArmingPayload());
    assert m.cmd == Status;
    assert m.payload[6] == 1;
    BaseDispatch(outPort, m, shared);
  }

  lemma HandleOne(h: Handler, shared: FlightDataModel, m: Message)
    ensures HandleAll(h, shared, [m]) == OnMessage(h, shared, m)
  {
    HandleAllCons(h, shared, m, []);
    assert [m] + [] == [m];
    var o := OnMessage(h, shared, m);
    assert o.2 + [] == o.2;
  }

  /**
   * End to end: from start-up, the arming frame sets the shared model's armed
   * flag and changes nothing else there, and no report is sent.
   */
  lemma ArmingScenario(shared: FlightDataModel, outPort: int)
    ensures var r := Process(StartSession(shared, outPort), ArmingFrame());
      && r.0.shared == shared.(armed := true)
      && r.1 == []
  {
    var s := StartSession(shared, outPort);
    ArmingFrameDecodes();
    ProcessParsesThenHandles(s, ArmingFrame());
    HandleOne(s.handler, shared, Decoded(Outbound, 0x65, ArmingPayload()));
    ArmingDispatch(shared, outPort);
  }
}
