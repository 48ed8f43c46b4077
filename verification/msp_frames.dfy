/**
 * The MSP v1 wire format as the parser reads it, and what the parser makes
 * of whole frames: round trips, resynchronisation after noise, and rejection
 * of frames whose checksum does not match.
 */
module MspFrames {
  import opened Octets
  import opened MspTypes
  import opened MspParser

  /** The direction marker byte: `<` for OUTBOUND, `>` for INBOUND. */
  function Marker(d: Direction): byte
  {
    match d
    case Outbound => LessThan
    case Inbound => GreaterThan
  }

  /** LEN xor CMD xor every payload byte. */
  function FrameChecksum(cmd: byte, payload: seq<byte>): byte
    requires |payload| < MaxPayloadSize
  {
    (LengthByte(|payload|)) ^ cmd ^ XorAll(payload)
  }

  /** `$` `M` marker LEN CMD payload CHK, with an arbitrary checksum byte. */
  function FrameBytes(d: Direction, cmd: byte, payload: seq<byte>, chk: byte): (bs: seq<byte>)
    requires |payload| < MaxPayloadSize
    ensures |bs| == |payload| + 6
  {
    [Dollar, VersionM, Marker(d), LengthByte(|payload|), cmd] + payload + [chk]
  }

  /** A well-formed frame. */
  function Encode(d: Direction, cmd: byte, payload: seq<byte>): (bs: seq<byte>)
    requires |payload| < MaxPayloadSize
    ensures |bs| == |payload| + 6
  {
    FrameBytes(d, cmd, payload, FrameChecksum(cmd, payload))
  }

  /** The message a well-formed frame stands for. */
  function Decoded(d: Direction, cmd: byte, payload: seq<byte>): (m: Message)
    requires |payload| < MaxPayloadSize
    ensures m.size as int == |payload| && m.payload[..|payload|] == payload
  {
    Message(d, ToMspCommand(cmd), LengthByte(|payload|), FrameChecksum(cmd, payload),
            payload + Zeros(MaxPayloadSize - |payload|))
  }

  /** The parser once the five header bytes of a frame are in. */
  function AfterHeader(d: Direction, n: byte, cmd: byte): Parser
  {
    Parser(if n == 0 then ChecksumByte else PayloadBytes,
           Message(d, ToMspCommand(cmd), n, n ^ cmd, Zeros(MaxPayloadSize)), 0)
  }

  /** A byte that emits nothing just moves the parser on. */
  lemma FeedQuiet(p: Parser, b: byte, rest: seq<byte>)
    requires Safe(p) && Step(p, b).1 == None
    ensures Feed(p, [b] + rest) == Feed(Step(p, b).0, rest)
  {
    FeedCons(p, b, rest);
    var f := Feed(Step(p, b).0, rest);
    assert Emitted(Step(p, b).1) + f.1 == f.1;
    assert (f.0, f.1) == f;
  }

  /** The parser in SIZE after `$` `M` and the marker for `d`. */
  function AfterMarker(d: Direction): Parser
  {
    Parser(SizeByte, EmptyMessage.(direction := d), 0)
  }

  lemma FeedMarkers(d: Direction, rest: seq<byte>)
    ensures Feed(Reset(), [Dollar, VersionM, Marker(d)] + rest) == Feed(AfterMarker(d), rest)
  {
    var p1 := Reset().(state := Version);
    var p2 := p1.(state := DirectionMark);
    assert Step(Reset(), Dollar) == (p1, None);
    assert Step(p1, VersionM) == (p2, None);
    assert Step(p2, Marker(d)) == (AfterMarker(d), None);
    assert [Dollar, VersionM, Marker(d)] + rest == [Dollar] + ([VersionM] + ([Marker(d)] + rest));
    FeedQuiet(Reset(), Dollar, [VersionM] + ([Marker(d)] + rest));
    FeedQuiet(p1, VersionM, [Marker(d)] + rest);
    FeedQuiet(p2, Marker(d), rest);
  }

  lemma FeedLengthAndCommand(d: Direction, n: byte, cmd: byte, rest: seq<byte>)
    ensures Feed(AfterMarker(d), [n, cmd] + rest) == Feed(AfterHeader(d, n, cmd), rest)
  {
    var p3 := AfterMarker(d);
    var p4 := Parser(CmdByte, p3.msg.(size := n, checksum := n, cmd := Unknown), 0);
    assert Step(p3, n) == (p4, None);
    assert Step(p4, cmd) == (AfterHeader(d, n, cmd), None);
    assert [n, cmd] + rest == [n] + ([cmd] + rest);
    FeedQuiet(p3, n, [cmd] + rest);
    FeedQuiet(p4, cmd, rest);
  }

  /** After the five header bytes the parser awaits the payload, or the checksum if LEN is 0. */
  lemma FeedHeader(d: Direction, n: byte, cmd: byte, rest: seq<byte>)
    ensures Feed(Reset(), [Dollar, VersionM, Marker(d), n, cmd] + rest)
         == Feed(AfterHeader(d, n, cmd), rest)
  {
    assert [Dollar, VersionM, Marker(d), n, cmd] + rest == [Dollar, VersionM, Marker(d)] + ([n, cmd] + rest);
    FeedMarkers(d, [n, cmd] + rest);
    FeedLengthAndCommand(d, n, cmd, rest);
  }

  /** The parser in CHECKSUM once `rest` has filled the payload from the cursor on. */
  function Filled(p: Parser, rest: seq<byte>): Parser
    requires p.bufPtr + |rest| == p.msg.size as int
  {
    Parser(ChecksumByte,
           p.msg.(payload := p.msg.payload[..p.bufPtr] + rest + p.msg.payload[p.msg.size as int..],
                  checksum := p.msg.checksum ^ XorAll(rest)),
           p.msg.size as int)
  }

  /** Writing `b` at `k` and then `rest` after it is splicing `[b] + rest` in at `k`. */
  lemma SpliceNext(s: seq<byte>, k: nat, b: byte, rest: seq<byte>, end: nat)
    requires k + 1 + |rest| == end <= |s|
    ensures s[k := b][..k + 1] + rest + s[k := b][end..] == s[..k] + ([b] + rest) + s[end..]
  {
    assert s[k := b][..k + 1] == s[..k] + [b];
    assert s[k := b][end..] == s[end..];
  }

  lemma XorAllCons(b: byte, rest: seq<byte>)
    ensures XorAll([b] + rest) == b ^ XorAll(rest)
  {
    XorAllConcat([b], rest);
    assert [b][..0] == [];
  }

  lemma XorAssoc(a: byte, b: byte, c: byte)
    ensures (a ^ b) ^ c == a ^ (b ^ c)
  {
  }

  lemma XorAllHead(s: seq<byte>)
    requires |s| > 0
    ensures XorAll(s) == s[0] ^ XorAll(s[1..])
  {
    assert s == [s[0]] + s[1..];
    XorAllCons(s[0], s[1..]);
  }

  lemma SpliceLast(s: seq<byte>, k: nat, b: byte)
    requires k < |s|
    ensures s[k := b] == s[..k] + [b] + s[k + 1..]
  {
  }

  /** Parsers that agree field by field are equal. */
  lemma SameParser(p: Parser, q: Parser)
    requires p.state == q.state && p.bufPtr == q.bufPtr
    requires p.msg.direction == q.msg.direction && p.msg.cmd == q.msg.cmd
    requires p.msg.size == q.msg.size && p.msg.checksum == q.msg.checksum
    requires p.msg.payload == q.msg.payload
    ensures p == q
  {
  }

  lemma FilledLastPayload(p: Parser, b: byte)
    requires p.state == PayloadBytes && p.bufPtr + 1 == p.msg.size as int
    ensures StepPayload(p, b).msg.payload == Filled(p, [b]).msg.payload
  {
    SpliceLast(p.msg.payload, p.bufPtr, b);
  }

  lemma FilledLastChecksum(p: Parser, b: byte)
    requires p.state == PayloadBytes && p.bufPtr + 1 == p.msg.size as int
    ensures StepPayload(p, b).msg.checksum == Filled(p, [b]).msg.checksum
  {
    XorAllSnoc([], b);
    assert [] + [b] == [b];
  }

  lemma FilledLast(p: Parser, b: byte)
    requires p.state == PayloadBytes && p.bufPtr + 1 == p.msg.size as int
    ensures StepPayload(p, b) == Filled(p, [b])
  {
    FilledLastPayload(p, b);
    FilledLastChecksum(p, b);
    SameParser(StepPayload(p, b), Filled(p, [b]));
  }

  lemma FilledNextPayload(p: Parser, rest: seq<byte>)
    requires p.state == PayloadBytes && p.bufPtr + |rest| == p.msg.size as int && |rest| > 1
    ensures Filled(StepPayload(p, rest[0]), rest[1..]).msg.payload == Filled(p, rest).msg.payload
  {
    var q := StepPayload(p, rest[0]);
    var s, k, end := p.msg.payload, p.bufPtr, p.msg.size as int;
    assert q.msg.payload == s[k := rest[0]] && q.bufPtr == k + 1 && q.msg.size as int == end;
    assert rest == [rest[0]] + rest[1..];
    SpliceNext(s, k, rest[0], rest[1..], end);
  }

  lemma FilledNextChecksum(p: Parser, rest: seq<byte>)
    requires p.state == PayloadBytes && p.bufPtr + |rest| == p.msg.size as int && |rest| > 1
    ensures Filled(StepPayload(p, rest[0]), rest[1..]).msg.checksum == Filled(p, rest).msg.checksum
  {
    XorAllHead(rest);
    XorAssoc(p.msg.checksum, rest[0], XorAll(rest[1..]));
  }

  lemma FilledNext(p: Parser, rest: seq<byte>)
    requires p.state == PayloadBytes && p.bufPtr + |rest| == p.msg.size as int && |rest| > 1
    ensures StepPayload(p, rest[0]).state == PayloadBytes
    ensures Filled(StepPayload(p, rest[0]), rest[1..]) == Filled(p, rest)
  {
    FilledNextPayload(p, rest);
    FilledNextChecksum(p, rest);
    SameParser(Filled(StepPayload(p, rest[0]), rest[1..]), Filled(p, rest));
  }

  /**
   * The payload bytes are written in order from the cursor and folded into
   * the checksum; nothing is emitted and the parser ends in CHECKSUM.
   */
  lemma {:induction false} FeedPayload(p: Parser, rest: seq<byte>)
    requires Safe(p) && p.state == PayloadBytes
    requires p.bufPtr + |rest| == p.msg.size as int
    ensures Feed(p, rest) == (Filled(p, rest), [])
    decreases |rest|
  {
    var q := StepPayload(p, rest[0]);
    assert Step(p, rest[0]) == (q, None);
    assert rest == [rest[0]] + rest[1..];
    FeedQuiet(p, rest[0], rest[1..]);
    assert Feed(p, rest) == Feed(q, rest[1..]);
    if |rest| == 1 {
      FilledLast(p, rest[0]);
      assert rest == [rest[0]];
      assert rest[1..] == [];
      assert Feed(q, []) == (q, []);
    } else {
      FilledNext(p, rest);
      FeedPayload(q, rest[1..]);
    }
  }

  /** The checksum byte ends the frame, emitting the message only on a match. */
  lemma FeedChecksum(q: Parser, chk: byte)
    requires q.state == ChecksumByte
    ensures Feed(q, [chk]) == (Reset(), if chk == q.msg.checksum then [q.msg] else [])
  {
    assert [chk] == [chk] + [];
    FeedCons(q, chk, []);
    var s := Step(q, chk);
    assert s.0 == Reset();
    assert Feed(Reset(), []) == (Reset(), []);
    assert Emitted(s.1) == (if chk == q.msg.checksum then [q.msg] else []);
    assert Emitted(s.1) + [] == Emitted(s.1);
  }

  lemma PadZeros(payload: seq<byte>)
    requires |payload| <= MaxPayloadSize
    ensures Zeros(MaxPayloadSize)[..0] + payload + Zeros(MaxPayloadSize)[|payload|..]
         == payload + Zeros(MaxPayloadSize - |payload|)
  {
    assert Zeros(MaxPayloadSize)[|payload|..] == Zeros(MaxPayloadSize - |payload|);
  }

  /** After a non-empty payload the assembled message is the decoded frame. */
  lemma FilledIsDecoded(d: Direction, cmd: byte, payload: seq<byte>)
    requires 0 < |payload| < MaxPayloadSize
    ensures Filled(AfterHeader(d, LengthByte(|payload|), cmd), payload).msg == Decoded(d, cmd, payload)
  {
    PadZeros(payload);
  }

  /** With LEN 0 the header leaves the assembled message already equal to the decoded frame. */
  lemma EmptyHeaderIsDecoded(d: Direction, cmd: byte)
    ensures AfterHeader(d, 0, cmd).state == ChecksumByte
    ensures AfterHeader(d, 0, cmd).msg == Decoded(d, cmd, [])
  {
    assert [] + Zeros(MaxPayloadSize) == Zeros(MaxPayloadSize);
    assert XorAll([]) == 0;
  }

  /** A non-empty payload after the header leaves the parser in CHECKSUM, filled, with nothing emitted. */
  lemma FeedPayloadThen(d: Direction, cmd: byte, payload: seq<byte>, chk: byte)
    requires 0 < |payload| < MaxPayloadSize
    ensures Feed(AfterHeader(d, LengthByte(|payload|), cmd), payload + [chk])
         == Feed(Filled(AfterHeader(d, LengthByte(|payload|), cmd), payload), [chk])
  {
    var h := AfterHeader(d, LengthByte(|payload|), cmd);
    FeedAppend(h, payload, [chk]);
    FeedPayload(h, payload);
    var f := Feed(Filled(h, payload), [chk]);
    assert [] + f.1 == f.1;
  }

  /** The payload and checksum of a frame, fed after its header. */
  lemma FeedBody(d: Direction, cmd: byte, payload: seq<byte>, chk: byte)
    requires |payload| < MaxPayloadSize
    ensures Feed(AfterHeader(d, LengthByte(|payload|), cmd), payload + [chk])
         == (Reset(), if chk == FrameChecksum(cmd, payload) then [Decoded(d, cmd, payload)] else [])
  {
    var h := AfterHeader(d, LengthByte(|payload|), cmd);
    if |payload| == 0 {
      assert payload + [chk] == [chk];
      EmptyHeaderIsDecoded(d, cmd);
      FeedChecksum(h, chk);
    } else {
      FeedPayloadThen(d, cmd, payload, chk);
      FilledIsDecoded(d, cmd, payload);
      FeedChecksum(Filled(h, payload), chk);
    }
  }


  /**
   * A complete frame fed from the reset state emits its message exactly
   * when the checksum byte matches, and leaves the parser reset either way.
   */
  lemma FeedFrame(d: Direction, cmd: byte, payload: seq<byte>, chk: byte)
    requires |payload| < MaxPayloadSize
    ensures Feed(Reset(), FrameBytes(d, cmd, payload, chk))
         == (Reset(), if chk == FrameChecksum(cmd, payload) then [Decoded(d, cmd, payload)] else [])
  {
    var n := LengthByte(|payload|);
    assert FrameBytes(d, cmd, payload, chk) == [Dollar, VersionM, Marker(d), n, cmd] + (payload + [chk]);
    FeedHeader(d, n, cmd, payload + [chk]);
    FeedBody(d, cmd, payload, chk);
  }

  /** No byte of `g` is the start marker `$`. */
  predicate Noise(g: seq<byte>)
  {
    forall i | 0 <= i < |g| :: g[i] != Dollar
  }

  /** Bytes without a `$` pass through IDLE without effect. */
  lemma {:induction false} SkipNoise(g: seq<byte>)
    requires Noise(g)
    ensures Feed(Reset(), g) == (Reset(), [])
    decreases |g|
  {
    if |g| > 0 {
      assert g == [g[0]] + g[1..];
      FeedCons(Reset(), g[0], g[1..]);
      SkipNoise(g[1..]);
    }
  }

  /**
   * Round trip: noise followed by a well-formed frame emits exactly that
   * frame's message (direction, mapped command, length and payload) and
   * leaves the parser reset.
   */
  lemma RoundTrip(g: seq<byte>, d: Direction, cmd: byte, payload: seq<byte>)
    requires Noise(g) && |payload| < MaxPayloadSize
    ensures Feed(Reset(), g + Encode(d, cmd, payload)) == (Reset(), [Decoded(d, cmd, payload)])
  {
    var e := Encode(d, cmd, payload);
    FeedAppend(Reset(), g, e);
    SkipNoise(g);
    FeedFrame(d, cmd, payload, FrameChecksum(cmd, payload));
    assert Feed(Reset(), e) == (Reset(), [Decoded(d, cmd, payload)]);
    assert [] + [Decoded(d, cmd, payload)] == [Decoded(d, cmd, payload)];
  }

  /** A sequence that is zero from `n` on is its first `n` bytes padded with zeros. */
  lemma ZeroPadded(s: seq<byte>, n: nat)
    requires n <= |s| && forall i | n <= i < |s| :: s[i] == 0
    ensures s[..n] + Zeros(|s| - n) == s
  {
    assert s[n..] == Zeros(|s| - n);
    assert s == s[..n] + s[n..];
  }

  /** A well-formed message's payload is its first `size` bytes padded with zeros. */
  lemma PayloadIsPadded(m: Message)
    requires WellFormed(m)
    ensures m.payload[..m.size] + Zeros(MaxPayloadSize - m.size as int) == m.payload
  {
    ZeroPadded(m.payload, m.size as int);
  }


  lemma XorCancels(l: byte, c: byte, x: byte)
    ensures l ^ (c ^ l ^ x) ^ x == c
  {
  }

  /** Re-encoding restores the checksum: LEN and the payload xor cancel out. */
  lemma ReEncodedChecksum(m: Message)
    ensures FrameChecksum(ImpliedCmdByte(m, m.size as int), m.payload[..m.size]) == m.checksum
  {
    var n := m.size as int;
    LengthByteOfByte(m.size);
    XorCancels(m.size, m.checksum, XorAll(m.payload[..n]));
  }

  /** Messages that agree field by field are equal. */
  lemma SameMessage(a: Message, b: Message)
    requires a.direction == b.direction && a.cmd == b.cmd && a.size == b.size
    requires a.checksum == b.checksum && a.payload == b.payload
    ensures a == b
  {
  }

  lemma WellFormedIsDecoded(m: Message)
    requires WellFormed(m)
    ensures Decoded(m.direction, ImpliedCmdByte(m, m.size as int), m.payload[..m.size]) == m
  {
    var n := m.size as int;
    var c := ImpliedCmdByte(m, n);
    var pl := m.payload[..m.size];
    PayloadIsPadded(m);
    ReEncodedChecksum(m);
    LengthByteOfByte(m.size);
    SameMessage(Decoded(m.direction, c, pl), m);
  }

  /**
   * The other direction: every well-formed message is what the parser makes of
   * re-encoding it with the command byte its checksum implies.
   */
  lemma ReEncode(m: Message)
    requires WellFormed(m)
    ensures Feed(Reset(), Encode(m.direction, ImpliedCmdByte(m, m.size as int), m.payload[..m.size]))
         == (Reset(), [m])
  {
    var c := ImpliedCmdByte(m, m.size as int);
    var pl := m.payload[..m.size];
    FeedFrame(m.direction, c, pl, FrameChecksum(c, pl));
    WellFormedIsDecoded(m);
  }

  /** A frame whose checksum byte does not match emits nothing. */
  lemma BadChecksumRejected(g: seq<byte>, d: Direction, cmd: byte, payload: seq<byte>, chk: byte)
    requires Noise(g) && |payload| < MaxPayloadSize
    requires chk != FrameChecksum(cmd, payload)
    ensures Feed(Reset(), g + FrameBytes(d, cmd, payload, chk)) == (Reset(), [])
  {
    FeedAppend(Reset(), g, FrameBytes(d, cmd, payload, chk));
    SkipNoise(g);
    FeedFrame(d, cmd, payload, chk);
  }

  /**
   * Corrupting one payload byte, the command byte or the checksum byte of a
   * well-formed frame by any non-zero xor mask makes the parser reject it.
   */
  lemma CorruptionRejected(d: Direction, cmd: byte, payload: seq<byte>, i: nat, mask: byte)
    requires |payload| < MaxPayloadSize && mask != 0
    ensures i < |payload| ==>
      Feed(Reset(), FrameBytes(d, cmd, payload[i := payload[i] ^ mask], FrameChecksum(cmd, payload)))
      == (Reset(), [])
    ensures Feed(Reset(), FrameBytes(d, cmd ^ mask, payload, FrameChecksum(cmd, payload))) == (Reset(), [])
    ensures Feed(Reset(), FrameBytes(d, cmd, payload, FrameChecksum(cmd, payload) ^ mask)) == (Reset(), [])
  {
    if i < |payload| {
      XorAllUpdate(payload, i, mask);
      FeedFrame(d, cmd, payload[i := payload[i] ^ mask], FrameChecksum(cmd, payload));
    }
    FeedFrame(d, cmd ^ mask, payload, FrameChecksum(cmd, payload));
    FeedFrame(d, cmd, payload, FrameChecksum(cmd, payload) ^ mask);
  }

  /**
   * The direction marker is outside the checksum: flipping bit 1 of `<`
   * gives `>`, and the frame is accepted as an INBOUND message.
   */
  lemma DirectionFlipAccepted(cmd: byte, payload: seq<byte>)
    requires |payload| < MaxPayloadSize
    ensures LessThan ^ 0x02 == GreaterThan
    ensures Feed(Reset(), Encode(Outbound, cmd, payload)[2 := LessThan ^ 0x02])
         == (Reset(), [Decoded(Inbound, cmd, payload)])
  {
    assert Encode(Outbound, cmd, payload)[2 := LessThan ^ 0x02] == Encode(Inbound, cmd, payload);
    FeedFrame(Inbound, cmd, payload, FrameChecksum(cmd, payload));
  }

  /** A rejected frame does not disturb the next one: it is still decoded. */
  lemma RecoversAfterBadFrame(d: Direction, cmd: byte, payload: seq<byte>, chk: byte,
                              d': Direction, cmd': byte, payload': seq<byte>)
    requires |payload| < MaxPayloadSize && |payload'| < MaxPayloadSize
    requires chk != FrameChecksum(cmd, payload)
    ensures Feed(Reset(), FrameBytes(d, cmd, payload, chk) + Encode(d', cmd', payload'))
         == (Reset(), [Decoded(d', cmd', payload')])
  {
    var m := Decoded(d', cmd', payload');
    FeedAppend(Reset(), FrameBytes(d, cmd, payload, chk), Encode(d', cmd', payload'));
    FeedFrame(d, cmd, payload, chk);
    FeedFrame(d', cmd', payload', FrameChecksum(cmd', payload'));
    assert Feed(Reset(), Encode(d', cmd', payload')) == (Reset(), [m]);
    assert [] + [m] == [m];
  }

  /**
   * Resynchronisation in general: whatever bytes came before, good frames,
   * rejected frames or stray markers, once they leave the parser reset the
   * next frame is decoded after the messages they produced.
   */
  lemma ResyncAfterAnyPrefix(g: seq<byte>, d: Direction, cmd: byte, payload: seq<byte>)
    requires |payload| < MaxPayloadSize && Feed(Reset(), g).0 == Reset()
    ensures Feed(Reset(), g + Encode(d, cmd, payload))
         == (Reset(), Feed(Reset(), g).1 + [Decoded(d, cmd, payload)])
  {
    FeedAppend(Reset(), g, Encode(d, cmd, payload));
    FeedFrame(d, cmd, payload, FrameChecksum(cmd, payload));
  }

  /**
   * Where resynchronisation fails: a stray `$` right before a frame takes
   * the frame's own `$` as its VERSION byte, resets, and the frame is lost.
   */
  lemma StrayDollarLosesFrame()
    ensures Feed(Reset(), [Dollar] + [Dollar, VersionM, LessThan, 0x01, 0x65, 0x01, 0x65]) == (Reset(), [])
  {
    var rest: seq<byte> := [VersionM, LessThan, 0x01, 0x65, 0x01, 0x65];
    assert [Dollar] + [Dollar, VersionM, LessThan, 0x01, 0x65, 0x01, 0x65] == [Dollar] + ([Dollar] + rest);
    FeedQuiet(Reset(), Dollar, [Dollar] + rest);
    FeedQuiet(Step(Reset(), Dollar).0, Dollar, rest);
    SkipNoise(rest);
  }

  /** A zero-length frame `$M<` 00 66 66 is accepted with an all-zero payload. */
  lemma ZeroLengthFrame()
    ensures Feed(Reset(), [Dollar, VersionM, LessThan, 0x00, 0x66, 0x66])
         == (Reset(), [Message(Outbound, FcVariant, 0, 0x66, Zeros(MaxPayloadSize))])
  {
    assert [Dollar, VersionM, LessThan, 0x00, 0x66, 0x66] == Encode(Outbound, 0x66, []);
    RoundTrip([], Outbound, 0x66, []);
    assert [] + Encode(Outbound, 0x66, []) == Encode(Outbound, 0x66, []);
    assert [] + Zeros(MaxPayloadSize) == Zeros(MaxPayloadSize);
  }
}
