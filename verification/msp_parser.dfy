/**
 * The byte-at-a-time MSP v1 frame decoder (`MspMessageParser`). A parser is
 * the state, the message being assembled and the payload cursor; `Step`
 * consumes one byte and may emit a checksum-validated message.
 */
module MspParser {
  import opened Octets
  import opened MspTypes

  datatype ParserState =
    | Idle
    | Version
    | DirectionMark
    | SizeByte
    | CmdByte
    | PayloadBytes
    | ChecksumByte

  datatype Parser = Parser(state: ParserState, msg: Message, bufPtr: nat)

  /** The command byte that a message's checksum implies, given its payload. */
  function ImpliedCmdByte(m: Message, n: nat): byte
    requires n <= MaxPayloadSize
  {
    m.checksum ^ m.size ^ XorAll(m.payload[..n])
  }

  /**
   * A partly or fully received frame: payload bytes from the cursor on are
   * still zero, and the running checksum is the xor of the size, some command
   * byte that maps to the recorded command, and the payload received so far.
   */
  predicate Assembled(m: Message, n: nat)
    requires n <= MaxPayloadSize
  {
    && (forall i | n <= i < MaxPayloadSize :: m.payload[i] == 0)
    && ToMspCommand(ImpliedCmdByte(m, n)) == m.cmd
  }

  /** Every byte is zero. */
  predicate Blank(s: seq<byte>)
  {
    forall i | 0 <= i < |s| :: s[i] == 0
  }

  /**
   * What a byte step needs: the cursor is zero on entry to CMD and below the
   * declared length in PAYLOAD, so the payload write stays inside the buffer.
   */
  predicate Safe(p: Parser)
  {
    && (p.state == CmdByte ==> p.bufPtr == 0)
    && (p.state == PayloadBytes ==> p.bufPtr < p.msg.size as int)
  }

  /** The states the parser can reach from its reset state, with their contents. */
  predicate Valid(p: Parser)
  {
    match p.state
    case Idle | Version | DirectionMark =>
      && p.msg.direction == Outbound && p.msg.cmd == Unknown
      && p.msg.size == 0 && p.msg.checksum == 0
      && Blank(p.msg.payload) && p.bufPtr == 0
    case SizeByte =>
      && p.msg.cmd == Unknown && p.msg.size == 0 && p.msg.checksum == 0
      && Blank(p.msg.payload) && p.bufPtr == 0
    case CmdByte =>
      && p.msg.cmd == Unknown && p.msg.checksum == p.msg.size
      && Blank(p.msg.payload) && p.bufPtr == 0
    case PayloadBytes => p.bufPtr < p.msg.size as int && Assembled(p.msg, p.bufPtr)
    case ChecksumByte => p.bufPtr == p.msg.size as int && Assembled(p.msg, p.bufPtr)
  }

  /** A message as emitted: zero beyond its size, checksum consistent with some command byte. */
  predicate WellFormed(m: Message)
  {
    Assembled(m, m.size as int)
  }

  /** The parser after construction or `reset()`. */
  function Reset(): (p: Parser)
    ensures Valid(p) && Safe(p) && p.state == Idle
  {
    Parser(Idle, EmptyMessage, 0)
  }

  lemma IdleIsReset(p: Parser)
    requires Valid(p) && p.state == Idle
    ensures p == Reset()
  {
    assert p.msg.payload == Zeros(MaxPayloadSize);
  }

  lemma XorAllTake(s: seq<byte>, k: nat)
    requires k < |s|
    ensures XorAll(s[..k + 1]) == XorAll(s[..k]) ^ s[k]
  {
    assert s[..k + 1][..k] == s[..k];
  }

  /** SIZE: any length byte is taken, seeds the checksum and resets the command. */
  function StepSize(p: Parser, b: byte): (r: Parser)
    ensures Safe(r)
  {
    var m := p.msg.(size := b, checksum := b, cmd := Unknown);
    if b as int > MaxPayloadSize then Reset() else Parser(CmdByte, m, 0)
  }

  /** The message after the command byte `b`. */
  function CmdMessage(m: Message, b: byte): Message
  {
    m.(checksum := m.checksum ^ b, cmd := ToMspCommand(b))
  }

  /** CMD: the command byte is folded into the checksum and mapped to the enumeration. */
  function StepCmd(p: Parser, b: byte): (r: Parser)
    ensures Safe(r)
  {
    var m := CmdMessage(p.msg, b);
    Parser(if m.size == 0 then ChecksumByte else PayloadBytes, m, 0)
  }

  /** The message after payload byte `b` is stored at cursor `k`. */
  function PayloadMessage(m: Message, k: nat, b: byte): Message
    requires k < MaxPayloadSize
  {
    m.(payload := m.payload[k := b], checksum := m.checksum ^ b)
  }

  /** PAYLOAD: the byte is stored at the cursor and folded into the checksum. */
  function StepPayload(p: Parser, b: byte): (r: Parser)
    requires Safe(p) && p.state == PayloadBytes
    ensures Safe(r)
  {
    var m := PayloadMessage(p.msg, p.bufPtr, b);
    var ptr := p.bufPtr + 1;
    Parser(if ptr == m.size as int then ChecksumByte else PayloadBytes, m, ptr)
  }

  /**
   * Consumes one byte. The only message ever emitted is the assembled one,
   * from the checksum state, when the byte equals the running checksum; the
   * checksum byte returns the parser to its reset state whether or not it matched.
   */
  function Step(p: Parser, b: byte): (r: (Parser, Option<Message>))
    requires Safe(p)
    ensures Safe(r.0)
    ensures r.1.Some? <==> p.state == ChecksumByte && b == p.msg.checksum
    ensures r.1.Some? ==> r.1.value == p.msg
    ensures p.state == ChecksumByte ==> r.0 == Reset()
  {
    match p.state
    case Idle =>
      (if b == Dollar then p.(state := Version) else p, None)
    case Version =>
      (if b == VersionM then p.(state := DirectionMark) else Reset(), None)
    case DirectionMark =>
      if b == LessThan then (p.(state := SizeByte, msg := p.msg.(direction := Outbound)), None)
      else if b == GreaterThan then (p.(state := SizeByte, msg := p.msg.(direction := Inbound)), None)
      else (Reset(), None)
    case SizeByte => (StepSize(p, b), None)
    case CmdByte => (StepCmd(p, b), None)
    case PayloadBytes => (StepPayload(p, b), None)
    case ChecksumByte =>
      (Reset(), if b == p.msg.checksum then Some(p.msg) else None)
  }

  lemma CmdMessageAssembled(m: Message, b: byte)
    requires m.cmd == Unknown && m.checksum == m.size && Blank(m.payload)
    ensures Assembled(CmdMessage(m, b), 0)
  {
    var m' := CmdMessage(m, b);
    assert m'.payload[..0] == [];
    assert ImpliedCmdByte(m', 0) == b;
  }

  lemma XorAllWrite(s: seq<byte>, k: nat, b: byte)
    requires k < |s|
    ensures XorAll(s[k := b][..k + 1]) == XorAll(s[..k]) ^ b
  {
    XorAllTake(s[k := b], k);
    assert s[k := b][..k] == s[..k];
  }

  lemma ZeroTailAfterWrite(s: seq<byte>, k: nat, b: byte, t: seq<byte>)
    requires k < |s| && t == s[k := b] && forall i | k <= i < |s| :: s[i] == 0
    ensures forall i | k + 1 <= i < |t| :: t[i] == 0
  {
  }

  lemma ImpliedAfterPayload(m: Message, k: nat, b: byte)
    requires k < MaxPayloadSize
    ensures ImpliedCmdByte(PayloadMessage(m, k, b), k + 1) == ImpliedCmdByte(m, k)
  {
    XorAllWrite(m.payload, k, b);
    var x := XorAll(m.payload[..k]);
    assert (m.checksum ^ b) ^ m.size ^ (x ^ b) == m.checksum ^ m.size ^ x;
  }

  lemma PayloadMessageAssembled(m: Message, k: nat, b: byte)
    requires k < m.size as int && Assembled(m, k)
    ensures Assembled(PayloadMessage(m, k, b), k + 1)
  {
    ZeroTailAfterWrite(m.payload, k, b, m.payload[k := b]);
    ImpliedAfterPayload(m, k, b);
  }

  lemma StepValidCmd(p: Parser, b: byte)
    requires Valid(p) && p.state == CmdByte
    ensures Valid(StepCmd(p, b))
  {
    CmdMessageAssembled(p.msg, b);
    var r := StepCmd(p, b);
    assert r.state == PayloadBytes ==> 0 < r.msg.size as int;
  }

  lemma StepValidPayload(p: Parser, b: byte)
    requires Valid(p) && p.state == PayloadBytes
    ensures Valid(StepPayload(p, b))
  {
    PayloadMessageAssembled(p.msg, p.bufPtr, b);
  }

  lemma StepValidHeader(p: Parser, b: byte)
    requires Valid(p) && p.state in {Idle, Version, DirectionMark, SizeByte}
    ensures Valid(Step(p, b).0) && Step(p, b).1 == None
  {
  }

  /**
   * Every reachable state steps to a reachable state, and an emitted message
   * is well formed: zero beyond its length, checksum consistent with its command.
   */
  lemma StepValid(p: Parser, b: byte)
    requires Valid(p)
    ensures Safe(p)
    ensures Valid(Step(p, b).0)
    ensures Step(p, b).1.Some? ==> WellFormed(Step(p, b).1.value)
  {
    match p.state
    case CmdByte => StepValidCmd(p, b);
    case PayloadBytes => StepValidPayload(p, b);
    case ChecksumByte =>
    case _ => StepValidHeader(p, b);
  }

  function Emitted(o: Option<Message>): seq<Message>
  {
    if o.Some? then [o.value] else []
  }

  /** Feeds a byte stream through `Step`, collecting the emitted messages in order. */
  function Feed(p: Parser, bs: seq<byte>): (r: (Parser, seq<Message>))
    requires Safe(p)
    ensures Safe(r.0)
    ensures |r.1| <= |bs|
    decreases |bs|
  {
    if |bs| == 0 then (p, [])
    else
      var s := Step(p, bs[0]);
      var f := Feed(s.0, bs[1..]);
      (f.0, Emitted(s.1) + f.1)
  }

  lemma FeedCons(p: Parser, b: byte, bs: seq<byte>)
    requires Safe(p)
    ensures Feed(p, [b] + bs)
         == (Feed(Step(p, b).0, bs).0, Emitted(Step(p, b).1) + Feed(Step(p, b).0, bs).1)
  {
    assert ([b] + bs)[0] == b;
    assert ([b] + bs)[1..] == bs;
  }

  lemma FeedUnfold(p: Parser, bs: seq<byte>)
    requires Safe(p) && |bs| > 0
    ensures Feed(p, bs) == (Feed(Step(p, bs[0]).0, bs[1..]).0, Emitted(Step(p, bs[0]).1) + Feed(Step(p, bs[0]).0, bs[1..]).1)
  {
  }

  /** The equation of `FeedAppend` for one split of the input. */
  predicate FeedSplits(p: Parser, a: seq<byte>, b: seq<byte>)
    requires Safe(p)
  {
    Feed(p, a + b) == (Feed(Feed(p, a).0, b).0, Feed(p, a).1 + Feed(Feed(p, a).0, b).1)
  }

  lemma FeedSplitsNil(p: Parser, b: seq<byte>)
    requires Safe(p)
    ensures FeedSplits(p, [], b)
  {
    assert [] + b == b;
    assert [] + Feed(p, b).1 == Feed(p, b).1;
  }

  lemma ConsAppend(a: seq<byte>, b: seq<byte>)
    requires |a| > 0
    ensures (a + b)[0] == a[0] && (a + b)[1..] == a[1..] + b
  {
  }

  lemma FeedUnfoldAppend(p: Parser, a: seq<byte>, b: seq<byte>)
    requires Safe(p) && |a| > 0
    ensures Feed(p, a + b)
         == (Feed(Step(p, a[0]).0, a[1..] + b).0, Emitted(Step(p, a[0]).1) + Feed(Step(p, a[0]).0, a[1..] + b).1)
  {
    ConsAppend(a, b);
    FeedUnfold(p, a + b);
  }

  lemma FeedSplitsCons(p: Parser, a: seq<byte>, b: seq<byte>)
    requires Safe(p) && |a| > 0
    requires FeedSplits(Step(p, a[0]).0, a[1..], b)
    ensures FeedSplits(p, a, b)
  {
    var s := Step(p, a[0]);
    FeedUnfoldAppend(p, a, b);
    FeedUnfold(p, a);
    var ft := Feed(s.0, a[1..]);
    var fb := Feed(ft.0, b);
    assert Emitted(s.1) + (ft.1 + fb.1) == (Emitted(s.1) + ft.1) + fb.1;
  }


  /** Feeding `a + b` is feeding `a`, then `b` from where `a` left the parser. */
  lemma {:induction false} FeedAppend(p: Parser, a: seq<byte>, b: seq<byte>)
    requires Safe(p)
    ensures Feed(p, a + b)
         == (Feed(Feed(p, a).0, b).0, Feed(p, a).1 + Feed(Feed(p, a).0, b).1)
    decreases |a|
  {
    if |a| == 0 {
      assert a == [];
      FeedSplitsNil(p, b);
    } else {
      FeedAppend(Step(p, a[0]).0, a[1..], b);
      FeedSplitsCons(p, a, b);
    }
  }

  /**
   * Soundness: from any reachable state the parser only reaches reachable
   * states and every message it emits is well formed.
   */
  lemma {:induction false} FeedValid(p: Parser, bs: seq<byte>)
    requires Valid(p)
    ensures Valid(Feed(p, bs).0)
    ensures forall m | m in Feed(p, bs).1 :: WellFormed(m)
    decreases |bs|
  {
    if |bs| > 0 {
      StepValid(p, bs[0]);
      FeedValid(Step(p, bs[0]).0, bs[1..]);
    }
  }

  /** In IDLE only `$` advances; every other byte leaves the parser as it was. */
  lemma IdleScan(p: Parser, b: byte)
    requires Valid(p) && p.state == Idle
    ensures Step(p, b).1 == None
    ensures b == Dollar ==> Step(p, b).0.state == Version
    ensures b != Dollar ==> Step(p, b).0 == p
  {
  }

  /**
   * In VERSION and DIRECTION a wrong byte resets the parser and is consumed:
   * it is not looked at again as a possible `$`.
   */
  lemma MarkerMismatchResets(p: Parser, b: byte)
    requires Valid(p)
    requires (p.state == Version && b != VersionM)
          || (p.state == DirectionMark && b != LessThan && b != GreaterThan)
    ensures Step(p, b) == (Reset(), None)
  {
  }

  /** `<` selects OUTBOUND and `>` INBOUND; either way the length byte comes next. */
  lemma DirectionMarks(p: Parser, b: byte)
    requires Valid(p) && p.state == DirectionMark && (b == LessThan || b == GreaterThan)
    ensures Step(p, b).0.state == SizeByte
    ensures Step(p, b).0.msg.direction == (if b == LessThan then Outbound else Inbound)
  {
  }

  /**
   * Every length byte 0..255 is accepted: the oversize reset branch cannot be
   * taken because the length is one byte and the capacity is 256.
   */
  lemma EveryLengthAccepted(p: Parser, b: byte)
    requires Valid(p) && p.state == SizeByte
    ensures Step(p, b).0.state == CmdByte
    ensures Step(p, b).0.msg.size == b && Step(p, b).0.msg.checksum == b
    ensures Step(p, b).0.msg.direction == p.msg.direction
  {
  }

  /** After the command byte a zero length goes straight to CHECKSUM, any other to PAYLOAD. */
  lemma CommandByte(p: Parser, b: byte)
    requires Valid(p) && p.state == CmdByte
    ensures Step(p, b).0.state == (if p.msg.size == 0 then ChecksumByte else PayloadBytes)
    ensures Step(p, b).0.msg.cmd == ToMspCommand(b)
    ensures Step(p, b).0.msg.checksum == p.msg.size ^ b
    ensures Step(p, b).0.bufPtr == 0
  {
  }

  /**
   * A payload byte is written at the cursor, which is below the length and so
   * inside the buffer; CHECKSUM follows exactly when the cursor reaches the length.
   */
  lemma PayloadByte(p: Parser, b: byte)
    requires Valid(p) && p.state == PayloadBytes
    ensures p.bufPtr < p.msg.size as int < MaxPayloadSize
    ensures Step(p, b).0.msg.payload == p.msg.payload[p.bufPtr := b]
    ensures Step(p, b).0.bufPtr == p.bufPtr + 1
    ensures Step(p, b).0.state == ChecksumByte <==> p.bufPtr + 1 == p.msg.size as int
  {
  }

  /** `$$M` does not open a frame: the second `$` is swallowed by the VERSION reset. */
  lemma DoubleDollarDoesNotStart()
    ensures Feed(Reset(), [Dollar, Dollar, VersionM]) == (Reset(), [])
  {
    FeedCons(Reset(), Dollar, [Dollar, VersionM]);
    FeedCons(Reset().(state := Version), Dollar, [VersionM]);
    FeedCons(Reset(), VersionM, []);
  }
}
