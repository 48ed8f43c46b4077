/**
 * The command executors: each reads fields out of a message's payload and
 * writes them into the flight model, but only when the message is long
 * enough; below that threshold the model is left as it was. Multi-byte
 * fields are read in little-endian order and signed values in two's complement.
 */
module Executors {
  import opened Octets
  import opened MspTypes
  import opened FlightData

  /** The executor kinds the program defines. */
  datatype Executor = StatusExec | AttitudeExec | FcVariantExec | RcConsoleExec | RcAlinkExec

  /**
   * The values the alink forwarder puts in its datagram: link quality (sent
   * twice), recovered packets and lost packets. The timestamp and the mocked
   * RSSI fields are not derived from the model.
   */
  datatype AlinkReport = AlinkReport(linkQuality: uint16, recovered: uint16, lost: uint16)

  /** Minimum message sizes of the executors. */
  const StatusMinSize: nat := 7
  const AttitudeMinSize: nat := 6
  const FcVariantMinSize: nat := 4
  const RcMinSize: nat := 32
  /** Channels carried by an RC message. */
  const RcChannels: nat := 16

  // ---------------------------------------------------------------------------
  // Little-endian 16-bit fields
  // ---------------------------------------------------------------------------

  /** An unsigned 16-bit field stored low byte first. */
  function U16LE(lo: byte, hi: byte): (v: uint16)
    ensures v % 256 == lo as int && v / 256 == hi as int
  {
    lo as int + 256 * hi as int
  }

  /** The low and high byte of a 16-bit value. */
  function U16Bytes(v: uint16): (r: (byte, byte))
  {
    (LengthByte(v % 256), LengthByte(v / 256))
  }

  /** Splitting a value into bytes and reading them back gives the value. */
  lemma U16LERoundTrip(v: uint16)
    ensures U16LE(U16Bytes(v).0, U16Bytes(v).1) == v
  {
  }

  /** Reading two bytes and splitting the value gives the bytes back. */
  lemma U16BytesRoundTrip(lo: byte, hi: byte)
    ensures U16Bytes(U16LE(lo, hi)) == (lo, hi)
  {
    var u := lo as int + 256 * hi as int;
    assert u % 256 == lo as int && u / 256 == hi as int;
    LengthByteOfByte(lo);
    LengthByteOfByte(hi);
  }

  /** A signed 16-bit field stored low byte first, in two's complement. */
  function I16LE(lo: byte, hi: byte): (x: int16)
    ensures (x + 0x1_0000) % 0x1_0000 == U16LE(lo, hi)
  {
    var u := U16LE(lo, hi);
    var x := if u < 0x8000 then u else u - 0x1_0000;
    TwosComplement(u, x);
    x
  }

  /** Reading a 16-bit pattern as two's complement keeps its residue modulo 2^16. */
  lemma TwosComplement(u: int, x: int)
    requires 0 <= u < 0x1_0000 && x == (if u < 0x8000 then u else u - 0x1_0000)
    ensures -0x8000 <= x < 0x8000 && (x + 0x1_0000) % 0x1_0000 == u
  {
    if u < 0x8000 {
      assert x + 0x1_0000 == u + 1 * 0x1_0000;
    }
  }

  /** The sign of a signed field is bit 7 of its high byte. */
  lemma I16LESign(lo: byte, hi: byte)
    ensures I16LE(lo, hi) < 0 <==> hi & 0x80 != 0
  {
    assert hi & 0x80 != 0 <==> hi as int >= 0x80;
  }

  /** The two bytes a signed 16-bit value is stored as: those of its unsigned counterpart. */
  function I16Bytes(x: int16): (byte, byte)
  {
    U16Bytes(if x < 0 then x + 0x1_0000 else x)
  }

  /** Storing a signed value and reading it back gives the value. */
  lemma I16RoundTrip(x: int16)
    ensures I16LE(I16Bytes(x).0, I16Bytes(x).1) == x
  {
    U16LERoundTrip(if x < 0 then x + 0x1_0000 else x);
  }

  /** Reading a signed value and storing it again gives the same bytes. */
  lemma I16BytesRoundTrip(lo: byte, hi: byte)
    ensures I16Bytes(I16LE(lo, hi)) == (lo, hi)
  {
    U16BytesRoundTrip(lo, hi);
  }

  // ---------------------------------------------------------------------------
  // Bounded C string comparison
  // ---------------------------------------------------------------------------

  /**
   * `strncmp(a, b, n) == 0` from position `i`: positions are compared in
   * order; the first difference makes the strings unequal, and a NUL met in
   * both before any difference ends the comparison as equal.
   */
  function StrnEqualFrom(a: seq<byte>, b: seq<byte>, i: nat, n: nat): bool
    requires n <= |a| && n <= |b|
    decreases n - i
  {
    if i >= n then true
    else if a[i] != b[i] then false
    else if a[i] == 0 then true
    else StrnEqualFrom(a, b, i + 1, n)
  }

  /** `strncmp(a, b, n) == 0`: the C strings in `a` and `b`, cut at `n`, are the same. */
  function StrnEqual(a: seq<byte>, b: seq<byte>, n: nat): (eq: bool)
    requires n <= |a| && n <= |b|
    ensures eq <==> CStr(a, n) == CStr(b, n)
  {
    StrnEqualFromIsCStr(a, b, 0, n);
    StrnEqualFrom(a, b, 0, n)
  }

  /** The characters of the C string starting at `i`, read no further than `n`. */
  function CStrFrom(a: seq<byte>, i: nat, n: nat): (s: seq<byte>)
    requires n <= |a|
    ensures forall k | 0 <= k < |s| :: s[k] != 0
    decreases n - i
  {
    if i >= n || a[i] == 0 then [] else [a[i]] + CStrFrom(a, i + 1, n)
  }

  function CStr(a: seq<byte>, n: nat): seq<byte>
    requires n <= |a|
  {
    CStrFrom(a, 0, n)
  }

  lemma {:induction false} StrnEqualFromIsCStr(a: seq<byte>, b: seq<byte>, i: nat, n: nat)
    requires n <= |a| && n <= |b|
    ensures StrnEqualFrom(a, b, i, n) <==> CStrFrom(a, i, n) == CStrFrom(b, i, n)
    decreases n - i
  {
    if i < n && a[i] == b[i] && a[i] != 0 {
      StrnEqualFromIsCStr(a, b, i + 1, n);
      var x, y := CStrFrom(a, i + 1, n), CStrFrom(b, i + 1, n);
      assert ([a[i]] + x)[1..] == x;
      assert ([a[i]] + y)[1..] == y;
    } else if i < n && a[i] != b[i] {
      if a[i] != 0 && b[i] != 0 {
        assert CStrFrom(a, i, n)[0] != CStrFrom(b, i, n)[0];
      }
    }
  }

  /** `strncmp` reports equality exactly when the two C strings, cut at `n`, are equal. */
  lemma StrnEqualIsCStr(a: seq<byte>, b: seq<byte>, n: nat)
    requires n <= |a| && n <= |b|
    ensures StrnEqual(a, b, n) <==> CStr(a, n) == CStr(b, n)
  {
    StrnEqualFromIsCStr(a, b, 0, n);
  }

  /** A C string cut at `n` depends only on the first `n` bytes. */
  lemma {:induction false} CStrFromAgree(a: seq<byte>, b: seq<byte>, i: nat, n: nat)
    requires n <= |a| && n <= |b|
    requires forall k | i <= k < n :: a[k] == b[k]
    ensures CStrFrom(a, i, n) == CStrFrom(b, i, n)
    decreases n - i
  {
    if i < n && a[i] != 0 {
      CStrFromAgree(a, b, i + 1, n);
    }
  }

  // ---------------------------------------------------------------------------
  // The executors
  // ---------------------------------------------------------------------------

  /** STATUS: bit 0 of payload byte 6 is the armed flag. */
  function StatusUpdate(msg: Message, m: FlightDataModel): (r: FlightDataModel)
    ensures r.(armed := m.armed) == m
    ensures msg.size as int < StatusMinSize ==> r == m
    ensures msg.size as int >= StatusMinSize ==> (r.armed <==> msg.payload[6] as int % 2 == 1)
  {
    if msg.size as int >= StatusMinSize then m.(armed := msg.payload[6] & 0x01 != 0) else m
  }

  /** ATTITUDE: roll, pitch and heading are signed fields at offsets 0, 2 and 4. */
  function AttitudeUpdate(msg: Message, m: FlightDataModel): (r: FlightDataModel)
    ensures r.(roll := m.roll, pitch := m.pitch, heading := m.heading) == m
    ensures msg.size as int < AttitudeMinSize ==> r == m
    ensures msg.size as int >= AttitudeMinSize ==>
      && r.roll == I16LE(msg.payload[0], msg.payload[1])
      && r.pitch == I16LE(msg.payload[2], msg.payload[3])
      && r.heading == I16LE(msg.payload[4], msg.payload[5])
  {
    if msg.size as int >= AttitudeMinSize then
      m.(roll := I16LE(msg.payload[0], msg.payload[1]),
         pitch := I16LE(msg.payload[2], msg.payload[3]),
         heading := I16LE(msg.payload[4], msg.payload[5]))
    else m
  }

  /**
   * FC_VARIANT: when the stored identifier differs from the first four payload
   * bytes as `strncmp` sees them, those four bytes are copied in and followed by NUL.
   */
  function FcVariantUpdate(msg: Message, m: FlightDataModel): (r: FlightDataModel)
    ensures r.(fcIdentifier := m.fcIdentifier) == m
    ensures msg.size as int < FcVariantMinSize ==> r == m
    ensures msg.size as int >= FcVariantMinSize && StrnEqual(m.fcIdentifier, msg.payload, 4) ==> r == m
    ensures msg.size as int >= FcVariantMinSize && !StrnEqual(m.fcIdentifier, msg.payload, 4) ==>
      r.fcIdentifier[..4] == msg.payload[..4] && r.fcIdentifier[4] == 0
  {
    if msg.size as int >= FcVariantMinSize && !StrnEqual(m.fcIdentifier, msg.payload, 4) then
      m.(fcIdentifier := msg.payload[..4] + [0])
    else m
  }

  /** The first sixteen little-endian channel values of an RC payload. */
  function RcChannelValues(p: PayloadBuf): (cs: seq<uint16>)
    ensures |cs| == RcChannels
    ensures forall i | 0 <= i < RcChannels :: cs[i] == U16LE(p[2 * i], p[2 * i + 1])
  {
    seq(RcChannels, i requires 0 <= i < RcChannels => U16LE(p[2 * i], p[2 * i + 1]))
  }

  /** RC (console): channels 0..15 are read from the payload; 16 and 17 keep their values. */
  function RcConsoleUpdate(msg: Message, m: FlightDataModel): (r: FlightDataModel)
    ensures r.(channels := m.channels) == m
    ensures msg.size as int < RcMinSize ==> r == m
    ensures msg.size as int >= RcMinSize ==>
      && (forall i | 0 <= i < RcChannels :: U16Bytes(r.channels[i]) == (msg.payload[2 * i], msg.payload[2 * i + 1]))
      && r.channels[RcChannels..] == m.channels[RcChannels..]
  {
    if msg.size as int >= RcMinSize then
      var cs := RcChannelValues(msg.payload);
      assert forall i | 0 <= i < RcChannels :: U16Bytes(cs[i]) == (msg.payload[2 * i], msg.payload[2 * i + 1]) by {
        forall i | 0 <= i < RcChannels
          ensures U16Bytes(cs[i]) == (msg.payload[2 * i], msg.payload[2 * i + 1])
        {
          U16BytesRoundTrip(msg.payload[2 * i], msg.payload[2 * i + 1]);
        }
      }
      m.(channels := cs + m.channels[RcChannels..])
    else m
  }

  /** `v & 0x1F` on a non-negative value: its remainder by 32 (`AlinkLostIsMask` states the mask itself). */
  function Low5(v: uint16): uint16
  {
    v % 32
  }

  /** `v >> 5` on a non-negative value: its quotient by 32 (`AlinkRecoveredIsMask` states the shift itself). */
  function Shr5(v: uint16): uint16
  {
    v / 32
  }

  /**
   * The link-quality figures read from channels 8, 10 and 11: the quality
   * itself, the low five bits of channel 10 as lost packets, and bits 5..9
   * of channel 11 as recovered packets.
   */
  function AlinkFigures(channels: Channels): (a: AlinkReport)
    ensures a.linkQuality == channels[8]
    ensures a.lost < 32 && a.recovered < 32
  {
    AlinkReport(channels[8], recovered := Low5(Shr5(channels[11])), lost := Low5(channels[10]))
  }

  /** RC (alink): a long enough RC message yields a report from the model's channels. */
  function AlinkReportOf(msg: Message, m: FlightDataModel): (r: Option<AlinkReport>)
    ensures r.Some? <==> msg.size as int >= RcMinSize
    ensures r.Some? ==> r.value == AlinkFigures(m.channels)
  {
    if msg.size as int >= RcMinSize then Some(AlinkFigures(m.channels)) else None
  }

  /**
   * One executor on one message: the model it leaves and the report it sends,
   * if any. No executor touches the frame buffer or its cursor.
   */
  function Execute(e: Executor, msg: Message, m: FlightDataModel): (r: (FlightDataModel, Option<AlinkReport>))
    ensures r.0.frameBuffer == m.frameBuffer && r.0.fbCursor == m.fbCursor
    ensures r.1.Some? ==> e == RcAlinkExec && msg.size as int >= RcMinSize
    ensures e == RcAlinkExec ==> r.0 == m
  {
    match e
    case StatusExec => (StatusUpdate(msg, m), None)
    case AttitudeExec => (AttitudeUpdate(msg, m), None)
    case FcVariantExec => (FcVariantUpdate(msg, m), None)
    case RcConsoleExec => (RcConsoleUpdate(msg, m), None)
    case RcAlinkExec => (m, AlinkReportOf(msg, m))
  }

  /**
   * After FC_VARIANT on a long enough message the stored identifier reads, as a
   * C string of at most four characters, the same as the payload, whether or
   * not the copy happened.
   */
  lemma FcVariantAdopts(msg: Message, m: FlightDataModel)
    requires msg.size as int >= FcVariantMinSize
    ensures CStr(FcVariantUpdate(msg, m).fcIdentifier, 4) == CStr(msg.payload, 4)
  {
    var r := FcVariantUpdate(msg, m);
    if StrnEqual(m.fcIdentifier, msg.payload, 4) {
      StrnEqualIsCStr(m.fcIdentifier, msg.payload, 4);
    } else {
      CStrFromAgree(r.fcIdentifier, msg.payload, 0, 4);
    }
  }

  /** A second FC_VARIANT with the same message finds the identifier equal and changes nothing. */
  lemma FcVariantIdempotent(msg: Message, m: FlightDataModel)
    ensures FcVariantUpdate(msg, FcVariantUpdate(msg, m)) == FcVariantUpdate(msg, m)
  {
    var r := FcVariantUpdate(msg, m);
    if msg.size as int >= FcVariantMinSize {
      FcVariantAdopts(msg, m);
      StrnEqualIsCStr(r.fcIdentifier, msg.payload, 4);
    }
  }

  /** Running an executor twice on the same message is running it once. */
  lemma ExecuteIdempotent(e: Executor, msg: Message, m: FlightDataModel)
    ensures Execute(e, msg, Execute(e, msg, m).0) == Execute(e, msg, m)
  {
    if e == FcVariantExec {
      FcVariantIdempotent(msg, m);
    }
  }

  /** A channel whose bytes are `lo`, `hi` has the value those bytes encode. */
  lemma ChannelFromBytes(v: uint16, lo: byte, hi: byte)
    requires U16Bytes(v) == (lo, hi)
    ensures v == U16LE(lo, hi)
  {
    U16LERoundTrip(v);
  }

  /** The five low bits of a little-endian field are those of its low byte. */
  lemma Low5OfField(lo: byte, hi: byte)
    ensures Low5(U16LE(lo, hi)) == lo as int % 32
  {
    var k := 8 * hi as int;
    assert U16LE(lo, hi) == lo as int + 32 * k;
  }

  /** Quotient and remainder by 32 are the unique ones. */
  lemma DivMod32(v: int, q: int, r: int)
    requires v == 32 * q + r && 0 <= r < 32
    ensures v / 32 == q && v % 32 == r
  {
  }

  /** Bits 5..9 of a little-endian field: bits 5..7 of the low byte and bits 0..1 of the high byte. */
  lemma Bits5To9OfField(lo: byte, hi: byte)
    ensures Low5(Shr5(U16LE(lo, hi))) == lo as int / 32 + 8 * (hi as int % 4)
  {
    var l, h := lo as int, hi as int;
    var w := l / 32 + 8 * h;
    DivMod32(U16LE(lo, hi), w, l % 32);
    assert h == 4 * (h / 4) + h % 4;
    DivMod32(w, h / 4, l / 32 + 8 * (h % 4));
  }

  /** The channels 8, 10 and 11 an RC message writes, read back from its payload bytes. */
  lemma RcAlinkChannels(msg: Message, m: FlightDataModel)
    requires msg.size as int >= RcMinSize
    ensures var c := RcConsoleUpdate(msg, m).channels;
      && c[8] == U16LE(msg.payload[16], msg.payload[17])
      && c[10] == U16LE(msg.payload[20], msg.payload[21])
      && c[11] == U16LE(msg.payload[22], msg.payload[23])
  {
    var c := RcConsoleUpdate(msg, m).channels;
    ChannelFromBytes(c[8], msg.payload[16], msg.payload[17]);
    ChannelFromBytes(c[10], msg.payload[20], msg.payload[21]);
    ChannelFromBytes(c[11], msg.payload[22], msg.payload[23]);
  }

  /** The alink figures of the channels an RC message has just written, from its payload bytes. */
  lemma RcFiguresFromPayload(msg: Message, m: FlightDataModel)
    requires msg.size as int >= RcMinSize
    ensures var a := AlinkFigures(RcConsoleUpdate(msg, m).channels);
      && a.linkQuality == U16LE(msg.payload[16], msg.payload[17])
      && a.lost == msg.payload[20] as int % 32
      && a.recovered == msg.payload[22] as int / 32 + 8 * (msg.payload[23] as int % 4)
  {
    RcAlinkChannels(msg, m);
    Low5OfField(msg.payload[20], msg.payload[21]);
    Bits5To9OfField(msg.payload[22], msg.payload[23]);
  }

  // ---------------------------------------------------------------------------
  // The masks and shifts of the forwarder as bit operations on stored bytes
  // ---------------------------------------------------------------------------

  lemma ByteLow5(b: byte)
    ensures (b & 0x1F) as int == b as int % 32
  {
  }

  lemma ByteShr5(b: byte)
    ensures (b >> 5) as int == b as int / 32
  {
  }

  lemma ByteLow2Shl3(b: byte)
    ensures ((b & 0x03) << 3) as int == 8 * (b as int % 4)
  {
  }

  /** Or of values with no bit in common is their sum. */
  lemma DisjointOr(x: byte, y: byte)
    requires x < 8 && y & 0x07 == 0
    ensures x | y == x + y
  {
  }

  lemma SmallSum(x: byte, y: byte)
    requires x < 8 && y < 32
    ensures (x + y) as int == x as int + y as int
  {
  }

  /** Bits 5..9 of a little-endian field, assembled with shifts and masks from its two bytes. */
  lemma ByteBits5To9(lo: byte, hi: byte)
    ensures ((lo >> 5) | ((hi & 0x03) << 3)) as int == lo as int / 32 + 8 * (hi as int % 4)
  {
    var x, y := lo >> 5, (hi & 0x03) << 3;
    ByteShr5(lo);
    ByteLow2Shl3(hi);
    DisjointOr(x, y);
    SmallSum(x, y);
  }

  /**
   * `channels[10] & 0x1F`, with the bit operation taken on the bytes the
   * channel is stored as: the low five bits of its low byte.
   */
  lemma AlinkLostIsMask(channels: Channels)
    ensures var (lo, hi) := U16Bytes(channels[10]);
      AlinkFigures(channels).lost == (lo & 0x1F) as int
  {
    var (lo, hi) := U16Bytes(channels[10]);
    ChannelFromBytes(channels[10], lo, hi);
    Low5OfField(lo, hi);
    ByteLow5(lo);
  }

  /**
   * `(channels[11] >> 5) & 0x1F` on the bytes the channel is stored as: the
   * top three bits of the low byte below the two low bits of the high byte.
   */
  lemma AlinkRecoveredIsMask(channels: Channels)
    ensures var (lo, hi) := U16Bytes(channels[11]);
      AlinkFigures(channels).recovered == ((lo >> 5) | ((hi & 0x03) << 3)) as int
  {
    var (lo, hi) := U16Bytes(channels[11]);
    ChannelFromBytes(channels[11], lo, hi);
    Bits5To9OfField(lo, hi);
    ByteBits5To9(lo, hi);
  }
}
