/** Octets and the one conversion from a small length into an octet. */
module Octets {

  /** One octet on the wire; bit-vector so that xor and masks are native. */
  type byte = bv8

  /**
   * A length below 256 as the one byte that carries it on the wire; counted up
   * in byte arithmetic, which never wraps below 256.
   */
  function LengthByte(n: nat): (b: byte)
    requires n < 256
    ensures b as int == n
  {
    if n == 0 then 0
    else
      var c := LengthByte(n - 1);
      ByteIncrement(c);
      c + 1
  }

  /** A byte's own value, counted up again, is the byte: lengths and their bytes are one-to-one. */
  lemma {:induction false} LengthByteOfByte(b: byte)
    ensures LengthByte(b as int) == b
  {
    if b != 0 {
      var c := b - 1;
      ByteIncrement(c);
      LengthByteOfByte(c);
    }
  }

  lemma ByteIncrement(c: byte)
    requires c as int < 255
    ensures (c + 1) as int == c as int + 1
  {
  }
}

/**
 * Constants, commands and the decoded message record of the MultiWii Serial
 * Protocol (MSP v1) frame format: `$` `M` `<`|`>` LEN CMD payload CHECKSUM.
 */
module MspTypes {
  import opened Octets

  /**
   * A C `uint16_t`, as its value. The program only masks and shifts these
   * values, which on non-negative numbers are `%` and `/` by powers of two.
   */
  type uint16 = x: int | 0 <= x < 0x1_0000

  /** A C `int16_t`. */
  type int16 = x: int | -0x8000 <= x < 0x8000

  datatype Option<T> = None | Some(value: T)

  /** Capacity of the payload buffer inside a message. */
  const MaxPayloadSize: nat := 256
  /** Capacity of the flight model's staging buffer. */
  const FrameBufferSize: nat := 1024
  /** Number of RC channel slots in the flight model. */
  const ChannelCount: nat := 18

  /** Frame marker bytes. */
  const Dollar: byte := 0x24     // '$'
  const VersionM: byte := 0x4D   // 'M'
  const LessThan: byte := 0x3C   // '<'
  const GreaterThan: byte := 0x3E  // '>'

  function Zeros(n: nat): (r: seq<byte>)
    ensures |r| == n
    ensures forall i :: 0 <= i < n ==> r[i] == 0
  {
    seq(n, _ => 0)
  }

  /** The fixed-capacity payload array of a message. */
  type PayloadBuf = s: seq<byte> | |s| == MaxPayloadSize witness Zeros(MaxPayloadSize)

  /** The command ids the program knows; every other id collapses to Unknown. */
  datatype MspCommand = Status | Attitude | Rc | FcVariant | Unknown {
    /** The enumerator's underlying `uint8_t` value. */
    function Id(): byte {
      match this
      case Status => 101
      case Attitude => 108
      case Rc => 105
      case FcVariant => 102
      case Unknown => 255
    }
  }

  const KnownIds: set<byte> := {101, 102, 105, 108}

  /** Maps a raw command byte onto the command enumeration. */
  function ToMspCommand(b: byte): (c: MspCommand)
    ensures c == Unknown || c.Id() == b
  {
    if b == 101 then Status
    else if b == 108 then Attitude
    else if b == 105 then Rc
    else if b == 102 then FcVariant
    else Unknown
  }

  /** A known id maps to the enumerator with that value; every other id, 255 included, to Unknown. */
  lemma CommandMapping(b: byte)
    ensures b in KnownIds ==> ToMspCommand(b).Id() == b
    ensures b !in KnownIds <==> ToMspCommand(b) == Unknown
  {
  }

  /** `ToMspCommand` inverts `Id` on every enumerator, Unknown (255) included. */
  lemma CommandIdRoundTrip(c: MspCommand)
    ensures ToMspCommand(c.Id()) == c
  {
  }

  /** Two different raw ids reach the same enumerator only by both being unknown. */
  lemma UnknownIdsShareOneSlot(a: byte, b: byte)
    requires a != b && ToMspCommand(a) == ToMspCommand(b)
    ensures a !in KnownIds && b !in KnownIds
  {
    CommandMapping(a);
    CommandMapping(b);
  }

  datatype Direction = Outbound | Inbound

  /** A decoded frame; `payload` beyond `size` holds zeros. */
  datatype Message = Message(
    direction: Direction,
    cmd: MspCommand,
    size: byte,
    checksum: byte,
    payload: PayloadBuf)

  /** The message as left by the parser's reset: zeroed, command Unknown. */
  const EmptyMessage: Message := Message(Outbound, Unknown, 0, 0, Zeros(MaxPayloadSize))

  /** Exclusive-or of every byte of `s`. */
  function XorAll(s: seq<byte>): byte
  {
    if |s| == 0 then 0 else XorAll(s[..|s| - 1]) ^ s[|s| - 1]
  }

  lemma {:induction false} XorAllConcat(a: seq<byte>, b: seq<byte>)
    ensures XorAll(a + b) == XorAll(a) ^ XorAll(b)
    decreases |b|
  {
    if |b| == 0 {
      assert a + b == a;
    } else {
      var b' := b[..|b| - 1];
      assert (a + b)[..|a + b| - 1] == a + b';
      XorAllConcat(a, b');
    }
  }

  /** Xor of a non-empty sequence: its prefix's xor and its last byte. */
  lemma XorAllSnoc(s: seq<byte>, b: byte)
    ensures XorAll(s + [b]) == XorAll(s) ^ b
  {
    assert (s + [b])[..|s|] == s;
  }

  lemma XorAllAround(a: seq<byte>, x: byte, c: seq<byte>)
    ensures XorAll(a + [x] + c) == XorAll(a) ^ x ^ XorAll(c)
  {
    XorAllConcat(a + [x], c);
    XorAllSnoc(a, x);
  }

  /** Changing one byte by a mask changes the running xor by that same mask. */
  lemma XorAllUpdate(s: seq<byte>, i: nat, d: byte)
    requires i < |s|
    ensures XorAll(s[i := s[i] ^ d]) == XorAll(s) ^ d
  {
    var a, c := s[..i], s[i + 1..];
    assert s == a + [s[i]] + c;
    assert s[i := s[i] ^ d] == a + [s[i] ^ d] + c;
    XorAllAround(a, s[i], c);
    XorAllAround(a, s[i] ^ d, c);
  }
}
