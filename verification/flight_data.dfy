/**
 * The flight controller state the executors fill in (`FlightDataModel`), and
 * its staging buffer: a 1024-byte array with a cursor that is reset to the
 * start whenever the next copy would not fit.
 */
module FlightData {
  import opened Octets
  import opened MspTypes

  /** Size of `fcIdentifier`: four characters and a terminating NUL. */
  const IdentifierSize: nat := 5

  type Channels = s: seq<uint16> | |s| == ChannelCount witness seq(ChannelCount, _ => 0)
  type Identifier = s: seq<byte> | |s| == IdentifierSize witness Zeros(IdentifierSize)
  type FrameBuffer = s: seq<byte> | |s| == FrameBufferSize witness Zeros(FrameBufferSize)

  datatype FlightDataModel = FlightDataModel(
    armed: bool,
    pitch: int16,
    roll: int16,
    heading: int16,
    channels: Channels,
    fcIdentifier: Identifier,
    frameBuffer: FrameBuffer,
    fbCursor: nat)

  /** A default-constructed model: everything zero, not armed. */
  function InitialModel(): (m: FlightDataModel)
    ensures !m.armed && m.pitch == 0 && m.roll == 0 && m.heading == 0 && m.fbCursor == 0
    ensures forall i | 0 <= i < ChannelCount :: m.channels[i] == 0
    ensures forall i | 0 <= i < IdentifierSize :: m.fcIdentifier[i] == 0
  {
    FlightDataModel(false, 0, 0, 0, seq(ChannelCount, _ => 0), Zeros(IdentifierSize),
                    Zeros(FrameBufferSize), 0)
  }

  /** Where the next copy of `n` bytes lands: at the cursor, or at 0 after a flush. */
  function CopyStart(cursor: nat, n: nat): nat
  {
    if cursor + n > FrameBufferSize then 0 else cursor
  }

  /**
   * `copyToFrameBuffer`: a copy that would run past the end first flushes the
   * buffer, which only rewinds the cursor; the bytes are then written at the
   * cursor, which advances by their count. A copy longer than the buffer would
   * overrun it even after the flush, so callers must not make one.
   */
  function CopyToFrameBuffer(m: FlightDataModel, data: seq<byte>): (r: FlightDataModel)
    requires |data| <= FrameBufferSize
    ensures r.fbCursor <= FrameBufferSize
    ensures var start := r.fbCursor - |data|;
      && 0 <= start
      && (start == m.fbCursor || (start == 0 && m.fbCursor + |data| > FrameBufferSize))
      && (forall i | 0 <= i < |data| :: r.frameBuffer[start + i] == data[i])
      && (forall i | 0 <= i < start || r.fbCursor <= i < FrameBufferSize :: r.frameBuffer[i] == m.frameBuffer[i])
    ensures r.(frameBuffer := m.frameBuffer, fbCursor := m.fbCursor) == m
  {
    var start := CopyStart(m.fbCursor, |data|);
    m.(frameBuffer := m.frameBuffer[..start] + data + m.frameBuffer[start + |data|..],
       fbCursor := start + |data|)
  }

  /** A copy that fits lands at the cursor; one that does not fit lands at 0. */
  lemma FlushExactlyWhenFull(m: FlightDataModel, data: seq<byte>)
    requires |data| <= FrameBufferSize
    ensures m.fbCursor + |data| <= FrameBufferSize ==> CopyToFrameBuffer(m, data).fbCursor == m.fbCursor + |data|
    ensures m.fbCursor + |data| > FrameBufferSize ==> CopyToFrameBuffer(m, data).fbCursor == |data|
  {
  }
}
