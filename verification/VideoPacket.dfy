/** The fixed 30-byte video packet header and the datagrams that carry it. */
module VideoPacket {
  import opened Wrappers
  import opened Octets

  const HEADER_LEN := 30
  const CURRENT_VERSION: byte := 2
  const MAX_PAYLOAD_LEN := 1200
  const MAX_VIDEO_DATAGRAM_SIZE := 64 * 1024

  datatype Header = Header(
    version: byte,
    flags: byte,
    streamId: u16,
    frameId: u32,
    packetId: u16,
    packetCount: u16,
    timestampUs: u64,
    nonceSequence: u64,
    payloadLen: u16)

  // The flag bits KEYFRAME = 1, FRAME_START = 2 and FRAME_END = 4 of the flags byte, tested and set
  // arithmetically: each setter is the bitwise or with its mask and keeps the other flags.

  predicate IsKeyframe(flags: byte) {
    flags % 2 == 1
  }

  predicate IsStart(flags: byte) {
    flags % 4 >= 2
  }

  predicate IsEnd(flags: byte) {
    flags % 8 >= 4
  }

  lemma RemainderBy2(quotient: int, remainder: int)
    requires 0 <= remainder < 2
    ensures (2 * quotient + remainder) % 2 == remainder
  {
  }

  lemma RemainderBy4(quotient: int, remainder: int)
    requires 0 <= remainder < 4
    ensures (4 * quotient + remainder) % 4 == remainder
  {
  }

  lemma RemainderBy8(quotient: int, remainder: int)
    requires 0 <= remainder < 8
    ensures (8 * quotient + remainder) % 8 == remainder
  {
  }

  /** The flag bits depend on the lowest three bits alone. */
  lemma LowBits(high: int, low: int)
    requires 0 <= low < 8
    ensures (8 * high + low) / 8 == high
    ensures (8 * high + low) % 8 == low && (8 * high + low) % 4 == low % 4 && (8 * high + low) % 2 == low % 2
  {
    RemainderBy8(high, low);
    RemainderBy4(2 * high + low / 4, low % 4);
    RemainderBy2(4 * high + low / 2, low % 2);
    assert 8 * high + low == 4 * (2 * high + low / 4) + low % 4 == 2 * (4 * high + low / 2) + low % 2;
  }

  function SetStart(flags: byte): (r: byte)
    ensures IsStart(r) && IsKeyframe(r) == IsKeyframe(flags) && IsEnd(r) == IsEnd(flags)
    ensures r / 8 == flags / 8
    ensures IsStart(flags) ==> r == flags
  {
    LowBits(flags / 8, flags % 8);
    if IsStart(flags) then flags
    else
      LowBits(flags / 8, flags % 8 + 2);
      flags + 2
  }

  function SetEnd(flags: byte): (r: byte)
    ensures IsEnd(r) && IsKeyframe(r) == IsKeyframe(flags) && IsStart(r) == IsStart(flags)
    ensures r / 8 == flags / 8
    ensures IsEnd(flags) ==> r == flags
  {
    LowBits(flags / 8, flags % 8);
    if IsEnd(flags) then flags
    else
      LowBits(flags / 8, flags % 8 + 4);
      flags + 4
  }

  datatype PacketError =
    | UnsupportedVersion(expected: byte, actual: byte)
    | HeaderTooShort(got: nat)
    | PayloadTooShort(declared: nat, got: nat)
    | PayloadTooLarge(max: nat, declared: nat)

  datatype DatagramError =
    | TooLarge(actual: nat, limit: nat)
    | Packet(error: PacketError)
    | PayloadLengthMismatch

  /** The header bytes in wire order. */
  function HeaderBytes(h: Header): (s: Bytes)
    ensures |s| == HEADER_LEN
  {
    [h.version, h.flags] + ToBE(h.streamId, 2) + ToBE(h.frameId, 4) + ToBE(h.packetId, 2)
    + ToBE(h.packetCount, 2) + ToBE(h.timestampUs, 8) + ToBE(h.nonceSequence, 8) + ToBE(h.payloadLen, 2)
  }

  /** `VideoPacketHeader::encode`: appends header and payload to a buffer. */
  method Encode(h: Header, payload: Bytes, buffer: Bytes) returns (out: Bytes)
    ensures out == buffer + HeaderBytes(h) + payload
  {
    out := buffer;
    out := out + [h.version];
    out := out + [h.flags];
    out := out + ToBE(h.streamId, 2);
    out := out + ToBE(h.frameId, 4);
    out := out + ToBE(h.packetId, 2);
    out := out + ToBE(h.packetCount, 2);
    out := out + ToBE(h.timestampUs, 8);
    out := out + ToBE(h.nonceSequence, 8);
    out := out + ToBE(h.payloadLen, 2);
    out := out + payload;
  }

  /** The header a buffer of at least 30 bytes spells out. */
  function ParseHeader(b: Bytes): Header
    requires |b| >= HEADER_LEN
  {
    TwoBytesFit(b[2..4]); FourBytesFit(b[4..8]); TwoBytesFit(b[8..10]); TwoBytesFit(b[10..12]);
    EightBytesFit(b[12..20]); EightBytesFit(b[20..28]); TwoBytesFit(b[28..30]);
    Header(b[0], b[1], FromBE(b[2..4]), FromBE(b[4..8]), FromBE(b[8..10]), FromBE(b[10..12]),
           FromBE(b[12..20]), FromBE(b[20..28]), FromBE(b[28..30]))
  }

  /** `VideoPacketHeader::decode`. */
  function Decode(b: Bytes): Result<(Header, Bytes), PacketError> {
    if |b| < HEADER_LEN then Err(HeaderTooShort(|b|))
    else if b[0] != CURRENT_VERSION then Err(UnsupportedVersion(CURRENT_VERSION, b[0]))
    else
      var h := ParseHeader(b);
      if h.payloadLen > MAX_PAYLOAD_LEN then Err(PayloadTooLarge(MAX_PAYLOAD_LEN, h.payloadLen))
      else if |b| < HEADER_LEN + h.payloadLen then Err(PayloadTooShort(h.payloadLen, |b| - HEADER_LEN))
      else Ok((h, b[HEADER_LEN..HEADER_LEN + h.payloadLen]))
  }

  /** `encode_video_datagram`. Its total-size check cannot fire: a payload of 1200 bytes leaves room for the header. */
  function EncodeDatagram(h: Header, payload: Bytes): Result<Bytes, DatagramError> {
    if |payload| > MAX_PAYLOAD_LEN then Err(TooLarge(|payload|, MAX_PAYLOAD_LEN))
    else if h.payloadLen != |payload| then Err(PayloadLengthMismatch)
    else Ok(HeaderBytes(h) + payload)
  }

  /** `decode_video_datagram`. */
  function DecodeDatagram(b: Bytes): Result<(Header, Bytes), DatagramError> {
    if |b| > MAX_VIDEO_DATAGRAM_SIZE then Err(TooLarge(|b|, MAX_VIDEO_DATAGRAM_SIZE))
    else match Decode(b)
      case Ok(v) => Ok(v)
      case Err(e) => Err(Packet(e))
  }

  /** Why a datagram is refused, read off its bytes. */
  predicate Refuses(b: Bytes, e: DatagramError) {
    match e
    case TooLarge(actual, limit) => actual == |b| > limit == MAX_VIDEO_DATAGRAM_SIZE
    case PayloadLengthMismatch => false
    case Packet(HeaderTooShort(got)) => got == |b| < HEADER_LEN
    case Packet(UnsupportedVersion(expected, actual)) =>
      HEADER_LEN <= |b| <= MAX_VIDEO_DATAGRAM_SIZE && expected == CURRENT_VERSION && actual == b[0] != expected
    case Packet(PayloadTooLarge(max, declared)) =>
      && HEADER_LEN <= |b| <= MAX_VIDEO_DATAGRAM_SIZE && b[0] == CURRENT_VERSION
      && declared == 256 * b[28] + b[29] > max == MAX_PAYLOAD_LEN
    case Packet(PayloadTooShort(declared, got)) =>
      && HEADER_LEN <= |b| <= MAX_VIDEO_DATAGRAM_SIZE && b[0] == CURRENT_VERSION
      && got == |b| - HEADER_LEN < declared == 256 * b[28] + b[29] <= MAX_PAYLOAD_LEN
  }

  lemma FromTwoBytes(s: Bytes)
    requires |s| == 2
    ensures FromBE(s) == 256 * (s[0] as int) + s[1]
  {
    assert s[..1][..0] == [];
    assert FromBE(s[..1]) == s[0];
  }

  /** A datagram is refused with an error if and only if its bytes are at fault in that way, and accepted if and only
      if they are not at fault at all. */
  lemma RefusedExactly(b: Bytes, e: DatagramError)
    ensures DecodeDatagram(b) == Err(e) <==> Refuses(b, e)
  {
    if |b| >= HEADER_LEN {
      FromTwoBytes(b[28..30]);
    }
  }

  /** The nine fields sit at fixed offsets of the header bytes. */
  lemma HeaderSlices(h: Header, rest: Bytes)
    ensures var b := HeaderBytes(h) + rest;
            && b[0] == h.version && b[1] == h.flags
            && b[2..4] == ToBE(h.streamId, 2) && b[4..8] == ToBE(h.frameId, 4)
            && b[8..10] == ToBE(h.packetId, 2) && b[10..12] == ToBE(h.packetCount, 2)
            && b[12..20] == ToBE(h.timestampUs, 8) && b[20..28] == ToBE(h.nonceSequence, 8)
            && b[28..30] == ToBE(h.payloadLen, 2) && b[30..] == rest
  {
  }

  /** Parsing the bytes of a header yields that header. */
  lemma ParseHeaderBytes(h: Header, rest: Bytes)
    ensures ParseHeader(HeaderBytes(h) + rest) == h
  {
    HeaderSlices(h, rest);
    Limits();
    FromToBE(h.streamId, 2); FromToBE(h.frameId, 4); FromToBE(h.packetId, 2); FromToBE(h.packetCount, 2);
    FromToBE(h.timestampUs, 8); FromToBE(h.nonceSequence, 8); FromToBE(h.payloadLen, 2);
  }

  /** Conversely, the bytes of a parsed header are the first 30 bytes of the buffer. */
  lemma HeaderBytesParse(b: Bytes)
    requires |b| >= HEADER_LEN
    ensures HeaderBytes(ParseHeader(b)) == b[..HEADER_LEN]
  {
    ToFromBE(b[2..4]); ToFromBE(b[4..8]); ToFromBE(b[8..10]); ToFromBE(b[10..12]);
    ToFromBE(b[12..20]); ToFromBE(b[20..28]); ToFromBE(b[28..30]);
    assert b[..30] == [b[0], b[1]] + b[2..4] + b[4..8] + b[8..10] + b[10..12] + b[12..20] + b[20..28] + b[28..30];
  }

  /** Encoding does not look at the version, decoding does: the round trip holds exactly for version 2. */
  lemma DecodeOfEncode(h: Header, payload: Bytes)
    requires EncodeDatagram(h, payload).Ok?
    ensures DecodeDatagram(EncodeDatagram(h, payload).value) == Ok((h, payload)) <==> h.version == CURRENT_VERSION
    ensures DecodeDatagram(EncodeDatagram(h, payload).value).Ok? <==> h.version == CURRENT_VERSION
  {
    ParseHeaderBytes(h, payload);
    HeaderSlices(h, payload);
    var b := HeaderBytes(h) + payload;
    assert b[HEADER_LEN..HEADER_LEN + |payload|] == payload;
  }

  /** Every accepted datagram is the encoding of what it decodes to, followed by the trailing bytes. */
  lemma EncodeOfDecode(b: Bytes)
    requires DecodeDatagram(b).Ok?
    ensures var (h, payload) := DecodeDatagram(b).value;
            && h.version == CURRENT_VERSION
            && EncodeDatagram(h, payload) == Ok(b[..HEADER_LEN + |payload|])
            && (EncodeDatagram(h, payload) == Ok(b) <==> |b| == HEADER_LEN + |payload|)
  {
    HeaderBytesParse(b);
    var (h, payload) := DecodeDatagram(b).value;
    assert b[..HEADER_LEN] + payload == b[..HEADER_LEN + |payload|];
    assert |b| == HEADER_LEN + |payload| ==> b[..HEADER_LEN + |payload|] == b;
  }
}
