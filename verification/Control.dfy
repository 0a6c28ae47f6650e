/** Length-prefixed, typed control envelopes, and the runtime's split between control and video datagrams. */
module Control {
  import opened Wrappers
  import opened Octets
  import VideoPacket

  const MAX_CONTROL_MESSAGE_SIZE := 64 * 1024
  const FRAME_PREFIX_SIZE := 4
  const KIND_PREFIX_SIZE := 1

  datatype Kind = CursorPosition | CursorShape

  datatype ControlError =
    | TooLarge(actual: nat, limit: nat)
    | TruncatedFrame
    | UnknownKind(code: byte)

  function Code(kind: Kind): byte {
    match kind case CursorPosition => 1 case CursorShape => 2
  }

  function ParseKind(code: byte): Result<Kind, ControlError> {
    if code == 1 then Ok(CursorPosition) else if code == 2 then Ok(CursorShape) else Err(UnknownKind(code))
  }

  /** `encode_framed_control_envelope`, for a message already serialised to `message`. */
  function EncodeEnvelope(kind: Kind, message: Bytes): Result<Bytes, ControlError> {
    if |message| > MAX_CONTROL_MESSAGE_SIZE then Err(TooLarge(|message|, MAX_CONTROL_MESSAGE_SIZE))
    else if KIND_PREFIX_SIZE + |message| > MAX_CONTROL_MESSAGE_SIZE then
      Err(TooLarge(KIND_PREFIX_SIZE + |message|, MAX_CONTROL_MESSAGE_SIZE))
    else Ok(ToBE(KIND_PREFIX_SIZE + |message|, FRAME_PREFIX_SIZE) + [Code(kind)] + message)
  }

  /** `decode_framed_control_envelope`. */
  function DecodeEnvelope(b: Bytes): Result<(Kind, Bytes), ControlError> {
    if |b| < FRAME_PREFIX_SIZE + KIND_PREFIX_SIZE then Err(TruncatedFrame)
    else
      var declared := FromBE(b[..FRAME_PREFIX_SIZE]);
      if declared > MAX_CONTROL_MESSAGE_SIZE then Err(TooLarge(declared, MAX_CONTROL_MESSAGE_SIZE))
      else if |b| != FRAME_PREFIX_SIZE + declared || declared < KIND_PREFIX_SIZE then Err(TruncatedFrame)
      else match ParseKind(b[FRAME_PREFIX_SIZE])
        case Ok(kind) => Ok((kind, b[FRAME_PREFIX_SIZE + KIND_PREFIX_SIZE..]))
        case Err(e) => Err(e)
  }

  /** Decoding undoes encoding, whenever encoding accepts the message. */
  lemma EnvelopeRoundTrip(kind: Kind, message: Bytes)
    ensures EncodeEnvelope(kind, message).Ok? <==> |message| < MAX_CONTROL_MESSAGE_SIZE
    ensures EncodeEnvelope(kind, message).Ok? ==>
              DecodeEnvelope(EncodeEnvelope(kind, message).value) == Ok((kind, message))
  {
    if |message| < MAX_CONTROL_MESSAGE_SIZE {
      var b := EncodeEnvelope(kind, message).value;
      assert b[..FRAME_PREFIX_SIZE] == ToBE(KIND_PREFIX_SIZE + |message|, FRAME_PREFIX_SIZE);
      assert b[FRAME_PREFIX_SIZE + KIND_PREFIX_SIZE..] == message;
      Limits();
      FromToBE(KIND_PREFIX_SIZE + |message|, FRAME_PREFIX_SIZE);
    }
  }

  /** Encoding undoes decoding on every accepted envelope, so the wire form is canonical. */
  lemma EnvelopeIsCanonical(b: Bytes)
    requires DecodeEnvelope(b).Ok?
    ensures EncodeEnvelope(DecodeEnvelope(b).value.0, DecodeEnvelope(b).value.1) == Ok(b)
  {
    ToFromBE(b[..FRAME_PREFIX_SIZE]);
    assert b == b[..FRAME_PREFIX_SIZE] + [b[FRAME_PREFIX_SIZE]] + b[FRAME_PREFIX_SIZE + KIND_PREFIX_SIZE..];
  }

  /** The bytes of an envelope: the big-endian length, 1 for a cursor position or 2 for a cursor shape, the message. */
  lemma EnvelopeBytes(kind: Kind, message: Bytes)
    requires |message| < MAX_CONTROL_MESSAGE_SIZE
    ensures var b := EncodeEnvelope(kind, message).value;
            && |b| == 5 + |message| && FromBE(b[..4]) == 1 + |message|
            && b[4] == (if kind == CursorPosition then 1 else 2) && b[5..] == message
  {
    var b := EncodeEnvelope(kind, message).value;
    assert b[..4] == ToBE(1 + |message|, 4);
    Limits();
    FromToBE(1 + |message|, 4);
  }

  /** Why an envelope is refused, read off its bytes. */
  predicate Refuses(b: Bytes, e: ControlError) {
    match e
    case TooLarge(actual, limit) => |b| >= 5 && actual == FromBE(b[..4]) > limit == MAX_CONTROL_MESSAGE_SIZE
    case TruncatedFrame =>
      |b| < 5 || (FromBE(b[..4]) <= MAX_CONTROL_MESSAGE_SIZE && |b| != 4 + FromBE(b[..4]))
    case UnknownKind(code) =>
      |b| >= 5 && |b| - 4 == FromBE(b[..4]) <= MAX_CONTROL_MESSAGE_SIZE && code == b[4] && code != 1 && code != 2
  }

  lemma RefusedExactly(b: Bytes, e: ControlError)
    ensures DecodeEnvelope(b) == Err(e) <==> Refuses(b, e)
  {
  }

  /** The first byte of a length prefix within the size limit is zero. */
  lemma SmallPrefixStartsWithZero(b: Bytes)
    requires |b| == 4 && FromBE(b) <= MAX_CONTROL_MESSAGE_SIZE
    ensures b[0] == 0
  {
    assert b[..3][..2] == b[..2] && b[..2][..1] == b[..1] && b[..1][..0] == [];
    assert FromBE(b[..1]) == b[0];
    assert FromBE(b[..2]) == FromBE(b[..1]) * 256 + b[1];
    assert FromBE(b[..3]) == FromBE(b[..2]) * 256 + b[2];
  }

  /** No datagram is both a video datagram and a control envelope: the runtime's try-video-first
      classification never takes one for the other. */
  lemma ClassificationIsUnambiguous(b: Bytes)
    ensures !(VideoPacket.DecodeDatagram(b).Ok? && DecodeEnvelope(b).Ok?)
  {
    if DecodeEnvelope(b).Ok? {
      SmallPrefixStartsWithZero(b[..FRAME_PREFIX_SIZE]);
    }
  }
}
