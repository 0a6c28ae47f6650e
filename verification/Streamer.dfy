/** The host side of the video path: seal, fragment, encode. */
module Streamer {
  import opened Wrappers
  import opened Octets
  import opened VideoPacket
  import opened Packetizer
  import opened Crypto

  datatype EncodedFrame = EncodedFrame(frameId: u64, timestampUs: u64, keyframe: bool, data: Bytes)

  datatype StreamerError =
    | FrameIdOutOfRange(frameId: u64)
    | NonceExhausted
    | EncryptionFailed
    | Unpacketizable(error: PacketizeError)

  /** A sealed frame: under which nonce sequence, and as which ciphertext. */
  datatype SealedFrame = SealedFrame(frame: EncodedFrame, sequence: u64, ciphertext: Bytes)

  /** A sealed frame that can leave the host: its id fits the wire and its ciphertext is within the limit. */
  type Sent = s: SealedFrame | FitsWire(s.frame) && |s.ciphertext| <= MAX_FRAME_PAYLOAD_SIZE
    witness SealedFrame(EncodedFrame(0, 0, false, []), 0, [])

  predicate FitsWire(frame: EncodedFrame) {
    frame.frameId < 0x1_0000_0000
  }

  function BaseHeader(streamId: byte, frame: EncodedFrame, sequence: u64): Header
    requires FitsWire(frame)
  {
    var flags := if frame.keyframe then 1 else 0;
    Header(CURRENT_VERSION, flags, streamId, frame.frameId, 0, 1, frame.timestampUs, sequence, 0)
  }

  function Id(s: Sent): u32 {
    s.frame.frameId
  }

  function Base(streamId: byte, s: Sent): Header {
    BaseHeader(streamId, s.frame, s.sequence)
  }

  function ChunksOf(s: Sent): (cs: seq<Bytes>)
    ensures 0 < |cs| <= MAX_PACKETS_PER_FRAME
    ensures forall i :: 0 <= i < |cs| ==> |cs[i]| <= MAX_PAYLOAD_LEN
  {
    HostChunksAreFewEnough(s.ciphertext);
    ChunkBounds(s.ciphertext, MAX_PAYLOAD_LEN);
    Chunks(s.ciphertext, MAX_PAYLOAD_LEN)
  }

  function PacketOf(streamId: byte, s: Sent, i: nat): Fragment
    requires i < |ChunksOf(s)|
  {
    PacketAt(Base(streamId, s), ChunksOf(s), i)
  }

  /** The datagram that carries packet `i` of a sent frame. */
  function DatagramOf(streamId: byte, s: Sent, i: nat): Bytes
    requires i < |ChunksOf(s)|
  {
    HeaderBytes(PacketOf(streamId, s, i).header) + PacketOf(streamId, s, i).payload
  }

  function DatagramsOf(streamId: byte, s: Sent): (ds: seq<Bytes>)
  {
    seq(|ChunksOf(s)|, i requires 0 <= i < |ChunksOf(s)| => DatagramOf(streamId, s, i))
  }

  /** The header of every packet a host sends: the frame's own id, timestamp and keyframe flag, the sequence it was
      sealed under, start and end flags on the first and the last packet, and no other flag. */
  lemma HostHeader(streamId: byte, s: Sent, i: nat)
    requires i < |ChunksOf(s)|
    ensures var h := PacketOf(streamId, s, i).header;
            && h.version == 2 && h.streamId == streamId && h.frameId == s.frame.frameId
            && h.timestampUs == s.frame.timestampUs && h.nonceSequence == s.sequence
            && h.packetId == i && h.packetCount == |ChunksOf(s)| && h.payloadLen == |ChunksOf(s)[i]|
            && (IsKeyframe(h.flags) <==> s.frame.keyframe) && h.flags / 8 == 0
            && (IsStart(h.flags) <==> i == 0) && (IsEnd(h.flags) <==> i == |ChunksOf(s)| - 1)
  {
    PacketHeader(Base(streamId, s), ChunksOf(s), i);
  }

  /** The sealing half of `packetize_encoded_frame`: a nonce is used up even when a later step fails. */
  function SealFrame(a: Aead, key: Bytes, streamId: byte, nonces: NonceState, frame: EncodedFrame)
    : (NonceState, Result<Sent, StreamerError>)
  {
    if !FitsWire(frame) then (nonces, Err(FrameIdOutOfRange(frame.frameId)))
    else
      var (next, nonce) := NextNonce(nonces);
      if nonce.None? then (next, Err(NonceExhausted))
      else
        var header := BaseHeader(streamId, frame, 0);
        var sealed := a.seal(key, nonce.value, AssociatedData(MetadataOf(header)), frame.data);
        if sealed.None? then (next, Err(EncryptionFailed))
        else
          var sequence := SequenceOfNonce(nonce.value);
          match Packetize(BaseHeader(streamId, frame, sequence), sealed.value, MAX_PAYLOAD_LEN)
          case Err(e) => (next, Err(Unpacketizable(e)))
          case Ok(_) => (next, Ok(SealedFrame(frame, sequence, sealed.value)))
  }

  /** The only frames the host refuses, once sealing has worked, are those over the size limit. */
  lemma OnlyOversizedFramesAreUnpacketizable(base: Header, ciphertext: Bytes)
    ensures Packetize(base, ciphertext, MAX_PAYLOAD_LEN).Ok? <==> |ciphertext| <= MAX_FRAME_PAYLOAD_SIZE
  {
    if |ciphertext| <= MAX_FRAME_PAYLOAD_SIZE {
      HostChunksAreFewEnough(ciphertext);
    }
  }

  class HostVideoStreamer {
    const aead: Aead
    const key: Bytes
    const streamId: byte
    const nonces: NonceSequence

    constructor (aead: Aead, key: Bytes)
      ensures this.aead == aead && this.key == key && streamId == 1
      ensures nonces.State() == NonceState(1, 0, false) && fresh(nonces)
    {
      this.aead := aead;
      this.key := key;
      this.streamId := 1;
      this.nonces := new NonceSequence(1);
    }

    /** `packetize_encoded_frame`. */
    method PacketizeEncodedFrame(frame: EncodedFrame) returns (r: Result<seq<Bytes>, StreamerError>)
      modifies nonces
      ensures nonces.State() == SealFrame(aead, key, streamId, old(nonces.State()), frame).0
      ensures match SealFrame(aead, key, streamId, old(nonces.State()), frame).1
              case Ok(sent) => r == Ok(DatagramsOf(streamId, sent))
              case Err(e) => r == Err(e)
    {
      if frame.frameId >= 0x1_0000_0000 {
        return Err(FrameIdOutOfRange(frame.frameId));
      }
      var flags: byte := 0;
      if frame.keyframe {
        flags := 1;
      }
      var header := Header(CURRENT_VERSION, flags, streamId, frame.frameId, 0, 1, frame.timestampUs, 0, 0);
      var nonce := nonces.Next();
      if nonce.None? {
        return Err(NonceExhausted);
      }
      var sealed := aead.seal(key, nonce.value, AssociatedData(MetadataOf(header)), frame.data);
      if sealed.None? {
        return Err(EncryptionFailed);
      }
      header := header.(nonceSequence := SequenceOfNonce(nonce.value));
      var packets := PacketizeVideoFrame(header, sealed.value, MAX_PAYLOAD_LEN);
      if packets.Err? {
        return Err(Unpacketizable(packets.error));
      }
      ghost var sent: Sent := SealedFrame(frame, SequenceOfNonce(nonce.value), sealed.value);
      var datagrams := EncodePackets(streamId, packets.value, sent);
      r := Ok(datagrams);
    }
  }

  /** The loop that encodes the packets of a frame. */
  method EncodePackets(streamId: byte, packets: seq<Fragment>, ghost s: Sent) returns (ds: seq<Bytes>)
    requires packets == PacketsOf(Base(streamId, s), ChunksOf(s))
    ensures ds == DatagramsOf(streamId, s)
  {
    ds := [];
    for i := 0 to |packets|
      invariant |ds| == i
      invariant forall k :: 0 <= k < i ==> ds[k] == DatagramOf(streamId, s, k)
    {
      assert packets[i] == PacketOf(streamId, s, i);
      var datagram := EncodeDatagram(packets[i].header, packets[i].payload);
      ds := ds + [datagram.value];
    }
  }

  // ---- Whole host runs ---------------------------------------------------------------------

  /** The frames a host run actually sends; a frame that fails is skipped, its nonce is not reused. */
  function SendAll(a: Aead, key: Bytes, streamId: byte, nonces: NonceState, frames: seq<EncodedFrame>)
    : (NonceState, seq<Sent>)
  {
    if frames == [] then (nonces, [])
    else
      var (before, sent) := SendAll(a, key, streamId, nonces, frames[..|frames| - 1]);
      var (after, r) := SealFrame(a, key, streamId, before, frames[|frames| - 1]);
      (after, if r.Ok? then sent + [r.value] else sent)
  }

  predicate IncreasingIds(frames: seq<EncodedFrame>) {
    forall i, j :: 0 <= i < j < |frames| ==> frames[i].frameId < frames[j].frameId
  }

  /** What a receiver may rely on: ids and nonce sequences increase together, every frame is sealed. */
  ghost predicate Transcript(a: Aead, key: Bytes, domain: u32, streamId: byte, sent: seq<Sent>) {
    && (forall i, j :: 0 <= i < j < |sent| ==>
          sent[i].frame.frameId < sent[j].frame.frameId && sent[i].sequence < sent[j].sequence)
    && (forall s :: s in sent ==> SealedUnder(a, key, domain, streamId, s))
  }

  ghost predicate SealedUnder(a: Aead, key: Bytes, domain: u32, streamId: byte, s: Sent)
  {
    a.seal(key, NonceFromSequence(domain, s.sequence),
           AssociatedData(MetadataOf(Base(streamId, s))), s.frame.data) == Some(s.ciphertext)
  }

  /** One sealing step: the sequence is the next unused one, and the ciphertext is what was sealed. */
  lemma SealFrameProperties(a: Aead, key: Bytes, streamId: byte, nonces: NonceState, frame: EncodedFrame)
    ensures var (next, r) := SealFrame(a, key, streamId, nonces, frame);
            && next.domain == nonces.domain
            && nonces.next <= next.next
            && (r.Ok? ==>
                  && r.value.frame == frame && r.value.sequence == nonces.next && !nonces.exhausted
                  && (next.exhausted || nonces.next < next.next)
                  && SealedUnder(a, key, nonces.domain, streamId, r.value))
            && (nonces.exhausted ==> next.exhausted)
  {
    if FitsWire(frame) {
      SequenceRoundTrip(nonces.domain, nonces.next);
      assert MetadataOf(BaseHeader(streamId, frame, 0)) == MetadataOf(BaseHeader(streamId, frame, nonces.next));
    }
  }

  /** What sealing makes of a frame under the next unused nonce. */
  function Ciphertext(a: Aead, key: Bytes, streamId: byte, nonces: NonceState, frame: EncodedFrame): Option<Bytes>
    requires FitsWire(frame)
  {
    a.seal(key, NonceFromSequence(nonces.domain, nonces.next),
           AssociatedData(FrameMetadata(CURRENT_VERSION, streamId, frame.frameId, CODEC_CONFIG_ID,
                                        frame.timestampUs, frame.keyframe)),
           frame.data)
  }

  /** A frame is sent exactly when its id fits the wire, a nonce is left, sealing works and the result is within the
      size limit; and each failure is reported for what it is. */
  lemma SealFrameExactly(a: Aead, key: Bytes, streamId: byte, nonces: NonceState, frame: EncodedFrame)
    ensures var r := SealFrame(a, key, streamId, nonces, frame).1;
            if !FitsWire(frame) then r == Err(FrameIdOutOfRange(frame.frameId))
            else if nonces.exhausted then r == Err(NonceExhausted)
            else
              match Ciphertext(a, key, streamId, nonces, frame)
              case None => r == Err(EncryptionFailed)
              case Some(text) =>
                if |text| <= MAX_FRAME_PAYLOAD_SIZE then r == Ok(SealedFrame(frame, nonces.next, text))
                else r == Err(Unpacketizable(FrameTooLarge(|text|, MAX_FRAME_PAYLOAD_SIZE)))
  {
    if FitsWire(frame) && !nonces.exhausted {
      SequenceRoundTrip(nonces.domain, nonces.next);
      var text := Ciphertext(a, key, streamId, nonces, frame);
      if text.Some? {
        OnlyOversizedFramesAreUnpacketizable(BaseHeader(streamId, frame, nonces.next), text.value);
      }
    }
  }

  lemma ExtendTranscript(a: Aead, key: Bytes, domain: u32, streamId: byte, sent: seq<Sent>, s: Sent)
    requires Transcript(a, key, domain, streamId, sent) && SealedUnder(a, key, domain, streamId, s)
    requires forall i :: 0 <= i < |sent| ==> sent[i].frame.frameId < s.frame.frameId && sent[i].sequence < s.sequence
    ensures Transcript(a, key, domain, streamId, sent + [s])
  {
  }

  /** Every sequence used so far is behind the allocator. */
  ghost predicate Behind(sent: seq<Sent>, nonces: NonceState) {
    forall i :: 0 <= i < |sent| ==> sent[i].sequence < nonces.next || nonces.exhausted
  }

  lemma LastIdIsGreatest(frames: seq<EncodedFrame>, sent: seq<Sent>)
    requires frames != [] && IncreasingIds(frames)
    requires forall i :: 0 <= i < |sent| ==> sent[i].frame in frames[..|frames| - 1]
    ensures forall i :: 0 <= i < |sent| ==>
              sent[i].frame in frames && sent[i].frame.frameId < frames[|frames| - 1].frameId
  {
    forall i | 0 <= i < |sent|
      ensures sent[i].frame in frames && sent[i].frame.frameId < frames[|frames| - 1].frameId
    {
      var init := frames[..|frames| - 1];
      var k :| 0 <= k < |init| && init[k] == sent[i].frame;
      assert frames[k] == sent[i].frame;
    }
  }

  /** Every host run over frames with increasing ids yields such a transcript of some of those frames. */
  lemma {:induction false} HostRunIsTranscript(
      a: Aead, key: Bytes, streamId: byte, nonces: NonceState, frames: seq<EncodedFrame>)
    requires IncreasingIds(frames)
    ensures var (end, sent) := SendAll(a, key, streamId, nonces, frames);
            && Transcript(a, key, nonces.domain, streamId, sent)
            && (forall i :: 0 <= i < |sent| ==> sent[i].frame in frames)
            && end.domain == nonces.domain && Behind(sent, end)
  {
    if frames != [] {
      var init, last := frames[..|frames| - 1], frames[|frames| - 1];
      HostRunIsTranscript(a, key, streamId, nonces, init);
      var (before, sent) := SendAll(a, key, streamId, nonces, init);
      SealFrameProperties(a, key, streamId, before, last);
      LastIdIsGreatest(frames, sent);
      var (after, r) := SealFrame(a, key, streamId, before, last);
      assert Behind(sent, after);
      if r.Ok? {
        ExtendTranscript(a, key, nonces.domain, streamId, sent, r.value);
      }
    }
  }
}
