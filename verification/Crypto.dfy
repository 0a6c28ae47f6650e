/** The authenticated-encryption boundary: nonces, associated data and an abstract cipher. */
module Crypto {
  import opened Wrappers
  import opened Octets
  import opened VideoPacket

  /**
   * An AEAD cipher as its two operations, `seal(key, nonce, associatedData, plaintext)` and
   * `open(key, nonce, associatedData, ciphertext)`; either may fail.
   */
  datatype Aead = Aead(
    seal: (Bytes, Bytes, Bytes, Bytes) -> Option<Bytes>,
    open: (Bytes, Bytes, Bytes, Bytes) -> Option<Bytes>)
  {
    /** The only hypothesis made about the cipher: opening undoes sealing. */
    ghost predicate OpensWhatItSeals() {
      forall k, n, ad, p :: seal(k, n, ad, p).Some? ==> open(k, n, ad, seal(k, n, ad, p).value) == Some(p)
    }
  }

  datatype FrameMetadata = FrameMetadata(
    protocolVersion: u32,
    channel: u32,
    frameId: u32,
    codecConfigId: u32,
    timestampUs: u64,
    keyframe: bool)

  /** The codec configuration both sides are built with. */
  const CODEC_CONFIG_ID: u32 := 1

  /** The metadata sealed with a frame, read off its packet header. */
  function MetadataOf(h: Header): FrameMetadata {
    FrameMetadata(h.version, h.streamId, h.frameId, CODEC_CONFIG_ID, h.timestampUs, IsKeyframe(h.flags))
  }

  /** `EncodedFrameMetadata::aad`: the canonical 25 associated bytes. */
  function AssociatedData(m: FrameMetadata): (ad: Bytes)
    ensures |ad| == 25
  {
    ToBE(m.protocolVersion, 4) + ToBE(m.channel, 4) + ToBE(m.frameId, 4) + ToBE(m.codecConfigId, 4)
    + ToBE(m.timestampUs, 8) + [if m.keyframe then 1 else 0]
  }

  /** The six fields sit at fixed offsets of the associated bytes, and can be read back. */
  lemma AssociatedFields(m: FrameMetadata)
    ensures var ad := AssociatedData(m);
            && FromBE(ad[..4]) == m.protocolVersion && FromBE(ad[4..8]) == m.channel
            && FromBE(ad[8..12]) == m.frameId && FromBE(ad[12..16]) == m.codecConfigId
            && FromBE(ad[16..24]) == m.timestampUs && ((ad[24] == 1) <==> m.keyframe)
  {
    var ad := AssociatedData(m);
    assert ad[..4] == ToBE(m.protocolVersion, 4) && ad[4..8] == ToBE(m.channel, 4);
    assert ad[8..12] == ToBE(m.frameId, 4) && ad[12..16] == ToBE(m.codecConfigId, 4);
    assert ad[16..24] == ToBE(m.timestampUs, 8);
    Limits();
    FromToBE(m.protocolVersion, 4); FromToBE(m.channel, 4); FromToBE(m.frameId, 4); FromToBE(m.codecConfigId, 4);
    FromToBE(m.timestampUs, 8);
  }

  /** The associated bytes determine every authenticated field. */
  lemma AssociatedDataIsInjective(m: FrameMetadata, n: FrameMetadata)
    requires AssociatedData(m) == AssociatedData(n)
    ensures m == n
  {
    AssociatedFields(m);
    AssociatedFields(n);
  }

  /** `nonce_from_sequence`: the 32-bit domain followed by the 64-bit sequence. */
  function NonceFromSequence(domain: u32, sequence: u64): (nonce: Bytes)
    ensures |nonce| == 12
  {
    ToBE(domain, 4) + ToBE(sequence, 8)
  }

  /** The sequence a sender reads back out of a nonce, as the streamer does. */
  function SequenceOfNonce(nonce: Bytes): (sequence: u64)
    requires |nonce| == 12
  {
    EightBytesFit(nonce[4..]);
    FromBE(nonce[4..])
  }

  lemma SequenceRoundTrip(domain: u32, sequence: u64)
    ensures SequenceOfNonce(NonceFromSequence(domain, sequence)) == sequence
  {
    assert NonceFromSequence(domain, sequence)[4..] == ToBE(sequence, 8);
    Limits();
    FromToBE(sequence, 8);
  }

  /** A nonce belongs to one domain and one sequence. */
  lemma NonceIsInjective(domain: u32, sequence: u64, domain': u32, sequence': u64)
    requires NonceFromSequence(domain, sequence) == NonceFromSequence(domain', sequence')
    ensures domain == domain' && sequence == sequence'
  {
    SequenceRoundTrip(domain, sequence);
    SequenceRoundTrip(domain', sequence');
    assert NonceFromSequence(domain, sequence)[..4] == ToBE(domain, 4);
    assert NonceFromSequence(domain', sequence')[..4] == ToBE(domain', 4);
    Limits();
    FromToBE(domain, 4);
    FromToBE(domain', 4);
  }

  /** Everything a viewer is shown about a frame is authenticated with it: two headers with the same associated bytes
      have the same version, stream, id, timestamp and keyframe flag. */
  lemma HeaderIsAuthenticated(h: Header, k: Header)
    requires AssociatedData(MetadataOf(h)) == AssociatedData(MetadataOf(k))
    ensures h.version == k.version && h.streamId == k.streamId && h.frameId == k.frameId
    ensures h.timestampUs == k.timestampUs && IsKeyframe(h.flags) == IsKeyframe(k.flags)
  {
    AssociatedDataIsInjective(MetadataOf(h), MetadataOf(k));
  }

  /** The fields of a `NonceSequence`. */
  datatype NonceState = NonceState(domain: u32, next: u64, exhausted: bool)

  /** `NonceSequence::next_nonce`: the successor state, and the nonce unless the sequence is exhausted. */
  function NextNonce(s: NonceState): (NonceState, Option<Bytes>) {
    if s.exhausted then (s, None)
    else
      var nonce := NonceFromSequence(s.domain, s.next);
      if s.next == U64_MAX then (s.(exhausted := true), Some(nonce))
      else (s.(next := s.next + 1), Some(nonce))
  }

  class NonceSequence {
    const domain: u32
    var next: u64
    var exhausted: bool

    function State(): NonceState
      reads this
    {
      NonceState(domain, next, exhausted)
    }

    constructor (domain: u32)
      ensures State() == NonceState(domain, 0, false)
    {
      this.domain := domain;
      next := 0;
      exhausted := false;
    }

    method Next() returns (nonce: Option<Bytes>)
      modifies this
      ensures (State(), nonce) == NextNonce(old(State()))
    {
      if exhausted {
        return None;
      }
      var sequence := next;
      if sequence == U64_MAX {
        exhausted := true;
      } else {
        next := next + 1;
      }
      nonce := Some(NonceFromSequence(domain, sequence));
    }
  }
}
