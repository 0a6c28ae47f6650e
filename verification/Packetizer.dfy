/** Cutting a sealed frame into bounded packets. */
module Packetizer {
  import opened Wrappers
  import opened Octets
  import opened VideoPacket

  const MAX_FRAME_PAYLOAD_SIZE := 16 * 1024 * 1024
  const MAX_PACKETS_PER_FRAME := 16384

  datatype Fragment = Fragment(header: Header, payload: Bytes)

  datatype PacketizeError =
    | FrameTooLarge(actual: nat, limit: nat)
    | InvalidChunkSize(max: nat)
    | TooManyPackets(count: nat, max: nat)

  /** `payload.chunks(size)`, with the empty payload as a single empty chunk. */
  function Chunks(payload: Bytes, size: nat): (cs: seq<Bytes>)
    requires size > 0
    ensures |cs| > 0
    decreases |payload|
  {
    if |payload| <= size then [payload] else [payload[..size]] + Chunks(payload[size..], size)
  }

  function Concat(cs: seq<Bytes>): Bytes {
    if cs == [] then [] else cs[0] + Concat(cs[1..])
  }

  /** Nothing is lost or reordered: the chunks concatenate back to the payload. */
  lemma {:induction false} ConcatChunks(payload: Bytes, size: nat)
    requires size > 0
    ensures Concat(Chunks(payload, size)) == payload
    decreases |payload|
  {
    var cs := Chunks(payload, size);
    if |payload| <= size {
      assert cs[1..] == [];
      assert Concat(cs) == payload + [];
    } else {
      assert cs[1..] == Chunks(payload[size..], size);
      ConcatChunks(payload[size..], size);
      assert payload == payload[..size] + payload[size..];
    }
  }

  /** No chunk is too long, and there are exactly as many as the payload needs. */
  lemma {:induction false} ChunkBounds(payload: Bytes, size: nat)
    requires size > 0
    ensures forall i :: 0 <= i < |Chunks(payload, size)| ==> |Chunks(payload, size)[i]| <= size
    ensures payload != [] ==> (|Chunks(payload, size)| - 1) * size < |payload| <= |Chunks(payload, size)| * size
    ensures payload == [] ==> |Chunks(payload, size)| == 1
    decreases |payload|
  {
    if |payload| > size {
      ChunkBounds(payload[size..], size);
      var cs, rest := Chunks(payload, size), Chunks(payload[size..], size);
      assert forall i :: 1 <= i < |cs| ==> cs[i] == rest[i - 1];
      assert |rest| * size == (|rest| - 1) * size + size;
    }
  }

  /** Packet `i` of a frame cut into `chunks`. */
  function PacketAt(base: Header, chunks: seq<Bytes>, i: nat): Fragment
    requires i < |chunks| <= MAX_PACKETS_PER_FRAME
    requires forall k :: 0 <= k < |chunks| ==> |chunks[k]| <= MAX_PAYLOAD_LEN
  {
    var started := if i == 0 then SetStart(base.flags) else base.flags;
    var flags := if i == |chunks| - 1 then SetEnd(started) else started;
    Fragment(
      base.(packetId := i, packetCount := |chunks|, payloadLen := |chunks[i]|, flags := flags),
      chunks[i])
  }

  function PacketsOf(base: Header, chunks: seq<Bytes>): (ps: seq<Fragment>)
    requires |chunks| <= MAX_PACKETS_PER_FRAME
    requires forall k :: 0 <= k < |chunks| ==> |chunks[k]| <= MAX_PAYLOAD_LEN
  {
    seq(|chunks|, i requires 0 <= i < |chunks| => PacketAt(base, chunks, i))
  }

  /** `packetize_video_frame`. */
  function Packetize(base: Header, payload: Bytes, chunkSize: nat): Result<seq<Fragment>, PacketizeError> {
    if chunkSize == 0 || chunkSize > MAX_PAYLOAD_LEN then Err(InvalidChunkSize(MAX_PAYLOAD_LEN))
    else if |payload| > MAX_FRAME_PAYLOAD_SIZE then Err(FrameTooLarge(|payload|, MAX_FRAME_PAYLOAD_SIZE))
    else
      var chunks := Chunks(payload, chunkSize);
      if |chunks| > MAX_PACKETS_PER_FRAME then Err(TooManyPackets(|chunks|, MAX_PACKETS_PER_FRAME))
      else
        ChunkBounds(payload, chunkSize);
        Ok(PacketsOf(base, chunks))
  }

  /** Every packet carries the frame's header with its own number and length; the first is flagged as the start and the
      last as the end, and no other flag changes. */
  lemma PacketHeader(base: Header, chunks: seq<Bytes>, i: nat)
    requires i < |chunks| <= MAX_PACKETS_PER_FRAME
    requires forall k :: 0 <= k < |chunks| ==> |chunks[k]| <= MAX_PAYLOAD_LEN
    ensures var h := PacketAt(base, chunks, i).header;
            && h.packetId == i && h.packetCount == |chunks| && h.payloadLen == |chunks[i]|
            && (IsStart(h.flags) <==> i == 0 || IsStart(base.flags))
            && (IsEnd(h.flags) <==> i == |chunks| - 1 || IsEnd(base.flags))
            && IsKeyframe(h.flags) == IsKeyframe(base.flags)
            && h.version == base.version && h.streamId == base.streamId && h.frameId == base.frameId
            && h.timestampUs == base.timestampUs && h.nonceSequence == base.nonceSequence
  {
  }

  /** Why a frame cannot be packetized, in the order of the checks. */
  predicate Refuses(payload: Bytes, chunkSize: nat, e: PacketizeError) {
    match e
    case InvalidChunkSize(max) => max == MAX_PAYLOAD_LEN && !(1 <= chunkSize <= MAX_PAYLOAD_LEN)
    case FrameTooLarge(actual, limit) =>
      1 <= chunkSize <= MAX_PAYLOAD_LEN && actual == |payload| > limit == MAX_FRAME_PAYLOAD_SIZE
    case TooManyPackets(count, max) =>
      && 1 <= chunkSize <= MAX_PAYLOAD_LEN && |payload| <= MAX_FRAME_PAYLOAD_SIZE
      && count > max == MAX_PACKETS_PER_FRAME && (count - 1) * chunkSize < |payload| <= count * chunkSize
  }

  lemma FewerChunks(size: nat, m: nat, n: nat)
    ensures m < n ==> m * size <= (n - 1) * size
  {
  }

  lemma CountIsUnique(size: nat, length: nat, m: nat, n: nat)
    requires m > 0 && (m - 1) * size < length <= m * size
    requires n > 0 && (n - 1) * size < length <= n * size
    ensures m == n
  {
    FewerChunks(size, m, n);
    FewerChunks(size, n, m);
  }

  /** Packetizing fails with an error exactly when that error applies: a chunk size out of range, too many bytes, or
      more packets than the wire can number. */
  lemma PacketizeFailsExactly(base: Header, payload: Bytes, chunkSize: nat, e: PacketizeError)
    ensures Packetize(base, payload, chunkSize) == Err(e) <==> Refuses(payload, chunkSize, e)
  {
    if 1 <= chunkSize <= MAX_PAYLOAD_LEN {
      ChunkBounds(payload, chunkSize);
      if e.TooManyPackets? && Refuses(payload, chunkSize, e) {
        CountIsUnique(chunkSize, |payload|, e.count, |Chunks(payload, chunkSize)|);
      }
    }
  }

  /** With the chunk size the host uses, a frame within the size limit never needs too many packets. */
  lemma HostChunksAreFewEnough(payload: Bytes)
    requires |payload| <= MAX_FRAME_PAYLOAD_SIZE
    ensures |Chunks(payload, MAX_PAYLOAD_LEN)| <= 13982
  {
    ChunkBounds(payload, MAX_PAYLOAD_LEN);
  }

  /** The fragmenting loop, proved against `Packetize`. */
  method PacketizeVideoFrame(base: Header, payload: Bytes, chunkSize: nat)
    returns (r: Result<seq<Fragment>, PacketizeError>)
    ensures r == Packetize(base, payload, chunkSize)
  {
    if chunkSize == 0 || chunkSize > MAX_PAYLOAD_LEN {
      return Err(InvalidChunkSize(MAX_PAYLOAD_LEN));
    }
    if |payload| > MAX_FRAME_PAYLOAD_SIZE {
      return Err(FrameTooLarge(|payload|, MAX_FRAME_PAYLOAD_SIZE));
    }
    if payload == [] {
      var header := base.(flags := SetEnd(SetStart(base.flags)), packetId := 0, packetCount := 1, payloadLen := 0);
      assert Chunks(payload, chunkSize) == [[]];
      assert PacketsOf(base, [[]]) == [Fragment(header, [])];
      return Ok([Fragment(header, [])]);
    }
    var chunks := Chunks(payload, chunkSize);
    ChunkBounds(payload, chunkSize);
    if |chunks| > MAX_PACKETS_PER_FRAME {
      return Err(TooManyPackets(|chunks|, MAX_PACKETS_PER_FRAME));
    }
    var packets := [];
    for i := 0 to |chunks|
      invariant |packets| == i
      invariant forall k :: 0 <= k < i ==> packets[k] == PacketAt(base, chunks, k)
    {
      var header := base.(packetId := i, packetCount := |chunks|, payloadLen := |chunks[i]|);
      if i == 0 {
        header := header.(flags := SetStart(header.flags));
      }
      if i == |chunks| - 1 {
        header := header.(flags := SetEnd(header.flags));
      }
      packets := packets + [Fragment(header, chunks[i])];
    }
    assert packets == PacketsOf(base, chunks);
    r := Ok(packets);
  }
}
