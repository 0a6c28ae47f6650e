/**
 * When every in-flight frame is newer than the last authenticated one. Pruning keeps an entry with the
 * committed id, so the strict form can fail; this module says exactly when, and that honest streams keep it.
 */
module Watermark {
  import opened Wrappers
  import opened Octets
  import opened VideoPacket
  import opened Crypto
  import opened Reassembler
  import opened Receiver
  import opened Streamer
  import opened VideoPath
  import ReplayWindow

  /** Every in-flight id is above the watermark. */
  ghost predicate Strict(s: State) {
    forall id :: id in s.frames && s.lastAuthenticated.Some? ==> s.lastAuthenticated.value < id
  }

  /** Packets never break it: a stale one is dropped before the table is touched. */
  lemma ProcessKeepsStrict(s: State, h: Header, payload: Bytes)
    requires Strict(s)
    ensures Strict(ProcessPacket(s, h, payload).next)
    ensures ProcessPacket(s, h, payload).next.lastAuthenticated == s.lastAuthenticated
  {
  }

  /** A commit that takes effect establishes it if and only if its own id is not in flight. */
  lemma CommitIsStrictExactly(s: State, frameId: u32)
    requires Commit(s, frameId).1
    ensures Strict(Commit(s, frameId).0) <==> frameId !in s.frames
  {
    assert frameId in s.frames ==> frameId in Commit(s, frameId).0.frames;
  }

  /** A fragment of frame 5, then the whole of frame 5 in a single packet, then its commit: the entry stays in
      flight at its own watermark. */
  lemma CommitCanLeaveItsOwnId(fragment: Header, whole: Header)
    requires fragment == Header(2, 2, 0, 5, 0, 2, 0, 0, 0)
    requires whole == Header(2, 6, 0, 5, 0, 1, 0, 0, 0)
    ensures var first := ProcessPacket(New(8, 100), fragment, []);
            var second := ProcessPacket(first.next, whole, []);
            var (last, isFresh) := Commit(second.next, 5);
            && first.outcome == Ok(None) && second.outcome == Ok(Some(Assembled(whole, []))) && isFresh
            && last.lastAuthenticated == Some(5) && 5 in last.frames && !Strict(last)
  {
    var first := ProcessPacket(New(8, 100), fragment, []);
    assert Malformed(fragment, []).None? && Malformed(whole, []).None?;
    assert first.outcome == Ok(None) && 5 in first.next.frames;
    var second := ProcessPacket(first.next, whole, []);
    assert second.next == first.next;
  }

  /** The datagram is a whole frame in one packet while fragments of the same id are in flight. */
  predicate OverlapsInFlight(c: Client, b: Bytes) {
    && DecodeDatagram(b).Ok?
    && DecodeDatagram(b).value.0.packetCount == 1
    && DecodeDatagram(b).value.0.frameId in c.reassembler.frames
  }

  /** The datagram is well formed, within the size limit, newer than the watermark, opens, and its nonce is unused:
      everything the client will check of a whole frame in one packet. */
  predicate WillBePublished(a: Aead, c: Client, b: Bytes)
    requires DecodeDatagram(b).Ok?
  {
    var (h, payload) := DecodeDatagram(b).value;
    && |b| == HEADER_LEN + |payload|
    && Malformed(h, payload).None?
    && !Stale(c.reassembler.lastAuthenticated, h.frameId)
    && |payload| <= c.reassembler.maxFrameBytes
    && OpenFrame(a, c.key, c.domain, Assembled(h, payload)).Some?
    && ReplayWindow.Commit(c.window, h.nonceSequence).1
  }

  /** A whole frame in one packet is published exactly when all its checks pass. */
  lemma SinglePacketIsPublishedExactly(a: Aead, c: Client, b: Bytes)
    requires DecodeDatagram(b).Ok? && DecodeDatagram(b).value.0.packetCount == 1
    ensures Accept(a, c, b).1.Published? <==> WillBePublished(a, c, b)
  {
  }

  lemma PublishingIsStrictExactly(a: Aead, c: Client, b: Bytes)
    requires Valid(c.reassembler) && Strict(c.reassembler)
    ensures Strict(Accept(a, c, b).0.reassembler) <==> !(Accept(a, c, b).1.Published? && OverlapsInFlight(c, b))
  {
    var decoded := DecodeDatagram(b);
    if decoded.Ok? && |b| == HEADER_LEN + |decoded.value.1| {
      var (h, payload) := decoded.value;
      var step := ProcessPacket(c.reassembler, h, payload);
      ProcessKeepsStrict(c.reassembler, h, payload);
      if Accept(a, c, b).1.Published? {
        AssembledIsFresh(c.reassembler, h, payload);
        CommitIsStrictExactly(step.next, h.frameId);
        assert h.packetCount != 1 ==> h.frameId !in step.next.frames;
      }
    }
  }

  /** On arbitrary bytes the client keeps it, except exactly on a whole frame in one packet over fragments of the same
      id that passes every check. All of this can be tested before the call. */
  lemma AcceptIsStrictExactly(a: Aead, c: Client, b: Bytes)
    requires Valid(c.reassembler) && Strict(c.reassembler)
    ensures Strict(Accept(a, c, b).0.reassembler) <==> !(OverlapsInFlight(c, b) && WillBePublished(a, c, b))
  {
    PublishingIsStrictExactly(a, c, b);
    if OverlapsInFlight(c, b) {
      SinglePacketIsPublishedExactly(a, c, b);
    }
  }

  /** A frame that travels in one packet never has fragments in flight. */
  lemma HonestDatagramIsStrict(a: Aead, c: Client, key: Bytes, domain: u32, streamId: byte, sent: seq<Sent>, d: Bytes)
    requires Transcript(a, key, domain, streamId, sent) && HonestClient(c, key, domain, streamId, sent)
    requires Carried(streamId, sent, d) && Strict(c.reassembler)
    ensures Strict(Accept(a, c, d).0.reassembler)
  {
    var j, i :| 0 <= j < |sent| && 0 <= i < |ChunksOf(sent[j])| && d == DatagramOf(streamId, sent[j], i);
    PacketFacts(streamId, sent[j], i);
    KnownAgrees(c.reassembler, streamId, sent, j);
    AcceptIsStrictExactly(a, c, d);
  }

  lemma {:induction false} TranscriptRunsAreStrict(
      a: Aead, key: Bytes, domain: u32, streamId: byte, sent: seq<Sent>, ds: seq<Bytes>)
    requires a.OpensWhatItSeals() && Transcript(a, key, domain, streamId, sent)
    requires forall d :: d in ds ==> Carried(streamId, sent, d)
    ensures Strict(ReceiveAll(a, NewClient(key, domain), ds).client.reassembler)
  {
    if ds != [] {
      var init, d := ds[..|ds| - 1], ds[|ds| - 1];
      assert d in ds && forall e :: e in init ==> e in ds;
      TranscriptRunsAreStrict(a, key, domain, streamId, sent, init);
      TranscriptNeverFails(a, key, domain, streamId, sent, init);
      HonestDatagramIsStrict(a, ReceiveAll(a, NewClient(key, domain), init).client, key, domain, streamId, sent, d);
    }
  }

  /** On every honest stream, after any loss, duplication and reordering, every in-flight frame is newer than the
      last one shown. */
  lemma HonestRunsAreStrict(
      a: Aead, key: Bytes, streamId: byte, nonces: NonceState, frames: seq<EncodedFrame>, ds: seq<Bytes>)
    requires a.OpensWhatItSeals() && IncreasingIds(frames)
    requires forall d :: d in ds ==> Carried(streamId, SendAll(a, key, streamId, nonces, frames).1, d)
    ensures Strict(ReceiveAll(a, NewClient(key, nonces.domain), ds).client.reassembler)
  {
    HostRunIsTranscript(a, key, streamId, nonces, frames);
    TranscriptRunsAreStrict(a, key, nonces.domain, streamId, SendAll(a, key, streamId, nonces, frames).1, ds);
  }
}
