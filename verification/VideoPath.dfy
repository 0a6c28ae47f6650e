/**
 * The host-to-client video path end to end: whatever the network loses, duplicates or reorders, an
 * honest stream never makes the client fail, and everything shown is a frame the host was given.
 */
module VideoPath {
  import opened Wrappers
  import opened Octets
  import opened VideoPacket
  import opened Packetizer
  import opened Crypto
  import opened Reassembler
  import opened Receiver
  import opened Streamer
  import ReplayWindow

  /** The datagram is one of those the host sent. */
  ghost predicate Carried(streamId: byte, sent: seq<Sent>, d: Bytes)
  {
    exists j, i :: 0 <= j < |sent| && 0 <= i < |ChunksOf(sent[j])| && d == DatagramOf(streamId, sent[j], i)
  }

  /** The job a sent frame should become. */
  function JobFor(s: Sent): Job
  {
    Job(Id(s), s.frame.timestampUs, s.frame.keyframe, s.frame.data)
  }

  // ---- Packets of a sent frame -------------------------------------------------------------

  /** The datagram decodes to its packet, which is well formed and belongs to its frame. */
  lemma PacketFacts(streamId: byte, s: Sent, i: nat)
    requires i < |ChunksOf(s)|
    ensures var p := PacketOf(streamId, s, i);
            && DecodeDatagram(DatagramOf(streamId, s, i)) == Ok((p.header, p.payload))
            && |DatagramOf(streamId, s, i)| == HEADER_LEN + |p.payload|
            && Malformed(p.header, p.payload).None?
            && SameFrame(p.header, Base(streamId, s))
            && p.header.frameId == Id(s)
            && p.header.packetCount == |ChunksOf(s)| && p.header.packetId == i && p.payload == ChunksOf(s)[i]
  {
    var p := PacketOf(streamId, s, i);
    assert EncodeDatagram(p.header, p.payload).Ok?;
    DecodeOfEncode(p.header, p.payload);
  }

  /** Different packets travel in different datagrams. */
  lemma DatagramsAreDistinct(streamId: byte, s: Sent, i: nat, s': Sent, i': nat)
    requires i < |ChunksOf(s)| && i' < |ChunksOf(s')|
    requires DatagramOf(streamId, s, i) == DatagramOf(streamId, s', i')
    ensures Id(s) == Id(s') && i == i'
  {
    PacketFacts(streamId, s, i);
    PacketFacts(streamId, s', i');
  }

  // ---- Slots of an honest entry ------------------------------------------------------------

  /** Whatever the slots hold is the corresponding chunk. */
  predicate Agrees(ps: seq<Option<Bytes>>, cs: seq<Bytes>) {
    |ps| == |cs| && forall i :: 0 <= i < |ps| && ps[i].Some? ==> ps[i].value == cs[i]
  }

  lemma {:induction false} AgreeingSlotsAreSmall(ps: seq<Option<Bytes>>, cs: seq<Bytes>)
    requires Agrees(ps, cs)
    ensures TotalBytes(ps) <= |Concat(cs)|
  {
    if ps != [] {
      AgreeingSlotsAreSmall(ps[1..], cs[1..]);
    }
  }

  lemma {:induction false} AgreeingFullSlotsJoin(ps: seq<Option<Bytes>>, cs: seq<Bytes>)
    requires Agrees(ps, cs) && Received(ps) == |ps|
    ensures Join(ps) == Concat(cs)
  {
    if ps != [] {
      FullSlots(ps);
      AgreeingFullSlotsJoin(ps[1..], cs[1..]);
    }
  }

  /** An in-flight entry made only of packets of `s`. */
  ghost predicate Holds(e: InFlight, streamId: byte, s: Sent)
  {
    Agrees(e.packets, ChunksOf(s)) && SameFrame(e.base, Base(streamId, s)) && e.base.frameId == Id(s)
  }

  /** An assembled frame that is exactly the sent one. */
  ghost predicate IsWhole(f: Assembled, streamId: byte, s: Sent)
  {
    f.payload == s.ciphertext && SameFrame(f.header, Base(streamId, s)) && f.header.frameId == Id(s)
  }

  /** What filling a slot with its own packet makes of an entry: the same whether or not it was filled. */
  lemma FilledEntry(e: InFlight, streamId: byte, s: Sent, i: nat, maxFrameBytes: nat)
    requires i < |ChunksOf(s)| && maxFrameBytes == MAX_FRAME_PAYLOAD_SIZE
    requires ValidEntry(Id(s), e, maxFrameBytes) && Holds(e, streamId, s)
    ensures var ps := e.packets[i := Some(ChunksOf(s)[i])];
            && Agrees(ps, ChunksOf(s)) && TotalBytes(ps) <= maxFrameBytes
            && (e.packets[i].Some? ==> ps == e.packets)
            && (e.packets[i].None? ==>
                  && Received(ps) == e.received + 1
                  && TotalBytes(ps) == e.totalBytes + |ChunksOf(s)[i]|)
            && (Received(ps) == |ps| ==> Join(ps) == s.ciphertext)
  {
    var ps := e.packets[i := Some(ChunksOf(s)[i])];
    ConcatChunks(s.ciphertext, MAX_PAYLOAD_LEN);
    assert Agrees(ps, ChunksOf(s));
    AgreeingSlotsAreSmall(ps, ChunksOf(s));
    if e.packets[i].None? {
      FillSlot(e.packets, i, ChunksOf(s)[i]);
    } else {
      assert ps == e.packets;
    }
    if Received(ps) == |ps| {
      AgreeingFullSlotsJoin(ps, ChunksOf(s));
    }
  }

  /** Completing the header of any of its packets gives a header of the frame. */
  lemma CompleteIsWhole(base: Header, payload: Bytes, streamId: byte, s: Sent)
    requires SameFrame(base, Base(streamId, s)) && base.frameId == Id(s) && payload == s.ciphertext
    ensures IsWhole(Assembled(Complete(base), payload), streamId, s)
  {
  }

  /** The outcome a packet of `s` has, and the entry it leaves if the frame is still incomplete. */
  lemma FragmentJoins(c: State, streamId: byte, s: Sent, i: nat)
    requires i < |ChunksOf(s)| && |ChunksOf(s)| > 1
    requires Valid(c) && c.maxFrameBytes == MAX_FRAME_PAYLOAD_SIZE
    requires Id(s) in c.frames && Holds(c.frames[Id(s)], streamId, s)
    ensures var id := Id(s);
            var p := PacketOf(streamId, s, i);
            var ps := c.frames[id].packets[i := Some(ChunksOf(s)[i])];
            var step := AddFragment(c, c.frames[id], p.header, p.payload);
            if Received(ps) == |ps| then
              && step.next == c.(frames := c.frames - {id})
              && step.outcome.Ok? && step.outcome.value.Some? && IsWhole(step.outcome.value.value, streamId, s)
            else
              && step.outcome == Ok(None)
              && step.next.frames.Keys == c.frames.Keys
              && step.next == c.(frames := c.frames[id := step.next.frames[id]])
              && Holds(step.next.frames[id], streamId, s) && step.next.frames[id].packets == ps
  {
    PacketFacts(streamId, s, i);
    var e := c.frames[Id(s)];
    var ps := e.packets[i := Some(ChunksOf(s)[i])];
    var p := PacketOf(streamId, s, i);
    assert ValidEntry(Id(s), e, c.maxFrameBytes);
    assert SameFragmentation(e, p.header);
    FilledEntry(e, streamId, s, i, c.maxFrameBytes);
    if e.packets[i].Some? {
      assert c.frames[Id(s) := e] == c.frames;
    }
    if Received(ps) == |ps| {
      CompleteIsWhole(e.base, Join(ps), streamId, s);
    }
  }

  // ---- One honest packet -------------------------------------------------------------------

  ghost predicate HeldBySome(e: InFlight, id: u32, streamId: byte, sent: seq<Sent>)
  {
    exists j :: 0 <= j < |sent| && Id(sent[j]) == id && Holds(e, streamId, sent[j])
  }

  /** A reassembler, with the client's limits, that has only seen packets of `sent`. */
  ghost predicate HonestTable(c: State, streamId: byte, sent: seq<Sent>)
  {
    && Valid(c) && c.maxInFlight == MAX_IN_FLIGHT_FRAMES && c.maxFrameBytes == MAX_FRAME_PAYLOAD_SIZE
    && forall id :: id in c.frames ==> HeldBySome(c.frames[id], id, streamId, sent)
  }

  /** Frame ids name frames. */
  predicate DistinctIds(sent: seq<Sent>) {
    forall i, j :: 0 <= i < |sent| && 0 <= j < |sent| && Id(sent[i]) == Id(sent[j]) ==> i == j
  }

  /** The slots known for `s`. */
  function Known(c: State, s: Sent): seq<Option<Bytes>>
  {
    if Id(s) in c.frames then c.frames[Id(s)].packets else seq(|ChunksOf(s)|, _ => None)
  }

  lemma KnownAgrees(c: State, streamId: byte, sent: seq<Sent>, j: nat)
    requires DistinctIds(sent) && j < |sent|
    requires HonestTable(c, streamId, sent)
    ensures Agrees(Known(c, sent[j]), ChunksOf(sent[j]))
    ensures Id(sent[j]) in c.frames ==>
              Holds(c.frames[Id(sent[j])], streamId, sent[j]) && |ChunksOf(sent[j])| > 1
  {
    var id := Id(sent[j]);
    if id in c.frames {
      assert HeldBySome(c.frames[id], id, streamId, sent);
      assert ValidEntry(id, c.frames[id], c.maxFrameBytes);
    }
  }

  /** Opening the entry of a frame of `sent`: the table stays honest and the entry holds what was known. */
  lemma OpenHonestEntry(c: State, streamId: byte, sent: seq<Sent>, j: nat, i: nat)
    requires DistinctIds(sent) && j < |sent|
    requires HonestTable(c, streamId, sent) && !Stale(c.lastAuthenticated, Id(sent[j]))
    requires i < |ChunksOf(sent[j])| && |ChunksOf(sent[j])| > 1
    ensures var h := PacketOf(streamId, sent[j], i).header;
            var kept := MakeRoom(c.frames, c.maxInFlight, h.frameId);
            var open := c.(frames := kept[h.frameId := EntryFor(kept, h)]);
            && HonestTable(open, streamId, sent)
            && Holds(open.frames[h.frameId], streamId, sent[j])
            && open.frames[h.frameId].packets == Known(c, sent[j])
  {
    PacketFacts(streamId, sent[j], i);
    var h := PacketOf(streamId, sent[j], i).header;
    OpenEntry(c, h);
    KnownAgrees(c, streamId, sent, j);
    var kept := MakeRoom(c.frames, c.maxInFlight, h.frameId);
    var open := c.(frames := kept[h.frameId := EntryFor(kept, h)]);
    assert open.frames[h.frameId].packets == Known(c, sent[j]);
    assert Holds(open.frames[h.frameId], streamId, sent[j]);
    forall id | id in open.frames ensures HeldBySome(open.frames[id], id, streamId, sent) {
      if id != h.frameId {
        assert open.frames[id] == c.frames[id];
      }
    }
  }

  /** A table that differs from an honest one only in an honest entry for `sent[j]`, or in lacking it. */
  lemma StillHonest(c: State, next: State, streamId: byte, sent: seq<Sent>, j: nat)
    requires HonestTable(c, streamId, sent) && j < |sent| && Valid(next)
    requires next.maxInFlight == c.maxInFlight && next.maxFrameBytes == c.maxFrameBytes
    requires forall id :: id in next.frames ==>
               if id == Id(sent[j]) then Holds(next.frames[id], streamId, sent[j])
               else id in c.frames && next.frames[id] == c.frames[id]
    ensures HonestTable(next, streamId, sent)
  {
    forall id | id in next.frames ensures HeldBySome(next.frames[id], id, streamId, sent) {
      if id != Id(sent[j]) {
        assert HeldBySome(c.frames[id], id, streamId, sent);
      }
    }
  }

  /** A packet of a sent frame that is newer than the watermark: the frame is assembled exactly when
      this packet was the last one missing, and then it is the sent frame. */
  lemma PacketStep(c: State, streamId: byte, sent: seq<Sent>, j: nat, i: nat)
    requires DistinctIds(sent) && j < |sent|
    requires HonestTable(c, streamId, sent) && !Stale(c.lastAuthenticated, Id(sent[j]))
    requires i < |ChunksOf(sent[j])|
    ensures var s := sent[j];
            var p := PacketOf(streamId, s, i);
            var step := ProcessPacket(c, p.header, p.payload);
            var ps := Known(c, s)[i := Some(ChunksOf(s)[i])];
            && HonestTable(step.next, streamId, sent)
            && step.next.lastAuthenticated == c.lastAuthenticated
            && (if Received(ps) == |ps| then
                  && step.outcome.Ok? && step.outcome.value.Some? && IsWhole(step.outcome.value.value, streamId, s)
                  && Id(s) !in step.next.frames
                else
                  && step.outcome == Ok(None)
                  && Id(s) in step.next.frames && Known(step.next, s) == ps)
  {
    var s := sent[j];
    PacketFacts(streamId, s, i);
    KnownAgrees(c, streamId, sent, j);
    var p := PacketOf(streamId, s, i);
    if |ChunksOf(s)| == 1 {
      SinglePacketIsWhole(c, streamId, s);
    } else {
      OpenHonestEntry(c, streamId, sent, j, i);
      var kept := MakeRoom(c.frames, c.maxInFlight, p.header.frameId);
      var open := c.(frames := kept[p.header.frameId := EntryFor(kept, p.header)]);
      FragmentJoins(open, streamId, s, i);
      ProcessKeepsValid(c, p.header, p.payload);
      StillHonest(open, ProcessPacket(c, p.header, p.payload).next, streamId, sent, j);
    }
  }

  /** A frame in one packet is assembled at once and touches no table. */
  lemma SinglePacketIsWhole(c: State, streamId: byte, s: Sent)
    requires |ChunksOf(s)| == 1 && c.maxFrameBytes == MAX_FRAME_PAYLOAD_SIZE
    requires !Stale(c.lastAuthenticated, Id(s)) && Id(s) !in c.frames
    ensures var p := PacketOf(streamId, s, 0);
            var step := ProcessPacket(c, p.header, p.payload);
            var ps := Known(c, s)[0 := Some(ChunksOf(s)[0])];
            && Received(ps) == |ps| && step.next == c
            && step.outcome.Ok? && step.outcome.value.Some? && IsWhole(step.outcome.value.value, streamId, s)
  {
    PacketFacts(streamId, s, 0);
    assert Chunks(s.ciphertext, MAX_PAYLOAD_LEN) == [s.ciphertext];
    FullSlots(Known(c, s)[0 := Some(ChunksOf(s)[0])]);
  }

  // ---- One honest datagram -----------------------------------------------------------------

  /** The watermark and the highest accepted nonce belong to the same sent frame. */
  ghost predicate MarksNewest(c: Client, sent: seq<Sent>) {
    || (c.reassembler.lastAuthenticated.None? && c.window == ReplayWindow.EMPTY)
    || exists j :: 0 <= j < |sent| && Marks(c, sent[j])
  }

  ghost predicate Marks(c: Client, s: Sent) {
    && c.reassembler.lastAuthenticated == Some(Id(s))
    && c.window.highest == Some(s.sequence)
    && forall x :: x in c.window.accepted ==> x <= s.sequence
  }

  /** A client that has only seen datagrams of `sent`. */
  ghost predicate HonestClient(c: Client, key: Bytes, domain: u32, streamId: byte, sent: seq<Sent>) {
    && c.key == key && c.domain == domain
    && HonestTable(c.reassembler, streamId, sent)
    && MarksNewest(c, sent)
  }

  /** A frame newer than the watermark has a nonce sequence above every accepted one. */
  lemma NewerFrameHasNewerNonce(a: Aead, c: Client, key: Bytes, domain: u32, streamId: byte, sent: seq<Sent>, j: nat)
    requires Transcript(a, key, domain, streamId, sent) && MarksNewest(c, sent) && j < |sent|
    requires !Stale(c.reassembler.lastAuthenticated, Id(sent[j]))
    ensures ReplayWindow.Commit(c.window, sent[j].sequence).1
    ensures ReplayWindow.Commit(c.window, sent[j].sequence).0.highest == Some(sent[j].sequence)
    ensures forall x :: x in ReplayWindow.Commit(c.window, sent[j].sequence).0.accepted ==> x <= sent[j].sequence
  {
    if !(c.reassembler.lastAuthenticated.None? && c.window == ReplayWindow.EMPTY) {
      var m :| 0 <= m < |sent| && Marks(c, sent[m]);
      assert m < j;
    }
  }

  lemma CommitKeepsHonest(c: State, id: u32, streamId: byte, sent: seq<Sent>)
    requires HonestTable(c, streamId, sent) && !Stale(c.lastAuthenticated, id)
    ensures HonestTable(Commit(c, id).0, streamId, sent) && Commit(c, id).1
  {
    CommitKeepsValid(c, id);
    var next := Commit(c, id).0;
    forall k | k in next.frames ensures HeldBySome(next.frames[k], k, streamId, sent) {
      assert next.frames[k] == c.frames[k];
    }
  }

  /** A whole frame newer than the watermark opens, passes the replay check and is published. */
  lemma WholeFrameIsPublished(
      a: Aead, c: Client, key: Bytes, domain: u32, streamId: byte, sent: seq<Sent>, j: nat, f: Assembled)
    requires a.OpensWhatItSeals() && Transcript(a, key, domain, streamId, sent) && j < |sent|
    requires HonestClient(c, key, domain, streamId, sent)
    requires IsWhole(f, streamId, sent[j]) && !Stale(c.reassembler.lastAuthenticated, Id(sent[j]))
    ensures Deliver(a, c, f).1 == Published(JobFor(sent[j]), f)
    ensures HonestClient(Deliver(a, c, f).0, key, domain, streamId, sent)
    ensures Deliver(a, c, f).0.reassembler == Commit(c.reassembler, Id(sent[j])).0
  {
    var s := sent[j];
    assert OpenFrame(a, c.key, c.domain, f) == Some(s.frame.data) by {
      assert SealedUnder(a, key, domain, streamId, s);
      assert MetadataOf(f.header) == MetadataOf(Base(streamId, s));
    }
    assert JobOf(f, s.frame.data) == JobFor(s);
    NewerFrameHasNewerNonce(a, c, key, domain, streamId, sent, j);
    CommitKeepsHonest(c.reassembler, Id(s), streamId, sent);
    assert Marks(Deliver(a, c, f).0, s);
  }

  /** The last missing packet arrives with this datagram. */
  predicate Completes(c: Client, s: Sent, i: nat)
    requires i < |ChunksOf(s)|
  {
    var ps := Known(c.reassembler, s);
    |ps| == |ChunksOf(s)| && Received(ps[i := Some(ChunksOf(s)[i])]) == |ps|
  }

  /** One honest datagram never fails; it publishes its frame exactly when it completes it. */
  lemma HonestDatagram(a: Aead, c: Client, key: Bytes, domain: u32, streamId: byte, sent: seq<Sent>, j: nat, i: nat)
    requires a.OpensWhatItSeals() && Transcript(a, key, domain, streamId, sent) && j < |sent|
    requires HonestClient(c, key, domain, streamId, sent) && i < |ChunksOf(sent[j])|
    ensures var s := sent[j];
            var (next, o) := Accept(a, c, DatagramOf(streamId, s, i));
            && HonestClient(next, key, domain, streamId, sent)
            && (if !Stale(c.reassembler.lastAuthenticated, Id(s)) && Completes(c, s, i)
                then o.Published? && o.job == JobFor(s) && next.reassembler.lastAuthenticated == Some(Id(s))
                else o == Absorbed && next.reassembler.lastAuthenticated == c.reassembler.lastAuthenticated)
  {
    var s := sent[j];
    PacketFacts(streamId, s, i);
    if !Stale(c.reassembler.lastAuthenticated, Id(s)) {
      KnownAgrees(c.reassembler, streamId, sent, j);
      PacketStep(c.reassembler, streamId, sent, j, i);
      var p := PacketOf(streamId, s, i);
      var step := ProcessPacket(c.reassembler, p.header, p.payload);
      var mid := c.(reassembler := step.next);
      assert MarksNewest(mid, sent);
      if Completes(c, s, i) {
        WholeFrameIsPublished(a, mid, key, domain, streamId, sent, j, step.outcome.value.value);
      }
    }
  }

  // ---- Whole runs --------------------------------------------------------------------------

  ghost predicate NeverFails(o: Outcome, sent: seq<Sent>) {
    o == Absorbed || (o.Published? && exists j :: 0 <= j < |sent| && o.job == JobFor(sent[j]))
  }

  lemma CarriedDatagram(a: Aead, c: Client, key: Bytes, domain: u32, streamId: byte, sent: seq<Sent>, d: Bytes)
    requires a.OpensWhatItSeals() && Transcript(a, key, domain, streamId, sent)
    requires HonestClient(c, key, domain, streamId, sent) && Carried(streamId, sent, d)
    ensures HonestClient(Accept(a, c, d).0, key, domain, streamId, sent)
    ensures NeverFails(Accept(a, c, d).1, sent)
  {
    var j, i :| 0 <= j < |sent| && 0 <= i < |ChunksOf(sent[j])| && d == DatagramOf(streamId, sent[j], i);
    HonestDatagram(a, c, key, domain, streamId, sent, j, i);
  }

  lemma NewClientIsHonest(key: Bytes, domain: u32, streamId: byte, sent: seq<Sent>)
    ensures HonestClient(NewClient(key, domain), key, domain, streamId, sent)
  {
    NewStateIsValid(MAX_IN_FLIGHT_FRAMES, MAX_FRAME_PAYLOAD_SIZE);
  }

  /** Against a transcript: no datagram ever fails, and every published job is a sent frame. */
  lemma {:induction false} TranscriptNeverFails(
      a: Aead, key: Bytes, domain: u32, streamId: byte, sent: seq<Sent>, ds: seq<Bytes>)
    requires a.OpensWhatItSeals() && Transcript(a, key, domain, streamId, sent)
    requires forall d :: d in ds ==> Carried(streamId, sent, d)
    ensures HonestClient(ReceiveAll(a, NewClient(key, domain), ds).client, key, domain, streamId, sent)
    ensures forall o :: o in ReceiveAll(a, NewClient(key, domain), ds).outcomes ==> NeverFails(o, sent)
  {
    if ds == [] {
      NewClientIsHonest(key, domain, streamId, sent);
    } else {
      var init, d := ds[..|ds| - 1], ds[|ds| - 1];
      assert forall e :: e in init ==> e in ds;
      assert d in ds;
      TranscriptNeverFails(a, key, domain, streamId, sent, init);
      CarriedDatagram(a, ReceiveAll(a, NewClient(key, domain), init).client, key, domain, streamId, sent, d);
    }
  }

  /** The frame a job shows. */
  predicate Shows(job: Job, frame: EncodedFrame) {
    && job.frameId == frame.frameId
    && job.timestampUs == frame.timestampUs
    && job.keyframe == frame.keyframe
    && job.accessUnit == frame.data
  }

  /**
   * The honest stream. Whatever frames the host is given, with increasing ids, and however the
   * network loses, duplicates and reorders the datagrams, no datagram makes the client fail and
   * everything it publishes is one of the host's frames, unchanged.
   */
  lemma HonestStreamNeverFails(
      a: Aead, key: Bytes, streamId: byte, nonces: NonceState, frames: seq<EncodedFrame>, ds: seq<Bytes>)
    requires a.OpensWhatItSeals() && IncreasingIds(frames)
    requires forall d :: d in ds ==> Carried(streamId, SendAll(a, key, streamId, nonces, frames).1, d)
    ensures var run := ReceiveAll(a, NewClient(key, nonces.domain), ds);
            forall o :: o in run.outcomes ==>
              o == Absorbed || (o.Published? && exists frame :: frame in frames && Shows(o.job, frame))
  {
    HostRunIsTranscript(a, key, streamId, nonces, frames);
    var sent := SendAll(a, key, streamId, nonces, frames).1;
    TranscriptNeverFails(a, key, nonces.domain, streamId, sent, ds);
    forall o | o in ReceiveAll(a, NewClient(key, nonces.domain), ds).outcomes && o.Published?
      ensures exists frame :: frame in frames && Shows(o.job, frame)
    {
      assert NeverFails(o, sent);
      var j :| 0 <= j < |sent| && o.job == JobFor(sent[j]);
      assert sent[j].frame in frames && Shows(o.job, sent[j].frame);
    }
  }
}
