/**
 * The newest frame gets through: as long as no newer frame has shown up, a frame is published with the
 * very datagram that completes it, whatever older fragments, duplicates and evictions come in between.
 */
module Freshness {
  import opened Wrappers
  import opened Octets
  import opened VideoPacket
  import opened Crypto
  import opened Reassembler
  import opened Receiver
  import opened Streamer
  import opened VideoPath

  predicate Arrived(streamId: byte, s: Sent, ds: seq<Bytes>, i: nat)
    requires i < |ChunksOf(s)|
  {
    DatagramOf(streamId, s, i) in ds
  }

  predicate AllArrived(streamId: byte, s: Sent, ds: seq<Bytes>) {
    forall i :: 0 <= i < |ChunksOf(s)| ==> Arrived(streamId, s, ds, i)
  }

  /** The reassembler still waits for `s` and knows exactly the packets of it that have arrived. */
  ghost predicate Tracks(c: State, streamId: byte, s: Sent, ds: seq<Bytes>) {
    && !Stale(c.lastAuthenticated, Id(s))
    && |Known(c, s)| == |ChunksOf(s)|
    && forall i :: 0 <= i < |ChunksOf(s)| ==> (Known(c, s)[i].Some? <==> Arrived(streamId, s, ds, i))
  }

  // ---- Other frames do not disturb the newest ----------------------------------------------

  /** Eviction takes the smallest id, so never the largest of two or more. */
  lemma EvictionSparesLargest(keys: set<u32>, id: u32)
    requires id in keys && |keys| >= 2 && forall k :: k in keys ==> k <= id
    ensures Oldest(keys) != id
  {
    var rest := keys - {id};
    assert |rest| == |keys| - 1;
    var k :| k in rest;
    assert k in keys && k < id;
  }

  /** A packet of another frame leaves an unevicted entry alone, and creates none but its own. */
  lemma OtherEntryKept(c: State, h: Header, payload: Bytes, id: u32)
    requires Valid(c) && id != h.frameId
    requires id in c.frames && |c.frames| >= c.maxInFlight ==> Oldest(c.frames.Keys) != id
    ensures var next := ProcessPacket(c, h, payload).next;
            && (id in next.frames <==> id in c.frames)
            && (id in c.frames ==> next.frames[id] == c.frames[id])
            && next.lastAuthenticated == c.lastAuthenticated
  {
  }

  /** Where the reassembler stands after a datagram: one packet further, and perhaps committed. */
  lemma AcceptedReassembler(a: Aead, c: Client, b: Bytes, h: Header, payload: Bytes)
    requires Valid(c.reassembler)
    requires DecodeDatagram(b) == Ok((h, payload)) && |b| == HEADER_LEN + |payload|
    ensures var step := ProcessPacket(c.reassembler, h, payload);
            var next := Accept(a, c, b).0.reassembler;
            next == step.next || next == Commit(step.next, h.frameId).0
  {
    var step := ProcessPacket(c.reassembler, h, payload);
    if step.outcome.Ok? && step.outcome.value.Some? {
      AssembledIsFresh(c.reassembler, h, payload);
    }
  }

  /** Every in-flight id is one of the sent ids, so none is above the newest. */
  lemma NoneAboveNewest(c: State, streamId: byte, sent: seq<Sent>, last: nat)
    requires HonestTable(c, streamId, sent) && last == |sent| - 1
    requires forall i, j :: 0 <= i < j < |sent| ==> Id(sent[i]) < Id(sent[j])
    ensures forall id :: id in c.frames ==> id <= Id(sent[last])
  {
    forall id | id in c.frames ensures id <= Id(sent[last]) {
      assert HeldBySome(c.frames[id], id, streamId, sent);
    }
  }

  /** A packet of an older frame does not change what is known of the newest one. */
  lemma OlderPacketKeepsNewest(c: State, streamId: byte, sent: seq<Sent>, j: nat, i: nat)
    requires |sent| > 0 && j < |sent| - 1 && i < |ChunksOf(sent[j])|
    requires forall i, j :: 0 <= i < j < |sent| ==> Id(sent[i]) < Id(sent[j])
    requires HonestTable(c, streamId, sent)
    ensures var p := PacketOf(streamId, sent[j], i);
            Known(ProcessPacket(c, p.header, p.payload).next, sent[|sent| - 1]) == Known(c, sent[|sent| - 1])
  {
    var id := Id(sent[|sent| - 1]);
    var p := PacketOf(streamId, sent[j], i);
    NoneAboveNewest(c, streamId, sent, |sent| - 1);
    if id in c.frames && |c.frames| >= c.maxInFlight {
      EvictionSparesLargest(c.frames.Keys, id);
    }
    OtherEntryKept(c, p.header, p.payload, id);
  }

  lemma CommitKeepsLater(c: State, frameId: u32, s: Sent)
    requires frameId < Id(s)
    ensures Known(Commit(c, frameId).0, s) == Known(c, s)
  {
  }

  lemma OlderDatagramKeepsNewest(a: Aead, c: Client, streamId: byte, sent: seq<Sent>, j: nat, i: nat)
    requires |sent| > 0 && j < |sent| - 1 && i < |ChunksOf(sent[j])|
    requires forall i, j :: 0 <= i < j < |sent| ==> Id(sent[i]) < Id(sent[j])
    requires HonestTable(c.reassembler, streamId, sent)
    ensures Known(Accept(a, c, DatagramOf(streamId, sent[j], i)).0.reassembler, sent[|sent| - 1])
         == Known(c.reassembler, sent[|sent| - 1])
  {
    var p := PacketOf(streamId, sent[j], i);
    PacketFacts(streamId, sent[j], i);
    OlderPacketKeepsNewest(c.reassembler, streamId, sent, j, i);
    AcceptedReassembler(a, c, DatagramOf(streamId, sent[j], i), p.header, p.payload);
    CommitKeepsLater(ProcessPacket(c.reassembler, p.header, p.payload).next, p.header.frameId, sent[|sent| - 1]);
  }

  // ---- Runs --------------------------------------------------------------------------------

  /** Filling slot `i` is what the arrival of packet `i` does to the set of arrived packets. */
  lemma ArrivalFillsSlot(c: State, streamId: byte, s: Sent, init: seq<Bytes>, i: nat)
    requires i < |ChunksOf(s)| && Tracks(c, streamId, s, init)
    ensures var ds := init + [DatagramOf(streamId, s, i)];
            var ps := Known(c, s)[i := Some(ChunksOf(s)[i])];
            && (forall k :: 0 <= k < |ChunksOf(s)| ==> (ps[k].Some? <==> Arrived(streamId, s, ds, k)))
            && (Received(ps) == |ps| <==> AllArrived(streamId, s, ds))
  {
    var d := DatagramOf(streamId, s, i);
    var ps := Known(c, s)[i := Some(ChunksOf(s)[i])];
    forall k | 0 <= k < |ChunksOf(s)|
      ensures ps[k].Some? <==> Arrived(streamId, s, init + [d], k)
    {
      if k != i && DatagramOf(streamId, s, k) == d {
        DatagramsAreDistinct(streamId, s, k, s, i);
      }
    }
    FullSlots(ps);
  }

  /** Marks that a step is looked into, so that it is unfolded where a proof says so and nowhere else. */
  predicate Considered(init: seq<Bytes>) { true }

  /** What one more datagram should do for a frame that is tracked: publish it if nothing is missing any more, and
      keep it tracked otherwise. */
  ghost predicate Advances(a: Aead, c: Client, streamId: byte, s: Sent, init: seq<Bytes>, d: Bytes) {
    forall ds {:trigger Considered(ds)} :: Considered(ds) && ds == init + [d] ==>
      if AllArrived(streamId, s, ds) then Accept(a, c, d).1.Published? && Accept(a, c, d).1.job == JobFor(s)
      else Tracks(Accept(a, c, d).0.reassembler, streamId, s, ds)
  }

  lemma AdvancesPublishes(a: Aead, c: Client, streamId: byte, s: Sent, init: seq<Bytes>, d: Bytes)
    requires Advances(a, c, streamId, s, init, d) && AllArrived(streamId, s, init + [d])
    ensures Accept(a, c, d).1.Published? && Accept(a, c, d).1.job == JobFor(s)
  {
    assert Considered(init + [d]);
  }

  lemma AdvancesTracks(a: Aead, c: Client, streamId: byte, s: Sent, init: seq<Bytes>, d: Bytes)
    requires Advances(a, c, streamId, s, init, d) && !AllArrived(streamId, s, init + [d])
    ensures Tracks(Accept(a, c, d).0.reassembler, streamId, s, init + [d])
  {
    assert Considered(init + [d]);
  }

  /** The packets of the newest frame that have arrived with this datagram are exactly those then known. */
  lemma NewestIsKnown(
      a: Aead, c: Client, key: Bytes, domain: u32, streamId: byte, sent: seq<Sent>, s: Sent, init: seq<Bytes>, i: nat)
    requires Transcript(a, key, domain, streamId, sent) && |sent| > 0 && s == sent[|sent| - 1]
    requires HonestClient(c, key, domain, streamId, sent)
    requires i < |ChunksOf(s)| && Tracks(c.reassembler, streamId, s, init)
    requires !AllArrived(streamId, s, init + [DatagramOf(streamId, s, i)])
    ensures Tracks(Accept(a, c, DatagramOf(streamId, s, i)).0.reassembler, streamId, s,
                   init + [DatagramOf(streamId, s, i)])
  {
    ArrivalFillsSlot(c.reassembler, streamId, s, init, i);
    PacketStep(c.reassembler, streamId, sent, |sent| - 1, i);
    PacketFacts(streamId, s, i);
  }

  lemma NewestIsComplete(
      a: Aead, c: Client, key: Bytes, domain: u32, streamId: byte, sent: seq<Sent>, s: Sent, init: seq<Bytes>, i: nat)
    requires a.OpensWhatItSeals() && Transcript(a, key, domain, streamId, sent) && |sent| > 0 && s == sent[|sent| - 1]
    requires HonestClient(c, key, domain, streamId, sent)
    requires i < |ChunksOf(s)| && Tracks(c.reassembler, streamId, s, init)
    requires AllArrived(streamId, s, init + [DatagramOf(streamId, s, i)])
    ensures var o := Accept(a, c, DatagramOf(streamId, s, i)).1; o.Published? && o.job == JobFor(s)
  {
    ArrivalFillsSlot(c.reassembler, streamId, s, init, i);
    HonestDatagram(a, c, key, domain, streamId, sent, |sent| - 1, i);
  }

  /** One datagram of the newest frame: published if it completes the frame, tracked otherwise. */
  lemma NewestDatagram(
      a: Aead, c: Client, key: Bytes, domain: u32, streamId: byte, sent: seq<Sent>, init: seq<Bytes>, i: nat)
    requires a.OpensWhatItSeals() && Transcript(a, key, domain, streamId, sent) && |sent| > 0
    requires HonestClient(c, key, domain, streamId, sent)
    requires i < |ChunksOf(sent[|sent| - 1])| && Tracks(c.reassembler, streamId, sent[|sent| - 1], init)
    ensures var s := sent[|sent| - 1]; Advances(a, c, streamId, s, init, DatagramOf(streamId, s, i))
  {
    var s := sent[|sent| - 1];
    if AllArrived(streamId, s, init + [DatagramOf(streamId, s, i)]) {
      NewestIsComplete(a, c, key, domain, streamId, sent, s, init, i);
    } else {
      NewestIsKnown(a, c, key, domain, streamId, sent, s, init, i);
    }
  }

  /** A datagram of another frame is no arrival for this one. */
  lemma StillTracks(c: State, next: State, streamId: byte, s: Sent, s': Sent, i: nat, init: seq<Bytes>)
    requires Id(s) != Id(s') && i < |ChunksOf(s')|
    requires Tracks(c, streamId, s, init)
    requires Known(next, s) == Known(c, s) && !Stale(next.lastAuthenticated, Id(s))
    ensures Tracks(next, streamId, s, init + [DatagramOf(streamId, s', i)])
    ensures AllArrived(streamId, s, init + [DatagramOf(streamId, s', i)]) ==> AllArrived(streamId, s, init)
  {
    var d := DatagramOf(streamId, s', i);
    forall k | 0 <= k < |ChunksOf(s)|
      ensures Arrived(streamId, s, init + [d], k) <==> Arrived(streamId, s, init, k)
    {
      if DatagramOf(streamId, s, k) == d {
        DatagramsAreDistinct(streamId, s, k, s', i);
      }
    }
  }

  /** One datagram of an older frame: the newest one stays tracked. */
  lemma OlderDatagram(
      a: Aead, c: Client, key: Bytes, domain: u32, streamId: byte, sent: seq<Sent>, init: seq<Bytes>, j: nat, i: nat)
    requires a.OpensWhatItSeals() && Transcript(a, key, domain, streamId, sent) && |sent| > 0
    requires HonestClient(c, key, domain, streamId, sent)
    requires j < |sent| - 1 && i < |ChunksOf(sent[j])| && Tracks(c.reassembler, streamId, sent[|sent| - 1], init)
    ensures !AllArrived(streamId, sent[|sent| - 1], init) ==>
              Advances(a, c, streamId, sent[|sent| - 1], init, DatagramOf(streamId, sent[j], i))
  {
    OlderDatagramKeepsNewest(a, c, streamId, sent, j, i);
    HonestDatagram(a, c, key, domain, streamId, sent, j, i);
    var next := Accept(a, c, DatagramOf(streamId, sent[j], i)).0.reassembler;
    StillTracks(c.reassembler, next, streamId, sent[|sent| - 1], sent[j], i, init);
  }

  lemma TrackStepAt(
      a: Aead, c: Client, key: Bytes, domain: u32, streamId: byte, sent: seq<Sent>, init: seq<Bytes>, j: nat, i: nat)
    requires a.OpensWhatItSeals() && Transcript(a, key, domain, streamId, sent) && |sent| > 0
    requires HonestClient(c, key, domain, streamId, sent) && j < |sent| && i < |ChunksOf(sent[j])|
    requires Tracks(c.reassembler, streamId, sent[|sent| - 1], init) && !AllArrived(streamId, sent[|sent| - 1], init)
    ensures Advances(a, c, streamId, sent[|sent| - 1], init, DatagramOf(streamId, sent[j], i))
  {
    if j == |sent| - 1 {
      NewestDatagram(a, c, key, domain, streamId, sent, init, i);
    } else {
      OlderDatagram(a, c, key, domain, streamId, sent, init, j, i);
    }
  }

  /** One datagram of any sent frame. */
  lemma TrackStep(
      a: Aead, c: Client, key: Bytes, domain: u32, streamId: byte, sent: seq<Sent>, init: seq<Bytes>, d: Bytes)
    requires a.OpensWhatItSeals() && Transcript(a, key, domain, streamId, sent) && |sent| > 0
    requires HonestClient(c, key, domain, streamId, sent) && Carried(streamId, sent, d)
    requires Tracks(c.reassembler, streamId, sent[|sent| - 1], init) && !AllArrived(streamId, sent[|sent| - 1], init)
    ensures Advances(a, c, streamId, sent[|sent| - 1], init, d)
  {
    var j, i :| 0 <= j < |sent| && 0 <= i < |ChunksOf(sent[j])| && d == DatagramOf(streamId, sent[j], i);
    TrackStepAt(a, c, key, domain, streamId, sent, init, j, i);
  }

  lemma ArrivalsAccumulate(streamId: byte, s: Sent, init: seq<Bytes>, d: Bytes)
    requires AllArrived(streamId, s, init)
    ensures AllArrived(streamId, s, init + [d])
  {
    forall i | 0 <= i < |ChunksOf(s)| ensures Arrived(streamId, s, init + [d], i) {
      assert Arrived(streamId, s, init, i);
    }
  }

  ghost predicate AllCarried(streamId: byte, sent: seq<Sent>, ds: seq<Bytes>) {
    forall d :: d in ds ==> Carried(streamId, sent, d)
  }

  /** Until the newest frame is complete, the client tracks it exactly. */
  lemma {:induction false} NewestIsTracked(
      a: Aead, key: Bytes, domain: u32, streamId: byte, sent: seq<Sent>, ds: seq<Bytes>)
    requires a.OpensWhatItSeals() && Transcript(a, key, domain, streamId, sent) && |sent| > 0
    requires AllCarried(streamId, sent, ds) && !AllArrived(streamId, sent[|sent| - 1], ds)
    ensures Tracks(ReceiveAll(a, NewClient(key, domain), ds).client.reassembler, streamId, sent[|sent| - 1], ds)
  {
    if ds != [] {
      var init, d := ds[..|ds| - 1], ds[|ds| - 1];
      assert ds == init + [d];
      assert Carried(streamId, sent, d) && AllCarried(streamId, sent, init);
      if AllArrived(streamId, sent[|sent| - 1], init) {
        ArrivalsAccumulate(streamId, sent[|sent| - 1], init, d);
      }
      NewestIsTracked(a, key, domain, streamId, sent, init);
      TranscriptNeverFails(a, key, domain, streamId, sent, init);
      var c := ReceiveAll(a, NewClient(key, domain), init).client;
      TrackStep(a, c, key, domain, streamId, sent, init, d);
      AdvancesTracks(a, c, streamId, sent[|sent| - 1], init, d);
    }
  }

  lemma CompletingDatagram(
      a: Aead, key: Bytes, domain: u32, streamId: byte, sent: seq<Sent>, s: Sent, init: seq<Bytes>, d: Bytes)
    requires a.OpensWhatItSeals() && Transcript(a, key, domain, streamId, sent) && |sent| > 0 && s == sent[|sent| - 1]
    requires AllCarried(streamId, sent, init) && Carried(streamId, sent, d)
    requires !AllArrived(streamId, s, init) && AllArrived(streamId, s, init + [d])
    ensures var o := Accept(a, ReceiveAll(a, NewClient(key, domain), init).client, d).1;
            o.Published? && o.job == JobFor(s)
  {
    var c := ReceiveAll(a, NewClient(key, domain), init).client;
    NewestIsTracked(a, key, domain, streamId, sent, init);
    TranscriptNeverFails(a, key, domain, streamId, sent, init);
    TrackStep(a, c, key, domain, streamId, sent, init, d);
    AdvancesPublishes(a, c, streamId, s, init, d);
  }

  /** Against a transcript: the datagram that completes its last frame publishes that frame. */
  lemma CompletionPublishes(a: Aead, key: Bytes, domain: u32, streamId: byte, sent: seq<Sent>, ds: seq<Bytes>, k: nat)
    requires a.OpensWhatItSeals() && Transcript(a, key, domain, streamId, sent) && |sent| > 0
    requires k < |ds| && AllCarried(streamId, sent, ds[..k + 1])
    requires !AllArrived(streamId, sent[|sent| - 1], ds[..k]) && AllArrived(streamId, sent[|sent| - 1], ds[..k + 1])
    ensures var o := ReceiveAll(a, NewClient(key, domain), ds).outcomes[k];
            o.Published? && o.job == JobFor(sent[|sent| - 1])
  {
    var init, d := ds[..k], ds[k];
    assert ds[..k + 1] == init + [d];
    assert Carried(streamId, sent, d) && AllCarried(streamId, sent, init);
    CompletingDatagram(a, key, domain, streamId, sent, sent[|sent| - 1], init, d);
    OutcomeAt(a, NewClient(key, domain), ds, k);
  }

  lemma TranscriptPrefix(a: Aead, key: Bytes, domain: u32, streamId: byte, sent: seq<Sent>, n: nat)
    requires Transcript(a, key, domain, streamId, sent) && n <= |sent|
    ensures Transcript(a, key, domain, streamId, sent[..n])
  {
  }

  /**
   * Completeness. Among all the datagrams the host sends, take any arrival order in which, up to
   * datagram `k`, nothing newer than the frame sent as number `t` has arrived. If datagram `k` is the
   * first moment at which all packets of that frame are present, it publishes that frame.
   */
  lemma NewestFrameIsPublished(
      a: Aead, key: Bytes, streamId: byte, nonces: NonceState, frames: seq<EncodedFrame>, sent: seq<Sent>,
      ds: seq<Bytes>, t: nat, k: nat)
    requires a.OpensWhatItSeals() && IncreasingIds(frames)
    requires sent == SendAll(a, key, streamId, nonces, frames).1 && t < |sent| && k < |ds|
    requires AllCarried(streamId, sent[..t + 1], ds[..k + 1])
    requires !AllArrived(streamId, sent[t], ds[..k]) && AllArrived(streamId, sent[t], ds[..k + 1])
    ensures var o := ReceiveAll(a, NewClient(key, nonces.domain), ds).outcomes[k];
            o.Published? && Shows(o.job, sent[t].frame)
  {
    HostRunIsTranscript(a, key, streamId, nonces, frames);
    TranscriptPrefix(a, key, nonces.domain, streamId, sent, t + 1);
    CompletionPublishes(a, key, nonces.domain, streamId, sent[..t + 1], ds, k);
  }
}
