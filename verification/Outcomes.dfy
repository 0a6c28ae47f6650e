/**
 * What becomes of each datagram on arbitrary bytes. For every outcome, failures included, a run has it exactly when
 * what arrived and was published before, seen without counters and without a window, calls for it.
 */
module Outcomes {
  import opened Wrappers
  import opened Octets
  import opened VideoPacket
  import opened Packetizer
  import opened Crypto
  import opened Reassembler
  import opened Receiver
  import ReplayWindow
  import Spec = ReassemblySpec

  /** What decides about the next datagram: the fragments under way, and every nonce sequence ever published. */
  datatype Past = Past(table: Spec.Table, nonces: set<u64>)

  /** The datagram is one packet and nothing else. */
  predicate IsPacket(b: Bytes) {
    DecodeDatagram(b).Ok? && EncodeDatagram(DecodeDatagram(b).value.0, DecodeDatagram(b).value.1) == Ok(b)
  }

  /** What the frame table replies to the packet. */
  function Reply(table: Spec.Table, b: Bytes): Result<Option<Assembled>, ReassemblyError>
    requires IsPacket(b)
  {
    Spec.Receive(table, DecodeDatagram(b).value.0, DecodeDatagram(b).value.1).outcome
  }

  /** The packet completes this frame. */
  predicate Completes(table: Spec.Table, b: Bytes, f: Assembled) {
    IsPacket(b) && Reply(table, b) == Ok(Some(f))
  }

  /** The outcome that the past calls for. */
  ghost predicate Due(a: Aead, key: Bytes, domain: u32, past: Past, b: Bytes, o: Outcome) {
    match o
    case Failed(Datagram(e)) => DecodeDatagram(b) == Err(e)
    case Failed(TrailingDatagramBytes) => DecodeDatagram(b).Ok? && !IsPacket(b)
    case Failed(Reassembly(e)) => IsPacket(b) && Reply(past.table, b) == Err(e)
    case Absorbed => IsPacket(b) && Reply(past.table, b) == Ok(None)
    case Failed(AuthenticationFailed) =>
      exists f :: Completes(past.table, b, f) && OpenFrame(a, key, domain, f).None?
    case Failed(NonceReplay) =>
      exists f :: Completes(past.table, b, f) && OpenFrame(a, key, domain, f).Some?
                  && !ReplayWindow.Admissible(past.nonces, f.header.nonceSequence)
    case StaleFrame => false
    case Published(job, f) =>
      && Completes(past.table, b, f) && OpenFrame(a, key, domain, f) == Some(job.accessUnit)
      && ReplayWindow.Admissible(past.nonces, f.header.nonceSequence)
      && job.frameId == f.header.frameId && job.timestampUs == f.header.timestampUs
      && job.keyframe == IsKeyframe(f.header.flags)
  }

  /** The past calls for at most one outcome. */
  lemma DueIsUnique(a: Aead, key: Bytes, domain: u32, past: Past, b: Bytes, o: Outcome, p: Outcome)
    requires Due(a, key, domain, past, b, o) && Due(a, key, domain, past, b, p)
    ensures o == p
  {
  }

  /** The client is what that past has made of it. */
  ghost predicate Reflects(c: Client, past: Past) {
    Valid(c.reassembler) && Spec.TableOf(c.reassembler) == past.table && ReplayWindow.Summarises(c.window, past.nonces)
  }

  /** One datagram gets the outcome its past calls for. */
  lemma AcceptIsDue(a: Aead, c: Client, past: Past, b: Bytes)
    requires Reflects(c, past)
    ensures Due(a, c.key, c.domain, past, b, Accept(a, c, b).1)
  {
    if DecodeDatagram(b).Ok? {
      EncodeOfDecode(b);
      var (h, payload) := DecodeDatagram(b).value;
      if IsPacket(b) {
        Spec.ReassemblerRefinesTable(c.reassembler, h, payload);
        var step := ProcessPacket(c.reassembler, h, payload);
        if step.outcome.Ok? && step.outcome.value.Some? {
          var f := step.outcome.value.value;
          AssembledIsFresh(c.reassembler, h, payload);
          assert Completes(past.table, b, f);
          ReplayWindow.WindowDecidesLikeHistory(c.window, past.nonces, f.header.nonceSequence);
        }
      }
    }
  }

  lemma ProcessKeepsWatermark(s: State, h: Header, payload: Bytes)
    ensures ProcessPacket(s, h, payload).next.lastAuthenticated == s.lastAuthenticated
  {
  }

  lemma DeliveryEffects(a: Aead, c: Client, f: Assembled)
    ensures var (next, o) := Deliver(a, c, f);
            && (o.Failed? ==> next == c && (o.error == AuthenticationFailed || o.error == NonceReplay))
            && o != Absorbed
            && (o.Published? ==> next.reassembler.lastAuthenticated == Some(o.job.frameId))
  {
  }

  /** What an outcome does to the client. A datagram that is no packet of the stream changes nothing; a frame that is
      not published leaves window and watermark alone; a published one moves the watermark to its id. */
  lemma OutcomeEffects(a: Aead, c: Client, b: Bytes)
    requires Valid(c.reassembler)
    ensures var (next, o) := Accept(a, c, b);
            && (o.Failed? && o.error != AuthenticationFailed && o.error != NonceReplay ==> next == c)
            && (!o.Published? && o != StaleFrame ==>
                  next.window == c.window && next.reassembler.lastAuthenticated == c.reassembler.lastAuthenticated)
            && (o.Published? ==> next.reassembler.lastAuthenticated == Some(o.job.frameId))
  {
    var decoded := DecodeDatagram(b);
    if decoded.Ok? {
      var (h, payload) := decoded.value;
      ProcessKeepsValid(c.reassembler, h, payload);
      ProcessKeepsWatermark(c.reassembler, h, payload);
      var step := ProcessPacket(c.reassembler, h, payload);
      if step.outcome.Ok? && step.outcome.value.Some? {
        DeliveryEffects(a, c.(reassembler := step.next), step.outcome.value.value);
      }
    }
  }

  // ---- Whole runs --------------------------------------------------------------------------

  /** What one datagram with this outcome means for the frame table. */
  function EventOf(b: Bytes, o: Outcome): seq<Spec.Event> {
    (if IsPacket(b) then [Spec.Packet(DecodeDatagram(b).value.0, DecodeDatagram(b).value.1)] else [])
    + (if o.Published? then [Spec.Authenticated(o.job.frameId)] else [])
  }

  function EventsOf(ds: seq<Bytes>, outcomes: seq<Outcome>): seq<Spec.Event>
    requires |ds| == |outcomes|
  {
    if ds == [] then []
    else EventsOf(ds[..|ds| - 1], outcomes[..|ds| - 1]) + EventOf(ds[|ds| - 1], outcomes[|ds| - 1])
  }

  function NoncesOf(outcomes: seq<Outcome>): set<u64> {
    set o | o in outcomes && o.Published? :: o.sealed.header.nonceSequence
  }

  /** The past as the datagrams and their outcomes tell it. */
  function PastOf(ds: seq<Bytes>, outcomes: seq<Outcome>): Past
    requires |ds| == |outcomes|
  {
    Past(Spec.TableReplies(MAX_IN_FLIGHT_FRAMES, MAX_FRAME_PAYLOAD_SIZE, EventsOf(ds, outcomes)).0, NoncesOf(outcomes))
  }

  lemma PacketReply(maxInFlight: nat, maxFrameBytes: nat, events: seq<Spec.Event>, h: Header, payload: Bytes)
    ensures Spec.Replies(maxInFlight, maxFrameBytes, events + [Spec.Packet(h, payload)]).0
            == ProcessPacket(Spec.Replies(maxInFlight, maxFrameBytes, events).0, h, payload).next
  {
    assert (events + [Spec.Packet(h, payload)])[..|events|] == events;
  }

  lemma CommitReply(maxInFlight: nat, maxFrameBytes: nat, events: seq<Spec.Event>, frameId: u32)
    ensures Spec.Replies(maxInFlight, maxFrameBytes, events + [Spec.Authenticated(frameId)]).0
            == Commit(Spec.Replies(maxInFlight, maxFrameBytes, events).0, frameId).0
  {
    assert (events + [Spec.Authenticated(frameId)])[..|events|] == events;
  }

  /** One datagram moves the reassembler as its events say. */
  lemma AcceptFollowsEvents(a: Aead, c: Client, b: Bytes, events: seq<Spec.Event>)
    requires Valid(c.reassembler)
    requires c.reassembler == Spec.Replies(MAX_IN_FLIGHT_FRAMES, MAX_FRAME_PAYLOAD_SIZE, events).0
    ensures var (next, o) := Accept(a, c, b);
            o != StaleFrame ==>
              next.reassembler
              == Spec.Replies(MAX_IN_FLIGHT_FRAMES, MAX_FRAME_PAYLOAD_SIZE, events + EventOf(b, o)).0
  {
    var (next, o) := Accept(a, c, b);
    if DecodeDatagram(b).Ok? {
      EncodeOfDecode(b);
    }
    if IsPacket(b) {
      var (h, payload) := DecodeDatagram(b).value;
      PacketReply(MAX_IN_FLIGHT_FRAMES, MAX_FRAME_PAYLOAD_SIZE, events, h, payload);
      if o.Published? {
        var packet := events + [Spec.Packet(h, payload)];
        CommitReply(MAX_IN_FLIGHT_FRAMES, MAX_FRAME_PAYLOAD_SIZE, packet, o.job.frameId);
        assert packet + [Spec.Authenticated(o.job.frameId)] == events + EventOf(b, o);
      } else {
        assert events + [Spec.Packet(h, payload)] == events + EventOf(b, o);
      }
    } else {
      assert events + EventOf(b, o) == events;
    }
  }

  lemma NoncesGrow(outcomes: seq<Outcome>, o: Outcome)
    ensures NoncesOf(outcomes + [o]) ==
            if o.Published? then NoncesOf(outcomes) + {o.sealed.header.nonceSequence} else NoncesOf(outcomes)
  {
    assert forall p :: p in outcomes + [o] <==> p in outcomes || p == o;
  }

  /** One datagram moves the replay window as its outcome says. */
  lemma AcceptFollowsNonces(a: Aead, c: Client, b: Bytes, outcomes: seq<Outcome>)
    requires Valid(c.reassembler) && ReplayWindow.Summarises(c.window, NoncesOf(outcomes))
    ensures var (next, o) := Accept(a, c, b);
            o != StaleFrame ==> ReplayWindow.Summarises(next.window, NoncesOf(outcomes + [o]))
  {
    var (next, o) := Accept(a, c, b);
    NoncesGrow(outcomes, o);
    OutcomeEffects(a, c, b);
    if o.Published? {
      ReplayWindow.WindowDecidesLikeHistory(c.window, NoncesOf(outcomes), o.sealed.header.nonceSequence);
    }
  }

  /** After every run the client is what the past of that run has made of it. */
  lemma {:induction false} RunReflectsPast(a: Aead, key: Bytes, domain: u32, ds: seq<Bytes>)
    ensures var run := ReceiveAll(a, NewClient(key, domain), ds);
            && Reflects(run.client, PastOf(ds, run.outcomes))
            && run.client.reassembler
               == Spec.Replies(MAX_IN_FLIGHT_FRAMES, MAX_FRAME_PAYLOAD_SIZE, EventsOf(ds, run.outcomes)).0
  {
    var run := ReceiveAll(a, NewClient(key, domain), ds);
    Spec.EveryRunRefines(MAX_IN_FLIGHT_FRAMES, MAX_FRAME_PAYLOAD_SIZE, EventsOf(ds, run.outcomes));
    if ds == [] {
      assert NoncesOf([]) == {};
    } else {
      var init, d := ds[..|ds| - 1], ds[|ds| - 1];
      var before := ReceiveAll(a, NewClient(key, domain), init);
      RunReflectsPast(a, key, domain, init);
      ReceiverSafety(a, key, domain, ds);
      var o := Accept(a, before.client, d).1;
      assert run.outcomes == before.outcomes + [o] && run.outcomes[|init|] == o;
      AcceptFollowsEvents(a, before.client, d, EventsOf(init, before.outcomes));
      AcceptFollowsNonces(a, before.client, d, before.outcomes);
      assert run.outcomes[..|init|] == before.outcomes;
    }
  }

  /** Over every run, whatever the bytes: datagram `k` has an outcome if and only if the datagrams and outcomes before
      it call for that outcome. */
  lemma OutcomesAreExact(a: Aead, key: Bytes, domain: u32, ds: seq<Bytes>, k: nat, o: Outcome)
    requires k < |ds|
    ensures var outcomes := ReceiveAll(a, NewClient(key, domain), ds).outcomes;
            outcomes[k] == o <==> Due(a, key, domain, PastOf(ds[..k], outcomes[..k]), ds[k], o)
  {
    var c := NewClient(key, domain);
    var outcomes := ReceiveAll(a, c, ds).outcomes;
    var before := ReceiveAll(a, c, ds[..k]);
    ReceivePrefix(a, c, ds, k);
    OutcomeAt(a, c, ds, k);
    RunReflectsPast(a, key, domain, ds[..k]);
    ReceiverSafety(a, key, domain, ds[..k]);
    var past := PastOf(ds[..k], before.outcomes);
    AcceptIsDue(a, before.client, past, ds[k]);
    if Due(a, key, domain, past, ds[k], o) {
      DueIsUnique(a, key, domain, past, ds[k], o, outcomes[k]);
    }
  }
}
