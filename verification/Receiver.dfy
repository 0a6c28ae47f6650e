/** The client side of the video path: decode, reassemble, authenticate, replay-check, publish. */
module Receiver {
  import opened Wrappers
  import opened Octets
  import opened VideoPacket
  import opened Packetizer
  import opened Crypto
  import opened Reassembler
  import ReplayWindow

  /** An authenticated access unit ready for the decoder. */
  datatype Job = Job(frameId: u32, timestampUs: u64, keyframe: bool, accessUnit: Bytes)

  datatype ReceiverError =
    | Datagram(cause: DatagramError)
    | TrailingDatagramBytes
    | Reassembly(fault: ReassemblyError)
    | AuthenticationFailed
    | NonceReplay

  datatype Client = Client(
    key: Bytes,
    domain: u32,
    reassembler: State,
    window: ReplayWindow.Window)

  /** How one datagram ends; `Absorbed`, `StaleFrame` and `Published` are the `Ok(())` of the source. */
  datatype Outcome =
    | Failed(error: ReceiverError)
    | Absorbed
    | StaleFrame
    | Published(job: Job, sealed: Assembled)

  function NewClient(key: Bytes, domain: u32): Client {
    Client(key, domain, New(MAX_IN_FLIGHT_FRAMES, MAX_FRAME_PAYLOAD_SIZE), ReplayWindow.EMPTY)
  }

  /** The authenticated contents of an assembled frame, if it opens. */
  function OpenFrame(a: Aead, key: Bytes, domain: u32, f: Assembled): Option<Bytes> {
    a.open(key, NonceFromSequence(domain, f.header.nonceSequence), AssociatedData(MetadataOf(f.header)), f.payload)
  }

  function JobOf(f: Assembled, accessUnit: Bytes): Job {
    Job(f.header.frameId, f.header.timestampUs, IsKeyframe(f.header.flags), accessUnit)
  }

  /** `accept_datagram`. */
  function Accept(a: Aead, c: Client, b: Bytes): (Client, Outcome) {
    match DecodeDatagram(b)
    case Err(e) => (c, Failed(Datagram(e)))
    case Ok((h, payload)) =>
      if |b| != HEADER_LEN + |payload| then (c, Failed(TrailingDatagramBytes))
      else
        var step := ProcessPacket(c.reassembler, h, payload);
        match step.outcome
        case Err(e) => (c.(reassembler := step.next), Failed(Reassembly(e)))
        case Ok(None) => (c.(reassembler := step.next), Absorbed)
        case Ok(Some(f)) => Deliver(a, c.(reassembler := step.next), f)
  }

  /** The second half of `accept_datagram`: a complete frame is opened, replay-checked and committed. */
  function Deliver(a: Aead, c: Client, f: Assembled): (Client, Outcome) {
    match OpenFrame(a, c.key, c.domain, f)
    case None => (c, Failed(AuthenticationFailed))
    case Some(accessUnit) =>
      var (window, unused) := ReplayWindow.Commit(c.window, f.header.nonceSequence);
      if !unused then (c.(window := window), Failed(NonceReplay))
      else
        var (reassembler, isFresh) := Commit(c.reassembler, f.header.frameId);
        var committed := c.(window := window, reassembler := reassembler);
        if !isFresh then (committed, StaleFrame) else (committed, Published(JobOf(f, accessUnit), f))
  }

  class ClientReceiver {
    const aead: Aead
    const key: Bytes
    const domain: u32
    const reassembler: VideoFrameReassembler
    const window: ReplayWindow.NonceReplayWindow
    var latestFrame: Option<Job>

    function Contents(): Client
      reads this, reassembler, window
    {
      Client(key, domain, reassembler.Contents(), window.Contents())
    }

    constructor (aead: Aead, key: Bytes, domain: u32)
      ensures this.aead == aead && Contents() == NewClient(key, domain) && latestFrame == None
      ensures Valid(reassembler.Contents()) && fresh(reassembler) && fresh(window)
    {
      this.aead := aead;
      this.key := key;
      this.domain := domain;
      this.reassembler := new VideoFrameReassembler(MAX_IN_FLIGHT_FRAMES, MAX_FRAME_PAYLOAD_SIZE);
      this.window := new ReplayWindow.NonceReplayWindow();
      this.latestFrame := None;
    }

    method AcceptDatagram(b: Bytes) returns (r: Result<(), ReceiverError>)
      requires Valid(reassembler.Contents())
      modifies this, reassembler, window
      ensures Valid(reassembler.Contents())
      ensures Contents() == Accept(aead, old(Contents()), b).0
      ensures match Accept(aead, old(Contents()), b).1
              case Failed(e) => r == Err(e) && latestFrame == old(latestFrame)
              case Published(job, _) => r == Ok(()) && latestFrame == Some(job)
              case _ => r == Ok(()) && latestFrame == old(latestFrame)
    {
      var decoded := DecodeDatagram(b);
      if decoded.Err? {
        return Err(Datagram(decoded.error));
      }
      var (h, payload) := decoded.value;
      if |b| != HEADER_LEN + |payload| {
        return Err(TrailingDatagramBytes);
      }
      var processed := reassembler.Process(h, payload);
      if processed.Err? {
        return Err(Reassembly(processed.error));
      }
      if processed.value.None? {
        return Ok(());
      }
      var f := processed.value.value;
      var accessUnit := OpenFrame(aead, key, domain, f);
      if accessUnit.None? {
        return Err(AuthenticationFailed);
      }
      var unused := window.CommitAuthenticated(f.header.nonceSequence);
      if !unused {
        return Err(NonceReplay);
      }
      var isFresh := reassembler.CommitAuthenticatedFrame(f.header.frameId);
      if !isFresh {
        return Ok(());
      }
      latestFrame := Some(JobOf(f, accessUnit.value));
      r := Ok(());
    }

    method DrainLatestFrame() returns (job: Option<Job>)
      modifies this
      ensures job == old(latestFrame) && latestFrame == None
    {
      job := latestFrame;
      latestFrame := None;
    }
  }

  // ---- Whole runs --------------------------------------------------------------------------

  datatype Run = Run(client: Client, outcomes: seq<Outcome>)

  /** A client fed with any sequence of datagrams. */
  function ReceiveAll(a: Aead, c: Client, ds: seq<Bytes>): (run: Run)
    ensures |run.outcomes| == |ds|
  {
    if ds == [] then Run(c, [])
    else
      var before := ReceiveAll(a, c, ds[..|ds| - 1]);
      var (after, outcome) := Accept(a, before.client, ds[|ds| - 1]);
      Run(after, before.outcomes + [outcome])
  }

  /** Later datagrams do not change earlier outcomes. */
  lemma {:induction false} ReceivePrefix(a: Aead, c: Client, ds: seq<Bytes>, n: nat)
    requires n <= |ds|
    ensures ReceiveAll(a, c, ds[..n]).outcomes == ReceiveAll(a, c, ds).outcomes[..n]
  {
    if n == |ds| {
      assert ds[..n] == ds;
    } else {
      ReceivePrefix(a, c, ds[..|ds| - 1], n);
      assert ds[..|ds| - 1][..n] == ds[..n];
    }
  }

  /** The outcome of datagram `k` is decided by the datagrams before it. */
  lemma OutcomeAt(a: Aead, c: Client, ds: seq<Bytes>, k: nat)
    requires k < |ds|
    ensures ReceiveAll(a, c, ds).outcomes[k] == Accept(a, ReceiveAll(a, c, ds[..k]).client, ds[k]).1
  {
    ReceivePrefix(a, c, ds, k + 1);
    assert ds[..k + 1][..k] == ds[..k];
  }

  /** A frame is published only with an access unit that opened under the session key, for exactly
      the identity, timestamp and keyframe flag that are published. */
  ghost predicate Authentic(a: Aead, key: Bytes, domain: u32, o: Outcome)
    requires o.Published?
  {
    && OpenFrame(a, key, domain, o.sealed) == Some(o.job.accessUnit)
    && o.job == JobOf(o.sealed, o.job.accessUnit)
  }

  /** What holds of a client after any run: the watermark is the newest published id, and the
      window has accepted every published nonce sequence. */
  ghost predicate Consistent(c: Client, outcomes: seq<Outcome>) {
    && Valid(c.reassembler)
    && (exists history :: ReplayWindow.Summarises(c.window, history)
          && (forall o :: o in outcomes && o.Published? ==> o.sealed.header.nonceSequence in history))
    && (forall o :: o in outcomes && o.Published? ==> Stale(c.reassembler.lastAuthenticated, o.job.frameId))
  }

  /** A published frame has a greater id than every one before it and a nonce sequence none of them had. */
  ghost predicate Newer(o: Outcome, before: seq<Outcome>)
    requires o.Published?
  {
    forall p :: p in before && p.Published? ==>
      p.job.frameId < o.job.frameId && p.sealed.header.nonceSequence != o.sealed.header.nonceSequence
  }

  /** A complete frame is never older than the watermark it was assembled under. */
  lemma AssembledIsFresh(s: State, h: Header, payload: Bytes)
    requires Valid(s)
    requires ProcessPacket(s, h, payload).outcome.Ok? && ProcessPacket(s, h, payload).outcome.value.Some?
    ensures var step := ProcessPacket(s, h, payload);
            && step.outcome.value.value.header.frameId == h.frameId
            && !Stale(step.next.lastAuthenticated, h.frameId)
            && step.next.lastAuthenticated == s.lastAuthenticated
  {
    if h.packetCount != 1 {
      OpenEntry(s, h);
      var kept := MakeRoom(s.frames, s.maxInFlight, h.frameId);
      assert ValidEntry(h.frameId, kept[h.frameId := EntryFor(kept, h)][h.frameId], s.maxFrameBytes);
    }
  }

  /** One datagram: the stale branch is unreachable, a published frame is authentic, strictly newer than
      the watermark and under an unused nonce, and consistency is kept. */
  lemma AcceptIsSafe(a: Aead, c: Client, outcomes: seq<Outcome>, b: Bytes)
    requires Consistent(c, outcomes)
    ensures var (next, o) := Accept(a, c, b);
            && Consistent(next, outcomes + [o])
            && next.key == c.key && next.domain == c.domain
            && o != StaleFrame
            && (o.Published? ==> Authentic(a, c.key, c.domain, o) && Newer(o, outcomes))
  {
    var decoded := DecodeDatagram(b);
    if decoded.Ok? && |b| == HEADER_LEN + |decoded.value.1| {
      var (h, payload) := decoded.value;
      ProcessKeepsValid(c.reassembler, h, payload);
      var step := ProcessPacket(c.reassembler, h, payload);
      assert step.next.lastAuthenticated == c.reassembler.lastAuthenticated;
      var mid := c.(reassembler := step.next);
      if step.outcome.Ok? && step.outcome.value.Some? {
        AssembledIsFresh(c.reassembler, h, payload);
        DeliverIsSafe(a, mid, outcomes, step.outcome.value.value);
      } else {
        UnpublishedIsConsistent(mid, outcomes, Accept(a, c, b).1);
      }
    } else {
      UnpublishedIsConsistent(c, outcomes, Accept(a, c, b).1);
    }
  }

  lemma UnpublishedIsConsistent(c: Client, outcomes: seq<Outcome>, o: Outcome)
    requires Consistent(c, outcomes) && !o.Published?
    ensures Consistent(c, outcomes + [o])
  {
    assert forall p :: p in outcomes + [o] && p.Published? ==> p in outcomes;
  }

  lemma DeliverIsSafe(a: Aead, c: Client, outcomes: seq<Outcome>, f: Assembled)
    requires Consistent(c, outcomes) && !Stale(c.reassembler.lastAuthenticated, f.header.frameId)
    ensures var (next, o) := Deliver(a, c, f);
            && Consistent(next, outcomes + [o])
            && next.key == c.key && next.domain == c.domain
            && o != StaleFrame
            && (o.Published? ==> Authentic(a, c.key, c.domain, o) && Newer(o, outcomes))
  {
    var history :| ReplayWindow.Summarises(c.window, history)
      && forall o :: o in outcomes && o.Published? ==> o.sealed.header.nonceSequence in history;
    var sequence := f.header.nonceSequence;
    ReplayWindow.WindowDecidesLikeHistory(c.window, history, sequence);
    CommitKeepsValid(c.reassembler, f.header.frameId);
    var (next, o) := Deliver(a, c, f);
    var grown := if o.Published? then history + {sequence} else history;
    assert ReplayWindow.Summarises(next.window, grown);
    assert forall p :: p in outcomes + [o] && p.Published? ==> p in outcomes || p == o;
  }

  /** Published ids strictly increase, no nonce sequence is published twice, everything published is
      authentic, and the stale branch is never taken. */
  ghost predicate Safe(a: Aead, key: Bytes, domain: u32, outcomes: seq<Outcome>) {
    && StaleFrame !in outcomes
    && (forall i :: 0 <= i < |outcomes| && outcomes[i].Published? ==> Authentic(a, key, domain, outcomes[i]))
    && (forall i, j :: 0 <= i < j < |outcomes| && outcomes[i].Published? && outcomes[j].Published? ==>
          && outcomes[i].job.frameId < outcomes[j].job.frameId
          && outcomes[i].sealed.header.nonceSequence != outcomes[j].sealed.header.nonceSequence)
  }

  lemma SafeGrows(a: Aead, key: Bytes, domain: u32, outcomes: seq<Outcome>, o: Outcome)
    requires Safe(a, key, domain, outcomes) && o != StaleFrame
    requires o.Published? ==> Authentic(a, key, domain, o) && Newer(o, outcomes)
    ensures Safe(a, key, domain, outcomes + [o])
  {
  }

  lemma NewClientIsConsistent(key: Bytes, domain: u32)
    ensures Consistent(NewClient(key, domain), [])
  {
    NewStateIsValid(MAX_IN_FLIGHT_FRAMES, MAX_FRAME_PAYLOAD_SIZE);
    assert ReplayWindow.Summarises(ReplayWindow.EMPTY, {});
  }

  /** Every run on arbitrary bytes is safe. */
  lemma {:induction false} ReceiverSafety(a: Aead, key: Bytes, domain: u32, ds: seq<Bytes>)
    ensures var run := ReceiveAll(a, NewClient(key, domain), ds);
            && Consistent(run.client, run.outcomes)
            && run.client.key == key && run.client.domain == domain
            && Safe(a, key, domain, run.outcomes)
  {
    if ds == [] {
      NewClientIsConsistent(key, domain);
    } else {
      ReceiverSafety(a, key, domain, ds[..|ds| - 1]);
      var before := ReceiveAll(a, NewClient(key, domain), ds[..|ds| - 1]);
      AcceptIsSafe(a, before.client, before.outcomes, ds[|ds| - 1]);
      SafeGrows(a, key, domain, before.outcomes, Accept(a, before.client, ds[|ds| - 1]).1);
    }
  }
}
