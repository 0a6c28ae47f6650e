/** The runtime's dispatch of inbound datagrams: video first, control otherwise. */
module Inbound {
  import opened Wrappers
  import opened Octets
  import opened VideoPacket
  import opened Crypto
  import opened Receiver
  import opened Streamer
  import opened VideoPath
  import Control

  /** What becomes of a datagram; what a control message means is left to its handler. */
  datatype Inbound =
    | Video(outcome: Outcome)
    | Message(kind: Control.Kind, message: Bytes)
    | Unreadable(error: Control.ControlError)

  /** `accept_inbound_datagram`. */
  function Dispatch(a: Aead, c: Client, b: Bytes): (Client, Inbound) {
    if DecodeDatagram(b).Ok? then
      var (next, outcome) := Accept(a, c, b);
      (next, Video(outcome))
    else
      match Control.DecodeEnvelope(b)
      case Ok((kind, message)) => (c, Message(kind, message))
      case Err(e) => (c, Unreadable(e))
  }

  /** On arbitrary bytes: video is what decodes as such, a message is what is exactly its envelope, and the rest is
      refused for what is wrong with it as an envelope; only video touches the client. */
  lemma DispatchExactly(a: Aead, c: Client, b: Bytes, kind: Control.Kind, message: Bytes, e: Control.ControlError)
    ensures Dispatch(a, c, b).1.Video? <==> DecodeDatagram(b).Ok?
    ensures Dispatch(a, c, b).1.Video? ==> Accept(a, c, b) == (Dispatch(a, c, b).0, Dispatch(a, c, b).1.outcome)
    ensures Dispatch(a, c, b) == (c, Message(kind, message)) <==> Control.EncodeEnvelope(kind, message) == Ok(b)
    ensures Dispatch(a, c, b) == (c, Unreadable(e)) <==> DecodeDatagram(b).Err? && Control.Refuses(b, e)
  {
    Control.ClassificationIsUnambiguous(b);
    Control.RefusedExactly(b, e);
    Control.EnvelopeRoundTrip(kind, message);
    if Control.DecodeEnvelope(b).Ok? {
      Control.EnvelopeIsCanonical(b);
    }
  }

  function DispatchAll(a: Aead, c: Client, ds: seq<Bytes>): (run: (Client, seq<Inbound>))
    ensures |run.1| == |ds|
  {
    if ds == [] then (c, [])
    else
      var (before, results) := DispatchAll(a, c, ds[..|ds| - 1]);
      var (after, result) := Dispatch(a, before, ds[|ds| - 1]);
      (after, results + [result])
  }

  /** The datagrams that decode as video, in order. */
  function VideoPart(ds: seq<Bytes>): seq<Bytes> {
    if ds == [] then []
    else
      var init, last := VideoPart(ds[..|ds| - 1]), ds[|ds| - 1];
      if DecodeDatagram(last).Ok? then init + [last] else init
  }

  /** The outcomes of the video datagrams among the results, in order. */
  function VideoOutcomes(results: seq<Inbound>): seq<Outcome> {
    if results == [] then []
    else
      var init, last := VideoOutcomes(results[..|results| - 1]), results[|results| - 1];
      if last.Video? then init + [last.outcome] else init
  }

  lemma ReceiveStep(a: Aead, c: Client, ds: seq<Bytes>, d: Bytes)
    ensures var before := ReceiveAll(a, c, ds);
            var (after, outcome) := Accept(a, before.client, d);
            ReceiveAll(a, c, ds + [d]) == Run(after, before.outcomes + [outcome])
  {
    assert (ds + [d])[..|ds|] == ds;
  }

  lemma OutcomesGrow(results: seq<Inbound>, result: Inbound)
    ensures VideoOutcomes(results + [result])
            == if result.Video? then VideoOutcomes(results) + [result.outcome] else VideoOutcomes(results)
  {
    assert (results + [result])[..|results|] == results;
  }

  /** On arbitrary bytes, whatever lies between them does not touch the video datagrams: they fare as if alone. */
  lemma {:induction false} VideoIsUndisturbed(a: Aead, c: Client, ds: seq<Bytes>)
    ensures DispatchAll(a, c, ds).0 == ReceiveAll(a, c, VideoPart(ds)).client
    ensures VideoOutcomes(DispatchAll(a, c, ds).1) == ReceiveAll(a, c, VideoPart(ds)).outcomes
  {
    if ds != [] {
      var init, d := ds[..|ds| - 1], ds[|ds| - 1];
      VideoIsUndisturbed(a, c, init);
      var (before, results) := DispatchAll(a, c, init);
      OutcomesGrow(results, Dispatch(a, before, d).1);
      if DecodeDatagram(d).Ok? {
        ReceiveStep(a, c, VideoPart(init), d);
      }
    }
  }

  datatype AnyItem = Frame(datagram: Bytes) | Note(kind: Control.Kind, message: Bytes)

  /** Something on its way to the client: a datagram, or a control message that fits an envelope. */
  type Item = i: AnyItem | i.Note? ==> |i.message| < Control.MAX_CONTROL_MESSAGE_SIZE
    witness Frame([])

  function Wire(item: Item): Bytes {
    match item
    case Frame(datagram) => datagram
    case Note(kind, message) =>
      Control.EnvelopeRoundTrip(kind, message);
      Control.EncodeEnvelope(kind, message).value
  }

  function Wires(items: seq<Item>): (ds: seq<Bytes>)
    ensures |ds| == |items| && forall i :: 0 <= i < |items| ==> ds[i] == Wire(items[i])
  {
    seq(|items|, i requires 0 <= i < |items| => Wire(items[i]))
  }

  /** Every video datagram is one the host sent. */
  ghost predicate FromHost(streamId: byte, sent: seq<Sent>, item: Item) {
    item.Frame? ==> Carried(streamId, sent, item.datagram)
  }

  /** Each item reaches its own handler, a message unchanged. */
  lemma ReachesItsHandler(a: Aead, c: Client, streamId: byte, sent: seq<Sent>, item: Item)
    requires FromHost(streamId, sent, item)
    ensures item.Frame? ==> DecodeDatagram(Wire(item)).Ok? && Dispatch(a, c, Wire(item)).1.Video?
    ensures item.Note? ==> Dispatch(a, c, Wire(item)) == (c, Message(item.kind, item.message))
  {
    match item
    case Frame(d) =>
      var j, i :| 0 <= j < |sent| && 0 <= i < |ChunksOf(sent[j])| && d == DatagramOf(streamId, sent[j], i);
      PacketFacts(streamId, sent[j], i);
    case Note(kind, message) =>
      Control.EnvelopeRoundTrip(kind, message);
      Control.ClassificationIsUnambiguous(Wire(item));
  }

  lemma DispatchAt(a: Aead, c: Client, ds: seq<Bytes>, k: nat)
    requires k < |ds|
    ensures DispatchAll(a, c, ds).1[k] == Dispatch(a, DispatchAll(a, c, ds[..k]).0, ds[k]).1
    decreases |ds|
  {
    var init := ds[..|ds| - 1];
    if k < |init| {
      DispatchAt(a, c, init, k);
      assert init[..k] == ds[..k];
    }
  }

  lemma NoteIsNotVideo(item: Item)
    requires item.Note?
    ensures DecodeDatagram(Wire(item)).Err?
  {
    Control.EnvelopeRoundTrip(item.kind, item.message);
    Control.ClassificationIsUnambiguous(Wire(item));
  }

  lemma {:induction false} VideoPartIsCarried(streamId: byte, sent: seq<Sent>, items: seq<Item>, ds: seq<Bytes>)
    requires (forall i :: 0 <= i < |items| ==> FromHost(streamId, sent, items[i])) && |ds| == |items|
    requires forall i :: 0 <= i < |items| ==> ds[i] == Wire(items[i])
    ensures forall d :: d in VideoPart(ds) ==> Carried(streamId, sent, d)
  {
    if ds != [] {
      var last := items[|items| - 1];
      assert FromHost(streamId, sent, last);
      VideoPartIsCarried(streamId, sent, items[..|items| - 1], ds[..|ds| - 1]);
      if last.Note? {
        NoteIsNotVideo(last);
      }
    }
  }

  /** What should become of an item. */
  predicate Handled(item: Item, result: Inbound) {
    if item.Note? then result == Message(item.kind, item.message) else result.Video?
  }

  lemma EachIsHandled(a: Aead, c: Client, streamId: byte, sent: seq<Sent>, items: seq<Item>, k: nat)
    requires k < |items| && FromHost(streamId, sent, items[k])
    ensures Handled(items[k], DispatchAll(a, c, Wires(items)).1[k])
  {
    var ds := Wires(items);
    DispatchAt(a, c, ds, k);
    ReachesItsHandler(a, DispatchAll(a, c, ds[..k]).0, streamId, sent, items[k]);
  }

  /**
   * The host's video datagrams, lost, duplicated and reordered, interleaved with any control messages: every message
   * arrives unchanged at the control side, every video datagram is absorbed or publishes a frame of the host, and the
   * video outcomes are those of the video datagrams alone.
   */
  lemma MixedTrafficIsHandled(
      a: Aead, key: Bytes, streamId: byte, nonces: NonceState, frames: seq<EncodedFrame>, items: seq<Item>)
    requires a.OpensWhatItSeals() && IncreasingIds(frames)
    requires var sent := SendAll(a, key, streamId, nonces, frames).1;
             forall i :: 0 <= i < |items| ==> FromHost(streamId, sent, items[i])
    ensures var ds, c := Wires(items), NewClient(key, nonces.domain);
            var results := DispatchAll(a, c, ds).1;
            && (forall k :: 0 <= k < |items| ==> Handled(items[k], results[k]))
            && VideoOutcomes(results) == ReceiveAll(a, c, VideoPart(ds)).outcomes
            && (forall o :: o in VideoOutcomes(results) ==>
                  o == Absorbed || (o.Published? && exists frame :: frame in frames && Shows(o.job, frame)))
  {
    var sent := SendAll(a, key, streamId, nonces, frames).1;
    var ds, c := Wires(items), NewClient(key, nonces.domain);
    VideoIsUndisturbed(a, c, ds);
    VideoPartIsCarried(streamId, sent, items, ds);
    HonestStreamNeverFails(a, key, streamId, nonces, frames, VideoPart(ds));
    forall k | 0 <= k < |items| ensures Handled(items[k], DispatchAll(a, c, ds).1[k]) {
      EachIsHandled(a, c, streamId, sent, items, k);
    }
  }
}
