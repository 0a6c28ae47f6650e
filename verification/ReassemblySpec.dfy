/**
 * What reassembly means, without counters: a table from frame id to the first bytes received for each
 * packet id. The reassembler, which keeps counters and option slots, refines it packet by packet.
 */
module ReassemblySpec {
  import opened Wrappers
  import opened Octets
  import opened VideoPacket
  import opened Reassembler

  datatype Frame = Frame(base: Header, slots: map<nat, Bytes>)

  datatype Table = Table(
    frames: map<u32, Frame>,
    maxInFlight: nat,
    maxFrameBytes: nat,
    lastAuthenticated: Option<u32>)

  /** The bytes held for the packets `i`, `i + 1`, .., `n - 1`. */
  function SlotBytes(slots: map<nat, Bytes>, i: nat, n: nat): nat
    decreases n - i
  {
    if i >= n then 0 else (if i in slots then |slots[i]| else 0) + SlotBytes(slots, i + 1, n)
  }

  /** Their concatenation in packet order. */
  function InOrder(slots: map<nat, Bytes>, i: nat, n: nat): Bytes
    decreases n - i
  {
    if i >= n then [] else (if i in slots then slots[i] else []) + InOrder(slots, i + 1, n)
  }

  predicate AllPresent(slots: map<nat, Bytes>, n: nat) {
    forall i :: 0 <= i < n ==> i in slots
  }

  /** One packet: the first bytes for a packet id win, an oversized frame is dropped, a full one is emitted. */
  function Receive(t: Table, h: Header, payload: Bytes): Step<Table> {
    if Malformed(h, payload).Some? then Step(t, Err(Malformed(h, payload).value))
    else if Stale(t.lastAuthenticated, h.frameId) then Step(t, Ok(None))
    else if h.packetCount == 1 then
      Step(t, Ok(if |payload| > t.maxFrameBytes then None else Some(Assembled(h, payload))))
    else
      var kept := MakeRoom(t.frames, t.maxInFlight, h.frameId);
      var base := if h.frameId in kept then kept[h.frameId].base else h;
      var known := if h.frameId in kept then kept[h.frameId].slots else map[];
      if base.packetCount != h.packetCount || !SameFrame(base, h) then Step(t, Err(InconsistentFragmentMetadata))
      else
        var slots := if h.packetId in known then known else known[h.packetId := payload];
        if SlotBytes(slots, 0, h.packetCount) > t.maxFrameBytes then Step(t.(frames := kept - {h.frameId}), Ok(None))
        else if AllPresent(slots, h.packetCount) then
          Step(t.(frames := kept - {h.frameId}), Ok(Some(Assembled(Complete(base), InOrder(slots, 0, h.packetCount)))))
        else Step(t.(frames := kept[h.frameId := Frame(base, slots)]), Ok(None))
  }

  ghost function SlotsOf(ps: seq<Option<Bytes>>): map<nat, Bytes> {
    map i: nat | i < |ps| && ps[i].Some? :: ps[i].value
  }

  ghost function FramesOf(frames: map<u32, InFlight>): map<u32, Frame> {
    map id | id in frames :: Frame(frames[id].base, SlotsOf(frames[id].packets))
  }

  ghost function TableOf(s: State): Table {
    Table(FramesOf(s.frames), s.maxInFlight, s.maxFrameBytes, s.lastAuthenticated)
  }

  lemma {:induction false} SlotsAgree(ps: seq<Option<Bytes>>, i: nat)
    requires i <= |ps|
    ensures SlotBytes(SlotsOf(ps), i, |ps|) == TotalBytes(ps[i..])
    ensures InOrder(SlotsOf(ps), i, |ps|) == Join(ps[i..])
    decreases |ps| - i
  {
    if i < |ps| {
      SlotsAgree(ps, i + 1);
      assert ps[i..][1..] == ps[i + 1..];
    }
  }

  lemma MakeRoomAgrees(frames: map<u32, InFlight>, maxInFlight: nat, frameId: u32)
    ensures FramesOf(MakeRoom(frames, maxInFlight, frameId)) == MakeRoom(FramesOf(frames), maxInFlight, frameId)
  {
    assert FramesOf(frames).Keys == frames.Keys;
    assert |FramesOf(frames)| == |frames|;
  }

  lemma FillAgrees(ps: seq<Option<Bytes>>, i: nat, payload: Bytes)
    requires i < |ps| && ps[i].None?
    ensures SlotsOf(ps[i := Some(payload)]) == SlotsOf(ps)[i := payload]
  {
  }

  lemma PresenceAgrees(ps: seq<Option<Bytes>>)
    ensures Received(ps) == |ps| <==> AllPresent(SlotsOf(ps), |ps|)
  {
    FullSlots(ps);
    assert forall i :: 0 <= i < |ps| ==> (i in SlotsOf(ps) <==> ps[i].Some?);
  }

  lemma BlankAgrees(h: Header)
    ensures SlotsOf(EntryFor(map[], h).packets) == map[]
  {
  }

  lemma RemoveAgrees(frames: map<u32, InFlight>, kept: map<u32, InFlight>, id: u32, e: InFlight)
    requires frames == kept[id := e]
    ensures FramesOf(frames - {id}) == FramesOf(kept) - {id}
  {
  }

  lemma UpdateAgrees(frames: map<u32, InFlight>, kept: map<u32, InFlight>, id: u32, d: InFlight, e: InFlight)
    requires frames == kept[id := d]
    ensures FramesOf(frames[id := e]) == FramesOf(kept)[id := Frame(e.base, SlotsOf(e.packets))]
  {
  }

  /** The settled entry, seen as a table step. */
  lemma SettleRefines(s: State, kept: map<u32, InFlight>, id: u32, d: InFlight, e: InFlight)
    requires s.frames == kept[id := d]
    requires e.received == Received(e.packets)
    ensures var n := |e.packets|;
            var slots := SlotsOf(e.packets);
            var step := Settle(s, id, e);
            if AllPresent(slots, n) then
              && TableOf(step.next) == TableOf(s).(frames := FramesOf(kept) - {id})
              && step.outcome == Ok(Some(Assembled(Complete(e.base), InOrder(slots, 0, n))))
            else
              && TableOf(step.next) == TableOf(s).(frames := FramesOf(kept)[id := Frame(e.base, slots)])
              && step.outcome == Ok(None)
  {
    PresenceAgrees(e.packets);
    SlotsAgree(e.packets, 0);
    assert e.packets[0..] == e.packets;
    RemoveAgrees(s.frames, kept, id, d);
    UpdateAgrees(s.frames, kept, id, d, e);
  }

  /** The reassembler refines the counter-free table: same outcome, same table, for every packet. */
  lemma ReassemblerRefinesTable(s: State, h: Header, payload: Bytes)
    requires Valid(s)
    ensures TableOf(ProcessPacket(s, h, payload).next) == Receive(TableOf(s), h, payload).next
    ensures ProcessPacket(s, h, payload).outcome == Receive(TableOf(s), h, payload).outcome
  {
    if Malformed(h, payload).None? && !Stale(s.lastAuthenticated, h.frameId) && h.packetCount != 1 {
      var kept := MakeRoom(s.frames, s.maxInFlight, h.frameId);
      var entry := EntryFor(kept, h);
      MakeRoomAgrees(s.frames, s.maxInFlight, h.frameId);
      OpenEntry(s, h);
      BlankAgrees(h);
      if SameFragmentation(entry, h) {
        AddFragmentRefines(s, kept, entry, h, payload);
      } else {
        ProcessKeepsValid(s, h, payload);
      }
    }
  }

  lemma AddFragmentRefines(s: State, kept: map<u32, InFlight>, entry: InFlight, h: Header, payload: Bytes)
    requires Valid(s.(frames := kept[h.frameId := entry])) && h.packetId < h.packetCount
    requires SameFragmentation(entry, h)
    ensures var open := s.(frames := kept[h.frameId := entry]);
            var known := SlotsOf(entry.packets);
            var slots := if h.packetId in known then known else known[h.packetId := payload];
            var step := AddFragment(open, entry, h, payload);
            if SlotBytes(slots, 0, h.packetCount) > s.maxFrameBytes then
              TableOf(step.next) == TableOf(s).(frames := FramesOf(kept) - {h.frameId}) && step.outcome == Ok(None)
            else if AllPresent(slots, h.packetCount) then
              && TableOf(step.next) == TableOf(s).(frames := FramesOf(kept) - {h.frameId})
              && step.outcome == Ok(Some(Assembled(Complete(entry.base), InOrder(slots, 0, h.packetCount))))
            else
              && TableOf(step.next) == TableOf(s).(frames := FramesOf(kept)[h.frameId := Frame(entry.base, slots)])
              && step.outcome == Ok(None)
  {
    var open := s.(frames := kept[h.frameId := entry]);
    assert ValidEntry(h.frameId, open.frames[h.frameId], s.maxFrameBytes);
    if entry.packets[h.packetId].Some? {
      SlotsAgree(entry.packets, 0);
      assert entry.packets[0..] == entry.packets;
      SettleRefines(open, kept, h.frameId, entry, entry);
    } else {
      var filled := Fill(entry, h.packetId, payload);
      FillSlot(entry.packets, h.packetId, payload);
      FillAgrees(entry.packets, h.packetId, payload);
      SlotsAgree(filled.packets, 0);
      assert filled.packets[0..] == filled.packets;
      if filled.totalBytes > s.maxFrameBytes {
        RemoveAgrees(open.frames, kept, h.frameId, entry);
      } else {
        SettleRefines(open, kept, h.frameId, entry, filled);
      }
    }
  }

  // ---- Whole runs --------------------------------------------------------------------------

  /** What a receiver does with a reassembler: process a packet, or commit an authenticated frame. */
  datatype Event = Packet(header: Header, payload: Bytes) | Authenticated(frameId: u32)

  datatype Reply = Processed(outcome: Result<Option<Assembled>, ReassemblyError>) | Committed(isFresh: bool)

  /** Committing forgets every older frame, or refuses a stale id. */
  function CommitTable(t: Table, frameId: u32): (Table, bool) {
    if Stale(t.lastAuthenticated, frameId) then (t, false)
    else
      (t.(lastAuthenticated := Some(frameId), frames := map k | k in t.frames && k >= frameId :: t.frames[k]), true)
  }

  function Replies(maxInFlight: nat, maxFrameBytes: nat, events: seq<Event>): (State, seq<Reply>) {
    if events == [] then (New(maxInFlight, maxFrameBytes), [])
    else
      var (s, replies) := Replies(maxInFlight, maxFrameBytes, events[..|events| - 1]);
      match events[|events| - 1]
      case Packet(h, payload) =>
        var step := ProcessPacket(s, h, payload);
        (step.next, replies + [Processed(step.outcome)])
      case Authenticated(frameId) =>
        var (next, isFresh) := Commit(s, frameId);
        (next, replies + [Committed(isFresh)])
  }

  function TableReplies(maxInFlight: nat, maxFrameBytes: nat, events: seq<Event>): (Table, seq<Reply>) {
    if events == [] then (Table(map[], if maxInFlight == 0 then 1 else maxInFlight, maxFrameBytes, None), [])
    else
      var (t, replies) := TableReplies(maxInFlight, maxFrameBytes, events[..|events| - 1]);
      match events[|events| - 1]
      case Packet(h, payload) =>
        var step := Receive(t, h, payload);
        (step.next, replies + [Processed(step.outcome)])
      case Authenticated(frameId) =>
        var (next, isFresh) := CommitTable(t, frameId);
        (next, replies + [Committed(isFresh)])
  }

  lemma CommitRefines(s: State, frameId: u32)
    ensures (TableOf(Commit(s, frameId).0), Commit(s, frameId).1) == CommitTable(TableOf(s), frameId)
  {
    var (next, isFresh) := Commit(s, frameId);
    if isFresh {
      assert FramesOf(next.frames) == CommitTable(TableOf(s), frameId).0.frames;
    }
  }

  /** From a new reassembler, every sequence of packets and commits gets the replies of the table. */
  lemma {:induction false} EveryRunRefines(maxInFlight: nat, maxFrameBytes: nat, events: seq<Event>)
    ensures Valid(Replies(maxInFlight, maxFrameBytes, events).0)
    ensures TableOf(Replies(maxInFlight, maxFrameBytes, events).0) == TableReplies(maxInFlight, maxFrameBytes, events).0
    ensures Replies(maxInFlight, maxFrameBytes, events).1 == TableReplies(maxInFlight, maxFrameBytes, events).1
  {
    if events == [] {
      NewStateIsValid(maxInFlight, maxFrameBytes);
      assert FramesOf(map[]) == map[];
    } else {
      EveryRunRefines(maxInFlight, maxFrameBytes, events[..|events| - 1]);
      var s := Replies(maxInFlight, maxFrameBytes, events[..|events| - 1]).0;
      match events[|events| - 1]
      case Packet(h, payload) =>
        ProcessKeepsValid(s, h, payload);
        ReassemblerRefinesTable(s, h, payload);
      case Authenticated(frameId) =>
        CommitKeepsValid(s, frameId);
        CommitRefines(s, frameId);
    }
  }
}
