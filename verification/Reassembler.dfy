/** The bounded in-flight frame assembler of the client. */
module Reassembler {
  import opened Wrappers
  import opened Octets
  import opened Sets
  import opened VideoPacket
  import opened Packetizer

  const MAX_IN_FLIGHT_FRAMES := 8

  datatype ReassemblyError =
    | InvalidPacketId(packetId: u16, packetCount: u16)
    | TooManyPackets(count: u16, max: nat)
    | PayloadLengthMismatch(declared: u16, actual: nat)
    | InvalidBoundaryFlags
    | InconsistentFragmentMetadata

  /** A complete frame; its `assembled_len` is `|payload|`. */
  datatype Assembled = Assembled(header: Header, payload: Bytes)

  datatype InFlight = InFlight(base: Header, packets: seq<Option<Bytes>>, received: nat, totalBytes: nat)

  datatype State = State(
    frames: map<u32, InFlight>,
    maxInFlight: nat,
    maxFrameBytes: nat,
    lastAuthenticated: Option<u32>)

  datatype Step<S> = Step(next: S, outcome: Result<Option<Assembled>, ReassemblyError>)

  function New(maxInFlight: nat, maxFrameBytes: nat): State {
    State(map[], if maxInFlight == 0 then 1 else maxInFlight, maxFrameBytes, None)
  }

  // ---- Slots -------------------------------------------------------------------------------

  function Received(ps: seq<Option<Bytes>>): (n: nat)
    ensures n <= |ps|
  {
    if ps == [] then 0 else (if ps[0].Some? then 1 else 0) + Received(ps[1..])
  }

  function TotalBytes(ps: seq<Option<Bytes>>): nat {
    if ps == [] then 0 else (if ps[0].Some? then |ps[0].value| else 0) + TotalBytes(ps[1..])
  }

  /** The filled slots concatenated in packet order. */
  function Join(ps: seq<Option<Bytes>>): Bytes {
    if ps == [] then [] else (if ps[0].Some? then ps[0].value else []) + Join(ps[1..])
  }

  lemma {:induction false} FillSlot(ps: seq<Option<Bytes>>, i: nat, payload: Bytes)
    requires i < |ps| && ps[i].None?
    ensures Received(ps[i := Some(payload)]) == Received(ps) + 1
    ensures TotalBytes(ps[i := Some(payload)]) == TotalBytes(ps) + |payload|
  {
    var qs := ps[i := Some(payload)];
    if i == 0 {
      assert qs[1..] == ps[1..];
    } else {
      assert qs[1..] == ps[1..][i - 1 := Some(payload)];
      FillSlot(ps[1..], i - 1, payload);
    }
  }

  lemma {:induction false} EmptySlots(ps: seq<Option<Bytes>>)
    requires forall i :: 0 <= i < |ps| ==> ps[i].None?
    ensures Received(ps) == 0 && TotalBytes(ps) == 0
  {
    if ps != [] {
      EmptySlots(ps[1..]);
    }
  }

  lemma {:induction false} FullSlots(ps: seq<Option<Bytes>>)
    ensures Received(ps) == |ps| <==> forall i :: 0 <= i < |ps| ==> ps[i].Some?
  {
    if ps != [] {
      FullSlots(ps[1..]);
      assert forall i :: 1 <= i < |ps| ==> ps[i] == ps[1..][i - 1];
      assert (forall i :: 0 <= i < |ps| ==> ps[i].Some?) ==> forall i :: 0 <= i < |ps[1..]| ==> ps[1..][i] == ps[i + 1];
    }
  }

  // ---- One packet --------------------------------------------------------------------------

  /** The structural checks every packet passes before any state is looked at. */
  function Malformed(h: Header, payload: Bytes): Option<ReassemblyError> {
    if h.packetCount == 0 || h.packetCount > MAX_PACKETS_PER_FRAME then
      Some(ReassemblyError.TooManyPackets(h.packetCount, MAX_PACKETS_PER_FRAME))
    else if h.packetId >= h.packetCount then Some(InvalidPacketId(h.packetId, h.packetCount))
    else if h.payloadLen != |payload| then Some(ReassemblyError.PayloadLengthMismatch(h.payloadLen, |payload|))
    else if h.packetId == 0 && !IsStart(h.flags) then Some(InvalidBoundaryFlags)
    else if h.packetId == h.packetCount - 1 && !IsEnd(h.flags) then Some(InvalidBoundaryFlags)
    else None
  }

  /** What may be wrong with a packet by itself. */
  predicate Breaks(h: Header, payload: Bytes, e: ReassemblyError) {
    match e
    case TooManyPackets(count, max) =>
      count == h.packetCount && max == MAX_PACKETS_PER_FRAME && !(1 <= h.packetCount <= MAX_PACKETS_PER_FRAME)
    case InvalidPacketId(id, count) => id == h.packetId && count == h.packetCount && h.packetCount <= h.packetId
    case PayloadLengthMismatch(declared, actual) =>
      declared == h.payloadLen && actual == |payload| && h.payloadLen != |payload|
    case InvalidBoundaryFlags =>
      (h.packetId == 0 && !IsStart(h.flags)) || (h.packetId + 1 == h.packetCount && !IsEnd(h.flags))
    case InconsistentFragmentMetadata => false
  }

  /** In which order the faults are reported. */
  function Precedence(e: ReassemblyError): nat {
    match e
    case TooManyPackets(_, _) => 0
    case InvalidPacketId(_, _) => 1
    case PayloadLengthMismatch(_, _) => 2
    case InvalidBoundaryFlags => 3
    case InconsistentFragmentMetadata => 4
  }

  /** A packet is reported malformed exactly when something is wrong with it, and then with the first such fault. */
  lemma MalformedExactly(h: Header, payload: Bytes, e: ReassemblyError)
    ensures Malformed(h, payload).None? <==> forall d :: !Breaks(h, payload, d)
    ensures Malformed(h, payload) == Some(e) <==>
              Breaks(h, payload, e) && forall d :: Breaks(h, payload, d) ==> Precedence(e) <= Precedence(d)
  {
    var fault := Malformed(h, payload);
    assert fault.Some? ==> Breaks(h, payload, fault.value);
  }

  predicate Stale(last: Option<u32>, frameId: u32) {
    last.Some? && frameId <= last.value
  }

  /** What fragments of one frame must agree on. */
  predicate SameFrame(base: Header, h: Header) {
    && base.streamId == h.streamId
    && base.version == h.version
    && base.timestampUs == h.timestampUs
    && base.nonceSequence == h.nonceSequence
    && IsKeyframe(base.flags) == IsKeyframe(h.flags)
  }

  lemma {:induction false} Minimum(keys: set<u32>) returns (k: u32)
    requires keys != {}
    ensures k in keys && forall j :: j in keys ==> k <= j
  {
    k :| k in keys;
    if keys != {k} {
      assert keys == (keys - {k}) + {k};
      var m := Minimum(keys - {k});
      k := if m < k then m else k;
    }
  }

  /** The first key of the ordered map. */
  function Oldest(keys: set<u32>): (k: u32)
    requires keys != {}
    ensures k in keys && forall j :: j in keys ==> k <= j
  {
    assert exists k :: k in keys && forall j :: j in keys ==> k <= j by {
      var m := Minimum(keys);
    }
    var k :| k in keys && forall j :: j in keys ==> k <= j;
    k
  }

  /** Evicts the oldest frame when the table is full and `frameId` is new. */
  function MakeRoom<T>(frames: map<u32, T>, maxInFlight: nat, frameId: u32): map<u32, T> {
    if |frames| >= maxInFlight && frameId !in frames && frames.Keys != {} then frames - {Oldest(frames.Keys)}
    else frames
  }

  /** `entry(frame_id).or_insert_with(..)`. */
  function EntryFor(frames: map<u32, InFlight>, h: Header): InFlight {
    if h.frameId in frames then frames[h.frameId] else InFlight(h, seq(h.packetCount, _ => None), 0, 0)
  }

  /** `process_packet`. */
  function ProcessPacket(s: State, h: Header, payload: Bytes): Step<State> {
    if Malformed(h, payload).Some? then Step(s, Err(Malformed(h, payload).value))
    else if Stale(s.lastAuthenticated, h.frameId) then Step(s, Ok(None))
    else if h.packetCount == 1 then
      Step(s, Ok(if |payload| > s.maxFrameBytes then None else Some(Assembled(h, payload))))
    else
      var kept := MakeRoom(s.frames, s.maxInFlight, h.frameId);
      var entry := EntryFor(kept, h);
      AddFragment(s.(frames := kept[h.frameId := entry]), entry, h, payload)
  }

  predicate SameFragmentation(entry: InFlight, h: Header) {
    |entry.packets| == h.packetCount && SameFrame(entry.base, h)
  }

  /** The middle of `process_packet`: the frame's entry is in the table and receives the fragment. */
  function AddFragment(s: State, entry: InFlight, h: Header, payload: Bytes): Step<State>
    requires h.packetId < h.packetCount
  {
    if !SameFragmentation(entry, h) then Step(s, Err(InconsistentFragmentMetadata))
    else if entry.packets[h.packetId].Some? then Settle(s, h.frameId, entry)
    else if entry.totalBytes + |payload| > s.maxFrameBytes then Step(s.(frames := s.frames - {h.frameId}), Ok(None))
    else Settle(s, h.frameId, Fill(entry, h.packetId, payload))
  }

  function Fill(entry: InFlight, packetId: nat, payload: Bytes): InFlight
    requires packetId < |entry.packets|
  {
    InFlight(entry.base, entry.packets[packetId := Some(payload)], entry.received + 1, entry.totalBytes + |payload|)
  }

  /** The tail of `process_packet`: emit the frame when its counter is full, keep it otherwise. */
  function Settle(s: State, frameId: u32, entry: InFlight): Step<State> {
    if entry.received == |entry.packets| then
      Step(s.(frames := s.frames - {frameId}), Ok(Some(Assembled(Complete(entry.base), Join(entry.packets)))))
    else Step(s.(frames := s.frames[frameId := entry]), Ok(None))
  }

  /** The header of an assembled frame: that of the fragment that came first, with both boundary flags. */
  function Complete(base: Header): Header {
    base.(flags := SetEnd(SetStart(base.flags)))
  }

  /** `commit_authenticated_frame` with `prune_stale_before`: whether the frame was fresh. */
  function Commit(s: State, frameId: u32): (State, bool) {
    if Stale(s.lastAuthenticated, frameId) then (s, false)
    else
      (s.(lastAuthenticated := Some(frameId), frames := map k | k in s.frames && k >= frameId :: s.frames[k]), true)
  }

  // ---- Invariant ---------------------------------------------------------------------------

  /** The counters of an entry are those of its slots, and the entry is within bounds and incomplete. */
  ghost predicate ValidEntry(frameId: u32, e: InFlight, maxFrameBytes: nat) {
    && e.base.frameId == frameId
    && 2 <= |e.packets| == e.base.packetCount <= MAX_PACKETS_PER_FRAME
    && e.received == Received(e.packets) < |e.packets|
    && e.totalBytes == TotalBytes(e.packets) <= maxFrameBytes
  }

  /** The watermark is not strict: `prune_stale_before` keeps an entry with the committed id (see `Watermark`). */
  ghost predicate Valid(s: State) {
    && 1 <= s.maxInFlight
    && |s.frames| <= s.maxInFlight
    && (forall id :: id in s.frames ==> ValidEntry(id, s.frames[id], s.maxFrameBytes))
    && (forall id :: id in s.frames && s.lastAuthenticated.Some? ==> s.lastAuthenticated.value <= id)
  }

  lemma InsertSize<T>(m: map<u32, T>, key: u32, value: T)
    ensures |m[key := value]| == if key in m then |m| else |m| + 1
  {
    assert m[key := value].Keys == m.Keys + {key};
  }

  lemma RemoveSize<T>(m: map<u32, T>, key: u32)
    requires key in m
    ensures |m - {key}| == |m| - 1
  {
    assert (m - {key}).Keys == m.Keys - {key};
  }

  /** After making room there is space for one more frame. */
  lemma RoomForOne<T>(frames: map<u32, T>, maxInFlight: nat, frameId: u32, entry: T)
    requires 1 <= maxInFlight && |frames| <= maxInFlight
    ensures |MakeRoom(frames, maxInFlight, frameId)[frameId := entry]| <= maxInFlight
  {
    var kept := MakeRoom(frames, maxInFlight, frameId);
    InsertSize(kept, frameId, entry);
    if frameId !in frames && |frames| >= maxInFlight {
      RemoveSize(frames, Oldest(frames.Keys));
    }
  }

  lemma NewStateIsValid(maxInFlight: nat, maxFrameBytes: nat)
    ensures Valid(New(maxInFlight, maxFrameBytes))
  {
  }

  /** Making room for a fresh multi-packet frame and opening its entry keeps the invariant. */
  lemma OpenEntry(s: State, h: Header)
    requires Valid(s) && !Stale(s.lastAuthenticated, h.frameId) && 2 <= h.packetCount <= MAX_PACKETS_PER_FRAME
    ensures var kept := MakeRoom(s.frames, s.maxInFlight, h.frameId);
            var frames := kept[h.frameId := EntryFor(kept, h)];
            && Valid(s.(frames := frames))
            && (h.frameId in kept <==> h.frameId in s.frames)
            && (h.frameId in kept ==> frames == s.frames)
  {
    var kept := MakeRoom(s.frames, s.maxInFlight, h.frameId);
    var entry := EntryFor(kept, h);
    RoomForOne(s.frames, s.maxInFlight, h.frameId, entry);
    if h.frameId in s.frames {
      assert kept[h.frameId := entry] == s.frames;
    } else {
      EmptySlots(entry.packets);
    }
  }

  lemma SettleKeepsValid(s: State, frameId: u32, entry: InFlight)
    requires Valid(s) && frameId in s.frames
    requires entry.received < |entry.packets| ==> ValidEntry(frameId, entry, s.maxFrameBytes)
    requires entry.received <= |entry.packets|
    ensures Valid(Settle(s, frameId, entry).next)
  {
    RemoveKeepsValid(s, frameId);
    assert s.frames[frameId := entry].Keys == s.frames.Keys;
  }

  lemma RemoveKeepsValid(s: State, frameId: u32)
    requires Valid(s)
    ensures Valid(s.(frames := s.frames - {frameId}))
  {
    SubsetSize((s.frames - {frameId}).Keys, s.frames.Keys);
  }

  lemma AddFragmentKeepsValid(s: State, h: Header, payload: Bytes)
    requires Valid(s) && h.packetId < h.packetCount && h.frameId in s.frames
    ensures Valid(AddFragment(s, s.frames[h.frameId], h, payload).next)
    ensures AddFragment(s, s.frames[h.frameId], h, payload).outcome.Err? ==>
              AddFragment(s, s.frames[h.frameId], h, payload).next == s && !SameFragmentation(s.frames[h.frameId], h)
  {
    var entry := s.frames[h.frameId];
    RemoveKeepsValid(s, h.frameId);
    if SameFragmentation(entry, h) {
      if entry.packets[h.packetId].Some? {
        SettleKeepsValid(s, h.frameId, entry);
      } else if entry.totalBytes + |payload| <= s.maxFrameBytes {
        FillSlot(entry.packets, h.packetId, payload);
        SettleKeepsValid(s, h.frameId, Fill(entry, h.packetId, payload));
      }
    }
  }

  /** Every packet keeps the invariant, and a rejected packet leaves the state untouched: an
      inconsistency can only be found against an existing entry, so it never follows an eviction. */
  lemma ProcessKeepsValid(s: State, h: Header, payload: Bytes)
    requires Valid(s)
    ensures Valid(ProcessPacket(s, h, payload).next)
    ensures ProcessPacket(s, h, payload).outcome.Err? ==> ProcessPacket(s, h, payload).next == s
  {
    if Malformed(h, payload).None? && !Stale(s.lastAuthenticated, h.frameId) && h.packetCount != 1 {
      OpenEntry(s, h);
      var kept := MakeRoom(s.frames, s.maxInFlight, h.frameId);
      AddFragmentKeepsValid(s.(frames := kept[h.frameId := EntryFor(kept, h)]), h, payload);
    }
  }

  /** Room is made exactly when the table is full and the frame is new, and then by the smallest id alone. */
  lemma MakeRoomExactly(frames: map<u32, InFlight>, maxInFlight: nat, frameId: u32, id: u32)
    ensures id in MakeRoom(frames, maxInFlight, frameId) <==>
              && id in frames
              && !(|frames| >= maxInFlight && frameId !in frames && forall k :: k in frames ==> id <= k)
    ensures id in MakeRoom(frames, maxInFlight, frameId) ==>
              MakeRoom(frames, maxInFlight, frameId)[id] == frames[id]
  {
  }

  /** A completed frame is flagged as starting and ending, and agrees with the packet that completed it on everything
      that is authenticated. */
  lemma AssembledIsComplete(s: State, h: Header, payload: Bytes)
    requires ProcessPacket(s, h, payload).outcome.Ok? && ProcessPacket(s, h, payload).outcome.value.Some?
    ensures var f := ProcessPacket(s, h, payload).outcome.value.value;
            IsStart(f.header.flags) && IsEnd(f.header.flags) && SameFrame(f.header, h)
  {
  }

  /** Committing keeps the invariant, and answers false exactly for a stale id. */
  lemma CommitKeepsValid(s: State, frameId: u32)
    requires Valid(s)
    ensures Valid(Commit(s, frameId).0)
    ensures Commit(s, frameId).1 <==> !Stale(s.lastAuthenticated, frameId)
    ensures Commit(s, frameId).1 ==> Commit(s, frameId).0.lastAuthenticated == Some(frameId)
  {
    SubsetSize(Commit(s, frameId).0.frames.Keys, s.frames.Keys);
  }

  // ---- The mutable assembler ---------------------------------------------------------------

  class VideoFrameReassembler {
    var frames: map<u32, InFlight>
    const maxInFlight: nat
    const maxFrameBytes: nat
    var lastAuthenticated: Option<u32>

    function Contents(): State
      reads this
    {
      State(frames, maxInFlight, maxFrameBytes, lastAuthenticated)
    }

    constructor (maxInFlight: nat, maxFrameBytes: nat)
      ensures Contents() == New(maxInFlight, maxFrameBytes) && Valid(Contents())
    {
      this.frames := map[];
      this.maxInFlight := if maxInFlight == 0 then 1 else maxInFlight;
      this.maxFrameBytes := maxFrameBytes;
      this.lastAuthenticated := None;
    }

    method Process(h: Header, payload: Bytes) returns (r: Result<Option<Assembled>, ReassemblyError>)
      requires Valid(Contents())
      modifies this
      ensures Valid(Contents())
      ensures Step(Contents(), r) == ProcessPacket(old(Contents()), h, payload)
      ensures r.Err? ==> Contents() == old(Contents())
    {
      ProcessKeepsValid(Contents(), h, payload);
      var malformed := Malformed(h, payload);
      if malformed.Some? {
        return Err(malformed.value);
      }
      if Stale(lastAuthenticated, h.frameId) {
        return Ok(None);
      }
      if h.packetCount == 1 {
        return Ok(if |payload| > maxFrameBytes then None else Some(Assembled(h, payload)));
      }
      OpenFrame(h);
      r := AddTo(frames[h.frameId], h, payload);
    }

    /** Evicts the oldest frame if need be, and inserts an entry for a frame that has none. */
    method OpenFrame(h: Header)
      modifies this`frames
      ensures var kept := MakeRoom(old(frames), maxInFlight, h.frameId); frames == kept[h.frameId := EntryFor(kept, h)]
    {
      if |frames| >= maxInFlight && h.frameId !in frames && frames.Keys != {} {
        frames := frames - {Oldest(frames.Keys)};
      }
      if h.frameId !in frames {
        frames := frames[h.frameId := EntryFor(frames, h)];
      }
    }

    /** The part of `process_packet` after the frame's entry has been found or inserted. */
    method AddTo(entry: InFlight, h: Header, payload: Bytes)
      returns (r: Result<Option<Assembled>, ReassemblyError>)
      requires h.packetId < h.packetCount && h.frameId in frames && frames[h.frameId] == entry
      modifies this
      ensures Step(Contents(), r) == AddFragment(old(Contents()), entry, h, payload)
    {
      if !SameFragmentation(entry, h) {
        return Err(InconsistentFragmentMetadata);
      }
      var updated := entry;
      if entry.packets[h.packetId].None? {
        if entry.totalBytes + |payload| > maxFrameBytes {
          frames := frames - {h.frameId};
          return Ok(None);
        }
        updated := Fill(entry, h.packetId, payload);
      }
      frames := frames[h.frameId := updated];
      if updated.received == |updated.packets| {
        assert old(frames) - {h.frameId} == frames - {h.frameId};
        frames := frames - {h.frameId};
        var payload := JoinSlots(updated.packets);
        r := Ok(Some(Assembled(Complete(updated.base), payload)));
      } else {
        r := Ok(None);
      }
    }

    method CommitAuthenticatedFrame(frameId: u32) returns (isFresh: bool)
      requires Valid(Contents())
      modifies this
      ensures Valid(Contents())
      ensures (Contents(), isFresh) == Commit(old(Contents()), frameId)
    {
      CommitKeepsValid(Contents(), frameId);
      if Stale(lastAuthenticated, frameId) {
        return false;
      }
      lastAuthenticated := Some(frameId);
      PruneStaleBefore(frameId);
      isFresh := true;
    }

    method PruneStaleBefore(frameId: u32)
      modifies this`frames
      ensures frames == map k | k in old(frames) && k >= frameId :: old(frames)[k]
    {
      var stale := set k | k in frames && k < frameId;
      while stale != {}
        invariant stale == set k | k in frames && k < frameId
        invariant frames.Keys <= old(frames).Keys
        invariant forall k :: k in old(frames) && k >= frameId ==> k in frames
        invariant forall k :: k in frames ==> frames[k] == old(frames)[k]
        decreases stale
      {
        var key :| key in stale;
        frames := frames - {key};
        stale := stale - {key};
      }
      forall k | k in frames ensures k >= frameId {
        assert k !in stale;
      }
    }
  }

  /** The final concatenation loop of `process_packet`. */
  method JoinSlots(ps: seq<Option<Bytes>>) returns (full: Bytes)
    ensures full == Join(ps)
  {
    full := [];
    for i := 0 to |ps|
      invariant full + Join(ps[i..]) == Join(ps)
    {
      assert ps[i..][1..] == ps[i + 1..];
      if ps[i].Some? {
        full := full + ps[i].value;
      }
    }
  }
}
