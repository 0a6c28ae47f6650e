/** The tamper-evident audit log: hash chaining, verification, and what the head hash commits to. */
module AuditChain {
  import opened Wrappers
  import opened Octets

  const HASH_LEN := 64

  /** The two functions the chain is built on: the hexadecimal digest of some bytes, and the canonical
      bytes of an event, which serialisation may fail to produce. */
  datatype Hashing<!E> = Hashing(digest: Bytes -> Bytes, canonical: E -> Option<Bytes>)
  {
    /** A digest is always 64 hexadecimal characters long. Nothing is assumed about collisions. */
    ghost predicate HexDigests() {
      forall x :: |digest(x)| == HASH_LEN
    }
  }

  datatype ChainedEvent<E> = ChainedEvent(sequence: u64, event: E, previousHash: Bytes, hash: Bytes)

  datatype ChainError =
    | NonMonotonicSequence(expectedSequence: u64, actualSequence: u64)
    | HashMismatch(sequence: u64, expected: Bytes, actual: Bytes)
    | PreviousHashMismatch(sequence: u64, expected: Bytes, actual: Bytes)
    | SerializationError

  /** What is hashed: sequence, canonical bytes and previous hash, back to back. */
  function Preimage(sequence: u64, canonical: Bytes, previousHash: Bytes): Bytes {
    ToBE(sequence, 8) + canonical + previousHash
  }

  /** `compute_event_hash`. */
  function EventHash<E>(h: Hashing<E>, sequence: u64, event: E, previousHash: Bytes): Option<Bytes> {
    match h.canonical(event)
    case None => None
    case Some(bytes) => Some(h.digest(Preimage(sequence, bytes, previousHash)))
  }

  /** The hash the next event must link to. */
  function Head<E>(genesis: Bytes, events: seq<ChainedEvent<E>>): Bytes {
    if events == [] then genesis else events[|events| - 1].hash
  }

  // ---- Verification ------------------------------------------------------------------------

  /** Event `i` carries its position, links to its predecessor and hashes correctly. */
  predicate Linked<E>(h: Hashing<E>, genesis: Bytes, events: seq<ChainedEvent<E>>, i: nat)
    requires i < |events| <= U64_MAX
  {
    && events[i].sequence == i + 1
    && events[i].previousHash == Head(genesis, events[..i])
    && EventHash(h, events[i].sequence, events[i].event, events[i].previousHash) == Some(events[i].hash)
  }

  ghost predicate Chained<E>(h: Hashing<E>, genesis: Bytes, events: seq<ChainedEvent<E>>) {
    |events| <= U64_MAX && forall i :: 0 <= i < |events| ==> Linked(h, genesis, events, i)
  }

  /** Why event `i` is rejected, in the order of the checks. */
  ghost predicate Explains<E>(e: ChainError, h: Hashing<E>, genesis: Bytes, events: seq<ChainedEvent<E>>, i: nat)
    requires i < |events| <= U64_MAX
  {
    var c := events[i];
    match e
    case NonMonotonicSequence(expected, actual) => expected == i + 1 && actual == c.sequence && expected != actual
    case PreviousHashMismatch(sequence, expected, actual) =>
      && c.sequence == i + 1 == sequence
      && expected == Head(genesis, events[..i]) && actual == c.previousHash && expected != actual
    case SerializationError =>
      c.sequence == i + 1 && c.previousHash == Head(genesis, events[..i]) && h.canonical(c.event).None?
    case HashMismatch(sequence, expected, actual) =>
      && c.sequence == i + 1 == sequence && c.previousHash == Head(genesis, events[..i])
      && EventHash(h, sequence, c.event, c.previousHash) == Some(expected) && actual == c.hash && expected != actual
  }

  /** `verify_chain`: accepts exactly the chained logs, and otherwise explains the first broken event.
      A slice is never longer than a 64-bit count. */
  method VerifyChain<E>(h: Hashing<E>, events: seq<ChainedEvent<E>>, genesis: Bytes)
    returns (r: Result<(), ChainError>, ghost broken: nat)
    requires |events| <= U64_MAX
    ensures r.Ok? <==> Chained(h, genesis, events)
    ensures r.Err? ==>
              && broken < |events| && !Linked(h, genesis, events, broken)
              && (forall i :: 0 <= i < broken ==> Linked(h, genesis, events, i))
              && Explains(r.error, h, genesis, events, broken)
  {
    for i := 0 to |events|
      invariant forall k :: 0 <= k < i ==> Linked(h, genesis, events, k)
    {
      broken := i;
      var c := events[i];
      if c.sequence != i + 1 {
        assert !Linked(h, genesis, events, i);
        return Err(NonMonotonicSequence(i + 1, c.sequence)), i;
      }
      var expected := if i == 0 then genesis else events[i - 1].hash;
      assert expected == Head(genesis, events[..i]);
      if c.previousHash != expected {
        assert !Linked(h, genesis, events, i);
        return Err(PreviousHashMismatch(c.sequence, expected, c.previousHash)), i;
      }
      var recomputed := EventHash(h, c.sequence, c.event, c.previousHash);
      if recomputed.None? {
        assert !Linked(h, genesis, events, i);
        return Err(SerializationError), i;
      }
      if c.hash != recomputed.value {
        assert !Linked(h, genesis, events, i);
        return Err(HashMismatch(c.sequence, recomputed.value, c.hash)), i;
      }
    }
    r, broken := Ok(()), 0;
  }

  // ---- Appending ---------------------------------------------------------------------------

  /** The log after appending an event; an event that cannot be serialised leaves it unchanged. */
  function Append<E>(h: Hashing<E>, genesis: Bytes, events: seq<ChainedEvent<E>>, event: E): seq<ChainedEvent<E>>
    requires |events| < U64_MAX
  {
    var previous := Head(genesis, events);
    match EventHash(h, |events| + 1, event, previous)
    case None => events
    case Some(hash) => events + [ChainedEvent(|events| + 1, event, previous, hash)]
  }

  lemma AppendKeepsChain<E>(h: Hashing<E>, genesis: Bytes, events: seq<ChainedEvent<E>>, event: E)
    requires Chained(h, genesis, events) && |events| < U64_MAX
    ensures Chained(h, genesis, Append(h, genesis, events, event))
  {
    var longer := Append(h, genesis, events, event);
    forall i | 0 <= i < |longer| ensures Linked(h, genesis, longer, i) {
      if i < |events| {
        assert Linked(h, genesis, events, i);
        assert longer[..i] == events[..i];
      } else {
        assert longer[..i] == events;
      }
    }
  }

  class AuditChain<E> {
    const hashing: Hashing<E>
    const genesisSeed: Bytes
    var lastHash: Bytes
    var sequence: u64
    var events: seq<ChainedEvent<E>>

    ghost predicate Valid()
      reads this
    {
      && Chained(hashing, genesisSeed, events)
      && sequence == |events|
      && lastHash == Head(genesisSeed, events)
    }

    constructor (hashing: Hashing<E>, genesisSeed: Bytes)
      ensures Valid() && events == [] && this.hashing == hashing && this.genesisSeed == genesisSeed
    {
      this.hashing := hashing;
      this.genesisSeed := genesisSeed;
      this.lastHash := genesisSeed;
      this.sequence := 0;
      this.events := [];
    }

    method AppendEvent(event: E) returns (r: Result<ChainedEvent<E>, ChainError>)
      requires Valid() && sequence < U64_MAX
      modifies this
      ensures Valid()
      ensures events == Append(hashing, genesisSeed, old(events), event)
      ensures r == if hashing.canonical(event).None? then Err(SerializationError) else Ok(events[|events| - 1])
    {
      AppendKeepsChain(hashing, genesisSeed, events, event);
      var nextSeq := sequence + 1;
      var prevHash := lastHash;
      var hash := EventHash(hashing, nextSeq, event, prevHash);
      if hash.None? {
        return Err(SerializationError);
      }
      var chained := ChainedEvent(nextSeq, event, prevHash, hash.value);
      sequence := nextSeq;
      lastHash := hash.value;
      events := events + [chained];
      r := Ok(chained);
    }
  }

  /** The log after appending all of `es` to an empty chain. */
  function AppendAll<E>(h: Hashing<E>, genesis: Bytes, es: seq<E>): (log: seq<ChainedEvent<E>>)
    requires |es| < U64_MAX
    ensures |log| <= |es|
  {
    if es == [] then [] else Append(h, genesis, AppendAll(h, genesis, es[..|es| - 1]), es[|es| - 1])
  }

  /** The events that serialise. */
  function Serialisable<E>(h: Hashing<E>, es: seq<E>): seq<E> {
    if es == [] then []
    else Serialisable(h, es[..|es| - 1]) + (if h.canonical(es[|es| - 1]).Some? then [es[|es| - 1]] else [])
  }

  /** Every run of appends, from any genesis, yields a chained log of exactly the serialisable events. */
  lemma {:induction false} AppendedLogsAreChained<E>(h: Hashing<E>, genesis: Bytes, es: seq<E>)
    requires |es| < U64_MAX
    ensures Chained(h, genesis, AppendAll(h, genesis, es))
    ensures |AppendAll(h, genesis, es)| == |Serialisable(h, es)|
    ensures forall i :: 0 <= i < |Serialisable(h, es)| ==> AppendAll(h, genesis, es)[i].event == Serialisable(h, es)[i]
  {
    if es != [] {
      AppendedLogsAreChained(h, genesis, es[..|es| - 1]);
      AppendKeepsChain(h, genesis, AppendAll(h, genesis, es[..|es| - 1]), es[|es| - 1]);
    }
  }

  // ---- Commitment --------------------------------------------------------------------------

  ghost predicate Collision<E>(h: Hashing<E>, x: Bytes, y: Bytes) {
    x != y && h.digest(x) == h.digest(y)
  }

  /** The same log, up to events with equal canonical bytes. */
  ghost predicate SameLog<E>(h: Hashing<E>, a: seq<ChainedEvent<E>>, b: seq<ChainedEvent<E>>) {
    |a| == |b| && forall i :: 0 <= i < |a| ==>
      && a[i].sequence == b[i].sequence && a[i].previousHash == b[i].previousHash && a[i].hash == b[i].hash
      && h.canonical(a[i].event) == h.canonical(b[i].event)
  }

  /** The parts of some hashed bytes, in the order they are hashed: the sequence in the first eight bytes, the previous
      hash in the last ones, and the event in between. */
  function ReadPreimage(x: Bytes, hashLen: nat): (u64, Bytes, Bytes)
    requires |x| >= 8 + hashLen
  {
    EightBytesFit(x[..8]);
    (FromBE(x[..8]), x[8..|x| - hashLen], x[|x| - hashLen..])
  }

  lemma PreimageReadsBack(s: u64, c: Bytes, p: Bytes)
    ensures ReadPreimage(Preimage(s, c, p), |p|) == (s, c, p)
  {
    var x := Preimage(s, c, p);
    assert x[..8] == ToBE(s, 8) && x[8..|x| - |p|] == c && x[|x| - |p|..] == p;
    Limits();
    FromToBE(s, 8);
  }

  /** A preimage splits in only one way, once the length of its last part is known. */
  lemma PreimageSplits(s: u64, c: Bytes, p: Bytes, s': u64, c': Bytes, p': Bytes)
    requires Preimage(s, c, p) == Preimage(s', c', p')
    ensures s == s'
    ensures |p| == |p'| ==> c == c' && p == p'
  {
    PreimageReadsBack(s, c, p);
    PreimageReadsBack(s', c', p');
  }

  /** What the last event of a chained log hashes. */
  function LastPreimage<E>(h: Hashing<E>, events: seq<ChainedEvent<E>>): Bytes
    requires events != [] && h.canonical(events[|events| - 1].event).Some?
  {
    var last := events[|events| - 1];
    Preimage(last.sequence, h.canonical(last.event).value, last.previousHash)
  }

  lemma LastEvent<E>(h: Hashing<E>, genesis: Bytes, events: seq<ChainedEvent<E>>)
    requires Chained(h, genesis, events) && events != [] && h.HexDigests()
    ensures var init, last := events[..|events| - 1], events[|events| - 1];
            && Chained(h, genesis, init)
            && last.sequence == |events| && last.previousHash == Head(genesis, init)
            && h.canonical(last.event).Some? && h.digest(LastPreimage(h, events)) == last.hash
            && (init != [] ==> |last.previousHash| == HASH_LEN)
  {
    var n := |events| - 1;
    var init := events[..n];
    forall i | 0 <= i < n ensures Linked(h, genesis, init, i) {
      assert Linked(h, genesis, events, i);
      assert init[..i] == events[..i];
    }
    assert Linked(h, genesis, events, n);
    if init != [] {
      assert Linked(h, genesis, events, n - 1);
      assert h.canonical(events[n - 1].event).Some?;
    }
  }

  /** The head hash commits to the whole log: two chained logs with one genesis and one head are the same,
      or two different preimages with one digest are exhibited. */
  lemma {:induction false} HeadCommitsToLog<E>(
      h: Hashing<E>, genesis: Bytes, a: seq<ChainedEvent<E>>, b: seq<ChainedEvent<E>>)
    returns (x: Bytes, y: Bytes)
    requires h.HexDigests() && Chained(h, genesis, a) && Chained(h, genesis, b)
    requires a != [] && b != [] && Head(genesis, a) == Head(genesis, b)
    ensures SameLog(h, a, b) || Collision(h, x, y)
    decreases |a|
  {
    LastEvent(h, genesis, a);
    LastEvent(h, genesis, b);
    x, y := LastPreimage(h, a), LastPreimage(h, b);
    if x == y {
      var la, lb := a[|a| - 1], b[|b| - 1];
      PreimageSplits(la.sequence, h.canonical(la.event).value, la.previousHash,
                     lb.sequence, h.canonical(lb.event).value, lb.previousHash);
      var ia, ib := a[..|a| - 1], b[..|b| - 1];
      assert |ia| == |ib|;
      if ia != [] {
        x, y := HeadCommitsToLog(h, genesis, ia, ib);
        assert a == ia + [la] && b == ib + [lb];
      }
    }
  }

  /** With a canonical form that determines the event, "the same" means equal. */
  lemma HeadCommitsToEvents<E>(
      h: Hashing<E>, genesis: Bytes, a: seq<ChainedEvent<E>>, b: seq<ChainedEvent<E>>)
    returns (x: Bytes, y: Bytes)
    requires h.HexDigests() && Chained(h, genesis, a) && Chained(h, genesis, b)
    requires a != [] && b != [] && Head(genesis, a) == Head(genesis, b)
    requires forall i, j :: 0 <= i < |a| && 0 <= j < |b| && h.canonical(a[i].event) == h.canonical(b[j].event) ==>
               a[i].event == b[j].event
    ensures a == b || Collision(h, x, y)
  {
    x, y := HeadCommitsToLog(h, genesis, a, b);
    if SameLog(h, a, b) {
      forall i | 0 <= i < |a| ensures a[i] == b[i] {
        assert h.canonical(a[i].event) == h.canonical(b[i].event);
      }
    }
  }

  /** An empty log shares its head with a non-empty one only if the genesis value is itself a digest. */
  lemma EmptyHeadNeedsPreimage<E>(h: Hashing<E>, genesis: Bytes, b: seq<ChainedEvent<E>>) returns (x: Bytes)
    requires h.HexDigests() && Chained(h, genesis, b) && b != [] && Head(genesis, b) == genesis
    ensures h.digest(x) == genesis
  {
    LastEvent(h, genesis, b);
    x := LastPreimage(h, b);
  }
}
