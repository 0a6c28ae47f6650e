/** No nonce is ever used twice: not by the allocator, and not by any seal of a host run, sent or failed. */
module NonceUse {
  import opened Wrappers
  import opened Octets
  import opened Crypto
  import opened Streamer

  /** The allocator after `n` calls, and the nonces it handed out. */
  function Issue(s: NonceState, n: nat): (NonceState, seq<Bytes>) {
    if n == 0 then (s, [])
    else
      var (before, nonces) := Issue(s, n - 1);
      var (after, nonce) := NextNonce(before);
      (after, if nonce.Some? then nonces + [nonce.value] else nonces)
  }

  /** How many nonces are left. */
  function Left(s: NonceState): nat {
    if s.exhausted then 0 else U64_MAX + 1 - s.next
  }

  function Min(a: nat, b: nat): nat {
    if a < b then a else b
  }

  /** As many nonces are handed out as were asked for or as were left. */
  lemma {:induction false} IssueCounts(s: NonceState, n: nat)
    ensures var (after, nonces) := Issue(s, n);
            && |nonces| == Min(n, Left(s))
            && Left(after) == Left(s) - |nonces| && after.domain == s.domain
            && (!after.exhausted ==> after.next == s.next + |nonces|)
  {
    if n > 0 {
      IssueCounts(s, n - 1);
    }
  }

  /** They are those of consecutive sequences. */
  lemma {:induction false} IssuesInSequence(s: NonceState, n: nat, i: nat)
    requires i < |Issue(s, n).1|
    ensures s.next + i <= U64_MAX && Issue(s, n).1[i] == NonceFromSequence(s.domain, s.next + i)
  {
    IssueCounts(s, n - 1);
    if i < |Issue(s, n - 1).1| {
      IssuesInSequence(s, n - 1, i);
    }
  }

  ghost predicate Distinct(nonces: seq<Bytes>) {
    forall i, j :: 0 <= i < j < |nonces| ==> nonces[i] != nonces[j]
  }

  lemma SequencesGiveDistinctNonces(domain: u32, first: u64, second: u64)
    requires first != second
    ensures NonceFromSequence(domain, first) != NonceFromSequence(domain, second)
  {
    SequenceRoundTrip(domain, first);
    SequenceRoundTrip(domain, second);
  }

  lemma IssuesDistinct(s: NonceState, n: nat, i: nat, j: nat)
    requires i < j < |Issue(s, n).1|
    ensures Issue(s, n).1[i] != Issue(s, n).1[j]
  {
    IssuesInSequence(s, n, i);
    IssuesInSequence(s, n, j);
    SequencesGiveDistinctNonces(s.domain, s.next + i, s.next + j);
  }

  /** However often it is called, the allocator never repeats a nonce, and a new one hands out exactly 2^64. */
  lemma NoncesAreNeverReused(s: NonceState, n: nat)
    ensures Distinct(Issue(s, n).1)
    ensures s.next == 0 && !s.exhausted && n >= U64_MAX + 1 ==> |Issue(s, n).1| == U64_MAX + 1
  {
    IssueCounts(s, n);
    var nonces := Issue(s, n).1;
    forall i, j | 0 <= i < j < |nonces| ensures nonces[i] != nonces[j] {
      IssuesDistinct(s, n, i, j);
    }
  }

  // ---- Seals -------------------------------------------------------------------------------

  /** Whatever becomes of a frame, it takes one nonce if its id fits the wire, and none otherwise. */
  function AfterFrame(nonces: NonceState, frame: EncodedFrame): NonceState {
    if FitsWire(frame) then NextNonce(nonces).0 else nonces
  }

  lemma SealTakesOneNonce(a: Aead, key: Bytes, streamId: byte, nonces: NonceState, frame: EncodedFrame)
    ensures SealFrame(a, key, streamId, nonces, frame).0 == AfterFrame(nonces, frame)
  {
  }

  function AfterFrames(nonces: NonceState, frames: seq<EncodedFrame>): NonceState {
    if frames == [] then nonces else AfterFrame(AfterFrames(nonces, frames[..|frames| - 1]), frames[|frames| - 1])
  }

  /** The allocator of a host run depends on the ids of its frames alone. */
  lemma {:induction false} RunTakesNonces(
      a: Aead, key: Bytes, streamId: byte, nonces: NonceState, frames: seq<EncodedFrame>)
    ensures SendAll(a, key, streamId, nonces, frames).0 == AfterFrames(nonces, frames)
  {
    if frames != [] {
      var init, last := frames[..|frames| - 1], frames[|frames| - 1];
      RunTakesNonces(a, key, streamId, nonces, init);
      SealTakesOneNonce(a, key, streamId, AfterFrames(nonces, init), last);
    }
  }

  /** The nonces under which a host run calls the cipher, whether or not the frame is sent in the end. */
  function SealNonces(nonces: NonceState, frames: seq<EncodedFrame>): seq<Bytes> {
    if frames == [] then []
    else
      var init, last := frames[..|frames| - 1], frames[|frames| - 1];
      var nonce := NextNonce(AfterFrames(nonces, init)).1;
      if FitsWire(last) && nonce.Some? then SealNonces(nonces, init) + [nonce.value] else SealNonces(nonces, init)
  }

  /** How many frames get as far as asking for a nonce. */
  function Asking(frames: seq<EncodedFrame>): nat {
    if frames == [] then 0
    else Asking(frames[..|frames| - 1]) + (if FitsWire(frames[|frames| - 1]) then 1 else 0)
  }

  lemma {:induction false} SealsAreIssued(nonces: NonceState, frames: seq<EncodedFrame>)
    ensures AfterFrames(nonces, frames) == Issue(nonces, Asking(frames)).0
    ensures SealNonces(nonces, frames) == Issue(nonces, Asking(frames)).1
  {
    if frames != [] {
      SealsAreIssued(nonces, frames[..|frames| - 1]);
    }
  }

  /** Every sent frame carries the sequence of a nonce the run sealed under. */
  lemma {:induction false} SentUnderSealNonce(
      a: Aead, key: Bytes, streamId: byte, nonces: NonceState, frames: seq<EncodedFrame>, i: nat)
    requires i < |SendAll(a, key, streamId, nonces, frames).1|
    ensures NonceFromSequence(nonces.domain, SendAll(a, key, streamId, nonces, frames).1[i].sequence)
            in SealNonces(nonces, frames)
  {
    var init, last := frames[..|frames| - 1], frames[|frames| - 1];
    var (before, sent) := SendAll(a, key, streamId, nonces, init);
    if i < |sent| {
      SentUnderSealNonce(a, key, streamId, nonces, init, i);
    } else {
      RunTakesNonces(a, key, streamId, nonces, init);
      SealsAreIssued(nonces, init);
      IssueCounts(nonces, Asking(init));
      SealFrameProperties(a, key, streamId, before, last);
    }
  }

  /** Over every host run, on any frames: no two seals share a nonce, those of frames that failed later included, and
      there are at most 2^64 of them. */
  lemma SealsNeverShareANonce(nonces: NonceState, frames: seq<EncodedFrame>)
    ensures Distinct(SealNonces(nonces, frames))
    ensures |SealNonces(nonces, frames)| <= U64_MAX + 1
  {
    SealsAreIssued(nonces, frames);
    NoncesAreNeverReused(nonces, Asking(frames));
    IssueCounts(nonces, Asking(frames));
  }
}
