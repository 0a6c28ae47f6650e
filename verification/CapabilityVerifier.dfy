/** Capability verification and why a capability cannot be used twice. */
module CapabilityVerifier {
  import opened Wrappers
  import opened Octets
  import opened Time
  import opened NonceCache

  /** A session capability; schema validation and the signature check enter as their outcomes. */
  datatype Capability = Capability(
    wellFormed: bool,
    targetDevice: string,
    notBefore: u64,
    expiresAt: u64,
    nonce: Bytes,
    minProtocol: u32,
    maxProtocol: u32,
    signatureValid: bool)

  datatype VerificationError =
    | ProtocolValidation
    | TargetDeviceMismatch(expected: string, actual: string)
    | NotYetActive(notBefore: u64, at: u64)
    | Expired(expiredAt: u64, at: u64)
    | ProtocolRangeViolation(negotiated: u32, min: u32, max: u32)
    | ReplayDetected
    | InvalidSignature

  /** The checks before the replay cache is consulted. */
  function EarlyFault(target: Option<string>, cap: Capability, protocol: u32, now: u64): Option<VerificationError> {
    if !cap.wellFormed then Some(ProtocolValidation)
    else if target.Some? && cap.targetDevice != target.value then
      Some(TargetDeviceMismatch(target.value, cap.targetDevice))
    else if now < cap.notBefore then Some(NotYetActive(cap.notBefore, now))
    else if now > cap.expiresAt then Some(Expired(cap.expiresAt, now))
    else if protocol < cap.minProtocol || protocol > cap.maxProtocol then
      Some(ProtocolRangeViolation(protocol, cap.minProtocol, cap.maxProtocol))
    else None
  }

  /** What may be wrong with a capability before its nonce is looked at. */
  predicate Violates(target: Option<string>, cap: Capability, protocol: u32, now: u64, e: VerificationError) {
    match e
    case ProtocolValidation => !cap.wellFormed
    case TargetDeviceMismatch(expected, actual) =>
      target == Some(expected) && actual == cap.targetDevice && expected != actual
    case NotYetActive(notBefore, at) => at == now < cap.notBefore == notBefore
    case Expired(expiredAt, at) => expiredAt == cap.expiresAt < now == at
    case ProtocolRangeViolation(negotiated, min, max) =>
      && negotiated == protocol && min == cap.minProtocol && max == cap.maxProtocol
      && !(cap.minProtocol <= protocol <= cap.maxProtocol)
    case _ => false
  }

  /** In which order the faults are reported. */
  function Precedence(e: VerificationError): nat {
    match e
    case ProtocolValidation => 0
    case TargetDeviceMismatch(_, _) => 1
    case NotYetActive(_, _) => 2
    case Expired(_, _) => 3
    case ProtocolRangeViolation(_, _, _) => 4
    case ReplayDetected => 5
    case InvalidSignature => 6
  }

  /** A capability for this device and protocol, in force and well formed. */
  predicate Acceptable(target: Option<string>, cap: Capability, protocol: u32, now: u64) {
    && cap.wellFormed && (target.None? || cap.targetDevice == target.value)
    && cap.notBefore <= now <= cap.expiresAt && cap.minProtocol <= protocol <= cap.maxProtocol
  }

  /** The early checks pass exactly when nothing is wrong, and otherwise the first fault is reported. */
  lemma EarlyFaultExactly(target: Option<string>, cap: Capability, protocol: u32, now: u64, e: VerificationError)
    ensures EarlyFault(target, cap, protocol, now).None? <==> Acceptable(target, cap, protocol, now)
    ensures EarlyFault(target, cap, protocol, now) == Some(e) <==>
              && Violates(target, cap, protocol, now, e)
              && forall d :: Violates(target, cap, protocol, now, d) ==> Precedence(e) <= Precedence(d)
  {
    var fault := EarlyFault(target, cap, protocol, now);
    assert fault.Some? ==> Violates(target, cap, protocol, now, fault.value);
  }

  /** `verify`: the nonce is recorded before the signature is checked. */
  function Verify(c: Cache, target: Option<string>, cap: Capability, protocol: u32, now: u64, instant: nat)
    : (Cache, Result<(), VerificationError>)
  {
    if EarlyFault(target, cap, protocol, now).Some? then (c, Err(EarlyFault(target, cap, protocol, now).value))
    else
      var (next, unused) := Accept(c, cap.nonce, instant);
      if !unused then (next, Err(ReplayDetected))
      else if !cap.signatureValid then (next, Err(InvalidSignature))
      else (next, Ok(()))
  }

  class Verifier {
    const cache: NonceReplayCache
    const target: Option<string>

    constructor (target: Option<string>, ttl: nat, capacity: nat)
      ensures cache.Contents() == New(ttl, capacity) && fresh(cache) && this.target == target
    {
      this.target := target;
      this.cache := new NonceReplayCache(ttl, capacity);
    }

    method VerifyCapability(cap: Capability, protocol: u32, now: u64, instant: nat)
      returns (r: Result<(), VerificationError>)
      modifies cache
      ensures (cache.Contents(), r) == Verify(old(cache.Contents()), target, cap, protocol, now, instant)
    {
      if !cap.wellFormed { return Err(ProtocolValidation); }
      if target.Some? && cap.targetDevice != target.value {
        return Err(TargetDeviceMismatch(target.value, cap.targetDevice));
      }
      if now < cap.notBefore { return Err(NotYetActive(cap.notBefore, now)); }
      if now > cap.expiresAt { return Err(Expired(cap.expiresAt, now)); }
      if protocol < cap.minProtocol || protocol > cap.maxProtocol {
        return Err(ProtocolRangeViolation(protocol, cap.minProtocol, cap.maxProtocol));
      }
      var unused := cache.AcceptNonce(cap.nonce, instant);
      if !unused { return Err(ReplayDetected); }
      if !cap.signatureValid { return Err(InvalidSignature); }
      r := Ok(());
    }
  }

  // ---- Whole runs --------------------------------------------------------------------------

  datatype Call = Call(cap: Capability, protocol: u32, now: u64, instant: nat)

  /** A run of verifications of arbitrary capabilities from a new verifier. */
  function Run(ttl: nat, capacity: nat, target: Option<string>, calls: seq<Call>)
    : (r: (Cache, seq<Result<(), VerificationError>>))
    ensures |r.1| == |calls|
  {
    if calls == [] then (New(ttl, capacity), [])
    else
      var (c, results) := Run(ttl, capacity, target, calls[..|calls| - 1]);
      var call := calls[|calls| - 1];
      var (next, r) := Verify(c, target, call.cap, call.protocol, call.now, call.instant);
      (next, results + [r])
  }

  ghost predicate TimesAdvance(calls: seq<Call>) {
    forall i, j :: 0 <= i < j < |calls| ==> calls[i].instant <= calls[j].instant
  }

  /** Both clocks advance together: the wall clock shows the whole seconds of the monotonic one, offset. */
  ghost predicate ClocksAgree(calls: seq<Call>, offset: nat) {
    && (forall i :: 0 <= i < |calls| ==> calls[i].now == (calls[i].instant + offset) / NANOS)
    && TimesAdvance(calls)
  }

  function LastInstant(calls: seq<Call>): nat {
    if calls == [] then 0 else calls[|calls| - 1].instant
  }

  /** The nonces that reach the cache: those of the acceptable capabilities, signed or not. */
  function Offered(target: Option<string>, calls: seq<Call>): seq<Entry> {
    if calls == [] then []
    else
      var call := calls[|calls| - 1];
      Offered(target, calls[..|calls| - 1])
      + (if Acceptable(target, call.cap, call.protocol, call.now) then [Entry(call.cap.nonce, call.instant)] else [])
  }

  lemma {:induction false} OfferedInOrder(target: Option<string>, calls: seq<Call>)
    requires TimesAdvance(calls)
    ensures InOrder(Offered(target, calls))
    ensures forall i :: 0 <= i < |Offered(target, calls)| ==> Offered(target, calls)[i].at <= LastInstant(calls)
  {
    if calls != [] {
      OfferedInOrder(target, calls[..|calls| - 1]);
    }
  }

  /** The cache of a run is one that was only ever offered those nonces. */
  lemma {:induction false} RunOffers(ttl: nat, capacity: nat, target: Option<string>, calls: seq<Call>)
    ensures Run(ttl, capacity, target, calls).0 == After(ttl, capacity, Offered(target, calls))
  {
    if calls != [] {
      var init, call := calls[..|calls| - 1], calls[|calls| - 1];
      RunOffers(ttl, capacity, target, init);
      EarlyFaultExactly(target, call.cap, call.protocol, call.now, ReplayDetected);
      var offered := Offered(target, init);
      var entry := Entry(call.cap.nonce, call.instant);
      assert (offered + [entry])[..|offered|] == offered && offered + [] == offered;
    }
  }

  /** The nonce is unused, and there is room for it, by the rule over everything the rule admitted before. */
  ghost predicate Unused(ttl: nat, capacity: nat, target: Option<string>, calls: seq<Call>, next: Call) {
    Admissible(HistoryOf(ttl, capacity, Offered(target, calls)), ttl, if capacity == 0 then 1 else capacity,
               next.cap.nonce, next.instant)
  }

  /** After any calls at nondecreasing times, the next call has exactly the result it should: success for an
      acceptable, unused and signed capability, and otherwise the first thing that is wrong. */
  lemma ResultsAreExact(ttl: nat, capacity: nat, target: Option<string>, calls: seq<Call>, next: Call)
    requires TimesAdvance(calls + [next])
    ensures var c := Run(ttl, capacity, target, calls).0;
            var r := Verify(c, target, next.cap, next.protocol, next.now, next.instant).1;
            var acceptable := Acceptable(target, next.cap, next.protocol, next.now);
            var unused := Unused(ttl, capacity, target, calls, next);
            && (r.Ok? <==> acceptable && unused && next.cap.signatureValid)
            && (r == Err(ReplayDetected) <==> acceptable && !unused)
            && (r == Err(InvalidSignature) <==> acceptable && unused && !next.cap.signatureValid)
            && (r.Err? && !acceptable ==>
                  && Violates(target, next.cap, next.protocol, next.now, r.error)
                  && forall d :: Violates(target, next.cap, next.protocol, next.now, d) ==>
                                   Precedence(r.error) <= Precedence(d))
  {
    forall i, j | 0 <= i < j < |calls| ensures calls[i].instant <= calls[j].instant {
      assert (calls + [next])[i].instant <= (calls + [next])[j].instant;
    }
    assert calls != [] ==> (calls + [next])[|calls| - 1].instant <= (calls + [next])[|calls|].instant;
    OfferedInOrder(target, calls);
    RunOffers(ttl, capacity, target, calls);
    var fault := EarlyFault(target, next.cap, next.protocol, next.now);
    EarlyFaultExactly(target, next.cap, next.protocol, next.now, if fault.Some? then fault.value else ReplayDetected);
    RunDecidesLikeHistory(ttl, capacity, Offered(target, calls), next.cap.nonce, next.instant);
  }

  lemma TimesAdvanceBefore(calls: seq<Call>)
    requires TimesAdvance(calls) && calls != []
    ensures TimesAdvance(calls[..|calls| - 1])
    ensures LastInstant(calls[..|calls| - 1]) <= calls[|calls| - 1].instant
  {
  }

  /** Every successful verification has left its nonce in the history the cache represents. */
  ghost predicate Recorded(calls: seq<Call>, results: seq<Result<(), VerificationError>>, history: seq<Entry>)
    requires |results| == |calls|
  {
    forall i :: 0 <= i < |calls| && results[i].Ok? ==> Entry(calls[i].cap.nonce, calls[i].instant) in history
  }

  lemma {:induction false} RunIsRecorded(ttl: nat, capacity: nat, target: Option<string>, calls: seq<Call>)
    returns (history: seq<Entry>)
    requires TimesAdvance(calls)
    ensures var (c, results) := Run(ttl, capacity, target, calls);
            Represents(c, history, LastInstant(calls)) && c.ttl == ttl && Recorded(calls, results, history)
  {
    history := [];
    if calls != [] {
      var init, call := calls[..|calls| - 1], calls[|calls| - 1];
      TimesAdvanceBefore(calls);
      history := RunIsRecorded(ttl, capacity, target, init);
      var (c, results) := Run(ttl, capacity, target, init);
      if EarlyFault(target, call.cap, call.protocol, call.now).Some? {
        StillRepresents(c, history, LastInstant(init), call.instant);
      } else {
        CacheDecidesLikeHistory(c, history, LastInstant(init), call.cap.nonce, call.instant);
        history := HistoryAfter(c, history, call.cap.nonce, call.instant);
      }
    }
  }

  /** Two successes with one nonce are at least the time to live apart, on any run of the verifier. */
  lemma {:induction false} SuccessesAreFarApart(
    ttl: nat, capacity: nat, target: Option<string>, calls: seq<Call>, i: nat, j: nat)
    requires TimesAdvance(calls)
    requires i < j < |calls| && calls[i].cap.nonce == calls[j].cap.nonce
    requires Run(ttl, capacity, target, calls).1[i].Ok? && Run(ttl, capacity, target, calls).1[j].Ok?
    ensures calls[j].instant - calls[i].instant >= ttl
  {
    var init, call := calls[..|calls| - 1], calls[|calls| - 1];
    TimesAdvanceBefore(calls);
    if j < |init| {
      SuccessesAreFarApart(ttl, capacity, target, init, i, j);
    } else {
      var history := RunIsRecorded(ttl, capacity, target, init);
      var (c, results) := Run(ttl, capacity, target, init);
      CacheDecidesLikeHistory(c, history, LastInstant(init), call.cap.nonce, call.instant);
      var entry := Entry(calls[i].cap.nonce, calls[i].instant);
      assert results[i].Ok? && entry in history;
      var k: nat :| k < |history| && history[k] == entry;
      assert k !in LiveAt(history, ttl, call.instant);
    }
  }

  ghost predicate UsedTwice(ttl: nat, capacity: nat, target: Option<string>, cap: Capability, calls: seq<Call>) {
    var results := Run(ttl, capacity, target, calls).1;
    exists i: nat, j: nat ::
      i < j < |calls| && calls[i].cap == cap && calls[j].cap == cap && results[i].Ok? && results[j].Ok?
  }

  /** No run whose clocks advance together, whatever else it verifies, accepts the capability twice. */
  ghost predicate SingleUse(ttl: nat, capacity: nat, target: Option<string>, cap: Capability) {
    forall calls, offset :: ClocksAgree(calls, offset) ==> !UsedTwice(ttl, capacity, target, cap, calls)
  }

  /** The validity window, whose last second is inclusive, fits in the time to live. */
  predicate WindowFits(cap: Capability, ttl: nat) {
    (cap.expiresAt - cap.notBefore + 1) * NANOS <= ttl
  }

  lemma {:induction false} SuccessIsInWindow(
    ttl: nat, capacity: nat, target: Option<string>, calls: seq<Call>, i: nat)
    requires i < |calls| && Run(ttl, capacity, target, calls).1[i].Ok?
    ensures calls[i].cap.notBefore <= calls[i].now <= calls[i].cap.expiresAt
  {
    var init := calls[..|calls| - 1];
    if i < |init| {
      SuccessIsInWindow(ttl, capacity, target, init, i);
    }
  }

  lemma WindowFitsGivesSingleUse(ttl: nat, capacity: nat, target: Option<string>, cap: Capability)
    requires WindowFits(cap, ttl)
    ensures SingleUse(ttl, capacity, target, cap)
  {
    forall calls: seq<Call>, offset: nat | ClocksAgree(calls, offset)
      ensures !UsedTwice(ttl, capacity, target, cap, calls)
    {
      if UsedTwice(ttl, capacity, target, cap, calls) {
        var results := Run(ttl, capacity, target, calls).1;
        var i: nat, j: nat :|
          i < j < |calls| && calls[i].cap == cap && calls[j].cap == cap && results[i].Ok? && results[j].Ok?;
        SuccessIsInWindow(ttl, capacity, target, calls, i);
        SuccessIsInWindow(ttl, capacity, target, calls, j);
        SuccessesAreFarApart(ttl, capacity, target, calls, i, j);
        assert false;
      }
    }
  }

  lemma RunStep(ttl: nat, capacity: nat, target: Option<string>, init: seq<Call>, call: Call)
    ensures var (c, results) := Run(ttl, capacity, target, init);
            var (next, r) := Verify(c, target, call.cap, call.protocol, call.now, call.instant);
            Run(ttl, capacity, target, init + [call]) == (next, results + [r])
  {
    assert (init + [call])[..|init|] == init;
  }

  /** The two calls that show the bound is tight: the first and last instants of the window. */
  function FirstAndLast(cap: Capability, protocol: u32): seq<Call>
    requires cap.notBefore <= cap.expiresAt
  {
    [Call(cap, protocol, cap.notBefore, 0),
     Call(cap, protocol, cap.expiresAt, (cap.expiresAt - cap.notBefore + 1) * NANOS - 1)]
  }

  lemma ShortTtlAllowsReuse(ttl: nat, capacity: nat, target: Option<string>, cap: Capability, protocol: u32)
    requires cap.signatureValid && EarlyFault(target, cap, protocol, cap.notBefore).None? && !WindowFits(cap, ttl)
    ensures ClocksAgree(FirstAndLast(cap, protocol), cap.notBefore * NANOS)
    ensures UsedTwice(ttl, capacity, target, cap, FirstAndLast(cap, protocol))
  {
    var calls := FirstAndLast(cap, protocol);
    var once := New(ttl, capacity).(entries := map[cap.nonce := 0]);
    assert Prune(map[], ttl, 0) == map[];
    assert Verify(New(ttl, capacity), target, cap, protocol, cap.notBefore, 0) == (once, Ok(()));
    assert Prune(once.entries, ttl, calls[1].instant) == map[];
    assert Verify(once, target, cap, protocol, cap.expiresAt, calls[1].instant).1 == Ok(());
    RunStep(ttl, capacity, target, [], calls[0]);
    RunStep(ttl, capacity, target, [calls[0]], calls[1]);
    assert calls == [calls[0]] + [calls[1]] && [calls[0]] == [] + [calls[0]];
    assert Run(ttl, capacity, target, calls).1 == [Ok(()), Ok(())];
  }

  /** A capability that can verify at all can be used at most once exactly when its window, counted with
      its inclusive last second, is no longer than the time a nonce is remembered. */
  lemma SingleUseExactly(ttl: nat, capacity: nat, target: Option<string>, cap: Capability, protocol: u32)
    requires cap.signatureValid && EarlyFault(target, cap, protocol, cap.notBefore).None?
    ensures SingleUse(ttl, capacity, target, cap) <==> WindowFits(cap, ttl)
  {
    if WindowFits(cap, ttl) {
      WindowFitsGivesSingleUse(ttl, capacity, target, cap);
    } else {
      ShortTtlAllowsReuse(ttl, capacity, target, cap, protocol);
    }
  }
}
