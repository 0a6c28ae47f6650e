/** The client's reconnect loop, against an arbitrary clock, network and cancellation. */
module Reconnect {
  import opened Wrappers
  import opened Octets
  import opened Time
  import opened Session
  import opened Spans

  const MIN_RETRY_INTERVAL := 1_000_000

  /** How dialling ends: no connection attempt, a failed one, a cancellation meanwhile, or a connection. */
  datatype Dial = Refused | Lost | Interrupted | Established

  /** Everything the outside world decides during one attempt; times are clock readings in nanoseconds. */
  datatype Attempt = Attempt(
    cancelledBefore: bool,
    cancelledAtStart: bool,
    beginAt: nat,
    dial: Dial,
    finishAt: nat,
    pipelineResets: bool,
    cancelledAsleep: bool)

  datatype RuntimeError =
    | Shutdown
    | Rejected(error: ClientError)
    | ConnectFailed
    | TransportFailed
    | DecoderFailed

  /** What `Clock::now` reports: the whole seconds of a clock reading, saturated. */
  function Seconds(t: nat): u64 {
    if t / NANOS > U64_MAX then U64_MAX else t / NANOS
  }

  /** The first second in which a reconnect is refused: the deadline has passed or the duration is over. */
  function GiveUp(cfg: Config, s: Lifecycle): nat
    requires s.deadline.Some? && s.established.Some?
  {
    var durationEnd := s.established.value + (cfg.maxDuration + NANOS - 1) / NANOS;
    if durationEnd < s.deadline.value + 1 then durationEnd else s.deadline.value + 1
  }

  lemma ReconnectsUntilGiveUp(cfg: Config, s: Lifecycle, now: u64)
    requires ValidPolicy(cfg) && Shaped(s) && s.state == Reconnecting
    ensures CanReconnect(cfg, s, now) <==> now < GiveUp(cfg, s)
  {
  }

  /** `reconnect_attempt` as a transition. */
  function AttemptOutcome(cfg: Config, s: Lifecycle, e: Attempt): (Lifecycle, Result<(), RuntimeError>) {
    if e.cancelledAtStart then (s, Err(Shutdown))
    else
      var begun := BeginConnect(cfg, s, Seconds(e.beginAt));
      if begun.outcome.Err? then (begun.next, Err(Rejected(begun.outcome.error)))
      else
        match e.dial
        case Refused => AfterFailure(AttemptFailed(cfg, begun.next, Seconds(e.finishAt)), ConnectFailed)
        case Lost => AfterFailure(AttemptFailed(cfg, begun.next, Seconds(e.finishAt)), TransportFailed)
        case Interrupted => (begun.next, Err(Shutdown))
        case Established =>
          var connected := MarkConnected(cfg, begun.next, Seconds(e.finishAt));
          if connected.outcome.Err? then (connected.next, Err(Rejected(connected.outcome.error)))
          else if !e.pipelineResets then (Expire(connected.next).next, Err(DecoderFailed))
          else (connected.next, Ok(()))
  }

  function AfterFailure(failed: Step, error: RuntimeError): (Lifecycle, Result<(), RuntimeError>) {
    (failed.next, Err(if failed.outcome.Err? then Rejected(failed.outcome.error) else error))
  }

  method ReconnectAttempt(s: ClientSession, e: Attempt) returns (r: Result<(), RuntimeError>)
    modifies s
    ensures (s.Current(), r) == AttemptOutcome(s.cfg, old(s.Current()), e)
  {
    if e.cancelledAtStart {
      return Err(Shutdown);
    }
    var begun := s.BeginConnectAt(Seconds(e.beginAt));
    if begun.Err? {
      return Err(Rejected(begun.error));
    }
    if e.dial == Refused || e.dial == Lost {
      var failed := s.ReconnectAttemptFailedAt(Seconds(e.finishAt));
      if failed.Err? {
        return Err(Rejected(failed.error));
      }
      return Err(if e.dial == Refused then ConnectFailed else TransportFailed);
    }
    if e.dial == Interrupted {
      return Err(Shutdown);
    }
    var connected := s.ConnectedAt(Seconds(e.finishAt));
    if connected.Err? {
      return Err(Rejected(connected.error));
    }
    if !e.pipelineResets {
      var _ := s.ExpireNow();
      return Err(DecoderFailed);
    }
    r := Ok(());
  }

  /** The state after an attempt that connected: within the window of the outage and within the duration. */
  predicate ConnectedInTime(cfg: Config, s: Lifecycle, e: Attempt, next: Lifecycle) {
    && next.state == Connected && next.deadline == None
    && (s.state == Reconnecting ==>
          && next.established == s.established && s.deadline.Some?
          && Seconds(e.finishAt) <= s.deadline.value
          && WithinDuration(cfg, s, Seconds(e.finishAt)))
  }

  /** An attempt connects in time, or leaves the session exactly as it was, or in a state that ends the loop; it is
      retried only if it began before a reconnect became impossible, or was cancelled. */
  lemma AttemptIsSound(cfg: Config, s: Lifecycle, e: Attempt)
    requires ValidPolicy(cfg) && Shaped(s)
    ensures var (next, r) := AttemptOutcome(cfg, s, e);
            && (r.Ok? ==> ConnectedInTime(cfg, s, e, next))
            && (next.state == Reconnecting ==> next == s && r.Err?)
            && (next.state == Reconnecting && !e.cancelledAtStart ==> CanReconnect(cfg, s, Seconds(e.beginAt)))
            && (s.state == Reconnecting && !e.cancelledAtStart && !CanReconnect(cfg, s, Seconds(e.beginAt)) ==>
                  next.state == Expired && r.Err?)
  {
  }

  /** `Clock::now` never runs ahead, and lags by less than a second until it saturates. */
  lemma SecondsExactly(t: nat)
    ensures Seconds(t) * NANOS <= t
    ensures Seconds(t) < U64_MAX ==> t < (Seconds(t) + 1) * NANOS
  {
  }

  /** Neither the window of the outage nor the duration is over. */
  predicate InTime(cfg: Config, s: Lifecycle, t: nat) {
    !TooLate(s, Seconds(t)) && WithinDuration(cfg, s, Seconds(t))
  }

  /** The attempt gets as far as dialling. */
  predicate Dials(cfg: Config, s: Lifecycle, e: Attempt) {
    !e.cancelledAtStart && InForce(cfg.claims, Seconds(e.beginAt)) && InTime(cfg, s, e.beginAt)
  }

  /** The attempt gets as far as a connected session. */
  predicate GetsThrough(cfg: Config, s: Lifecycle, e: Attempt) {
    && Dials(cfg, s, e) && e.dial == Established
    && InForce(cfg.claims, Seconds(e.finishAt)) && InTime(cfg, s, e.finishAt)
  }

  /** The attempt leaves the session reconnecting: it was cancelled beforehand, the claims were not in force, or
      dialling failed, and all that in time. */
  predicate Retryable(cfg: Config, s: Lifecycle, e: Attempt) {
    || e.cancelledAtStart
    || (InTime(cfg, s, e.beginAt) && !InForce(cfg.claims, Seconds(e.beginAt)))
    || (Dials(cfg, s, e) && (e.dial == Refused || e.dial == Lost) && InTime(cfg, s, e.finishAt))
  }

  /** While reconnecting, an attempt ends in each of its ways exactly when it should. */
  lemma AttemptEndsExactly(cfg: Config, s: Lifecycle, e: Attempt)
    requires ValidPolicy(cfg) && Shaped(s) && s.state == Reconnecting
    ensures var (next, r) := AttemptOutcome(cfg, s, e);
            && (r.Ok? <==> GetsThrough(cfg, s, e) && e.pipelineResets)
            && (r == Err(DecoderFailed) <==> GetsThrough(cfg, s, e) && !e.pipelineResets)
            && (r == Err(Shutdown) <==> e.cancelledAtStart || (Dials(cfg, s, e) && e.dial == Interrupted))
            && (r == Err(ConnectFailed) <==> Dials(cfg, s, e) && e.dial == Refused && InTime(cfg, s, e.finishAt))
            && (r == Err(TransportFailed) <==> Dials(cfg, s, e) && e.dial == Lost && InTime(cfg, s, e.finishAt))
            && (r == Err(DecoderFailed) ==> next.state == Expired)
            && (next.state == Reconnecting <==> Retryable(cfg, s, e))
            && (next.state == Reconnecting ==> next == s)
  {
    StepSucceedsExactly(cfg, s, OpBeginConnect(Seconds(e.beginAt)));
    var begun := s.(state := Connecting);
    StepSucceedsExactly(cfg, begun, OpConnected(Seconds(e.finishAt)));
    StepSucceedsExactly(cfg, begun, OpAttemptFailed(Seconds(e.finishAt)));
  }

  /** Each attempt begins at least one retry interval after the previous one began. */
  ghost predicate ClockAdvances(env: nat -> Attempt, interval: nat) {
    forall k: nat :: BeginsLater(env(k), env(k + 1), interval)
  }

  predicate BeginsLater(e: Attempt, next: Attempt, interval: nat) {
    e.beginAt + interval <= next.beginAt
  }

  lemma {:induction false} ClockAfter(env: nat -> Attempt, interval: nat, k: nat)
    requires ClockAdvances(env, interval)
    ensures env(0).beginAt + Span(k, interval) <= env(k).beginAt
  {
    if k > 0 {
      ClockAfter(env, interval, k - 1);
      assert BeginsLater(env(k - 1), env(k - 1 + 1), interval);
    }
  }

  /** No more attempts than fit before `end`, one interval apart, and one more. */
  predicate FewAttempts(env: nat -> Attempt, interval: nat, attempts: nat, end: nat) {
    attempts <= 1 || env(0).beginAt + Span(attempts - 2, interval) < end
  }

  lemma FewAttemptsBound(env: nat -> Attempt, interval: nat, attempts: nat, end: nat)
    requires attempts > 1
    ensures FewAttempts(env, interval, attempts, end) <==> env(0).beginAt + (attempts - 2) * interval < end
  {
    SpanIsProduct(attempts - 2, interval);
  }

  lemma AttemptsAreFew(env: nat -> Attempt, interval: nat, attempts: nat, end: nat)
    requires ClockAdvances(env, interval)
    requires attempts > 1 ==> env(attempts - 2).beginAt < end
    ensures FewAttempts(env, interval, attempts, end)
  {
    if attempts > 1 {
      ClockAfter(env, interval, attempts - 2);
    }
  }

  lemma {:induction false} ClockReaches(env: nat -> Attempt, interval: nat, k: nat)
    requires ClockAdvances(env, interval) && interval > 0
    ensures k <= env(k).beginAt
  {
    if k > 0 {
      ClockReaches(env, interval, k - 1);
      assert BeginsLater(env(k - 1), env(k - 1 + 1), interval);
    }
  }

  /** Once requested, a cancellation stays requested. */
  ghost predicate CancellationSticks(env: nat -> Attempt) {
    forall k: nat :: StaysCancelled(env(k), env(k + 1))
  }

  predicate StaysCancelled(e: Attempt, next: Attempt) {
    e.cancelledAtStart ==> next.cancelledBefore
  }

  /** The pause between attempts: what was asked for, but no less than a millisecond. */
  function Interval(requested: nat): (interval: nat)
    ensures requested <= interval && MIN_RETRY_INTERVAL <= interval
    ensures interval == requested || interval == MIN_RETRY_INTERVAL
  {
    if requested < MIN_RETRY_INTERVAL then MIN_RETRY_INTERVAL else requested
  }

  // ---- The loop ----------------------------------------------------------------------------

  /** One pass of the loop goes on to the next. */
  predicate GoesOn(cfg: Config, s: Lifecycle, e: Attempt) {
    && !e.cancelledBefore && !e.cancelledAsleep
    && AttemptOutcome(cfg, s, e).1.Err? && AttemptOutcome(cfg, s, e).0.state == Reconnecting
  }

  /** A pass goes on to the next exactly when nothing is cancelled around it and its attempt can be retried. */
  lemma GoesOnExactly(cfg: Config, s: Lifecycle, e: Attempt)
    requires ValidPolicy(cfg) && Shaped(s) && s.state == Reconnecting
    ensures GoesOn(cfg, s, e) <==> !e.cancelledBefore && !e.cancelledAsleep && Retryable(cfg, s, e)
  {
    AttemptEndsExactly(cfg, s, e);
    AttemptIsSound(cfg, s, e);
  }

  /** The session after `n` passes of the loop, or None if the loop has returned by then. */
  function LoopAfter(cfg: Config, s: Lifecycle, env: nat -> Attempt, n: nat): Option<Lifecycle> {
    if n == 0 then Some(s)
    else
      var before := LoopAfter(cfg, s, env, n - 1);
      if before.None? || !GoesOn(cfg, before.value, env(n - 1)) then None
      else Some(AttemptOutcome(cfg, before.value, env(n - 1)).0)
  }

  /** Marks a pass, so that it is unfolded where a proof considers it and nowhere else. */
  predicate Considered(k: nat) { true }

  /** Whether pass number `k` goes on to the next. */
  ghost predicate PassGoesOn(cfg: Config, s: Lifecycle, env: nat -> Attempt, k: nat, goesOn: bool) {
    forall j: nat {:trigger Considered(j)} :: Considered(j) && j == k ==> (goesOn <==> GoesOn(cfg, s, env(j)))
  }

  /** The first `n` passes all go on. */
  ghost predicate PassedUpTo(cfg: Config, s: Lifecycle, env: nat -> Attempt, n: nat) {
    forall k: nat {:trigger Considered(k)} :: Considered(k) && k < n ==> GoesOn(cfg, s, env(k))
  }

  /** The loop returns in its pass number `last`, counted from zero. */
  ghost predicate ReturnsAt(cfg: Config, s: Lifecycle, env: nat -> Attempt, last: nat) {
    PassedUpTo(cfg, s, env, last) && PassGoesOn(cfg, s, env, last, false)
  }

  lemma PassedOneMore(cfg: Config, s: Lifecycle, env: nat -> Attempt, n: nat)
    requires PassedUpTo(cfg, s, env, n) && PassGoesOn(cfg, s, env, n, true)
    ensures PassedUpTo(cfg, s, env, n + 1)
  {
  }

  lemma CancelledPassReturns(cfg: Config, s: Lifecycle, env: nat -> Attempt, n: nat)
    requires env(n).cancelledBefore
    ensures PassGoesOn(cfg, s, env, n, false)
  {
  }

  lemma {:induction false} PassesGoOn(cfg: Config, s: Lifecycle, env: nat -> Attempt, n: nat)
    requires ValidPolicy(cfg) && Shaped(s) && PassedUpTo(cfg, s, env, n)
    ensures LoopAfter(cfg, s, env, n) == Some(s)
  {
    if n > 0 {
      PassesGoOn(cfg, s, env, n - 1);
      assert Considered(n - 1);
      AttemptIsSound(cfg, s, env(n - 1));
    }
  }

  /** Returning in a pass is what the loop does: it was still running before that pass and is not after it. */
  lemma ReturnsAtIsExact(cfg: Config, s: Lifecycle, env: nat -> Attempt, last: nat)
    requires ValidPolicy(cfg) && Shaped(s) && ReturnsAt(cfg, s, env, last)
    ensures LoopAfter(cfg, s, env, last) == Some(s) && LoopAfter(cfg, s, env, last + 1).None?
  {
    PassesGoOn(cfg, s, env, last);
    assert Considered(last);
  }

  /** A session for which even the last representable second is not too late to reconnect. */
  predicate CanReconnectForever(cfg: Config, s: Lifecycle) {
    CanReconnect(cfg, s, U64_MAX)
  }

  /** An attempt that is retried began before the session gives up. */
  lemma RetriedBeforeGiveUp(cfg: Config, s: Lifecycle, e: Attempt)
    requires ValidPolicy(cfg) && Shaped(s) && s.state == Reconnecting && !CanReconnectForever(cfg, s)
    requires CanReconnect(cfg, s, Seconds(e.beginAt))
    ensures e.beginAt < GiveUp(cfg, s) * NANOS
  {
    ReconnectsUntilGiveUp(cfg, s, Seconds(e.beginAt));
    ReconnectsUntilGiveUp(cfg, s, U64_MAX);
  }

  /** One pass of the loop that was not cancelled beforehand: the attempt, the failure path and the pause. */
  method RetryPass(s: ClientSession, env: nat -> Attempt, k: nat, ghost end: nat)
    returns (r: Result<(), RuntimeError>, goesOn: bool)
    requires ValidPolicy(s.cfg) && Shaped(s.Current()) && !env(k).cancelledBefore && EndsBy(s.cfg, s.Current(), end)
    modifies s
    ensures PassGoesOn(s.cfg, old(s.Current()), env, k, goesOn)
    ensures goesOn ==> s.Current() == old(s.Current()) && s.state == Reconnecting
    ensures goesOn && !env(k).cancelledAtStart ==> env(k).beginAt < end
    ensures !goesOn && r.Ok? ==> ConnectedInTime(s.cfg, old(s.Current()), env(k), s.Current())
    ensures !goesOn && r.Err? ==> s.state == Expired || (r.error == Shutdown && s.Current() == old(s.Current()))
  {
    AttemptIsSound(s.cfg, s.Current(), env(k));
    r := ReconnectAttempt(s, env(k));
    if r.Ok? {
      return r, false;
    }
    if s.state != Reconnecting {
      var _ := s.ExpireNow();
      return r, false;
    }
    if env(k).cancelledAsleep {
      return Err(Shutdown), false;
    }
    if !env(k).cancelledAtStart {
      RetriedBeforeGiveUp(s.cfg, s.Current(), env(k));
    }
    goesOn := true;
  }

  /** The session gives up, and `end` is when. */
  ghost predicate EndsBy(cfg: Config, s: Lifecycle, end: nat) {
    !CanReconnectForever(cfg, s) && (s.state == Reconnecting && Shaped(s) ==> end == GiveUp(cfg, s) * NANOS)
  }

  /**
   * `reconnect_with_retry`. Under an advancing clock the loop ends unless the session could reconnect even in the
   * last representable second, and the number of attempts is bounded by the time left until the outage window
   * closes or the duration is over, whichever is first. It ends connected, in time, or cancelled, or with the
   * session expired. `LoopEndsExactly` shows that the excluded sessions are exactly those that may retry for ever.
   */
  method ReconnectWithRetry(s: ClientSession, env: nat -> Attempt, retryInterval: nat)
    returns (r: Result<(), RuntimeError>, attempts: nat)
    requires ValidPolicy(s.cfg) && Shaped(s.Current())
    requires !CanReconnectForever(s.cfg, s.Current())
    requires ClockAdvances(env, Interval(retryInterval)) && CancellationSticks(env)
    modifies s
    ensures r.Ok? ==> attempts > 0 && ConnectedInTime(s.cfg, old(s.Current()), env(attempts - 1), s.Current())
    ensures r.Err? ==> s.state == Expired || (r.error == Shutdown && s.Current() == old(s.Current()))
    ensures old(s.state) != Reconnecting ==> attempts <= 1
    ensures old(s.state) == Reconnecting ==>
              FewAttempts(env, Interval(retryInterval), attempts, GiveUp(s.cfg, old(s.Current())) * NANOS)
    ensures || (attempts > 0 && ReturnsAt(s.cfg, old(s.Current()), env, attempts - 1))
            || (env(attempts).cancelledBefore && ReturnsAt(s.cfg, old(s.Current()), env, attempts))
  {
    var interval := Interval(retryInterval);
    ghost var start := s.Current();
    ghost var end := if s.state == Reconnecting then GiveUp(s.cfg, start) * NANOS else 0;
    attempts := 0;
    while true
      invariant s.Current() == start
      invariant PassedUpTo(s.cfg, start, env, attempts)
      invariant attempts > 0 ==> s.state == Reconnecting
      invariant attempts > 0 && !env(attempts).cancelledBefore ==> env(attempts - 1).beginAt < end
      invariant attempts > 1 ==> env(attempts - 2).beginAt < end
      decreases !env(attempts).cancelledBefore, end - env(attempts).beginAt
    {
      AttemptsAreFew(env, interval, attempts, end);
      if env(attempts).cancelledBefore {
        CancelledPassReturns(s.cfg, start, env, attempts);
        return Err(Shutdown), attempts;
      }
      AttemptsAreFew(env, interval, attempts + 1, end);
      assert BeginsLater(env(attempts), env(attempts + 1), interval);
      assert StaysCancelled(env(attempts), env(attempts + 1));
      var goesOn;
      r, goesOn := RetryPass(s, env, attempts, end);
      attempts := attempts + 1;
      if !goesOn {
        return;
      }
      PassedOneMore(s.cfg, start, env, attempts - 1);
    }
  }

  /** Passing the loop leaves the session as it was. */
  lemma {:induction false} LoopKeepsSession(cfg: Config, s: Lifecycle, env: nat -> Attempt, n: nat)
    requires ValidPolicy(cfg) && Shaped(s)
    ensures LoopAfter(cfg, s, env, n).Some? ==> LoopAfter(cfg, s, env, n).value == s
  {
    if n > 0 {
      LoopKeepsSession(cfg, s, env, n - 1);
      AttemptIsSound(cfg, s, env(n - 1));
    }
  }

  /** When the session gives up within representable time, the loop ends on every environment. */
  lemma LoopEnds(cfg: Config, s: Lifecycle, env: nat -> Attempt, interval: nat) returns (n: nat)
    requires ValidPolicy(cfg) && Shaped(s) && s.state == Reconnecting && !CanReconnectForever(cfg, s)
    requires interval > 0 && ClockAdvances(env, interval) && CancellationSticks(env)
    ensures LoopAfter(cfg, s, env, n).None?
  {
    var last := GiveUp(cfg, s) * NANOS;
    n := last + 2;
    ClockReaches(env, interval, last);
    LoopKeepsSession(cfg, s, env, last);
    LoopKeepsSession(cfg, s, env, last + 1);
    LateAttempt(cfg, s, env(last));
    assert StaysCancelled(env(last), env(last + 1));
  }

  /** An attempt that begins too late is not retried unless it was cancelled. */
  lemma LateAttempt(cfg: Config, s: Lifecycle, e: Attempt)
    requires ValidPolicy(cfg) && Shaped(s) && s.state == Reconnecting && !CanReconnectForever(cfg, s)
    requires e.beginAt >= GiveUp(cfg, s) * NANOS
    ensures e.cancelledAtStart || AttemptOutcome(cfg, s, e).0.state != Reconnecting
  {
    AttemptIsSound(cfg, s, e);
    if CanReconnect(cfg, s, Seconds(e.beginAt)) {
      RetriedBeforeGiveUp(cfg, s, e);
    }
  }

  /** Otherwise, as long as dialling fails and nothing is cancelled, it never ends, whatever the clock does. */
  lemma LoopGoesOn(cfg: Config, s: Lifecycle, env: nat -> Attempt, n: nat)
    requires ValidPolicy(cfg) && Shaped(s) && CanReconnectForever(cfg, s)
    requires forall k: nat :: Fails(env(k))
    ensures LoopAfter(cfg, s, env, n) == Some(s)
  {
    forall k: nat | Considered(k) && k < n ensures GoesOn(cfg, s, env(k)) {
      FailedPassGoesOn(cfg, s, env(k));
    }
    PassesGoOn(cfg, s, env, n);
  }

  lemma FailedPassGoesOn(cfg: Config, s: Lifecycle, e: Attempt)
    requires ValidPolicy(cfg) && Shaped(s) && CanReconnectForever(cfg, s) && Fails(e)
    ensures GoesOn(cfg, s, e)
  {
    StillReconnects(cfg, s, Seconds(e.beginAt));
    StillReconnects(cfg, s, Seconds(e.finishAt));
  }

  predicate Fails(e: Attempt) {
    !e.cancelledBefore && !e.cancelledAtStart && !e.cancelledAsleep && (e.dial == Refused || e.dial == Lost)
  }

  lemma StillReconnects(cfg: Config, s: Lifecycle, now: u64)
    requires ValidPolicy(cfg) && Shaped(s) && CanReconnectForever(cfg, s)
    ensures CanReconnect(cfg, s, now)
  {
    ReconnectsUntilGiveUp(cfg, s, now);
    ReconnectsUntilGiveUp(cfg, s, U64_MAX);
  }

  /** The loop ends on every environment. */
  ghost predicate AlwaysEnds(cfg: Config, s: Lifecycle, interval: nat) {
    forall env: nat -> Attempt ::
      ClockAdvances(env, interval) && CancellationSticks(env) ==> exists n: nat :: LoopAfter(cfg, s, env, n).None?
  }

  /** The exact condition: a reconnecting session's loop always ends if and only if the session cannot reconnect in
      the last representable second, which its deadline and its duration decide. */
  lemma LoopEndsExactly(cfg: Config, s: Lifecycle, interval: nat)
    requires ValidPolicy(cfg) && Shaped(s) && s.state == Reconnecting && interval > 0
    ensures AlwaysEnds(cfg, s, interval) <==> !CanReconnectForever(cfg, s)
    ensures CanReconnectForever(cfg, s) <==>
              s.deadline.value == U64_MAX && (U64_MAX - s.established.value) * NANOS < cfg.maxDuration
  {
    if CanReconnectForever(cfg, s) {
      var env := (k: nat) => Attempt(false, false, k * interval, Refused, k * interval, true, false);
      forall k: nat ensures BeginsLater(env(k), env(k + 1), interval) {
        assert (k + 1) * interval == k * interval + interval;
      }
      assert ClockAdvances(env, interval) && CancellationSticks(env);
      forall n: nat ensures LoopAfter(cfg, s, env, n).Some? {
        LoopGoesOn(cfg, s, env, n);
      }
    } else {
      forall env: nat -> Attempt | ClockAdvances(env, interval) && CancellationSticks(env)
        ensures exists n: nat :: LoopAfter(cfg, s, env, n).None?
      {
        var n := LoopEnds(cfg, s, env, interval);
      }
    }
  }

  /** Durations of the source's type for which the failing side is reached. */
  const ENDLESS := Config(Claims(true, true, 0, 10, 10, true, true), (U64_MAX + 1) * NANOS - 1, U64_MAX * NANOS)

  /** It happens: with the longest durations the policy accepts, a session that connects and loses its transport in
      second 1 may retry for ever, whatever the retry interval. */
  lemma EndlessRetryIsReachable(interval: nat)
    requires interval > 0
    ensures ValidPolicy(ENDLESS)
    ensures var s := After(ENDLESS, [OpBeginConnect(1), OpConnected(1), OpTransportLost(1)]);
            s == Lifecycle(Reconnecting, Some(U64_MAX), Some(1)) && !AlwaysEnds(ENDLESS, s, interval)
  {
    var ops := [OpBeginConnect(1), OpConnected(1), OpTransportLost(1)];
    assert ops[..2][..1] == ops[..1] && ops[..1][..0] == [];
    assert After(ENDLESS, ops[..1]) == Lifecycle(Connecting, None, None);
    assert After(ENDLESS, ops[..2]) == Lifecycle(Connected, None, Some(1));
    LoopEndsExactly(ENDLESS, After(ENDLESS, ops), interval);
  }
}
