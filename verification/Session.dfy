/** The client session lifecycle: a timed state machine over whole-second timestamps. */
module Session {
  import opened Wrappers
  import opened Octets
  import opened Time

  datatype ClientState = Disconnected | Connecting | Connected | Reconnecting | Expired

  datatype ClientError =
    | SessionExpired
    | InvalidTransition(from: ClientState, to: ClientState)
    | IdentityMismatch
    | CapabilityNotActive
    | CapabilityExpired
    | RelayTokenExpired
    | ReconnectWindowElapsed
    | InvalidCapabilitySignature
    | InvalidRelaySignature

  /** The signed claims; the cryptographic and identity checks enter as their outcomes. */
  datatype Claims = Claims(
    identitiesMatch: bool,
    wellFormed: bool,
    notBefore: u64,
    expiresAt: u64,
    relayExpiresAt: u64,
    capabilitySigned: bool,
    relaySigned: bool)

  /** `validate_claims`: the first failing check. */
  function ClaimsFault(c: Claims, now: u64): Option<ClientError> {
    if !c.identitiesMatch then Some(IdentityMismatch)
    else if !c.wellFormed then Some(IdentityMismatch)
    else if now < c.notBefore then Some(CapabilityNotActive)
    else if now >= c.expiresAt then Some(CapabilityExpired)
    else if now >= c.relayExpiresAt then Some(RelayTokenExpired)
    else if !c.capabilitySigned then Some(InvalidCapabilitySignature)
    else if !c.relaySigned then Some(InvalidRelaySignature)
    else None
  }

  /** What may be wrong with the claims at a time. */
  predicate Violates(c: Claims, now: u64, e: ClientError) {
    match e
    case IdentityMismatch => !(c.identitiesMatch && c.wellFormed)
    case CapabilityNotActive => now < c.notBefore
    case CapabilityExpired => c.expiresAt <= now
    case RelayTokenExpired => c.relayExpiresAt <= now
    case InvalidCapabilitySignature => !c.capabilitySigned
    case InvalidRelaySignature => !c.relaySigned
    case _ => false
  }

  /** In which order the faults are reported. */
  function Precedence(e: ClientError): nat {
    match e
    case IdentityMismatch => 0
    case CapabilityNotActive => 1
    case CapabilityExpired => 2
    case RelayTokenExpired => 3
    case InvalidCapabilitySignature => 4
    case InvalidRelaySignature => 5
    case _ => 6
  }

  /** Claims that say what they should, are in force and carry both signatures. */
  predicate InForce(c: Claims, now: u64) {
    && c.identitiesMatch && c.wellFormed && c.capabilitySigned && c.relaySigned
    && c.notBefore <= now < c.expiresAt && now < c.relayExpiresAt
  }

  /** Of everything wrong with the claims, this is reported. */
  ghost predicate FirstViolation(c: Claims, now: u64, e: ClientError) {
    Violates(c, now, e) && forall d :: Violates(c, now, d) ==> Precedence(e) <= Precedence(d)
  }

  /** Claims pass exactly when nothing is wrong with them, and otherwise the first fault is reported. */
  lemma ClaimsFaultExactly(c: Claims, now: u64, e: ClientError)
    ensures ClaimsFault(c, now).None? <==> InForce(c, now)
    ensures ClaimsFault(c, now) == Some(e) <==> FirstViolation(c, now, e)
  {
    var fault := ClaimsFault(c, now);
    assert fault.Some? ==> Violates(c, now, fault.value);
  }

  /** What a session is created with; `SessionPolicy::new` refuses zero durations. */
  datatype Config = Config(claims: Claims, maxDuration: nat, reconnectWindow: nat)

  predicate ValidPolicy(cfg: Config) {
    cfg.maxDuration > 0 && cfg.reconnectWindow > 0
  }

  datatype Lifecycle = Lifecycle(state: ClientState, deadline: Option<u64>, established: Option<u64>)

  const FRESH := Lifecycle(Disconnected, None, None)

  datatype Step = Step(next: Lifecycle, outcome: Result<(), ClientError>)

  function Fail(s: Lifecycle, e: ClientError): Step {
    Step(s, Err(e))
  }

  /** `saturating_add` of a window's whole seconds. */
  function DeadlineFrom(now: u64, window: nat): u64 {
    if now + window / NANOS > U64_MAX then U64_MAX else now + window / NANOS
  }

  /** At `now`, the reconnect window that opened at `since` has not closed. */
  predicate InWindow(cfg: Config, since: u64, now: u64) {
    now * NANOS <= since * NANOS + cfg.reconnectWindow
  }

  /** The deadline that is kept exactly while the window that opened at `since` is open. */
  ghost predicate Closes(cfg: Config, since: u64, deadline: Option<u64>) {
    deadline.Some? && forall now: u64 :: now <= deadline.value <==> InWindow(cfg, since, now)
  }

  /** The deadline is the last whole second of the window, or the last representable one. */
  lemma DeadlineClosesWindow(cfg: Config, since: u64)
    ensures Closes(cfg, since, Some(DeadlineFrom(since, cfg.reconnectWindow)))
    ensures var d := DeadlineFrom(since, cfg.reconnectWindow);
            && d * NANOS <= since * NANOS + cfg.reconnectWindow
            && (d < U64_MAX ==> since * NANOS + cfg.reconnectWindow < (d + 1) * NANOS)
  {
  }

  /** The established duration has reached the maximum. */
  predicate DurationExpired(cfg: Config, s: Lifecycle, now: u64) {
    && s.established.Some?
    && (if now < s.established.value then 0 else now - s.established.value) * NANOS >= cfg.maxDuration
  }

  predicate CanReconnect(cfg: Config, s: Lifecycle, now: u64) {
    s.state == Reconnecting && s.deadline.Some? && now <= s.deadline.value && !DurationExpired(cfg, s, now)
  }

  function EnsureActive(cfg: Config, s: Lifecycle, now: u64): Step {
    if s.state == Expired then Fail(s, SessionExpired)
    else if s.state != Connected then Fail(s, InvalidTransition(s.state, Connected))
    else if ClaimsFault(cfg.claims, now).Some? then Fail(s, ClaimsFault(cfg.claims, now).value)
    else if DurationExpired(cfg, s, now) then Fail(s.(state := Expired, deadline := None), SessionExpired)
    else Step(s, Ok(()))
  }

  function BeginConnect(cfg: Config, s: Lifecycle, now: u64): Step {
    if s.state == Expired then Fail(s, SessionExpired)
    else if s.state == Reconnecting && !CanReconnect(cfg, s, now) then
      Fail(s.(state := Expired), ReconnectWindowElapsed)
    else if s.state != Reconnecting && s.state != Disconnected then Fail(s, InvalidTransition(s.state, Connecting))
    else if ClaimsFault(cfg.claims, now).Some? then Fail(s, ClaimsFault(cfg.claims, now).value)
    else Step(s.(state := Connecting), Ok(()))
  }

  function MarkConnected(cfg: Config, s: Lifecycle, now: u64): Step {
    if s.state == Expired then Fail(s, SessionExpired)
    else if s.state != Connecting then Fail(s, InvalidTransition(s.state, Connected))
    else if s.established.Some? && s.deadline.Some? && now > s.deadline.value then
      Fail(s.(state := Expired), ReconnectWindowElapsed)
    else if ClaimsFault(cfg.claims, now).Some? then Fail(s, ClaimsFault(cfg.claims, now).value)
    else if DurationExpired(cfg, s, now) then Fail(s.(state := Expired), SessionExpired)
    else Step(Lifecycle(Connected, None, if s.established.None? then Some(now) else s.established), Ok(()))
  }

  function AttemptFailed(cfg: Config, s: Lifecycle, now: u64): Step {
    if s.state != Connecting then Fail(s, InvalidTransition(s.state, Reconnecting))
    else if DurationExpired(cfg, s, now) then Fail(s.(state := Expired, deadline := None), SessionExpired)
    else if s.deadline.None? then Fail(s.(state := Expired), ReconnectWindowElapsed)
    else if now > s.deadline.value then Fail(s.(state := Expired, deadline := None), ReconnectWindowElapsed)
    else Step(s.(state := Reconnecting), Ok(()))
  }

  function TransportLost(cfg: Config, s: Lifecycle, now: u64): Step {
    if s.state == Expired then Fail(s, SessionExpired)
    else if s.state != Connected then Fail(s, InvalidTransition(s.state, Reconnecting))
    else if DurationExpired(cfg, s, now) then Fail(s.(state := Expired), SessionExpired)
    else Step(s.(state := Reconnecting, deadline := Some(DeadlineFrom(now, cfg.reconnectWindow))), Ok(()))
  }

  function Expire(s: Lifecycle): Step {
    if s.state == Expired then Fail(s, SessionExpired) else Step(s.(state := Expired, deadline := None), Ok(()))
  }

  // ---- The mutable session -----------------------------------------------------------------

  class ClientSession {
    const cfg: Config
    var state: ClientState
    var reconnectDeadline: Option<u64>
    var establishedAt: Option<u64>

    function Current(): Lifecycle
      reads this
    {
      Lifecycle(state, reconnectDeadline, establishedAt)
    }

    constructor (cfg: Config)
      ensures this.cfg == cfg && Current() == FRESH
    {
      this.cfg := cfg;
      state, reconnectDeadline, establishedAt := Disconnected, None, None;
    }

    method EnsureActiveAt(now: u64) returns (r: Result<(), ClientError>)
      modifies this
      ensures Step(Current(), r) == EnsureActive(cfg, old(Current()), now)
    {
      if state == Expired { return Err(SessionExpired); }
      if state != Connected { return Err(InvalidTransition(state, Connected)); }
      var fault := ClaimsFault(cfg.claims, now);
      if fault.Some? { return Err(fault.value); }
      if DurationExpired(cfg, Current(), now) {
        state := Expired;
        reconnectDeadline := None;
        return Err(SessionExpired);
      }
      r := Ok(());
    }

    method BeginConnectAt(now: u64) returns (r: Result<(), ClientError>)
      modifies this
      ensures Step(Current(), r) == BeginConnect(cfg, old(Current()), now)
    {
      if state == Expired { return Err(SessionExpired); }
      if state == Reconnecting {
        if !CanReconnect(cfg, Current(), now) {
          state := Expired;
          return Err(ReconnectWindowElapsed);
        }
      } else if state != Disconnected {
        return Err(InvalidTransition(state, Connecting));
      }
      var fault := ClaimsFault(cfg.claims, now);
      if fault.Some? { return Err(fault.value); }
      state := Connecting;
      r := Ok(());
    }

    method ConnectedAt(now: u64) returns (r: Result<(), ClientError>)
      modifies this
      ensures Step(Current(), r) == MarkConnected(cfg, old(Current()), now)
    {
      if state == Expired { return Err(SessionExpired); }
      if state != Connecting { return Err(InvalidTransition(state, Connected)); }
      if establishedAt.Some? && reconnectDeadline.Some? && now > reconnectDeadline.value {
        state := Expired;
        return Err(ReconnectWindowElapsed);
      }
      var fault := ClaimsFault(cfg.claims, now);
      if fault.Some? { return Err(fault.value); }
      if establishedAt.Some? && DurationExpired(cfg, Current(), now) {
        state := Expired;
        return Err(SessionExpired);
      }
      if establishedAt.None? {
        establishedAt := Some(now);
      }
      reconnectDeadline := None;
      state := Connected;
      r := Ok(());
    }

    method ReconnectAttemptFailedAt(now: u64) returns (r: Result<(), ClientError>)
      modifies this
      ensures Step(Current(), r) == AttemptFailed(cfg, old(Current()), now)
    {
      if state != Connecting { return Err(InvalidTransition(state, Reconnecting)); }
      if DurationExpired(cfg, Current(), now) {
        state := Expired;
        reconnectDeadline := None;
        return Err(SessionExpired);
      }
      if reconnectDeadline.None? {
        state := Expired;
        return Err(ReconnectWindowElapsed);
      }
      if now > reconnectDeadline.value {
        state := Expired;
        reconnectDeadline := None;
        return Err(ReconnectWindowElapsed);
      }
      state := Reconnecting;
      r := Ok(());
    }

    method TransportLostAt(now: u64) returns (r: Result<(), ClientError>)
      modifies this
      ensures Step(Current(), r) == TransportLost(cfg, old(Current()), now)
    {
      if state == Expired { return Err(SessionExpired); }
      if state != Connected { return Err(InvalidTransition(state, Reconnecting)); }
      if DurationExpired(cfg, Current(), now) {
        state := Expired;
        return Err(SessionExpired);
      }
      reconnectDeadline := Some(DeadlineFrom(now, cfg.reconnectWindow));
      state := Reconnecting;
      r := Ok(());
    }

    method ExpireNow() returns (r: Result<(), ClientError>)
      modifies this
      ensures Step(Current(), r) == Expire(old(Current()))
    {
      if state == Expired { return Err(SessionExpired); }
      state := Expired;
      reconnectDeadline := None;
      r := Ok(());
    }
  }

  // ---- Whole runs --------------------------------------------------------------------------

  datatype Op =
    | OpEnsureActive(now: u64)
    | OpBeginConnect(now: u64)
    | OpConnected(now: u64)
    | OpAttemptFailed(now: u64)
    | OpTransportLost(now: u64)
    | OpExpire

  function Apply(cfg: Config, s: Lifecycle, op: Op): Step {
    match op
    case OpEnsureActive(now) => EnsureActive(cfg, s, now)
    case OpBeginConnect(now) => BeginConnect(cfg, s, now)
    case OpConnected(now) => MarkConnected(cfg, s, now)
    case OpAttemptFailed(now) => AttemptFailed(cfg, s, now)
    case OpTransportLost(now) => TransportLost(cfg, s, now)
    case OpExpire => Expire(s)
  }

  /** The session after a run of operations, in any order and at any times. */
  function After(cfg: Config, ops: seq<Op>): Lifecycle {
    if ops == [] then FRESH else Apply(cfg, After(cfg, ops[..|ops| - 1]), ops[|ops| - 1]).next
  }

  /** The state determines which of the two times are set. */
  predicate Shaped(s: Lifecycle) {
    match s.state
    case Disconnected => s.deadline.None? && s.established.None?
    case Connecting => s.deadline.Some? <==> s.established.Some?
    case Connected => s.deadline.None? && s.established.Some?
    case Reconnecting => s.deadline.Some? && s.established.Some?
    case Expired => true
  }

  /** A time at which the session is within its maximum duration. */
  predicate WithinDuration(cfg: Config, s: Lifecycle, now: u64) {
    s.established.Some? && now * NANOS < s.established.value * NANOS + cfg.maxDuration
  }

  /** One operation: the shape is kept, `Expired` is final, the establishment time is set once, a pending
      deadline is only ever dropped, never moved, and success respects window and duration. */
  lemma StepIsSound(cfg: Config, s: Lifecycle, op: Op)
    requires ValidPolicy(cfg) && Shaped(s)
    ensures var Step(next, r) := Apply(cfg, s, op);
            && Shaped(next)
            && (s.state == Expired ==> next == s && r.Err?)
            && (s.established.Some? ==> next.established == s.established)
            && (s.deadline.Some? ==>
                  next.deadline == s.deadline || (next.deadline.None? && next.state in {Connected, Expired}))
            && (op.OpEnsureActive? && r.Ok? ==> WithinDuration(cfg, next, op.now))
            && (op.OpConnected? && r.Ok? ==> WithinDuration(cfg, next, op.now))
            && (op.OpConnected? && r.Ok? && s.established.Some? ==> s.deadline.Some? && op.now <= s.deadline.value)
            && ((op.OpEnsureActive? || op.OpConnected? || op.OpBeginConnect?) && r.Ok? ==>
                  ClaimsFault(cfg.claims, op.now).None?)
  {
  }

  /** The state a successful operation leaves. */
  function Target(op: Op): ClientState {
    match op
    case OpEnsureActive(_) => Connected
    case OpBeginConnect(_) => Connecting
    case OpConnected(_) => Connected
    case OpAttemptFailed(_) => Reconnecting
    case OpTransportLost(_) => Reconnecting
    case OpExpire => Expired
  }

  /** The states an operation is for. */
  predicate IsFor(op: Op, state: ClientState) {
    match op
    case OpEnsureActive(_) => state == Connected
    case OpBeginConnect(_) => state == Disconnected || state == Reconnecting
    case OpConnected(_) => state == Connecting
    case OpAttemptFailed(_) => state == Connecting
    case OpTransportLost(_) => state == Connected
    case OpExpire => state != Expired
  }

  /** The deadline of the current outage, if there is one, has passed. */
  predicate TooLate(s: Lifecycle, now: u64) {
    s.deadline.Some? && s.deadline.value < now
  }

  /** A session that was once connected is past its maximum duration. */
  predicate Outlived(cfg: Config, s: Lifecycle, now: u64) {
    s.established.Some? && !WithinDuration(cfg, s, now)
  }

  /** The operation needs valid claims. */
  predicate NeedsClaims(op: Op) {
    op.OpEnsureActive? || op.OpBeginConnect? || op.OpConnected?
  }

  /** The operation succeeds: it is for this state, the claims it needs are in force, and time is not up. */
  predicate Succeeds(cfg: Config, s: Lifecycle, op: Op) {
    && IsFor(op, s.state)
    && (NeedsClaims(op) ==> InForce(cfg.claims, op.now))
    && (!op.OpExpire? ==> !TooLate(s, op.now) && !Outlived(cfg, s, op.now))
    && (op.OpAttemptFailed? ==> s.deadline.Some?)
  }

  /** The operation finds that time is up; claims are looked at before the duration, but not before the window and
      not when beginning to reconnect. */
  predicate TimesOut(cfg: Config, s: Lifecycle, op: Op) {
    && IsFor(op, s.state) && !op.OpExpire?
    && (|| TooLate(s, op.now)
        || (op.OpAttemptFailed? && s.deadline.None?)
        || (Outlived(cfg, s, op.now) && (op.OpEnsureActive? || op.OpConnected? ==> InForce(cfg.claims, op.now))))
  }

  /** Every operation succeeds exactly when it should and then reaches its state; it expires the session exactly when
      it finds that time is up, and otherwise leaves it as it was. */
  lemma StepSucceedsExactly(cfg: Config, s: Lifecycle, op: Op)
    requires ValidPolicy(cfg) && Shaped(s)
    ensures var Step(next, r) := Apply(cfg, s, op);
            && (r.Ok? <==> Succeeds(cfg, s, op))
            && (r.Ok? ==> next.state == Target(op))
            && (r.Ok? && (op.OpEnsureActive? || op.OpBeginConnect? || op.OpAttemptFailed?) ==>
                  next == s.(state := Target(op)))
            && (r.Ok? && op.OpExpire? ==> next == s.(state := Expired, deadline := None))
            && (TimesOut(cfg, s, op) ==>
                  && next.state == Expired && next.established == s.established
                  && next.deadline == if op.OpEnsureActive? || op.OpAttemptFailed? then None else s.deadline)
            && (!r.Ok? && !TimesOut(cfg, s, op) ==> next == s)
  {
    if NeedsClaims(op) {
      ClaimsFaultExactly(cfg.claims, op.now, IdentityMismatch);
    }
  }

  /** The error an operation owes: for a wrong state, for time that is up, or for the claims. */
  ghost predicate Owes(cfg: Config, s: Lifecycle, op: Op, e: ClientError) {
    match e
    case InvalidTransition(from, to) =>
      from == s.state && to == Target(op) && !IsFor(op, s.state) && (s.state == Expired ==> op.OpAttemptFailed?)
    case SessionExpired =>
      || (s.state == Expired && !op.OpAttemptFailed?)
      || (TimesOut(cfg, s, op) && !op.OpBeginConnect? && Outlived(cfg, s, op.now)
          && (op.OpConnected? ==> !TooLate(s, op.now)))
    case ReconnectWindowElapsed =>
      && TimesOut(cfg, s, op)
      && (op.OpBeginConnect? || !Outlived(cfg, s, op.now) || (op.OpConnected? && TooLate(s, op.now)))
    case _ => IsFor(op, s.state) && NeedsClaims(op) && !TimesOut(cfg, s, op) && FirstViolation(cfg.claims, op.now, e)
  }

  /** Every failure is reported for what it is. */
  lemma FailuresAreExact(cfg: Config, s: Lifecycle, op: Op, e: ClientError)
    requires ValidPolicy(cfg) && Shaped(s)
    ensures Apply(cfg, s, op).outcome == Err(e) <==> Owes(cfg, s, op, e)
  {
    if NeedsClaims(op) {
      ClaimsFaultExactly(cfg.claims, op.now, e);
    }
  }

  /** The outage that operation `i` began is still the current one after `ops`. */
  ghost predicate OutageSince(cfg: Config, ops: seq<Op>, i: nat) {
    && i < |ops| && ops[i].OpTransportLost?
    && TransportLost(cfg, After(cfg, ops[..i]), ops[i].now).outcome.Ok?
    && forall j :: i < j <= |ops| ==> Closes(cfg, ops[i].now, After(cfg, ops[..j]).deadline)
  }

  /** Over every run: a pending deadline always closes the window that opened when the transport was lost,
      however many attempts have failed since. */
  lemma {:induction false} DeadlineIsSetByTheLoss(cfg: Config, ops: seq<Op>)
    requires ValidPolicy(cfg)
    ensures Shaped(After(cfg, ops))
    ensures After(cfg, ops).deadline.Some? ==> exists i: nat :: OutageSince(cfg, ops, i)
  {
    if ops != [] {
      var init, op := ops[..|ops| - 1], ops[|ops| - 1];
      DeadlineIsSetByTheLoss(cfg, init);
      var s, next := After(cfg, init), After(cfg, ops);
      StepIsSound(cfg, s, op);
      assert ops[..|ops|] == ops;
      if next.deadline.Some? {
        if s.deadline.Some? {
          var i: nat :| OutageSince(cfg, init, i);
          assert init[..i] == ops[..i];
          forall j | i < j <= |ops| ensures Closes(cfg, ops[i].now, After(cfg, ops[..j]).deadline) {
            if j < |ops| {
              assert ops[..j] == init[..j];
            } else {
              assert init[..|init|] == init;
            }
          }
          assert OutageSince(cfg, ops, i);
        } else {
          assert ops[..|ops| - 1] == init;
          DeadlineClosesWindow(cfg, op.now);
          assert OutageSince(cfg, ops, |ops| - 1);
        }
      }
    }
  }

  /** Over every run: the establishment time, once set, never changes, and neither does an expired session. */
  lemma {:induction false} EstablishedOnce(cfg: Config, ops: seq<Op>, n: nat)
    requires ValidPolicy(cfg) && n <= |ops|
    ensures After(cfg, ops[..n]).established.Some? ==> After(cfg, ops).established == After(cfg, ops[..n]).established
    ensures After(cfg, ops[..n]).state == Expired ==> After(cfg, ops) == After(cfg, ops[..n])
  {
    if n == |ops| {
      assert ops[..n] == ops;
    } else {
      var init := ops[..|ops| - 1];
      assert init[..n] == ops[..n];
      EstablishedOnce(cfg, init, n);
      DeadlineIsSetByTheLoss(cfg, init);
      StepIsSound(cfg, After(cfg, init), ops[|ops| - 1]);
    }
  }

  /** Operation `i` is a connect that succeeds. */
  predicate Connects(cfg: Config, ops: seq<Op>, i: nat) {
    i < |ops| && ops[i].OpConnected? && MarkConnected(cfg, After(cfg, ops[..i]), ops[i].now).outcome.Ok?
  }

  /** Operation `i` is the first connect that succeeds. */
  ghost predicate FirstConnects(cfg: Config, ops: seq<Op>, i: nat) {
    Connects(cfg, ops, i) && forall j: nat :: j < i ==> !Connects(cfg, ops, j)
  }

  /** Only a successful connect sets the establishment time. */
  lemma {:induction false} UnestablishedNeverConnected(cfg: Config, ops: seq<Op>, j: nat)
    requires ValidPolicy(cfg) && After(cfg, ops).established.None?
    ensures !Connects(cfg, ops, j)
  {
    if Connects(cfg, ops, j) {
      assert ops[..j + 1][..j] == ops[..j];
      EstablishedOnce(cfg, ops, j + 1);
    }
  }

  /** Over every run: the establishment time is that of the first successful connect, and is set if there was one. */
  lemma {:induction false} EstablishedByFirstConnect(cfg: Config, ops: seq<Op>)
    requires ValidPolicy(cfg)
    ensures After(cfg, ops).established.Some? ==>
              exists i: nat :: FirstConnects(cfg, ops, i) && After(cfg, ops).established == Some(ops[i].now)
    ensures After(cfg, ops).established.None? ==> forall i: nat :: !Connects(cfg, ops, i)
  {
    if After(cfg, ops).established.None? {
      forall i: nat ensures !Connects(cfg, ops, i) {
        UnestablishedNeverConnected(cfg, ops, i);
      }
    } else if ops != [] {
      var init, last := ops[..|ops| - 1], |ops| - 1;
      forall j: nat | j < last ensures Connects(cfg, ops, j) <==> Connects(cfg, init, j) {
        assert init[..j] == ops[..j];
      }
      if After(cfg, init).established.None? {
        forall j: nat | j < last ensures !Connects(cfg, ops, j) {
          UnestablishedNeverConnected(cfg, init, j);
        }
        assert FirstConnects(cfg, ops, last);
      } else {
        EstablishedByFirstConnect(cfg, init);
        var i: nat :| FirstConnects(cfg, init, i) && After(cfg, init).established == Some(init[i].now);
        DeadlineIsSetByTheLoss(cfg, init);
        StepIsSound(cfg, After(cfg, init), ops[last]);
        assert FirstConnects(cfg, ops, i);
      }
    }
  }

  /** Over every run: a reconnect that succeeds does so within the window that opened when the transport
      was lost, and strictly before the establishment time plus the maximum duration. */
  lemma ReconnectWithinWindow(cfg: Config, ops: seq<Op>, now: u64)
    requires ValidPolicy(cfg)
    requires After(cfg, ops).established.Some? && MarkConnected(cfg, After(cfg, ops), now).outcome.Ok?
    ensures exists i: nat :: OutageSince(cfg, ops, i) && InWindow(cfg, ops[i].now, now)
    ensures WithinDuration(cfg, After(cfg, ops), now)
  {
    DeadlineIsSetByTheLoss(cfg, ops);
    StepIsSound(cfg, After(cfg, ops), OpConnected(now));
    var i: nat :| OutageSince(cfg, ops, i);
    assert ops[..|ops|] == ops;
    assert InWindow(cfg, ops[i].now, now);
  }

  /** A time at which a session that lost its transport at `since` may come back. */
  predicate MayReturn(cfg: Config, s: Lifecycle, since: u64, now: u64) {
    InForce(cfg.claims, now) && InWindow(cfg, since, now) && WithinDuration(cfg, s, now)
  }

  /** Over every run: while reconnecting, an attempt begins if and only if the claims are in force and neither window
      nor duration is over, and it connects if and only if the same holds when it does; too late to begin, the
      session expires. */
  lemma ReconnectsExactly(cfg: Config, ops: seq<Op>, i: nat, beginAt: u64, now: u64)
    requires ValidPolicy(cfg) && OutageSince(cfg, ops, i) && After(cfg, ops).state == Reconnecting
    ensures var s := After(cfg, ops);
            var begun := BeginConnect(cfg, s, beginAt);
            && (begun.outcome.Ok? <==> MayReturn(cfg, s, ops[i].now, beginAt))
            && (begun.next.state == Expired <==>
                  !(InWindow(cfg, ops[i].now, beginAt) && WithinDuration(cfg, s, beginAt)))
            && (begun.outcome.Ok? ==>
                  var connected := MarkConnected(cfg, begun.next, now);
                  && (connected.outcome.Ok? <==> MayReturn(cfg, s, ops[i].now, now))
                  && (connected.outcome.Ok? ==> connected.next == Lifecycle(Connected, None, s.established)))
  {
    DeadlineIsSetByTheLoss(cfg, ops);
    var s := After(cfg, ops);
    assert ops[..|ops|] == ops;
    assert Closes(cfg, ops[i].now, s.deadline);
    assert beginAt <= s.deadline.value <==> InWindow(cfg, ops[i].now, beginAt);
    assert now <= s.deadline.value <==> InWindow(cfg, ops[i].now, now);
    StepSucceedsExactly(cfg, s, OpBeginConnect(beginAt));
    if BeginConnect(cfg, s, beginAt).outcome.Ok? {
      StepSucceedsExactly(cfg, s.(state := Connecting), OpConnected(now));
    }
  }
}
