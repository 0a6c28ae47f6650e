/** The client's input queue: focus, shutdown, bounds and the sliding rate limit. */
module InputController {
  import opened Wrappers
  import opened Octets
  import opened Time
  import opened Sets

  const MAX_INPUT_RATE_PER_SECOND := 4096
  const MAX_INPUT_QUEUE_CAPACITY := 1024
  const MAX_INPUT_CONTROL_BYTES := 64 * 1024
  const SECOND := NANOS

  datatype InputError =
    | NotFocused | Shutdown | RateLimited | QueueFull | PayloadTooLarge | Encode
    | InvalidQueueCapacity | InvalidRateLimit

  datatype Limits = Limits(perSecond: nat, capacity: nat)

  predicate ValidLimits(l: Limits) {
    0 < l.capacity <= MAX_INPUT_QUEUE_CAPACITY && 0 < l.perSecond <= MAX_INPUT_RATE_PER_SECOND
  }

  /** `recent` holds instants in nanoseconds, oldest first. */
  datatype State = State(focused: bool, shutdown: bool, queue: seq<Bytes>, recent: seq<nat>)

  /** A window event; an input arrives with the instant it is handled at and what clamping and encoding make of it. */
  datatype WindowEvent = Focus(focused: bool) | Closed | Input(now: nat, encoded: Option<Bytes>) | Other

  /** `now.duration_since(t) < 1s`, saturating. */
  predicate WithinSecond(t: nat, now: nat) {
    now < t + SECOND
  }

  function DropOld(recent: seq<nat>, now: nat): seq<nat> {
    if recent == [] || WithinSecond(recent[0], now) then recent else DropOld(recent[1..], now)
  }

  function Expire(s: State): State {
    s.(shutdown := true, focused := false, queue := [])
  }

  function ClearPending(s: State): State {
    s.(queue := [], recent := [])
  }

  function EnqueueInput(l: Limits, s: State, now: nat, encoded: Option<Bytes>): (State, Result<(), InputError>) {
    if !s.focused then (s, Err(NotFocused))
    else if |s.queue| >= l.capacity then (s, Err(QueueFull))
    else
      var pruned := s.(recent := DropOld(s.recent, now));
      if |pruned.recent| >= l.perSecond then (pruned, Err(RateLimited))
      else if encoded.None? then (pruned, Err(Encode))
      else if |encoded.value| > MAX_INPUT_CONTROL_BYTES then (pruned, Err(PayloadTooLarge))
      else (pruned.(recent := pruned.recent + [now], queue := s.queue + [encoded.value]), Ok(()))
  }

  function HandleWindowEvent(l: Limits, s: State, event: WindowEvent): (State, Result<(), InputError>) {
    if s.shutdown then (s, Err(Shutdown))
    else
      match event
      case Focus(focused) => (s.(focused := focused), Ok(()))
      case Closed => (Expire(s), Ok(()))
      case Input(now, encoded) => EnqueueInput(l, s, now, encoded)
      case Other => (s, Ok(()))
  }

  function TryNextControl(s: State): (State, Option<Bytes>) {
    if s.queue == [] then (s, None) else (s.(queue := s.queue[1..]), Some(s.queue[0]))
  }

  class Controller {
    var focused: bool
    var shutdown: bool
    var queue: seq<Bytes>
    var recentEvents: seq<nat>
    const limits: Limits

    function Contents(): State
      reads this
    {
      State(focused, shutdown, queue, recentEvents)
    }

    constructor (limits: Limits)
      ensures Contents() == State(false, false, [], []) && this.limits == limits
    {
      this.limits := limits;
      focused, shutdown, queue, recentEvents := false, false, [], [];
    }

    method SetFocused(value: bool)
      modifies this
      ensures Contents() == if old(shutdown) then old(Contents()) else old(Contents()).(focused := value)
    {
      if !shutdown {
        focused := value;
      }
    }

    method ExpireNow()
      modifies this
      ensures Contents() == Expire(old(Contents()))
    {
      shutdown, focused, queue := true, false, [];
    }

    method ClearPendingControls()
      modifies this
      ensures Contents() == ClearPending(old(Contents()))
    {
      queue, recentEvents := [], [];
    }

    method Handle(event: WindowEvent) returns (r: Result<(), InputError>)
      modifies this
      ensures (Contents(), r) == HandleWindowEvent(limits, old(Contents()), event)
    {
      if shutdown { return Err(Shutdown); }
      match event
      case Focus(value) =>
        SetFocused(value);
        r := Ok(());
      case Closed =>
        ExpireNow();
        r := Ok(());
      case Input(now, encoded) =>
        r := Enqueue(now, encoded);
      case Other =>
        r := Ok(());
    }

    method Enqueue(now: nat, encoded: Option<Bytes>) returns (r: Result<(), InputError>)
      modifies this
      ensures (Contents(), r) == EnqueueInput(limits, old(Contents()), now, encoded)
    {
      if !focused { return Err(NotFocused); }
      if |queue| >= limits.capacity { return Err(QueueFull); }
      while recentEvents != [] && !WithinSecond(recentEvents[0], now)
        invariant DropOld(recentEvents, now) == DropOld(old(recentEvents), now)
        invariant focused == old(focused) && shutdown == old(shutdown) && queue == old(queue)
        decreases |recentEvents|
      {
        recentEvents := recentEvents[1..];
      }
      if |recentEvents| >= limits.perSecond { return Err(RateLimited); }
      if encoded.None? { return Err(Encode); }
      if |encoded.value| > MAX_INPUT_CONTROL_BYTES { return Err(PayloadTooLarge); }
      recentEvents := recentEvents + [now];
      queue := queue + [encoded.value];
      r := Ok(());
    }

    method NextControl() returns (control: Option<Bytes>)
      modifies this
      ensures (Contents(), control) == TryNextControl(old(Contents()))
    {
      if queue == [] { return None; }
      control := Some(queue[0]);
      queue := queue[1..];
    }
  }

  /** `with_limits`, for a monitor that validates. */
  function CheckLimits(l: Limits): (r: Result<(), InputError>)
    ensures r.Ok? <==> ValidLimits(l)
    ensures r == Err(InvalidQueueCapacity) <==> !(1 <= l.capacity <= MAX_INPUT_QUEUE_CAPACITY)
    ensures r == Err(InvalidRateLimit) ==> !(1 <= l.perSecond <= MAX_INPUT_RATE_PER_SECOND)
  {
    if l.capacity == 0 || l.capacity > MAX_INPUT_QUEUE_CAPACITY then Err(InvalidQueueCapacity)
    else if l.perSecond == 0 || l.perSecond > MAX_INPUT_RATE_PER_SECOND then Err(InvalidRateLimit)
    else Ok(())
  }

  // ---- Whole runs --------------------------------------------------------------------------

  /** A call of the controller; inputs and clears happen at known instants. */
  datatype Op = Handle(event: WindowEvent) | SetFocus(value: bool) | Next | Clear(at: nat) | ExpireOp

  datatype Stamped = Stamped(at: nat, control: Bytes)

  /** A state with what was accepted and emitted since pending controls were last cleared, and with everything
      ever accepted. */
  datatype Trace = Trace(state: State, accepted: seq<Stamped>, emitted: seq<Bytes>, history: seq<Stamped>)

  const START := Trace(State(false, false, [], []), [], [], [])

  function Step(l: Limits, t: Trace, op: Op): Trace {
    match op
    case Handle(event) =>
      var (s, r) := HandleWindowEvent(l, t.state, event);
      var taken := if event.Input? && r.Ok? then [Stamped(event.now, event.encoded.value)] else [];
      Trace(s, t.accepted + taken, t.emitted, t.history + taken)
    case SetFocus(value) => if t.state.shutdown then t else t.(state := t.state.(focused := value))
    case Next =>
      var (s, control) := TryNextControl(t.state);
      t.(state := s, emitted := if control.Some? then t.emitted + [control.value] else t.emitted)
    case Clear(_) => Trace(ClearPending(t.state), [], [], t.history)
    case ExpireOp => t.(state := Expire(t.state))
  }

  function Run(l: Limits, ops: seq<Op>): Trace {
    if ops == [] then START else Step(l, Run(l, ops[..|ops| - 1]), ops[|ops| - 1])
  }

  function TimeOf(op: Op): Option<nat> {
    match op
    case Handle(event) => if event.Input? then Some(event.now) else None
    case Clear(at) => Some(at)
    case _ => None
  }

  /** The instants of inputs and clears do not go backwards. */
  ghost predicate ClockAdvances(ops: seq<Op>) {
    forall i, j :: 0 <= i < j < |ops| && TimeOf(ops[i]).Some? && TimeOf(ops[j]).Some? ==>
      TimeOf(ops[i]).value <= TimeOf(ops[j]).value
  }

  function Controls(accepted: seq<Stamped>): seq<Bytes> {
    seq(|accepted|, i requires 0 <= i < |accepted| => accepted[i].control)
  }

  /** Accepted inputs `limit` apart are at least a second apart. */
  ghost predicate Spread(limit: nat, accepted: seq<Stamped>) {
    forall i :: 0 <= i && i + limit < |accepted| ==> accepted[i].at + SECOND <= accepted[i + limit].at
  }

  ghost predicate InOrder(accepted: seq<Stamped>, now: nat) {
    && (forall i, j :: 0 <= i <= j < |accepted| ==> accepted[i].at <= accepted[j].at)
    && (forall i :: 0 <= i < |accepted| ==> accepted[i].at <= now)
  }

  /** The limiter remembers a suffix of what was accepted and has only forgotten what is a second old. */
  ghost predicate Remembers(recent: seq<nat>, accepted: seq<Stamped>, now: nat) {
    && |recent| <= |accepted|
    && (forall i :: 0 <= i < |recent| ==> recent[i] == accepted[|accepted| - |recent| + i].at)
    && forall i :: 0 <= i < |accepted| - |recent| ==> accepted[i].at + SECOND <= now
  }

  ghost predicate LimiterInv(limit: nat, recent: seq<nat>, accepted: seq<Stamped>, now: nat) {
    InOrder(accepted, now) && Remembers(recent, accepted, now) && Spread(limit, accepted) && |recent| <= limit
  }

  /** Controls come out in the order they went in; shutting down drops the rest. */
  ghost predicate QueueInv(capacity: nat, t: Trace) {
    && |t.state.queue| <= capacity
    && t.emitted + t.state.queue <= Controls(t.accepted)
    && (t.state.shutdown ==> t.state.queue == [] && !t.state.focused)
    && (!t.state.shutdown ==> Controls(t.accepted) == t.emitted + t.state.queue)
  }

  // ---- The limiter against history ---------------------------------------------------------

  /** Which accepted inputs count against the limit now. */
  function Live(accepted: seq<Stamped>, now: nat): set<int> {
    set i | 0 <= i < |accepted| && now < accepted[i].at + SECOND
  }

  function Range(lo: int, hi: int): (r: set<int>)
    requires lo <= hi
    ensures forall i :: i in r <==> lo <= i < hi
    ensures |r| == hi - lo
    decreases hi - lo
  {
    if lo == hi then {} else Range(lo, hi - 1) + {hi - 1}
  }

  /** Pruning keeps a suffix and drops only what is a second old. */
  lemma {:induction false} DropOldSplits(recent: seq<nat>, now: nat)
    ensures var kept := DropOld(recent, now);
            && |kept| <= |recent|
            && kept == recent[|recent| - |kept|..]
            && (forall i :: 0 <= i < |recent| - |kept| ==> recent[i] + SECOND <= now)
            && (kept != [] ==> WithinSecond(kept[0], now))
  {
    if recent != [] && !WithinSecond(recent[0], now) {
      DropOldSplits(recent[1..], now);
    }
  }

  lemma PruneRemembers(recent: seq<nat>, accepted: seq<Stamped>, last: nat, now: nat)
    requires InOrder(accepted, last) && Remembers(recent, accepted, last) && last <= now
    ensures Remembers(DropOld(recent, now), accepted, now)
    ensures |DropOld(recent, now)| == |Live(accepted, now)|
  {
    DropOldSplits(recent, now);
    var kept := DropOld(recent, now);
    var lost := |accepted| - |kept|;
    forall i | 0 <= i < lost ensures accepted[i].at + SECOND <= now {
      if i >= |accepted| - |recent| {
        assert recent[i - (|accepted| - |recent|)] == accepted[i].at;
      }
    }
    if kept != [] {
      assert kept[0] == accepted[lost].at;
    }
    assert Live(accepted, now) == Range(lost, |accepted|);
  }

  /** Though it forgets, the limiter accepts exactly when fewer than `perSecond` of all inputs accepted since
      the last clear are less than a second old. */
  lemma LimiterDecidesLikeHistory(l: Limits, t: Trace, last: nat, now: nat, encoded: Option<Bytes>)
    requires LimiterInv(l.perSecond, t.state.recent, t.accepted, last) && last <= now
    ensures EnqueueInput(l, t.state, now, encoded).1.Ok? <==>
              && t.state.focused && |t.state.queue| < l.capacity && |Live(t.accepted, now)| < l.perSecond
              && encoded.Some? && |encoded.value| <= MAX_INPUT_CONTROL_BYTES
  {
    PruneRemembers(t.state.recent, t.accepted, last, now);
  }

  /** Why an input is refused, in the order of the checks. */
  predicate Refuses(l: Limits, t: Trace, now: nat, encoded: Option<Bytes>, e: InputError) {
    match e
    case NotFocused => !t.state.focused
    case QueueFull => |t.state.queue| >= l.capacity
    case RateLimited => |Live(t.accepted, now)| >= l.perSecond
    case Encode => encoded.None?
    case PayloadTooLarge => encoded.Some? && |encoded.value| > MAX_INPUT_CONTROL_BYTES
    case _ => false
  }

  function Precedence(e: InputError): nat {
    match e
    case NotFocused => 0
    case QueueFull => 1
    case RateLimited => 2
    case Encode => 3
    case PayloadTooLarge => 4
    case _ => 5
  }

  /** A refused input is refused for the first reason there is. */
  lemma RefusalsAreExact(l: Limits, t: Trace, last: nat, now: nat, encoded: Option<Bytes>, e: InputError)
    requires LimiterInv(l.perSecond, t.state.recent, t.accepted, last) && last <= now
    ensures EnqueueInput(l, t.state, now, encoded).1 == Err(e) <==>
              && Refuses(l, t, now, encoded, e)
              && forall d :: Refuses(l, t, now, encoded, d) ==> Precedence(e) <= Precedence(d)
  {
    PruneRemembers(t.state.recent, t.accepted, last, now);
    var r := EnqueueInput(l, t.state, now, encoded).1;
    assert r.Err? ==> Refuses(l, t, now, encoded, r.error);
  }

  // ---- Every run ---------------------------------------------------------------------------

  function LastTime(ops: seq<Op>): nat {
    if ops == [] then 0
    else if TimeOf(ops[|ops| - 1]).Some? then TimeOf(ops[|ops| - 1]).value
    else LastTime(ops[..|ops| - 1])
  }

  lemma {:induction false} LastTimeIsLatest(ops: seq<Op>, op: Op)
    requires ClockAdvances(ops + [op]) && TimeOf(op).Some?
    ensures LastTime(ops) <= TimeOf(op).value
  {
    if ops != [] {
      var all := ops + [op];
      assert all[|ops| - 1] == ops[|ops| - 1] && all[|ops|] == op;
      var init := ops[..|ops| - 1];
      if TimeOf(ops[|ops| - 1]).None? {
        var shorter := init + [op];
        forall i, j | 0 <= i < j < |shorter| && TimeOf(shorter[i]).Some? && TimeOf(shorter[j]).Some?
          ensures TimeOf(shorter[i]).value <= TimeOf(shorter[j]).value
        {
          assert shorter[i] == all[i];
          assert shorter[j] == all[if j < |init| then j else |ops|];
        }
        LastTimeIsLatest(init, op);
      }
    }
  }

  lemma LimiterPrunes(limit: nat, recent: seq<nat>, accepted: seq<Stamped>, last: nat, now: nat)
    requires LimiterInv(limit, recent, accepted, last) && last <= now
    ensures LimiterInv(limit, recent, accepted, now)
    ensures LimiterInv(limit, DropOld(recent, now), accepted, now)
  {
    PruneRemembers(recent, accepted, last, now);
    DropOldSplits(recent, now);
  }

  lemma LimiterAccepts(limit: nat, kept: seq<nat>, accepted: seq<Stamped>, next: Stamped)
    requires LimiterInv(limit, kept, accepted, next.at) && |kept| < limit
    ensures LimiterInv(limit, kept + [next.at], accepted + [next], next.at)
  {
    assert InOrder(accepted + [next], next.at);
    assert Remembers(kept + [next.at], accepted + [next], next.at);
    SpreadGrows(limit, kept, accepted, next);
  }

  lemma SpreadGrows(limit: nat, kept: seq<nat>, accepted: seq<Stamped>, next: Stamped)
    requires Spread(limit, accepted) && Remembers(kept, accepted, next.at) && |kept| < limit
    ensures Spread(limit, accepted + [next])
  {
  }

  lemma QueueKeepsInv(l: Limits, t: Trace, op: Op)
    requires QueueInv(l.capacity, t)
    ensures QueueInv(l.capacity, Step(l, t, op))
  {
    var after := Step(l, t, op);
    if op.Handle? && after.accepted != t.accepted {
      assert Controls(after.accepted) == Controls(t.accepted) + [op.event.encoded.value];
      assert t.emitted + (t.state.queue + [op.event.encoded.value]) == Controls(after.accepted);
    } else if op.Next? && t.state.queue != [] {
      assert t.emitted + [t.state.queue[0]] + t.state.queue[1..] == t.emitted + t.state.queue;
    }
  }

  lemma {:induction false} EveryRunKeepsQueue(l: Limits, ops: seq<Op>)
    ensures QueueInv(l.capacity, Run(l, ops))
  {
    if ops != [] {
      EveryRunKeepsQueue(l, ops[..|ops| - 1]);
      QueueKeepsInv(l, Run(l, ops[..|ops| - 1]), ops[|ops| - 1]);
    }
  }

  lemma {:induction false} EveryRunKeepsLimiter(l: Limits, ops: seq<Op>)
    requires ClockAdvances(ops)
    ensures LimiterInv(l.perSecond, Run(l, ops).state.recent, Run(l, ops).accepted, LastTime(ops))
  {
    if ops != [] {
      var init, op := ops[..|ops| - 1], ops[|ops| - 1];
      var t := Run(l, init);
      EveryRunKeepsLimiter(l, init);
      assert ops == init + [op];
      if op.Handle? && op.event.Input? {
        LastTimeIsLatest(init, op);
        LimiterStep(l, t, op.event, LastTime(init));
      } else {
        OtherKeepsLimiter(l, t, op, LastTime(init), LastTime(ops));
      }
    }
  }

  /** A clear empties the limiter, and nothing else but an input touches it. */
  lemma OtherKeepsLimiter(l: Limits, t: Trace, op: Op, last: nat, now: nat)
    requires LimiterInv(l.perSecond, t.state.recent, t.accepted, last)
    requires !(op.Handle? && op.event.Input?) && (now == last || op.Clear?)
    ensures LimiterInv(l.perSecond, Step(l, t, op).state.recent, Step(l, t, op).accepted, now)
  {
    if !op.Clear? {
      assert Step(l, t, op).accepted == t.accepted && Step(l, t, op).state.recent == t.state.recent;
    }
  }

  ghost predicate Took(l: Limits, t: Trace, event: WindowEvent, after: Trace)
    requires event.Input?
  {
    && event.encoded.Some? && |DropOld(t.state.recent, event.now)| < l.perSecond
    && after.accepted == t.accepted + [Stamped(event.now, event.encoded.value)]
    && after.state.recent == DropOld(t.state.recent, event.now) + [event.now]
    && after.history == t.history + [Stamped(event.now, event.encoded.value)]
  }

  lemma StepCases(l: Limits, t: Trace, event: WindowEvent)
    requires event.Input?
    ensures var after := Step(l, t, Handle(event));
            || Took(l, t, event, after)
            || (&& after.accepted == t.accepted && after.history == t.history
                && after.state.recent in {t.state.recent, DropOld(t.state.recent, event.now)})
  {
  }

  lemma LimiterStep(l: Limits, t: Trace, event: WindowEvent, last: nat)
    requires LimiterInv(l.perSecond, t.state.recent, t.accepted, last) && event.Input? && last <= event.now
    ensures var after := Step(l, t, Handle(event));
            LimiterInv(l.perSecond, after.state.recent, after.accepted, event.now)
  {
    StepCases(l, t, event);
    LimiterPrunes(l.perSecond, t.state.recent, t.accepted, last, event.now);
    if Took(l, t, event, Step(l, t, Handle(event))) {
      var next := Stamped(event.now, event.encoded.value);
      LimiterAccepts(l.perSecond, DropOld(t.state.recent, event.now), t.accepted, next);
    }
  }

  function FirstFrom(accepted: seq<Stamped>, start: nat): (first: nat)
    ensures first <= |accepted|
    ensures forall i :: 0 <= i < first ==> accepted[i].at < start
    ensures first < |accepted| ==> accepted[first].at >= start
  {
    if accepted == [] || accepted[0].at >= start then 0 else 1 + FirstFrom(accepted[1..], start)
  }

  function InWindow(accepted: seq<Stamped>, start: nat): set<int> {
    set i | 0 <= i < |accepted| && start <= accepted[i].at < start + SECOND
  }

  /** Between clears, no second-long window of time, wherever it starts, holds more than `perSecond` accepted
      inputs; and controls come out once each in the order they were accepted. */
  lemma EveryWindowIsLimited(l: Limits, ops: seq<Op>, start: nat)
    requires ClockAdvances(ops)
    ensures |InWindow(Run(l, ops).accepted, start)| <= l.perSecond
    ensures Run(l, ops).emitted <= Controls(Run(l, ops).accepted)
    ensures |Run(l, ops).state.queue| <= l.capacity
  {
    EveryRunKeepsLimiter(l, ops);
    EveryRunKeepsQueue(l, ops);
    var accepted := Run(l, ops).accepted;
    var first := FirstFrom(accepted, start);
    forall i | i in InWindow(accepted, start) ensures i in Range(first, first + l.perSecond) {
      assert first <= i;
      assert first + l.perSecond < |accepted| ==> accepted[first].at + SECOND <= accepted[first + l.perSecond].at;
    }
    SubsetSize(InWindow(accepted, start), Range(first, first + l.perSecond));
  }

  /** What the last focus event or focus call said; unfocused before the first. */
  function LastFocus(ops: seq<Op>): bool {
    if ops == [] then false
    else
      var op := ops[|ops| - 1];
      if op.Handle? && op.event.Focus? then op.event.focused
      else if op.SetFocus? then op.value
      else LastFocus(ops[..|ops| - 1])
  }

  lemma {:induction false} FocusFollowsEvents(l: Limits, ops: seq<Op>)
    ensures Run(l, ops).state.focused == (!Run(l, ops).state.shutdown && LastFocus(ops))
  {
    if ops != [] {
      FocusFollowsEvents(l, ops[..|ops| - 1]);
    }
  }

  predicate ShutsDown(op: Op) {
    op.ExpireOp? || (op.Handle? && op.event.Closed?)
  }

  ghost predicate SomeShutsDown(ops: seq<Op>) {
    exists i :: 0 <= i < |ops| && ShutsDown(ops[i])
  }

  lemma OneMoreShutsDown(init: seq<Op>, op: Op)
    ensures SomeShutsDown(init + [op]) <==> SomeShutsDown(init) || ShutsDown(op)
  {
    if SomeShutsDown(init) {
      var i :| 0 <= i < |init| && ShutsDown(init[i]);
      assert (init + [op])[i] == init[i];
    }
    assert (init + [op])[|init|] == op;
  }

  lemma ShutdownStep(l: Limits, t: Trace, op: Op)
    ensures Step(l, t, op).state.shutdown <==> t.state.shutdown || ShutsDown(op)
  {
  }

  /** On every run the controller is shut down exactly when the window was closed or the session expired. */
  lemma {:induction false} ShutdownExactly(l: Limits, ops: seq<Op>)
    ensures Run(l, ops).state.shutdown <==> SomeShutsDown(ops)
  {
    if ops != [] {
      var init, op := ops[..|ops| - 1], ops[|ops| - 1];
      ShutdownExactly(l, init);
      ShutdownStep(l, Run(l, init), op);
      OneMoreShutsDown(init, op);
      assert ops == init + [op];
    }
  }

  /** After shutdown every event is refused; before, only inputs are, and other events but focus and close change
      nothing. */
  lemma EventsAreTaken(l: Limits, s: State, event: WindowEvent)
    ensures var (next, r) := HandleWindowEvent(l, s, event);
            && (r == Err(Shutdown) <==> s.shutdown)
            && (!s.shutdown && !event.Input? ==> r == Ok(()))
            && (s.shutdown || event.Other? ==> next == s)
            && (event.Focus? && !s.shutdown ==> next == s.(focused := event.focused))
  {
  }

  /** On every run, until shutdown, the next control out is the oldest accepted one still in, and there is one exactly
      while fewer have come out than were accepted. */
  lemma NextControlExactly(l: Limits, ops: seq<Op>)
    requires !Run(l, ops).state.shutdown
    ensures var t := Run(l, ops);
            && (TryNextControl(t.state).1.Some? <==> |t.emitted| < |t.accepted|)
            && (|t.emitted| < |t.accepted| ==> TryNextControl(t.state).1 == Some(t.accepted[|t.emitted|].control))
  {
    EveryRunKeepsQueue(l, ops);
    var t := Run(l, ops);
    assert Controls(t.accepted) == t.emitted + t.state.queue;
    if |t.emitted| < |t.accepted| {
      assert Controls(t.accepted)[|t.emitted|] == t.state.queue[0];
    }
  }

  /** Once shut down, on whatever follows: no event is accepted and no control comes out. */
  lemma {:induction false} ShutdownIsFinal(l: Limits, ops: seq<Op>, k: nat)
    requires k <= |ops| && Run(l, ops[..k]).state.shutdown
    ensures var s := Run(l, ops).state;
            && s.shutdown && TryNextControl(s).1 == None
            && forall event :: HandleWindowEvent(l, s, event) == (s, Err(Shutdown))
    decreases |ops|
  {
    if ops == [] {
      assert false;
    }
    var init := ops[..|ops| - 1];
    if k < |ops| {
      assert init[..k] == ops[..k];
      ShutdownIsFinal(l, init, k);
    } else {
      assert ops[..k] == ops;
      EveryRunKeepsQueue(l, ops);
    }
  }
}
