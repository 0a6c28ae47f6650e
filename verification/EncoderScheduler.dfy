/** Input credits and output events of the asynchronous encoder transform. */
module EncoderScheduler {
  import opened Wrappers

  const MAX_ASYNC_INPUT_CREDITS := 8
  const MAX_PENDING_OUTPUT_EVENTS := 8

  datatype Event = NeedInput | HaveOutput | DrainComplete

  datatype Error = BackendLost

  datatype State<T> = State(credits: nat, outputs: nat, drained: bool, queued: seq<T>)

  function New<T>(): State<T> {
    State(0, 0, false, [])
  }

  /** `observe`: None when a bound is exceeded, which leaves the accounting as it was. */
  function Observe<T>(s: State<T>, event: Event): Option<State<T>> {
    match event
    case NeedInput => if s.credits + 1 <= MAX_ASYNC_INPUT_CREDITS then Some(s.(credits := s.credits + 1)) else None
    case HaveOutput => if s.outputs + 1 <= MAX_PENDING_OUTPUT_EVENTS then Some(s.(outputs := s.outputs + 1)) else None
    case DrainComplete => Some(s.(drained := true))
  }

  function Enqueue<T>(s: State<T>, input: T): Option<State<T>> {
    if |s.queued| == MAX_ASYNC_INPUT_CREDITS then None else Some(s.(queued := s.queued + [input]))
  }

  predicate Ready<T>(s: State<T>) {
    s.queued != [] && s.credits > 0
  }

  /** `take_ready_input` when there is one: a credit and the oldest input together. */
  function TakeReady<T>(s: State<T>): (State<T>, T)
    requires Ready(s)
  {
    (s.(credits := s.credits - 1, queued := s.queued[1..]), s.queued[0])
  }

  /** How a pass of the submission loop ends: the input went through, or its forced keyframe could not be requested,
      or the transform refused it, or it could not be recorded as pending. */
  datatype Reply = Accepted | KeyframeFailed | InputRefused | NotRecorded

  /** `submit_credited_inputs` from its pass number `k` on, against a transform that may fail any pass whatever its
      input: the state afterwards, the inputs taken from the queue, and how the last pass ended. */
  function SubmitFrom<T>(s: State<T>, k: nat, reply: (nat, T) -> Reply): (State<T>, seq<T>, Reply)
    decreases |s.queued|
  {
    if !Ready(s) then (s, [], Accepted)
    else
      var (next, input) := TakeReady(s);
      if !reply(k, input).Accepted? then (next, [input], reply(k, input))
      else
        var (last, rest, end) := SubmitFrom(next, k + 1, reply);
        (last, [input] + rest, end)
  }

  function Submit<T>(s: State<T>, reply: (nat, T) -> Reply): (State<T>, seq<T>, Reply) {
    SubmitFrom(s, 0, reply)
  }

  /** Of the inputs taken, those that reached the transform: all but one whose keyframe request failed. */
  function Reached<T>(taken: seq<T>, end: Reply): seq<T> {
    if end.KeyframeFailed? && taken != [] then taken[..|taken| - 1] else taken
  }

  class AsyncInputScheduler<T> {
    var inputCredits: nat
    var pendingOutputEvents: nat
    var drainComplete: bool
    var queuedInputs: seq<T>

    function Contents(): State<T>
      reads this
    {
      State(inputCredits, pendingOutputEvents, drainComplete, queuedInputs)
    }

    constructor ()
      ensures Contents() == New()
    {
      inputCredits, pendingOutputEvents, drainComplete, queuedInputs := 0, 0, false, [];
    }

    method ObserveEvent(event: Event) returns (r: Result<(), Error>)
      modifies this
      ensures r.Ok? <==> Observe(old(Contents()), event).Some?
      ensures Contents() == if r.Ok? then Observe(old(Contents()), event).value else old(Contents())
    {
      match event
      case NeedInput =>
        if inputCredits + 1 > MAX_ASYNC_INPUT_CREDITS { return Err(BackendLost); }
        inputCredits := inputCredits + 1;
        r := Ok(());
      case HaveOutput =>
        if pendingOutputEvents + 1 > MAX_PENDING_OUTPUT_EVENTS { return Err(BackendLost); }
        pendingOutputEvents := pendingOutputEvents + 1;
        r := Ok(());
      case DrainComplete =>
        drainComplete := true;
        r := Ok(());
    }

    method EnqueueInput(input: T) returns (r: Result<(), Error>)
      modifies this
      ensures r.Ok? <==> Enqueue(old(Contents()), input).Some?
      ensures Contents() == if r.Ok? then Enqueue(old(Contents()), input).value else old(Contents())
    {
      if |queuedInputs| == MAX_ASYNC_INPUT_CREDITS { return Err(BackendLost); }
      queuedInputs := queuedInputs + [input];
      r := Ok(());
    }

    method TakeReadyInput() returns (input: Option<T>)
      modifies this
      ensures input.Some? <==> Ready(old(Contents()))
      ensures input.Some? ==> (Contents(), input.value) == TakeReady(old(Contents()))
      ensures input.None? ==> Contents() == old(Contents())
    {
      if queuedInputs == [] || inputCredits == 0 { return None; }
      inputCredits := inputCredits - 1;
      input := Some(queuedInputs[0]);
      queuedInputs := queuedInputs[1..];
    }

    method TakeOutputEvent() returns (taken: bool)
      modifies this
      ensures taken <==> old(pendingOutputEvents) > 0
      ensures Contents() == if taken then old(Contents()).(outputs := old(pendingOutputEvents) - 1) else old(Contents())
    {
      taken := pendingOutputEvents > 0;
      if taken {
        pendingOutputEvents := pendingOutputEvents - 1;
      }
    }

    method TakeDrainComplete() returns (taken: bool)
      modifies this
      ensures taken == old(drainComplete) && Contents() == old(Contents()).(drained := false)
    {
      taken := drainComplete;
      drainComplete := false;
    }

    /** The submission loop; `reached` records the inputs given to the transform. */
    method SubmitCreditedInputs(reply: (nat, T) -> Reply) returns (r: Result<(), Error>, reached: seq<T>)
      modifies this
      ensures var (last, taken, end) := Submit(old(Contents()), reply);
              Contents() == last && reached == Reached(taken, end) && (r.Ok? <==> end.Accepted?)
    {
      reached := [];
      assert reached + Submit(Contents(), reply).1 == Submit(Contents(), reply).1;
      while true
        invariant Submit(old(Contents()), reply) == Resume(reached, Contents(), reply)
        decreases |queuedInputs|
      {
        var input := TakeReadyInput();
        if input.None? {
          assert reached + [] == reached;
          return Ok(()), reached;
        }
        var answer := reply(|reached|, input.value);
        if answer.KeyframeFailed? { return Err(BackendLost), reached; }
        ghost var before := reached;
        reached := reached + [input.value];
        if !answer.Accepted? { return Err(BackendLost), reached; }
        Regroup(before, input.value, SubmitFrom(Contents(), |reached|, reply).1);
      }
    }
  }

  /** A submission in progress, with `taken` already through. */
  function Resume<T>(taken: seq<T>, s: State<T>, reply: (nat, T) -> Reply): (State<T>, seq<T>, Reply) {
    var (last, rest, end) := SubmitFrom(s, |taken|, reply);
    (last, taken + rest, end)
  }

  lemma Regroup<T>(before: seq<T>, x: T, rest: seq<T>)
    ensures before + [x] + rest == before + ([x] + rest)
  {
  }

  // ---- Whole runs --------------------------------------------------------------------------

  datatype Op<!T> =
    | See(event: Event)
    | Queue(input: T)
    | SubmitReady(reply: (nat, T) -> Reply)
    | PopOutput
    | PopDrain

  /** A state with the totals of everything that led to it. */
  datatype Trace<T> = Trace(
    state: State<T>,
    enqueued: seq<T>,
    taken: seq<T>,
    reached: seq<T>,
    failures: nat,
    granted: nat,
    announced: nat,
    popped: nat)

  function Step<T>(t: Trace<T>, op: Op<T>): Trace<T> {
    match op
    case See(event) =>
      if Observe(t.state, event).None? then t
      else t.(state := Observe(t.state, event).value,
              granted := t.granted + (if event.NeedInput? then 1 else 0),
              announced := t.announced + (if event.HaveOutput? then 1 else 0))
    case Queue(input) =>
      if Enqueue(t.state, input).None? then t
      else t.(state := Enqueue(t.state, input).value, enqueued := t.enqueued + [input])
    case SubmitReady(reply) =>
      var (state, taken, end) := Submit(t.state, reply);
      t.(state := state, taken := t.taken + taken, reached := t.reached + Reached(taken, end),
         failures := t.failures + (if end.KeyframeFailed? then 1 else 0))
    case PopOutput =>
      if t.state.outputs == 0 then t
      else t.(state := t.state.(outputs := t.state.outputs - 1), popped := t.popped + 1)
    case PopDrain => t.(state := t.state.(drained := false))
  }

  function Run<T>(ops: seq<Op<T>>): Trace<T> {
    if ops == [] then Trace(New(), [], [], [], 0, 0, 0, 0) else Step(Run(ops[..|ops| - 1]), ops[|ops| - 1])
  }

  function Min(a: nat, b: nat): nat {
    if a < b then a else b
  }

  /** Nothing is lost, reordered or taken without a credit, all that is taken reaches the transform but for the failed
      keyframe requests, and everything stays bounded. */
  ghost predicate Accounted<T>(t: Trace<T>) {
    && t.enqueued == t.taken + t.state.queued
    && |t.taken| == |t.reached| + t.failures
    && (t.failures == 0 ==> t.reached == t.taken)
    && t.granted == |t.taken| + t.state.credits
    && t.announced == t.popped + t.state.outputs
    && |t.state.queued| <= MAX_ASYNC_INPUT_CREDITS
    && t.state.credits <= MAX_ASYNC_INPUT_CREDITS
    && t.state.outputs <= MAX_PENDING_OUTPUT_EVENTS
  }

  /** An event or an input is refused exactly when there are eight of its kind already. */
  lemma RefusalsAreExact<T>(s: State<T>, event: Event, input: T)
    requires s.credits <= 8 && s.outputs <= 8 && |s.queued| <= 8
    ensures Observe(s, event).None? <==> (event.NeedInput? && s.credits == 8) || (event.HaveOutput? && s.outputs == 8)
    ensures Enqueue(s, input).None? <==> |s.queued| == 8
  {
  }

  /** One submission takes a prefix of the queue, one credit each, stopping only at a failure or when the credits or
      the inputs run out. */
  lemma {:induction false} SubmitTakesPrefix<T>(s: State<T>, k: nat, reply: (nat, T) -> Reply)
    ensures var (last, taken, end) := SubmitFrom(s, k, reply);
            && s.queued == taken + last.queued
            && s.credits == |taken| + last.credits
            && (last.outputs, last.drained) == (s.outputs, s.drained)
            && (end.Accepted? ==> |taken| == Min(s.credits, |s.queued|))
            && (!end.Accepted? ==> taken != [])
    decreases |s.queued|
  {
    if Ready(s) {
      var (next, input) := TakeReady(s);
      if reply(k, input).Accepted? {
        SubmitTakesPrefix(next, k + 1, reply);
      }
    }
  }

  /** From pass `k` on every input went through, except that the last one ended as given. */
  ghost predicate Went<T>(reply: (nat, T) -> Reply, k: nat, taken: seq<T>, end: Reply) {
    forall i :: 0 <= i < |taken| ==> reply(k + i, taken[i]) == if i < |taken| - 1 then Accepted else end
  }

  lemma WentOneMore<T>(reply: (nat, T) -> Reply, k: nat, input: T, rest: seq<T>, end: Reply)
    requires reply(k, input).Accepted? && Went(reply, k + 1, rest, end) && (rest == [] ==> end.Accepted?)
    ensures Went(reply, k, [input] + rest, end)
  {
    var taken := [input] + rest;
    forall i | 0 <= i < |taken| ensures reply(k + i, taken[i]) == if i < |taken| - 1 then Accepted else end {
      if i > 0 {
        var m := i - 1;
        assert taken[i] == rest[m] && k + i == k + 1 + m;
      }
    }
  }

  /** Every pass went through, except the last one of a submission that failed. */
  lemma {:induction false} SubmitStopsAtFailure<T>(s: State<T>, k: nat, reply: (nat, T) -> Reply)
    ensures var (last, taken, end) := SubmitFrom(s, k, reply); Went(reply, k, taken, end)
    decreases |s.queued|
  {
    if Ready(s) {
      var (next, input) := TakeReady(s);
      if reply(k, input).Accepted? {
        SubmitStopsAtFailure(next, k + 1, reply);
        EmptySubmission(next, k + 1, reply);
        var (_, rest, end) := SubmitFrom(next, k + 1, reply);
        WentOneMore(reply, k, input, rest, end);
      }
    }
  }

  lemma EmptySubmission<T>(s: State<T>, k: nat, reply: (nat, T) -> Reply)
    ensures SubmitFrom(s, k, reply).1 == [] ==> SubmitFrom(s, k, reply).2.Accepted?
  {
  }

  lemma StepKeepsAccount<T>(t: Trace<T>, op: Op<T>)
    requires Accounted(t)
    ensures Accounted(Step(t, op))
  {
    match op
    case SubmitReady(reply) =>
      SubmitTakesPrefix(t.state, 0, reply);
      var (last, taken, _) := Submit(t.state, reply);
      assert t.enqueued == (t.taken + taken) + last.queued;
    case Queue(input) =>
      assert t.enqueued + [input] == t.taken + (t.state.queued + [input]);
    case _ =>
  }

  lemma {:induction false} EveryRunIsAccounted<T>(ops: seq<Op<T>>)
    ensures Accounted(Run(ops))
  {
    if ops != [] {
      EveryRunIsAccounted(ops[..|ops| - 1]);
      StepKeepsAccount(Run(ops[..|ops| - 1]), ops[|ops| - 1]);
    }
  }

  /** After a submission that went through, the oldest inputs have been taken, as many as the transform has asked for
      or as there are; and unless a keyframe request ever failed, all of them have reached it. */
  lemma SubmissionCatchesUp<T>(ops: seq<Op<T>>, reply: (nat, T) -> Reply)
    requires Submit(Run(ops).state, reply).2.Accepted?
    ensures var t := Run(ops + [SubmitReady(reply)]);
            && |t.taken| == Min(t.granted, |t.enqueued|)
            && t.taken == t.enqueued[..|t.taken|]
            && (t.failures == 0 ==> t.reached == t.taken)
  {
    var after := ops + [SubmitReady(reply)];
    assert after[..|after| - 1] == ops;
    var before, t := Run(ops).state, Run(after);
    EveryRunIsAccounted(after);
    SubmitTakesPrefix(before, 0, reply);
    assert t.state == Submit(before, reply).0;
    assert t.state.credits == 0 || |t.state.queued| == 0;
  }

  /** The end of a drain was seen and not yet reported. */
  function DrainPending<T>(ops: seq<Op<T>>): bool {
    if ops == [] then false
    else
      var op := ops[|ops| - 1];
      if op.See? && op.event.DrainComplete? then true
      else if op.PopDrain? then false
      else DrainPending(ops[..|ops| - 1])
  }

  /** On every run a drain is reported complete exactly when it was seen to complete since the last report. */
  lemma {:induction false} DrainIsReported<T>(ops: seq<Op<T>>)
    ensures Run(ops).state.drained == DrainPending(ops)
  {
    if ops != [] {
      var init, op := ops[..|ops| - 1], ops[|ops| - 1];
      DrainIsReported(init);
      if op.SubmitReady? {
        SubmitTakesPrefix(Run(init).state, 0, op.reply);
      }
    }
  }
}
