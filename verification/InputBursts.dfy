/**
 * The input rate over whole runs. Clearing pending controls also clears the limiter's history, so the limit can be
 * spent again after each clear: this module gives the bound that does hold across clears, and shows it is reached.
 */
module InputBursts {
  import opened Wrappers
  import opened Octets
  import opened InputController
  import opened Spans

  predicate InSecond(at: nat, start: nat) {
    start <= at < start + SECOND
  }

  /** How many clears fall into the second that begins at `start`. */
  function ClearsIn(ops: seq<Op>, start: nat): nat {
    if ops == [] then 0
    else
      var op := ops[|ops| - 1];
      ClearsIn(ops[..|ops| - 1], start) + (if op.Clear? && InSecond(op.at, start) then 1 else 0)
  }

  lemma InWindowGrows(accepted: seq<Stamped>, next: Stamped, start: nat)
    ensures |InWindow(accepted + [next], start)|
            == |InWindow(accepted, start)| + (if InSecond(next.at, start) then 1 else 0)
  {
    var before, after := InWindow(accepted, start), InWindow(accepted + [next], start);
    if InSecond(next.at, start) {
      assert after == before + {|accepted|};
    } else {
      assert after == before;
    }
  }

  /** Everything accepted fits the quota of the clears so far; while the second lasts, what is not covered by past
      clears was accepted since the last one. */
  ghost predicate WithinQuota(limit: nat, t: Trace, clears: nat, last: nat, start: nat) {
    && (forall i :: 0 <= i < |t.history| ==> t.history[i].at <= last)
    && |InWindow(t.history, start)| <= Span(clears, limit) + limit
    && (last < start + SECOND ==> |InWindow(t.history, start)| <= Span(clears, limit) + |InWindow(t.accepted, start)|)
  }

  lemma InputKeepsQuota(l: Limits, t: Trace, event: WindowEvent, clears: nat, last: nat, start: nat)
    requires event.Input? && last <= event.now && WithinQuota(l.perSecond, t, clears, last, start)
    requires |InWindow(Step(l, t, Handle(event)).accepted, start)| <= l.perSecond
    ensures WithinQuota(l.perSecond, Step(l, t, Handle(event)), clears, event.now, start)
  {
    StepCases(l, t, event);
    if Took(l, t, event, Step(l, t, Handle(event))) {
      var next := Stamped(event.now, event.encoded.value);
      InWindowGrows(t.accepted, next, start);
      InWindowGrows(t.history, next, start);
    }
  }

  lemma ClearKeepsQuota(l: Limits, t: Trace, at: nat, clears: nat, last: nat, start: nat)
    requires last <= at && WithinQuota(l.perSecond, t, clears, last, start)
    ensures WithinQuota(l.perSecond, Step(l, t, Clear(at)), clears + (if InSecond(at, start) then 1 else 0), at, start)
  {
    if at < start {
      assert InWindow(t.history, start) == {};
    }
  }

  lemma OtherKeepsQuota(l: Limits, t: Trace, op: Op)
    requires TimeOf(op).None?
    ensures Step(l, t, op).accepted == t.accepted && Step(l, t, op).history == t.history
  {
  }

  lemma {:induction false} RunKeepsQuota(l: Limits, ops: seq<Op>, start: nat)
    requires ClockAdvances(ops)
    ensures WithinQuota(l.perSecond, Run(l, ops), ClearsIn(ops, start), LastTime(ops), start)
  {
    if ops == [] {
      assert InWindow(START.history, start) == {};
    } else {
      var init, op := ops[..|ops| - 1], ops[|ops| - 1];
      assert ops == init + [op];
      RunKeepsQuota(l, init, start);
      if TimeOf(op).Some? {
        LastTimeIsLatest(init, op);
        if op.Clear? {
          ClearKeepsQuota(l, Run(l, init), op.at, ClearsIn(init, start), LastTime(init), start);
        } else {
          EveryWindowIsLimited(l, ops, start);
          InputKeepsQuota(l, Run(l, init), op.event, ClearsIn(init, start), LastTime(init), start);
        }
      } else {
        OtherKeepsQuota(l, Run(l, init), op);
      }
    }
  }

  /** Over every run, clears included: a second-long window, wherever it starts, holds at most the limit for each
      clear in it and once more. */
  lemma EveryWindowAcrossClears(l: Limits, ops: seq<Op>, start: nat)
    requires ClockAdvances(ops)
    ensures |InWindow(Run(l, ops).history, start)| <= (ClearsIn(ops, start) + 1) * l.perSecond
  {
    RunKeepsQuota(l, ops, start);
    SpanIsProduct(ClearsIn(ops, start) + 1, l.perSecond);
  }

  // ---- The bound is reached ----------------------------------------------------------------

  /** `n` inputs at one instant, each taken out at once so that the queue stays empty. */
  function Burst(ops: seq<Op>, at: nat, n: nat): seq<Op> {
    if n == 0 then ops else Burst(ops, at, n - 1) + [Handle(Input(at, Some([])))] + [Next]
  }

  function Repeat<T>(x: T, n: nat): (s: seq<T>)
    ensures |s| == n && forall i :: 0 <= i < n ==> s[i] == x
  {
    if n == 0 then [] else Repeat(x, n - 1) + [x]
  }

  /** A focused controller with nothing pending that remembers `n` inputs at one instant. */
  function Ready(at: nat, n: nat): State {
    State(true, false, [], Repeat(at, n))
  }

  lemma RunStep(l: Limits, ops: seq<Op>, op: Op)
    ensures Run(l, ops + [op]) == Step(l, Run(l, ops), op)
  {
    assert (ops + [op])[..|ops|] == ops;
  }

  lemma RunTwoSteps(l: Limits, ops: seq<Op>, first: Op, second: Op)
    ensures Run(l, ops + [first] + [second]) == Step(l, Step(l, Run(l, ops), first), second)
  {
    RunStep(l, ops, first);
    RunStep(l, ops + [first], second);
  }

  /** One more input of a burst is accepted while the limit is not reached. */
  lemma BurstStep(l: Limits, t: Trace, at: nat, n: nat)
    requires ValidLimits(l) && n < l.perSecond && t.state == Ready(at, n)
    ensures var after := Step(l, Step(l, t, Handle(Input(at, Some([])))), Next);
            after.state == Ready(at, n + 1) && after.history == t.history + [Stamped(at, [])]
  {
    assert DropOld(Repeat(at, n), at) == Repeat(at, n);
    var mid := Step(l, t, Handle(Input(at, Some([]))));
    assert mid.state == State(true, false, [[]], Repeat(at, n + 1));
    assert mid.state.queue[1..] == [];
  }

  lemma RepeatGrows<T>(past: seq<T>, x: T, n: nat)
    requires n > 0
    ensures (past + Repeat(x, n - 1)) + [x] == past + Repeat(x, n)
  {
  }

  lemma {:induction false} BurstIsAccepted(l: Limits, ops: seq<Op>, at: nat, n: nat)
    requires ValidLimits(l) && n <= l.perSecond && Run(l, ops).state == Ready(at, 0)
    ensures Run(l, Burst(ops, at, n)).state == Ready(at, n)
    ensures Run(l, Burst(ops, at, n)).history == Run(l, ops).history + Repeat(Stamped(at, []), n)
  {
    if n > 0 {
      var before := Burst(ops, at, n - 1);
      BurstIsAccepted(l, ops, at, n - 1);
      BurstStep(l, Run(l, before), at, n - 1);
      RunTwoSteps(l, before, Handle(Input(at, Some([]))), Next);
      RepeatGrows(Run(l, ops).history, Stamped(at, []), n);
    }
  }

  /** A full burst, then as many times a clear and another full burst, all at one instant. */
  function Bursts(l: Limits, at: nat, clears: nat): seq<Op> {
    if clears == 0 then Burst([SetFocus(true)], at, l.perSecond)
    else Burst(Bursts(l, at, clears - 1) + [Clear(at)], at, l.perSecond)
  }

  lemma FocusedIsReady(l: Limits, at: nat)
    ensures Run(l, [SetFocus(true)]).state == Ready(at, 0) && Run(l, [SetFocus(true)]).history == []
  {
    RunStep(l, [], SetFocus(true));
    assert [] + [SetFocus(true)] == [SetFocus(true)];
  }

  lemma RepeatSplits<T>(x: T, m: nat, n: nat)
    ensures Repeat(x, m) + Repeat(x, n) == Repeat(x, m + n)
  {
  }

  lemma {:induction false} BurstsAreAccepted(l: Limits, at: nat, clears: nat)
    requires ValidLimits(l)
    ensures Run(l, Bursts(l, at, clears)).state == Ready(at, l.perSecond)
    ensures Run(l, Bursts(l, at, clears)).history == Repeat(Stamped(at, []), Span(clears + 1, l.perSecond))
  {
    if clears == 0 {
      FocusedIsReady(l, at);
      BurstIsAccepted(l, [SetFocus(true)], at, l.perSecond);
    } else {
      var before := Bursts(l, at, clears - 1);
      BurstsAreAccepted(l, at, clears - 1);
      RunStep(l, before, Clear(at));
      BurstIsAccepted(l, before + [Clear(at)], at, l.perSecond);
      RepeatSplits(Stamped(at, []), Span(clears, l.perSecond), l.perSecond);
    }
  }

  /** Everything in the run happens at one instant. */
  ghost predicate AllAt(ops: seq<Op>, at: nat) {
    forall i :: 0 <= i < |ops| ==> TimeOf(ops[i]) in {None, Some(at)}
  }

  lemma AllAtGrows(ops: seq<Op>, op: Op, at: nat)
    requires AllAt(ops, at) && TimeOf(op) in {None, Some(at)}
    ensures AllAt(ops + [op], at)
    ensures ClearsIn(ops + [op], at) == ClearsIn(ops, at) + (if op.Clear? then 1 else 0)
  {
    assert (ops + [op])[..|ops|] == ops;
  }

  lemma {:induction false} BurstIsAt(ops: seq<Op>, at: nat, n: nat)
    requires AllAt(ops, at)
    ensures AllAt(Burst(ops, at, n), at) && ClearsIn(Burst(ops, at, n), at) == ClearsIn(ops, at)
  {
    if n > 0 {
      BurstIsAt(ops, at, n - 1);
      var before, input := Burst(ops, at, n - 1), Handle(Input(at, Some([])));
      AllAtGrows(before, input, at);
      AllAtGrows(before + [input], Next, at);
    }
  }

  lemma {:induction false} BurstsAreAt(l: Limits, at: nat, clears: nat)
    ensures AllAt(Bursts(l, at, clears), at) && ClearsIn(Bursts(l, at, clears), at) == clears
  {
    if clears == 0 {
      BurstIsAt([SetFocus(true)], at, l.perSecond);
    } else {
      var before := Bursts(l, at, clears - 1);
      BurstsAreAt(l, at, clears - 1);
      AllAtGrows(before, Clear(at), at);
      BurstIsAt(before + [Clear(at)], at, l.perSecond);
    }
  }

  /** For every valid limit and every number of clears, a run with that many clears accepts the whole bound at a
      single instant. With one clear that is twice the limit, so the plain limit fails exactly at clears. */
  lemma BoundIsReached(l: Limits, at: nat, clears: nat)
    requires ValidLimits(l)
    ensures var ops := Bursts(l, at, clears);
            && ClockAdvances(ops) && ClearsIn(ops, at) == clears
            && |InWindow(Run(l, ops).history, at)| == (clears + 1) * l.perSecond
            && forall i :: 0 <= i < |Run(l, ops).history| ==> Run(l, ops).history[i].at == at
  {
    BurstsAreAt(l, at, clears);
    BurstsAreAccepted(l, at, clears);
    SpanIsProduct(clears + 1, l.perSecond);
    AllInWindow(Run(l, Bursts(l, at, clears)).history, at);
  }

  lemma AllInWindow(history: seq<Stamped>, at: nat)
    requires forall i :: 0 <= i < |history| ==> history[i].at == at
    ensures |InWindow(history, at)| == |history|
  {
    assert InWindow(history, at) == Range(0, |history|);
  }
}
