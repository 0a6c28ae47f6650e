/**
 * What the pipeline shows. Safety alone would let a worker show nothing; here every surface is shown exactly unless
 * a reset came in between, and a job that can be decoded gets that far.
 */
module Presentation {
  import opened Wrappers
  import opened Octets
  import Receiver
  import opened NativePipeline

  // ---- The gate ----------------------------------------------------------------------------

  /** The unit holds a sequence parameter set behind a start code, wherever it lies. */
  lemma SequenceHeaderExactly(unit: Bytes)
    ensures HasSequenceHeader(unit) <==>
              exists before: Bytes, after: Bytes :: unit == before + [0, 0, 1, 0x67] + after
  {
    if HasSequenceHeader(unit) {
      var i :| 0 <= i < |unit| && SequenceHeaderAt(unit, i);
      var k := if i + 4 <= |unit| && unit[i..i + 4] == [0, 0, 1, 0x67] then i else i + 1;
      if k == i + 1 {
        assert unit[k..k + 4] == unit[i..i + 5][1..];
      }
      assert unit == unit[..k] + unit[k..k + 4] + unit[k + 4..];
      assert unit == unit[..k] + [0, 0, 1, 0x67] + unit[k + 4..];
    }
    if exists before: Bytes, after: Bytes :: unit == before + [0, 0, 1, 0x67] + after {
      var before: Bytes, after: Bytes :| unit == before + [0, 0, 1, 0x67] + after;
      assert unit[|before|..|before| + 4] == [0, 0, 1, 0x67];
      assert SequenceHeaderAt(unit, |before|);
    }
  }

  /** A unit the decoder can take at all. */
  predicate Sized(job: Receiver.Job) {
    1 <= |job.accessUnit| <= MAX_RENDER_ACCESS_UNIT_SIZE
  }

  /** The gate passes exactly the units of a proper size that continue a stream or start one with a keyframe. */
  lemma GateExactly(initialized: bool, job: Receiver.Job)
    ensures Gate(initialized, job) == Pass <==>
              Sized(job) && (initialized || (job.keyframe && HasSequenceHeader(job.accessUnit)))
    ensures Gate(initialized, job) == InvalidFrame <==> !Sized(job)
  {
  }

  // ---- Where jobs come from ----------------------------------------------------------------

  /** Event `i` stores the job with this tag. */
  predicate StoredAt(events: seq<Event>, i: nat, t: Tagged) {
    && i < |events| && events[i] == SubmitStore
    && Run(events[..i]).owner.Submitting? && Run(events[..i]).owner.job == t.job
    && Run(events[..i]).generation == t.submittedIn == t.generation
  }

  ghost predicate Stored(events: seq<Event>, t: Tagged) {
    exists i: nat :: StoredAt(events, i, t)
  }

  /** Every job the system holds or has shown is among these. */
  ghost predicate Traced(s: System, tags: iset<Tagged>) {
    && (s.slot.Some? ==> s.slot.value in tags)
    && (s.worker.Holding? ==> s.worker.taken in tags)
    && (s.worker.Decoding? ==> s.worker.next in tags)
    && (s.worker.Presenting? ==> s.worker.surface in tags)
    && (forall i :: 0 <= i < |s.decoder.inside| ==> s.decoder.inside[i] in tags)
    && (forall i :: 0 <= i < |s.presented| ==> s.presented[i].source in tags)
  }

  lemma StepIsTraced(s: System, e: Event, tags: iset<Tagged>)
    requires Traced(s, tags)
    requires e.SubmitStore? && s.owner.Submitting? ==> Tagged(s.owner.loaded, s.generation, s.owner.job) in tags
    ensures Traced(Next(s, e), tags)
  {
    var mid := OwnerStep(s, e);
    assert Traced(mid, tags);
    if e.WorkerDecode? && mid.worker.Decoding? {
      var inside := mid.decoder.inside + [mid.worker.next];
      assert forall i :: 0 <= i < |inside| ==> inside[i] in tags;
    }
  }

  ghost function StoredTags(events: seq<Event>): iset<Tagged> {
    iset t | Stored(events, t)
  }

  lemma StoredStays(events: seq<Event>, more: seq<Event>, t: Tagged)
    requires Stored(events, t)
    ensures Stored(events + more, t)
  {
    var i: nat :| StoredAt(events, i, t);
    assert (events + more)[..i] == events[..i];
    assert StoredAt(events + more, i, t);
  }

  /** In every interleaving, every job in the slot, with the worker, in the decoder or shown was stored by a step. */
  lemma {:induction false} EverythingWasStored(events: seq<Event>)
    ensures Traced(Run(events), StoredTags(events))
  {
    if events != [] {
      var init, e := events[..|events| - 1], events[|events| - 1];
      var s := Run(init);
      EverythingWasStored(init);
      assert events == init + [e];
      forall t | t in StoredTags(init) ensures t in StoredTags(events) {
        StoredStays(init, [e], t);
      }
      assert Traced(s, StoredTags(events));
      if e.SubmitStore? && s.owner.Submitting? {
        EveryInterleavingIsSafe(init);
        assert StoredAt(events, |init|, Tagged(s.owner.loaded, s.generation, s.owner.job));
      }
      StepIsTraced(s, e, StoredTags(events));
    }
  }

  // ---- Resets ------------------------------------------------------------------------------

  /** Event `i` is a reset that takes effect. */
  predicate ResetAt(events: seq<Event>, i: nat) {
    i < |events| && events[i] == ResetIncrement && Run(events[..i]).owner.Idle?
  }

  /** No reset takes effect from event `i` on. */
  ghost predicate NoResetSince(events: seq<Event>, i: nat) {
    forall j: nat :: i <= j ==> !ResetAt(events, j)
  }

  lemma ResetsOfPrefix(init: seq<Event>, e: Event, j: nat)
    requires j < |init|
    ensures ResetAt(init + [e], j) <==> ResetAt(init, j)
  {
    assert (init + [e])[..j] == init[..j];
  }

  lemma RunStep(init: seq<Event>, e: Event)
    ensures Run(init + [e]) == Next(Run(init), e)
  {
    assert (init + [e])[..|init|] == init;
  }

  lemma NextGeneration(s: System, e: Event)
    ensures Next(s, e).generation == s.generation + if e == ResetIncrement && s.owner.Idle? then 1 else 0
  {
  }

  lemma ResetAtLast(init: seq<Event>, e: Event)
    ensures ResetAt(init + [e], |init|) <==> e == ResetIncrement && Run(init).owner.Idle?
  {
    assert (init + [e])[..|init|] == init;
  }

  lemma NoResetOneMore(init: seq<Event>, e: Event, i: nat)
    requires i <= |init|
    ensures NoResetSince(init + [e], i) <==> NoResetSince(init, i) && !ResetAt(init + [e], |init|)
  {
    forall j: nat | j < |init| ensures ResetAt(init + [e], j) <==> ResetAt(init, j) {
      ResetsOfPrefix(init, e, j);
    }
    if NoResetSince(init + [e], i) {
      forall j: nat | i <= j ensures !ResetAt(init, j) {
        assert !ResetAt(init + [e], j);
      }
    }
  }

  /** The generation moves with resets and with nothing else. */
  lemma {:induction false} GenerationCountsResets(events: seq<Event>, i: nat)
    requires i <= |events|
    ensures Run(events[..i]).generation <= Run(events).generation
    ensures Run(events[..i]).generation == Run(events).generation <==> NoResetSince(events, i)
  {
    if i == |events| {
      assert events[..i] == events;
    } else {
      var init, e := events[..|events| - 1], events[|events| - 1];
      GenerationCountsResets(init, i);
      assert init[..i] == events[..i] && events == init + [e];
      RunStep(init, e);
      NextGeneration(Run(init), e);
      ResetAtLast(init, e);
      NoResetOneMore(init, e, i);
    }
  }

  // ---- Surfaces are shown ------------------------------------------------------------------

  /** In every interleaving, a surface that waits to be presented is handed to the renderer by the next present step
      if and only if no reset came since its job was stored; and it was stored. */
  lemma SurfaceIsShownExactly(events: seq<Event>, rendered: bool)
    requires Run(events).worker.Presenting?
    ensures Stored(events, Run(events).worker.surface)
    ensures forall i: nat :: StoredAt(events, i, Run(events).worker.surface) ==>
              Run(events + [WorkerPresent(rendered)]).presented ==
              Run(events).presented
              + if NoResetSince(events, i) then [Presented(Run(events).worker.surface, Run(events).generation)] else []
    ensures forall i: nat :: StoredAt(events, i, Run(events).worker.surface) ==>
              Run(events + [WorkerPresent(rendered)]).worker ==
              if NoResetSince(events, i) && !rendered then Stopped else Waiting
  {
    var s := Run(events);
    EverythingWasStored(events);
    EveryInterleavingIsSafe(events);
    assert (events + [WorkerPresent(rendered)])[..|events|] == events;
    forall i: nat | StoredAt(events, i, s.worker.surface)
      ensures NoResetSince(events, i) <==> s.worker.jobGeneration == s.generation
    {
      GenerationCountsResets(events, i);
    }
  }

  /** Nothing is shown by any other step. */
  lemma OnlyPresentStepsShow(events: seq<Event>, e: Event)
    requires !e.WorkerPresent?
    ensures Run(events + [e]).presented == Run(events).presented
  {
    assert (events + [e])[..|events|] == events;
  }

  // ---- Jobs get through --------------------------------------------------------------------

  /** The step is one of the runtime thread's, or a request to stop. */
  predicate IsOwners(e: Event) {
    e.SubmitLoad? || e.SubmitStore? || e.ResetIncrement? || e.ResetClear? || e.RequestStop?
  }

  predicate AllOwners(events: seq<Event>) {
    forall i :: 0 <= i < |events| ==> IsOwners(events[i])
  }

  function RunFrom(s: System, events: seq<Event>): System {
    if events == [] then s else Next(RunFrom(s, events[..|events| - 1]), events[|events| - 1])
  }

  lemma {:induction false} RunContinues(events: seq<Event>, more: seq<Event>)
    ensures Run(events + more) == RunFrom(Run(events), more)
  {
    if more == [] {
      assert events + more == events;
    } else {
      RunContinues(events, more[..|more| - 1]);
      assert (events + more)[..|events + more| - 1] == events + more[..|more| - 1];
    }
  }

  /** What the worker has, the runtime thread does not touch. */
  lemma {:induction false} OwnersLeaveWorker(s: System, events: seq<Event>)
    requires AllOwners(events)
    ensures var next := RunFrom(s, events);
            && next.worker == s.worker && next.workerGeneration == s.workerGeneration
            && next.decoder == s.decoder && next.presented == s.presented
            && s.generation <= next.generation
  {
    if events != [] {
      OwnersLeaveWorker(s, events[..|events| - 1]);
    }
  }

  lemma StepThenOwners(events: seq<Event>, e: Event, between: seq<Event>)
    requires AllOwners(between)
    ensures var step, next := Next(Run(events), e), Run(events + [e] + between);
            && next.worker == step.worker && next.workerGeneration == step.workerGeneration
            && next.decoder == step.decoder && next.presented == step.presented
            && step.generation <= next.generation
  {
    assert (events + [e])[..|events|] == events;
    RunContinues(events + [e], between);
    OwnersLeaveWorker(Run(events + [e]), between);
  }

  /** The decoder takes the job: it has a proper size, and it starts a stream or continues that of its generation. */
  predicate Decodable(s: System, t: Tagged) {
    && Sized(t.job)
    && (|| (t.job.keyframe && HasSequenceHeader(t.job.accessUnit))
        || (s.decoder.initialized && t.generation == s.workerGeneration))
  }

  /** The decoder's answer that emits this job, after those it still holds of the same generation. */
  function EmitsIt(s: System, t: Tagged): Response {
    Emits(if t.generation == s.workerGeneration then |s.decoder.inside| else 0)
  }

  /** The worker's steps for one job up to the present check, with anything the runtime thread may do in between. */
  function Worked(events: seq<Event>, answer: Response, a: seq<Event>, b: seq<Event>, c: seq<Event>): seq<Event> {
    events + [WorkerTake] + a + [WorkerCheck(true)] + b + [WorkerDecode(answer)] + c
  }

  /** A job the worker holds is decoded if no reset has come, and dropped otherwise. */
  lemma HeldJobIsDecoded(s: System, t: Tagged)
    requires Inv(s) && s.worker == Holding(t) && Decodable(s, t)
    ensures var checked := Next(s, WorkerCheck(true));
            && checked.generation == s.generation && checked.presented == s.presented
            && checked.worker == (if t.generation == s.generation then Decoding(t) else Waiting)
            && (checked.worker.Decoding? ==>
                  var decoded := Decode(checked, t, EmitsIt(s, t));
                  decoded.worker == Presenting(t.generation, t) && decoded.presented == s.presented)
  {
    GateExactly(Next(s, WorkerCheck(true)).decoder.initialized, t.job);
  }

  /** The generation before and after some steps. */
  lemma GenerationGrows(events: seq<Event>, e: Event, between: seq<Event>)
    ensures Run(events).generation <= Run(events + [e] + between).generation
  {
    var all := events + [e] + between;
    assert all[..|events|] == events;
    GenerationCountsResets(all, |events|);
  }

  /** The job reaches the present check unless it has become stale before. */
  lemma WaitingJobIsDecoded(events: seq<Event>, a: seq<Event>, b: seq<Event>, c: seq<Event>)
    requires AllOwners(a) && AllOwners(b) && AllOwners(c)
    requires var s := Run(events); s.worker.Waiting? && !s.stop && s.slot.Some? && Decodable(s, s.slot.value)
    ensures var s := Run(events);
            var t, taken := s.slot.value, Run(events + [WorkerTake] + a);
            var worked := Run(Worked(events, EmitsIt(s, t), a, b, c));
            && worked.presented == s.presented && taken.generation <= worked.generation
            && worked.worker == if t.generation == taken.generation then Presenting(t.generation, t) else Waiting
  {
    var s := Run(events);
    var t, answer := s.slot.value, EmitsIt(s, s.slot.value);
    var taken := events + [WorkerTake] + a;
    var checked := taken + [WorkerCheck(true)] + b;
    StepThenOwners(events, WorkerTake, a);
    StepThenOwners(taken, WorkerCheck(true), b);
    StepThenOwners(checked, WorkerDecode(answer), c);
    EveryInterleavingIsSafe(taken);
    HeldJobIsDecoded(Run(taken), t);
    GenerationGrows(taken, WorkerCheck(true), b);
    GenerationGrows(checked, WorkerDecode(answer), c);
  }

  /** A job that waits in the slot of a waiting worker is taken, checked, decoded and shown, whatever the runtime thread
      does meanwhile, if and only if no reset came between its store and the present check. */
  lemma WaitingJobIsShownExactly(events: seq<Event>, i: nat, a: seq<Event>, b: seq<Event>, c: seq<Event>)
    requires AllOwners(a) && AllOwners(b) && AllOwners(c)
    requires var s := Run(events);
             && s.worker.Waiting? && !s.stop && s.slot.Some? && Decodable(s, s.slot.value)
             && StoredAt(events, i, s.slot.value)
    ensures var s := Run(events);
            var t := s.slot.value;
            var worked := Worked(events, EmitsIt(s, t), a, b, c);
            && Run(worked + [WorkerPresent(true)]).presented ==
               s.presented + (if NoResetSince(worked, i) then [Presented(t, t.generation)] else [])
            && Run(worked + [WorkerPresent(true)]).worker == Waiting
  {
    var s := Run(events);
    var t := s.slot.value;
    var taken, worked := events + [WorkerTake] + a, Worked(events, EmitsIt(s, t), a, b, c);
    WaitingJobIsDecoded(events, a, b, c);
    assert worked[..i] == events[..i] && taken[..i] == events[..i];
    GenerationCountsResets(taken, i);
    GenerationCountsResets(worked, i);
    assert (worked + [WorkerPresent(true)])[..|worked|] == worked;
  }

  // ---- Everything else the threads do ------------------------------------------------------

  /** A submission leaves its job waiting, whatever waited before. */
  lemma SubmitExactly(s: System, job: Receiver.Job)
    requires s.owner.Idle?
    ensures Next(Next(s, SubmitLoad(job)), SubmitStore) == s.(slot := Some(Tagged(s.generation, s.generation, job)))
  {
    var loaded := Next(s, SubmitLoad(job));
    assert loaded == s.(owner := Submitting(s.generation, job));
  }

  /** A reset starts a new generation with nothing waiting, and a request to stop is remembered. */
  lemma ResetExactly(s: System)
    requires s.owner.Idle?
    ensures Next(Next(s, ResetIncrement), ResetClear) == s.(slot := None, generation := s.generation + 1)
    ensures Next(s, RequestStop) == s.(stop := true)
  {
    var increment := Next(s, ResetIncrement);
    assert increment == s.(owner := Resetting, generation := s.generation + 1);
  }

  /** The worker after the decoder has taken one more job and given its answer. */
  function Answered(inside: seq<Tagged>, t: Tagged, answer: Response): Worker {
    if answer.Emits? && answer.which < |inside| then Presenting(t.generation, inside[answer.which]) else Waiting
  }

  function Emitted(worker: Worker): seq<Tagged> {
    if worker.Presenting? then [worker.surface] else []
  }

  /** A waiting worker stops when asked to, and otherwise takes what waits. */
  lemma TakeExactly(s: System)
    requires s.worker.Waiting?
    ensures Next(s, WorkerTake) ==
            if s.stop then s.(worker := Stopped)
            else if s.slot.None? then s
            else s.(worker := Holding(s.slot.value), slot := None)
  {
  }

  /** In every reachable state, a held job of the current generation goes to the decoder, which is reset for a new
      generation and stops the worker if that fails; an older job is dropped. */
  lemma CheckExactly(s: System, resets: bool)
    requires Inv(s) && s.worker.Holding?
    ensures var t, checked := s.worker.taken, Next(s, WorkerCheck(resets));
            if t.submittedIn < s.generation then checked == s.(worker := Waiting)
            else if s.workerGeneration == s.generation then checked == s.(worker := Decoding(t))
            else if !resets then checked == s.(worker := Stopped)
            else checked == s.(worker := Decoding(t), workerGeneration := s.generation, decoder := Decoder(false, []))
  {
  }

  /** What stays in the decoder after its answer. */
  function Remaining(inside: seq<Tagged>, answer: Response): seq<Tagged> {
    if answer.Emits? && answer.which < |inside| then inside[..answer.which] + inside[answer.which + 1..] else inside
  }

  /** The decoder emits one of the jobs in it or none, and keeps the others. */
  lemma NothingIsLost(inside: seq<Tagged>, t: Tagged, answer: Response)
    ensures multiset(inside) == multiset(Remaining(inside, answer)) + multiset(Emitted(Answered(inside, t, answer)))
  {
    if answer.Emits? && answer.which < |inside| {
      var k := answer.which;
      assert inside == inside[..k] + [inside[k]] + inside[k + 1..];
    }
  }

  /** A unit without the stream start it needs is dropped, and one of a bad size or one that breaks the decoder stops
      the worker. Any other is decoded, and the worker waits again or has the emitted surface to present. */
  lemma DecodeExactly(s: System, t: Tagged, answer: Response)
    requires s.worker == Decoding(t)
    ensures Next(s, WorkerDecode(answer)) ==
            if !Sized(t.job) then s.(worker := Stopped)
            else if !s.decoder.initialized && !StartsStream(t.job) then s.(worker := Waiting)
            else if answer.Breaks? then s.(worker := Stopped)
            else
              var inside := s.decoder.inside + [t];
              s.(worker := Answered(inside, t, answer), decoder := Decoder(true, Remaining(inside, answer)),
                 decoded := s.decoded + [Unit(s.workerGeneration, t.job)])
  {
    GateExactly(s.decoder.initialized, t.job);
  }
}
