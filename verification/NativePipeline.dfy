/**
 * The decode-and-present pipeline: the runtime thread and a worker share one job slot and a generation
 * counter. Every shared access is one step, and a run is any interleaving of the two threads' steps.
 */
module NativePipeline {
  import opened Wrappers
  import opened Octets
  import opened Receiver

  const MAX_RENDER_ACCESS_UNIT_SIZE := 16 * 1024 * 1024

  /** The job in the slot, tagged with the generation it was stored under. `submittedIn` records, for the
      statements below only, the shared generation at the moment of the store. */
  datatype Tagged = Tagged(generation: nat, submittedIn: nat, job: Job)

  /** The runtime thread, between steps: `submit` loads the generation and then stores; a reconnect reset
      increments it and then clears. */
  datatype Owner = Idle | Submitting(loaded: nat, job: Job) | Resetting

  /** The worker, between steps. */
  datatype Worker =
    | Waiting
    | Holding(taken: Tagged)
    | Decoding(next: Tagged)
    | Presenting(jobGeneration: nat, surface: Tagged)
    | Stopped

  /** The decoder as the worker sees it: its keyframe gate and the jobs that may still yield a surface. */
  datatype Decoder = Decoder(initialized: bool, inside: seq<Tagged>)

  /** An access unit handed to the decoder under a worker generation. */
  datatype Unit = Unit(generation: nat, job: Job)

  /** A surface handed to the renderer, with the shared generation it was compared against. */
  datatype Presented = Presented(source: Tagged, current: nat)

  datatype System = System(
    slot: Option<Tagged>,
    generation: nat,
    stop: bool,
    owner: Owner,
    worker: Worker,
    workerGeneration: nat,
    decoder: Decoder,
    decoded: seq<Unit>,
    presented: seq<Presented>)

  const START := System(None, 0, false, Idle, Waiting, 0, Decoder(false, []), [], [])

  /** What the native decoder does with an accepted unit: fail, give nothing, or emit one of its jobs. */
  datatype Response = Breaks | Silent | Emits(which: nat)

  datatype Event =
    | SubmitLoad(job: Job)
    | SubmitStore
    | ResetIncrement
    | ResetClear
    | RequestStop
    | WorkerTake
    | WorkerCheck(decoderResets: bool)
    | WorkerDecode(response: Response)
    | WorkerPresent(rendered: bool)

  /** An H.264 sequence parameter set with its start code, at `i`. */
  predicate SequenceHeaderAt(unit: Bytes, i: nat) {
    || (i + 5 <= |unit| && unit[i..i + 5] == [0, 0, 0, 1, 0x67])
    || (i + 4 <= |unit| && unit[i..i + 4] == [0, 0, 1, 0x67])
  }

  predicate HasSequenceHeader(unit: Bytes) {
    exists i :: 0 <= i < |unit| && SequenceHeaderAt(unit, i)
  }

  predicate StartsStream(job: Job) {
    job.keyframe && HasSequenceHeader(job.accessUnit)
  }

  datatype GateResult = Pass | MissingSequenceHeader | InvalidFrame

  /** `DecoderGate::accept`. */
  function Gate(initialized: bool, job: Job): GateResult {
    if job.accessUnit == [] || |job.accessUnit| > MAX_RENDER_ACCESS_UNIT_SIZE then InvalidFrame
    else if !initialized && !StartsStream(job) then MissingSequenceHeader
    else Pass
  }

  /** `stale_native_job`. */
  predicate StaleJob(job: nat, current: nat, worker: nat) {
    job < current || job < worker
  }

  function OwnerStep(s: System, e: Event): System {
    match e
    case SubmitLoad(job) => if s.owner.Idle? then s.(owner := Submitting(s.generation, job)) else s
    case SubmitStore =>
      if s.owner.Submitting? then
        s.(owner := Idle, slot := Some(Tagged(s.owner.loaded, s.generation, s.owner.job)))
      else s
    case ResetIncrement => if s.owner.Idle? then s.(owner := Resetting, generation := s.generation + 1) else s
    case ResetClear => if s.owner.Resetting? then s.(owner := Idle, slot := None) else s
    case RequestStop => s.(stop := true)
    case _ => s
  }

  /** The worker loop, one shared access per step. */
  function WorkerStep(s: System, e: Event): System {
    match e
    case WorkerTake =>
      if !s.worker.Waiting? then s
      else if s.stop then s.(worker := Stopped)
      else if s.slot.None? then s
      else s.(worker := Holding(s.slot.value), slot := None)
    case WorkerCheck(decoderResets) =>
      if !s.worker.Holding? then s
      else
        var t := s.worker.taken;
        if StaleJob(t.generation, s.generation, s.workerGeneration) then s.(worker := Waiting)
        else if t.generation == s.workerGeneration then s.(worker := Decoding(t))
        else if !decoderResets then s.(worker := Stopped)
        else s.(worker := Decoding(t), workerGeneration := t.generation, decoder := Decoder(false, []))
    case WorkerDecode(response) => if s.worker.Decoding? then Decode(s, s.worker.next, response) else s
    case WorkerPresent(rendered) =>
      if !s.worker.Presenting? then s
      else if s.worker.jobGeneration == s.generation then
        s.(worker := if rendered then Waiting else Stopped,
           presented := s.presented + [Presented(s.worker.surface, s.generation)])
      else s.(worker := Waiting)
    case _ => s
  }

  function Decode(s: System, t: Tagged, response: Response): System {
    match Gate(s.decoder.initialized, t.job)
    case InvalidFrame => s.(worker := Stopped)
    case MissingSequenceHeader => s.(worker := Waiting)
    case Pass =>
      if response.Breaks? then s.(worker := Stopped)
      else
        var inside := s.decoder.inside + [t];
        var fed := s.(decoded := s.decoded + [Unit(s.workerGeneration, t.job)]);
        if response.Emits? && response.which < |inside| then
          fed.(worker := Presenting(t.generation, inside[response.which]),
               decoder := Decoder(true, inside[..response.which] + inside[response.which + 1..]))
        else fed.(worker := Waiting, decoder := Decoder(true, inside))
  }

  function Next(s: System, e: Event): System {
    WorkerStep(OwnerStep(s, e), e)
  }

  /** Any interleaving: steps that are not enabled change nothing. */
  function Run(events: seq<Event>): System {
    if events == [] then START else Next(Run(events[..|events| - 1]), events[|events| - 1])
  }

  // ---- Invariant ---------------------------------------------------------------------------

  /** A job's tag is the generation it was submitted in, and no generation is from the future. */
  predicate Honest(t: Tagged, generation: nat) {
    t.generation == t.submittedIn <= generation
  }

  ghost predicate Inv(s: System) {
    && s.workerGeneration <= s.generation
    && (s.slot.Some? ==> Honest(s.slot.value, s.generation))
    && (s.owner.Submitting? ==> s.owner.loaded == s.generation)
    && (s.worker.Holding? ==> Honest(s.worker.taken, s.generation))
    && (s.worker.Decoding? ==> Honest(s.worker.next, s.generation) && s.worker.next.generation == s.workerGeneration)
    && (s.worker.Presenting? ==>
          && s.worker.jobGeneration == s.workerGeneration
          && Honest(s.worker.surface, s.generation) && s.worker.surface.generation == s.workerGeneration)
    && (forall i :: 0 <= i < |s.decoder.inside| ==>
          Honest(s.decoder.inside[i], s.generation) && s.decoder.inside[i].generation == s.workerGeneration)
    && (s.decoder.initialized <==> exists i :: 0 <= i < |s.decoded| && s.decoded[i].generation == s.workerGeneration)
    && (forall i :: 0 <= i < |s.decoded| ==> s.decoded[i].generation <= s.workerGeneration)
    && EpochsStartStreams(s.decoded)
    && (forall i :: 0 <= i < |s.presented| ==> s.presented[i].source.submittedIn == s.presented[i].current)
  }

  /** The first unit decoded in each generation is a keyframe that carries a sequence header. */
  ghost predicate EpochsStartStreams(decoded: seq<Unit>) {
    forall i :: 0 <= i < |decoded| && FirstOfGeneration(decoded, i) ==> StartsStream(decoded[i].job)
  }

  ghost predicate FirstOfGeneration(decoded: seq<Unit>, i: nat)
    requires i < |decoded|
  {
    forall k :: 0 <= k < i ==> decoded[k].generation != decoded[i].generation
  }

  lemma OwnerKeepsInv(s: System, e: Event)
    requires Inv(s)
    ensures Inv(OwnerStep(s, e))
  {
  }

  /** Decoding one more unit keeps every epoch's first unit a stream start. */
  lemma DecodedExtends(decoded: seq<Unit>, u: Unit)
    requires EpochsStartStreams(decoded)
    requires StartsStream(u.job) || exists k :: 0 <= k < |decoded| && decoded[k].generation == u.generation
    ensures EpochsStartStreams(decoded + [u])
  {
    var longer := decoded + [u];
    forall i | 0 <= i < |longer| && FirstOfGeneration(longer, i) ensures StartsStream(longer[i].job) {
      if i < |decoded| {
        assert forall k :: 0 <= k < i ==> longer[k] == decoded[k];
        assert FirstOfGeneration(decoded, i);
      } else {
        assert forall k :: 0 <= k < |decoded| ==> longer[k] == decoded[k];
      }
    }
  }

  lemma DecodeKeepsInv(s: System, t: Tagged, response: Response)
    requires Inv(s) && s.worker.Decoding? && s.worker.next == t
    ensures Inv(Decode(s, t, response))
  {
    if Gate(s.decoder.initialized, t.job).Pass? && !response.Breaks? {
      var u := Unit(s.workerGeneration, t.job);
      DecodedExtends(s.decoded, u);
      var next := Decode(s, t, response);
      assert next.decoded[|s.decoded|] == u;
      var inside := s.decoder.inside + [t];
      assert forall i :: 0 <= i < |inside| ==>
        Honest(inside[i], s.generation) && inside[i].generation == s.workerGeneration;
    }
  }

  lemma WorkerKeepsInv(s: System, e: Event)
    requires Inv(s)
    ensures Inv(WorkerStep(s, e))
  {
    if e.WorkerDecode? && s.worker.Decoding? {
      DecodeKeepsInv(s, s.worker.next, e.response);
    }
  }

  /** In every interleaving the worker never runs ahead of the shared generation, a surface passes the
      present check only if its job was submitted in the generation current at that check, and every
      generation's first decoded unit is a keyframe with a sequence header. */
  lemma {:induction false} EveryInterleavingIsSafe(events: seq<Event>)
    ensures Inv(Run(events))
    ensures Run(events).workerGeneration <= Run(events).generation
    ensures forall i :: 0 <= i < |Run(events).presented| ==>
              Run(events).presented[i].source.submittedIn == Run(events).presented[i].current
    ensures EpochsStartStreams(Run(events).decoded)
  {
    if events != [] {
      var init, e := events[..|events| - 1], events[|events| - 1];
      EveryInterleavingIsSafe(init);
      OwnerKeepsInv(Run(init), e);
      WorkerKeepsInv(OwnerStep(Run(init), e), e);
    }
  }

  /** Nothing submitted before a reconnect reset is presented after it, however far the worker had got. */
  lemma ResetDropsEarlierWork(events: seq<Event>, more: seq<Event>, i: nat)
    requires |Run(events).presented| <= i < |Run(events + more).presented|
    ensures Run(events + more).presented[i].source.submittedIn >= Run(events).generation
  {
    EveryInterleavingIsSafe(events + more);
    LaterIsNewer(events, more, i);
  }

  lemma {:induction false} LaterIsNewer(events: seq<Event>, more: seq<Event>, i: nat)
    ensures Run(events).presented <= Run(events + more).presented
    ensures Run(events).generation <= Run(events + more).generation
    ensures |Run(events).presented| <= i < |Run(events + more).presented| ==>
              Run(events + more).presented[i].current >= Run(events).generation
  {
    if more == [] {
      assert events + more == events;
    } else {
      var init := more[..|more| - 1];
      assert (events + more)[..|events + more| - 1] == events + init;
      LaterIsNewer(events, init, i);
    }
  }
}
