/** The autonomous media clock (`src/media_clock.rs`): a clock thread that adds ticks, and the
    user interface that starts, stops, retunes and drains it, in every interleaving. */
module MediaClocks {
  import opened Numerics

  /** `wrapping_add(1)` on a u64. */
  function Wrapped(count: nat): U64 {
    count % U64_LIMIT
  }

  lemma WrappedSucc(count: nat)
    ensures Wrapped(count + 1) == Wrapped(Wrapped(count) + 1)
  {
  }

  /** What the mutex and the atomic counter hold. */
  datatype Shared = Shared(running: bool, fps: U32, revision: U64, stopping: bool, generation: U64)

  function NewShared(fps: U32): Shared {
    Shared(false, Max(fps, 1), 0, false, 0)
  }

  function Revised(s: Shared): Shared {
    s.(revision := Wrapped(s.revision + 1))
  }

  function Updated(s: Shared, running: bool, fps: U32): Shared {
    if s.running == running && s.fps == Max(fps, 1) then s
    else Revised(s.(running := running, fps := Max(fps, 1)))
  }

  function Retuned(s: Shared, fps: U32): Shared {
    if s.fps == Max(fps, 1) then s else Revised(s.(fps := Max(fps, 1)))
  }

  function DroppedClock(s: Shared): Shared {
    Revised(s.(stopping := true, running := false))
  }

  /** The clock thread between two waits. */
  datatype ClockPhase = Parked | Sleeping(revision: U64) | Ended

  /** It ticks when its deadline expires under the revision it was planned for. */
  predicate Ticks(s: Shared, phase: ClockPhase, timedOut: bool) {
    phase.Sleeping? && timedOut && !s.stopping && s.running && s.revision == phase.revision
  }

  function Ticked(s: Shared): Shared {
    s.(generation := Wrapped(s.generation + 1))
  }

  function NextPhase(s: Shared, phase: ClockPhase, timedOut: bool): ClockPhase {
    if phase.Ended? || s.stopping then Ended
    else if !s.running then Parked
    else if phase.Sleeping? && s.revision == phase.revision && !timedOut then phase
    else Sleeping(s.revision)
  }

  // ---- The critical sections as methods ------------------------------------------------------------

  class MediaClock {
    var running: bool
    var fps: U32
    var revision: U64
    var stopping: bool
    var generation: U64
    var consumedGeneration: U64

    function State(): Shared
      reads this
    {
      Shared(running, fps, revision, stopping, generation)
    }

    constructor (rate: U32)
      ensures State() == NewShared(rate) && consumedGeneration == 0
    {
      running, fps, revision, stopping := false, Max(rate, 1), 0, false;
      generation, consumedGeneration := 0, 0;
    }

    method LoadGeneration()
      modifies this`consumedGeneration
      ensures consumedGeneration == generation
    {
      consumedGeneration := generation;
    }

    method Update(run: bool, rate: U32)
      modifies this`running, this`fps, this`revision
      ensures State() == Updated(old(State()), run, rate)
    {
      var wanted := Max(rate, 1);
      if running == run && fps == wanted {
        return;
      }
      running := run;
      fps := wanted;
      revision := Wrapped(revision + 1);
    }

    method SetFps(rate: U32)
      modifies this`fps, this`revision
      ensures State() == Retuned(old(State()), rate)
    {
      var wanted := Max(rate, 1);
      if fps == wanted {
        return;
      }
      fps := wanted;
      revision := Wrapped(revision + 1);
    }

    method TakeTick() returns (tick: bool)
      modifies this`consumedGeneration
      ensures tick <==> generation != old(consumedGeneration)
      ensures consumedGeneration == generation
    {
      if generation == consumedGeneration {
        return false;
      }
      consumedGeneration := generation;
      tick := true;
    }

    method BeginDrop()
      modifies this`running, this`revision, this`stopping
      ensures State() == DroppedClock(old(State()))
    {
      stopping := true;
      running := false;
      revision := Wrapped(revision + 1);
    }

    /** One wake-up of the clock thread, up to its next wait. */
    method ClockWakes(phase: ClockPhase, timedOut: bool) returns (next: ClockPhase)
      requires !phase.Ended?
      modifies this`generation
      ensures next == NextPhase(old(State()), phase, timedOut)
      ensures State() == if Ticks(old(State()), phase, timedOut) then Ticked(old(State())) else old(State())
      ensures generation ==
              if timedOut && running && !stopping && phase == Sleeping(revision)
              then (old(generation) + 1) % 0x1_0000_0000_0000_0000 else old(generation)
    {
      if stopping {
        return Ended;
      }
      if phase.Sleeping? {
        var undisturbed := running && revision == phase.revision;
        if undisturbed && !timedOut {
          return phase;
        }
        if timedOut && running && revision == phase.revision {
          generation := Wrapped(generation + 1);
        }
      }
      next := if running then Sleeping(revision) else Parked;
    }
  }

  // ---- Interleavings ----------------------------------------------------------------------------------

  /** Inside `start` and `stop` the clock thread may run between any two of these points. */
  datatype UiPhase = Ready | StartUpdating(fps: U32) | StopReading | StopUpdating(readFps: U32) | StopLoading

  datatype Call = Start(fps: U32) | Stop | SetFps(rate: U32) | TakeTick | Drop

  datatype Action = Ui(call: Call) | UiContinues | ClockRuns(timedOut: bool)

  /** A tick, with the number of control changes when its wait was planned and when it came. */
  datatype Tick = Tick(plannedAt: nat, cameAt: nat, wasRunning: bool)

  datatype System = System(
    shared: Shared,
    consumed: U64,
    clock: ClockPhase,
    ui: UiPhase,
    ghost plannedAt: nat,       // control changes when the current sleep was planned
    ghost changes: nat,         // control changes so far
    ghost ticks: seq<Tick>,
    ghost drained: nat,         // ticks the user interface has seen or discarded
    ghost quiet: bool)          // a stop has returned and no start has begun since

  ghost function Initial(fps: U32): System {
    System(NewShared(fps), 0, Parked, Ready, 0, 0, [], 0, false)
  }

  ghost function Changed(s: System, shared: Shared): System {
    s.(shared := shared, changes := if shared == s.shared then s.changes else s.changes + 1)
  }

  ghost function Drained(s: System): System {
    s.(consumed := s.shared.generation, drained := |s.ticks|)
  }

  ghost function CallStep(s: System, call: Call): System {
    if !s.ui.Ready? || s.shared.stopping then s
    else match call
      case Start(fps) => Drained(s).(ui := StartUpdating(fps), quiet := false)
      case Stop => s.(ui := StopReading)
      case SetFps(rate) => Changed(s, Retuned(s.shared, rate))
      case TakeTick => Drained(s)
      case Drop => s.(shared := DroppedClock(s.shared), changes := s.changes + 1)
  }

  ghost function ContinueStep(s: System): System {
    match s.ui
    case Ready => s
    case StartUpdating(fps) => Changed(s, Updated(s.shared, true, fps)).(ui := Ready)
    case StopReading => s.(ui := StopUpdating(s.shared.fps))
    case StopUpdating(fps) => Changed(s, Updated(s.shared, false, fps)).(ui := StopLoading)
    case StopLoading => Drained(s).(ui := Ready, quiet := true)
  }

  ghost function ClockStep(s: System, timedOut: bool): System {
    var next := NextPhase(s.shared, s.clock, timedOut);
    var tick := Ticks(s.shared, s.clock, timedOut);
    var planned := if next.Sleeping? && (tick || next != s.clock) then s.changes else s.plannedAt;
    var t := s.(clock := next, plannedAt := planned);
    if tick
    then t.(shared := Ticked(s.shared), ticks := s.ticks + [Tick(s.plannedAt, s.changes, s.shared.running)])
    else t
  }

  ghost function Step(s: System, a: Action): System {
    match a
    case Ui(call) => CallStep(s, call)
    case UiContinues => ContinueStep(s)
    case ClockRuns(timedOut) => ClockStep(s, timedOut)
  }

  ghost function Run(fps: U32, actions: seq<Action>): System {
    if |actions| == 0 then Initial(fps)
    else Step(Run(fps, actions[..|actions| - 1]), actions[|actions| - 1])
  }

  // ---- What every step keeps ----------------------------------------------------------------------------

  ghost predicate CountersWrap(s: System) {
    && s.shared.generation == Wrapped(|s.ticks|)
    && s.consumed == Wrapped(s.drained) && s.drained <= |s.ticks|
    && s.shared.revision == Wrapped(s.changes)
  }

  ghost predicate StoppedIsQuiet(s: System) {
    && (s.quiet ==> !s.shared.running && s.drained == |s.ticks| && !s.ui.StartUpdating?)
    && (s.ui.StopLoading? ==> !s.shared.running)
    && (s.shared.stopping ==> !s.shared.running && s.ui.Ready?)
    && (s.clock.Ended? ==> s.shared.stopping)
    && 1 <= s.shared.fps && (s.ui.StopUpdating? ==> s.ui.readFps == s.shared.fps)
  }

  ghost predicate SleepIsCurrent(s: System) {
    s.clock.Sleeping? ==>
      && s.plannedAt <= s.changes && s.clock.revision == Wrapped(s.plannedAt)
      && (s.plannedAt == s.changes ==> s.shared.running)
  }

  /** The control was not touched between plan and tick, or it was a whole number of
      wrap-arounds of the revision counter. */
  ghost predicate Undisturbed(tick: Tick) {
    tick.wasRunning && tick.plannedAt <= tick.cameAt && (tick.cameAt - tick.plannedAt) % U64_LIMIT == 0
  }

  ghost predicate TicksUndisturbed(s: System) {
    forall k :: 0 <= k < |s.ticks| ==> Undisturbed(s.ticks[k])
  }

  ghost predicate Invariant(s: System) {
    CountersWrap(s) && StoppedIsQuiet(s) && SleepIsCurrent(s) && TicksUndisturbed(s)
  }

  lemma SameWrap(a: nat, b: nat)
    requires Wrapped(a) == Wrapped(b) && a <= b
    ensures (b - a) % U64_LIMIT == 0
  {
  }

  lemma StepKeepsInvariant(s: System, a: Action)
    requires Invariant(s)
    ensures Invariant(Step(s, a))
  {
    hide Wrapped;
    WrappedSucc(s.changes);
    WrappedSucc(|s.ticks|);
    if s.clock.Sleeping? && s.clock.revision == s.shared.revision {
      SameWrap(s.plannedAt, s.changes);
    }
  }

  lemma {:induction false} EveryRun(fps: U32, actions: seq<Action>)
    ensures Invariant(Run(fps, actions))
  {
    if |actions| > 0 {
      hide Step, Invariant;
      EveryRun(fps, actions[..|actions| - 1]);
      StepKeepsInvariant(Run(fps, actions[..|actions| - 1]), actions[|actions| - 1]);
    }
  }

  /** From the return of a stop to the next start the clock is silent: nothing is left to
      drain, and no step of the clock thread adds a tick. */
  lemma QuietAfterStop(fps: U32, actions: seq<Action>, timedOut: bool)
    requires Run(fps, actions).quiet
    ensures var s := Run(fps, actions);
            && s.shared.generation == s.consumed
            && ClockStep(s, timedOut).shared.generation == s.consumed
            && ClockStep(s, timedOut).quiet
  {
    EveryRun(fps, actions);
    hide Run;
  }

  /** A stop that runs to its end silences the clock, wherever the clock thread cuts in. */
  lemma StopSilences(fps: U32, actions: seq<Action>)
    requires var s := Run(fps, actions); s.ui.StopLoading?
    ensures var t := ContinueStep(Run(fps, actions));
            t.quiet && t.ui.Ready? && t.shared.generation == t.consumed && !t.shared.running
  {
    EveryRun(fps, actions);
    hide Run;
  }

  /** Stopping keeps the rate. */
  lemma StopKeepsTheRate(fps: U32, actions: seq<Action>)
    requires Run(fps, actions).ui.StopUpdating?
    ensures var t := ContinueStep(Run(fps, actions));
            t.shared.fps == Run(fps, actions).shared.fps && !t.shared.running && t.ui.StopLoading?
  {
    EveryRun(fps, actions);
    hide Run, TicksUndisturbed, CountersWrap;
  }

  /** A tick is added only while running, and only if the control changed a whole number of
      2^64 times since its wait was planned: below that many changes, not at all. */
  lemma TicksOnlyUnderTheirRevision(fps: U32, actions: seq<Action>, k: nat)
    requires k < |Run(fps, actions).ticks|
    ensures var tick := Run(fps, actions).ticks[k];
            && tick.wasRunning && tick.plannedAt <= tick.cameAt
            && (tick.cameAt - tick.plannedAt < U64_LIMIT ==> tick.cameAt == tick.plannedAt)
  {
    EveryRun(fps, actions);
    hide Run;
    assert Undisturbed(Run(fps, actions).ticks[k]);
  }

  /** A deadline that expires while running, the control untouched since its wait was planned,
      adds exactly one tick, and the clock thread plans the next wait. */
  lemma ExpiredDeadlineTicks(fps: U32, actions: seq<Action>)
    requires var s := Run(fps, actions);
             s.clock.Sleeping? && s.shared.running && !s.shared.stopping && s.plannedAt == s.changes
    ensures var s := Run(fps, actions); var t := ClockStep(s, true);
            && |t.ticks| == |s.ticks| + 1 && t.ticks[..|s.ticks|] == s.ticks
            && t.shared.generation == (s.shared.generation + 1) % 0x1_0000_0000_0000_0000
            && t.clock == s.clock && t.shared.running
            && ClockStep(s, false) == s
  {
    EveryRun(fps, actions);
    hide Run, TicksUndisturbed;
  }

  /** A start that runs to its end leaves the clock running at the rate asked for, with nothing
      to drain; the thread's next wake-up plans a wait, and when that expires there is a tick
      to take. */
  lemma StartedClockTicks(fps: U32, actions: seq<Action>)
    requires var s := Run(fps, actions); s.ui.StartUpdating? && !s.clock.Sleeping?
    ensures var s := Run(fps, actions);
            var started := ContinueStep(s);
            var planned := ClockStep(started, false);
            var ticked := ClockStep(planned, true);
            && started.ui.Ready? && started.shared.running && started.shared.fps == Max(s.ui.fps, 1)
            && planned.clock == Sleeping(started.shared.revision) && planned.ticks == s.ticks
            && |ticked.ticks| == |s.ticks| + 1
            && ticked.shared.generation == (s.shared.generation + 1) % 0x1_0000_0000_0000_0000
  {
    EveryRun(fps, actions);
    hide Run, TicksUndisturbed, CountersWrap;
  }

  /** What each call of the user interface does first. */
  lemma ControlCalls(s: System, rate: U32)
    requires s.ui.Ready? && !s.shared.stopping
    ensures CallStep(s, Start(rate)).ui == StartUpdating(rate) && CallStep(s, Stop).ui == StopReading
    ensures var t := CallStep(s, SetFps(rate)); t.shared.fps == Max(rate, 1) && t.shared.running == s.shared.running
    ensures var t := CallStep(s, Drop); t.shared.stopping && !t.shared.running
    ensures ContinueStep(s.(ui := StopReading)).ui == StopUpdating(s.shared.fps)
  {
  }

  /** `take_tick` answers yes exactly when ticks came since the last drain (and not exactly a
      multiple of 2^64 of them), however many; and the next call then answers no. */
  lemma OneTakeDrainsAll(fps: U32, actions: seq<Action>)
    requires var s := Run(fps, actions); s.ui.Ready? && !s.shared.stopping
    ensures var s := Run(fps, actions); var t := CallStep(s, TakeTick);
            && (s.shared.generation != s.consumed <==> (|s.ticks| - s.drained) % U64_LIMIT != 0)
            && t.shared.generation == t.consumed && t.drained == |s.ticks|
  {
    EveryRun(fps, actions);
    hide Run;
    SameWrapExactly(Run(fps, actions).drained, |Run(fps, actions).ticks|);
  }

  lemma SameWrapExactly(a: nat, b: nat)
    requires a <= b
    ensures Wrapped(a) == Wrapped(b) <==> (b - a) % U64_LIMIT == 0
  {
  }
}
