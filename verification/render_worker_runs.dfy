/** Every interleaving of the UI thread with the render worker (`src/render_worker.rs`).

    One step is one critical section, one call on the sink, or one composition. Beside the
    shared state a run records what happened, in order, as a trace of events; the claims
    about the sink and the counters are claims about that trace. */
module RenderWorkerRuns {
  import opened Numerics
  import opened Wrappers
  import opened RenderWorkers

  // ---- What an observer sees ---------------------------------------------------------------------

  datatype Event =
    | Requested(job: RenderJob)
    | Disabled
    | Composed(job: RenderJob, reused: bool)
    | Connected
    | Checked(job: RenderJob)
    | Sent(job: RenderJob, ok: bool)
    | Disconnected
  {
    predicate FromUi() {
      Requested? || Disabled?
    }
  }

  type Trace = seq<Event>

  ghost function Before(t: Trace): Trace
    requires |t| > 0
  {
    t[..|t| - 1]
  }

  ghost function Last(t: Trace): Event
    requires |t| > 0
  {
    t[|t| - 1]
  }

  lemma Appended(t: Trace, e: Event)
    ensures Before(t + [e]) == t && Last(t + [e]) == e
  {
  }

  /** Whether the UI last asked for output. */
  ghost predicate OutputWanted(t: Trace) {
    |t| > 0 &&
    match Last(t)
    case Requested(job) => job.publishVirtual
    case Disabled => false
    case _ => OutputWanted(Before(t))
  }

  /** The epoch of the newest request. */
  ghost function CurrentEpoch(t: Trace): U64 {
    if |t| == 0 then 0
    else if Last(t).Requested? then Last(t).job.epoch
    else CurrentEpoch(Before(t))
  }

  ghost predicate SinkConnected(t: Trace) {
    |t| > 0 &&
    match Last(t)
    case Connected => true
    case Disconnected => false
    case _ => SinkConnected(Before(t))
  }

  /** Sends since the UI last turned output off; zero while output is wanted. */
  ghost function SendsSinceDisable(t: Trace): nat {
    if |t| == 0 || OutputWanted(t) then 0
    else SendsSinceDisable(Before(t)) + if Last(t).Sent? then 1 else 0
  }

  ghost function EventCounts(e: Event): Counters {
    match e
    case Composed(job, reused) =>
      Counters(1, if job.live then 1 else 0, 0, if reused then 0 else 1, if reused then 1 else 0)
    case Sent(_, ok) => Counters(0, 0, if ok then 1 else 0, 0, 0)
    case _ => NO_COUNTS
  }

  /** Compositions, live compositions, delivered frames, allocations and reuses that happened. */
  ghost function TrueTotals(t: Trace): Counters {
    if |t| == 0 then NO_COUNTS else TrueTotals(Before(t)).Plus(EventCounts(Last(t)))
  }

  /** At position `at` the worker, holding the lock, saw output on and the job current. */
  ghost predicate CheckPassed(t: Trace, at: nat, job: RenderJob) {
    at < |t| && t[at] == Checked(job) && OutputWanted(t[..at]) && CurrentEpoch(t[..at]) == job.epoch
  }

  ghost predicate UiEventAt(t: Trace, k: nat) {
    k < |t| && t[k].FromUi()
  }

  /** Since `at` only the UI has acted: the worker went straight from that check to here. */
  ghost predicate OnlyUiSince(t: Trace, at: nat) {
    forall k: nat :: at < k < |t| ==> UiEventAt(t, k)
  }

  ghost predicate JustChecked(t: Trace, job: RenderJob) {
    exists at: nat :: CheckPassed(t, at, job) && OnlyUiSince(t, at)
  }

  ghost predicate SentBelowAt(t: Trace, k: nat, bound: nat) {
    k < |t| && (t[k].Sent? ==> t[k].job.id < bound)
  }

  ghost predicate SentBelow(t: Trace, bound: nat) {
    forall k: nat :: k < |t| ==> SentBelowAt(t, k, bound)
  }

  /** The sink protocol for one more event after `t`. */
  ghost predicate Allowed(t: Trace, e: Event) {
    && (e.Sent? ==> SinkConnected(t) && JustChecked(t, e.job) && SentBelow(t, e.job.id))
    && (e.Connected? ==> !SinkConnected(t))
    && SendsSinceDisable(t + [e]) <= 1
  }

  ghost predicate Obeys(t: Trace) {
    |t| == 0 || (Obeys(Before(t)) && Allowed(Before(t), Last(t)))
  }

  // ---- The machine ----------------------------------------------------------------------------------

  datatype Work = Work(job: RenderJob, reused: bool, composed: bool, sent: bool, error: Option<nat>)

  /** The worker's way through one job: each stage names the step that comes next. */
  datatype Stage = TakeBuffer | Compose | Decide | Retire | Connect | Recheck | Send | Finish

  datatype Phase = Idle | Disconnecting | AtStop | Terminated | Busy(stage: Stage, work: Work)

  datatype System = System(
    shared: WorkerState,
    phase: Phase,
    connected: bool,
    taken: Counters,
    ghost trace: Trace,
    ghost submitted: seq<RenderJob>,
    ghost replaced: multiset<RenderJob>,
    ghost finished: seq<RenderJob>,
    ghost abandoned: multiset<RenderJob>)

  const NO_JOBS: multiset<RenderJob> := multiset{}

  const START := System(INITIAL_STATE, Idle, false, NO_COUNTS, [], [], NO_JOBS, [], NO_JOBS)

  /** What a worker step cannot know beforehand: whether composing, connecting or sending
      succeeds, and the opaque reports that end up in the result. */
  datatype Chance = Chance(ok: bool, error: nat, preview: Option<nat>, producer: Option<nat>, consumer: Option<nat>)

  datatype UiCall =
    | Submit(epoch: U64, size: FrameSize, live: bool, publishVirtual: bool, forcePreview: bool)
    | DisconnectOutput
    | TakeResult
    | Recycle(size: FrameSize)
    | DropWorker

  datatype Action = Ui(call: UiCall) | Worker(chance: Chance)

  function Pending(s: System): multiset<RenderJob> {
    if s.shared.pending.Some? then multiset{s.shared.pending.value} else NO_JOBS
  }

  function InHand(s: System): multiset<RenderJob> {
    if s.phase.Busy? then multiset{s.phase.work.job} else NO_JOBS
  }

  function Unread(s: System): Counters {
    if s.shared.result.Some? then s.shared.result.value.counters else NO_COUNTS
  }

  function WorkCounts(work: Work): Counters {
    Counters(if work.composed then 1 else 0,
             if work.composed && work.job.live then 1 else 0,
             if work.sent then 1 else 0,
             if work.composed && !work.reused then 1 else 0,
             if work.composed && work.reused then 1 else 0)
  }

  function CountsInHand(s: System): Counters {
    if s.phase.Busy? then WorkCounts(s.phase.work) else NO_COUNTS
  }

  function ResultOf(work: Work, chance: Chance): RenderResult {
    RenderResult(work.job.epoch,
                 if work.composed then Some(work.job.size) else None,
                 work.job.forcePreview,
                 WorkCounts(work),
                 if work.composed then chance.preview else None,
                 work.error, chance.producer, chance.consumer)
  }

  // ---- Steps -----------------------------------------------------------------------------------------

  ghost function Noted(s: System, e: Event): System {
    s.(trace := s.trace + [e])
  }

  ghost function SubmitStep(s: System, job: RenderJob): System {
    Noted(s.(shared := Submitted(s.shared, job),
             replaced := s.replaced + Pending(s),
             submitted := s.submitted + [job]),
          Requested(job))
  }

  ghost function DropStep(s: System): System {
    s.(shared := Dropped(s.shared), abandoned := s.abandoned + Pending(s))
  }

  ghost function SinkOff(s: System): System {
    if s.connected then Noted(s.(connected := false), Disconnected) else s
  }

  ghost function IdleStep(s: System): System {
    s.(shared := AfterAction(s.shared),
       phase := match ActionOf(s.shared)
         case Stop => AtStop
         case Disconnect => Disconnecting
         case Render(job) => Busy(TakeBuffer, Work(job, false, false, false, None))
         case Wait => Idle)
  }

  ghost function At(s: System, stage: Stage, work: Work): System {
    s.(phase := Busy(stage, work))
  }

  ghost function TakeBufferStep(s: System, work: Work): System {
    var reused := LastOfSize(s.shared.recycled, work.job.size).Some?;
    At(s.(shared := FrameTaken(s.shared, work.job.size)), Compose, work.(reused := reused))
  }

  ghost function ComposeStep(s: System, work: Work, ok: bool): System {
    var next := At(s, Decide, work.(composed := ok));
    if ok then Noted(next, Composed(work.job, work.reused)) else next
  }

  /** The first locked look at the output state. */
  ghost function DecideStep(s: System, work: Work): System {
    At(s, if s.shared.outputEnabled && work.job.epoch == s.shared.latestEpoch then Connect
          else if !s.shared.outputEnabled then Retire
          else Finish, work)
  }

  ghost function ConnectStep(s: System, work: Work, chance: Chance): System {
    var connected := At(s, if work.composed then Recheck else Finish, work);
    if s.connected then connected
    else if chance.ok then Noted(connected.(connected := true), Connected)
    else At(s, Finish, work.(error := Some(chance.error)))
  }

  /** The second locked look, right before the frame is sent. */
  ghost function RecheckStep(s: System, work: Work): System {
    if s.shared.outputEnabled && s.shared.latestEpoch == work.job.epoch
    then Noted(At(s, Send, work), Checked(work.job))
    else At(s, Finish, work)
  }

  ghost function SendStep(s: System, work: Work, chance: Chance): System {
    if chance.ok then Noted(At(s, Finish, work.(sent := true)), Sent(work.job, true))
    else SinkOff(Noted(At(s, Finish, work.(error := Some(chance.error))), Sent(work.job, false)))
  }

  ghost function FinishStep(s: System, work: Work, chance: Chance): System {
    s.(shared := Committed(s.shared, ResultOf(work, chance)),
       finished := s.finished + [work.job],
       phase := Idle)
  }

  ghost function JobStep(s: System, stage: Stage, work: Work, chance: Chance): System {
    match stage
    case TakeBuffer => TakeBufferStep(s, work)
    case Compose => ComposeStep(s, work, chance.ok)
    case Decide => DecideStep(s, work)
    case Retire => At(SinkOff(s), Finish, work)
    case Connect => ConnectStep(s, work, chance)
    case Recheck => RecheckStep(s, work)
    case Send => SendStep(s, work, chance)
    case Finish => FinishStep(s, work, chance)
  }

  ghost function WorkerStep(s: System, chance: Chance): System {
    match s.phase
    case Idle => IdleStep(s)
    case Disconnecting => SinkOff(s).(phase := Idle)
    case AtStop => SinkOff(s).(phase := Terminated)
    case Terminated => s
    case Busy(stage, work) => JobStep(s, stage, work, chance)
  }

  /** The UI owns the handle, so it makes no call once the drop has begun. */
  ghost function UiStep(s: System, call: UiCall): System {
    if s.shared.stopping then s
    else match call
      case Submit(epoch, size, live, publishVirtual, forcePreview) =>
        SubmitStep(s, RenderJob(|s.submitted|, epoch, size, live, publishVirtual, forcePreview))
      case DisconnectOutput => Noted(s.(shared := OutputDisconnected(s.shared)), Disabled)
      case TakeResult => s.(shared := s.shared.(result := None), taken := s.taken.Plus(Unread(s)))
      case Recycle(size) => s.(shared := s.shared.(recycled := Pooled(s.shared.recycled, size)))
      case DropWorker => DropStep(s)
  }

  ghost function Step(s: System, a: Action): System {
    match a
    case Ui(call) => UiStep(s, call)
    case Worker(chance) => WorkerStep(s, chance)
  }

  ghost function Run(actions: seq<Action>): System {
    if |actions| == 0 then START else Step(Run(actions[..|actions| - 1]), actions[|actions| - 1])
  }

  // ---- One event more --------------------------------------------------------------------------------

  lemma Folds(t: Trace, e: Event)
    ensures OutputWanted(t + [e]) ==
            if e.Requested? then e.job.publishVirtual else if e.Disabled? then false else OutputWanted(t)
    ensures CurrentEpoch(t + [e]) == if e.Requested? then e.job.epoch else CurrentEpoch(t)
    ensures SinkConnected(t + [e]) == if e.Connected? then true else if e.Disconnected? then false else SinkConnected(t)
    ensures SendsSinceDisable(t + [e]) ==
            if OutputWanted(t + [e]) then 0 else SendsSinceDisable(t) + if e.Sent? then 1 else 0
    ensures TrueTotals(t + [e]) == TrueTotals(t).Plus(EventCounts(e))
    ensures Obeys(t + [e]) <==> Obeys(t) && Allowed(t, e)
  {
    Appended(t, e);
  }

  lemma SentBelowAppended(t: Trace, e: Event, less: nat, bound: nat)
    requires SentBelow(t, less) && less <= bound
    requires e.Sent? ==> e.job.id < bound
    ensures SentBelow(t + [e], bound)
  {
    forall k: nat | k < |t + [e]| ensures SentBelowAt(t + [e], k, bound) {
      if k < |t| {
        assert SentBelowAt(t, k, less);
      }
    }
  }

  lemma SentBelowWeakened(t: Trace, less: nat, bound: nat)
    requires SentBelow(t, less) && less <= bound
    ensures SentBelow(t, bound)
  {
    forall k: nat | k < |t| ensures SentBelowAt(t, k, bound) {
      assert SentBelowAt(t, k, less);
    }
  }

  lemma CheckedNow(t: Trace, job: RenderJob)
    requires OutputWanted(t) && CurrentEpoch(t) == job.epoch
    ensures JustChecked(t + [Checked(job)], job)
  {
    var next := t + [Checked(job)];
    assert next[..|t|] == t;
    assert CheckPassed(next, |t|, job) && OnlyUiSince(next, |t|);
  }

  lemma StillJustChecked(t: Trace, e: Event, job: RenderJob)
    requires JustChecked(t, job) && e.FromUi()
    ensures JustChecked(t + [e], job)
  {
    var at: nat :| CheckPassed(t, at, job) && OnlyUiSince(t, at);
    var next := t + [e];
    assert next[..at] == t[..at];
    forall k: nat | at < k < |next| ensures UiEventAt(next, k) {
      if k < |t| {
        assert UiEventAt(t, k);
      }
    }
    assert CheckPassed(next, at, job) && OnlyUiSince(next, at);
  }

  ghost predicate Doing(s: System, stage: Stage) {
    s.phase.Busy? && s.phase.stage == stage
  }

  // ---- What every step keeps --------------------------------------------------------------------------

  /** Each submitted job has exactly one fate. */
  ghost predicate EveryJobHasOneFate(s: System) {
    multiset(s.submitted) == s.replaced + Pending(s) + InHand(s) + multiset(s.finished) + s.abandoned
  }

  function Newest(jobs: seq<RenderJob>): Option<RenderJob> {
    if |jobs| == 0 then None else Some(jobs[|jobs| - 1])
  }

  /** The newest request is never the one that gets lost, until the drop. */
  ghost predicate NewestSurvives(s: System) {
    && (s.shared.pending.Some? ==> !s.shared.stopping && s.shared.pending == Newest(s.submitted))
    && (s.shared.pending.None? && !s.shared.stopping ==>
          if s.phase.Busy? then Some(s.phase.work.job) == Newest(s.submitted)
          else Newest(s.finished) == Newest(s.submitted))
    && (s.shared.stopping ==> |s.abandoned| <= 1)
    && (!s.shared.stopping ==> s.abandoned == NO_JOBS)
  }

  ghost predicate LocksAgree(s: System) {
    && (s.shared.processing <==> s.phase.Busy?)
    && (s.phase.AtStop? || s.phase.Terminated? ==> s.shared.stopping)
    && |s.shared.recycled| <= RECYCLED_FRAMES_LIMIT
  }

  ghost predicate NothingUncounted(s: System) {
    && s.taken.Plus(Unread(s)).Plus(CountsInHand(s)) == TrueTotals(s.trace)
    && (Doing(s, TakeBuffer) || Doing(s, Compose) ==> !s.phase.work.composed)
    && (s.phase.Busy? && s.phase.stage != Finish ==> !s.phase.work.sent)
  }

  ghost predicate SinkTracked(s: System) {
    && s.connected == SinkConnected(s.trace)
    && s.shared.outputEnabled == OutputWanted(s.trace)
    && s.shared.latestEpoch == CurrentEpoch(s.trace)
    && (Doing(s, Recheck) || Doing(s, Send) ==> s.connected)
    && (s.phase.Terminated? ==> !s.connected)
  }

  /** A connected sink whose output is off has its disconnect on the way. */
  ghost predicate DisconnectOnItsWay(s: System) {
    (s.connected || Doing(s, Connect)) && !s.shared.outputEnabled ==>
      s.shared.disconnectRequested || s.phase.Disconnecting? || Doing(s, Retire) || s.phase.AtStop?
  }

  ghost function SentLimit(s: System): nat {
    if Doing(s, Finish) then s.phase.work.job.id + 1
    else if s.phase.Busy? then s.phase.work.job.id
    else if s.shared.pending.Some? then s.shared.pending.value.id
    else |s.submitted|
  }

  ghost predicate NumbersInOrder(s: System) {
    && (s.shared.pending.Some? ==> s.shared.pending.value.id < |s.submitted|)
    && (s.phase.Busy? ==> s.phase.work.job.id < |s.submitted|)
    && (s.phase.Busy? && s.shared.pending.Some? ==> s.phase.work.job.id < s.shared.pending.value.id)
    && SentBelow(s.trace, SentLimit(s))
  }

  ghost predicate SendsGuarded(s: System) {
    && (Doing(s, Send) ==> JustChecked(s.trace, s.phase.work.job))
    && SendsSinceDisable(s.trace) <= (if Doing(s, Send) then 0 else 1)
    && Obeys(s.trace)
  }

  ghost predicate SinkSafe(s: System) {
    SinkTracked(s) && DisconnectOnItsWay(s) && NumbersInOrder(s) && SendsGuarded(s)
  }

  ghost predicate Invariant(s: System) {
    EveryJobHasOneFate(s) && NewestSurvives(s) && LocksAgree(s) && NothingUncounted(s) && SinkSafe(s)
  }

  // ---- Jobs --------------------------------------------------------------------------------------------

  /** Until it commits, a job in hand only moves through its stages. */
  lemma JobInHandStays(s: System, stage: Stage, work: Work, chance: Chance)
    requires s.phase == Busy(stage, work) && stage != Finish
    ensures var t := JobStep(s, stage, work, chance);
            && t.phase.Busy? && t.phase.work.job == work.job
            && t.submitted == s.submitted && t.replaced == s.replaced
            && t.finished == s.finished && t.abandoned == s.abandoned && t.taken == s.taken
            && t.shared == s.shared.(recycled := t.shared.recycled)
            && |t.shared.recycled| <= |s.shared.recycled|
  {
    hide Merged, LastOfSize;
  }

  lemma JobStepIs(s: System, chance: Chance)
    requires Doing(s, Finish)
    ensures WorkerStep(s, chance) == FinishStep(s, s.phase.work, chance)
  {
  }

  lemma UiKeepsFates(s: System, call: UiCall)
    requires EveryJobHasOneFate(s)
    ensures EveryJobHasOneFate(UiStep(s, call))
  {
  }

  lemma UiKeepsNewest(s: System, call: UiCall)
    requires NewestSurvives(s) && LocksAgree(s)
    ensures NewestSurvives(UiStep(s, call)) && LocksAgree(UiStep(s, call))
  {
  }

  lemma FinishKeepsJobs(s: System, work: Work, chance: Chance)
    requires EveryJobHasOneFate(s) && NewestSurvives(s) && LocksAgree(s)
    requires s.phase == Busy(Finish, work)
    ensures var t := FinishStep(s, work, chance); EveryJobHasOneFate(t) && NewestSurvives(t) && LocksAgree(t)
  {
    hide Merged, ResultOf;
  }

  lemma IdleKeepsFates(s: System)
    requires EveryJobHasOneFate(s) && s.phase.Idle?
    ensures EveryJobHasOneFate(IdleStep(s))
  {
  }

  lemma SameFates(s: System, t: System)
    requires EveryJobHasOneFate(s)
    requires t.submitted == s.submitted && t.replaced == s.replaced
    requires t.finished == s.finished && t.abandoned == s.abandoned
    requires Pending(t) == Pending(s) && InHand(t) == InHand(s)
    ensures EveryJobHasOneFate(t)
  {
  }

  lemma WorkerKeepsFates(s: System, chance: Chance)
    requires EveryJobHasOneFate(s) && NewestSurvives(s) && LocksAgree(s)
    ensures EveryJobHasOneFate(WorkerStep(s, chance))
  {
    hide JobStep, EveryJobHasOneFate, NewestSurvives, LocksAgree, FinishStep, IdleStep;
    match s.phase {
      case Idle => IdleKeepsFates(s);
      case Busy(Finish, work) =>
        FinishKeepsJobs(s, work, chance);
        JobStepIs(s, chance);
      case Busy(stage, work) =>
        JobInHandStays(s, stage, work, chance);
        SameFates(s, WorkerStep(s, chance));
      case _ => SameFates(s, WorkerStep(s, chance));
    }
  }

  lemma WorkerKeepsNewest(s: System, chance: Chance)
    requires EveryJobHasOneFate(s) && NewestSurvives(s) && LocksAgree(s)
    ensures NewestSurvives(WorkerStep(s, chance)) && LocksAgree(WorkerStep(s, chance))
  {
    hide JobStep, EveryJobHasOneFate, FinishStep;
    match s.phase {
      case Busy(Finish, work) => FinishKeepsJobs(s, work, chance); JobStepIs(s, chance);
      case Busy(stage, work) => JobInHandStays(s, stage, work, chance);
      case _ =>
    }
  }

  // ---- Counters ---------------------------------------------------------------------------------------

  lemma MergedCounters(previous: RenderResult, result: RenderResult)
    ensures Merged(previous, result).counters == result.counters.Plus(previous.counters)
  {
  }

  lemma Uncounted(t: Trace, e: Event)
    requires !e.Composed? && !e.Sent?
    ensures TrueTotals(t + [e]) == TrueTotals(t)
  {
    Folds(t, e);
  }

  lemma UiKeepsCounts(s: System, call: UiCall)
    requires NothingUncounted(s)
    ensures NothingUncounted(UiStep(s, call))
  {
    hide TrueTotals;
    if call.Submit? {
      hide Counters.Plus;
      Uncounted(s.trace, Requested(RenderJob(|s.submitted|, call.epoch, call.size, call.live, call.publishVirtual, call.forcePreview)));
    } else if call.DisconnectOutput? {
      hide Counters.Plus;
      Uncounted(s.trace, Disabled);
    }
  }

  lemma SinkOffCounts(s: System)
    ensures SinkOff(s) == s.(connected := false, trace := SinkOff(s).trace)
    ensures TrueTotals(SinkOff(s).trace) == TrueTotals(s.trace)
  {
    Uncounted(s.trace, Disconnected);
  }

  lemma ComposeCounts(s: System, work: Work, ok: bool)
    requires NothingUncounted(s) && s.phase == Busy(Compose, work)
    ensures NothingUncounted(ComposeStep(s, work, ok))
  {
    hide TrueTotals;
    Folds(s.trace, Composed(work.job, work.reused));
  }

  lemma SendCounts(s: System, work: Work, chance: Chance)
    requires NothingUncounted(s) && s.phase == Busy(Send, work)
    ensures NothingUncounted(SendStep(s, work, chance))
  {
    hide TrueTotals, SinkOff;
    Folds(s.trace, Sent(work.job, chance.ok));
    SinkOffCounts(Noted(At(s, Finish, work.(error := Some(chance.error))), Sent(work.job, false)));
  }

  lemma FinishCounts(s: System, work: Work, chance: Chance)
    requires NothingUncounted(s) && s.phase == Busy(Finish, work)
    ensures NothingUncounted(FinishStep(s, work, chance))
  {
    hide TrueTotals, Merged;
    if s.shared.result.Some? {
      MergedCounters(s.shared.result.value, ResultOf(work, chance));
    }
  }

  lemma JobKeepsCounts(s: System, stage: Stage, work: Work, chance: Chance)
    requires NothingUncounted(s) && s.phase == Busy(stage, work)
    ensures NothingUncounted(JobStep(s, stage, work, chance))
  {
    hide TrueTotals, SinkOff, LastOfSize, ComposeStep, SendStep, FinishStep, Counters.Plus;
    match stage {
      case Compose => ComposeCounts(s, work, chance.ok);
      case Retire => SinkOffCounts(s);
      case Connect => Uncounted(s.trace, Connected);
      case Recheck => Uncounted(s.trace, Checked(work.job));
      case Send => SendCounts(s, work, chance);
      case Finish => FinishCounts(s, work, chance);
      case _ =>
    }
  }

  lemma WorkerKeepsCounts(s: System, chance: Chance)
    requires NothingUncounted(s)
    ensures NothingUncounted(WorkerStep(s, chance))
  {
    hide JobStep, TrueTotals, SinkOff;
    if s.phase.Busy? {
      JobKeepsCounts(s, s.phase.stage, s.phase.work, chance);
    }
    SinkOffCounts(s);
  }

  // ---- The sink ------------------------------------------------------------------------------------------

  lemma SubmitKeepsSink(s: System, job: RenderJob)
    requires SinkSafe(s) && !s.shared.stopping && job.id == |s.submitted|
    ensures SinkSafe(SubmitStep(s, job))
  {
    hide OutputWanted, CurrentEpoch, SinkConnected, SendsSinceDisable, Obeys, SentBelow, JustChecked;
    hide TrueTotals, EventCounts, LastOfSize, Merged, Counters.Plus;
    var e := Requested(job);
    Folds(s.trace, e);
    SentBelowAppended(s.trace, e, SentLimit(s), SentLimit(SubmitStep(s, job)));
    if Doing(s, Send) {
      StillJustChecked(s.trace, e, s.phase.work.job);
    }
  }

  lemma DisableKeepsSink(s: System)
    requires SinkSafe(s) && !s.shared.stopping
    ensures SinkSafe(UiStep(s, DisconnectOutput))
  {
    hide OutputWanted, CurrentEpoch, SinkConnected, SendsSinceDisable, Obeys, SentBelow, JustChecked;
    hide TrueTotals, EventCounts, LastOfSize, Merged, Counters.Plus;
    Folds(s.trace, Disabled);
    SentBelowAppended(s.trace, Disabled, SentLimit(s), SentLimit(UiStep(s, DisconnectOutput)));
    if Doing(s, Send) {
      StillJustChecked(s.trace, Disabled, s.phase.work.job);
    }
  }

  lemma QuietUiKeepsSink(s: System, call: UiCall)
    requires SinkSafe(s) && !s.shared.stopping
    requires call.TakeResult? || call.Recycle? || call.DropWorker?
    ensures SinkSafe(UiStep(s, call))
  {
    hide SubmitStep, OutputWanted, CurrentEpoch, SinkConnected, SendsSinceDisable, Obeys, SentBelow, JustChecked;
    hide Counters.Plus;
    SentBelowWeakened(s.trace, SentLimit(s), SentLimit(UiStep(s, call)));
  }

  lemma UiKeepsSink(s: System, call: UiCall)
    requires SinkSafe(s)
    ensures SinkSafe(UiStep(s, call))
  {
    hide SubmitStep, SinkSafe;
    if !s.shared.stopping {
      match call {
        case Submit(epoch, size, live, publishVirtual, forcePreview) =>
          SubmitKeepsSink(s, RenderJob(|s.submitted|, epoch, size, live, publishVirtual, forcePreview));
        case DisconnectOutput => hide UiStep; DisableKeepsSink(s);
        case _ => hide UiStep; QuietUiKeepsSink(s, call);
      }
    }
  }

  lemma IdleKeepsSink(s: System)
    requires SinkSafe(s) && s.phase.Idle?
    ensures SinkSafe(IdleStep(s))
  {
    hide OutputWanted, CurrentEpoch, SinkConnected, SendsSinceDisable, Obeys, SentBelow, JustChecked;
    hide TrueTotals, EventCounts, LastOfSize, Merged, Counters.Plus;
  }

  lemma SinkOffKeepsSink(s: System, phase: Phase)
    requires SinkSafe(s)
    requires || (s.phase.Disconnecting? && phase == Idle)
             || (s.phase.AtStop? && phase == Terminated)
             || (Doing(s, Retire) && phase == Busy(Finish, s.phase.work))
    ensures SinkSafe(SinkOff(s).(phase := phase))
  {
    hide OutputWanted, CurrentEpoch, SinkConnected, SendsSinceDisable, Obeys, SentBelow, JustChecked;
    hide TrueTotals, EventCounts, LastOfSize, Merged, Counters.Plus;
    var limit := SentLimit(SinkOff(s).(phase := phase));
    Folds(s.trace, Disconnected);
    SentBelowWeakened(s.trace, SentLimit(s), limit);
    SentBelowAppended(s.trace, Disconnected, SentLimit(s), limit);
  }

  lemma ComposeKeepsSink(s: System, work: Work, ok: bool)
    requires SinkSafe(s) && s.phase == Busy(Compose, work)
    ensures SinkSafe(ComposeStep(s, work, ok))
  {
    hide OutputWanted, CurrentEpoch, SinkConnected, SendsSinceDisable, Obeys, SentBelow, JustChecked;
    hide TrueTotals, EventCounts, LastOfSize, Merged, Counters.Plus;
    var e := Composed(work.job, work.reused);
    Folds(s.trace, e);
    SentBelowAppended(s.trace, e, SentLimit(s), SentLimit(s));
  }

  lemma DecideKeepsSink(s: System, work: Work)
    requires SinkSafe(s) && s.phase == Busy(Decide, work)
    ensures SinkSafe(DecideStep(s, work))
  {
    hide OutputWanted, CurrentEpoch, SinkConnected, SendsSinceDisable, Obeys, SentBelow, JustChecked;
    hide TrueTotals, EventCounts, LastOfSize, Merged, Counters.Plus;
    SentBelowWeakened(s.trace, SentLimit(s), SentLimit(DecideStep(s, work)));
  }

  lemma ConnectKeepsSink(s: System, work: Work, chance: Chance)
    requires SinkSafe(s) && s.phase == Busy(Connect, work)
    ensures SinkSafe(ConnectStep(s, work, chance))
  {
    hide OutputWanted, CurrentEpoch, SinkConnected, SendsSinceDisable, Obeys, SentBelow, JustChecked;
    hide TrueTotals, EventCounts, LastOfSize, Merged, Counters.Plus;
    var limit := SentLimit(ConnectStep(s, work, chance));
    Folds(s.trace, Connected);
    SentBelowWeakened(s.trace, SentLimit(s), limit);
    SentBelowAppended(s.trace, Connected, SentLimit(s), limit);
  }

  lemma RecheckKeepsSink(s: System, work: Work)
    requires SinkSafe(s) && s.phase == Busy(Recheck, work)
    ensures SinkSafe(RecheckStep(s, work))
  {
    hide OutputWanted, CurrentEpoch, SinkConnected, SendsSinceDisable, Obeys, SentBelow, JustChecked;
    hide TrueTotals, EventCounts, LastOfSize, Merged, Counters.Plus;
    var limit := SentLimit(RecheckStep(s, work));
    var e := Checked(work.job);
    Folds(s.trace, e);
    SentBelowWeakened(s.trace, SentLimit(s), limit);
    SentBelowAppended(s.trace, e, SentLimit(s), limit);
    if s.shared.outputEnabled && s.shared.latestEpoch == work.job.epoch {
      CheckedNow(s.trace, work.job);
    }
  }

  lemma SendKeepsSink(s: System, work: Work, chance: Chance)
    requires SinkSafe(s) && s.phase == Busy(Send, work)
    ensures SinkSafe(SendStep(s, work, chance))
  {
    hide OutputWanted, CurrentEpoch, SinkConnected, SendsSinceDisable, Obeys, SentBelow, JustChecked;
    hide TrueTotals, EventCounts, LastOfSize, Merged, Counters.Plus;
    var e := Sent(work.job, chance.ok);
    var trace := s.trace + [e];
    Folds(s.trace, e);
    Folds(trace, Disconnected);
    SentBelowAppended(s.trace, e, work.job.id, work.job.id + 1);
    SentBelowAppended(trace, Disconnected, work.job.id + 1, work.job.id + 1);
  }

  lemma FinishKeepsSink(s: System, work: Work, chance: Chance)
    requires SinkSafe(s) && s.phase == Busy(Finish, work)
    ensures SinkSafe(FinishStep(s, work, chance))
  {
    hide OutputWanted, CurrentEpoch, SinkConnected, SendsSinceDisable, Obeys, SentBelow, JustChecked;
    hide TrueTotals, EventCounts, LastOfSize, Merged, Counters.Plus;
    SentBelowWeakened(s.trace, SentLimit(s), SentLimit(FinishStep(s, work, chance)));
  }

  lemma TakeBufferKeepsSink(s: System, work: Work)
    requires SinkSafe(s) && s.phase == Busy(TakeBuffer, work)
    ensures SinkSafe(TakeBufferStep(s, work))
  {
    hide OutputWanted, CurrentEpoch, SinkConnected, SendsSinceDisable, Obeys, SentBelow, JustChecked;
    hide TrueTotals, EventCounts, LastOfSize, Merged, Counters.Plus;
  }

  lemma JobKeepsSink(s: System, stage: Stage, work: Work, chance: Chance)
    requires SinkSafe(s) && s.phase == Busy(stage, work)
    ensures SinkSafe(JobStep(s, stage, work, chance))
  {
    hide SinkSafe, TakeBufferStep, ComposeStep, DecideStep, ConnectStep, RecheckStep, SendStep, FinishStep, SinkOff;
    match stage {
      case TakeBuffer => TakeBufferKeepsSink(s, work);
      case Compose => ComposeKeepsSink(s, work, chance.ok);
      case Decide => DecideKeepsSink(s, work);
      case Retire => SinkOffKeepsSink(s, Busy(Finish, work));
      case Connect => ConnectKeepsSink(s, work, chance);
      case Recheck => RecheckKeepsSink(s, work);
      case Send => SendKeepsSink(s, work, chance);
      case Finish => FinishKeepsSink(s, work, chance);
    }
  }

  lemma WorkerKeepsSink(s: System, chance: Chance)
    requires SinkSafe(s)
    ensures SinkSafe(WorkerStep(s, chance))
  {
    hide SinkSafe, IdleStep, JobStep, SinkOff;
    match s.phase {
      case Idle => IdleKeepsSink(s);
      case Disconnecting => SinkOffKeepsSink(s, Idle);
      case AtStop => SinkOffKeepsSink(s, Terminated);
      case Terminated =>
      case Busy(stage, work) => JobKeepsSink(s, stage, work, chance);
    }
  }

  // ---- Every run --------------------------------------------------------------------------------------------

  lemma StepKeepsInvariant(s: System, a: Action)
    requires Invariant(s)
    ensures Invariant(Step(s, a))
  {
    hide EveryJobHasOneFate, NewestSurvives, LocksAgree, NothingUncounted, SinkSafe, UiStep, WorkerStep;
    match a {
      case Ui(call) =>
        UiKeepsFates(s, call);
        UiKeepsNewest(s, call);
        UiKeepsCounts(s, call);
        UiKeepsSink(s, call);
      case Worker(chance) =>
        WorkerKeepsFates(s, chance);
        WorkerKeepsNewest(s, chance);
        WorkerKeepsCounts(s, chance);
        WorkerKeepsSink(s, chance);
    }
  }

  lemma StartJobs()
    ensures EveryJobHasOneFate(START) && NewestSurvives(START) && LocksAgree(START)
  {
    assert multiset(START.submitted) == NO_JOBS && multiset(START.finished) == NO_JOBS;
  }

  lemma NothingHappened(t: Trace)
    requires |t| == 0
    ensures !OutputWanted(t) && CurrentEpoch(t) == 0 && !SinkConnected(t)
    ensures SendsSinceDisable(t) == 0 && TrueTotals(t) == NO_COUNTS
    ensures SentBelow(t, 0) && Obeys(t)
  {
  }

  lemma PlusNothing(counts: Counters)
    ensures counts.Plus(NO_COUNTS) == counts
  {
  }

  lemma StartCounts(s: System)
    requires s == START
    ensures NothingUncounted(s)
  {
    hide TrueTotals, Counters.Plus;
    PlusNothing(NO_COUNTS);
    NothingHappened(s.trace);
  }

  lemma StartSink(s: System)
    requires s == START
    ensures SinkSafe(s)
  {
    hide OutputWanted, CurrentEpoch, SinkConnected, SendsSinceDisable, SentBelow, Obeys;
    NothingHappened(s.trace);
  }

  lemma {:induction false} EveryRun(actions: seq<Action>)
    ensures Invariant(Run(actions))
  {
    hide EveryJobHasOneFate, NewestSurvives, LocksAgree, NothingUncounted, SinkSafe;
    if |actions| == 0 {
      StartJobs();
      StartCounts(START);
      StartSink(START);
    } else {
      hide Step;
      EveryRun(actions[..|actions| - 1]);
      StepKeepsInvariant(Run(actions[..|actions| - 1]), actions[|actions| - 1]);
    }
  }

  /** Jobs are neither lost nor duplicated, and the buffer pool stays small. */
  lemma {:induction false} JobsAreConserved(actions: seq<Action>)
    ensures var s := Run(actions);
            && multiset(s.submitted) == s.replaced + Pending(s) + InHand(s) + multiset(s.finished) + s.abandoned
            && |s.abandoned| <= (if s.shared.stopping then 1 else 0)
            && |s.shared.recycled| <= RECYCLED_FRAMES_LIMIT
  {
    EveryRun(actions);
    hide Run, NothingUncounted, SinkSafe;
  }

  /** Results are coalesced, yet their counters account for everything that happened. */
  lemma {:induction false} CountersAreConserved(actions: seq<Action>)
    ensures var s := Run(actions);
            s.taken.Plus(Unread(s)).Plus(CountsInHand(s)) == TrueTotals(s.trace)
  {
    EveryRun(actions);
    hide Run, SinkSafe;
  }

  /** When `has_work` answers no, every job has been replaced or finished, the newest one is
      the last to have finished, and the counters the UI took are complete. */
  lemma {:induction false} NoWorkMeansDone(actions: seq<Action>)
    requires var s := Run(actions);
             && !s.shared.stopping
             && !s.shared.processing && s.shared.pending.None?
             && !s.shared.disconnectRequested && s.shared.result.None?
    ensures var s := Run(actions);
            && multiset(s.submitted) == s.replaced + multiset(s.finished)
            && Newest(s.finished) == Newest(s.submitted)
            && s.taken == TrueTotals(s.trace)
            && (s.connected ==> s.shared.outputEnabled || s.phase.Disconnecting?)
  {
    EveryRun(actions);
    QuietJobs(Run(actions));
    QuietCounts(Run(actions));
    QuietSink(Run(actions));
    hide *;
  }

  lemma QuietJobs(s: System)
    requires EveryJobHasOneFate(s) && NewestSurvives(s) && LocksAgree(s)
    requires !s.shared.stopping && !s.shared.processing && s.shared.pending.None?
    ensures multiset(s.submitted) == s.replaced + multiset(s.finished)
    ensures Newest(s.finished) == Newest(s.submitted)
  {
  }

  lemma QuietCounts(s: System)
    requires NothingUncounted(s) && LocksAgree(s) && !s.shared.processing && s.shared.result.None?
    ensures s.taken == TrueTotals(s.trace)
  {
    hide TrueTotals, Counters.Plus;
    PlusNothing(s.taken);
  }

  lemma QuietSink(s: System)
    requires SinkSafe(s) && LocksAgree(s)
    requires !s.shared.stopping && !s.shared.processing && !s.shared.disconnectRequested
    ensures s.connected ==> s.shared.outputEnabled || s.phase.Disconnecting?
  {
    hide SinkTracked, NumbersInOrder, SendsGuarded;
  }

  /** Whenever the worker is back at its wait with nothing pending, before any drop, the
      newest job submitted is the last one it finished. */
  lemma {:induction false} NewestIsFinishedLast(actions: seq<Action>)
    requires var s := Run(actions); !s.phase.Busy? && s.shared.pending.None? && !s.shared.stopping
    ensures Newest(Run(actions).finished) == Newest(Run(actions).submitted)
  {
    EveryRun(actions);
    hide Run, NothingUncounted, SinkSafe;
  }

  lemma {:induction false} ObeysEverywhere(t: Trace, at: nat)
    requires Obeys(t) && at < |t|
    ensures Allowed(t[..at], t[at])
  {
    if at < |t| - 1 {
      ObeysEverywhere(Before(t), at);
      assert Before(t)[..at] == t[..at];
    }
  }

  /** A frame is sent only over a connected sink, straight after a locked look that found
      output on and the job's epoch current, and after every earlier send in submission
      order; once output is off at most one more frame, already looked at, goes out. */
  lemma SendsAreGuarded(actions: seq<Action>, at: nat)
    requires at < |Run(actions).trace|
    ensures var t := Run(actions).trace;
            && (t[at].Sent? ==>
                  SinkConnected(t[..at]) && JustChecked(t[..at], t[at].job) && SentBelow(t[..at], t[at].job.id))
            && SendsSinceDisable(t[..at + 1]) <= 1
  {
    EveryRun(actions);
    hide Run, NothingUncounted;
    var t := Run(actions).trace;
    ObeysEverywhere(t, at);
    assert t[..at + 1] == t[..at] + [t[at]];
  }

  /** A connected sink whose output is off is about to be disconnected, and none outlives
      the worker. */
  lemma NoStrayConnection(actions: seq<Action>)
    ensures var s := Run(actions);
            && (SinkConnected(s.trace) && !OutputWanted(s.trace) ==>
                  s.shared.disconnectRequested || s.phase.Disconnecting? || Doing(s, Retire) || s.phase.AtStop?)
            && (s.phase.Terminated? ==> !SinkConnected(s.trace))
  {
    EveryRun(actions);
    hide Run, NothingUncounted;
  }

  // ---- The drop's join ----------------------------------------------------------------------------------------

  function StepsLeft(phase: Phase): nat {
    match phase
    case Terminated => 0
    case AtStop => 1
    case Idle => 2
    case Disconnecting => 3
    case Busy(stage, _) =>
      match stage
      case Finish => 3
      case Send => 4
      case Recheck => 5
      case Connect => 6
      case Retire => 6
      case Decide => 7
      case Compose => 8
      case TakeBuffer => 9
  }

  lemma JobNearsItsEnd(s: System, stage: Stage, work: Work, chance: Chance)
    requires s.shared.stopping && s.phase == Busy(stage, work)
    ensures StepsLeft(JobStep(s, stage, work, chance).phase) < StepsLeft(s.phase)
  {
    hide Merged, Committed, FrameTaken, LastOfSize, ResultOf;
  }

  lemma WorkerNearsItsEnd(s: System, chance: Chance)
    requires s.shared.stopping
    ensures var t := WorkerStep(s, chance);
            t.shared.stopping && StepsLeft(t.phase) <= (if s.phase.Terminated? then 0 else StepsLeft(s.phase) - 1)
  {
    hide Merged, LastOfSize, SwapRemoved, JobStep;
    match s.phase {
      case Busy(Finish, work) =>
        JobNearsItsEnd(s, Finish, work, chance);
        JobStepIs(s, chance);
      case Busy(stage, work) =>
        JobNearsItsEnd(s, stage, work, chance);
        JobInHandStays(s, stage, work, chance);
      case _ =>
    }
  }

  ghost function WorkerAlone(s: System, chances: seq<Chance>): System
    decreases |chances|
  {
    if |chances| == 0 then s else WorkerAlone(WorkerStep(s, chances[0]), chances[1..])
  }

  /** Once the drop has begun the worker stops within nine of its own steps, whatever the
      sink and the compositor answer, and leaves the sink disconnected. */
  lemma {:induction false} DropIsJoined(s: System, chances: seq<Chance>)
    requires Invariant(s) && s.shared.stopping && StepsLeft(s.phase) <= |chances|
    ensures var t := WorkerAlone(s, chances);
            t.phase.Terminated? && !SinkConnected(t.trace)
    decreases |chances|
  {
    hide EveryJobHasOneFate, NewestSurvives, LocksAgree, NothingUncounted, WorkerStep;
    hide DisconnectOnItsWay, NumbersInOrder, SendsGuarded;
    if |chances| > 0 {
      StepKeepsInvariant(s, Worker(chances[0]));
      WorkerNearsItsEnd(s, chances[0]);
      DropIsJoined(WorkerStep(s, chances[0]), chances[1..]);
    }
  }
}
