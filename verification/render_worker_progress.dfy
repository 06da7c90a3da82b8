/** What the render worker does get done (`src/render_worker.rs`): a wanted frame is sent, and a
    job left alone ends with the result its composition and its sink make of it. */
module RenderWorkerProgress {
  import opened Wrappers
  import opened RenderWorkers
  import opened RenderWorkerRuns

  // ---- A wanted frame is sent, in every interleaving ------------------------------------------------

  ghost function Later(s: System, actions: seq<Action>): System
    decreases |actions|
  {
    if |actions| == 0 then s else Later(Step(s, actions[0]), actions[1..])
  }

  /** The user interface last asked for output, and for this job's epoch. */
  ghost predicate Wanted(t: Trace, job: RenderJob) {
    OutputWanted(t) && CurrentEpoch(t) == job.epoch
  }

  /** Wanted before and after each of the actions, none of which fails to connect the sink. */
  ghost predicate WantedThroughout(s: System, actions: seq<Action>, job: RenderJob)
    decreases |actions|
  {
    && Wanted(s.trace, job)
    && (|actions| > 0 ==>
          && (Doing(s, Connect) && !s.connected && actions[0].Worker? ==> actions[0].chance.ok)
          && WantedThroughout(Step(s, actions[0]), actions[1..], job))
  }

  ghost predicate SentIn(t: Trace, job: RenderJob) {
    exists k :: 0 <= k < |t| && t[k].Sent? && t[k].job == job
  }

  /** Composed, and on its way from the first look at the output state to the send. */
  ghost predicate OnItsWay(s: System, job: RenderJob) {
    && s.phase.Busy? && s.phase.work.job == job && s.phase.work.composed
    && (s.phase.stage.Decide? || s.phase.stage.Connect? || s.phase.stage.Recheck? || s.phase.stage.Send?)
  }

  lemma SentStays(t: Trace, more: Trace, job: RenderJob)
    requires SentIn(t, job)
    ensures SentIn(t + more, job)
  {
    var k :| 0 <= k < |t| && t[k].Sent? && t[k].job == job;
    assert (t + more)[k] == t[k];
  }

  lemma SentLast(t: Trace, more: Trace, e: Event)
    requires e.Sent?
    ensures SentIn(t + [e] + more, e.job)
  {
    var all := t + [e] + more;
    assert all[|t|] == e;
  }

  /** Steps add to the trace at its end. */
  ghost predicate Extends(t: Trace, later: Trace) {
    |t| <= |later| && later[..|t|] == t
  }

  lemma TraceGrows(s: System, a: Action)
    ensures Extends(s.trace, Step(s, a).trace)
  {
    hide AfterAction, Committed, FrameTaken, ResultOf, Submitted;
    match a {
      case Ui(_) =>
      case Worker(_) =>
        match s.phase {
          case Idle =>
          case Disconnecting =>
          case AtStop =>
          case Terminated =>
          case Busy(stage, _) =>
            match stage
            case TakeBuffer => case Compose => case Decide => case Retire =>
            case Connect => case Recheck => case Send => case Finish =>
        }
    }
  }

  lemma WantedStep(s: System, a: Action, job: RenderJob)
    requires SinkTracked(s) && OnItsWay(s, job) && Wanted(s.trace, job)
    requires Doing(s, Connect) && !s.connected && a.Worker? ==> a.chance.ok
    ensures OnItsWay(Step(s, a), job) || SentIn(Step(s, a).trace, job)
  {
    hide OutputWanted, CurrentEpoch, SinkConnected, SentIn, Submitted, FrameTaken, Committed;
    if a.Worker? && Doing(s, Send) {
      var e := Sent(job, a.chance.ok);
      SentLast(s.trace, [], e);
      SentLast(s.trace, [Disconnected], e);
      assert s.trace + [e] + [] == s.trace + [e];
    } else if a.Worker? {
      WantedWorkerStep(s, a.chance, job);
    }
  }

  lemma WantedWorkerStep(s: System, chance: Chance, job: RenderJob)
    requires SinkTracked(s) && OnItsWay(s, job) && Wanted(s.trace, job) && !Doing(s, Send)
    requires Doing(s, Connect) && !s.connected ==> chance.ok
    ensures OnItsWay(WorkerStep(s, chance), job)
  {
    hide OutputWanted, CurrentEpoch, SinkConnected;
    match s.phase.stage {
      case Decide =>
      case Connect =>
      case Recheck =>
      case _ =>
    }
  }

  lemma StaysOnItsWay(s: System, a: Action, job: RenderJob)
    requires Invariant(s) && (OnItsWay(s, job) || SentIn(s.trace, job)) && Wanted(s.trace, job)
    requires Doing(s, Connect) && !s.connected && a.Worker? ==> a.chance.ok
    ensures OnItsWay(Step(s, a), job) || SentIn(Step(s, a).trace, job)
  {
    hide EveryJobHasOneFate, NewestSurvives, LocksAgree, NothingUncounted, DisconnectOnItsWay, NumbersInOrder, SendsGuarded;
    hide SinkTracked, Wanted, Step, OnItsWay;
    if SentIn(s.trace, job) {
      TraceGrows(s, a);
      var later := Step(s, a).trace;
      assert later == s.trace + later[|s.trace|..];
      SentStays(s.trace, later[|s.trace|..], job);
    } else {
      WantedStep(s, a, job);
    }
  }

  /** A composed job that stays wanted from the first look at the output state, its sink
      connecting, has its frame sent before the worker lets go of it, whatever else happens. */
  lemma {:induction false} WantedFrameIsSent(s: System, actions: seq<Action>, job: RenderJob)
    requires Invariant(s) && (OnItsWay(s, job) || SentIn(s.trace, job)) && WantedThroughout(s, actions, job)
    ensures OnItsWay(Later(s, actions), job) || SentIn(Later(s, actions).trace, job)
    decreases |actions|
  {
    hide Step, Invariant, OnItsWay, SentIn, Wanted, Doing;
    if |actions| > 0 {
      StepKeepsInvariant(s, actions[0]);
      StaysOnItsWay(s, actions[0], job);
      WantedFrameIsSent(Step(s, actions[0]), actions[1..], job);
    }
  }

  // ---- A job left alone ---------------------------------------------------------------------------------

  ghost function Steps(s: System, chances: seq<Chance>, count: nat): System
    requires count <= |chances|
  {
    if count == 0 then s else WorkerStep(Steps(s, chances, count - 1), chances[count - 1])
  }

  /** Ready to take a job whose frame is wanted. */
  ghost predicate TakesWanted(s: System, job: RenderJob) {
    && s.phase.Idle? && s.shared.pending == Some(job) && !s.shared.stopping && !s.shared.disconnectRequested
    && s.shared.outputEnabled && s.shared.latestEpoch == job.epoch
  }

  ghost predicate AllOk(chances: seq<Chance>) {
    forall k :: 0 <= k < |chances| ==> chances[k].ok
  }

  ghost predicate SentAndFinished(s: System, t: System, job: RenderJob) {
    var reused := job.size in s.shared.recycled;
    && t.phase.Idle? && t.shared.pending.None? && !t.shared.processing && t.connected
    && t.finished == s.finished + [job]
    && t.trace == s.trace + [Composed(job, reused)] + (if s.connected then [] else [Connected])
                  + [Checked(job), Sent(job, true)]
    && Unread(t) == WorkCounts(Work(job, reused, true, true, None)).Plus(Unread(s))
    && t.shared.result.Some? && t.shared.result.value.frame == Some(job.size)
  }

  /** Everything going well, a wanted job is composed, into a pooled buffer exactly if one
      fits, sent over a connected sink, counted once and finished within eight steps. */
  lemma WantedJobAlone(s: System, job: RenderJob, chances: seq<Chance>)
    requires TakesWanted(s, job) && |chances| == 8 && AllOk(chances)
    ensures SentAndFinished(s, Steps(s, chances, 8), job)
  {
    WantedJobIsTaken(s, job, chances);
    WantedJobIsConnected(s, job, chances);
    WantedJobIsFinished(s, job, chances);
  }

  /** Composed and about to decide. */
  ghost function Taken(s: System, job: RenderJob): System {
    var reused := job.size in s.shared.recycled;
    s.(shared := FrameTaken(AfterAction(s.shared), job.size),
       phase := Busy(Decide, Work(job, reused, true, false, None)),
       trace := s.trace + [Composed(job, reused)])
  }

  ghost function ReadyToSend(s: System, job: RenderJob): System {
    var t := Taken(s, job);
    t.(connected := true,
       phase := Busy(Send, t.phase.work),
       trace := t.trace + (if s.connected then [] else [Connected]) + [Checked(job)])
  }

  lemma WantedJobIsTaken(s: System, job: RenderJob, chances: seq<Chance>)
    requires TakesWanted(s, job) && |chances| == 8 && AllOk(chances)
    ensures Steps(s, chances, 3) == Taken(s, job)
  {
    hide FrameTaken;
    var s1 := IdleStep(s);
    assert Steps(s, chances, 1) == s1;
    var s2 := TakeBufferStep(s1, s1.phase.work);
    assert Steps(s, chances, 2) == s2;
    assert Steps(s, chances, 3) == ComposeStep(s2, s2.phase.work, true);
  }

  lemma WantedJobIsConnected(s: System, job: RenderJob, chances: seq<Chance>)
    requires TakesWanted(s, job) && |chances| == 8 && AllOk(chances) && Steps(s, chances, 3) == Taken(s, job)
    ensures Steps(s, chances, 6) == ReadyToSend(s, job)
  {
    hide LastOfSize, SwapRemoved;
    var (s3, work) := (Taken(s, job), Taken(s, job).phase.work);
    var s4 := At(s3, Connect, work);
    assert Steps(s, chances, 4) == s4;
    var s5 := ConnectStep(s4, work, chances[4]);
    assert Steps(s, chances, 5) == s5;
    assert Steps(s, chances, 6) == RecheckStep(s5, work);
    assert s.connected ==> s3.trace + [] == s3.trace;
  }

  lemma WantedJobIsFinished(s: System, job: RenderJob, chances: seq<Chance>)
    requires TakesWanted(s, job) && |chances| == 8 && AllOk(chances) && Steps(s, chances, 6) == ReadyToSend(s, job)
    ensures SentAndFinished(s, Steps(s, chances, 8), job)
  {
    var s6 := ReadyToSend(s, job);
    var work := s6.phase.work.(sent := true);
    var s7 := s6.(phase := Busy(Finish, work), trace := s6.trace + [Sent(job, true)]);
    hide FrameTaken, AfterAction, ActionOf, Merged, WorkCounts, Counters.Plus;
    assert Steps(s, chances, 7) == s7;
    assert Steps(s, chances, 8) == FinishStep(s7, work, chances[7]);
    hide Steps;
    var front := s.trace + [Composed(job, job.size in s.shared.recycled)] + (if s.connected then [] else [Connected]);
    assert front + [Checked(job)] + [Sent(job, true)] == front + [Checked(job), Sent(job, true)];
    FinishedCounts(s7, work, chances[7]);
  }

  lemma FinishedCounts(s: System, work: Work, chance: Chance)
    ensures Unread(FinishStep(s, work, chance)) == WorkCounts(work).Plus(Unread(s))
  {
    hide Counters.Plus, WorkCounts, Merged;
    if s.shared.result.Some? {
      MergedCounters(s.shared.result.value, ResultOf(work, chance));
    } else {
      PlusNothing(WorkCounts(work));
    }
  }

  /** A submitted job that publishes is such a job, whatever disconnect was asked for before. */
  lemma PublishingSubmitIsWanted(s: System, call: UiCall)
    requires Invariant(s) && s.phase.Idle? && !s.shared.stopping && call.Submit? && call.publishVirtual
    ensures var t := UiStep(s, call);
            && t.shared.pending == Some(RenderJob(|s.submitted|, call.epoch, call.size, call.live, true, call.forcePreview))
            && TakesWanted(t, t.shared.pending.value) && Wanted(t.trace, t.shared.pending.value)
  {
    hide Invariant;
    Folds(s.trace, Requested(UiStep(s, call).shared.pending.value));
  }

  // ---- What goes wrong is reported ----------------------------------------------------------------------

  /** The reports of the result a job leaves, with no unread one to merge with. */
  ghost predicate Leaves(s: System, t: System, job: RenderJob, frame: Option<FrameSize>, error: Option<nat>) {
    && t.phase.Idle? && t.finished == s.finished + [job] && !t.shared.processing
    && (s.shared.result.None? ==>
          t.shared.result.Some? && t.shared.result.value.frame == frame && t.shared.result.value.transportError == error)
  }

  /** The sink refuses to connect: the picture is still handed over, with the error. */
  lemma RefusedConnectionIsReported(s: System, work: Work, connect: Chance, finish: Chance)
    requires s.phase == Busy(Connect, work) && !s.connected && !connect.ok && work.composed && work.error.None?
    ensures var t := WorkerStep(WorkerStep(s, connect), finish);
            !t.connected && t.trace == s.trace && Leaves(s, t, work.job, Some(work.job.size), Some(connect.error))
  {
    assert WorkerStep(s, connect) == At(s, Finish, work.(error := Some(connect.error)));
  }

  /** The sink fails to take the frame: it is disconnected, and the error handed over. */
  lemma FailedSendIsReported(s: System, work: Work, send: Chance, finish: Chance)
    requires s.phase == Busy(Send, work) && s.connected && !send.ok && work.composed && !work.sent && work.error.None?
    ensures var t := WorkerStep(WorkerStep(s, send), finish);
            && !t.connected && t.trace == s.trace + [Sent(work.job, false), Disconnected]
            && Leaves(s, t, work.job, Some(work.job.size), Some(send.error))
  {
    var sent := s.trace + [Sent(work.job, false)];
    assert sent + [Disconnected] == s.trace + [Sent(work.job, false), Disconnected];
    var next := WorkerStep(s, send);
    assert next == s.(phase := Busy(Finish, work.(error := Some(send.error))), connected := false, trace := sent + [Disconnected]);
  }

  /** A composition that fails leaves a result without a picture and sends nothing. */
  lemma FailedCompositionIsReported(s: System, work: Work, compose: Chance, connect: Chance, finish: Chance)
    requires s.phase == Busy(Compose, work) && s.connected && !compose.ok && !work.composed && work.error.None?
    requires s.shared.outputEnabled && s.shared.latestEpoch == work.job.epoch
    ensures var t := WorkerStep(WorkerStep(WorkerStep(WorkerStep(s, compose), compose), connect), finish);
            t.trace == s.trace && t.connected && Leaves(s, t, work.job, None, None)
  {
    var s1 := WorkerStep(s, compose);
    assert s1 == At(s, Decide, work);
    var s2 := WorkerStep(s1, compose);
    assert s2 == At(s, Connect, work);
    var s3 := WorkerStep(s2, connect);
    assert s3 == At(s, Finish, work);
  }

  /** A disconnect that was asked for is carried out before any job. */
  lemma RequestedDisconnectHappens(s: System, first: Chance, second: Chance)
    requires s.phase.Idle? && s.shared.disconnectRequested && !s.shared.stopping
    ensures var t := WorkerStep(WorkerStep(s, first), second);
            && t.phase.Idle? && !t.connected && !t.shared.disconnectRequested && t.shared.pending == s.shared.pending
            && t.trace == s.trace + (if s.connected then [Disconnected] else [])
  {
    var s1 := WorkerStep(s, first);
    assert s1 == s.(shared := s.shared.(disconnectRequested := false), phase := Disconnecting);
    assert s.trace + [] == s.trace;
  }

  /** A finished job's picture becomes the unread one, and that of a result nobody read goes
      back to the pool if there is room. */
  lemma UnreadBufferIsPooled(s: System, work: Work, finish: Chance)
    requires s.phase == Busy(Finish, work)
    ensures var t := WorkerStep(s, finish);
            && t.shared.result.Some? && t.shared.result.value.frame == (if work.composed then Some(work.job.size) else None)
            && t.shared.recycled == s.shared.recycled +
                 (if s.shared.result.Some? && s.shared.result.value.frame.Some? && |s.shared.recycled| < 3
                  then [s.shared.result.value.frame.value] else [])
  {
    assert s.shared.recycled + [] == s.shared.recycled;
  }

  /** Every other call changes what it names and nothing else of the worker's. */
  lemma UiCallsKeepApart(s: System, call: UiCall)
    requires !s.shared.stopping
    ensures UiStep(s, call).phase == s.phase && UiStep(s, call).connected == s.connected
    ensures call.TakeResult? ==>
              UiStep(s, call).shared == s.shared.(result := None) && UiStep(s, call).taken == s.taken.Plus(Unread(s))
    ensures call.Recycle? ==>
              UiStep(s, call).shared == s.shared.(recycled :=
                if |s.shared.recycled| < 3 then s.shared.recycled + [call.size] else s.shared.recycled)
    ensures call.Submit? ==>
              UiStep(s, call).shared.pending ==
              Some(RenderJob(|s.submitted|, call.epoch, call.size, call.live, call.publishVirtual, call.forcePreview))
    ensures call.DisconnectOutput? ==>
              UiStep(s, call).shared == s.shared.(outputEnabled := false, disconnectRequested := true)
    ensures call.DropWorker? ==> UiStep(s, call).shared == s.shared.(stopping := true, pending := None)
  {
  }

  /** A job whose output has been turned off closes the sink; one that is only out of date
      leaves it open; neither sends. */
  lemma UnwantedJobSendsNothing(s: System, work: Work, decide: Chance, next: Chance)
    requires s.phase == Busy(Decide, work)
    ensures !s.shared.outputEnabled ==>
              WorkerStep(WorkerStep(s, decide), next) ==
              s.(connected := false, phase := Busy(Finish, work),
                 trace := s.trace + (if s.connected then [Disconnected] else []))
    ensures s.shared.outputEnabled && s.shared.latestEpoch != work.job.epoch ==>
              WorkerStep(s, decide) == s.(phase := Busy(Finish, work))
  {
    assert s.trace + [] == s.trace;
  }

  /** The result of a job that finishes while none is unread: its epoch, picture, counters and
      reports, the preview only where there is a picture. */
  lemma FreshResultIs(s: System, work: Work, finish: Chance)
    requires s.phase == Busy(Finish, work) && s.shared.result.None?
    ensures WorkerStep(s, finish).shared.result == Some(RenderResult(
              work.job.epoch,
              if work.composed then Some(work.job.size) else None,
              work.job.forcePreview,
              WorkCounts(work),
              if work.composed then finish.preview else None,
              work.error,
              finish.producer,
              finish.consumer))
  {
  }

  /** Not about to disconnect. */
  ghost predicate Keeping(s: System) {
    !s.phase.Disconnecting? && !s.phase.AtStop? && !s.phase.Terminated? && !Doing(s, Retire)
  }

  /** While output is on, and neither a disconnect nor the end is asked for, the worker keeps its
      connection through waits and jobs; only a send that fails gives it up. */
  lemma ConnectionIsKept(s: System, chance: Chance)
    requires s.connected && Keeping(s) && s.shared.outputEnabled && !s.shared.disconnectRequested && !s.shared.stopping
    ensures var t := WorkerStep(s, chance);
            && Keeping(t) && t.shared.outputEnabled && !t.shared.disconnectRequested
            && (t.connected <==> !(Doing(s, Send) && !chance.ok))
  {
    hide Merged, LastOfSize, SwapRemoved, ResultOf, WorkCounts;
    match s.phase {
      case Idle =>
      case Busy(stage, work) =>
        match stage {
          case TakeBuffer =>
          case Compose =>
          case Decide =>
          case Connect =>
          case Recheck =>
          case Send =>
          case Finish =>
        }
    }
  }

  /** With nothing to do the worker waits, and a wait changes nothing. */
  lemma WaitingChangesNothing(s: System, chance: Chance)
    requires s.phase.Idle? && s.shared.pending.None? && !s.shared.disconnectRequested && !s.shared.stopping
    ensures WorkerStep(s, chance) == s
  {
  }
}
