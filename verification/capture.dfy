/** Capture workers and the process-wide camera leases (`src/capture.rs`): any number of
    workers, stops and cameras, in every interleaving. */
module Captures {
  import opened Numerics
  import opened Wrappers

  type CameraId = nat

  // ---- Reconnect backoff (milliseconds) ------------------------------------------------------------

  const FIRST_DELAY: nat := 100
  const LONGEST_DELAY: nat := 5000

  class ReconnectBackoff {
    var next: nat

    constructor ()
      ensures next == FIRST_DELAY
    {
      next := FIRST_DELAY;
    }

    method NextDelay() returns (delay: nat)
      modifies this
      ensures delay == old(next) && next == Doubled(old(next))
    {
      delay := next;
      next := Min(next * 2, LONGEST_DELAY);
    }

    method ObserveFrame(received: bool)
      modifies this
      ensures next == if received then FIRST_DELAY else old(next)
    {
      if received {
        next := FIRST_DELAY;
      }
    }
  }

  function Doubled(delay: nat): nat {
    Min(delay * 2, LONGEST_DELAY)
  }

  function DelayAfter(failures: nat): nat {
    if failures == 0 then FIRST_DELAY else Doubled(DelayAfter(failures - 1))
  }

  function Power2(n: nat): nat {
    if n == 0 then 1 else 2 * Power2(n - 1)
  }

  /** The wait after the n-th failure in a row is 100 ms doubled n times, up to five seconds. */
  lemma {:induction false} DelaysDouble(failures: nat)
    ensures DelayAfter(failures) == Min(FIRST_DELAY * Power2(failures), LONGEST_DELAY)
  {
    if failures > 0 {
      DelaysDouble(failures - 1);
    }
  }

  // ---- Watchdogs ---------------------------------------------------------------------------------------

  datatype Phase = AwaitingLease | Opening | AwaitingFirstFrame | Streaming

  const MIN_FRAME_GAP_NANOS: nat := 2_000_000_000
  const FRAME_GAP_NANOS: nat := 60_000_000_000

  function OpenStallAge(phase: Phase, elapsed: nat, timeout: nat): Option<nat> {
    if phase != Streaming && elapsed >= timeout then Some(elapsed) else None
  }

  function FrameGapStallAge(phase: Phase, gap: nat, timeout: nat): Option<nat> {
    if phase == Streaming && gap >= timeout then Some(gap) else None
  }

  function FrameGapTimeout(fps: U32): nat {
    if fps == 0 then MIN_FRAME_GAP_NANOS
    else
      DivNonNegative(FRAME_GAP_NANOS, fps);
      Max(FRAME_GAP_NANOS / fps, MIN_FRAME_GAP_NANOS)
  }

  /** What the reader's two watchdogs say of one observation of a worker: at most one speaks,
      and about frames only where a format is negotiated and no error is published. */
  function StallAge(phase: Phase, elapsed: nat, openTimeout: nat, fps: Option<U32>, errorPublished: bool): Option<nat> {
    var open := OpenStallAge(phase, elapsed, openTimeout);
    if open.Some? then open
    else if fps.None? || errorPublished then None
    else FrameGapStallAge(phase, elapsed, FrameGapTimeout(fps.value))
  }

  /** Slower than thirty frames a second the budget is sixty intervals, above it the floor. */
  lemma GapBudget(fps: U32)
    ensures FrameGapTimeout(fps) >= 2_000_000_000
    ensures FrameGapTimeout(fps) > 2_000_000_000 ==> 0 < fps < 30
    ensures 0 < fps <= 30 ==> FrameGapTimeout(fps) == 60_000_000_000 / fps
  {
    if 0 < fps {
      if fps <= 30 {
        DivBounds(FRAME_GAP_NANOS, fps);
        MulMonotone(fps, 30, MIN_FRAME_GAP_NANOS);
        DivUniqueAbove(FRAME_GAP_NANOS, fps);
      } else {
        DivAtMost(FRAME_GAP_NANOS, fps, MIN_FRAME_GAP_NANOS);
      }
    }
  }

  lemma DivUniqueAbove(n: nat, d: nat)
    requires 0 < d <= 30 && n == FRAME_GAP_NANOS
    ensures n / d >= MIN_FRAME_GAP_NANOS
  {
  }

  // ---- The lease table -----------------------------------------------------------------------------------

  class ActiveCameraIds {
    var ids: set<CameraId>

    constructor ()
      ensures ids == {}
    {
      ids := {};
    }

    method TryAcquire(id: CameraId) returns (acquired: bool)
      modifies this
      ensures acquired <==> id !in old(ids)
      ensures ids == old(ids) + {id}
    {
      acquired := id !in ids;
      ids := ids + {id};
    }

    method Release(id: CameraId)
      modifies this
      ensures ids == old(ids) - {id}
    {
      ids := ids - {id};
    }
  }

  // ---- Workers -------------------------------------------------------------------------------------------

  /** The outer loop: open, publish, and after a session close, wait or leave. */
  datatype SessionAt =
    | OuterCheck | InOpen | OpenFailed | PublishOpened | PublishFormat
    | ClearFormat | Backoff | CloseDevice | LeaveDevice

  /** The inner loop: one read and the slots it updates. */
  datatype ReadAt = InnerCheck | InRead | StoreFrame(frame: bool) | ClearError | RetryPause

  /** Where a worker is. It is inside the backend in `InOpen` and `InRead`. */
  datatype At = WaitLease | Session(session: SessionAt) | Reading(read: ReadAt) | LeaveLease | Gone

  /** What a blocking backend call comes back with. */
  datatype Outcome = Success(frame: bool) | Failure | Panicked

  datatype Worker = Worker(
    id: CameraId,
    at: At,
    stop: bool,
    lease: bool,
    device: bool,
    failureStreak: nat,
    delay: nat,
    phase: Phase,
    latest: bool,               // whether the slot holds a frame
    lastError: bool,            // whether an error is published
    negotiated: bool,           // whether a format is published
    ghost delivered: bool,      // the session that is open, or was last, has delivered a frame
    ghost sessions: nat)        // successful opens so far

  ghost function NewWorker(id: CameraId): Worker {
    Worker(id, WaitLease, false, false, false, 0, FIRST_DELAY, AwaitingLease, false, false, false, false, 0)
  }

  /** One step of a worker; the lease table is read and written only where a lease is taken
      or dropped. */
  ghost function WorkerStep(active: set<CameraId>, w: Worker, outcome: Outcome): (set<CameraId>, Worker) {
    match w.at
    case WaitLease =>
      if w.stop then (active, w.(at := Gone))
      else if w.id in active then (active, w)
      else (active + {w.id}, w.(lease := true, at := Session(OuterCheck)))
    case Session(session) => (active, SessionStep(w, session, outcome))
    case Reading(read) => (active, ReadStep(w, read, outcome))
    case LeaveLease => (active - {w.id}, w.(lease := false, at := Gone))
    case Gone => (active, w)
  }

  ghost function ReadStep(w: Worker, read: ReadAt, outcome: Outcome): Worker {
    match read
    case InnerCheck => w.(at := if w.stop then Session(ClearFormat) else Reading(InRead))
    case InRead => AfterRead(w, outcome)
    case StoreFrame(frame) => w.(latest := frame, at := Reading(ClearError))
    case ClearError => w.(lastError := false, at := Reading(InnerCheck))
    case RetryPause => w.(at := if w.stop then Session(LeaveDevice) else Reading(InnerCheck))
  }

  /** The device stays open through the wait after a failed session. */
  ghost function SessionStep(w: Worker, session: SessionAt, outcome: Outcome): Worker {
    match session
    case OuterCheck => if w.stop then w.(at := Session(LeaveDevice)) else w.(phase := Opening, at := Session(InOpen))
    case InOpen => AfterOpen(w, outcome)
    case OpenFailed => w.(negotiated := false, at := Session(Backoff))
    case PublishOpened => w.(phase := AwaitingFirstFrame, at := Session(PublishFormat))
    case PublishFormat => w.(negotiated := true, failureStreak := 0, at := Reading(InnerCheck))
    case ClearFormat => w.(negotiated := false, at := Session(Backoff))
    case Backoff =>
      if w.stop then w.(at := Session(LeaveDevice)) else w.(delay := Doubled(w.delay), at := Session(CloseDevice))
    case CloseDevice => w.(device := false, at := Session(OuterCheck))
    case LeaveDevice => w.(device := false, at := LeaveLease)
  }

  /** A panicking open ends the worker; a failing one is retried after the backoff. */
  ghost function AfterOpen(w: Worker, outcome: Outcome): Worker {
    match outcome
    case Success(_) => w.(device := true, delivered := false, sessions := w.sessions + 1, at := Session(PublishOpened))
    case Failure => w.(lastError := true, at := Session(OpenFailed))
    case Panicked => w.(lastError := true, at := Session(LeaveDevice))
  }

  ghost function AfterRead(w: Worker, outcome: Outcome): Worker {
    match outcome
    case Success(frame) =>
      w.(failureStreak := 0,
         delay := if frame then FIRST_DELAY else w.delay,
         phase := if frame then Streaming else w.phase,
         delivered := frame || w.delivered,
         at := Reading(StoreFrame(frame)))
    case Failure =>
      var streak := w.failureStreak + 1;
      w.(failureStreak := streak, lastError := true, at := if streak >= 3 then Session(ClearFormat) else Reading(RetryPause))
    case Panicked => w.(lastError := true, at := Session(ClearFormat))
  }

  datatype System = System(active: set<CameraId>, workers: seq<Worker>)

  datatype Action = Spawn(id: CameraId) | RequestStop(worker: nat) | Runs(worker: nat, outcome: Outcome)

  ghost function Step(s: System, a: Action): System {
    match a
    case Spawn(id) => s.(workers := s.workers + [NewWorker(id)])
    case RequestStop(k) =>
      if k < |s.workers| then s.(workers := s.workers[k := s.workers[k].(stop := true)]) else s
    case Runs(k, outcome) =>
      if k < |s.workers| then
        var (active, worker) := WorkerStep(s.active, s.workers[k], outcome);
        System(active, s.workers[k := worker])
      else s
  }

  ghost function Run(actions: seq<Action>): System {
    if |actions| == 0 then System({}, [])
    else Step(Run(actions[..|actions| - 1]), actions[|actions| - 1])
  }

  // ---- What every step keeps -----------------------------------------------------------------------------

  ghost predicate InsideBackend(w: Worker) {
    w.at == Session(InOpen) || w.at == Reading(InRead)
  }

  ghost predicate BeforeOrAfterLease(w: Worker) {
    w.at.WaitLease? || w.at.Gone?
  }

  ghost predicate DeviceClosed(at: At) {
    match at
    case Session(session) => session.OuterCheck? || session.InOpen? || session.OpenFailed?
    case Reading(_) => false
    case _ => true
  }

  ghost predicate DeviceOpen(at: At) {
    match at
    case Session(session) => session.PublishOpened? || session.PublishFormat? || session.ClearFormat?
    case Reading(_) => true
    case _ => false
  }

  ghost predicate Unpublished(at: At) {
    match at
    case WaitLease => true
    case Session(session) => !session.ClearFormat? && !session.LeaveDevice?
    case _ => false
  }

  ghost predicate DeviceFine(w: Worker) {
    && (w.lease <==> !BeforeOrAfterLease(w))
    && (w.device ==> !DeviceClosed(w.at))
    && (DeviceOpen(w.at) ==> w.device)
  }

  /** The phase leaves `Opening` only once the device is open, and returns to it only once the
      device is closed again; so where a worker waits to reconnect it tells whether it is. */
  ghost predicate PhaseFine(w: Worker) {
    && (w.phase.Streaming? ==> w.delivered)
    && (w.at.Reading? || w.at == Session(ClearFormat) || w.at == Session(PublishFormat) ==>
          if w.delivered then w.phase.Streaming? else w.phase.AwaitingFirstFrame?)
    && (w.at == Session(InOpen) || w.at == Session(OpenFailed) || w.at == Session(PublishOpened) ==> w.phase.Opening?)
    && (w.at == Session(PublishOpened) ==> !w.delivered)
    && (w.at == Session(Backoff) ==> (w.device <==> !w.phase.Opening?))
    && (w.negotiated ==> (w.delivered <==> w.phase.Streaming?))
  }

  ghost predicate SlotsFine(w: Worker) {
    && (Unpublished(w.at) ==> !w.negotiated)
    && (w.at == Session(PublishFormat) ==> !w.phase.Streaming?)
    && (w.at.Reading? ==> w.failureStreak < 3)
    && FIRST_DELAY <= w.delay <= LONGEST_DELAY
  }

  /** What one worker's own steps keep. */
  ghost predicate WorkerFine(w: Worker) {
    DeviceFine(w) && PhaseFine(w) && SlotsFine(w)
  }

  ghost predicate FineAt(s: System, k: nat) {
    k < |s.workers| && WorkerFine(s.workers[k])
  }

  ghost predicate Holds(s: System, k: nat, id: CameraId) {
    k < |s.workers| && s.workers[k].lease && s.workers[k].id == id
  }

  ghost predicate Held(s: System, id: CameraId) {
    exists k: nat :: Holds(s, k, id)
  }

  ghost predicate OnlyHolder(s: System, k: nat, j: nat, id: CameraId) {
    Holds(s, k, id) && Holds(s, j, id) ==> k == j
  }

  /** The table holds exactly the ids of the workers with a lease, one worker each. */
  ghost predicate TableExact(s: System) {
    && (forall id :: id in s.active <==> Held(s, id))
    && (forall k: nat, j: nat, id :: OnlyHolder(s, k, j, id))
  }

  ghost predicate Invariant(s: System) {
    TableExact(s) && forall k: nat :: k < |s.workers| ==> FineAt(s, k)
  }

  lemma ReadStepKeeps(w: Worker, read: ReadAt, outcome: Outcome)
    requires WorkerFine(w) && w.at == Reading(read)
    ensures var next := ReadStep(w, read, outcome);
            WorkerFine(next) && next.id == w.id && next.lease == w.lease && next.stop == w.stop
  {
    match read {
      case InnerCheck =>
      case InRead =>
      case StoreFrame(_) =>
      case ClearError =>
      case RetryPause =>
    }
  }

  lemma SessionStepKeeps(w: Worker, session: SessionAt, outcome: Outcome)
    requires WorkerFine(w) && w.at == Session(session)
    ensures var next := SessionStep(w, session, outcome);
            WorkerFine(next) && next.id == w.id && next.lease == w.lease && next.stop == w.stop
  {
    match session {
      case OuterCheck =>
      case InOpen =>
      case OpenFailed =>
      case PublishOpened =>
      case PublishFormat =>
      case ClearFormat =>
      case Backoff =>
      case CloseDevice =>
      case LeaveDevice =>
    }
  }

  /** The table changes only by the id of a lease taken while free, or of one dropped. */
  lemma WorkerStepKeeps(active: set<CameraId>, w: Worker, outcome: Outcome)
    requires WorkerFine(w)
    ensures var (after, next) := WorkerStep(active, w, outcome);
            && WorkerFine(next) && next.id == w.id && next.stop == w.stop
            && (|| (next.lease == w.lease && after == active)
                || (!w.lease && next.lease && w.id !in active && after == active + {w.id})
                || (w.lease && !next.lease && after == active - {w.id}))
  {
    hide ReadStep, SessionStep;
    match w.at {
      case WaitLease =>
      case Session(session) => SessionStepKeeps(w, session, outcome);
      case Reading(read) => ReadStepKeeps(w, read, outcome);
      case LeaveLease =>
      case Gone =>
    }
  }

  /** One worker changes its lease as the table says: the table stays exact. */
  lemma TableStaysExact(s: System, k: nat, active: set<CameraId>, w: Worker)
    requires TableExact(s) && k < |s.workers| && w.id == s.workers[k].id
    requires || (w.lease == s.workers[k].lease && active == s.active)
             || (!s.workers[k].lease && w.lease && w.id !in s.active && active == s.active + {w.id})
             || (s.workers[k].lease && !w.lease && active == s.active - {w.id})
    ensures TableExact(System(active, s.workers[k := w]))
  {
    var t := System(active, s.workers[k := w]);
    forall i: nat, j: nat, id ensures OnlyHolder(t, i, j, id) {
      assert OnlyHolder(s, i, j, id);
      var other := if i == k then j else i;
      assert OnlyHolder(s, k, other, id);
      assert i != k && Holds(t, i, id) ==> Holds(s, i, id);
      assert j != k && Holds(t, j, id) ==> Holds(s, j, id);
      assert Holds(s, other, id) ==> Held(s, id) && id in s.active;
      assert w.lease && s.workers[k].lease && w.id == id ==> Holds(s, k, id);
    }
    forall id ensures id in active <==> Held(t, id) {
      if Held(s, id) {
        var i: nat :| Holds(s, i, id);
        assert OnlyHolder(s, k, i, id);
        if i != k {
          assert Holds(t, i, id);
        }
      }
      if Held(t, id) {
        var i: nat :| Holds(t, i, id);
        if i != k {
          assert Holds(s, i, id) && Held(s, id);
          assert OnlyHolder(s, k, i, id);
        } else if s.workers[k].lease {
          assert Holds(s, k, id) && Held(s, id);
        }
      }
      if w.lease && id == w.id {
        assert Holds(t, k, id);
      }
    }
  }

  lemma StepKeepsTable(s: System, a: Action)
    requires Invariant(s)
    ensures TableExact(Step(s, a))
  {
    hide TableExact;
    match a {
      case Spawn(id) => NewcomerHoldsNothing(s, NewWorker(id));
      case RequestStop(k) =>
        if k < |s.workers| {
          TableStaysExact(s, k, s.active, s.workers[k].(stop := true));
        }
      case Runs(k, outcome) =>
        if k < |s.workers| {
          assert FineAt(s, k);
          WorkerStepKeeps(s.active, s.workers[k], outcome);
          var (active, worker) := WorkerStep(s.active, s.workers[k], outcome);
          hide WorkerStep;
          TableStaysExact(s, k, active, worker);
        }
    }
  }

  lemma NewcomerHoldsNothing(s: System, w: Worker)
    requires TableExact(s) && !w.lease
    ensures TableExact(s.(workers := s.workers + [w]))
  {
    var t := s.(workers := s.workers + [w]);
    forall i: nat, j: nat, id ensures OnlyHolder(t, i, j, id) {
      assert OnlyHolder(s, i, j, id);
    }
    forall id ensures id in t.active <==> Held(t, id) {
      if Held(s, id) {
        var i: nat :| Holds(s, i, id);
        assert Holds(t, i, id);
      }
      if Held(t, id) {
        var i: nat :| Holds(t, i, id);
        assert Holds(s, i, id);
      }
    }
  }

  lemma StepKeepsWorkers(s: System, a: Action, k: nat)
    requires Invariant(s) && k < |Step(s, a).workers|
    ensures FineAt(Step(s, a), k)
  {
    if k < |s.workers| {
      assert FineAt(s, k);
    }
    hide TableExact;
    if a.Runs? && a.worker == k && k < |s.workers| {
      WorkerStepKeeps(s.active, s.workers[k], a.outcome);
      hide WorkerStep, WorkerFine;
    } else {
      hide WorkerStep;
    }
  }

  lemma {:induction false} EveryRun(actions: seq<Action>)
    ensures Invariant(Run(actions))
  {
    if |actions| > 0 {
      var before := Run(actions[..|actions| - 1]);
      var last := actions[|actions| - 1];
      EveryRun(actions[..|actions| - 1]);
      hide Step, FineAt, TableExact;
      StepKeepsInvariant(before, last);
    }
  }

  // ---- Every run -------------------------------------------------------------------------------------------

  /** The lease table is exactly the cameras of the workers holding a lease. */
  lemma LeasesAreExact(actions: seq<Action>, id: CameraId)
    ensures id in Run(actions).active <==> Held(Run(actions), id)
  {
    EveryRun(actions);
    hide Run, FineAt;
  }

  /** No two workers are ever inside the backend, or have the device open, for one camera. */
  lemma {:induction false} OneWorkerPerCamera(actions: seq<Action>, i: nat, j: nat)
    requires var s := Run(actions); i < |s.workers| && j < |s.workers| && i != j
    requires var s := Run(actions); s.workers[i].id == s.workers[j].id
    requires var w := Run(actions).workers[i]; InsideBackend(w) || w.device
    ensures var w := Run(actions).workers[j]; !InsideBackend(w) && !w.device && !w.lease
  {
    EveryRun(actions);
    hide Run;
    var s := Run(actions);
    assert FineAt(s, i) && FineAt(s, j);
    assert OnlyHolder(s, i, j, s.workers[i].id);
    assert Holds(s, i, s.workers[i].id);
  }

  /** A device is only open under a lease, a lease is only dropped with the device closed, and
      a worker that is gone holds neither. */
  lemma DeviceOnlyUnderLease(actions: seq<Action>, k: nat)
    requires k < |Run(actions).workers|
    ensures var w := Run(actions).workers[k];
            && (w.device || InsideBackend(w) ==> w.lease && w.id in Run(actions).active)
            && (w.at.LeaveLease? ==> !w.device) && (w.at.Gone? ==> !w.device && !w.lease)
  {
    EveryRun(actions);
    hide Run;
    var s := Run(actions);
    assert FineAt(s, k);
    if s.workers[k].lease {
      assert Holds(s, k, s.workers[k].id);
      assert Held(s, s.workers[k].id);
    }
  }

  /** A worker that waits to reconnect has its device open exactly if its phase has left
      `Opening`: closed after an open that failed, open after a session that did. */
  lemma WaitingDeviceIsOpenAfterASession(actions: seq<Action>, k: nat)
    requires k < |Run(actions).workers| && Run(actions).workers[k].at == Session(Backoff)
    ensures var w := Run(actions).workers[k]; w.device <==> !w.phase.Opening?
  {
    EveryRun(actions);
    hide Run;
    assert FineAt(Run(actions), k);
  }

  /** A published format in the streaming phase means that this session has delivered a frame:
      a watchdog that speaks of a silent camera speaks of one that was heard. */
  lemma {:induction false} StreamingMeansDelivered(actions: seq<Action>, k: nat, elapsed: nat, openTimeout: nat, fps: U32)
    requires k < |Run(actions).workers|
    ensures var w := Run(actions).workers[k];
            && (w.negotiated && w.phase.Streaming? ==> w.delivered)
            && (w.phase.Streaming?
                && StallAge(w.phase, elapsed, openTimeout, if w.negotiated then Some(fps) else None, w.lastError).Some?
                ==> w.delivered && !w.lastError && elapsed >= MIN_FRAME_GAP_NANOS)
  {
    EveryRun(actions);
    GapBudget(fps);
    hide Run, FrameGapTimeout;
    assert FineAt(Run(actions), k);
  }

  // ---- A reader that takes one lock at a time ----------------------------------------------------------------

  /** The frame-gap watchdog: the phase first, then the format, then the error, with any steps
      of the worker between the reads. */
  ghost function StallAgeRead(
    atPhase: Worker, atFormat: Worker, atError: Worker, elapsed: nat, openTimeout: nat, fps: U32): Option<nat>
  {
    StallAge(atPhase.phase, elapsed, openTimeout, if atFormat.negotiated then Some(fps) else None, atError.lastError)
  }

  ghost function Later(s: System, actions: seq<Action>): System
    decreases |actions|
  {
    if |actions| == 0 then s else Later(Step(s, actions[0]), actions[1..])
  }

  /** Until the next open succeeds a session that delivered a frame has delivered one. */
  ghost predicate Since(earlier: Worker, later: Worker) {
    && earlier.sessions <= later.sessions
    && (earlier.sessions == later.sessions && earlier.delivered ==> later.delivered)
  }

  lemma StepSince(s: System, a: Action, k: nat)
    requires k < |s.workers|
    ensures k < |Step(s, a).workers| && Since(s.workers[k], Step(s, a).workers[k])
  {
    if a.Runs? && a.worker == k {
      var w := s.workers[k];
      match w.at {
        case Session(session) => SessionSince(w, session, a.outcome);
        case Reading(read) => ReadSince(w, read, a.outcome);
        case _ =>
      }
      hide SessionStep, ReadStep;
    } else {
      hide WorkerStep;
    }
  }

  lemma SessionSince(w: Worker, session: SessionAt, outcome: Outcome)
    ensures Since(w, SessionStep(w, session, outcome))
  {
    match session {
      case OuterCheck =>
      case InOpen =>
      case OpenFailed =>
      case PublishOpened =>
      case PublishFormat =>
      case ClearFormat =>
      case Backoff =>
      case CloseDevice =>
      case LeaveDevice =>
    }
  }

  lemma ReadSince(w: Worker, read: ReadAt, outcome: Outcome)
    ensures Since(w, ReadStep(w, read, outcome))
  {
    match read {
      case InnerCheck =>
      case InRead =>
      case StoreFrame(_) =>
      case ClearError =>
      case RetryPause =>
    }
  }

  lemma {:induction false} LaterSince(s: System, actions: seq<Action>, k: nat)
    requires Invariant(s) && k < |s.workers|
    ensures Invariant(Later(s, actions))
    ensures k < |Later(s, actions).workers| && Since(s.workers[k], Later(s, actions).workers[k])
    decreases |actions|
  {
    if |actions| > 0 {
      var t := Step(s, actions[0]);
      StepSince(s, actions[0], k);
      StepKeepsInvariant(s, actions[0]);
      hide Step, Invariant;
      LaterSince(t, actions[1..], k);
    }
  }

  lemma StepKeepsInvariant(s: System, a: Action)
    requires Invariant(s)
    ensures Invariant(Step(s, a))
  {
    StepKeepsTable(s, a);
    forall k: nat | k < |Step(s, a).workers| ensures FineAt(Step(s, a), k) {
      StepKeepsWorkers(s, a, k);
    }
    hide Step, FineAt, TableExact;
  }

  /** With the reads apart, a watchdog that speaks of a silent camera speaks of a session that
      was heard exactly if the worker was streaming when the format was read too: that is, if
      it had not reopened since the phase was read, or had been heard again. */
  lemma {:induction false} SilenceIsOfAHeardSession(
    actions: seq<Action>, toFormat: seq<Action>, toError: seq<Action>, k: nat, elapsed: nat, openTimeout: nat, fps: U32)
    requires k < |Run(actions).workers|
    ensures var s := Run(actions); var t := Later(s, toFormat); var u := Later(t, toError);
            && k < |t.workers| && k < |u.workers|
            && (s.workers[k].phase.Streaming?
                && StallAgeRead(s.workers[k], t.workers[k], u.workers[k], elapsed, openTimeout, fps).Some? ==>
                  && elapsed >= MIN_FRAME_GAP_NANOS && !u.workers[k].lastError
                  && (t.workers[k].delivered <==> t.workers[k].phase.Streaming?)
                  && (t.workers[k].delivered <==>
                        t.workers[k].sessions == s.workers[k].sessions || t.workers[k].phase.Streaming?))
  {
    var s := Run(actions);
    EveryRun(actions);
    hide Run;
    LaterSince(s, toFormat, k);
    var t := Later(s, toFormat);
    LaterSince(t, toError, k);
    assert FineAt(s, k) && FineAt(t, k);
    GapBudget(fps);
    hide Later, FrameGapTimeout, DeviceFine, SlotsFine, TableExact;
  }

  // ---- Stopping ---------------------------------------------------------------------------------------------

  /** Steps a stopped worker may still take, once its backend call has returned. */
  function StepsLeft(at: At): nat {
    match at
    case Gone => 0
    case WaitLease => 1
    case LeaveLease => 1
    case Session(session) =>
      (match session
       case LeaveDevice => 2
       case OuterCheck => 3
       case CloseDevice => 4
       case Backoff => 5
       case ClearFormat => 6
       case OpenFailed => 6
       case PublishFormat => 8
       case PublishOpened => 9
       case InOpen => 10)
    case Reading(read) =>
      match read
      case RetryPause => 3
      case InnerCheck => 7
      case ClearError => 8
      case StoreFrame(_) => 9
      case InRead => 10
  }

  lemma StoppedReaderLeaves(w: Worker, read: ReadAt, outcome: Outcome)
    requires w.stop
    ensures StepsLeft(ReadStep(w, read, outcome).at) < StepsLeft(Reading(read))
  {
    match read {
      case InnerCheck =>
      case InRead =>
      case StoreFrame(_) =>
      case ClearError =>
      case RetryPause =>
    }
  }

  lemma StoppedSessionLeaves(w: Worker, session: SessionAt, outcome: Outcome)
    requires w.stop
    ensures StepsLeft(SessionStep(w, session, outcome).at) < StepsLeft(Session(session))
  {
    match session {
      case OuterCheck =>
      case InOpen =>
      case OpenFailed =>
      case PublishOpened =>
      case PublishFormat =>
      case ClearFormat =>
      case Backoff =>
      case CloseDevice =>
      case LeaveDevice =>
    }
  }

  lemma StoppedWorkerLeaves(active: set<CameraId>, w: Worker, outcome: Outcome)
    requires w.stop && !w.at.Gone?
    ensures StepsLeft(WorkerStep(active, w, outcome).1.at) < StepsLeft(w.at)
  {
    hide ReadStep, SessionStep;
    match w.at {
      case Session(session) => StoppedSessionLeaves(w, session, outcome);
      case Reading(read) => StoppedReaderLeaves(w, read, outcome);
      case _ =>
    }
  }

  ghost function RunAlone(s: System, k: nat, outcomes: seq<Outcome>): System
    decreases |outcomes|
  {
    if |outcomes| == 0 then s else RunAlone(Step(s, Runs(k, outcomes[0])), k, outcomes[1..])
  }

  /** Whatever the backend answers, a stopped worker is gone after at most ten of its own
      steps, and its lease with it: the camera is free unless another worker holds it. */
  lemma {:induction false} StopFreesTheCamera(s: System, k: nat, outcomes: seq<Outcome>)
    requires Invariant(s) && k < |s.workers| && s.workers[k].stop && StepsLeft(s.workers[k].at) <= |outcomes|
    ensures var t := RunAlone(s, k, outcomes);
            && Invariant(t) && k < |t.workers| && t.workers[k].at.Gone? && !t.workers[k].lease
    decreases |outcomes|
  {
    if |outcomes| == 0 || s.workers[k].at.Gone? {
      assert FineAt(s, k);
    }
    if |outcomes| > 0 {
      var t := Step(s, Runs(k, outcomes[0]));
      if !s.workers[k].at.Gone? {
        StoppedWorkerLeaves(s.active, s.workers[k], outcomes[0]);
      }
      assert FineAt(s, k);
      WorkerStepKeeps(s.active, s.workers[k], outcomes[0]);
      hide WorkerStep, TableExact, WorkerFine;
      StepKeepsTable(s, Runs(k, outcomes[0]));
      forall j: nat | j < |t.workers| ensures FineAt(t, j) {
        StepKeepsWorkers(s, Runs(k, outcomes[0]), j);
      }
      StopFreesTheCamera(t, k, outcomes[1..]);
    }
  }

  // ---- Two runs on which the documented readings fail -------------------------------------------------------

  ghost predicate Shows(actions: seq<Action>, w: Worker) {
    Run(actions) == System({w.id}, [w])
  }

  lemma Shown(actions: seq<Action>, w: Worker, outcome: Outcome, next: Worker)
    requires Shows(actions, w) && next.id == w.id
    requires WorkerStep({w.id}, w, outcome) == ({w.id}, next)
    ensures Shows(actions + [Runs(0, outcome)], next)
  {
    var more := actions + [Runs(0, outcome)];
    assert more[..|more| - 1] == actions;
    hide WorkerStep;
  }

  /** A camera that delivered a frame and then failed: its worker waits to reconnect. */
  ghost function Heard(id: CameraId): Worker {
    Worker(id, Session(Backoff), false, true, true, 0, FIRST_DELAY, Streaming, true, true, false, true, 1)
  }

  ghost function Opened(id: CameraId): Worker {
    Worker(id, Reading(InRead), false, true, true, 0, FIRST_DELAY, AwaitingFirstFrame, false, false, true, false, 1)
  }

  lemma ReachesOpened(id: CameraId) returns (actions: seq<Action>)
    ensures Shows(actions, Opened(id))
  {
    actions := [Spawn(id)];
    var w := NewWorker(id);
    assert actions[..0] == [];
    assert Run(actions) == System({}, [w]);
    var leased := w.(lease := true, at := Session(OuterCheck));
    var more := actions + [Runs(0, Failure)];
    assert more[..|more| - 1] == actions;
    assert Shows(more, leased);
    actions := more;
    hide Shows;
    w := leased;
    var opening := w.(phase := Opening, at := Session(InOpen));
    Shown(actions, w, Failure, opening);
    actions := actions + [Runs(0, Failure)];
    var open := opening.(device := true, sessions := 1, at := Session(PublishOpened));
    Shown(actions, opening, Success(false), open);
    actions := actions + [Runs(0, Success(false))];
    var published := open.(phase := AwaitingFirstFrame, at := Session(PublishFormat));
    Shown(actions, open, Failure, published);
    actions := actions + [Runs(0, Failure)];
    var checking := published.(negotiated := true, at := Reading(InnerCheck));
    Shown(actions, published, Failure, checking);
    actions := actions + [Runs(0, Failure)];
    Shown(actions, checking, Failure, Opened(id));
    actions := actions + [Runs(0, Failure)];
  }

  /** The device is open, the phase streaming and the format withdrawn while the worker waits
      to reconnect. */
  lemma WaitsWithItsDeviceOpen(id: CameraId) returns (actions: seq<Action>)
    ensures Shows(actions, Heard(id))
    ensures var w := Run(actions).workers[0];
            w.at == Session(Backoff) && w.phase.Streaming? && !w.negotiated && w.device
  {
    actions := ReachesOpened(id);
    hide Shows;
    var w := Opened(id);
    var heard := w.(phase := Streaming, delivered := true, at := Reading(StoreFrame(true)));
    Shown(actions, w, Success(true), heard);
    actions := actions + [Runs(0, Success(true))];
    var stored := heard.(latest := true, at := Reading(ClearError));
    Shown(actions, heard, Failure, stored);
    actions := actions + [Runs(0, Failure)];
    var checking := stored.(at := Reading(InnerCheck));
    Shown(actions, stored, Failure, checking);
    actions := actions + [Runs(0, Failure)];
    var reading := checking.(at := Reading(InRead));
    Shown(actions, checking, Failure, reading);
    actions := actions + [Runs(0, Failure)];
    var failed := reading.(lastError := true, at := Session(ClearFormat));
    Shown(actions, reading, Panicked, failed);
    actions := actions + [Runs(0, Panicked)];
    Shown(actions, failed, Failure, Heard(id));
    actions := actions + [Runs(0, Failure)];
    assert Run(actions) == System({id}, [Heard(id)]) by { ShowsIs(actions, Heard(id)); }
  }

  lemma ShowsIs(actions: seq<Action>, w: Worker)
    requires Shows(actions, w)
    ensures Run(actions) == System({w.id}, [w])
  {
  }

  lemma {:induction false} LaterAppended(s: System, actions: seq<Action>, a: Action)
    ensures Later(s, actions + [a]) == Step(Later(s, actions), a)
    decreases |actions|
  {
    if |actions| == 0 {
      assert actions + [a] == [a];
      assert Later(s, [a]) == Later(Step(s, a), [a][1..]);
    } else {
      assert (actions + [a])[1..] == actions[1..] + [a];
      LaterAppended(Step(s, actions[0]), actions[1..], a);
      hide Step;
    }
  }

  lemma LaterShown(s: System, actions: seq<Action>, w: Worker, outcome: Outcome, next: Worker)
    requires Later(s, actions) == System({w.id}, [w]) && next.id == w.id
    requires WorkerStep({w.id}, w, outcome) == ({w.id}, next)
    ensures Later(s, actions + [Runs(0, outcome)]) == System({w.id}, [next])
  {
    LaterAppended(s, actions, Runs(0, outcome));
    hide WorkerStep, Later;
  }

  /** Its worker waiting, reopening and reading nothing yet, between a reader's look at the
      phase and its looks at the format and the error. */
  lemma ReopensUnheard(id: CameraId, s: System) returns (actions: seq<Action>)
    requires s == System({id}, [Heard(id)])
    ensures Later(s, actions) == System({id}, [
      Opened(id).(at := Reading(InnerCheck), delay := Doubled(FIRST_DELAY), sessions := 2)])
  {
    var w := Heard(id);
    actions := [];
    assert Later(s, actions) == System({id}, [w]);
    hide Later;
    var closing := w.(delay := Doubled(w.delay), at := Session(CloseDevice));
    LaterShown(s, actions, w, Failure, closing);
    actions := actions + [Runs(0, Failure)];
    var closed := closing.(device := false, at := Session(OuterCheck));
    LaterShown(s, actions, closing, Failure, closed);
    actions := actions + [Runs(0, Failure)];
    var opening := closed.(phase := Opening, at := Session(InOpen));
    LaterShown(s, actions, closed, Failure, opening);
    actions := actions + [Runs(0, Failure)];
    var open := opening.(device := true, delivered := false, sessions := 2, at := Session(PublishOpened));
    LaterShown(s, actions, opening, Success(false), open);
    actions := actions + [Runs(0, Success(false))];
    var published := open.(phase := AwaitingFirstFrame, at := Session(PublishFormat));
    LaterShown(s, actions, open, Failure, published);
    actions := actions + [Runs(0, Failure)];
    var checking := published.(negotiated := true, at := Reading(InnerCheck));
    LaterShown(s, actions, published, Failure, checking);
    actions := actions + [Runs(0, Failure)];
    var reading := checking.(at := Reading(InRead));
    LaterShown(s, actions, checking, Failure, reading);
    actions := actions + [Runs(0, Failure)];
    var empty := reading.(at := Reading(StoreFrame(false)));
    LaterShown(s, actions, reading, Success(false), empty);
    actions := actions + [Runs(0, Success(false))];
    var stored := empty.(latest := false, at := Reading(ClearError));
    LaterShown(s, actions, empty, Failure, stored);
    actions := actions + [Runs(0, Failure)];
    LaterShown(s, actions, stored, Failure, stored.(lastError := false, at := Reading(InnerCheck)));
    actions := actions + [Runs(0, Failure)];
  }

  /** A reader that looks at the phase, is held up for two seconds and more, and then looks at
      the format and the error, calls silent a camera that has not been heard yet. */
  lemma UnheardCameraCalledSilent(id: CameraId, elapsed: nat, openTimeout: nat, fps: U32)
    returns (actions: seq<Action>, toFormat: seq<Action>)
    requires elapsed >= FrameGapTimeout(fps)
    ensures |Run(actions).workers| == 1 && |Later(Run(actions), toFormat).workers| == 1
    ensures var w := Run(actions).workers[0]; var next := Later(Run(actions), toFormat).workers[0];
            && w.phase.Streaming? && !next.delivered
            && StallAgeRead(w, next, next, elapsed, openTimeout, fps) == Some(elapsed)
  {
    actions := WaitsWithItsDeviceOpen(id);
    ShowsIs(actions, Heard(id));
    toFormat := ReopensUnheard(id, Run(actions));
    hide Run, Later, FrameGapTimeout;
  }
}
