/** The latest-job render worker's shared state (`src/render_worker.rs`): one method per
    critical section, each tied to a function of the state it found. */
module RenderWorkers {
  import opened Numerics
  import opened Wrappers

  const RECYCLED_FRAMES_LIMIT: nat := 3

  /** What recycling compares: frames are interchangeable when their sizes agree. */
  datatype FrameSize = FrameSize(width: U32, height: U32)

  datatype RenderJob = RenderJob(
    id: nat,
    epoch: U64,
    size: FrameSize,
    live: bool,
    publishVirtual: bool,
    forcePreview: bool)

  datatype Counters = Counters(rendered: nat, live: nat, sent: nat, allocations: nat, reuses: nat) {
    function Plus(other: Counters): Counters {
      Counters(rendered + other.rendered, live + other.live, sent + other.sent,
               allocations + other.allocations, reuses + other.reuses)
    }
  }

  const NO_COUNTS := Counters(0, 0, 0, 0, 0)

  /** `frame` is None for a failed composition; errors, images and progress reports are
      opaque tokens. */
  datatype RenderResult = RenderResult(
    epoch: U64,
    frame: Option<FrameSize>,
    forcePreview: bool,
    counters: Counters,
    previewImage: Option<nat>,
    transportError: Option<nat>,
    producerProgress: Option<nat>,
    consumerProgress: Option<nat>)

  datatype WorkerState = WorkerState(
    pending: Option<RenderJob>,
    result: Option<RenderResult>,
    outputEnabled: bool,
    latestEpoch: U64,
    disconnectRequested: bool,
    processing: bool,
    stopping: bool,
    recycled: seq<FrameSize>)

  const INITIAL_STATE := WorkerState(None, None, false, 0, false, false, false, [])

  datatype WorkerAction = Render(job: RenderJob) | Disconnect | Stop | Wait

  // ---- The critical sections as functions --------------------------------------------------------

  function Submitted(s: WorkerState, job: RenderJob): WorkerState {
    s.(disconnectRequested :=
         if job.publishVirtual then false else s.disconnectRequested || s.outputEnabled,
       outputEnabled := job.publishVirtual,
       latestEpoch := job.epoch,
       pending := Some(job))
  }

  function OutputDisconnected(s: WorkerState): WorkerState {
    s.(outputEnabled := false, disconnectRequested := true)
  }

  function Pooled(pool: seq<FrameSize>, frame: FrameSize): seq<FrameSize> {
    if |pool| < RECYCLED_FRAMES_LIMIT then pool + [frame] else pool
  }

  function Dropped(s: WorkerState): WorkerState {
    s.(stopping := true, pending := None)
  }

  /** Stop wins over a disconnect, which wins over a job; otherwise the worker waits. */
  function ActionOf(s: WorkerState): WorkerAction {
    if s.stopping then Stop
    else if s.disconnectRequested then Disconnect
    else if s.pending.Some? then Render(s.pending.value)
    else Wait
  }

  function AfterAction(s: WorkerState): WorkerState {
    match ActionOf(s)
    case Stop => s
    case Disconnect => s.(disconnectRequested := false)
    case Render(_) => s.(processing := true, pending := None)
    case Wait => s
  }

  /** Position of the last pooled frame of the size, or none. */
  function LastOfSize(pool: seq<FrameSize>, size: FrameSize): (at: Option<nat>)
    ensures at.Some? ==> at.value < |pool| && pool[at.value] == size && size !in pool[at.value + 1..]
    ensures at.None? ==> size !in pool
  {
    if |pool| == 0 then None
    else if pool[|pool| - 1] == size then Some(|pool| - 1)
    else LastOfSize(pool[..|pool| - 1], size)
  }

  /** `swap_remove`: the last element fills the hole. */
  function SwapRemoved(pool: seq<FrameSize>, at: nat): (rest: seq<FrameSize>)
    requires at < |pool|
    ensures |rest| == |pool| - 1
    ensures multiset(rest) + multiset{pool[at]} == multiset(pool)
  {
    var last := pool[|pool| - 1];
    var rest := pool[at := last][..|pool| - 1];
    assert pool == pool[..|pool| - 1] + [last];
    assert pool[at := last] == rest + [last];
    rest
  }

  function FrameTaken(s: WorkerState, size: FrameSize): WorkerState {
    var at := LastOfSize(s.recycled, size);
    if at.None? then s else s.(recycled := SwapRemoved(s.recycled, at.value))
  }

  function FirstOf<T>(newer: Option<T>, older: Option<T>): Option<T> {
    if newer.Some? then newer else older
  }

  /** An unread result absorbed by a newer one: its counters always, its reports only
      within the same epoch and only where the newer result has none. */
  function Merged(previous: RenderResult, result: RenderResult): RenderResult {
    var counted := result.(counters := result.counters.Plus(previous.counters));
    if previous.epoch != result.epoch then counted
    else counted.(
      transportError := FirstOf(result.transportError, previous.transportError),
      forcePreview := result.forcePreview || previous.forcePreview,
      previewImage := FirstOf(result.previewImage, previous.previewImage),
      producerProgress := FirstOf(result.producerProgress, previous.producerProgress),
      consumerProgress := FirstOf(result.consumerProgress, previous.consumerProgress))
  }

  function Committed(s: WorkerState, result: RenderResult): WorkerState {
    match s.result
    case None => s.(processing := false, result := Some(result))
    case Some(previous) =>
      s.(processing := false,
         result := Some(Merged(previous, result)),
         recycled := if previous.frame.Some? then Pooled(s.recycled, previous.frame.value) else s.recycled)
  }

  // ---- What coalescing keeps -----------------------------------------------------------------------

  datatype Report = TransportError | PreviewImage | ProducerProgress | ConsumerProgress

  function ReportOf(result: RenderResult, report: Report): Option<nat> {
    match report
    case TransportError => result.transportError
    case PreviewImage => result.previewImage
    case ProducerProgress => result.producerProgress
    case ConsumerProgress => result.consumerProgress
  }

  /** The one unread result that a run of results, none read, leaves behind. */
  function Coalesced(results: seq<RenderResult>): RenderResult
    requires |results| > 0
  {
    var last := |results| - 1;
    if last == 0 then results[0] else Merged(Coalesced(results[..last]), results[last])
  }

  /** Where the results of the newest epoch begin. */
  ghost function EpochStart(results: seq<RenderResult>): (start: nat)
    requires |results| > 0
    ensures start < |results|
    ensures forall k :: start <= k < |results| ==> results[k].epoch == results[|results| - 1].epoch
    ensures start > 0 ==> results[start - 1].epoch != results[start].epoch
  {
    var last := |results| - 1;
    if last == 0 || results[last - 1].epoch != results[last].epoch then last else EpochStart(results[..last])
  }

  ghost function NewestReport(results: seq<RenderResult>, start: nat, report: Report): Option<nat> {
    if |results| <= start then None
    else
      var last := |results| - 1;
      if ReportOf(results[last], report).Some? then ReportOf(results[last], report)
      else NewestReport(results[..last], start, report)
  }

  ghost predicate AnyForced(results: seq<RenderResult>, start: nat) {
    exists k :: start <= k < |results| && results[k].forcePreview
  }

  ghost function Sum(results: seq<RenderResult>): Counters {
    if |results| == 0 then NO_COUNTS
    else results[|results| - 1].counters.Plus(Sum(results[..|results| - 1]))
  }

  lemma {:induction false} CoalescingCounts(results: seq<RenderResult>)
    requires |results| > 0
    ensures var all := Coalesced(results); var newest := results[|results| - 1];
            all.counters == Sum(results) && all.epoch == newest.epoch && all.frame == newest.frame
  {
    var last := |results| - 1;
    if last == 0 {
      assert results[..last] == [];
    } else {
      CoalescingCounts(results[..last]);
    }
  }

  lemma MergedReports(previous: RenderResult, result: RenderResult, report: Report)
    ensures var same := previous.epoch == result.epoch; var merged := Merged(previous, result);
            && ReportOf(merged, report) ==
               (if same then FirstOf(ReportOf(result, report), ReportOf(previous, report)) else ReportOf(result, report))
            && (merged.forcePreview <==> result.forcePreview || (same && previous.forcePreview))
  {
  }

  lemma {:induction false} CoalescingReports(results: seq<RenderResult>, report: Report)
    requires |results| > 0
    ensures var all := Coalesced(results); var start := EpochStart(results);
            && ReportOf(all, report) == NewestReport(results, start, report)
            && (all.forcePreview <==> AnyForced(results, start))
  {
    hide ReportOf, Merged;
    var last := |results| - 1;
    var start := EpochStart(results);
    if last == 0 {
      NothingReported(results[..last], start, report);
    } else {
      var before := results[..last];
      CoalescingReports(before, report);
      CoalescingCounts(before);
      MergedReports(Coalesced(before), results[last], report);
      NothingReported(before, last, report);
      ForcedStep(results, start);
    }
  }

  lemma ForcedStep(results: seq<RenderResult>, start: nat)
    requires |results| > 0 && start < |results|
    ensures var last := |results| - 1;
            AnyForced(results, start) <==> AnyForced(results[..last], start) || results[last].forcePreview
  {
    var last := |results| - 1;
    if AnyForced(results[..last], start) {
      var k :| start <= k < last && results[..last][k].forcePreview;
      assert results[k].forcePreview;
    }
    if AnyForced(results, start) {
      var k :| start <= k < |results| && results[k].forcePreview;
      assert k < last ==> results[..last][k].forcePreview;
    }
  }

  /** However many results go unread, the one that remains counts all of them, carries the
      newest picture, and of each kind of report the newest that the newest epoch produced. */
  lemma CoalescingKeeps(results: seq<RenderResult>, report: Report)
    requires |results| > 0
    ensures var all := Coalesced(results); var newest := results[|results| - 1]; var start := EpochStart(results);
            && all.counters == Sum(results)
            && all.epoch == newest.epoch && all.frame == newest.frame
            && ReportOf(all, report) == NewestReport(results, start, report)
            && (all.forcePreview <==> AnyForced(results, start))
  {
    CoalescingCounts(results);
    CoalescingReports(results, report);
    hide Coalesced, Sum, NewestReport, EpochStart, ReportOf;
  }

  lemma NothingReported(results: seq<RenderResult>, start: nat, report: Report)
    requires |results| <= start
    ensures NewestReport(results, start, report) == None
  {
  }

  // ---- The critical sections as methods -------------------------------------------------------------

  class RenderWorker {
    var pending: Option<RenderJob>
    var result: Option<RenderResult>
    var outputEnabled: bool
    var latestEpoch: U64
    var disconnectRequested: bool
    var processing: bool
    var stopping: bool
    var recycledFrames: seq<FrameSize>

    function State(): WorkerState
      reads this
    {
      WorkerState(pending, result, outputEnabled, latestEpoch, disconnectRequested, processing, stopping, recycledFrames)
    }

    constructor ()
      ensures State() == INITIAL_STATE
    {
      pending, result := None, None;
      outputEnabled, latestEpoch := false, 0;
      disconnectRequested, processing, stopping := false, false, false;
      recycledFrames := [];
    }

    /** Returns whether an older pending job was dropped for this one. */
    method Submit(job: RenderJob) returns (replaced: bool)
      modifies this
      ensures State() == Submitted(old(State()), job)
      ensures replaced <==> old(pending).Some?
    {
      if job.publishVirtual {
        disconnectRequested := false;
      } else if outputEnabled {
        disconnectRequested := true;
      }
      outputEnabled := job.publishVirtual;
      latestEpoch := job.epoch;
      replaced := pending.Some?;
      pending := Some(job);
    }

    method DisconnectOutput()
      modifies this
      ensures State() == OutputDisconnected(old(State()))
    {
      outputEnabled := false;
      disconnectRequested := true;
    }

    method TakeResult() returns (taken: Option<RenderResult>)
      modifies this
      ensures taken == old(result)
      ensures State() == old(State()).(result := None)
    {
      taken := result;
      result := None;
    }

    method RecycleFrame(frame: FrameSize)
      modifies this
      ensures State() == old(State()).(recycled := Pooled(old(recycledFrames), frame))
    {
      if |recycledFrames| < RECYCLED_FRAMES_LIMIT {
        recycledFrames := recycledFrames + [frame];
      }
    }

    /** Includes an unread result, so that the caller cannot miss one. */
    method HasWork() returns (work: bool)
      ensures work <==> processing || pending.Some? || disconnectRequested || result.Some?
    {
      work := processing || pending.Some? || disconnectRequested || result.Some?;
    }

    method BeginDrop()
      modifies this
      ensures State() == Dropped(old(State()))
    {
      stopping := true;
      pending := None;
    }

    /** One pass of `next_action` after its wait; `Wait` when there is nothing to do yet. */
    method NextAction() returns (action: WorkerAction)
      modifies this
      ensures action == ActionOf(old(State()))
      ensures State() == AfterAction(old(State()))
    {
      if !stopping && pending.None? && !disconnectRequested {
        return Wait;
      }
      if stopping {
        action := Stop;
      } else if disconnectRequested {
        disconnectRequested := false;
        action := Disconnect;
      } else {
        processing := true;
        action := Render(pending.value);
        pending := None;
      }
    }

    /** Search from the end. */
    static method LastPosition(pool: seq<FrameSize>, size: FrameSize) returns (at: Option<nat>)
      ensures at == LastOfSize(pool, size)
    {
      var index: nat := |pool|;
      assert pool[..index] == pool;
      while 0 < index
        invariant index <= |pool|
        invariant LastOfSize(pool, size) == LastOfSize(pool[..index], size)
      {
        if pool[index - 1] == size {
          return Some(index - 1);
        }
        assert pool[..index][..index - 1] == pool[..index - 1];
        index := index - 1;
      }
      return None;
    }

    method TakeRecycledFrame(size: FrameSize) returns (found: bool)
      modifies this
      ensures found <==> size in old(recycledFrames)
      ensures State() == FrameTaken(old(State()), size)
    {
      hide LastOfSize;
      var at := LastPosition(recycledFrames, size);
      found := at.Some?;
      if found {
        var last := recycledFrames[|recycledFrames| - 1];
        recycledFrames := recycledFrames[at.value := last][..|recycledFrames| - 1];
      }
    }

    method PublishState() returns (enabled: bool, epoch: U64)
      ensures enabled == outputEnabled && epoch == latestEpoch
    {
      enabled, epoch := outputEnabled, latestEpoch;
    }

    /** The counters of an unread result are never lost to the one that replaces it. */
    static method Absorb(latest: RenderResult, previous: RenderResult) returns (merged: RenderResult)
      ensures merged == Merged(previous, latest)
    {
      merged := latest.(counters := latest.counters.Plus(previous.counters));
      if previous.epoch == merged.epoch {
        if merged.transportError.None? {
          merged := merged.(transportError := previous.transportError);
        }
        merged := merged.(forcePreview := merged.forcePreview || previous.forcePreview);
        if merged.previewImage.None? {
          merged := merged.(previewImage := previous.previewImage);
        }
        if merged.producerProgress.None? {
          merged := merged.(producerProgress := previous.producerProgress);
        }
        if merged.consumerProgress.None? {
          merged := merged.(consumerProgress := previous.consumerProgress);
        }
      }
    }

    method Commit(latest: RenderResult)
      modifies this
      ensures State() == Committed(old(State()), latest)
    {
      hide Merged;
      var merged := latest;
      processing := false;
      if result.Some? {
        var previous := result.value;
        merged := Absorb(latest, previous);
        if previous.frame.Some? && |recycledFrames| < RECYCLED_FRAMES_LIMIT {
          recycledFrames := recycledFrames + [previous.frame.value];
        }
      }
      result := Some(merged);
    }
  }
}
