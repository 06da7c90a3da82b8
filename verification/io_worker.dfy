/** One background file operation that the user may cancel at any moment
    (`src/app/io_worker.rs` over `src/atomic_file.rs`), in every interleaving. */
module IoWorkers {
  import opened Numerics
  import opened Wrappers
  import opened AtomicFiles
  import opened Frames
  import Ppm

  // ---- The state word --------------------------------------------------------------------------------

  datatype Word = Active | Cancelled | Committing

  /** `compare_exchange` from `Active`: the new word, and whether it was taken. */
  function Exchanged(word: Word, to: Word): (Word, bool) {
    if word == Active then (to, true) else (word, false)
  }

  class IoState {
    var word: Word

    constructor ()
      ensures word == Active
    {
      word := Active;
    }

    method Cancel() returns (accepted: bool)
      modifies this
      ensures (word, accepted) == Exchanged(old(word), Cancelled)
    {
      accepted := word == Active;
      if accepted {
        word := Cancelled;
      }
    }

    method BeginCommit() returns (allowed: bool)
      modifies this
      ensures (word, allowed) == Exchanged(old(word), Committing)
    {
      allowed := word == Active;
      if allowed {
        word := Committing;
      }
    }
  }

  // ---- Interleavings ----------------------------------------------------------------------------------

  datatype IoOutcome = Completed | WasCancelled | HasFailed

  datatype Stage =
    | Encoding(chunk: nat)
    | Reserving(attempt: nat)
    | Writing(attempt: nat, written: nat)
    | Deciding(attempt: nat)
    | Renaming(attempt: nat)
    | Removing(attempt: nat, outcome: IoOutcome)
    | SyncingParent
    | Finished(outcome: IoOutcome)

  /** `chunks` is what the encoder goes through, looking at the word before every fourth; a
      diagnostics export has none, and may fail to serialise. */
  datatype Job = Job(payload: Bytes, chunks: nat, diagnostics: bool)

  datatype System = System(
    files: Directory,
    word: Word,
    stage: Stage,
    polled: bool,               // the user interface has taken the result and let go
    ghost cancels: seq<bool>,   // what every call of `cancel` answered
    ghost faults: seq<Stage>)   // where an operation of the job failed

  datatype Action = Cancel | Poll | JobRuns(ok: bool, amount: nat)

  ghost function Begun(files: Directory): System {
    System(files, Active, Encoding(0), false, [], [])
  }

  ghost function CancelStep(s: System): System {
    if s.polled then s.(cancels := s.cancels + [false])
    else
      var (word, accepted) := Exchanged(s.word, Cancelled);
      s.(word := word, cancels := s.cancels + [accepted])
  }

  /** An operation of the current stage fails. */
  ghost function Faulty(s: System): System {
    s.(faults := s.faults + [s.stage])
  }

  ghost function JobStep(job: Job, s: System, ok: bool, amount: nat): System {
    match s.stage
    case Encoding(chunk) =>
      if chunk < job.chunks then
        s.(stage := if chunk % 4 == 0 && s.word == Cancelled then Finished(WasCancelled) else Encoding(chunk + 1))
      else if job.diagnostics && !ok then Faulty(s).(stage := Finished(HasFailed))
      else s.(stage := Reserving(0))
    case Reserving(attempt) =>
      if attempt >= RESERVATION_ATTEMPTS then s.(stage := Finished(HasFailed))
      else if Temporary(attempt) in s.files then s.(stage := Reserving(attempt + 1))
      else if !ok then Faulty(s).(stage := Finished(HasFailed))
      else s.(files := s.files[Temporary(attempt) := []], stage := Writing(attempt, 0))
    case Writing(attempt, written) =>
      if !ok then Faulty(s).(stage := Removing(attempt, HasFailed))
      else if written >= |job.payload| then s.(stage := Deciding(attempt))
      else
        var more := Min(written + amount, |job.payload|);
        s.(files := s.files[Temporary(attempt) := job.payload[..more]], stage := Writing(attempt, more))
    case Deciding(attempt) =>
      var (word, allowed) := Exchanged(s.word, Committing);
      s.(word := word, stage := if allowed then Renaming(attempt) else Removing(attempt, WasCancelled))
    case Renaming(attempt) =>
      if ok && Temporary(attempt) in s.files then
        s.(files := s.files[Destination := s.files[Temporary(attempt)]] - {Temporary(attempt)}, stage := SyncingParent)
      else Faulty(s).(stage := Removing(attempt, HasFailed))
    case Removing(attempt, outcome) =>
      if ok then s.(files := s.files - {Temporary(attempt)}, stage := Finished(outcome))
      else Faulty(s).(stage := Finished(HasFailed))
    case SyncingParent =>
      if ok then s.(stage := Finished(Completed)) else Faulty(s).(stage := Finished(HasFailed))
    case Finished(_) => s
  }

  ghost function Step(job: Job, s: System, a: Action): System {
    match a
    case Cancel => CancelStep(s)
    case Poll => s.(polled := s.polled || s.stage.Finished?)
    case JobRuns(ok, amount) => JobStep(job, s, ok, amount)
  }

  ghost function Run(job: Job, files: Directory, actions: seq<Action>): System {
    if |actions| == 0 then Begun(files)
    else Step(job, Run(job, files, actions[..|actions| - 1]), actions[|actions| - 1])
  }

  // ---- What every step keeps ----------------------------------------------------------------------------

  /** Only the temporary of this attempt was added, with this content. */
  ghost predicate Added(before: Directory, files: Directory, attempt: nat, content: Bytes) {
    Temporary(attempt) !in before && files == before[Temporary(attempt) := content]
  }

  ghost predicate FilesFine(job: Job, before: Directory, s: System) {
    match s.stage
    case Encoding(_) => s.files == before
    case Reserving(_) => s.files == before
    case Writing(attempt, written) =>
      written <= |job.payload| && Added(before, s.files, attempt, job.payload[..written])
    case Deciding(attempt) => Added(before, s.files, attempt, job.payload)
    case Renaming(attempt) => Added(before, s.files, attempt, job.payload)
    case Removing(attempt, _) => OnlyAdded(before, s.files, attempt)
    case SyncingParent => s.files == before[Destination := job.payload]
    case Finished(Completed) => s.files == before[Destination := job.payload]
    case Finished(WasCancelled) => s.files == before
    case Finished(HasFailed) =>
      if s.faults == [SyncingParent] then s.word == Committing && s.files == before[Destination := job.payload]
      else s.files == before || (exists attempt :: OnlyAdded(before, s.files, attempt))
  }

  /** Nothing has failed up to the last sync; a job that gives up on a failed write or rename
      notes that first. */
  ghost predicate FaultsFine(s: System) {
    match s.stage
    case Removing(_, HasFailed) => |s.faults| == 1 && s.faults[0] != SyncingParent
    case Removing(_, _) => s.faults == []
    case Finished(HasFailed) => |s.faults| > 0 ==> s.faults == [SyncingParent] || s.faults[0] != SyncingParent
    case _ => s.faults == []
  }

  ghost predicate OnlyAdded(before: Directory, files: Directory, attempt: nat) {
    Temporary(attempt) in files && Added(before, files, attempt, files[Temporary(attempt)])
  }

  ghost predicate WordFine(s: System) {
    && (s.word == Cancelled <==> true in s.cancels)
    && (s.stage.Renaming? || s.stage.SyncingParent? || s.stage == Finished(Completed) ==> s.word == Committing)
    && (s.stage.Removing? ==> s.stage.outcome != Completed)
    && ((s.stage.Removing? || s.stage.Finished?) && s.stage.outcome == WasCancelled ==> s.word == Cancelled)
    && (s.polled ==> s.stage.Finished?)
    && (s.word == Committing ==> s.stage.Renaming? || s.stage.SyncingParent? || s.stage.Removing? || s.stage.Finished?)
  }

  ghost predicate Invariant(job: Job, before: Directory, s: System) {
    FilesFine(job, before, s) && WordFine(s) && FaultsFine(s)
  }

  lemma CancelKeeps(job: Job, before: Directory, s: System)
    requires Invariant(job, before, s)
    ensures Invariant(job, before, CancelStep(s))
  {
  }

  lemma JobKeepsWord(job: Job, s: System, ok: bool, amount: nat)
    requires WordFine(s)
    ensures WordFine(JobStep(job, s, ok, amount))
  {
    match s.stage {
      case Encoding(_) =>
      case Reserving(_) =>
      case Writing(_, _) =>
      case Deciding(_) =>
      case Renaming(_) =>
      case Removing(_, _) =>
      case SyncingParent =>
      case Finished(_) =>
    }
  }

  lemma JobKeepsFaults(job: Job, s: System, ok: bool, amount: nat)
    requires FaultsFine(s)
    ensures FaultsFine(JobStep(job, s, ok, amount))
  {
    match s.stage {
      case Encoding(_) =>
      case Reserving(_) =>
      case Writing(_, _) =>
      case Deciding(_) =>
      case Renaming(_) =>
      case Removing(_, _) =>
      case SyncingParent =>
      case Finished(_) =>
    }
  }

  lemma EarlyJobKeepsFiles(job: Job, before: Directory, s: System, ok: bool, amount: nat)
    requires FilesFine(job, before, s) && FaultsFine(s)
    requires s.stage.Encoding? || s.stage.Reserving? || s.stage.Writing? || s.stage.Finished?
    ensures FilesFine(job, before, JobStep(job, s, ok, amount))
  {
    match s.stage {
      case Encoding(_) =>
        assert Faulty(s).faults[0] != SyncingParent;
      case Reserving(_) =>
        assert Faulty(s).faults[0] != SyncingParent;
      case Writing(attempt, written) =>
        assert OnlyAdded(before, s.files, attempt);
        assert written >= |job.payload| ==> job.payload[..written] == job.payload;
      case Finished(_) =>
    }
  }

  lemma LateJobKeepsFiles(job: Job, before: Directory, s: System, ok: bool, amount: nat)
    requires FilesFine(job, before, s) && WordFine(s) && FaultsFine(s)
    requires s.stage.Deciding? || s.stage.Renaming? || s.stage.Removing? || s.stage.SyncingParent?
    ensures FilesFine(job, before, JobStep(job, s, ok, amount))
  {
    match s.stage {
      case Deciding(attempt) =>
        assert OnlyAdded(before, s.files, attempt);
      case Renaming(attempt) =>
        assert OnlyAdded(before, s.files, attempt);
        assert s.files[Destination := job.payload] - {Temporary(attempt)} == before[Destination := job.payload];
      case Removing(attempt, outcome) =>
        assert OnlyAdded(before, s.files, attempt);
        assert s.files - {Temporary(attempt)} == before;
        assert Faulty(s).faults[0] != SyncingParent;
        assert outcome == HasFailed ==> s.faults[0] != SyncingParent;
      case SyncingParent =>
        assert Faulty(s).faults == [SyncingParent];
    }
  }

  lemma JobKeepsFiles(job: Job, before: Directory, s: System, ok: bool, amount: nat)
    requires FilesFine(job, before, s) && WordFine(s) && FaultsFine(s)
    ensures FilesFine(job, before, JobStep(job, s, ok, amount))
  {
    hide FilesFine, WordFine, FaultsFine, JobStep;
    if s.stage.Deciding? || s.stage.Renaming? || s.stage.Removing? || s.stage.SyncingParent? {
      LateJobKeepsFiles(job, before, s, ok, amount);
    } else {
      EarlyJobKeepsFiles(job, before, s, ok, amount);
    }
  }

  lemma {:induction false} EveryRun(job: Job, before: Directory, actions: seq<Action>)
    ensures Invariant(job, before, Run(job, before, actions))
  {
    if |actions| > 0 {
      var s := Run(job, before, actions[..|actions| - 1]);
      EveryRun(job, before, actions[..|actions| - 1]);
      hide FilesFine, WordFine, FaultsFine, CancelStep, JobStep;
      match actions[|actions| - 1] {
        case Cancel => CancelKeeps(job, before, s);
        case Poll => PollKeeps(job, before, s);
        case JobRuns(ok, amount) =>
          JobKeepsWord(job, s, ok, amount);
          JobKeepsFaults(job, s, ok, amount);
          JobKeepsFiles(job, before, s, ok, amount);
      }
    }
  }

  lemma PollKeeps(job: Job, before: Directory, s: System)
    requires Invariant(job, before, s)
    ensures Invariant(job, before, Step(job, s, Poll))
  {
  }

  // ---- Every run ------------------------------------------------------------------------------------------

  /** At every moment, of a crash too, the destination is the old file or the whole new one. */
  lemma DestinationIsOldOrNew(job: Job, before: Directory, actions: seq<Action>)
    ensures var s := Run(job, before, actions);
            || SameAt(before, s.files, Destination)
            || (Destination in s.files && s.files[Destination] == job.payload && s.word == Committing)
  {
    EveryRun(job, before, actions);
    hide Run;
  }

  /** A cancel that was accepted keeps the destination untouched for good. */
  lemma AcceptedCancelPreventsReplacement(job: Job, before: Directory, actions: seq<Action>)
    requires true in Run(job, before, actions).cancels
    ensures var s := Run(job, before, actions);
            SameAt(before, s.files, Destination) && s.stage != Finished(Completed) && !s.stage.Renaming?
  {
    EveryRun(job, before, actions);
    hide Run;
  }

  /** Until the job has finished or begun to commit, the first cancel is accepted, and no later
      one is. */
  lemma CancelIsAcceptedOnce(job: Job, before: Directory, actions: seq<Action>)
    requires !Run(job, before, actions).stage.Finished?
    ensures var s := Run(job, before, actions); var t := CancelStep(s);
            && t.cancels == s.cancels + [s.word == Active]
            && t.word == (if s.word == Active then Cancelled else s.word)
            && (s.word == Active <==> true !in s.cancels && !s.stage.Renaming? && !s.stage.SyncingParent? && s.word != Committing)
  {
    EveryRun(job, before, actions);
    hide Run, FilesFine, FaultsFine;
  }

  /** A completed job changed exactly the destination, and no cancel was ever accepted. */
  lemma CompletedMeansReplaced(job: Job, before: Directory, actions: seq<Action>)
    requires Run(job, before, actions).stage == Finished(Completed)
    ensures var s := Run(job, before, actions);
            s.files == before[Destination := job.payload] && true !in s.cancels
  {
    EveryRun(job, before, actions);
    hide Run;
  }

  /** A job reported as cancelled left the directory as it was, and a cancel was accepted. */
  lemma CancelledMeansUntouched(job: Job, before: Directory, actions: seq<Action>)
    requires Run(job, before, actions).stage == Finished(WasCancelled)
    ensures var s := Run(job, before, actions); s.files == before && true in s.cancels
  {
    EveryRun(job, before, actions);
    hide Run;
  }

  /** In every interleaving a job reported as failed has replaced the destination exactly if the
      only operation of its that failed is the last sync; otherwise the destination is the
      old one, and every other file too, but for one temporary that was free. */
  lemma FailedMeansReplacedIfOnlyUnsynced(job: Job, before: Directory, actions: seq<Action>)
    requires Run(job, before, actions).stage == Finished(HasFailed)
    ensures var s := Run(job, before, actions);
            if s.faults == [SyncingParent] then s.files == before[Destination := job.payload] && true !in s.cancels
            else SameAt(before, s.files, Destination)
                 && (s.files == before || exists attempt :: OnlyAdded(before, s.files, attempt))
  {
    EveryRun(job, before, actions);
    hide Run, FaultsFine;
  }

  // ---- A job left alone --------------------------------------------------------------------------------------

  /** What the stage's next file operation is told, given which operations fail. */
  function Told(job: Job, stage: Stage, faults: Faults): (bool, nat) {
    match stage
    case Reserving(_) => (faults.creates, 0)
    case Writing(_, written) =>
      if faults.writes then (true, |job.payload|)
      else (written < Min(faults.writtenBeforeFault, |job.payload|), faults.writtenBeforeFault)
    case Renaming(_) => (faults.renames, 0)
    case Removing(_, _) => (faults.removes, 0)
    case SyncingParent => (faults.syncsParent, 0)
    case _ => (true, 0)
  }

  ghost function Alone(job: Job, s: System, faults: Faults, steps: nat): System
    decreases steps
  {
    if steps == 0 then s
    else
      var (ok, amount) := Told(job, s.stage, faults);
      Alone(job, JobStep(job, s, ok, amount), faults, steps - 1)
  }

  function OutcomeOf(outcome: Outcome): IoOutcome {
    match outcome
    case Committed => Completed
    case Declined => WasCancelled
    case Failed => HasFailed
  }

  ghost predicate EndsAs(s: System, result: (Outcome, Directory)) {
    s.stage == Finished(OutcomeOf(result.0)) && s.files == result.1
  }

  lemma {:induction false} FinishedStays(job: Job, s: System, faults: Faults, steps: nat)
    requires s.stage.Finished?
    ensures Alone(job, s, faults, steps) == s
  {
    if steps > 0 {
      FinishedStays(job, s, faults, steps - 1);
    }
  }

  ghost function OneStep(job: Job, s: System, faults: Faults): System {
    var (ok, amount) := Told(job, s.stage, faults);
    JobStep(job, s, ok, amount)
  }

  lemma AloneSteps(job: Job, s: System, faults: Faults, steps: nat)
    requires steps > 0
    ensures Alone(job, s, faults, steps) == Alone(job, OneStep(job, s, faults), faults, steps - 1)
  {
  }

  lemma FromRemoving(job: Job, before: Directory, s: System, faults: Faults, steps: nat)
    requires s.stage.Removing? && s.stage.outcome != Completed && steps >= 1
    requires OnlyAdded(before, s.files, s.stage.attempt)
    ensures var t := Alone(job, s, faults, steps); var left := s.files[Temporary(s.stage.attempt)];
            && t.files == Abandoned(before, s.stage.attempt, left, faults.removes)
            && t.stage == Finished(if faults.removes then s.stage.outcome else HasFailed)
  {
    AloneSteps(job, s, faults, steps);
    FinishedStays(job, OneStep(job, s, faults), faults, steps - 1);
    assert s.files - {Temporary(s.stage.attempt)} == before;
  }

  lemma FromDeciding(job: Job, before: Directory, s: System, faults: Faults, steps: nat)
    requires s.stage.Deciding? && s.word != Committing && Added(before, s.files, s.stage.attempt, job.payload) && steps >= 4
    requires faults.creates && faults.writes
    ensures EndsAs(Alone(job, s, faults, steps),
                   AttemptFrom(before, s.stage.attempt, job.payload, s.word == Active, faults))
  {
    var attempt := s.stage.attempt;
    assert OnlyAdded(before, s.files, attempt);
    var decided := OneStep(job, s, faults);
    AloneSteps(job, s, faults, steps);
    if s.word != Active {
      FromRemoving(job, before, decided, faults, steps - 1);
    } else {
      var renamed := OneStep(job, decided, faults);
      AloneSteps(job, decided, faults, steps - 1);
      if !faults.renames {
        FromRemoving(job, before, renamed, faults, steps - 2);
      } else {
        assert s.files[Destination := job.payload] - {Temporary(attempt)} == before[Destination := job.payload];
        AloneSteps(job, renamed, faults, steps - 2);
        FinishedStays(job, OneStep(job, renamed, faults), faults, steps - 3);
      }
    }
    hide Alone;
  }

  /** How much of the payload reaches the temporary file. */
  function Reached(job: Job, faults: Faults): nat {
    if faults.writes then |job.payload| else Min(faults.writtenBeforeFault, |job.payload|)
  }

  lemma FromWritten(job: Job, before: Directory, s: System, faults: Faults, steps: nat)
    requires s.stage.Writing? && s.stage.written == Reached(job, faults) && s.word != Committing && steps >= 5
    requires Added(before, s.files, s.stage.attempt, job.payload[..Reached(job, faults)]) && faults.creates
    ensures EndsAs(Alone(job, s, faults, steps),
                   AttemptFrom(before, s.stage.attempt, job.payload, s.word == Active, faults))
  {
    AloneSteps(job, s, faults, steps);
    var next := OneStep(job, s, faults);
    hide Alone;
    if faults.writes {
      assert job.payload[..|job.payload|] == job.payload;
      hide EndsAs, AttemptFrom;
      FromDeciding(job, before, next, faults, steps - 1);
    } else {
      assert OnlyAdded(before, next.files, s.stage.attempt);
      FromRemoving(job, before, next, faults, steps - 1);
    }
  }

  lemma WriteReaches(job: Job, before: Directory, s: System, faults: Faults)
    requires s.stage.Writing? && s.stage.written == 0 && Reached(job, faults) > 0
    requires Added(before, s.files, s.stage.attempt, [])
    ensures var t := OneStep(job, s, faults);
            && t.stage == Writing(s.stage.attempt, Reached(job, faults)) && t.word == s.word
            && Added(before, t.files, s.stage.attempt, job.payload[..Reached(job, faults)])
  {
  }

  lemma FromWriting(job: Job, before: Directory, s: System, faults: Faults, steps: nat)
    requires s.stage.Writing? && s.stage.written == 0 && s.word != Committing && steps >= 6
    requires Added(before, s.files, s.stage.attempt, []) && faults.creates
    ensures EndsAs(Alone(job, s, faults, steps),
                   AttemptFrom(before, s.stage.attempt, job.payload, s.word == Active, faults))
  {
    hide Alone, EndsAs, AttemptFrom, OneStep, Added;
    if Reached(job, faults) > 0 {
      AloneSteps(job, s, faults, steps);
      WriteReaches(job, before, s, faults);
      FromWritten(job, before, OneStep(job, s, faults), faults, steps - 1);
    } else {
      assert job.payload[..0] == [];
      FromWritten(job, before, s, faults, steps);
    }
  }

  /** From its first reservation a job left alone, its cancel accepted or not, ends as
      `FileSystem.ReplaceAtomicallyIf` does: the same outcome and the same directory, for
      every way the file operations may fail. */
  lemma {:induction false} JobAloneIsReplacement(job: Job, s: System, faults: Faults, attempt: nat, steps: nat)
    requires s.stage == Reserving(attempt) && s.word != Committing
    requires attempt <= RESERVATION_ATTEMPTS && FreeAttempt(s.files, 0) == FreeAttempt(s.files, attempt)
    requires steps >= RESERVATION_ATTEMPTS - attempt + 7
    ensures EndsAs(Alone(job, s, faults, steps), Replacement(s.files, job.payload, s.word == Active, faults))
    decreases RESERVATION_ATTEMPTS - attempt
  {
    AloneSteps(job, s, faults, steps);
    var next := OneStep(job, s, faults);
    hide Alone;
    if attempt == RESERVATION_ATTEMPTS || (Temporary(attempt) !in s.files && !faults.creates) {
      FinishedStays(job, next, faults, steps - 1);
    } else if Temporary(attempt) in s.files {
      JobAloneIsReplacement(job, next, faults, attempt + 1, steps - 1);
    } else {
      FromWriting(job, s.files, next, faults, steps - 1);
    }
  }

  // ---- A frame export ------------------------------------------------------------------------------------------

  /** Encoding a frame goes on to the file whatever happens but a cancel. */
  lemma FrameEncodingCannotFail(frame: Frame, s: System, ok: bool, amount: nat)
    requires s.stage.Encoding?
    ensures var t := JobStep(FrameExport(frame), s, ok, amount);
            && t.files == s.files && t.faults == s.faults
            && (t.stage == Encoding(s.stage.chunk + 1) || t.stage == Reserving(0)
                || (t.stage == Finished(WasCancelled) && s.word == Cancelled))
  {
  }

  function FrameExport(frame: Frame): Job {
    Job(Ppm.PpmFile(frame), ChunkCount(|frame.data|), false)
  }

  /** Whatever ran beside it, an export that completed leaves a file that a reader of the
      format reads as the frame. */
  lemma CompletedExportReadsBack(frame: Frame, before: Directory, actions: seq<Action>)
    requires frame.Valid() && Run(FrameExport(frame), before, actions).stage == Finished(Completed)
    ensures |frame.data| % 4 == 0
    ensures var files := Run(FrameExport(frame), before, actions).files;
            && Destination in files
            && Ppm.ReadPpm(files[Destination]) ==
               Some(Ppm.Picture(frame.width, frame.height, Ppm.Rgb(frame.data, |frame.data| / 4)))
  {
    CompletedMeansReplaced(FrameExport(frame), before, actions);
    Ppm.ExportReadsBack(frame);
    hide Run, Ppm.ReadPpm, Ppm.PpmFile, Ppm.Rgb, FrameBytes;
  }

  // ---- Encoding -----------------------------------------------------------------------------------------------

  /** Pieces of sixteen kilobytes, the last one shorter. */
  function ChunkCount(bytes: nat): nat {
    (bytes + Ppm.CHUNK_BYTES - 1) / Ppm.CHUNK_BYTES
  }

  /** A frame export encoding, with one cancel just before chunk `cancelled`. */
  ghost function Encoded(job: Job, s: System, cancelled: nat): System
    decreases if s.stage.Encoding? then job.chunks - s.stage.chunk else 0
  {
    if s.stage.Encoding? && s.stage.chunk < job.chunks then
      var t := if s.stage.chunk == cancelled then CancelStep(s) else s;
      Encoded(job, JobStep(job, t, true, 0), cancelled)
    else s
  }

  /** The look before chunk 4k comes after the cancel. */
  predicate LooksAfter(cancelled: nat, k: nat) {
    4 * k >= cancelled
  }

  lemma {:induction false} EncodedFrom(job: Job, s: System, cancelled: nat)
    requires s.stage.Encoding? && s.stage.chunk <= job.chunks && !s.polled
    requires s.word == (if cancelled < s.stage.chunk then Cancelled else Active)
    ensures Encoded(job, s, cancelled).files == s.files
    ensures Encoded(job, s, cancelled).stage ==
            if exists k: nat :: s.stage.chunk <= 4 * k < job.chunks && LooksAfter(cancelled, k)
            then Finished(WasCancelled) else Encoding(job.chunks)
    decreases job.chunks - s.stage.chunk
  {
    var chunk := s.stage.chunk;
    if chunk < job.chunks {
      var next := JobStep(job, if chunk == cancelled then CancelStep(s) else s, true, 0);
      if chunk % 4 == 0 && cancelled <= chunk {
        assert LooksAfter(cancelled, chunk / 4);
      } else {
        EncodedFrom(job, next, cancelled);
        assert chunk % 4 == 0 ==> !LooksAfter(cancelled, chunk / 4);
      }
    }
  }

  lemma LooksAreEveryFourth(bytes: nat, k: nat)
    ensures k < Ppm.Looks(bytes) <==> 4 * k < ChunkCount(bytes)
  {
  }

  /** The job's encoding stage ends as `EncodePpm` does with the looks it takes: cancelled
      exactly if one of them comes after the cancel. */
  lemma EncodingLooksAsTheEncoder(job: Job, files: Directory, bytes: nat, cancelled: nat)
    requires job.chunks == ChunkCount(bytes)
    ensures var s := Encoded(job, Begun(files), cancelled);
            && s.files == files
            && (s.stage == Finished(WasCancelled) || s.stage == Encoding(job.chunks))
            && (s.stage == Encoding(job.chunks) <==>
                  forall k: nat :: k < Ppm.Looks(bytes) ==> !LooksAfter(cancelled, k))
  {
    EncodedFrom(job, Begun(files), cancelled);
    forall k: nat ensures k < Ppm.Looks(bytes) <==> 4 * k < ChunkCount(bytes) {
      LooksAreEveryFourth(bytes, k);
    }
    hide Encoded, ChunkCount, Ppm.Looks;
    if exists k: nat :: 4 * k < job.chunks && LooksAfter(cancelled, k) {
      var k: nat :| 4 * k < job.chunks && LooksAfter(cancelled, k);
      assert 0 <= 4 * k < job.chunks && LooksAfter(cancelled, k);
    }
  }
}
