/** What a capture worker does get done (`src/capture.rs`): a session that opens and delivers is
    published, three failed reads in a row close it, a failed open is retried, a panic ends it. */
module CaptureProgress {
  import opened Numerics
  import opened Wrappers
  import opened Captures

  /** A step of a worker whose camera nobody else holds. */
  ghost function Next(w: Worker, outcome: Outcome): Worker {
    WorkerStep(if w.lease then {w.id} else {}, w, outcome).1
  }

  /** A new worker whose camera is free takes the lease, opens the device and publishes format
      and phase before its first read. */
  lemma FreshWorkerOpens(id: CameraId)
    ensures var w := NewWorker(id); var ok := Success(false);
            var t := Next(Next(Next(Next(Next(Next(w, ok), ok), ok), ok), ok), ok);
            t == w.(at := Reading(InRead), lease := true, device := true, phase := AwaitingFirstFrame,
                    negotiated := true, sessions := 1)
  {
    var (w, ok) := (NewWorker(id), Success(false));
    var leased := w.(lease := true, at := Session(OuterCheck));
    assert Next(w, ok) == leased;
    var opening := leased.(phase := Opening, at := Session(InOpen));
    assert Next(leased, ok) == opening;
    var open := opening.(device := true, sessions := 1, at := Session(PublishOpened));
    assert Next(opening, ok) == open;
    var published := open.(phase := AwaitingFirstFrame, at := Session(PublishFormat));
    assert Next(open, ok) == published;
    var checking := published.(negotiated := true, at := Reading(InnerCheck));
    assert Next(published, ok) == checking;
  }

  /** A read that delivers a frame publishes the streaming phase and the frame, clears the
      error, and ends the count of failures and the backoff. */
  lemma DeliveredFrameIsPublished(w: Worker, outcome: Outcome)
    requires w.at == Reading(InRead) && !w.stop
    ensures var t := Next(Next(Next(Next(w, Success(true)), outcome), outcome), outcome);
            t == w.(phase := Streaming, latest := true, lastError := false, failureStreak := 0, delay := 100, delivered := true)
  {
    var heard := w.(failureStreak := 0, delay := 100, phase := Streaming, delivered := true, at := Reading(StoreFrame(true)));
    assert Next(w, Success(true)) == heard;
    var stored := heard.(latest := true, at := Reading(ClearError));
    assert Next(heard, outcome) == stored;
    var cleared := stored.(lastError := false, at := Reading(InnerCheck));
    assert Next(stored, outcome) == cleared;
  }

  /** A read that succeeds without a frame clears the error too, but neither phase nor backoff. */
  lemma EmptyReadClearsTheError(w: Worker, outcome: Outcome)
    requires w.at == Reading(InRead) && !w.stop
    ensures var t := Next(Next(Next(Next(w, Success(false)), outcome), outcome), outcome);
            t == w.(latest := false, lastError := false, failureStreak := 0)
  {
    var empty := w.(failureStreak := 0, at := Reading(StoreFrame(false)));
    assert Next(w, Success(false)) == empty;
    var stored := empty.(latest := false, at := Reading(ClearError));
    assert Next(empty, outcome) == stored;
    assert Next(stored, outcome) == stored.(lastError := false, at := Reading(InnerCheck));
  }

  /** A failed read publishes its error. The first two in a row only pause; the third, and a
      panic at once, withdraw the format and wait to reopen. */
  lemma ThirdFailureClosesTheSession(w: Worker, outcome: Outcome)
    requires w.at == Reading(InRead) && !w.stop && w.failureStreak < 3
    ensures w.failureStreak < 2 ==>
              Next(Next(Next(w, Failure), outcome), outcome) == w.(lastError := true, failureStreak := w.failureStreak + 1)
    ensures w.failureStreak == 2 ==>
              Next(Next(w, Failure), outcome) ==
              w.(lastError := true, failureStreak := 3, negotiated := false, at := Session(Backoff))
    ensures Next(Next(w, Panicked), outcome) == w.(lastError := true, negotiated := false, at := Session(Backoff))
  {
  }

  /** From the wait after a session the device is closed and opened again; the wait doubles. */
  lemma WaitingWorkerReopens(w: Worker, outcome: Outcome)
    requires w.at == Session(Backoff) && !w.stop && w.lease
    ensures var t := Next(Next(Next(w, outcome), outcome), outcome);
            t == w.(device := false, delay := Min(2 * w.delay, 5000), phase := Opening, at := Session(InOpen))
  {
    var closing := w.(delay := Min(2 * w.delay, 5000), at := Session(CloseDevice));
    assert Next(w, outcome) == closing;
    assert Next(closing, outcome) == closing.(device := false, at := Session(OuterCheck));
  }

  /** A failed open is reported and waited out; one that panics gives the lease back. */
  lemma FailedOpenIsRetried(w: Worker, outcome: Outcome)
    requires w.at == Session(InOpen) && w.lease
    ensures Next(Next(w, Failure), outcome) == w.(lastError := true, negotiated := false, at := Session(Backoff))
    ensures Next(Next(Next(w, Panicked), outcome), outcome) == w.(lastError := true, device := false, lease := false, at := Gone)
  {
  }

  /** A stopped worker leaves from its next check: from the read loop through the withdrawn
      format, from a pause or a wait at once. */
  lemma StopIsSeen(w: Worker, outcome: Outcome)
    requires w.stop
    ensures w.at == Reading(InnerCheck) ==>
              Next(Next(w, outcome), outcome) == w.(negotiated := false, at := Session(Backoff))
    ensures w.at == Reading(RetryPause) || w.at == Session(Backoff) || w.at == Session(OuterCheck) ==>
              Next(Next(w, outcome), outcome) == w.(device := false, at := LeaveLease)
    ensures w.at == LeaveLease ==> Next(w, outcome) == w.(lease := false, at := Gone)
    ensures w.at == WaitLease ==> Next(w, outcome) == w.(at := Gone)
  {
  }

  /** The watchdogs speak exactly past their deadlines: about the open before the first frame,
      about frames after it where a format and no error is published. */
  lemma WatchdogsSpeakExactlyWhenLate(phase: Phase, elapsed: nat, openTimeout: nat, fps: U32, published: bool, failed: bool)
    ensures var spoken := StallAge(phase, elapsed, openTimeout, if published then Some(fps) else None, failed);
            && (spoken.Some? ==> spoken.value == elapsed)
            && (phase != Streaming ==> (spoken.Some? <==> elapsed >= openTimeout))
            && (phase == Streaming ==> (spoken.Some? <==> published && !failed && elapsed >= FrameGapTimeout(fps)))
  {
    hide FrameGapTimeout;
  }
}
