/** Atomic replacement of a file (`src/atomic_file.rs`). */
module AtomicFiles {
  import opened Numerics

  const RESERVATION_ATTEMPTS: nat := 32

  type Bytes = seq<Byte>

  /** Names in the destination's directory; temporaries carry the process id, fixed here. */
  datatype Name = Destination | Temporary(attempt: nat) | Other(name: nat)

  type Directory = map<Name, Bytes>

  /** The first attempt whose temporary name is free; the attempts' count if none is. */
  function FreeAttempt(files: Directory, from: nat): (attempt: nat)
    requires from <= RESERVATION_ATTEMPTS
    ensures from <= attempt <= RESERVATION_ATTEMPTS
    ensures forall k :: from <= k < attempt ==> Temporary(k) in files
    ensures attempt < RESERVATION_ATTEMPTS ==> Temporary(attempt) !in files
    decreases RESERVATION_ATTEMPTS - from
  {
    if from == RESERVATION_ATTEMPTS || Temporary(from) !in files then from else FreeAttempt(files, from + 1)
  }

  /** Reservation fails exactly when all thirty-two names are taken. */
  lemma AllNamesTaken(files: Directory)
    ensures FreeAttempt(files, 0) == RESERVATION_ATTEMPTS <==> forall k :: 0 <= k < 32 ==> Temporary(k) in files
  {
  }

  /** Which file operations succeed, and how much of a failed write reached the file. */
  datatype Faults = Faults(
    creates: bool, writes: bool, writtenBeforeFault: nat, removes: bool, renames: bool, syncsParent: bool)

  /** The rename happened. */
  predicate Replaces(mayCommit: bool, faults: Faults) {
    mayCommit && faults.creates && faults.writes && faults.renames
  }

  datatype Outcome = Committed | Declined | Failed

  /** How a replacement ends and the directory it leaves. */
  function Replacement(files: Directory, payload: Bytes, mayCommit: bool, faults: Faults): (Outcome, Directory) {
    var attempt := FreeAttempt(files, 0);
    if attempt == RESERVATION_ATTEMPTS then (Failed, files)
    else AttemptFrom(files, attempt, payload, mayCommit, faults)
  }

  function Abandoned(files: Directory, attempt: nat, left: Bytes, removes: bool): Directory {
    if removes then files else files[Temporary(attempt) := left]
  }

  function AttemptFrom(files: Directory, attempt: nat, payload: Bytes, mayCommit: bool, faults: Faults): (Outcome, Directory) {
    var written := Min(faults.writtenBeforeFault, |payload|);
    if !faults.creates then (Failed, files)
    else if !faults.writes then (Failed, Abandoned(files, attempt, payload[..written], faults.removes))
    else if !mayCommit then
      (if faults.removes then Declined else Failed, Abandoned(files, attempt, payload, faults.removes))
    else if !faults.renames then (Failed, Abandoned(files, attempt, payload, faults.removes))
    else (if faults.syncsParent then Committed else Failed, files[Destination := payload])
  }

  class FileSystem {
    var files: Directory

    constructor (present: Directory)
      ensures files == present
    {
      files := present;
    }

    method Remove(name: Name, succeeds: bool)
      modifies this
      ensures files == if succeeds then old(files) - {name} else old(files)
    {
      if succeeds {
        files := files - {name};
      }
    }

    /** One attempt under a free temporary name: write and sync it, take the commit decision,
        rename it over the destination. */
    method Attempt(attempt: nat, payload: Bytes, mayCommit: bool, faults: Faults) returns (outcome: Outcome)
      requires Temporary(attempt) !in files
      modifies this
      ensures (outcome, files) == AttemptFrom(old(files), attempt, payload, mayCommit, faults)
      ensures outcome.Committed? <==>
                mayCommit && faults.creates && faults.writes && faults.renames && faults.syncsParent
      ensures outcome.Committed? ==> files == old(files)[Destination := payload]
      ensures outcome.Declined? ==> !mayCommit && files == old(files)
      ensures LeftAtMostOneTemporary(old(files), files, attempt, Replaces(mayCommit, faults), payload)
    {
      if !faults.creates {
        return Failed;
      }
      var temporary := Temporary(attempt);
      if !faults.writes {
        files := files[temporary := payload[..Min(faults.writtenBeforeFault, |payload|)]];
        assert files - {temporary} == old(files);
        Remove(temporary, faults.removes);
        return Failed;
      }
      files := files[temporary := payload];
      assert files - {temporary} == old(files);
      if !mayCommit {
        Remove(temporary, faults.removes);
        outcome := if faults.removes then Declined else Failed;
      } else if !faults.renames {
        Remove(temporary, faults.removes);
        outcome := Failed;
      } else {
        files := files[Destination := files[temporary]] - {temporary};
        assert files == old(files)[Destination := payload];
        outcome := if faults.syncsParent then Committed else Failed;
      }
    }

    /** Committed: exactly the destination changed. Declined: nothing changed. Failed: the
        destination is the whole new file exactly if only the last sync failed, and the whole
        old one otherwise; at most one temporary, free before, is left. */
    method ReplaceAtomicallyIf(payload: Bytes, mayCommit: bool, faults: Faults) returns (outcome: Outcome)
      modifies this
      ensures (outcome, files) == Replacement(old(files), payload, mayCommit, faults)
      ensures outcome.Committed? ==> files == old(files)[Destination := payload]
      ensures outcome.Declined? ==> !mayCommit && files == old(files)
      ensures LeftAtMostOneTemporary(
                old(files), files, FreeAttempt(old(files), 0),
                FreeAttempt(old(files), 0) < RESERVATION_ATTEMPTS && Replaces(mayCommit, faults), payload)
      ensures outcome.Committed? <==>
                && FreeAttempt(old(files), 0) < RESERVATION_ATTEMPTS && mayCommit
                && faults.creates && faults.writes && faults.renames && faults.syncsParent
    {
      hide LeftAtMostOneTemporary, AttemptFrom;
      var attempt: nat := 0;
      while attempt < RESERVATION_ATTEMPTS
        invariant attempt <= RESERVATION_ATTEMPTS
        invariant files == old(files) && FreeAttempt(files, 0) == FreeAttempt(files, attempt)
      {
        if Temporary(attempt) !in files {
          outcome := Attempt(attempt, payload, mayCommit, faults);
          return;
        }
        attempt := attempt + 1;
      }
      NothingLeft(files, payload);
      return Failed;
    }
  }

  /** With everything but the last sync succeeding, the whole new file is in place and the
      replacement is still reported as failed. */
  lemma UnsyncedReplacementFails(payload: Bytes, before: Bytes)
    ensures Replacement(map[Destination := before], payload, true, Faults(true, true, 0, true, true, false)) ==
            (Failed, map[Destination := payload])
  {
    assert map[Destination := before][Destination := payload] == map[Destination := payload];
  }

  lemma NothingLeft(files: Directory, payload: Bytes)
    ensures LeftAtMostOneTemporary(files, files, RESERVATION_ATTEMPTS, false, payload)
  {
  }

  /** `later` differs from `earlier` at most in one temporary that was free, and in the
      destination exactly if it was replaced, and then by the whole payload. */
  ghost predicate LeftAtMostOneTemporary(
    earlier: Directory, later: Directory, attempt: nat, replaced: bool, payload: Bytes)
  {
    && (forall name :: name != Destination && name != Temporary(attempt) ==> SameAt(earlier, later, name))
    && (SameAt(earlier, later, Temporary(attempt)) || Temporary(attempt) !in earlier)
    && (if replaced then Destination in later && later[Destination] == payload
        else SameAt(earlier, later, Destination))
  }

  ghost predicate SameAt(earlier: Directory, later: Directory, name: Name) {
    if name in earlier then name in later && later[name] == earlier[name] else name !in later
  }
}
