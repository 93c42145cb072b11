/**
  The engine that runs the protocol step by step. Its `power` is the number of durable steps it
  may still take; when it is used up the process is cut where it stands. Each operation is tied
  to its walk: it reaches the walk's end, or exactly the state the walk is in when power runs out.
*/
module DeploymentEngines {
  import opened Prelude
  import opened Journals
  import opened Trees
  import opened Walks
  import opened Deployment
  import opened DeploymentRuns
  import opened DeploymentTheorems

  /** How a call ends: with the walk's outcome, or cut. */
  datatype Ending = Finished(outcome: Outcome) | Stopped

  /** A call ends with its walk's outcome after all of its steps, or was cut among them. */
  predicate EndsAs(t: Target, power: nat, walk: Walk, t': Target, left: nat, ending: Ending) {
    && Took(t, power, walk.steps, t', left, ending != Stopped)
    && (ending != Stopped ==> ending == Finished(walk.outcome))
  }

  /** No deployment is under way, and the job says whether there is something to replace. */
  predicate AtRest(t: Target, job: Job) {
    t.journal.None? && t.staging.None? && t.backup.None? && job.replacedExisting == t.destination.Some?
  }

  /**
    A deployment that began at rest and was not cut is committed exactly if the snapshot is what is
    staged, recorded and found in place. Then destination and row hold it and nothing is left over;
    otherwise all but a staging remnant is as before.
  */
  predicate Completes(t: Target, job: Job, c: Circumstances, t': Target, ending: Ending) {
    && (ending == Finished(Committed)
        <==> c.staged == Some(job.snapshot) && c.preparedFails.None? && c.active == Some(job.snapshot))
    && (ending == Finished(Committed) ==> t' == Target(None, Some(job.snapshot), None, None, Some(job.snapshot)))
    && (ending != Finished(Committed) ==> t' == t.(staging := t'.staging))
    && (ending != Finished(Committed) && c.cleanUpWorks ==> t' == t)
  }

  lemma InstallRunsThrough(t: Target, power: nat, job: Job, c: Circumstances, t': Target, left: nat, ending: Ending)
    requires AtRest(t, job) && EndsAs(t, power, Install(t, job, c), t', left, ending)
    ensures power >= MANY_STEPS ==> ending != Stopped
    ensures ending != Stopped ==> Completes(t, job, c, t', ending)
  {
    hide Install;
    var tx := Tx(t.destination, t.row, job.snapshot, true, job.wide);
    assert Start(tx) == t && tx.Job() == job;
    InstallCompletes(tx, c);
  }

  class DeploymentEngine {
    var target: Target
    var power: nat

    constructor (target: Target, power: nat)
      ensures this.target == target && this.power == power
    {
      this.target := target;
      this.power := power;
    }

    /** One durable step, if there is power left for it. */
    method Step(next: Target) returns (ok: bool)
      modifies this
      ensures Took(old(target), old(power), [next], target, power, ok)
    {
      ok := power > 0;
      if ok {
        target := next;
        power := power - 1;
      }
    }

    /** `persist_journal`: append one record and sync. */
    method PersistJournal(phase: Phase, wide: bool) returns (ok: bool)
      modifies this
      ensures Took(old(target), old(power), AppendRecord(old(target), phase, wide), target, power, ok)
    {
      ok := PersistPart(phase, |AppendSteps(target.journal, phase, wide)|, wide);
      assert AppendRecord(old(target), phase, wide)[..|AppendSteps(old(target).journal, phase, wide)|]
          == AppendRecord(old(target), phase, wide);
    }

    /** An append of which only the first `count` sub-steps take effect. */
    method PersistPart(phase: Phase, count: nat, wide: bool) returns (ok: bool)
      requires count <= |AppendSteps(target.journal, phase, wide)|
      modifies this
      ensures Took(old(target), old(power), AppendRecord(old(target), phase, wide)[..count], target, power, ok)
    {
      hide Took, AppendSteps, Append;
      ghost var t, p, steps := target, power, AppendRecord(target, phase, wide)[..count];
      var files := AppendSteps(target.journal, phase, wide);
      var i := 0;
      ok := true;
      TookNothing(t, p, steps);
      while ok && i < count
        invariant 0 <= i <= count == |steps|
        invariant Took(t, p, steps[..i], target, power, ok)
        invariant ok ==> target == t.(journal := target.journal)
        decreases count - i
      {
        ghost var t1, p1 := target, power;
        ok := Step(target.(journal := Some(files[i])));
        TookOneMore(t, p, steps, i, t1, p1, target, power, ok);
        TookToTheEnd(t1, p1, steps[i], target, power, ok);
        i := i + 1;
      }
      TookInAll(t, p, steps, i, target, power, ok);
    }

    method RemoveJournalFile() returns (ok: bool)
      modifies this
      ensures Took(old(target), old(power), RemoveJournal(old(target)), target, power, ok)
    {
      ok := Step(target.(journal := None));
    }

    /** Two durable steps in a row; `remove_any` is one use: half removed, then gone. */
    method TwoSteps(first: Target, second: Target) returns (ok: bool)
      modifies this
      ensures Took(old(target), old(power), [first, second], target, power, ok)
    {
      ok := Step(first);
      ghost var t1, p1, ok1 := target, power, ok;
      if ok {
        ok := Step(second);
      }
      TookBoth(old(target), old(power), [first], t1, p1, ok1, [second], target, power, ok);
      assert [first] + [second] == [first, second];
    }

    method RemoveDestinationTree(debris: Tree) returns (ok: bool)
      modifies this
      ensures Took(old(target), old(power), RemoveDestination(old(target), debris), target, power, ok)
    {
      ok := true;
      if target.destination.Some? {
        ok := TwoSteps(target.(destination := Some(debris)), target.(destination := None));
      }
    }

    method RemoveStagingTree(debris: Tree) returns (ok: bool)
      modifies this
      ensures Took(old(target), old(power), RemoveStaging(old(target), debris), target, power, ok)
    {
      ok := true;
      if target.staging.Some? {
        ok := TwoSteps(target.(staging := Some(debris)), target.(staging := None));
      }
    }

    method RemoveBackupTree(debris: Tree) returns (ok: bool)
      modifies this
      ensures Took(old(target), old(power), RemoveBackup(old(target), debris), target, power, ok)
    {
      ok := true;
      if target.backup.Some? {
        ok := TwoSteps(target.(backup := Some(debris)), target.(backup := None));
      }
    }

    /** `restore_backup`: refuse over an existing destination or without a backup. */
    method Restore() returns (possible: bool, ok: bool)
      modifies this
      ensures possible == (old(target).destination.None? && old(target).backup.Some?)
      ensures !possible ==> target == old(target) && power == old(power)
      ensures possible ==>
                Took(old(target), old(power), RestoreBackup(old(target)), target, power, ok)
    {
      possible, ok := target.destination.None? && target.backup.Some?, false;
      if possible {
        ok := Step(target.(destination := target.backup, backup := None));
      }
    }

    /** Restore the backup, then drop the journal: the common end of every roll-back. */
    method RestoreAndClose() returns (ok: bool)
      requires target.destination.None? && target.backup.Some?
      modifies this
      ensures Took(old(target), old(power),
                   ThenRemoveJournal(old(target), RestoreBackup(old(target))), target, power, ok)
    {
      var possible;
      possible, ok := Restore();
      ghost var t1, p1, ok1 := target, power, ok;
      if ok {
        ok := RemoveJournalFile();
      }
      TookBoth(old(target), old(power), RestoreBackup(old(target)), t1, p1, ok1,
               RemoveJournal(End(old(target), RestoreBackup(old(target)))), target, power, ok);
    }

    /** Record Activated, then drop the backup. */
    method SettleActive(wide: bool, debris: Tree) returns (ok: bool)
      modifies this
      ensures Took(old(target), old(power), Settle(old(target), wide, debris), target, power, ok)
    {
      ghost var recorded := AppendRecord(target, Activated, wide);
      ok := PersistJournal(Activated, wide);
      ghost var t1, p1, ok1 := target, power, ok;
      if ok {
        ok := RemoveBackupTree(debris);
      }
      TookBoth(old(target), old(power), recorded, t1, p1, ok1,
               RemoveBackup(End(old(target), recorded), debris), target, power, ok);
    }

    /** Remove what is staged, then close the journal. */
    method DiscardStaging(debris: Tree) returns (ok: bool)
      modifies this
      ensures Took(old(target), old(power),
                   ThenRemoveJournal(old(target), RemoveStaging(old(target), debris)), target, power, ok)
    {
      ghost var removed := RemoveStaging(target, debris);
      ok := RemoveStagingTree(debris);
      ghost var t1, p1, ok1 := target, power, ok;
      if ok {
        ok := RemoveJournalFile();
      }
      TookBoth(old(target), old(power), removed, t1, p1, ok1,
               RemoveJournal(End(old(target), removed)), target, power, ok);
    }

    /** Remove the destination, then close the journal. */
    method DiscardDestination(debris: Tree) returns (ok: bool)
      modifies this
      ensures Took(old(target), old(power),
                   ThenRemoveJournal(old(target), RemoveDestination(old(target), debris)), target, power, ok)
    {
      ghost var removed := RemoveDestination(target, debris);
      ok := RemoveDestinationTree(debris);
      ghost var t1, p1, ok1 := target, power, ok;
      if ok {
        ok := RemoveJournalFile();
      }
      TookBoth(old(target), old(power), removed, t1, p1, ok1,
               RemoveJournal(End(old(target), removed)), target, power, ok);
    }

    /** `rollback_active_to_backup`, then close the journal. */
    method RollBackActive(debris: Tree) returns (ok: bool)
      requires target.backup.Some?
      modifies this
      ensures Took(old(target), old(power),
                   ThenRemoveJournal(old(target), ThenRestore(old(target), RemoveDestination(old(target), debris))),
                   target, power, ok)
    {
      ghost var removed := RemoveDestination(target, debris);
      ok := RemoveDestinationTree(debris);
      ghost var t1, p1, ok1 := target, power, ok;
      if ok {
        ok := RestoreAndClose();
      }
      ghost var bare := End(old(target), removed);
      TookBoth(old(target), old(power), removed, t1, p1, ok1,
               ThenRemoveJournal(bare, RestoreBackup(bare)), target, power, ok);
      assert removed + ThenRemoveJournal(bare, RestoreBackup(bare))
          == ThenRemoveJournal(old(target), ThenRestore(old(target), removed));
    }

    method ActivateStaging(job: Job, debris: Tree) returns (ending: Ending)
      requires target.destination.None?
      modifies this
      ensures EndsAs(old(target), old(power), ActivateVerifiedStaging(old(target), job, debris), target, power, ending)
    {
      ghost var t, p := target, power;
      if !Verifies(target.staging, job.snapshot) {
        if target.backup.None? {
          return Finished(VerificationFailed);
        }
        ghost var removed := RemoveStaging(target, debris);
        var ok := RemoveStagingTree(debris);
        ghost var t1, p1, ok1 := target, power, ok;
        if ok {
          ok := RestoreAndClose();
        }
        ghost var bare := End(t, removed);
        TookBoth(t, p, removed, t1, p1, ok1, ThenRemoveJournal(bare, RestoreBackup(bare)), target, power, ok);
        assert removed + ThenRemoveJournal(bare, RestoreBackup(bare))
            == ThenRemoveJournal(t, ThenRestore(t, removed));
        return if ok then Finished(RolledBack) else Stopped;
      }
      ghost var renamed := t.(destination := t.staging, staging := None);
      var ok := Step(target.(destination := target.staging, staging := None));
      ghost var t1, p1, ok1 := target, power, ok;
      if ok {
        if !Verifies(target.destination, job.snapshot) {
          return Finished(VerificationFailed);
        }
        ok := SettleActive(job.wide, debris);
      }
      TookBoth(t, p, [renamed], t1, p1, ok1, Settle(renamed, job.wide, debris), target, power, ok);
      return if ok then Finished(Committed) else Stopped;
    }

    method VerifyActive(job: Job, debris: Tree) returns (ending: Ending)
      modifies this
      ensures EndsAs(old(target), old(power), VerifyActiveOrRestoreBackup(old(target), job, debris),
                     target, power, ending)
    {
      ghost var t, p := target, power;
      if Verifies(target.destination, job.snapshot) {
        ghost var removed := RemoveStaging(target, debris);
        var ok := RemoveStagingTree(debris);
        ghost var t1, p1, ok1 := target, power, ok;
        if ok {
          ok := SettleActive(job.wide, debris);
        }
        TookBoth(t, p, removed, t1, p1, ok1, Settle(End(t, removed), job.wide, debris), target, power, ok);
        return if ok then Finished(Committed) else Stopped;
      }
      if target.backup.None? {
        return Finished(VerificationFailed);
      }
      var ok := RollBackActive(debris);
      return if ok then Finished(RolledBack) else Stopped;
    }

    method VerifyFresh(job: Job, debris: Tree) returns (ending: Ending)
      modifies this
      ensures EndsAs(old(target), old(power), VerifyActiveWithoutBackup(old(target), job, debris),
                     target, power, ending)
    {
      if Verifies(target.destination, job.snapshot) {
        var ok := PersistJournal(Activated, job.wide);
        return if ok then Finished(Committed) else Stopped;
      }
      var ok := DiscardDestination(debris);
      return if ok then Finished(RolledBack) else Stopped;
    }

    /** `recover_one`: read the journal, look at the slots, act by phase. */
    method Recover(job: Job, debris: Tree) returns (ending: Ending)
      modifies this
      ensures EndsAs(old(target), old(power), RecoverOne(old(target), job, debris), target, power, ending)
    {
      if target.journal.None? {
        return Finished(InvalidJournal);
      }
      var reading := ReadLatest(target.journal.value.lines);
      if !reading.Latest? {
        return Finished(InvalidJournal);
      }
      var destination, staging, backup :=
        target.destination.Some?, target.staging.Some?, target.backup.Some?;
      var ok: bool;
      match reading.value {
        case Intent =>
          if !backup {
            ok := DiscardStaging(debris);
            return if ok then Finished(RolledBack) else Stopped;
          }
        case Prepared =>
          if job.replacedExisting {
            if destination && staging && !backup {
              ok := DiscardStaging(debris);
              return if ok then Finished(RolledBack) else Stopped;
            }
            if !destination && staging && backup {
              ending := ActivateStaging(job, debris);
              return;
            }
            if destination && !staging && backup {
              ending := VerifyActive(job, debris);
              return;
            }
            if !destination && !staging && backup {
              ok := RestoreAndClose();
              return if ok then Finished(RolledBack) else Stopped;
            }
          } else {
            if !destination && staging && !backup {
              ok := DiscardStaging(debris);
              return if ok then Finished(RolledBack) else Stopped;
            }
            if destination && !staging && !backup {
              ending := VerifyFresh(job, debris);
              return;
            }
          }
        case OldMoved =>
          if !destination && staging && backup {
            ending := ActivateStaging(job, debris);
            return;
          }
          if destination && !staging && backup {
            ending := VerifyActive(job, debris);
            return;
          }
          if !destination && !staging && backup {
            ok := RestoreAndClose();
            return if ok then Finished(RolledBack) else Stopped;
          }
        case Activated =>
          if !destination {
            if backup {
              ok := RestoreAndClose();
              return if ok then Finished(RolledBack) else Stopped;
            }
          } else if !staging {
            ending := VerifyActive(job, debris);
            return;
          }
      }
      return Finished(Unrecoverable);
    }

    /** The handler around materialization: clean up as far as that works, ignoring errors. */
    method Abandon(c: Circumstances) returns (ok: bool)
      modifies this
      ensures Took(old(target), old(power), AbandonStaging(old(target), c), target, power, ok)
    {
      ghost var t, p := target, power;
      if c.cleanUpWorks || target.staging.None? {
        ok := DiscardStaging(c.debris);
        assert RemoveStaging(t, c.debris)[..0] == [];
        assert t.staging.None? ==> RemoveStaging(t, c.debris) == [];
        return;
      }
      ghost var half := t.(staging := Some(c.debris));
      ok := Step(target.(staging := Some(c.debris)));
      ghost var t1, p1, ok1 := target, power, ok;
      if ok {
        ok := RemoveJournalFile();
      }
      TookBoth(t, p, [half], t1, p1, ok1, RemoveJournal(half), target, power, ok);
      assert RemoveStaging(t, c.debris)[..1] == [half];
    }

    /** Materialize into staging: first some of the tree, then what staging ends up with. */
    method Materialize(c: Circumstances) returns (ok: bool)
      modifies this
      ensures Took(old(target), old(power),
                   [old(target).(staging := Some(c.debris)), old(target).(staging := c.staged)], target, power, ok)
    {
      ok := TwoSteps(target.(staging := Some(c.debris)), target.(staging := c.staged));
    }

    /** The first half of `deploy`; `ready` says whether Prepared was recorded. */
    method PrepareStaging(job: Job, c: Circumstances) returns (ready: bool, ok: bool)
      modifies this
      ensures Took(old(target), old(power), Prepare(old(target), job, c).0, target, power, ok)
      ensures ok ==> ready == Prepare(old(target), job, c).1
    {
      hide AppendRecord, AbandonStaging, Verifies, AppendSteps;
      ghost var t, p := target, power;
      ghost var intent := AppendRecord(t, Intent, job.wide);
      ghost var open := End(t, intent);
      ghost var staged := [open.(staging := Some(c.debris)), open.(staging := c.staged)];
      ghost var all := Prepare(t, job, c).0;
      ready := false;
      ok := PersistJournal(Intent, job.wide);
      ghost var t1, p1, ok1 := target, power, ok;
      if ok {
        ok := Materialize(c);
      }
      TookBoth(t, p, intent, t1, p1, ok1, staged, target, power, ok);
      ghost var t2, p2, ok2 := target, power, ok;
      ghost var rest: seq<Target> := all[|intent + staged|..];
      assert intent + staged + rest == all;
      if ok {
        ready, ok := VerifyStaging(job, c, rest);
      }
      TookBoth(t, p, intent + staged, t2, p2, ok2, rest, target, power, ok);
    }

    /** Verify staging and record Prepared, or abandon. */
    method VerifyStaging(job: Job, c: Circumstances, ghost rest: seq<Target>) returns (ready: bool, ok: bool)
      requires
        var prepared := AppendRecord(target, Prepared, job.wide);
        rest == if !Verifies(target.staging, job.snapshot) then AbandonStaging(target, c)
                else if c.preparedFails.Some? then
                  var torn := Taken(prepared, c.preparedFails.value);
                  torn + AbandonStaging(End(target, torn), c)
                else prepared
      modifies this
      ensures Took(old(target), old(power), rest, target, power, ok)
      ensures ok ==> (ready <==> Verifies(old(target).staging, job.snapshot) && c.preparedFails.None?)
    {
      ready := false;
      if !Verifies(target.staging, job.snapshot) {
        ok := Abandon(c);
        return;
      }
      if c.preparedFails.None? {
        ready := true;
        ok := PersistJournal(Prepared, job.wide);
        return;
      }
      ghost var prepared := AppendRecord(target, Prepared, job.wide);
      ghost var torn := Taken(prepared, c.preparedFails.value);
      var written := |AppendSteps(target.journal, Prepared, job.wide)|;
      if c.preparedFails.value < written {
        written := c.preparedFails.value;
      }
      assert prepared[..written] == torn;
      ok := PersistPart(Prepared, written, job.wide);
      ghost var t1, p1, ok1 := target, power, ok;
      if ok {
        ok := Abandon(c);
      }
      TookBoth(old(target), old(power), torn, t1, p1, ok1,
               AbandonStaging(End(old(target), torn), c), target, power, ok);
    }

    /** Move the old target aside under an OldMoved record. */
    method MoveAside(wide: bool) returns (ok: bool)
      modifies this
      ensures var moved := old(target).(destination := None, backup := old(target).destination);
              Took(old(target), old(power), [moved] + AppendRecord(moved, OldMoved, wide), target, power, ok)
    {
      ghost var moved := target.(destination := None, backup := target.destination);
      ok := Step(target.(destination := None, backup := target.destination));
      ghost var t1, p1, ok1 := target, power, ok;
      if ok {
        ok := PersistJournal(OldMoved, wide);
      }
      TookBoth(old(target), old(power), [moved], t1, p1, ok1, AppendRecord(moved, OldMoved, wide), target, power, ok);
    }

    /** The second half of `deploy`: swap the candidate in, check it, settle or roll back. */
    method ActivateCandidate(job: Job, c: Circumstances) returns (ending: Ending)
      modifies this
      ensures EndsAs(old(target), old(power), Activate(old(target), job, c), target, power, ending)
    {
      ghost var t, p := target, power;
      ghost var moved := t.(destination := None, backup := t.destination);
      ghost var aside := if job.replacedExisting then [moved] + AppendRecord(moved, OldMoved, job.wide) else [];
      ghost var clear := End(t, aside);
      ghost var renamed := clear.(destination := clear.staging, staging := None);
      ghost var found := renamed.(destination := c.active);
      ghost var walk := Activate(t, job, c);
      ghost var rest := walk.steps[|aside| + 2..];

      var ok := true;
      if job.replacedExisting {
        ok := MoveAside(job.wide);
      }
      ghost var t1, p1, ok1 := target, power, ok;
      if ok {
        // The candidate is renamed into place, and then found there as the world left it.
        ok := TwoSteps(target.(destination := target.staging, staging := None),
                         target.(destination := c.active, staging := None));
      }
      TookBoth(t, p, aside, t1, p1, ok1, [renamed, found], target, power, ok);
      ghost var t2, p2, ok2 := target, power, ok;
      assert aside + [renamed, found] + rest == walk.steps;
      var outcome := VerificationFailed;
      if ok {
        outcome, ok := CheckCandidate(job, c.debris);
      }
      TookBoth(t, p, aside + [renamed, found], t2, p2, ok2, rest, target, power, ok);
      return if ok then Finished(outcome) else Stopped;
    }

    /** The check of the activated candidate, and what follows from it. */
    method CheckCandidate(job: Job, debris: Tree) returns (outcome: Outcome, ok: bool)
      modifies this
      ensures outcome == if Verifies(old(target).destination, job.snapshot) then Committed else VerificationFailed
      ensures Took(old(target), old(power),
                   if Verifies(old(target).destination, job.snapshot) then Settle(old(target), job.wide, debris)
                   else if job.replacedExisting && old(target).backup.Some? then
                     ThenRemoveJournal(old(target), ThenRestore(old(target), RemoveDestination(old(target), debris)))
                   else ThenRemoveJournal(old(target), RemoveDestination(old(target), debris)),
                   target, power, ok)
    {
      if Verifies(target.destination, job.snapshot) {
        outcome := Committed;
        ok := SettleActive(job.wide, debris);
      } else {
        outcome := VerificationFailed;
        if job.replacedExisting && target.backup.Some? {
          ok := RollBackActive(debris);
        } else {
          ok := DiscardDestination(debris);
        }
      }
    }

    method DeploySnapshot(job: Job, c: Circumstances) returns (ending: Ending)
      modifies this
      ensures EndsAs(old(target), old(power), Deploy(old(target), job, c), target, power, ending)
    {
      ghost var t, p, prepare := target, power, Prepare(target, job, c);
      var ready, ok := PrepareStaging(job, c);
      ghost var t1, p1, ok1 := target, power, ok;
      ending := if ok then Finished(VerificationFailed) else Stopped;
      if ok && ready {
        ending := ActivateCandidate(job, c);
      }
      if prepare.1 {
        TookBoth(t, p, prepare.0, t1, p1, ok1,
                 Activate(End(t, prepare.0), job, c).steps, target, power, ending != Stopped);
      }
    }

    /** `acknowledge_catalog_commit`; `accepted` is whether the journal was due to go. */
    method AcknowledgeCatalogCommit(job: Job) returns (accepted: bool, ok: bool)
      modifies this
      ensures accepted <==>
                && old(target).journal.Some? && Read(old(target).journal.value.lines) == Latest(Activated)
                && old(target).destination == Some(job.snapshot)
                && old(target).staging.None? && old(target).backup.None?
      ensures ok ==> target == if accepted then old(target).(journal := None) else old(target)
      ensures Took(old(target), old(power), Acknowledge(old(target), job), target, power, ok)
    {
      accepted, ok := false, true;
      if target.journal.None? {
        return;
      }
      var reading := ReadLatest(target.journal.value.lines);
      if reading != Latest(Activated) {
        return;
      }
      if target.destination.None? || target.staging.Some? || target.backup.Some? {
        return;
      }
      if !Verifies(target.destination, job.snapshot) {
        return;
      }
      accepted := true;
      ok := RemoveJournalFile();
    }

    /** Verify at the cross-resource boundary, write the catalog row, acknowledge. */
    method RecordAndAcknowledge(job: Job) returns (ok: bool)
      modifies this
      ensures Took(old(target), old(power), CommitCatalog(old(target), job), target, power, ok)
      ensures target.row != old(target).row ==>
                old(target).destination == Some(job.snapshot) && target.row == Some(job.snapshot)
      ensures target.(row := old(target).row, journal := old(target).journal) == old(target)
    {
      if !Verifies(target.destination, job.snapshot) {
        return true;
      }
      ghost var recorded := target.(row := Some(job.snapshot));
      ok := Step(target.(row := Some(job.snapshot)));
      ghost var t1, p1, ok1 := target, power, ok;
      if ok {
        var accepted;
        accepted, ok := AcknowledgeCatalogCommit(job);
      }
      TookBoth(old(target), old(power), [recorded], t1, p1, ok1, Acknowledge(recorded, job), target, power, ok);
    }

    /** The command behind one deployment, over filesystem and catalog. */
    method DeploySingle(job: Job, c: Circumstances) returns (ending: Ending)
      modifies this
      ensures EndsAs(old(target), old(power), Install(old(target), job, c), target, power, ending)
      ensures AtRest(old(target), job) && old(power) >= MANY_STEPS ==> ending != Stopped
      ensures AtRest(old(target), job) && ending != Stopped ==> Completes(old(target), job, c, target, ending)
    {
      ghost var walk := Deploy(target, job, c);
      ending := DeploySnapshot(job, c);
      ghost var t1, p1, ok1 := target, power, ending != Stopped;
      if ending == Finished(Committed) {
        var ok := RecordAndAcknowledge(job);
        ending := if ok then ending else Stopped;
      }
      if walk.outcome == Committed {
        TookBoth(old(target), old(power), walk.steps, t1, p1, ok1,
                 CommitCatalog(End(old(target), walk.steps), job), target, power, ending != Stopped);
      }
      if AtRest(old(target), job) {
        InstallRunsThrough(old(target), old(power), job, c, target, power, ending);
      }
    }

    /** Start-up: recover the open journal, and replay the catalog for what was committed. */
    method StartUpOnce(job: Job, debris: Tree) returns (ending: Ending)
      modifies this
      ensures EndsAs(old(target), old(power), StartUp(old(target), job, debris), target, power, ending)
    {
      ghost var walk := RecoverOne(target, job, debris);
      ending := Recover(job, debris);
      ghost var t1, p1, ok1 := target, power, ending != Stopped;
      if ending == Finished(Committed) {
        var ok := RecordAndAcknowledge(job);
        ending := if ok then ending else Stopped;
      }
      if walk.outcome == Committed {
        TookBoth(old(target), old(power), walk.steps, t1, p1, ok1,
                 CommitCatalog(End(old(target), walk.steps), job), target, power, ending != Stopped);
      }
    }
  }
}
