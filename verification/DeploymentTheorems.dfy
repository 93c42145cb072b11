/** What the deployment protocol promises, over every life of a target. */
module DeploymentTheorems {
  import opened Prelude
  import opened Journals
  import opened Trees
  import opened Walks
  import opened Deployment
  import opened DeploymentRuns

  /**
    Atomicity. In every state of every life a completed recovery reports RolledBack only with
    target and catalog row exactly as before the deployment, and Committed only with exactly the
    snapshot in place and nothing left over; when it gives up it has changed nothing. A run that
    is cut leaves a state of which the same holds again.
  */
  lemma RecoveryIsAtomic(tx: Tx, states: seq<Target>, n: nat, debris: Tree)
    requires Life(tx, states) && n < |states| && states[n].journal.Some?
    ensures var t := states[n];
            var walk := RecoverOne(t, tx.Job(), debris);
            var end := End(t, walk.steps);
            match walk.outcome
            case RolledBack => end == Start(tx)
            case Committed =>
              && end == t.(journal := end.journal, destination := Some(tx.snapshot), staging := None, backup := None)
              && end.journal.Some? && (ReadJournal(end) == Latest(Activated) || HasBad(end.journal.value.lines))
            case _ => walk.steps == []
    ensures forall power: nat ::
              Life(tx, states[..n + 1] + [Cut(states[n], StartUp(states[n], tx.Job(), debris).steps, power)])
  {
    LifeInv(tx, states, n);
    RecoverOneHonest(tx, states[n], debris);
    forall power: nat
      ensures Life(tx, states[..n + 1] + [Cut(states[n], StartUp(states[n], tx.Job(), debris).steps, power)])
    {
      var t' := Cut(states[n], StartUp(states[n], tx.Job(), debris).steps, power);
      var longer := states[..n + 1] + [t'];
      assert StartUpCut(tx, states[n], t', debris, power);
      assert longer[0] == states[0];
      forall i | 0 < i < |longer| ensures Next(tx, longer[i - 1], longer[i]) {
        if i <= n { assert Next(tx, states[i - 1], states[i]); }
      }
    }
  }

  /**
    A deployment that fails because materialization, the Prepared record or a verification failed,
    and nothing else, leaves the target as before, but for a staging remnant.
  */
  lemma FailedDeployChangesNothing(tx: Tx, c: Circumstances)
    requires Possible(tx, c)
    ensures var walk := Deploy(Start(tx), tx.Job(), c);
            var end := End(Start(tx), walk.steps);
            if walk.outcome == Committed then
              && end.destination == Some(tx.snapshot) && end.staging == end.backup == None
              && (ReadJournal(end) == Latest(Activated) || HasBad(end.journal.value.lines))
            else
              && end == Start(tx).(staging := end.staging)
              && (c.cleanUpWorks ==> end == Start(tx))
  {
    DeployInv(tx, c);
  }

  // ---- Deployments that stop half-way -------------------------------------------------------

  /** The steps of a deployment before it moves the old tree or, in a first install, the candidate. */
  function StepsToMove(tx: Tx, c: Circumstances): nat {
    |Prepare(Start(tx), tx.Job(), c).0|
  }

  /**
    A deployment stopped after `power` steps has not moved anything yet, or has failed in its last
    verification and has put everything back, up to the removal of its journal.
  */
  predicate StoppedInPlace(tx: Tx, c: Circumstances, power: nat) {
    var walk := Deploy(Start(tx), tx.Job(), c);
    power <= StepsToMove(tx, c) || (walk.outcome != Committed && power >= |walk.steps| - 1)
  }

  /** Nothing that comes into the destination of a replacement happens to be the old tree again. */
  predicate Distinguishable(tx: Tx, c: Circumstances) {
    tx.before.Some? ==> tx.before != Some(tx.snapshot) && tx.before != c.active && tx.before != Some(c.debris)
  }

  /** Only journal and staging differ from the start. */
  predicate InPlace(tx: Tx, t: Target) {
    t == Start(tx).(journal := t.journal, staging := t.staging)
  }

  /** Something has been moved: the destination is not as before, and an open journal says so. */
  predicate Away(tx: Tx, c: Circumstances, t: Target) {
    t.journal.Some? && t.row == tx.oldRow && (Distinguishable(tx, c) ==> t.destination != tx.before)
  }

  lemma PrepareInPlace(tx: Tx, c: Circumstances)
    ensures forall s :: s in Prepare(Start(tx), tx.Job(), c).0 ==> InPlace(tx, s)
  {
    hide AppendSteps, Append;
    var t := Start(tx);
    var intent := AppendRecord(t, Intent, tx.wide);
    var ready := End(t, intent).(staging := c.staged);
    var prepared := AppendRecord(ready, Prepared, tx.wide);
    if c.preparedFails.Some? {
      var torn := Taken(prepared, c.preparedFails.value);
      assert InPlace(tx, End(ready, torn));
      AbandonInPlace(tx, End(ready, torn), c);
    }
    AbandonInPlace(tx, ready, c);
  }

  lemma AbandonInPlace(tx: Tx, t: Target, c: Circumstances)
    requires InPlace(tx, t)
    ensures forall s :: s in AbandonStaging(t, c) ==> InPlace(tx, s)
  {}

  /** The target with the candidate swapped in, as the verification finds it. */
  function Found(tx: Tx, t: Target, c: Circumstances): Target {
    End(t, Aside(tx, t)).(destination := c.active, staging := None)
  }

  /** Moving the old tree aside, if there is one. */
  function Aside(tx: Tx, t: Target): seq<Target> {
    var moved := t.(destination := None, backup := t.destination);
    if tx.before.Some? then [moved] + AppendRecord(moved, OldMoved, tx.wide) else []
  }

  /** All but the last of these steps are away: the move, the rename, and what is found after it. */
  lemma SwapIsAway(tx: Tx, t: Target, c: Circumstances)
    requires InPlace(tx, t) && t.staging == Some(tx.snapshot) && t.journal.Some?
    ensures forall s :: s in Aside(tx, t) ==> Away(tx, c, s)
    ensures Away(tx, c, Found(tx, t, c).(destination := Some(tx.snapshot)))
    ensures tx.before.Some? || c.active.Some? ==> Away(tx, c, Found(tx, t, c))
    ensures Found(tx, t, c) == t.(journal := Found(tx, t, c).journal, destination := c.active, staging := None,
                                  backup := tx.before)
    ensures Found(tx, t, c).journal.Some? && End(t, Aside(tx, t)).staging == Some(tx.snapshot)
  {
    hide AppendSteps, Append, AppendRecord;
    var moved := t.(destination := None, backup := t.destination);
    if tx.before.Some? {
      AppendIsAway(tx, c, moved, OldMoved);
      assert End(t, Aside(tx, t)) == End(moved, AppendRecord(moved, OldMoved, tx.wide));
    }
  }

  /** From the move on: away until the walk ends, or until the last step but one of a failure. */
  lemma ActivateAway(tx: Tx, t: Target, c: Circumstances)
    requires InPlace(tx, t) && t.staging == Some(tx.snapshot) && t.journal.Some?
    ensures var walk := Activate(t, tx.Job(), c);
            var n := |walk.steps| - if walk.outcome == Committed then 0 else 2;
            && n >= 0 && walk.steps != [] && (forall i :: 0 <= i < n ==> Away(tx, c, walk.steps[i]))
            && (forall i :: n <= i < |walk.steps| ==> InPlace(tx, walk.steps[i]))
  {
    hide AppendSteps, Append, AppendRecord, Away, Aside;
    SwapIsAway(tx, t, c);
    var found := Found(tx, t, c);
    var swapped := Aside(tx, t) + [found.(destination := Some(tx.snapshot)), found];
    if c.active == Some(tx.snapshot) {
      SettleIsAway(tx, c, found);
      assert Activate(t, tx.Job(), c) == Walk(swapped + Settle(found, tx.wide, c.debris), Committed)
        by { ActivateWalk(tx, t, c); }
    } else {
      var undone := Undone(tx, c, found);
      PutBack(tx, c, t, found);
      assert Activate(t, tx.Job(), c) == Walk(swapped + undone, VerificationFailed) by { ActivateWalk(tx, t, c); }
    }
  }

  /** Undoing a swap whose verification failed. */
  function Undone(tx: Tx, c: Circumstances, found: Target): seq<Target> {
    var bare := RemoveDestination(found, c.debris);
    ThenRemoveJournal(found, if tx.before.Some? then ThenRestore(found, bare) else bare)
  }

  lemma ActivateWalk(tx: Tx, t: Target, c: Circumstances)
    requires InPlace(tx, t) && t.staging == Some(tx.snapshot) && t.journal.Some?
    ensures var found := Found(tx, t, c);
            var swapped := Aside(tx, t) + [found.(destination := Some(tx.snapshot)), found];
            Activate(t, tx.Job(), c)
            == if c.active == Some(tx.snapshot) then Walk(swapped + Settle(found, tx.wide, c.debris), Committed)
               else Walk(swapped + Undone(tx, c, found), VerificationFailed)
  {
    hide AppendSteps, Append, AppendRecord, Settle, ThenRemoveJournal, ThenRestore, RemoveDestination, Away;
    SwapIsAway(tx, t, c);
  }

  lemma SettleIsAway(tx: Tx, c: Circumstances, found: Target)
    requires Away(tx, c, found) && found.destination == Some(tx.snapshot)
    ensures forall s :: s in Settle(found, tx.wide, c.debris) ==> Away(tx, c, s)
  {
    hide AppendSteps, Append, AppendRecord;
    AppendIsAway(tx, c, found, Activated);
  }

  /** Undone step by step: away until the last step but one, which may be the state found already. */
  lemma PutBack(tx: Tx, c: Circumstances, t: Target, found: Target)
    requires found.journal.Some? && found.row == tx.oldRow && found.staging.None?
    requires found.backup == tx.before && found.destination == c.active
    ensures var undone := Undone(tx, c, found);
            var n := |undone| - 2;
            && (n < 0 ==> n == -1 && InPlace(tx, found))
            && (forall i :: 0 <= i < n ==> Away(tx, c, undone[i]))
            && (forall i :: n <= i < |undone| && i >= 0 ==> InPlace(tx, undone[i]))
  {
    var undone := Undone(tx, c, found);
    if tx.before.Some? {
      if c.active.Some? { assert |undone| == 4; } else { assert |undone| == 2; }
    } else {
      if c.active.Some? { assert |undone| == 3; } else { assert |undone| == 1; }
    }
  }

  lemma AppendIsAway(tx: Tx, c: Circumstances, t: Target, phase: Phase)
    requires Away(tx, c, t)
    ensures forall s :: s in AppendRecord(t, phase, tx.wide) ==> Away(tx, c, s)
    ensures Away(tx, c, End(t, AppendRecord(t, phase, tx.wide)))
  {}

  /**
    Wherever a deployment stops, by a crash or by an error it reports, destination and row are as
    before exactly if nothing had been moved yet or everything had been put back. Otherwise its
    journal is open, and the state is one that recovery is for.
  */
  lemma StoppedDeployIff(tx: Tx, c: Circumstances, power: nat)
    requires Possible(tx, c)
    ensures var t := Cut(Start(tx), Deploy(Start(tx), tx.Job(), c).steps, power);
            && (StoppedInPlace(tx, c, power) ==> InPlace(tx, t))
            && (!StoppedInPlace(tx, c, power) ==> Away(tx, c, t))
            && (Distinguishable(tx, c) ==> (StoppedInPlace(tx, c, power) <==> t.destination == tx.before))
            && t.row == tx.oldRow && Life(tx, [t])
  {
    hide Prepare, Activate, Away, InPlace, Distinguishable, InstallCut, Life;
    var walk := Deploy(Start(tx), tx.Job(), c);
    var t := Cut(Start(tx), walk.steps, power);
    StoppedStates(tx, c);
    if power > 0 && walk.steps != [] {
      assert t == walk.steps[if power <= |walk.steps| then power - 1 else |walk.steps| - 1];
    } else {
      assert t == Start(tx);
    }
    DeployIsInstallCut(tx, c, power);
    AwayMeaning(tx, c, t);
  }

  lemma AwayMeaning(tx: Tx, c: Circumstances, t: Target)
    ensures Away(tx, c, t) ==> t.row == tx.oldRow && (Distinguishable(tx, c) ==> t.destination != tx.before)
    ensures InPlace(tx, t) ==> t.row == tx.oldRow && t.destination == tx.before
  {}

  /** The states of a deployment, by their place in it. */
  lemma StoppedStates(tx: Tx, c: Circumstances)
    ensures var walk, n := Deploy(Start(tx), tx.Job(), c), StepsToMove(tx, c);
            var back := |walk.steps| - if walk.outcome == Committed then 0 else 2;
            && InPlace(tx, Start(tx)) && n <= |walk.steps|
            && (forall i :: 0 <= i < n ==> InPlace(tx, walk.steps[i]))
            && (forall i :: n <= i < back ==> Away(tx, c, walk.steps[i]))
            && (forall i :: back <= i < |walk.steps| && n <= i ==> InPlace(tx, walk.steps[i]))
            && (walk.outcome == Committed ==> n < back) && (n < |walk.steps| ==> n <= back)
  {
    hide Activate, Away;
    var (prepared, ready) := Prepare(Start(tx), tx.Job(), c);
    PrepareInPlace(tx, c);
    PrepareInv(tx, c);
    if ready {
      ActivateAway(tx, End(Start(tx), prepared), c);
    }
  }

  /** Where a deployment stops, an installation can stop. */
  lemma DeployIsInstallCut(tx: Tx, c: Circumstances, power: nat)
    requires Possible(tx, c)
    ensures Life(tx, [Cut(Start(tx), Deploy(Start(tx), tx.Job(), c).steps, power)])
  {
    hide Deploy, CommitCatalog, Life;
    var steps, all := Deploy(Start(tx), tx.Job(), c).steps, Install(Start(tx), tx.Job(), c).steps;
    var k := if power < |steps| then power else |steps|;
    assert steps <= all;
    assert all[..k] == steps[..k];
    assert k == |all| ==> all == steps;
    FoundAfterCrash(tx, Cut(Start(tx), steps, power), c, k);
  }

  /** In step `s` of a recovery that began at `t` the backup is there, has been put back, or is not needed. */
  predicate BackupIsSafe(t: Target, snapshot: Tree, s: Target) {
    t.backup.Some? ==> s.backup == t.backup || s.destination == t.backup || s.destination == Some(snapshot)
  }

  /** What any walk of a recovery may do. */
  predicate SafeWalk(t: Target, job: Job, walk: Walk) {
    var end := End(t, walk.steps);
    && (forall s :: s in walk.steps ==> BackupIsSafe(t, job.snapshot, s) && s.row == t.row)
    && (walk.outcome == Committed ==>
          end.destination == Some(job.snapshot) && end.staging.None? && end.backup.None?)
    && (walk.outcome == RolledBack ==>
          end.journal.None? && end.backup.None? && (t.backup.Some? ==> end.destination == t.backup))
    && (walk.outcome == RolledBack && t.backup.None? && end.destination != t.destination ==>
          && !job.replacedExisting && ReadJournal(t) == Latest(Prepared)
          && t.destination != Some(job.snapshot) && end.destination.None?)
    && (walk.outcome !in {Committed, RolledBack} ==> walk.steps == [])
  }

  lemma SettleIsSafe(t: Target, job: Job, debris: Tree)
    requires t.destination == Some(job.snapshot)
    ensures forall s :: s in Settle(t, job.wide, debris) ==> s.destination == Some(job.snapshot) && s.row == t.row
    ensures End(t, Settle(t, job.wide, debris))
         == t.(journal := End(t, Settle(t, job.wide, debris)).journal, backup := None)
  {
    hide AppendSteps, Append;
  }

  lemma PuttingBackIsSafe(t: Target, job: Job, bare: seq<Target>)
    requires t.backup.Some? && End(t, bare).backup == t.backup
    requires forall s :: s in bare ==> s.backup == t.backup && s.row == t.row
    requires End(t, bare).row == t.row
    ensures SafeWalk(t, job, Walk(ThenRemoveJournal(t, ThenRestore(t, bare)), RolledBack))
  {}

  lemma ActivatingIsSafe(t: Target, job: Job, debris: Tree)
    requires t.backup.Some?
    ensures SafeWalk(t, job, ActivateVerifiedStaging(t, job, debris))
  {
    hide Settle, SafeWalk;
    if Verifies(t.staging, job.snapshot) {
      var renamed := t.(destination := t.staging, staging := None);
      SettleIsSafe(renamed, job, debris);
      CommittingIsSafe(t, job, [renamed] + Settle(renamed, job.wide, debris));
    } else {
      PuttingBackIsSafe(t, job, RemoveStaging(t, debris));
    }
  }

  lemma CommittingIsSafe(t: Target, job: Job, steps: seq<Target>)
    requires forall s :: s in steps ==> (s.destination == Some(job.snapshot) || s.backup == t.backup) && s.row == t.row
    requires End(t, steps).destination == Some(job.snapshot) && End(t, steps).staging.None?
    requires End(t, steps).backup.None?
    ensures SafeWalk(t, job, Walk(steps, Committed))
  {}

  lemma VerifyingIsSafe(t: Target, job: Job, debris: Tree)
    ensures SafeWalk(t, job, VerifyActiveOrRestoreBackup(t, job, debris))
  {
    hide Settle, SafeWalk;
    if Verifies(t.destination, job.snapshot) {
      var bare := RemoveStaging(t, debris);
      SettleIsSafe(End(t, bare), job, debris);
      CommittingIsSafe(t, job, ThenSettle(t, bare, job.wide, debris));
    } else if t.backup.Some? {
      PuttingBackIsSafe(t, job, RemoveDestination(t, debris));
    } else {
      GivingUpIsSafe(t, job, VerificationFailed);
    }
  }

  lemma GivingUpIsSafe(t: Target, job: Job, outcome: Outcome)
    requires outcome !in {Committed, RolledBack}
    ensures SafeWalk(t, job, Walk([], outcome))
  {}

  lemma VerifyingFreshIsSafe(t: Target, job: Job, debris: Tree)
    requires t.staging.None? && t.backup.None? && !job.replacedExisting && ReadJournal(t) == Latest(Prepared)
    ensures SafeWalk(t, job, VerifyActiveWithoutBackup(t, job, debris))
  {
    hide Read, HasBad, AppendSteps, Append;
  }

  lemma DiscardingIsSafe(t: Target, job: Job, debris: Tree)
    requires t.backup.None?
    ensures SafeWalk(t, job, Walk(ThenRemoveJournal(t, RemoveStaging(t, debris)), RolledBack))
  {}

  /**
    Whatever a recovery finds, in lives or not: it commits only with exactly the snapshot in place,
    rolls back only to the backup if there is one, and never destroys a backup without either. It
    removes a destination without a backup only if the destination is not the snapshot and the
    journal says that nothing was there before.
  */
  lemma RecoveryIsSafeAnywhere(t: Target, job: Job, debris: Tree)
    ensures SafeWalk(t, job, RecoverOne(t, job, debris))
  {
    hide SafeWalk, Read, ActivateVerifiedStaging, VerifyActiveOrRestoreBackup, VerifyActiveWithoutBackup,
      RemoveStaging, ThenRemoveJournal;
    GivingUpIsSafe(t, job, Unrecoverable);
    GivingUpIsSafe(t, job, InvalidJournal);
    VerifyingIsSafe(t, job, debris);
    if t.backup.Some? {
      ActivatingIsSafe(t, job, debris);
      PuttingBackIsSafe(t, job, []);
      assert ThenRestore(t, []) == RestoreBackup(t);
    } else {
      DiscardingIsSafe(t, job, debris);
      if t.staging.None? && !job.replacedExisting && ReadJournal(t) == Latest(Prepared) {
        VerifyingFreshIsSafe(t, job, debris);
      }
    }
  }

  /**
    The row is written only over the snapshot in place; no slot is touched, and the journal goes after
    it exactly if Activated can be read back and nothing is staged or in backup.
  */
  lemma CatalogNeedsTheTree(t: Target, job: Job)
    ensures var steps := CommitCatalog(t, job);
            && (t.destination != Some(job.snapshot) ==> steps == [])
            && (t.destination == Some(job.snapshot) ==>
                  End(t, steps)
                  == t.(row := Some(job.snapshot),
                        journal := if ReadJournal(t) == Latest(Activated) && t.staging.None? && t.backup.None? then None
                                   else t.journal))
            && forall x :: x in steps ==>
                 x.row == Some(job.snapshot) && t.(row := x.row, journal := x.journal) == x
  {
    hide Read, HasBad;
  }

  // ---- Deployments that run to their end ----------------------------------------------------

  /** More steps than any deployment takes. */
  const MANY_STEPS: nat := 32

  /** Nothing goes wrong on the way: what is staged and what is activated is the snapshot. */
  predicate GoesWell(tx: Tx, c: Circumstances) {
    c.staged == Some(tx.snapshot) && c.preparedFails.None? && c.active == Some(tx.snapshot)
  }

  lemma PrepareWell(tx: Tx, c: Circumstances)
    ensures var (steps, ready) := Prepare(Start(tx), tx.Job(), c);
            && (ready <==> c.staged == Some(tx.snapshot) && c.preparedFails.None?)
            && |steps| <= 15
  {
    hide AppendSteps, Append, AppendRecord;
  }

  lemma ActivateWell(tx: Tx, t: Target, c: Circumstances)
    ensures var walk := Activate(t, tx.Job(), c);
            && (walk.outcome == Committed <==> c.active == Some(tx.snapshot))
            && |walk.steps| <= 15 && walk.outcome in {Committed, VerificationFailed}
  {
    hide AppendSteps, Append, AppendRecord;
  }

  lemma OutcomeIff(tx: Tx, c: Circumstances)
    ensures Deploy(Start(tx), tx.Job(), c).outcome == if GoesWell(tx, c) then Committed else VerificationFailed
    ensures |Install(Start(tx), tx.Job(), c).steps| <= MANY_STEPS
  {
    hide Prepare, Activate;
    var (steps, ready) := Prepare(Start(tx), tx.Job(), c);
    PrepareWell(tx, c);
    ActivateWell(tx, End(Start(tx), steps), c);
  }

  /** A journal all of whose records were completed. */
  predicate CleanJournal(t: Target) { t.journal.Some? && Clean(t.journal.value) }

  lemma CommittedIsClean(tx: Tx, t: Target, c: Circumstances)
    requires InPlace(tx, t) && t.staging == Some(tx.snapshot) && CleanJournal(t)
    requires c.active == Some(tx.snapshot)
    ensures var end := End(t, Activate(t, tx.Job(), c).steps);
            && end == Target(end.journal, Some(tx.snapshot), None, None, tx.oldRow)
            && CleanJournal(end) && ReadJournal(end) == Latest(Activated)
  {
    hide Read, HasBad, AppendSteps, Append, AppendRecord, Away, Clean, Activate;
    ActivateWalk(tx, t, c);
    SwapIsAway(tx, t, c);
    var found := Found(tx, t, c);
    AppendIsRead(t.journal.value, OldMoved);
    AppendIsRead(found.journal.value, Activated);
    var recorded := AppendRecord(found, Activated, tx.wide);
    var settled := Settle(found, tx.wide, c.debris);
    assert End(found, settled) == End(found, recorded).(backup := None);
  }

  /**
    A deployment that runs to its end is committed exactly if nothing goes wrong, and then the
    snapshot is in place, the row records it, and nothing else is left. Otherwise everything is as
    before, but for a staging remnant.
  */
  lemma InstallCompletes(tx: Tx, c: Circumstances)
    requires Possible(tx, c)
    ensures var walk := Install(Start(tx), tx.Job(), c);
            var end := End(Start(tx), walk.steps);
            && |walk.steps| <= MANY_STEPS
            && (walk.outcome == Committed <==> GoesWell(tx, c))
            && (walk.outcome == Committed ==> end == Target(None, Some(tx.snapshot), None, None, Some(tx.snapshot)))
            && (walk.outcome != Committed ==> end == Start(tx).(staging := end.staging))
            && (walk.outcome != Committed && c.cleanUpWorks ==> end == Start(tx))
  {
    hide Prepare, Activate, AppendSteps, Append, Clean, Read, HasBad;
    OutcomeIff(tx, c);
    FailedDeployChangesNothing(tx, c);
    if GoesWell(tx, c) {
      var (steps, ready) := Prepare(Start(tx), tx.Job(), c);
      PrepareInv(tx, c);
      PrepareWell(tx, c);
      CommittedIsClean(tx, End(Start(tx), steps), c);
    }
  }

  /**
    In every state of every life the old tree is intact in the destination or in the backup slot,
    unless the verified snapshot has taken the destination. That never happens before Activated can
    be read back from the journal, or has been lost in it to a torn line.
  */
  lemma OldTreeSurvives(tx: Tx, states: seq<Target>, n: nat)
    requires Life(tx, states) && n < |states| && tx.before.Some?
    ensures var t := states[n];
            || t.destination == tx.before || t.backup == tx.before
            || (t.destination == Some(tx.snapshot)
                && (t.journal.Some? ==> HasBad(t.journal.value.lines) || ReadJournal(t) == Latest(Activated)))
  {
    LifeInv(tx, states, n);
  }

  /** With nothing staged and nothing in backup, what recovery can still bring to an end. */
  predicate Finishable(tx: Tx, t: Target) {
    || ReadJournal(t) == Latest(Intent)
    || (ReadJournal(t) == Latest(Prepared) && tx.before.None? && t.destination.Some?)
    || (ReadJournal(t) == Latest(Activated) && Verifies(t.destination, tx.snapshot))
  }

  /** Recovery has given up where nothing is left to be done. */
  predicate NothingLeft(tx: Tx, t: Target)
    requires t.journal.Some?
  {
    && t.staging.None? && t.backup.None?
    && (|| t.destination == tx.before
        || (t.destination == Some(tx.snapshot) && HasBad(t.journal.value.lines))
        || (tx.tampered && tx.before.None?))
  }

  /**
    When recovery gives up: in every state of every life exactly where the journal yields no record,
    or with nothing staged, nothing in backup and nothing it could finish. Then it changes nothing.
    Where a record is read nothing is left to be done: the target is back to what it was before, or
    the snapshot is in place and a torn append has cost the journal its Activated record, or a first
    install was damaged. Without any record nothing had been begun. What remains is a journal that
    cannot be read because a record was torn inside a character, whatever is still to be undone.
  */
  lemma GivesUpIff(tx: Tx, states: seq<Target>, n: nat, debris: Tree)
    requires Life(tx, states) && n < |states| && states[n].journal.Some?
    ensures var t, walk := states[n], RecoverOne(states[n], tx.Job(), debris);
            var gaveUp := walk.outcome !in {Committed, RolledBack};
            && (gaveUp <==> !ReadJournal(t).Latest? || (t.staging.None? && t.backup.None? && !Finishable(tx, t)))
            && (gaveUp ==> walk.steps == [])
            && (gaveUp && ReadJournal(t).Latest? ==> NothingLeft(tx, t))
            && (ReadJournal(t) in {Empty, Malformed} ==> t == Start(tx).(journal := t.journal))
            && (ReadJournal(t) == Unreadable ==> tx.wide)
            && (gaveUp && !tx.tampered && Clean(t.journal.value) ==>
                  ReadJournal(t) in {Empty, Latest(Prepared)} && t == Start(tx).(journal := t.journal))
  {
    LifeInv(tx, states, n);
    var t := states[n];
    assert ReadJournal(t) in Readings(t.journal.value);
    if Clean(t.journal.value) { GoodLinesRead(t.journal.value.lines); }
    if ReadJournal(t).Latest? {
      if OldAside(tx, t) {
        OldAsideRecovers(tx, t, debris);
      } else if FreshCandidate(tx, t) {
        FreshCandidateGivesUp(tx, t, debris);
      } else if Forward(tx, t) {
        ForwardGivesUp(tx, t, debris);
      } else {
        UntouchedGivesUp(tx, t, debris);
      }
    }
  }

  /** While the old tree is aside recovery goes on exactly as long as the journal can be read. */
  lemma OldAsideRecovers(tx: Tx, t: Target, debris: Tree)
    requires OldAside(tx, t)
    ensures RecoverOne(t, tx.Job(), debris).outcome in {Committed, RolledBack} <==> ReadJournal(t) != Unreadable
    ensures ReadJournal(t).Latest? || ReadJournal(t) == Unreadable
  {
    assert ReadJournal(t) in Readings(t.journal.value);
  }

  lemma FreshCandidateGivesUp(tx: Tx, t: Target, debris: Tree)
    requires FreshCandidate(tx, t) && ReadJournal(t).Latest?
    ensures var walk := RecoverOne(t, tx.Job(), debris);
            && (walk.outcome !in {Committed, RolledBack} <==> !Finishable(tx, t))
            && (walk.outcome !in {Committed, RolledBack} ==> walk.steps == [] && tx.tampered)
  {
    assert ReadJournal(t) in Readings(t.journal.value);
  }

  lemma ForwardGivesUp(tx: Tx, t: Target, debris: Tree)
    requires Forward(tx, t) && ReadJournal(t).Latest?
    ensures var walk := RecoverOne(t, tx.Job(), debris);
            && (walk.outcome !in {Committed, RolledBack} <==> t.backup.None? && !Finishable(tx, t))
            && (walk.outcome !in {Committed, RolledBack} ==> walk.steps == [] && HasBad(t.journal.value.lines))
  {
    assert ReadJournal(t) in Readings(t.journal.value);
  }

  lemma UntouchedGivesUp(tx: Tx, t: Target, debris: Tree)
    requires Untouched(tx, t) && ReadJournal(t).Latest?
    ensures var walk := RecoverOne(t, tx.Job(), debris);
            && (walk.outcome !in {Committed, RolledBack} <==> t.staging.None? && !Finishable(tx, t))
            && (walk.outcome !in {Committed, RolledBack} ==>
                  walk.steps == [] && (ReadJournal(t) == Latest(Prepared) || tx.tampered))
  {
    hide Read, HasBad, AppendSteps, Append, AppendRecord;
    ReadingIsOne(t.journal.value);
  }

  /**
    A journal that cannot be read stays so: no start-up changes anything any more, and of the
    durable state only the candidate can still be damaged.
  */
  lemma {:induction false} UnreadableForever(tx: Tx, states: seq<Target>, n: nat, m: nat)
    requires Life(tx, states) && n <= m < |states| && ReadJournal(states[n]) == Unreadable
    ensures ReadJournal(states[m]) == Unreadable
    ensures states[m] == states[n].(staging := states[m].staging, destination := states[m].destination)
    ensures !tx.tampered ==> states[m] == states[n]
    decreases m
  {
    hide Read, StartUp, RecoverOne;
    if n < m {
      UnreadableForever(tx, states, n, m - 1);
      var t, t' := states[m - 1], states[m];
      assert Next(tx, t, t');
      if !Damage(tx, t, t') {
        var debris, power: nat :| StartUpCut(tx, t, t', debris, power);
        UnreadableStops(t, tx.Job(), debris, power);
      }
    }
  }

  lemma UnreadableStops(t: Target, job: Job, debris: Tree, power: nat)
    requires ReadJournal(t) == Unreadable
    ensures StartUp(t, job, debris) == Walk([], InvalidJournal)
    ensures Cut(t, StartUp(t, job, debris).steps, power) == t
  {}

  /** A row describes what is there. */
  predicate RowIsRight(row: Option<Tree>, tree: Option<Tree>) { row.Some? ==> row == tree }

  /**
    Agreement: whenever no journal is open, destination and catalog row are both as before or
    both as deployed. So a row is at odds with what is on disk only if it was before.
  */
  lemma CatalogAgrees(tx: Tx, states: seq<Target>, n: nat)
    requires Life(tx, states) && n < |states| && states[n].journal.None?
    ensures var t := states[n];
            && (|| (t.destination == tx.before && t.row == tx.oldRow)
                || (t.destination == t.row == Some(tx.snapshot)))
            && (RowIsRight(tx.oldRow, tx.before) ==> RowIsRight(t.row, t.destination))
  {
    LifeInv(tx, states, n);
  }

  /**
    A completed start-up over a journal that was clean closes the transaction, unless recovery
    finds nothing to do: then the target was put back already, or is a first install that was
    damaged after Activated was recorded.
  */
  lemma CleanStartUpCloses(tx: Tx, states: seq<Target>, n: nat, debris: Tree)
    requires Life(tx, states) && n < |states|
    requires states[n].journal.Some? && Clean(states[n].journal.value)
    ensures var t := states[n];
            var walk := StartUp(t, tx.Job(), debris);
            var end := End(t, walk.steps);
            match walk.outcome
            case Committed => end == Target(None, Some(tx.snapshot), None, None, Some(tx.snapshot))
            case RolledBack => end == Start(tx)
            case _ => walk.steps == [] && t.staging.None? && t.backup.None?
                      && (t.destination == tx.before || (tx.tampered && tx.before.None?))
  {
    LifeInv(tx, states, n);
    var t := states[n];
    if RecoverOne(t, tx.Job(), debris).outcome == Committed {
      CleanCommitCloses(tx, t, debris);
    } else {
      RecoverOneHonest(tx, t, debris);
      if RecoverOne(t, tx.Job(), debris).outcome != RolledBack {
        GivenUp(tx, t, debris);
      }
    }
  }

  lemma CleanCommitCloses(tx: Tx, t: Target, debris: Tree)
    requires Inv(tx, t) && t.journal.Some? && Clean(t.journal.value)
    requires RecoverOne(t, tx.Job(), debris).outcome == Committed
    ensures End(t, StartUp(t, tx.Job(), debris).steps) == Target(None, Some(tx.snapshot), None, None, Some(tx.snapshot))
  {
    var walk := RecoverOne(t, tx.Job(), debris);
    RecoverOneHonest(tx, t, debris);
    CleanCommitIsRead(tx, t, debris);
    CommitCatalogInv(tx, End(t, walk.steps));
  }

  lemma GivenUp(tx: Tx, t: Target, debris: Tree)
    requires Inv(tx, t) && t.journal.Some? && Clean(t.journal.value)
    requires RecoverOne(t, tx.Job(), debris).outcome !in {Committed, RolledBack}
    ensures t.staging.None? && t.backup.None?
    ensures t.destination == tx.before || (tx.tampered && tx.before.None?)
  {
    assert ReadJournal(t) in Readings(t.journal.value);
    GoodLinesRead(t.journal.value.lines);
    if OldAside(tx, t) {
      OldAsideRecovers(tx, t, debris);
    } else if Forward(tx, t) {
      CleanForwardRecovers(tx, t, debris);
    }
  }

  lemma CleanForwardRecovers(tx: Tx, t: Target, debris: Tree)
    requires Forward(tx, t) && Clean(t.journal.value)
    ensures RecoverOne(t, tx.Job(), debris).outcome == Committed
  {
    GoodLinesRead(t.journal.value.lines);
  }

  /** A commit appends one Activated record to the journal. */
  lemma CommitAppends(t: Target, job: Job, debris: Tree)
    requires t.journal.Some? && RecoverOne(t, job, debris).outcome == Committed
    ensures End(t, RecoverOne(t, job, debris).steps).journal == Some(Append(t.journal, Activated))
  {
    hide Read, HasBad, AppendSteps, Append, Clean;
    var walk := RecoverOne(t, job, debris);
    if t.staging.Some? {
      assert walk == ActivateVerifiedStaging(t, job, debris);
    } else {
      assert walk.steps == AppendRecord(t, Activated, job.wide) || walk.steps == ThenSettle(t, [], job.wide, debris);
    }
  }

  /** Committing over a clean journal leaves it clean, with Activated to be read. */
  lemma CleanCommitIsRead(tx: Tx, t: Target, debris: Tree)
    requires t.journal.Some? && Clean(t.journal.value)
    requires RecoverOne(t, tx.Job(), debris).outcome == Committed
    ensures var end := End(t, RecoverOne(t, tx.Job(), debris).steps);
            end.journal.Some? && Clean(end.journal.value) && ReadJournal(end) == Latest(Activated)
  {
    CommitAppends(t, tx.Job(), debris);
    AppendIsRead(t.journal.value, Activated);
  }

  /**
    When the start-up that commits also closes the transaction: exactly if the journal is clean, or
    the lines its append keeps already read Activated. An open line is lost to the append, even if
    it is a whole Activated record.
  */
  lemma CommitClosesIff(tx: Tx, states: seq<Target>, n: nat, debris: Tree)
    requires Life(tx, states) && n < |states| && states[n].journal.Some?
    requires RecoverOne(states[n], tx.Job(), debris).outcome == Committed
    ensures var t, file := states[n], states[n].journal.value;
            var end := End(t, StartUp(t, tx.Job(), debris).steps);
            && (end.journal.None? <==> Clean(file) || Read(Kept(file)) == Latest(Activated))
            && end == Target(end.journal, Some(tx.snapshot), None, None, Some(tx.snapshot))
  {
    LifeInv(tx, states, n);
    var t := states[n];
    RecoverOneHonest(tx, t, debris);
    CommitAppends(t, tx.Job(), debris);
    AppendReadsIff(t.journal.value, Activated);
    CommitCatalogInv(tx, End(t, RecoverOne(t, tx.Job(), debris).steps));
  }

  /** `t` is what a completed, committed recovery leaves behind. */
  predicate JustCommitted(tx: Tx, t: Target) {
    Forward(tx, t) && t.backup.None?
  }

  /**
    Recovery after Committed, before the acknowledgement: it commits again and leaves every slot
    alone exactly when Activated can be read back or the target is a first install, with a journal
    that can be read. Otherwise it gives up, for good.
  */
  lemma RecoveryIsRepeatable(tx: Tx, t: Target, debris: Tree)
    requires JustCommitted(tx, t)
    ensures var walk := RecoverOne(t, tx.Job(), debris);
            var end := End(t, walk.steps);
            && (walk.outcome == Committed
                <==> ReadJournal(t) == Latest(Activated) || (tx.before.None? && ReadJournal(t) != Unreadable))
            && (walk.outcome == Committed ==> end == t.(journal := end.journal) && JustCommitted(tx, end))
            && (walk.outcome != Committed ==> walk.steps == [] && walk.outcome in {Unrecoverable, InvalidJournal})
            && (forall s :: s in walk.steps ==> s == t.(journal := s.journal))
  {
    assert ReadJournal(t) in Readings(t.journal.value);
    if ReadJournal(t) == Latest(Activated) || (tx.before.None? && ReadJournal(t) != Unreadable) {
      RepeatedWalk(tx, t, debris);
      ActivatedAppend(tx, t);
      AppendWithin(t, Activated, ForwardPhases(tx), tx.wide);
    }
  }

  lemma RepeatedWalk(tx: Tx, t: Target, debris: Tree)
    requires JustCommitted(tx, t)
    requires ReadJournal(t) == Latest(Activated) || (tx.before.None? && ReadJournal(t) != Unreadable)
    ensures RecoverOne(t, tx.Job(), debris) == Walk(AppendRecord(t, Activated, tx.wide), Committed)
  {
    assert ReadJournal(t) in {Latest(Activated), Latest(Prepared)} by {
      hide Read, HasBad, RecoverOne;
      ReadingIsOne(t.journal.value);
    }
    CommittedWalk(t, tx.Job(), debris);
  }

  lemma CommittedWalk(t: Target, job: Job, debris: Tree)
    requires t.destination == Some(job.snapshot) && t.staging.None? && t.backup.None?
    requires ReadJournal(t) == Latest(Activated) || (ReadJournal(t) == Latest(Prepared) && !job.replacedExisting)
    ensures RecoverOne(t, job, debris) == Walk(AppendRecord(t, Activated, job.wide), Committed)
  {
    hide Read, HasBad, AppendSteps, Append;
    SettlesByAppending(t, job.wide, debris);
  }

  lemma SettlesByAppending(t: Target, wide: bool, debris: Tree)
    requires t.backup.None?
    ensures ThenSettle(t, [], wide, debris) == AppendRecord(t, Activated, wide)
  {
    hide AppendSteps, Append, AppendRecord;
    var recorded := AppendRecord(t, Activated, wide);
    assert RemoveBackup(End(t, recorded), debris) == [];
    assert [] + (recorded + []) == recorded;
  }

  /** The acknowledgement of a committed deployment is accepted exactly when Activated is read. */
  lemma AcknowledgedIffActivatedIsRead(tx: Tx, t: Target)
    requires JustCommitted(tx, t)
    ensures (End(t, Acknowledge(t, tx.Job())).journal.None?) <==> ReadJournal(t) == Latest(Activated)
  {
  }
}
