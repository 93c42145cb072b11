/**
  What holds of a deployment target in every state of every run: an install cut anywhere, then
  any number of start-ups cut anywhere, with the candidate damaged in between.
*/
module DeploymentRuns {
  import opened Prelude
  import opened Journals
  import opened Trees
  import opened Walks
  import opened Deployment

  /**
    One deployment: what the destination and the catalog row held before, which need not agree, as
    when a user has edited or deleted the deployed directory; what is deployed,
    whether anybody else ever touches the candidate tree, and whether the paths in the journal's
    records hold characters of several bytes.
  */
  datatype Tx = Tx(before: Option<Tree>, oldRow: Option<Tree>, snapshot: Tree, tampered: bool, wide: bool) {
    function Job(): Deployment.Job { Deployment.Job(snapshot, before.Some?, wide) }
  }

  /** Now and after any torn append, the file reads as one of `phases`, if it can be read. */
  predicate ReadsWithin(file: File<Phase>, phases: set<Phase>, wide: bool) {
    forall r :: r in Readings(file) ==> (r.Latest? && r.value in phases) || (r == Unreadable && wide)
  }

  /** No reading of the file, now or after a torn append, is one of `phases`. */
  predicate NeverReads(file: File<Phase>, phases: set<Phase>, wide: bool) {
    forall r :: r in Readings(file) ==> (r.Latest? ==> r.value !in phases) && (r == Unreadable ==> wide)
  }

  /** Activated is what the journal reads, unless a record was lost to a torn line. */
  predicate Settled(file: File<Phase>) {
    Read(file.lines) == Latest(Activated) || HasBad(file.lines)
  }

  // ---- The invariant, case by case --------------------------------------------------------

  /** No transaction is open; the target is as before or as deployed, and the row says so. */
  predicate Closed(tx: Tx, t: Target) {
    && t.journal.None? && t.backup.None?
    && ((t.destination == tx.before && t.row == tx.oldRow)
        || (t.destination == t.row == Some(tx.snapshot) && t.staging.None?))
  }

  /**
    The destination has not been touched, or (after damage to the candidate) has been put back.
  */
  predicate Untouched(tx: Tx, t: Target) {
    && t.journal.Some? && t.destination == tx.before && t.backup.None? && t.row == tx.oldRow
    && if t.staging.Some? then ReadsWithin(t.journal.value, {Intent, Prepared}, tx.wide)
       else
         || NeverReads(t.journal.value, {OldMoved, Activated}, tx.wide)
         || (tx.tampered && tx.before.Some?
             && ReadsWithin(t.journal.value, {Prepared, OldMoved, Activated}, tx.wide))
  }

  /** The old tree is in the backup slot, intact, and the candidate in staging or in place. */
  predicate OldAside(tx: Tx, t: Target) {
    && t.journal.Some? && tx.before.Some? && t.backup == tx.before && t.row == tx.oldRow
    && if t.staging.Some? then
         && t.destination.None? && (tx.tampered || t.staging == Some(tx.snapshot))
         && ReadsWithin(t.journal.value, {Prepared, OldMoved}, tx.wide)
       else
         && (tx.tampered || t.destination == Some(tx.snapshot))
         && ReadsWithin(t.journal.value, {Prepared, OldMoved, Activated}, tx.wide)
  }

  /** A first install whose candidate is in place (or has been damaged or removed there). */
  predicate FreshCandidate(tx: Tx, t: Target) {
    && t.journal.Some? && tx.before.None? && t.staging.None? && t.backup.None? && t.row == tx.oldRow
    && (tx.tampered || t.destination == Some(tx.snapshot))
    && ReadsWithin(t.journal.value, {Prepared, Activated}, tx.wide)
  }

  function ForwardPhases(tx: Tx): set<Phase> {
    if tx.before.Some? then {Prepared, OldMoved, Activated} else {Prepared, Activated}
  }

  /** The snapshot is in place for good; the backup may be going. */
  predicate Forward(tx: Tx, t: Target) {
    && t.journal.Some? && t.destination == Some(tx.snapshot) && t.staging.None?
    && (t.row == tx.oldRow || (t.row == Some(tx.snapshot) && t.backup.None?))
    && (tx.before.None? ==> t.backup.None?)
    && ReadsWithin(t.journal.value, ForwardPhases(tx), tx.wide)
    && Settled(t.journal.value)
  }

  predicate Inv(tx: Tx, t: Target) {
    || Closed(tx, t) || Untouched(tx, t) || OldAside(tx, t) || FreshCandidate(tx, t) || Forward(tx, t)
  }

  predicate AllInv(tx: Tx, steps: seq<Target>) {
    forall s :: s in steps ==> Inv(tx, s)
  }

  // ---- Walks that keep the invariant --------------------------------------------------------

  /** Appending `phase` keeps every reading within `phases`, at each point of the append. */
  lemma AppendWithin(t: Target, phase: Phase, phases: set<Phase>, wide: bool)
    requires t.journal.Some? && ReadsWithin(t.journal.value, phases, wide) && phase in phases
    ensures forall s :: s in AppendRecord(t, phase, wide) ==>
              && s == t.(journal := s.journal) && s.journal.Some?
              && ReadsWithin(s.journal.value, phases, wide)
    ensures var end := End(t, AppendRecord(t, phase, wide));
            && end == t.(journal := end.journal) && end.journal.Some?
            && ReadsWithin(end.journal.value, phases, wide)
            && (HasBad(end.journal.value.lines) || ReadJournal(end) == Latest(phase))
    ensures phase == Activated && Settled(t.journal.value) ==>
              forall s :: s in AppendRecord(t, phase, wide) ==> Settled(s.journal.value)
  {
    var file := t.journal.value;
    AppendReadings(file, phase, wide);
    AppendReadOrBad(file, phase, wide);
    assert Read(file.lines) in Readings(file);
    forall s | s in AppendRecord(t, phase, wide)
      ensures s == t.(journal := s.journal) && s.journal.Some?
      ensures ReadsWithin(s.journal.value, phases, wide)
      ensures phase == Activated && Settled(file) ==> Settled(s.journal.value)
    {
      var f := s.journal.value;
      assert f in AppendSteps(Some(file), phase, wide);
      assert Read(f.lines) in Readings(f);
      if phase == Activated && Read(file.lines) == Latest(Activated) && !HasBad(f.lines) {
        SettledStep(file, f, wide);
      }
    }
    var steps := AppendRecord(t, phase, wide);
    assert steps[|steps| - 1] in steps;
  }

  /** Appending Activated over Activated reads as Activated wherever nothing is bad. */
  lemma SettledStep(file: File<Phase>, f: File<Phase>, wide: bool)
    requires Read(file.lines) == Latest(Activated) && f in AppendSteps(Some(file), Activated, wide)
    requires !HasBad(f.lines)
    ensures Read(f.lines) == Latest(Activated)
  {
    var front := Kept(file);
    ReadNext(front, f.lines[|front|]);
    assert f.lines == front + [f.lines[|front|]];
  }

  /** The three states in which Activated is recorded. */
  predicate Activatable(tx: Tx, t: Target) {
    && t.destination == Some(tx.snapshot) && t.staging.None?
    && (OldAside(tx, t) || FreshCandidate(tx, t) || Forward(tx, t))
  }

  lemma ActivatedAppend(tx: Tx, t: Target)
    requires Activatable(tx, t)
    ensures AllInv(tx, AppendRecord(t, Activated, tx.wide))
    ensures var end := End(t, AppendRecord(t, Activated, tx.wide));
            Forward(tx, end) && end == t.(journal := end.journal)
  {
    AppendWithin(t, Activated, ForwardPhases(tx), tx.wide);
    forall s | s in AppendRecord(t, Activated, tx.wide) ensures Inv(tx, s) {
      assert s == t.(journal := s.journal);
      if OldAside(tx, t) {
        assert OldAside(tx, s);
      } else if FreshCandidate(tx, t) {
        assert FreshCandidate(tx, s);
      } else {
        assert Forward(tx, s);
      }
    }
  }

  /** Recording Activated and dropping the backup never leaves the invariant. */
  lemma SettleInv(tx: Tx, t: Target, debris: Tree)
    requires Activatable(tx, t)
    ensures AllInv(tx, Settle(t, tx.wide, debris))
    ensures var end := End(t, Settle(t, tx.wide, debris));
            Forward(tx, end) && end == t.(journal := end.journal, backup := None)
  {
    ActivatedAppend(tx, t);
    var end := End(t, AppendRecord(t, Activated, tx.wide));
    forall s | s in RemoveBackup(end, debris) ensures Forward(tx, s) {
    }
  }

  /** Putting the old tree back over whatever is left of the candidate, and closing. */
  lemma RollBackInv(tx: Tx, t: Target, debris: Tree)
    requires OldAside(tx, t) && tx.tampered
    requires t.destination.None? || t.staging.None?
    ensures AllInv(tx, RemoveDestination(t, debris)) && AllInv(tx, RemoveStaging(t, debris))
    ensures t.staging.None? ==>
              RolledBackBy(tx, t, ThenRemoveJournal(t, ThenRestore(t, RemoveDestination(t, debris))))
    ensures t.destination.None? ==>
              RolledBackBy(tx, t, ThenRemoveJournal(t, ThenRestore(t, RemoveStaging(t, debris))))
  {
    var gone := t.(destination := None, staging := None);
    assert OldAside(tx, gone);
    var back := gone.(destination := t.backup, backup := None);
    assert Untouched(tx, back);
    assert Closed(tx, back.(journal := None));
  }

  /** The steps end with no journal and everything as it was before. */
  predicate RolledBackBy(tx: Tx, t: Target, steps: seq<Target>) {
    && AllInv(tx, steps)
    && End(t, steps) == Target(None, tx.before, None, None, tx.oldRow)
  }

  /** The candidate has just been renamed into place, and may have been damaged there. */
  predicate Swapped(tx: Tx, t: Target) {
    if tx.before.Some? then OldAside(tx, t) && t.staging.None? else FreshCandidate(tx, t)
  }

  lemma CheckSwapped(tx: Tx, t: Target, debris: Tree)
    requires Swapped(tx, t)
    ensures var steps := if Verifies(t.destination, tx.snapshot) then Settle(t, tx.wide, debris)
                         else if t.backup.Some? then ThenRemoveJournal(t, ThenRestore(t, RemoveDestination(t, debris)))
                         else ThenRemoveJournal(t, RemoveDestination(t, debris));
            var end := End(t, steps);
            && AllInv(tx, steps)
            && if Verifies(t.destination, tx.snapshot) then
                 Forward(tx, end) && end.backup.None? && end.row == tx.oldRow
               else
                 RolledBackBy(tx, t, steps)
  {
    if Verifies(t.destination, tx.snapshot) {
      SettleInv(tx, t, debris);
    } else if tx.before.Some? {
      RollBackInv(tx, t, debris);
    } else {
      assert Closed(tx, t.(destination := None, journal := None));
    }
  }

  /** What a completed recovery must have achieved, by the outcome it reports. */
  predicate Honest(tx: Tx, t: Target, walk: Walk) {
    && AllInv(tx, walk.steps)
    && match walk.outcome
       case Committed =>
         var end := End(t, walk.steps);
         Forward(tx, end) && end.backup.None?
         && end == t.(journal := end.journal, destination := Some(tx.snapshot), staging := None, backup := None)
       case RolledBack => RolledBackBy(tx, t, walk.steps)
       case _ => walk.steps == []
  }

  /** Recovery keeps the invariant at every step and reports only what it achieved. */
  lemma RecoverOneHonest(tx: Tx, t: Target, debris: Tree)
    requires Inv(tx, t) && t.journal.Some?
    ensures Honest(tx, t, RecoverOne(t, tx.Job(), debris))
  {
    assert Read(t.journal.value.lines) in Readings(t.journal.value);
    if ReadJournal(t) == Unreadable {
      assert RecoverOne(t, tx.Job(), debris) == Walk([], InvalidJournal);
    } else if OldAside(tx, t) {
      RecoverOldAside(tx, t, debris);
    } else if Forward(tx, t) {
      RecoverForward(tx, t, debris);
    } else if FreshCandidate(tx, t) {
      RecoverFreshCandidate(tx, t, debris);
    } else {
      RecoverUntouched(tx, t, debris);
    }
  }

  lemma RecoverOldAside(tx: Tx, t: Target, debris: Tree)
    requires OldAside(tx, t) && ReadJournal(t) != Unreadable
    ensures Honest(tx, t, RecoverOne(t, tx.Job(), debris))
  {
    if t.staging.Some? {
      RecoverMoved(tx, t, debris);
    } else {
      RecoverSwapped(tx, t, debris);
    }
  }

  lemma RecoverMoved(tx: Tx, t: Target, debris: Tree)
    requires OldAside(tx, t) && t.staging.Some? && ReadJournal(t) != Unreadable
    ensures Honest(tx, t, RecoverOne(t, tx.Job(), debris))
  {
    assert Read(t.journal.value.lines) in Readings(t.journal.value);
    assert RecoverOne(t, tx.Job(), debris) == ActivateVerifiedStaging(t, tx.Job(), debris);
    if Verifies(t.staging, tx.snapshot) {
      var renamed := t.(destination := t.staging, staging := None);
      assert OldAside(tx, renamed);
      SettleInv(tx, renamed, debris);
    } else {
      RollBackInv(tx, t, debris);
    }
  }

  lemma RecoverSwapped(tx: Tx, t: Target, debris: Tree)
    requires OldAside(tx, t) && t.staging.None? && ReadJournal(t) != Unreadable
    ensures Honest(tx, t, RecoverOne(t, tx.Job(), debris))
  {
    SwappedWalk(tx, t, debris);
    if Verifies(t.destination, tx.snapshot) {
      SettleInv(tx, t, debris);
    } else {
      RollBackInv(tx, t, debris);
    }
  }

  /** Which walk recovery takes with the old tree aside and nothing staged. */
  lemma SwappedWalk(tx: Tx, t: Target, debris: Tree)
    requires OldAside(tx, t) && t.staging.None? && ReadJournal(t) != Unreadable
    ensures RecoverOne(t, tx.Job(), debris)
         == if Verifies(t.destination, tx.snapshot) then Walk(Settle(t, tx.wide, debris), Committed)
            else Walk(ThenRemoveJournal(t, ThenRestore(t, RemoveDestination(t, debris))), RolledBack)
  {
    assert Read(t.journal.value.lines) in Readings(t.journal.value);
    assert ThenSettle(t, [], tx.wide, debris) == Settle(t, tx.wide, debris);
    assert t.destination.None? ==> ThenRestore(t, RemoveDestination(t, debris)) == RestoreBackup(t);
  }

  /** Which walk recovery takes with the snapshot in place for good. */
  lemma ForwardWalk(tx: Tx, t: Target, debris: Tree)
    requires Forward(tx, t) && ReadJournal(t) != Unreadable
    ensures var walk := RecoverOne(t, tx.Job(), debris);
            if tx.before.None? && ReadJournal(t) == Latest(Prepared) then
              walk == Walk(AppendRecord(t, Activated, tx.wide), Committed)
            else if t.backup.Some? || ReadJournal(t) == Latest(Activated) then
              walk == Walk(Settle(t, tx.wide, debris), Committed)
            else
              walk.steps == [] && walk.outcome !in {Committed, RolledBack}
  {
    hide AppendRecord, Settle, Settled, Readings, HasBad, Read;
    ReadingIsOne(t.journal.value);
    assert ThenSettle(t, [], tx.wide, debris) == Settle(t, tx.wide, debris);
  }

  lemma RecoverForward(tx: Tx, t: Target, debris: Tree)
    requires Forward(tx, t) && ReadJournal(t) != Unreadable
    ensures Honest(tx, t, RecoverOne(t, tx.Job(), debris))
  {
    hide RecoverOne, AppendRecord, Settle, ReadsWithin, Settled, Inv;
    ForwardWalk(tx, t, debris);
    if tx.before.None? && ReadJournal(t) == Latest(Prepared) {
      ActivatedAppend(tx, t);
    } else if t.backup.Some? || ReadJournal(t) == Latest(Activated) {
      SettleInv(tx, t, debris);
    }
  }

  lemma RecoverFreshCandidate(tx: Tx, t: Target, debris: Tree)
    requires FreshCandidate(tx, t) && ReadJournal(t) != Unreadable
    ensures Honest(tx, t, RecoverOne(t, tx.Job(), debris))
  {
    assert Read(t.journal.value.lines) in Readings(t.journal.value);
    var walk := RecoverOne(t, tx.Job(), debris);
    if Verifies(t.destination, tx.snapshot) {
      if ReadJournal(t) == Latest(Prepared) {
        assert walk == Walk(AppendRecord(t, Activated, tx.wide), Committed);
        ActivatedAppend(tx, t);
      } else {
        assert walk == Walk(ThenSettle(t, [], tx.wide, debris), Committed);
        SettleInv(tx, t, debris);
      }
    } else if ReadJournal(t) == Latest(Prepared) && t.destination.Some? {
      assert walk == Walk(ThenRemoveJournal(t, RemoveDestination(t, debris)), RolledBack);
      CheckSwapped(tx, t, debris);
    } else {
      assert walk.steps == [] && walk.outcome !in {Committed, RolledBack};
    }
  }

  /** Dropping the staging tree of a deployment that never touched the destination. */
  lemma DiscardInv(tx: Tx, t: Target, debris: Tree)
    requires Untouched(tx, t)
    ensures RolledBackBy(tx, t, ThenRemoveJournal(t, RemoveStaging(t, debris)))
  {
    if t.staging.Some? {
      assert Untouched(tx, t.(staging := Some(debris)));
      assert Untouched(tx, t.(staging := None));
    }
    assert Closed(tx, t.(staging := None, journal := None));
  }

  lemma RecoverUntouched(tx: Tx, t: Target, debris: Tree)
    requires Untouched(tx, t) && ReadJournal(t) != Unreadable
    ensures Honest(tx, t, RecoverOne(t, tx.Job(), debris))
  {
    var walk := RecoverOne(t, tx.Job(), debris);
    var r := ReadJournal(t);
    assert r in Readings(t.journal.value);
    if t.staging.Some? || r == Latest(Intent) {
      assert walk == Walk(ThenRemoveJournal(t, RemoveStaging(t, debris)), RolledBack);
      DiscardInv(tx, t, debris);
    } else if r == Latest(Activated) && Verifies(t.destination, tx.snapshot) {
      assert walk == Walk(ThenSettle(t, [], tx.wide, debris), Committed);
      SettleInv(tx, t, debris);
    } else {
      NothingLeftToUndo(tx, t, debris);
    }
  }

  /** Put back already, with the journal still there: recovery gives up and changes nothing. */
  lemma NothingLeftToUndo(tx: Tx, t: Target, debris: Tree)
    requires Untouched(tx, t) && t.staging.None? && ReadJournal(t) != Latest(Intent)
    requires !(ReadJournal(t) == Latest(Activated) && Verifies(t.destination, tx.snapshot))
    ensures var walk := RecoverOne(t, tx.Job(), debris);
            walk.steps == [] && walk.outcome !in {Committed, RolledBack}
  {
    assert ReadJournal(t) in Readings(t.journal.value);
  }

  // ---- Deployment -------------------------------------------------------------------------

  /** The circumstances of an untampered deployment leave the activated tree as it was staged. */
  predicate Possible(tx: Tx, c: Circumstances) {
    tx.tampered || c.active == Some(tx.snapshot)
  }

  /** The target before the deployment. */
  function Start(tx: Tx): Target {
    Target(None, tx.before, None, None, tx.oldRow)
  }

  /** Nothing but, at worst, a leftover staging tree tells this state from the start. */
  predicate Abandoned(tx: Tx, t: Target, clean: bool) {
    && t == Start(tx).(staging := t.staging)
    && (clean ==> t.staging.None?)
  }

  lemma AbandonStagingInv(tx: Tx, t: Target, c: Circumstances)
    requires Untouched(tx, t) && ReadsWithin(t.journal.value, {Intent, Prepared}, tx.wide)
    ensures AllInv(tx, AbandonStaging(t, c))
    ensures Abandoned(tx, End(t, AbandonStaging(t, c)), c.cleanUpWorks)
  {
    DiscardInv(tx, t, c.debris);
    var kept := t.(staging := if t.staging.Some? then Some(c.debris) else None);
    assert Untouched(tx, kept);
    assert Closed(tx, kept.(journal := None));
    if !c.cleanUpWorks {
      var steps := RemoveStaging(t, c.debris)[..if t.staging.Some? then 1 else 0];
      assert steps == if t.staging.Some? then [kept] else [];
      assert AbandonStaging(t, c) == steps + [kept.(journal := None)];
    }
  }

  /** The journal's first append, over an untouched target. */
  lemma IntentAppend(tx: Tx)
    ensures AllInv(tx, AppendRecord(Start(tx), Intent, tx.wide))
    ensures forall s :: s in AppendRecord(Start(tx), Intent, tx.wide) ==>
              s == Start(tx).(journal := s.journal)
    ensures var end := End(Start(tx), AppendRecord(Start(tx), Intent, tx.wide));
            Untouched(tx, end) && Clean(end.journal.value)
            && ReadsWithin(end.journal.value, {Intent, Prepared}, tx.wide)
  {
    hide Read, HasBad, Readings, Append, AppendSteps, Clean;
    FirstAppendReadings(Intent, tx.wide);
    CleanReadsOneWay(Append(None, Intent));
    forall s | s in AppendRecord(Start(tx), Intent, tx.wide) ensures Untouched(tx, s) {
      assert s.journal.value in AppendSteps(None, Intent, tx.wide);
      assert NeverReads(s.journal.value, {OldMoved, Activated}, tx.wide);
    }
  }

  /** The Prepared append, over an untouched target with a verified staging tree. */
  lemma PreparedAppend(tx: Tx, t: Target)
    requires Untouched(tx, t) && Clean(t.journal.value)
    requires ReadsWithin(t.journal.value, {Intent, Prepared}, tx.wide)
    ensures forall s :: s in AppendRecord(t, Prepared, tx.wide) ==>
              && s == t.(journal := s.journal) && Untouched(tx, s)
              && ReadsWithin(s.journal.value, {Intent, Prepared}, tx.wide)
    ensures Clean(End(t, AppendRecord(t, Prepared, tx.wide)).journal.value)
    ensures var end := End(t, AppendRecord(t, Prepared, tx.wide));
            ReadJournal(end) == Latest(Prepared)
            && ReadsWithin(end.journal.value, {Prepared, OldMoved}, tx.wide)
            && ReadsWithin(end.journal.value, {Prepared, Activated}, tx.wide)
  {
    hide Read, HasBad, Readings, Append, AppendSteps, Clean;
    AppendWithin(t, Prepared, {Intent, Prepared}, tx.wide);
    AppendIsRead(t.journal.value, Prepared);
    CleanReadsOneWay(Append(t.journal, Prepared));
  }

  lemma PrepareInv(tx: Tx, c: Circumstances)
    ensures var (steps, ready) := Prepare(Start(tx), tx.Job(), c);
            var end := End(Start(tx), steps);
            && AllInv(tx, steps)
            && if ready then
                 && end == Start(tx).(journal := end.journal, staging := Some(tx.snapshot))
                 && end.journal.Some? && Clean(end.journal.value)
                 && ReadsWithin(end.journal.value, {Prepared, OldMoved}, tx.wide)
                 && ReadsWithin(end.journal.value, {Prepared, Activated}, tx.wide)
               else Abandoned(tx, end, c.cleanUpWorks)
  {
    hide Read, HasBad, Readings, AppendSteps, Append, ReadsWithin, NeverReads, Clean;
    var t := Start(tx);
    IntentAppend(tx);
    var intent := AppendRecord(t, Intent, tx.wide);
    var empty := End(t, intent);
    var staged := [empty.(staging := Some(c.debris)), empty.(staging := c.staged)];
    var ready := staged[1];
    assert Untouched(tx, staged[0]) && Untouched(tx, ready);
    if !Verifies(ready.staging, tx.snapshot) {
      AbandonStagingInv(tx, ready, c);
    } else {
      PreparedAppend(tx, ready);
      var prepared := AppendRecord(ready, Prepared, tx.wide);
      if c.preparedFails.Some? {
        var torn := Taken(prepared, c.preparedFails.value);
        assert forall s :: s in torn ==> s in prepared;
        AbandonStagingInv(tx, End(ready, torn), c);
      }
    }
  }

  /** Ready to be swapped in: staged and verified, Prepared on record. */
  predicate Ready(tx: Tx, t: Target) {
    && t.journal.Some?
    && t == Start(tx).(journal := t.journal, staging := Some(tx.snapshot))
    && ReadsWithin(t.journal.value, {Prepared, OldMoved}, tx.wide)
    && ReadsWithin(t.journal.value, {Prepared, Activated}, tx.wide)
  }

  /** Moving the old tree aside, and then the candidate into its place. */
  lemma SwapInv(tx: Tx, t: Target, active: Option<Tree>)
    requires Ready(tx, t) && (tx.tampered || active == Some(tx.snapshot))
    ensures var moved := t.(destination := None, backup := t.destination);
            var aside := if tx.before.Some? then [moved] + AppendRecord(moved, OldMoved, tx.wide) else [];
            var clear := End(t, aside);
            var renamed := clear.(destination := clear.staging, staging := None);
            AllInv(tx, aside) && Swapped(tx, renamed) && Swapped(tx, renamed.(destination := active))
  {
    if tx.before.Some? {
      var moved := t.(destination := None, backup := t.destination);
      AppendWithin(moved, OldMoved, {Prepared, OldMoved}, tx.wide);
      assert OldAside(tx, moved);
      forall s | s in AppendRecord(moved, OldMoved, tx.wide) ensures OldAside(tx, s) {
      }
    }
  }

  lemma ActivateInv(tx: Tx, t: Target, c: Circumstances)
    requires Possible(tx, c) && Ready(tx, t)
    ensures var walk := Activate(t, tx.Job(), c);
            var end := End(t, walk.steps);
            && AllInv(tx, walk.steps)
            && if walk.outcome == Committed then
                 Forward(tx, end) && end.backup.None? && end.row == tx.oldRow
               else
                 end == Start(tx)
  {
    hide AppendSteps, Append, AppendRecord, ReadsWithin, NeverReads, Settled;
    var moved := t.(destination := None, backup := t.destination);
    var aside := if tx.before.Some? then [moved] + AppendRecord(moved, OldMoved, tx.wide) else [];
    var clear := End(t, aside);
    var renamed := clear.(destination := clear.staging, staging := None);
    var found := renamed.(destination := c.active);
    SwapInv(tx, t, c.active);
    CheckSwapped(tx, found, c.debris);
    assert Inv(tx, renamed) && Inv(tx, found);
    assert AllInv(tx, aside + [renamed, found]);
  }

  /**
    Every state of a deployment satisfies the invariant; it commits only with the snapshot in
    place, and whenever it reports failure the target is as it was before.
  */
  lemma DeployInv(tx: Tx, c: Circumstances)
    requires Possible(tx, c)
    ensures var walk := Deploy(Start(tx), tx.Job(), c);
            var end := End(Start(tx), walk.steps);
            && AllInv(tx, walk.steps)
            && if walk.outcome == Committed then
                 Forward(tx, end) && end.backup.None? && end.row == tx.oldRow
               else
                 Abandoned(tx, end, c.cleanUpWorks)
  {
    hide Prepare, Activate, Inv, Forward, Possible;
    PrepareInv(tx, c);
    var (steps, ready) := Prepare(Start(tx), tx.Job(), c);
    if ready {
      ActivateInv(tx, End(Start(tx), steps), c);
    }
  }

  // ---- The catalog half -------------------------------------------------------------------

  lemma CommitCatalogInv(tx: Tx, t: Target)
    requires Forward(tx, t) && t.backup.None?
    ensures AllInv(tx, CommitCatalog(t, tx.Job()))
    ensures End(t, CommitCatalog(t, tx.Job()))
         == t.(row := Some(tx.snapshot),
               journal := if ReadJournal(t) == Latest(Activated) then None else t.journal)
  {
    var recorded := t.(row := Some(tx.snapshot));
    assert Forward(tx, recorded);
    assert Closed(tx, recorded.(journal := None));
  }

  lemma InstallInv(tx: Tx, c: Circumstances)
    requires Possible(tx, c)
    ensures AllInv(tx, Install(Start(tx), tx.Job(), c).steps)
  {
    DeployInv(tx, c);
    var walk := Deploy(Start(tx), tx.Job(), c);
    if walk.outcome == Committed {
      CommitCatalogInv(tx, End(Start(tx), walk.steps));
    }
  }

  lemma StartUpInv(tx: Tx, t: Target, debris: Tree)
    requires Inv(tx, t) && t.journal.Some?
    ensures AllInv(tx, StartUp(t, tx.Job(), debris).steps)
  {
    RecoverOneHonest(tx, t, debris);
    var walk := RecoverOne(t, tx.Job(), debris);
    if walk.outcome == Committed {
      CommitCatalogInv(tx, End(t, walk.steps));
    }
  }

  // ---- Runs -------------------------------------------------------------------------------

  /**
    What the world may do to the candidate between runs: change or remove the staging tree, and
    change or remove the candidate in the destination, as long as the old tree is intact in the
    backup slot or, for a first install, the catalog row is as it was.
  */
  predicate Damage(tx: Tx, t: Target, t': Target) {
    && tx.tampered && t.journal.Some?
    && t' == t.(staging := t'.staging, destination := t'.destination)
    && (t.staging.None? ==> t'.staging.None?)
    && (t'.destination != t.destination ==>
          t.destination.Some? && t.staging.None?
          && if tx.before.Some? then t.backup == tx.before else t.row == tx.oldRow)
  }

  /** A start-up that gets as far as `power` steps. */
  predicate StartUpCut(tx: Tx, t: Target, t': Target, debris: Tree, power: nat) {
    t.journal.Some? && t' == Cut(t, StartUp(t, tx.Job(), debris).steps, power)
  }

  predicate InstallCut(tx: Tx, t: Target, c: Circumstances, power: nat) {
    Possible(tx, c) && t == Cut(Start(tx), Install(Start(tx), tx.Job(), c).steps, power)
  }

  ghost predicate Next(tx: Tx, t: Target, t': Target) {
    || Damage(tx, t, t')
    || exists debris, power: nat :: StartUpCut(tx, t, t', debris, power)
  }

  /** A life of the target: an install cut anywhere, then start-ups and damage. */
  ghost predicate Life(tx: Tx, states: seq<Target>) {
    && states != []
    && (exists c, power: nat :: InstallCut(tx, states[0], c, power))
    && forall i :: 0 < i < |states| ==> Next(tx, states[i - 1], states[i])
  }

  lemma FoundAfterCrash(tx: Tx, t: Target, c: Circumstances, power: nat)
    requires InstallCut(tx, t, c, power)
    ensures Life(tx, [t])
  {
    var life := [t];
    assert InstallCut(tx, life[0], c, power);
  }

  lemma CutInv(tx: Tx, t: Target, steps: seq<Target>, power: nat)
    requires Inv(tx, t) && AllInv(tx, steps)
    ensures Inv(tx, Cut(t, steps, power))
  {
  }

  lemma DamageInv(tx: Tx, t: Target, t': Target)
    requires Inv(tx, t) && Damage(tx, t, t')
    ensures Inv(tx, t')
  {
  }

  /** Every state of every life satisfies the invariant. */
  lemma {:induction false} LifeInv(tx: Tx, states: seq<Target>, n: nat)
    requires Life(tx, states) && n < |states|
    ensures Inv(tx, states[n])
  {
    if n == 0 {
      var c, power: nat :| InstallCut(tx, states[0], c, power);
      InstallInv(tx, c);
      assert Closed(tx, Start(tx));
      CutInv(tx, Start(tx), Install(Start(tx), tx.Job(), c).steps, power);
    } else {
      LifeInv(tx, states, n - 1);
      var t, t' := states[n - 1], states[n];
      if Damage(tx, t, t') {
        DamageInv(tx, t, t');
      } else {
        var debris, power: nat :| StartUpCut(tx, t, t', debris, power);
        StartUpInv(tx, t, debris);
        CutInv(tx, t, StartUp(t, tx.Job(), debris).steps, power);
      }
    }
  }
}
