/**
  Damage after the point of no return. Once Activated is durable the backup is destroyed, and the
  old tree no longer survives damage to the candidate; once the catalog row is written, it no longer
  describes a damaged one. These runs allow such damage as long as the journal is open, and remember
  whether the destruction of the backup has begun.
*/
module DeploymentLateDamage {
  import opened Prelude
  import opened Journals
  import opened Trees
  import opened Walks
  import opened Deployment
  import opened DeploymentRuns
  import opened DeploymentTheorems
  import opened DeploymentCrashes

  /** A state of a run, and whether the first step of a backup's removal has been taken in it. */
  datatype Moment = Moment(target: Target, dropped: bool)

  // ---- Runs -------------------------------------------------------------------------------

  /** From `u` to `v` the removal of the backup begins. */
  predicate IsDrop(u: Target, v: Target, debris: Tree) {
    u.backup.Some? && v == RemoveBackup(u, debris)[0]
  }

  predicate DropsIn(t: Target, steps: seq<Target>, debris: Tree) {
    exists k :: 0 <= k < |steps| && IsDrop(End(t, steps[..k]), steps[k], debris)
  }

  /** What a removal leaves half-way is never the whole old tree. */
  predicate LateInstall(tx: Tx, m: Moment, c: Circumstances, power: nat) {
    && InstallCut(tx, m.target, c, power) && Some(c.debris) != tx.before
    && m.dropped == DropsIn(Start(tx), Taken(Install(Start(tx), tx.Job(), c).steps, power), c.debris)
  }

  predicate LateStartUp(tx: Tx, m: Moment, m': Moment, debris: Tree, power: nat) {
    && StartUpCut(tx, m.target, m'.target, debris, power) && Some(debris) != tx.before
    && m'.dropped == (m.dropped || DropsIn(m.target, Taken(StartUp(m.target, tx.Job(), debris).steps, power), debris))
  }

  /** The candidate of a replacement is past staging, and the row is as it was. */
  predicate Exposed(tx: Tx, t: Target) {
    && tx.tampered && tx.before.Some? && t.journal.Some? && t.staging.None? && t.row == tx.oldRow
    && ReadsWithin(t.journal.value, {Prepared, OldMoved, Activated}, tx.wide)
  }

  /** The row records the snapshot and the backup is gone, but the journal is still open. */
  predicate Recorded(tx: Tx, t: Target) {
    && tx.tampered && t.backup.None? && t.row == Some(tx.snapshot)
    && Forward(tx, t.(destination := Some(tx.snapshot)))
  }

  /** The candidate in the destination is changed or removed, whatever has become of backup and row. */
  predicate LateDamage(tx: Tx, t: Target, t': Target) {
    && (Recorded(tx, t) || (Exposed(tx, t) && (t.backup.Some? || t.destination == Some(tx.snapshot))))
    && t' == t.(destination := t'.destination)
  }

  ghost predicate LateNext(tx: Tx, m: Moment, m': Moment) {
    || (m'.dropped == m.dropped && (Damage(tx, m.target, m'.target) || LateDamage(tx, m.target, m'.target)))
    || exists debris, power: nat :: LateStartUp(tx, m, m', debris, power)
  }

  /** A life in which the candidate is never safe while the journal is open. */
  ghost predicate LateLife(tx: Tx, moments: seq<Moment>) {
    && moments != []
    && (exists c, power: nat :: LateInstall(tx, moments[0], c, power))
    && forall i :: 0 < i < |moments| ==> LateNext(tx, moments[i - 1], moments[i])
  }

  // ---- What holds in them -----------------------------------------------------------------

  /** Where the removal of the backup may have begun: past staging, or closed. */
  predicate Later(tx: Tx, t: Target) {
    t.journal.Some? ==>
      t.staging.None? && ReadsWithin(t.journal.value, {Prepared, OldMoved, Activated}, tx.wide)
  }

  predicate LateShape(tx: Tx, t: Target) {
    Inv(tx, t) || Exposed(tx, t) || Recorded(tx, t) || (t.journal.None? && t.backup.None?)
  }

  predicate MomentInv(tx: Tx, m: Moment) {
    && LateShape(tx, m.target)
    && (m.target.backup.Some? ==> (m.dropped <==> m.target.backup != tx.before))
    && (m.dropped ==> tx.before.Some? && Later(tx, m.target))
  }

  /**
    A walk in two parts: the first leaves the backup as it was or, before any removal, has the old
    tree there; the second either begins with its removal or has it gone, and is past staging.
  */
  predicate Splits(tx: Tx, m: Moment, a: seq<Target>, b: seq<Target>, debris: Tree) {
    var t := m.target;
    && (forall s :: s in a ==> s.backup == t.backup || (!m.dropped && (s.backup.None? || s.backup == tx.before)))
    && (forall s :: s in b ==> Later(tx, s))
    && (forall k :: 0 <= k < |b| && b[k].backup.Some? ==> k == 0 && IsDrop(End(t, a), b[0], debris))
  }

  lemma TakenOf(t: Target, a: seq<Target>, b: seq<Target>, power: nat)
    ensures power <= |a| ==> Taken(a + b, power) == a[..power]
    ensures power > |a| ==>
              Taken(a + b, power) == a + Taken(b, power - |a|) && (b != [] ==> Taken(b, power - |a|) != [])
    ensures Cut(t, a + b, power) == End(t, Taken(a + b, power))
  {
    if power <= |a| {
      assert (a + b)[..power] == a[..power];
    } else if power < |a + b| {
      assert (a + b)[..power] == a + b[..power - |a|];
    }
  }

  /** The removal is begun by the cut exactly if the second part has been entered with it. */
  lemma DropsOf(t: Target, a: seq<Target>, b: seq<Target>, debris: Tree, power: nat)
    requires forall s :: s in a ==> s.backup != Some(debris)
    ensures DropsIn(t, Taken(a + b, power), debris) ==> power > |a| && b != []
    ensures power > |a| && b != [] && IsDrop(End(t, a), b[0], debris) ==> DropsIn(t, Taken(a + b, power), debris)
  {
    TakenOf(t, a, b, power);
    var taken := Taken(a + b, power);
    forall k | 0 <= k < |taken| && k < |a| ensures !IsDrop(End(t, taken[..k]), taken[k], debris) {
      assert taken[k] in a;
    }
    if power > |a| && b != [] {
      assert taken[..|a|] == a && taken[|a|] == b[0];
    }
  }

  /** A state of the first part: the backup as it was, or the old tree there before any removal. */
  lemma FirstPartMoment(tx: Tx, m: Moment, s: Target)
    requires MomentInv(tx, m) && LateShape(tx, s) && (m.dropped ==> Later(tx, s))
    requires s.backup == m.target.backup || (!m.dropped && (s.backup.None? || s.backup == tx.before))
    ensures MomentInv(tx, Moment(s, m.dropped))
  {
    hide LateShape, Later;
  }

  /** A state of the second part: the removal has begun with it, or there is no backup. */
  lemma SecondPartMoment(tx: Tx, m: Moment, s: Target, dropped: bool, debris: Tree)
    requires MomentInv(tx, m) && LateShape(tx, s) && Later(tx, s) && (m.dropped ==> dropped)
    requires s.backup.Some? ==> dropped && s.backup == Some(debris) && Some(debris) != tx.before
    requires dropped && !m.dropped ==> tx.before.Some?
    ensures MomentInv(tx, Moment(s, dropped))
  {
    hide LateShape, Later;
  }

  /** A cut that does not get into the second part. */
  lemma CutInFirstPart(tx: Tx, m: Moment, a: seq<Target>, b: seq<Target>, debris: Tree, power: nat)
    requires Splits(tx, m, a, b, debris) && (power <= |a| || b == [])
    ensures var s := Cut(m.target, a + b, power);
            && (s == m.target || s in a)
            && (s.backup == m.target.backup || (!m.dropped && (s.backup.None? || s.backup == tx.before)))
  {
    hide Later;
    if b == [] { assert a + b == a; }
    if power < |a + b| { assert (a + b)[..power] == a[..power]; }
  }

  /** A cut in the second part. */
  lemma CutInSecondPart(tx: Tx, m: Moment, a: seq<Target>, b: seq<Target>, debris: Tree, power: nat)
    requires Splits(tx, m, a, b, debris) && power > |a| && b != []
    ensures var s := Cut(m.target, a + b, power);
            && s in b && Later(tx, s)
            && (s.backup.Some? ==> s == b[0] && IsDrop(End(m.target, a), b[0], debris))
  {
    hide Later;
    var steps := a + b;
    var k := if power < |steps| then power - |a| - 1 else |b| - 1;
    assert Cut(m.target, steps, power) == b[k];
  }

  /** A walk that splits keeps what holds at every moment, wherever it is cut. */
  lemma SplitMoment(tx: Tx, m: Moment, steps: seq<Target>, a: seq<Target>, b: seq<Target>,
                    debris: Tree, power: nat, m': Moment)
    requires MomentInv(tx, m) && steps == a + b && Splits(tx, m, a, b, debris) && Some(debris) != tx.before
    requires forall s :: s in steps ==> LateShape(tx, s)
    requires m.dropped ==> forall s :: s in a ==> Later(tx, s)
    requires m'.target == Cut(m.target, steps, power)
    requires m'.dropped == (m.dropped || DropsIn(m.target, Taken(steps, power), debris))
    ensures MomentInv(tx, m')
  {
    hide LateShape, Later, DropsIn, Taken;
    DropsBefore(tx, m, a, b, debris, power);
    if power <= |a| || b == [] {
      CutInFirstPart(tx, m, a, b, debris, power);
      FirstPartMoment(tx, m, m'.target);
    } else {
      CutInSecondPart(tx, m, a, b, debris, power);
      SecondPartMoment(tx, m, m'.target, m'.dropped, debris);
    }
    assert m' == Moment(m'.target, m'.dropped);
  }

  /** What the cut says about the removal. */
  lemma DropsBefore(tx: Tx, m: Moment, a: seq<Target>, b: seq<Target>, debris: Tree, power: nat)
    requires MomentInv(tx, m) && Splits(tx, m, a, b, debris) && Some(debris) != tx.before
    ensures var drops := DropsIn(m.target, Taken(a + b, power), debris);
            && (!m.dropped && drops ==> power > |a| && b != [] && tx.before.Some?)
            && (power > |a| && b != [] && IsDrop(End(m.target, a), b[0], debris) ==> m.dropped || drops)
  {
    hide LateShape, Later;
    if !m.dropped {
      DropsOf(m.target, a, b, debris, power);
      if DropsIn(m.target, Taken(a + b, power), debris) && tx.before.None? {
        NothingDrops(tx, m, a, b, debris, power);
      }
    }
  }

  /** Without an old tree there is no backup to be removed. */
  lemma NothingDrops(tx: Tx, m: Moment, a: seq<Target>, b: seq<Target>, debris: Tree, power: nat)
    requires MomentInv(tx, m) && Splits(tx, m, a, b, debris) && tx.before.None? && !m.dropped
    ensures !DropsIn(m.target, Taken(a + b, power), debris)
  {
    hide LateShape, Later;
    var t, taken := m.target, Taken(a + b, power);
    assert t.backup.None?;
    assert forall s :: s in a ==> s.backup.None?;
    assert a != [] ==> End(t, a) in a;
    assert forall s :: s in b ==> s.backup.None?;
    forall k | 0 <= k < |taken| ensures !IsDrop(End(t, taken[..k]), taken[k], debris) {
      assert k > 0 ==> End(t, taken[..k]) == taken[k - 1] && taken[k - 1] in a + b;
    }
  }

  // ---- The walks, in two parts ------------------------------------------------------------

  /** Of `t` only slots other than the backup are changed, and the journal at most by an Activated append. */
  predicate KeepsBackup(t: Target, s: Target, wide: bool) {
    && s == t.(journal := s.journal, destination := s.destination, staging := s.staging)
    && (t.staging.None? ==> s.staging.None?)
    && (s.journal == t.journal || (s.journal.Some? && s.journal.value in AppendSteps(t.journal, Activated, wide)))
  }

  /** The second part of a recovery: the removal of the backup, or its restoration, or nothing. */
  predicate SecondPart(t: Target, job: Job, debris: Tree, a: seq<Target>, b: seq<Target>) {
    var u := End(t, a);
    match RecoverOne(t, job, debris).outcome
    case Committed =>
      b == RemoveBackup(u, debris) && u.staging.None? && u.destination == Some(job.snapshot)
      && u.journal == Some(Append(t.journal, Activated))
    case RolledBack =>
      if t.backup.Some? then u.staging.None? && b == ThenRemoveJournal(u, RestoreBackup(u)) && u.journal == t.journal
      else b == [] && t.backup.None?
    case _ => a == [] && b == []
  }

  lemma RecoveryParts(t: Target, job: Job, debris: Tree) returns (a: seq<Target>, b: seq<Target>)
    requires t.journal.Some?
    requires t.staging.Some? && t.backup.Some? ==> t.destination.None? && ReadJournal(t) != Latest(Activated)
    ensures RecoverOne(t, job, debris).steps == a + b && SecondPart(t, job, debris, a, b)
    ensures RecoverOne(t, job, debris).outcome == Committed || t.backup.Some? ==>
              forall s :: s in a ==> KeepsBackup(t, s, job.wide)
    ensures forall s :: s in a ==> s.backup == t.backup
  {
    var outcome := RecoverOne(t, job, debris).outcome;
    if outcome == Committed {
      a, b := CommitParts(t, job, debris);
    } else if outcome == RolledBack {
      a, b := RollBackParts(t, job, debris);
    } else {
      hide Read;
      a, b := [], [];
    }
  }

  lemma CommitParts(t: Target, job: Job, debris: Tree) returns (a: seq<Target>, b: seq<Target>)
    requires t.journal.Some? && RecoverOne(t, job, debris).outcome == Committed
    ensures RecoverOne(t, job, debris).steps == a + b && SecondPart(t, job, debris, a, b)
    ensures forall s :: s in a ==> KeepsBackup(t, s, job.wide)
  {
    hide Read, HasBad, AppendSteps, Append;
    var u := if t.staging.Some? then t.(destination := t.staging, staging := None) else t;
    var recorded := AppendRecord(u, Activated, job.wide);
    a := (if t.staging.Some? then [u] else []) + recorded;
    b := RemoveBackup(End(u, recorded), debris);
    assert End(t, a) == End(u, recorded);
    assert forall s :: s in recorded ==> KeepsBackup(t, s, job.wide);
    assert RecoverOne(t, job, debris).steps == a + b by { CommitSteps(t, job, debris, u); }
  }

  lemma CommitSteps(t: Target, job: Job, debris: Tree, u: Target)
    requires t.journal.Some? && RecoverOne(t, job, debris).outcome == Committed
    requires u == if t.staging.Some? then t.(destination := t.staging, staging := None) else t
    ensures RecoverOne(t, job, debris).steps == (if t.staging.Some? then [u] else []) + Settle(u, job.wide, debris)
    ensures u.destination == Some(job.snapshot)
  {
    hide Read, HasBad, AppendSteps, Append, AppendRecord, Settle;
    assert [] + Settle(t, job.wide, debris) == Settle(t, job.wide, debris);
    if t.backup.None? {
      SettlesByAppending(t, job.wide, debris);
    }
  }

  lemma RollBackParts(t: Target, job: Job, debris: Tree) returns (a: seq<Target>, b: seq<Target>)
    requires t.journal.Some?
    requires t.staging.Some? && t.backup.Some? ==> t.destination.None? && ReadJournal(t) != Latest(Activated)
    requires RecoverOne(t, job, debris).outcome == RolledBack
    ensures RecoverOne(t, job, debris).steps == a + b && SecondPart(t, job, debris, a, b)
    ensures t.backup.Some? ==> forall s :: s in a ==> KeepsBackup(t, s, job.wide)
    ensures forall s :: s in a ==> s.backup == t.backup
  {
    hide Read, HasBad, AppendSteps, Append;
    if t.backup.Some? {
      a := if t.staging.Some? then RemoveStaging(t, debris) else RemoveDestination(t, debris);
      var bare := End(t, a);
      b := ThenRemoveJournal(bare, RestoreBackup(bare));
      assert a + b == ThenRemoveJournal(t, ThenRestore(t, a));
      assert a == [] ==> ThenRemoveJournal(t, RestoreBackup(t)) == ThenRemoveJournal(t, ThenRestore(t, a));
    } else {
      a, b := RecoverOne(t, job, debris).steps, [];
    }
  }

  // ---- Moments stay in order --------------------------------------------------------------

  lemma KeptIsLater(tx: Tx, t: Target, s: Target)
    requires t.journal.Some? && Later(tx, t) && KeepsBackup(t, s, tx.wide)
    ensures Later(tx, s)
  {
    hide Read, HasBad, Readings, AppendSteps;
    AppendReadings(t.journal.value, Activated, tx.wide);
    ReadingIsOne(t.journal.value);
  }

  /** A replacement in which the old tree is aside, or has been, reads as past Prepared. */
  lemma ReadsPastPrepared(tx: Tx, t: Target, debris: Tree)
    requires LateShape(tx, t) && t.journal.Some? && tx.before.Some?
    requires RecoverOne(t, tx.Job(), debris).outcome == Committed || t.backup.Some?
    ensures ReadsWithin(t.journal.value, {Prepared, OldMoved, Activated}, tx.wide)
    ensures t.staging.Some? ==> t.destination.None? && t.backup.Some? && ReadJournal(t) != Latest(Activated)
    ensures t.row == tx.oldRow || (t.row == Some(tx.snapshot) && t.backup.None?)
  {
    hide Read, HasBad, Readings, AppendSteps;
    ReadingIsOne(t.journal.value);
  }

  /** Every state of a start-up is of the late shape. */
  lemma StartUpShape(tx: Tx, t: Target, debris: Tree)
    requires LateShape(tx, t) && t.journal.Some?
    ensures forall s :: s in StartUp(t, tx.Job(), debris).steps ==> LateShape(tx, s)
  {
    if Inv(tx, t) {
      StartUpInv(tx, t, debris);
    } else if Exposed(tx, t) {
      ExposedShape(tx, t, debris);
    } else {
      RecordedRecovery(tx, t, debris);
    }
  }

  /**
    With the row written and the candidate damaged, recovery gives up, unless the Activated record
    of a first install was lost: then it removes what is left of the candidate, under the row.
  */
  lemma RecordedRecovery(tx: Tx, t: Target, debris: Tree)
    requires Recorded(tx, t) && t.destination != Some(tx.snapshot)
    ensures var walk := RecoverOne(t, tx.Job(), debris);
            && walk.outcome != Committed
            && (walk.outcome == RolledBack
                <==> tx.before.None? && ReadJournal(t) == Latest(Prepared) && t.destination.Some?)
            && (walk.outcome == RolledBack ==> walk.steps == ThenRemoveJournal(t, RemoveDestination(t, debris)))
            && (walk.outcome != RolledBack ==> walk.steps == [])
            && forall s :: s in walk.steps ==> Recorded(tx, s) || (s.journal.None? && s.backup.None?)
  {
    hide Read, HasBad, Readings, AppendSteps, Append;
    ReadingIsOne(t.journal.value);
  }

  /** With the candidate past staging, rolling back is restoring the backup. */
  lemma ExposedRollsBack(tx: Tx, t: Target, debris: Tree)
    requires tx.before.Some? && t.journal.Some? && Later(tx, t)
    ensures RecoverOne(t, tx.Job(), debris).outcome == RolledBack ==> t.backup.Some?
  {
    hide Read, HasBad, Readings, AppendSteps, Append;
    ReadingIsOne(t.journal.value);
  }

  /** After a committing recovery the snapshot is in place for good. */
  lemma CommitIsForward(tx: Tx, t: Target, debris: Tree, a: seq<Target>, b: seq<Target>)
    requires tx.before.Some? && t.journal.Some?
    requires t.row == tx.oldRow || (t.row == Some(tx.snapshot) && t.backup.None?)
    requires ReadsWithin(t.journal.value, {Prepared, OldMoved, Activated}, tx.wide)
    requires RecoverOne(t, tx.Job(), debris).outcome == Committed && SecondPart(t, tx.Job(), debris, a, b)
    requires End(t, a).row == t.row && End(t, a).backup == t.backup
    ensures forall s :: s in b ==> Forward(tx, s)
    ensures Forward(tx, End(t, a)) && End(t, a + b).backup.None? && Forward(tx, End(t, a + b))
  {
    hide Read, HasBad, Readings, AppendSteps, Append, RecoverOne;
    AppendWithin(t, Activated, {Prepared, OldMoved, Activated}, tx.wide);
    var u := End(t, a);
    assert u.journal == End(t, AppendRecord(t, Activated, tx.wide)).journal;
    assert b == RemoveBackup(u, debris);
    assert End(t, a + b) == if b == [] then u else b[1];
  }

  lemma ExposedShape(tx: Tx, t: Target, debris: Tree)
    requires Exposed(tx, t)
    ensures forall s :: s in StartUp(t, tx.Job(), debris).steps ==> LateShape(tx, s)
  {
    hide Read, HasBad, Readings, AppendSteps, Append, RecoverOne, CommitCatalog, Forward;
    var walk := RecoverOne(t, tx.Job(), debris);
    var a, b := RecoveryParts(t, tx.Job(), debris);
    ExposedRollsBack(tx, t, debris);
    forall s | s in a ensures Exposed(tx, s) {
      KeptIsLater(tx, t, s);
    }
    assert a == [] || End(t, a) in a;
    if walk.outcome == Committed {
      CommitIsForward(tx, t, debris, a, b);
      CommitCatalogInv(tx, End(t, a + b));
    }
  }

  lemma NoBackupWithoutBefore(tx: Tx, t: Target)
    requires LateShape(tx, t) && tx.before.None?
    ensures t.backup.None?
  {
    hide ReadsWithin, NeverReads, Settled;
  }

  lemma CommitCatalogStates(tx: Tx, t: Target)
    requires Forward(tx, t) && t.backup.None?
    ensures forall s :: s in CommitCatalog(t, tx.Job()) ==> s.backup.None? && (s.journal.None? || Forward(tx, s))
  {
    hide ReadsWithin, Settled;
  }

  lemma ForwardIsLater(tx: Tx, t: Target)
    requires tx.before.Some? && Forward(tx, t)
    ensures Later(tx, t)
  {}

  lemma StartUpMoment(tx: Tx, m: Moment, m': Moment, debris: Tree, power: nat)
    requires MomentInv(tx, m) && LateStartUp(tx, m, m', debris, power)
    ensures MomentInv(tx, m')
  {
    hide Read, HasBad, Readings, AppendSteps, Append, RecoverOne, Inv, Forward, CommitCatalog;
    var t, steps := m.target, StartUp(m.target, tx.Job(), debris).steps;
    StartUpShape(tx, t, debris);
    if tx.before.None? {
      NoBackupWithoutBefore(tx, t);
      forall s | s in steps ensures s.backup.None? { NoBackupWithoutBefore(tx, s); }
      assert steps + [] == steps;
      SplitMoment(tx, m, steps, steps, [], debris, power, m');
    } else {
      var a, b := StartUpParts(tx, m, debris);
      SplitMoment(tx, m, steps, a, b, debris, power, m');
    }
  }

  lemma StartUpParts(tx: Tx, m: Moment, debris: Tree) returns (a: seq<Target>, b: seq<Target>)
    requires MomentInv(tx, m) && m.target.journal.Some? && tx.before.Some?
    ensures StartUp(m.target, tx.Job(), debris).steps == a + b && Splits(tx, m, a, b, debris)
    ensures m.dropped ==> forall s :: s in a ==> Later(tx, s)
  {
    hide Read, HasBad, Readings, AppendSteps, Append, RecoverOne, Inv, Forward, CommitCatalog, Splits, Later;
    hide Exposed, Recorded;
    var t, walk := m.target, RecoverOne(m.target, tx.Job(), debris);
    if walk.outcome == Committed || t.backup.Some? {
      ReadsPastPrepared(tx, t, debris);
    }
    if walk.outcome != Committed && t.backup.None? && m.dropped { ExposedRollsBack(tx, t, debris); }
    a, b := RecoveryParts(t, tx.Job(), debris);
    if m.dropped {
      forall s | s in a ensures Later(tx, s) { KeptIsLater(tx, t, s); }
    }
    if walk.outcome == Committed {
      b := CommittedSplits(tx, m, a, b, debris);
    } else {
      RolledBackSplits(tx, m, a, b, debris);
    }
  }

  /** A start-up that does not commit: the backup stays until it is restored. */
  lemma RolledBackSplits(tx: Tx, m: Moment, a: seq<Target>, b: seq<Target>, debris: Tree)
    requires tx.before.Some? && RecoverOne(m.target, tx.Job(), debris).outcome != Committed && m.target.journal.Some?
    requires SecondPart(m.target, tx.Job(), debris, a, b)
    requires m.target.backup.Some? ==>
               ReadsWithin(m.target.journal.value, {Prepared, OldMoved, Activated}, tx.wide)
    requires forall s :: s in a ==> s.backup == m.target.backup
    ensures Splits(tx, m, a, b, debris)
  {
    hide RecoverOne, ReadsWithin;
    assert a != [] ==> End(m.target, a) in a;
  }

  /** A start-up that commits: after the recovery's second part the row is written. */
  lemma CommittedSplits(tx: Tx, m: Moment, a: seq<Target>, b: seq<Target>, debris: Tree) returns (b': seq<Target>)
    requires tx.before.Some? && m.target.journal.Some?
    requires m.target.row == tx.oldRow || (m.target.row == Some(tx.snapshot) && m.target.backup.None?)
    requires ReadsWithin(m.target.journal.value, {Prepared, OldMoved, Activated}, tx.wide)
    requires RecoverOne(m.target, tx.Job(), debris).outcome == Committed
    requires RecoverOne(m.target, tx.Job(), debris).steps == a + b && SecondPart(m.target, tx.Job(), debris, a, b)
    requires forall s :: s in a ==> s.backup == m.target.backup && s.row == m.target.row
    ensures StartUp(m.target, tx.Job(), debris).steps == a + b' && Splits(tx, m, a, b', debris)
  {
    hide RecoverOne, ReadsWithin, CommitCatalog, Forward, Later;
    var t := m.target;
    assert a != [] ==> End(t, a) in a;
    CommitIsForward(tx, t, debris, a, b);
    var end := End(t, a + b);
    CommitCatalogStates(tx, end);
    b' := b + CommitCatalog(end, tx.Job());
    forall s | s in b' ensures Later(tx, s) {
      if s.journal.Some? { ForwardIsLater(tx, s); } else { ClosedIsLater(tx, s); }
    }
    assert b == RemoveBackup(End(t, a), debris);
    assert StartUp(t, tx.Job(), debris).steps == a + b';
  }

  lemma ClosedIsLater(tx: Tx, t: Target)
    requires t.journal.None?
    ensures Later(tx, t)
  {}

  // ---- The installation -------------------------------------------------------------------

  lemma AppendKeepsSlots(t: Target, phase: Phase, wide: bool)
    ensures forall s :: s in AppendRecord(t, phase, wide) ==> s == t.(journal := s.journal)
  {}

  /** The second half of a replacement, up to the removal of the backup and from there. */
  lemma ActivateParts(tx: Tx, t: Target, c: Circumstances) returns (a: seq<Target>, b: seq<Target>)
    requires Possible(tx, c) && Ready(tx, t) && tx.before.Some?
    ensures Activate(t, tx.Job(), c).steps == a + b
    ensures forall s :: s in a ==> s.backup.None? || s.backup == tx.before
    ensures if Activate(t, tx.Job(), c).outcome == Committed then
              b == RemoveBackup(End(t, a), c.debris) && Forward(tx, End(t, a)) && End(t, a).backup == tx.before
            else b == []
  {
    hide AppendSteps, Append, AppendRecord, Inv, Forward, OldAside, Activate, Aside, Away;
    SwapInv(tx, t, c.active);
    SwapIsAway(tx, t, c);
    AsideKeepsBackup(tx, t);
    ActivateWalk(tx, t, c);
    var found := Found(tx, t, c);
    var swapped := Aside(tx, t) + [found.(destination := Some(tx.snapshot)), found];
    if c.active == Some(tx.snapshot) {
      AppendKeepsSlots(found, Activated, tx.wide);
      FoundIsActivatable(tx, t, c);
      ActivatedAppend(tx, found);
      var recorded := AppendRecord(found, Activated, tx.wide);
      a, b := swapped + recorded, RemoveBackup(End(found, recorded), c.debris);
      assert End(t, a) == End(found, recorded);
    } else {
      UndoingKeepsBackup(found, c.debris);
      a, b := swapped + Undone(tx, c, found), [];
    }
  }

  lemma AsideKeepsBackup(tx: Tx, t: Target)
    requires t.backup.None? && t.destination == tx.before
    ensures forall s :: s in Aside(tx, t) ==> s.backup == tx.before
  {
    AppendKeepsSlots(t.(destination := None, backup := t.destination), OldMoved, tx.wide);
  }

  lemma FoundIsActivatable(tx: Tx, t: Target, c: Circumstances)
    requires Possible(tx, c) && Ready(tx, t) && tx.before.Some? && c.active == Some(tx.snapshot)
    ensures Activatable(tx, Found(tx, t, c))
  {
    hide AppendSteps, Append, AppendRecord;
    SwapInv(tx, t, c.active);
  }

  lemma UndoingKeepsBackup(t: Target, debris: Tree)
    ensures forall s :: s in ThenRemoveJournal(t, ThenRestore(t, RemoveDestination(t, debris))) ==>
              s.backup == t.backup || s.backup.None?
  {}

  lemma InstallParts(tx: Tx, c: Circumstances) returns (a: seq<Target>, b: seq<Target>)
    requires Possible(tx, c) && tx.before.Some?
    ensures Install(Start(tx), tx.Job(), c).steps == a + b
    ensures Splits(tx, Moment(Start(tx), false), a, b, c.debris)
  {
    hide AppendSteps, Append, Inv, Read, HasBad, Readings, Prepare, Activate, Forward, CommitCatalog;
    var t, job := Start(tx), tx.Job();
    PrepareInPlace(tx, c);
    PrepareInv(tx, c);
    var (steps, ready) := Prepare(t, job, c);
    a, b := steps, [];
    if ready {
      var u := End(t, steps);
      var first, last := ActivateParts(tx, u, c);
      a := steps + first;
      b := last;
      assert End(t, a) == End(u, first);
      if Activate(u, job, c).outcome == Committed {
        RemovalIsForward(tx, End(t, a), c.debris);
        var end := End(End(t, a), last);
        CommitCatalogStates(tx, end);
        forall s | s in last ensures Later(tx, s) { ForwardIsLater(tx, s); }
        forall s | s in CommitCatalog(end, job) && s.journal.Some? ensures Later(tx, s) { ForwardIsLater(tx, s); }
        b := last + CommitCatalog(end, job);
        assert End(t, steps + (first + last)) == end;
        assert steps + (first + last) + CommitCatalog(end, job) == a + b;
      }
    }
  }

  lemma RemovalIsForward(tx: Tx, t: Target, debris: Tree)
    requires Forward(tx, t) && t.backup.Some?
    ensures forall s :: s in RemoveBackup(t, debris) ==> Forward(tx, s)
  {
    hide ReadsWithin, Settled;
  }

  lemma InstallMoment(tx: Tx, m: Moment, c: Circumstances, power: nat)
    requires LateInstall(tx, m, c, power)
    ensures MomentInv(tx, m)
  {
    hide Read, HasBad, Readings, AppendSteps, Append, Install, Inv;
    var start, steps := Moment(Start(tx), false), Install(Start(tx), tx.Job(), c).steps;
    InstallInv(tx, c);
    StartIsClosed(tx);
    if tx.before.None? {
      forall s | s in steps ensures s.backup.None? { NoBackupWithoutBefore(tx, s); }
      assert steps + [] == steps;
      SplitMoment(tx, start, steps, steps, [], c.debris, power, m);
    } else {
      var a, b := InstallParts(tx, c);
      SplitMoment(tx, start, steps, a, b, c.debris, power, m);
    }
  }

  lemma StartIsClosed(tx: Tx)
    ensures Inv(tx, Start(tx))
  {
    assert Closed(tx, Start(tx));
  }

  lemma DamageMoment(tx: Tx, m: Moment, m': Moment)
    requires MomentInv(tx, m) && m'.dropped == m.dropped
    requires Damage(tx, m.target, m'.target) || LateDamage(tx, m.target, m'.target)
    ensures MomentInv(tx, m')
  {
    if Damage(tx, m.target, m'.target) && Inv(tx, m.target) {
      DamageInv(tx, m.target, m'.target);
    }
  }

  lemma {:induction false} LateLifeInv(tx: Tx, moments: seq<Moment>, n: nat)
    requires LateLife(tx, moments) && n < |moments|
    ensures MomentInv(tx, moments[n])
  {
    hide MomentInv, LateInstall, LateStartUp, Damage, LateDamage;
    if n == 0 {
      var c, power: nat :| LateInstall(tx, moments[0], c, power);
      InstallMoment(tx, moments[0], c, power);
    } else {
      LateLifeInv(tx, moments, n - 1);
      var m, m' := moments[n - 1], moments[n];
      if debris, power: nat :| LateStartUp(tx, m, m', debris, power) {
        StartUpMoment(tx, m, m', debris, power);
      } else {
        DamageMoment(tx, m, m');
      }
    }
  }

  // ---- The point of no return -------------------------------------------------------------

  /**
    With the candidate damaged at any time, a start-up that rolls back leaves everything as it was
    before exactly if no run has begun to remove the backup and the row is as it was. A backup that
    has begun to go comes back as what is left of it; a row that was changed, which only a first
    install gets to, stays without a tree.
  */
  lemma LateRollBackIsFaithfulIff(tx: Tx, moments: seq<Moment>, n: nat, debris: Tree)
    requires LateLife(tx, moments) && n < |moments| && moments[n].target.journal.Some?
    requires StartUp(moments[n].target, tx.Job(), debris).outcome == RolledBack
    ensures var t := moments[n].target;
            var end := End(t, StartUp(t, tx.Job(), debris).steps);
            && (end == Start(tx) <==> !moments[n].dropped && t.row == tx.oldRow)
            && (end.destination == tx.before <==> !moments[n].dropped)
            && end == Target(None, end.destination, None, None, t.row)
            && (t.row == tx.oldRow || (tx.before.None? && t.row == Some(tx.snapshot)))
  {
    LateLifeInv(tx, moments, n);
    RollBackEnd(tx, moments[n], debris);
  }

  lemma RollBackEnd(tx: Tx, m: Moment, debris: Tree)
    requires MomentInv(tx, m) && m.target.journal.Some?
    requires RecoverOne(m.target, tx.Job(), debris).outcome == RolledBack
    ensures var end := End(m.target, RecoverOne(m.target, tx.Job(), debris).steps);
            && (end.destination == tx.before <==> !m.dropped)
            && end == Target(None, end.destination, None, None, m.target.row)
            && (m.target.row == tx.oldRow || (tx.before.None? && m.target.row == Some(tx.snapshot)))
  {
    hide Read, HasBad, Readings, AppendSteps, Append, RecoverOne, Inv, Recorded;
    var t := m.target;
    if t.backup.Some? {
      if tx.before.None? { NoBackupWithoutBefore(tx, t); }
      ReadsPastPrepared(tx, t, debris);
      var a, b := RecoveryParts(t, tx.Job(), debris);
      assert a != [] ==> End(t, a) in a && KeepsBackup(t, End(t, a), tx.wide);
    } else {
      if m.dropped || Exposed(tx, t) { ExposedRollsBack(tx, t, debris); }
      if Inv(tx, t) {
        RecoverOneHonest(tx, t, debris);
        RollsBackBeforeRow(tx, t, debris);
      } else {
        RecordedNotInv(tx, t);
        RecordedRecovery(tx, t, debris);
        RecordedShape(tx, t);
      }
    }
  }

  /** Where recovery rolls back the row is as it was. */
  lemma RollsBackBeforeRow(tx: Tx, t: Target, debris: Tree)
    requires Inv(tx, t) && t.journal.Some?
    requires RecoverOne(t, tx.Job(), debris).outcome == RolledBack
    ensures t.row == tx.oldRow
  {
    hide RecoverOne, ReadsWithin, NeverReads, Settled, Read;
    if ReadJournal(t) == Unreadable {
      UnreadableStops(t, tx.Job(), debris, 0);
    } else if Forward(tx, t) {
      ForwardWalk(tx, t, debris);
    }
  }

  lemma RecordedNotInv(tx: Tx, t: Target)
    requires Recorded(tx, t) && !Inv(tx, t)
    ensures t.destination != Some(tx.snapshot)
  {
    assert t.destination == Some(tx.snapshot) ==> t == t.(destination := Some(tx.snapshot));
  }

  lemma RecordedShape(tx: Tx, t: Target)
    requires Recorded(tx, t)
    ensures t.staging.None? && t.backup.None? && t.row == Some(tx.snapshot)
  {}

  /**
    Such a life is reached: a replacement cut right after the first step of the removal, and its
    candidate removed then. The next start-up rolls back to the remnant.
  */
  lemma RemnantIsRestored(was: Tree, candidate: Tree, remnant: Tree, debris: Tree)
    requires remnant != was
    ensures var tx := Tx(Some(was), Some(was), candidate, true, false);
            var cut := DroppingTarget(tx, remnant);
            var moments := [Moment(cut, true), Moment(cut.(destination := None), true)];
            && LateLife(tx, moments)
            && StartUp(moments[1].target, tx.Job(), debris).outcome == RolledBack
            && End(moments[1].target, StartUp(moments[1].target, tx.Job(), debris).steps)
               == Target(None, Some(remnant), None, None, Some(was))
  {
    var tx := Tx(Some(was), Some(was), candidate, true, false);
    var cut := DroppingTarget(tx, remnant);
    var damaged := cut.(destination := None);
    var moments := [Moment(cut, true), Moment(damaged, true)];
    var power := DroppingIsReached(tx, remnant);
    DroppingIsExposed(tx, remnant);
    RemnantStartUp(tx, damaged, debris);
    hide LateInstall, StartUp, LateDamage, ReadJournal, LateLife;
    LifeOfTwo(tx, moments[0], moments[1], Undisturbed(tx, remnant), power);
    assert moments == [moments[0], moments[1]];
  }

  /** Without an old tree no backup ever begins to go. */
  lemma FirstInstallMoment(tx: Tx, t: Target) returns (c: Circumstances, power: nat)
    requires tx.before.None? && Life(tx, [t])
    ensures LateInstall(tx, Moment(t, false), c, power)
  {
    var life := [t];
    assert life[0] == t;
    c, power :| InstallCut(tx, life[0], c, power);
    var m := Moment(t, DropsIn(Start(tx), Taken(Install(Start(tx), tx.Job(), c).steps, power), c.debris));
    InstallMoment(tx, m, c, power);
  }

  /** The snapshot of a first install in place, with a torn line where Activated was. */
  function LostTarget(tx: Tx, closed: bool, row: Option<Tree>): Target {
    Target(Some(File([Record(Intent), Record(Prepared), Corrupt], closed)), Some(tx.snapshot), None, None, row)
  }

  lemma LostIsReached(tx: Tx, debris: Tree)
    requires tx.before.None? && tx.oldRow.None? && !tx.wide
    ensures Life(tx, [LostTarget(tx, false, None)])
  {
    var lines: seq<Line<Phase>> := [Record(Intent), Record(Prepared)];
    assert lines + [Corrupt] == [Record(Intent), Record(Prepared), Corrupt];
    assert AppendSteps(Some(File(lines, true)), Activated, false)[0] == LostTarget(tx, false, None).journal.value;
    CrashInFirstActivated(tx, debris, 0);
  }

  lemma LostReads(closed: bool)
    ensures var file: File<Phase> := File([Record(Intent), Record(Prepared), Corrupt], closed);
            Read(file.lines) == Latest(Prepared) && HasBad(file.lines)
            && Readings(file) == {Latest(Prepared)}
            && (!closed ==> Append(Some(file), Activated) == File(file.lines, true))
  {
    var lines: seq<Line<Phase>> := [Record(Intent), Record(Prepared), Corrupt];
    assert IsBad(lines[2]);
    assert lines[..2] == [Record(Intent), Record(Prepared)];
  }

  /** The next start-up commits, writes the row, and is not acknowledged. */
  lemma LostIsCommitted(tx: Tx, debris: Tree)
    requires tx.before.None? && tx.oldRow.None? && !tx.wide
    ensures var t := LostTarget(tx, false, None);
            End(t, StartUp(t, tx.Job(), debris).steps) == LostTarget(tx, true, Some(tx.snapshot))
  {
    hide Read, HasBad, AppendSteps, Append;
    LostReads(false);
    LostReads(true);
    var t := LostTarget(tx, false, None);
    var recorded := AppendRecord(t, Activated, tx.wide);
    assert RecoverOne(t, tx.Job(), debris) == Walk(recorded, Committed);
    assert End(t, recorded) == LostTarget(tx, true, None);
    var row := LostTarget(tx, true, Some(tx.snapshot));
    assert CommitCatalog(End(t, recorded), tx.Job()) == [row] + [];
  }

  /**
    The other case is reached too: a first install whose Activated record was torn, a start-up that
    commits it all the same, and damage. The next start-up removes the candidate and leaves its row.
  */
  lemma RowIsLeftWithoutTree(candidate: Tree, damaged: Tree, debris: Tree)
    requires damaged != candidate
    ensures var tx := Tx(None, None, candidate, true, false);
            var torn, recorded := LostTarget(tx, false, None), LostTarget(tx, true, Some(candidate));
            var spoiled := recorded.(destination := Some(damaged));
            && LateLife(tx, [Moment(torn, false), Moment(recorded, false), Moment(spoiled, false)])
            && StartUp(spoiled, tx.Job(), debris).outcome == RolledBack
            && End(spoiled, StartUp(spoiled, tx.Job(), debris).steps) == Target(None, None, None, None, Some(candidate))
  {
    var tx := Tx(None, None, candidate, true, false);
    var torn, recorded := LostTarget(tx, false, None), LostTarget(tx, true, Some(candidate));
    var spoiled := recorded.(destination := Some(damaged));
    hide Read, HasBad, Readings, AppendSteps, Append, StartUp;
    LostIsReached(tx, debris);
    LostReads(true);
    assert Recorded(tx, recorded) by { assert recorded.(destination := Some(tx.snapshot)) == recorded; }
    assert Recorded(tx, spoiled) by { assert spoiled.(destination := Some(tx.snapshot)) == recorded; }
    LostIsCommitted(tx, debris);
    LostLife(tx, torn, recorded, spoiled, debris);
    SpoiledStartUp(tx, spoiled, debris);
  }

  lemma LostLife(tx: Tx, torn: Target, recorded: Target, spoiled: Target, debris: Tree)
    requires tx.before.None? && Life(tx, [torn]) && torn.journal.Some?
    requires recorded == End(torn, StartUp(torn, tx.Job(), debris).steps)
    requires LateDamage(tx, recorded, spoiled)
    ensures LateLife(tx, [Moment(torn, false), Moment(recorded, false), Moment(spoiled, false)])
  {
    hide StartUp, LateDamage, Life, LateInstall, MomentInv;
    var moments := [Moment(torn, false), Moment(recorded, false), Moment(spoiled, false)];
    var c, power := FirstInstallMoment(tx, torn);
    InstallMoment(tx, moments[0], c, power);
    var all := |StartUp(torn, tx.Job(), debris).steps|;
    var m := Moment(recorded, DropsIn(torn, Taken(StartUp(torn, tx.Job(), debris).steps, all), debris));
    assert StartUpCut(tx, torn, recorded, debris, all);
    assert LateStartUp(tx, moments[0], m, debris, all);
    StartUpMoment(tx, moments[0], m, debris, all);
    assert !m.dropped by { NeverDropped(tx, m); }
    assert LateInstall(tx, moments[0], c, power);
    assert LateNext(tx, moments[0], moments[1]) && LateNext(tx, moments[1], moments[2]);
  }

  lemma NeverDropped(tx: Tx, m: Moment)
    requires MomentInv(tx, m) && tx.before.None?
    ensures !m.dropped
  {}

  lemma SpoiledStartUp(tx: Tx, t: Target, debris: Tree)
    requires Recorded(tx, t) && t.destination != Some(tx.snapshot) && t.destination.Some?
    requires tx.before.None? && ReadJournal(t) == Latest(Prepared)
    ensures StartUp(t, tx.Job(), debris).outcome == RolledBack
    ensures End(t, StartUp(t, tx.Job(), debris).steps) == Target(None, None, None, None, t.row)
  {
    hide Read, HasBad, RecoverOne;
    RecordedRecovery(tx, t, debris);
  }

  lemma LifeOfTwo(tx: Tx, m: Moment, m': Moment, c: Circumstances, power: nat)
    requires LateInstall(tx, m, c, power)
    requires m'.dropped == m.dropped && LateDamage(tx, m.target, m'.target)
    ensures LateLife(tx, [m, m'])
  {
    hide LateInstall, LateDamage, LateStartUp, Damage;
    var moments := [m, m'];
    assert LateInstall(tx, moments[0], c, power);
    assert LateNext(tx, moments[0], moments[1]);
  }

  lemma DroppingIsExposed(tx: Tx, remnant: Tree)
    requires tx.tampered && tx.before.Some?
    ensures LateDamage(tx, DroppingTarget(tx, remnant), DroppingTarget(tx, remnant).(destination := None))
    ensures ReadJournal(DroppingTarget(tx, remnant)) == Latest(Activated)
  {
    WholeJournalReads(DroppingTarget(tx, remnant).journal.value);
    hide Read, HasBad, Readings;
  }

  /** Activated is durable, and the backup is half gone. */
  function DroppingTarget(tx: Tx, remnant: Tree): Target {
    Target(Some(File([Record(Intent), Record(Prepared), Record(OldMoved), Record(Activated)], true)),
           Some(tx.snapshot), None, Some(remnant), tx.oldRow)
  }

  lemma WholeJournalReads(file: File<Phase>)
    requires file == File([Record(Intent), Record(Prepared), Record(OldMoved), Record(Activated)], true)
    ensures Read(file.lines) == Latest(Activated) && Readings(file) == {Latest(Activated)}
  {
    assert !HasBad(file.lines[..3]);
  }

  lemma RemnantStartUp(tx: Tx, t: Target, debris: Tree)
    requires t.journal.Some? && ReadJournal(t) == Latest(Activated) && t.destination.None? && t.backup.Some?
    ensures StartUp(t, tx.Job(), debris)
         == Walk([t.(destination := t.backup, backup := None),
                  t.(destination := t.backup, backup := None, journal := None)], RolledBack)
  {
    hide Read;
  }

  lemma ActivatedIsRecorded(tx: Tx)
    ensures End(PlacedTarget(tx), AppendRecord(PlacedTarget(tx), Activated, tx.wide))
         == DroppingTarget(tx, tx.snapshot).(backup := tx.before)
  {
    assert [Record(Intent), Record(Prepared), Record(OldMoved)] + [Record(Activated)]
        == [Record(Intent), Record(Prepared), Record(OldMoved), Record(Activated)];
  }

  lemma DroppingIsReached(tx: Tx, remnant: Tree) returns (power: nat)
    requires tx.before.Some? && tx.before != Some(remnant)
    ensures LateInstall(tx, Moment(DroppingTarget(tx, remnant), true), Undisturbed(tx, remnant), power)
  {
    hide AppendSteps, Append, AppendRecord, Activate, Install, Prepare;
    var c, placed := Undisturbed(tx, remnant), PlacedTarget(tx);
    var recorded := AppendRecord(placed, Activated, tx.wide);
    var u := End(placed, recorded);
    ActivatedIsRecorded(tx);
    SecondHalf(tx, remnant);
    InstallBegins(tx, remnant);
    var prepared := Prepare(Start(tx), tx.Job(), c).0;
    var install := Install(Start(tx), tx.Job(), c).steps;
    var moved := AppendRecord(AsideTarget(tx), OldMoved, tx.wide);
    var first := [AsideTarget(tx)] + moved + [placed, placed];
    var before := prepared + first + recorded;
    assert prepared + Second(tx, remnant) == before + RemoveBackup(u, remnant);
    var rest := install[|before|..];
    assert install == before + rest && rest[0] == DroppingTarget(tx, remnant);
    power := |before| + 1;
    CutInside(Start(tx), before, rest, 0);
    assert End(Start(tx), before) == u;
    DropsThere(Start(tx), install, before, u, remnant, power);
  }

  lemma DropsThere(t: Target, steps: seq<Target>, before: seq<Target>, u: Target, debris: Tree, power: nat)
    requires power == |before| + 1 <= |steps| && before <= steps && End(t, before) == u
    requires u.backup.Some? && steps[|before|] == RemoveBackup(u, debris)[0]
    ensures DropsIn(t, Taken(steps, power), debris)
  {
    var taken := Taken(steps, power);
    assert taken == steps[..power];
    assert taken[..|before|] == before && IsDrop(End(t, taken[..|before|]), taken[|before|], debris);
  }
}
