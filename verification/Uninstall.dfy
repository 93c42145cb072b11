/**
  Uninstalling a deployed skill: a two-resource protocol over one directory and one catalog row.
  The presence of the row decides whether an interrupted uninstall is finished or undone.
*/
module Uninstall {
  import opened Prelude
  import opened Journals
  import opened Trees
  import opened Walks

  datatype Phase = Intent | Moved

  /** Everything durable about one uninstall: its journal, two directory slots, the catalog row. */
  datatype Site = Site(
    journal: Option<File<Phase>>,
    target: Option<Tree>,
    quarantine: Option<Tree>,
    row: Option<Tree>)

  /**
    One uninstall: the tree to go, which somebody may have removed by hand already, the catalog row,
    and whether the paths in the journal's records hold characters of several bytes.
  */
  datatype Job = Job(original: Option<Tree>, row: Tree, wide: bool)

  /** How a pass ends; `InvalidJournal` stands for every read error. */
  datatype Outcome =
    | Finalized | RolledBack | CleanedIntent | NothingOpen
    | InvalidJournal | AmbiguousFilesystemState | CatalogCommitNotReflected | UnrecoverableTransaction

  predicate Resolves(outcome: Outcome) {
    outcome.Finalized? || outcome.RolledBack? || outcome.CleanedIntent?
  }

  datatype Walk = Walk(steps: seq<Site>, outcome: Outcome)

  function ReadJournal(s: Site): Reading<Phase> {
    if s.journal.None? then Empty else Read(s.journal.value.lines)
  }

  function AppendRecord(s: Site, phase: Phase, wide: bool): (steps: seq<Site>)
    ensures |steps| == |AppendSteps(s.journal, phase, wide)|
    ensures End(s, steps) == s.(journal := Some(Append(s.journal, phase)))
  {
    AppendIsLastStep(s.journal, phase, wide);
    var files := AppendSteps(s.journal, phase, wide);
    seq(|files|, i requires 0 <= i < |files| => s.(journal := Some(files[i])))
  }

  /** Journal the intent, move the target into quarantine, journal the move. */
  function Begin(s: Site, wide: bool): seq<Site> {
    if s.target.None? then []
    else
      var intent := AppendRecord(s, Intent, wide);
      var moved := End(s, intent).(target := None, quarantine := s.target);
      intent + [moved] + AppendRecord(moved, Moved, wide)
  }

  /** Destroy the quarantined tree and close the journal. */
  function Finalize(s: Site, debris: Tree): Walk {
    if !ReadJournal(s).Latest? then Walk([], InvalidJournal)
    else if s.target.Some? && s.quarantine.Some? then Walk([], AmbiguousFilesystemState)
    else if s.target.Some? then Walk([], CatalogCommitNotReflected)
    else
      var removed := if s.quarantine.None? then []
                     else [s.(quarantine := Some(debris)), s.(quarantine := None)];
      Walk(removed + [End(s, removed).(journal := None)], Finalized)
  }

  /** Move the quarantined tree back and close the journal. */
  function RollBack(s: Site): Walk {
    if !ReadJournal(s).Latest? then Walk([], InvalidJournal)
    else match (s.target.Some?, s.quarantine.Some?)
      case (false, true) =>
        var back := s.(target := s.quarantine, quarantine := None);
        Walk([back, back.(journal := None)], RolledBack)
      case (true, false) => Walk([s.(journal := None)], RolledBack)
      case (true, true) => Walk([], AmbiguousFilesystemState)
      case (false, false) => Walk([], UnrecoverableTransaction)
  }

  /** Does `recover_pending` hand this journal on to the reconciliation? */
  predicate Pending(s: Site) {
    && s.target.None? && ReadJournal(s).Latest?
    && (s.quarantine.Some? || ReadJournal(s) == Latest(Moved))
  }

  /** One reconciliation pass over an open journal. */
  function Reconcile(s: Site, debris: Tree): Walk {
    if s.journal.None? then Walk([], NothingOpen)
    else if !ReadJournal(s).Latest? then Walk([], InvalidJournal)
    else if s.target.Some? && s.quarantine.None? && ReadJournal(s) == Latest(Intent) then
      Walk([s.(journal := None)], CleanedIntent)
    else if Pending(s) then
      if s.row.Some? then RollBack(s) else Finalize(s, debris)
    else
      Walk([], AmbiguousFilesystemState)
  }

  /**
    The uninstall command, for a deployment the catalog knows. The catalog removal may fail, and
    then reconciliation runs at once.
  */
  function Command(s: Site, wide: bool, catalogFails: bool, debris: Tree): seq<Site> {
    var begun := Begin(s, wide);
    var quarantined := End(s, begun);
    if s.row.None? then []
    else if catalogFails then
      begun + Reconcile(quarantined, debris).steps
    else
      var forgotten := quarantined.(row := None);
      begun + [forgotten] + if s.target.Some? then Finalize(forgotten, debris).steps else []
  }

  // ---- What the operations do, wherever they are called ---------------------------------------

  /**
    Finalizing is refused, and changes nothing, unless the journal can be read and the target is away; then
    the quarantine goes, and after it the journal.
  */
  lemma FinalizeMeans(s: Site, debris: Tree)
    ensures var walk, legible := Finalize(s, debris), ReadJournal(s).Latest?;
            && (walk.outcome == Finalized <==> legible && s.target.None?)
            && (walk.outcome == InvalidJournal <==> !legible)
            && (walk.outcome == AmbiguousFilesystemState <==> legible && s.target.Some? && s.quarantine.Some?)
            && (walk.outcome == CatalogCommitNotReflected <==> legible && s.target.Some? && s.quarantine.None?)
            && (walk.outcome != Finalized ==> walk.steps == [])
            && (walk.outcome == Finalized ==> End(s, walk.steps) == s.(quarantine := None, journal := None))
            && forall x :: x in walk.steps ==>
                 x.target == s.target && x.row == s.row && (x.journal == s.journal || x == End(s, walk.steps))
  {
    hide Read, HasBad;
  }

  /**
    Rolling back is refused, and changes nothing, unless the journal can be read and exactly one place
    holds a tree; then the target does.
  */
  lemma RollBackMeans(s: Site)
    ensures var walk, legible := RollBack(s), ReadJournal(s).Latest?;
            && (walk.outcome == RolledBack <==> legible && (s.target.Some? <==> s.quarantine.None?))
            && (walk.outcome == InvalidJournal <==> !legible)
            && (walk.outcome == AmbiguousFilesystemState <==> legible && s.target.Some? && s.quarantine.Some?)
            && (walk.outcome == UnrecoverableTransaction <==> legible && s.target.None? && s.quarantine.None?)
            && (walk.outcome != RolledBack ==> walk.steps == [])
            && (walk.outcome == RolledBack ==>
                  var tree := if s.target.Some? then s.target else s.quarantine;
                  End(s, walk.steps) == s.(target := tree, quarantine := None, journal := None))
            && forall x :: x in walk.steps ==> x.row == s.row && (x.journal == s.journal || x == End(s, walk.steps))
  {
    hide Read, HasBad;
  }

  /** What a pass does with an open journal: by the record, the two places and the row. */
  lemma ReconcileMeans(s: Site, debris: Tree)
    ensures var walk, legible := Reconcile(s, debris), ReadJournal(s).Latest?;
            var moved := legible && ReadJournal(s) == Latest(Moved);
            var away := legible && s.target.None? && (s.quarantine.Some? || moved);
            && (walk.outcome == NothingOpen <==> s.journal.None?)
            && (walk.outcome == InvalidJournal <==> s.journal.Some? && !legible)
            && (walk.outcome == CleanedIntent <==> legible && !moved && s.target.Some? && s.quarantine.None?)
            && (walk.outcome == RolledBack <==> away && s.row.Some? && s.quarantine.Some?)
            && (walk.outcome == UnrecoverableTransaction <==> away && s.row.Some? && s.quarantine.None?)
            && (walk.outcome == Finalized <==> away && s.row.None?)
            && (walk.outcome == CleanedIntent ==> walk.steps == [s.(journal := None)])
            && (walk.outcome == RolledBack ==>
                  End(s, walk.steps) == s.(target := s.quarantine, quarantine := None, journal := None))
            && (walk.outcome == Finalized ==> End(s, walk.steps) == s.(quarantine := None, journal := None))
            && (walk.outcome !in {CleanedIntent, RolledBack, Finalized} ==> walk.steps == [])
  {
    hide Read, HasBad;
    assert ReadJournal(s).Latest? ==> ReadJournal(s).value.Intent? || ReadJournal(s).value.Moved?;
  }

  // ---- The invariant ----------------------------------------------------------------------

  /** Row and target are both as they were, or both gone. */
  predicate Agrees(job: Job, s: Site) {
    && s.quarantine.None?
    && ((s.target == job.original && s.row == Some(job.row)) || (s.target.None? && s.row.None?))
  }

  predicate ReadsWithin(file: File<Phase>, phases: set<Phase>, wide: bool) {
    forall r :: r in Readings(file) ==> (r.Latest? && r.value in phases) || (r == Unreadable && wide)
  }

  /** The target is in place: not yet moved, or moved back. */
  predicate InPlace(job: Job, s: Site) {
    && s.journal.Some? && s.target.Some? && s.target == job.original && s.quarantine.None?
    && s.row == Some(job.row)
  }

  /**
    The target is in quarantine, whole; the row is still there or not. As long as it is, the Moved
    record may be torn.
  */
  predicate Quarantined(job: Job, s: Site) {
    && s.journal.Some? && s.target.None? && s.quarantine.Some? && s.quarantine == job.original
    && (s.row == Some(job.row) || s.row.None?)
    && ReadsWithin(s.journal.value, {Intent, Moved}, job.wide && s.row.Some?)
  }

  /** The row is gone and the quarantined tree is going. */
  predicate Going(s: Site) {
    s.journal.Some? && s.target.None? && s.row.None? && ReadsWithin(s.journal.value, {Intent, Moved}, false)
  }

  /** The target is away and the journal that says where cannot be read. */
  predicate Stranded(s: Site) {
    ReadJournal(s) == Unreadable && s.target.None?
  }

  predicate Inv(job: Job, s: Site) {
    || (s.journal.None? && Agrees(job, s))
    || InPlace(job, s) || Quarantined(job, s) || Going(s)
  }

  predicate AllInv(job: Job, steps: seq<Site>) {
    forall s :: s in steps ==> Inv(job, s)
  }

  function Start(job: Job): Site {
    Site(None, job.original, None, Some(job.row))
  }

  lemma AppendWithin(s: Site, phase: Phase, wide: bool)
    requires s.journal.Some? && ReadsWithin(s.journal.value, {Intent, Moved}, wide)
    ensures forall s' :: s' in AppendRecord(s, phase, wide) ==>
              && s' == s.(journal := s'.journal) && s'.journal.Some?
              && ReadsWithin(s'.journal.value, {Intent, Moved}, wide)
  {
    hide Read, HasBad, Readings;
    var file := s.journal.value;
    AppendReadings(file, phase, wide);
    ReadingIsOne(file);
    forall s' | s' in AppendRecord(s, phase, wide)
      ensures s' == s.(journal := s'.journal) && s'.journal.Some?
      ensures ReadsWithin(s'.journal.value, {Intent, Moved}, wide)
    {
      assert s'.journal.value in AppendSteps(Some(file), phase, wide);
    }
  }

  /** The uninstall with its intent recorded and the target moved, but the move not yet on record. */
  function JustMoved(job: Job): Site {
    Site(Some(File([Record(Intent)], true)), None, job.original, Some(job.row))
  }

  lemma BeginInv(job: Job)
    requires job.original.Some?
    ensures var s := Start(job);
            && AllInv(job, Begin(s, job.wide))
            && Quarantined(job, End(s, Begin(s, job.wide)).(row := None))
            && Quarantined(job, End(s, Begin(s, job.wide)))
            && ReadJournal(End(s, Begin(s, job.wide))) == Latest(Moved)
            && Begin(s, job.wide) == AppendRecord(s, Intent, job.wide) + [JustMoved(job)]
                                     + AppendRecord(JustMoved(job), Moved, job.wide)
  {
    hide Read, HasBad;
    var s := Start(job);
    FirstAppendReadings(Intent, job.wide);
    var intent := AppendRecord(s, Intent, job.wide);
    assert forall s' :: s' in intent ==> InPlace(job, s');
    assert [] + [Record(Intent)] == [Record(Intent)];
    var moved := JustMoved(job);
    assert moved == End(s, intent).(target := None, quarantine := s.target);
    assert Quarantined(job, moved);
    AppendWithin(moved, Moved, job.wide);
    AppendIsRead(moved.journal.value, Moved);
    var steps := AppendRecord(moved, Moved, job.wide);
    assert forall s' :: s' in steps ==> Quarantined(job, s');
    assert steps[|steps| - 1] in steps;
  }

  lemma FinalizeInv(job: Job, s: Site, debris: Tree)
    requires s.row.None? && (Quarantined(job, s) || Going(s))
    ensures AllInv(job, Finalize(s, debris).steps)
    ensures Finalize(s, debris).outcome == Finalized
    ensures End(s, Finalize(s, debris).steps) == Site(None, None, None, None)
  {
    assert Read(s.journal.value.lines) in Readings(s.journal.value);
  }

  lemma ReconcileInv(job: Job, s: Site, debris: Tree)
    requires Inv(job, s)
    ensures AllInv(job, Reconcile(s, debris).steps)
    ensures Stranded(s) ==>
              Quarantined(job, s) && job.wide && s.row.Some? && Reconcile(s, debris) == Walk([], InvalidJournal)
    ensures !Stranded(s) ==> Agrees(job, End(s, Reconcile(s, debris).steps))
  {
    if Quarantined(job, s) || Going(s) {
      assert Read(s.journal.value.lines) in Readings(s.journal.value);
      if s.row.None? {
        FinalizeInv(job, s, debris);
      }
    }
  }

  lemma CommandInv(job: Job, catalogFails: bool, debris: Tree)
    ensures AllInv(job, Command(Start(job), job.wide, catalogFails, debris))
  {
    var s := Start(job);
    if job.original.Some? {
      BeginInv(job);
      var quarantined := End(s, Begin(s, job.wide));
      ReconcileInv(job, quarantined, debris);
      var forgotten := quarantined.(row := None);
      FinalizeInv(job, forgotten, debris);
    }
  }

  // ---- Lives ------------------------------------------------------------------------------

  predicate CommandCut(job: Job, s: Site, catalogFails: bool, debris: Tree, power: nat) {
    s == Cut(Start(job), Command(Start(job), job.wide, catalogFails, debris), power)
  }

  predicate ReconcileCut(s: Site, s': Site, debris: Tree, power: nat) {
    s' == Cut(s, Reconcile(s, debris).steps, power)
  }

  ghost predicate Next(s: Site, s': Site) {
    exists debris, power: nat :: ReconcileCut(s, s', debris, power)
  }

  /** An uninstall command cut anywhere, then reconciliation passes cut anywhere. */
  ghost predicate Life(job: Job, states: seq<Site>) {
    && states != []
    && (exists fails, debris, power: nat :: CommandCut(job, states[0], fails, debris, power))
    && forall i :: 0 < i < |states| ==> Next(states[i - 1], states[i])
  }

  lemma CutInv(job: Job, s: Site, steps: seq<Site>, power: nat)
    requires Inv(job, s) && AllInv(job, steps)
    ensures Inv(job, Cut(s, steps, power))
  {
  }

  lemma CommandCutInv(job: Job, s: Site, catalogFails: bool, debris: Tree, power: nat)
    requires CommandCut(job, s, catalogFails, debris, power)
    ensures Inv(job, s)
  {
    CommandInv(job, catalogFails, debris);
    CutInv(job, Start(job), Command(Start(job), job.wide, catalogFails, debris), power);
  }

  lemma {:induction false} LifeInv(job: Job, states: seq<Site>, n: nat)
    requires Life(job, states) && n < |states|
    ensures Inv(job, states[n])
  {
    hide Read, HasBad, Readings, Reconcile, Command;
    if n == 0 {
      var fails, debris, power: nat :| CommandCut(job, states[0], fails, debris, power);
      CommandCutInv(job, states[0], fails, debris, power);
    } else {
      LifeInv(job, states, n - 1);
      var debris, power: nat :| ReconcileCut(states[n - 1], states[n], debris, power);
      ReconcileInv(job, states[n - 1], debris);
      CutInv(job, states[n - 1], Reconcile(states[n - 1], debris).steps, power);
    }
  }

  // ---- Theorems ---------------------------------------------------------------------------

  /**
    Atomicity over filesystem and catalog: after any interruption of the command and of earlier
    passes, one completed reconciliation pass leaves the row present exactly when the target is
    present with its original content, and nothing in quarantine, even when it reports that it could
    not resolve the journal. It fails to do so exactly where the target is away and the journal
    cannot be read; then it changes nothing.
  */
  lemma ReconcileIsAtomicIff(job: Job, states: seq<Site>, n: nat, debris: Tree)
    requires Life(job, states) && n < |states|
    ensures var s := states[n];
            var end := End(s, Reconcile(s, debris).steps);
            && (Agrees(job, end) <==> !(ReadJournal(s) == Unreadable && s.target.None?))
            && (!Agrees(job, end) ==>
                  job.wide && end == s && s.quarantine == job.original && s.row == Some(job.row))
  {
    LifeInv(job, states, n);
    ReconcileInv(job, states[n], debris);
  }

  /** No pass ever writes to the journal, and none gets past one that cannot be read. */
  lemma {:induction false} JournalIsNotRewritten(job: Job, states: seq<Site>, n: nat)
    requires Life(job, states) && n < |states|
    ensures states[n].journal.Some? ==> states[n].journal == states[0].journal
    ensures ReadJournal(states[0]) == Unreadable ==> states[n] == states[0]
    ensures ReadJournal(states[n]) == Unreadable ==> states[n] == states[0]
  {
    hide Read, HasBad, Reconcile, Command;
    if n > 0 {
      JournalIsNotRewritten(job, states, n - 1);
      var debris, power: nat :| ReconcileCut(states[n - 1], states[n], debris, power);
      PassKeepsJournal(states[n - 1], debris, power);
    }
  }

  lemma PassKeepsJournal(s: Site, debris: Tree, power: nat)
    ensures var s' := Cut(s, Reconcile(s, debris).steps, power);
            && (s'.journal.Some? ==> s'.journal == s.journal)
            && (ReadJournal(s) == Unreadable ==> s' == s)
  {
    var steps := Reconcile(s, debris).steps;
    assert forall x :: x in steps && x.journal.Some? ==> x.journal == s.journal;
  }

  /**
    So an uninstall is stranded, and then for good, exactly if the command was cut while it wrote
    the Moved record, inside a character of several bytes. Records of plain ASCII text never are.
  */
  lemma StrandedIffCutInCharacter(job: Job, states: seq<Site>, n: nat)
    requires Life(job, states) && n < |states|
    ensures Stranded(states[n]) <==> states[0] == CutInCharacter(job)
    ensures Stranded(states[n]) ==> job.wide && states[n] == states[0]
  {
    hide Read, HasBad, Reconcile, Command;
    JournalIsNotRewritten(job, states, n);
    UndecodableLast(job);
    if Stranded(states[n]) {
      var fails, debris, power: nat :| CommandCut(job, states[0], fails, debris, power);
      StrandedCommand(job, states[0], fails, debris, power);
    }
  }

  /** The command's state with the Moved record torn inside a character. */
  function CutInCharacter(job: Job): Site {
    JustMoved(job).(journal := Some(File([Record(Intent), Undecodable], false)))
  }

  lemma UndecodableLast(job: Job)
    ensures Stranded(CutInCharacter(job))
  {
    assert [Record(Intent)] + [Undecodable] == [Record(Intent), Undecodable];
    ReadNext([Record(Intent)], Undecodable);
    assert !HasBad([Record(Intent)]);
  }

  lemma StrandedCommand(job: Job, s: Site, fails: bool, debris: Tree, power: nat)
    requires CommandCut(job, s, fails, debris, power) && Stranded(s)
    ensures s == CutInCharacter(job) && job.wide
  {
    hide Read, HasBad, AppendSteps, Append, Begin, Command, Reconcile, Finalize;
    if job.original.None? {
      NothingToMove(job, fails, debris);
      return;
    }
    BeginInv(job);
    var start := Start(job);
    var intent, moved := AppendRecord(start, Intent, job.wide), AppendRecord(JustMoved(job), Moved, job.wide);
    var rest := AfterBegin(job, fails, debris);
    assert s in [start] + (intent + [JustMoved(job)] + moved + rest);
    MovedAppend(job);
    assert forall x :: x in intent ==> x.target.Some?;
  }

  /** With the directory gone already the command opens no journal: all it does is remove the row. */
  lemma NothingToMove(job: Job, fails: bool, debris: Tree)
    requires job.original.None?
    ensures Command(Start(job), job.wide, fails, debris)
         == if fails then [] else [Site(None, None, None, None)]
  {}

  /** What the command does once the move is on record: it writes no more to the journal. */
  lemma AfterBegin(job: Job, fails: bool, debris: Tree) returns (rest: seq<Site>)
    requires job.original.Some?
    ensures Command(Start(job), job.wide, fails, debris) == Begin(Start(job), job.wide) + rest
    ensures forall x :: x in rest ==> ReadJournal(x) != Unreadable
  {
    hide Read, HasBad, Begin, AppendSteps, Append;
    BeginInv(job);
    var start := Start(job);
    var quarantined := End(start, Begin(start, job.wide));
    var forgotten := quarantined.(row := None);
    rest := if fails then Reconcile(quarantined, debris).steps else [forgotten] + Finalize(forgotten, debris).steps;
    assert forall x :: x in rest ==> x.journal.None? || x.journal == quarantined.journal;
  }

  /** Of the states of the Moved append only the one torn inside a character cannot be read. */
  lemma MovedAppend(job: Job)
    ensures forall x :: x in AppendRecord(JustMoved(job), Moved, job.wide) ==>
              (ReadJournal(x) == Unreadable <==> x == CutInCharacter(job))
               && (ReadJournal(x) == Unreadable ==> job.wide)
    ensures ReadJournal(JustMoved(job)) == Latest(Intent)
  {
    var front: seq<Line<Phase>> := [Record(Intent)];
    assert !HasBad(front) && Read(front) == Latest(Intent);
    ReadNext(front, Corrupt);
    ReadNext(front, Undecodable);
    ReadNext(front, Record(Moved));
    assert front + [Undecodable] == [Record(Intent), Undecodable];
  }

  /**
    The case is reached wherever there is a directory and a path holds such a character: target
    gone, tree in quarantine, row present, and every later pass fails.
  */
  lemma TornCharacterStrandsUninstall(job: Job, debris: Tree)
    requires job.wide && job.original.Some?
    ensures Life(job, [CutInCharacter(job)])
    ensures Reconcile(CutInCharacter(job), debris) == Walk([], InvalidJournal)
  {
    BeginInv(job);
    UndecodableLast(job);
    var start := Start(job);
    var intent, moved := AppendRecord(start, Intent, true), AppendRecord(JustMoved(job), Moved, true);
    assert [Record(Intent)] + [Undecodable] == [Record(Intent), Undecodable];
    assert moved[1] == CutInCharacter(job);
    var command := Command(start, true, false, debris);
    var n := |intent| + 2;
    assert command[n] == Begin(start, true)[n] == CutInCharacter(job);
    var life := [CutInCharacter(job)];
    assert Cut(start, command, n + 1) == command[n];
    assert CommandCut(job, life[0], false, debris, n + 1);
  }

  /** As long as the catalog row exists the original tree exists whole, in place or quarantined. */
  lemma NothingIsDestroyedUnderARow(job: Job, states: seq<Site>, n: nat)
    requires Life(job, states) && n < |states| && states[n].row.Some?
    ensures states[n].target == job.original || states[n].quarantine == job.original
    ensures states[n].row == Some(job.row)
  {
    LifeInv(job, states, n);
  }

  /**
    When a pass resolves the journal and when it has to leave it: it fails exactly where the
    journal yields no record, or target and row already agree but the phase read back does not say
    so (moved back with Moved on record, or finished with Moved lost to a torn line). Then they
    agree already, unless the uninstall is stranded.
  */
  lemma ReconcileFailsIff(job: Job, states: seq<Site>, n: nat, debris: Tree)
    requires Life(job, states) && n < |states| && states[n].journal.Some?
    ensures var s := states[n];
            var walk := Reconcile(s, debris);
            (Resolves(walk.outcome) <==> End(s, walk.steps).journal.None?)
            && (!Resolves(walk.outcome) <==>
                  || !ReadJournal(s).Latest?
                  || (s.target.Some? && ReadJournal(s) == Latest(Moved))
                  || (s.target.None? && s.quarantine.None? && ReadJournal(s) == Latest(Intent)))
            && (!Resolves(walk.outcome) ==>
                  walk.steps == [] && (Agrees(job, s) <==> !Stranded(s)))
  {
    LifeInv(job, states, n);
    var s := states[n];
    if Stranded(s) {
      ReconcileInv(job, s, debris);
    } else if InPlace(job, s) {
      var walk := Reconcile(s, debris);
      match ReadJournal(s) {
        case Latest(Intent) => assert walk == Walk([s.(journal := None)], CleanedIntent);
        case Latest(Moved) => assert walk == Walk([], AmbiguousFilesystemState);
        case _ => assert walk == Walk([], InvalidJournal);
      }
    } else if s.row.Some? {
      QuarantinedRollsBack(job, s, debris);
    } else {
      assert Read(s.journal.value.lines) in Readings(s.journal.value);
      if Pending(s) {
        FinalizeInv(job, s, debris);
      }
    }
  }

  lemma QuarantinedRollsBack(job: Job, s: Site, debris: Tree)
    requires Quarantined(job, s) && s.row.Some? && ReadJournal(s) != Unreadable
    ensures Reconcile(s, debris).outcome == RolledBack
    ensures End(s, Reconcile(s, debris).steps) == Start(job)
  {
    assert Read(s.journal.value.lines) in Readings(s.journal.value);
  }

  /**
    Whatever a pass finds, in lives or not: it never changes the row or a target that is there, it
    takes a tree out of quarantine only to move it back or when no row is left, and it touches
    nothing while both places hold a tree.
  */
  lemma PassesAreSafe(s: Site, debris: Tree, x: Site)
    requires x in Reconcile(s, debris).steps
    ensures x.row == s.row && !(s.target.Some? && s.quarantine.Some?)
    ensures s.target.Some? ==> x.target == s.target && x.quarantine == s.quarantine
    ensures s.row.Some? && s.quarantine.Some? ==>
              (x.quarantine == s.quarantine && x.target.None?) || (x.target == s.quarantine && x.quarantine.None?)
    ensures s.row.None? ==> x.target == s.target
    ensures x.journal == s.journal || (x.journal.None? && (s.row.None? ==> x.quarantine.None?))
    ensures ReadJournal(s).Latest?
  {
    hide Read, HasBad;
  }

  /** No uninstall is under way. */
  predicate AtRest(s: Site) { s.journal.None? && s.quarantine.None? }

  /** More steps than any uninstall takes. */
  const MANY_STEPS: nat := 16

  /**
    Left alone, the command removes directory and row, whether or not the directory was still there;
    if the catalog refuses, or knows of no deployment, everything is as before.
  */
  lemma CommandCompletes(s: Site, wide: bool, catalogFails: bool, debris: Tree)
    requires AtRest(s)
    ensures End(s, Command(s, wide, catalogFails, debris))
         == if s.row.None? || catalogFails then s else Site(None, None, None, None)
    ensures |Command(s, wide, catalogFails, debris)| <= MANY_STEPS
  {
    hide AppendSteps, Append;
    if s.row.Some? {
      var job := Job(s.target, s.row.value, wide);
      assert Start(job) == s;
      if s.target.None? {
        NothingToMove(job, catalogFails, debris);
      } else {
        BeginInv(job);
        var quarantined := End(s, Begin(s, wide));
        if catalogFails {
          QuarantinedRollsBack(job, quarantined, debris);
        } else {
          FinalizeInv(job, quarantined.(row := None), debris);
        }
      }
    }
  }
}
