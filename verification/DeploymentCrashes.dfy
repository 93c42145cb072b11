/** Crashes in the middle of a journal record: where they leave a deployment, at reachable states. */
module DeploymentCrashes {
  import opened Prelude
  import opened Journals
  import opened Trees
  import opened Walks
  import opened Deployment
  import opened DeploymentRuns
  import opened DeploymentTheorems

  /** The state after `power` steps of `a + b`, past all of `a`. */
  lemma CutInside(s: Target, a: seq<Target>, b: seq<Target>, k: nat)
    requires k < |b|
    ensures Cut(s, a + b, |a| + k + 1) == b[k]
  {
    var steps := a + b;
    var power := |a| + k + 1;
    if power < |steps| { assert steps[..power][|a| + k] == b[k]; }
  }

  /** Circumstances in which nothing goes wrong. */
  function Undisturbed(tx: Tx, debris: Tree): Circumstances {
    Circumstances(Some(tx.snapshot), None, true, Some(tx.snapshot), debris)
  }

  /** A replacement with everything up to Prepared done. */
  function ReadyTarget(tx: Tx): Target {
    Start(tx).(journal := Some(File([Record(Intent), Record(Prepared)], true)), staging := Some(tx.snapshot))
  }

  lemma PreparedIsReached(tx: Tx, debris: Tree)
    ensures var (steps, ready) := Prepare(Start(tx), tx.Job(), Undisturbed(tx, debris));
            ready && End(Start(tx), steps) == ReadyTarget(tx)
  {
    var c := Undisturbed(tx, debris);
    var intent := AppendRecord(Start(tx), Intent, tx.wide);
    var empty := End(Start(tx), intent);
    assert empty.journal == Some(File([Record(Intent)], true));
    var ready := empty.(staging := Some(tx.snapshot));
    assert [Record(Intent)] + [Record(Prepared)] == [Record(Intent), Record(Prepared)];
    assert End(ready, AppendRecord(ready, Prepared, tx.wide)) == ReadyTarget(tx);
  }

  /** The old tree has been moved aside, and the OldMoved record is being written. */
  function AsideTarget(tx: Tx): Target {
    ReadyTarget(tx).(destination := None, backup := tx.before)
  }

  /** The candidate is in place and verified, and the Activated record is being written. */
  function PlacedTarget(tx: Tx): Target {
    Target(Some(File([Record(Intent), Record(Prepared), Record(OldMoved)], true)),
           Some(tx.snapshot), None, tx.before, tx.oldRow)
  }

  /** The second half of an undisturbed replacement, state by state. */
  function Second(tx: Tx, debris: Tree): seq<Target> {
    Activate(ReadyTarget(tx), tx.Job(), Undisturbed(tx, debris)).steps
  }

  lemma SecondHalf(tx: Tx, debris: Tree)
    requires tx.before.Some?
    ensures var moved, recorded := AppendRecord(AsideTarget(tx), OldMoved, tx.wide),
                AppendRecord(PlacedTarget(tx), Activated, tx.wide);
            Second(tx, debris) == [AsideTarget(tx)] + moved + [PlacedTarget(tx), PlacedTarget(tx)]
                                  + (recorded + RemoveBackup(End(PlacedTarget(tx), recorded), debris))
  {
    var moved := AppendRecord(AsideTarget(tx), OldMoved, tx.wide);
    MovedIsRecorded(tx);
    hide AppendSteps, Append, AppendRecord;
    var aside := [AsideTarget(tx)] + moved;
    var clear := End(AsideTarget(tx), moved);
    assert End(ReadyTarget(tx), aside) == clear;
    assert clear.(destination := clear.staging, staging := None) == PlacedTarget(tx);
  }

  lemma MovedIsRecorded(tx: Tx)
    ensures End(AsideTarget(tx), AppendRecord(AsideTarget(tx), OldMoved, tx.wide))
         == PlacedTarget(tx).(destination := None, staging := Some(tx.snapshot))
  {
    assert [Record(Intent), Record(Prepared)] + [Record(OldMoved)]
           == [Record(Intent), Record(Prepared), Record(OldMoved)];
  }

  /** An undisturbed installation is its first half, its second half, and the catalog. */
  lemma InstallBegins(tx: Tx, debris: Tree)
    ensures Prepare(Start(tx), tx.Job(), Undisturbed(tx, debris)).0 + Second(tx, debris)
         <= Install(Start(tx), tx.Job(), Undisturbed(tx, debris)).steps
  {
    hide AppendSteps, Append, AppendRecord, Activate, CommitCatalog, Prepare;
    PreparedIsReached(tx, debris);
  }

  /** Every state of the second half is one in which the process can be found. */
  lemma CrashInSecond(tx: Tx, debris: Tree, k: nat)
    requires k < |Second(tx, debris)|
    ensures Life(tx, [Second(tx, debris)[k]])
  {
    hide Install, Prepare, Activate;
    var c := Undisturbed(tx, debris);
    InstallBegins(tx, debris);
    var prepared, second := Prepare(Start(tx), tx.Job(), c).0, Second(tx, debris);
    var install := Install(Start(tx), tx.Job(), c).steps;
    var rest := install[|prepared|..];
    assert install == prepared + rest && rest[k] == second[k];
    CutInside(Start(tx), prepared, rest, k);
    FoundAfterCrash(tx, second[k], c, |prepared| + k + 1);
  }

  /** So is every state of the OldMoved append. */
  lemma CrashInOldMoved(tx: Tx, debris: Tree, k: nat)
    requires tx.before.Some? && k < |AppendRecord(AsideTarget(tx), OldMoved, tx.wide)|
    ensures Life(tx, [AppendRecord(AsideTarget(tx), OldMoved, tx.wide)[k]])
  {
    hide AppendSteps, Append, AppendRecord, Activate;
    SecondHalf(tx, debris);
    var moved := AppendRecord(AsideTarget(tx), OldMoved, tx.wide);
    assert Second(tx, debris)[1 + k] == moved[k];
    CrashInSecond(tx, debris, 1 + k);
  }

  /** And from the Activated append on. */
  lemma CrashInActivated(tx: Tx, debris: Tree, k: nat)
    requires tx.before.Some?
    requires var recorded := AppendRecord(PlacedTarget(tx), Activated, tx.wide);
             k < |recorded + RemoveBackup(End(PlacedTarget(tx), recorded), debris)|
    ensures var recorded := AppendRecord(PlacedTarget(tx), Activated, tx.wide);
            Life(tx, [(recorded + RemoveBackup(End(PlacedTarget(tx), recorded), debris))[k]])
  {
    hide AppendSteps, Append, AppendRecord, Activate;
    SecondHalf(tx, debris);
    var moved := AppendRecord(AsideTarget(tx), OldMoved, tx.wide);
    var recorded := AppendRecord(PlacedTarget(tx), Activated, tx.wide);
    var last := recorded + RemoveBackup(End(PlacedTarget(tx), recorded), debris);
    var n := |[AsideTarget(tx)] + moved + [PlacedTarget(tx), PlacedTarget(tx)]|;
    assert Second(tx, debris)[n + k] == last[k];
    CrashInSecond(tx, debris, n + k);
  }

  /** A first install with the candidate in place, its Activated record being written. */
  function FreshTarget(tx: Tx): Target {
    Target(Some(File([Record(Intent), Record(Prepared)], true)), Some(tx.snapshot), None, None, tx.oldRow)
  }

  /** Every state of the Activated append of a first install is one in which the process can be found. */
  lemma CrashInFirstActivated(tx: Tx, debris: Tree, k: nat)
    requires tx.before.None? && k < |AppendRecord(FreshTarget(tx), Activated, tx.wide)|
    ensures Life(tx, [AppendRecord(FreshTarget(tx), Activated, tx.wide)[k]])
  {
    hide AppendSteps, Append, AppendRecord;
    var recorded := AppendRecord(FreshTarget(tx), Activated, tx.wide);
    var t, placed := ReadyTarget(tx), FreshTarget(tx);
    assert t.(destination := t.staging, staging := None) == placed;
    assert RemoveBackup(End(placed, recorded), debris) == [];
    assert Second(tx, debris) == [] + [placed, placed] + (recorded + []);
    assert Second(tx, debris)[2 + k] == recorded[k];
    CrashInSecond(tx, debris, 2 + k);
  }

  /**
    An OldMoved record torn inside a character: every recovery fails, with the destination absent
    and the old tree in the backup slot, for good.
  */
  lemma TornCharacterStrandsOldTree(was: Tree, candidate: Tree, debris: Tree)
    ensures var tx := Tx(Some(was), Some(was), candidate, false, true);
            var torn := File([Record(Intent), Record(Prepared), Undecodable], false);
            var t := Target(Some(torn), None, Some(candidate), Some(was), Some(was));
            && Life(tx, [t])
            && forall d :: StartUp(t, tx.Job(), d) == Walk([], InvalidJournal)
  {
    var tx := Tx(Some(was), Some(was), candidate, false, true);
    var lines: seq<Line<Phase>> := [Record(Intent), Record(Prepared)];
    var torn: seq<Line<Phase>> := [Record(Intent), Record(Prepared), Undecodable];
    assert lines + [Undecodable] == torn;
    var append := AppendRecord(AsideTarget(tx), OldMoved, true);
    assert AppendSteps(Some(File(lines, true)), OldMoved, true)[1] == File(torn, false);
    CrashInOldMoved(tx, debris, 1);
    assert torn[..2] == lines && Read(torn) == Unreadable;
  }

  /**
    A torn OldMoved record is enough: recovery commits the new tree, but neither can the commit
    be acknowledged nor the journal be recovered again.
  */
  lemma TornRecordStrandsJournal(was: Tree, candidate: Tree, debris: Tree)
    requires was != candidate
    ensures var tx := Tx(Some(was), Some(was), candidate, false, false);
            var torn := File([Record(Intent), Record(Prepared), Corrupt], false);
            var t := Target(Some(torn), None, Some(candidate), Some(was), Some(was));
            var walk := RecoverOne(t, tx.Job(), debris);
            var end := End(t, walk.steps);
            && Life(tx, [t])
            && walk.outcome == Committed && end.destination == Some(candidate)
            && Acknowledge(end, tx.Job()) == []
            && RecoverOne(end, tx.Job(), debris) == Walk([], Unrecoverable)
  {
    hide *;
    var tx := Tx(Some(was), Some(was), candidate, false, false);
    TornRecordIsReached(tx, debris);
    TornRecordReads();
    TornRecovery(tx, [Record(Intent), Record(Prepared), Corrupt], debris);
  }

  lemma TornRecordReads()
    ensures var lines: seq<Line<Phase>> := [Record(Intent), Record(Prepared), Corrupt];
            Read(lines) == Latest(Prepared) && Append(Some(File(lines, false)), Activated) == File(lines, true)
  {
    var lines: seq<Line<Phase>> := [Record(Intent), Record(Prepared), Corrupt];
    assert lines[..2] == [Record(Intent), Record(Prepared)];
  }

  lemma TornRecordIsReached(tx: Tx, debris: Tree)
    requires tx.before.Some? && !tx.wide
    ensures Life(tx, [Target(Some(File([Record(Intent), Record(Prepared), Corrupt], false)), None, Some(tx.snapshot),
                             tx.before, tx.oldRow)])
  {
    hide Read, HasBad, Life;
    var whole: seq<Line<Phase>> := [Record(Intent), Record(Prepared)];
    var torn := File(whole + [Corrupt], false);
    assert whole + [Corrupt] == [Record(Intent), Record(Prepared), Corrupt];
    assert AppendSteps(Some(File(whole, true)), OldMoved, false)[0] == torn;
    CrashInOldMoved(tx, debris, 0);
  }

  /** What recovery makes of it. */
  lemma TornRecovery(tx: Tx, lines: seq<Line<Phase>>, debris: Tree)
    requires tx.before.Some? && tx.before != Some(tx.snapshot) && Read(lines) == Latest(Prepared)
    requires Append(Some(File(lines, false)), Activated) == File(lines, true)
    ensures var t := Target(Some(File(lines, false)), None, Some(tx.snapshot), tx.before, tx.oldRow);
            var walk := RecoverOne(t, tx.Job(), debris);
            var end := End(t, walk.steps);
            && walk.outcome == Committed && end.destination == Some(tx.snapshot)
            && Acknowledge(end, tx.Job()) == []
            && RecoverOne(end, tx.Job(), debris) == Walk([], Unrecoverable)
  {
    hide Read, HasBad, AppendSteps, Append, AppendRecord;
    var t := Target(Some(File(lines, false)), None, Some(tx.snapshot), tx.before, tx.oldRow);
    var renamed := t.(destination := t.staging, staging := None);
    var recorded := AppendRecord(renamed, Activated, tx.wide);
    var walk := RecoverOne(t, tx.Job(), debris);
    assert walk.steps == [renamed] + (recorded + RemoveBackup(End(renamed, recorded), debris));
    assert End(t, walk.steps) == Target(Some(File(lines, true)), Some(tx.snapshot), None, None, tx.oldRow);
  }

  /** A whole Activated record without its newline is lost to the next append: the commit is not closed. */
  lemma OpenActivatedIsLost(was: Tree, candidate: Tree, debris: Tree)
    ensures var tx := Tx(Some(was), Some(was), candidate, false, false);
            var file := File([Record(Intent), Record(Prepared), Record(OldMoved), Record(Activated)], false);
            var t := Target(Some(file), Some(candidate), None, Some(was), Some(was));
            && Life(tx, [t]) && ReadJournal(t) == Latest(Activated)
            && RecoverOne(t, tx.Job(), debris).outcome == Committed
            && End(t, StartUp(t, tx.Job(), debris).steps).journal.Some?
  {
    var tx := Tx(Some(was), Some(was), candidate, false, false);
    var whole: seq<Line<Phase>> := [Record(Intent), Record(Prepared), Record(OldMoved)];
    var lines: seq<Line<Phase>> := [Record(Intent), Record(Prepared), Record(OldMoved), Record(Activated)];
    var file := File(lines, false);
    assert whole + [Record(Activated)] == lines && lines[..3] == whole;
    assert AppendSteps(Some(File(whole, true)), Activated, false)[1] == file;
    CrashInActivated(tx, debris, 1);
    var life := [Target(Some(file), Some(candidate), None, Some(was), Some(was))];
    ActivatedOpen(file);
    hide Read, HasBad;
    assert RecoverOne(life[0], tx.Job(), debris).outcome == Committed;
    CommitClosesIff(tx, life, 0, debris);
  }

  lemma ActivatedOpen(file: File<Phase>)
    requires file == File([Record(Intent), Record(Prepared), Record(OldMoved), Record(Activated)], false)
    ensures Read(file.lines) == Latest(Activated) && !Clean(file) && Read(Kept(file)) == Latest(OldMoved)
  {
    assert Kept(file) == [Record(Intent), Record(Prepared), Record(OldMoved)];
    assert !HasBad(Kept(file));
  }
}
