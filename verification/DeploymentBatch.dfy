/**
  Recovery of every open journal under one journal root. Transactions work on their own
  destination, staging and backup paths, so they recover independently of each other.
*/
module DeploymentBatch {
  import opened Prelude
  import opened Journals
  import opened Trees
  import opened Walks
  import opened Deployment

  datatype Path = Path(name: string)
  datatype TxId = TxId(uuid: string)

  datatype Journal = Journal(job: Job, destination: Path, staging: Path, backup: Path, file: File<Phase>)

  datatype Disk = Disk(entries: map<Path, Tree>, journals: map<TxId, Journal>)

  function Paths(j: Journal): set<Path> {
    {j.destination, j.staging, j.backup}
  }

  predicate ThreePaths(j: Journal) {
    j.destination != j.staging && j.destination != j.backup && j.staging != j.backup
  }

  /** Each journal names three different paths, and no two journals share one. */
  predicate Disjoint(disk: Disk) {
    && (forall id :: id in disk.journals ==> ThreePaths(disk.journals[id]))
    && (forall a, b :: a in disk.journals && b in disk.journals && a != b ==>
          Paths(disk.journals[a]) !! Paths(disk.journals[b]))
  }

  function Slot(disk: Disk, path: Path): Option<Tree> {
    if path in disk.entries then Some(disk.entries[path]) else None
  }

  /** One transaction's part of the disk. */
  function View(disk: Disk, id: TxId): Target
    requires id in disk.journals
  {
    var j := disk.journals[id];
    Target(Some(j.file), Slot(disk, j.destination), Slot(disk, j.staging), Slot(disk, j.backup), None)
  }

  function Fill(entries: map<Path, Tree>, path: Path, slot: Option<Tree>): map<Path, Tree> {
    if slot.Some? then entries[path := slot.value] else entries - {path}
  }

  /** Write one transaction's part back. */
  function Put(disk: Disk, id: TxId, t: Target): Disk
    requires id in disk.journals
  {
    var j := disk.journals[id];
    Disk(Fill(Fill(Fill(disk.entries, j.destination, t.destination), j.staging, t.staging), j.backup, t.backup),
         if t.journal.Some? then disk.journals[id := j.(file := t.journal.value)] else disk.journals - {id})
  }

  /** The recovery of one journal alone: where its own walk leads, and what it reports. */
  function Settled(disk: Disk, id: TxId, debris: Tree): Target
    requires id in disk.journals
  {
    End(View(disk, id), RecoverOne(View(disk, id), disk.journals[id].job, debris).steps)
  }

  function Verdict(disk: Disk, id: TxId, debris: Tree): Outcome
    requires id in disk.journals
  {
    RecoverOne(View(disk, id), disk.journals[id].job, debris).outcome
  }

  /** Journals are recovered one after the other. */
  function RecoverAll(disk: Disk, order: seq<TxId>, debris: Tree): Disk {
    if order == [] then disk
    else
      var before := RecoverAll(disk, order[..|order| - 1], debris);
      var id := order[|order| - 1];
      if id in before.journals then Put(before, id, Settled(before, id, debris)) else before
  }

  predicate Distinct(order: seq<TxId>) {
    forall i, j :: 0 <= i < j < |order| ==> order[i] != order[j]
  }

  /** On `disk`, transaction `id` (opened with journal `j`) stands at `t`. */
  predicate Shows(disk: Disk, id: TxId, j: Journal, t: Target) {
    && Slot(disk, j.destination) == t.destination
    && Slot(disk, j.staging) == t.staging
    && Slot(disk, j.backup) == t.backup
    && if t.journal.Some? then id in disk.journals && disk.journals[id] == j.(file := t.journal.value)
       else id !in disk.journals
  }

  predicate Owned(disk: Disk, p: Path) {
    exists id :: id in disk.journals && p in Paths(disk.journals[id])
  }

  /** Paths of no journal, and other journals, are left alone. */
  ghost predicate Framed(disk: Disk, end: Disk) {
    && end.journals.Keys <= disk.journals.Keys
    && forall p {:trigger Owned(disk, p)} :: !Owned(disk, p) ==> Slot(end, p) == Slot(disk, p)
  }

  /** Writing a transaction back makes the disk show it, and changes nothing of another. */
  lemma PutShows(disk: Disk, before: Disk, id: TxId, t: Target)
    requires Disjoint(disk) && id in disk.journals && id in before.journals
    requires before.journals[id] == disk.journals[id]
    ensures Shows(Put(before, id, t), id, disk.journals[id], t)
    ensures Framed(disk, before) ==> Framed(disk, Put(before, id, t))
  {
    var j, end := disk.journals[id], Put(before, id, t);
    forall p | p !in Paths(j) ensures Slot(end, p) == Slot(before, p) {
    }
    assert forall p :: !Owned(disk, p) ==> p !in Paths(j);
  }

  lemma PutKeepsOther(disk: Disk, before: Disk, id: TxId, t: Target, other: TxId, t': Target)
    requires Disjoint(disk) && id in disk.journals && id in before.journals
    requires before.journals[id] == disk.journals[id]
    requires other in disk.journals && other != id && Shows(before, other, disk.journals[other], t')
    ensures Shows(Put(before, id, t), other, disk.journals[other], t')
  {
    assert Paths(disk.journals[other]) !! Paths(disk.journals[id]);
    var j, k := disk.journals[id], disk.journals[other];
    assert k.destination in Paths(k) && k.staging in Paths(k) && k.backup in Paths(k);
    assert j.destination in Paths(j) && j.staging in Paths(j) && j.backup in Paths(j);
  }

  /** Where `id` stands after the journals of `order` have been recovered. */
  function Stand(disk: Disk, order: seq<TxId>, id: TxId, debris: Tree): Target
    requires id in disk.journals
  {
    if id in order then Settled(disk, id, debris) else View(disk, id)
  }

  /**
    After any part of the batch, each journal in it is where its own recovery leads, every other
    one is untouched, and so is every path no journal names.
  */
  lemma {:induction false} EachRecoversAlone(disk: Disk, order: seq<TxId>, debris: Tree)
    requires Disjoint(disk) && Distinct(order)
    requires forall id :: id in order ==> id in disk.journals
    ensures Framed(disk, RecoverAll(disk, order, debris))
    ensures forall id :: id in disk.journals ==>
              Shows(RecoverAll(disk, order, debris), id, disk.journals[id], Stand(disk, order, id, debris))
  {
    if order != [] {
      var front, last := order[..|order| - 1], order[|order| - 1];
      EachRecoversAlone(disk, front, debris);
      var before := RecoverAll(disk, front, debris);
      assert Shows(before, last, disk.journals[last], Stand(disk, front, last, debris));
      assert View(before, last) == View(disk, last);
      var t := Settled(disk, last, debris);
      assert Settled(before, last, debris) == t;
      PutShows(disk, before, last, t);
      forall id | id in disk.journals
        ensures Shows(Put(before, last, t), id, disk.journals[id], Stand(disk, order, id, debris))
      {
        if id != last {
          assert id in order <==> id in front;
          PutKeepsOther(disk, before, last, t, id, Stand(disk, front, id, debris));
        }
      }
    }
  }

  /** On both disks every transaction stands where `stands` says. */
  ghost predicate BothShow(disk: Disk, a: Disk, b: Disk, stands: map<TxId, Target>) {
    && Framed(disk, a) && Framed(disk, b)
    && forall id :: id in disk.journals ==>
         && id in stands
         && Shows(a, id, disk.journals[id], stands[id])
         && Shows(b, id, disk.journals[id], stands[id])
  }

  lemma SlotsAgree(disk: Disk, a: Disk, b: Disk, stands: map<TxId, Target>, p: Path)
    requires BothShow(disk, a, b, stands)
    ensures p in a.entries <==> p in b.entries
    ensures p in a.entries ==> a.entries[p] == b.entries[p]
  {
    assert Slot(a, p) == Slot(b, p) by {
      if Owned(disk, p) {
        var id :| id in disk.journals && p in Paths(disk.journals[id]);
        var j := disk.journals[id];
        assert Shows(a, id, j, stands[id]) && Shows(b, id, j, stands[id]);
        assert p == j.destination || p == j.staging || p == j.backup;
      }
    }
  }

  /** Two disks on which every transaction stands the same are the same disk. */
  lemma ShownDisksAreEqual(disk: Disk, a: Disk, b: Disk, stands: map<TxId, Target>)
    requires BothShow(disk, a, b, stands)
    ensures a == b
  {
    forall p
      ensures p in a.entries <==> p in b.entries
      ensures p in a.entries ==> a.entries[p] == b.entries[p]
    {
      SlotsAgree(disk, a, b, stands, p);
    }
    assert a.entries == b.entries;
    forall id
      ensures id in a.journals <==> id in b.journals
      ensures id in a.journals ==> a.journals[id] == b.journals[id]
    {
      if id in disk.journals {
        assert Shows(a, id, disk.journals[id], stands[id]) && Shows(b, id, disk.journals[id], stands[id]);
      }
    }
    assert a.journals == b.journals;
  }

  /** The order in which journals are recovered makes no difference to the disk. */
  lemma OrderIsIrrelevant(disk: Disk, one: seq<TxId>, two: seq<TxId>, debris: Tree)
    requires Disjoint(disk) && Distinct(one) && Distinct(two)
    requires forall id :: id in one <==> id in two
    requires forall id :: id in one ==> id in disk.journals
    ensures RecoverAll(disk, one, debris) == RecoverAll(disk, two, debris)
  {
    EachRecoversAlone(disk, one, debris);
    EachRecoversAlone(disk, two, debris);
    var stands := map id | id in disk.journals :: Stand(disk, one, id, debris);
    ShownDisksAreEqual(disk, RecoverAll(disk, one, debris), RecoverAll(disk, two, debris), stands);
  }

  /** The disk found by a crash after `power` steps within the recovery of journal `i` of a batch. */
  function CutAt(disk: Disk, order: seq<TxId>, i: nat, debris: Tree, power: nat): Disk
    requires i < |order|
  {
    var before, id := RecoverAll(disk, order[..i], debris), order[i];
    if id in before.journals then
      Put(before, id, Cut(View(before, id), RecoverOne(View(before, id), before.journals[id].job, debris).steps, power))
    else before
  }

  /**
    A pass cut anywhere within one journal leaves that one in a state of its own recovery, every
    earlier one where its recovery leads, and every later one, with all other paths, untouched: the
    next pass finds them as this one did.
  */
  lemma CutPassLeavesOthers(disk: Disk, order: seq<TxId>, i: nat, debris: Tree, power: nat)
    requires Disjoint(disk) && Distinct(order) && i < |order|
    requires forall id :: id in order ==> id in disk.journals
    ensures var found, id := CutAt(disk, order, i, debris, power), order[i];
            && Framed(disk, found)
            && Shows(found, id, disk.journals[id],
                     Cut(View(disk, id), RecoverOne(View(disk, id), disk.journals[id].job, debris).steps, power))
            && (forall other :: other in disk.journals && other != id ==>
                  Shows(found, other, disk.journals[other], Stand(disk, order[..i], other, debris)))
            && (forall other :: other in disk.journals && other !in order[..i + 1] ==>
                  && other in found.journals && Settled(found, other, debris) == Settled(disk, other, debris)
                  && Verdict(found, other, debris) == Verdict(disk, other, debris))
  {
    hide RecoverOne, RecoverAll, Framed, Shows, Settled, Verdict;
    var front, id := order[..i], order[i];
    assert order[..i + 1] == front + [id];
    EachRecoversAlone(disk, front, debris);
    var before := RecoverAll(disk, front, debris);
    assert Shows(before, id, disk.journals[id], Stand(disk, front, id, debris));
    StillFound(disk, before, id, debris);
    var t := Cut(View(disk, id), RecoverOne(View(disk, id), disk.journals[id].job, debris).steps, power);
    PutShows(disk, before, id, t);
    forall other | other in disk.journals && other != id
      ensures Shows(Put(before, id, t), other, disk.journals[other], Stand(disk, front, other, debris))
    {
      PutKeepsOther(disk, before, id, t, other, Stand(disk, front, other, debris));
    }
    forall other | other in disk.journals && other !in order[..i + 1]
      ensures other in Put(before, id, t).journals
      ensures Settled(Put(before, id, t), other, debris) == Settled(disk, other, debris)
      ensures Verdict(Put(before, id, t), other, debris) == Verdict(disk, other, debris)
    {
      assert other != id && other !in front;
      StillFound(disk, Put(before, id, t), other, debris);
    }
  }

  /** A journal that stands where it stood is found as it was. */
  lemma StillFound(disk: Disk, found: Disk, id: TxId, debris: Tree)
    requires id in disk.journals && Shows(found, id, disk.journals[id], View(disk, id))
    ensures id in found.journals && found.journals[id] == disk.journals[id] && View(found, id) == View(disk, id)
    ensures Settled(found, id, debris) == Settled(disk, id, debris)
    ensures Verdict(found, id, debris) == Verdict(disk, id, debris)
  {
    hide RecoverOne;
  }

  // ---- The loop ---------------------------------------------------------------------------

  datatype Report = Report(recovered: nat, rolledBack: nat, catalogCommits: seq<TxId>, failed: seq<TxId>)

  /** What recovering each journal alone would report. */
  function Verdicts(disk: Disk, debris: Tree): map<TxId, Outcome> {
    map id | id in disk.journals :: Verdict(disk, id, debris)
  }

  /** The journals of `order` with a verdict in `wanted`, in order. */
  function Select(verdicts: map<TxId, Outcome>, order: seq<TxId>, wanted: set<Outcome>): seq<TxId> {
    if order == [] then []
    else
      var id := order[|order| - 1];
      Select(verdicts, order[..|order| - 1], wanted)
      + if id in verdicts && verdicts[id] in wanted then [id] else []
  }

  const FAILURES := {Unrecoverable, VerificationFailed, InvalidJournal}

  /** The report tells every journal's own outcome, in the order of recovery. */
  predicate Tells(report: Report, verdicts: map<TxId, Outcome>, order: seq<TxId>) {
    && report.catalogCommits == Select(verdicts, order, {Committed})
    && report.recovered == |report.catalogCommits|
    && report.rolledBack == |Select(verdicts, order, {RolledBack})|
    && report.failed == Select(verdicts, order, FAILURES)
  }

  /** One more journal recovered. */
  function Add(report: Report, id: TxId, outcome: Outcome): Report {
    match outcome
    case Committed =>
      report.(recovered := report.recovered + 1, catalogCommits := report.catalogCommits + [id])
    case RolledBack => report.(rolledBack := report.rolledBack + 1)
    case _ => report.(failed := report.failed + [id])
  }

  class JournalRoot {
    var disk: Disk

    constructor (disk: Disk)
      ensures this.disk == disk
    {
      this.disk := disk;
    }

    method RecoverJournal(id: TxId, debris: Tree) returns (outcome: Outcome)
      requires id in disk.journals
      modifies this
      ensures disk == Put(old(disk), id, Settled(old(disk), id, debris))
      ensures outcome == Verdict(old(disk), id, debris)
    {
      var view := View(disk, id);
      var walk := RecoverOne(view, disk.journals[id].job, debris);
      disk := Put(disk, id, End(view, walk.steps));
      outcome := walk.outcome;
    }

    /**
      `recover_incomplete`: one pass over the journals found, in the order given. Each ends where
      its own recovery leads, and the report tells every journal's own outcome, in order.
    */
    method RecoverIncomplete(order: seq<TxId>, debris: Tree) returns (report: Report)
      requires Disjoint(disk) && Distinct(order)
      requires forall id :: id in order <==> id in disk.journals
      modifies this
      ensures disk == RecoverAll(old(disk), order, debris)
      ensures Tells(report, Verdicts(old(disk), debris), order)
    {
      report := Report(0, 0, [], []);
      ghost var start, verdicts := disk, Verdicts(disk, debris);
      var i := 0;
      while i < |order|
        invariant 0 <= i <= |order|
        invariant disk == RecoverAll(start, order[..i], debris)
        invariant Tells(report, verdicts, order[..i])
      {
        NextInBatch(start, order, i, debris);
        TellsMore(report, verdicts, order, i);
        var outcome := RecoverJournal(order[i], debris);
        report := Add(report, order[i], outcome);
        i := i + 1;
      }
      assert order[..|order|] == order;
    }
  }

  /** The next journal of a batch is still as it was at the start. */
  lemma NextInBatch(disk: Disk, order: seq<TxId>, i: nat, debris: Tree)
    requires Disjoint(disk) && Distinct(order) && i < |order|
    requires forall id :: id in order ==> id in disk.journals
    ensures var before, id := RecoverAll(disk, order[..i], debris), order[i];
            && id in before.journals
            && Verdict(before, id, debris) == Verdicts(disk, debris)[id]
            && RecoverAll(disk, order[..i + 1], debris) == Put(before, id, Settled(before, id, debris))
  {
    EachRecoversAlone(disk, order[..i], debris);
    var before := RecoverAll(disk, order[..i], debris);
    var id := order[i];
    assert order[..i + 1][..i] == order[..i];
    assert Shows(before, id, disk.journals[id], Stand(disk, order[..i], id, debris));
    assert View(before, id) == View(disk, id);
  }

  lemma TellsMore(report: Report, verdicts: map<TxId, Outcome>, order: seq<TxId>, i: nat)
    requires i < |order| && order[i] in verdicts && Tells(report, verdicts, order[..i])
    ensures Tells(Add(report, order[i], verdicts[order[i]]), verdicts, order[..i + 1])
  {
    assert order[..i + 1][..i] == order[..i];
  }
}
