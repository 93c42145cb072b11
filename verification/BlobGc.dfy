/**
  The server's blob collector: a worklist mark from the rooted manifests, and a sweep over one
  bounded batch of registry rows.
*/
module BlobGc {
  import opened Prelude
  import PackageManifests

  datatype Hash = Hash(text: string)

  /** A registry row; `created` is its creation time. */
  datatype Row = Row(hash: Hash, created: int, size: nat)

  // ---- Roots --------------------------------------------------------------------------------

  /** A row that may name a package, and when it was written. */
  datatype Mention = Mention(package: Option<Hash>, created: int)

  /**
    What roots are read from: the packages of all versions, the current packages of all skills,
    the change log, and the receipts, which name a package if their stored response does.
  */
  datatype Tables = Tables(versions: seq<Option<Hash>>, skills: seq<Option<Hash>>, changes: seq<Mention>,
                           receipts: seq<Mention>)

  datatype Settings = Settings(orphanGrace: nat, changeRetention: nat, receiptRetention: nat, batch: nat,
                               legalRoots: set<Hash>)

  function Named(packages: seq<Option<Hash>>): set<Hash> {
    set i | 0 <= i < |packages| && packages[i].Some? :: packages[i].value
  }

  function MentionedSince(mentions: seq<Mention>, since: int): set<Hash> {
    set i | 0 <= i < |mentions| && mentions[i].package.Some? && mentions[i].created >= since
        :: mentions[i].package.value
  }

  function RootsOf(tables: Tables, settings: Settings, now: int): set<Hash> {
    settings.legalRoots + Named(tables.versions) + Named(tables.skills)
    + MentionedSince(tables.changes, now - settings.changeRetention)
    + MentionedSince(tables.receipts, now - settings.receiptRetention)
  }

  /** The packages that unexpired receipts name. */
  method ReceiptPackages(receipts: seq<Mention>, since: int) returns (hashes: set<Hash>)
    ensures hashes == MentionedSince(receipts, since)
  {
    hashes := {};
    for i := 0 to |receipts|
      invariant hashes == MentionedSince(receipts[..i], since)
    {
      var front, receipt := receipts[..i], receipts[i];
      assert receipts[..i + 1] == front + [receipt];
      MentionedAppend(front, receipt, since);
      if receipt.created >= since && receipt.package.Some? {
        hashes := hashes + {receipt.package.value};
      }
    }
    assert receipts[..|receipts|] == receipts;
  }

  lemma MentionedAppend(mentions: seq<Mention>, m: Mention, since: int)
    ensures MentionedSince(mentions + [m], since)
         == MentionedSince(mentions, since) + if m.created >= since && m.package.Some? then {m.package.value} else {}
  {
    var longer := mentions + [m];
    assert longer[|mentions|] == m && forall i :: 0 <= i < |mentions| ==> longer[i] == mentions[i];
    forall h | h in MentionedSince(mentions, since) ensures h in MentionedSince(longer, since) {
      var i :| 0 <= i < |mentions| && mentions[i].created >= since && mentions[i].package == Some(h);
      assert longer[i].package == Some(h);
    }
  }

  /**
    What is a root: a package of any version, however old, the current package of any skill, one
    that the change log or a receipt has named within its retention, and a legal hold.
  */
  lemma RootsAre(tables: Tables, settings: Settings, now: int, p: Hash)
    ensures p in RootsOf(tables, settings, now) <==>
              || p in settings.legalRoots || Some(p) in tables.versions || Some(p) in tables.skills
              || (exists m :: m in tables.changes && m.package == Some(p)
                              && m.created >= now - settings.changeRetention)
              || (exists m :: m in tables.receipts && m.package == Some(p)
                              && m.created >= now - settings.receiptRetention)
  {
    NamedAre(tables.versions, p);
    NamedAre(tables.skills, p);
    MentionedAre(tables.changes, now - settings.changeRetention, p);
    MentionedAre(tables.receipts, now - settings.receiptRetention, p);
  }

  lemma NamedAre(packages: seq<Option<Hash>>, p: Hash)
    ensures p in Named(packages) <==> Some(p) in packages
  {
    if Some(p) in packages {
      var i :| 0 <= i < |packages| && packages[i] == Some(p);
      assert packages[i].value == p;
    }
  }

  lemma MentionedAre(mentions: seq<Mention>, since: int, p: Hash)
    ensures p in MentionedSince(mentions, since)
       <==> exists m :: m in mentions && m.package == Some(p) && m.created >= since
  {
    if m :| m in mentions && m.package == Some(p) && m.created >= since {
      var i :| 0 <= i < |mentions| && mentions[i] == m;
      assert mentions[i].package.value == p;
    }
  }

  method GatherRoots(tables: Tables, settings: Settings, now: int) returns (roots: set<Hash>)
    ensures roots == RootsOf(tables, settings, now)
  {
    roots := settings.legalRoots;
    roots := roots + Named(tables.versions);
    roots := roots + Named(tables.skills);
    roots := roots + MentionedSince(tables.changes, now - settings.changeRetention);
    var fromReceipts := ReceiptPackages(tables.receipts, now - settings.receiptRetention);
    roots := roots + fromReceipts;
  }

  // ---- Mark ---------------------------------------------------------------------------------

  /** The manifests that can be read: `parsed` says what bytes stored under a hash would list. */
  function Readable(parsed: map<Hash, set<Hash>>, bytes: set<Hash>): map<Hash, set<Hash>> {
    map h | h in parsed && h in bytes :: parsed[h]
  }

  /** The blobs a hash stands for: the files of a readable manifest, nothing for anything else. */
  function Expand(manifests: map<Hash, set<Hash>>, h: Hash): set<Hash> {
    if h in manifests then manifests[h] else {}
  }

  /** Contains with every hash what it expands to. */
  predicate Closed(manifests: map<Hash, set<Hash>>, s: set<Hash>) {
    forall h :: h in s ==> Expand(manifests, h) <= s
  }

  /** `path` leads from a root to its last element along expansions. */
  predicate Path(manifests: map<Hash, set<Hash>>, roots: set<Hash>, path: seq<Hash>) {
    && path != [] && path[0] in roots
    && forall i :: 0 < i < |path| ==> path[i] in Expand(manifests, path[i - 1])
  }

  ghost predicate Reachable(manifests: map<Hash, set<Hash>>, roots: set<Hash>, h: Hash) {
    exists path :: Path(manifests, roots, path) && path[|path| - 1] == h
  }

  /** A closed set that contains the roots contains everything reachable. */
  lemma {:induction false} ClosedContainsPath(manifests: map<Hash, set<Hash>>, roots: set<Hash>, s: set<Hash>,
                                              path: seq<Hash>, n: nat)
    requires roots <= s && Closed(manifests, s) && Path(manifests, roots, path) && n < |path|
    ensures path[n] in s
  {
    if n > 0 {
      ClosedContainsPath(manifests, roots, s, path, n - 1);
    }
  }

  lemma ReachableExtends(manifests: map<Hash, set<Hash>>, roots: set<Hash>, h: Hash, k: Hash)
    requires Reachable(manifests, roots, h) && k in Expand(manifests, h)
    ensures Reachable(manifests, roots, k)
  {
    var path :| Path(manifests, roots, path) && path[|path| - 1] == h;
    var longer := path + [k];
    assert Path(manifests, roots, longer) && longer[|longer| - 1] == k;
  }

  /** Everything a mark can ever touch. */
  function Universe(manifests: map<Hash, set<Hash>>, roots: set<Hash>): set<Hash> {
    roots + set m, h | m in manifests && h in manifests[m] :: h
  }

  /** The least closed set around the roots, marked exactly when reachable. */
  ghost predicate IsMark(manifests: map<Hash, set<Hash>>, roots: set<Hash>, marked: set<Hash>) {
    && roots <= marked && Closed(manifests, marked)
    && (forall h :: h in marked <==> Reachable(manifests, roots, h))
    && (forall s :: roots <= s && Closed(manifests, s) ==> marked <= s)
  }

  lemma ClosedAndReachableIsLeast(manifests: map<Hash, set<Hash>>, roots: set<Hash>, marked: set<Hash>)
    requires roots <= marked && Closed(manifests, marked)
    requires forall h :: h in marked ==> Reachable(manifests, roots, h)
    ensures IsMark(manifests, roots, marked)
  {
    forall s, h | roots <= s && Closed(manifests, s) && Reachable(manifests, roots, h) ensures h in s {
      var path :| Path(manifests, roots, path) && path[|path| - 1] == h;
      ClosedContainsPath(manifests, roots, s, path, |path| - 1);
    }
  }

  ghost predicate AllReachable(manifests: map<Hash, set<Hash>>, roots: set<Hash>, s: set<Hash>) {
    forall h :: h in s ==> Reachable(manifests, roots, h)
  }

  lemma MoreReachable(manifests: map<Hash, set<Hash>>, roots: set<Hash>, s: set<Hash>, h: Hash)
    requires AllReachable(manifests, roots, s) && h in s
    ensures AllReachable(manifests, roots, s + Expand(manifests, h))
  {
    forall k | k in Expand(manifests, h) ensures Reachable(manifests, roots, k) {
      ReachableExtends(manifests, roots, h, k);
    }
  }

  predicate Pending(manifests: map<Hash, set<Hash>>, marked: set<Hash>, known: set<Hash>) {
    forall h :: h in marked ==> Expand(manifests, h) <= known
  }

  /** Where the mark loop stands: what is marked or waiting is reachable, and nothing is forgotten. */
  ghost predicate Marking(manifests: map<Hash, set<Hash>>, roots: set<Hash>, marked: set<Hash>, waiting: set<Hash>) {
    && roots <= marked + waiting <= Universe(manifests, roots)
    && AllReachable(manifests, roots, marked + waiting)
    && Pending(manifests, marked, marked + waiting)
  }

  lemma MarkingStarts(manifests: map<Hash, set<Hash>>, roots: set<Hash>)
    ensures Marking(manifests, roots, {}, roots)
  {
    forall h | h in roots ensures Reachable(manifests, roots, h) {
      assert Path(manifests, roots, [h]);
    }
  }

  lemma MarkingAdvances(manifests: map<Hash, set<Hash>>, roots: set<Hash>, marked: set<Hash>,
                        waiting: set<Hash>, h: Hash)
    requires Marking(manifests, roots, marked, waiting) && h in waiting
    ensures Marking(manifests, roots, marked + {h}, waiting - {h} + (Expand(manifests, h) - (marked + {h})))
    ensures h in Universe(manifests, roots)
  {
    var found := Expand(manifests, h);
    ExpandInUniverse(manifests, roots, h);
    MoreReachable(manifests, roots, marked + waiting, h);
    assert marked + {h} + (waiting - {h} + (found - (marked + {h}))) == marked + waiting + found;
  }

  lemma MarkingEnds(manifests: map<Hash, set<Hash>>, roots: set<Hash>, marked: set<Hash>)
    requires Marking(manifests, roots, marked, {})
    ensures IsMark(manifests, roots, marked)
  {
    assert marked + {} == marked;
    ClosedAndReachableIsLeast(manifests, roots, marked);
  }

  lemma ExpandInUniverse(manifests: map<Hash, set<Hash>>, roots: set<Hash>, h: Hash)
    ensures Expand(manifests, h) <= Universe(manifests, roots)
  {}

  function Elements(s: seq<Hash>): set<Hash> { set h | h in s }

  lemma Popped(s: seq<Hash>)
    requires s != []
    ensures Elements(s) == Elements(s[..|s| - 1]) + {s[|s| - 1]}
  {
    assert s == s[..|s| - 1] + [s[|s| - 1]];
  }

  lemma ElementsOf(s: seq<Hash>, t: seq<Hash>)
    ensures Elements(s + t) == Elements(s) + Elements(t)
  {}

  /**
    The mark loop. It terminates, although hashes may be pushed many times and a file blob may
    itself be a manifest, and marks exactly what is reachable: the least closed set around the
    roots.
  */
  method Mark(manifests: map<Hash, set<Hash>>, roots: set<Hash>) returns (marked: set<Hash>)
    ensures IsMark(manifests, roots, marked)
  {
    hide Marking, IsMark, Expand, Universe;
    marked := {};
    var frontier := ToSeq(roots);
    MarkingStarts(manifests, roots);
    assert Elements(frontier) - marked == roots;
    ghost var universe := Universe(manifests, roots);
    while frontier != []
      invariant Marking(manifests, roots, marked, Elements(frontier) - marked)
      decreases universe - marked, |frontier|
    {
      var h, popped := frontier[|frontier| - 1], frontier[..|frontier| - 1];
      Popped(frontier);
      frontier := popped;
      if h !in marked {
        MarkingAdvances(manifests, roots, marked, Elements(popped) + {h} - marked, h);
        var unseen := Expand(manifests, h) - (marked + {h});
        var pushed := ToSeq(unseen);
        ElementsOf(popped, pushed);
        assert Elements(popped) + unseen - (marked + {h}) == Elements(popped) + {h} - marked - {h} + unseen;
        assert h in universe - marked;
        marked := marked + {h};
        frontier := popped + pushed;
      } else {
        assert Elements(popped) - marked == Elements(popped) + {h} - marked;
      }
    }
    assert Elements(frontier) - marked == {};
    MarkingEnds(manifests, roots, marked);
  }

  /** The elements of a set, in some order. */
  method ToSeq(s: set<Hash>) returns (r: seq<Hash>)
    ensures Elements(r) == s
  {
    r := [];
    var rest := s;
    while rest != {}
      invariant forall h :: h in s <==> h in r || h in rest
      decreases |rest|
    {
      var h :| h in rest;
      r, rest := r + [h], rest - {h};
    }
  }

  // ---- Sweep --------------------------------------------------------------------------------

  predicate Old(row: Row, cutoff: int) { row.created < cutoff }

  /** The registry is listed by hash, its primary key. */
  predicate DistinctRows(rows: seq<Row>) {
    forall i, j :: 0 <= i < j < |rows| ==> rows[i].hash != rows[j].hash
  }

  function OldCount(rows: seq<Row>, cutoff: int): nat {
    if rows == [] then 0 else (if Old(rows[0], cutoff) then 1 else 0) + OldCount(rows[1..], cutoff)
  }

  /** The batch: the first `batch` rows older than the cutoff, whether marked or not. */
  function Candidates(rows: seq<Row>, cutoff: int, batch: nat): seq<Row> {
    if rows == [] || batch == 0 then []
    else if Old(rows[0], cutoff) then [rows[0]] + Candidates(rows[1..], cutoff, batch - 1)
    else Candidates(rows[1..], cutoff, batch)
  }

  /** The batch is those old rows that fewer than `batch` old rows precede in hash order. */
  lemma {:induction false} BatchIs(rows: seq<Row>, cutoff: int, batch: nat, i: nat)
    requires DistinctRows(rows) && i < |rows|
    ensures rows[i] in Candidates(rows, cutoff, batch)
       <==> rows[i].created < cutoff && OldCount(rows[..i], cutoff) < batch
  {
    if batch > 0 {
      var b := if Old(rows[0], cutoff) then batch - 1 else batch;
      if i > 0 {
        BatchIs(rows[1..], cutoff, b, i - 1);
        assert rows[..i][1..] == rows[1..][..i - 1] && rows[i] == rows[1..][i - 1];
        assert rows[i] != rows[0];
      } else if !Old(rows[0], cutoff) {
        SweepMeaning(rows, {}, cutoff, batch, rows[0]);
      }
    }
  }

  /** Where the rows older than the cutoff stand. */
  function OldOnes(rows: seq<Row>, cutoff: int): set<nat> {
    set i: nat | i < |rows| && rows[i].created < cutoff
  }

  lemma {:induction false} OldCountIs(rows: seq<Row>, cutoff: int)
    ensures OldCount(rows, cutoff) == |OldOnes(rows, cutoff)|
  {
    if rows != [] {
      var n := |rows| - 1;
      OldCountIs(rows[..n], cutoff);
      OldCountAppend(rows[..n], rows[n], cutoff);
      assert rows == rows[..n] + [rows[n]];
      assert OldOnes(rows, cutoff) == OldOnes(rows[..n], cutoff) + if rows[n].created < cutoff then {n} else {};
    }
  }

  lemma {:induction false} OldCountAppend(rows: seq<Row>, row: Row, cutoff: int)
    ensures OldCount(rows + [row], cutoff) == OldCount(rows, cutoff) + if Old(row, cutoff) then 1 else 0
  {
    if rows == [] {
      assert rows + [row] == [row];
    } else {
      assert (rows + [row])[1..] == rows[1..] + [row];
      OldCountAppend(rows[1..], row, cutoff);
    }
  }

  /** What one pass leaves: the batch is cut first, and its unmarked rows go. */
  function Sweep(rows: seq<Row>, marked: set<Hash>, cutoff: int, batch: nat): seq<Row> {
    if rows == [] || batch == 0 then rows
    else if !Old(rows[0], cutoff) then [rows[0]] + Sweep(rows[1..], marked, cutoff, batch)
    else if rows[0].hash in marked then [rows[0]] + Sweep(rows[1..], marked, cutoff, batch - 1)
    else Sweep(rows[1..], marked, cutoff, batch - 1)
  }

  /** A pass deletes exactly the unmarked rows of its batch, none inside the grace window. */
  lemma {:induction false} SweepMeaning(rows: seq<Row>, marked: set<Hash>, cutoff: int, batch: nat, row: Row)
    requires DistinctRows(rows)
    ensures row in Sweep(rows, marked, cutoff, batch)
       <==> row in rows && !(row in Candidates(rows, cutoff, batch) && row.hash !in marked)
    ensures row in Candidates(rows, cutoff, batch) ==> row in rows && Old(row, cutoff)
  {
    if rows != [] && batch > 0 {
      SweepMeaning(rows[1..], marked, cutoff, if Old(rows[0], cutoff) then batch - 1 else batch, row);
      assert rows == [rows[0]] + rows[1..];
      if row in rows[1..] {
        var i :| 0 <= i < |rows[1..]| && rows[1..][i] == row;
        assert rows[0].hash != rows[i + 1].hash;
      }
    }
  }

  lemma {:induction false} SweepKeepsDistinct(rows: seq<Row>, marked: set<Hash>, cutoff: int, batch: nat)
    requires DistinctRows(rows)
    ensures DistinctRows(Sweep(rows, marked, cutoff, batch))
  {
    if rows != [] && batch > 0 {
      var b := if Old(rows[0], cutoff) then batch - 1 else batch;
      SweepKeepsDistinct(rows[1..], marked, cutoff, b);
      var rest := Sweep(rows[1..], marked, cutoff, b);
      forall i | 0 <= i < |rest| ensures rest[i].hash != rows[0].hash {
        SweepMeaning(rows[1..], marked, cutoff, b, rest[i]);
        var k :| 0 <= k < |rows[1..]| && rows[1..][k] == rest[i];
        assert rows[0].hash != rows[k + 1].hash;
      }
    }
  }

  /** The rows whose hash is not in `gone`, in order. */
  function FilterOut(rows: seq<Row>, gone: set<Hash>): seq<Row> {
    if rows == [] then []
    else (if rows[0].hash in gone then [] else [rows[0]]) + FilterOut(rows[1..], gone)
  }

  lemma {:induction false} FilterOutNothing(rows: seq<Row>)
    ensures FilterOut(rows, {}) == rows
  {
    if rows != [] { FilterOutNothing(rows[1..]); }
  }

  lemma {:induction false} FilterOutTwice(rows: seq<Row>, a: set<Hash>, b: set<Hash>)
    ensures FilterOut(FilterOut(rows, a), b) == FilterOut(rows, a + b)
  {
    if rows != [] {
      FilterOutTwice(rows[1..], a, b);
      var rest := FilterOut(rows[1..], a);
      assert ([rows[0]] + rest)[1..] == rest && [] + rest == rest;
      if rows[0].hash in a {
        assert FilterOut(rows, a) == rest;
      } else {
        assert FilterOut(rows, a) == [rows[0]] + rest;
      }
    }
  }

  /** Deleting the unmarked rows of the batch one by one is the sweep. */
  lemma {:induction false} SweepIsDeletion(rows: seq<Row>, marked: set<Hash>, cutoff: int, batch: nat, gone: set<Hash>)
    requires DistinctRows(rows)
    requires forall row :: row in rows ==>
               (row.hash in gone <==> row in Candidates(rows, cutoff, batch) && row.hash !in marked)
    ensures FilterOut(rows, gone) == Sweep(rows, marked, cutoff, batch)
  {
    if rows == [] {
    } else if batch == 0 {
      KeepAll(rows, gone);
    } else {
      var b := if Old(rows[0], cutoff) then batch - 1 else batch;
      assert rows[0] in rows;
      if !Old(rows[0], cutoff) {
        SweepMeaning(rows, marked, cutoff, batch, rows[0]);
      }
      forall row | row in rows[1..]
        ensures row.hash in gone <==> row in Candidates(rows[1..], cutoff, b) && row.hash !in marked
      {
        assert row in rows;
        var i :| 0 <= i < |rows[1..]| && rows[1..][i] == row;
        assert rows[0].hash != rows[i + 1].hash;
      }
      SweepIsDeletion(rows[1..], marked, cutoff, b, gone);
    }
  }

  lemma {:induction false} KeepAll(rows: seq<Row>, gone: set<Hash>)
    requires forall row :: row in rows ==> row.hash !in gone
    ensures FilterOut(rows, gone) == rows
  {
    if rows != [] {
      assert rows[0] in rows && forall row :: row in rows[1..] ==> row in rows;
      KeepAll(rows[1..], gone);
    }
  }

  lemma DeletedHash(rows: seq<Row>, marked: set<Hash>, cutoff: int, batch: nat, row: Row)
    requires DistinctRows(rows) && row in rows
    ensures row.hash in UnmarkedHashes(Candidates(rows, cutoff, batch), marked)
       <==> row in Candidates(rows, cutoff, batch) && row.hash !in marked
  {
    var candidates := Candidates(rows, cutoff, batch);
    UnmarkedMeaning(candidates, marked, row.hash);
    if other :| other in candidates && other.hash == row.hash {
      SweepMeaning(rows, marked, cutoff, batch, other);
      var i :| 0 <= i < |rows| && rows[i] == row;
      var j :| 0 <= j < |rows| && rows[j] == other;
      assert i == j;
    }
  }

  lemma {:induction false} UnmarkedMeaning(rows: seq<Row>, marked: set<Hash>, h: Hash)
    ensures h in UnmarkedHashes(rows, marked) <==> h !in marked && exists row :: row in rows && row.hash == h
  {
    if rows != [] {
      var front, last := rows[..|rows| - 1], rows[|rows| - 1];
      UnmarkedMeaning(front, marked, h);
      assert rows == front + [last];
      if row :| row in rows && row.hash == h {
        if row !in front { assert row == last; }
      }
    }
  }

  datatype Report = Report(rootCount: nat, markedCount: nat, candidateCount: nat, deleted: seq<Hash>)

  function UnmarkedHashes(rows: seq<Row>, marked: set<Hash>): seq<Hash> {
    if rows == [] then []
    else
      UnmarkedHashes(rows[..|rows| - 1], marked)
      + if rows[|rows| - 1].hash in marked then [] else [rows[|rows| - 1].hash]
  }

  class BlobRegistry {
    var rows: seq<Row>
    /** The objects whose bytes are stored. */
    var bytes: set<Hash>

    constructor (rows: seq<Row>, bytes: set<Hash>)
      ensures this.rows == rows && this.bytes == bytes
    {
      this.rows := rows;
      this.bytes := bytes;
    }

    /** Deletes the unmarked objects of a batch one by one, bytes before the row. */
    method SweepBatch(candidates: seq<Row>, marked: set<Hash>) returns (deleted: seq<Hash>)
      modifies this
      ensures deleted == UnmarkedHashes(candidates, marked)
      ensures bytes == old(bytes) - Elements(deleted)
      ensures rows == FilterOut(old(rows), Elements(deleted))
    {
      deleted := [];
      assert candidates[..0] == [] && Elements(deleted) == {};
      FilterOutNothing(rows);
      for i := 0 to |candidates|
        invariant deleted == UnmarkedHashes(candidates[..i], marked)
        invariant bytes == old(bytes) - Elements(deleted)
        invariant rows == FilterOut(old(rows), Elements(deleted))
      {
        assert candidates[..i + 1][..i] == candidates[..i];
        var h := candidates[i].hash;
        if h !in marked {
          bytes := bytes - {h};
          FilterOutTwice(old(rows), Elements(deleted), {h});
          rows := FilterOut(rows, {h});
          ElementsOf(deleted, [h]);
          assert Elements([h]) == {h};
          deleted := deleted + [h];
        }
      }
      assert candidates[..|candidates|] == candidates;
    }

    /**
      One bounded pass: gather the roots, mark, cut the batch, delete its unmarked objects. Exactly
      the unmarked rows of the batch go, with their bytes. In terms of the tables: whatever a
      version, a skill, the change log or a receipt within its retention, or a legal hold names
      stays, with the blobs of its manifest; so does everything inside the grace window and behind
      the batch. Of the batch everything goes that some set of hashes leaves out which contains all
      that is named and, with every manifest that reads, its blobs.
    */
    method RunBlobGc(tables: Tables, parsed: map<Hash, set<Hash>>, settings: Settings, now: int)
      returns (report: Report, ghost marked: set<Hash>)
      requires DistinctRows(rows)
      modifies this
      ensures IsMark(Readable(parsed, old(bytes)), RootsOf(tables, settings, now), marked)
      ensures IsSwept(old(rows), marked, now - settings.orphanGrace, settings.batch, rows)
      ensures Store(rows, bytes) == Collected(Store(old(rows), old(bytes)), parsed, RootsOf(tables, settings, now),
                                              now - settings.orphanGrace, settings.batch)
      ensures forall p, i ::
                && 0 <= i < |old(rows)|
                && (|| p in settings.legalRoots || Some(p) in tables.versions || Some(p) in tables.skills
                    || (exists m :: m in tables.changes && m.package == Some(p)
                                    && m.created >= now - settings.changeRetention)
                    || (exists m :: m in tables.receipts && m.package == Some(p)
                                    && m.created >= now - settings.receiptRetention))
                && (old(rows)[i].hash == p || (p in parsed && p in old(bytes) && old(rows)[i].hash in parsed[p]))
                ==> old(rows)[i] in rows && (old(rows)[i].hash in old(bytes) ==> old(rows)[i].hash in bytes)
      ensures forall i ::
                && 0 <= i < |old(rows)|
                && (|| old(rows)[i].created >= now - settings.orphanGrace
                    || OldCount(old(rows)[..i], now - settings.orphanGrace) >= settings.batch)
                ==> old(rows)[i] in rows && (old(rows)[i].hash in old(bytes) ==> old(rows)[i].hash in bytes)
      ensures forall i, s: set<Hash> ::
                && 0 <= i < |old(rows)| && old(rows)[i].hash !in s
                && old(rows)[i].created < now - settings.orphanGrace
                && OldCount(old(rows)[..i], now - settings.orphanGrace) < settings.batch
                && settings.legalRoots <= s
                && (forall p :: Some(p) in tables.versions || Some(p) in tables.skills ==> p in s)
                && (forall m :: m in tables.changes && m.package.Some? && m.created >= now - settings.changeRetention
                                ==> m.package.value in s)
                && (forall m :: m in tables.receipts && m.package.Some? && m.created >= now - settings.receiptRetention
                                ==> m.package.value in s)
                && (forall q :: q in s && q in parsed && q in old(bytes) ==> parsed[q] <= s)
                ==> old(rows)[i] !in rows && old(rows)[i].hash !in bytes
      ensures report.deleted
           == UnmarkedHashes(Candidates(old(rows), now - settings.orphanGrace, settings.batch), marked)
      ensures report.candidateCount == |Candidates(old(rows), now - settings.orphanGrace, settings.batch)|
      ensures report.rootCount == |RootsOf(tables, settings, now)| && report.markedCount == |marked|
    {
      hide *;
      ghost var rows0, bytes0 := rows, bytes;
      report, marked := MarkAndSweep(tables, parsed, settings, now);
      PassKeepsNamed(rows0, bytes0, tables, parsed, settings, now, marked, rows, bytes);
      PassKeepsYoung(rows0, bytes0, tables, parsed, settings, now, marked, rows, bytes);
      PassCollects(rows0, bytes0, tables, parsed, settings, now, marked, rows, bytes);
    }

    /** The two phases of the pass. */
    method MarkAndSweep(tables: Tables, parsed: map<Hash, set<Hash>>, settings: Settings, now: int)
      returns (report: Report, ghost marked: set<Hash>)
      requires DistinctRows(rows)
      modifies this
      ensures IsMark(Readable(parsed, old(bytes)), RootsOf(tables, settings, now), marked)
      ensures IsPass(old(rows), old(bytes), marked, now - settings.orphanGrace, settings.batch, rows, bytes)
      ensures IsSwept(old(rows), marked, now - settings.orphanGrace, settings.batch, rows)
      ensures Store(rows, bytes) == Collected(Store(old(rows), old(bytes)), parsed, RootsOf(tables, settings, now),
                                              now - settings.orphanGrace, settings.batch)
      ensures report.deleted
           == UnmarkedHashes(Candidates(old(rows), now - settings.orphanGrace, settings.batch), marked)
      ensures report.candidateCount == |Candidates(old(rows), now - settings.orphanGrace, settings.batch)|
      ensures report.rootCount == |RootsOf(tables, settings, now)| && report.markedCount == |marked|
    {
      hide IsMark, Reachable, Candidates, Elements, UnmarkedHashes, RootsOf, Sweep;
      var roots := GatherRoots(tables, settings, now);
      var mark := Mark(Readable(parsed, bytes), roots);
      marked := mark;
      MarkIsMarkOf(Readable(parsed, bytes), roots, marked);
      var cutoff, batch := now - settings.orphanGrace, settings.batch;
      var candidates := Candidates(rows, cutoff, batch);
      var deleted := SweepBatch(candidates, mark);
      SweepIsComplete(old(rows), marked, cutoff, batch);
      report := Report(|roots|, |mark|, |candidates|, deleted);
    }
  }

  // ---- The pass in terms of the tables -------------------------------------------------------

  ghost predicate IsPass(rows: seq<Row>, bytes: set<Hash>, marked: set<Hash>, cutoff: int, batch: nat,
                         rows': seq<Row>, bytes': set<Hash>) {
    && IsSwept(rows, marked, cutoff, batch, rows')
    && bytes' == bytes - Elements(UnmarkedHashes(Candidates(rows, cutoff, batch), marked))
  }

  /** Row by row, a pass takes what is old, in the batch and unmarked, and the bytes with it. */
  lemma PassTakes(rows: seq<Row>, bytes: set<Hash>, marked: set<Hash>, cutoff: int, batch: nat,
                  rows': seq<Row>, bytes': set<Hash>, i: nat)
    requires DistinctRows(rows) && IsPass(rows, bytes, marked, cutoff, batch, rows', bytes') && i < |rows|
    ensures var gone := rows[i].created < cutoff && OldCount(rows[..i], cutoff) < batch && rows[i].hash !in marked;
            (rows[i] in rows' <==> !gone) && (rows[i].hash in bytes' <==> rows[i].hash in bytes && !gone)
  {
    BatchIs(rows, cutoff, batch, i);
    DeletedHash(rows, marked, cutoff, batch, rows[i]);
  }

  /**
    Whatever a version, a skill, the change log or a receipt within its retention, or a legal hold
    names stays, row and bytes, and so do the blobs of its manifest.
  */
  lemma PassKeepsNamed(rows: seq<Row>, bytes: set<Hash>, tables: Tables, parsed: map<Hash, set<Hash>>,
                    settings: Settings, now: int, marked: set<Hash>, rows': seq<Row>, bytes': set<Hash>)
    requires DistinctRows(rows) && IsMark(Readable(parsed, bytes), RootsOf(tables, settings, now), marked)
    requires IsPass(rows, bytes, marked, now - settings.orphanGrace, settings.batch, rows', bytes')
    ensures forall p, i ::
              && 0 <= i < |rows|
              && (|| p in settings.legalRoots || Some(p) in tables.versions || Some(p) in tables.skills
                  || (exists m :: m in tables.changes && m.package == Some(p)
                                  && m.created >= now - settings.changeRetention)
                  || (exists m :: m in tables.receipts && m.package == Some(p)
                                  && m.created >= now - settings.receiptRetention))
              && (rows[i].hash == p || (p in parsed && p in bytes && rows[i].hash in parsed[p]))
              ==> rows[i] in rows' && (rows[i].hash in bytes ==> rows[i].hash in bytes')
  {
    hide RootsOf, IsPass, Reachable;
    forall p, i |
        && 0 <= i < |rows|
        && (|| p in settings.legalRoots || Some(p) in tables.versions || Some(p) in tables.skills
            || (exists m :: m in tables.changes && m.package == Some(p) && m.created >= now - settings.changeRetention)
            || (exists m :: m in tables.receipts && m.package == Some(p)
                            && m.created >= now - settings.receiptRetention))
        && (rows[i].hash == p || (p in parsed && p in bytes && rows[i].hash in parsed[p]))
      ensures rows[i] in rows' && (rows[i].hash in bytes ==> rows[i].hash in bytes')
    {
      RootsAre(tables, settings, now, p);
      assert p in marked && rows[i].hash in {p} + Expand(Readable(parsed, bytes), p);
      PassTakes(rows, bytes, marked, now - settings.orphanGrace, settings.batch, rows', bytes', i);
    }
  }

  /** Whatever is inside the grace window or behind the batch stays. */
  lemma PassKeepsYoung(rows: seq<Row>, bytes: set<Hash>, tables: Tables, parsed: map<Hash, set<Hash>>,
                    settings: Settings, now: int, marked: set<Hash>, rows': seq<Row>, bytes': set<Hash>)
    requires DistinctRows(rows) && IsMark(Readable(parsed, bytes), RootsOf(tables, settings, now), marked)
    requires IsPass(rows, bytes, marked, now - settings.orphanGrace, settings.batch, rows', bytes')
    ensures forall i ::
              && 0 <= i < |rows|
              && (|| rows[i].created >= now - settings.orphanGrace
                  || OldCount(rows[..i], now - settings.orphanGrace) >= settings.batch)
              ==> rows[i] in rows' && (rows[i].hash in bytes ==> rows[i].hash in bytes')
  {
    hide *;
    forall i | 0 <= i < |rows|
      ensures var gone := && rows[i].created < now - settings.orphanGrace
                          && OldCount(rows[..i], now - settings.orphanGrace) < settings.batch
                          && rows[i].hash !in marked;
              (rows[i] in rows' <==> !gone) && (rows[i].hash in bytes' <==> rows[i].hash in bytes && !gone)
    {
      PassTakes(rows, bytes, marked, now - settings.orphanGrace, settings.batch, rows', bytes', i);
    }
  }

  /**
    An old row of the batch goes if some set of hashes leaves it out which contains all that is
    named and, with every manifest that reads, its blobs.
  */
  lemma PassCollects(rows: seq<Row>, bytes: set<Hash>, tables: Tables, parsed: map<Hash, set<Hash>>,
                    settings: Settings, now: int, marked: set<Hash>, rows': seq<Row>, bytes': set<Hash>)
    requires DistinctRows(rows) && IsMark(Readable(parsed, bytes), RootsOf(tables, settings, now), marked)
    requires IsPass(rows, bytes, marked, now - settings.orphanGrace, settings.batch, rows', bytes')
    ensures forall i, s: set<Hash> ::
              && 0 <= i < |rows| && rows[i].hash !in s
              && rows[i].created < now - settings.orphanGrace
              && OldCount(rows[..i], now - settings.orphanGrace) < settings.batch
              && settings.legalRoots <= s
              && (forall p :: Some(p) in tables.versions || Some(p) in tables.skills ==> p in s)
              && (forall m :: m in tables.changes && m.package.Some? && m.created >= now - settings.changeRetention
                              ==> m.package.value in s)
              && (forall m :: m in tables.receipts && m.package.Some? && m.created >= now - settings.receiptRetention
                              ==> m.package.value in s)
              && (forall q :: q in s && q in parsed && q in bytes ==> parsed[q] <= s)
              ==> rows[i] !in rows' && rows[i].hash !in bytes'
  {
    hide *;
    forall i, s: set<Hash> |
        && 0 <= i < |rows| && rows[i].hash !in s
        && rows[i].created < now - settings.orphanGrace
        && OldCount(rows[..i], now - settings.orphanGrace) < settings.batch
        && settings.legalRoots <= s
        && (forall p :: Some(p) in tables.versions || Some(p) in tables.skills ==> p in s)
        && (forall m :: m in tables.changes && m.package.Some? && m.created >= now - settings.changeRetention
                        ==> m.package.value in s)
        && (forall m :: m in tables.receipts && m.package.Some? && m.created >= now - settings.receiptRetention
                        ==> m.package.value in s)
        && (forall q :: q in s && q in parsed && q in bytes ==> parsed[q] <= s)
      ensures rows[i] !in rows' && rows[i].hash !in bytes'
    {
      MarkIsWithin(bytes, tables, parsed, settings, now, marked, s);
      PassTakes(rows, bytes, marked, now - settings.orphanGrace, settings.batch, rows', bytes', i);
    }
  }

  lemma MarkIsWithin(bytes: set<Hash>, tables: Tables, parsed: map<Hash, set<Hash>>, settings: Settings, now: int,
                     marked: set<Hash>, s: set<Hash>)
    requires IsMark(Readable(parsed, bytes), RootsOf(tables, settings, now), marked)
    requires settings.legalRoots <= s
    requires forall p :: Some(p) in tables.versions || Some(p) in tables.skills ==> p in s
    requires forall m :: m in tables.changes && m.package.Some? && m.created >= now - settings.changeRetention
                         ==> m.package.value in s
    requires forall m :: m in tables.receipts && m.package.Some? && m.created >= now - settings.receiptRetention
                         ==> m.package.value in s
    requires forall q :: q in s && q in parsed && q in bytes ==> parsed[q] <= s
    ensures marked <= s
  {
    hide RootsOf, Reachable;
    forall p | p in RootsOf(tables, settings, now) ensures p in s {
      RootsAre(tables, settings, now, p);
    }
    assert Closed(Readable(parsed, bytes), s);
  }

  datatype Store = Store(rows: seq<Row>, bytes: set<Hash>)

  /** The mark as a set. */
  ghost function MarkOf(manifests: map<Hash, set<Hash>>, roots: set<Hash>): set<Hash> {
    set h | h in Universe(manifests, roots) && Reachable(manifests, roots, h)
  }

  lemma MarkOfMeaning(manifests: map<Hash, set<Hash>>, roots: set<Hash>, h: Hash)
    ensures h in MarkOf(manifests, roots) <==> Reachable(manifests, roots, h)
  {
    if Reachable(manifests, roots, h) {
      var path :| Path(manifests, roots, path) && path[|path| - 1] == h;
      if |path| > 1 { ExpandInUniverse(manifests, roots, path[|path| - 2]); }
    }
  }

  lemma MarkIsMarkOf(manifests: map<Hash, set<Hash>>, roots: set<Hash>, marked: set<Hash>)
    requires IsMark(manifests, roots, marked)
    ensures marked == MarkOf(manifests, roots)
  {
    forall h ensures h in marked <==> h in MarkOf(manifests, roots) {
      MarkOfMeaning(manifests, roots, h);
    }
  }

  /** A store after one pass, which marks afresh. */
  ghost function Collected(s: Store, parsed: map<Hash, set<Hash>>, roots: set<Hash>, cutoff: int, batch: nat): Store {
    var marked := MarkOf(Readable(parsed, s.bytes), roots);
    Store(Sweep(s.rows, marked, cutoff, batch),
          s.bytes - Elements(UnmarkedHashes(Candidates(s.rows, cutoff, batch), marked)))
  }

  /** `after` are the rows without the unmarked rows of the batch, in order. */
  ghost predicate IsSwept(rows: seq<Row>, marked: set<Hash>, cutoff: int, batch: nat, after: seq<Row>) {
    && after == Sweep(rows, marked, cutoff, batch)
    && forall row :: row in after <==> row in rows && !(row in Candidates(rows, cutoff, batch) && row.hash !in marked)
  }

  lemma SweepIsComplete(rows: seq<Row>, marked: set<Hash>, cutoff: int, batch: nat)
    requires DistinctRows(rows)
    ensures IsSwept(rows, marked, cutoff, batch,
                    FilterOut(rows, Elements(UnmarkedHashes(Candidates(rows, cutoff, batch), marked))))
  {
    var gone := Elements(UnmarkedHashes(Candidates(rows, cutoff, batch), marked));
    forall row | row in rows
      ensures row.hash in gone <==> row in Candidates(rows, cutoff, batch) && row.hash !in marked
    {
      DeletedHash(rows, marked, cutoff, batch, row);
    }
    SweepIsDeletion(rows, marked, cutoff, batch, gone);
    forall row
      ensures row in Sweep(rows, marked, cutoff, batch)
         <==> row in rows && !(row in Candidates(rows, cutoff, batch) && row.hash !in marked)
    {
      SweepMeaning(rows, marked, cutoff, batch, row);
    }
  }

  // ---- What survives ------------------------------------------------------------------------

  /** What a registry holds with its bytes: the sizes by hash. */
  ghost predicate Holds(rows: seq<Row>, bytes: set<Hash>, h: Hash, size: nat) {
    h in bytes && exists row :: row in rows && row.hash == h && row.size == size
  }

  /**
    A package whose manifest is rooted survives every pass: the manifest and every blob it names
    are still held, with the same sizes, so its closure still validates and its manifest still
    reads.
  */
  lemma RetainedPackagesSurvive(rows: seq<Row>, bytes: set<Hash>, roots: set<Hash>, manifests: map<Hash, set<Hash>>,
                                marked: set<Hash>, cutoff: int, batch: nat, package: Hash, h: Hash, size: nat)
    requires DistinctRows(rows) && (forall k :: k in marked <==> Reachable(manifests, roots, k))
    requires package in roots && (h == package || h in Expand(manifests, package))
    requires Holds(rows, bytes, h, size)
    ensures Holds(Sweep(rows, marked, cutoff, batch),
                  bytes - Elements(UnmarkedHashes(Candidates(rows, cutoff, batch), marked)), h, size)
  {
    assert Path(manifests, roots, [package]) && Reachable(manifests, roots, package);
    if h != package {
      ReachableExtends(manifests, roots, package, h);
    }
    var row :| row in rows && row.hash == h && row.size == size;
    SweepMeaning(rows, marked, cutoff, batch, row);
    UnmarkedMeaning(Candidates(rows, cutoff, batch), marked, h);
  }

  /** `held` is what the blob check sees of a registry. */
  ghost predicate Shows(held: map<string, int>, rows: seq<Row>, bytes: set<Hash>) {
    forall text: string, size: nat ::
      text in held && held[text] == size <==> Holds(rows, bytes, Hash(text), size)
  }

  /** The server's closure check, passed by a retained package before a pass, passes after it. */
  lemma ClosureStillValid(rows: seq<Row>, bytes: set<Hash>, roots: set<Hash>, manifests: map<Hash, set<Hash>>,
                          marked: set<Hash>, cutoff: int, batch: nat, package: Hash,
                          files: seq<PackageManifests.FileEntry>, held: map<string, int>, heldAfter: map<string, int>)
    requires DistinctRows(rows) && IsMark(manifests, roots, marked)
    requires package in roots && package in manifests
    requires manifests[package] == set f | f in files :: Hash(f.blobHash)
    requires Shows(held, rows, bytes)
    requires Shows(heldAfter, Sweep(rows, marked, cutoff, batch),
                   bytes - Elements(UnmarkedHashes(Candidates(rows, cutoff, batch), marked)))
    requires forall i :: 0 <= i < |files| ==> files[i].sizeBytes >= 0
    requires PackageManifests.ClosureHeld(files, held)
    ensures PackageManifests.ClosureHeld(files, heldAfter)
  {
    forall i | 0 <= i < |files|
      ensures files[i].blobHash in heldAfter && heldAfter[files[i].blobHash] == files[i].sizeBytes
    {
      var f := files[i];
      assert f in files && Hash(f.blobHash) in manifests[package];
      assert Holds(rows, bytes, Hash(f.blobHash), f.sizeBytes);
      RetainedPackagesSurvive(rows, bytes, roots, manifests, marked, cutoff, batch, package,
                              Hash(f.blobHash), f.sizeBytes);
    }
  }

  /**
    A pass does not change what the next one marks: whatever is deleted was unreachable, so every
    manifest on a path from a root can still be read.
  */
  lemma MarksAreStable(parsed: map<Hash, set<Hash>>, roots: set<Hash>, bytes: set<Hash>, gone: set<Hash>, h: Hash)
    requires forall k :: k in gone ==> !Reachable(Readable(parsed, bytes), roots, k)
    ensures Reachable(Readable(parsed, bytes - gone), roots, h) <==> Reachable(Readable(parsed, bytes), roots, h)
  {
    if Reachable(Readable(parsed, bytes), roots, h) {
      var path :| Path(Readable(parsed, bytes), roots, path) && path[|path| - 1] == h;
      forall i | 0 < i < |path| ensures path[i] in Expand(Readable(parsed, bytes - gone), path[i - 1]) {
        assert Path(Readable(parsed, bytes), roots, path[..i]) && path[..i][|path[..i]| - 1] == path[i - 1];
      }
      assert Path(Readable(parsed, bytes - gone), roots, path);
    }
    if Reachable(Readable(parsed, bytes - gone), roots, h) {
      var path :| Path(Readable(parsed, bytes - gone), roots, path) && path[|path| - 1] == h;
      assert Path(Readable(parsed, bytes), roots, path);
    }
  }

  // ---- Repeated runs ------------------------------------------------------------------------

  predicate Garbage(row: Row, marked: set<Hash>, cutoff: int) {
    Old(row, cutoff) && row.hash !in marked
  }

  function MarkedOldCount(rows: seq<Row>, marked: set<Hash>, cutoff: int): nat {
    if rows == [] then 0
    else (if Old(rows[0], cutoff) && rows[0].hash in marked then 1 else 0) + MarkedOldCount(rows[1..], marked, cutoff)
  }

  /** The registry after `n` passes with the same marks and cutoff. */
  function Passes(rows: seq<Row>, marked: set<Hash>, cutoff: int, batch: nat, n: nat): seq<Row>
    decreases n
  {
    if n == 0 then rows else Passes(Sweep(rows, marked, cutoff, batch), marked, cutoff, batch, n - 1)
  }

  /** A sweep spends its batch on the front of the registry first. */
  lemma {:induction false} SweepSplit(a: seq<Row>, b: seq<Row>, marked: set<Hash>, cutoff: int, batch: nat)
    ensures Sweep(a + b, marked, cutoff, batch)
         == Sweep(a, marked, cutoff, batch)
            + Sweep(b, marked, cutoff, if OldCount(a, cutoff) <= batch then batch - OldCount(a, cutoff) else 0)
  {
    if a == [] {
      assert a + b == b;
    } else if batch > 0 {
      assert (a + b)[1..] == a[1..] + b;
      SweepSplit(a[1..], b, marked, cutoff, if Old(a[0], cutoff) then batch - 1 else batch);
    }
  }

  /** A sweep keeps the marked old rows, and deletes garbage unless marked rows use up the batch. */
  lemma {:induction false} SweepCounts(a: seq<Row>, marked: set<Hash>, cutoff: int, batch: nat)
    ensures var after := Sweep(a, marked, cutoff, batch);
            && MarkedOldCount(after, marked, cutoff) == MarkedOldCount(a, marked, cutoff)
            && MarkedOldCount(a, marked, cutoff) <= OldCount(a, cutoff)
            && OldCount(after, cutoff) <= OldCount(a, cutoff)
            && (OldCount(after, cutoff) == OldCount(a, cutoff) ==>
                  OldCount(a, cutoff) == MarkedOldCount(a, marked, cutoff)
                  || batch <= MarkedOldCount(a, marked, cutoff))
  {
    if a != [] {
      SweepCounts(a[1..], marked, cutoff, if Old(a[0], cutoff) && batch > 0 then batch - 1 else batch);
      var rest := Sweep(a[1..], marked, cutoff, if Old(a[0], cutoff) && batch > 0 then batch - 1 else batch);
      assert ([a[0]] + rest)[1..] == rest;
    }
  }

  /** Behind a full batch of marked old rows nothing is ever collected. */
  lemma {:induction false} StarvedForever(a: seq<Row>, g: Row, b: seq<Row>, marked: set<Hash>, cutoff: int,
                                         batch: nat, n: nat)
    requires MarkedOldCount(a, marked, cutoff) >= batch
    ensures g in Passes(a + [g] + b, marked, cutoff, batch, n)
    decreases n
  {
    if n > 0 {
      var rest := [g] + b;
      assert a + [g] + b == a + rest;
      SweepSplit(a, rest, marked, cutoff, batch);
      SweepCounts(a, marked, cutoff, batch);
      var a' := Sweep(a, marked, cutoff, batch);
      assert a' + rest == a' + [g] + b;
      StarvedForever(a', g, b, marked, cutoff, batch, n - 1);
    } else {
      assert (a + [g] + b)[|a|] == g;
    }
  }

  /** In front of it garbage is gone after finitely many passes. */
  lemma {:induction false} CollectedEventually(a: seq<Row>, g: Row, b: seq<Row>, marked: set<Hash>,
                                             cutoff: int, batch: nat)
    returns (n: nat)
    requires DistinctRows(a + [g] + b) && Garbage(g, marked, cutoff)
    requires MarkedOldCount(a, marked, cutoff) < batch
    ensures g !in Passes(a + [g] + b, marked, cutoff, batch, n)
    decreases OldCount(a, cutoff)
  {
    var rest := [g] + b;
    var rows := a + rest;
    assert a + [g] + b == rows;
    SweepSplit(a, rest, marked, cutoff, batch);
    SweepCounts(a, marked, cutoff, batch);
    var a' := Sweep(a, marked, cutoff, batch);
    if OldCount(a, cutoff) < batch {
      n := 1;
      assert g in Candidates(rows, cutoff, batch) by { CandidatesReach(a, g, b, cutoff, batch); }
      SweepMeaning(rows, marked, cutoff, batch, g);
      assert Passes(rows, marked, cutoff, batch, 1) == Sweep(rows, marked, cutoff, batch);
    } else {
      SweepKeepsDistinct(rows, marked, cutoff, batch);
      assert a' + rest == a' + [g] + b;
      var m := CollectedEventually(a', g, b, marked, cutoff, batch);
      n := m + 1;
    }
  }

  lemma {:induction false} CandidatesReach(a: seq<Row>, g: Row, b: seq<Row>, cutoff: int, batch: nat)
    requires OldCount(a, cutoff) < batch && Old(g, cutoff)
    ensures g in Candidates(a + ([g] + b), cutoff, batch)
  {
    if a == [] {
      assert a + ([g] + b) == [g] + b;
    } else {
      assert (a + ([g] + b))[1..] == a[1..] + ([g] + b);
      CandidatesReach(a[1..], g, b, cutoff, if Old(a[0], cutoff) then batch - 1 else batch);
    }
  }

  /** A store after `n` passes, each of which marks afresh. */
  ghost function Runs(s: Store, parsed: map<Hash, set<Hash>>, roots: set<Hash>, cutoff: int, batch: nat, n: nat): Store
    decreases n
  {
    if n == 0 then s else Runs(Collected(s, parsed, roots, cutoff, batch), parsed, roots, cutoff, batch, n - 1)
  }

  /** A pass leaves the mark as it was. */
  lemma CollectedKeepsMark(s: Store, parsed: map<Hash, set<Hash>>, roots: set<Hash>, cutoff: int, batch: nat)
    ensures MarkOf(Readable(parsed, Collected(s, parsed, roots, cutoff, batch).bytes), roots)
         == MarkOf(Readable(parsed, s.bytes), roots)
  {
    hide Reachable, MarkOf, Readable;
    var marked := MarkOf(Readable(parsed, s.bytes), roots);
    var candidates := Candidates(s.rows, cutoff, batch);
    var gone := Elements(UnmarkedHashes(candidates, marked));
    forall k | k in gone ensures !Reachable(Readable(parsed, s.bytes), roots, k) {
      UnmarkedMeaning(candidates, marked, k);
      MarkOfMeaning(Readable(parsed, s.bytes), roots, k);
    }
    forall h ensures h in MarkOf(Readable(parsed, s.bytes - gone), roots) <==> h in marked {
      MarksAreStable(parsed, roots, s.bytes, gone, h);
      MarkOfMeaning(Readable(parsed, s.bytes - gone), roots, h);
      MarkOfMeaning(Readable(parsed, s.bytes), roots, h);
    }
  }

  /** Passes that mark afresh are passes with the first mark. */
  lemma {:induction false} RunsArePasses(s: Store, parsed: map<Hash, set<Hash>>, roots: set<Hash>, cutoff: int,
                                         batch: nat, n: nat)
    ensures Runs(s, parsed, roots, cutoff, batch, n).rows
         == Passes(s.rows, MarkOf(Readable(parsed, s.bytes), roots), cutoff, batch, n)
    ensures MarkOf(Readable(parsed, Runs(s, parsed, roots, cutoff, batch, n).bytes), roots)
         == MarkOf(Readable(parsed, s.bytes), roots)
    decreases n
  {
    if n > 0 {
      hide MarkOf, Readable;
      CollectedKeepsMark(s, parsed, roots, cutoff, batch);
      RunsArePasses(Collected(s, parsed, roots, cutoff, batch), parsed, roots, cutoff, batch, n - 1);
    }
  }

  /**
    Do repeated runs of the job converge, each with its own mark? The batch is cut before marks are
    looked at, so an old row that no root reaches is eventually collected exactly when fewer than
    `batch` marked old rows precede it in hash order. What a root reaches is never collected.
  */
  lemma RunsConvergeIffNotStarved(a: seq<Row>, g: Row, b: seq<Row>, bytes: set<Hash>, parsed: map<Hash, set<Hash>>,
                                  roots: set<Hash>, cutoff: int, batch: nat)
    requires DistinctRows(a + [g] + b) && Old(g, cutoff)
    ensures (exists n: nat :: g !in Runs(Store(a + [g] + b, bytes), parsed, roots, cutoff, batch, n).rows)
       <==> && !Reachable(Readable(parsed, bytes), roots, g.hash)
            && MarkedOldCount(a, MarkOf(Readable(parsed, bytes), roots), cutoff) < batch
  {
    hide Reachable, MarkOf, Readable, Passes, Runs, MarkedOldCount;
    var s, marked := Store(a + [g] + b, bytes), MarkOf(Readable(parsed, bytes), roots);
    MarkOfMeaning(Readable(parsed, bytes), roots, g.hash);
    if g.hash !in marked && MarkedOldCount(a, marked, cutoff) < batch {
      var n := CollectedEventually(a, g, b, marked, cutoff, batch);
      RunsArePasses(s, parsed, roots, cutoff, batch, n);
    } else {
      forall n: nat ensures g in Runs(s, parsed, roots, cutoff, batch, n).rows {
        RunsArePasses(s, parsed, roots, cutoff, batch, n);
        if g.hash in marked {
          assert s.rows[|a|] == g;
          MarkedStays(s.rows, g, marked, cutoff, batch, n);
        } else {
          StarvedForever(a, g, b, marked, cutoff, batch, n);
        }
      }
    }
  }

  lemma {:induction false} MarkedStays(rows: seq<Row>, row: Row, marked: set<Hash>, cutoff: int, batch: nat, n: nat)
    requires DistinctRows(rows) && row in rows && row.hash in marked
    ensures row in Passes(rows, marked, cutoff, batch, n)
    decreases n
  {
    if n > 0 {
      SweepMeaning(rows, marked, cutoff, batch, row);
      SweepKeepsDistinct(rows, marked, cutoff, batch);
      MarkedStays(Sweep(rows, marked, cutoff, batch), row, marked, cutoff, batch, n - 1);
    }
  }

  /** One rooted row in front of one garbage row, with a batch of one: no run ever collects it. */
  lemma FullBatchOfMarkedRowsStarves(kept: Hash, lost: Hash, n: nat)
    requires kept != lost
    ensures var s := Store([Row(kept, 0, 0), Row(lost, 0, 0)], {kept, lost});
            && !Reachable(Readable(map[], s.bytes), {kept}, lost)
            && Row(lost, 0, 0) in Runs(s, map[], {kept}, 1, 1, n).rows
  {
    var a, g, bytes := [Row(kept, 0, 0)], Row(lost, 0, 0), {kept, lost};
    var manifests := Readable(map[], bytes);
    assert a + [g] + [] == [Row(kept, 0, 0), Row(lost, 0, 0)];
    assert Path(manifests, {kept}, [kept]) && Reachable(manifests, {kept}, kept);
    MarkOfMeaning(manifests, {kept}, kept);
    if path :| Path(manifests, {kept}, path) && path[|path| - 1] == lost {
      ClosedContainsPath(manifests, {kept}, {kept}, path, |path| - 1);
    }
    RunsArePasses(Store(a + [g] + [], bytes), map[], {kept}, 1, 1, n);
    StarvedForever(a, g, [], MarkOf(manifests, {kept}), 1, 1, n);
  }
}
