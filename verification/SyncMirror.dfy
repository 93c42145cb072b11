/**
  What a device knows: the mirror that a clean device builds from the feed while the skills keep
  changing on the server.
*/
module SyncMirror {
  import opened Prelude
  import opened SkillHistory

  datatype Entry = Entry(revision: nat, package: Option<string>, name: string, slug: string)

  /** The mirrored skills by server id, and how many rows of the log have been pulled. */
  datatype DeviceState = DeviceState(mirror: map<Id, Entry>, position: nat)

  // ---- One row ------------------------------------------------------------------------------

  /** Whether the feed ships a row; `access` are the other skills the user has access to. */
  predicate Visible(skills: map<Id, Skill>, row: Change, user: string, access: set<Id>) {
    && row.skill in skills
    && var s := skills[row.skill];
       if row.operation == Delete then s.owner == Some(user) || row.skill in access
       else
         match s.kind
         case Private => s.owner == Some(user)
         case Global => s.status == Published
         case OfGroup => row.skill in access
  }

  /** The package of the skill now, not of the row, is shipped; a missing one keeps what is known. */
  function PackageKept(m: map<Id, Entry>, id: Id, package: Option<string>): Option<string> {
    if package.Some? then package else if id in m then m[id].package else None
  }

  /** A shipped row applied to the mirror; a row that is not newer than the mirror does nothing. */
  function Applied(m: map<Id, Entry>, row: Change, skills: map<Id, Skill>): map<Id, Entry>
    requires row.skill in skills
  {
    var id := row.skill;
    if id in m && m[id].revision >= row.revision then m
    else if row.operation == Delete then m - {id}
    else m[id := Entry(row.revision, PackageKept(m, id, skills[id].package), row.shown.details.name, row.shown.slug)]
  }

  /**
    What applying a row does, by its revision: nothing if the mirror is as new, otherwise a deletion
    takes the skill out, and an upsert puts in what the row shows, with the skill's present package or,
    if it has none, the one known so far. No other skill is touched.
  */
  lemma AppliedMeans(m: map<Id, Entry>, row: Change, skills: map<Id, Skill>)
    requires row.skill in skills
    ensures var id, after := row.skill, Applied(m, row, skills);
            && (forall other :: other != id ==>
                  (other in after <==> other in m) && (other in m ==> after[other] == m[other]))
            && (id in m && row.revision <= m[id].revision ==> after == m)
            && (id !in m || row.revision > m[id].revision ==>
                  && (id in after <==> row.operation == Upsert)
                  && (id in after ==>
                        && after[id].revision == row.revision
                        && after[id].name == row.shown.details.name && after[id].slug == row.shown.slug
                        && (skills[id].package.Some? ==> after[id].package == skills[id].package)
                        && (skills[id].package.None? ==>
                              after[id].package == if id in m then m[id].package else None)))
  {}

  function Consumed(m: map<Id, Entry>, row: Change, skills: map<Id, Skill>,
                    user: string, access: set<Id>): map<Id, Entry> {
    if Visible(skills, row, user, access) then Applied(m, row, skills) else m
  }

  /** A page of rows, one after the other. */
  function ConsumedAll(m: map<Id, Entry>, rows: seq<Change>, skills: map<Id, Skill>, user: string, access: set<Id>)
    : map<Id, Entry>
  {
    if rows == [] then m
    else Consumed(ConsumedAll(m, rows[..|rows| - 1], skills, user, access), rows[|rows| - 1], skills, user, access)
  }

  /**
    What the feed keeps to itself: changes of private skills of others, of global skills that are not
    published and of group skills out of reach, and deletions of skills that are neither the user's
    nor within reach. What it ships is applied.
  */
  lemma HiddenRowsDoNothing(m: map<Id, Entry>, row: Change, skills: map<Id, Skill>, user: string, access: set<Id>)
    requires row.skill in skills
    ensures var s := skills[row.skill];
            var hidden :=
              || (row.operation == Upsert && s.kind == Private && s.owner != Some(user))
              || (row.operation == Upsert && s.kind == Global && s.status != Published)
              || (row.operation == Upsert && s.kind == OfGroup && row.skill !in access)
              || (row.operation == Delete && s.owner != Some(user) && row.skill !in access);
            Consumed(m, row, skills, user, access) == if hidden then m else Applied(m, row, skills)
  {}

  // ---- Runs ---------------------------------------------------------------------------------

  /** The server serves a mutation, or the device pulls a page of at most `limit` rows. */
  datatype Move = Mutate(op: Op) | Pull(limit: nat, access: set<Id>)

  datatype World = World(db: Db, device: DeviceState)

  function PageEnd(w: World, limit: nat): nat
    requires w.device.position <= |w.db.changes|
    ensures w.device.position <= PageEnd(w, limit) <= |w.db.changes|
  {
    if w.device.position + limit < |w.db.changes| then w.device.position + limit else |w.db.changes|
  }

  function Step(w: World, user: string, move: Move): World {
    match move
    case Mutate(op) =>
      var after := Apply(w.db, op);
      if after.Ok? then w.(db := after.value) else w
    case Pull(limit, access) =>
      if w.device.position > |w.db.changes| then w
      else
        var end := PageEnd(w, limit);
        var rows := w.db.changes[w.device.position..end];
        w.(device := DeviceState(ConsumedAll(w.device.mirror, rows, w.db.skills, user, access), end))
  }

  function Run(user: string, moves: seq<Move>): World {
    if moves == [] then World(Db(map[], 0, []), DeviceState(map[], 0))
    else Step(Run(user, moves[..|moves| - 1]), user, moves[|moves| - 1])
  }

  /** A pull takes the next rows, as many as it may, one after the other; a mutation leaves the device alone. */
  lemma StepMeans(w: World, user: string, move: Move)
    ensures var after := Step(w, user, move);
            && (move.Mutate? ==> after.device == w.device)
            && (move.Pull? ==> after.db == w.db)
            && (move.Pull? && w.device.position <= |w.db.changes| ==>
                  var left := |w.db.changes| - w.device.position;
                  var n := if move.limit < left then move.limit else left;
                  && after.device.position == w.device.position + n
                  && after.device.mirror == ConsumedAll(w.device.mirror, w.db.changes[w.device.position..][..n],
                                                        w.db.skills, user, move.access))
  {
    if move.Pull? && w.device.position <= |w.db.changes| {
      var end := PageEnd(w, move.limit);
      assert w.db.changes[w.device.position..][..end - w.device.position] == w.db.changes[w.device.position..end];
    }
  }

  // ---- The mirror against the log -----------------------------------------------------------

  predicate Mine(s: Skill, user: string) { s.kind == Private && s.owner == Some(user) }

  /** The mirror shows the last pulled row of a skill, with the package if nothing newer is there. */
  predicate Agrees(m: map<Id, Entry>, id: Id, s: Skill, rows: seq<Change>) {
    if rows == [] || rows[|rows| - 1].operation == Delete then id !in m
    else
      var last := rows[|rows| - 1];
      && id in m && m[id].revision == last.revision
      && m[id].name == last.shown.details.name && m[id].slug == last.shown.slug
      && (last.revision == s.revision && s.package.Some? ==> m[id].package == s.package)
  }

  /** The mirror agrees with the first `position` rows on every skill of the user. */
  ghost predicate Mirrors(db: Db, m: map<Id, Entry>, position: nat, user: string) {
    && position <= |db.changes|
    && (forall id :: id in m ==> id < db.next)
    && forall id :: id in db.skills && Mine(db.skills[id], user) ==>
         Agrees(m, id, db.skills[id], RowsOf(db.changes[..position], id))
  }

  lemma {:induction false} RowsPrefix(changes: seq<Change>, p: nat, id: Id)
    requires p <= |changes|
    ensures RowsOf(changes[..p], id) <= RowsOf(changes, id)
  {
    if p < |changes| {
      RowsPrefix(changes[..|changes| - 1], p, id);
      assert changes[..|changes| - 1][..p] == changes[..p];
    } else {
      assert changes[..p] == changes;
    }
  }

  lemma RowsNext(changes: seq<Change>, p: nat, id: Id)
    requires p < |changes|
    ensures RowsOf(changes[..p + 1], id)
         == RowsOf(changes[..p], id) + (if changes[p].skill == id then [changes[p]] else [])
  {
    assert changes[..p + 1] == changes[..p] + [changes[p]];
    RowsAppend(changes[..p], changes[p], id);
  }

  lemma ConsumingAgrees(db: Db, m: map<Id, Entry>, p: nat, user: string, access: set<Id>, id: Id)
    requires Faithful(db) && Mirrors(db, m, p, user) && p < |db.changes|
    requires id in db.skills && Mine(db.skills[id], user)
    ensures Agrees(Consumed(m, db.changes[p], db.skills, user, access),
                   id, db.skills[id], RowsOf(db.changes[..p + 1], id))
  {
    var row, rows := db.changes[p], RowsOf(db.changes[..p], id);
    assert Agrees(m, id, db.skills[id], rows);
    RowsNext(db.changes, p, id);
    if row.skill == id {
      assert HistoryOf(db, id);
      RowsPrefix(db.changes, p + 1, id);
      var longer := RowsOf(db.changes[..p + 1], id);
      assert longer == rows + [row] && longer[|rows|] == row;
      assert rows != [] ==> longer[|rows| - 1] == rows[|rows| - 1];
    }
  }

  lemma ConsumingKeepsMirrors(db: Db, m: map<Id, Entry>, p: nat, user: string, access: set<Id>)
    requires Faithful(db) && Mirrors(db, m, p, user) && p < |db.changes|
    ensures Mirrors(db, Consumed(m, db.changes[p], db.skills, user, access), p + 1, user)
  {
    var after := Consumed(m, db.changes[p], db.skills, user, access);
    forall id | id in db.skills && Mine(db.skills[id], user)
      ensures Agrees(after, id, db.skills[id], RowsOf(db.changes[..p + 1], id))
    {
      ConsumingAgrees(db, m, p, user, access, id);
    }
    assert HistoryOf(db, db.changes[p].skill);
  }

  lemma {:induction false} PullKeepsMirrors(db: Db, m: map<Id, Entry>, p: nat, end: nat, user: string, access: set<Id>)
    requires Faithful(db) && Mirrors(db, m, p, user) && p <= end <= |db.changes|
    ensures Mirrors(db, ConsumedAll(m, db.changes[p..end], db.skills, user, access), end, user)
    decreases end
  {
    hide Faithful, Mirrors, Consumed;
    if p == end {
      assert db.changes[p..end] == [];
    } else {
      PullKeepsMirrors(db, m, p, end - 1, user, access);
      assert db.changes[p..end][..end - p - 1] == db.changes[p..end - 1];
      ConsumingKeepsMirrors(db, ConsumedAll(m, db.changes[p..end - 1], db.skills, user, access), end - 1, user, access);
    }
  }

  lemma MutatingKeepsMirrors(db: Db, op: Op, m: map<Id, Entry>, p: nat, user: string)
    requires Faithful(db) && Mirrors(db, m, p, user) && Apply(db, op).Ok?
    ensures Mirrors(Apply(db, op).value, m, p, user)
  {
    var after := Apply(db, op).value;
    ApplyGrows(db, op);
    assert after.changes[..p] == db.changes[..p];
    forall id | id in after.skills && Mine(after.skills[id], user)
      ensures Agrees(m, id, after.skills[id], RowsOf(after.changes[..p], id))
    {
      assert HistoryOf(db, id);
      RowsPrefix(db.changes, p, id);
      if id < db.next {
        assert Newer(db.skills[id], after.skills[id]);
        assert Agrees(m, id, db.skills[id], RowsOf(db.changes[..p], id));
      }
    }
  }

  lemma {:induction false} RunMirrors(user: string, moves: seq<Move>)
    ensures var w := Run(user, moves);
            Faithful(w.db) && Mirrors(w.db, w.device.mirror, w.device.position, user)
    decreases |moves|
  {
    if moves == [] {
      RevisionHistoryIsFaithful([]);
    } else {
      RunMirrors(user, moves[..|moves| - 1]);
      var w := Run(user, moves[..|moves| - 1]);
      match moves[|moves| - 1]
      case Mutate(op) =>
        if Apply(w.db, op).Ok? {
          ApplyIsFaithful(w.db, op);
          MutatingKeepsMirrors(w.db, op, w.device.mirror, w.device.position, user);
        }
      case Pull(limit, access) =>
        PullKeepsMirrors(w.db, w.device.mirror, w.device.position, PageEnd(w, limit), user, access);
    }
  }

  /** The mirror's entry is the head of the skill. */
  predicate ShowsHead(e: Entry, s: Skill) {
    && e.revision == s.revision && e.name == s.details.name && e.slug == s.slug
    && (s.package.Some? ==> e.package == s.package)
  }

  /** What the mirror says of one skill of the user, once it has seen all of the log. */
  predicate KnowsSkill(m: map<Id, Entry>, id: Id, s: Skill, rows: seq<Change>) {
    && rows != []
    && (id in m <==> rows[|rows| - 1].operation != Delete)
    && (id in m ==> ShowsHead(m[id], s))
    && (s.status != Deleted ==> id in m)
  }

  lemma AllPulledKnows(db: Db, m: map<Id, Entry>, user: string, id: Id)
    requires Faithful(db) && Mirrors(db, m, |db.changes|, user) && id in db.skills && Mine(db.skills[id], user)
    ensures KnowsSkill(m, id, db.skills[id], RowsOf(db.changes, id))
  {
    assert HistoryOf(db, id);
    assert db.changes[..|db.changes|] == db.changes;
    assert Agrees(m, id, db.skills[id], RowsOf(db.changes, id));
  }

  /**
    A device that has pulled the whole log knows the user's skills as they are, whatever pages it
    pulled and whatever changed between them: every private skill outside the trash is mirrored
    at its head, and a skill is missing only if its last change was a tombstone.
  */
  lemma CaughtUpMirrorIsTheServer(user: string, moves: seq<Move>, id: Id)
    requires var w := Run(user, moves);
             w.device.position == |w.db.changes| && id in w.db.skills && Mine(w.db.skills[id], user)
    ensures var w := Run(user, moves);
            KnowsSkill(w.device.mirror, id, w.db.skills[id], RowsOf(w.db.changes, id))
  {
    RunMirrors(user, moves);
    AllPulledKnows(Run(user, moves).db, Run(user, moves).device.mirror, user, id);
  }

  /** Every skill that is mirrored and still there may be seen: no private one of somebody else. */
  predicate NoneForeign(db: Db, m: map<Id, Entry>, user: string) {
    && (forall id :: id in m ==> id < db.next)
    && forall id :: id in m && id in db.skills && db.skills[id].kind == Private ==> db.skills[id].owner == Some(user)
  }

  /**
    Whatever happens, and whatever else the user may have access to, the mirror never holds a private
    skill of another user.
  */
  lemma {:induction false} MirrorHoldsNoForeignSkill(user: string, moves: seq<Move>)
    ensures NoneForeign(Run(user, moves).db, Run(user, moves).device.mirror, user)
    decreases |moves|
  {
    if moves != [] {
      hide Faithful, Mirrors, Apply, ConsumedAll;
      var front := moves[..|moves| - 1];
      MirrorHoldsNoForeignSkill(user, front);
      RunMirrors(user, front);
      var w := Run(user, front);
      match moves[|moves| - 1]
      case Mutate(op) =>
        if Apply(w.db, op).Ok? {
          OwnersStay(w.db, op);
        }
      case Pull(limit, access) =>
        if w.device.position <= |w.db.changes| {
          LoggedAreKnown(w.db);
          var rows := w.db.changes[w.device.position..PageEnd(w, limit)];
          ConsumingKeepsForeignOut(w.db, w.device.mirror, rows, user, access);
        }
    }
  }

  lemma LoggedAreKnown(db: Db)
    requires Faithful(db)
    ensures forall i :: 0 <= i < |db.changes| ==> db.changes[i].skill < db.next
  {
    forall i | 0 <= i < |db.changes| ensures db.changes[i].skill < db.next {
      assert HistoryOf(db, db.changes[i].skill);
      LoggedIsKnown(db.changes, i);
    }
  }

  lemma OwnersStay(db: Db, op: Op)
    requires Faithful(db) && Apply(db, op).Ok?
    ensures var after := Apply(db, op).value;
            && db.next <= after.next
            && forall id :: id in after.skills && id < db.next ==>
                 && id in db.skills
                 && after.skills[id].kind == db.skills[id].kind && after.skills[id].owner == db.skills[id].owner
  {
    hide Edited;
    match op
    case Create(n) =>
    case On(id, e) =>
      assert HistoryOf(db, id);
      EditIsOneRevision(id, db.skills[id], e);
    case Purge(id) =>
  }

  lemma {:induction false} LoggedIsKnown(changes: seq<Change>, i: nat)
    requires i < |changes|
    ensures changes[i] in RowsOf(changes, changes[i].skill)
  {
    if i < |changes| - 1 {
      LoggedIsKnown(changes[..|changes| - 1], i);
    }
  }

  lemma {:induction false} ConsumingKeepsForeignOut(db: Db, m: map<Id, Entry>, rows: seq<Change>, user: string,
                                                    access: set<Id>)
    requires NoneForeign(db, m, user) && forall i :: 0 <= i < |rows| ==> rows[i].skill < db.next
    ensures NoneForeign(db, ConsumedAll(m, rows, db.skills, user, access), user)
  {
    if rows != [] {
      ConsumingKeepsForeignOut(db, m, rows[..|rows| - 1], user, access);
    }
  }

  // ---- Purged skills ------------------------------------------------------------------------

  lemma {:induction false} PurgedRowsAreIgnored(m: map<Id, Entry>, rows: seq<Change>, skills: map<Id, Skill>,
                                                user: string, access: set<Id>, id: Id)
    requires id !in skills
    ensures var after := ConsumedAll(m, rows, skills, user, access);
            (id in after <==> id in m) && (id in m ==> after[id] == m[id])
  {
    if rows != [] {
      PurgedRowsAreIgnored(m, rows[..|rows| - 1], skills, user, access, id);
    }
  }

  /** The skill was here and has been purged. */
  predicate Purged(db: Db, id: Id) { id < db.next && id !in db.skills }

  /** Once purged, a skill is neither forgotten nor changed by a device, whatever it pulls. */
  lemma PurgeFreezesTheMirror(user: string, w: World, move: Move, id: Id)
    requires Purged(w.db, id)
    ensures var after := Step(w, user, move);
            && Purged(after.db, id)
            && (id in after.device.mirror <==> id in w.device.mirror)
            && (id in w.device.mirror ==> after.device.mirror[id] == w.device.mirror[id])
  {
    match move
    case Mutate(op) =>
    case Pull(limit, access) =>
      if w.device.position <= |w.db.changes| {
        var rows := w.db.changes[w.device.position..PageEnd(w, limit)];
        PurgedRowsAreIgnored(w.device.mirror, rows, w.db.skills, user, access, id);
      }
  }

  /** The moves go on from where `before` left the world. */
  function Continue(w: World, user: string, moves: seq<Move>): World {
    if moves == [] then w else Step(Continue(w, user, moves[..|moves| - 1]), user, moves[|moves| - 1])
  }

  lemma {:induction false} PurgedStaysFrozen(user: string, w: World, moves: seq<Move>, id: Id)
    requires Purged(w.db, id)
    ensures Purged(Continue(w, user, moves).db, id)
    ensures id in Continue(w, user, moves).device.mirror <==> id in w.device.mirror
    decreases |moves|
  {
    if moves != [] {
      PurgedStaysFrozen(user, w, moves[..|moves| - 1], id);
      PurgeFreezesTheMirror(user, Continue(w, user, moves[..|moves| - 1]), moves[|moves| - 1], id);
    }
  }

  /** Of the rows a device has pulled, the skill's last one is an upsert. */
  predicate LastPulledIsUpsert(w: World, id: Id)
    requires w.device.position <= |w.db.changes|
  {
    var rows := RowsOf(w.db.changes[..w.device.position], id);
    rows != [] && rows[|rows| - 1].operation == Upsert
  }

  /**
    The purge tombstone is meant to clean up mirrors that missed the soft delete, but the feed
    ships no row of a skill that is gone. So after the purge of a skill of the user a device keeps
    it forever exactly if the last row of the skill that it had pulled by then was an upsert,
    whatever it pulls later.
  */
  lemma PurgedSkillStaysIff(user: string, before: seq<Move>, id: Id, moves: seq<Move>)
    requires var w := Run(user, before);
             id in w.db.skills && Mine(w.db.skills[id], user) && Apply(w.db, Purge(id)).Ok?
    ensures var w := Run(user, before);
            var end := Continue(Step(w, user, Mutate(Purge(id))), user, moves);
            && w.device.position <= |w.db.changes| && Purged(end.db, id)
            && (id in end.device.mirror <==> LastPulledIsUpsert(w, id))
  {
    hide Edited, Agrees, Faithful;
    var w := Run(user, before);
    RunMirrors(user, before);
    PulledDecides(w.db, w.device.mirror, w.device.position, user, id);
    PurgedStaysFrozen(user, Step(w, user, Mutate(Purge(id))), moves, id);
  }

  lemma PulledDecides(db: Db, m: map<Id, Entry>, position: nat, user: string, id: Id)
    requires Faithful(db) && Mirrors(db, m, position, user) && id in db.skills && Mine(db.skills[id], user)
    ensures id < db.next
    ensures var rows := RowsOf(db.changes[..position], id);
            id in m <==> rows != [] && rows[|rows| - 1].operation == Upsert
  {
    assert HistoryOf(db, id);
    assert Agrees(m, id, db.skills[id], RowsOf(db.changes[..position], id));
  }

  /**
    Pulled while live, then trashed and purged before the next pull: the device still has the
    skill after pulling both tombstones.
  */
  lemma PurgeMissesAMirror(user: string, w: World, id: Id)
    requires Faithful(w.db) && w.device.position == |w.db.changes|
    requires id in w.db.skills && Mine(w.db.skills[id], user) && id in w.device.mirror
    requires w.db.skills[id].status != Deleted
    ensures var trashed := Step(w, user, Mutate(On(id, SoftDelete)));
            var purged := Step(trashed, user, Mutate(Purge(id)));
            var pulled := Step(purged, user, Pull(2, {}));
            && Purged(purged.db, id) && pulled.device.position == |pulled.db.changes|
            && |RowsOf(pulled.db.changes, id)| == |RowsOf(w.db.changes, id)| + 2
            && id in pulled.device.mirror
  {
    var trashed := Step(w, user, Mutate(On(id, SoftDelete)));
    var purged := Step(trashed, user, Mutate(Purge(id)));
    assert HistoryOf(w.db, id);
    RowsAppend(w.db.changes, Event(id, trashed.db.skills[id], Delete), id);
    RowsAppend(trashed.db.changes, Event(id, trashed.db.skills[id], Delete), id);
    PurgeFreezesTheMirror(user, purged, Pull(2, {}), id);
  }
}
