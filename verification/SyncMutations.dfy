/**
  Sync push: mutations keyed by user, device and mutation id, applied once, under optimistic
  revisions, between web edits of the same skills.
*/
module SyncMutations {
  import opened Prelude
  import opened SkillHistory
  import opened VersionNames

  datatype Key = Key(user: string, device: string, mutation: string)

  datatype Request =
    | CreateRequest(slug: string, details: Details, package: string)
    | UpdateRequest(skill: Id, base: nat, details: Details, package: string)
    | DeleteRequest(skill: Id, base: nat)

  /** What a request meets: whether its package is complete here, and what its new version shows. */
  datatype World = World(complete: bool, content: string)

  datatype Rejection = PermissionDenied | SlugTaken | SkillDeleted

  datatype Outcome =
    | Acked(skill: Id, revision: nat, package: Option<string>)
    | Conflict(skill: Id, revision: nat, package: Option<string>, slug: string, details: Details)
    | Rejected(reason: Rejection)

  datatype Payload = Payload(mutation: string, outcome: Outcome)

  datatype Receipt = Receipt(resource: Option<Id>, payload: Payload)

  datatype Server = Server(db: Db, receipts: map<Key, Receipt>)

  /** A transport failure rolls the transaction back and leaves no receipt. */
  datatype Failure = BlobMissing | Rolledback(error: Error)

  datatype Reply = Replied(server: Server, payload: Payload) | Failed(failure: Failure)

  // ---- One mutation -------------------------------------------------------------------------

  /** The caller's private skill, trashed or not. */
  predicate Loads(db: Db, id: Id, user: string) {
    id in db.skills && db.skills[id].owner == Some(user) && db.skills[id].kind == Private
  }

  /** A live private skill of the user has the slug. */
  predicate SlugLive(skills: map<Id, Skill>, user: string, slug: string) {
    exists id :: id in skills && IsLiveNamesake(skills[id], user, slug)
  }

  predicate IsLiveNamesake(s: Skill, user: string, slug: string) {
    s.owner == Some(user) && s.slug == slug && s.kind == Private && s.status != Deleted
  }

  function Recorded(server: Server, db: Db, key: Key, resource: Option<Id>, outcome: Outcome): Reply {
    var payload := Payload(key.mutation, outcome);
    Replied(Server(db, server.receipts[key := Receipt(resource, payload)]), payload)
  }

  function NewSkillOf(user: string, r: Request, world: World): NewSkill
    requires r.CreateRequest?
  {
    NewSkill(Some(user), Private, None, r.slug, r.details, Draft,
             NewVersion("0.1.0", world.content, Some(r.package), Draft))
  }

  function EditOf(r: Request, world: World): Edit
    requires r.UpdateRequest?
  {
    var d := r.details;
    Update(Updates(Some(d.name), Some(d.description), Some(d.category), Some(d.tags), None),
           Some(NewVersion("", world.content, Some(r.package), Draft)), false)
  }

  function ConflictHead(id: Id, s: Skill): Outcome {
    Conflict(id, s.revision, s.package, s.slug, s.details)
  }

  function AckOf(id: Id, s: Skill): Outcome { Acked(id, s.revision, s.package) }

  function ServeCreate(server: Server, key: Key, r: Request, world: World): Reply
    requires r.CreateRequest?
  {
    if SlugLive(server.db.skills, key.user, r.slug) then
      Recorded(server, server.db, key, None, Rejected(SlugTaken))
    else if !world.complete then Failed(BlobMissing)
    else
      var after := Apply(server.db, Create(NewSkillOf(key.user, r, world)));
      if after.Err? then Failed(Rolledback(after.error))
      else
        var id := server.db.next;
        Recorded(server, after.value, key, Some(id), AckOf(id, Created(NewSkillOf(key.user, r, world))))
  }

  function ServeUpdate(server: Server, key: Key, r: Request, world: World): Reply
    requires r.UpdateRequest?
  {
    if !Loads(server.db, r.skill, key.user) then
      Recorded(server, server.db, key, Some(r.skill), Rejected(PermissionDenied))
    else
      var s := server.db.skills[r.skill];
      if s.status == Deleted then Recorded(server, server.db, key, Some(r.skill), Rejected(SkillDeleted))
      else if s.revision != r.base then Recorded(server, server.db, key, Some(r.skill), ConflictHead(r.skill, s))
      else if !world.complete then Failed(BlobMissing)
      else
        var after := Apply(server.db, On(r.skill, EditOf(r, world)));
        if after.Err? then Failed(Rolledback(after.error))
        else Recorded(server, after.value, key, Some(r.skill), AckOf(r.skill, after.value.skills[r.skill]))
  }

  function ServeDelete(server: Server, key: Key, r: Request): Reply
    requires r.DeleteRequest?
  {
    if !Loads(server.db, r.skill, key.user) then
      Recorded(server, server.db, key, Some(r.skill), Rejected(PermissionDenied))
    else
      var s := server.db.skills[r.skill];
      if s.revision != r.base then Recorded(server, server.db, key, Some(r.skill), ConflictHead(r.skill, s))
      else
        var after := Apply(server.db, On(r.skill, SoftDelete)).value;
        Recorded(server, after, key, Some(r.skill), Acked(r.skill, after.skills[r.skill].revision, None))
  }

  function Serve(server: Server, key: Key, r: Request, world: World): Reply {
    if key in server.receipts then Replied(server, server.receipts[key].payload)
    else
      match r
      case CreateRequest(_, _, _) => ServeCreate(server, key, r, world)
      case UpdateRequest(_, _, _, _) => ServeUpdate(server, key, r, world)
      case DeleteRequest(_, _) => ServeDelete(server, key, r)
  }

  // ---- What a served push does --------------------------------------------------------------

  /** The reply files its own payload under its key, and no other receipt. */
  predicate FilesReceipt(server: Server, key: Key, reply: Reply)
    requires reply.Replied?
  {
    && reply.payload.mutation == key.mutation && reply.server.receipts.Keys == server.receipts.Keys + {key}
    && reply.server.receipts[key].payload == reply.payload
    && forall k :: k in server.receipts && k != key ==> reply.server.receipts[k] == server.receipts[k]
  }

  /**
    An update is refused exactly if the skill is not a private one of the caller or is in the trash,
    and is a conflict, which shows the head, exactly if its base is not the skill's revision. An
    acknowledged one leaves the skill with the pushed details, content and package one revision on,
    and says so.
  */
  lemma UpdatePushMeans(server: Server, key: Key, r: Request, world: World)
    requires r.UpdateRequest? && key !in server.receipts && Serve(server, key, r, world).Replied?
    ensures var reply := Serve(server, key, r, world);
            var outcome, id := reply.payload.outcome, r.skill;
            var mine := id in server.db.skills && server.db.skills[id].kind == Private
                        && server.db.skills[id].owner == Some(key.user);
            && FilesReceipt(server, key, reply)
            && (outcome == Rejected(PermissionDenied) <==> !mine)
            && (outcome == Rejected(SkillDeleted) <==> mine && server.db.skills[id].status == Deleted)
            && (outcome.Conflict? <==>
                  mine && server.db.skills[id].status != Deleted && server.db.skills[id].revision != r.base)
            && (!outcome.Acked? ==> reply.server.db == server.db)
            && (outcome.Rejected? ==> outcome.reason != SlugTaken)
            && (outcome.Conflict? ==>
                  var s := server.db.skills[id];
                  outcome == Conflict(id, s.revision, s.package, s.slug, s.details))
            && (outcome.Acked? ==>
                  && world.complete && outcome == Acked(id, r.base + 1, Some(r.package)) && id in reply.server.db.skills
                  && var s, t := server.db.skills[id], reply.server.db.skills[id];
                     && t.details == r.details && t.revision == r.base + 1 && t.package == Some(r.package)
                     && t.status == s.status && |t.versions| == |s.versions| + 1 && t.current == |s.versions|
                     && t.versions[..|s.versions|] == s.versions && t.versions[t.current].content == world.content
                     && t.versions[t.current].package == Some(r.package))
  {
    hide NextVersionName;
  }

  /**
    A deletion is refused exactly if the skill is not a private one of the caller, and is a conflict
    exactly if its base is not the skill's revision. An acknowledged one leaves the skill in the
    trash, and says at which revision.
  */
  lemma DeletePushMeans(server: Server, key: Key, r: Request, world: World)
    requires r.DeleteRequest? && key !in server.receipts
    ensures var reply := Serve(server, key, r, world);
            && reply.Replied? && FilesReceipt(server, key, reply)
            && var outcome, id := reply.payload.outcome, r.skill;
               var mine := id in server.db.skills && server.db.skills[id].kind == Private
                           && server.db.skills[id].owner == Some(key.user);
               && (outcome == Rejected(PermissionDenied) <==> !mine)
               && (outcome.Rejected? ==> outcome.reason == PermissionDenied)
               && (outcome.Conflict? <==> mine && server.db.skills[id].revision != r.base)
               && (!outcome.Acked? ==> reply.server.db == server.db)
               && (outcome.Conflict? ==>
                     var s := server.db.skills[id];
                     outcome == Conflict(id, s.revision, s.package, s.slug, s.details))
               && (outcome.Acked? ==>
                     && id in reply.server.db.skills
                     && var s, t := server.db.skills[id], reply.server.db.skills[id];
                        && t.status == Deleted && t.trashed && t.versions == s.versions && t.details == s.details
                        && t.revision == (if s.status == Deleted && s.trashed then r.base else r.base + 1)
                        && outcome == Acked(id, t.revision, None))
  {}

  /**
    A creation is refused exactly if the caller has a private skill outside the trash with the slug.
    An acknowledged one leaves a new private skill of the caller at revision 1 with what was pushed,
    and names it.
  */
  lemma CreatePushMeans(server: Server, key: Key, r: Request, world: World)
    requires r.CreateRequest? && key !in server.receipts && Serve(server, key, r, world).Replied?
    ensures var reply := Serve(server, key, r, world);
            var outcome := reply.payload.outcome;
            && FilesReceipt(server, key, reply)
            && (outcome == Rejected(SlugTaken) <==>
                  exists id :: && id in server.db.skills && server.db.skills[id].owner == Some(key.user)
                               && server.db.skills[id].kind == Private && server.db.skills[id].slug == r.slug
                               && server.db.skills[id].status != Deleted)
            && (!outcome.Acked? ==> outcome == Rejected(SlugTaken) && reply.server.db == server.db)
            && (outcome.Acked? ==>
                  && world.complete && outcome == Acked(server.db.next, 1, Some(r.package))
                  && server.db.next in reply.server.db.skills
                  && var t := reply.server.db.skills[server.db.next];
                     && t.owner == Some(key.user) && t.kind == Private && t.slug == r.slug && t.details == r.details
                     && t.status == Draft && !t.trashed && t.revision == 1 && t.package == Some(r.package)
                     && |t.versions| == 1 && t.current == 0 && t.versions[0].content == world.content
                     && t.versions[0].package == Some(r.package) && t.versions[0].name == "0.1.0")
  {
    hide SlugFree;
  }

  // ---- Runs ---------------------------------------------------------------------------------

  /** A device pushes a mutation, or a skill is edited, created or purged over the web. */
  datatype Event =
    | Push(key: Key, request: Request, world: World)
    | Web(op: Op)

  function Step(server: Server, e: Event): Server {
    match e
    case Push(key, request, world) =>
      var reply := Serve(server, key, request, world);
      if reply.Failed? then server else reply.server
    case Web(op) =>
      var after := Apply(server.db, op);
      if after.Err? then server else server.(db := after.value)
  }

  function After(server: Server, events: seq<Event>): Server {
    if events == [] then server else Step(After(server, events[..|events| - 1]), events[|events| - 1])
  }

  const EMPTY: Server := Server(Db(map[], 0, []), map[])

  /** The state in which event `i` of a run from nothing finds the server. */
  function At(events: seq<Event>, i: nat): Server
    requires i <= |events|
  {
    After(EMPTY, events[..i])
  }

  lemma AtNext(events: seq<Event>, i: nat)
    requires i < |events|
    ensures At(events, i + 1) == Step(At(events, i), events[i])
  {
    assert events[..i + 1][..i] == events[..i];
  }

  /** A push changes the tables by at most one transaction of the mutation service. */
  lemma StepIsOneTransaction(server: Server, e: Event) returns (op: Option<Op>)
    ensures op == None ==> Step(server, e).db == server.db
    ensures op.Some? ==> Apply(server.db, op.value).Ok? && Step(server, e).db == Apply(server.db, op.value).value
  {
    if Step(server, e).db == server.db { return None; }
    match e
    case Web(o) => return Some(o);
    case Push(key, r, world) =>
      match r
      case CreateRequest(_, _, _) => return Some(Create(NewSkillOf(key.user, r, world)));
      case UpdateRequest(_, _, _, _) => return Some(On(r.skill, EditOf(r, world)));
      case DeleteRequest(_, _) => return Some(On(r.skill, SoftDelete));
  }

  /** Receipts stay as they were written. */
  ghost predicate KeepsReceipts(a: Server, b: Server) {
    forall key :: key in a.receipts ==> key in b.receipts && b.receipts[key] == a.receipts[key]
  }

  lemma StepKeeps(server: Server, e: Event)
    requires Faithful(server.db)
    ensures Faithful(Step(server, e).db) && Grows(server.db, Step(server, e).db)
  {
    var op := StepIsOneTransaction(server, e);
    if op.Some? {
      ApplyIsFaithful(server.db, op.value);
      ApplyGrows(server.db, op.value);
    } else {
      NothingGrows(server.db);
    }
  }

  lemma NothingGrows(db: Db)
    requires Faithful(db)
    ensures Grows(db, db)
  {
    forall id | id in db.skills ensures id < db.next { assert HistoryOf(db, id); }
  }

  lemma StepKeepsReceipts(server: Server, e: Event)
    ensures KeepsReceipts(server, Step(server, e))
  {}

  lemma {:induction false} RunIsFaithful(events: seq<Event>, i: nat)
    requires i <= |events|
    ensures Faithful(At(events, i).db)
  {
    if i == 0 {
      RevisionHistoryIsFaithful([]);
    } else {
      RunIsFaithful(events, i - 1);
      AtNext(events, i - 1);
      StepKeeps(At(events, i - 1), events[i - 1]);
    }
  }

  /** Between any pushes and web edits nothing goes back. */
  lemma {:induction false} RunGrows(events: seq<Event>, i: nat, j: nat)
    requires i <= j <= |events|
    ensures Grows(At(events, i).db, At(events, j).db)
    decreases j
  {
    hide Step, After, Faithful, Grows;
    RunIsFaithful(events, i);
    if i == j {
      NothingGrows(At(events, i).db);
    } else {
      RunGrows(events, i, j - 1);
      RunIsFaithful(events, j - 1);
      AtNext(events, j - 1);
      StepKeeps(At(events, j - 1), events[j - 1]);
      GrowsFurther(At(events, i).db, At(events, j - 1).db, At(events, j).db);
    }
  }

  lemma {:induction false} RunKeepsReceipts(events: seq<Event>, i: nat, j: nat)
    requires i <= j <= |events|
    ensures KeepsReceipts(At(events, i), At(events, j))
    decreases j
  {
    hide Step, After;
    if i < j {
      RunKeepsReceipts(events, i, j - 1);
      AtNext(events, j - 1);
      StepKeepsReceipts(At(events, j - 1), events[j - 1]);
    }
  }

  // ---- Exactly once -------------------------------------------------------------------------

  /** The events with the pushes left out whose receipt was already there. */
  predicate WithRepeats(server: Server, short: seq<Event>, long: seq<Event>)
    decreases |long|
  {
    if long == [] then short == []
    else
      var front, last := long[..|long| - 1], long[|long| - 1];
      || (last.Push? && last.key in After(server, front).receipts && WithRepeats(server, short, front))
      || (short != [] && short[|short| - 1] == last && WithRepeats(server, short[..|short| - 1], front))
  }

  /**
    Mutations are exactly-once: repeating receipted requests at any later positions, with any
    body, changes nothing in the skills, the versions, the change log or the receipts.
  */
  lemma {:induction false} RepeatsChangeNothing(server: Server, short: seq<Event>, long: seq<Event>)
    requires WithRepeats(server, short, long)
    ensures After(server, long) == After(server, short)
    decreases |long|
  {
    if long != [] {
      var front, last := long[..|long| - 1], long[|long| - 1];
      if last.Push? && last.key in After(server, front).receipts && WithRepeats(server, short, front) {
        RepeatsChangeNothing(server, short, front);
      } else {
        RepeatsChangeNothing(server, short[..|short| - 1], front);
      }
    }
  }

  /** Event `j` is the push that was really served for `key`, and `payload` its response. */
  predicate FirstServed(events: seq<Event>, j: nat, key: Key, payload: Payload)
    requires j < |events|
  {
    && events[j].Push? && events[j].key == key && key !in At(events, j).receipts
    && var reply := Serve(At(events, j), key, events[j].request, events[j].world);
       reply.Replied? && reply.payload == payload
  }

  /** A receipt that was not there before is that of a push served now. */
  lemma NewReceipt(server: Server, e: Event, key: Key)
    requires key !in server.receipts && key in Step(server, e).receipts
    ensures e.Push? && e.key == key
    ensures var reply := Serve(server, key, e.request, e.world);
            reply.Replied? && reply.payload == Step(server, e).receipts[key].payload
  {
    hide Apply;
  }

  lemma ReceiptIsReplayed(server: Server, key: Key, r: Request, world: World)
    requires key in server.receipts
    ensures Serve(server, key, r, world) == Replied(server, server.receipts[key].payload)
  {
    hide Apply;
  }

  /** Every repeat is answered with the response of the one push that was served. */
  lemma {:induction false} RepeatsGetTheFirstResponse(events: seq<Event>, i: nat, key: Key, r: Request, world: World)
    returns (j: nat)
    requires i <= |events| && key in At(events, i).receipts
    ensures j < i && FirstServed(events, j, key, At(events, i).receipts[key].payload)
    ensures Serve(At(events, i), key, r, world) == Replied(At(events, i), At(events, i).receipts[key].payload)
    decreases i
  {
    hide Serve, Step;
    ReceiptIsReplayed(At(events, i), key, r, world);
    AtNext(events, i - 1);
    if key in At(events, i - 1).receipts {
      hide After;
      RunKeepsReceipts(events, i - 1, i);
      j := RepeatsGetTheFirstResponse(events, i - 1, key, r, world);
    } else {
      NewReceipt(At(events, i - 1), events[i - 1], key);
      j := i - 1;
    }
  }

  /** A mutation takes effect at most once, however often and with whatever body it is pushed. */
  lemma EffectsHappenOnce(events: seq<Event>, i: nat, j: nat)
    requires i < j < |events| && events[i].Push? && events[j].Push? && events[i].key == events[j].key
    requires Step(At(events, i), events[i]) != At(events, i)
    ensures Step(At(events, j), events[j]) == At(events, j)
  {
    AtNext(events, i);
    RunKeepsReceipts(events, i + 1, j);
    assert events[i].key in At(events, i + 1).receipts;
  }

  // ---- No lost updates ----------------------------------------------------------------------

  /** Event `i` is an update that was served now, not replayed, and acknowledged. */
  predicate AckedUpdate(events: seq<Event>, i: nat)
    requires i < |events|
  {
    && events[i].Push? && events[i].request.UpdateRequest? && events[i].key !in At(events, i).receipts
    && var reply := Serve(At(events, i), events[i].key, events[i].request, events[i].world);
       reply.Replied? && reply.payload.outcome.Acked?
  }

  lemma AckedUpdateStep(events: seq<Event>, i: nat)
    requires i < |events| && AckedUpdate(events, i)
    ensures var r, before, after := events[i].request, At(events, i).db.skills, At(events, i + 1).db.skills;
            && r.skill in before && before[r.skill].revision == r.base
            && r.skill in after && after[r.skill].revision == r.base + 1
            && after[r.skill].package == Some(r.package) && after[r.skill].details == r.details
  {
    AtNext(events, i);
  }

  /** Seen at two moments, a skill has only moved forward, or not moved at all. */
  lemma SkillMovesForward(events: seq<Event>, k: nat, i: nat, id: Id)
    requires k <= i <= |events| && id in At(events, k).db.skills && id in At(events, i).db.skills
    ensures Newer(At(events, k).db.skills[id], At(events, i).db.skills[id])
  {
    RunIsFaithful(events, k);
    RunGrows(events, k, i);
    assert HistoryOf(At(events, k).db, id);
  }

  /**
    An acknowledged update replaced exactly the head it was based on: the skill was at its base
    revision just before and is one further just after, with the pushed package; and whenever
    before the skill was seen at that base, it was the very same row.
  */
  lemma NoLostUpdate(events: seq<Event>, i: nat, k: nat)
    requires k <= i < |events| && AckedUpdate(events, i)
    ensures var r, before, after := events[i].request, At(events, i).db.skills, At(events, i + 1).db.skills;
            && r.skill in before && before[r.skill].revision == r.base
            && r.skill in after && after[r.skill].revision == r.base + 1
            && after[r.skill].package == Some(r.package) && after[r.skill].details == r.details
            && (r.skill in At(events, k).db.skills && At(events, k).db.skills[r.skill].revision == r.base ==>
                  At(events, k).db.skills[r.skill] == before[r.skill])
  {
    AckedUpdateStep(events, i);
    var id := events[i].request.skill;
    if id in At(events, k).db.skills {
      SkillMovesForward(events, k, i, id);
    }
  }

  /** Two acknowledged updates of one skill never share a base: the later one saw the earlier one. */
  lemma BasesAreDistinct(events: seq<Event>, i: nat, j: nat)
    requires i < j < |events| && AckedUpdate(events, i) && AckedUpdate(events, j)
    requires events[i].request.skill == events[j].request.skill
    ensures events[i].request.base < events[j].request.base
  {
    AckedUpdateStep(events, i);
    AckedUpdateStep(events, j);
    SkillMovesForward(events, i + 1, j, events[i].request.skill);
  }

  /**
    Every head a skill ever had is at most the base of the next acknowledged writer, and every
    version written before, by any device or over the web, is still there after it.
  */
  lemma EveryHeadIsSeen(events: seq<Event>, k: nat, i: nat, id: Id)
    requires k <= i < |events| && AckedUpdate(events, i) && id == events[i].request.skill
    requires id in At(events, k).db.skills
    ensures At(events, k).db.skills[id].revision <= events[i].request.base
    ensures id in At(events, i + 1).db.skills
    ensures KeepsVersions(At(events, k).db.skills[id], At(events, i + 1).db.skills[id])
  {
    AckedUpdateStep(events, i);
    SkillMovesForward(events, k, i, id);
    SkillMovesForward(events, k, i + 1, id);
  }

  // ---- When a create goes through -----------------------------------------------------------

  /**
    A create fails without a receipt, to fail again when it is retried, exactly when no live
    private skill of the user has its slug and its package is incomplete or another row of the
    user, such as a trashed skill, still holds the slug: the look-up counts live private skills,
    the unique constraint all rows.
  */
  lemma CreateFailsIff(server: Server, key: Key, r: Request, world: World)
    requires r.CreateRequest? && key !in server.receipts
    ensures Serve(server, key, r, world).Failed?
       <==> && !SlugLive(server.db.skills, key.user, r.slug)
            && (|| !world.complete
                || exists id :: id in server.db.skills && server.db.skills[id].owner == Some(key.user)
                     && server.db.skills[id].slug == r.slug)
  {}

  /** The same event, again and again. */
  function Times(e: Event, n: nat): seq<Event> {
    if n == 0 then [] else Times(e, n - 1) + [e]
  }

  /** A push that fails leaves the server as it was, so it fails again however often it is retried. */
  lemma {:induction false} RetriesFail(server: Server, push: Event, n: nat)
    requires push.Push? && Serve(server, push.key, push.request, push.world).Failed?
    ensures After(server, Times(push, n)) == server
  {
    hide Serve;
    if n > 0 {
      RetriesFail(server, push, n - 1);
      assert Times(push, n)[..|Times(push, n)| - 1] == Times(push, n - 1);
    }
  }

  /**
    Such a failure in a run from nothing: a device creates a skill and deletes it, and pushes a
    complete new skill under the same slug. The push fails, and so does every retry.
  */
  lemma SlugOfADeletedSkill(created: Key, deleted: Key, again: Key, r: Request, r': Request, world: World)
    requires r.CreateRequest? && r'.CreateRequest? && r.slug == r'.slug && world.complete
    requires created.user == deleted.user == again.user
    requires created != deleted && created != again && deleted != again
    ensures var events := [Push(created, r, world), Push(deleted, DeleteRequest(0, 1), world)];
            forall n: nat ::
              Serve(After(After(EMPTY, events), Times(Push(again, r', world), n)), again, r', world)
              == Failed(Rolledback(SlugNotUnique))
  {
    var events := [Push(created, r, world), Push(deleted, DeleteRequest(0, 1), world)];
    assert events[..1] == [events[0]] && [events[0]][..0] == [];
    var one, two := After(EMPTY, [events[0]]), After(EMPTY, events);
    assert one == Step(After(EMPTY, []), events[0]);
    assert one.db.skills == map[0 := Created(NewSkillOf(created.user, r, world))];
    assert two == Step(one, events[1]);
    var s := two.db.skills[0];
    assert s.status == Deleted && s.slug == r'.slug && s.owner == Some(again.user);
    var push := Push(again, r', world);
    assert again !in two.receipts;
    assert !SlugLive(two.db.skills, again.user, r'.slug);
    assert Serve(two, again, r', world) == Failed(Rolledback(SlugNotUnique));
    forall n: nat ensures After(two, Times(push, n)) == two {
      RetriesFail(two, push, n);
    }
  }

  // ---- When an update goes through ----------------------------------------------------------

  /**
    An update fails without a receipt, to fail again when it is retried, exactly when it would go
    through but its package is incomplete or the name its version would get is taken.
  */
  lemma UpdateFailsIff(server: Server, key: Key, r: Request, world: World)
    requires r.UpdateRequest? && key !in server.receipts
    ensures Serve(server, key, r, world).Failed?
       <==> && Loads(server.db, r.skill, key.user)
            && var s := server.db.skills[r.skill];
               && s.status != Deleted && s.revision == r.base
               && (!world.complete || NameTaken(s, NextVersionName(s)))
  {
    hide NextVersionName;
  }

  /** A skill whose versions are a series with the latest one current. */
  predicate Latest(s: Skill) { InSeries(s) && s.current == |s.versions| - 1 }

  predicate LatestIf(db: Db, id: Id) { id in db.skills ==> Latest(db.skills[id]) }

  /**
    A push, or a web operation that leaves the series of skill `id` alone: it creates it with a
    semantic version, works on another skill, or neither names a version of it nor publishes one but
    the latest.
  */
  predicate Undisturbing(server: Server, e: Event, id: Id) {
    e.Web? ==>
      match e.op
      case Create(n) => server.db.next == id ==> NumbersOf(n.version.name).Some?
      case On(other, edit) => other == id && id in server.db.skills ==> KeepsSeries(server.db.skills[id], edit)
      case Purge(_) => true
  }

  lemma StepKeepsLatest(server: Server, e: Event, id: Id)
    requires LatestIf(server.db, id) && Undisturbing(server, e, id)
    ensures LatestIf(Step(server, e).db, id)
  {
    hide Name, NextVersionName, Latest, NumbersOf;
    match e
    case Web(op) => OpKeepsLatest(server.db, op, id);
    case Push(key, r, world) =>
      match r
      case CreateRequest(_, _, _) =>
        FirstHasNumbers();
        OpKeepsLatest(server.db, Create(NewSkillOf(key.user, r, world)), id);
      case UpdateRequest(_, _, _, _) => OpKeepsLatest(server.db, On(r.skill, EditOf(r, world)), id);
      case DeleteRequest(_, _) => OpKeepsLatest(server.db, On(r.skill, SoftDelete), id);
  }

  lemma FirstHasNumbers()
    ensures NumbersOf(FIRST_VERSION) == Some((0, 1, 0))
  {
    FirstVersion();
    NumbersOfName(0, 1, 0, "");
  }

  lemma OpKeepsLatest(db: Db, op: Op, id: Id)
    requires LatestIf(db, id)
    requires op.Create? && db.next == id ==> NumbersOf(op.skill.version.name).Some?
    requires op.On? && op.id == id && id in db.skills ==> KeepsSeries(db.skills[id], op.edit)
    ensures Apply(db, op).Ok? ==> LatestIf(Apply(db, op).value, id)
  {
    hide Edited, NumbersOf;
    if op.On? && op.id == id && Apply(db, op).Ok? {
      hide InSeries, KeepsSeries;
      SeriesGoesOn(id, db.skills[id], op.edit);
    }
  }

  /** So far in the run nothing has disturbed the series of skill `id`. */
  predicate Undisturbed(events: seq<Event>, n: nat, id: Id)
    requires n <= |events|
  {
    forall k :: 0 <= k < n ==> Undisturbing(At(events, k), events[k], id)
  }

  lemma {:induction false} SeriesAlongRuns(events: seq<Event>, n: nat, id: Id)
    requires n <= |events| && Undisturbed(events, n, id)
    ensures LatestIf(At(events, n).db, id)
  {
    if n > 0 {
      hide Step, After, Latest;
      SeriesAlongRuns(events, n - 1, id);
      AtNext(events, n - 1);
      assert Undisturbing(At(events, n - 1), events[n - 1], id);
      StepKeepsLatest(At(events, n - 1), events[n - 1], id);
    }
  }

  /**
    As long as nobody names a later version of the skill or publishes an older one, an update of it
    fails for nothing but an incomplete package, whatever is done with other skills.
  */
  lemma UpdatesAreAnswered(events: seq<Event>, n: nat, key: Key, r: Request, world: World)
    requires n <= |events| && r.UpdateRequest? && Undisturbed(events, n, r.skill) && world.complete
    ensures Serve(At(events, n), key, r, world).Replied?
  {
    hide Step, After, NextVersionName, NumbersOf, NthName;
    SeriesAlongRuns(events, n, r.skill);
    var server := At(events, n);
    if key !in server.receipts {
      UpdateFailsIff(server, key, r, world);
      if r.skill in server.db.skills { NextNameTakenIff(server.db.skills[r.skill]); }
    }
  }

  // ---- A run in which they fail -------------------------------------------------------------

  /** Skill 0 is a live private skill of the user, with versions of these names, the last one current. */
  predicate Stands(server: Server, user: string, names: seq<string>, revision: nat) {
    && Loads(server.db, 0, user) && names != []
    && var s := server.db.skills[0];
       && s.status != Deleted && s.revision == revision && s.current == |names| - 1
       && |s.versions| == |names| && forall i :: 0 <= i < |names| ==> s.versions[i].name == names[i]
  }

  lemma AfterCreate(push: Event)
    requires push.Push? && push.request.CreateRequest? && push.world.complete
    ensures Stands(Step(EMPTY, push), push.key.user, [FIRST_VERSION], 1)
    ensures Step(EMPTY, push).receipts.Keys == {push.key}
  {}

  /** Adding a version over the web, under the name it comes with. */
  function Adding(v: NewVersion): Event {
    Web(On(0, CreateVersion(v, false, false)))
  }

  /** The web offers the addition to a skill that stands there. */
  predicate MayAdd(server: Server, v: NewVersion) {
    0 in server.db.skills && server.db.skills[0].kind == Private && Offered(server.db.skills[0], Adding(v).op.edit)
  }

  /** A version named by hand becomes current, whatever its name is next to the others. */
  lemma AfterVersion(server: Server, user: string, names: seq<string>, revision: nat, v: NewVersion)
    requires Stands(server, user, names, revision) && v.name !in names
    ensures MayAdd(server, v)
    ensures Stands(Step(server, Adding(v)), user, names + [v.name], revision + 1)
    ensures Step(server, Adding(v)).receipts == server.receipts
  {
    var s := server.db.skills[0];
    assert !NameTaken(s, v.name);
  }

  /** An update at the head fails if the patch after the current version is there already. */
  lemma BlockedUpdate(server: Server, names: seq<string>, key: Key, r: Request, world: World)
    requires r.UpdateRequest? && r.skill == 0 && world.complete && key !in server.receipts
    requires Stands(server, key.user, names, r.base) && NextPatch(names[|names| - 1]) in names
    ensures Serve(server, key, r, world) == Failed(Rolledback(VersionExists))
  {
    hide NextPatch;
    var s := server.db.skills[0];
    var i :| 0 <= i < |names| && names[i] == NextPatch(names[|names| - 1]);
    assert s.versions[i].name == NextVersionName(s);
  }

  /** And so does every roll-back. */
  lemma BlockedRollback(server: Server, user: string, names: seq<string>, revision: nat, index: nat)
    requires Stands(server, user, names, revision) && NextPatch(names[|names| - 1]) in names && index < |names|
    ensures Apply(server.db, On(0, Rollback(VersionId(0, index)))) == Err(VersionExists)
  {
    hide NextPatch;
    var s := server.db.skills[0];
    var i :| 0 <= i < |names| && names[i] == NextPatch(names[|names| - 1]);
    assert s.versions[i].name == NextVersionName(s);
  }

  lemma FirstNames()
    ensures FIRST_VERSION == Name(0, 1, 0) && NextPatch(Name(0, 1, 1)) == Name(0, 1, 2)
    ensures Name(0, 1, 2) !in [Name(0, 1, 0)] && Name(0, 1, 1) !in [Name(0, 1, 0), Name(0, 1, 2)]
  {
    hide Name, NextPatch;
    FirstVersion();
    NextPatchOfName(0, 1, 1, "");
    if Name(0, 1, 2) == Name(0, 1, 0) { NamesAreDistinct(0, 1, 2, 0); }
    if Name(0, 1, 1) == Name(0, 1, 0) { NamesAreDistinct(0, 1, 1, 0); }
    if Name(0, 1, 1) == Name(0, 1, 2) { NamesAreDistinct(0, 1, 1, 2); }
  }

  /** Created by a push, and given a version 0.1.2 and then a version 0.1.1 by hand. */
  lemma NamedByHand(first: Event, v2: NewVersion, v1: NewVersion)
    requires first.Push? && first.request.CreateRequest? && first.world.complete
    requires v2.name == Name(0, 1, 2) && v1.name == Name(0, 1, 1)
    ensures MayAdd(After(EMPTY, [first]), v2) && MayAdd(After(EMPTY, [first, Adding(v2)]), v1)
    ensures var server := After(EMPTY, [first, Adding(v2), Adding(v1)]);
            && Stands(server, first.key.user, [Name(0, 1, 0), Name(0, 1, 2), Name(0, 1, 1)], 3)
            && server.receipts.Keys == {first.key}
  {
    hide Step, Stands, Serve, NextPatch, Name, After, Offered;
    var user, second, third := first.key.user, Adding(v2), Adding(v1);
    AfterThree(first, second, third);
    FirstNames();
    AfterCreate(first);
    AfterVersion(After(EMPTY, [first]), user, [FIRST_VERSION], 1, v2);
    assert [FIRST_VERSION] + [v2.name] == [FIRST_VERSION, v2.name];
    AfterVersion(After(EMPTY, [first, second]), user, [FIRST_VERSION, v2.name], 2, v1);
    assert [FIRST_VERSION, v2.name] + [v1.name] == [FIRST_VERSION, v2.name, v1.name];
  }

  /**
    A device creates a skill, and over the web a version 0.1.2 is added to it and then, by hand as
    well, a version 0.1.1. From then on every update of the skill at its head fails, however often
    it is retried, and so does a roll-back to any version: the name after 0.1.1 is there already.
  */
  lemma NamesByHandBlockUpdates(first: Event, v2: NewVersion, v1: NewVersion, push: Event)
    requires first.Push? && first.request.CreateRequest? && first.world.complete
    requires v2.name == Name(0, 1, 2) && v1.name == Name(0, 1, 1)
    requires push.Push? && push.request.UpdateRequest? && push.request.skill == 0 && push.request.base == 3
    requires push.world.complete && push.key.user == first.key.user && push.key != first.key
    ensures MayAdd(After(EMPTY, [first]), v2) && MayAdd(After(EMPTY, [first, Adding(v2)]), v1)
    ensures forall n: nat ::
              Serve(After(After(EMPTY, [first, Adding(v2), Adding(v1)]), Times(push, n)),
                    push.key, push.request, push.world)
              == Failed(Rolledback(VersionExists))
    ensures forall index :: 0 <= index < 3 ==>
              Apply(After(EMPTY, [first, Adding(v2), Adding(v1)]).db, On(0, Rollback(VersionId(0, index))))
              == Err(VersionExists)
  {
    hide Step, Stands, Serve, NextPatch, Name, After, MayAdd, Adding, Apply;
    NamedByHand(first, v2, v1);
    FirstNames();
    var server, names := After(EMPTY, [first, Adding(v2), Adding(v1)]), [Name(0, 1, 0), Name(0, 1, 2), Name(0, 1, 1)];
    BlockedUpdate(server, names, push.key, push.request, push.world);
    forall index | 0 <= index < 3
      ensures Apply(server.db, On(0, Rollback(VersionId(0, index)))) == Err(VersionExists)
    {
      BlockedRollback(server, push.key.user, names, 3, index);
    }
    forall n: nat ensures After(server, Times(push, n)) == server {
      RetriesFail(server, push, n);
    }
  }

  lemma AfterThree(first: Event, second: Event, third: Event)
    ensures After(EMPTY, [first]) == Step(EMPTY, first)
    ensures After(EMPTY, [first, second]) == Step(After(EMPTY, [first]), second)
    ensures After(EMPTY, [first, second, third]) == Step(After(EMPTY, [first, second]), third)
  {
    hide Step;
    assert [first, second, third][..2] == [first, second];
    assert [first, second][..1] == [first] && [first][..0] == [];
  }
}
