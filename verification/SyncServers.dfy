/** The push endpoint, step by step on a session. */
module SyncServers {
  import opened Prelude
  import opened SkillHistory
  import opened SkillMutations
  import opened SyncMutations

  /** What a call returned, and what it left in the tables. */
  predicate Answers(reply: Reply, answer: Result<Payload, Failure>, before: Server, after: Server) {
    match reply
    case Replied(server, payload) => answer == Ok(payload) && after == server
    case Failed(failure) => answer == Err(failure) && after == before
  }

  class SyncServer {
    const mutations: SkillMutationService
    var receipts: map<Key, Receipt>

    constructor ()
      ensures State() == EMPTY && fresh(mutations)
    {
      mutations := new SkillMutationService();
      receipts := map[];
    }

    function State(): Server
      reads this, mutations
    {
      Server(mutations.Tables(), receipts)
    }

    method InsertReceipt(key: Key, resource: Option<Id>, outcome: Outcome) returns (payload: Payload)
      modifies this`receipts
      ensures payload == Payload(key.mutation, outcome)
      ensures receipts == old(receipts)[key := Receipt(resource, payload)]
    {
      payload := Payload(key.mutation, outcome);
      receipts := receipts[key := Receipt(resource, payload)];
    }

    method HandleCreate(key: Key, r: Request, world: World) returns (answer: Result<Payload, Failure>)
      requires r.CreateRequest?
      modifies this`receipts, mutations
      ensures Answers(ServeCreate(old(State()), key, r, world), answer, old(State()), State())
    {
      if SlugLive(mutations.skills, key.user, r.slug) {
        var payload := InsertReceipt(key, None, Rejected(SlugTaken));
        return Ok(payload);
      }
      if !world.complete {
        return Err(BlobMissing);
      }
      var id := mutations.next;
      var failure := mutations.CreateSkill(NewSkillOf(key.user, r, world));
      if failure.Some? {
        return Err(Rolledback(failure.value));
      }
      var skill := mutations.skills[id];
      var payload := InsertReceipt(key, Some(id), Acked(id, skill.revision, skill.package));
      return Ok(payload);
    }

    method HandleUpdate(key: Key, r: Request, world: World) returns (answer: Result<Payload, Failure>)
      requires r.UpdateRequest?
      modifies this`receipts, mutations
      ensures Answers(ServeUpdate(old(State()), key, r, world), answer, old(State()), State())
    {
      var id := r.skill;
      if !Loads(mutations.Tables(), id, key.user) {
        var payload := InsertReceipt(key, Some(id), Rejected(PermissionDenied));
        return Ok(payload);
      }
      var skill := mutations.skills[id];
      if skill.status == Deleted {
        var payload := InsertReceipt(key, Some(id), Rejected(SkillDeleted));
        return Ok(payload);
      }
      if skill.revision != r.base {
        var payload := InsertReceipt(key, Some(id), ConflictHead(id, skill));
        return Ok(payload);
      }
      if !world.complete {
        return Err(BlobMissing);
      }
      var e := EditOf(r, world);
      var failure := mutations.UpdateSkill(id, e.updates, e.content, false);
      if failure.Some? {
        return Err(Rolledback(failure.value));
      }
      skill := mutations.skills[id];
      var payload := InsertReceipt(key, Some(id), Acked(id, skill.revision, skill.package));
      return Ok(payload);
    }

    method HandleDelete(key: Key, r: Request) returns (answer: Result<Payload, Failure>)
      requires r.DeleteRequest?
      modifies this`receipts, mutations
      ensures Answers(ServeDelete(old(State()), key, r), answer, old(State()), State())
    {
      var id := r.skill;
      if !Loads(mutations.Tables(), id, key.user) {
        var payload := InsertReceipt(key, Some(id), Rejected(PermissionDenied));
        return Ok(payload);
      }
      var skill := mutations.skills[id];
      if skill.revision != r.base {
        var payload := InsertReceipt(key, Some(id), ConflictHead(id, skill));
        return Ok(payload);
      }
      var failure := mutations.SoftDelete(id);
      var payload := InsertReceipt(key, Some(id), Acked(id, mutations.skills[id].revision, None));
      return Ok(payload);
    }

    /** A receipt is replayed before anything else is looked at. */
    method ApplySyncMutation(key: Key, r: Request, world: World) returns (answer: Result<Payload, Failure>)
      modifies this`receipts, mutations
      ensures Answers(Serve(old(State()), key, r, world), answer, old(State()), State())
      ensures State() == Step(old(State()), Push(key, r, world))
    {
      if key in receipts {
        return Ok(receipts[key].payload);
      }
      if r.CreateRequest? {
        answer := HandleCreate(key, r, world);
      } else if r.UpdateRequest? {
        answer := HandleUpdate(key, r, world);
      } else {
        answer := HandleDelete(key, r);
      }
    }
  }
}
