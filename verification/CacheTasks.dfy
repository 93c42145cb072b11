/**
  What a run of the desktop cache evictor works on: the live references to snapshots and blobs, the
  order of the skills, which of them yield, and what is left after so many turns.
*/
module CacheTasks {
  import opened Prelude
  import opened Ordering

  datatype SkillId = SkillId(id: string)
  datatype Hash = Hash(text: string)

  datatype SyncState =
    RemoteOnly | Synced | Dirty | Uploading | Conflict | SyncError | AccessRevoked | Corrupted

  datatype Skill = Skill(
    id: SkillId, hasRemoteId: bool, snapshotHash: Hash, pinned: bool, lastAccessedAt: string)

  datatype Deployment = Deployment(skill: SkillId, deployedHash: Hash)

  datatype BlobEntry = BlobEntry(hash: Hash, sizeBytes: nat)

  /** What a skill's row says when its claim is made, but for the sync state. */
  datatype ClaimRow = ClaimRow(snapshotHash: Hash, hasRemoteId: bool, pinned: bool, deployed: bool)

  /**
    What the run finds in its surroundings: the closures of the snapshots whose manifests can be
    read, the skills whose workspace may exist, the rows that claims meet and those where the
    database fails, and the blobs whose file cannot be deleted.
  */
  datatype World = World(
    closures: map<Hash, set<Hash>>,
    workspaces: set<SkillId>,
    rows: map<SkillId, ClaimRow>,
    broken: set<SkillId>,
    stuck: set<Hash>)

  datatype Error = SizeOverflow | LocalStore

  datatype Report = Report(
    budget: nat, beforeBytes: nat, afterBytes: nat,
    evicted: seq<SkillId>, skipped: seq<SkillId>, deletedBlobs: nat)

  // ---- References ---------------------------------------------------------------------------

  /** The snapshots that skills still hold locally. */
  function SkillRefs(skills: seq<Skill>, states: map<SkillId, SyncState>): seq<Hash> {
    if skills == [] then []
    else
      var front, last := skills[..|skills| - 1], skills[|skills| - 1];
      SkillRefs(front, states) + OwnRef(last, states)
  }

  function OwnRef(skill: Skill, states: map<SkillId, SyncState>): seq<Hash> {
    if skill.id in states && states[skill.id] != RemoteOnly then [skill.snapshotHash] else []
  }

  function DeploymentRefs(deployments: seq<Deployment>): seq<Hash> {
    seq(|deployments|, i requires 0 <= i < |deployments| => deployments[i].deployedHash)
  }

  /** Every live reference to a snapshot, one element a reference. */
  function LiveRefs(skills: seq<Skill>, states: map<SkillId, SyncState>,
                    deployments: seq<Deployment>, payloads: seq<Hash>): seq<Hash> {
    SkillRefs(skills, states) + DeploymentRefs(deployments) + payloads
  }

  function One(b: bool): nat { if b then 1 else 0 }

  predicate InClosure(closures: map<Hash, set<Hash>>, snapshot: Hash, h: Hash) {
    snapshot in closures && h in closures[snapshot]
  }

  /** How many of the references keep blob `h`: those whose readable closure contains it. */
  function Needs(refs: seq<Hash>, closures: map<Hash, set<Hash>>, h: Hash): nat {
    if refs == [] then 0
    else Needs(refs[..|refs| - 1], closures, h) + One(InClosure(closures, refs[|refs| - 1], h))
  }

  lemma {:induction false} NeedsAppend(a: seq<Hash>, b: seq<Hash>, closures: map<Hash, set<Hash>>, h: Hash)
    ensures Needs(a + b, closures, h) == Needs(a, closures, h) + Needs(b, closures, h)
  {
    if b == [] {
      assert a + b == a;
    } else {
      var n := |b| - 1;
      assert (a + b)[..|a + b| - 1] == a + b[..n];
      NeedsAppend(a, b[..n], closures, h);
    }
  }

  /** A blob is needed exactly when some reference's readable closure contains it. */
  lemma {:induction false} NeedsIffReferenced(refs: seq<Hash>, closures: map<Hash, set<Hash>>, h: Hash)
    ensures Needs(refs, closures, h) > 0 <==> exists s :: s in refs && InClosure(closures, s, h)
  {
    if refs != [] {
      var front, last := refs[..|refs| - 1], refs[|refs| - 1];
      NeedsIffReferenced(front, closures, h);
      assert refs == front + [last];
      if s :| s in refs && InClosure(closures, s, h) {
        if s !in front { assert s == last; }
      }
    }
  }

  /** Evicting a skill takes away exactly its own reference. */
  lemma {:induction false} EvictionDropsOneRef(skills: seq<Skill>, states: map<SkillId, SyncState>, i: nat,
                                               closures: map<Hash, set<Hash>>, h: Hash)
    requires i < |skills| && skills[i].id in states && states[skills[i].id] != RemoteOnly
    requires forall a, b :: 0 <= a < b < |skills| ==> skills[a].id != skills[b].id
    ensures Needs(SkillRefs(skills, states), closures, h)
         == Needs(SkillRefs(skills, states[skills[i].id := RemoteOnly]), closures, h)
            + One(InClosure(closures, skills[i].snapshotHash, h))
  {
    var n := |skills| - 1;
    var after := states[skills[i].id := RemoteOnly];
    var front, last := skills[..n], skills[n];
    NeedsAppend(SkillRefs(front, states), OwnRef(last, states), closures, h);
    NeedsAppend(SkillRefs(front, after), OwnRef(last, after), closures, h);
    if i == n {
      OthersKeepRefs(front, states, last.id);
      assert OwnRef(last, states) == [last.snapshotHash] && OwnRef(last, after) == [];
      NeedsOne(last.snapshotHash, closures, h);
    } else {
      EvictionDropsOneRef(front, states, i, closures, h);
      assert last.id != skills[i].id;
      assert OwnRef(last, states) == OwnRef(last, after);
    }
  }

  lemma NeedsOne(s: Hash, closures: map<Hash, set<Hash>>, h: Hash)
    ensures Needs([s], closures, h) == One(InClosure(closures, s, h))
  {
    assert [s][..0] == [];
  }

  lemma {:induction false} OthersKeepRefs(skills: seq<Skill>, states: map<SkillId, SyncState>, id: SkillId)
    requires forall a :: 0 <= a < |skills| ==> skills[a].id != id
    ensures SkillRefs(skills, states[id := RemoteOnly]) == SkillRefs(skills, states)
  {
    if skills != [] {
      OthersKeepRefs(skills[..|skills| - 1], states, id);
    }
  }

  // ---- Counting -----------------------------------------------------------------------------

  function Count(counts: map<Hash, nat>, h: Hash): nat {
    if h in counts then counts[h] else 0
  }

  /** `counts` tallies the references by snapshot. */
  ghost predicate Tallies(counts: map<Hash, nat>, refs: seq<Hash>) {
    && (forall s :: s in counts <==> s in refs)
    && (forall s :: s in counts ==> counts[s] == multiset(refs)[s])
  }

  method Tally(counts: map<Hash, nat>, ghost refs: seq<Hash>, more: seq<Hash>) returns (counts': map<Hash, nat>)
    requires Tallies(counts, refs)
    ensures Tallies(counts', refs + more)
  {
    counts' := counts;
    assert refs + more[..0] == refs;
    for i := 0 to |more|
      invariant Tallies(counts', refs + more[..i])
    {
      assert refs + more[..i + 1] == refs + more[..i] + [more[i]];
      counts' := counts'[more[i] := Count(counts', more[i]) + 1];
    }
    assert more[..|more|] == more;
  }

  /** The references to the snapshots of `part` that keep `h`. */
  function NeedsWithin(refs: seq<Hash>, part: set<Hash>, closures: map<Hash, set<Hash>>, h: Hash): nat {
    if refs == [] then 0
    else
      var last := refs[|refs| - 1];
      NeedsWithin(refs[..|refs| - 1], part, closures, h) + One(last in part && InClosure(closures, last, h))
  }

  lemma {:induction false} NeedsWithinAll(refs: seq<Hash>, part: set<Hash>, closures: map<Hash, set<Hash>>, h: Hash)
    requires forall s :: s in refs ==> s in part
    ensures NeedsWithin(refs, part, closures, h) == Needs(refs, closures, h)
  {
    if refs != [] {
      NeedsWithinAll(refs[..|refs| - 1], part, closures, h);
    }
  }

  lemma {:induction false} NeedsWithinNone(refs: seq<Hash>, closures: map<Hash, set<Hash>>, h: Hash)
    ensures NeedsWithin(refs, {}, closures, h) == 0
  {
    if refs != [] {
      NeedsWithinNone(refs[..|refs| - 1], closures, h);
    }
  }

  /** One more snapshot accounts for as many references as it was tallied with. */
  lemma {:induction false} NeedsWithinMore(refs: seq<Hash>, part: set<Hash>, s: Hash,
                                          closures: map<Hash, set<Hash>>, h: Hash)
    requires s !in part
    ensures NeedsWithin(refs, part + {s}, closures, h)
         == NeedsWithin(refs, part, closures, h) + if InClosure(closures, s, h) then multiset(refs)[s] else 0
  {
    if refs != [] {
      NeedsWithinMore(refs[..|refs| - 1], part, s, closures, h);
      assert refs == refs[..|refs| - 1] + [refs[|refs| - 1]];
    }
  }

  /** The counts are exactly the numbers of references that keep each blob. */
  ghost predicate Exact(counts: map<Hash, nat>, refs: seq<Hash>, closures: map<Hash, set<Hash>>) {
    forall h :: Count(counts, h) == Needs(refs, closures, h)
  }

  /** Add `amount` to the count of every blob of a closure. */
  function AddAll(counts: map<Hash, nat>, closure: set<Hash>, amount: nat): map<Hash, nat> {
    map h | h in counts.Keys + closure :: Count(counts, h) + if h in closure then amount else 0
  }

  /** The counts are right for the references to the snapshots of `part`. */
  ghost predicate Counted(counts: map<Hash, nat>, refs: seq<Hash>, part: set<Hash>, closures: map<Hash, set<Hash>>) {
    forall h :: Count(counts, h) == NeedsWithin(refs, part, closures, h)
  }

  lemma CountedNone(refs: seq<Hash>, closures: map<Hash, set<Hash>>)
    ensures Counted(map[], refs, {}, closures)
  {
    forall h ensures NeedsWithin(refs, {}, closures, h) == 0 {
      NeedsWithinNone(refs, closures, h);
    }
  }

  lemma CountedAll(tally: map<Hash, nat>, refs: seq<Hash>, closures: map<Hash, set<Hash>>, counts: map<Hash, nat>)
    requires Tallies(tally, refs) && Counted(counts, refs, tally.Keys, closures)
    ensures Exact(counts, refs, closures)
  {
    hide NeedsWithin, Needs;
    forall h ensures Count(counts, h) == Needs(refs, closures, h) {
      NeedsWithinAll(refs, tally.Keys, closures, h);
    }
  }

  /** Adding one tallied snapshot to counts that are right for `part` makes them right with it. */
  lemma CountOneMore(tally: map<Hash, nat>, refs: seq<Hash>, closures: map<Hash, set<Hash>>, part: set<Hash>, s: Hash,
                     before: map<Hash, nat>, after: map<Hash, nat>)
    requires Tallies(tally, refs) && s in tally && s !in part && Counted(before, refs, part, closures)
    requires after == if s in closures then AddAll(before, closures[s], tally[s]) else before
    ensures Counted(after, refs, part + {s}, closures)
  {
    hide NeedsWithin;
    forall h ensures Count(after, h) == NeedsWithin(refs, part + {s}, closures, h) {
      NeedsWithinMore(refs, part, s, closures, h);
    }
  }

  /** Reference counts from the tally: each readable snapshot adds its references to its closure. */
  method CountReferences(tally: map<Hash, nat>, closures: map<Hash, set<Hash>>, ghost refs: seq<Hash>)
    returns (counts: map<Hash, nat>)
    requires Tallies(tally, refs)
    ensures Exact(counts, refs, closures)
  {
    hide Counted, Exact, AddAll, Tallies;
    counts := map[];
    var todo := tally.Keys;
    ghost var part: set<Hash> := {};
    CountedNone(refs, closures);
    while todo != {}
      invariant part !! todo && part + todo == tally.Keys
      invariant Counted(counts, refs, part, closures)
      decreases |todo|
    {
      var s :| s in todo;
      ghost var before := counts;
      if s in closures {
        counts := AddAll(counts, closures[s], tally[s]);
      }
      CountOneMore(tally, refs, closures, part, s, before, counts);
      todo, part := todo - {s}, part + {s};
    }
    assert part == tally.Keys;
    CountedAll(tally, refs, closures, counts);
  }

  // ---- Bytes --------------------------------------------------------------------------------

  /** The bytes of the inventoried blobs that are on disk. */
  function BytesOnDisk(inventory: seq<BlobEntry>, onDisk: set<Hash>): (n: nat)
    ensures onDisk == {} ==> n == 0
  {
    if inventory == [] then 0
    else
      var last := inventory[|inventory| - 1];
      BytesOnDisk(inventory[..|inventory| - 1], onDisk) + if last.hash in onDisk then last.sizeBytes else 0
  }

  predicate DistinctHashes(inventory: seq<BlobEntry>) {
    forall i, j :: 0 <= i < j < |inventory| ==> inventory[i].hash != inventory[j].hash
  }

  lemma {:induction false} DeletionFreesItsBytes(inventory: seq<BlobEntry>, onDisk: set<Hash>, i: nat)
    requires DistinctHashes(inventory) && i < |inventory| && inventory[i].hash in onDisk
    ensures BytesOnDisk(inventory, onDisk)
         == BytesOnDisk(inventory, onDisk - {inventory[i].hash}) + inventory[i].sizeBytes
  {
    var n := |inventory| - 1;
    if i < n {
      DeletionFreesItsBytes(inventory[..n], onDisk, i);
    } else {
      OthersKeepBytes(inventory[..n], onDisk, inventory[n].hash);
    }
  }

  lemma {:induction false} OthersKeepBytes(inventory: seq<BlobEntry>, onDisk: set<Hash>, h: Hash)
    requires forall i :: 0 <= i < |inventory| ==> inventory[i].hash != h
    ensures BytesOnDisk(inventory, onDisk - {h}) == BytesOnDisk(inventory, onDisk)
  {
    if inventory != [] {
      OthersKeepBytes(inventory[..|inventory| - 1], onDisk, h);
    }
  }

  /** The inventory as a map. */
  ghost predicate Indexed(sizes: map<Hash, nat>, inventory: seq<BlobEntry>) {
    forall e :: e in inventory <==> e.hash in sizes && sizes[e.hash] == e.sizeBytes
  }

  lemma IndexStep(inventory: seq<BlobEntry>, i: nat, sizes: map<Hash, nat>)
    requires i < |inventory| && DistinctHashes(inventory) && Indexed(sizes, inventory[..i])
    ensures Indexed(sizes[inventory[i].hash := inventory[i].sizeBytes], inventory[..i + 1])
  {
    var e := inventory[i];
    assert inventory[..i + 1] == inventory[..i] + [e];
  }

  lemma {:induction false} BytesGrow(inventory: seq<BlobEntry>, i: nat, onDisk: set<Hash>)
    requires i <= |inventory|
    ensures BytesOnDisk(inventory[..i], onDisk) <= BytesOnDisk(inventory, onDisk)
    decreases |inventory| - i
  {
    if i < |inventory| {
      BytesGrow(inventory, i + 1, onDisk);
      assert inventory[..i + 1][..i] == inventory[..i];
    } else {
      assert inventory[..i] == inventory;
    }
  }

  function SaturatingSub(a: nat, b: nat): nat {
    if a < b then 0 else a - b
  }

  // ---- Eviction -----------------------------------------------------------------------------

  predicate DistinctIds(skills: seq<Skill>) {
    forall a, b :: 0 <= a < b < |skills| ==> skills[a].id != skills[b].id
  }

  function DeployedIds(deployments: seq<Deployment>): set<SkillId> {
    set d | d in deployments :: d.skill
  }

  /** The rule by which a skill may be evicted at all. */
  predicate IsEvictable(skill: Skill, state: SyncState, deployed: set<SkillId>, world: World) {
    state == Synced && !skill.pinned && skill.hasRemoteId && skill.id !in deployed && skill.id !in world.workspaces
  }

  /** The guard of the durable claim: nothing has happened to the row since it was listed. */
  predicate Claimable(id: SkillId, expected: Hash, state: SyncState, world: World) {
    && id in world.rows && world.rows[id].snapshotHash == expected && world.rows[id].hasRemoteId
    && state == Synced && !world.rows[id].pinned && !world.rows[id].deployed
  }

  /** The skill will be evicted if its turn comes: evictable, resolved, and its claim succeeds. */
  predicate Yields(skill: Skill, states: map<SkillId, SyncState>, deployed: set<SkillId>, world: World) {
    && skill.id in states && IsEvictable(skill, states[skill.id], deployed, world)
    && skill.snapshotHash in world.closures
    && Claimable(skill.id, skill.snapshotHash, states[skill.id], world)
  }

  function YieldingIds(skills: seq<Skill>, states: map<SkillId, SyncState>, deployed: set<SkillId>,
                       world: World): seq<SkillId> {
    if skills == [] then []
    else
      var last := skills[|skills| - 1];
      YieldingIds(skills[..|skills| - 1], states, deployed, world)
      + if Yields(last, states, deployed, world) then [last.id] else []
  }

  function LastAccess(skill: Skill): string { skill.lastAccessedAt }

  function IdText(skill: Skill): string { skill.id.id }

  /** Least recently used first, and by id where that is the same. */
  function LruOrder(skills: seq<Skill>): seq<Skill> {
    SortBy(LastAccess, SortBy(IdText, skills))
  }

  predicate Older(a: Skill, b: Skill) {
    Less(a.lastAccessedAt, b.lastAccessedAt)
    || (a.lastAccessedAt == b.lastAccessedAt && Less(a.id.id, b.id.id))
  }

  /** The order is strict, and it lists the same skills. */
  lemma LruIsOrdered(skills: seq<Skill>)
    requires DistinctIds(skills)
    ensures var lru := LruOrder(skills);
            && DistinctIds(lru) && multiset(lru) == multiset(skills)
            && forall i, j :: 0 <= i < j < |lru| ==> Older(lru[i], lru[j])
  {
    var lru := LruOrder(skills);
    SortBySorts(IdText, skills);
    SortKeepsBoth(LastAccess, IdText, SortBy(IdText, skills));
    forall i, j | 0 <= i < j < |lru| ensures lru[i].id != lru[j].id {
      if IdText(lru[i]) == IdText(lru[j]) {
        SameKeyTwice(IdText, skills, lru, i, j);
      }
    }
    forall i, j | 0 <= i < j < |lru| ensures Older(lru[i], lru[j]) {
      assert InOrder(LastAccess, IdText, lru[i], lru[j]);
      LessIsTotal(IdText(lru[i]), IdText(lru[j]));
      assert lru[i].id != lru[j].id;
    }
  }

  lemma OlderIsStrict(a: Skill, b: Skill)
    requires Older(a, b)
    ensures !Older(b, a)
  {
    LessIsStrict(a.lastAccessedAt);
    LessIsStrict(a.id.id);
    if Less(a.lastAccessedAt, b.lastAccessedAt) && Less(b.lastAccessedAt, a.lastAccessedAt) {
      LessIsTransitive(a.lastAccessedAt, b.lastAccessedAt, a.lastAccessedAt);
    }
    if Less(a.id.id, b.id.id) && Less(b.id.id, a.id.id) {
      LessIsTransitive(a.id.id, b.id.id, a.id.id);
    }
  }

  lemma {:induction false} YieldingMembers(skills: seq<Skill>, states: map<SkillId, SyncState>, deployed: set<SkillId>,
                                           world: World, id: SkillId)
    ensures id in YieldingIds(skills, states, deployed, world)
       <==> exists k :: 0 <= k < |skills| && skills[k].id == id && Yields(skills[k], states, deployed, world)
  {
    if skills != [] {
      var front := skills[..|skills| - 1];
      YieldingMembers(front, states, deployed, world, id);
      assert forall k :: 0 <= k < |front| ==> front[k] == skills[k];
    }
  }

  /** Whichever skill is evicted, every older one is too unless its own turn spared it. */
  predicate EvictedOldestFirst(task: Task, states: map<SkillId, SyncState>, evicted: seq<SkillId>) {
    forall x, y :: x in task.skills && y in task.skills && y.id in evicted && Older(x, y) ==>
      || x.id in evicted || x.id !in states || states[x.id] != Synced
      || !x.hasRemoteId || x.pinned || x.snapshotHash !in task.world.closures || x.id in task.world.workspaces
      || (exists d :: d in task.deployments && d.skill == x.id)
      || x.id !in task.world.rows || task.world.rows[x.id] != ClaimRow(x.snapshotHash, true, false, false)
  }

  lemma EvictionIsOldestFirst(task: Task, states: map<SkillId, SyncState>, n: nat)
    requires DistinctIds(task.skills) && n <= |task.Sorted().skills|
    ensures EvictedOldestFirst(task, states, task.Sorted().Yielding(states, n))
  {
    hide LruOrder, Yields;
    var lru, deployed := LruOrder(task.skills), DeployedIds(task.deployments);
    var evicted := task.Sorted().Yielding(states, n);
    LruIsOrdered(task.skills);
    forall x, y | x in task.skills && y in task.skills && y.id in evicted && Older(x, y)
                  && Yields(x, states, deployed, task.world)
      ensures x.id in evicted
    {
      YieldingMembers(lru[..n], states, deployed, task.world, y.id);
      YieldingMembers(lru[..n], states, deployed, task.world, x.id);
      assert x in multiset(lru) && y in multiset(lru);
      var i :| 0 <= i < |lru| && lru[i] == x;
      var j :| 0 <= j < |lru| && lru[j] == y;
      var k :| 0 <= k < n && lru[..n][k].id == y.id;
      assert lru[k].id == lru[j].id && k == j;
      OlderIsStrict(x, y);
      assert i < j;
      assert lru[..n][i] == x;
    }
    forall x: Skill | x in task.skills {
      YieldsIff(task, x, states);
    }
  }

  /**
    A skill yields exactly if it is synced, on the server and unpinned, in the list as in its row,
    holds the listed snapshot, which resolves, and has neither a deployment nor a workspace.
  */
  lemma YieldsIff(task: Task, x: Skill, states: map<SkillId, SyncState>)
    ensures Yields(x, states, DeployedIds(task.deployments), task.world) <==>
              && x.id in states && states[x.id] == Synced
              && x.hasRemoteId && !x.pinned && x.snapshotHash in task.world.closures
              && x.id !in task.world.workspaces
              && (forall d :: d in task.deployments ==> d.skill != x.id)
              && x.id in task.world.rows && task.world.rows[x.id] == ClaimRow(x.snapshotHash, true, false, false)
  {
    assert x.id in DeployedIds(task.deployments) <==> exists d :: d in task.deployments && d.skill == x.id;
  }

  /** What a run works on and never changes. */
  datatype Task = Task(
    skills: seq<Skill>, deployments: seq<Deployment>, payloads: seq<Hash>,
    inventory: seq<BlobEntry>, budget: nat, world: World)
  {
    function Refs(states: map<SkillId, SyncState>): seq<Hash> {
      LiveRefs(skills, states, deployments, payloads)
    }

    function Keepers(states: map<SkillId, SyncState>, h: Hash): nat {
      Needs(Refs(states), world.closures, h)
    }

    /** The skills that give up their snapshot when the first `n` have had their turn. */
    function Yielding(states: map<SkillId, SyncState>, n: nat): seq<SkillId>
      requires n <= |skills|
    {
      YieldingIds(skills[..n], states, DeployedIds(deployments), world)
    }

    /** The skills table once the yielding ones among the first `n` skills are evicted. */
    function After(states: map<SkillId, SyncState>, n: nat): map<SkillId, SyncState>
      requires n <= |skills|
    {
      if n == 0 then states
      else if Yields(skills[n - 1], states, DeployedIds(deployments), world) then
        After(states, n - 1)[skills[n - 1].id := RemoteOnly]
      else After(states, n - 1)
    }

    /** The skills among the first `n` that keep their snapshot in their turn. */
    function Spared(states: map<SkillId, SyncState>, n: nat): seq<SkillId>
      requires n <= |skills|
    {
      if n == 0 then []
      else
        Spared(states, n - 1)
        + if Yields(skills[n - 1], states, DeployedIds(deployments), world) then [] else [skills[n - 1].id]
    }

    lemma YieldingStep(states: map<SkillId, SyncState>, i: nat)
      requires i < |skills|
      ensures var gives := Yields(skills[i], states, DeployedIds(deployments), world);
              && Yielding(states, i + 1) == Yielding(states, i) + (if gives then [skills[i].id] else [])
              && Spared(states, i + 1) == Spared(states, i) + if gives then [] else [skills[i].id]
    {
      assert skills[..i + 1][..i] == skills[..i];
    }

    /**
      The blobs on disk after `n` turns of a run that started from `blobs`: what no reference needed
      to begin with, what one needs still, and what cannot be deleted.
    */
    function Held(states: map<SkillId, SyncState>, blobs: set<Hash>, n: nat): set<Hash>
      requires n <= |skills|
    {
      set h | h in blobs && (h in world.stuck || Keepers(states, h) == 0 || Keepers(After(states, n), h) > 0)
    }

    lemma NoTurns(states: map<SkillId, SyncState>, blobs: set<Hash>)
      ensures Yielding(states, 0) == Spared(states, 0) == []
      ensures After(states, 0) == states && Held(states, blobs, 0) == blobs
    {
      assert skills[..0] == [];
    }

    /** What the blobs left by the first `k` turns weigh is still above budget, so another turn is taken. */
    predicate TurnIsDue(states: map<SkillId, SyncState>, blobs: set<Hash>, k: nat)
      requires k < |skills|
    {
      && BytesOnDisk(inventory, Held(states, blobs, k)) > budget
      && (Yields(skills[k], states, DeployedIds(deployments), world) ==> skills[k].id !in world.broken)
    }

    /** The run's own view: the skills least recently used first. */
    function Sorted(): Task { this.(skills := LruOrder(skills)) }

    /** Every live reference resolves. */
    predicate AllReadable(states: map<SkillId, SyncState>) {
      forall s :: s in Refs(states) ==> s in world.closures
    }

    predicate Valid(states: map<SkillId, SyncState>, blobs: set<Hash>) {
      && DistinctIds(skills) && DistinctHashes(inventory)
      && (forall i :: 0 <= i < |skills| ==> skills[i].id in states)
      && blobs == set e | e in inventory :: e.hash
    }
  }

  /** A turn in which nothing is evicted. */
  lemma HeldOver(task: Task, states: map<SkillId, SyncState>, blobs: set<Hash>, i: nat)
    requires i < |task.skills|
    requires !Yields(task.skills[i], states, DeployedIds(task.deployments), task.world)
    ensures task.Held(states, blobs, i + 1) == task.Held(states, blobs, i)
  {}

  lemma SortedIsValid(task: Task, states: map<SkillId, SyncState>, blobs: set<Hash>)
    requires task.Valid(states, blobs)
    ensures task.Sorted().Valid(states, blobs)
  {
    LruIsOrdered(task.skills);
    var lru := LruOrder(task.skills);
    forall i | 0 <= i < |lru| ensures lru[i].id in states {
      assert lru[i] in multiset(lru) && lru[i] in multiset(task.skills);
    }
  }

  /** Sorting the skills changes no reference. */
  lemma SortedRefs(task: Task, states: map<SkillId, SyncState>)
    ensures forall s :: s in task.Refs(states) ==> s in task.Sorted().Refs(states)
  {
    var lru := LruOrder(task.skills);
    forall s ensures s in SkillRefs(task.skills, states) ==> s in SkillRefs(lru, states) {
      SkillRefsMembers(task.skills, states, s);
      SkillRefsMembers(lru, states, s);
      forall x | x in task.skills ensures x in lru {
        assert x in multiset(task.skills) && x in multiset(lru);
      }
    }
  }

  lemma {:induction false} SkillRefsMembers(skills: seq<Skill>, states: map<SkillId, SyncState>, s: Hash)
    ensures s in SkillRefs(skills, states) <==> exists x :: x in skills && s in OwnRef(x, states)
  {
    if skills != [] {
      var front, last := skills[..|skills| - 1], skills[|skills| - 1];
      SkillRefsMembers(front, states, s);
      assert skills == front + [last];
    }
  }

  /** What a snapshot must be for a reference to hold it. */
  lemma RefsAre(task: Task, states: map<SkillId, SyncState>, s: Hash)
    ensures s in task.Refs(states) <==>
              || (exists x :: x in task.skills && x.id in states && states[x.id] != RemoteOnly && x.snapshotHash == s)
              || (exists d :: d in task.deployments && d.deployedHash == s)
              || s in task.payloads
  {
    SkillRefsMembers(task.skills, states, s);
    forall d | d in task.deployments ensures d.deployedHash in DeploymentRefs(task.deployments) {
      var i :| 0 <= i < |task.deployments| && task.deployments[i] == d;
      assert DeploymentRefs(task.deployments)[i] == d.deployedHash;
    }
    forall x | x in task.skills ensures s in OwnRef(x, states) <==>
        x.id in states && states[x.id] != RemoteOnly && x.snapshotHash == s {}
  }

  lemma {:induction false} TurnsKeepKeys(task: Task, states: map<SkillId, SyncState>, n: nat)
    requires n <= |task.skills|
    requires forall k :: 0 <= k < n ==> task.skills[k].id in states
    ensures task.After(states, n).Keys == states.Keys
  {
    if n > 0 {
      TurnsKeepKeys(task, states, n - 1);
    }
  }

  /** A turn changes the state of the skill whose turn it is, if it yields, and no other. */
  lemma {:induction false} AfterIs(task: Task, states: map<SkillId, SyncState>, n: nat, id: SkillId)
    requires n <= |task.skills| && id in states
    requires forall k :: 0 <= k < n ==> task.skills[k].id in states
    ensures id in task.After(states, n)
    ensures task.After(states, n)[id]
         == if exists k :: 0 <= k < n && task.skills[k].id == id
                           && Yields(task.skills[k], states, DeployedIds(task.deployments), task.world)
            then RemoteOnly else states[id]
  {
    hide Yields;
    if n > 0 {
      AfterIs(task, states, n - 1, id);
    }
  }

  /** Turns only take references away. */
  lemma {:induction false} NeedsFall(task: Task, states: map<SkillId, SyncState>, n: nat, h: Hash)
    requires n <= |task.skills| && DistinctIds(task.skills)
    requires forall k :: 0 <= k < n ==> task.skills[k].id in states
    ensures task.Keepers(task.After(states, n), h) <= task.Keepers(states, h)
  {
    hide Task.Keepers, DistinctIds;
    if n > 0 {
      NeedsFall(task, states, n - 1, h);
      if Yields(task.skills[n - 1], states, DeployedIds(task.deployments), task.world) {
        UnvisitedKeepsState(task, states, n - 1, n - 1);
        EvictionNeeds(task, task.After(states, n - 1), n - 1, h);
      }
    }
  }

  lemma EvictionNeeds(task: Task, states: map<SkillId, SyncState>, i: nat, h: Hash)
    requires i < |task.skills| && DistinctIds(task.skills)
    requires task.skills[i].id in states && states[task.skills[i].id] != RemoteOnly
    ensures task.Keepers(states, h)
         == task.Keepers(states[task.skills[i].id := RemoteOnly], h)
            + One(InClosure(task.world.closures, task.skills[i].snapshotHash, h))
  {
    hide SkillRefs, DeploymentRefs, InClosure, Needs, Count;
    var after := states[task.skills[i].id := RemoteOnly];
    var others := DeploymentRefs(task.deployments) + task.payloads;
    assert task.Refs(states) == SkillRefs(task.skills, states) + others;
    assert task.Refs(after) == SkillRefs(task.skills, after) + others;
    NeedsAppend(SkillRefs(task.skills, states), others, task.world.closures, h);
    NeedsAppend(SkillRefs(task.skills, after), others, task.world.closures, h);
    EvictionDropsOneRef(task.skills, states, i, task.world.closures, h);
  }

  /** The turn of a yielding skill takes from disk what its closure no longer shares with a live reference. */
  lemma HeldStep(task: Task, states: map<SkillId, SyncState>, blobs: set<Hash>, i: nat, h: Hash)
    requires i < |task.skills| && DistinctIds(task.skills)
    requires forall k :: 0 <= k < |task.skills| ==> task.skills[k].id in states
    requires Yields(task.skills[i], states, DeployedIds(task.deployments), task.world)
    ensures h in task.Held(states, blobs, i + 1) <==>
              && h in task.Held(states, blobs, i)
              && (|| !InClosure(task.world.closures, task.skills[i].snapshotHash, h)
                  || task.Keepers(task.After(states, i + 1), h) > 0 || h in task.world.stuck)
  {
    hide Task.Keepers;
    NeedsFall(task, states, i, h);
    UnvisitedKeepsState(task, states, i, i);
    EvictionNeeds(task, task.After(states, i), i, h);
  }

  /** Nothing was swept from `before`, or something without which the rest was above budget. */
  predicate SweptNoFurther(task: Task, before: set<Hash>, blobs: set<Hash>) {
    blobs == before || exists h :: h in before && h !in blobs && BytesOnDisk(task.inventory, blobs + {h}) > task.budget
  }

  lemma SweptOneMore(task: Task, before: set<Hash>, held: set<Hash>, blobs: set<Hash>)
    requires SweptNoFurther(task, before, held) && held <= before && BytesOnDisk(task.inventory, held) > task.budget
    requires blobs == held || exists h :: h in held && h !in blobs && blobs + {h} == held
    ensures SweptNoFurther(task, before, blobs)
  {}

  /** What the first `n` turns, least recently used first, may and must change. */
  lemma ChangesAreFair(task: Task, states0: map<SkillId, SyncState>, n: nat)
    requires n <= |task.Sorted().skills| && DistinctIds(task.skills)
    requires forall i :: 0 <= i < |task.skills| ==> task.skills[i].id in states0
    ensures var states := task.Sorted().After(states0, n);
            && states.Keys == states0.Keys
            && (forall id :: id in states0 && states[id] != states0[id] ==> exists x :: x in task.skills && x.id == id)
            && (forall x :: x in task.skills && states[x.id] != states0[x.id] ==>
                  && states0[x.id] == Synced && states[x.id] == RemoteOnly
                  && x.hasRemoteId && !x.pinned && x.snapshotHash in task.world.closures
                  && x.id !in task.world.workspaces
                  && (forall d :: d in task.deployments ==> d.skill != x.id)
                  && x.id in task.world.rows && task.world.rows[x.id] == ClaimRow(x.snapshotHash, true, false, false))
            && (forall k :: 0 <= k < n ==>
                  var x := task.Sorted().skills[k];
                  || x.id !in states || states[x.id] == RemoteOnly
                  || states0[x.id] != Synced
                  || !x.hasRemoteId || x.pinned || x.snapshotHash !in task.world.closures
                  || x.id in task.world.workspaces
                  || (exists d :: d in task.deployments && d.skill == x.id)
                  || x.id !in task.world.rows || task.world.rows[x.id] != ClaimRow(x.snapshotHash, true, false, false))
  {
    hide LruOrder, Yields, Task.After;
    var lru := task.Sorted();
    LruIsOrdered(task.skills);
    forall x ensures x in lru.skills <==> x in task.skills {
      assert x in multiset(lru.skills) <==> x in multiset(task.skills);
    }
    assert forall i :: 0 <= i < |lru.skills| ==> lru.skills[i] in task.skills;
    TurnsKeepKeys(lru, states0, n);
    forall id | id in states0
      ensures lru.After(states0, n)[id]
           == if exists k :: 0 <= k < n && lru.skills[k].id == id
                             && Yields(lru.skills[k], states0, DeployedIds(task.deployments), task.world)
              then RemoteOnly else states0[id]
    {
      AfterIs(lru, states0, n, id);
    }
    forall x: Skill | x in task.skills {
      YieldsIff(task, x, states0);
    }
  }

  lemma RemovedInTwo(a: set<Hash>, b: set<Hash>, c: set<Hash>)
    requires c <= b <= a
    ensures |a - c| == |a - b| + |b - c|
  {
    assert a - c == (a - b) + (b - c);
  }

  lemma {:induction false} UnvisitedKeepsState(task: Task, states0: map<SkillId, SyncState>, k: nat, n: nat)
    requires k <= n < |task.skills| && DistinctIds(task.skills) && task.skills[n].id in states0
    ensures var states := task.After(states0, k);
            task.skills[n].id in states && states[task.skills[n].id] == states0[task.skills[n].id]
  {
    if k > 0 {
      UnvisitedKeepsState(task, states0, k - 1, n);
      assert task.skills[k - 1].id != task.skills[n].id;
    }
  }
}
