/**
  The desktop cache evictor: least recently used skills give up their snapshots until the blob
  store is within budget. Reference counts are recomputed for every run from the live references.
*/
module CacheManager {
  import opened Prelude
  import opened Ordering
  import opened CacheTasks

  datatype Removal = Removed | AlreadyGone | CannotRemove

  class LocalCache {
    /** The skills table's sync states. */
    var states: map<SkillId, SyncState>
    /** The blob files on disk. */
    var blobs: set<Hash>

    constructor (states: map<SkillId, SyncState>, blobs: set<Hash>)
      ensures this.states == states && this.blobs == blobs
    {
      this.states := states;
      this.blobs := blobs;
    }

    /**
      The durable compare-and-swap that precedes any deletion: it succeeds exactly if the row is as
      expected, synced, on the server, unpinned and nowhere deployed.
    */
    method ClaimSkillForEviction(id: SkillId, expected: Hash, world: World) returns (r: Result<bool, Error>)
      requires id in states
      modifies this`states
      ensures r == if id in world.broken then Err(LocalStore) else Ok(Claimable(id, expected, old(states)[id], world))
      ensures states == if r == Ok(true) then old(states)[id := RemoteOnly] else old(states)
    {
      if id in world.broken {
        return Err(LocalStore);
      }
      if id !in world.rows {
        return Ok(false);
      }
      var row := world.rows[id];
      if row.snapshotHash != expected || !row.hasRemoteId || states[id] != Synced || row.pinned || row.deployed {
        return Ok(false);
      }
      states := states[id := RemoteOnly];
      r := Ok(true);
    }

    method RemoveBlobFile(h: Hash, world: World) returns (r: Removal)
      modifies this`blobs
      ensures r == if h !in old(blobs) then AlreadyGone else if h in world.stuck then CannotRemove else Removed
      ensures blobs == if r == Removed then old(blobs) - {h} else old(blobs)
    {
      r := if h !in blobs then AlreadyGone else if h in world.stuck then CannotRemove else Removed;
      if r == Removed {
        blobs := blobs - {h};
      }
    }

    /**
      What holds throughout a run that started from `blobs0`: the counts are the live needs, the
      byte count is what is on disk, and only blobs nobody needs are gone.
    */
    ghost predicate Accounted(task: Task, blobs0: set<Hash>, counts: map<Hash, nat>, bytes: nat)
      reads this
    {
      && (forall h :: Count(counts, h) == task.Keepers(states, h))
      && bytes == BytesOnDisk(task.inventory, blobs)
      && Safe(task, blobs0)
    }

    /** Only blobs without a live reference are gone. */
    ghost predicate Safe(task: Task, blobs0: set<Hash>)
      reads this
    {
      blobs <= blobs0 && forall h :: h in blobs0 && h !in blobs ==> task.Keepers(states, h) == 0
    }

    lemma StartsAccounted(task: Task, counts: map<Hash, nat>, sizes: map<Hash, nat>, bytes: nat)
      requires Exact(counts, task.Refs(states), task.world.closures)
      requires task.Valid(states, blobs) && Indexed(sizes, task.inventory)
      requires bytes == BytesOnDisk(task.inventory, blobs)
      ensures Accounted(task, blobs, counts, bytes) && Inventoried(task, sizes)
    {}

    lemma AccountedIsSafe(task: Task, blobs0: set<Hash>, counts: map<Hash, nat>, bytes: nat)
      requires Accounted(task, blobs0, counts, bytes)
      ensures Safe(task, blobs0) && blobs <= blobs0 && bytes == BytesOnDisk(task.inventory, blobs)
    {}

    /** Every blob on disk is in the inventory. */
    ghost predicate Inventoried(task: Task, sizes: map<Hash, nat>)
      reads this
    {
      Indexed(sizes, task.inventory) && blobs <= sizes.Keys
    }

    /** Every blob on disk has a live reference, or cannot be deleted. */
    ghost predicate AllNeeded(task: Task)
      reads this
    {
      forall h :: h in blobs ==> task.Keepers(states, h) > 0 || h in task.world.stuck
    }

    /** Delete one inventoried blob, keeping the byte count. */
    method DeleteBlob(task: Task, h: Hash, sizes: map<Hash, nat>, bytes: nat) returns (bytes': nat, removed: bool)
      requires DistinctHashes(task.inventory) && h in sizes
      requires Indexed(sizes, task.inventory)
      requires bytes == BytesOnDisk(task.inventory, blobs)
      modifies this`blobs
      ensures bytes' == BytesOnDisk(task.inventory, blobs)
      ensures removed == (h in old(blobs) && h !in task.world.stuck)
      ensures blobs == if removed then old(blobs) - {h} else old(blobs)
    {
      ghost var before := blobs;
      var r := RemoveBlobFile(h, task.world);
      bytes', removed := bytes, r == Removed;
      if removed {
        assert BlobEntry(h, sizes[h]) in task.inventory;
        ghost var i :| 0 <= i < |task.inventory| && task.inventory[i] == BlobEntry(h, sizes[h]);
        DeletionFreesItsBytes(task.inventory, before, i);
        // The decrement never saturates.
        assert sizes[h] <= bytes;
        bytes' := SaturatingSub(bytes, sizes[h]);
      }
    }

    /**
      Release the closure of the skill just claimed: one decrement a blob, deletion at zero. The
      counts were those of before the claim, and are those of after it in the end.
    */
    method ReleaseClosure(task: Task, ghost before: map<SkillId, SyncState>, closure: set<Hash>,
                          counts: map<Hash, nat>, sizes: map<Hash, nat>, bytes: nat, deleted: nat)
      returns (counts': map<Hash, nat>, bytes': nat, deleted': nat)
      requires DistinctHashes(task.inventory)
      requires Indexed(sizes, task.inventory)
      requires forall h :: Count(counts, h) == task.Keepers(before, h)
      requires forall h :: task.Keepers(before, h) == task.Keepers(states, h) + One(h in closure)
      requires bytes == BytesOnDisk(task.inventory, blobs) && Inventoried(task, sizes)
      modifies this`blobs
      ensures forall h :: Count(counts', h) == task.Keepers(states, h)
      ensures bytes' == BytesOnDisk(task.inventory, blobs)
      ensures blobs <= old(blobs)
      ensures forall h :: h in old(blobs) ==>
                (h in blobs <==> h !in closure || task.Keepers(states, h) > 0 || h in task.world.stuck)
      ensures deleted' == deleted + |old(blobs) - blobs|
    {
      hide BytesOnDisk, DistinctHashes, Indexed, Count, Task.Keepers;
      ghost var blobs1 := blobs;
      counts', bytes', deleted' := counts, bytes, deleted;
      var todo := closure;
      while todo != {}
        invariant todo <= closure
        invariant forall h :: Count(counts', h) == task.Keepers(states, h) + One(h in todo)
        invariant bytes' == BytesOnDisk(task.inventory, blobs)
        invariant blobs <= old(blobs) && Inventoried(task, sizes)
        invariant forall h :: h in blobs1 ==>
                    (h in blobs <==> h !in closure - todo || task.Keepers(states, h) > 0 || h in task.world.stuck)
        invariant deleted' == deleted + |old(blobs) - blobs|
        decreases |todo|
      {
        var h :| h in todo;
        ghost var held := blobs;
        assert Count(counts', h) >= 1;
        todo := todo - {h};
        counts', bytes', deleted' := ReleaseOne(task, h, counts', sizes, bytes', deleted');
        RemovedInTwo(old(blobs), held, blobs);
      }
    }

    /** One decrement, and deletion when the last reference is gone. */
    method ReleaseOne(task: Task, h: Hash, counts: map<Hash, nat>, sizes: map<Hash, nat>, bytes: nat, deleted: nat)
      returns (counts': map<Hash, nat>, bytes': nat, deleted': nat)
      requires DistinctHashes(task.inventory) && Indexed(sizes, task.inventory)
      requires Count(counts, h) >= 1 && task.Keepers(states, h) == Count(counts, h) - 1
      requires bytes == BytesOnDisk(task.inventory, blobs) && Inventoried(task, sizes)
      modifies this`blobs
      ensures forall k :: Count(counts', k) == Count(counts, k) - One(k == h)
      ensures bytes' == BytesOnDisk(task.inventory, blobs)
      ensures blobs <= old(blobs) && deleted' == deleted + |old(blobs) - blobs| && Inventoried(task, sizes)
      ensures forall k :: k in old(blobs) ==>
                (k in blobs <==> k != h || task.Keepers(states, h) > 0 || h in task.world.stuck)
    {
      bytes', deleted' := bytes, deleted;
      // Every blob of the closure is still counted for this skill: no saturation.
      counts' := counts[h := SaturatingSub(counts[h], 1)];
      if counts'[h] == 0 && h in sizes {
        var removed;
        bytes', removed := DeleteBlob(task, h, sizes, bytes');
        if removed {
          assert old(blobs) - blobs == {h};
          deleted' := deleted' + 1;
        }
      }
    }

    /** One skill's turn, once it is known to be evictable and resolved. */
    method EvictOne(task: Task, i: nat, ghost blobs0: set<Hash>, counts: map<Hash, nat>, sizes: map<Hash, nat>,
                    bytes: nat, deleted: nat)
      returns (r: Result<bool, Error>, counts': map<Hash, nat>, bytes': nat, deleted': nat)
      requires i < |task.skills| && DistinctIds(task.skills) && DistinctHashes(task.inventory)
      requires Inventoried(task, sizes)
      requires var skill := task.skills[i];
               && skill.id in states && states[skill.id] != RemoteOnly
               && skill.snapshotHash in task.world.closures
      requires Accounted(task, blobs0, counts, bytes)
      modifies this
      ensures r == if task.skills[i].id in task.world.broken then Err(LocalStore)
                   else Ok(Claimable(task.skills[i].id, task.skills[i].snapshotHash,
                                     old(states)[task.skills[i].id], task.world))
      ensures states == if r == Ok(true) then old(states)[task.skills[i].id := RemoteOnly] else old(states)
      ensures Accounted(task, blobs0, counts', bytes')
      ensures blobs <= old(blobs) && deleted' == deleted + |old(blobs) - blobs|
      ensures forall h :: h in old(blobs) ==>
                (h in blobs <==> || r != Ok(true) || !InClosure(task.world.closures, task.skills[i].snapshotHash, h)
                                 || task.Keepers(states, h) > 0 || h in task.world.stuck)
    {
      var skill := task.skills[i];
      ghost var before := states;
      counts', bytes', deleted' := counts, bytes, deleted;
      r := ClaimSkillForEviction(skill.id, skill.snapshotHash, task.world);
      if r == Ok(true) {
        forall h ensures task.Keepers(before, h)
                      == task.Keepers(states, h) + One(h in task.world.closures[skill.snapshotHash])
        {
          EvictionNeeds(task, before, i, h);
        }
        counts', bytes', deleted' := ReleaseClosure(task, before, task.world.closures[skill.snapshotHash],
                                                    counts, sizes, bytes, deleted);
      }
    }

    /**
      One skill's turn: evicted if it is evictable, resolved and claimed, and skipped otherwise; a
      database error ends the run.
    */
    method TakeTurn(task: Task, i: nat, ghost states0: map<SkillId, SyncState>, ghost blobs0: set<Hash>,
                    deployed: set<SkillId>, counts: map<Hash, nat>, sizes: map<Hash, nat>, bytes: nat, deleted: nat)
      returns (r: Result<bool, Error>, counts': map<Hash, nat>, bytes': nat, deleted': nat)
      requires i < |task.skills| && task.Valid(states0, blobs0) && deployed == DeployedIds(task.deployments)
      requires states == task.After(states0, i) && blobs == task.Held(states0, blobs0, i)
      requires Inventoried(task, sizes)
      requires Accounted(task, blobs0, counts, bytes)
      modifies this
      ensures r.Err? ==> states == old(states) && blobs == old(blobs)
      ensures r.Err? ==> r.error == LocalStore && task.skills[i].id in task.world.broken
      ensures r.Ok? ==> states == task.After(states0, i + 1) && blobs == task.Held(states0, blobs0, i + 1)
      ensures r.Ok? ==> r.value == Yields(task.skills[i], states0, deployed, task.world)
      ensures r == Ok(true) ==> task.skills[i].id !in task.world.broken
      ensures Accounted(task, blobs0, counts', bytes') && Inventoried(task, sizes)
      ensures deleted' + |blobs0 - old(blobs)| == deleted + |blobs0 - blobs|
    {
      hide Accounted, Safe, Indexed, Task.Held, InClosure, Task.Keepers, DeployedIds, BytesOnDisk, DistinctHashes;
      var skill := task.skills[i];
      counts', bytes', deleted' := counts, bytes, deleted;
      UnvisitedKeepsState(task, states0, i, i);
      r := Ok(false);
      if IsEvictable(skill, states[skill.id], deployed, task.world) && skill.snapshotHash in task.world.closures {
        AccountedIsSafe(task, blobs0, counts, bytes);
        r, counts', bytes', deleted' := EvictOne(task, i, blobs0, counts, sizes, bytes, deleted);
        AccountedIsSafe(task, blobs0, counts', bytes');
        RemovedInTwo(blobs0, old(blobs), blobs);
      }
      if r == Ok(true) {
        forall h ensures h in blobs <==> h in task.Held(states0, blobs0, i + 1) {
          HeldStep(task, states0, blobs0, i, h);
        }
      } else if r.Ok? {
        HeldOver(task, states0, blobs0, i);
      }
    }

    /** The eviction loop, in the order given: least recently used first, while above budget. */
    method EvictSkills(task: Task, counts: map<Hash, nat>, sizes: map<Hash, nat>, report: Report)
      returns (r: Result<Report, Error>, counts': map<Hash, nat>, ghost n: nat)
      requires task.Valid(states, blobs) && report.evicted == []
      requires Inventoried(task, sizes)
      requires Accounted(task, blobs, counts, report.afterBytes)
      modifies this
      ensures n <= |task.skills| && states == task.After(old(states), n)
      ensures blobs == task.Held(old(states), old(blobs), n)
      ensures forall k :: 0 <= k < n ==> task.TurnIsDue(old(states), old(blobs), k)
      ensures Safe(task, old(blobs)) && Inventoried(task, sizes)
      ensures r.Ok? ==>
                && Accounted(task, old(blobs), counts', r.value.afterBytes)
                && r.value.evicted == task.Yielding(old(states), n)
                && r.value.skipped == task.Spared(old(states), n)
                && (n < |task.skills| ==> r.value.afterBytes <= task.budget)
                && r.value.budget == report.budget && r.value.beforeBytes == report.beforeBytes
                && r.value.deletedBlobs == report.deletedBlobs + |old(blobs) - blobs|
      ensures r.Err? ==> r.error == LocalStore && n < |task.skills| && task.skills[n].id in task.world.broken
    {
      hide Accounted, Safe, Inventoried, DistinctIds, DistinctHashes, Task.Held, Yields, Task.After, Task.Yielding,
           Task.Spared, BytesOnDisk;
      var deployed := DeployedIds(task.deployments);
      var bytes: nat, deleted: nat := report.afterBytes, report.deletedBlobs;
      var evicted, skipped := [], [];
      counts' := counts;
      n := 0;
      var i := 0;
      task.NoTurns(states, blobs);
      AccountedIsSafe(task, blobs, counts, bytes);
      while i < |task.skills| && bytes > task.budget
        invariant 0 <= i == n <= |task.skills|
        invariant states == task.After(old(states), i) && blobs == task.Held(old(states), old(blobs), i)
        invariant Accounted(task, old(blobs), counts', bytes) && Inventoried(task, sizes)
        invariant forall k :: 0 <= k < i ==> task.TurnIsDue(old(states), old(blobs), k)
        invariant evicted == task.Yielding(old(states), i) && skipped == task.Spared(old(states), i)
        invariant deleted == report.deletedBlobs + |old(blobs) - blobs|
      {
        AccountedIsSafe(task, old(blobs), counts', bytes);
        task.YieldingStep(old(states), i);
        var claimed;
        claimed, counts', bytes, deleted :=
          TakeTurn(task, i, old(states), old(blobs), deployed, counts', sizes, bytes, deleted);
        AccountedIsSafe(task, old(blobs), counts', bytes);
        if claimed.Err? {
          return Err(claimed.error), counts', i;
        }
        if claimed.value {
          evicted := evicted + [task.skills[i].id];
        } else {
          skipped := skipped + [task.skills[i].id];
        }
        i, n := i + 1, n + 1;
      }
      AccountedIsSafe(task, old(blobs), counts', bytes);
      r := Ok(report.(afterBytes := bytes, evicted := evicted, skipped := skipped, deletedBlobs := deleted));
    }

    /** The inventoried blobs up to `i` that are left are needed or undeletable. */
    ghost predicate SweptUpTo(task: Task, i: nat)
      requires i <= |task.inventory|
      reads this
    {
      forall k :: 0 <= k < i && task.inventory[k].hash in blobs ==>
        task.Keepers(states, task.inventory[k].hash) > 0 || task.inventory[k].hash in task.world.stuck
    }

    /** Blobs went after the evictions only above budget, with every snapshot readable, and none too many. */
    ghost predicate SweptOnlyIfDue(task: Task, states0: map<SkillId, SyncState>, held: set<Hash>)
      reads this
    {
      && blobs <= held && SweptNoFurther(task, held, blobs)
      && (blobs != held ==> task.AllReadable(states0))
    }

    lemma NothingSwept(task: Task, states0: map<SkillId, SyncState>)
      ensures SweptUpTo(task, 0) && SweptNoFurther(task, blobs, blobs) && SweptOnlyIfDue(task, states0, blobs)
    {}

    lemma SweptWhenDue(task: Task, states0: map<SkillId, SyncState>, held: set<Hash>)
      requires blobs <= held && SweptNoFurther(task, held, blobs) && task.AllReadable(states0)
      ensures SweptOnlyIfDue(task, states0, held)
    {}

    /** The turn of one blob in the orphan sweep. */
    method SweepOne(task: Task, i: nat, ghost blobs0: set<Hash>, counts: map<Hash, nat>, sizes: map<Hash, nat>,
                    bytes: nat, deleted: nat)
      returns (bytes': nat, deleted': nat)
      requires i < |task.inventory| && DistinctHashes(task.inventory)
      requires Indexed(sizes, task.inventory)
      requires Accounted(task, blobs0, counts, bytes) && SweptUpTo(task, i)
      modifies this`blobs
      ensures Accounted(task, blobs0, counts, bytes') && SweptUpTo(task, i + 1)
      ensures blobs <= old(blobs) && deleted' == deleted + |old(blobs) - blobs|
      ensures blobs == old(blobs) || (exists h :: h in old(blobs) && h !in blobs && blobs + {h} == old(blobs))
    {
      bytes', deleted' := bytes, deleted;
      var h := task.inventory[i].hash;
      assert task.inventory[i] in task.inventory;
      if Count(counts, h) == 0 {
        var removed;
        bytes', removed := DeleteBlob(task, h, sizes, bytes');
        if removed {
          deleted' := deleted' + 1;
          assert old(blobs) - blobs == {h} && blobs + {h} == old(blobs);
        }
      }
    }

    /** The orphan sweep: blobs of no counted reference, in inventory order, until within budget. */
    method SweepOrphans(task: Task, ghost blobs0: set<Hash>, counts: map<Hash, nat>, sizes: map<Hash, nat>,
                        bytes: nat, deleted: nat)
      returns (bytes': nat, deleted': nat)
      requires DistinctHashes(task.inventory) && Indexed(sizes, task.inventory)
      requires Accounted(task, blobs0, counts, bytes)
      modifies this`blobs
      ensures Accounted(task, blobs0, counts, bytes')
      ensures blobs <= old(blobs) && deleted' == deleted + |old(blobs) - blobs|
      ensures bytes' > task.budget ==> SweptUpTo(task, |task.inventory|)
      ensures SweptNoFurther(task, old(blobs), blobs)
    {
      hide SweptNoFurther, Accounted, SweptUpTo, Indexed, DistinctHashes;
      bytes', deleted' := bytes, deleted;
      var i := 0;
      NothingSwept(task, states);
      while i < |task.inventory| && bytes' > task.budget
        invariant 0 <= i <= |task.inventory|
        invariant Accounted(task, blobs0, counts, bytes') && SweptUpTo(task, i)
        invariant blobs <= old(blobs) && deleted' == deleted + |old(blobs) - blobs|
        invariant SweptNoFurther(task, old(blobs), blobs)
      {
        ghost var held := blobs;
        AccountedIsSafe(task, blobs0, counts, bytes');
        bytes', deleted' := SweepOne(task, i, blobs0, counts, sizes, bytes', deleted');
        SweptOneMore(task, old(blobs), held, blobs);
        RemovedInTwo(old(blobs), held, blobs);
        i := i + 1;
      }
    }

    /** Sizes by hash. */
    method IndexInventory(inventory: seq<BlobEntry>) returns (sizes: map<Hash, nat>)
      requires DistinctHashes(inventory)
      ensures Indexed(sizes, inventory)
    {
      sizes := map[];
      for i := 0 to |inventory|
        invariant Indexed(sizes, inventory[..i])
      {
        IndexStep(inventory, i, sizes);
        sizes := sizes[inventory[i].hash := inventory[i].sizeBytes];
      }
      assert inventory[..|inventory|] == inventory;
    }

    /** The checked sum over the inventory. */
    method SumInventory(inventory: seq<BlobEntry>) returns (r: Result<nat, Error>)
      ensures var all := BytesOnDisk(inventory, set e | e in inventory :: e.hash);
              r == if all <= U64_MAX then Ok(all) else Err(SizeOverflow)
    {
      ghost var hashes := set e | e in inventory :: e.hash;
      var total := 0;
      for i := 0 to |inventory|
        invariant total == BytesOnDisk(inventory[..i], hashes) <= U64_MAX
      {
        assert inventory[i] in inventory && inventory[i].hash in hashes;
        assert inventory[..i + 1][..i] == inventory[..i];
        BytesGrow(inventory, i + 1, hashes);
        if total + inventory[i].sizeBytes > U64_MAX {
          return Err(SizeOverflow);
        }
        total := total + inventory[i].sizeBytes;
      }
      assert inventory[..|inventory|] == inventory;
      r := Ok(total);
    }

    /** The reference counts of the live references, and whether all of them resolve. */
    method CountLive(task: Task) returns (counts: map<Hash, nat>, resolved: bool)
      ensures forall h :: Count(counts, h) == task.Keepers(states, h)
      ensures resolved == task.AllReadable(states)
    {
      var skillRefs, deploymentRefs := SkillRefs(task.skills, states), DeploymentRefs(task.deployments);
      var tally := Tally(map[], [], skillRefs);
      assert [] + skillRefs == skillRefs;
      tally := Tally(tally, skillRefs, deploymentRefs);
      tally := Tally(tally, skillRefs + deploymentRefs, task.payloads);
      counts := CountReferences(tally, task.world.closures, task.Refs(states));
      resolved := forall s | s in tally.Keys :: s in task.world.closures;
    }

    /**
      `enforce_cache_budget`. Whatever happens, also when a claim fails with a database error
      half-way:
      - no blob goes that a skill, a deployment or a pending mutation that is left needs;
      - only skills that nothing protects become remote-only, and of the skills, least recently used
        first, exactly those of a prefix; every turn was due, the blobs left by the turns before it
        being above budget.
      When the run completes, the byte count is exactly what is on disk; turns were left out only
      because the budget was met; the evictions took exactly the blobs they made needless; and a
      cache still above budget with every snapshot readable holds nothing but needed or undeletable
      blobs.
    */
    method EnforceCacheBudget(task: Task) returns (r: Result<Report, Error>, ghost n: nat)
      requires task.Valid(states, blobs)
      modifies this
      ensures n <= |task.Sorted().skills| && states == task.Sorted().After(old(states), n)
      ensures forall k :: 0 <= k < n ==> task.Sorted().TurnIsDue(old(states), old(blobs), k)
      ensures states.Keys == old(states).Keys
      ensures forall id :: id in old(states) && states[id] != old(states)[id] ==>
                exists x :: x in task.skills && x.id == id
      ensures forall x :: x in task.skills && states[x.id] != old(states)[x.id] ==>
                && old(states)[x.id] == Synced && states[x.id] == RemoteOnly
                && x.hasRemoteId && !x.pinned && x.snapshotHash in task.world.closures
                && x.id !in task.world.workspaces
                && (forall d :: d in task.deployments ==> d.skill != x.id)
                && x.id in task.world.rows && task.world.rows[x.id] == ClaimRow(x.snapshotHash, true, false, false)
      ensures forall k :: 0 <= k < n ==>
                var x := task.Sorted().skills[k];
                || x.id !in states || states[x.id] == RemoteOnly
                || old(states)[x.id] != Synced
                || !x.hasRemoteId || x.pinned || x.snapshotHash !in task.world.closures
                || x.id in task.world.workspaces
                || (exists d :: d in task.deployments && d.skill == x.id)
                || x.id !in task.world.rows || task.world.rows[x.id] != ClaimRow(x.snapshotHash, true, false, false)
      ensures EvictedOldestFirst(task, old(states), task.Sorted().Yielding(old(states), n))
      ensures blobs <= old(blobs)
      ensures forall h :: h in old(blobs) && h !in blobs ==>
                && (forall x :: x in task.skills && states[x.id] != RemoteOnly ==>
                      !InClosure(task.world.closures, x.snapshotHash, h))
                && (forall d :: d in task.deployments ==> !InClosure(task.world.closures, d.deployedHash, h))
                && (forall p :: p in task.payloads ==> !InClosure(task.world.closures, p, h))
      ensures r.Ok? ==>
                && r.value.budget == task.budget
                && r.value.beforeBytes == BytesOnDisk(task.inventory, old(blobs))
                && r.value.afterBytes == BytesOnDisk(task.inventory, blobs)
                && r.value.deletedBlobs == |old(blobs) - blobs|
                && r.value.evicted == task.Sorted().Yielding(old(states), n)
                && r.value.skipped == task.Sorted().Spared(old(states), n)
                && (n < |task.Sorted().skills| ==> r.value.afterBytes <= task.budget)
                && SweptOnlyIfDue(task.Sorted(), old(states), task.Sorted().Held(old(states), old(blobs), n))
                && (r.value.afterBytes > task.budget && task.Sorted().AllReadable(old(states))
                    ==> AllNeeded(task.Sorted()))
                && (r.value.beforeBytes <= task.budget ==> states == old(states) && blobs == old(blobs))
      ensures r == Err(SizeOverflow) <==> BytesOnDisk(task.inventory, old(blobs)) > U64_MAX
      ensures r == Err(LocalStore) ==>
                && n < |task.Sorted().skills| && task.Sorted().skills[n].id in task.world.broken
                && blobs == task.Sorted().Held(old(states), old(blobs), n)
    {
      hide LruOrder, Task.After, Task.Held, EvictedOldestFirst, Task.AllReadable, Task.TurnIsDue, AllNeeded,
           SweptOnlyIfDue, Safe, InClosure, Task.Yielding, Task.Spared, BytesOnDisk, DistinctIds, DistinctHashes;
      ghost var states0, blobs0 := states, blobs;
      n := 0;
      var lru := task.Sorted();
      SortedIsValid(task, states, blobs);
      Idle(lru);
      ChangesAreFair(task, states, 0);
      EvictionIsOldestFirst(task, states, 0);
      var before := SumInventory(task.inventory);
      if before.Err? {
        return Err(before.error), 0;
      }
      var report := Report(task.budget, before.value, before.value, [], [], 0);
      if before.value <= task.budget {
        return Ok(report), 0;
      }
      r, n := Shrink(lru, report);
      ChangesAreFair(task, states0, n);
      NeededBlobsStay(task, blobs0);
      EvictionIsOldestFirst(task, states0, n);
    }

    /** A run without turns and without a sweep. */
    lemma Idle(task: Task)
      ensures task.Yielding(states, 0) == task.Spared(states, 0) == [] && task.After(states, 0) == states
      ensures SweptOnlyIfDue(task, states, task.Held(states, blobs, 0))
    {
      task.NoTurns(states, blobs);
    }

    /** The run proper, on a cache above budget. */
    method Shrink(task: Task, report: Report) returns (r: Result<Report, Error>, ghost n: nat)
      requires task.Valid(states, blobs)
      requires report.evicted == [] && report.deletedBlobs == 0 && report.budget == task.budget
      requires report.afterBytes == BytesOnDisk(task.inventory, blobs)
      modifies this
      ensures n <= |task.skills| && states == task.After(old(states), n)
      ensures forall k :: 0 <= k < n ==> task.TurnIsDue(old(states), old(blobs), k)
      ensures Safe(task, old(blobs)) && blobs <= old(blobs)
      ensures r.Ok? ==>
                && r.value.budget == task.budget && r.value.beforeBytes == report.beforeBytes
                && r.value.afterBytes == BytesOnDisk(task.inventory, blobs)
                && r.value.deletedBlobs == |old(blobs) - blobs|
                && r.value.evicted == task.Yielding(old(states), n)
                && r.value.skipped == task.Spared(old(states), n)
                && (n < |task.skills| ==> r.value.afterBytes <= task.budget)
                && SweptOnlyIfDue(task, old(states), task.Held(old(states), old(blobs), n))
                && (r.value.afterBytes > task.budget && task.AllReadable(old(states)) ==> AllNeeded(task))
      ensures r.Err? ==>
                && r.error == LocalStore && n < |task.skills| && task.skills[n].id in task.world.broken
                && blobs == task.Held(old(states), old(blobs), n)
    {
      ghost var blobs0 := blobs;
      var sizes := IndexInventory(task.inventory);
      var counts, resolved := CountLive(task);
      StartsAccounted(task, counts, sizes, report.afterBytes);
      hide Indexed, Inventoried, Accounted, Safe, SweptOnlyIfDue, Task.Keepers, DistinctIds, DistinctHashes, AllNeeded,
           Task.Yielding, Task.Spared, Task.Held, Task.After, Task.AllReadable, Task.TurnIsDue, BytesOnDisk;
      var evicted, counts';
      evicted, counts', n := EvictSkills(task, counts, sizes, report);
      if evicted.Err? {
        return evicted, n;
      }
      var swept := SweepRest(task, old(states), old(blobs), resolved, counts', sizes, evicted.value);
      r := Ok(swept);
    }

    /** The end of the run: if the evictions were not enough and every snapshot resolves, the sweep. */
    method SweepRest(task: Task, ghost states0: map<SkillId, SyncState>, ghost blobs0: set<Hash>, resolved: bool,
                     counts: map<Hash, nat>, sizes: map<Hash, nat>, report: Report)
      returns (report': Report)
      requires DistinctHashes(task.inventory) && Inventoried(task, sizes) && resolved == task.AllReadable(states0)
      requires Accounted(task, blobs0, counts, report.afterBytes) && report.deletedBlobs == |blobs0 - blobs|
      modifies this`blobs
      ensures Safe(task, blobs0) && blobs <= blobs0
      ensures report' == report.(afterBytes := BytesOnDisk(task.inventory, blobs), deletedBlobs := |blobs0 - blobs|)
      ensures report.afterBytes <= task.budget ==> report'.afterBytes <= task.budget
      ensures SweptOnlyIfDue(task, states0, old(blobs))
      ensures report'.afterBytes > task.budget && task.AllReadable(states0) ==> AllNeeded(task)
    {
      hide Indexed, Accounted, Safe, SweptUpTo, SweptOnlyIfDue, Task.Keepers, Task.AllReadable, BytesOnDisk, AllNeeded,
           SweptNoFurther;
      ghost var held := blobs;
      var bytes, deleted := report.afterBytes, report.deletedBlobs;
      NothingSwept(task, states0);
      AccountedIsSafe(task, blobs0, counts, bytes);
      if bytes > task.budget && resolved {
        bytes, deleted := SweepOrphans(task, blobs0, counts, sizes, bytes, deleted);
        AccountedIsSafe(task, blobs0, counts, bytes);
        RemovedInTwo(blobs0, held, blobs);
        SweptWhenDue(task, states0, held);
        if bytes > task.budget {
          SweptAll(task, sizes);
        }
      }
      report' := report.(afterBytes := bytes, deletedBlobs := deleted);
    }

    lemma SweptAll(task: Task, sizes: map<Hash, nat>)
      requires Inventoried(task, sizes) && SweptUpTo(task, |task.inventory|)
      ensures AllNeeded(task)
    {
      forall h | h in blobs ensures task.Keepers(states, h) > 0 || h in task.world.stuck {
        var e := BlobEntry(h, sizes[h]);
        assert e in task.inventory;
        var k :| 0 <= k < |task.inventory| && task.inventory[k] == e;
      }
    }

    /** A blob that is gone is in no closure of a live reference. */
    lemma NeededBlobsStay(task: Task, blobs0: set<Hash>)
      requires Safe(task.Sorted(), blobs0)
      requires forall x :: x in task.skills ==> x.id in states
      ensures forall h :: h in blobs0 && h !in blobs ==>
                && (forall x :: x in task.skills && states[x.id] != RemoteOnly ==>
                      !InClosure(task.world.closures, x.snapshotHash, h))
                && (forall d :: d in task.deployments ==> !InClosure(task.world.closures, d.deployedHash, h))
                && (forall p :: p in task.payloads ==> !InClosure(task.world.closures, p, h))
    {
      hide LruOrder, Task.Refs;
      SortedRefs(task, states);
      forall h, s | h in blobs0 && s in task.Refs(states) && InClosure(task.world.closures, s, h)
        ensures h in blobs
      {
        NeedsIffReferenced(task.Sorted().Refs(states), task.world.closures, h);
      }
      forall s ensures s in task.Refs(states) <==>
          || (exists x :: x in task.skills && x.id in states && states[x.id] != RemoteOnly && x.snapshotHash == s)
          || (exists d :: d in task.deployments && d.deployedHash == s)
          || s in task.payloads
      {
        RefsAre(task, states, s);
      }
    }
  }
}
