/** The shared mutation service, step by step on the tables of a session. */
module SkillMutations {
  import opened Prelude
  import opened SkillHistory

  /** What the tables are after a transaction that ended with `failure`, if any. */
  predicate Transacts(before: Db, op: Op, failure: Option<Error>, after: Db) {
    match Apply(before, op)
    case Ok(db) => failure == None && after == db
    case Err(error) => failure == Some(error) && after == before
  }

  class SkillMutationService {
    var skills: map<Id, Skill>
    var next: Id
    var changes: seq<Change>

    constructor ()
      ensures Tables() == Db(map[], 0, [])
    {
      skills, next, changes := map[], 0, [];
    }

    function Tables(): Db
      reads this
    {
      Db(skills, next, changes)
    }

    method EmitChangeEvent(id: Id, operation: Operation)
      requires id in skills
      modifies this`changes
      ensures changes == old(changes) + [Event(id, skills[id], operation)]
    {
      changes := changes + [Change(id, skills[id].revision, operation, ShownOf(skills[id]))];
    }

    /** Adds a version row and makes it current; the revision is the caller's to set. */
    method CreateVersionRow(skill: Skill, v: NewVersion) returns (s: Skill)
      ensures s.(revision := skill.revision + 1) == WithVersion(skill, v) && s.revision == skill.revision
    {
      var row := Version(v.name, skill.revision + 1, v.content, v.package, v.status, []);
      s := skill.(versions := skill.versions + [row]);
      s := s.(current := |skill.versions|);
      s := s.(package := v.package);
    }

    method CreateSkill(n: NewSkill) returns (failure: Option<Error>)
      modifies this
      ensures Transacts(old(Tables()), Create(n), failure, Tables())
      ensures failure.None? ==> old(next) in skills
    {
      if n.kind == OfGroup && n.group.None? {
        return Some(GroupRequired);
      }
      if n.kind != OfGroup && n.group.Some? {
        return Some(GroupScopeInvalid);
      }
      if !SlugFree(skills, n) {
        return Some(SlugNotUnique);
      }
      var id := next;
      var skill := Skill(n.owner, n.kind, n.group, n.slug, n.details, n.status, false, 1, 0, n.version.package, []);
      var first := Version(n.version.name, skill.revision, n.version.content, n.version.package, n.version.status, []);
      skill := skill.(versions := [first]);
      skills, next := skills[id := skill], next + 1;
      EmitChangeEvent(id, Upsert);
      return None;
    }

    /** Sets every given attribute that differs. */
    method AssignUpdates(skill: Skill, updates: Updates) returns (s: Skill, changed: bool)
      ensures s == WithUpdates(skill, updates) && (changed <==> s != skill)
    {
      var d := skill.details;
      changed := false;
      if updates.name.Some? && d.name != updates.name.value {
        d, changed := d.(name := updates.name.value), true;
      }
      if updates.description.Some? && d.description != updates.description.value {
        d, changed := d.(description := updates.description.value), true;
      }
      if updates.category.Some? && d.category != updates.category.value {
        d, changed := d.(category := updates.category.value), true;
      }
      if updates.tags.Some? && d.tags != updates.tags.value {
        d, changed := d.(tags := updates.tags.value), true;
      }
      assert changed <==> d != skill.details;
      s := skill.(details := d);
      if updates.status.Some? && s.status != updates.status.value {
        s, changed := s.(status := updates.status.value), true;
      }
    }

    method UpdateSkill(id: Id, updates: Updates, content: Option<NewVersion>, demote: bool)
      returns (failure: Option<Error>)
      requires id in skills
      modifies this
      ensures Transacts(old(Tables()), On(id, Update(updates, content, demote)), failure, Tables())
    {
      var skill, changed := AssignUpdates(skills[id], updates);
      if content.Some? {
        changed := true;
        var version := content.value;
        if version.name == "" {
          version := version.(name := NextVersionName(skill));
        }
        if NameTaken(skill, version.name) {
          return Some(VersionExists);
        }
        skill := CreateVersionRow(skill, version);
        if demote && skill.status == Published {
          skill := skill.(status := Draft);
        }
      }
      if changed {
        skill := skill.(revision := skill.revision + 1);
      }
      skills := skills[id := skill];
      if changed {
        EmitChangeEvent(id, Upsert);
      }
      return None;
    }

    method CreateVersion(id: Id, v: NewVersion, publish: bool, demote: bool) returns (failure: Option<Error>)
      requires id in skills
      modifies this
      ensures Transacts(old(Tables()), On(id, Edit.CreateVersion(v, publish, demote)), failure, Tables())
    {
      var skill := skills[id];
      if NameTaken(skill, v.name) {
        return Some(VersionExists);
      }
      var nextRevision := skill.revision + 1;
      skill := CreateVersionRow(skill, v);
      skill := skill.(revision := nextRevision);
      if publish {
        skill := skill.(status := Published);
      } else if demote && skill.status == Published {
        skill := skill.(status := Draft);
      }
      skills := skills[id := skill];
      EmitChangeEvent(id, Upsert);
      return None;
    }

    method PublishVersion(id: Id, v: VersionId) returns (failure: Option<Error>)
      requires id in skills && (v.skill == id ==> v.index < |skills[id].versions|)
      modifies this
      ensures Transacts(old(Tables()), On(id, Publish(v)), failure, Tables())
    {
      if v.skill != id {
        return Some(VersionNotFound);
      }
      var skill := skills[id];
      var version := skill.versions[v.index];
      var changed :=
        || version.status != Published || skill.current != v.index
        || skill.status != Published || skill.package != version.package;
      version := version.(status := Published);
      skill := skill.(versions := skill.versions[v.index := version]);
      skill := skill.(current := v.index, package := version.package);
      skill := skill.(status := Published);
      assert !changed ==> skill.versions == skills[id].versions;
      assert changed <==> skill != skills[id] by {
        assert skill.versions[v.index] == version;
      }
      if changed {
        skill := skill.(revision := skill.revision + 1);
      }
      skills := skills[id := skill];
      if changed {
        EmitChangeEvent(id, Upsert);
      }
      return None;
    }

    method SetStatus(id: Id, status: Status) returns (failure: Option<Error>)
      requires id in skills
      modifies this
      ensures Transacts(old(Tables()), On(id, Edit.SetStatus(status)), failure, Tables())
    {
      var before := skills[id].status;
      if before != status {
        var skill := skills[id].(status := status);
        skills := skills[id := skill.(revision := skill.revision + 1)];
        EmitChangeEvent(id, Upsert);
      } else {
        assert skills[id := skills[id]] == skills;
      }
      return None;
    }

    method SoftDelete(id: Id) returns (failure: Option<Error>)
      requires id in skills
      modifies this
      ensures Transacts(old(Tables()), On(id, Edit.SoftDelete), failure, Tables())
      ensures failure.None? && skills.Keys == old(skills).Keys && next == old(next)
    {
      var skill := skills[id];
      var deleted := skill.status != Deleted || !skill.trashed;
      if deleted {
        skill := skill.(status := Deleted);
        skill := skill.(trashed := true);
        skill := skill.(revision := skill.revision + 1);
      }
      assert deleted || skills[id := skill] == skills;
      skills := skills[id := skill];
      if deleted {
        EmitChangeEvent(id, Delete);
      }
      return None;
    }

    method RestoreSkill(id: Id) returns (failure: Option<Error>)
      requires id in skills
      modifies this
      ensures Transacts(old(Tables()), On(id, Restore), failure, Tables())
    {
      var skill := skills[id];
      if skill.status != Deleted {
        return Some(SkillNotDeleted);
      }
      skill := skill.(status := Draft, trashed := false);
      skill := skill.(revision := skill.revision + 1);
      skills := skills[id := skill];
      EmitChangeEvent(id, Upsert);
      return None;
    }

    method PurgeSkill(id: Id) returns (failure: Option<Error>)
      requires id in skills
      modifies this
      ensures Transacts(old(Tables()), Purge(id), failure, Tables())
    {
      if skills[id].status != Deleted || !skills[id].trashed {
        return Some(SkillNotDeleted);
      }
      EmitChangeEvent(id, Delete);
      skills := skills - {id};
      return None;
    }

    /** The check that no other version carries one of the labels. */
    method VersionTagsFree(skill: Skill, index: nat, labels: seq<string>) returns (free: bool)
      requires index < |skill.versions|
      ensures free <==> LabelsFree(skill, index, labels)
    {
      if labels == [] {
        return true;
      }
      for i := 0 to |skill.versions|
        invariant forall k :: 0 <= k < i && skill.versions[k].name != skill.versions[index].name ==>
                    Disjoint(labels, skill.versions[k].labels)
      {
        if skill.versions[i].name != skill.versions[index].name && !Disjoint(labels, skill.versions[i].labels) {
          return false;
        }
      }
      return true;
    }

    method SetVersionTags(id: Id, v: VersionId, labels: seq<string>) returns (failure: Option<Error>)
      requires id in skills && (v.skill == id ==> v.index < |skills[id].versions|)
      modifies this
      ensures Transacts(old(Tables()), On(id, Edit.SetVersionTags(v, labels)), failure, Tables())
    {
      if v.skill != id {
        return Some(VersionNotFound);
      }
      var cleaned := Clean(labels);
      var skill := skills[id];
      var free := VersionTagsFree(skill, v.index, cleaned);
      if !free {
        return Some(VersionTagTaken);
      }
      var version := skill.versions[v.index];
      var changed := version.labels != cleaned;
      version := version.(labels := cleaned);
      skill := skill.(versions := skill.versions[v.index := version]);
      assert !changed ==> skill.versions == skills[id].versions;
      if changed {
        skill := skill.(revision := skill.revision + 1);
      }
      assert !changed ==> skills[id := skill] == skills;
      skills := skills[id := skill];
      if changed {
        EmitChangeEvent(id, Upsert);
      }
      return None;
    }

    /** Drops empty labels and keeps the first of equal ones. */
    method Clean(labels: seq<string>) returns (cleaned: seq<string>)
      ensures cleaned == Cleaned(labels)
    {
      cleaned := [];
      for i := 0 to |labels|
        invariant cleaned == Cleaned(labels[..i])
      {
        assert labels[..i + 1][..i] == labels[..i];
        if labels[i] != "" && labels[i] !in cleaned {
          cleaned := cleaned + [labels[i]];
        }
      }
      assert labels[..|labels|] == labels;
    }

    method RollbackVersion(id: Id, v: VersionId) returns (failure: Option<Error>)
      requires id in skills && (v.skill == id ==> v.index < |skills[id].versions|)
      modifies this
      ensures Transacts(old(Tables()), On(id, Rollback(v)), failure, Tables())
    {
      if v.skill != id {
        return Some(VersionNotFound);
      }
      var skill := skills[id];
      var name := NextVersionName(skill);
      if NameTaken(skill, name) {
        return Some(VersionExists);
      }
      var source := skill.versions[v.index];
      skill := CreateVersionRow(skill, NewVersion(name, source.content, source.package, Draft));
      skill := skill.(revision := skill.revision + 1);
      if skill.status == Published {
        skill := skill.(status := Draft);
      }
      skills := skills[id := skill];
      EmitChangeEvent(id, Upsert);
      return None;
    }
  }
}
