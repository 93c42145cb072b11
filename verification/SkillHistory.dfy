/**
  The one mutation path for skills: every mutation that shows bumps the skill's revision by one
  and appends one change-log row that carries it.
*/
module SkillHistory {
  import opened Prelude
  import opened VersionNames

  type Id = nat

  datatype Status = Draft | Published | Disabled | Archived | Deleted

  datatype Kind = Private | Global | OfGroup

  /** A version row. Its id is its skill and its place among the skill's versions. */
  datatype Version = Version(name: string, revision: nat, content: string, package: Option<string>,
                             status: Status, labels: seq<string>)

  datatype VersionId = VersionId(skill: Id, index: nat)

  datatype Details = Details(name: string, description: string, category: string, tags: seq<string>)

  /** A skill row with its versions; `trashed` says that its deletion time is set. */
  datatype Skill = Skill(owner: Option<string>, kind: Kind, group: Option<string>, slug: string, details: Details,
                         status: Status, trashed: bool, revision: nat, current: nat, package: Option<string>,
                         versions: seq<Version>)

  datatype Operation = Upsert | Delete

  /** What a change-log row shows of a skill. */
  datatype Shown = Shown(owner: Option<string>, kind: Kind, group: Option<string>, slug: string, details: Details,
                         status: Status, package: Option<string>)

  datatype Change = Change(skill: Id, revision: nat, operation: Operation, shown: Shown)

  datatype Error = VersionNotFound | VersionExists | VersionTagTaken | SkillNotDeleted | SkillNotFound
                 | GroupRequired | GroupScopeInvalid | SlugNotUnique

  /** The skill tables and the change log; ids below `next` have been given out. */
  datatype Db = Db(skills: map<Id, Skill>, next: Id, changes: seq<Change>)

  // ---- One skill ----------------------------------------------------------------------------

  /** A version to be written; `package` is the identity its content resolves to. An update may leave its name empty. */
  datatype NewVersion = NewVersion(name: string, content: string, package: Option<string>, status: Status)

  datatype Updates = Updates(name: Option<string>, description: Option<string>, category: Option<string>,
                             tags: Option<seq<string>>, status: Option<Status>)

  datatype Edit =
    | Update(updates: Updates, content: Option<NewVersion>, demote: bool)
    | CreateVersion(version: NewVersion, publish: bool, demotePublished: bool)
    | Publish(target: VersionId)
    | SetStatus(status: Status)
    | SoftDelete
    | Restore
    | SetVersionTags(target: VersionId, labels: seq<string>)
    | Rollback(target: VersionId)

  function Or<T>(o: Option<T>, otherwise: T): T {
    if o.Some? then o.value else otherwise
  }

  function WithUpdates(s: Skill, u: Updates): Skill {
    var d := s.details;
    s.(details := Details(Or(u.name, d.name), Or(u.description, d.description), Or(u.category, d.category),
                          Or(u.tags, d.tags)),
       status := Or(u.status, s.status))
  }

  predicate NameTaken(s: Skill, name: string) {
    exists i :: 0 <= i < |s.versions| && s.versions[i].name == name
  }

  /** `next_patch_version`: the patch after the current version, which need not be the latest one. */
  function NextVersionName(s: Skill): string {
    if s.current < |s.versions| then NextPatch(s.versions[s.current].name) else FIRST_VERSION
  }

  /** The version an update writes: under its own name, or under the next one. */
  function NamedFor(s: Skill, v: NewVersion): NewVersion {
    if v.name == "" then v.(name := NextVersionName(s)) else v
  }

  /** The skill with a further version, current from now on. */
  function WithVersion(s: Skill, v: NewVersion): Skill {
    s.(versions := s.versions + [Version(v.name, s.revision + 1, v.content, v.package, v.status, [])],
       current := |s.versions|, package := v.package, revision := s.revision + 1)
  }

  function Demoted(s: Skill, demote: bool): Skill {
    if demote && s.status == Published then s.(status := Draft) else s
  }

  function Bumped(s: Skill): Skill { s.(revision := s.revision + 1) }

  predicate Owns(id: Id, s: Skill, v: VersionId) { v.skill == id && v.index < |s.versions| }

  /** The labels without empty ones and repetitions, in order of first appearance. */
  function Cleaned(labels: seq<string>): seq<string> {
    if labels == [] then []
    else
      var front, last := Cleaned(labels[..|labels| - 1]), labels[|labels| - 1];
      if last == "" || last in front then front else front + [last]
  }

  /** None of the labels is on a version with another name than version `index`. */
  predicate LabelsFree(s: Skill, index: nat, labels: seq<string>)
    requires index < |s.versions|
  {
    forall i :: 0 <= i < |s.versions| && s.versions[i].name != s.versions[index].name ==>
      Disjoint(labels, s.versions[i].labels)
  }

  predicate Disjoint(a: seq<string>, b: seq<string>) {
    forall i :: 0 <= i < |a| ==> a[i] !in b
  }

  /** What an edit makes of skill `id`; whether it shows is whether it changes the row. */
  function Edited(id: Id, s: Skill, e: Edit): Result<Skill, Error> {
    match e
    case Update(updates, content, demote) =>
      var t := WithUpdates(s, updates);
      if content.None? then Ok(if t == s then s else Bumped(t))
      else if NameTaken(s, NamedFor(s, content.value).name) then Err(VersionExists)
      else Ok(Demoted(WithVersion(t, NamedFor(s, content.value)), demote))
    case CreateVersion(version, publish, demote) =>
      if NameTaken(s, version.name) then Err(VersionExists)
      else
        var t := WithVersion(s, version);
        Ok(if publish then t.(status := Published) else Demoted(t, demote))
    case Publish(v) =>
      if !Owns(id, s, v) then Err(VersionNotFound)
      else
        var published := s.versions[v.index].(status := Published);
        var t := s.(versions := s.versions[v.index := published], current := v.index, package := published.package,
                    status := Published);
        Ok(if t == s then s else Bumped(t))
    case SetStatus(status) =>
      Ok(if s.status == status then s else Bumped(s.(status := status)))
    case SoftDelete =>
      Ok(if s.status == Deleted && s.trashed then s else Bumped(s.(status := Deleted, trashed := true)))
    case Restore =>
      if s.status != Deleted then Err(SkillNotDeleted) else Ok(Bumped(s.(status := Draft, trashed := false)))
    case SetVersionTags(v, labels) =>
      if !Owns(id, s, v) then Err(VersionNotFound)
      else if !LabelsFree(s, v.index, Cleaned(labels)) then Err(VersionTagTaken)
      else if s.versions[v.index].labels == Cleaned(labels) then Ok(s)
      else Ok(Bumped(s.(versions := s.versions[v.index := s.versions[v.index].(labels := Cleaned(labels))])))
    case Rollback(v) =>
      if !Owns(id, s, v) then Err(VersionNotFound)
      else if NameTaken(s, NextVersionName(s)) then Err(VersionExists)
      else
        var source := s.versions[v.index];
        Ok(Demoted(WithVersion(s, NewVersion(NextVersionName(s), source.content, source.package, Draft)), true))
  }

  /** A skill whose versions and head fit together. */
  predicate Sound(s: Skill) {
    && s.current < |s.versions| && s.package == s.versions[s.current].package
    && (forall i :: 0 <= i < |s.versions| ==> 1 <= s.versions[i].revision <= s.revision)
    && (forall i, j :: 0 <= i < j < |s.versions| ==> Apart(s.versions[i], s.versions[j]))
  }

  /** Two versions of a skill, the older first: their names, revisions and labels are apart. */
  predicate Apart(v: Version, w: Version) {
    v.revision < w.revision && v.name != w.name && Disjoint(v.labels, w.labels) && Disjoint(w.labels, v.labels)
  }

  /** What never changes of a version once it is written. */
  predicate SameRecord(v: Version, w: Version) {
    v.name == w.name && v.revision == w.revision && v.content == w.content && v.package == w.package
  }

  /** Versions are only added: everything recorded in `s` is recorded in `t`. */
  predicate KeepsVersions(s: Skill, t: Skill) {
    |s.versions| <= |t.versions| && forall i :: 0 <= i < |s.versions| ==> SameRecord(s.versions[i], t.versions[i])
  }

  /** From `s` to `t` is no change at all or one revision, which rewrites no version. */
  predicate OneRevision(s: Skill, t: Skill) {
    && Sound(t) && KeepsVersions(s, t)
    && (t == s || t.revision == s.revision + 1)
    && t.owner == s.owner && t.kind == s.kind && t.group == s.group && t.slug == s.slug
  }

  /**
    Every edit either changes nothing at all or bumps the revision by exactly one; it keeps the
    skill sound, rewrites no version, and keeps who owns the skill and its slug. Only restoring
    takes a skill out of the trash, and a tombstone is written only for a trashed skill.
  */
  lemma EditIsOneRevision(id: Id, s: Skill, e: Edit)
    requires Sound(s) && Edited(id, s, e).Ok?
    ensures OneRevision(s, Edited(id, s, e).value)
    ensures s.trashed && !Edited(id, s, e).value.trashed ==> e.Restore?
    ensures OperationOf(e) == Delete ==> Edited(id, s, e).value.status == Deleted && Edited(id, s, e).value.trashed
  {
    match e
    case Update(updates, content, demote) => UpdateIsSound(id, s, updates, content, demote);
    case CreateVersion(version, publish, demote) => CreateVersionIsSound(id, s, version, publish, demote);
    case Publish(v) => PublishIsSound(id, s, v);
    case SetVersionTags(v, labels) => TagsAreSound(id, s, v, labels);
    case Rollback(v) => RollbackIsSound(id, s, v);
    case SetStatus(status) => Relabelled(s, s, Edited(id, s, e).value);
    case SoftDelete => Relabelled(s, s, Edited(id, s, e).value);
    case Restore => Relabelled(s, s, Edited(id, s, e).value);
  }

  lemma UpdateIsSound(id: Id, s: Skill, updates: Updates, content: Option<NewVersion>, demote: bool)
    requires Sound(s) && Edited(id, s, Update(updates, content, demote)).Ok?
    ensures OneRevision(s, Edited(id, s, Update(updates, content, demote)).value)
    ensures Edited(id, s, Update(updates, content, demote)).value.trashed == s.trashed
  {
    hide NextVersionName;
    var t := Edited(id, s, Update(updates, content, demote)).value;
    var u := WithUpdates(s, updates);
    if content.Some? {
      NewVersionIsSound(u, NamedFor(s, content.value));
      Relabelled(s, WithVersion(u, NamedFor(s, content.value)), t);
    } else {
      Relabelled(s, s, t);
    }
  }

  lemma CreateVersionIsSound(id: Id, s: Skill, v: NewVersion, publish: bool, demote: bool)
    requires Sound(s) && Edited(id, s, CreateVersion(v, publish, demote)).Ok?
    ensures OneRevision(s, Edited(id, s, CreateVersion(v, publish, demote)).value)
    ensures Edited(id, s, CreateVersion(v, publish, demote)).value.trashed == s.trashed
  {
    hide NextVersionName;
    NewVersionIsSound(s, v);
    Relabelled(s, WithVersion(s, v), Edited(id, s, CreateVersion(v, publish, demote)).value);
  }

  lemma RollbackIsSound(id: Id, s: Skill, v: VersionId)
    requires Sound(s) && Edited(id, s, Rollback(v)).Ok?
    ensures OneRevision(s, Edited(id, s, Rollback(v)).value)
    ensures Edited(id, s, Rollback(v)).value.trashed == s.trashed
  {
    hide NextVersionName;
    var n := NewVersion(NextVersionName(s), s.versions[v.index].content, s.versions[v.index].package, Draft);
    NewVersionIsSound(s, n);
    Relabelled(s, WithVersion(s, n), Edited(id, s, Rollback(v)).value);
  }

  /** `t` differs from the sound `u` in nothing its versions depend on. */
  lemma Relabelled(s: Skill, u: Skill, t: Skill)
    requires Sound(u) && KeepsVersions(s, u)
    requires t.versions == u.versions && t.current == u.current && t.package == u.package && t.revision >= u.revision
    requires t == s || t.revision == s.revision + 1
    requires t.owner == s.owner && t.kind == s.kind && t.group == s.group && t.slug == s.slug
    ensures OneRevision(s, t)
  {}

  lemma PublishIsSound(id: Id, s: Skill, v: VersionId)
    requires Sound(s) && Owns(id, s, v)
    ensures OneRevision(s, Edited(id, s, Publish(v)).value)
  {
    var t := Edited(id, s, Publish(v)).value;
    forall i, j | 0 <= i < j < |t.versions| ensures Apart(t.versions[i], t.versions[j]) {
      assert Apart(s.versions[i], s.versions[j]);
    }
  }

  lemma NewVersionIsSound(s: Skill, v: NewVersion)
    requires Sound(s) && !NameTaken(s, v.name)
    ensures OneRevision(s, WithVersion(s, v))
  {
    var t := WithVersion(s, v);
    var last := |s.versions|;
    forall i, j | 0 <= i < j < |t.versions| ensures Apart(t.versions[i], t.versions[j]) {
      if j < last { assert Apart(s.versions[i], s.versions[j]); }
    }
  }

  lemma TagsAreSound(id: Id, s: Skill, v: VersionId, labels: seq<string>)
    requires Sound(s) && Edited(id, s, SetVersionTags(v, labels)).Ok?
    ensures OneRevision(s, Edited(id, s, SetVersionTags(v, labels)).value)
  {
    var t := Edited(id, s, SetVersionTags(v, labels)).value;
    forall i, j | 0 <= i < j < |t.versions| ensures Apart(t.versions[i], t.versions[j]) {
      assert Apart(s.versions[i], s.versions[j]);
      DisjointSym(Cleaned(labels), s.versions[i].labels);
      DisjointSym(Cleaned(labels), s.versions[j].labels);
    }
  }

  lemma DisjointSym(a: seq<string>, b: seq<string>)
    ensures Disjoint(a, b) <==> Disjoint(b, a)
  {
    if Disjoint(a, b) {
      forall i | 0 <= i < |b| ensures b[i] !in a {
        assert b[i] in b;
        assert forall k :: 0 <= k < |a| ==> a[k] != b[i];
      }
    } else {
      var i :| 0 <= i < |a| && a[i] in b;
      var k :| 0 <= k < |b| && b[k] == a[i];
    }
  }

  /** `t` has the content and the package of version `index` of `s` as a new version, after all the old ones. */
  predicate CarriesOn(s: Skill, index: nat, t: Skill) {
    && index < |s.versions| && t.current == |s.versions| < |t.versions|
    && t.versions[..|s.versions|] == s.versions
    && t.versions[t.current].content == s.versions[index].content
    && t.versions[t.current].name == NextVersionName(s)
    && t.package == s.versions[index].package
  }

  /** Rolling back is a step forward: the source's content and package become current, as a new version. */
  lemma RollbackIsForward(id: Id, s: Skill, v: VersionId)
    requires Sound(s) && Edited(id, s, Rollback(v)).Ok?
    ensures var t := Edited(id, s, Rollback(v)).value;
            t.revision == s.revision + 1 && t.status != Published && CarriesOn(s, v.index, t)
  {
    hide NextVersionName, Sound;
  }

  /** Into the trash and back is a draft, two revisions on, with the same versions. */
  lemma TrashAndBack(id: Id, s: Skill)
    requires s.status != Deleted
    ensures var t := Edited(id, s, SoftDelete).value;
            Edited(id, t, Restore) == Ok(s.(status := Draft, trashed := false, revision := s.revision + 2))
  {}

  // ---- What each edit does ------------------------------------------------------------------

  /** `t` has one version more than `s`, current from now on, and the old ones as they were. */
  predicate AddsVersion(s: Skill, t: Skill, v: NewVersion, name: string) {
    && t.versions == s.versions + [Version(name, t.revision, v.content, v.package, v.status, [])]
    && t.current == |s.versions| && t.package == v.package && t.revision == s.revision + 1
  }

  /** `t` differs from `s` in no version, in what is current, nor in the trash flag. */
  predicate SameVersions(s: Skill, t: Skill) {
    t.versions == s.versions && t.current == s.current && t.package == s.package && t.trashed == s.trashed
  }

  /**
    An update sets the fields it is given and leaves the others; with content it adds a version, and
    it fails exactly if that version's name is taken. A published skill that gets new content becomes
    a draft where demotion is asked for.
  */
  lemma UpdateMeans(id: Id, s: Skill, u: Updates, content: Option<NewVersion>, demote: bool)
    ensures var r := Edited(id, s, Update(u, content, demote));
            var status := if u.status.Some? then u.status.value else s.status;
            && (r.Err? <==>
                  && content.Some?
                  && var name := if content.value.name == "" then NextVersionName(s) else content.value.name;
                     exists v :: v in s.versions && v.name == name)
            && (r.Err? ==> r.error == VersionExists)
            && (r.Ok? ==>
                  var t := r.value;
                  && t.details.name == (if u.name.Some? then u.name.value else s.details.name)
                  && t.details.description
                     == (if u.description.Some? then u.description.value else s.details.description)
                  && t.details.category == (if u.category.Some? then u.category.value else s.details.category)
                  && t.details.tags == (if u.tags.Some? then u.tags.value else s.details.tags)
                  && t.trashed == s.trashed
                  && (content.None? ==> SameVersions(s, t) && t.status == status)
                  && (content.Some? ==>
                        && AddsVersion(s, t, content.value,
                                       if content.value.name == "" then NextVersionName(s) else content.value.name)
                        && t.status == if demote && status == Published then Draft else status))
  {
    hide NextVersionName;
    if content.Some? {
      NameIsTaken(s, NamedFor(s, content.value).name);
    }
  }

  lemma NameIsTaken(s: Skill, name: string)
    ensures NameTaken(s, name) <==> exists v :: v in s.versions && v.name == name
  {
    if v :| v in s.versions && v.name == name {
      var i :| 0 <= i < |s.versions| && s.versions[i] == v;
    }
  }

  /** A version written by hand becomes current, and the skill published with it if that is asked for. */
  lemma CreateVersionMeans(id: Id, s: Skill, v: NewVersion, publish: bool, demote: bool)
    ensures var r := Edited(id, s, CreateVersion(v, publish, demote));
            && (r.Err? <==> exists w :: w in s.versions && w.name == v.name)
            && (r.Err? ==> r.error == VersionExists)
            && (r.Ok? ==>
                  var t := r.value;
                  && AddsVersion(s, t, v, v.name) && t.details == s.details && t.trashed == s.trashed
                  && (publish ==> t.status == Published)
                  && (!publish && demote && s.status == Published ==> t.status == Draft)
                  && (!publish && !(demote && s.status == Published) ==> t.status == s.status))
  {
    NameIsTaken(s, v.name);
  }

  /** Publishing makes one version and the skill published, and that version current; nothing else changes. */
  lemma PublishMeans(id: Id, s: Skill, v: VersionId)
    ensures var r := Edited(id, s, Publish(v));
            && (r.Err? <==> v.skill != id || v.index >= |s.versions|) && (r.Err? ==> r.error == VersionNotFound)
            && (r.Ok? ==>
                  var t := r.value;
                  && t.status == Published && t.current == v.index && t.package == s.versions[v.index].package
                  && t.details == s.details && t.trashed == s.trashed && |t.versions| == |s.versions|
                  && t.versions[v.index] == s.versions[v.index].(status := Published)
                  && forall i :: 0 <= i < |s.versions| && i != v.index ==> t.versions[i] == s.versions[i])
  {}

  /** A roll-back fails exactly for a version of another skill, or where the next name is taken. */
  lemma RollbackMeans(id: Id, s: Skill, v: VersionId)
    ensures var r := Edited(id, s, Rollback(v));
            && (r == Err(VersionNotFound) <==> v.skill != id || v.index >= |s.versions|)
            && (r == Err(VersionExists) <==>
                  && v.skill == id && v.index < |s.versions|
                  && exists w :: w in s.versions && w.name == NextVersionName(s))
            && (r.Err? ==> r.error in {VersionNotFound, VersionExists})
            && (r.Ok? ==>
                  var t, source := r.value, s.versions[v.index];
                  && AddsVersion(s, t, NewVersion("", source.content, source.package, Draft), NextVersionName(s))
                  && t.details == s.details && t.trashed == s.trashed
                  && t.status == if s.status == Published then Draft else s.status)
  {
    hide NextVersionName;
    NameIsTaken(s, NextVersionName(s));
  }

  /** An edit that would change nothing but the revision does not change that either. */
  lemma NoChangeNoRevision(id: Id, s: Skill, e: Edit)
    requires Edited(id, s, e).Ok?
    ensures var t := Edited(id, s, e).value;
            t.(revision := s.revision) == s ==> t == s
  {
    hide NextVersionName, NameTaken, LabelsFree, Cleaned;
    var t := Edited(id, s, e).value;
    if t != s {
      assert e.CreateVersion? || e.Rollback? || (e.Update? && e.content.Some?) ==> |t.versions| == |s.versions| + 1;
    }
  }

  /** Setting the status sets it and nothing else; the trash takes a skill in, or gives it back as a draft. */
  lemma StatusMeans(id: Id, s: Skill, status: Status)
    ensures var r := Edited(id, s, SetStatus(status));
            r.Ok? && r.value.status == status && r.value.details == s.details && SameVersions(s, r.value)
    ensures var r := Edited(id, s, SoftDelete);
            && r.Ok? && r.value.status == Deleted && r.value.trashed && r.value.details == s.details
            && SameVersions(s.(trashed := true), r.value)
    ensures var r := Edited(id, s, Restore);
            && (r == Err(SkillNotDeleted) <==> s.status != Deleted)
            && (s.status == Deleted ==> r.Ok? && r.value.status == Draft && r.value.details == s.details
                                        && SameVersions(s.(trashed := false), r.value))
  {}

  /**
    Labelling replaces the labels of one version by the ones given, and fails exactly for a version
    of another skill or where a version of another name has one of them.
  */
  lemma TagsMean(id: Id, s: Skill, v: VersionId, labels: seq<string>)
    ensures var r := Edited(id, s, SetVersionTags(v, labels));
            && (r == Err(VersionNotFound) <==> v.skill != id || v.index >= |s.versions|)
            && (r == Err(VersionTagTaken) <==>
                  && v.skill == id && v.index < |s.versions|
                  && exists i, tag :: 0 <= i < |s.versions| && s.versions[i].name != s.versions[v.index].name
                                        && tag in s.versions[i].labels && tag in labels && tag != "")
            && (r.Err? ==> r.error in {VersionNotFound, VersionTagTaken})
            && (r.Ok? ==>
                  var t := r.value;
                  && |t.versions| == |s.versions|
                  && t.versions[v.index] == s.versions[v.index].(labels := Cleaned(labels))
                  && (forall i :: 0 <= i < |s.versions| && i != v.index ==> t.versions[i] == s.versions[i])
                  && SameVersions(s.(versions := t.versions), t) && t.details == s.details && t.status == s.status)
  {
    var cleaned := Cleaned(labels);
    CleanedAre(labels);
    if Owns(id, s, v) {
      forall i | 0 <= i < |s.versions|
        ensures Disjoint(cleaned, s.versions[i].labels)
           <==> !exists tag :: tag in s.versions[i].labels && tag in labels && tag != ""
      {
        DisjointIff(cleaned, s.versions[i].labels);
      }
    }
  }

  lemma DisjointIff(a: seq<string>, b: seq<string>)
    ensures Disjoint(a, b) <==> !exists tag :: tag in b && tag in a
  {
    if tag :| tag in b && tag in a {
      var i :| 0 <= i < |a| && a[i] == tag;
    }
  }

  /** Cleaned are the labels but the empty one, each once and in the order of their first appearance. */
  lemma {:induction false} CleanedAre(labels: seq<string>)
    ensures forall tag :: tag in Cleaned(labels) <==> tag in labels && tag != ""
    ensures forall i, j :: 0 <= i < j < |Cleaned(labels)| ==>
              Cleaned(labels)[i] != Cleaned(labels)[j] && FirstBefore(labels, Cleaned(labels)[i], Cleaned(labels)[j])
  {
    if labels != [] {
      var n := |labels| - 1;
      CleanedAre(labels[..n]);
      var front, all := Cleaned(labels[..n]), Cleaned(labels);
      assert labels == labels[..n] + [labels[n]];
      forall i, j | 0 <= i < j < |all| ensures all[i] != all[j] && FirstBefore(labels, all[i], all[j]) {
        if j < |front| {
          var k :| 0 <= k < n && labels[..n][k] == front[i] && front[j] !in labels[..n][..k];
          assert labels[..n][..k] == labels[..k] && labels[k] == front[i];
        } else {
          assert all[i] in front && all[i] in labels[..n];
          var k :| 0 <= k < n && labels[..n][k] == all[i];
          assert all[j] !in labels[..n];
          assert labels[k] == all[i] && forall x :: x in labels[..k] ==> x in labels[..n];
        }
      }
    }
  }

  /** `a` appears in the labels before `b` does. */
  predicate FirstBefore(labels: seq<string>, a: string, b: string) {
    exists k :: 0 <= k < |labels| && labels[k] == a && b !in labels[..k]
  }

  // ---- When the next name is free -----------------------------------------------------------

  /** The first version has any semantic name; each later one is one patch on from the one before it. */
  predicate InSeries(s: Skill) {
    && s.current < |s.versions| && NumbersOf(s.versions[0].name).Some?
    && forall i :: 0 < i < |s.versions| ==> s.versions[i].name == NthName(s.versions[0].name, i)
  }

  /** So many patches on from the first version. */
  function NthName(first: string, i: nat): string
    requires NumbersOf(first).Some?
  {
    var numbers := NumbersOf(first).value;
    Name(numbers.0, numbers.1, numbers.2 + i)
  }

  lemma NextOfNth(first: string, i: nat)
    requires NumbersOf(first).Some?
    ensures NextPatch(first) == NthName(first, 1)
    ensures NextPatch(NthName(first, i)) == NthName(first, i + 1)
  {
    hide Name, NumbersOf;
    var numbers := NumbersOf(first).value;
    NumbersOfName(numbers.0, numbers.1, numbers.2 + i, "");
  }

  /** No version of a series is called like another place of it. */
  lemma NthIsDistinct(first: string, i: nat, j: nat, name: string)
    requires NumbersOf(first).Some?
    requires name == (if i == 0 then first else NthName(first, i)) && name == NthName(first, j)
    ensures i == j
  {
    hide Name, NumbersOf;
    var numbers := NumbersOf(first).value;
    NumbersOfName(numbers.0, numbers.1, numbers.2 + i, "");
    NumbersOfName(numbers.0, numbers.1, numbers.2 + j, "");
  }

  /**
    The name of the next version is made from the current one. In a series it is taken exactly when
    the current version is not the latest: then every update without a name of its own fails, and
    so does every rollback.
  */
  lemma NextNameTakenIff(s: Skill)
    requires InSeries(s)
    ensures NextVersionName(s) == NthName(s.versions[0].name, s.current + 1)
    ensures NameTaken(s, NextVersionName(s)) <==> s.current < |s.versions| - 1
  {
    hide Name, NextPatch, NumbersOf, NthName;
    var first, next := s.versions[0].name, NextVersionName(s);
    NextOfNth(first, s.current);
    if i :| 0 <= i < |s.versions| && s.versions[i].name == next {
      NthIsDistinct(first, i, s.current + 1, s.versions[i].name);
    }
    if s.current < |s.versions| - 1 {
      assert s.versions[s.current + 1].name == next;
    }
  }

  /** Edits under which a series goes on: they name no version themselves, and publish only the latest. */
  predicate KeepsSeries(s: Skill, e: Edit) {
    match e
    case Update(_, content, _) => content.Some? ==> content.value.name == ""
    case CreateVersion(_, _, _) => false
    case Publish(v) => v.index == |s.versions| - 1
    case _ => true
  }

  lemma SeriesGoesOn(id: Id, s: Skill, e: Edit)
    requires InSeries(s) && s.current == |s.versions| - 1 && KeepsSeries(s, e) && Edited(id, s, e).Ok?
    ensures var t := Edited(id, s, e).value; InSeries(t) && t.current == |t.versions| - 1
  {
    hide Name, NextVersionName, NumbersOf, NthName;
    NextNameTakenIff(s);
  }

  /**
    Which edits the web offers of which skills: publishing and a status of its own are for global
    skills, labels, roll-backs and the trash for private and group-owned ones.
  */
  predicate Offered(s: Skill, e: Edit) {
    match e
    case Update(_, _, _) => s.status != Deleted
    case CreateVersion(_, _, _) => s.status != Deleted
    case Publish(_) => s.kind == Global && s.status != Deleted
    case SetStatus(_) => s.kind == Global && s.status != Deleted
    case Restore => s.kind != Global && s.status == Deleted
    case _ => s.kind != Global && s.status != Deleted
  }

  /** Of a skill that sync can update the web breaks a series only by a version named by hand. */
  lemma OnlyNamesBreakSeries(s: Skill, e: Edit)
    requires s.kind == Private && Offered(s, e) && !KeepsSeries(s, e)
    ensures e.CreateVersion? || (e.Update? && e.content.Some? && e.content.value.name != "")
  {}

  /**
    Of a global skill publishing breaks it: an update that brings content without a name fails after
    it exactly if the version published is not the latest.
  */
  lemma PublishBlocksIff(id: Id, s: Skill, v: VersionId, updates: Updates, content: NewVersion, demote: bool)
    requires InSeries(s) && Owns(id, s, v) && s.kind == Global && s.status != Deleted && content.name == ""
    ensures var t, e := Edited(id, s, Publish(v)).value, Update(updates, Some(content), demote);
            && Offered(s, Publish(v)) && Offered(t, e)
            && (Edited(id, t, e) == Err(VersionExists) <==> v.index < |s.versions| - 1)
  {
    hide Name, NextVersionName, NumbersOf, NthName;
    var t := Edited(id, s, Publish(v)).value;
    assert forall i :: 0 <= i < |s.versions| ==> t.versions[i].name == s.versions[i].name;
    NextNameTakenIff(t);
  }

  // ---- The tables ---------------------------------------------------------------------------

  datatype Op =
    | Create(skill: NewSkill)
    | On(id: Id, edit: Edit)
    | Purge(id: Id)

  datatype NewSkill = NewSkill(owner: Option<string>, kind: Kind, group: Option<string>, slug: string,
                               details: Details, status: Status, version: NewVersion)

  function Created(n: NewSkill): Skill {
    Skill(n.owner, n.kind, n.group, n.slug, n.details, n.status, false, 1, 0, n.version.package,
          [Version(n.version.name, 1, n.version.content, n.version.package, n.version.status, [])])
  }

  function ShownOf(s: Skill): Shown {
    Shown(s.owner, s.kind, s.group, s.slug, s.details, s.status, s.package)
  }

  function Event(id: Id, s: Skill, operation: Operation): Change {
    Change(id, s.revision, operation, ShownOf(s))
  }

  /** The two unique constraints on slugs, which count trashed rows too. */
  predicate Clashes(s: Skill, n: NewSkill) {
    && s.slug == n.slug
    && ((n.owner.Some? && s.owner == n.owner) || (n.group.Some? && s.group == n.group))
  }

  predicate SlugFree(skills: map<Id, Skill>, n: NewSkill) {
    forall id :: id in skills ==> !Clashes(skills[id], n)
  }

  function OperationOf(e: Edit): Operation { if e.SoftDelete? then Delete else Upsert }

  /** One transaction: the tables after it, or the error that rolled it back. */
  function Apply(db: Db, op: Op): Result<Db, Error> {
    match op
    case Create(n) =>
      if n.kind == OfGroup && n.group.None? then Err(GroupRequired)
      else if n.kind != OfGroup && n.group.Some? then Err(GroupScopeInvalid)
      else if !SlugFree(db.skills, n) then Err(SlugNotUnique)
      else Ok(Db(db.skills[db.next := Created(n)], db.next + 1, db.changes + [Event(db.next, Created(n), Upsert)]))
    case On(id, e) =>
      if id !in db.skills then Err(SkillNotFound)
      else
        var r := Edited(id, db.skills[id], e);
        if r.Err? then Err(r.error) else Ok(Written(db, id, r.value, OperationOf(e)))
    case Purge(id) =>
      if id !in db.skills then Err(SkillNotFound)
      else if db.skills[id].status != Deleted || !db.skills[id].trashed then Err(SkillNotDeleted)
      else Ok(Db(db.skills - {id}, db.next, db.changes + [Event(id, db.skills[id], Delete)]))
  }

  /** The row written back, with its change-log row if it changed. */
  function Written(db: Db, id: Id, s: Skill, operation: Operation): Db
    requires id in db.skills
  {
    Db(db.skills[id := s], db.next,
       if s == db.skills[id] then db.changes else db.changes + [Event(id, s, operation)])
  }

  /**
    A skill is created at revision 1 with its one version, unless its scope is not right or a skill of
    the same owner or group, also one in the trash, has the slug.
  */
  lemma CreateMeans(db: Db, n: NewSkill)
    ensures var r := Apply(db, Create(n));
            && (r == Err(GroupRequired) <==> n.kind == OfGroup && n.group == None)
            && (r == Err(GroupScopeInvalid) <==> n.kind != OfGroup && n.group != None)
            && (r == Err(SlugNotUnique) <==>
                  && (n.kind == OfGroup <==> n.group != None)
                  && exists id :: id in db.skills && db.skills[id].slug == n.slug
                       && ((n.owner != None && db.skills[id].owner == n.owner)
                           || (n.group != None && db.skills[id].group == n.group)))
            && (r.Err? ==> r.error in {GroupRequired, GroupScopeInvalid, SlugNotUnique})
            && (r.Ok? ==>
                  && r.value.skills.Keys == db.skills.Keys + {db.next} && r.value.next == db.next + 1
                  && (forall id :: id in db.skills && id != db.next ==> r.value.skills[id] == db.skills[id])
                  && var s := r.value.skills[db.next];
                     && s.owner == n.owner && s.kind == n.kind && s.group == n.group && s.slug == n.slug
                     && s.details == n.details && s.status == n.status && !s.trashed && s.revision == 1
                     && s.versions == [Version(n.version.name, 1, n.version.content, n.version.package,
                                               n.version.status, [])]
                     && s.current == 0 && s.package == n.version.package)
  {}

  /** Only a skill in the trash can be purged; then its row is gone, and no other is touched. */
  lemma PurgeMeans(db: Db, id: Id)
    ensures var r := Apply(db, Purge(id));
            && (r == Err(SkillNotFound) <==> id !in db.skills)
            && (r == Err(SkillNotDeleted) <==>
                  id in db.skills && !(db.skills[id].status == Deleted && db.skills[id].trashed))
            && (r.Err? ==> r.error in {SkillNotFound, SkillNotDeleted})
            && (r.Ok? ==> id !in r.value.skills && r.value.next == db.next
                          && forall other :: other in db.skills && other != id ==>
                               other in r.value.skills && r.value.skills[other] == db.skills[other])
  {}

  /** An edit touches its own skill only, and the row it logs shows the skill as it is after it. */
  lemma EditMeans(db: Db, id: Id, e: Edit)
    requires Apply(db, On(id, e)).Ok?
    ensures var after := Apply(db, On(id, e)).value;
            && id in db.skills && after.skills.Keys == db.skills.Keys && after.next == db.next
            && Edited(id, db.skills[id], e) == Ok(after.skills[id])
            && (forall other :: other in db.skills && other != id ==> after.skills[other] == db.skills[other])
            && (after.skills[id] == db.skills[id] ==> after.changes == db.changes)
            && (after.skills[id] != db.skills[id] ==>
                  && |after.changes| == |db.changes| + 1 && after.changes[..|db.changes|] == db.changes
                  && var row, s := after.changes[|db.changes|], after.skills[id];
                     && row.skill == id && row.revision == s.revision && (row.operation == Delete <==> e.SoftDelete?)
                     && row.shown == Shown(s.owner, s.kind, s.group, s.slug, s.details, s.status, s.package))
  {
    hide Edited;
  }

  /** A run of transactions, those that fail leaving everything as it was. */
  function Run(db: Db, ops: seq<Op>): Db {
    if ops == [] then db
    else
      var before := Run(db, ops[..|ops| - 1]);
      var r := Apply(before, ops[|ops| - 1]);
      if r.Ok? then r.value else before
  }

  lemma RunGoesOn(db: Db, ops: seq<Op>, op: Op)
    ensures var r := Apply(Run(db, ops), op);
            Run(db, ops + [op]) == if r.Ok? then r.value else Run(db, ops)
  {
    assert (ops + [op])[..|ops|] == ops;
  }

  // ---- The history of a skill ---------------------------------------------------------------

  /** The rows of one skill, in log order. */
  function RowsOf(changes: seq<Change>, id: Id): seq<Change> {
    if changes == [] then []
    else
      var rows := RowsOf(changes[..|changes| - 1], id);
      if changes[|changes| - 1].skill == id then rows + [changes[|changes| - 1]] else rows
  }

  /** The rows carry 1, 2, 3, ... */
  predicate Counts(rows: seq<Change>) {
    forall i :: 0 <= i < |rows| ==> rows[i].revision == i + 1
  }

  /** A live skill: its rows count to its revision and the last one shows it as it is now. */
  predicate LiveHistory(s: Skill, rows: seq<Change>) {
    && Counts(rows) && |rows| == s.revision >= 1
    && rows[|rows| - 1].shown == ShownOf(s)
    && (rows[|rows| - 1].operation == Delete ==> s.status == Deleted && s.trashed)
  }

  /** A purged skill: its rows count up and one tombstone repeats the last revision. */
  predicate PurgedHistory(rows: seq<Change>) {
    && |rows| >= 2 && Counts(rows[..|rows| - 1])
    && rows[|rows| - 1].revision == |rows| - 1 && rows[|rows| - 1].operation == Delete
  }

  predicate HistoryOf(db: Db, id: Id) {
    var rows := RowsOf(db.changes, id);
    if id in db.skills then id < db.next && Sound(db.skills[id]) && LiveHistory(db.skills[id], rows)
    else if id < db.next then PurgedHistory(rows)
    else rows == []
  }

  ghost predicate Faithful(db: Db) {
    && (forall id :: HistoryOf(db, id))
    && SlugsUnique(db.skills)
  }

  /** The unique constraints hold among all rows. */
  predicate SlugsUnique(skills: map<Id, Skill>) {
    forall a, b :: a in skills && b in skills && a != b ==> !SameSlug(skills[a], skills[b])
  }

  predicate SameSlug(s: Skill, t: Skill) {
    && s.slug == t.slug
    && ((s.owner.Some? && s.owner == t.owner) || (s.group.Some? && s.group == t.group))
  }

  lemma RowsAppend(changes: seq<Change>, c: Change, id: Id)
    ensures RowsOf(changes + [c], id) == RowsOf(changes, id) + (if c.skill == id then [c] else [])
  {
    assert (changes + [c])[..|changes|] == changes;
  }

  /** One transaction keeps the history faithful. */
  lemma ApplyIsFaithful(db: Db, op: Op)
    requires Faithful(db) && Apply(db, op).Ok?
    ensures Faithful(Apply(db, op).value)
  {
    var after := Apply(db, op).value;
    forall id ensures HistoryOf(after, id) {
      HistoryStep(db, op, id);
    }
    SlugStep(db, op);
  }

  lemma SlugStep(db: Db, op: Op)
    requires Faithful(db) && Apply(db, op).Ok?
    ensures SlugsUnique(Apply(db, op).value.skills)
  {
    match op
    case Create(n) =>
    case On(id, e) =>
      assert HistoryOf(db, id);
      EditIsOneRevision(id, db.skills[id], e);
    case Purge(id) =>
  }

  lemma HistoryStep(db: Db, op: Op, id: Id)
    requires Faithful(db) && Apply(db, op).Ok?
    ensures HistoryOf(Apply(db, op).value, id)
  {
    match op
    case Create(n) => CreateStep(db, n, id);
    case On(edited, e) => EditStep(db, edited, e, id);
    case Purge(purged) => PurgeStep(db, purged, id);
  }

  lemma CreateStep(db: Db, n: NewSkill, id: Id)
    requires Faithful(db) && Apply(db, Create(n)).Ok?
    ensures HistoryOf(Apply(db, Create(n)).value, id)
  {
    assert HistoryOf(db, id);
    RowsAppend(db.changes, Event(db.next, Created(n), Upsert), id);
  }

  lemma PurgeStep(db: Db, purged: Id, id: Id)
    requires Faithful(db) && Apply(db, Purge(purged)).Ok?
    ensures HistoryOf(Apply(db, Purge(purged)).value, id)
  {
    assert HistoryOf(db, id);
    var rows, tombstone := RowsOf(db.changes, id), Event(purged, db.skills[purged], Delete);
    RowsAppend(db.changes, tombstone, id);
    assert (rows + [tombstone])[..|rows|] == rows;
  }

  lemma EditStep(db: Db, edited: Id, e: Edit, id: Id)
    requires Faithful(db) && Apply(db, On(edited, e)).Ok?
    ensures HistoryOf(Apply(db, On(edited, e)).value, id)
  {
    assert HistoryOf(db, id) && HistoryOf(db, edited);
    EditIsOneRevision(edited, db.skills[edited], e);
    RowsAppend(db.changes, Event(edited, Edited(edited, db.skills[edited], e).value, OperationOf(e)), id);
  }

  /**
    Revision history is faithful over every run from empty tables: the change-log rows of each
    skill carry 1, 2, 3, ... up to its revision, the last row shows its present state, and only a
    purge tombstone repeats a revision; versions stay distinct and within the revision, and the
    head's package is its current version's.
  */
  lemma {:induction false} RevisionHistoryIsFaithful(ops: seq<Op>)
    ensures Faithful(Run(Db(map[], 0, []), ops))
    decreases |ops|
  {
    var empty := Db(map[], 0, []);
    if ops == [] {
      forall id ensures HistoryOf(empty, id) {}
    } else {
      RevisionHistoryIsFaithful(ops[..|ops| - 1]);
      var before := Run(empty, ops[..|ops| - 1]);
      var r := Apply(before, ops[|ops| - 1]);
      if r.Ok? {
        ApplyIsFaithful(before, ops[|ops| - 1]);
      }
    }
  }

  // ---- Nothing goes back --------------------------------------------------------------------

  /**
    From `a` to `b` ids are not given out twice, no revision goes back, and a skill that has kept
    its revision has kept everything.
  */
  ghost predicate Grows(a: Db, b: Db) {
    && a.next <= b.next && a.changes <= b.changes
    && forall id :: id in b.skills ==> if id < a.next then id in a.skills && Newer(a.skills[id], b.skills[id]) else true
  }

  predicate Newer(s: Skill, t: Skill) {
    && s.revision <= t.revision && (s.revision == t.revision ==> s == t)
    && s.owner == t.owner && s.kind == t.kind && s.slug == t.slug && KeepsVersions(s, t)
  }

  lemma ApplyGrows(db: Db, op: Op)
    requires Faithful(db) && Apply(db, op).Ok?
    ensures Grows(db, Apply(db, op).value)
  {
    match op
    case Create(n) =>
    case On(id, e) =>
      assert HistoryOf(db, id);
      EditIsOneRevision(id, db.skills[id], e);
    case Purge(id) =>
  }

  lemma GrowsFurther(a: Db, b: Db, c: Db)
    requires Grows(a, b) && Grows(b, c)
    ensures Grows(a, c)
  {
    forall id | id in c.skills && id < a.next ensures id in a.skills && Newer(a.skills[id], c.skills[id]) {
      assert id in b.skills && Newer(a.skills[id], b.skills[id]);
    }
  }
}
