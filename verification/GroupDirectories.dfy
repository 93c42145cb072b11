/** The group table and the operations that shape the tree. */
module GroupDirectories {
  import opened Prelude
  import opened GroupTrees
  import opened GroupRoles

  datatype GroupError = GroupNotFound | PermissionDenied | DepthExceeded | Cycle | HasChildren

  /** The user who asks, with the memberships that count for the request. */
  datatype User = User(admin: bool, memberships: Memberships)

  ghost predicate MayManage(t: map<Id, Group>, d: map<Id, nat>, user: User, g: Id)
    requires Leveled(t, d)
  {
    user.admin || Managed(t, d, user.memberships, g)
  }

  /** Why a group cannot be created under a parent, if it cannot. */
  ghost function CreateRefusal(t: map<Id, Group>, d: map<Id, nat>, user: User, parent: Option<Id>): Option<GroupError>
    requires Leveled(t, d)
  {
    if parent.None? then None
    else if parent.value !in t || !t[parent.value].active then Some(GroupNotFound)
    else if !MayManage(t, d, user, parent.value) then Some(PermissionDenied)
    else if d[parent.value] + 1 > MAX_GROUP_DEPTH then Some(DepthExceeded)
    else None
  }

  /** Why a group of height `h` cannot move under a parent, if it cannot. */
  ghost function MoveRefusal(t: map<Id, Group>, d: map<Id, nat>, user: User, g: Id, parent: Option<Id>, h: nat)
    : Option<GroupError>
    requires Leveled(t, d) && g in t
  {
    if parent == Some(g) then Some(Cycle)
    else if parent.None? then None
    else if parent.value !in t || !t[parent.value].active then Some(GroupNotFound)
    else if Below(t, d, parent.value, g) then Some(Cycle)
    else if !MayManage(t, d, user, parent.value) then Some(PermissionDenied)
    else if d[parent.value] + h > MAX_GROUP_DEPTH then Some(DepthExceeded)
    else None
  }

  /** The user is an administrator, or owner or admin of the group or of one above it, only active groups between. */
  ghost predicate HasManager(t: map<Id, Group>, d: map<Id, nat>, user: User, g: Id)
    requires Leveled(t, d)
  {
    || user.admin
    || exists a :: a in ActiveChain(t, d, g) && a in user.memberships
         && user.memberships[a] in {Membership(Owner, true), Membership(Admin, true)}
  }

  /**
    When a group may be created: at the top always, and under an active group on a level above the
    sixteenth by who manages that group. Which refusal it is otherwise depends on what fails first.
  */
  lemma CreateIsRefusedIff(t: map<Id, Group>, d: map<Id, nat>, user: User, parent: Option<Id>)
    requires Leveled(t, d)
    ensures var refusal := CreateRefusal(t, d, user, parent);
            && (refusal == Some(GroupNotFound) <==> parent.Some? && !(parent.value in t && t[parent.value].active))
            && (refusal == Some(PermissionDenied) <==>
                  && parent.Some? && parent.value in t && t[parent.value].active
                  && !HasManager(t, d, user, parent.value))
            && (refusal == Some(DepthExceeded) <==>
                  && parent.Some? && parent.value in t && t[parent.value].active
                  && HasManager(t, d, user, parent.value) && |Ancestors(t, d, parent.value)| >= 16)
            && refusal !in {Some(Cycle), Some(HasChildren)}
  {}

  /**
    When a group may be moved: to the top always, and under an active group outside its own subtree by
    who manages that group, if no group of the subtree comes to lie below the sixteenth level.
  */
  lemma MoveIsRefusedIff(t: map<Id, Group>, d: map<Id, nat>, user: User, g: Id, parent: Option<Id>, h: nat)
    requires Leveled(t, d) && g in t && IsHeight(t, d, g, h)
    ensures var refusal := MoveRefusal(t, d, user, g, parent, h);
            && (refusal == Some(GroupNotFound) <==>
                  parent.Some? && parent.value != g && !(parent.value in t && t[parent.value].active))
            && (refusal == Some(Cycle) <==>
                  parent.Some? && (|| parent.value == g
                                   || (&& parent.value in t && t[parent.value].active
                                       && g in Ancestors(t, d, parent.value))))
            && (refusal == Some(PermissionDenied) <==>
                  && parent.Some? && parent.value in t && t[parent.value].active
                  && g !in Ancestors(t, d, parent.value) && !HasManager(t, d, user, parent.value))
            && (refusal == Some(DepthExceeded) <==>
                  && parent.Some? && parent.value in t && t[parent.value].active
                  && g !in Ancestors(t, d, parent.value) && HasManager(t, d, user, parent.value)
                  && exists x :: x in t && g in Ancestors(t, d, x)
                       && |Ancestors(t, d, parent.value)| + 1 + (|Ancestors(t, d, x)| - |Ancestors(t, d, g)|) > 16)
            && refusal != Some(HasChildren)
  {
    hide Managed, ActiveChain, LevelOk;
    if parent.Some? && parent.value in t {
      ManagesIff(t, d, user, parent.value);
    }
  }

  lemma ManagesIff(t: map<Id, Group>, d: map<Id, nat>, user: User, g: Id)
    requires Leveled(t, d)
    ensures MayManage(t, d, user, g) <==> HasManager(t, d, user, g)
  {}

  /** A forest of depth at most the cap, in which no active group hangs under an inactive one. */
  predicate Sound(t: map<Id, Group>, d: map<Id, nat>) {
    Leveled(t, d) && Capped(d) && ActiveUpwards(t)
  }

  lemma CreateIsSound(t: map<Id, Group>, d: map<Id, nat>, user: User, id: Id, parent: Option<Id>)
    requires Sound(t, d) && id !in t && CreateRefusal(t, d, user, parent).None?
    ensures Sound(t[id := Group(parent, true)], d[id := if parent.None? then 1 else d[parent.value] + 1])
  {
    CreateKeepsForest(t, d, id, parent);
    forall g | g in t ensures t[g].parent.Some? ==> t[g].parent.value in t { assert LevelOk(t, d, g); }
  }

  lemma MoveIsSound(t: map<Id, Group>, d: map<Id, nat>, user: User, g: Id, parent: Option<Id>, h: nat)
    requires Sound(t, d) && g in t && IsHeight(t, d, g, h) && MoveRefusal(t, d, user, g, parent, h).None?
    ensures parent.Some? ==> parent.value in t
    ensures Sound(Moved(t, g, parent), MovedLevels(t, d, g, if parent.None? then 1 else d[parent.value] + 1))
  {
    MoveKeepsLevels(t, d, g, parent);
    MovedStaysActive(t, g, parent);
    if parent.None? {
      DetachIsCapped(t, d, g);
    } else {
      MovedIsCapped(t, d, g, d[parent.value] + 1, h);
    }
  }

  lemma MovedStaysActive(t: map<Id, Group>, g: Id, parent: Option<Id>)
    requires ActiveUpwards(t) && g in t && (parent.Some? ==> parent.value in t && t[parent.value].active)
    ensures ActiveUpwards(Moved(t, g, parent))
  {}

  lemma DissolveIsSound(t: map<Id, Group>, d: map<Id, nat>, g: Id)
    requires Sound(t, d) && g in t && !HasActiveChild(t, g)
    ensures Sound(t[g := t[g].(active := false)], d)
  {
    hide Capped;
    forall x | x in t ensures LevelOk(t[g := t[g].(active := false)], d, x) {
      assert LevelOk(t, d, x);
    }
  }

  predicate HasActiveChild(t: map<Id, Group>, g: Id) {
    exists c :: c in t && t[c].parent == Some(g) && t[c].active
  }

  // ---- Runs ---------------------------------------------------------------------------------

  datatype Request =
    | CreateGroup(id: Id, parent: Option<Id>)
    | MoveGroup(g: Id, parent: Option<Id>)
    | DissolveGroup(g: Id)

  /** A forest within the cap, whatever its levels are. */
  ghost predicate Healthy(t: map<Id, Group>) {
    exists d :: Sound(t, d)
  }

  /** What a request does to a tree with levels `d`, in which a moved group has height `h`. */
  ghost predicate Serves(t: map<Id, Group>, d: map<Id, nat>, h: nat, user: User, r: Request, t': map<Id, Group>)
    requires Leveled(t, d)
  {
    match r
    case CreateGroup(id, parent) =>
      id !in t && t' == if CreateRefusal(t, d, user, parent).Some? then t else t[id := Group(parent, true)]
    case MoveGroup(g, parent) =>
      && g in t && IsHeight(t, d, g, h)
      && t' == if MoveRefusal(t, d, user, g, parent, h).Some? then t else Moved(t, g, parent)
    case DissolveGroup(g) =>
      g in t && t' == if HasActiveChild(t, g) then t else t[g := t[g].(active := false)]
  }

  ghost predicate Next(t: map<Id, Group>, t': map<Id, Group>) {
    exists d, h, user, r :: Leveled(t, d) && Serves(t, d, h, user, r, t')
  }

  lemma {:induction false} LevelsAreUnique(t: map<Id, Group>, d: map<Id, nat>, e: map<Id, nat>, g: Id)
    requires Leveled(t, d) && Leveled(t, e) && g in t
    ensures d[g] == e[g]
    decreases d[g]
  {
    assert LevelOk(t, d, g) && LevelOk(t, e, g);
    if t[g].parent.Some? {
      LevelsAreUnique(t, d, e, t[g].parent.value);
    }
  }

  lemma NextIsHealthy(t: map<Id, Group>, t': map<Id, Group>)
    requires Healthy(t) && Next(t, t')
    ensures Healthy(t')
  {
    hide Capped, ActiveUpwards, Below, IsHeight, LevelOk, Managed;
    var e :| Sound(t, e);
    var d, h, user, r :| Leveled(t, d) && Serves(t, d, h, user, r, t');
    forall g | g in t ensures d[g] == e[g] { LevelsAreUnique(t, d, e, g); }
    assert d == e;
    if t' != t {
      match r
      case CreateGroup(id, parent) =>
        CreateIsSound(t, d, user, id, parent);
        assert Sound(t', d[id := if parent.None? then 1 else d[parent.value] + 1]);
      case MoveGroup(g, parent) =>
        MoveIsSound(t, d, user, g, parent, h);
        assert Sound(t', MovedLevels(t, d, g, if parent.None? then 1 else d[parent.value] + 1));
      case DissolveGroup(g) =>
        DissolveIsSound(t, d, g);
        assert Sound(t', d);
    }
  }

  /**
    Under any sequence of creations, moves and dissolutions, by any users, the groups stay a
    forest of depth at most 16 in which no active group hangs under an inactive one.
  */
  lemma {:induction false} AlwaysAForest(states: seq<map<Id, Group>>, n: nat)
    requires n < |states| && states[0] == map[]
    requires forall i :: 0 <= i < |states| - 1 ==> Next(states[i], states[i + 1])
    ensures IsForest(states[n]) && ActiveUpwards(states[n])
  {
    StatesAreHealthy(states, n);
    var d :| Sound(states[n], d);
  }

  lemma {:induction false} StatesAreHealthy(states: seq<map<Id, Group>>, n: nat)
    requires n < |states| && states[0] == map[]
    requires forall i :: 0 <= i < |states| - 1 ==> Next(states[i], states[i + 1])
    ensures Healthy(states[n])
  {
    if n == 0 {
      assert Sound(states[0], map[]);
    } else {
      StatesAreHealthy(states, n - 1);
      assert Next(states[n - 1], states[n - 1 + 1]);
      NextIsHealthy(states[n - 1], states[n]);
    }
  }

  /** `found` are the `depth` upper levels of the subtree of `g`, and `level` is the next one. */
  ghost predicate Descended(t: map<Id, Group>, d: map<Id, nat>, g: Id, found: set<Id>, level: set<Id>, depth: nat)
    requires Leveled(t, d) && g in t
  {
    && g in found + level && Children(t, found) <= found + level
    && (forall x :: x in found + level ==> x in t && Below(t, d, x, g))
    && (forall x :: x in found ==> d[x] < d[g] + depth)
    && (forall x :: x in level ==> d[x] == d[g] + depth)
    && (depth > 0 ==> exists x :: x in found && d[x] + 1 == d[g] + depth)
    && (level == {} ==> depth > 0)
  }

  lemma DescentStarts(t: map<Id, Group>, d: map<Id, nat>, g: Id)
    requires Leveled(t, d) && g in t
    ensures Descended(t, d, g, {}, {g}, 0)
  {
    BelowParent(t, d, g, g);
  }

  lemma DescentGoesOn(t: map<Id, Group>, d: map<Id, nat>, g: Id, found: set<Id>, level: set<Id>, depth: nat)
    requires Leveled(t, d) && Capped(d) && g in t && level != {} && Descended(t, d, g, found, level, depth)
    ensures Descended(t, d, g, found + level, Children(t, level), depth + 1)
    ensures depth < MAX_GROUP_DEPTH
  {
    hide Below, Capped;
    var deepest :| deepest in level;
    assert d[deepest] <= MAX_GROUP_DEPTH && 1 <= d[g] by { CapAt(d, deepest); CapAt(d, g); }
    forall x | x in Children(t, level) ensures Below(t, d, x, g) && d[x] == d[g] + depth + 1 {
      BelowParent(t, d, x, g);
      assert LevelOk(t, d, x);
    }
  }

  lemma CapAt(d: map<Id, nat>, g: Id)
    requires Capped(d) && g in d
    ensures 1 <= d[g] <= MAX_GROUP_DEPTH
  {}

  lemma DescentIsComplete(t: map<Id, Group>, d: map<Id, nat>, g: Id, found: set<Id>, depth: nat)
    requires Leveled(t, d) && g in t && Descended(t, d, g, found, {}, depth)
    ensures IsHeight(t, d, g, depth)
    ensures forall x :: x in found <==> x in t && Below(t, d, x, g)
  {
    hide Below;
    forall x | x in t && Below(t, d, x, g) ensures x in found {
      ClosedContainsSubtree(t, d, found, g, x);
    }
  }

  class GroupDirectory {
    var groups: map<Id, Group>
    /** The levels, which exist as long as the parents form a forest. */
    ghost var levels: map<Id, nat>

    ghost predicate Valid()
      reads this
    {
      Sound(groups, levels)
    }

    constructor ()
      ensures Valid() && groups == map[]
    {
      groups, levels := map[], map[];
    }

    /** The walk up. */
    method AncestorIds(g: Id) returns (ids: seq<Id>)
      requires Valid() && g in groups
      ensures ids == Ancestors(groups, levels, g)
    {
      ids := [g];
      var at := groups[g].parent;
      ghost var rest := Ancestors(groups, levels, g)[1..];
      assert LevelOk(groups, levels, g);
      while at.Some?
        invariant at.Some? ==> at.value in groups
        invariant rest == if at.None? then [] else Ancestors(groups, levels, at.value)
        invariant ids + rest == Ancestors(groups, levels, g)
        decreases if at.None? then 0 else levels[at.value]
      {
        assert LevelOk(groups, levels, at.value);
        assert rest == [at.value] + rest[1..];
        ids := ids + [at.value];
        at := groups[at.value].parent;
        rest := rest[1..];
      }
    }

    /**
      The walk down, level by level. It ends, and the groups it meets are those whose walk up
      meets `g`; it has gone down as many levels as the subtree is high.
    */
    method Descend(g: Id) returns (found: set<Id>, depth: nat)
      requires Valid() && g in groups
      ensures forall x :: x in found <==> x in groups && Below(groups, levels, x, g)
      ensures IsHeight(groups, levels, g, depth)
    {
      hide Below, ActiveUpwards, Leveled, Descended, IsHeight;
      found, depth := {}, 0;
      var level := {g};
      DescentStarts(groups, levels, g);
      while level != {}
        invariant Descended(groups, levels, g, found, level, depth)
        decreases MAX_GROUP_DEPTH - depth
      {
        DescentGoesOn(groups, levels, g, found, level, depth);
        found, level, depth := found + level, Children(groups, level), depth + 1;
      }
      DescentIsComplete(groups, levels, g, found, depth);
    }

    method DescendantIds(g: Id) returns (found: set<Id>)
      requires Valid() && g in groups
      ensures forall x :: x in found <==> x in groups && g in Ancestors(groups, levels, x)
    {
      var depth: nat;
      found, depth := Descend(g);
      assert forall x :: x in groups ==> (Below(groups, levels, x, g) <==> g in Ancestors(groups, levels, x));
    }

    method SubtreeDepth(g: Id) returns (depth: nat)
      requires Valid() && g in groups
      ensures IsHeight(groups, levels, g, depth)
    {
      var found: set<Id>;
      found, depth := Descend(g);
    }

    /** Whether the user is a manager of the group, of its own or by inheritance. */
    method IsManager(user: User, g: Id) returns (manager: bool)
      requires Valid()
      ensures manager <==> MayManage(groups, levels, user, g)
    {
      if user.admin {
        return true;
      }
      var roles := EffectiveRoles(groups, levels, user.memberships, [g]);
      ManagerIff(groups, levels, user.memberships, g);
      assert g in [g];
      return g in roles && Manager(roles[g]);
    }

    method Create(id: Id, user: User, parent: Option<Id>) returns (refusal: Option<GroupError>)
      requires Valid() && id !in groups
      modifies this
      ensures Valid()
      ensures refusal == CreateRefusal(old(groups), old(levels), user, parent)
      ensures groups == if refusal.Some? then old(groups) else old(groups)[id := Group(parent, true)]
      ensures Serves(old(groups), old(levels), 0, user, CreateGroup(id, parent), groups)
    {
      hide Capped, ActiveUpwards, LevelOk, Managed;
      if parent.Some? {
        if parent.value !in groups || !groups[parent.value].active {
          return Some(GroupNotFound);
        }
        var manager := IsManager(user, parent.value);
        if !manager {
          return Some(PermissionDenied);
        }
        var ancestors := AncestorIds(parent.value);
        if |ancestors| + 1 > MAX_GROUP_DEPTH {
          return Some(DepthExceeded);
        }
      }
      CreateIsSound(groups, levels, user, id, parent);
      levels := levels[id := if parent.None? then 1 else levels[parent.value] + 1];
      groups := groups[id := Group(parent, true)];
      return None;
    }

    /** Moves a live group under another parent, or to the top. */
    method ApplyParent(g: Id, user: User, parent: Option<Id>) returns (refusal: Option<GroupError>, ghost h: nat)
      requires Valid() && g in groups && groups[g].active
      modifies this
      ensures Valid()
      ensures IsHeight(old(groups), old(levels), g, h)
      ensures refusal == MoveRefusal(old(groups), old(levels), user, g, parent, h)
      ensures groups == if refusal.Some? then old(groups) else Moved(old(groups), g, parent)
      ensures Serves(old(groups), old(levels), h, user, MoveGroup(g, parent), groups)
    {
      hide MovedLevels, Capped, ActiveUpwards, LevelOk, Below, IsHeight, Managed;
      var found, height := Descend(g);
      if parent == Some(g) {
        return Some(Cycle), height;
      }
      if parent.Some? {
        var p := parent.value;
        if p !in groups || !groups[p].active {
          return Some(GroupNotFound), height;
        }
        if p in found {
          return Some(Cycle), height;
        }
        var manager := IsManager(user, p);
        if !manager {
          return Some(PermissionDenied), height;
        }
        var ancestors := AncestorIds(p);
        if |ancestors| + height > MAX_GROUP_DEPTH {
          return Some(DepthExceeded), height;
        }
      }
      MoveIsSound(groups, levels, user, g, parent, height);
      levels := MovedLevels(groups, levels, g, if parent.None? then 1 else levels[parent.value] + 1);
      groups := groups[g := groups[g].(parent := parent)];
      return None, height;
    }

    /** Dissolves a group that has no active child. */
    method Dissolve(g: Id) returns (refusal: Option<GroupError>)
      requires Valid() && g in groups
      modifies this
      ensures Valid()
      ensures refusal == if HasActiveChild(old(groups), g) then Some(HasChildren) else None
      ensures groups == if refusal.Some? then old(groups) else old(groups)[g := old(groups)[g].(active := false)]
      ensures forall user :: Serves(old(groups), old(levels), 0, user, DissolveGroup(g), groups)
    {
      if HasActiveChild(groups, g) {
        return Some(HasChildren);
      }
      DissolveIsSound(groups, levels, g);
      groups := groups[g := groups[g].(active := false)];
      return None;
    }
  }
}
