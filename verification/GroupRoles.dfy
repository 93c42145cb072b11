/** Roles in the group forest: inherited upwards along active ancestors, seen downwards. */
module GroupRoles {
  import opened Prelude
  import opened GroupTrees

  datatype Role = Owner | Admin | Member

  datatype Membership = Membership(role: Role, active: bool)

  /** The memberships of one user, by group. */
  type Memberships = map<Id, Membership>

  predicate Manager(r: Role) { r == Owner || r == Admin }

  predicate IsMember(m: Memberships, g: Id) { g in m && m[g].active }

  predicate Manages(m: Memberships, g: Id) { IsMember(m, g) && Manager(m[g].role) }

  /** An active group and its ancestors up to the first inactive one. */
  ghost function ActiveChain(t: map<Id, Group>, d: map<Id, nat>, g: Id): seq<Id>
    requires Leveled(t, d)
    decreases if g in t then d[g] else 0
  {
    if g !in t || !t[g].active then []
    else
      assert LevelOk(t, d, g);
      [g] + if t[g].parent.None? then [] else ActiveChain(t, d, t[g].parent.value)
  }

  /** A manager somewhere strictly above, with only active groups in between. */
  ghost predicate Inherits(t: map<Id, Group>, d: map<Id, nat>, m: Memberships, g: Id)
    requires Leveled(t, d)
  {
    ActiveChain(t, d, g) != [] && exists a :: a in ActiveChain(t, d, g)[1..] && Manages(m, a)
  }

  /** The role in an active group: one's own, unless an inherited manager lifts it to admin. */
  ghost function EffectiveRole(t: map<Id, Group>, d: map<Id, nat>, m: Memberships, g: Id): Option<Role>
    requires Leveled(t, d)
  {
    if ActiveChain(t, d, g) == [] then None
    else if IsMember(m, g) && m[g].role == Owner then Some(Owner)
    else if (IsMember(m, g) && m[g].role == Admin) || Inherits(t, d, m, g) then Some(Admin)
    else if IsMember(m, g) then Some(Member)
    else None
  }

  /** Managed at some group of the active chain, the group itself included. */
  ghost predicate Managed(t: map<Id, Group>, d: map<Id, nat>, m: Memberships, g: Id)
    requires Leveled(t, d)
  {
    exists a :: a in ActiveChain(t, d, g) && Manages(m, a)
  }

  lemma ManagedIff(t: map<Id, Group>, d: map<Id, nat>, m: Memberships, g: Id)
    requires Leveled(t, d)
    ensures Managed(t, d, m, g) <==> g in t && t[g].active && (Manages(m, g) || Inherits(t, d, m, g))
    ensures Managed(t, d, m, g) <==>
              && g in t && t[g].active
              && (Manages(m, g) || (t[g].parent.Some? && Managed(t, d, m, t[g].parent.value)))
  {
    var chain := ActiveChain(t, d, g);
    if chain != [] {
      assert chain == [g] + chain[1..];
      assert forall a :: a in chain <==> a == g || a in chain[1..];
    }
  }

  /** A group is managed exactly if the role in it is a manager's. */
  lemma ManagerIff(t: map<Id, Group>, d: map<Id, nat>, m: Memberships, g: Id)
    requires Leveled(t, d)
    ensures Managed(t, d, m, g)
       <==> EffectiveRole(t, d, m, g).Some? && Manager(EffectiveRole(t, d, m, g).value)
  {
    ManagedIff(t, d, m, g);
  }

  /** What the tree shows: active groups with an own membership, and managed ones. */
  lemma RoleIff(t: map<Id, Group>, d: map<Id, nat>, m: Memberships, g: Id)
    requires Leveled(t, d)
    ensures EffectiveRole(t, d, m, g).Some?
       <==> g in t && t[g].active && (IsMember(m, g) || Managed(t, d, m, g))
  {
    ManagedIff(t, d, m, g);
  }

  /** An effective manager of an active parent is an effective manager of each active child. */
  lemma ManagersReachChildren(t: map<Id, Group>, d: map<Id, nat>, m: Memberships, p: Id, c: Id)
    requires Leveled(t, d) && c in t && t[c].parent == Some(p) && t[c].active
    requires EffectiveRole(t, d, m, p).Some? && Manager(EffectiveRole(t, d, m, p).value)
    ensures EffectiveRole(t, d, m, c).Some? && Manager(EffectiveRole(t, d, m, c).value)
  {
    ManagerIff(t, d, m, p);
    ManagedIff(t, d, m, c);
    ManagerIff(t, d, m, c);
  }

  /** Who only ever is a plain member manages nothing, and is shown the groups of those memberships alone. */
  lemma MembersManageNothing(t: map<Id, Group>, d: map<Id, nat>, m: Memberships, g: Id)
    requires Leveled(t, d) && forall a :: a in m && m[a].active ==> m[a].role == Member
    ensures EffectiveRole(t, d, m, g)
         == if g in t && t[g].active && g in m && m[g].active then Some(Member) else None
  {}

  /**
    The roles in terms of the rows: admin without owning the group is who is its admin, or owner or
    admin of a group above it with only active groups in between; plain member is who is neither and
    has a membership of the group itself.
  */
  lemma RolesAre(t: map<Id, Group>, d: map<Id, nat>, m: Memberships, g: Id)
    requires Leveled(t, d)
    ensures var chain := ActiveChain(t, d, g);
            var above := exists a :: chain != [] && a in chain[1..] && a in m && m[a].active
                                     && (m[a].role == Owner || m[a].role == Admin);
            var own := if g in m && m[g].active then Some(m[g].role) else None;
            EffectiveRole(t, d, m, g)
              == if chain == [] then None
                 else if own == Some(Owner) then own
                 else if above || own == Some(Admin) then Some(Admin)
                 else own
  {
    assert Inherits(t, d, m, g) <==>
             ActiveChain(t, d, g) != [] && exists a :: a in ActiveChain(t, d, g)[1..] && a in m && m[a].active
                                                       && (m[a].role == Owner || m[a].role == Admin);
  }

  /** Inheritance never yields owner: only an own active membership of an active group does. */
  lemma OwnersOwn(t: map<Id, Group>, d: map<Id, nat>, m: Memberships, g: Id)
    requires Leveled(t, d)
    ensures EffectiveRole(t, d, m, g) == Some(Owner)
       <==> g in t && t[g].active && g in m && m[g] == Membership(Owner, true)
  {}

  /** An inactive ancestor cuts inheritance: what is above it does not count. */
  lemma InactiveAncestorsCut(t: map<Id, Group>, d: map<Id, nat>, m: Memberships, g: Id)
    requires Leveled(t, d) && g in t && t[g].parent.Some? && t[g].parent.value in t && !t[t[g].parent.value].active
    ensures EffectiveRole(t, d, m, g)
         == if t[g].active && IsMember(m, g) then Some(m[g].role) else None
  {
    assert LevelOk(t, d, g);
    assert ActiveChain(t, d, t[g].parent.value) == [];
    assert t[g].active ==> ActiveChain(t, d, g) == [g];
  }

  /** The parent of an active group is active, as creating, moving and dissolving groups keep it. */
  predicate ActiveUpwards(t: map<Id, Group>) {
    forall g :: g in t && t[g].active && t[g].parent.Some? && t[g].parent.value in t ==> t[t[g].parent.value].active
  }

  /** Then nothing ever cuts the chain: roles come from all ancestors. */
  lemma {:induction false} ChainIsAncestry(t: map<Id, Group>, d: map<Id, nat>, g: Id)
    requires Leveled(t, d) && ActiveUpwards(t) && g in t && t[g].active
    ensures ActiveChain(t, d, g) == Ancestors(t, d, g)
    decreases d[g]
  {
    assert LevelOk(t, d, g);
    if t[g].parent.Some? {
      ChainIsAncestry(t, d, t[g].parent.value);
    }
  }

  // ---- Walking down -------------------------------------------------------------------------

  function ActiveChildren(t: map<Id, Group>, s: set<Id>): set<Id> {
    set x | x in t && t[x].active && t[x].parent.Some? && t[x].parent.value in s
  }

  /** A set with the managed groups at its top that is closed downwards holds all managed groups. */
  lemma {:induction false} ClosedContainsManaged(t: map<Id, Group>, d: map<Id, nat>, m: Memberships, s: set<Id>, x: Id)
    requires Leveled(t, d) && ActiveChildren(t, s) <= s && Managed(t, d, m, x)
    requires forall a :: a in t && t[a].active && Manages(m, a) ==> a in s
    ensures x in s
    decreases if x in t then d[x] else 0
  {
    ManagedIff(t, d, m, x);
    if !Manages(m, x) {
      assert LevelOk(t, d, x);
      ClosedContainsManaged(t, d, m, s, t[x].parent.value);
      assert x in ActiveChildren(t, s);
    }
  }

  lemma ChildrenAreManaged(t: map<Id, Group>, d: map<Id, nat>, m: Memberships, s: set<Id>)
    requires Leveled(t, d) && forall x :: x in s ==> Managed(t, d, m, x)
    ensures forall x :: x in ActiveChildren(t, s) ==> Managed(t, d, m, x)
  {
    forall x | x in ActiveChildren(t, s) ensures Managed(t, d, m, x) {
      ManagedIff(t, d, m, x);
    }
  }

  /**
    The walk down from the managed groups, level by level, as the tree view does it. It ends, and
    it finds exactly the groups that the walk up gives a role in.
  */
  method VisibleGroupIds(t: map<Id, Group>, ghost d: map<Id, nat>, m: Memberships) returns (visible: set<Id>)
    requires Leveled(t, d) && Capped(d)
    ensures forall g :: g in visible <==> EffectiveRole(t, d, m, g).Some?
  {
    var direct := set g | g in t && t[g].active && IsMember(m, g);
    var managers := set g | g in direct && Manager(m[g].role);
    forall g ensures EffectiveRole(t, d, m, g).Some? <==> g in direct || Managed(t, d, m, g) {
      RoleIff(t, d, m, g);
      ManagedIff(t, d, m, g);
    }
    if managers == {} {
      forall g ensures !Managed(t, d, m, g) {
        if Managed(t, d, m, g) { ClosedContainsManaged(t, d, m, {}, g); }
      }
      return direct;
    }
    var subtree := SubtreeOf(t, d, m, managers);
    visible := direct + subtree;
  }

  method SubtreeOf(t: map<Id, Group>, ghost d: map<Id, nat>, m: Memberships, managers: set<Id>)
    returns (found: set<Id>)
    requires Leveled(t, d) && Capped(d)
    requires forall g :: g in managers <==> g in t && t[g].active && Manages(m, g)
    ensures forall g :: g in found <==> Managed(t, d, m, g)
  {
    found := {};
    var level := managers;
    ghost var k: nat := 1;
    forall g | g in managers ensures Managed(t, d, m, g) { ManagedIff(t, d, m, g); }
    while level != {}
      invariant forall g :: g in found + level ==> Managed(t, d, m, g)
      invariant forall g :: g in level ==> g in t && d[g] >= k
      invariant managers <= found + level && ActiveChildren(t, found) <= found + level
      decreases MAX_GROUP_DEPTH + 1 - k
    {
      ghost var g :| g in level;
      assert k <= d[g] <= MAX_GROUP_DEPTH;
      ChildrenAreManaged(t, d, m, level);
      var next := ActiveChildren(t, level);
      forall x | x in next ensures d[x] >= k + 1 {
        assert LevelOk(t, d, x);
      }
      found := found + level;
      level := next;
      k := k + 1;
    }
    forall g | Managed(t, d, m, g) ensures g in found {
      ClosedContainsManaged(t, d, m, found, g);
    }
  }

  /** The walk up from one group: whether a manager stands above it. */
  method InheritsManager(t: map<Id, Group>, ghost d: map<Id, nat>, m: Memberships, g: Id) returns (inherited: bool)
    requires Leveled(t, d) && g in t && t[g].active
    ensures inherited <==> Inherits(t, d, m, g)
  {
    inherited := false;
    var up := t[g].parent;
    ghost var level := d[g];
    ghost var chain := ActiveChain(t, d, g)[1..];
    assert LevelOk(t, d, g);
    while up.Some? && up.value in t && t[up.value].active
      invariant up.Some? ==> up.value in t && d[up.value] < level
      invariant inherited || (exists a :: a in chain && Manages(m, a)) <==> Inherits(t, d, m, g)
      invariant chain == if up.None? then [] else ActiveChain(t, d, up.value)
      decreases level
    {
      var a := up.value;
      assert LevelOk(t, d, a);
      assert chain == [a] + chain[1..];
      if Manages(m, a) {
        inherited := true;
      }
      level := d[a];
      up := t[a].parent;
      chain := chain[1..];
    }
  }

  /** The roles in the groups asked for; groups without a relationship are left out. */
  method EffectiveRoles(t: map<Id, Group>, ghost d: map<Id, nat>, m: Memberships, groupIds: seq<Id>)
    returns (roles: map<Id, Role>)
    requires Leveled(t, d)
    ensures forall g :: g in roles <==> g in groupIds && EffectiveRole(t, d, m, g).Some?
    ensures forall g :: g in roles ==> EffectiveRole(t, d, m, g) == Some(roles[g])
  {
    roles := map[];
    for i := 0 to |groupIds|
      invariant forall g :: g in roles <==> g in groupIds[..i] && EffectiveRole(t, d, m, g).Some?
      invariant forall g :: g in roles ==> EffectiveRole(t, d, m, g) == Some(roles[g])
    {
      var g := groupIds[i];
      assert groupIds[..i + 1] == groupIds[..i] + [g];
      if g in t && t[g].active {
        var inherited := InheritsManager(t, d, m, g);
        if IsMember(m, g) && m[g].role == Owner {
          roles := roles[g := Owner];
        } else if (IsMember(m, g) && m[g].role == Admin) || inherited {
          roles := roles[g := Admin];
        } else if IsMember(m, g) {
          roles := roles[g := Member];
        }
      }
    }
  }
}
