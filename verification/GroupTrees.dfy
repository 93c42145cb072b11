/** The group forest: levels, ancestors and descendants, and what reparenting does to them. */
module GroupTrees {
  import opened Prelude

  type Id = nat

  datatype Group = Group(parent: Option<Id>, active: bool)

  const MAX_GROUP_DEPTH: nat := 16

  // ---- Forests ------------------------------------------------------------------------------

  /** `d` gives each group its level: 1 for a root, one more than its parent's for any other. */
  predicate Leveled(t: map<Id, Group>, d: map<Id, nat>) {
    && d.Keys == t.Keys
    && forall g :: g in t ==> LevelOk(t, d, g)
  }

  predicate LevelOk(t: map<Id, Group>, d: map<Id, nat>, g: Id)
    requires d.Keys == t.Keys && g in t
  {
    match t[g].parent
    case None => d[g] == 1
    case Some(p) => p in t && d[g] == d[p] + 1
  }

  predicate Capped(d: map<Id, nat>) {
    forall g :: g in d ==> 1 <= d[g] <= MAX_GROUP_DEPTH
  }

  /** No cycle and no group deeper than the cap: the parents admit levels up to it. */
  ghost predicate IsForest(t: map<Id, Group>) {
    exists d :: Leveled(t, d) && Capped(d)
  }

  /** From the group itself up to its root. */
  ghost function Ancestors(t: map<Id, Group>, d: map<Id, nat>, g: Id): (a: seq<Id>)
    requires Leveled(t, d) && g in t
    ensures |a| == d[g] && a[0] == g
    ensures forall x :: x in a ==> x in t && d[x] <= d[g]
    decreases d[g]
  {
    assert LevelOk(t, d, g);
    if t[g].parent.None? then [g] else [g] + Ancestors(t, d, t[g].parent.value)
  }

  /** `x` is in the subtree of `g`: itself or a descendant. */
  ghost predicate Below(t: map<Id, Group>, d: map<Id, nat>, x: Id, g: Id)
    requires Leveled(t, d) && x in t
  {
    g in Ancestors(t, d, x)
  }

  lemma BelowParent(t: map<Id, Group>, d: map<Id, nat>, x: Id, g: Id)
    requires Leveled(t, d) && x in t
    ensures t[x].parent.Some? ==> t[x].parent.value in t
    ensures Below(t, d, x, g) <==> x == g || (t[x].parent.Some? && Below(t, d, t[x].parent.value, g))
    ensures Below(t, d, x, g) ==> g in t && d[g] <= d[x] && (d[g] == d[x] ==> x == g)
    ensures Below(t, d, x, x)
  {
    assert LevelOk(t, d, x);
    var a := Ancestors(t, d, x);
    assert x == a[0];
    if t[x].parent.Some? {
      var up := Ancestors(t, d, t[x].parent.value);
      assert a == [x] + up;
      assert g in up ==> g in a;
    }
  }

  lemma {:induction false} BelowIsTransitive(t: map<Id, Group>, d: map<Id, nat>, x: Id, y: Id, z: Id)
    requires Leveled(t, d) && x in t && y in t && Below(t, d, x, y) && Below(t, d, y, z)
    ensures Below(t, d, x, z)
    decreases d[x]
  {
    BelowParent(t, d, x, y);
    BelowParent(t, d, x, z);
    if x != y {
      assert LevelOk(t, d, x);
      BelowIsTransitive(t, d, t[x].parent.value, y, z);
    }
  }

  function Children(t: map<Id, Group>, s: set<Id>): set<Id> {
    set x | x in t && t[x].parent.Some? && t[x].parent.value in s
  }

  /** Going down from `g` reaches exactly the groups whose way up passes `g`. */
  lemma {:induction false} ClosedContainsSubtree(t: map<Id, Group>, d: map<Id, nat>, s: set<Id>, g: Id, x: Id)
    requires Leveled(t, d) && g in s && Children(t, s) <= s
    requires x in t && Below(t, d, x, g)
    ensures x in s
    decreases d[x]
  {
    BelowParent(t, d, x, g);
    if x != g {
      assert LevelOk(t, d, x);
      ClosedContainsSubtree(t, d, s, g, t[x].parent.value);
      assert x in Children(t, s);
    }
  }

  /** The height of a subtree: a leaf has 1. */
  ghost predicate IsHeight(t: map<Id, Group>, d: map<Id, nat>, g: Id, h: nat)
    requires Leveled(t, d) && g in t
  {
    && (forall x :: x in t && Below(t, d, x, g) ==> d[x] + 1 <= d[g] + h)
    && (exists x :: x in t && Below(t, d, x, g) && d[x] + 1 == d[g] + h)
  }

  // ---- Creating and moving ------------------------------------------------------------------

  /** A new group is a leaf one level below its parent. */
  lemma CreateKeepsForest(t: map<Id, Group>, d: map<Id, nat>, id: Id, parent: Option<Id>)
    requires Leveled(t, d) && id !in t && (parent.Some? ==> parent.value in t)
    ensures Leveled(t[id := Group(parent, true)], d[id := if parent.None? then 1 else d[parent.value] + 1])
  {
    var t', d' := t[id := Group(parent, true)], d[id := if parent.None? then 1 else d[parent.value] + 1];
    forall g | g in t' ensures LevelOk(t', d', g) {
      if g != id { assert LevelOk(t, d, g); }
    }
  }

  function Moved(t: map<Id, Group>, g: Id, parent: Option<Id>): map<Id, Group>
    requires g in t
  {
    t[g := t[g].(parent := parent)]
  }

  /** The levels after `g` has moved to level `level`: its subtree moves with it. */
  ghost function MovedLevels(t: map<Id, Group>, d: map<Id, nat>, g: Id, level: nat): map<Id, nat>
    requires Leveled(t, d) && g in t
  {
    map x | x in t :: if Below(t, d, x, g) then MovedLevel(t, d, x, g, level) else d[x]
  }

  ghost function MovedLevel(t: map<Id, Group>, d: map<Id, nat>, x: Id, g: Id, level: nat): nat
    requires Leveled(t, d) && g in t && x in t && Below(t, d, x, g)
  {
    BelowParent(t, d, x, g);
    d[x] - d[g] + level
  }

  /** Moving a group out of its subtree keeps a forest. */
  lemma MoveKeepsLevels(t: map<Id, Group>, d: map<Id, nat>, g: Id, parent: Option<Id>)
    requires Leveled(t, d) && g in t
    requires parent.Some? ==> parent.value in t && !Below(t, d, parent.value, g)
    ensures Leveled(Moved(t, g, parent), MovedLevels(t, d, g, if parent.None? then 1 else d[parent.value] + 1))
  {
    var level := if parent.None? then 1 else d[parent.value] + 1;
    var t', d' := Moved(t, g, parent), MovedLevels(t, d, g, level);
    forall x | x in t' ensures LevelOk(t', d', x) {
      assert LevelOk(t, d, x);
      BelowParent(t, d, x, g);
      if x != g && t[x].parent.Some? {
        BelowParent(t, d, t[x].parent.value, g);
      }
    }
  }

  /** Levels of any kind agree outside the moved subtree, and follow the moved group inside it. */
  lemma {:induction false} LevelsAreForced(t: map<Id, Group>, d: map<Id, nat>, g: Id, parent: Option<Id>,
                                           d': map<Id, nat>, x: Id)
    requires Leveled(t, d) && g in t && Leveled(Moved(t, g, parent), d') && x in t
    ensures if Below(t, d, x, g) then d'[x] + d[g] == d'[g] + d[x] else d'[x] == d[x]
    decreases d[x]
  {
    BelowParent(t, d, x, g);
    assert LevelOk(t, d, x) && LevelOk(Moved(t, g, parent), d', x);
    if x != g && t[x].parent.Some? {
      LevelsAreForced(t, d, g, parent, d', t[x].parent.value);
    }
  }

  /** Any levels of the moved forest show that both checks passed. */
  lemma MovedForestPasses(t: map<Id, Group>, d: map<Id, nat>, g: Id, p: Id, h: nat, d': map<Id, nat>)
    requires Leveled(t, d) && g in t && p in t && IsHeight(t, d, g, h)
    requires Leveled(Moved(t, g, Some(p)), d') && Capped(d')
    ensures !Below(t, d, p, g) && d[p] + h <= MAX_GROUP_DEPTH
  {
    var t' := Moved(t, g, Some(p));
    assert LevelOk(t', d', g);
    LevelsAreForced(t, d, g, Some(p), d', p);
    BelowParent(t, d, p, g);
    var x :| x in t && Below(t, d, x, g) && d[x] + 1 == d[g] + h;
    LevelsAreForced(t, d, g, Some(p), d', x);
    assert d'[x] == d[p] + h;
  }

  /**
    The two checks of a move are exact: under a new parent there is a forest within the cap if and
    only if the parent is not in the moved subtree and its level and the height of the subtree
    together stay within the cap.
  */
  lemma MoveIsForestIff(t: map<Id, Group>, d: map<Id, nat>, g: Id, p: Id, h: nat)
    requires Leveled(t, d) && Capped(d) && g in t && p in t && IsHeight(t, d, g, h)
    ensures IsForest(Moved(t, g, Some(p))) <==> !Below(t, d, p, g) && |Ancestors(t, d, p)| + h <= MAX_GROUP_DEPTH
  {
    hide Below, IsHeight, LevelOk, Capped, MovedLevels;
    if d' :| Leveled(Moved(t, g, Some(p)), d') && Capped(d') {
      MovedForestPasses(t, d, g, p, h, d');
    }
    if !Below(t, d, p, g) && d[p] + h <= MAX_GROUP_DEPTH {
      MoveKeepsLevels(t, d, g, Some(p));
      MovedIsCapped(t, d, g, d[p] + 1, h);
    }
  }

  lemma MovedIsCapped(t: map<Id, Group>, d: map<Id, nat>, g: Id, level: nat, h: nat)
    requires Leveled(t, d) && Capped(d) && g in t && IsHeight(t, d, g, h)
    requires 1 <= level && level + h - 1 <= MAX_GROUP_DEPTH
    ensures Capped(MovedLevels(t, d, g, level))
  {
    forall x | x in t ensures 1 <= MovedLevels(t, d, g, level)[x] <= MAX_GROUP_DEPTH {
      BelowParent(t, d, x, g);
    }
  }

  /** Detaching a subtree always stays within the cap. */
  lemma DetachIsCapped(t: map<Id, Group>, d: map<Id, nat>, g: Id)
    requires Leveled(t, d) && Capped(d) && g in t
    ensures Capped(MovedLevels(t, d, g, 1))
  {
    forall x | x in t ensures 1 <= MovedLevels(t, d, g, 1)[x] <= MAX_GROUP_DEPTH {
      BelowParent(t, d, x, g);
    }
  }
}
