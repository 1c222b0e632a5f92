/** How the deletes of disjoint subtrees compose, which is what the recursive cascade relies on. */
module Cascade {
  import opened Common
  import opened Registry
  import opened Tables
  import opened Lifecycle
  import opened Invariants
  import opened Preservation

  /** Rows processed or not keep owner and kind, and none appear. */
  lemma RowsShrink(descs: Descriptors, s: State, s': State, tree: set<Id>, now: Time)
    requires tree <= s.rows.Keys && TreeDeleted(descs, s, s', tree, now)
    ensures forall n :: n in s'.rows ==>
              n in s.rows && s'.rows[n].owner == s.rows[n].owner && s'.rows[n].kind == s.rows[n].kind
  {
    forall n | n in s'.rows
      ensures n in s.rows && s'.rows[n].owner == s.rows[n].owner && s'.rows[n].kind == s.rows[n].kind {
      ProcessedRows(descs, s, s', tree, now, n);
    }
  }

  /** A processed node stays processed when neither it nor its children are touched again. */
  lemma ProcessedStays(descs: Descriptors, s: State, s1: State, s2: State, n: Id, now: Time)
    requires n in s.rows && Processed(descs, s, s1, n, now) && Untouched(s1, s2, n)
    requires forall c :: IsChild(s1, n, c) <==> IsChild(s2, n, c)
    ensures Processed(descs, s, s2, n, now)
  {
    if HasChild(s1, n) {
      var c :| c in s1.rows && IsChild(s1, n, c);
      assert IsChild(s2, n, c);
    }
    if HasChild(s2, n) {
      var c :| c in s2.rows && IsChild(s2, n, c);
      assert IsChild(s1, n, c);
    }
  }

  /** Two deletes of disjoint trees, where the second does not reach under the first, are one delete of both. */
  lemma ComposeDeletes(descs: Descriptors, s: State, s1: State, s2: State, a: set<Id>, b: set<Id>, now: Time)
    requires a <= s.rows.Keys && b <= s1.rows.Keys && a !! b
    requires TreeDeleted(descs, s, s1, a, now) && TreeDeleted(descs, s1, s2, b, now)
    requires forall c :: c in s.rows && s.rows[c].owner.Some? && s.rows[c].owner.value in a ==> c !in b
    ensures a + b <= s.rows.Keys && TreeDeleted(descs, s, s2, a + b, now)
  {
    RowsShrink(descs, s, s1, a, now);
    RowsShrink(descs, s1, s2, b, now);
    forall n | n !in a + b ensures Untouched(s, s2, n) {
      assert Untouched(s, s1, n) && Untouched(s1, s2, n);
    }
    forall n | n in a + b ensures Processed(descs, s, s2, n, now) {
      if n in a {
        FirstStaysProcessed(descs, s, s1, s2, a, b, now, n);
      } else {
        assert Untouched(s, s1, n) && Processed(descs, s1, s2, n, now);
      }
    }
  }

  lemma FirstStaysProcessed(
    descs: Descriptors, s: State, s1: State, s2: State, a: set<Id>, b: set<Id>, now: Time, n: Id)
    requires a <= s.rows.Keys && b <= s1.rows.Keys && a !! b && n in a
    requires TreeDeleted(descs, s, s1, a, now) && TreeDeleted(descs, s1, s2, b, now)
    requires forall c :: c in s.rows && s.rows[c].owner.Some? && s.rows[c].owner.value in a ==> c !in b
    ensures Processed(descs, s, s2, n, now)
  {
    RowsShrink(descs, s, s1, a, now);
    RowsShrink(descs, s1, s2, b, now);
    assert Processed(descs, s, s1, n, now) && Untouched(s1, s2, n);
    forall c ensures IsChild(s1, n, c) <==> IsChild(s2, n, c) {
      if IsChild(s1, n, c) { assert Untouched(s1, s2, c); }
    }
    ProcessedStays(descs, s, s1, s2, n, now);
  }

  /** A subtree that a delete has not touched is the same tree afterwards. */
  lemma {:induction false} ReachesStable(
    descs: Descriptors, s: State, s1: State, tree: set<Id>, now: Time, c: Id, n: Id)
    requires AllRooted(descs) && tree <= s.rows.Keys && TreeDeleted(descs, s, s1, tree, now)
    requires Subtree(descs, s, c) !! tree
    ensures Reaches(descs, s1, c, n, true) <==> Reaches(descs, s, c, n, true)
    decreases DepthOf(descs, s, n)
  {
    RowsShrink(descs, s, s1, tree, now);
    if Reaches(descs, s, c, n, true) {
      CascadeReaches(descs, s, c, n);
      assert Untouched(s, s1, n);
      if n != c {
        var o := s.rows[n].owner.value;
        CascadeReaches(descs, s, c, o);
        assert Untouched(s, s1, o);
        OwnerIsShallower(descs, s, n);
        ReachesStable(descs, s, s1, tree, now, c, o);
        OwnerIsShallower(descs, s1, n);
      }
    }
    if Reaches(descs, s1, c, n, true) && n != c {
      OwnerIsShallower(descs, s1, n);
      OwnerIsShallower(descs, s, n);
      ReachesStable(descs, s, s1, tree, now, c, s.rows[n].owner.value);
    }
  }

  lemma TreeStable(descs: Descriptors, s: State, s1: State, tree: set<Id>, now: Time, c: Id)
    requires AllRooted(descs) && tree <= s.rows.Keys && TreeDeleted(descs, s, s1, tree, now)
    requires Subtree(descs, s, c) !! tree
    ensures CascadeTree(descs, s1, c) == CascadeTree(descs, s, c)
  {
    forall n ensures n in CascadeTree(descs, s1, c) <==> n in CascadeTree(descs, s, c) {
      ReachesStable(descs, s, s1, tree, now, c, n);
    }
  }

  /** The cascade trees of some children. */
  ghost function TreesOf(descs: Descriptors, s: State, children: set<Id>): set<Id>
    requires AllRooted(descs)
  {
    set n | n in s.rows && exists c :: c in children && Reaches(descs, s, c, n, true)
  }

  ghost predicate CascadeChild(descs: Descriptors, s: State, root: Id, c: Id) {
    IsChild(s, root, c) && OwnedProperly(descs, s, c) && descs[s.rows[c].kind].onParentDelete == Cascade
  }

  /** The tree of a child not yet processed is apart from the trees of those that are, and from their children. */
  lemma NextTreeApart(descs: Descriptors, s: State, root: Id, done: set<Id>, c: Id)
    requires AllRooted(descs) && CascadeChild(descs, s, root, c) && c !in done
    requires forall d :: d in done ==> CascadeChild(descs, s, root, d)
    ensures Subtree(descs, s, c) !! TreesOf(descs, s, done)
    ensures forall n :: n in s.rows && s.rows[n].owner.Some? && s.rows[n].owner.value in TreesOf(descs, s, done) ==>
              n !in CascadeTree(descs, s, c)
    ensures root !in Subtree(descs, s, c) && root !in TreesOf(descs, s, done)
  {
    forall n | n in Subtree(descs, s, c) ensures n !in TreesOf(descs, s, done) {
      if n in TreesOf(descs, s, done) {
        var d :| d in done && Reaches(descs, s, d, n, true);
        CascadeReaches(descs, s, d, n);
        SiblingsDisjoint(descs, s, root, c, d, n, false);
      }
    }
    RootAbove(descs, s, root, c);
    forall d | d in done ensures !Reaches(descs, s, d, root, true) {
      RootAbove(descs, s, root, d);
      if Reaches(descs, s, d, root, true) { CascadeReaches(descs, s, d, root); }
    }
    forall n | n in s.rows && s.rows[n].owner.Some? && s.rows[n].owner.value in TreesOf(descs, s, done)
      ensures n !in CascadeTree(descs, s, c)
    {
      if n in CascadeTree(descs, s, c) && n != c { CascadeReaches(descs, s, c, s.rows[n].owner.value); }
    }
  }

  lemma RootAbove(descs: Descriptors, s: State, root: Id, c: Id)
    requires AllRooted(descs) && IsChild(s, root, c) && OwnedProperly(descs, s, c)
    ensures !Reaches(descs, s, c, root, false)
  {
    OwnerIsShallower(descs, s, c);
    if Reaches(descs, s, c, root, false) && root != c { ReachesIsDeeper(descs, s, c, root, false); }
  }

  lemma TreesOfMore(descs: Descriptors, s: State, done: set<Id>, c: Id)
    requires AllRooted(descs)
    ensures TreesOf(descs, s, done + {c}) == TreesOf(descs, s, done) + CascadeTree(descs, s, c)
  {
    forall n | n in TreesOf(descs, s, done) + CascadeTree(descs, s, c) ensures n in TreesOf(descs, s, done + {c}) {
      if n in CascadeTree(descs, s, c) {
        assert c in done + {c} && Reaches(descs, s, c, n, true);
      } else {
        var d :| d in done && Reaches(descs, s, d, n, true);
        assert d in done + {c};
      }
    }
  }

  /** The whole cascade is the root and the trees of its cascading children. */
  lemma WholeTree(descs: Descriptors, s: State, root: Id, done: set<Id>)
    requires AllRooted(descs) && root in s.rows
    requires forall c :: c in done <==> CascadeChild(descs, s, root, c)
    ensures CascadeTree(descs, s, root) == TreesOf(descs, s, done) + {root}
  {
    forall n ensures n in CascadeTree(descs, s, root) <==> n in TreesOf(descs, s, done) + {root} {
      if n in CascadeTree(descs, s, root) && n != root {
        var c := ReachesThroughChild(descs, s, root, n, true);
        assert c in done;
      }
      if n in TreesOf(descs, s, done) {
        var c :| c in done && Reaches(descs, s, c, n, true);
        OwnerIsShallower(descs, s, c);
        assert Reaches(descs, s, root, c, true);
        ReachesTransitive(descs, s, root, c, n, true);
      }
    }
  }

  // ---------------------------------------------------------------------------------------
  // Blocking
  // ---------------------------------------------------------------------------------------

  /** Restrictions under an untouched subtree are the same before and after. */
  lemma RestrictionStable(descs: Descriptors, s: State, s1: State, tree: set<Id>, now: Time, c: Id)
    requires RegistryOk(descs) && Forest(descs, s) && tree <= s.rows.Keys && TreeDeleted(descs, s, s1, tree, now)
    requires Subtree(descs, s, c) !! tree
    ensures NoRestriction(descs, s1, CascadeTree(descs, s, c)) <==> NoRestriction(descs, s, CascadeTree(descs, s, c))
  {
    RowsShrink(descs, s, s1, tree, now);
    forall n
      ensures Restricts(descs, s1, CascadeTree(descs, s, c), n) <==> Restricts(descs, s, CascadeTree(descs, s, c), n) {
      if n in s.rows && s.rows[n].owner.Some? && s.rows[n].owner.value in CascadeTree(descs, s, c) {
        assert RowOk(descs, s, n);
        CascadeReaches(descs, s, c, s.rows[n].owner.value);
        OwnerIsShallower(descs, s, n);
        assert Reaches(descs, s, c, n, false);
        assert Untouched(s, s1, n);
      }
    }
  }

  lemma RestrictionParts(descs: Descriptors, s: State, a: set<Id>, b: set<Id>)
    requires NoRestriction(descs, s, a) && NoRestriction(descs, s, b)
    ensures NoRestriction(descs, s, a + b)
  {
    forall c | c in s.rows ensures !Restricts(descs, s, a + b, c) {
      assert !Restricts(descs, s, a, c) && !Restricts(descs, s, b, c);
    }
  }

  lemma RestrictionWhole(descs: Descriptors, s: State, part: set<Id>, whole: set<Id>)
    requires part <= whole && !NoRestriction(descs, s, part)
    ensures !NoRestriction(descs, s, whole)
  {
    var c :| c in s.rows && Restricts(descs, s, part, c);
    assert Restricts(descs, s, whole, c);
  }

  /** Who hangs below whom in an untouched subtree is the same before and after. */
  lemma BelowStable(
    descs: Descriptors, s: State, s1: State, tree: set<Id>, now: Time, c: Id, t: Id, n: Id)
    requires AllRooted(descs) && tree <= s.rows.Keys && TreeDeleted(descs, s, s1, tree, now)
    requires Subtree(descs, s, c) !! tree && t in CascadeTree(descs, s, c)
    ensures Reaches(descs, s1, t, n, true) <==> Reaches(descs, s, t, n, true)
  {
    CascadeReaches(descs, s, c, t);
    forall m | m in Subtree(descs, s, t)
      ensures m in Subtree(descs, s, c) { ReachesTransitive(descs, s, c, t, m, false); }
    ReachesStable(descs, s, s1, tree, now, t, n);
  }

  // ---------------------------------------------------------------------------------------
  // The order of a delete
  // ---------------------------------------------------------------------------------------

  ghost predicate Siblings(s: State, a: Id, b: Id) {
    a in s.rows && b in s.rows && a != b && s.rows[a].owner.Some? && s.rows[a].owner == s.rows[b].owner
  }

  lemma SiblingsApart(descs: Descriptors, s: State, a: Id, b: Id, n: Id)
    requires AllRooted(descs) && Forest(descs, s) && Siblings(s, a, b) && Reaches(descs, s, a, n, false)
    ensures !Reaches(descs, s, b, n, false)
  {
    assert RowOk(descs, s, a) && RowOk(descs, s, b);
    SiblingsDisjoint(descs, s, s.rows[a].owner.value, a, b, n, false);
  }

  /** Siblings above two rows: no sibling of such a pair is above one of another such pair. */
  lemma NotAbove(descs: Descriptors, s: State, a: Id, b: Id, c: Id, d: Id, y: Id)
    requires AllRooted(descs) && Forest(descs, s) && Siblings(s, a, b) && Siblings(s, c, d)
    requires Reaches(descs, s, b, y, false) && Reaches(descs, s, d, y, false)
    ensures Reaches(descs, s, a, c, false) ==> a == c
  {
    if Reaches(descs, s, a, c, false) && a != c {
      assert RowOk(descs, s, d);
      OwnerIsShallower(descs, s, c);
      OwnerIsShallower(descs, s, d);
      assert Reaches(descs, s, a, d, false);
      ReachesTransitive(descs, s, a, d, y, false);
      SiblingsApart(descs, s, a, b, y);
    }
  }

  /** Two rows part only once: the siblings above them are the only ones. */
  lemma PartOnce(descs: Descriptors, s: State, a: Id, b: Id, c: Id, d: Id, x: Id, y: Id)
    requires AllRooted(descs) && Forest(descs, s) && Siblings(s, a, b) && Siblings(s, c, d)
    requires Reaches(descs, s, a, x, false) && Reaches(descs, s, b, y, false)
    requires Reaches(descs, s, c, x, false) && Reaches(descs, s, d, y, false)
    ensures a == c && b == d
  {
    NotAbove(descs, s, a, b, c, d, y);
    NotAbove(descs, s, c, d, a, b, y);
    AncestorsComparable(descs, s, a, c, x, false);
    if b != d { SiblingsApart(descs, s, b, d, y); }
  }

  /** The branches of two rows of which neither is below the other. */
  lemma Branches(descs: Descriptors, s: State, order: Order, x: Id, y: Id) returns (a: Id, b: Id)
    requires AllRooted(descs) && Precedes(descs, s, order, x, y) && !Reaches(descs, s, y, x, true)
    ensures VisitedBefore(s, order, a, b) && Siblings(s, a, b)
    ensures Reaches(descs, s, a, x, true) && Reaches(descs, s, b, y, true)
    ensures Reaches(descs, s, a, x, false) && Reaches(descs, s, b, y, false)
  {
    a, b :| VisitedBefore(s, order, a, b) && Reaches(descs, s, a, x, true) && Reaches(descs, s, b, y, true);
    CascadeReaches(descs, s, a, x);
    CascadeReaches(descs, s, b, y);
  }

  /** No two rows are deleted before each other. */
  lemma PrecedesAsymmetric(descs: Descriptors, s: State, order: Order, x: Id, y: Id)
    requires AllRooted(descs) && Forest(descs, s) && Precedes(descs, s, order, x, y)
    ensures !Precedes(descs, s, order, y, x)
  {
    if Precedes(descs, s, order, y, x) {
      if Reaches(descs, s, y, x, true) {
        BelowIsNotAfter(descs, s, order, x, y);
      } else if Reaches(descs, s, x, y, true) {
        BelowIsNotAfter(descs, s, order, y, x);
      } else {
        var a, b := Branches(descs, s, order, x, y);
        var d, c := Branches(descs, s, order, y, x);
        PartOnce(descs, s, a, b, c, d, x, y);
      }
    }
  }

  lemma BelowIsNotAfter(descs: Descriptors, s: State, order: Order, x: Id, y: Id)
    requires AllRooted(descs) && Forest(descs, s) && x != y && Reaches(descs, s, y, x, true)
    ensures !Precedes(descs, s, order, y, x)
  {
    ReachesIsDeeper(descs, s, y, x, true);
    if Reaches(descs, s, x, y, true) { ReachesIsDeeper(descs, s, x, y, true); }
    if Precedes(descs, s, order, y, x) {
      var a, b := Branches(descs, s, order, y, x);
      CascadeReaches(descs, s, y, x);
      ReachesTransitive(descs, s, a, y, x, false);
      SiblingsApart(descs, s, a, b, x);
    }
  }

  /** Rows of one tree part inside it. */
  lemma PartInside(descs: Descriptors, s: State, c: Id, a: Id, b: Id, x: Id, y: Id)
    requires AllRooted(descs) && Forest(descs, s) && Siblings(s, a, b)
    requires Reaches(descs, s, a, x, true) && Reaches(descs, s, b, y, true)
    requires Reaches(descs, s, c, x, true) && Reaches(descs, s, c, y, true)
    ensures a != c && Reaches(descs, s, c, a, true) && Reaches(descs, s, c, s.rows[a].owner.value, true)
  {
    AncestorsComparable(descs, s, a, c, x, true);
    if Reaches(descs, s, a, c, true) {
      ReachesTransitive(descs, s, a, c, y, true);
      CascadeReaches(descs, s, a, y);
      CascadeReaches(descs, s, b, y);
      SiblingsApart(descs, s, a, b, y);
    }
  }

  /** The turns of a whole delete: those inside `tree` are the ones that the delete of that tree took. */
  ghost function Merge(order: Order, tree: set<Id>, inner: Order): Order {
    (p: Id, k: Kind) => if p in tree then inner(p, k) else order(p, k)
  }

  lemma MergeIterates(order: Order, tree: set<Id>, inner: Order)
    requires Iterates(order) && Iterates(inner)
    ensures Iterates(Merge(order, tree, inner))
  {
  }

  /** The turn of a kind in one iteration; kinds that are not listed come later. */
  ghost function TurnOf(children: seq<EntityDescriptor>, kind: Kind): nat {
    if children == [] then (if kind == NoKind then 0 else kind.name + 1)
    else if children[0].kind == kind then 0
    else 1 + TurnOf(children[1..], kind)
  }

  ghost function InSequence(children: seq<EntityDescriptor>): Order {
    (p: Id, k: Kind) => TurnOf(children, k)
  }

  lemma {:induction false} TurnsDiffer(children: seq<EntityDescriptor>, k: Kind, l: Kind)
    requires k != l
    ensures TurnOf(children, k) != TurnOf(children, l)
  {
    if children != [] { TurnsDiffer(children[1..], k, l); }
  }

  lemma InSequenceIterates(children: seq<EntityDescriptor>)
    ensures Iterates(InSequence(children))
  {
    forall k, l | k != l ensures TurnOf(children, k) != TurnOf(children, l) { TurnsDiffer(children, k, l); }
  }

  /** An untouched subtree is deleted in the same order, whether seen from inside or as part of the whole. */
  lemma PrecedesInside(
    descs: Descriptors, s: State, s1: State, order: Order, inner: Order, tree: set<Id>, now: Time, c: Id, x: Id, y: Id)
    requires AllRooted(descs) && Forest(descs, s) && Forest(descs, s1)
    requires tree <= s.rows.Keys && TreeDeleted(descs, s, s1, tree, now) && Subtree(descs, s, c) !! tree
    requires x in CascadeTree(descs, s, c) && y in CascadeTree(descs, s, c)
    ensures Precedes(descs, s1, inner, x, y) <==>
            Precedes(descs, s, Merge(order, CascadeTree(descs, s, c), inner), x, y)
  {
    var merged := Merge(order, CascadeTree(descs, s, c), inner);
    BelowStable(descs, s, s1, tree, now, c, y, x);
    TreeStable(descs, s, s1, tree, now, c);
    if Precedes(descs, s1, inner, x, y) && !Reaches(descs, s1, y, x, true) {
      var a, b := Branches(descs, s1, inner, x, y);
      PartInside(descs, s1, c, a, b, x, y);
      PartInside(descs, s1, c, b, a, y, x);
      assert a in CascadeTree(descs, s1, c) && b in CascadeTree(descs, s1, c);
      BranchInside(descs, s, s1, order, inner, tree, now, c, a, b, x, y);
    }
    if Precedes(descs, s, merged, x, y) && !Reaches(descs, s, y, x, true) {
      var a, b := Branches(descs, s, merged, x, y);
      PartInside(descs, s, c, a, b, x, y);
      PartInside(descs, s, c, b, a, y, x);
      BranchInside(descs, s, s1, order, inner, tree, now, c, a, b, x, y);
    }
  }

  lemma BranchInside(
    descs: Descriptors, s: State, s1: State, order: Order, inner: Order, tree: set<Id>, now: Time, c: Id,
    a: Id, b: Id, x: Id, y: Id)
    requires AllRooted(descs) && tree <= s.rows.Keys && TreeDeleted(descs, s, s1, tree, now)
    requires Subtree(descs, s, c) !! tree && a in CascadeTree(descs, s, c) && b in CascadeTree(descs, s, c) && a != c
    ensures VisitedBefore(s1, inner, a, b) <==>
            VisitedBefore(s, Merge(order, CascadeTree(descs, s, c), inner), a, b)
    ensures Reaches(descs, s1, a, x, true) <==> Reaches(descs, s, a, x, true)
    ensures Reaches(descs, s1, b, y, true) <==> Reaches(descs, s, b, y, true)
  {
    CascadeReaches(descs, s, c, a);
    CascadeReaches(descs, s, c, b);
    assert Untouched(s, s1, a) && Untouched(s, s1, b);
    OwnerIsShallower(descs, s, a);
    assert s.rows[a].owner.value in CascadeTree(descs, s, c);
    BelowStable(descs, s, s1, tree, now, c, a, x);
    BelowStable(descs, s, s1, tree, now, c, b, y);
  }

  /** The order among rows outside a tree does not depend on the turns inside it. */
  lemma PrecedesOutside(descs: Descriptors, s: State, order: Order, inner: Order, c: Id, x: Id, y: Id)
    requires AllRooted(descs) && Forest(descs, s) && x !in Subtree(descs, s, c)
    requires Precedes(descs, s, order, x, y)
    ensures Precedes(descs, s, Merge(order, CascadeTree(descs, s, c), inner), x, y)
  {
    if !Reaches(descs, s, y, x, true) {
      var a, b := Branches(descs, s, order, x, y);
      var o := s.rows[a].owner.value;
      if o in CascadeTree(descs, s, c) {
        assert RowOk(descs, s, a);
        CascadeReaches(descs, s, c, o);
        OwnerIsShallower(descs, s, a);
        assert Reaches(descs, s, c, a, false);
        ReachesTransitive(descs, s, c, a, x, false);
      }
      assert VisitedBefore(s, Merge(order, CascadeTree(descs, s, c), inner), a, b);
    }
  }

  /** The children deleted so far are those whose turn comes before that of `c`. */
  ghost predicate NextInTurn(descs: Descriptors, s: State, order: Order, root: Id, done: set<Id>, c: Id) {
    forall a :: CascadeChild(descs, s, root, a) ==> (a in done <==> VisitedBefore(s, order, a, c))
  }

  /** Everything in a branch that is done precedes everything in the next. */
  lemma PrecedesAcross(
    descs: Descriptors, s: State, order: Order, inner: Order, root: Id, done: set<Id>, c: Id, x: Id, y: Id)
    requires AllRooted(descs) && CascadeChild(descs, s, root, c) && c !in done
    requires forall d :: d in done ==> CascadeChild(descs, s, root, d)
    requires NextInTurn(descs, s, order, root, done, c)
    requires x in TreesOf(descs, s, done) && y in CascadeTree(descs, s, c)
    ensures Precedes(descs, s, Merge(order, CascadeTree(descs, s, c), inner), x, y)
  {
    NextTreeApart(descs, s, root, done, c);
    CascadeReaches(descs, s, c, y);
    var d :| d in done && Reaches(descs, s, d, x, true);
    ParentOutside(descs, s, root, c);
    assert VisitedBefore(s, Merge(order, CascadeTree(descs, s, c), inner), d, c);
  }

  /** References that are gone in time in either part are so in both together. */
  lemma ReferencesCompose(
    descs: Descriptors, s: State, s1: State, order: Order, inner: Order, root: Id, done: set<Id>, c: Id, now: Time)
    requires AllRooted(descs) && Forest(descs, s) && Forest(descs, s1)
    requires CascadeChild(descs, s, root, c) && c !in done && NextInTurn(descs, s, order, root, done, c)
    requires forall d :: d in done ==> CascadeChild(descs, s, root, d)
    requires TreeDeleted(descs, s, s1, TreesOf(descs, s, done), now)
    requires ReferencesYield(descs, s, order, TreesOf(descs, s, done))
    requires ReferencesYield(descs, s1, inner, CascadeTree(descs, s, c))
    ensures ReferencesYield(descs, s, Merge(order, CascadeTree(descs, s, c), inner),
                            TreesOf(descs, s, done) + CascadeTree(descs, s, c))
  {
    var a, b := TreesOf(descs, s, done), CascadeTree(descs, s, c);
    NextTreeApart(descs, s, root, done, c);
    forall r | r in s.refs && r.target in a + b ensures GoneInTime(descs, s, Merge(order, b, inner), a + b, r) {
      if r.target in a {
        PrecedesOutside(descs, s, order, inner, c, r.source, r.target);
      } else if r.source in a {
        PrecedesAcross(descs, s, order, inner, root, done, c, r.source, r.target);
      } else {
        assert r in s1.refs && GoneInTime(descs, s1, inner, b, r);
        PrecedesInside(descs, s, s1, order, inner, a, now, c, r.source, r.target);
      }
    }
  }

  /** With the root: whoever refers to it hangs in the tree of one of its children. */
  lemma ReferencesWithRoot(descs: Descriptors, s: State, cur: State, order: Order, root: Id, done: set<Id>, now: Time)
    requires AllRooted(descs) && Forest(descs, s) && root in s.rows && root !in TreesOf(descs, s, done)
    requires forall d :: d in done <==> CascadeChild(descs, s, root, d)
    requires TreeDeleted(descs, s, cur, TreesOf(descs, s, done), now)
    requires ReferencesYield(descs, s, order, TreesOf(descs, s, done)) && forall r :: r in cur.refs ==> r.target != root
    ensures ReferencesYield(descs, s, order, TreesOf(descs, s, done) + {root})
  {
    var a := TreesOf(descs, s, done);
    WholeTree(descs, s, root, done);
    forall r | r in s.refs && r.target in a + {root} ensures GoneInTime(descs, s, order, a + {root}, r) {
      if r.target == root {
        assert r.source in a && r.source in CascadeTree(descs, s, root);
      } else {
        assert GoneInTime(descs, s, order, a, r);
      }
    }
  }

  /** A reference that is late in the tree of the next child is late in the whole. */
  lemma LateInside(
    descs: Descriptors, s: State, s1: State, order: Order, inner: Order, root: Id, done: set<Id>, c: Id, now: Time,
    r: Reference)
    requires AllRooted(descs) && Forest(descs, s) && Forest(descs, s1)
    requires CascadeChild(descs, s, root, c) && c !in done && NextInTurn(descs, s, order, root, done, c)
    requires forall d :: d in done ==> CascadeChild(descs, s, root, d)
    requires TreeDeleted(descs, s, s1, TreesOf(descs, s, done), now)
    requires r in s1.refs && r.target in CascadeTree(descs, s, c)
    requires !GoneInTime(descs, s1, inner, CascadeTree(descs, s, c), r)
    ensures !GoneInTime(descs, s, Merge(order, CascadeTree(descs, s, c), inner), CascadeTree(descs, s, root), r)
  {
    var tree := CascadeTree(descs, s, c);
    var merged := Merge(order, tree, inner);
    NextTreeApart(descs, s, root, done, c);
    if r.source in tree {
      PrecedesInside(descs, s, s1, order, inner, TreesOf(descs, s, done), now, c, r.source, r.target);
    } else if GoneInTime(descs, s, merged, CascadeTree(descs, s, root), r) {
      if Reaches(descs, s, r.target, r.source, true) {
        ReachesTransitive(descs, s, c, r.target, r.source, true);
      } else {
        var a, b := Branches(descs, s, merged, r.source, r.target);
        SourceDone(descs, s, order, inner, root, done, c, a, b, r.source, r.target);
      }
    }
  }

  /** A source that is outside the tree of `c`, but before it in the cascade, is in a branch that is done. */
  lemma SourceDone(
    descs: Descriptors, s: State, order: Order, inner: Order, root: Id, done: set<Id>, c: Id, a: Id, b: Id,
    x: Id, y: Id)
    requires AllRooted(descs) && Forest(descs, s)
    requires CascadeChild(descs, s, root, c) && NextInTurn(descs, s, order, root, done, c)
    requires VisitedBefore(s, Merge(order, CascadeTree(descs, s, c), inner), a, b) && Siblings(s, a, b)
    requires Reaches(descs, s, a, x, true) && Reaches(descs, s, b, y, true)
    requires Reaches(descs, s, root, x, true) && !Reaches(descs, s, c, x, true) && Reaches(descs, s, c, y, true)
    ensures x in TreesOf(descs, s, done)
  {
    PartAtRoot(descs, s, root, c, a, b, x, y);
    ParentOutside(descs, s, root, c);
    assert VisitedBefore(s, order, a, c);
  }

  lemma ParentOutside(descs: Descriptors, s: State, root: Id, c: Id)
    requires AllRooted(descs) && CascadeChild(descs, s, root, c)
    ensures root !in CascadeTree(descs, s, c)
  {
    RootAbove(descs, s, root, c);
    if root in CascadeTree(descs, s, c) { CascadeReaches(descs, s, c, root); }
  }

  /** The rows part at `root`, between `c` and another cascading child. */
  lemma PartAtRoot(descs: Descriptors, s: State, root: Id, c: Id, a: Id, b: Id, x: Id, y: Id)
    requires AllRooted(descs) && Forest(descs, s) && CascadeChild(descs, s, root, c) && Siblings(s, a, b)
    requires Reaches(descs, s, a, x, true) && Reaches(descs, s, b, y, true)
    requires Reaches(descs, s, root, x, true) && !Reaches(descs, s, c, x, true) && Reaches(descs, s, c, y, true)
    ensures b == c && CascadeChild(descs, s, root, a)
  {
    OwnerIsShallower(descs, s, c);
    assert Reaches(descs, s, root, c, true);
    ReachesTransitive(descs, s, root, c, y, true);
    PartInside(descs, s, root, a, b, x, y);
    PartInside(descs, s, root, b, a, y, x);
    if Reaches(descs, s, c, a, true) { ReachesTransitive(descs, s, c, a, x, true); }
    OnlyBranch(descs, s, root, c, a, b, y);
  }

  /**
   * Of two siblings in the cascade of `root`, the one above a row below `c`, when the other is not below `c`, is `c`.
   */
  lemma OnlyBranch(descs: Descriptors, s: State, root: Id, c: Id, a: Id, b: Id, y: Id)
    requires AllRooted(descs) && CascadeChild(descs, s, root, c) && Siblings(s, a, b)
    requires Reaches(descs, s, b, y, true) && Reaches(descs, s, c, y, true) && !Reaches(descs, s, c, a, true)
    requires a != root && b != root && Reaches(descs, s, root, a, true) && Reaches(descs, s, root, b, true)
    ensures b == c
  {
    AncestorsComparable(descs, s, b, c, y, true);
    if Reaches(descs, s, b, c, true) {
      NothingBetween(descs, s, root, c, b);
    } else {
      BranchBelow(descs, s, root, c, a, b);
    }
  }

  lemma NothingBetween(descs: Descriptors, s: State, root: Id, c: Id, b: Id)
    requires AllRooted(descs) && CascadeChild(descs, s, root, c) && Reaches(descs, s, b, c, true)
    requires b != root && Reaches(descs, s, root, b, true)
    ensures b == c
  {
    OwnerIsShallower(descs, s, c);
    ReachesIsDeeper(descs, s, root, b, true);
    if b != c { ReachesIsDeeper(descs, s, b, c, true); }
  }

  lemma BranchBelow(descs: Descriptors, s: State, root: Id, c: Id, a: Id, b: Id)
    requires AllRooted(descs) && Siblings(s, a, b) && a != root && Reaches(descs, s, root, a, true)
    requires b != c && Reaches(descs, s, c, b, true)
    ensures Reaches(descs, s, c, a, true)
  {
    OwnerIsShallower(descs, s, b);
    OwnerIsShallower(descs, s, a);
  }

  // ---------------------------------------------------------------------------------------
  // Counting moves
  // ---------------------------------------------------------------------------------------

  ghost predicate OutcomesMatch(outcomes: seq<(Kind, bool)>, s: State, s': State) {
    forall kind, deleting :: multiset(outcomes)[(kind, deleting)] == |MoveSet(s, s', kind, deleting)|
  }

  lemma NothingMoved(s: State)
    ensures OutcomesMatch([], s, s)
  {
    forall kind, deleting ensures MoveSet(s, s, kind, deleting) == {} {}
  }

  /** A resource changes its conditions in at most one of two steps that touch different trees. */
  ghost predicate TouchedOnce(s: State, s1: State, s2: State, n: Id) {
    Untouched(s, s1, n) || Untouched(s1, s2, n)
  }

  lemma MovesOnce(s: State, s1: State, s2: State, kind: Kind, deleting: bool, n: Id)
    requires TouchedOnce(s, s1, s2, n) && (n in s2.rows ==> n in s1.rows)
    ensures n in MoveSet(s, s2, kind, deleting) <==>
              n in MoveSet(s, s1, kind, deleting) || n in MoveSet(s1, s2, kind, deleting)
    ensures !(n in MoveSet(s, s1, kind, deleting) && n in MoveSet(s1, s2, kind, deleting))
  {
  }

  lemma MoveSetsCompose(s: State, s1: State, s2: State, kind: Kind, deleting: bool)
    requires forall n :: TouchedOnce(s, s1, s2, n)
    requires forall n :: n in s2.rows ==> n in s1.rows
    ensures |MoveSet(s, s2, kind, deleting)| == |MoveSet(s, s1, kind, deleting)| + |MoveSet(s1, s2, kind, deleting)|
  {
    var m1, m2, m := MoveSet(s, s1, kind, deleting), MoveSet(s1, s2, kind, deleting), MoveSet(s, s2, kind, deleting);
    forall n ensures (n in m <==> n in m1 || n in m2) && !(n in m1 && n in m2) {
      MovesOnce(s, s1, s2, kind, deleting, n);
    }
    DisjointSizes(m, m1, m2);
  }

  lemma DisjointSizes(m: set<Id>, m1: set<Id>, m2: set<Id>)
    requires forall n :: (n in m <==> n in m1 || n in m2) && !(n in m1 && n in m2)
    ensures |m| == |m1| + |m2|
  {
    assert m == m1 + m2;
  }

  /** Moves of disjoint trees add up. */
  lemma MovesCompose(
    descs: Descriptors, s: State, s1: State, s2: State, a: set<Id>, b: set<Id>, now: Time,
    first: seq<(Kind, bool)>, second: seq<(Kind, bool)>)
    requires a <= s.rows.Keys && b <= s1.rows.Keys && a !! b
    requires TreeDeleted(descs, s, s1, a, now) && TreeDeleted(descs, s1, s2, b, now)
    requires OutcomesMatch(first, s, s1) && OutcomesMatch(second, s1, s2)
    ensures OutcomesMatch(first + second, s, s2)
  {
    RowsShrink(descs, s1, s2, b, now);
    forall n ensures TouchedOnce(s, s1, s2, n) {
      if n !in a { assert Untouched(s, s1, n); } else { assert Untouched(s1, s2, n); }
    }
    forall kind, deleting ensures multiset(first + second)[(kind, deleting)] == |MoveSet(s, s2, kind, deleting)| {
      MoveSetsCompose(s, s1, s2, kind, deleting);
    }
  }

  /** When at most one resource changes its conditions, at most it moves. */
  lemma SingleMove(s: State, s': State, id: Id, outcome: Option<(Kind, bool)>)
    requires forall n :: n != id && n in s'.rows ==> ConditionsOf(s', n) == ConditionsOf(s, n)
    requires outcome.Some? <==> Moved(s, s', id)
    requires outcome.Some? ==> outcome.value == (s'.rows[id].kind, s'.rows[id].deletedTime.Some?)
    ensures OutcomesMatch(if outcome.Some? then [outcome.value] else [], s, s')
  {
    forall kind, deleting
      ensures multiset(if outcome.Some? then [outcome.value] else [])[(kind, deleting)] ==
              |MoveSet(s, s', kind, deleting)|
    {
      var moved := MoveSet(s, s', kind, deleting);
      assert moved == if outcome == Some((kind, deleting)) then {id} else {};
    }
  }

  // ---------------------------------------------------------------------------------------
  // Child by child
  // ---------------------------------------------------------------------------------------

  lemma DeletedKeeps(descs: Descriptors, s: State, s': State, order: Order, root: Id, now: Time)
    requires RegistryOk(descs) && Inv(descs, s) && root in s.rows && now != ZERO_TIME &&
             Deleted(descs, s, s', order, root, now)
    ensures Inv(descs, s')
  {
    DeleteKeepsForest(descs, s, s', root, now);
    DeleteKeepsReferences(descs, s, s', order, CascadeTree(descs, s, root), now);
    DeleteKeepsStored(descs, s, s', CascadeTree(descs, s, root), now);
  }

  /** The children in `done` have been deleted with their trees, and nothing else has changed. */
  ghost predicate ChildrenGone(
    descs: Descriptors, s: State, cur: State, order: Order, root: Id, done: set<Id>, now: Time,
    outcomes: seq<(Kind, bool)>)
    requires AllRooted(descs)
  {
    && (forall d :: d in done ==> CascadeChild(descs, s, root, d))
    && TreeDeleted(descs, s, cur, TreesOf(descs, s, done), now)
    && NoRestriction(descs, s, TreesOf(descs, s, done))
    && ReferencesYield(descs, s, order, TreesOf(descs, s, done))
    && Inv(descs, cur)
    && OutcomesMatch(outcomes, s, cur)
  }

  lemma NoChildYet(descs: Descriptors, s: State, order: Order, root: Id, now: Time)
    requires AllRooted(descs) && Inv(descs, s)
    ensures ChildrenGone(descs, s, s, order, root, {}, now, [])
  {
    assert TreesOf(descs, s, {}) == {};
    NothingMoved(s);
    assert s.refs == set r | r in s.refs && r.source !in {};
  }

  /** The next child is still as it was. */
  lemma NextChildUntouched(
    descs: Descriptors, s: State, cur: State, order: Order, root: Id, done: set<Id>, now: Time,
    outcomes: seq<(Kind, bool)>, c: Id)
    requires AllRooted(descs) && ChildrenGone(descs, s, cur, order, root, done, now, outcomes)
    requires CascadeChild(descs, s, root, c) && c !in done
    ensures Untouched(s, cur, c) && c in cur.rows && cur.statuses == s.statuses
    ensures DepthOf(descs, cur, c) == DepthOf(descs, s, c) && CascadeTree(descs, cur, c) == CascadeTree(descs, s, c)
  {
    NextTreeApart(descs, s, root, done, c);
    assert Reaches(descs, s, c, c, false);
    TreeStable(descs, s, cur, TreesOf(descs, s, done), now, c);
  }

  lemma OneMoreChild(
    descs: Descriptors, s: State, s1: State, s2: State, order: Order, inner: Order, root: Id, done: set<Id>, c: Id,
    now: Time, outcomes: seq<(Kind, bool)>, more: seq<(Kind, bool)>)
    requires RegistryOk(descs) && Inv(descs, s) && ChildrenGone(descs, s, s1, order, root, done, now, outcomes)
    requires CascadeChild(descs, s, root, c) && c !in done && NextInTurn(descs, s, order, root, done, c)
    requires Deleted(descs, s1, s2, inner, c, now) && Inv(descs, s2) && OutcomesMatch(more, s1, s2)
    ensures ChildrenGone(descs, s, s2, Merge(order, CascadeTree(descs, s, c), inner), root, done + {c}, now,
                         outcomes + more)
  {
    var a, b := TreesOf(descs, s, done), CascadeTree(descs, s, c);
    NextTreeApart(descs, s, root, done, c);
    TreeStable(descs, s, s1, a, now, c);
    assert a !! b by {
      forall n | n in b ensures n !in a { CascadeReaches(descs, s, c, n); }
    }
    ComposeDeletes(descs, s, s1, s2, a, b, now);
    RestrictionStable(descs, s, s1, a, now, c);
    RestrictionParts(descs, s, a, b);
    ReferencesCompose(descs, s, s1, order, inner, root, done, c, now);
    TreesOfMore(descs, s, done, c);
    MovesCompose(descs, s, s1, s2, a, b, now, outcomes, more);
  }

  /** What blocks a child blocks its parent. */
  lemma BlockedChild(
    descs: Descriptors, s: State, s1: State, order: Order, inner: Order, root: Id, done: set<Id>, c: Id, now: Time,
    outcomes: seq<(Kind, bool)>)
    requires RegistryOk(descs) && Inv(descs, s) && ChildrenGone(descs, s, s1, order, root, done, now, outcomes)
    requires root in s.rows && CascadeChild(descs, s, root, c) && c !in done
    requires NextInTurn(descs, s, order, root, done, c) && Blocked(descs, s1, inner, c)
    ensures Blocked(descs, s, Merge(order, CascadeTree(descs, s, c), inner), root)
  {
    NextTreeApart(descs, s, root, done, c);
    TreeStable(descs, s, s1, TreesOf(descs, s, done), now, c);
    RestrictionStable(descs, s, s1, TreesOf(descs, s, done), now, c);
    TreeInside(descs, s, root, c);
    if !NoRestriction(descs, s, CascadeTree(descs, s, c)) {
      RestrictionWhole(descs, s, CascadeTree(descs, s, c), CascadeTree(descs, s, root));
    } else {
      var r :| r in s1.refs && r.target in CascadeTree(descs, s, c) &&
               !GoneInTime(descs, s1, inner, CascadeTree(descs, s, c), r);
      LateInside(descs, s, s1, order, inner, root, done, c, now, r);
      assert r in s.refs && r.target in CascadeTree(descs, s, root);
    }
  }

  lemma TreeInside(descs: Descriptors, s: State, root: Id, c: Id)
    requires AllRooted(descs) && root in s.rows && CascadeChild(descs, s, root, c)
    ensures CascadeTree(descs, s, c) <= CascadeTree(descs, s, root)
  {
    OwnerIsShallower(descs, s, c);
    assert Reaches(descs, s, root, c, true);
    forall n | n in CascadeTree(descs, s, c) ensures n in CascadeTree(descs, s, root) {
      ReachesTransitive(descs, s, root, c, n, true);
    }
  }

  /** Once all cascading children are gone, whatever is left under the root is soft-deleted. */
  lemma RemainingChildrenDeleting(
    descs: Descriptors, s: State, cur: State, order: Order, root: Id, done: set<Id>, now: Time,
    outcomes: seq<(Kind, bool)>, c: Id)
    requires RegistryOk(descs) && Inv(descs, s) && ChildrenGone(descs, s, cur, order, root, done, now, outcomes) &&
             root in s.rows
    requires forall d :: CascadeChild(descs, s, root, d) ==> d in done
    requires NoRestriction(descs, s, {root}) && IsChild(cur, root, c)
    ensures Deleting(cur, c)
  {
    ProcessedRows(descs, s, cur, TreesOf(descs, s, done), now, c);
    assert RowOk(descs, s, c) && RowOk(descs, s, root);
    assert EntryOk(descs, descs[s.rows[root].kind]) && PolicyKnown(descs[s.rows[c].kind]);
    assert !Restricts(descs, s, {root}, c);
    if CascadeChild(descs, s, root, c) {
      assert Reaches(descs, s, c, c, true);
      assert c in TreesOf(descs, s, done);
    }
  }

  /** Deleting the children and then the root itself is deleting the root. */
  lemma RootLast(
    descs: Descriptors, s: State, cur: State, s': State, order: Order, root: Id, done: set<Id>, now: Time,
    outcomes: seq<(Kind, bool)>, last: seq<(Kind, bool)>)
    requires RegistryOk(descs) && Inv(descs, s) && ChildrenGone(descs, s, cur, order, root, done, now, outcomes) &&
             root in s.rows
    requires forall d :: CascadeChild(descs, s, root, d) ==> d in done
    requires NoRestriction(descs, s, {root}) && (forall r :: r in cur.refs ==> r.target != root)
    requires root in cur.rows && TreeDeleted(descs, cur, s', {root}, now) && OutcomesMatch(last, cur, s')
    ensures Deleted(descs, s, s', order, root, now) && OutcomesMatch(outcomes + last, s, s')
  {
    var a := TreesOf(descs, s, done);
    RootApart(descs, s, root, done);
    ComposeDeletes(descs, s, cur, s', a, {root}, now);
    WholeTree(descs, s, root, done);
    RestrictionParts(descs, s, a, {root});
    ReferencesWithRoot(descs, s, cur, order, root, done, now);
    MovesCompose(descs, s, cur, s', a, {root}, now, outcomes, last);
  }

  lemma RootApart(descs: Descriptors, s: State, root: Id, done: set<Id>)
    requires RegistryOk(descs) && Inv(descs, s) && root in s.rows
    requires forall d :: d in done ==> CascadeChild(descs, s, root, d)
    ensures root !in TreesOf(descs, s, done)
    ensures s.rows[root].owner.Some? ==> s.rows[root].owner.value !in TreesOf(descs, s, done)
  {
    assert RowOk(descs, s, root);
    forall d | d in done
      ensures !Reaches(descs, s, d, root, true)
      ensures s.rows[root].owner.Some? ==> !Reaches(descs, s, d, s.rows[root].owner.value, true)
    {
      RootAbove(descs, s, root, d);
      if Reaches(descs, s, d, root, true) { CascadeReaches(descs, s, d, root); }
      if s.rows[root].owner.Some? && Reaches(descs, s, d, s.rows[root].owner.value, true) {
        var o := s.rows[root].owner.value;
        OwnerIsShallower(descs, s, root);
        OwnerIsShallower(descs, s, d);
        if o != d { ReachesIsDeeper(descs, s, d, o, true); }
      }
    }
  }

  // ---------------------------------------------------------------------------------------
  // What does not depend on the turns
  // ---------------------------------------------------------------------------------------

  /** `x` hangs below `y`, or in an earlier branch of the same kind. */
  ghost predicate SurelyPrecedes(descs: Descriptors, s: State, x: Id, y: Id)
    requires AllRooted(descs)
  {
    && x != y
    && (|| Reaches(descs, s, y, x, true)
        || exists a, b :: Siblings(s, a, b) && s.rows[a].kind == s.rows[b].kind && a < b &&
                          Reaches(descs, s, a, x, true) && Reaches(descs, s, b, y, true))
  }

  /** An iteration that takes `kind` first. */
  ghost function KindFirst(kind: Kind): Order {
    (p: Id, k: Kind) => if k == kind then 0 else TurnOf([], k) + 1
  }

  lemma KindFirstIterates(kind: Kind)
    ensures Iterates(KindFirst(kind))
  {
    forall k, l | k != l ensures TurnOf([], k) != TurnOf([], l) { TurnsDiffer([], k, l); }
  }

  /** Exactly: that is when `x` is deleted before `y` whatever the turns. */
  lemma SurelyIsAlways(descs: Descriptors, s: State, x: Id, y: Id)
    requires AllRooted(descs) && Forest(descs, s)
    ensures SurelyPrecedes(descs, s, x, y) <==>
            forall order :: Iterates(order) ==> Precedes(descs, s, order, x, y)
  {
    if SurelyPrecedes(descs, s, x, y) {
      forall order | Iterates(order) ensures Precedes(descs, s, order, x, y) { SurelyInOrder(descs, s, order, x, y); }
    } else {
      var order := LateInSomeOrder(descs, s, x, y);
    }
  }

  lemma SurelyInOrder(descs: Descriptors, s: State, order: Order, x: Id, y: Id)
    requires AllRooted(descs) && SurelyPrecedes(descs, s, x, y)
    ensures Precedes(descs, s, order, x, y)
  {
    if !Reaches(descs, s, y, x, true) {
      var a, b :| Siblings(s, a, b) && s.rows[a].kind == s.rows[b].kind && a < b &&
                  Reaches(descs, s, a, x, true) && Reaches(descs, s, b, y, true);
      assert VisitedBefore(s, order, a, b);
    }
  }

  /** If `x` does not surely go first, it does not when the kind of the branch of `y` is taken first. */
  lemma LateInSomeOrder(descs: Descriptors, s: State, x: Id, y: Id) returns (order: Order)
    requires AllRooted(descs) && Forest(descs, s) && !SurelyPrecedes(descs, s, x, y)
    ensures Iterates(order) && !Precedes(descs, s, order, x, y)
  {
    order := KindFirst(NoKind);
    KindFirstIterates(NoKind);
    if Precedes(descs, s, order, x, y) {
      var a, b := Branches(descs, s, order, x, y);
      order := KindFirst(s.rows[b].kind);
      KindFirstIterates(s.rows[b].kind);
      if Precedes(descs, s, order, x, y) {
        var c, d := Branches(descs, s, order, x, y);
        PartOnce(descs, s, a, b, c, d, x, y);
      }
    }
  }

  /** Exactly: a delete of a found row never conflicts iff nothing restricts it and all references surely go in time. */
  lemma DeleteNeverConflicts(descs: Descriptors, s: State, kind: Kind, id: Id, scope: Option<Id>, now: Time)
    requires AllRooted(descs) && Forest(descs, s) && WriteKindOk(descs, kind, scope) && Found(descs, s, kind, id, scope)
    ensures var tree := CascadeTree(descs, s, id);
            !DeleteStep(descs, s, kind, id, scope, now, Err(ConflictState)) <==>
            (NoRestriction(descs, s, tree) &&
             forall r :: r in s.refs && r.target in tree ==>
               r.source in tree && SurelyPrecedes(descs, s, r.source, r.target))
  {
    var tree := CascadeTree(descs, s, id);
    forall r | r in s.refs && r.target in tree
      ensures r.source in tree && SurelyPrecedes(descs, s, r.source, r.target) <==>
              forall order :: Iterates(order) ==> GoneInTime(descs, s, order, tree, r)
    {
      SurelyIsAlways(descs, s, r.source, r.target);
      InSequenceIterates([]);
      assert r.source !in tree ==> !GoneInTime(descs, s, InSequence([]), tree, r);
    }
    InSequenceIterates([]);
    assert forall order :: Iterates(order) && Blocked(descs, s, order, id) ==>
                             DeleteInOrder(descs, s, order, kind, id, scope, now, Err(ConflictState));
  }

  /** What surely stands in the way of a delete: a restriction, or a reference that no turns let go in time. */
  lemma DeleteAlwaysConflicts(
    descs: Descriptors, s: State, kind: Kind, id: Id, scope: Option<Id>, now: Time, outcome: Outcome)
    requires AllRooted(descs) && Forest(descs, s) && WriteKindOk(descs, kind, scope) && Found(descs, s, kind, id, scope)
    requires DeleteStep(descs, s, kind, id, scope, now, outcome)
    requires var tree := CascadeTree(descs, s, id);
             || !NoRestriction(descs, s, tree)
             || exists r :: r in s.refs && r.target in tree &&
                            (|| r.source !in tree || r.source == r.target
                             || SurelyPrecedes(descs, s, r.target, r.source)
                             || exists q :: q in s.refs && q.source == r.target && q.target == r.source)
    ensures outcome == Err(ConflictState)
  {
    var tree := CascadeTree(descs, s, id);
    var order :| Iterates(order) && DeleteInOrder(descs, s, order, kind, id, scope, now, outcome);
    if NoRestriction(descs, s, tree) && ReferencesYield(descs, s, order, tree) {
      var r :| r in s.refs && r.target in tree &&
               (|| r.source !in tree || r.source == r.target
                || SurelyPrecedes(descs, s, r.target, r.source)
                || exists q :: q in s.refs && q.source == r.target && q.target == r.source);
      assert GoneInTime(descs, s, order, tree, r);
      SurelyIsAlways(descs, s, r.target, r.source);
      PrecedesAsymmetric(descs, s, order, r.source, r.target);
    }
  }
}
