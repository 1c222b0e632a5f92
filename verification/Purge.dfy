/** The tree that a force-delete collects, from tables that only keep their keys. */
module Purge {
  import opened Common
  import opened Registry
  import opened Tables
  import opened Invariants
  import opened Cascade

  /** Kind-consistent ownership, and references between existing rows: all that collection needs. */
  ghost predicate KeysOk(descs: Descriptors, s: State) {
    && (forall n {:trigger OwnedProperly(descs, s, n)} :: n in s.rows && s.rows[n].owner.Some? ==>
          OwnedProperly(descs, s, n))
    && (forall r :: r in s.refs ==> r.source in s.rows && r.target in s.rows)
  }

  lemma InvKeys(descs: Descriptors, s: State)
    requires Inv(descs, s)
    ensures KeysOk(descs, s)
  {
    forall n | n in s.rows && s.rows[n].owner.Some? ensures OwnedProperly(descs, s, n) { assert RowOk(descs, s, n); }
    forall r | r in s.refs ensures r.source in s.rows && r.target in s.rows { assert ReferenceOk(descs, s, r); }
  }

  /** Every listed row comes after its owner, or is owned by `root`. */
  ghost predicate ParentFirst(s: State, root: Id, list: seq<Id>) {
    forall k :: 0 <= k < |list| ==>
      list[k] in s.rows && s.rows[list[k]].owner.Some? &&
      (s.rows[list[k]].owner.value == root || s.rows[list[k]].owner.value in list[..k])
  }

  lemma ParentFirstAppend(s: State, root: Id, below: seq<Id>, c: Id, more: seq<Id>)
    requires ParentFirst(s, root, below) && IsChild(s, root, c) && ParentFirst(s, c, more)
    ensures ParentFirst(s, root, below + [c] + more)
  {
    var all := below + [c] + more;
    forall k | 0 <= k < |all|
      ensures all[k] in s.rows && s.rows[all[k]].owner.Some? &&
              (s.rows[all[k]].owner.value == root || s.rows[all[k]].owner.value in all[..k])
    {
      if k < |below| {
        assert all[..k] == below[..k];
      } else if k > |below| {
        var m := k - |below| - 1;
        assert all[k] == more[m];
        assert all[..k] == below + [c] + more[..m];
      }
    }
  }

  /** The subtrees of the first children, taken together. */
  ghost function Below(descs: Descriptors, s: State, children: seq<Id>): set<Id>
    requires AllRooted(descs)
  {
    set n | n in s.rows && exists c :: c in children && Reaches(descs, s, c, n, false)
  }

  lemma BelowMore(descs: Descriptors, s: State, root: Id, children: seq<Id>, c: Id)
    requires AllRooted(descs) && KeysOk(descs, s) && IsChild(s, root, c) && c !in children
    requires forall d :: d in children ==> IsChild(s, root, d)
    ensures Below(descs, s, children + [c]) == Below(descs, s, children) + Subtree(descs, s, c)
    ensures Below(descs, s, children) !! Subtree(descs, s, c)
  {
    forall n ensures n in Below(descs, s, children + [c]) <==> n in Below(descs, s, children) + Subtree(descs, s, c) {
      if n in Below(descs, s, children) {
        var d :| d in children && Reaches(descs, s, d, n, false);
        assert d in children + [c];
      }
      if n in Subtree(descs, s, c) { assert c in children + [c]; }
    }
    forall n | n in Below(descs, s, children) ensures n !in Subtree(descs, s, c) {
      var d :| d in children && Reaches(descs, s, d, n, false);
      assert OwnedProperly(descs, s, c) && OwnedProperly(descs, s, d);
      SiblingsDisjoint(descs, s, root, d, c, n, false);
    }
  }

  /** Everything below the root is below one of its children, and the root is not. */
  lemma BelowAll(descs: Descriptors, s: State, root: Id, children: seq<Id>)
    requires AllRooted(descs) && KeysOk(descs, s) && root in s.rows
    requires forall c :: c in children <==> IsChild(s, root, c)
    ensures Below(descs, s, children) == Subtree(descs, s, root) - {root}
  {
    forall n ensures n in Below(descs, s, children) <==> n in Subtree(descs, s, root) - {root} {
      if n in Subtree(descs, s, root) - {root} {
        var c := ReachesThroughChild(descs, s, root, n, false);
        assert c in children;
      }
      if n in Below(descs, s, children) {
        var c :| c in children && Reaches(descs, s, c, n, false);
        assert OwnedProperly(descs, s, c);
        OwnerIsShallower(descs, s, c);
        RootAbove(descs, s, root, c);
        assert Reaches(descs, s, root, c, false);
        ReachesTransitive(descs, s, root, c, n, false);
      }
    }
  }

  lemma SubtreeListed(descs: Descriptors, s: State, c: Id, more: seq<Id>)
    requires AllRooted(descs) && c in s.rows && Members(more) == Subtree(descs, s, c) - {c}
    ensures Members([c] + more) == Subtree(descs, s, c)
    ensures c in Subtree(descs, s, c) && c !in more
  {
    assert Reaches(descs, s, c, c, false);
    assert c !in Members(more);
    forall n ensures n in [c] + more <==> n in Subtree(descs, s, c) {
      assert n in more <==> n in Members(more);
    }
  }

  lemma DistinctAppend(below: seq<Id>, c: Id, more: seq<Id>)
    requires Distinct(below) && Distinct(more) && c !in more
    requires Members(below) !! Members([c] + more)
    ensures Distinct(below + [c] + more)
  {
    var all := below + [c] + more;
    assert forall m :: m in more ==> m in [c] + more;
    forall i, j | 0 <= i < j < |all| ensures all[i] != all[j] {
      if i < |below| {
        assert all[i] in Members(below);
        if j > |below| { assert all[j] == more[j - |below| - 1] && all[j] in Members(more); }
      } else if i > |below| {
        assert all[i] == more[i - |below| - 1] && all[j] == more[j - |below| - 1];
      } else {
        assert all[j] == more[j - |below| - 1];
      }
    }
  }
}
