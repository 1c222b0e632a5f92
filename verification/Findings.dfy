/** Where the code does not do what it says, on concrete inputs, each with the condition under which it does. */
module Findings {
  import opened Common
  import opened Registry
  import opened Conditions
  import opened SortedNames
  import opened Aggregation
  import opened AggregationLaws
  import opened Database
  import opened Tables
  import opened Lifecycle
  import opened Invariants
  import opened Cascade

  // ---------------------------------------------------------------------------------------
  // The ownership-cycle message
  // ---------------------------------------------------------------------------------------

  function Plain(kind: Kind, plural: string, parent: Kind, policy: OnParentDelete): EntityDescriptor {
    EntityDescriptor(kind, plural, parent, policy, [], [], 0, 0, true)
  }

  const A: Kind := Named(0)
  const B: Kind := Named(1)
  const C: Kind := Named(2)

  /** A names B as parent, B names C, and C names B. */
  const LEADING_IN: Descriptors :=
    map[A := Plain(A, "as", B, Cascade), B := Plain(B, "bs", C, Cascade), C := Plain(C, "cs", B, Cascade)]

  /** The walk from A meets B again, so the panic can name A, which participates in no cycle. */
  lemma MisnamedKind()
    ensures KeyedByKind(LEADING_IN) && BasicOk(LEADING_IN) && !Rooted(LEADING_IN, A)
    ensures !OnParentCycle(LEADING_IN, A) && OnParentCycle(LEADING_IN, B)
  {
    var chain := [A, B, C];
    assert ParentEdge(LEADING_IN, A, B) && ParentEdge(LEADING_IN, B, C) && ParentEdge(LEADING_IN, C, B);
    TailIsOffTheCycle(LEADING_IN, chain, 1);
    LoopHasNoRoot(LEADING_IN, chain, 1);
    var p := [B, C, B];
    assert ParentCycle(LEADING_IN, p) && p[0] == B;
  }

  lemma {:induction false} AncestorAdd(descs: Descriptors, k: Kind, m: nat, n: nat)
    ensures Ancestor(descs, k, m + n) == Ancestor(descs, Ancestor(descs, k, m), n)
    decreases m
  {
    if m > 0 && k != NoKind && k in descs { AncestorAdd(descs, descs[k].parentKind, m - 1, n); }
  }

  lemma {:induction false} AncestorTurns(descs: Descriptors, k: Kind, m: nat, turns: nat)
    requires Ancestor(descs, k, m) == k
    ensures Ancestor(descs, k, m * turns) == k
    decreases turns
  {
    if turns > 0 {
      AncestorTurns(descs, k, m, turns - 1);
      AncestorAdd(descs, k, m, m * (turns - 1));
      assert m * turns == m + m * (turns - 1);
    }
  }

  /** Different kinds on cycles have different parents. */
  lemma CyclesDoNotMeet(descs: Descriptors, k: Kind, l: Kind)
    requires k in descs && l in descs && k != NoKind && l != NoKind && descs[k].parentKind == descs[l].parentKind
    requires OnParentCycle(descs, k) && OnParentCycle(descs, l)
    ensures k == l
  {
    var p :| ParentCycle(descs, p) && p[0] == k;
    var q :| ParentCycle(descs, q) && q[0] == l;
    var m, n := |p| - 1, |q| - 1;
    AncestorAlong(descs, p, m);
    AncestorAlong(descs, q, n);
    AncestorTurns(descs, k, m, n);
    AncestorTurns(descs, l, n, m);
    assert m * n > 0;
    assert Ancestor(descs, k, m * n) == Ancestor(descs, l, n * m);
  }

  /** No two kinds whose ParentKind chains never end share a ParentKind. */
  ghost predicate ParentsApart(descs: Descriptors) {
    forall k, l :: k in descs && l in descs && !Rooted(descs, k) && !Rooted(descs, l) ==>
      (descs[k].parentKind == descs[l].parentKind ==> k == l)
  }

  lemma RootedBelow(descs: Descriptors, k: Kind)
    requires k in descs && k != NoKind && (descs[k].parentKind == NoKind || Rooted(descs, descs[k].parentKind))
    ensures Rooted(descs, k)
  {
    assert RootedIn(descs, NoKind, 0);
    var n: nat :| RootedIn(descs, descs[k].parentKind, n);
    assert RootedIn(descs, k, n + 1);
  }

  lemma ParentEndless(descs: Descriptors, k: Kind)
    requires KeyedByKind(descs) && EntriesOk(descs) && k in descs && !Rooted(descs, k)
    ensures descs[k].parentKind in descs && !Rooted(descs, descs[k].parentKind)
  {
    assert EntryOk(descs, descs[k]);
    if descs[k].parentKind == NoKind || Rooted(descs, descs[k].parentKind) { RootedBelow(descs, k); }
  }

  /** Where they do not, a chain that never ends can only lead back to its first kind. */
  lemma {:induction false} ChainCloses(descs: Descriptors, chain: seq<Kind>)
    requires KeyedByKind(descs) && EntriesOk(descs) && ParentsApart(descs)
    requires chain != [] && Distinct(chain) && forall k :: k in chain ==> k in descs && !Rooted(descs, k)
    requires forall j :: 0 <= j < |chain| - 1 ==> ParentEdge(descs, chain[j], chain[j + 1])
    ensures OnParentCycle(descs, chain[0])
    decreases descs.Keys - Members(chain)
  {
    var last := chain[|chain| - 1];
    var up, more := descs[last].parentKind, chain + [descs[last].parentKind];
    ParentEndless(descs, last);
    assert EntryOk(descs, descs[up]);
    forall j | 0 <= j < |more| - 1 ensures ParentEdge(descs, more[j], more[j + 1]) {
      assert j < |chain| - 1 ==> ParentEdge(descs, chain[j], chain[j + 1]);
    }
    if up in chain {
      var i :| 0 <= i < |chain| && chain[i] == up;
      forall h | 1 <= h < |chain| ensures chain[h] != up {
        assert ParentEdge(descs, chain[h - 1], chain[h - 1 + 1]);
      }
      assert ParentCycle(descs, more);
    } else {
      assert up in descs.Keys - Members(chain) && up in more;
      ChainCloses(descs, more);
    }
  }

  /**
   * Exactly: the ownership-cycle panic names a participant, whichever kind the map yields first, iff no two kinds whose
   * chains never end share a ParentKind. (Any such kind can come first, and is the one that is named.)
   */
  lemma NamesParticipants(descs: Descriptors)
    requires KeyedByKind(descs) && EntriesOk(descs)
    ensures (forall k :: k in descs && !Rooted(descs, k) ==> OnParentCycle(descs, k)) <==> ParentsApart(descs)
  {
    if ParentsApart(descs) {
      forall k | k in descs && !Rooted(descs, k) ensures OnParentCycle(descs, k) { ChainCloses(descs, [k]); }
    } else if forall k :: k in descs && !Rooted(descs, k) ==> OnParentCycle(descs, k) {
      var k, l :| k in descs && l in descs && !Rooted(descs, k) && !Rooted(descs, l) &&
                  descs[k].parentKind == descs[l].parentKind && k != l;
      assert EntryOk(descs, descs[k]) && EntryOk(descs, descs[l]);
      CyclesDoNotMeet(descs, k, l);
    }
  }

  // ---------------------------------------------------------------------------------------
  // Unknown delete policies
  // ---------------------------------------------------------------------------------------

  /** A live child of a kind whose policy is neither of the two declared ones. */
  ghost predicate UnknownChild(descs: Descriptors, s: State, root: Id, c: Id) {
    IsChild(s, root, c) && Live(s, c) && s.rows[c].kind in descs && descs[s.rows[c].kind].onParentDelete.OtherPolicy?
  }

  /**
   * What the cascade over `tree` leaves under any policies: a row stays while it has required adapters or a
   * soft-deleted child, and is then marked; nothing else changes.
   */
  ghost predicate Left(descs: Descriptors, s: State, s': State, tree: set<Id>, now: Time) {
    && s'.issued == s.issued
    && (forall n :: n !in tree ==> Untouched(s, s', n))
    && (forall n :: n in tree && n in s.rows ==> LeftRow(descs, s, s', n, now))
  }

  ghost predicate LeftRow(descs: Descriptors, s: State, s': State, n: Id, now: Time)
    requires n in s.rows
  {
    && (n in s'.rows <==> Required(descs, s.rows[n].kind) != [] || exists c :: IsChild(s', n, c) && Deleting(s', c))
    && (n in s'.rows ==> s'.rows[n] == Marked(s.rows[n], now).(updatedTime := now))
  }

  /** A child of the tree is in it, is already being deleted, or is a live one with an unknown policy. */
  lemma ChildOutside(descs: Descriptors, s: State, root: Id, n: Id, c: Id)
    requires AllRooted(descs) && Forest(descs, s) && NoRestriction(descs, s, CascadeTree(descs, s, root))
    requires n in CascadeTree(descs, s, root) && IsChild(s, n, c)
    ensures c in CascadeTree(descs, s, root) || Deleting(s, c) || UnknownChild(descs, s, n, c)
    ensures UnknownChild(descs, s, n, c) ==> c !in CascadeTree(descs, s, root)
  {
    assert RowOk(descs, s, c) && !Restricts(descs, s, CascadeTree(descs, s, root), c);
    OwnerIsShallower(descs, s, c);
    if c == root && n != root { ReachesIsDeeper(descs, s, root, n, true); }
  }

  lemma LeftOutside(descs: Descriptors, s: State, s': State, root: Id, now: Time, m: Id)
    requires AllRooted(descs) && Forest(descs, s) && NoRestriction(descs, s, CascadeTree(descs, s, root))
    requires Left(descs, s, s', CascadeTree(descs, s, root), now)
    requires m in s'.rows && m !in CascadeTree(descs, s, root)
    requires forall n :: n in CascadeTree(descs, s, root) ==> !UnknownChild(descs, s, n, m)
    ensures RowOk(descs, s', m)
  {
    assert Untouched(s, s', m) && RowOk(descs, s, m);
    if s.rows[m].owner.Some? {
      var o := s.rows[m].owner.value;
      if o in CascadeTree(descs, s, root) {
        ChildOutside(descs, s, root, o, m);
        assert IsChild(s', o, m) && Deleting(s', m);
        assert LeftRow(descs, s, s', o, now);
      } else {
        assert Untouched(s, s', o);
      }
    }
  }

  lemma LeftInside(descs: Descriptors, s: State, s': State, root: Id, now: Time, m: Id)
    requires AllRooted(descs) && Forest(descs, s) && now != ZERO_TIME
    requires Left(descs, s, s', CascadeTree(descs, s, root), now)
    requires m in s'.rows && m in CascadeTree(descs, s, root)
    ensures RowOk(descs, s', m)
  {
    assert LeftRow(descs, s, s', m, now) && RowOk(descs, s, m);
    if s.rows[m].owner.Some? {
      var o := s.rows[m].owner.value;
      if o in CascadeTree(descs, s, root) {
        assert IsChild(s', o, m) && Deleting(s', m);
        assert LeftRow(descs, s, s', o, now);
      } else {
        assert Untouched(s, s', o);
      }
    }
  }

  /** A live child of an unknown policy stays as it was, under an owner that is gone or deleted. */
  lemma UnknownPolicyOrphans(descs: Descriptors, s: State, s': State, root: Id, now: Time, n: Id, c: Id)
    requires AllRooted(descs) && Forest(descs, s) && NoRestriction(descs, s, CascadeTree(descs, s, root))
    requires Left(descs, s, s', CascadeTree(descs, s, root), now)
    requires n in CascadeTree(descs, s, root) && UnknownChild(descs, s, n, c)
    ensures Live(s', c) && s'.rows[c].owner == Some(n) && !Live(s', n) && !Forest(descs, s')
  {
    ChildOutside(descs, s, root, n, c);
    assert Untouched(s, s', c) && LeftRow(descs, s, s', n, now);
    assert !RowOk(descs, s', c);
  }

  /**
   * Exactly, in the tables that the caller has: a delete that nothing restricts keeps the forest iff no row of its
   * cascade has a live child of an unknown policy. Validate does not check the policy.
   */
  lemma CascadeKeepsForest(descs: Descriptors, s: State, s': State, root: Id, now: Time)
    requires AllRooted(descs) && Forest(descs, s) && now != ZERO_TIME
    requires NoRestriction(descs, s, CascadeTree(descs, s, root))
    requires Left(descs, s, s', CascadeTree(descs, s, root), now)
    ensures Forest(descs, s') <==>
            forall n, c :: n in CascadeTree(descs, s, root) ==> !UnknownChild(descs, s, n, c)
  {
    if n, c :| n in CascadeTree(descs, s, root) && UnknownChild(descs, s, n, c) {
      UnknownPolicyOrphans(descs, s, s', root, now, n, c);
    } else {
      forall m | m in s'.rows ensures RowOk(descs, s', m) {
        if m in CascadeTree(descs, s, root) {
          LeftInside(descs, s, s', root, now, m);
        } else {
          LeftOutside(descs, s, s', root, now, m);
        }
      }
    }
  }

  /** With known policies that is the delete of the service. */
  lemma DeletedIsLeft(descs: Descriptors, s: State, s': State, order: Order, root: Id, now: Time)
    requires RegistryOk(descs) && Inv(descs, s) && root in s.rows && now != ZERO_TIME
    requires Deleted(descs, s, s', order, root, now)
    ensures Left(descs, s, s', CascadeTree(descs, s, root), now)
  {
    DeletedKeeps(descs, s, s', order, root, now);
    forall n | n in CascadeTree(descs, s, root) ensures LeftRow(descs, s, s', n, now) {
      assert Processed(descs, s, s', n, now);
      forall c | IsChild(s', n, c) ensures n in s'.rows ==> Deleting(s', c) {
        assert RowOk(descs, s', c);
      }
    }
  }

  /** B is deleted with A; the policy of C, which stands under B, is unknown. */
  const RETAINING: Descriptors :=
    map[A := Plain(A, "as", NoKind, Cascade), B := Plain(B, "bs", A, Cascade),
        C := Plain(C, "cs", B, OtherPolicy("retain"))]

  function LiveRow(kind: Kind, owner: Option<Id>): Row {
    Row(kind, "n", owner, None, 1, 1, 1, "", map[])
  }

  /** One live row of each kind, 2 under 1 under 0. */
  const CHAIN: State :=
    State(map[0 := LiveRow(A, None), 1 := LiveRow(B, Some(0)), 2 := LiveRow(C, Some(1))], {}, map[], map[], {0, 1, 2})

  const ORPHANED: State := CHAIN.(rows := map[2 := LiveRow(C, Some(1))])

  /** The registry passes every check, row 0 has no child of an unknown policy, and yet its delete orphans row 2. */
  lemma OrphanBelow(now: Time)
    ensures KeyedByKind(RETAINING) && BasicOk(RETAINING) && AllRooted(RETAINING) && Forest(RETAINING, CHAIN)
    ensures NoRestriction(RETAINING, CHAIN, CascadeTree(RETAINING, CHAIN, 0))
    ensures forall c :: !UnknownChild(RETAINING, CHAIN, 0, c)
    ensures Left(RETAINING, CHAIN, ORPHANED, CascadeTree(RETAINING, CHAIN, 0), now) && !Forest(RETAINING, ORPHANED)
  {
    RetainingEntries();
    RetainingRooted();
    ChainForest();
    ChainTree();
    ChainPolicies();
    ChainLeft(now);
    RowOrphaned();
  }

  lemma RetainingEntries()
    ensures KeyedByKind(RETAINING) && BasicOk(RETAINING)
  {
  }

  lemma RetainingRooted()
    ensures AllRooted(RETAINING)
  {
    assert RootedIn(RETAINING, NoKind, 0);
    assert RootedIn(RETAINING, A, 1);
    assert RootedIn(RETAINING, B, 2);
    assert RootedIn(RETAINING, C, 3);
  }

  lemma ChainForest()
    ensures Forest(RETAINING, CHAIN)
  {
    assert RowOk(RETAINING, CHAIN, 0) && RowOk(RETAINING, CHAIN, 1) && RowOk(RETAINING, CHAIN, 2);
  }

  lemma ChainTree()
    requires AllRooted(RETAINING)
    ensures CascadeTree(RETAINING, CHAIN, 0) == {0, 1}
  {
    OwnerIsShallower(RETAINING, CHAIN, 1);
    assert Reaches(RETAINING, CHAIN, 0, 0, true) && Reaches(RETAINING, CHAIN, 0, 1, true);
    assert !Reaches(RETAINING, CHAIN, 0, 2, true);
  }

  lemma ChainPolicies()
    ensures NoRestriction(RETAINING, CHAIN, {0, 1}) && forall c :: !UnknownChild(RETAINING, CHAIN, 0, c)
  {
  }

  lemma RowOrphaned()
    ensures !Forest(RETAINING, ORPHANED)
  {
    assert !RowOk(RETAINING, ORPHANED, 2);
  }

  lemma ChainLeft(now: Time)
    ensures Left(RETAINING, CHAIN, ORPHANED, {0, 1}, now)
  {
    assert forall c :: IsChild(ORPHANED, 0, c) || IsChild(ORPHANED, 1, c) ==> c == 2;
    assert LeftRow(RETAINING, CHAIN, ORPHANED, 0, now) && LeftRow(RETAINING, CHAIN, ORPHANED, 1, now);
  }

  // ---------------------------------------------------------------------------------------
  // Colliding condition types
  // ---------------------------------------------------------------------------------------

  /** A hyphen in front of a character that has no upper case leaves no trace in the condition type. */
  lemma {:induction false} HyphenVanishes(before: string, c: char, after: string, start: bool)
    requires ToUpper(c) == c && c != '-'
    ensures PascalCase(before + ['-', c] + after, start) == PascalCase(before + [c] + after, start)
    decreases |before|
  {
    if before == "" {
      assert before + ['-', c] + after == ['-', c] + after && before + [c] + after == [c] + after;
      assert (['-', c] + after)[1..] == [c] + after;
      assert ([c] + after)[1..] == after;
    } else {
      assert (before + ['-', c] + after)[1..] == before[1..] + ['-', c] + after;
      assert (before + [c] + after)[1..] == before[1..] + [c] + after;
      HyphenVanishes(before[1..], c, after, before[0] == '-');
    }
  }

  /** So two different adapters, such as `a-1` and `a1`, share a condition type, and cannot both be required. */
  lemma CollidingAdapters(before: string, digit: char, after: string)
    requires '0' <= digit <= '9'
    ensures var x, y := before + ['-', digit] + after, before + [digit] + after;
            x != y && MapAdapterToConditionType(x) == MapAdapterToConditionType(y) && !DistinctTypes([x, y])
  {
    var x, y := before + ['-', digit] + after, before + [digit] + after;
    HyphenVanishes(before, digit, after, true);
    assert |x| == |y| + 1;
    var pair := [x, y];
    assert MapAdapterToConditionType(pair[0]) == MapAdapterToConditionType(pair[1]);
  }

  /** What the write preserves is never the type of a condition. */
  lemma TypesPreserved(conditions: seq<Condition>, existing: ConditionTable, now: Time)
    ensures TypesDistinct(PreserveAll(conditions, existing, now)) <==> TypesDistinct(conditions)
  {
    var kept := PreserveAll(conditions, existing, now);
    assert forall i :: 0 <= i < |kept| ==> kept[i].ctype == conditions[i].ctype;
  }

  /**
   * Exactly: aggregated conditions can be written iff no two required adapters with a usable report share a condition
   * type. Otherwise the key of the table refuses them, and with them the report that is being processed.
   */
  method WriteAggregated(db: Database, id: Id, input: Input, now: Time) returns (ok: bool)
    modifies db`tables
    ensures ok <==>
            DistinctTypes(Filter(input.required,
                                 Reporting(Normalized(input.reports, input.required, input.generation))))
    ensures !ok ==> db.tables == old(db.tables)
  {
    var reconciled, lastKnown, adapters := AggregateResourceStatus(input);
    var conditions := [reconciled, lastKnown] + adapters;
    var slice := new Condition[|conditions|](i requires 0 <= i < |conditions| => conditions[i]);
    assert slice[..] == conditions;
    ok := db.UpdateConditions(id, slice, now);
    TypesPreserved(conditions, ConditionsOf(old(db.tables), id), now);
    AggregateTypesExactly(
      input.generation, input.refTime, input.deletedTime.Some?, ByType(input.prevConditions), input.required,
      Normalized(input.reports, input.required, input.generation), input.hasChildren);
  }

  /** So once `a-1` and `a1` have both reported, no aggregation of the resource can be written. */
  lemma CollidingReports(
    before: string, digit: char, after: string, gen: int, refTime: Time, deleting: bool, prev: ConditionTable,
    snaps: Snapshots, hasChildren: bool)
    requires '0' <= digit <= '9'
    requires before + ['-', digit] + after in snaps && before + [digit] + after in snaps
    ensures var required := [before + ['-', digit] + after, before + [digit] + after];
            !TypesDistinct(AggregateOver(gen, refTime, deleting, prev, required, snaps, hasChildren))
  {
    var x, y := before + ['-', digit] + after, before + [digit] + after;
    CollidingAdapters(before, digit, after);
    assert [x, y][..1] == [x];
    assert Filter([x][..0], Reporting(snaps)) == [];
    assert Filter([x], Reporting(snaps)) == [x];
    assert Filter([x, y], Reporting(snaps)) == [x, y];
    AggregateTypesExactly(gen, refTime, deleting, prev, [x, y], snaps, hasChildren);
  }
}
