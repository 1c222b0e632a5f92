/**
 * The database tables as a value, the registry facts the services rely on, and the
 * ownership tree spanned by the rows.
 */
module Tables {
  import opened Common
  import opened Registry
  import opened Conditions
  import opened Aggregation
  import opened AggregationLaws

  type Id = nat

  datatype Row = Row(
    kind: Kind, name: string, owner: Option<Id>, deletedTime: Option<Time>, generation: int,
    createdTime: Time, updatedTime: Time, spec: string, labels: map<string, string>)

  datatype Reference = Reference(source: Id, refType: string, target: Id, targetKind: Kind)

  /**
   * resources, resource_references, adapter_statuses (by resource, then adapter) and
   * resource_conditions (by resource, then type). `issued` holds every id ever handed out.
   */
  datatype State = State(
    rows: map<Id, Row>, refs: set<Reference>, statuses: map<Id, Reports>,
    conditions: map<Id, ConditionTable>, issued: set<Id>)

  const EMPTY: State := State(map[], {}, map[], map[], {})

  function ReportsOf(s: State, id: Id): Reports {
    if id in s.statuses then s.statuses[id] else map[]
  }

  function ConditionsOf(s: State, id: Id): ConditionTable {
    if id in s.conditions then s.conditions[id] else map[]
  }

  function ReconciledOf(s: State, id: Id): Option<Condition> {
    Lookup(ConditionsOf(s, id), ReconciledType)
  }

  function LastKnownOf(s: State, id: Id): Option<Condition> {
    Lookup(ConditionsOf(s, id), LastKnownReconciledType)
  }

  predicate Live(s: State, id: Id) {
    id in s.rows && s.rows[id].deletedTime.None?
  }

  predicate Deleting(s: State, id: Id) {
    id in s.rows && s.rows[id].deletedTime.Some?
  }

  predicate IsChild(s: State, id: Id, c: Id) {
    c in s.rows && s.rows[c].owner == Some(id)
  }

  predicate HasChild(s: State, id: Id) {
    exists c :: c in s.rows && IsChild(s, id, c)
  }

  /** The references of one type that leave one resource. */
  function RefsOf(s: State, id: Id, refType: string): set<Reference> {
    set r | r in s.refs && r.source == id && r.refType == refType
  }

  // ---------------------------------------------------------------------------------------
  // The registry the services run with
  // ---------------------------------------------------------------------------------------

  predicate PolicyKnown(d: EntityDescriptor) {
    d.parentKind == NoKind || d.onParentDelete == Restrict || d.onParentDelete == Cascade
  }

  /** What Validate guarantees and the services use, and the two assumptions it does not check. */
  ghost predicate RegistryOk(descs: Descriptors) {
    && KeyedByKind(descs) && AllRooted(descs)
    && (forall k {:trigger EntryOk(descs, descs[k])} :: k in descs ==> EntryOk(descs, descs[k]))
    && (forall k {:trigger PolicyKnown(descs[k])} :: k in descs ==> PolicyKnown(descs[k]))
    && (forall k {:trigger DistinctTypes(descs[k].requiredAdapters)} :: k in descs ==>
          DistinctTypes(descs[k].requiredAdapters))
  }

  /** A registry that passed Validate only needs known delete policies and distinct condition types besides. */
  lemma ValidatedRegistryOk(descs: Descriptors)
    requires KeyedByKind(descs) && BasicOk(descs) && NoParentCycle(descs) && AllRooted(descs)
    requires forall k :: k in descs ==> PolicyKnown(descs[k]) && DistinctTypes(descs[k].requiredAdapters)
    ensures RegistryOk(descs)
  {
    forall k | k in descs
      ensures EntryOk(descs, descs[k]) && PolicyKnown(descs[k]) && DistinctTypes(descs[k].requiredAdapters) {}
  }

  function FindReference(refs: seq<ReferenceDescriptor>, refType: string): Option<ReferenceDescriptor> {
    if refs == [] then None
    else if refs[0].refType == refType then Some(refs[0])
    else FindReference(refs[1..], refType)
  }

  lemma {:induction false} FindReferenceFinds(refs: seq<ReferenceDescriptor>, refType: string)
    ensures FindReference(refs, refType).Some? <==> exists rd :: rd in refs && rd.refType == refType
    ensures FindReference(refs, refType).Some? ==>
              FindReference(refs, refType).value in refs && FindReference(refs, refType).value.refType == refType
  {
    if refs != [] {
      FindReferenceFinds(refs[1..], refType);
      assert refs == [refs[0]] + refs[1..];
    }
  }

  // ---------------------------------------------------------------------------------------
  // Aggregation over the tables
  // ---------------------------------------------------------------------------------------

  function RefTime(row: Row): Time {
    if row.updatedTime == ZERO_TIME then row.createdTime else row.updatedTime
  }

  function Required(descs: Descriptors, kind: Kind): seq<string> {
    if kind in descs then descs[kind].requiredAdapters else []
  }

  function SnapshotsFor(descs: Descriptors, row: Row, reports: Reports): Snapshots {
    SnapshotTable(reports, Required(descs, row.kind), row.generation)
  }

  /** The conditions that aggregation yields for a row, by type. */
  function FreshConditions(
    descs: Descriptors, row: Row, reports: Reports, prev: ConditionTable, hasChildren: bool): ConditionTable
  {
    ByType(AggregateOver(row.generation, RefTime(row), row.deletedTime.Some?, prev,
                         Required(descs, row.kind), SnapshotsFor(descs, row, reports), hasChildren))
  }

  /** The Reconciled status that the stored reports call for now. */
  function FreshStatus(descs: Descriptors, s: State, id: Id): Status
    requires id in s.rows
  {
    var row := s.rows[id];
    ReconciledStatus(row.generation, row.deletedTime.Some?, Required(descs, row.kind),
                     SnapshotsFor(descs, row, ReportsOf(s, id)), HasChild(s, id))
  }

  /** What a condition says apart from the times that depend on the one before it. */
  function View(c: Condition): Condition {
    c.(createdTime := ZERO_TIME, lastTransitionTime := ZERO_TIME)
  }

  /** The conditions are an aggregation of the reports, after whatever conditions came before. */
  ghost predicate Aggregated(descs: Descriptors, row: Row, reports: Reports, table: ConditionTable) {
    exists prev: ConditionTable :: table == FreshConditions(descs, row, reports, prev, false)
  }

  // ---------------------------------------------------------------------------------------
  // The ownership tree
  // ---------------------------------------------------------------------------------------

  /** `n` hangs directly under its owner, an existing row of the kind that its own kind names as parent. */
  ghost predicate OwnedProperly(descs: Descriptors, s: State, n: Id) {
    && n in s.rows && s.rows[n].kind in descs && s.rows[n].kind != NoKind
    && s.rows[n].owner.Some? && s.rows[n].owner.value in s.rows
    && s.rows[s.rows[n].owner.value].kind == descs[s.rows[n].kind].parentKind
  }

  ghost function DepthOf(descs: Descriptors, s: State, n: Id): nat
    requires AllRooted(descs)
  {
    if n in s.rows && s.rows[n].kind in descs then Depth(descs, s.rows[n].kind) else 0
  }

  lemma OwnerIsShallower(descs: Descriptors, s: State, n: Id)
    requires AllRooted(descs) && OwnedProperly(descs, s, n)
    ensures DepthOf(descs, s, s.rows[n].owner.value) < DepthOf(descs, s, n)
    ensures s.rows[s.rows[n].owner.value].kind in descs ==>
              DepthOf(descs, s, n) == DepthOf(descs, s, s.rows[n].owner.value) + 1
  {
    DepthOfChild(descs, s.rows[n].kind);
  }

  /** Walking up from `n` meets `root`; with `cascade`, only over kinds that are deleted with their parent. */
  ghost predicate Reaches(descs: Descriptors, s: State, root: Id, n: Id, cascade: bool)
    requires AllRooted(descs)
    decreases DepthOf(descs, s, n)
  {
    && n in s.rows
    && (n == root ||
        (OwnedProperly(descs, s, n) && (cascade ==> descs[s.rows[n].kind].onParentDelete == Cascade) &&
         (OwnerIsShallower(descs, s, n); Reaches(descs, s, root, s.rows[n].owner.value, cascade))))
  }

  ghost function Subtree(descs: Descriptors, s: State, root: Id): set<Id>
    requires AllRooted(descs)
  {
    set n | n in s.rows && Reaches(descs, s, root, n, false)
  }

  /** What a delete of `root` touches: `root` and everything below it over cascading kinds. */
  ghost function CascadeTree(descs: Descriptors, s: State, root: Id): set<Id>
    requires AllRooted(descs)
  {
    set n | n in s.rows && Reaches(descs, s, root, n, true)
  }

  lemma {:induction false} ReachesIsDeeper(descs: Descriptors, s: State, root: Id, n: Id, cascade: bool)
    requires AllRooted(descs) && Reaches(descs, s, root, n, cascade) && n != root
    ensures root in s.rows && DepthOf(descs, s, root) < DepthOf(descs, s, n)
    decreases DepthOf(descs, s, n)
  {
    var o := s.rows[n].owner.value;
    OwnerIsShallower(descs, s, n);
    if o != root { ReachesIsDeeper(descs, s, root, o, cascade); }
  }

  /** The child of `root` through which a deeper node is reached. */
  lemma {:induction false} ReachesThroughChild(descs: Descriptors, s: State, root: Id, n: Id, cascade: bool)
    returns (c: Id)
    requires AllRooted(descs) && Reaches(descs, s, root, n, cascade) && n != root
    ensures IsChild(s, root, c) && OwnedProperly(descs, s, c) && Reaches(descs, s, c, n, cascade)
    ensures cascade ==> descs[s.rows[c].kind].onParentDelete == Cascade
    decreases DepthOf(descs, s, n)
  {
    var o := s.rows[n].owner.value;
    OwnerIsShallower(descs, s, n);
    if o == root {
      c := n;
    } else {
      c := ReachesThroughChild(descs, s, root, o, cascade);
    }
  }

  lemma {:induction false} ReachesTransitive(descs: Descriptors, s: State, a: Id, b: Id, c: Id, cascade: bool)
    requires AllRooted(descs) && Reaches(descs, s, a, b, cascade) && Reaches(descs, s, b, c, cascade)
    ensures Reaches(descs, s, a, c, cascade)
    decreases DepthOf(descs, s, c)
  {
    if c != b {
      OwnerIsShallower(descs, s, c);
      ReachesTransitive(descs, s, a, b, s.rows[c].owner.value, cascade);
    }
  }

  lemma {:induction false} CascadeReaches(descs: Descriptors, s: State, root: Id, n: Id)
    requires AllRooted(descs) && Reaches(descs, s, root, n, true)
    ensures Reaches(descs, s, root, n, false)
    decreases DepthOf(descs, s, n)
  {
    if n != root {
      OwnerIsShallower(descs, s, n);
      CascadeReaches(descs, s, root, s.rows[n].owner.value);
    }
  }

  /** The ancestors of a node form a chain. */
  lemma {:induction false} AncestorsComparable(descs: Descriptors, s: State, a: Id, b: Id, n: Id, cascade: bool)
    requires AllRooted(descs) && Reaches(descs, s, a, n, cascade) && Reaches(descs, s, b, n, cascade)
    ensures Reaches(descs, s, a, b, cascade) || Reaches(descs, s, b, a, cascade)
    decreases DepthOf(descs, s, n)
  {
    if n != a && n != b {
      OwnerIsShallower(descs, s, n);
      AncestorsComparable(descs, s, a, b, s.rows[n].owner.value, cascade);
    }
  }

  /** Different children of one parent have disjoint subtrees. */
  lemma SiblingsDisjoint(descs: Descriptors, s: State, root: Id, c: Id, d: Id, n: Id, cascade: bool)
    requires AllRooted(descs) && OwnedProperly(descs, s, c) && OwnedProperly(descs, s, d) && c != d
    requires IsChild(s, root, c) && IsChild(s, root, d)
    requires Reaches(descs, s, c, n, cascade)
    ensures !Reaches(descs, s, d, n, cascade)
  {
    if Reaches(descs, s, d, n, cascade) {
      AncestorsComparable(descs, s, c, d, n, cascade);
      OwnerIsShallower(descs, s, c);
      OwnerIsShallower(descs, s, d);
      if Reaches(descs, s, c, d, cascade) {
        if root != c { ReachesIsDeeper(descs, s, c, root, cascade); }
      } else {
        if root != d { ReachesIsDeeper(descs, s, d, root, cascade); }
      }
    }
  }
}
