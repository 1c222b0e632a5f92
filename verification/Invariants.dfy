/** What every transition keeps: the forest of owners, the references, the reports and the view of the conditions. */
module Invariants {
  import opened Common
  import opened Registry
  import opened Conditions
  import opened Aggregation
  import opened AggregationLaws
  import opened Tables
  import opened Lifecycle

  // ---------------------------------------------------------------------------------------
  // The invariant
  // ---------------------------------------------------------------------------------------

  /** A row has a registered kind; its owner exists, is of the parent kind, and is not deleted under a live child. */
  ghost predicate RowOk(descs: Descriptors, s: State, id: Id)
    requires id in s.rows
  {
    && id in s.issued && s.rows[id].kind in descs && s.rows[id].generation >= 1 && s.rows[id].updatedTime != ZERO_TIME
    && (s.rows[id].owner.Some? ==>
          OwnedProperly(descs, s, id) && (Deleting(s, s.rows[id].owner.value) ==> Deleting(s, id)))
  }

  /** A reference has a live source that declares it and a live target of the declared kind. */
  ghost predicate ReferenceOk(descs: Descriptors, s: State, r: Reference) {
    && Live(s, r.source) && Live(s, r.target) && s.rows[r.target].kind == r.targetKind
    && Declared(descs, s, r.source, r.refType)
    && FindReference(descs[s.rows[r.source].kind].references, r.refType).value.targetKind == r.targetKind
  }

  ghost predicate CountOk(s: State, id: Id, rd: ReferenceDescriptor) {
    rd.min <= |RefsOf(s, id, rd.refType)| && (rd.max > 0 ==> |RefsOf(s, id, rd.refType)| <= rd.max)
  }

  /** A live resource has between Min and Max references of each declared type. */
  ghost predicate CountsOk(descs: Descriptors, s: State, id: Id)
    requires id in s.rows
  {
    s.rows[id].kind in descs && Live(s, id) ==>
      forall rd :: rd in descs[s.rows[id].kind].references ==> CountOk(s, id, rd)
  }

  /** Stored reports are keyed by adapter, timed, and never ahead of the resource. */
  ghost predicate ReportsOk(s: State, id: Id)
    requires id in s.statuses
  {
    && id in s.issued && Keyed(s.statuses[id])
    && (id in s.rows ==> forall name :: name in s.statuses[id] ==>
          s.statuses[id][name].observedGeneration <= s.rows[id].generation &&
          s.statuses[id][name].lastReportTime != ZERO_TIME)
  }

  ghost predicate StoredOk(s: State, id: Id)
    requires id in s.conditions
  {
    id in s.rows && TableTimesSet(s.conditions[id]) && TableKeyed(s.conditions[id])
  }

  /**
   * On a live resource the stored conditions are an aggregation of its stored reports. On a deleting one Reconciled is
   * never ahead of them.
   */
  ghost predicate ViewOk(descs: Descriptors, s: State, id: Id)
    requires id in s.rows
  {
    Required(descs, s.rows[id].kind) != [] ==>
      && ReconciledOf(s, id).Some?
      && (Live(s, id) ==> Aggregated(descs, s.rows[id], ReportsOf(s, id), ConditionsOf(s, id)))
      && (Deleting(s, id) && ReconciledOf(s, id).value.status == CondTrue ==> FreshStatus(descs, s, id) == CondTrue)
  }

  ghost predicate NamesOk(s: State, a: Id, b: Id) {
    Live(s, a) && Live(s, b) && a != b && s.rows[a].kind == s.rows[b].kind && s.rows[a].owner == s.rows[b].owner ==>
      s.rows[a].name != s.rows[b].name
  }

  ghost predicate Forest(descs: Descriptors, s: State) {
    forall id {:trigger RowOk(descs, s, id)} :: id in s.rows ==> RowOk(descs, s, id)
  }

  ghost predicate References(descs: Descriptors, s: State) {
    && (forall r {:trigger ReferenceOk(descs, s, r)} :: r in s.refs ==> ReferenceOk(descs, s, r))
    && (forall id {:trigger CountsOk(descs, s, id)} :: id in s.rows ==> CountsOk(descs, s, id))
  }

  ghost predicate Stored(descs: Descriptors, s: State) {
    && (forall id {:trigger ReportsOk(s, id)} :: id in s.statuses ==> ReportsOk(s, id))
    && (forall id {:trigger StoredOk(s, id)} :: id in s.conditions ==> StoredOk(s, id))
    && (forall id {:trigger ViewOk(descs, s, id)} :: id in s.rows ==> ViewOk(descs, s, id))
  }

  ghost predicate Names(s: State) {
    forall a, b {:trigger NamesOk(s, a, b)} :: a in s.rows && b in s.rows ==> NamesOk(s, a, b)
  }

  ghost predicate Inv(descs: Descriptors, s: State) {
    Forest(descs, s) && References(descs, s) && Stored(descs, s) && Names(s)
  }

  lemma EmptyOk(descs: Descriptors)
    ensures Inv(descs, EMPTY)
  {
  }

  // ---------------------------------------------------------------------------------------
  // Aggregation over the tables
  // ---------------------------------------------------------------------------------------

  lemma SnapshotTimes(descs: Descriptors, row: Row, reports: Reports)
    requires forall name :: name in reports ==> reports[name].lastReportTime != ZERO_TIME
    ensures SnapshotTimesSet(SnapshotsFor(descs, row, reports))
  {
  }

  /** The fresh conditions hold the computed Reconciled and LastKnownReconciled, and no zero time. */
  lemma FreshTable(descs: Descriptors, row: Row, reports: Reports, prev: ConditionTable, hasChildren: bool)
    requires DistinctTypes(Required(descs, row.kind)) && RefTime(row) != ZERO_TIME && TableTimesSet(prev)
    requires forall name :: name in reports ==> reports[name].lastReportTime != ZERO_TIME
    ensures var table := FreshConditions(descs, row, reports, prev, hasChildren);
            && Lookup(table, ReconciledType) == Some(Reconciled(
                 row.generation, RefTime(row), row.deletedTime.Some?, Lookup(prev, ReconciledType),
                 Required(descs, row.kind), SnapshotsFor(descs, row, reports), hasChildren))
            && Lookup(table, LastKnownReconciledType) == Some(LastKnownReconciled(
                 RefTime(row), Lookup(prev, LastKnownReconciledType),
                 Required(descs, row.kind), SnapshotsFor(descs, row, reports)))
            && TableTimesSet(table) && TableKeyed(table)
  {
    var required, snaps := Required(descs, row.kind), SnapshotsFor(descs, row, reports);
    AggregateTable(row.generation, RefTime(row), row.deletedTime.Some?, prev, required, snaps, hasChildren);
    SnapshotTimes(descs, row, reports);
    AggregateSetsTimes(row.generation, RefTime(row), row.deletedTime.Some?, prev, required, snaps, hasChildren);
    var conditions :=
      AggregateOver(row.generation, RefTime(row), row.deletedTime.Some?, prev, required, snaps, hasChildren);
    forall t | t in ByType(conditions) ensures TimesSet(ByType(conditions)[t]) && ByType(conditions)[t].ctype == t {
      ByTypeOnlyListed(conditions, t);
    }
  }

  lemma RequiredTypesDistinct(descs: Descriptors, kind: Kind)
    requires RegistryOk(descs)
    ensures DistinctTypes(Required(descs, kind))
  {
    assert kind in descs ==> DistinctTypes(descs[kind].requiredAdapters);
  }

  /** What an aggregated table of a live row holds, and which conditions came before. */
  lemma AggregatedTable(descs: Descriptors, row: Row, reports: Reports, table: ConditionTable)
    returns (prev: ConditionTable)
    requires RegistryOk(descs) && row.deletedTime.None? && Aggregated(descs, row, reports, table)
    ensures table == FreshConditions(descs, row, reports, prev, false)
    ensures var required, snaps := Required(descs, row.kind), SnapshotsFor(descs, row, reports);
            && Lookup(table, ReconciledType) == Some(Reconciled(
                 row.generation, RefTime(row), false, Lookup(prev, ReconciledType), required, snaps, false))
            && Lookup(table, LastKnownReconciledType) == Some(LastKnownReconciled(
                 RefTime(row), Lookup(prev, LastKnownReconciledType), required, snaps))
            && forall name :: name in required && name in snaps ==>
                 Lookup(table, MapAdapterToConditionType(name)) ==
                 Some(ConditionOf(name, snaps[name], prev, RefTime(row)))
  {
    prev :| table == FreshConditions(descs, row, reports, prev, false);
    RequiredTypesDistinct(descs, row.kind);
    AggregateTable(row.generation, RefTime(row), false, prev, Required(descs, row.kind),
                   SnapshotsFor(descs, row, reports), false);
  }

  lemma AggregatedFromSnapshots(descs: Descriptors, row: Row, a: Reports, b: Reports, table: ConditionTable)
    requires Aggregated(descs, row, a, table) && SnapshotsFor(descs, row, a) == SnapshotsFor(descs, row, b)
    ensures Aggregated(descs, row, b, table)
  {
    var prev :| table == FreshConditions(descs, row, a, prev, false);
    assert table == FreshConditions(descs, row, b, prev, false);
  }

  /** Recomputing a row restores its view, whatever was stored before. */
  lemma RecomputedView(descs: Descriptors, s: State, s': State, id: Id, prev: ConditionTable)
    requires RegistryOk(descs) && id in s'.rows && RefTime(s'.rows[id]) != ZERO_TIME && TableTimesSet(prev)
    requires forall name :: name in ReportsOf(s', id) ==> ReportsOf(s', id)[name].lastReportTime != ZERO_TIME
    requires id in s'.conditions
    requires s'.conditions[id] ==
             FreshConditions(descs, s'.rows[id], ReportsOf(s', id), prev, Deleting(s', id) && HasChild(s', id))
    ensures ViewOk(descs, s', id) && StoredOk(s', id)
  {
    RequiredTypesDistinct(descs, s'.rows[id].kind);
    FreshTable(descs, s'.rows[id], ReportsOf(s', id), prev, Deleting(s', id) && HasChild(s', id));
  }

  /** Conditions, rows and reports as before, and no new children under a deleting row: the view stays right. */
  lemma ViewKept(descs: Descriptors, s: State, s': State, id: Id)
    requires id in s.rows && id in s'.rows && s'.rows[id] == s.rows[id]
    requires ViewOk(descs, s, id)
    requires ConditionsOf(s', id) == ConditionsOf(s, id) && ReportsOf(s', id) == ReportsOf(s, id)
    requires Deleting(s, id) && HasChild(s', id) ==> HasChild(s, id)
    ensures ViewOk(descs, s', id)
  {
  }

  // ---------------------------------------------------------------------------------------
  // Counting reference rows
  // ---------------------------------------------------------------------------------------

  function RowsOfPrefix(source: Id, refType: string, target: Kind, objs: seq<ObjectRef>, n: nat): set<Reference>
    requires n <= |objs|
  {
    set i | 0 <= i < n && objs[i].id.Some? :: Reference(source, refType, objs[i].id.value, target)
  }

  lemma {:induction false} PrefixCount(source: Id, refType: string, target: Kind, objs: seq<ObjectRef>, n: nat)
    requires n <= |objs|
    requires forall i :: 0 <= i < |objs| ==> objs[i].id.Some?
    requires forall i, j :: 0 <= i < j < |objs| ==> objs[i].id != objs[j].id
    ensures |RowsOfPrefix(source, refType, target, objs, n)| == n
  {
    if n > 0 {
      PrefixCount(source, refType, target, objs, n - 1);
      var last := Reference(source, refType, objs[n - 1].id.value, target);
      assert last !in RowsOfPrefix(source, refType, target, objs, n - 1);
      assert RowsOfPrefix(source, refType, target, objs, n) ==
             RowsOfPrefix(source, refType, target, objs, n - 1) + {last};
    }
  }

  /** Validated references are stored as exactly as many rows as were supplied. */
  lemma ReferenceRowsCount(descs: Descriptors, s: State, kind: Kind, source: Id, refs: ReferenceMap, refType: string)
    requires kind in descs && ReferencesAcceptable(descs, s, kind, refs)
    ensures |set r | r in ReferenceRows(descs, kind, source, refs) && r.refType == refType| == |Supplied(refs, refType)|
  {
    var rows := set r | r in ReferenceRows(descs, kind, source, refs) && r.refType == refType;
    if refType in refs {
      var target := TargetKind(descs, kind, refType);
      PrefixCount(source, refType, target, refs[refType], |refs[refType]|);
      assert rows == RowsOfPrefix(source, refType, target, refs[refType], |refs[refType]|);
    } else {
      assert rows == {};
    }
  }

  lemma FindReferenceUnique(descs: Descriptors, refs: seq<ReferenceDescriptor>, rd: ReferenceDescriptor)
    requires ReferencesOk(descs, refs) && rd in refs
    ensures FindReference(refs, rd.refType) == Some(rd)
  {
    FindReferenceFinds(refs, rd.refType);
  }

  /** A resource whose outgoing rows are the validated ones meets every bound and points at live targets. */
  lemma SuppliedReferencesOk(descs: Descriptors, s: State, s': State, id: Id, kind: Kind, refs: ReferenceMap)
    requires RegistryOk(descs) && kind in descs && ReferencesAcceptable(descs, s, kind, refs)
    requires Live(s', id) && s'.rows[id].kind == kind
    requires forall t :: Live(s, t) ==> Live(s', t) && s'.rows[t].kind == s.rows[t].kind
    requires forall r :: r in s'.refs && r.source == id <==> r in ReferenceRows(descs, kind, id, refs)
    ensures CountsOk(descs, s', id)
    ensures forall r :: r in ReferenceRows(descs, kind, id, refs) ==> ReferenceOk(descs, s', r)
  {
    assert EntryOk(descs, descs[kind]);
    forall rd | rd in descs[kind].references ensures CountOk(s', id, rd) {
      FindReferenceUnique(descs, descs[kind].references, rd);
      ReferenceRowsCount(descs, s, kind, id, refs, rd.refType);
      assert RefsOf(s', id, rd.refType) == set r | r in ReferenceRows(descs, kind, id, refs) && r.refType == rd.refType;
    }
    forall r | r in ReferenceRows(descs, kind, id, refs) ensures ReferenceOk(descs, s', r) {
      var t, i :| t in refs && 0 <= i < |refs[t]| && refs[t][i].id.Some? &&
                  r == Reference(id, t, refs[t][i].id.value, TargetKind(descs, kind, t));
      assert TypeAcceptable(s, FindReference(descs[kind].references, t).value, refs[t]);
    }
  }

  /** Other resources keep their outgoing references. */
  lemma CountsKept(descs: Descriptors, s: State, s': State, id: Id)
    requires id in s.rows && CountsOk(descs, s, id) && id in s'.rows
    requires s'.rows[id].kind == s.rows[id].kind && (Live(s', id) ==> Live(s, id))
    requires Live(s', id) ==> forall r: Reference :: r.source == id ==> (r in s'.refs <==> r in s.refs)
    ensures CountsOk(descs, s', id)
  {
    if s.rows[id].kind in descs && Live(s', id) {
      forall rd | rd in descs[s.rows[id].kind].references ensures CountOk(s', id, rd) {
        assert RefsOf(s', id, rd.refType) == RefsOf(s, id, rd.refType);
        assert CountOk(s, id, rd);
      }
    }
  }
}
