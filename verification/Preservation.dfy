/** Every transition keeps the invariant. */
module Preservation {
  import opened Common
  import opened Registry
  import opened Conditions
  import opened Aggregation
  import opened AggregationLaws
  import opened Delivery
  import opened Tables
  import opened Lifecycle
  import opened Invariants

  // ---------------------------------------------------------------------------------------
  // What happens elsewhere
  // ---------------------------------------------------------------------------------------

  /** All that is stored about rows other than `id` is as before. */
  ghost predicate SameElsewhere(s: State, s': State, id: Id) {
    && s.issued <= s'.issued
    && (forall n :: n != id ==> Untouched(s, s', n))
    && (forall n :: n != id ==> (n in s'.statuses <==> n in s.statuses) && ReportsOf(s', n) == ReportsOf(s, n))
  }

  ghost predicate NoNewChildren(s: State, s': State, n: Id) {
    Deleting(s, n) && HasChild(s', n) ==> HasChild(s, n)
  }

  lemma StoredElsewhere(descs: Descriptors, s: State, s': State, id: Id, n: Id)
    requires Stored(descs, s) && SameElsewhere(s, s', id) && n != id && NoNewChildren(s, s', n)
    ensures n in s'.statuses ==> ReportsOk(s', n)
    ensures n in s'.conditions ==> StoredOk(s', n)
    ensures n in s'.rows ==> ViewOk(descs, s', n)
  {
    assert Untouched(s, s', n);
    assert n in s.statuses ==> ReportsOk(s, n);
    assert n in s.conditions ==> StoredOk(s, n);
    if n in s.rows {
      assert ViewOk(descs, s, n);
      ViewKept(descs, s, s', n);
    }
  }

  lemma StoredFromParts(descs: Descriptors, s: State, s': State, id: Id)
    requires Stored(descs, s) && SameElsewhere(s, s', id)
    requires forall n {:trigger NoNewChildren(s, s', n)} :: n != id ==> NoNewChildren(s, s', n)
    requires id in s'.statuses ==> ReportsOk(s', id)
    requires id in s'.conditions ==> StoredOk(s', id)
    requires id in s'.rows ==> ViewOk(descs, s', id)
    ensures Stored(descs, s')
  {
    forall n | n != id
      ensures n in s'.statuses ==> ReportsOk(s', n)
      ensures n in s'.conditions ==> StoredOk(s', n)
      ensures n in s'.rows ==> ViewOk(descs, s', n)
    {
      StoredElsewhere(descs, s, s', id, n);
    }
  }

  /** Rows that all were there before, under the same owners, bring no new children. */
  lemma FewerRows(s: State, s': State, n: Id)
    requires forall c :: c in s'.rows ==> c in s.rows && s'.rows[c].owner == s.rows[c].owner
    ensures HasChild(s', n) ==> HasChild(s, n)
  {
    if HasChild(s', n) {
      var c :| c in s'.rows && IsChild(s', n, c);
      assert IsChild(s, n, c);
    }
  }

  // ---------------------------------------------------------------------------------------
  // Create
  // ---------------------------------------------------------------------------------------

  /** The tables of a successful create before its conditions are computed. */
  ghost predicate Inserted(
    descs: Descriptors, s: State, s': State, kind: Kind, name: string, owner: Option<Id>, refs: ReferenceMap,
    id: Id, row: Row)
  {
    && kind in descs && ReferencesAcceptable(descs, s, kind, refs) && !NameTaken(s, kind, owner, name)
    && (owner.Some? ==> Live(s, owner.value) && s.rows[owner.value].kind == descs[kind].parentKind)
    && row.kind == kind && row.name == name && row.owner == owner && row.deletedTime.None? && row.generation == 1
    && row.updatedTime != ZERO_TIME
    && id !in s.issued && s'.issued == s.issued + {id} && s'.rows == s.rows[id := row]
    && s'.refs == s.refs + ReferenceRows(descs, kind, id, refs) && s'.statuses == s.statuses
  }

  lemma NewIdUnused(descs: Descriptors, s: State, id: Id)
    requires Inv(descs, s) && id !in s.issued
    ensures id !in s.rows && id !in s.statuses && id !in s.conditions
  {
    assert id in s.rows ==> RowOk(descs, s, id);
    assert id in s.statuses ==> ReportsOk(s, id);
    assert id in s.conditions ==> StoredOk(s, id);
  }

  lemma InsertKeepsForest(
    descs: Descriptors, s: State, s': State, kind: Kind, name: string, owner: Option<Id>, refs: ReferenceMap,
    id: Id, row: Row)
    requires RegistryOk(descs) && Inv(descs, s) && Inserted(descs, s, s', kind, name, owner, refs, id, row)
    ensures Forest(descs, s')
  {
    NewIdUnused(descs, s, id);
    assert EntryOk(descs, descs[kind]);
    forall n | n in s'.rows ensures RowOk(descs, s', n) {
      assert n != id ==> RowOk(descs, s, n);
    }
  }

  lemma InsertKeepsNames(
    descs: Descriptors, s: State, s': State, kind: Kind, name: string, owner: Option<Id>, refs: ReferenceMap,
    id: Id, row: Row)
    requires Inv(descs, s) && Inserted(descs, s, s', kind, name, owner, refs, id, row)
    ensures Names(s')
  {
    forall a, b | a in s'.rows && b in s'.rows ensures NamesOk(s', a, b) {
      assert a != id && b != id ==> NamesOk(s, a, b);
    }
  }

  lemma InsertKeepsReferences(
    descs: Descriptors, s: State, s': State, kind: Kind, name: string, owner: Option<Id>, refs: ReferenceMap,
    id: Id, row: Row)
    requires RegistryOk(descs) && Inv(descs, s) && Inserted(descs, s, s', kind, name, owner, refs, id, row)
    ensures References(descs, s')
  {
    NewIdUnused(descs, s, id);
    assert forall r :: r in s.refs ==> ReferenceOk(descs, s, r);
    SuppliedReferencesOk(descs, s, s', id, kind, refs);
    forall n | n in s'.rows && n != id ensures CountsOk(descs, s', n) {
      CountsKept(descs, s, s', n);
    }
    forall r | r in s'.refs ensures ReferenceOk(descs, s', r) {
      if r !in ReferenceRows(descs, kind, id, refs) { assert ReferenceOk(descs, s, r); }
    }
  }

  lemma InsertBringsNoChild(
    descs: Descriptors, s: State, s': State, kind: Kind, name: string, owner: Option<Id>, refs: ReferenceMap, id: Id,
    row: Row, n: Id)
    requires Inserted(descs, s, s', kind, name, owner, refs, id, row)
    ensures NoNewChildren(s, s', n)
  {
    if Deleting(s, n) && HasChild(s', n) {
      var c :| c in s'.rows && IsChild(s', n, c);
      assert c != id && IsChild(s, n, c);
    }
  }

  lemma InsertKeepsStored(
    descs: Descriptors, s: State, s': State, kind: Kind, name: string, owner: Option<Id>, refs: ReferenceMap,
    id: Id, row: Row)
    requires RegistryOk(descs) && Inv(descs, s) && Inserted(descs, s, s', kind, name, owner, refs, id, row)
    requires SameElsewhere(s, s', id) && ViewOk(descs, s', id) && (id in s'.conditions ==> StoredOk(s', id))
    ensures Stored(descs, s')
  {
    NewIdUnused(descs, s, id);
    forall n ensures NoNewChildren(s, s', n) {
      InsertBringsNoChild(descs, s, s', kind, name, owner, refs, id, row, n);
    }
    StoredFromParts(descs, s, s', id);
  }

  /** A freshly inserted row has its conditions if its kind calls for them, and nothing else. */
  lemma NewRowView(descs: Descriptors, s': State, id: Id, row: Row)
    requires RegistryOk(descs) && Live(s', id) && s'.rows[id] == row && row.updatedTime != ZERO_TIME &&
             id !in s'.statuses
    requires if Required(descs, row.kind) == [] then id !in s'.conditions
             else id in s'.conditions && s'.conditions[id] == FreshConditions(descs, row, map[], map[], false)
    ensures ViewOk(descs, s', id) && (id in s'.conditions ==> StoredOk(s', id))
  {
    if Required(descs, s'.rows[id].kind) != [] { RecomputedView(descs, s', s', id, map[]); }
  }

  /** Recomputing touches the conditions of one row only. */
  lemma RecomputedShape(descs: Descriptors, s: State, id: Id)
    requires id in s.rows && Live(s, id)
    ensures var s' := RecomputedIfRequired(descs, s, id);
            s' == s.(conditions := if Required(descs, s.rows[id].kind) == [] then s.conditions
                     else s.conditions[id := FreshConditions(descs, s.rows[id], ReportsOf(s, id),
                                                             ConditionsOf(s, id), false)])
  {
  }

  /** The created tables are the inserted ones, with first conditions where the kind calls for them. */
  lemma CreatedShape(
    descs: Descriptors, s: State, kind: Kind, name: string, owner: Option<Id>, refs: ReferenceMap,
    spec: string, labels: map<string, string>, id: Id, now: Time)
    requires kind in descs && id !in s.statuses && id !in s.conditions
    ensures var s' := Created(descs, s, kind, name, owner, refs, spec, labels, id, now);
            var row := NewRow(kind, name, owner, spec, labels, now);
            && s'.issued == s.issued + {id} && s'.rows == s.rows[id := row]
            && s'.refs == s.refs + ReferenceRows(descs, kind, id, refs) && s'.statuses == s.statuses
            && s'.conditions == if Required(descs, kind) == [] then s.conditions
                 else s.conditions[id := FreshConditions(descs, row, map[], map[], false)]
  {
    RecomputedShape(descs, SavedNew(descs, s, kind, name, owner, refs, spec, labels, id, now), id);
  }

  lemma InsertedElsewhere(
    descs: Descriptors, s: State, s': State, kind: Kind, name: string, owner: Option<Id>, refs: ReferenceMap,
    id: Id, row: Row,
    table: ConditionTable)
    requires Inserted(descs, s, s', kind, name, owner, refs, id, row)
    requires s'.conditions == s.conditions || s'.conditions == s.conditions[id := table]
    ensures SameElsewhere(s, s', id)
  {
  }

  lemma InsertedStored(
    descs: Descriptors, s: State, s': State, kind: Kind, name: string, owner: Option<Id>, refs: ReferenceMap,
    id: Id, row: Row)
    requires RegistryOk(descs) && Inv(descs, s) && Inserted(descs, s, s', kind, name, owner, refs, id, row)
    requires s'.conditions == if Required(descs, kind) == [] then s.conditions
               else s.conditions[id := FreshConditions(descs, row, map[], map[], false)]
    ensures Stored(descs, s')
  {
    NewIdUnused(descs, s, id);
    NewRowView(descs, s', id, row);
    InsertedElsewhere(descs, s, s', kind, name, owner, refs, id, row, FreshConditions(descs, row, map[], map[], false));
    InsertKeepsStored(descs, s, s', kind, name, owner, refs, id, row);
  }

  lemma InsertKeeps(
    descs: Descriptors, s: State, s': State, kind: Kind, name: string, owner: Option<Id>, refs: ReferenceMap,
    id: Id, row: Row)
    requires RegistryOk(descs) && Inv(descs, s) && Inserted(descs, s, s', kind, name, owner, refs, id, row)
    requires s'.conditions == if Required(descs, kind) == [] then s.conditions
               else s.conditions[id := FreshConditions(descs, row, map[], map[], false)]
    ensures Inv(descs, s')
  {
    InsertKeepsForest(descs, s, s', kind, name, owner, refs, id, row);
    InsertKeepsNames(descs, s, s', kind, name, owner, refs, id, row);
    InsertKeepsReferences(descs, s, s', kind, name, owner, refs, id, row);
    InsertedStored(descs, s, s', kind, name, owner, refs, id, row);
  }

  lemma CreateKeeps(
    descs: Descriptors, s: State, kind: Kind, name: string, owner: Option<Id>, refs: ReferenceMap,
    spec: string, labels: map<string, string>, id: Id, now: Time)
    requires RegistryOk(descs) && Inv(descs, s) && id !in s.issued && now != ZERO_TIME
    requires CreateStep(descs, s, kind, name, owner, refs, spec, labels, id, now).Ok?
    ensures Inv(descs, CreateStep(descs, s, kind, name, owner, refs, spec, labels, id, now).value)
  {
    NewIdUnused(descs, s, id);
    CreatedShape(descs, s, kind, name, owner, refs, spec, labels, id, now);
    InsertKeeps(descs, s, Created(descs, s, kind, name, owner, refs, spec, labels, id, now), kind, name,
                owner, refs, id,
                NewRow(kind, name, owner, spec, labels, now));
  }

  // ---------------------------------------------------------------------------------------
  // Patch
  // ---------------------------------------------------------------------------------------

  /** One live row has its payload, generation and update time rewritten. */
  ghost predicate Rewritten(s: State, s': State, id: Id) {
    && Live(s, id) && s'.issued == s.issued && s'.rows.Keys == s.rows.Keys && s'.statuses == s.statuses
    && (forall n :: n in s.rows && n != id ==> s'.rows[n] == s.rows[n])
    && s'.rows[id].kind == s.rows[id].kind && s'.rows[id].name == s.rows[id].name
    && s'.rows[id].owner == s.rows[id].owner && s'.rows[id].deletedTime.None?
    && s'.rows[id].generation >= s.rows[id].generation && s'.rows[id].updatedTime != ZERO_TIME
  }

  lemma RewriteKeepsForest(descs: Descriptors, s: State, s': State, id: Id)
    requires Forest(descs, s) && Names(s) && Rewritten(s, s', id)
    ensures Forest(descs, s') && Names(s')
  {
    forall n | n in s'.rows ensures RowOk(descs, s', n) {
      assert RowOk(descs, s, n);
    }
    forall a, b | a in s'.rows && b in s'.rows ensures NamesOk(s', a, b) {
      assert NamesOk(s, a, b);
    }
  }

  lemma PatchKeepsReferences(descs: Descriptors, s: State, s': State, id: Id, refs: Option<ReferenceMap>)
    requires RegistryOk(descs) && Inv(descs, s) && Rewritten(s, s', id) && s.rows[id].kind in descs
    requires refs.Some? ==> ReferencesAcceptable(descs, s, s.rows[id].kind, refs.value)
    requires s'.refs == if refs.None? then s.refs
                        else WithoutSource(s.refs, id) + ReferenceRows(descs, s.rows[id].kind, id, refs.value)
    ensures References(descs, s')
  {
    if refs.Some? { SuppliedReferencesOk(descs, s, s', id, s.rows[id].kind, refs.value); }
    forall n | n in s'.rows && (n != id || refs.None?) ensures CountsOk(descs, s', n) {
      CountsKept(descs, s, s', n);
    }
    forall r | r in s'.refs ensures ReferenceOk(descs, s', r) {
      if r in s.refs { assert ReferenceOk(descs, s, r); }
    }
  }

  lemma RewriteKeepsStored(descs: Descriptors, s: State, s': State, id: Id)
    requires RegistryOk(descs) && Inv(descs, s) && Rewritten(s, s', id)
    requires SameElsewhere(s, s', id) && ViewOk(descs, s', id) && (id in s'.conditions ==> StoredOk(s', id))
    ensures Stored(descs, s')
  {
    forall n ensures NoNewChildren(s, s', n) { FewerRows(s, s', n); }
    assert id in s.statuses ==> ReportsOk(s, id);
    StoredFromParts(descs, s, s', id);
  }

  lemma RewrittenElsewhere(s: State, s': State, id: Id, table: ConditionTable)
    requires Rewritten(s, s', id) && (s'.conditions == s.conditions || s'.conditions == s.conditions[id := table])
    ensures SameElsewhere(s, s', id)
  {
  }

  lemma RewrittenView(descs: Descriptors, s: State, s': State, id: Id, row: Row)
    requires RegistryOk(descs) && Inv(descs, s) && Rewritten(s, s', id) && s'.rows[id] == row
    requires s'.conditions == if Required(descs, s.rows[id].kind) == [] then s.conditions
               else s.conditions[id := FreshConditions(descs, row, ReportsOf(s, id), ConditionsOf(s, id), false)]
    ensures ViewOk(descs, s', id) && (id in s'.conditions ==> StoredOk(s', id))
  {
    assert id in s.conditions ==> StoredOk(s, id);
    assert id in s.statuses ==> ReportsOk(s, id);
    if Required(descs, row.kind) != [] { RecomputedView(descs, s, s', id, ConditionsOf(s, id)); }
  }

  lemma SavedShape(descs: Descriptors, s: State, id: Id, patch: Patch, now: Time)
    requires Live(s, id) && s.rows[id].kind in descs && now != ZERO_TIME
    ensures var saved := SavedPatch(descs, s, id, patch, now);
            && Rewritten(s, saved, id) && saved.rows[id].kind == s.rows[id].kind
            && saved.refs == PatchedReferences(descs, s, id, patch) && saved.conditions == s.conditions
  {
  }

  /** A patch changes nothing, or rewrites one row, its references, and its conditions where the kind calls for them. */
  lemma PatchedShape(descs: Descriptors, s: State, id: Id, patch: Patch, now: Time)
    requires Live(s, id) && s.rows[id].kind in descs && now != ZERO_TIME
    ensures var s' := Patched(descs, s, id, patch, now);
            s' == s ||
            (&& Rewritten(s, s', id)
             && s'.refs == PatchedReferences(descs, s, id, patch)
             && s'.conditions == if Required(descs, s.rows[id].kind) == [] then s.conditions
                  else s.conditions[id := FreshConditions(descs, s'.rows[id], ReportsOf(s, id),
                                                          ConditionsOf(s, id), false)])
  {
    if PatchedRow(s.rows[id], patch) != s.rows[id] || patch.references.Some? {
      SavedShape(descs, s, id, patch, now);
      var saved := SavedPatch(descs, s, id, patch, now);
      RecomputedShape(descs, saved, id);
      RewrittenConditions(s, saved, id, Patched(descs, s, id, patch, now).conditions);
    }
  }

  lemma RewrittenConditions(s: State, saved: State, id: Id, conditions: map<Id, ConditionTable>)
    requires Rewritten(s, saved, id)
    ensures Rewritten(s, saved.(conditions := conditions), id)
  {
  }

  lemma PatchKeeps(descs: Descriptors, s: State, kind: Kind, id: Id, scope: Option<Id>, patch: Patch, now: Time)
    requires RegistryOk(descs) && Inv(descs, s) && now != ZERO_TIME
    requires PatchStep(descs, s, kind, id, scope, patch, now).Ok?
    ensures Inv(descs, PatchStep(descs, s, kind, id, scope, patch, now).value)
  {
    assert RowOk(descs, s, id);
    PatchedShape(descs, s, id, patch, now);
    var s' := PatchStep(descs, s, kind, id, scope, patch, now).value;
    assert s' == Patched(descs, s, id, patch, now);
    if s' != s { RewriteKeeps(descs, s, s', id, patch.references); }
  }

  lemma RewriteKeeps(descs: Descriptors, s: State, s': State, id: Id, refs: Option<ReferenceMap>)
    requires RegistryOk(descs) && Inv(descs, s) && Rewritten(s, s', id) && s.rows[id].kind in descs
    requires refs.Some? ==> ReferencesAcceptable(descs, s, s.rows[id].kind, refs.value)
    requires s'.refs == if refs.None? then s.refs
                        else WithoutSource(s.refs, id) + ReferenceRows(descs, s.rows[id].kind, id, refs.value)
    requires s'.conditions == if Required(descs, s.rows[id].kind) == [] then s.conditions
               else s.conditions[id := FreshConditions(descs, s'.rows[id], ReportsOf(s, id),
                                                       ConditionsOf(s, id), false)]
    ensures Inv(descs, s')
  {
    RewriteKeepsForest(descs, s, s', id);
    PatchKeepsReferences(descs, s, s', id, refs);
    RewrittenView(descs, s, s', id, s'.rows[id]);
    RewrittenElsewhere(s, s', id, FreshConditions(descs, s'.rows[id], ReportsOf(s, id), ConditionsOf(s, id), false));
    RewriteKeepsStored(descs, s, s', id);
  }

  // ---------------------------------------------------------------------------------------
  // ProcessAdapterStatus
  // ---------------------------------------------------------------------------------------

  /** Accepted reports never get ahead of the resource and carry a time. */
  lemma DeliverKeepsReports(gen: int, reports: Reports, r: AdapterStatus)
    requires Keyed(reports)
    requires forall name :: name in reports ==>
               reports[name].observedGeneration <= gen && reports[name].lastReportTime != ZERO_TIME
    ensures Keyed(Deliver(gen, reports, r))
    ensures forall name :: name in Deliver(gen, reports, r) ==>
              Deliver(gen, reports, r)[name].observedGeneration <= gen &&
              Deliver(gen, reports, r)[name].lastReportTime != ZERO_TIME
  {
    WithTransitionsSame(Arrived(r), Lookup(reports, r.adapter));
  }

  /** A report without a True or False Available leaves the snapshots alone. */
  lemma {:induction false} SilentReport(descs: Descriptors, row: Row, reports: Reports, r: AdapterStatus)
    requires Classify(row.generation, Arrived(r), Lookup(reports, r.adapter)) == Accepted(false)
    ensures SnapshotsFor(descs, row, Deliver(row.generation, reports, r)) == SnapshotsFor(descs, row, reports)
  {
    var available := FirstOfType(r.conditions, Available);
    FirstOfTypeFinds(r.conditions, Available);
    assert Available in [Available, Applied, Health];
    assert r.adapter !in reports;
    assert SnapshotOf(Arrived(r), row.generation).None?;
  }

  lemma RemoveKeepsForest(descs: Descriptors, s: State, id: Id)
    requires RegistryOk(descs) && Inv(descs, s) && id in s.rows && !HasChild(s, id)
    ensures Forest(descs, Removed(s, id)) && Names(Removed(s, id))
  {
    var s' := Removed(s, id);
    forall n | n in s'.rows ensures RowOk(descs, s', n) {
      assert RowOk(descs, s, n);
      assert !IsChild(s, id, n);
    }
    forall a, b | a in s'.rows && b in s'.rows ensures NamesOk(s', a, b) {
      assert NamesOk(s, a, b);
    }
  }

  lemma RemoveKeepsReferences(descs: Descriptors, s: State, id: Id)
    requires Inv(descs, s) && Deleting(s, id)
    ensures References(descs, Removed(s, id))
  {
    var s' := Removed(s, id);
    forall r | r in s'.refs ensures ReferenceOk(descs, s', r) { assert ReferenceOk(descs, s, r); }
    forall n | n in s'.rows ensures CountsOk(descs, s', n) {
      assert CountsOk(descs, s, n);
      CountsKept(descs, s, s', n);
    }
  }

  lemma RemoveKeepsStored(descs: Descriptors, s: State, id: Id)
    requires Stored(descs, s) && id in s.rows
    ensures Stored(descs, Removed(s, id))
  {
    forall n ensures NoNewChildren(s, Removed(s, id), n) { FewerRows(s, Removed(s, id), n); }
    StoredFromParts(descs, s, Removed(s, id), id);
  }

  /** Only the reports and conditions of one row change. */
  ghost predicate Restated(s: State, s': State, id: Id) {
    && id in s.rows && s'.rows == s.rows && s'.refs == s.refs && s'.issued == s.issued
    && (forall n :: n != id ==> (n in s'.statuses <==> n in s.statuses) && (n in s'.conditions <==> n in s.conditions))
    && (forall n :: n != id && n in s.statuses ==> s'.statuses[n] == s.statuses[n])
    && (forall n :: n != id && n in s.conditions ==> s'.conditions[n] == s.conditions[n])
  }

  lemma RestateKeeps(descs: Descriptors, s: State, s': State, id: Id)
    requires RegistryOk(descs) && Inv(descs, s) && Restated(s, s', id)
    requires id in s'.statuses && ReportsOk(s', id) && (id in s'.conditions ==> StoredOk(s', id)) &&
             ViewOk(descs, s', id)
    ensures Inv(descs, s')
  {
    forall n | n in s'.rows ensures RowOk(descs, s', n) && CountsOk(descs, s', n) {
      assert RowOk(descs, s, n);
      CountsKept(descs, s, s', n);
    }
    forall r | r in s'.refs ensures ReferenceOk(descs, s', r) { assert ReferenceOk(descs, s, r); }
    forall a, b | a in s'.rows && b in s'.rows ensures NamesOk(s', a, b) { assert NamesOk(s, a, b); }
    forall n ensures NoNewChildren(s, s', n) { FewerRows(s, s', n); }
    StoredFromParts(descs, s, s', id);
  }

  lemma HasChildSame(s: State, s': State, id: Id)
    requires s'.rows == s.rows
    ensures HasChild(s', id) == HasChild(s, id)
  {
    if HasChild(s, id) {
      var c :| c in s.rows && IsChild(s, id, c);
      assert IsChild(s', id, c);
    }
    if HasChild(s', id) {
      var c :| c in s'.rows && IsChild(s', id, c);
      assert IsChild(s, id, c);
    }
  }

  /** Storing an accepted report keeps the reports of its resource in order. */
  lemma StoredReportsOk(descs: Descriptors, s: State, s': State, id: Id, report: AdapterStatus)
    requires Inv(descs, s) && id in s.rows && s'.rows == s.rows && s'.issued == s.issued && id in s'.statuses
    requires s'.statuses[id] == Deliver(s.rows[id].generation, ReportsOf(s, id), report)
    ensures ReportsOk(s', id)
  {
    assert RowOk(descs, s, id);
    assert id in s.statuses ==> ReportsOk(s, id);
    DeliverKeepsReports(s.rows[id].generation, ReportsOf(s, id), report);
  }

  lemma AggregatedReportKeeps(descs: Descriptors, s: State, stored: State, id: Id, report: AdapterStatus)
    requires RegistryOk(descs) && Inv(descs, s) && id in s.rows
    requires stored == s.(statuses := s.statuses[id := Deliver(s.rows[id].generation, ReportsOf(s, id), report)])
    ensures Inv(descs, Recomputed(descs, stored, id))
  {
    var s' := Recomputed(descs, stored, id);
    AggregatedView(descs, s, stored, s', id, report);
    AggregatedRestates(s, stored, s', id, s'.conditions[id]);
    RestateKeeps(descs, s, s', id);
  }

  lemma AggregatedView(descs: Descriptors, s: State, stored: State, s': State, id: Id, report: AdapterStatus)
    requires RegistryOk(descs) && Inv(descs, s) && id in s.rows
    requires stored == s.(statuses := s.statuses[id := Deliver(s.rows[id].generation, ReportsOf(s, id), report)])
    requires s' == Recomputed(descs, stored, id)
    ensures ViewOk(descs, s', id) && StoredOk(s', id) && ReportsOk(s', id)
  {
    assert RowOk(descs, s, id);
    assert id in s.conditions ==> StoredOk(s, id);
    StoredReportsOk(descs, s, s', id, report);
    HasChildSame(stored, s', id);
    RecomputedView(descs, stored, s', id, ConditionsOf(s, id));
  }

  lemma AggregatedRestates(s: State, stored: State, s': State, id: Id, table: ConditionTable)
    requires id in s.rows && id in stored.statuses && stored == s.(statuses := s.statuses[id := stored.statuses[id]])
    requires s' == stored.(conditions := stored.conditions[id := table])
    ensures Restated(s, s', id)
  {
  }

  lemma SilentView(descs: Descriptors, s: State, s': State, id: Id)
    requires id in s.rows && ViewOk(descs, s, id) && s'.rows == s.rows && ConditionsOf(s', id) == ConditionsOf(s, id)
    requires SnapshotsFor(descs, s.rows[id], ReportsOf(s', id)) == SnapshotsFor(descs, s.rows[id], ReportsOf(s, id))
    ensures ViewOk(descs, s', id)
  {
    if Required(descs, s.rows[id].kind) != [] && Live(s, id) {
      AggregatedFromSnapshots(descs, s.rows[id], ReportsOf(s, id), ReportsOf(s', id), ConditionsOf(s, id));
    }
    HasChildSame(s, s', id);
  }

  lemma SilentReportKeeps(descs: Descriptors, s: State, stored: State, id: Id, report: AdapterStatus)
    requires RegistryOk(descs) && Inv(descs, s) && id in s.rows
    requires Classify(s.rows[id].generation, Arrived(report), Lookup(ReportsOf(s, id), report.adapter)) ==
             Accepted(false)
    requires stored == s.(statuses := s.statuses[id := Deliver(s.rows[id].generation, ReportsOf(s, id), report)])
    ensures Inv(descs, stored)
  {
    assert ViewOk(descs, s, id);
    assert id in s.conditions ==> StoredOk(s, id);
    StoredReportsOk(descs, s, stored, id, report);
    SilentReport(descs, s.rows[id], ReportsOf(s, id), report);
    SilentView(descs, s, stored, id);
    HasChildSame(s, stored, id);
    RestateKeeps(descs, s, stored, id);
  }

  lemma ReportKeeps(descs: Descriptors, s: State, kind: Kind, id: Id, report: AdapterStatus)
    requires RegistryOk(descs) && Inv(descs, s)
    requires ReportStep(descs, s, kind, id, report).Ok?
    ensures Inv(descs, ReportStep(descs, s, kind, id, report).value)
  {
    var decision := Classify(s.rows[id].generation, Arrived(report), Lookup(ReportsOf(s, id), report.adapter));
    var reports := Deliver(s.rows[id].generation, ReportsOf(s, id), report);
    var stored := s.(statuses := s.statuses[id := reports]);
    if decision.Accepted? {
      if CompletesDeletion(descs, s, id, report, reports) {
        RemoveKeepsForest(descs, s, id);
        RemoveKeepsReferences(descs, s, id);
        RemoveKeepsStored(descs, s, id);
      } else if decision.aggregate {
        AggregatedReportKeeps(descs, s, stored, id, report);
      } else {
        SilentReportKeeps(descs, s, stored, id, report);
      }
    }
  }

  // ---------------------------------------------------------------------------------------
  // Delete
  // ---------------------------------------------------------------------------------------

  /** The rows that `s'` still has hang where they hung in `s`. */
  lemma ProcessedRows(descs: Descriptors, s: State, s': State, tree: set<Id>, now: Time, n: Id)
    requires tree <= s.rows.Keys && TreeDeleted(descs, s, s', tree, now) && n in s'.rows
    ensures n in s.rows && s'.rows[n].owner == s.rows[n].owner && s'.rows[n].kind == s.rows[n].kind
    ensures s'.rows[n].name == s.rows[n].name
    ensures Deleting(s, n) || n in tree ==> Deleting(s', n)
    ensures n !in tree ==> s'.rows[n] == s.rows[n]
  {
    if n in tree { assert Processed(descs, s, s', n, now); } else { assert Untouched(s, s', n); }
  }

  /** An owner of a remaining row remains: a delete never orphans. */
  lemma OwnerRemains(descs: Descriptors, s: State, s': State, root: Id, now: Time, n: Id)
    requires RegistryOk(descs) && Inv(descs, s) && root in s.rows && n in s'.rows
    requires TreeDeleted(descs, s, s', CascadeTree(descs, s, root), now)
    requires n in s.rows && s.rows[n].owner.Some? && s'.rows[n].owner == s.rows[n].owner
    ensures s.rows[n].owner.value in s'.rows
  {
    var o := s.rows[n].owner.value;
    assert RowOk(descs, s, n);
    if o in CascadeTree(descs, s, root) {
      assert IsChild(s', o, n);
      assert Processed(descs, s, s', o, now);
    } else {
      assert Untouched(s, s', o);
    }
  }

  /** A child of a deleted node is deleted with it, or was deleted before. */
  lemma ChildOfTree(descs: Descriptors, s: State, root: Id, n: Id)
    requires RegistryOk(descs) && Inv(descs, s) && n in s.rows && s.rows[n].owner.Some?
    requires s.rows[n].owner.value in CascadeTree(descs, s, root)
    requires NoRestriction(descs, s, CascadeTree(descs, s, root))
    ensures n in CascadeTree(descs, s, root) || Deleting(s, n)
  {
    assert RowOk(descs, s, n);
    assert RowOk(descs, s, s.rows[n].owner.value);
    assert EntryOk(descs, descs[s.rows[s.rows[n].owner.value].kind]);
    assert PolicyKnown(descs[s.rows[n].kind]);
    assert !Restricts(descs, s, CascadeTree(descs, s, root), n);
    if descs[s.rows[n].kind].onParentDelete == Cascade {
      OwnerIsShallower(descs, s, n);
      assert Reaches(descs, s, root, n, true);
    }
  }

  lemma DeleteKeepsForest(descs: Descriptors, s: State, s': State, root: Id, now: Time)
    requires RegistryOk(descs) && Inv(descs, s) && root in s.rows && now != ZERO_TIME
    requires NoRestriction(descs, s, CascadeTree(descs, s, root))
    requires TreeDeleted(descs, s, s', CascadeTree(descs, s, root), now)
    ensures Forest(descs, s') && Names(s')
  {
    var tree := CascadeTree(descs, s, root);
    forall n | n in s'.rows ensures RowOk(descs, s', n) {
      ProcessedRows(descs, s, s', tree, now, n);
      assert RowOk(descs, s, n);
      if n in tree { assert Processed(descs, s, s', n, now); }
      if s.rows[n].owner.Some? {
        var o := s.rows[n].owner.value;
        OwnerRemains(descs, s, s', root, now, n);
        ProcessedRows(descs, s, s', tree, now, o);
        if o in tree { ChildOfTree(descs, s, root, n); }
      }
    }
    forall a, b | a in s'.rows && b in s'.rows ensures NamesOk(s', a, b) {
      ProcessedRows(descs, s, s', tree, now, a);
      ProcessedRows(descs, s, s', tree, now, b);
      assert NamesOk(s, a, b);
    }
  }

  lemma DeleteKeepsReferences(
    descs: Descriptors, s: State, s': State, order: Order, tree: set<Id>, now: Time)
    requires RegistryOk(descs) && Inv(descs, s) && tree <= s.rows.Keys
    requires AllRooted(descs) && ReferencesYield(descs, s, order, tree) && TreeDeleted(descs, s, s', tree, now)
    ensures References(descs, s')
  {
    forall r | r in s'.refs ensures ReferenceOk(descs, s', r) {
      assert ReferenceOk(descs, s, r);
      assert Untouched(s, s', r.source) && Untouched(s, s', r.target);
    }
    forall n | n in s'.rows ensures CountsOk(descs, s', n) {
      ProcessedRows(descs, s, s', tree, now, n);
      assert CountsOk(descs, s, n);
      CountsKept(descs, s, s', n);
    }
  }

  lemma DeleteKeepsStored(descs: Descriptors, s: State, s': State, tree: set<Id>, now: Time)
    requires RegistryOk(descs) && Inv(descs, s) && tree <= s.rows.Keys && now != ZERO_TIME
    requires TreeDeleted(descs, s, s', tree, now)
    ensures Stored(descs, s')
  {
    forall n ensures NoNewChildren(s, s', n) {
      forall c | c in s'.rows ensures c in s.rows && s'.rows[c].owner == s.rows[c].owner {
        ProcessedRows(descs, s, s', tree, now, c);
      }
      FewerRows(s, s', n);
    }
    forall n
      ensures n in s'.statuses ==> ReportsOk(s', n)
      ensures n in s'.conditions ==> StoredOk(s', n)
      ensures n in s'.rows ==> ViewOk(descs, s', n)
    {
      if n in tree {
        ProcessedStored(descs, s, s', n, now);
      } else {
        UntouchedStored(descs, s, s', n);
      }
    }
  }

  lemma UntouchedStored(descs: Descriptors, s: State, s': State, n: Id)
    requires Stored(descs, s) && Untouched(s, s', n) && s'.statuses == s.statuses && s'.issued == s.issued
    requires NoNewChildren(s, s', n)
    ensures n in s'.statuses ==> ReportsOk(s', n)
    ensures n in s'.conditions ==> StoredOk(s', n)
    ensures n in s'.rows ==> ViewOk(descs, s', n)
  {
    assert n in s.statuses ==> ReportsOk(s, n);
    assert n in s.conditions ==> StoredOk(s, n);
    if n in s.rows {
      assert ViewOk(descs, s, n);
      ViewKept(descs, s, s', n);
    }
  }

  lemma ProcessedStored(descs: Descriptors, s: State, s': State, n: Id, now: Time)
    requires RegistryOk(descs) && Inv(descs, s) && n in s.rows && now != ZERO_TIME
    requires Processed(descs, s, s', n, now) && s'.statuses == s.statuses && s'.issued == s.issued
    ensures n in s'.statuses ==> ReportsOk(s', n)
    ensures n in s'.conditions ==> StoredOk(s', n)
    ensures n in s'.rows ==> ViewOk(descs, s', n)
  {
    assert RowOk(descs, s, n);
    assert n in s.statuses ==> ReportsOk(s, n);
    assert n in s.conditions ==> StoredOk(s, n);
    if n in s'.rows { RecomputedView(descs, s, s', n, ConditionsOf(s, n)); }
  }

  lemma DeleteKeeps(descs: Descriptors, s: State, s': State, kind: Kind, id: Id, scope: Option<Id>, now: Time)
    requires RegistryOk(descs) && Inv(descs, s) && now != ZERO_TIME
    requires DeleteStep(descs, s, kind, id, scope, now, Ok(s'))
    ensures Inv(descs, s')
  {
    var order :| Iterates(order) && DeleteInOrder(descs, s, order, kind, id, scope, now, Ok(s'));
    DeleteKeepsForest(descs, s, s', id, now);
    DeleteKeepsReferences(descs, s, s', order, CascadeTree(descs, s, id), now);
    DeleteKeepsStored(descs, s, s', CascadeTree(descs, s, id), now);
  }

  // ---------------------------------------------------------------------------------------
  // ForceDelete
  // ---------------------------------------------------------------------------------------

  /** Everything under a deleting resource is deleting. */
  lemma {:induction false} DeletingBelow(descs: Descriptors, s: State, root: Id, n: Id)
    requires RegistryOk(descs) && Forest(descs, s) && Deleting(s, root) && Reaches(descs, s, root, n, false)
    ensures Deleting(s, n)
    decreases DepthOf(descs, s, n)
  {
    if n != root {
      assert RowOk(descs, s, n);
      OwnerIsShallower(descs, s, n);
      DeletingBelow(descs, s, root, s.rows[n].owner.value);
    }
  }

  /** In a reachable state a force-delete breaks no reference: nothing live refers into the doomed tree. */
  lemma NothingRefersIntoDoomed(descs: Descriptors, s: State, root: Id)
    requires RegistryOk(descs) && Inv(descs, s) && Deleting(s, root)
    ensures forall r :: r in s.refs ==> r.source !in Subtree(descs, s, root) && r.target !in Subtree(descs, s, root)
    ensures MinimumsKept(descs, s, Subtree(descs, s, root))
  {
    forall r | r in s.refs ensures r.source !in Subtree(descs, s, root) && r.target !in Subtree(descs, s, root) {
      assert ReferenceOk(descs, s, r);
      if r.source in Subtree(descs, s, root) { DeletingBelow(descs, s, root, r.source); }
      if r.target in Subtree(descs, s, root) { DeletingBelow(descs, s, root, r.target); }
    }
  }

  lemma PurgeKeepsForest(descs: Descriptors, s: State, root: Id)
    requires RegistryOk(descs) && Inv(descs, s)
    ensures Forest(descs, Purged(s, Subtree(descs, s, root))) && Names(Purged(s, Subtree(descs, s, root)))
  {
    var s' := Purged(s, Subtree(descs, s, root));
    forall n | n in s'.rows ensures RowOk(descs, s', n) {
      assert RowOk(descs, s, n);
      if s.rows[n].owner.Some? {
        OwnerIsShallower(descs, s, n);
        assert !Reaches(descs, s, root, n, false);
      }
    }
    forall a, b | a in s'.rows && b in s'.rows ensures NamesOk(s', a, b) { assert NamesOk(s, a, b); }
  }

  lemma PurgeKeepsRest(descs: Descriptors, s: State, s': State, doomed: set<Id>)
    requires Inv(descs, s) && s' == Purged(s, doomed)
    requires forall r :: r in s.refs ==> r.source !in doomed && r.target !in doomed
    ensures References(descs, s') && Stored(descs, s')
  {
    assert s'.refs == s.refs;
    forall r | r in s'.refs ensures ReferenceOk(descs, s', r) { assert ReferenceOk(descs, s, r); }
    forall n | n in s'.rows ensures CountsOk(descs, s', n) {
      assert CountsOk(descs, s, n);
      CountsKept(descs, s, s', n);
    }
    forall n
      ensures n in s'.statuses ==> ReportsOk(s', n)
      ensures n in s'.conditions ==> StoredOk(s', n)
      ensures n in s'.rows ==> ViewOk(descs, s', n)
    {
      if n !in doomed {
        FewerRows(s, s', n);
        assert n in s.statuses ==> ReportsOk(s, n);
        assert n in s.conditions ==> StoredOk(s, n);
        if n in s.rows {
          assert ViewOk(descs, s, n);
          ViewKept(descs, s, s', n);
        }
      }
    }
  }

  lemma ForceDeleteKeeps(descs: Descriptors, s: State, s': State, kind: Kind, id: Id, scope: Option<Id>)
    requires RegistryOk(descs) && Inv(descs, s)
    requires ForceDeleteStep(descs, s, kind, id, scope, Ok(s'))
    ensures Inv(descs, s')
  {
    NothingRefersIntoDoomed(descs, s, id);
    PurgeKeepsForest(descs, s, id);
    PurgeKeepsRest(descs, s, s', Subtree(descs, s, id));
  }

  // ---------------------------------------------------------------------------------------
  // Every step
  // ---------------------------------------------------------------------------------------

  lemma StepKeeps(descs: Descriptors, s: State, op: Op, s': State)
    requires RegistryOk(descs) && Inv(descs, s) && Step(descs, s, op, s')
    ensures Inv(descs, s')
  {
    var outcome :| StepOutcome(descs, s, op, outcome) && s' == AfterOutcome(s, outcome);
    if outcome.Ok? {
      match op
      case CreateOp(kind, name, owner, refs, spec, labels, id, now) =>
        CreateKeeps(descs, s, kind, name, owner, refs, spec, labels, id, now);
      case PatchOp(kind, id, scope, patch, now) => PatchKeeps(descs, s, kind, id, scope, patch, now);
      case ReportOp(kind, id, report) => ReportKeeps(descs, s, kind, id, report);
      case DeleteOp(kind, id, scope, now) => DeleteKeeps(descs, s, s', kind, id, scope, now);
      case ForceDeleteOp(kind, id, scope) => ForceDeleteKeeps(descs, s, s', kind, id, scope);
    }
  }
}
