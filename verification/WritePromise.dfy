/** What Create and Patch do and when they refuse, in terms of the stored rows and the request alone. */
module WritePromise {
  import opened Common
  import opened Registry
  import opened Conditions
  import opened Aggregation
  import opened AggregationLaws
  import opened Tables
  import opened Lifecycle
  import opened Invariants
  import opened Preservation
  import opened Runs
  import opened StatusPromise

  // ---------------------------------------------------------------------------------------
  // References
  // ---------------------------------------------------------------------------------------

  /** A supplied reference names an id, and a live row of the kind that the registry gives for the type. */
  ghost predicate Hits(s: State, rd: ReferenceDescriptor, o: ObjectRef) {
    && o.id.Some? && o.kind == rd.targetKind && o.id.value in s.rows
    && s.rows[o.id.value].deletedTime.None? && s.rows[o.id.value].kind == rd.targetKind
  }

  /** The type is declared, and the supplied list is within its Max and names live targets of its kind. */
  ghost predicate DeclaredAndFound(descs: Descriptors, s: State, kind: Kind, t: string, objs: seq<ObjectRef>)
    requires kind in descs
  {
    exists rd :: rd in descs[kind].references && rd.refType == t && WithinMaxAndFound(s, rd, objs)
  }

  ghost predicate WithinMaxAndFound(s: State, rd: ReferenceDescriptor, objs: seq<ObjectRef>) {
    && (rd.max > 0 ==> |objs| <= rd.max)
    && forall i :: 0 <= i < |objs| ==> Hits(s, rd, objs[i])
  }

  /**
   * The references of a request fit the registry: declared types, within Min and Max, each at a different live target.
   */
  ghost predicate RefsFit(descs: Descriptors, s: State, kind: Kind, refs: ReferenceMap)
    requires kind in descs
  {
    && (forall t :: t in refs ==> DeclaredAndFound(descs, s, kind, t, refs[t]))
    && (forall t, i, j :: t in refs && 0 <= i < j < |refs[t]| ==> refs[t][i].id != refs[t][j].id)
    && (forall rd :: rd in descs[kind].references ==> rd.min <= if rd.refType in refs then |refs[rd.refType]| else 0)
  }

  lemma TypeFits(descs: Descriptors, s: State, kind: Kind, refs: ReferenceMap, t: string)
    requires RegistryOk(descs) && kind in descs && t in refs
    ensures (FindReference(descs[kind].references, t).Some? &&
             TypeAcceptable(s, FindReference(descs[kind].references, t).value, refs[t])) <==>
            && DeclaredAndFound(descs, s, kind, t, refs[t])
            && (forall i, j :: 0 <= i < j < |refs[t]| ==> refs[t][i].id != refs[t][j].id)
  {
    var declared := descs[kind].references;
    FindReferenceFinds(declared, t);
    assert EntryOk(descs, descs[kind]);
    forall rd | rd in declared && rd.refType == t ensures FindReference(declared, t) == Some(rd) {
      FindReferenceUnique(descs, declared, rd);
    }
  }

  lemma RefsFitAcceptable(descs: Descriptors, s: State, kind: Kind, refs: ReferenceMap)
    requires RegistryOk(descs) && kind in descs
    ensures ReferencesAcceptable(descs, s, kind, refs) <==> RefsFit(descs, s, kind, refs)
  {
    forall t | t in refs
      ensures (FindReference(descs[kind].references, t).Some? &&
               TypeAcceptable(s, FindReference(descs[kind].references, t).value, refs[t])) <==>
              && DeclaredAndFound(descs, s, kind, t, refs[t])
              && (forall i, j :: 0 <= i < j < |refs[t]| ==> refs[t][i].id != refs[t][j].id)
    {
      TypeFits(descs, s, kind, refs, t);
    }
  }

  /** `r` is the row that stores one of the references of the request. */
  ghost predicate StoresOne(s: State, source: Id, refs: ReferenceMap, r: Reference) {
    && r.source == source && r.refType in refs && r.target in s.rows && r.targetKind == s.rows[r.target].kind
    && exists i :: 0 <= i < |refs[r.refType]| && refs[r.refType][i].id == Some(r.target)
  }

  lemma RowsStored(descs: Descriptors, s: State, kind: Kind, source: Id, refs: ReferenceMap, r: Reference)
    requires RegistryOk(descs) && kind in descs && ReferencesAcceptable(descs, s, kind, refs)
    ensures r in ReferenceRows(descs, kind, source, refs) <==> StoresOne(s, source, refs, r)
  {
    if r.refType in refs {
      FindReferenceFinds(descs[kind].references, r.refType);
    }
  }

  // ---------------------------------------------------------------------------------------
  // Create
  // ---------------------------------------------------------------------------------------

  predicate SameName(row: Row, kind: Kind, owner: Option<Id>, name: string) {
    row.kind == kind && row.owner == owner && row.name == name
  }

  /** When a create succeeds: the request against the registry and the rows. */
  ghost predicate MayCreate(descs: Descriptors, s: State, op: Op)
    requires op.CreateOp?
  {
    && op.kind in descs && op.name != ""
    && (op.owner.Some? ==> op.owner.value in s.rows && s.rows[op.owner.value].kind == descs[op.kind].parentKind &&
                           s.rows[op.owner.value].deletedTime.None?)
    && RefsFit(descs, s, op.kind, op.refs)
    && forall n :: n in s.rows && SameName(s.rows[n], op.kind, op.owner, op.name) ==> s.rows[n].deletedTime.Some?
  }

  lemma CreateSucceedsExactly(descs: Descriptors, s: State, op: Op, outcome: Outcome)
    requires RegistryOk(descs) && op.CreateOp? && StepOutcome(descs, s, op, outcome)
    ensures outcome.Ok? <==> MayCreate(descs, s, op)
  {
    if op.kind in descs { RefsFitAcceptable(descs, s, op.kind, op.refs); }
  }

  /** What a successful create has found and computes. */
  lemma CreateGives(descs: Descriptors, s: State, op: Op, s': State)
    requires RegistryOk(descs) && Inv(descs, s) && op.CreateOp? && OpOk(s, op) && StepOutcome(descs, s, op, Ok(s'))
    ensures op.kind in descs && ReferencesAcceptable(descs, s, op.kind, op.refs)
    ensures op.id !in s.rows && op.id !in s.statuses && op.id !in s.conditions
    ensures s' == Created(descs, s, op.kind, op.name, op.owner, op.refs, op.spec, op.labels, op.id, op.now)
  {
    NewIdUnused(descs, s, op.id);
    CreateOutcome(descs, s, op, s');
  }

  /**
   * A successful create stores the given row at generation 1 and its references, and nothing else but its conditions.
   */
  lemma CreateStores(descs: Descriptors, s: State, op: Op, s': State)
    requires RegistryOk(descs) && Inv(descs, s) && op.CreateOp? && OpOk(s, op) && StepOutcome(descs, s, op, Ok(s'))
    ensures op.kind in descs
    ensures s'.rows == s.rows[op.id :=
              Row(op.kind, op.name, op.owner, None, 1, op.now, op.now, op.spec, op.labels)]
    ensures forall r :: r in s'.refs <==> r in s.refs || StoresOne(s, op.id, op.refs, r)
    ensures s'.statuses == s.statuses && s'.issued == s.issued + {op.id}
    ensures forall n :: n != op.id ==> ConditionsOf(s', n) == ConditionsOf(s, n)
    ensures descs[op.kind].requiredAdapters == [] ==> ConditionsOf(s', op.id) == map[]
  {
    CreateGives(descs, s, op, s');
    CreatedShape(descs, s, op.kind, op.name, op.owner, op.refs, op.spec, op.labels, op.id, op.now);
    forall r ensures r in ReferenceRows(descs, op.kind, op.id, op.refs) <==> StoresOne(s, op.id, op.refs, r) {
      RowsStored(descs, s, op.kind, op.id, op.refs, r);
    }
  }

  /** Not reconciled, at no generation, since the creation. */
  ghost predicate FirstCondition(c: Condition, now: Time) {
    c.status == CondFalse && c.observedGeneration == 0 && c.createdTime == now && c.lastUpdatedTime == now &&
    c.lastTransitionTime == now
  }

  /** Its first conditions, where the kind calls for them: the two of the resource, and none of an adapter. */
  lemma CreateConditions(descs: Descriptors, s: State, op: Op, s': State)
    requires RegistryOk(descs) && Inv(descs, s) && op.CreateOp? && OpOk(s, op) && StepOutcome(descs, s, op, Ok(s'))
    requires op.kind in descs && descs[op.kind].requiredAdapters != []
    ensures ReconciledOf(s', op.id).Some? && FirstCondition(ReconciledOf(s', op.id).value, op.now)
    ensures LastKnownOf(s', op.id).Some? && FirstCondition(LastKnownOf(s', op.id).value, op.now)
    ensures forall name :: name in descs[op.kind].requiredAdapters ==>
              MapAdapterToConditionType(name) !in ConditionsOf(s', op.id)
  {
    CreateGives(descs, s, op, s');
    CreatedShape(descs, s, op.kind, op.name, op.owner, op.refs, op.spec, op.labels, op.id, op.now);
    FirstTable(descs, NewRow(op.kind, op.name, op.owner, op.spec, op.labels, op.now), op.now);
  }

  lemma FirstTable(descs: Descriptors, row: Row, now: Time)
    requires RegistryOk(descs) && row.kind in descs && descs[row.kind].requiredAdapters != []
    requires row.generation == 1 && row.deletedTime.None? && row.createdTime == now && row.updatedTime == now
    ensures var table := FreshConditions(descs, row, map[], map[], false);
            && ReconciledType in table && FirstCondition(table[ReconciledType], now)
            && LastKnownReconciledType in table && FirstCondition(table[LastKnownReconciledType], now)
            && forall name :: name in descs[row.kind].requiredAdapters ==> MapAdapterToConditionType(name) !in table
  {
    RequiredTypesDistinct(descs, row.kind);
    var required := Required(descs, row.kind);
    var snaps := SnapshotTable(map[], required, 1);
    AggregateTable(1, now, false, map[], required, snaps, false);
    NothingReported(required, 1, now);
    FirstReconciled(required, now);
    forall name | name in required
      ensures MapAdapterToConditionType(name) !in FreshConditions(descs, row, map[], map[], false)
    {
      NoOtherAdapter(required, snaps, map[], now, 1, name);
    }
  }

  lemma FirstReconciled(required: seq<string>, now: Time)
    requires required != []
    ensures FirstCondition(Reconciled(1, now, false, None, required, SnapshotTable(map[], required, 1), false), now)
    ensures FirstCondition(LastKnownReconciled(now, None, required, SnapshotTable(map[], required, 1)), now)
  {
    NothingReported(required, 1, now);
    assert required[0] in required;
  }

  lemma {:induction false} NothingReported(required: seq<string>, gen: int, refTime: Time)
    requires required != []
    ensures var snaps := SnapshotTable(map[], required, gen);
            && MaxReported(required, snaps) == 0 && !AllMet(gen, false, required, snaps)
            && !AllReported(required, snaps) && ReconciledUpdated(gen, refTime, required, snaps) == refTime
  {
    assert required[0] in required && SnapshotTable(map[], required, gen) == map[];
    NoTimes(required, AtGeneration(gen));
  }

  lemma {:induction false} NoTimes(required: seq<string>, at: Snapshot -> bool)
    ensures TimesWhere(required, map[], at) == []
  {
    if required != [] { NoTimes(required[..|required| - 1], at); }
  }

  // ---------------------------------------------------------------------------------------
  // Patch
  // ---------------------------------------------------------------------------------------

  /** The row is there, under the owner that the request names, if it names one. */
  ghost predicate Addressed(descs: Descriptors, s: State, kind: Kind, id: Id, scope: Option<Id>) {
    && kind in descs && id in s.rows && s.rows[id].kind == kind
    && (scope.Some? ==>
          descs[kind].parentKind != NoKind && s.rows[id].owner == scope && scope.value in s.rows &&
          s.rows[scope.value].kind == descs[kind].parentKind)
  }

  lemma PatchSucceedsExactly(descs: Descriptors, s: State, op: Op, outcome: Outcome)
    requires RegistryOk(descs) && op.PatchOp? && StepOutcome(descs, s, op, outcome)
    ensures outcome.Ok? <==>
            && Addressed(descs, s, op.kind, op.id, op.scope) && s.rows[op.id].deletedTime.None?
            && (op.patch.references.Some? ==> RefsFit(descs, s, op.kind, op.patch.references.value))
  {
    if op.kind in descs && op.patch.references.Some? {
      RefsFitAcceptable(descs, s, op.kind, op.patch.references.value);
    }
  }

  /** The patch gives another spec or other labels, or any references. */
  ghost predicate Changes(row: Row, patch: Patch) {
    || (patch.spec.Some? && patch.spec.value != row.spec)
    || (patch.labels.Some? && patch.labels.value != row.labels)
    || patch.references.Some?
  }

  lemma ChangesMeans(row: Row, patch: Patch)
    ensures Changes(row, patch) <==> PatchedRow(row, patch) != row || patch.references.Some?
  {
  }

  lemma PatchedGives(descs: Descriptors, s: State, id: Id, patch: Patch, now: Time)
    requires Live(s, id) && s.rows[id].kind in descs && now != ZERO_TIME
    ensures var s' := Patched(descs, s, id, patch, now);
            if !Changes(s.rows[id], patch) then s' == s
            else
              && s'.rows == s.rows[id := PatchedRow(s.rows[id], patch).(
                   generation := s.rows[id].generation + 1, updatedTime := now)]
              && s'.refs == PatchedReferences(descs, s, id, patch)
              && s'.statuses == s.statuses && s'.issued == s.issued
              && (forall n :: n != id ==> ConditionsOf(s', n) == ConditionsOf(s, n))
              && (Required(descs, s.rows[id].kind) == [] ==> ConditionsOf(s', id) == ConditionsOf(s, id))
  {
    ChangesMeans(s.rows[id], patch);
    if Changes(s.rows[id], patch) {
      SavedShape(descs, s, id, patch, now);
      RecomputedShape(descs, SavedPatch(descs, s, id, patch, now), id);
    }
  }

  /** What a successful patch has found and computes. */
  lemma PatchGives(descs: Descriptors, s: State, op: Op, s': State)
    requires RegistryOk(descs) && op.PatchOp? && StepOutcome(descs, s, op, Ok(s'))
    ensures Live(s, op.id) && s.rows[op.id].kind == op.kind && op.kind in descs
    ensures op.patch.references.Some? ==> ReferencesAcceptable(descs, s, op.kind, op.patch.references.value)
    ensures s' == Patched(descs, s, op.id, op.patch, op.now)
  {
  }

  /** The row after a patch that changes something: the given spec and labels, at the next generation. */
  ghost predicate PatchedAt(before: Row, after: Row, patch: Patch, now: Time) {
    && after.generation == before.generation + 1 && after.updatedTime == now
    && after.spec == (if patch.spec.Some? then patch.spec.value else before.spec)
    && after.labels == (if patch.labels.Some? then patch.labels.value else before.labels)
    && after.kind == before.kind && after.name == before.name && after.owner == before.owner
    && after.createdTime == before.createdTime && after.deletedTime == before.deletedTime
  }

  /** A successful patch that changes nothing leaves everything; any other raises the generation by one. */
  lemma PatchStores(descs: Descriptors, s: State, op: Op, s': State)
    requires RegistryOk(descs) && op.PatchOp? && OpOk(s, op) && StepOutcome(descs, s, op, Ok(s'))
    ensures op.id in s.rows && op.id in s'.rows
    ensures !Changes(s.rows[op.id], op.patch) ==> s' == s
    ensures Changes(s.rows[op.id], op.patch) ==>
              s'.rows == s.rows[op.id := s'.rows[op.id]] &&
              PatchedAt(s.rows[op.id], s'.rows[op.id], op.patch, op.now)
    ensures s'.statuses == s.statuses && s'.issued == s.issued
    ensures forall n :: n != op.id || Required(descs, op.kind) == [] ==> ConditionsOf(s', n) == ConditionsOf(s, n)
  {
    PatchGives(descs, s, op, s');
    PatchedGives(descs, s, op.id, op.patch, op.now);
  }

  /** The references of a patched resource are the given ones, where given; nobody else's change. */
  lemma PatchStoresReferences(descs: Descriptors, s: State, op: Op, s': State)
    requires RegistryOk(descs) && op.PatchOp? && OpOk(s, op) && StepOutcome(descs, s, op, Ok(s'))
    ensures forall r :: r in s'.refs <==>
              if op.patch.references.None? || r.source != op.id then r in s.refs
              else StoresOne(s, op.id, op.patch.references.value, r)
  {
    PatchGives(descs, s, op, s');
    PatchedGives(descs, s, op.id, op.patch, op.now);
    if op.patch.references.Some? {
      var refs := op.patch.references.value;
      forall r ensures r in ReferenceRows(descs, op.kind, op.id, refs) <==> StoresOne(s, op.id, refs, r) {
        RowsStored(descs, s, op.kind, op.id, refs, r);
      }
    }
  }

  /** A patch that raises the generation takes Reconciled away: no stored report has reached the new generation. */
  lemma PatchUnreconciles(descs: Descriptors, s: State, op: Op, s': State)
    requires RegistryOk(descs) && Inv(descs, s) && op.PatchOp? && OpOk(s, op) && StepOutcome(descs, s, op, Ok(s'))
    requires op.id in s.rows && op.id in s'.rows && s'.rows[op.id].generation == s.rows[op.id].generation + 1
    requires Tracked(descs, s', op.id)
    ensures ReconciledOf(s', op.id).Some? && ReconciledOf(s', op.id).value.status == CondFalse
    ensures ReconciledOf(s', op.id).value.lastUpdatedTime == op.now
  {
    assert Step(descs, s, op, s');
    StepKeeps(descs, s, op, s');
    PatchStores(descs, s, op, s');
    StoredNotAhead(descs, s, op.id);
    LiveReconciled(descs, s', op.id);
    var required := descs[s'.rows[op.id].kind].requiredAdapters;
    assert required[0] in required;
  }
}
