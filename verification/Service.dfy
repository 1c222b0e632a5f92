/**
 * The resource service: the public mutations over the database, each one transaction. Every
 * method is proved to be the transition of the same name, to leave the tables alone when it
 * fails, to keep the invariant, and to count exactly the moves it commits.
 */
module Service {
  import opened Common
  import opened Registry
  import opened Conditions
  import opened Aggregation
  import opened AggregationLaws
  import opened Delivery
  import opened Tables
  import opened Lifecycle
  import opened Database
  import opened Invariants
  import opened Preservation
  import opened Cascade
  import opened Purge

  type Started = (Kind, bool)

  /** What a transaction reports, read as the outcome of the transition. */
  function OutcomeOf(err: Option<Error>, s: State): Outcome {
    if err.Some? then Err(err.value) else Ok(s)
  }

  function ListOf(outcome: Option<Started>): seq<Started> {
    if outcome.Some? then [outcome.value] else []
  }

  /** The children of a resource are of the kinds that name its kind as parent. */
  ghost predicate ChildKindsOk(descs: Descriptors, s: State, id: Id) {
    id in s.rows && forall c :: IsChild(s, id, c) ==>
      s.rows[c].kind in descs && descs[s.rows[c].kind].parentKind == s.rows[id].kind
  }

  lemma ForestChildKinds(descs: Descriptors, s: State, id: Id)
    requires Forest(descs, s) && id in s.rows
    ensures ChildKindsOk(descs, s, id)
  {
    forall c | IsChild(s, id, c)
      ensures s.rows[c].kind in descs && descs[s.rows[c].kind].parentKind == s.rows[id].kind {
      assert RowOk(descs, s, c);
    }
  }

  class ResourceService {
    const db: Database
    const descs: Descriptors
    var started: Metrics

    constructor (db: Database, descs: Descriptors)
      ensures this.db == db && this.descs == descs && started == map[]
    {
      this.db, this.descs, started := db, descs, map[];
    }

    ghost predicate Valid()
      reads this, db
    {
      RegistryOk(descs) && Inv(descs, db.tables) && db.open.None?
    }

    // ------------------------------------------------------------------ references

    /** The supplied references of one type: bounded, distinct, each with an id, the declared kind and a live target. */
    method TypeAccepted(rd: ReferenceDescriptor, objs: seq<ObjectRef>) returns (ok: bool)
      ensures ok <==> TypeAcceptable(db.tables, rd, objs)
    {
      if rd.max > 0 && |objs| > rd.max { return false; }
      var seen: set<Id> := {};
      for i := 0 to |objs|
        invariant forall j :: 0 <= j < i ==>
                    objs[j].id.Some? && objs[j].kind == rd.targetKind && Live(db.tables, objs[j].id.value) &&
                    db.tables.rows[objs[j].id.value].kind == rd.targetKind
        invariant forall x :: x in seen <==> exists j :: 0 <= j < i && objs[j].id == Some(x)
        invariant forall j, k :: 0 <= j < k < i ==> objs[j].id != objs[k].id
      {
        if objs[i].id.None? { return false; }
        var target := objs[i].id.value;
        if target in seen {
          var j :| 0 <= j < i && objs[j].id == Some(target);
          assert objs[j].id == objs[i].id;
          return false;
        }
        seen := seen + {target};
        if objs[i].kind != rd.targetKind { return false; }
        if target !in db.tables.rows || db.tables.rows[target].kind != rd.targetKind { return false; }
        if db.tables.rows[target].deletedTime.Some? { return false; }
      }
      return true;
    }

    method ValidateReferences(kind: Kind, refs: ReferenceMap) returns (ok: bool)
      requires kind in descs
      ensures ok <==> ReferencesAcceptable(descs, db.tables, kind, refs)
    {
      var declared := descs[kind].references;
      for i := 0 to |declared|
        invariant forall rd :: rd in declared[..i] && rd.min > 0 ==> |Supplied(refs, rd.refType)| >= rd.min
      {
        assert declared[..i + 1] == declared[..i] + [declared[i]];
        if declared[i].min > 0 && |Supplied(refs, declared[i].refType)| < declared[i].min {
          assert declared[i] in declared;
          return false;
        }
      }
      assert declared[..|declared|] == declared;
      var rest := refs.Keys;
      while rest != {}
        invariant rest <= refs.Keys
        invariant forall t :: t in refs.Keys - rest ==>
                    FindReference(declared, t).Some? &&
                    TypeAcceptable(db.tables, FindReference(declared, t).value, refs[t])
        decreases rest
      {
        var t :| t in rest;
        var rd := FindReference(declared, t);
        if rd.None? { return false; }
        var accepted := TypeAccepted(rd.value, refs[t]);
        if !accepted { return false; }
        rest := rest - {t};
      }
      assert forall t :: t in refs ==> t in refs.Keys - rest;
      return true;
    }

    /** Flattens the map into rows; the target kind comes from the registry. */
    method ConvertRefs(kind: Kind, source: Id, refs: ReferenceMap) returns (rows: seq<Reference>)
      requires kind in descs && ReferencesAcceptable(descs, db.tables, kind, refs)
      ensures Members(rows) == ReferenceRows(descs, kind, source, refs) && Distinct(rows)
      ensures forall r :: r in rows ==> r.source == source && r.target in db.tables.rows
    {
      rows := [];
      var rest := refs.Keys;
      while rest != {}
        invariant rest <= refs.Keys && Distinct(rows)
        invariant forall r :: r in rows ==> r.source == source && r.refType !in rest && r.target in db.tables.rows
        invariant forall r :: r in rows <==> r in ReferenceRows(descs, kind, source, refs) && r.refType !in rest
        decreases rest
      {
        var t :| t in rest;
        var part := ConvertType(kind, source, t, refs[t]);
        rows := rows + part;
        rest := rest - {t};
      }
    }

    method ConvertType(kind: Kind, source: Id, refType: string, objs: seq<ObjectRef>) returns (rows: seq<Reference>)
      requires kind in descs && FindReference(descs[kind].references, refType).Some?
      requires TypeAcceptable(db.tables, FindReference(descs[kind].references, refType).value, objs)
      ensures |rows| == |objs| && Distinct(rows)
      ensures forall i :: 0 <= i < |rows| ==>
                rows[i] == Reference(source, refType, objs[i].id.value, TargetKind(descs, kind, refType)) &&
                rows[i].target in db.tables.rows
    {
      rows := [];
      for i := 0 to |objs|
        invariant |rows| == i
        invariant forall j :: 0 <= j < i ==>
                    rows[j] == Reference(source, refType, objs[j].id.value, TargetKind(descs, kind, refType)) &&
                    rows[j].target in db.tables.rows
      {
        rows := rows + [Reference(source, refType, objs[i].id.value, TargetKind(descs, kind, refType))];
      }
    }

    // ------------------------------------------------------------------ aggregation

    /** Some registered child kind has a row owned by the resource, active or soft-deleted. */
    method HasChildren(id: Id, kind: Kind) returns (found: bool)
      requires KeyedByKind(descs) && ChildKindsOk(descs, db.tables, id) && db.tables.rows[id].kind == kind
      ensures found == HasChild(db.tables, id)
    {
      var children := ChildrenOf(descs, kind);
      var childKinds: seq<Kind> := [];
      for i := 0 to |children|
        invariant |childKinds| == i && forall j :: 0 <= j < i ==> childKinds[j] == children[j].kind
        invariant forall c :: IsChild(db.tables, id, c) && db.tables.rows[c].kind in childKinds ==>
                    Deleting(db.tables, c)
      {
        var active := db.ExistsByOwner(children[i].kind, id);
        if active { return true; }
        childKinds := childKinds + [children[i].kind];
      }
      found := db.ExistsSoftDeletedByOwner(childKinds, id);
      forall c | IsChild(db.tables, id, c) ensures db.tables.rows[c].kind in childKinds {
        var d := descs[db.tables.rows[c].kind];
        assert d in children;
        var i :| 0 <= i < |children| && children[i] == d;
        assert childKinds[i] == d.kind;
      }
    }

    method ChildrenRemainDuringDelete(r: Resource) returns (remain: bool)
      requires KeyedByKind(descs) && ChildKindsOk(descs, db.tables, r.id) && db.tables.rows[r.id].kind == r.kind
      ensures remain == (r.deletedTime.Some? && HasChild(db.tables, r.id))
    {
      if r.deletedTime.None? { return false; }
      remain := HasChildren(r.id, r.kind);
    }

    /**
     * Aggregates the listed reports and writes the conditions unless they are unchanged. `reports` is the table that
     * the list lists, `stored` the conditions that the database holds.
     */
    method SaveAggregated(
      r: Resource, list: seq<AdapterStatus>, hasChildren: bool, now: Time, ghost reports: Reports,
      ghost stored: ConditionTable)
      returns (outcome: Option<Started>)
      requires RegistryOk(descs) && r.kind in descs && RefTime(r.Row()) != ZERO_TIME
      requires Lists(list, reports) && forall name :: name in reports ==> reports[name].lastReportTime != ZERO_TIME
      requires stored == ConditionsOf(db.tables, r.id) && ByType(r.conditions) == stored
      requires TableTimesSet(stored) && TableKeyed(stored)
      modifies db`tables, r`conditions
      ensures r.id in db.tables.conditions
      ensures db.tables == old(db.tables).(conditions := old(db.tables).conditions[
                r.id := FreshConditions(descs, r.Row(), reports, stored, hasChildren)])
      ensures outcome.Some? <==> NotReconciledIn(ConditionsOf(db.tables, r.id)) && !NotReconciledIn(stored)
      ensures outcome.Some? ==> outcome.value == (r.kind, r.deletedTime.Some?)
    {
      var conditions := AggregateLoaded(r, list, hasChildren, reports, stored);
      WrittenAsComputed(descs, r.Row(), reports, stored, hasChildren, conditions, now);
      var prev := Lookup(ByType(r.conditions), ReconciledType);
      WriteIfChanged(r, conditions, now);
      if conditions[0].status == CondFalse && (prev.None? || prev.value.status != CondFalse) {
        return Some((r.kind, r.deletedTime.Some?));
      }
      return None;
    }

    /** The conditions computed for a loaded resource; Reconciled comes first. */
    method AggregateLoaded(
      r: Resource, list: seq<AdapterStatus>, hasChildren: bool, ghost reports: Reports, ghost stored: ConditionTable)
      returns (conditions: seq<Condition>)
      requires r.kind in descs && Lists(list, reports) && ByType(r.conditions) == stored
      ensures conditions == ComputedFor(descs, r.Row(), reports, stored, hasChildren)
    {
      var refTime := r.updatedTime;
      if refTime == ZERO_TIME { refTime := r.createdTime; }
      var required := descs[r.kind].requiredAdapters;
      NormalizedOfTable(list, reports, required, r.generation);
      var reconciled, lastKnown, adapters :=
        AggregateResourceStatus(Input(r.generation, refTime, r.deletedTime, r.conditions, required, list, hasChildren));
      conditions := [reconciled, lastKnown] + adapters;
    }

    /** Skips the write when the list is the one that was loaded. */
    method WriteIfChanged(r: Resource, newConditions: seq<Condition>, now: Time)
      requires ByType(r.conditions) == ConditionsOf(db.tables, r.id)
      requires newConditions != [] && TypesDistinct(newConditions)
      requires PreserveAll(newConditions, ConditionsOf(db.tables, r.id), now) == newConditions
      modifies db`tables, r`conditions
      ensures db.tables == old(db.tables).(conditions := old(db.tables).conditions[r.id := ByType(newConditions)])
      ensures r.conditions == newConditions
    {
      if r.conditions == newConditions {
        ByTypeFinds(newConditions, 0);
        return;
      }
      var slice := new Condition[|newConditions|](i requires 0 <= i < |newConditions| => newConditions[i]);
      assert slice[..] == newConditions;
      var ok := db.UpdateConditions(r.id, slice, now);
      r.conditions := slice[..];
    }

    // ------------------------------------------------------------------ Create

    method CreateTx(
      kind: Kind, name: string, owner: Option<Id>, refs: ReferenceMap, spec: string, labels: map<string, string>,
      id: Id, now: Time) returns (err: Option<Error>, outcome: Option<Started>)
      requires RegistryOk(descs) && Inv(descs, db.tables) && kind in descs && name != ""
      requires id !in db.tables.issued && now != ZERO_TIME
      modifies db`tables
      ensures CreateStep(descs, old(db.tables), kind, name, owner, refs, spec, labels, id, now) ==
              OutcomeOf(err, db.tables)
      ensures err.None? ==> OutcomesMatch(ListOf(outcome), old(db.tables), db.tables)
    {
      err := CheckOwner(kind, owner);
      if err.Some? { return err, None; }
      var valid := ValidateReferences(kind, refs);
      if !valid { return Some(Validation), None; }
      err, outcome := InsertNew(kind, name, owner, refs, spec, labels, id, now);
    }

    /** Inserts the checked resource and computes its first conditions. */
    method InsertNew(
      kind: Kind, name: string, owner: Option<Id>, refs: ReferenceMap, spec: string, labels: map<string, string>,
      id: Id, now: Time) returns (err: Option<Error>, outcome: Option<Started>)
      requires RegistryOk(descs) && Inv(descs, db.tables) && kind in descs &&
               ReferencesAcceptable(descs, db.tables, kind, refs)
      requires id !in db.tables.issued && now != ZERO_TIME
      modifies db`tables
      ensures err == if NameTaken(old(db.tables), kind, owner, name) then Some(Conflict) else None
      ensures err.None? ==> db.tables == Created(descs, old(db.tables), kind, name, owner, refs, spec, labels, id, now)
      ensures err.None? ==> OutcomesMatch(ListOf(outcome), old(db.tables), db.tables)
    {
      ghost var s := db.tables;
      NewIdUnused(descs, s, id);
      var r := new Resource(id, NewRow(kind, name, owner, spec, labels, now), []);
      err := Insert(r, refs);
      if err.Some? { return err, None; }
      assert db.tables == SavedNew(descs, s, kind, name, owner, refs, spec, labels, id, now);
      outcome := InitConditions(r, now);
      CreateCompleted(descs, s, db.tables, kind, name, owner, refs, spec, labels, id, now, outcome);
    }

    /** The parent must exist, be of the parent kind, and not be marked for deletion. */
    method CheckOwner(kind: Kind, owner: Option<Id>) returns (err: Option<Error>)
      requires Inv(descs, db.tables) && kind in descs
      ensures err == if owner.None? then None
                     else if !(owner.value in db.tables.rows &&
                               db.tables.rows[owner.value].kind == descs[kind].parentKind) then Some(NotFound)
                     else if Deleting(db.tables, owner.value) then Some(ConflictState)
                     else None
    {
      if owner.None? { return None; }
      KeyedTable(descs, db.tables, owner.value);
      var parent := db.GetForUpdate(descs[kind].parentKind, owner.value);
      if parent == null { return Some(NotFound); }
      if parent.deletedTime.Some? { return Some(ConflictState); }
      return None;
    }

    /** Inserts the row and its references. */
    method Insert(r: Resource, refs: ReferenceMap) returns (err: Option<Error>)
      requires RegistryOk(descs) && Inv(descs, db.tables) && r.kind in descs && r.deletedTime.None?
      requires r.id !in db.tables.issued && ReferencesAcceptable(descs, db.tables, r.kind, refs)
      modifies db`tables
      ensures err == if NameTaken(old(db.tables), r.kind, r.owner, r.name) then Some(Conflict) else None
      ensures err.None? ==> db.tables == old(db.tables).(
                rows := old(db.tables).rows[r.id := r.Row()],
                refs := old(db.tables).refs + ReferenceRows(descs, r.kind, r.id, refs),
                issued := old(db.tables).issued + {r.id})
    {
      ghost var s := db.tables;
      NewIdUnused(descs, s, r.id);
      NoOwnReferences(descs, s, r.id);
      var inserted := db.Create(r.id, r.Row());
      if !inserted { return Some(Conflict); }
      AcceptableAfterInsert(descs, s, db.tables, r.kind, refs, r.id);
      if refs != map[] {
        var rows := ConvertRefs(r.kind, r.id, refs);
        var saved := db.ReplaceReferences(r.id, rows);
        if !saved { return Some(General); }
      } else {
        assert ReferenceRows(descs, r.kind, r.id, refs) == {};
      }
      return None;
    }

    /** The first conditions of a resource, for kinds with required adapters. */
    method InitConditions(r: Resource, now: Time) returns (outcome: Option<Started>)
      requires RegistryOk(descs) && r.kind in descs && r.updatedTime != ZERO_TIME && r.deletedTime.None? &&
               r.conditions == []
      requires r.id in db.tables.rows && db.tables.rows[r.id] == r.Row()
      requires ReportsOf(db.tables, r.id) == map[] && ConditionsOf(db.tables, r.id) == map[]
      modifies db`tables, r`conditions
      ensures db.tables == RecomputedIfRequired(descs, old(db.tables), r.id)
      ensures outcome.Some? <==> NotReconciledIn(ConditionsOf(db.tables, r.id))
      ensures outcome.Some? ==> outcome.value == (r.kind, false)
    {
      if descs[r.kind].requiredAdapters == [] { return None; }
      outcome := SaveAggregated(r, [], false, now, map[], map[]);
    }

    method Create(
      kind: Kind, name: string, owner: Option<Id>, refs: ReferenceMap, spec: string, labels: map<string, string>,
      id: Id, now: Time) returns (err: Option<Error>)
      requires Valid() && OpOk(db.tables, CreateOp(kind, name, owner, refs, spec, labels, id, now))
      modifies this`started, db
      ensures Valid()
      ensures StepOutcome(descs, old(db.tables), CreateOp(kind, name, owner, refs, spec, labels, id, now),
                          OutcomeOf(err, db.tables))
      ensures err.Some? ==> db.tables == old(db.tables)
      ensures Counted(old(db.tables), db.tables, old(started), started)
    {
      ghost var s := db.tables;
      if kind !in descs || name == "" {
        NothingCounted(s, started);
        return Some(Validation);
      }
      var begun := db.Begin();
      var outcome;
      err, outcome := CreateTx(kind, name, owner, refs, spec, labels, id, now);
      if err.Some? {
        db.Rollback();
        NothingCounted(s, started);
        return;
      }
      db.Commit();
      CreateKeeps(descs, s, kind, name, owner, refs, spec, labels, id, now);
      RecordStarted(ListOf(outcome), s);
    }

    // ------------------------------------------------------------------ Patch

    /** Loads a resource by kind and id, through its owner when a scope is given. */
    method Find(kind: Kind, id: Id, scope: Option<Id>) returns (r: Resource?)
      requires Inv(descs, db.tables) && kind in descs
      ensures r == null <==> !Found(descs, db.tables, kind, id, scope)
      ensures r != null ==> fresh(r) && Loaded(r, id, db.tables.rows[id], ConditionsOf(db.tables, id))
    {
      KeyedTable(descs, db.tables, id);
      if scope.None? {
        r := db.GetForUpdate(kind, id);
      } else {
        r := db.GetForUpdateByOwner(kind, id, descs[kind].parentKind, scope.value);
      }
    }

    method PatchTx(kind: Kind, id: Id, scope: Option<Id>, patch: Patch, now: Time)
      returns (err: Option<Error>, outcome: Option<Started>)
      requires RegistryOk(descs) && Inv(descs, db.tables) && WriteKindOk(descs, kind, scope) && now != ZERO_TIME
      modifies db`tables
      ensures PatchStep(descs, old(db.tables), kind, id, scope, patch, now) == OutcomeOf(err, db.tables)
      ensures err.None? ==> OutcomesMatch(ListOf(outcome), old(db.tables), db.tables)
    {
      ghost var s := db.tables;
      var r := Find(kind, id, scope);
      if r == null { return Some(NotFound), None; }
      if r.deletedTime.Some? { return Some(ConflictState), None; }
      var changed := Apply(r, patch);
      err := PersistReferences(kind, id, patch.references);
      if err.Some? { return err, None; }
      if !changed && patch.references.None? {
        NothingMoved(s);
        return None, None;
      }
      outcome := SavePatched(r, patch, now, s);
    }

    /** Saves the patched row under its next generation and recomputes its conditions. */
    method SavePatched(r: Resource, patch: Patch, now: Time, ghost s: State) returns (outcome: Option<Started>)
      requires RegistryOk(descs) && Inv(descs, s) && now != ZERO_TIME && Live(s, r.id) && s.rows[r.id].kind in descs
      requires patch.references.Some? || PatchedRow(s.rows[r.id], patch) != s.rows[r.id]
      requires Loaded(r, r.id, PatchedRow(s.rows[r.id], patch), ConditionsOf(s, r.id))
      requires db.tables == s.(refs := PatchedReferences(descs, s, r.id, patch))
      modifies db`tables, r
      ensures db.tables == Patched(descs, s, r.id, patch, now)
      ensures OutcomesMatch(ListOf(outcome), s, db.tables)
    {
      r.IncrementGeneration();
      db.Save(r, now);
      assert db.tables == SavedPatch(descs, s, r.id, patch, now);
      outcome := Recompute(r, now, s);
      PatchCompleted(descs, s, db.tables, r.id, patch, now, outcome);
    }

    /** Validates and replaces the references of an existing row, when the patch brings any. */
    method PersistReferences(kind: Kind, id: Id, refs: Option<ReferenceMap>) returns (err: Option<Error>)
      requires kind in descs
      modifies db`tables
      ensures err == if refs.Some? && !ReferencesAcceptable(descs, old(db.tables), kind, refs.value)
              then Some(Validation) else None
      ensures err.None? ==> db.tables == old(db.tables).(
                refs := if refs.None? then old(db.tables).refs
                        else WithoutSource(old(db.tables).refs, id) + ReferenceRows(descs, kind, id, refs.value))
    {
      if refs.None? { return None; }
      var valid := ValidateReferences(kind, refs.value);
      if !valid { return Some(Validation); }
      var rows := ConvertRefs(kind, id, refs.value);
      var saved := db.ReplaceReferences(id, rows);
      return if saved then None else Some(General);
    }

    /** Applies the payload of a patch in memory and tells whether it changes anything. */
    method Apply(r: Resource, patch: Patch) returns (changed: bool)
      modifies r`spec, r`labels
      ensures r.Row() == PatchedRow(old(r.Row()), patch)
      ensures changed == (r.Row() != old(r.Row()))
    {
      var oldSpec, oldLabels := r.spec, r.labels;
      if patch.spec.Some? { r.spec := patch.spec.value; }
      if patch.labels.Some? { r.labels := patch.labels.value; }
      changed := oldSpec != r.spec || oldLabels != r.labels;
    }

    /** Recomputes a live row's conditions after its generation changed, for kinds with required adapters. */
    method Recompute(r: Resource, now: Time, ghost s: State) returns (outcome: Option<Started>)
      requires RegistryOk(descs) && Inv(descs, s) && r.id in s.rows && r.kind in descs && r.deletedTime.None?
      requires r.updatedTime != ZERO_TIME && r.id in db.tables.rows && db.tables.rows[r.id] == r.Row()
      requires db.tables.statuses == s.statuses && db.tables.conditions == s.conditions
      requires ByType(r.conditions) == ConditionsOf(s, r.id)
      modifies db`tables, r`conditions
      ensures db.tables == RecomputedIfRequired(descs, old(db.tables), r.id)
      ensures outcome.Some? <==>
                NotReconciledIn(ConditionsOf(db.tables, r.id)) && !NotReconciledIn(ConditionsOf(s, r.id))
      ensures outcome.Some? ==> outcome.value == (r.kind, false)
    {
      if descs[r.kind].requiredAdapters == [] { return None; }
      KeyedTable(descs, s, r.id);
      ReportsTimed(descs, s, r.id);
      var list := db.FindByResource(r.id);
      outcome := SaveAggregated(r, list, false, now, ReportsOf(s, r.id), ConditionsOf(s, r.id));
    }

    method Patch(kind: Kind, id: Id, scope: Option<Id>, patch: Patch, now: Time) returns (err: Option<Error>)
      requires Valid() && now != ZERO_TIME
      modifies this`started, db
      ensures Valid()
      ensures StepOutcome(descs, old(db.tables), PatchOp(kind, id, scope, patch, now), OutcomeOf(err, db.tables))
      ensures err.Some? ==> db.tables == old(db.tables)
      ensures Counted(old(db.tables), db.tables, old(started), started)
    {
      ghost var s := db.tables;
      if kind !in descs || (scope.Some? && descs[kind].parentKind == NoKind) {
        NothingCounted(s, started);
        return Some(Validation);
      }
      var begun := db.Begin();
      var outcome;
      err, outcome := PatchTx(kind, id, scope, patch, now);
      if err.Some? {
        db.Rollback();
        NothingCounted(s, started);
        return;
      }
      db.Commit();
      PatchKeeps(descs, s, kind, id, scope, patch, now);
      RecordStarted(ListOf(outcome), s);
    }

    // ------------------------------------------------------------------ ProcessAdapterStatus

    /** Hard-deletes a deleting resource once the report and all required adapters are final and no child remains. */
    method TryHardDelete(
      r: Resource, conditions: seq<AdapterCondition>, list: seq<AdapterStatus>, hasChildren: bool,
      ghost reports: Reports)
      returns (deleted: bool)
      requires r.kind in descs && Lists(list, reports)
      requires forall ref :: ref in db.tables.refs ==> ref.target != r.id
      modifies db`tables
      ensures deleted == (ReportsFinalized(conditions) && !hasChildren &&
                          AllRowsFinalized(Required(descs, r.kind), reports, r.generation))
      ensures db.tables == if deleted then Removed(old(db.tables), r.id) else old(db.tables)
    {
      if !ReportsFinalized(conditions) { return false; }
      var all := AllAdaptersFinalized(descs[r.kind].requiredAdapters, list, r.generation);
      FinalListOrTable(descs[r.kind].requiredAdapters, list, reports, r.generation);
      if !all { return false; }
      if hasChildren { return false; }
      db.DeleteStatuses({r.id});
      db.DeleteConditions(r.id);
      var gone := db.Delete(r.id);
      return true;
    }

    /** The report as it goes into the upsert: its conditions rewritten against the stored ones. */
    method PrepareReport(arrived: AdapterStatus, existing: Option<AdapterStatus>) returns (incoming: AdapterStatus)
      ensures incoming == WithTransitions(arrived, existing)
    {
      if existing.None? { return arrived; }
      var n := |arrived.conditions|;
      var slice := new AdapterCondition[n](i requires 0 <= i < n => arrived.conditions[i]);
      assert slice[..] == arrived.conditions;
      SetConditionTransitionTimes(slice, existing.value);
      return arrived.(conditions := slice[..]);
    }

    method ReportTx(kind: Kind, id: Id, report: AdapterStatus, now: Time)
      returns (err: Option<Error>, outcome: Option<Started>)
      requires RegistryOk(descs) && Inv(descs, db.tables) && kind in descs
      modifies db`tables
      ensures ReportStep(descs, old(db.tables), kind, id, report) == OutcomeOf(err, db.tables)
      ensures err.None? ==> OutcomesMatch(ListOf(outcome), old(db.tables), db.tables)
    {
      ghost var s := db.tables;
      var r := Find(kind, id, None);
      if r == null { return Some(NotFound), None; }
      ReportsTimed(descs, s, id);
      var arrived := Arrived(report);
      var list := db.FindByResource(id);
      var existing := FindInList(list, report.adapter);
      assert existing == Lookup(ReportsOf(s, id), report.adapter);
      var decision := ValidateAndClassify(r.generation, arrived, existing);
      if decision.Refused? { return Some(Validation), None; }
      if decision.Discarded? {
        NothingMoved(s);
        return None, None;
      }
      outcome := StoreReport(r, arrived, report, existing, list, decision.aggregate, now);
      err := None;
    }

    /** Stores an accepted report and draws the consequences: hard-delete, aggregation, or neither. */
    method StoreReport(
      r: Resource, arrived: AdapterStatus, ghost report: AdapterStatus, existing: Option<AdapterStatus>,
      list: seq<AdapterStatus>, aggregate: bool, now: Time) returns (outcome: Option<Started>)
      requires RegistryOk(descs) && Inv(descs, db.tables) && r.id in db.tables.rows && r.kind in descs
      requires Loaded(r, r.id, db.tables.rows[r.id], ConditionsOf(db.tables, r.id))
      requires arrived == Arrived(report) && existing == Lookup(ReportsOf(db.tables, r.id), report.adapter)
      requires Lists(list, ReportsOf(db.tables, r.id)) &&
               Classify(r.generation, arrived, existing) == Accepted(aggregate)
      modifies db`tables, r`conditions
      ensures db.tables == Reported(descs, old(db.tables), r.id, report)
      ensures OutcomesMatch(ListOf(outcome), old(db.tables), db.tables)
    {
      ghost var s := db.tables;
      ghost var reports := Deliver(r.generation, ReportsOf(s, r.id), report);
      DeliverTimed(descs, s, r.id, report);
      var incoming := PrepareReport(arrived, existing);
      var stored := db.Upsert(r.id, incoming, existing);
      var updated := ReplaceInList(list, stored);
      ReplacedLists(list, ReportsOf(s, r.id), stored, updated);
      outcome := FollowReport(r, arrived.conditions, updated, aggregate, now, s, reports);
      ReportFollowed(descs, s, r.id, report, reports, aggregate);
    }

    /** What an accepted report, once stored, brings about. */
    method FollowReport(
      r: Resource, conditions: seq<AdapterCondition>, list: seq<AdapterStatus>, aggregate: bool, now: Time,
      ghost s: State, ghost reports: Reports)
      returns (outcome: Option<Started>)
      requires RegistryOk(descs) && Inv(descs, s) && r.id in s.rows && r.kind in descs
      requires Loaded(r, r.id, s.rows[r.id], ConditionsOf(s, r.id))
      requires db.tables == s.(statuses := s.statuses[r.id := reports]) && Lists(list, reports)
      requires forall name :: name in reports ==> reports[name].lastReportTime != ZERO_TIME
      modifies db`tables, r`conditions
      ensures db.tables == Followed(descs, s, r.id, conditions, reports, aggregate)
      ensures OutcomesMatch(ListOf(outcome), s, db.tables)
    {
      ForestChildKinds(descs, s, r.id);
      HasChildSame(s, db.tables, r.id);
      assert ChildKindsOk(descs, db.tables, r.id);
      var hasChildren := ChildrenRemainDuringDelete(r);
      var gone := HardDeleteIfFinal(r, conditions, list, hasChildren, s, reports);
      if gone {
        RemovalMovesNothing(s, r.id);
        return None;
      }
      outcome := AggregateReport(r, list, hasChildren, aggregate, now, s, reports);
    }

    /** The hard-delete that a report on a deleting resource may complete. */
    method HardDeleteIfFinal(
      r: Resource, conditions: seq<AdapterCondition>, list: seq<AdapterStatus>, hasChildren: bool, ghost s: State,
      ghost reports: Reports) returns (gone: bool)
      requires Inv(descs, s) && r.id in s.rows && r.kind in descs && r.Row() == s.rows[r.id] && Lists(list, reports)
      requires db.tables == s.(statuses := s.statuses[r.id := reports])
      modifies db`tables
      ensures gone == (r.deletedTime.Some? && ReportsFinalized(conditions) && !hasChildren &&
                       AllRowsFinalized(Required(descs, r.kind), reports, r.generation))
      ensures db.tables == if gone then Removed(s, r.id) else old(db.tables)
    {
      if r.deletedTime.None? { return false; }
      NothingRefersToDeleting(descs, s, r.id);
      gone := TryHardDelete(r, conditions, list, hasChildren, reports);
      RemovedAnyway(s, r.id, reports);
    }

    /** The aggregation after a report, when its Available status triggers it. */
    method AggregateReport(
      r: Resource, list: seq<AdapterStatus>, hasChildren: bool, aggregate: bool, now: Time, ghost s: State,
      ghost reports: Reports)
      returns (outcome: Option<Started>)
      requires RegistryOk(descs) && Inv(descs, s) && r.id in s.rows && r.kind in descs
      requires Loaded(r, r.id, s.rows[r.id], ConditionsOf(s, r.id))
      requires db.tables == s.(statuses := s.statuses[r.id := reports]) && Lists(list, reports)
      requires forall name :: name in reports ==> reports[name].lastReportTime != ZERO_TIME
      requires hasChildren == (Deleting(s, r.id) && HasChild(s, r.id))
      modifies db`tables, r`conditions
      ensures db.tables == if aggregate then Recomputed(descs, old(db.tables), r.id) else old(db.tables)
      ensures OutcomesMatch(ListOf(outcome), s, db.tables)
    {
      if !aggregate {
        SingleMove(s, db.tables, r.id, None);
        return None;
      }
      KeyedTable(descs, s, r.id);
      assert RowOk(descs, s, r.id);
      outcome := SaveAggregated(r, list, hasChildren, now, reports, ConditionsOf(s, r.id));
      ReportAggregated(descs, s, db.tables, r.id, reports, outcome);
    }

    method ProcessAdapterStatus(kind: Kind, id: Id, report: AdapterStatus, now: Time) returns (err: Option<Error>)
      requires Valid()
      modifies this`started, db
      ensures Valid()
      ensures StepOutcome(descs, old(db.tables), ReportOp(kind, id, report), OutcomeOf(err, db.tables))
      ensures err.Some? ==> db.tables == old(db.tables)
      ensures Counted(old(db.tables), db.tables, old(started), started)
    {
      ghost var s := db.tables;
      if kind !in descs {
        NothingCounted(s, started);
        return Some(Validation);
      }
      var begun := db.Begin();
      var outcome;
      err, outcome := ReportTx(kind, id, report, now);
      if err.Some? {
        db.Rollback();
        NothingCounted(s, started);
        return;
      }
      db.Commit();
      ReportKeeps(descs, s, kind, id, report);
      RecordStarted(ListOf(outcome), s);
    }

    // ------------------------------------------------------------------ Delete

    /** Marks the loaded resource for deletion, once. */
    method Mark(r: Resource, now: Time)
      modifies r`deletedTime, r`generation
      ensures r.Row() == Marked(old(r.Row()), now)
    {
      if r.deletedTime.None? {
        r.MarkDeleted(TruncateToMicrosecond(now));
        r.IncrementGeneration();
      }
    }

    /** Some live child is of a kind that restricts the delete of its parent. */
    method IsRestricted(id: Id, children: seq<EntityDescriptor>) returns (restricted: bool)
      requires KeyedByKind(descs) && Forest(descs, db.tables)
      requires id in db.tables.rows && AreChildKinds(descs, children, db.tables.rows[id].kind)
      ensures restricted <==> !NoRestriction(descs, db.tables, {id})
    {
      ForestChildKinds(descs, db.tables, id);
      for i := 0 to |children|
        invariant forall c, j :: 0 <= j < i && Restricts(descs, db.tables, {id}, c) ==>
                    db.tables.rows[c].kind != children[j].kind
      {
        if children[i].onParentDelete == Restrict {
          var found := db.ExistsByOwner(children[i].kind, id);
          if found {
            var c :| c in db.tables.rows && IsChild(db.tables, id, c) && db.tables.rows[c].kind == children[i].kind &&
              Live(db.tables, c);
            assert Restricts(descs, db.tables, {id}, c);
            return true;
          }
        }
      }
      forall c | IsChild(db.tables, id, c)
        ensures exists j :: 0 <= j < |children| && children[j].kind == db.tables.rows[c].kind {
        assert descs[db.tables.rows[c].kind] in children;
      }
      assert forall c :: c in db.tables.rows && Restricts(descs, db.tables, {id}, c) ==> IsChild(db.tables, id, c);
      return false;
    }

    /** The row stays while adapters must finalize it or soft-deleted children remain. */
    method ShouldSoftDelete(r: Resource, children: seq<EntityDescriptor>) returns (soft: bool)
      requires KeyedByKind(descs) && Forest(descs, db.tables) && r.id in db.tables.rows &&
               r.kind == db.tables.rows[r.id].kind
      requires r.kind in descs && AreChildKinds(descs, children, r.kind)
      ensures soft <==> MustStay(descs, db.tables, r.id)
    {
      if descs[r.kind].requiredAdapters != [] { return true; }
      ForestChildKinds(descs, db.tables, r.id);
      var childKinds: seq<Kind> := [];
      for i := 0 to |children|
        invariant |childKinds| == i && forall j :: 0 <= j < i ==> childKinds[j] == children[j].kind
      {
        childKinds := childKinds + [children[i].kind];
      }
      soft := db.ExistsSoftDeletedByOwner(childKinds, r.id);
      forall c | IsChild(db.tables, r.id, c) ensures db.tables.rows[c].kind in childKinds {
        assert descs[db.tables.rows[c].kind] in children;
        var j :| 0 <= j < |children| && children[j] == descs[db.tables.rows[c].kind];
        assert childKinds[j] == db.tables.rows[c].kind;
      }
    }

    /**
     * Deletes a resource that is marked in memory, after its cascading children; `room` bounds the depth below it, and
     * `order` has the turns that the iterations over the child kinds took.
     */
    method DeleteTree(r: Resource, now: Time, ghost room: nat)
      returns (err: Option<Error>, outcomes: seq<Started>, ghost order: Order)
      requires RegistryOk(descs) && Inv(descs, db.tables) && now != ZERO_TIME && r.id in db.tables.rows
      requires Loaded(r, r.id, Marked(db.tables.rows[r.id], now), ConditionsOf(db.tables, r.id))
      requires DepthBound(descs, descs.Keys) <= DepthOf(descs, db.tables, r.id) + room
      modifies db`tables, r
      ensures err.None? ==> Deleted(descs, old(db.tables), db.tables, order, r.id, now) && Inv(descs, db.tables)
      ensures err.None? ==> OutcomesMatch(outcomes, old(db.tables), db.tables)
      ensures err.Some? ==> err == Some(ConflictState) && Blocked(descs, old(db.tables), order, r.id)
      ensures Iterates(order)
      decreases room, 3
    {
      ghost var s := db.tables;
      assert RowOk(descs, s, r.id);
      var children := ChildrenOf(descs, r.kind);
      var restricted := IsRestricted(r.id, children);
      order := InSequence(children);
      InSequenceIterates(children);
      if restricted {
        RestrictedRoot(descs, s, order, r.id);
        return Some(ConflictState), [], order;
      }
      err, outcomes, order := DeleteChildren(r.id, children, now, room);
      if err.Some? { return; }
      err, outcomes := DeleteSelf(r, children, now, outcomes, s, order);
    }

    /** Deletes the trees of all children of cascading kinds. */
    method DeleteChildren(root: Id, children: seq<EntityDescriptor>, now: Time, ghost room: nat)
      returns (err: Option<Error>, outcomes: seq<Started>, ghost order: Order)
      requires RegistryOk(descs) && Inv(descs, db.tables) && now != ZERO_TIME && root in db.tables.rows
      requires AreChildKinds(descs, children, db.tables.rows[root].kind)
      requires DepthBound(descs, descs.Keys) <= DepthOf(descs, db.tables, root) + room
      modifies db`tables
      ensures err.None? ==>
                ChildrenGone(descs, old(db.tables), db.tables, order, root,
                             CascadeChildren(descs, old(db.tables), root), now, outcomes)
      ensures err.Some? ==> err == Some(ConflictState) && Blocked(descs, old(db.tables), order, root)
      ensures Iterates(order)
      decreases room, 2
    {
      ghost var s := db.tables;
      outcomes, order := [], InSequence(children);
      InSequenceIterates(children);
      NoChildYet(descs, s, order, root, now);
      ghost var done: set<Id> := {};
      for i := 0 to |children|
        invariant ChildrenGone(descs, s, db.tables, order, root, done, now, outcomes)
        invariant KindsDone(descs, s, root, done, children, i)
        invariant Iterates(order) && SameTurns(InSequence(children), order, root)
      {
        OneMoreKind(descs, s, root, done, children, i);
        if children[i].onParentDelete == Cascade {
          TurnOfKind(descs, s, order, root, done, children, i);
          err, outcomes, order := DeleteKind(children[i], root, now, outcomes, s, order, done, room);
          if err.Some? { return; }
          done := done + ChildrenOfKind(descs, s, root, children[i].kind);
        }
      }
      err := None;
      AllKindsDone(descs, s, root, done, children);
    }

    /** Deletes the trees of the owned rows of one cascading kind. */
    method DeleteKind(
      child: EntityDescriptor, root: Id, now: Time, earlier: seq<Started>, ghost s: State, ghost before: Order,
      ghost done: set<Id>, ghost room: nat)
      returns (err: Option<Error>, outcomes: seq<Started>, ghost order: Order)
      requires RegistryOk(descs) && Inv(descs, s) && now != ZERO_TIME && root in s.rows
      requires ChildrenGone(descs, s, db.tables, before, root, done, now, earlier)
      requires child.kind in descs && descs[child.kind] == child && child.onParentDelete == Cascade
      requires child.parentKind == s.rows[root].kind && KindInTurn(descs, s, before, root, done, child.kind)
      requires Iterates(before)
      requires DepthBound(descs, descs.Keys) <= DepthOf(descs, s, root) + room
      modifies db`tables
      ensures err.None? ==>
                ChildrenGone(descs, s, db.tables, order, root, done + ChildrenOfKind(descs, s, root, child.kind),
                             now, outcomes)
      ensures err.Some? ==> err == Some(ConflictState) && Blocked(descs, s, order, root)
      ensures Iterates(order) && SameTurns(before, order, root)
      decreases room, 1
    {
      assert RowOk(descs, s, root);
      var items := FindKind(child, root, now, earlier, s, before, done);
      outcomes, order := earlier, before;
      for i := 0 to |items|
        invariant ChildrenGone(descs, s, db.tables, order, root, done + FirstIds(items, i), now, outcomes)
        invariant Iterates(order) && SameTurns(before, order, root)
        invariant forall j :: i <= j < |items| ==>
                    Loaded(items[j], items[j].id, s.rows[items[j].id], ConditionsOf(s, items[j].id))
      {
        OneMoreId(items, i, done);
        ItemInTurn(descs, s, before, order, root, done, child.kind, items, i);
        err, outcomes, order := DeleteChild(items[i], root, now, outcomes, s, order, done + FirstIds(items, i), room);
        if err.Some? { return; }
      }
      err := None;
    }

    /** The owned rows of a kind that is still to be processed: all of them, and as they were at the start. */
    method FindKind(
      child: EntityDescriptor, root: Id, ghost now: Time, ghost earlier: seq<Started>, ghost s: State,
      ghost order: Order, ghost done: set<Id>)
      returns (items: seq<Resource>)
      requires RegistryOk(descs) && Inv(descs, s) && root in s.rows
      requires ChildrenGone(descs, s, db.tables, order, root, done, now, earlier)
      requires child.kind in descs && descs[child.kind] == child && child.onParentDelete == Cascade
      requires child.parentKind == s.rows[root].kind && KindInTurn(descs, s, order, root, done, child.kind)
      ensures FirstIds(items, |items|) == ChildrenOfKind(descs, s, root, child.kind)
      ensures forall i :: 0 <= i < |items| ==>
                fresh(items[i]) && CascadeChild(descs, s, root, items[i].id) && items[i].id !in done &&
                Loaded(items[i], items[i].id, s.rows[items[i].id], ConditionsOf(s, items[i].id))
      ensures forall i, j :: 0 <= i < j < |items| ==> items[i].id < items[j].id && items[i] != items[j]
    {
      KeyedTables(descs, db.tables);
      items := db.FindByKindAndOwnerForUpdate(child.kind, root);
      ChildrenUntouched(descs, s, db.tables, order, root, done, now, earlier, child);
    }

    /** Deletes the tree of one child, which is still as it was at the start. */
    method DeleteChild(
      item: Resource, root: Id, now: Time, earlier: seq<Started>, ghost s: State, ghost before: Order,
      ghost gone: set<Id>, ghost room: nat)
      returns (err: Option<Error>, outcomes: seq<Started>, ghost order: Order)
      requires RegistryOk(descs) && Inv(descs, s) && now != ZERO_TIME && root in s.rows && s.rows[root].kind in descs
      requires ChildrenGone(descs, s, db.tables, before, root, gone, now, earlier)
      requires CascadeChild(descs, s, root, item.id) && item.id !in gone
      requires Iterates(before) && NextInTurn(descs, s, before, root, gone, item.id)
      requires Loaded(item, item.id, s.rows[item.id], ConditionsOf(s, item.id))
      requires DepthBound(descs, descs.Keys) <= DepthOf(descs, s, root) + room
      modifies db`tables, item
      ensures err.None? ==> ChildrenGone(descs, s, db.tables, order, root, gone + {item.id}, now, outcomes)
      ensures err.Some? ==> err == Some(ConflictState) && Blocked(descs, s, order, root)
      ensures Iterates(order) && SameTurns(before, order, root)
      decreases room, 0
    {
      ghost var c, s1 := item.id, db.tables;
      NextChildUntouched(descs, s, s1, before, root, gone, now, earlier, c);
      ChildRoom(descs, s, root, c, room);
      Mark(item, now);
      var more;
      ghost var inner;
      err, more, inner := DeleteTree(item, now, room - 1);
      outcomes, order := earlier + more, Merge(before, CascadeTree(descs, s, c), inner);
      MergeIterates(before, CascadeTree(descs, s, c), inner);
      ParentOutside(descs, s, root, c);
      if err.Some? {
        BlockedChild(descs, s, s1, before, inner, root, gone, c, now, earlier);
      } else {
        OneMoreChild(descs, s, s1, db.tables, before, inner, root, gone, c, now, earlier, more);
      }
    }

    /** The last part of a delete: the row itself, once its cascading children are dealt with. */
    method DeleteSelf(
      r: Resource, children: seq<EntityDescriptor>, now: Time, earlier: seq<Started>, ghost s: State,
      ghost order: Order)
      returns (err: Option<Error>, outcomes: seq<Started>)
      requires RegistryOk(descs) && Inv(descs, s) && now != ZERO_TIME && r.id in s.rows &&
               NoRestriction(descs, s, {r.id})
      requires ChildrenGone(descs, s, db.tables, order, r.id, CascadeChildren(descs, s, r.id), now, earlier)
      requires Loaded(r, r.id, Marked(s.rows[r.id], now), ConditionsOf(s, r.id))
      requires r.kind in descs && AreChildKinds(descs, children, r.kind)
      modifies db`tables, r
      ensures err.None? ==>
                Deleted(descs, s, db.tables, order, r.id, now) && Inv(descs, db.tables) &&
                OutcomesMatch(outcomes, s, db.tables)
      ensures err.Some? ==> err == Some(ConflictState) && Blocked(descs, s, order, r.id)
    {
      ghost var cur, done := db.tables, CascadeChildren(descs, s, r.id);
      RootApart(descs, s, r.id, done);
      assert Untouched(s, cur, r.id);
      var referenced := db.HasReferencers(r.id);
      if referenced {
        ReferencedRoot(descs, s, cur, order, r.id, now, earlier);
        return Some(ConflictState), [];
      }
      UnreferencedRoot(descs, cur, r.id);
      forall c | IsChild(cur, r.id, c) ensures Deleting(cur, c) {
        RemainingChildrenDeleting(descs, s, cur, order, r.id, done, now, earlier, c);
      }
      var soft := ShouldSoftDelete(r, children);
      if soft {
        var outcome := SoftDelete(r, now);
        outcomes := earlier + ListOf(outcome);
        RootLast(descs, s, cur, db.tables, order, r.id, done, now, earlier, ListOf(outcome));
      } else {
        var gone := db.Delete(r.id);
        HardDeleted(descs, cur, db.tables, r.id, now);
        outcomes := earlier;
        RootLast(descs, s, cur, db.tables, order, r.id, done, now, earlier, []);
      }
      err := None;
      DeletedKeeps(descs, s, db.tables, order, r.id, now);
    }

    /** Saves the marked row, drops its references and recomputes its conditions. */
    method SoftDelete(r: Resource, now: Time) returns (outcome: Option<Started>)
      requires RegistryOk(descs) && Inv(descs, db.tables) && now != ZERO_TIME && r.id in db.tables.rows &&
               r.kind in descs
      requires Loaded(r, r.id, Marked(db.tables.rows[r.id], now), ConditionsOf(db.tables, r.id))
      requires Required(descs, r.kind) != [] || HasChild(db.tables, r.id)
      modifies db`tables, r
      ensures TreeDeleted(descs, old(db.tables), db.tables, {r.id}, now)
      ensures OutcomesMatch(ListOf(outcome), old(db.tables), db.tables)
    {
      ghost var cur := db.tables;
      db.Save(r, now);
      var cleared := db.ReplaceReferences(r.id, []);
      outcome := RecomputeDeleted(r, now, cur);
      SoftDeleted(descs, cur, db.tables, r.id, now, outcome);
    }

    /** Recomputes the conditions of a row that has just been saved as deleting; `cur` are the tables before. */
    method RecomputeDeleted(r: Resource, now: Time, ghost cur: State) returns (outcome: Option<Started>)
      requires RegistryOk(descs) && Inv(descs, cur) && now != ZERO_TIME && r.id in cur.rows && r.kind in descs
      requires Loaded(r, r.id, Marked(cur.rows[r.id], now).(updatedTime := now), ConditionsOf(cur, r.id))
      requires db.tables == cur.(rows := cur.rows[r.id := r.Row()], refs := WithoutSource(cur.refs, r.id))
      modifies db`tables, r`conditions
      ensures HasChild(db.tables, r.id) == HasChild(cur, r.id)
      ensures r.id in db.tables.conditions
      ensures db.tables == old(db.tables).(conditions := old(db.tables).conditions[
                r.id := FreshConditions(
                  descs, r.Row(), ReportsOf(cur, r.id), ConditionsOf(cur, r.id), HasChild(cur, r.id))])
      ensures outcome.Some? <==>
                NotReconciledIn(ConditionsOf(db.tables, r.id)) && !NotReconciledIn(ConditionsOf(cur, r.id))
      ensures outcome.Some? ==> outcome.value == (r.kind, true)
    {
      KeyedTable(descs, cur, r.id);
      ReportsTimed(descs, cur, r.id);
      var list := db.FindByResource(r.id);
      ForestChildKinds(descs, cur, r.id);
      SavedChildren(descs, cur, db.tables, r.id);
      var hasChildren := ChildrenRemainDuringDelete(r);
      outcome := SaveAggregated(r, list, hasChildren, now, ReportsOf(cur, r.id), ConditionsOf(cur, r.id));
      HasChildSame(old(db.tables), db.tables, r.id);
    }

    method DeleteTx(kind: Kind, id: Id, scope: Option<Id>, now: Time)
      returns (err: Option<Error>, outcomes: seq<Started>)
      requires RegistryOk(descs) && Inv(descs, db.tables) && WriteKindOk(descs, kind, scope) && now != ZERO_TIME
      modifies db`tables
      ensures DeleteStep(descs, old(db.tables), kind, id, scope, now, OutcomeOf(err, db.tables))
      ensures err.None? ==> OutcomesMatch(outcomes, old(db.tables), db.tables) && Inv(descs, db.tables)
    {
      var r := Find(kind, id, scope);
      if r == null {
        InSequenceIterates([]);
        assert DeleteInOrder(descs, old(db.tables), InSequence([]), kind, id, scope, now, Err(NotFound));
        return Some(NotFound), [];
      }
      Mark(r, now);
      ghost var order;
      err, outcomes, order := DeleteTree(r, now, DepthBound(descs, descs.Keys));
      assert DeleteInOrder(descs, old(db.tables), order, kind, id, scope, now, OutcomeOf(err, db.tables));
    }

    method Delete(kind: Kind, id: Id, scope: Option<Id>, now: Time) returns (err: Option<Error>)
      requires Valid() && now != ZERO_TIME
      modifies this`started, db
      ensures Valid()
      ensures StepOutcome(descs, old(db.tables), DeleteOp(kind, id, scope, now), OutcomeOf(err, db.tables))
      ensures err.Some? ==> db.tables == old(db.tables)
      ensures Counted(old(db.tables), db.tables, old(started), started)
    {
      ghost var s := db.tables;
      if kind !in descs || (scope.Some? && descs[kind].parentKind == NoKind) {
        NothingCounted(s, started);
        InSequenceIterates([]);
        assert DeleteInOrder(descs, s, InSequence([]), kind, id, scope, now, Err(Validation));
        return Some(Validation);
      }
      var begun := db.Begin();
      var outcomes;
      err, outcomes := DeleteTx(kind, id, scope, now);
      if err.Some? {
        db.Rollback();
        NothingCounted(s, started);
        return;
      }
      db.Commit();
      RecordStarted(outcomes, s);
    }

    // ------------------------------------------------------------------ ForceDelete

    /** The rows below `parent`, each once, owners before what they own. */
    method Collect(parent: Id, ghost room: nat) returns (below: seq<Id>)
      requires RegistryOk(descs) && KeysOk(descs, db.tables) && parent in db.tables.rows
      requires DepthBound(descs, descs.Keys) <= DepthOf(descs, db.tables, parent) + room
      ensures Members(below) == Subtree(descs, db.tables, parent) - {parent}
      ensures Distinct(below) && ParentFirst(db.tables, parent, below)
      decreases room
    {
      ghost var s := db.tables;
      var children := db.FindChildrenForUpdate(parent);
      below := [];
      for i := 0 to |children|
        invariant Members(below) == Below(descs, s, children[..i])
        invariant Distinct(below) && ParentFirst(s, parent, below)
      {
        var c := children[i];
        CollectRoom(descs, s, parent, c, room);
        var more := Collect(c, room - 1);
        SubtreeListed(descs, s, c, more);
        BelowMore(descs, s, parent, children[..i], c);
        DistinctAppend(below, c, more);
        ParentFirstAppend(s, parent, below, c, more);
        assert Members(below + [c] + more) == Members(below) + Members([c] + more);
        assert children[..i + 1] == children[..i] + [c];
        below := below + [c] + more;
      }
      assert children[..|children|] == children;
      BelowAll(descs, s, parent, children);
    }

    /** Refuses when a surviving source would keep fewer references than its type requires. */
    method ValidateRemainingReferenceMins(counts: seq<ExternalReferenceCount>, ghost doomed: set<Id>)
      returns (err: Option<Error>)
      requires forall c :: c in counts ==> Counts(db.tables, doomed, c)
      ensures err.None? ==> forall c :: c in counts ==> KeepsMinimum(descs, db.tables, doomed, c.source, c.refType)
      ensures err.Some? ==> exists c ::
                c in counts && !KeepsMinimum(descs, db.tables, doomed, c.source, c.refType) &&
                err.value == if Declared(descs, db.tables, c.source, c.refType) then ConflictState else General
    {
      for i := 0 to |counts|
        invariant forall j :: 0 <= j < i ==> KeepsMinimum(descs, db.tables, doomed, counts[j].source, counts[j].refType)
      {
        var count := counts[i];
        assert Counts(db.tables, doomed, count);
        if count.sourceKind !in descs { return Some(General); }
        var rd := FindReference(descs[count.sourceKind].references, count.refType);
        if rd.None? { return Some(General); }
        if count.remaining < rd.value.min { return Some(ConflictState); }
      }
      return None;
    }

    method FindRow(kind: Kind, id: Id, scope: Option<Id>) returns (row: Option<Row>)
      requires kind in descs
      ensures row == if Found(descs, db.tables, kind, id, scope) then Some(db.tables.rows[id]) else None
    {
      if scope.None? {
        row := db.GetRowForUpdate(kind, id);
      } else {
        row := db.GetRowForUpdateByOwner(kind, id, descs[kind].parentKind, scope.value);
      }
    }

    /** Deletes the collected rows in an order that the foreign keys allow. */
    method DeleteResourceRows(ids: set<Id>) returns (ok: bool)
      modifies db`tables
      ensures ok && db.tables == Purged(old(db.tables), ids)
    {
      db.DeleteReferencesByTargets(ids);
      db.DeleteStatuses(ids);
      ok := db.DeleteIDs(ids);
    }

    method ForceDeleteTx(kind: Kind, id: Id, scope: Option<Id>) returns (err: Option<Error>)
      requires RegistryOk(descs) && KeysOk(descs, db.tables) && WriteKindOk(descs, kind, scope)
      modifies db`tables
      ensures ForceDeleteStep(descs, old(db.tables), kind, id, scope, OutcomeOf(err, db.tables))
    {
      ghost var s := db.tables;
      var row := FindRow(kind, id, scope);
      if row.None? { return Some(NotFound); }
      if row.value.deletedTime.None? { return Some(ConflictState); }
      var below := Collect(id, DepthBound(descs, descs.Keys));
      var ids := Members([id] + below);
      SubtreeListed(descs, s, id, below);
      var counts := db.FindExternalReferenceCounts(ids);
      err := ValidateRemainingReferenceMins(counts, ids);
      MinimumsFromCounts(descs, s, ids, counts, err);
      if err.Some? { return; }
      var deleted := DeleteResourceRows(ids);
    }

    /** Needs no more than consistent keys; from a state that meets the whole invariant it leads to another. */
    method ForceDelete(kind: Kind, id: Id, scope: Option<Id>) returns (err: Option<Error>)
      requires RegistryOk(descs) && KeysOk(descs, db.tables) && db.open.None?
      modifies db
      ensures db.open.None? && (Inv(descs, old(db.tables)) ==> Inv(descs, db.tables))
      ensures StepOutcome(descs, old(db.tables), ForceDeleteOp(kind, id, scope), OutcomeOf(err, db.tables))
      ensures err.Some? ==> db.tables == old(db.tables)
      ensures Counted(old(db.tables), db.tables, started, started)
    {
      ghost var s := db.tables;
      NothingCounted(s, started);
      if kind !in descs || (scope.Some? && descs[kind].parentKind == NoKind) { return Some(Validation); }
      var begun := db.Begin();
      err := ForceDeleteTx(kind, id, scope);
      if err.Some? {
        db.Rollback();
        return;
      }
      db.Commit();
      PurgeMovesNothing(s, Subtree(descs, s, id), started);
      if Inv(descs, s) { ForceDeleteKeeps(descs, s, db.tables, kind, id, scope); }
    }

    /** Emits the counters of a committed transaction. */
    method RecordStarted(outcomes: seq<Started>, ghost s: State)
      requires OutcomesMatch(outcomes, s, db.tables)
      modifies this`started
      ensures Counted(s, db.tables, old(started), started)
    {
      ghost var before := started;
      for i := 0 to |outcomes|
        invariant forall kind, deleting ::
                    Count(started, kind, deleting) ==
                      Count(before, kind, deleting) + multiset(outcomes[..i])[(kind, deleting)]
      {
        assert outcomes[..i + 1] == outcomes[..i] + [outcomes[i]];
        started := started[outcomes[i] := Count(started, outcomes[i].0, outcomes[i].1) + 1];
      }
      assert outcomes[..|outcomes|] == outcomes;
    }
  }

  predicate NotReconciledIn(table: ConditionTable) {
    ReconciledType in table && table[ReconciledType].status == CondFalse
  }

  function ComputedFor(
    descs: Descriptors, row: Row, reports: Reports, stored: ConditionTable, hasChildren: bool): seq<Condition> {
    AggregateOver(row.generation, RefTime(row), row.deletedTime.Some?, stored, Required(descs, row.kind),
                  SnapshotsFor(descs, row, reports), hasChildren)
  }

  /** The database writes the aggregated conditions unchanged, and they never collide on a type. */
  lemma WrittenAsComputed(
    descs: Descriptors, row: Row, reports: Reports, stored: ConditionTable, hasChildren: bool,
    conditions: seq<Condition>, now: Time)
    requires RegistryOk(descs) && RefTime(row) != ZERO_TIME && TableTimesSet(stored) && TableKeyed(stored)
    requires forall name :: name in reports ==> reports[name].lastReportTime != ZERO_TIME
    requires conditions == ComputedFor(descs, row, reports, stored, hasChildren)
    ensures conditions != [] && TypesDistinct(conditions) && PreserveAll(conditions, stored, now) == conditions
    ensures ByType(conditions) == FreshConditions(descs, row, reports, stored, hasChildren)
    ensures Lookup(ByType(conditions), ReconciledType) == Some(conditions[0])
  {
    var required, snaps := Required(descs, row.kind), SnapshotsFor(descs, row, reports);
    RequiredTypesDistinct(descs, row.kind);
    AggregateTypesDistinct(row.generation, RefTime(row), row.deletedTime.Some?, stored, required, snaps, hasChildren);
    SnapshotTimes(descs, row, reports);
    AggregateSetsTimes(row.generation, RefTime(row), row.deletedTime.Some?, stored, required, snaps, hasChildren);
    forall c | c in conditions && c.ctype in stored ensures Succeeds(stored[c.ctype], c) {
      AggregateSucceeds(row.generation, RefTime(row), row.deletedTime.Some?, stored, required, snaps, hasChildren, c);
    }
    PreservationChangesNothing(conditions, stored, now);
    FreshTable(descs, row, reports, stored, hasChildren);
  }

  lemma NothingCounted(s: State, m: Metrics)
    ensures Counted(s, s, m, m)
  {
    NothingMoved(s);
    forall kind, deleting ensures MoveSet(s, s, kind, deleting) == {} {}
  }

  lemma KeyedTable(descs: Descriptors, s: State, id: Id)
    requires Inv(descs, s)
    ensures TableKeyed(ConditionsOf(s, id)) && TableTimesSet(ConditionsOf(s, id))
  {
    assert id in s.conditions ==> StoredOk(s, id);
  }

  lemma NoOwnReferences(descs: Descriptors, s: State, id: Id)
    requires Inv(descs, s) && id !in s.rows
    ensures WithoutSource(s.refs, id) == s.refs
  {
    forall r | r in s.refs ensures r.source != id { assert ReferenceOk(descs, s, r); }
  }

  /** Inserting a row takes no target away. */
  lemma AcceptableAfterInsert(descs: Descriptors, s: State, s': State, kind: Kind, refs: ReferenceMap, id: Id)
    requires kind in descs && ReferencesAcceptable(descs, s, kind, refs)
    requires forall t :: Live(s, t) ==> Live(s', t) && s'.rows[t].kind == s.rows[t].kind
    ensures ReferencesAcceptable(descs, s', kind, refs)
  {
    forall t | t in refs
      ensures FindReference(descs[kind].references, t).Some?
      ensures TypeAcceptable(s', FindReference(descs[kind].references, t).value, refs[t])
    {
      assert TypeAcceptable(s, FindReference(descs[kind].references, t).value, refs[t]);
    }
  }

  /** When only the conditions of one row can differ, the outcome counted for it is the move. */
  lemma OneRowMoved(s: State, s': State, id: Id, outcome: Option<Started>)
    requires forall n :: n != id ==> ConditionsOf(s', n) == ConditionsOf(s, n)
    requires outcome.Some? <==> NotReconciledIn(ConditionsOf(s', id)) && !NotReconciledIn(ConditionsOf(s, id))
    requires id in s'.rows && (outcome.Some? ==> outcome.value == (s'.rows[id].kind, s'.rows[id].deletedTime.Some?))
    ensures OutcomesMatch(ListOf(outcome), s, s')
  {
    SingleMove(s, s', id, outcome);
  }

  lemma RecomputedElsewhere(descs: Descriptors, s: State, id: Id)
    requires id in s.rows
    ensures var s' := RecomputedIfRequired(descs, s, id);
            s'.rows == s.rows && forall n :: n != id ==> ConditionsOf(s', n) == ConditionsOf(s, n)
  {
  }

  /** The row inserted with its references and first conditions is the created one, and only it can have moved. */
  lemma CreateCompleted(
    descs: Descriptors, s: State, s': State, kind: Kind, name: string, owner: Option<Id>, refs: ReferenceMap,
    spec: string, labels: map<string, string>, id: Id, now: Time, outcome: Option<Started>)
    requires kind in descs && id !in s.conditions
    requires s' == RecomputedIfRequired(descs, SavedNew(descs, s, kind, name, owner, refs, spec, labels, id, now), id)
    requires outcome.Some? <==> NotReconciledIn(ConditionsOf(s', id))
    requires outcome.Some? ==> outcome.value == (kind, false)
    ensures s' == Created(descs, s, kind, name, owner, refs, spec, labels, id, now)
    ensures OutcomesMatch(ListOf(outcome), s, s')
  {
    RecomputedElsewhere(descs, SavedNew(descs, s, kind, name, owner, refs, spec, labels, id, now), id);
    OneRowMoved(s, s', id, outcome);
  }

  /** The tables after an accepted report that left `reports` stored. */
  ghost function Followed(
    descs: Descriptors, s: State, id: Id, conditions: seq<AdapterCondition>, reports: Reports, aggregate: bool): State
    requires id in s.rows
  {
    var stored := s.(statuses := s.statuses[id := reports]);
    if Deleting(s, id) && ReportsFinalized(conditions) &&
       AllRowsFinalized(Required(descs, s.rows[id].kind), reports, s.rows[id].generation) &&
       !HasChild(s, id)
    then Removed(s, id)
    else if aggregate then Recomputed(descs, stored, id)
    else stored
  }

  lemma RemovedAnyway(s: State, id: Id, reports: Reports)
    ensures Removed(s.(statuses := s.statuses[id := reports]), id) == Removed(s, id)
  {
  }

  lemma RemovalMovesNothing(s: State, id: Id)
    ensures OutcomesMatch([], s, Removed(s, id))
  {
    SingleMove(s, Removed(s, id), id, None);
  }

  lemma ReportFollowed(descs: Descriptors, s: State, id: Id, report: AdapterStatus, reports: Reports, aggregate: bool)
    requires id in s.rows && reports == Deliver(s.rows[id].generation, ReportsOf(s, id), report)
    requires Classify(s.rows[id].generation, Arrived(report), Lookup(ReportsOf(s, id), report.adapter)) ==
             Accepted(aggregate)
    ensures Followed(descs, s, id, Arrived(report).conditions, reports, aggregate) == Reported(descs, s, id, report)
  {
  }

  lemma ReportsTimed(descs: Descriptors, s: State, id: Id)
    requires Inv(descs, s) && id in s.rows
    ensures Keyed(ReportsOf(s, id))
    ensures forall name :: name in ReportsOf(s, id) ==> ReportsOf(s, id)[name].lastReportTime != ZERO_TIME
  {
    assert id in s.statuses ==> ReportsOk(s, id);
  }

  /** Saving the patched row and recomputing its conditions is the patch, and only that row can have moved. */
  lemma PatchCompleted(
    descs: Descriptors, s: State, s': State, id: Id, patch: Patch, now: Time, outcome: Option<Started>)
    requires id in s.rows && s.rows[id].kind in descs && s.rows[id].deletedTime.None?
    requires patch.references.Some? || PatchedRow(s.rows[id], patch) != s.rows[id]
    requires s' == RecomputedIfRequired(descs, SavedPatch(descs, s, id, patch, now), id)
    requires outcome.Some? <==> NotReconciledIn(ConditionsOf(s', id)) && !NotReconciledIn(ConditionsOf(s, id))
    requires outcome.Some? ==> outcome.value == (s.rows[id].kind, false)
    ensures s' == Patched(descs, s, id, patch, now)
    ensures OutcomesMatch(ListOf(outcome), s, s')
  {
    RecomputedElsewhere(descs, SavedPatch(descs, s, id, patch, now), id);
    OneRowMoved(s, s', id, outcome);
  }

  /** Under the invariant nothing refers to a resource that is being deleted. */
  lemma NothingRefersToDeleting(descs: Descriptors, s: State, id: Id)
    requires Inv(descs, s) && Deleting(s, id)
    ensures forall r :: r in s.refs ==> r.target != id && r.source != id
  {
    forall r | r in s.refs ensures r.target != id && r.source != id { assert ReferenceOk(descs, s, r); }
  }

  lemma DeliverTimed(descs: Descriptors, s: State, id: Id, report: AdapterStatus)
    requires Inv(descs, s) && id in s.rows
    ensures var reports := Deliver(s.rows[id].generation, ReportsOf(s, id), report);
            forall name :: name in reports ==> reports[name].lastReportTime != ZERO_TIME
  {
    assert id in s.statuses ==> ReportsOk(s, id);
    DeliverKeepsReports(s.rows[id].generation, ReportsOf(s, id), report);
  }

  /** The check over the list is the check over the table it lists. */
  lemma FinalListOrTable(required: seq<string>, list: seq<AdapterStatus>, reports: Reports, gen: int)
    requires Lists(list, reports)
    ensures AllFinalized(required, list, gen) == AllRowsFinalized(required, reports, gen)
  {
    if AllRowsFinalized(required, reports, gen) {
      forall name | name in required
        ensures exists r ::
                  r in list && r.adapter == name && r.observedGeneration == gen && ReportsFinalized(r.conditions)
      {
        assert reports[name] in list;
      }
    }
  }

  /** Writing the fresh conditions over the new reports is the recomputation, and only that row can have moved. */
  lemma ReportAggregated(descs: Descriptors, s: State, s': State, id: Id, reports: Reports, outcome: Option<Started>)
    requires id in s.rows
    requires s' == s.(statuses := s.statuses[id := reports], conditions := s.conditions[
                        id := FreshConditions(descs, s.rows[id], reports, ConditionsOf(s, id),
                                              Deleting(s, id) && HasChild(s, id))])
    requires outcome.Some? <==> NotReconciledIn(ConditionsOf(s', id)) && !NotReconciledIn(ConditionsOf(s, id))
    requires outcome.Some? ==> outcome.value == (s.rows[id].kind, s.rows[id].deletedTime.Some?)
    ensures s' == Recomputed(descs, s.(statuses := s.statuses[id := reports]), id)
    ensures OutcomesMatch(ListOf(outcome), s, s')
  {
    HasChildSame(s, s.(statuses := s.statuses[id := reports]), id);
    SingleMove(s, s', id, outcome);
  }

  // ---------------------------------------------------------------------------------------
  // Delete, step by step
  // ---------------------------------------------------------------------------------------

  /** The descriptors are those of the kinds that name `kind` as parent, each once. */
  ghost predicate AreChildKinds(descs: Descriptors, children: seq<EntityDescriptor>, kind: Kind) {
    && Distinct(children)
    && forall d :: d in children <==> d.kind in descs && descs[d.kind] == d && d.parentKind == kind
  }

  ghost function Kinds(children: seq<EntityDescriptor>): set<Kind> {
    set d | d in children :: d.kind
  }

  ghost function CascadeChildren(descs: Descriptors, s: State, root: Id): set<Id> {
    set c | c in s.rows && CascadeChild(descs, s, root, c)
  }

  ghost function ChildrenOfKind(descs: Descriptors, s: State, root: Id, kind: Kind): set<Id> {
    set c | c in s.rows && CascadeChild(descs, s, root, c) && s.rows[c].kind == kind
  }

  ghost function FirstIds(items: seq<Resource>, n: nat): set<Id>
    requires n <= |items|
  {
    set i | 0 <= i < n :: items[i].id
  }

  lemma OneMoreId(items: seq<Resource>, n: nat, others: set<Id>)
    requires n < |items|
    ensures others + FirstIds(items, n + 1) == others + FirstIds(items, n) + {items[n].id}
  {
  }

  lemma KeyedTables(descs: Descriptors, s: State)
    requires Inv(descs, s)
    ensures forall n :: TableKeyed(ConditionsOf(s, n))
  {
    forall n ensures TableKeyed(ConditionsOf(s, n)) { KeyedTable(descs, s, n); }
  }

  /** What keeps the row of a deleted resource: adapters that must finalize it, or a soft-deleted child. */
  ghost predicate MustStay(descs: Descriptors, s: State, id: Id)
    requires id in s.rows
  {
    Required(descs, s.rows[id].kind) != [] || exists c :: c in s.rows && IsChild(s, id, c) && Deleting(s, c)
  }

  lemma {:induction false} TurnOfBefore(children: seq<EntityDescriptor>, i: nat, kind: Kind)
    requires i <= |children|
    ensures kind in Kinds(children[..i]) <==> TurnOf(children, kind) < i
  {
    if i > 0 && children[0].kind != kind {
      TurnOfBefore(children[1..], i - 1, kind);
      assert children[..i] == [children[0]] + children[1..][..i - 1];
    }
  }

  /** The same turns for the children of `root`. */
  ghost predicate SameTurns(a: Order, b: Order, root: Id) {
    forall k {:trigger b(root, k)} :: b(root, k) == a(root, k)
  }

  /** The children deleted so far are those of the kinds whose turn comes before that of `kind`. */
  ghost predicate KindInTurn(descs: Descriptors, s: State, order: Order, root: Id, done: set<Id>, kind: Kind) {
    forall a :: CascadeChild(descs, s, root, a) ==>
      (a in done <==> s.rows[a].kind != kind && order(root, s.rows[a].kind) < order(root, kind))
  }

  /** The children deleted so far are those of the first `n` kinds. */
  ghost predicate KindsDone(
    descs: Descriptors, s: State, root: Id, done: set<Id>, children: seq<EntityDescriptor>, n: nat)
    requires n <= |children|
  {
    forall c :: c in done <==> CascadeChild(descs, s, root, c) && s.rows[c].kind in Kinds(children[..n])
  }

  lemma OneMoreKind(descs: Descriptors, s: State, root: Id, done: set<Id>, children: seq<EntityDescriptor>, n: nat)
    requires n < |children| && KindsDone(descs, s, root, done, children, n)
    requires children[n].kind in descs && descs[children[n].kind] == children[n]
    ensures KindsDone(
              descs, s, root,
              if children[n].onParentDelete == Cascade then done + ChildrenOfKind(descs, s, root, children[n].kind)
              else done, children, n + 1)
  {
    assert children[..n + 1] == children[..n] + [children[n]];
    assert Kinds(children[..n + 1]) == Kinds(children[..n]) + {children[n].kind};
  }

  lemma AllKindsDone(descs: Descriptors, s: State, root: Id, done: set<Id>, children: seq<EntityDescriptor>)
    requires root in s.rows && AreChildKinds(descs, children, s.rows[root].kind) && KeyedByKind(descs)
    requires KindsDone(descs, s, root, done, children, |children|)
    ensures done == CascadeChildren(descs, s, root)
  {
    assert children[..|children|] == children;
    forall c | CascadeChild(descs, s, root, c) ensures c in done {
      assert descs[s.rows[c].kind] in children;
    }
  }

  lemma TurnOfKind(
    descs: Descriptors, s: State, order: Order, root: Id, done: set<Id>, children: seq<EntityDescriptor>, i: nat)
    requires root in s.rows && AreChildKinds(descs, children, s.rows[root].kind) && i < |children|
    requires SameTurns(InSequence(children), order, root)
    requires KindsDone(descs, s, root, done, children, i)
    ensures KindInTurn(descs, s, order, root, done, children[i].kind)
  {
    var kind := children[i].kind;
    assert kind !in Kinds(children[..i]) by {
      assert forall j :: 0 <= j < i ==> children[j] in children && children[j] != children[i];
    }
    TurnOfBefore(children, i, kind);
    TurnOfBefore(children, i + 1, kind);
    assert children[i] in children[..i + 1];
    forall a | CascadeChild(descs, s, root, a)
      ensures a in done <==> s.rows[a].kind != kind && order(root, s.rows[a].kind) < order(root, kind)
    {
      TurnOfBefore(children, i, s.rows[a].kind);
    }
  }

  lemma ItemInTurn(
    descs: Descriptors, s: State, before: Order, order: Order, root: Id, done: set<Id>, kind: Kind,
    items: seq<Resource>, i: nat)
    requires KindInTurn(descs, s, before, root, done, kind) && SameTurns(before, order, root) && i < |items|
    requires FirstIds(items, |items|) == ChildrenOfKind(descs, s, root, kind)
    requires forall i, j :: 0 <= i < j < |items| ==> items[i].id < items[j].id
    ensures NextInTurn(descs, s, order, root, done + FirstIds(items, i), items[i].id)
  {
    assert items[i].id in FirstIds(items, |items|) && FirstIds(items, i) <= FirstIds(items, |items|);
    forall a: Id | CascadeChild(descs, s, root, a)
      ensures a in done + FirstIds(items, i) <==> VisitedBefore(s, order, a, items[i].id)
    {
      if s.rows[a].kind == kind {
        assert a in FirstIds(items, |items|);
        var j :| 0 <= j < |items| && items[j].id == a;
        assert a !in done && (a in FirstIds(items, i) <==> j < i);
        assert a < items[i].id <==> j < i;
      }
    }
  }

  lemma RestrictedRoot(descs: Descriptors, s: State, order: Order, root: Id)
    requires AllRooted(descs) && root in s.rows && !NoRestriction(descs, s, {root})
    ensures Blocked(descs, s, order, root)
  {
    assert Reaches(descs, s, root, root, true);
    RestrictionWhole(descs, s, {root}, CascadeTree(descs, s, root));
  }

  /** The rows of a kind that is still to be processed are those of the start, and as they were. */
  lemma ChildrenUntouched(
    descs: Descriptors, s: State, cur: State, order: Order, root: Id, done: set<Id>, now: Time,
    outcomes: seq<Started>, child: EntityDescriptor)
    requires RegistryOk(descs) && Inv(descs, s) && ChildrenGone(descs, s, cur, order, root, done, now, outcomes) &&
             root in s.rows
    requires child.kind in descs && descs[child.kind] == child && child.onParentDelete == Cascade
    requires KindInTurn(descs, s, order, root, done, child.kind)
    ensures forall c :: IsChild(cur, root, c) && cur.rows[c].kind == child.kind <==>
              c in ChildrenOfKind(descs, s, root, child.kind)
    ensures forall c :: c in ChildrenOfKind(descs, s, root, child.kind) ==> c !in done && Untouched(s, cur, c)
  {
    RowsShrink(descs, s, cur, TreesOf(descs, s, done), now);
    forall c | c in ChildrenOfKind(descs, s, root, child.kind) ensures c !in done && Untouched(s, cur, c) {
      NextChildUntouched(descs, s, cur, order, root, done, now, outcomes, c);
    }
    forall c | IsChild(cur, root, c) && cur.rows[c].kind == child.kind
      ensures c in ChildrenOfKind(descs, s, root, child.kind) {
      assert RowOk(descs, s, c);
    }
  }

  lemma ChildRoom(descs: Descriptors, s: State, root: Id, c: Id, room: nat)
    requires AllRooted(descs) && CascadeChild(descs, s, root, c) && root in s.rows && s.rows[root].kind in descs
    requires DepthBound(descs, descs.Keys) <= DepthOf(descs, s, root) + room
    ensures room > 0 && DepthBound(descs, descs.Keys) <= DepthOf(descs, s, c) + room - 1
  {
    OwnerIsShallower(descs, s, c);
  }

  lemma ReferencedRoot(
    descs: Descriptors, s: State, cur: State, order: Order, root: Id, now: Time, outcomes: seq<Started>)
    requires AllRooted(descs) && root in s.rows
    requires ChildrenGone(descs, s, cur, order, root, CascadeChildren(descs, s, root), now, outcomes)
    requires exists r :: r in cur.refs && r.target == root
    ensures Blocked(descs, s, order, root)
  {
    assert Reaches(descs, s, root, root, true);
    var r :| r in cur.refs && r.target == root;
    WholeTree(descs, s, root, CascadeChildren(descs, s, root));
    assert r in s.refs && r.source !in TreesOf(descs, s, CascadeChildren(descs, s, root));
  }

  /** Every stored reference has a live source, so no reference is overlooked. */
  lemma UnreferencedRoot(descs: Descriptors, cur: State, root: Id)
    requires Inv(descs, cur) && !exists r :: r in cur.refs && r.target == root && Live(cur, r.source)
    ensures forall r :: r in cur.refs ==> r.target != root
  {
    forall r | r in cur.refs ensures r.target != root { assert ReferenceOk(descs, cur, r); }
  }

  lemma HardDeleted(descs: Descriptors, cur: State, s': State, root: Id, now: Time)
    requires root in cur.rows && Required(descs, cur.rows[root].kind) == [] && !HasChild(cur, root)
    requires s' == cur.(rows := cur.rows - {root}, refs := WithoutSource(cur.refs, root),
                        conditions := cur.conditions - {root})
    ensures TreeDeleted(descs, cur, s', {root}, now) && OutcomesMatch([], cur, s')
  {
    assert !HasChild(s', root) by {
      forall c | c in s'.rows ensures !IsChild(s', root, c) { assert !IsChild(cur, root, c); }
    }
    forall n | n !in {root} ensures Untouched(cur, s', n) {}
    assert Processed(descs, cur, s', root, now);
    SingleMove(cur, s', root, None);
  }

  lemma SavedChildren(descs: Descriptors, s: State, s': State, id: Id)
    requires id in s.rows && s'.rows.Keys == s.rows.Keys && ChildKindsOk(descs, s, id)
    requires forall n :: n in s.rows ==> s'.rows[n].owner == s.rows[n].owner && s'.rows[n].kind == s.rows[n].kind
    ensures ChildKindsOk(descs, s', id) && HasChild(s', id) == HasChild(s, id)
  {
    assert forall c :: IsChild(s', id, c) <==> IsChild(s, id, c);
    assert HasChild(s, id) ==> HasChild(s', id) by {
      if HasChild(s, id) {
        var c :| c in s.rows && IsChild(s, id, c);
        assert IsChild(s', id, c);
      }
    }
  }

  lemma RootProcessed(descs: Descriptors, cur: State, s': State, root: Id, now: Time, table: ConditionTable)
    requires root in cur.rows && (Required(descs, cur.rows[root].kind) != [] || HasChild(cur, root))
    requires HasChild(cur, root) == HasChild(s', root)
    requires var row := Marked(cur.rows[root], now).(updatedTime := now);
             && s' == State(cur.rows[root := row], WithoutSource(cur.refs, root), cur.statuses,
                            cur.conditions[root := table],
                            cur.issued)
             && table == FreshConditions(descs, row, ReportsOf(cur, root), ConditionsOf(cur, root), HasChild(s', root))
    ensures TreeDeleted(descs, cur, s', {root}, now)
  {
    forall n | n !in {root} ensures Untouched(cur, s', n) {}
    assert Processed(descs, cur, s', root, now);
  }

  /** The saved row with its recomputed conditions is the processed one, and only it can have moved. */
  lemma SoftDeleted(descs: Descriptors, cur: State, s': State, root: Id, now: Time, outcome: Option<Started>)
    requires root in cur.rows && (Required(descs, cur.rows[root].kind) != [] || HasChild(cur, root))
    requires HasChild(cur, root) == HasChild(s', root)
    requires var row := Marked(cur.rows[root], now).(updatedTime := now);
             s' == State(cur.rows[root := row], WithoutSource(cur.refs, root), cur.statuses,
                         cur.conditions[root := FreshConditions(descs, row, ReportsOf(cur, root),
                                                                ConditionsOf(cur, root), HasChild(s', root))],
                         cur.issued)
    requires outcome.Some? <==> NotReconciledIn(ConditionsOf(s', root)) && !NotReconciledIn(ConditionsOf(cur, root))
    requires outcome.Some? ==> outcome.value == (cur.rows[root].kind, true)
    ensures TreeDeleted(descs, cur, s', {root}, now) && OutcomesMatch(ListOf(outcome), cur, s')
  {
    RootProcessed(descs, cur, s', root, now, s'.conditions[root]);
    OneRowMoved(cur, s', root, outcome);
  }

  // ---------------------------------------------------------------------------------------
  // ForceDelete, step by step
  // ---------------------------------------------------------------------------------------

  lemma CollectRoom(descs: Descriptors, s: State, parent: Id, c: Id, room: nat)
    requires AllRooted(descs) && KeysOk(descs, s) && IsChild(s, parent, c)
    requires DepthBound(descs, descs.Keys) <= DepthOf(descs, s, parent) + room
    ensures room > 0 && DepthBound(descs, descs.Keys) <= DepthOf(descs, s, c) + room - 1
  {
    assert OwnedProperly(descs, s, c);
    OwnerIsShallower(descs, s, c);
  }

  /** The groups of the query are exactly the affected sources and types. */
  lemma MinimumsFromCounts(
    descs: Descriptors, s: State, doomed: set<Id>, counts: seq<ExternalReferenceCount>, err: Option<Error>)
    requires forall c :: c in counts ==> Counts(s, doomed, c)
    requires forall r :: r in s.refs && Affected(s, doomed, r.source, r.refType) ==>
               exists c :: c in counts && c.source == r.source && c.refType == r.refType
    requires err.None? ==> forall c :: c in counts ==> KeepsMinimum(descs, s, doomed, c.source, c.refType)
    requires err.Some? ==> exists c ::
               c in counts && !KeepsMinimum(descs, s, doomed, c.source, c.refType) &&
               err.value == if Declared(descs, s, c.source, c.refType) then ConflictState else General
    ensures err.None? <==> MinimumsKept(descs, s, doomed)
    ensures err.Some? ==>
              exists r :: r in s.refs && Affected(s, doomed, r.source, r.refType) &&
                          !KeepsMinimum(descs, s, doomed, r.source, r.refType) &&
                          err.value == if Declared(descs, s, r.source, r.refType) then ConflictState else General
  {
    if err.Some? {
      var c :| c in counts && !KeepsMinimum(descs, s, doomed, c.source, c.refType) &&
               err.value == if Declared(descs, s, c.source, c.refType) then ConflictState else General;
      assert Counts(s, doomed, c);
      var r :| r in s.refs && r.source == c.source && r.refType == c.refType && r.target in doomed;
      assert Affected(s, doomed, r.source, r.refType);
    }
  }

  lemma PurgeMovesNothing(s: State, doomed: set<Id>, m: Metrics)
    ensures Counted(s, Purged(s, doomed), m, m)
  {
    forall kind, deleting ensures MoveSet(s, Purged(s, doomed), kind, deleting) == {} {}
  }
}
