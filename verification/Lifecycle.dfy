/**
 * The public mutations as transitions of the tables. Create, Patch, ProcessAdapterStatus and
 * ForceDelete are functions; Delete is a relation, because the order in which a cascade
 * visits kinds is not fixed and decides whether references inside the tree block it.
 */
module Lifecycle {
  import opened Common
  import opened Registry
  import opened Conditions
  import opened AggregationLaws
  import opened Delivery
  import opened Tables

  datatype Error = Validation | NotFound | ConflictState | Conflict | General

  type Outcome = Result<State, Error>

  /** One supplied reference: the id may be missing, and the client names a kind. */
  datatype ObjectRef = ObjectRef(id: Option<Id>, kind: Kind)

  type ReferenceMap = map<string, seq<ObjectRef>>

  // ---------------------------------------------------------------------------------------
  // References
  // ---------------------------------------------------------------------------------------

  function Supplied(refs: ReferenceMap, refType: string): seq<ObjectRef> {
    if refType in refs then refs[refType] else []
  }

  /** The supplied references of one type are acceptable for descriptor `rd`: bounded, distinct, and at live targets. */
  ghost predicate TypeAcceptable(s: State, rd: ReferenceDescriptor, objs: seq<ObjectRef>) {
    && (rd.max > 0 ==> |objs| <= rd.max)
    && (forall i :: 0 <= i < |objs| ==>
          objs[i].id.Some? && objs[i].kind == rd.targetKind &&
          Live(s, objs[i].id.value) && s.rows[objs[i].id.value].kind == rd.targetKind)
    && (forall i, j :: 0 <= i < j < |objs| ==> objs[i].id != objs[j].id)
  }

  ghost predicate ReferencesAcceptable(descs: Descriptors, s: State, kind: Kind, refs: ReferenceMap)
    requires kind in descs
  {
    && (forall rd :: rd in descs[kind].references && rd.min > 0 ==> |Supplied(refs, rd.refType)| >= rd.min)
    && (forall t :: t in refs ==>
          var rd := FindReference(descs[kind].references, t);
          rd.Some? && TypeAcceptable(s, rd.value, refs[t]))
  }

  /** The rows stored for the supplied references; the target kind is the registry's. */
  function ReferenceRows(descs: Descriptors, kind: Kind, source: Id, refs: ReferenceMap): set<Reference>
    requires kind in descs
  {
    set t, i | t in refs && 0 <= i < |refs[t]| && refs[t][i].id.Some? ::
      Reference(source, t, refs[t][i].id.value, TargetKind(descs, kind, t))
  }

  function TargetKind(descs: Descriptors, kind: Kind, refType: string): Kind
    requires kind in descs
  {
    var rd := FindReference(descs[kind].references, refType);
    if rd.Some? then rd.value.targetKind else NoKind
  }

  function WithoutSource(refs: set<Reference>, source: Id): set<Reference> {
    set r | r in refs && r.source != source
  }

  // ---------------------------------------------------------------------------------------
  // Create and Patch
  // ---------------------------------------------------------------------------------------

  predicate NameTaken(s: State, kind: Kind, owner: Option<Id>, name: string) {
    exists id :: id in s.rows && Live(s, id) && s.rows[id].kind == kind && s.rows[id].owner == owner &&
      s.rows[id].name == name
  }

  function NewRow(
    kind: Kind, name: string, owner: Option<Id>, spec: string, labels: map<string, string>, now: Time): Row {
    Row(kind, name, owner, None, 1, now, now, spec, labels)
  }

  function Recomputed(descs: Descriptors, s: State, id: Id): State
    requires id in s.rows
  {
    s.(conditions := s.conditions[id := FreshConditions(
      descs, s.rows[id], ReportsOf(s, id), ConditionsOf(s, id), Deleting(s, id) && HasChild(s, id))])
  }

  /** Conditions are kept up on create and patch only for kinds with required adapters. */
  function RecomputedIfRequired(descs: Descriptors, s: State, id: Id): State
    requires id in s.rows
  {
    if Required(descs, s.rows[id].kind) != [] then Recomputed(descs, s, id) else s
  }

  /** The tables once the new row and its references are inserted. */
  function SavedNew(
    descs: Descriptors, s: State, kind: Kind, name: string, owner: Option<Id>, refs: ReferenceMap,
    spec: string, labels: map<string, string>, id: Id, now: Time): State
    requires kind in descs
  {
    s.(rows := s.rows[id := NewRow(kind, name, owner, spec, labels, now)],
       refs := s.refs + ReferenceRows(descs, kind, id, refs), issued := s.issued + {id})
  }

  function Created(
    descs: Descriptors, s: State, kind: Kind, name: string, owner: Option<Id>, refs: ReferenceMap,
    spec: string, labels: map<string, string>, id: Id, now: Time): State
    requires kind in descs
  {
    RecomputedIfRequired(descs, SavedNew(descs, s, kind, name, owner, refs, spec, labels, id, now), id)
  }

  ghost function CreateStep(
    descs: Descriptors, s: State, kind: Kind, name: string, owner: Option<Id>, refs: ReferenceMap,
    spec: string, labels: map<string, string>, id: Id, now: Time): Outcome
  {
    if kind !in descs || name == "" then Err(Validation)
    else if owner.Some? && !(owner.value in s.rows && s.rows[owner.value].kind == descs[kind].parentKind)
      then Err(NotFound)
    else if owner.Some? && Deleting(s, owner.value) then Err(ConflictState)
    else if !ReferencesAcceptable(descs, s, kind, refs) then Err(Validation)
    else if NameTaken(s, kind, owner, name) then Err(Conflict)
    else Ok(Created(descs, s, kind, name, owner, refs, spec, labels, id, now))
  }

  datatype Patch = Patch(spec: Option<string>, labels: Option<map<string, string>>, references: Option<ReferenceMap>)

  /** The row is addressed by kind and id, and through its owner when `scope` names one. */
  predicate Found(descs: Descriptors, s: State, kind: Kind, id: Id, scope: Option<Id>) {
    && kind in descs && id in s.rows && s.rows[id].kind == kind
    && (scope.Some? ==>
          s.rows[id].owner == scope && scope.value in s.rows && s.rows[scope.value].kind == descs[kind].parentKind)
  }

  /** `validateWriteKind`: an owner-scoped write needs a kind that has a parent. */
  predicate WriteKindOk(descs: Descriptors, kind: Kind, scope: Option<Id>) {
    kind in descs && (scope.Some? ==> descs[kind].parentKind != NoKind)
  }

  function PatchedRow(row: Row, patch: Patch): Row {
    row.(spec := if patch.spec.Some? then patch.spec.value else row.spec,
         labels := if patch.labels.Some? then patch.labels.value else row.labels)
  }

  function PatchedReferences(descs: Descriptors, s: State, id: Id, patch: Patch): set<Reference>
    requires id in s.rows && s.rows[id].kind in descs
  {
    if patch.references.None? then s.refs
    else WithoutSource(s.refs, id) + ReferenceRows(descs, s.rows[id].kind, id, patch.references.value)
  }

  /** The tables once the patched row and its references are written. */
  function SavedPatch(descs: Descriptors, s: State, id: Id, patch: Patch, now: Time): State
    requires id in s.rows && s.rows[id].kind in descs
  {
    var row := PatchedRow(s.rows[id], patch);
    s.(rows := s.rows[id := row.(generation := row.generation + 1, updatedTime := now)],
       refs := PatchedReferences(descs, s, id, patch))
  }

  function Patched(descs: Descriptors, s: State, id: Id, patch: Patch, now: Time): State
    requires id in s.rows && s.rows[id].kind in descs
  {
    if PatchedRow(s.rows[id], patch) == s.rows[id] && patch.references.None? then s
    else RecomputedIfRequired(descs, SavedPatch(descs, s, id, patch, now), id)
  }

  ghost function PatchStep(
    descs: Descriptors, s: State, kind: Kind, id: Id, scope: Option<Id>, patch: Patch, now: Time): Outcome
  {
    if !WriteKindOk(descs, kind, scope) then Err(Validation)
    else if !Found(descs, s, kind, id, scope) then Err(NotFound)
    else if Deleting(s, id) then Err(ConflictState)
    else if patch.references.Some? && !ReferencesAcceptable(descs, s, kind, patch.references.value) then Err(Validation)
    else Ok(Patched(descs, s, id, patch, now))
  }

  // ---------------------------------------------------------------------------------------
  // ProcessAdapterStatus
  // ---------------------------------------------------------------------------------------

  predicate AllRowsFinalized(required: seq<string>, reports: Reports, gen: int) {
    forall name :: name in required ==>
      name in reports && reports[name].observedGeneration == gen && ReportsFinalized(reports[name].conditions)
  }

  /** The row is gone with its references and conditions, as the foreign keys have it; the reports stay. */
  function WithoutRow(s: State, id: Id): State {
    s.(rows := s.rows - {id}, refs := WithoutSource(s.refs, id), conditions := s.conditions - {id})
  }

  /** The row and everything stored under it is gone; its references go with it. */
  function Removed(s: State, id: Id): State {
    s.(rows := s.rows - {id}, refs := WithoutSource(s.refs, id),
       statuses := s.statuses - {id}, conditions := s.conditions - {id})
  }

  /** The report makes the last required adapter final on a deleting resource without children. */
  predicate CompletesDeletion(descs: Descriptors, s: State, id: Id, report: AdapterStatus, reports: Reports)
    requires id in s.rows
  {
    && Deleting(s, id) && ReportsFinalized(report.conditions)
    && AllRowsFinalized(Required(descs, s.rows[id].kind), reports, s.rows[id].generation)
    && !HasChild(s, id)
  }

  function Reported(descs: Descriptors, s: State, id: Id, report: AdapterStatus): State
    requires id in s.rows
  {
    var decision := Classify(s.rows[id].generation, Arrived(report), Lookup(ReportsOf(s, id), report.adapter));
    if !decision.Accepted? then s
    else
      var reports := Deliver(s.rows[id].generation, ReportsOf(s, id), report);
      var stored := s.(statuses := s.statuses[id := reports]);
      if CompletesDeletion(descs, s, id, report, reports) then Removed(s, id)
      else if decision.aggregate then Recomputed(descs, stored, id)
      else stored
  }

  ghost function ReportStep(descs: Descriptors, s: State, kind: Kind, id: Id, report: AdapterStatus): Outcome {
    if kind !in descs then Err(Validation)
    else if !Found(descs, s, kind, id, None) then Err(NotFound)
    else if Classify(s.rows[id].generation, Arrived(report), Lookup(ReportsOf(s, id), report.adapter)).Refused?
      then Err(Validation)
    else Ok(Reported(descs, s, id, report))
  }

  // ---------------------------------------------------------------------------------------
  // Delete
  // ---------------------------------------------------------------------------------------

  function Marked(row: Row, now: Time): Row {
    if row.deletedTime.Some? then row
    else row.(deletedTime := Some(TruncateToMicrosecond(now)), generation := row.generation + 1)
  }

  /** A node of the cascade after the delete: kept while it has required adapters or children, marked and recomputed. */
  ghost predicate Processed(descs: Descriptors, before: State, after: State, n: Id, now: Time)
    requires n in before.rows
  {
    && (n in after.rows <==> Required(descs, before.rows[n].kind) != [] || HasChild(after, n))
    && (n in after.rows ==>
          && after.rows[n] == Marked(before.rows[n], now).(updatedTime := now)
          && n in after.conditions
          && after.conditions[n] == FreshConditions(descs, after.rows[n], ReportsOf(before, n),
                                                    ConditionsOf(before, n), HasChild(after, n)))
    && (n !in after.rows ==> n !in after.conditions)
  }

  ghost predicate Untouched(before: State, after: State, n: Id) {
    && (n in after.rows <==> n in before.rows)
    && (n in after.rows ==> after.rows[n] == before.rows[n])
    && (n in after.conditions <==> n in before.conditions)
    && (n in after.conditions ==> after.conditions[n] == before.conditions[n])
  }

  /** A live child that restricts the delete of a node in `tree`. */
  ghost predicate Restricts(descs: Descriptors, s: State, tree: set<Id>, c: Id) {
    && c in s.rows && s.rows[c].owner.Some? && s.rows[c].owner.value in tree && s.rows[c].deletedTime.None?
    && s.rows[c].kind in descs && descs[s.rows[c].kind].onParentDelete == Restrict
  }

  ghost predicate NoRestriction(descs: Descriptors, s: State, tree: set<Id>) {
    forall c :: c in s.rows ==> !Restricts(descs, s, tree, c)
  }

  /** For each owner, the turns in which a delete takes the kinds of its children: an iteration over a Go map. */
  type Order = (Id, Kind) -> nat

  /** No two kinds have the same turn. */
  ghost predicate Iterates(order: Order) {
    forall p, k, l :: k != l ==> order(p, k) != order(p, l)
  }

  /** Of two children of one owner, `a` is deleted before `b`: by the turns of their kinds, within a kind by id. */
  ghost predicate VisitedBefore(s: State, order: Order, a: Id, b: Id) {
    && a in s.rows && b in s.rows && s.rows[a].owner.Some? && s.rows[a].owner == s.rows[b].owner
    && if s.rows[a].kind == s.rows[b].kind then a < b
       else order(s.rows[a].owner.value, s.rows[a].kind) < order(s.rows[a].owner.value, s.rows[b].kind)
  }

  /** `x` is deleted before `y`: it hangs below `y`, or in a branch that is deleted before the branch of `y`. */
  ghost predicate Precedes(descs: Descriptors, s: State, order: Order, x: Id, y: Id)
    requires AllRooted(descs)
  {
    && x != y
    && (|| Reaches(descs, s, y, x, true)
        || exists a, b ::
             VisitedBefore(s, order, a, b) && Reaches(descs, s, a, x, true) && Reaches(descs, s, b, y, true))
  }

  /** A reference is gone when its target is deleted: its source is in the cascade and is deleted before. */
  ghost predicate GoneInTime(descs: Descriptors, s: State, order: Order, tree: set<Id>, r: Reference)
    requires AllRooted(descs)
  {
    r.source in tree && Precedes(descs, s, order, r.source, r.target)
  }

  ghost predicate ReferencesYield(descs: Descriptors, s: State, order: Order, tree: set<Id>)
    requires AllRooted(descs)
  {
    forall r :: r in s.refs && r.target in tree ==> GoneInTime(descs, s, order, tree, r)
  }

  /** What stands in the way of a delete of `root`: a restriction, or a reference that is not gone in time. */
  ghost predicate Blocked(descs: Descriptors, s: State, order: Order, root: Id)
    requires AllRooted(descs)
  {
    var tree := CascadeTree(descs, s, root);
    !NoRestriction(descs, s, tree) || !ReferencesYield(descs, s, order, tree)
  }

  /** `s'` is `s` after the successful delete of `root`. */
  ghost predicate Deleted(descs: Descriptors, s: State, s': State, order: Order, root: Id, now: Time)
    requires AllRooted(descs)
  {
    !Blocked(descs, s, order, root) && TreeDeleted(descs, s, s', CascadeTree(descs, s, root), now)
  }

  /** The tables after a successful delete whose cascade is `tree`. */
  ghost predicate TreeDeleted(descs: Descriptors, s: State, s': State, tree: set<Id>, now: Time)
    requires tree <= s.rows.Keys
  {
    && s'.issued == s.issued && s'.statuses == s.statuses
    && s'.refs == (set r | r in s.refs && r.source !in tree)
    && (forall n :: n !in tree ==> Untouched(s, s', n))
    && (forall n :: n in tree ==> Processed(descs, s, s', n, now))
  }

  /** A delete under given turns conflicts exactly when something stands in its way. */
  ghost predicate DeleteInOrder(
    descs: Descriptors, s: State, order: Order, kind: Kind, id: Id, scope: Option<Id>, now: Time, outcome: Outcome)
    requires AllRooted(descs)
  {
    if !WriteKindOk(descs, kind, scope) then outcome == Err(Validation)
    else if !Found(descs, s, kind, id, scope) then outcome == Err(NotFound)
    else if Blocked(descs, s, order, id) then outcome == Err(ConflictState)
    else outcome.Ok? && Deleted(descs, s, outcome.value, order, id, now)
  }

  /** A delete, whatever turns the iterations over the map take. */
  ghost predicate DeleteStep(
    descs: Descriptors, s: State, kind: Kind, id: Id, scope: Option<Id>, now: Time, outcome: Outcome)
    requires AllRooted(descs)
  {
    exists order :: Iterates(order) && DeleteInOrder(descs, s, order, kind, id, scope, now, outcome)
  }

  // ---------------------------------------------------------------------------------------
  // ForceDelete
  // ---------------------------------------------------------------------------------------

  /** A surviving source loses references of a type because of the deletion of `doomed`. */
  ghost predicate Affected(s: State, doomed: set<Id>, source: Id, refType: string) {
    source !in doomed && exists r :: r in s.refs && r.source == source && r.refType == refType && r.target in doomed
  }

  function Remaining(s: State, doomed: set<Id>, source: Id, refType: string): set<Reference> {
    set r | r in RefsOf(s, source, refType) && r.target !in doomed
  }

  /** The registry declares this reference type for the kind of the source. */
  ghost predicate Declared(descs: Descriptors, s: State, source: Id, refType: string) {
    && source in s.rows && s.rows[source].kind in descs
    && FindReference(descs[s.rows[source].kind].references, refType).Some?
  }

  ghost predicate KeepsMinimum(descs: Descriptors, s: State, doomed: set<Id>, source: Id, refType: string) {
    && Declared(descs, s, source, refType)
    && |Remaining(s, doomed, source, refType)| >=
       FindReference(descs[s.rows[source].kind].references, refType).value.min
  }

  ghost predicate MinimumsKept(descs: Descriptors, s: State, doomed: set<Id>) {
    forall r :: r in s.refs && Affected(s, doomed, r.source, r.refType) ==>
      KeepsMinimum(descs, s, doomed, r.source, r.refType)
  }

  /** Exactly the doomed rows, all that is stored under them, and every reference touching them are gone. */
  function Purged(s: State, doomed: set<Id>): State {
    s.(rows := s.rows - doomed,
       refs := (set r | r in s.refs && r.source !in doomed && r.target !in doomed),
       statuses := s.statuses - doomed, conditions := s.conditions - doomed)
  }

  ghost predicate ForceDeleteStep(
    descs: Descriptors, s: State, kind: Kind, id: Id, scope: Option<Id>, outcome: Outcome)
    requires AllRooted(descs)
  {
    if !WriteKindOk(descs, kind, scope) then outcome == Err(Validation)
    else if !Found(descs, s, kind, id, scope) then outcome == Err(NotFound)
    else if Live(s, id) then outcome == Err(ConflictState)
    else if MinimumsKept(descs, s, Subtree(descs, s, id)) then outcome == Ok(Purged(s, Subtree(descs, s, id)))
    else
      exists r :: r in s.refs && Affected(s, Subtree(descs, s, id), r.source, r.refType) &&
                  !KeepsMinimum(descs, s, Subtree(descs, s, id), r.source, r.refType) &&
                  outcome == Err(if Declared(descs, s, r.source, r.refType) then ConflictState else General)
  }

  // ---------------------------------------------------------------------------------------
  // Operations and the metric
  // ---------------------------------------------------------------------------------------

  datatype Op =
    | CreateOp(kind: Kind, name: string, owner: Option<Id>, refs: ReferenceMap, spec: string,
               labels: map<string, string>,
               id: Id, now: Time)
    | PatchOp(kind: Kind, id: Id, scope: Option<Id>, patch: Patch, now: Time)
    | ReportOp(kind: Kind, id: Id, report: AdapterStatus)
    | DeleteOp(kind: Kind, id: Id, scope: Option<Id>, now: Time)
    | ForceDeleteOp(kind: Kind, id: Id, scope: Option<Id>)

  /** What the surroundings supply: ids are fresh and the clock has started. */
  predicate OpOk(s: State, op: Op) {
    match op
    case CreateOp(_, _, _, _, _, _, id, now) => id !in s.issued && now != ZERO_TIME
    case PatchOp(_, _, _, _, now) => now != ZERO_TIME
    case DeleteOp(_, _, _, now) => now != ZERO_TIME
    case _ => true
  }

  ghost predicate StepOutcome(descs: Descriptors, s: State, op: Op, outcome: Outcome)
    requires AllRooted(descs)
  {
    match op
    case CreateOp(kind, name, owner, refs, spec, labels, id, now) =>
      outcome == CreateStep(descs, s, kind, name, owner, refs, spec, labels, id, now)
    case PatchOp(kind, id, scope, patch, now) => outcome == PatchStep(descs, s, kind, id, scope, patch, now)
    case ReportOp(kind, id, report) => outcome == ReportStep(descs, s, kind, id, report)
    case DeleteOp(kind, id, scope, now) => DeleteStep(descs, s, kind, id, scope, now, outcome)
    case ForceDeleteOp(kind, id, scope) => ForceDeleteStep(descs, s, kind, id, scope, outcome)
  }

  /** A transaction that fails leaves the tables as they were. */
  function AfterOutcome(s: State, outcome: Outcome): State {
    if outcome.Ok? then outcome.value else s
  }

  ghost predicate Step(descs: Descriptors, s: State, op: Op, s': State)
    requires AllRooted(descs)
  {
    OpOk(s, op) && exists outcome :: StepOutcome(descs, s, op, outcome) && s' == AfterOutcome(s, outcome)
  }

  type Metrics = map<(Kind, bool), nat>

  function Count(m: Metrics, kind: Kind, deleting: bool): nat {
    if (kind, deleting) in m then m[(kind, deleting)] else 0
  }

  predicate NotReconciled(s: State, id: Id) {
    ReconciledOf(s, id).Some? && ReconciledOf(s, id).value.status == CondFalse
  }

  /** The stored Reconciled of `id` moved from absent or True to False. */
  predicate Moved(s: State, s': State, id: Id) {
    id in s'.rows && NotReconciled(s', id) && !NotReconciled(s, id)
  }

  function MoveSet(s: State, s': State, kind: Kind, deleting: bool): set<Id> {
    set id | id in s'.rows && Moved(s, s', id) && s'.rows[id].kind == kind && s'.rows[id].deletedTime.Some? == deleting
  }

  /** The reconciliation-started counters after a committed step from `s` to `s'`. */
  ghost predicate Counted(s: State, s': State, m: Metrics, m': Metrics) {
    forall kind, deleting :: Count(m', kind, deleting) == Count(m, kind, deleting) + |MoveSet(s, s', kind, deleting)|
  }
}
