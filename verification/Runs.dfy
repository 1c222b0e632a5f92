/** Properties of whole runs: every reachable state, and what must have happened before. */
module Runs {
  import opened Common
  import opened Registry
  import opened Conditions
  import opened Aggregation
  import opened AggregationLaws
  import opened Delivery
  import opened Tables
  import opened Lifecycle
  import opened Invariants
  import opened Preservation

  /** `states[i]` is what `ops[i]` finds and `states[i + 1]` what it leaves. */
  ghost predicate StepAt(descs: Descriptors, ops: seq<Op>, states: seq<State>, i: nat)
    requires AllRooted(descs) && i < |ops| && |states| == |ops| + 1
  {
    Step(descs, states[i], ops[i], states[i + 1])
  }

  /** A run from the empty database. */
  ghost predicate IsRun(descs: Descriptors, ops: seq<Op>, states: seq<State>)
    requires AllRooted(descs)
  {
    && |states| == |ops| + 1 && states[0] == EMPTY
    && forall i {:trigger StepAt(descs, ops, states, i)} :: 0 <= i < |ops| ==> StepAt(descs, ops, states, i)
  }

  /** Safety: the forest, the references, the reports, the view and the names are in order in every reachable state. */
  lemma {:induction false} ReachableOk(descs: Descriptors, ops: seq<Op>, states: seq<State>, i: nat)
    requires RegistryOk(descs) && IsRun(descs, ops, states) && i < |states|
    ensures Inv(descs, states[i])
  {
    if i == 0 {
      EmptyOk(descs);
    } else {
      ReachableOk(descs, ops, states, i - 1);
      assert StepAt(descs, ops, states, i - 1);
      StepKeeps(descs, states[i - 1], ops[i - 1], states[i]);
    }
  }

  lemma RunStep(descs: Descriptors, ops: seq<Op>, states: seq<State>, i: nat)
    requires RegistryOk(descs) && IsRun(descs, ops, states) && i < |ops|
    ensures i + 1 < |states| && Inv(descs, states[i]) && Inv(descs, states[i + 1]) &&
            Step(descs, states[i], ops[i], states[i + 1])
  {
    ReachableOk(descs, ops, states, i);
    ReachableOk(descs, ops, states, i + 1);
    assert StepAt(descs, ops, states, i);
  }

  // ---------------------------------------------------------------------------------------
  // How one step moves one resource
  // ---------------------------------------------------------------------------------------

  /** Identity is kept; a deletion mark is never taken back, bumps the generation once, and freezes it. */
  ghost predicate RowEvolves(s: State, s': State, id: Id)
    requires id in s.rows && id in s'.rows
  {
    var old_, new_ := s.rows[id], s'.rows[id];
    && new_.kind == old_.kind && new_.owner == old_.owner && new_.name == old_.name
    && (old_.deletedTime.Some? ==> new_.deletedTime == old_.deletedTime && new_.generation == old_.generation)
    && (old_.deletedTime.None? && new_.deletedTime.Some? ==> new_.generation == old_.generation + 1)
    && (new_.deletedTime.None? ==> old_.generation <= new_.generation <= old_.generation + 1)
  }

  /** Stored conditions are left alone or recomputed from the new row, the new reports and the old conditions. */
  ghost predicate ConditionsEvolve(descs: Descriptors, s: State, s': State, id: Id)
    requires id in s'.rows
  {
    || ConditionsOf(s', id) == ConditionsOf(s, id)
    || ConditionsOf(s', id) == FreshConditions(descs, s'.rows[id], ReportsOf(s', id), ConditionsOf(s, id),
                                               Deleting(s', id) && HasChild(s', id))
  }

  /** Stored reports are left alone or take in one report; a deletion mark is not set in the same step. */
  ghost predicate ReportsEvolve(s: State, op: Op, s': State, id: Id)
    requires id in s.rows && id in s'.rows
  {
    || ReportsOf(s', id) == ReportsOf(s, id)
    || (&& op.ReportOp? && op.id == id && s'.rows[id] == s.rows[id]
        && ReportsOf(s', id) == Deliver(s.rows[id].generation, ReportsOf(s, id), op.report))
  }

  ghost predicate Evolves(descs: Descriptors, s: State, op: Op, s': State, id: Id)
    requires id in s'.rows
  {
    && (id in s.rows ==> RowEvolves(s, s', id) && ReportsEvolve(s, op, s', id))
    && (id !in s.rows ==> Live(s', id) && id !in s.issued && ReportsOf(s', id) == map[])
    && ConditionsEvolve(descs, s, s', id)
  }

  /** A row that a step leaves alone. */
  lemma UntouchedEvolves(descs: Descriptors, s: State, op: Op, s': State, id: Id)
    requires Untouched(s, s', id) && ReportsOf(s', id) == ReportsOf(s, id) && id in s'.rows
    ensures Evolves(descs, s, op, s', id)
  {
  }

  lemma CreateEvolves(descs: Descriptors, s: State, op: Op, s': State, id: Id)
    requires AllRooted(descs) && Inv(descs, s) && op.CreateOp? && OpOk(s, op) && StepOutcome(descs, s, op, Ok(s'))
    requires id in s'.rows
    ensures Evolves(descs, s, op, s', id)
  {
    CreateOutcome(descs, s, op, s');
    CreatedEvolves(descs, s, op, s', id);
  }

  lemma CreateOutcome(descs: Descriptors, s: State, op: Op, s': State)
    requires AllRooted(descs) && op.CreateOp? && StepOutcome(descs, s, op, Ok(s'))
    ensures op.kind in descs &&
            s' == Created(descs, s, op.kind, op.name, op.owner, op.refs, op.spec, op.labels, op.id, op.now)
  {
  }

  lemma NewRowEvolves(descs: Descriptors, s: State, op: Op, s': State, row: Row)
    requires op.CreateOp? && op.id !in s.rows && op.id !in s.issued && op.id !in s.statuses && op.id !in s.conditions
    requires op.id in s'.rows && s'.rows[op.id] == row && row.deletedTime.None? && row.kind == op.kind &&
             s'.statuses == s.statuses
    requires s'.conditions == if Required(descs, op.kind) == [] then s.conditions
               else s.conditions[op.id := FreshConditions(descs, row, map[], map[], false)]
    ensures Evolves(descs, s, op, s', op.id)
  {
  }

  lemma CreatedEvolves(descs: Descriptors, s: State, op: Op, s': State, id: Id)
    requires AllRooted(descs) && Inv(descs, s) && op.CreateOp? && op.id !in s.issued && op.kind in descs &&
             id in s'.rows
    requires s' == Created(descs, s, op.kind, op.name, op.owner, op.refs, op.spec, op.labels, op.id, op.now)
    ensures Evolves(descs, s, op, s', id)
  {
    NewIdUnused(descs, s, op.id);
    CreatedShape(descs, s, op.kind, op.name, op.owner, op.refs, op.spec, op.labels, op.id, op.now);
    if id == op.id {
      NewRowEvolves(descs, s, op, s', NewRow(op.kind, op.name, op.owner, op.spec, op.labels, op.now));
    } else {
      UntouchedEvolves(descs, s, op, s', id);
    }
  }

  lemma PatchEvolves(descs: Descriptors, s: State, op: Op, s': State, id: Id)
    requires AllRooted(descs) && Inv(descs, s) && op.PatchOp? && OpOk(s, op) && StepOutcome(descs, s, op, Ok(s'))
    requires id in s'.rows
    ensures Evolves(descs, s, op, s', id)
  {
    PatchOutcome(descs, s, op, s');
    PatchedEvolves(descs, s, op, s', id);
  }

  lemma PatchOutcome(descs: Descriptors, s: State, op: Op, s': State)
    requires AllRooted(descs) && op.PatchOp? && StepOutcome(descs, s, op, Ok(s'))
    ensures Live(s, op.id) && s.rows[op.id].kind in descs && s' == Patched(descs, s, op.id, op.patch, op.now)
  {
  }

  lemma PatchedEvolves(descs: Descriptors, s: State, op: Op, s': State, id: Id)
    requires AllRooted(descs) && Inv(descs, s) && op.PatchOp? && op.now != ZERO_TIME && id in s'.rows
    requires Live(s, op.id) && s.rows[op.id].kind in descs && s' == Patched(descs, s, op.id, op.patch, op.now)
    ensures Evolves(descs, s, op, s', id)
  {
    if s' != s && id == op.id {
      PatchedSelfEvolves(descs, s, id, op.patch, op.now);
    } else {
      PatchedShape(descs, s, op.id, op.patch, op.now);
      UntouchedEvolves(descs, s, op, s', id);
    }
  }

  lemma PatchedSelfEvolves(descs: Descriptors, s: State, id: Id, patch: Patch, now: Time)
    requires Live(s, id) && s.rows[id].kind in descs && now != ZERO_TIME && Patched(descs, s, id, patch, now) != s
    ensures var s' := Patched(descs, s, id, patch, now);
            RowEvolves(s, s', id) && ReportsOf(s', id) == ReportsOf(s, id) && ConditionsEvolve(descs, s, s', id)
  {
    SavedShape(descs, s, id, patch, now);
    RecomputedShape(descs, SavedPatch(descs, s, id, patch, now), id);
  }

  lemma ReportEvolves(descs: Descriptors, s: State, op: Op, s': State, id: Id)
    requires AllRooted(descs) && op.ReportOp? && StepOutcome(descs, s, op, Ok(s'))
    requires id in s'.rows
    ensures Evolves(descs, s, op, s', id)
  {
    ReportOutcome(descs, s, op, s');
    if id != op.id {
      ReportedElsewhere(descs, s, op.id, op.report, id);
      UntouchedEvolves(descs, s, op, s', id);
    } else {
      ReportedSelfEvolves(descs, s, id, op.report);
    }
  }

  lemma ReportOutcome(descs: Descriptors, s: State, op: Op, s': State)
    requires AllRooted(descs) && op.ReportOp? && StepOutcome(descs, s, op, Ok(s'))
    ensures op.id in s.rows && s' == Reported(descs, s, op.id, op.report)
  {
  }

  lemma ReportedElsewhere(descs: Descriptors, s: State, id: Id, report: AdapterStatus, n: Id)
    requires id in s.rows && n != id
    ensures var s' := Reported(descs, s, id, report); Untouched(s, s', n) && ReportsOf(s', n) == ReportsOf(s, n)
  {
  }

  lemma ReportedSelfEvolves(descs: Descriptors, s: State, id: Id, report: AdapterStatus)
    requires id in s.rows
    ensures var s' := Reported(descs, s, id, report);
            id in s'.rows ==>
              && s'.rows == s.rows
              && (s' == s || ReportsOf(s', id) == Deliver(s.rows[id].generation, ReportsOf(s, id), report))
              && ConditionsEvolve(descs, s, s', id)
  {
    var stored := s.(statuses := s.statuses[id := Deliver(s.rows[id].generation, ReportsOf(s, id), report)]);
    RecomputedEvolves(descs, s, stored, id);
    var s' := Reported(descs, s, id, report);
    assert s' == s || s' == stored || s' == Recomputed(descs, stored, id) || s' == Removed(s, id);
  }

  lemma RecomputedEvolves(descs: Descriptors, s: State, stored: State, id: Id)
    requires id in s.rows && stored.rows == s.rows && stored.conditions == s.conditions
    ensures ConditionsEvolve(descs, s, stored, id) && ConditionsEvolve(descs, s, Recomputed(descs, stored, id), id)
    ensures Recomputed(descs, stored, id).statuses == stored.statuses && Recomputed(descs, stored, id).rows == s.rows
  {
    HasChildSame(stored, Recomputed(descs, stored, id), id);
  }

  lemma DeleteEvolves(descs: Descriptors, s: State, op: Op, s': State, id: Id)
    requires AllRooted(descs) && op.DeleteOp? && StepOutcome(descs, s, op, Ok(s'))
    requires id in s'.rows
    ensures Evolves(descs, s, op, s', id)
  {
    var tree := CascadeTree(descs, s, op.id);
    if id in tree { assert Processed(descs, s, s', id, op.now); } else { assert Untouched(s, s', id); }
  }

  lemma StepEvolves(descs: Descriptors, s: State, op: Op, s': State, id: Id)
    requires RegistryOk(descs) && Inv(descs, s) && Step(descs, s, op, s') && id in s'.rows
    ensures Evolves(descs, s, op, s', id)
  {
    var outcome :| StepOutcome(descs, s, op, outcome) && s' == AfterOutcome(s, outcome);
    if outcome.Ok? {
      match op
      case CreateOp(_, _, _, _, _, _, _, _) => CreateEvolves(descs, s, op, s', id);
      case PatchOp(_, _, _, _, _) => PatchEvolves(descs, s, op, s', id);
      case ReportOp(_, _, _) => ReportEvolves(descs, s, op, s', id);
      case DeleteOp(_, _, _, _) => DeleteEvolves(descs, s, op, s', id);
      case ForceDeleteOp(_, _, _) =>
    }
  }

  // ---------------------------------------------------------------------------------------
  // The witness of LastKnownReconciled
  // ---------------------------------------------------------------------------------------

  ghost predicate KnownAt(s: State, id: Id, g: int) {
    LastKnownOf(s, id).Some? && LastKnownOf(s, id).value.status == CondTrue &&
    LastKnownOf(s, id).value.observedGeneration == g
  }

  /** In `s`, all required adapters of `id` have Available=True stored at generation `g`. */
  ghost predicate UniformIn(descs: Descriptors, s: State, id: Id, g: int) {
    id in s.rows &&
    UniformlyAvailable(Required(descs, s.rows[id].kind), SnapshotsFor(descs, s.rows[id], ReportsOf(s, id)), g)
  }

  lemma KnownStep(descs: Descriptors, s: State, op: Op, s': State, id: Id, g: int)
    requires RegistryOk(descs) && Inv(descs, s) && Inv(descs, s') && Step(descs, s, op, s') && id in s'.rows
    requires KnownAt(s', id, g)
    ensures UniformIn(descs, s', id, g) || (id in s.rows && KnownAt(s, id, g))
  {
    StepEvolves(descs, s, op, s', id);
    assert id in s.conditions ==> StoredOk(s, id);
    if ConditionsOf(s', id) != ConditionsOf(s, id) {
      assert RowOk(descs, s', id);
      assert id in s'.statuses ==> ReportsOk(s', id);
      RequiredTypesDistinct(descs, s'.rows[id].kind);
      FreshTable(descs, s'.rows[id], ReportsOf(s', id), ConditionsOf(s, id), Deleting(s', id) && HasChild(s', id));
      LastKnownWitness(RefTime(s'.rows[id]), LastKnownOf(s, id), Required(descs, s'.rows[id].kind),
                       SnapshotsFor(descs, s'.rows[id], ReportsOf(s', id)));
    }
  }

  lemma KnownBefore(descs: Descriptors, ops: seq<Op>, states: seq<State>, i: nat, id: Id, g: int)
    requires RegistryOk(descs) && IsRun(descs, ops, states) && i < |states|
    requires id in states[i].rows && KnownAt(states[i], id, g) && !UniformIn(descs, states[i], id, g)
    ensures i > 0 && id in states[i - 1].rows && KnownAt(states[i - 1], id, g)
  {
    assert states[0] == EMPTY;
    RunStep(descs, ops, states, i - 1);
    KnownStep(descs, states[i - 1], ops[i - 1], states[i], id, g);
  }

  /** A True LastKnownReconciled at generation g was once earned: in some state the reports stood uniformly at g. */
  lemma {:induction false} LastKnownHasWitness(
    descs: Descriptors, ops: seq<Op>, states: seq<State>, i: nat, id: Id, g: int) returns (j: nat)
    requires RegistryOk(descs) && IsRun(descs, ops, states) && i < |states|
    requires id in states[i].rows && KnownAt(states[i], id, g)
    ensures j <= i && UniformIn(descs, states[j], id, g)
  {
    j := i;
    if !UniformIn(descs, states[i], id, g) {
      KnownBefore(descs, ops, states, i, id, g);
      j := LastKnownHasWitness(descs, ops, states, i - 1, id, g);
    }
  }

  // ---------------------------------------------------------------------------------------
  // Finalization safety
  // ---------------------------------------------------------------------------------------

  /** Without force-delete, a row whose kind has required adapters goes only by the report that completes its delete. */
  lemma DisappearsByReport(descs: Descriptors, s: State, op: Op, s': State, id: Id)
    requires RegistryOk(descs) && Inv(descs, s) && Step(descs, s, op, s') && !op.ForceDeleteOp?
    requires id in s.rows && id !in s'.rows && Required(descs, s.rows[id].kind) != []
    ensures op.ReportOp? && op.id == id
    ensures CompletesDeletion(descs, s, id, op.report, Deliver(s.rows[id].generation, ReportsOf(s, id), op.report))
  {
    var outcome :| StepOutcome(descs, s, op, outcome) && s' == AfterOutcome(s, outcome);
    match op
    case CreateOp(_, _, _, _, _, _, _, _) =>
    case PatchOp(_, _, _, _, _) =>
    case ReportOp(_, _, _) =>
    case DeleteOp(_, _, _, _) =>
      var tree := CascadeTree(descs, s, op.id);
      RequiredRowsSpared(descs, s, s', tree, op.now, id);
  }

  /** A delete only marks the rows of kinds with required adapters. */
  lemma RequiredRowsSpared(descs: Descriptors, s: State, s': State, tree: set<Id>, now: Time, id: Id)
    requires tree <= s.rows.Keys && TreeDeleted(descs, s, s', tree, now)
    requires id in s.rows && Required(descs, s.rows[id].kind) != []
    ensures id in s'.rows
  {
    if id in tree { assert Processed(descs, s, s', id, now); } else { assert Untouched(s, s', id); }
  }

  /** Between the step that marked `id` and state `j` it stayed marked, at one generation. */
  ghost predicate MarkedSince(states: seq<State>, id: Id, d: nat, j: nat, g: int) {
    && d < j < |states| && Live(states[d], id)
    && forall k :: d < k <= j ==> Deleting(states[k], id) && states[k].rows[id].generation == g
  }

  /** No stored report of `id` has reached generation `g`. */
  ghost predicate ReportsBehind(s: State, id: Id, g: int) {
    forall name :: name in ReportsOf(s, id) ==> ReportsOf(s, id)[name].observedGeneration < g
  }

  /** Before a deleting resource was marked it was live, and the step that marked it left its reports behind. */
  lemma DeletingStep(descs: Descriptors, s: State, op: Op, s': State, id: Id)
    requires RegistryOk(descs) && Inv(descs, s) && Step(descs, s, op, s') && Deleting(s', id)
    ensures id in s.rows
    ensures Deleting(s, id) ==> s.rows[id].generation == s'.rows[id].generation
    ensures Live(s, id) ==> ReportsBehind(s', id, s'.rows[id].generation)
  {
    StepEvolves(descs, s, op, s', id);
    assert id in s.statuses ==> ReportsOk(s, id);
  }

  lemma StillMarked(states: seq<State>, id: Id, d: nat, j: nat, g: int)
    requires 0 < j < |states| && MarkedSince(states, id, d, j - 1, g) && Deleting(states[j], id) &&
             states[j].rows[id].generation == g
    ensures MarkedSince(states, id, d, j, g)
  {
  }

  /** A deleting resource was marked by some earlier step, which left every stored report behind its generation. */
  lemma {:induction false} MarkedOnce(descs: Descriptors, ops: seq<Op>, states: seq<State>, j: nat, id: Id)
    returns (d: nat)
    requires RegistryOk(descs) && IsRun(descs, ops, states) && j < |states| && Deleting(states[j], id)
    ensures MarkedSince(states, id, d, j, states[j].rows[id].generation)
    ensures ReportsBehind(states[d + 1], id, states[j].rows[id].generation)
  {
    MarkedBefore(descs, ops, states, j, id);
    if Live(states[j - 1], id) {
      d := j - 1;
    } else {
      d := MarkedOnce(descs, ops, states, j - 1, id);
      StillMarked(states, id, d, j, states[j].rows[id].generation);
    }
  }

  lemma MarkedBefore(descs: Descriptors, ops: seq<Op>, states: seq<State>, j: nat, id: Id)
    requires RegistryOk(descs) && IsRun(descs, ops, states) && j < |states| && Deleting(states[j], id)
    ensures j > 0 && id in states[j - 1].rows
    ensures Deleting(states[j - 1], id) ==> states[j - 1].rows[id].generation == states[j].rows[id].generation
    ensures Live(states[j - 1], id) ==> ReportsBehind(states[j], id, states[j].rows[id].generation)
  {
    assert states[0] == EMPTY;
    RunStep(descs, ops, states, j - 1);
    DeletingStep(descs, states[j - 1], ops[j - 1], states[j], id);
  }

  /** In step `k` a report of the adapter on `id` was accepted and stored, and `row` is what it stored. */
  ghost predicate AcceptedIn(ops: seq<Op>, states: seq<State>, k: nat, id: Id, name: string, row: AdapterStatus)
    requires |states| == |ops| + 1
  {
    && k < |ops| && ops[k].ReportOp? && ops[k].id == id && ops[k].report.adapter == name && id in states[k].rows
    && TakesEffect(states[k].rows[id].generation, ReportsOf(states[k], id), ops[k].report)
    && SameReport(row, Arrived(ops[k].report))
  }

  /** A delivery stores the report that takes effect, and leaves every other row as it was. */
  lemma DeliveredRow(gen: int, reports: Reports, report: AdapterStatus, name: string)
    requires name in Deliver(gen, reports, report)
    ensures || (name in reports && Deliver(gen, reports, report)[name] == reports[name])
            || (&& name == report.adapter && TakesEffect(gen, reports, report)
                && SameReport(Deliver(gen, reports, report)[name], Arrived(report)))
  {
    WithTransitionsSame(Arrived(report), Lookup(reports, report.adapter));
  }

  /** `row` is what is stored of the adapter's reports on `id`. */
  ghost predicate StoredRow(s: State, id: Id, name: string, row: AdapterStatus) {
    id in s.rows && name in ReportsOf(s, id) && ReportsOf(s, id)[name] == row
  }

  /** One step earlier the row was already stored, or the step stored it. */
  lemma StoredBefore(
    descs: Descriptors, ops: seq<Op>, states: seq<State>, i: nat, id: Id, name: string, row: AdapterStatus)
    requires RegistryOk(descs) && IsRun(descs, ops, states) && i < |ops|
    requires id in states[i].rows && StoredRow(states[i + 1], id, name, row)
    ensures StoredRow(states[i], id, name, row) || AcceptedIn(ops, states, i, id, name, row)
  {
    RunStep(descs, ops, states, i);
    StepEvolves(descs, states[i], ops[i], states[i + 1], id);
    if ReportsOf(states[i + 1], id) != ReportsOf(states[i], id) {
      DeliveredRow(states[i].rows[id].generation, ReportsOf(states[i], id), ops[i].report, name);
    }
  }

  /** In a step after `d` and before `j` the row was accepted and stored. */
  ghost predicate AcceptedBetween(
    ops: seq<Op>, states: seq<State>, d: nat, j: nat, id: Id, name: string, row: AdapterStatus)
    requires |states| == |ops| + 1
  {
    exists k {:trigger AcceptedIn(ops, states, k, id, name, row)} :: d < k < j &&
      AcceptedIn(ops, states, k, id, name, row)
  }

  /** A report at the generation of the mark is not yet stored right after the marking. */
  lemma NotAtTheMark(states: seq<State>, d: nat, j: nat, id: Id, g: int, name: string, row: AdapterStatus)
    requires MarkedSince(states, id, d, j, g) && ReportsBehind(states[d + 1], id, g)
    requires StoredRow(states[j], id, name, row) && row.observedGeneration == g
    ensures d < j - 1 && MarkedSince(states, id, d, j - 1, g) && id in states[j - 1].rows
  {
    assert j != d + 1;
  }

  /** A stored report at the generation of the mark was accepted in a step after the marking. */
  lemma {:induction false} AcceptedAfterMark(
    descs: Descriptors, ops: seq<Op>, states: seq<State>, d: nat, j: nat, id: Id, g: int, name: string,
    row: AdapterStatus)
    requires RegistryOk(descs) && IsRun(descs, ops, states) && MarkedSince(states, id, d, j, g)
    requires ReportsBehind(states[d + 1], id, g)
    requires StoredRow(states[j], id, name, row) && row.observedGeneration == g
    ensures AcceptedBetween(ops, states, d, j, id, name, row)
    decreases j
  {
    NotAtTheMark(states, d, j, id, g, name, row);
    StoredBefore(descs, ops, states, j - 1, id, name, row);
    if StoredRow(states[j - 1], id, name, row) {
      AcceptedAfterMark(descs, ops, states, d, j - 1, id, g, name, row);
    } else {
      assert AcceptedIn(ops, states, j - 1, id, name, row);
    }
  }

  /**
   * Finalization safety: when a resource of a kind with required adapters disappears in step `j`, other than by a
   * force-delete, it had been marked at some step `d`; every required adapter's report is then Finalized=True at the
   * generation of the resource, and was accepted in a step after the marking, up to and including step `j`.
   */
  lemma FinalizationSafety(descs: Descriptors, ops: seq<Op>, states: seq<State>, j: nat, id: Id) returns (d: nat)
    requires RegistryOk(descs) && IsRun(descs, ops, states) && j < |ops| && !ops[j].ForceDeleteOp?
    requires id in states[j].rows && id !in states[j + 1].rows && Required(descs, states[j].rows[id].kind) != []
    ensures d < j && Live(states[d], id) && Deleting(states[d + 1], id)
    ensures ops[j].ReportOp? && ops[j].id == id && !HasChild(states[j], id)
    ensures var g := states[j].rows[id].generation;
            var final := Deliver(g, ReportsOf(states[j], id), ops[j].report);
            forall name :: name in Required(descs, states[j].rows[id].kind) ==>
              && name in final && final[name].observedGeneration == g && ReportsFinalized(final[name].conditions)
              && AcceptedBetween(ops, states, d, j + 1, id, name, final[name])
  {
    RunStep(descs, ops, states, j);
    DisappearsByReport(descs, states[j], ops[j], states[j + 1], id);
    d := MarkedOnce(descs, ops, states, j, id);
    var g := states[j].rows[id].generation;
    var final := Deliver(g, ReportsOf(states[j], id), ops[j].report);
    forall name | name in Required(descs, states[j].rows[id].kind)
      ensures name in final && final[name].observedGeneration == g && ReportsFinalized(final[name].conditions)
      ensures AcceptedBetween(ops, states, d, j + 1, id, name, final[name])
    {
      FinalRowAccepted(descs, ops, states, d, j, id, g, name);
    }
  }

  lemma FinalRowAccepted(
    descs: Descriptors, ops: seq<Op>, states: seq<State>, d: nat, j: nat, id: Id, g: int, name: string)
    requires RegistryOk(descs) && IsRun(descs, ops, states) && MarkedSince(states, id, d, j, g) && j < |ops|
    requires ReportsBehind(states[d + 1], id, g) && ops[j].ReportOp? && ops[j].id == id
    requires var final := Deliver(g, ReportsOf(states[j], id), ops[j].report);
             name in final && final[name].observedGeneration == g
    ensures var final := Deliver(g, ReportsOf(states[j], id), ops[j].report);
            AcceptedBetween(ops, states, d, j + 1, id, name, final[name])
  {
    DeliveredRow(g, ReportsOf(states[j], id), ops[j].report, name);
    var final := Deliver(g, ReportsOf(states[j], id), ops[j].report);
    if StoredRow(states[j], id, name, final[name]) {
      AcceptedAfterMark(descs, ops, states, d, j, id, g, name, final[name]);
    } else {
      assert AcceptedIn(ops, states, j, id, name, final[name]);
    }
  }

  // ---------------------------------------------------------------------------------------
  // Timestamps
  // ---------------------------------------------------------------------------------------

  /** While a condition type stays, its creation time stays, and its transition time moves only with its status. */
  lemma TimestampsKept(descs: Descriptors, s: State, op: Op, s': State, id: Id, t: ConditionType)
    requires RegistryOk(descs) && Inv(descs, s) && Step(descs, s, op, s') && id in s.rows && id in s'.rows
    requires t in ConditionsOf(s, id) && t in ConditionsOf(s', id)
    ensures Succeeds(ConditionsOf(s, id)[t], ConditionsOf(s', id)[t])
  {
    StepEvolves(descs, s, op, s', id);
    if ConditionsOf(s', id) != ConditionsOf(s, id) {
      var row := s'.rows[id];
      assert StoredOk(s, id);
      var prev := ConditionsOf(s, id);
      var conditions :=
        AggregateOver(row.generation, RefTime(row), row.deletedTime.Some?, prev, Required(descs, row.kind),
                                      SnapshotsFor(descs, row, ReportsOf(s', id)),
                                      Deleting(s', id) && HasChild(s', id));
      ByTypeOnlyListed(conditions, t);
      assert TimesSet(prev[t]);
      AggregateSucceeds(row.generation, RefTime(row), row.deletedTime.Some?, prev, Required(descs, row.kind),
                        SnapshotsFor(descs, row, ReportsOf(s', id)), Deleting(s', id) && HasChild(s', id),
                        ConditionsOf(s', id)[t]);
    }
  }

  /** The condition `t` of `id` is stored in all states from `i` to `j`. */
  ghost predicate StoredThroughout(states: seq<State>, id: Id, t: ConditionType, i: nat, j: nat) {
    i <= j < |states| && forall k :: i <= k <= j ==> id in states[k].rows && t in ConditionsOf(states[k], id)
  }

  ghost predicate StatusUnchanged(states: seq<State>, id: Id, t: ConditionType, i: nat, j: nat)
    requires StoredThroughout(states, id, t, i, j)
  {
    forall k :: i <= k <= j ==> ConditionsOf(states[k], id)[t].status == ConditionsOf(states[i], id)[t].status
  }

  /** The creation time is the same at both ends, and so is the transition time of a status that never changed. */
  ghost predicate TimesHeld(states: seq<State>, id: Id, t: ConditionType, i: nat, j: nat)
    requires StoredThroughout(states, id, t, i, j)
  {
    var first, last := ConditionsOf(states[i], id)[t], ConditionsOf(states[j], id)[t];
    && last.createdTime == first.createdTime
    && (StatusUnchanged(states, id, t, i, j) ==> last.lastTransitionTime == first.lastTransitionTime)
  }

  lemma TimesHeldMore(states: seq<State>, id: Id, t: ConditionType, i: nat, j: nat)
    requires StoredThroughout(states, id, t, i, j) && i < j && TimesHeld(states, id, t, i, j - 1)
    requires Succeeds(ConditionsOf(states[j - 1], id)[t], ConditionsOf(states[j], id)[t])
    ensures TimesHeld(states, id, t, i, j)
  {
  }

  lemma TimestampsKeptBy(descs: Descriptors, ops: seq<Op>, states: seq<State>, id: Id, t: ConditionType, j: nat)
    requires RegistryOk(descs) && IsRun(descs, ops, states) && 0 < j < |states|
    requires id in states[j - 1].rows && t in ConditionsOf(states[j - 1], id)
    requires id in states[j].rows && t in ConditionsOf(states[j], id)
    ensures Succeeds(ConditionsOf(states[j - 1], id)[t], ConditionsOf(states[j], id)[t])
  {
    RunStep(descs, ops, states, j - 1);
    TimestampsKept(descs, states[j - 1], ops[j - 1], states[j], id, t);
  }

  /** Over every stretch of a run in which a condition stays stored. */
  lemma {:induction false} TimestampsOverRuns(
    descs: Descriptors, ops: seq<Op>, states: seq<State>, id: Id, t: ConditionType, i: nat, j: nat)
    requires RegistryOk(descs) && IsRun(descs, ops, states) && StoredThroughout(states, id, t, i, j)
    ensures TimesHeld(states, id, t, i, j)
    decreases j - i
  {
    if i < j {
      TimestampsOverRuns(descs, ops, states, id, t, i, j - 1);
      TimestampsKeptBy(descs, ops, states, id, t, j);
      TimesHeldMore(states, id, t, i, j);
    }
  }

  // ---------------------------------------------------------------------------------------
  // Hard-delete and aggregation
  // ---------------------------------------------------------------------------------------

  /** The report is accepted and becomes the adapter's stored row. */
  predicate TakesEffect(gen: int, reports: Reports, report: AdapterStatus) {
    && Classify(gen, Arrived(report), Lookup(reports, report.adapter)).Accepted?
    && (report.adapter in reports ==> Newer(reports[report.adapter], Arrived(report)))
  }

  /**
   * The report of a required adapter that takes effect on a deleting resource ends in one of two ways: the row is gone,
   * or its stored Reconciled is False. The two decisions are computed differently, and leave no third way.
   */
  lemma ReportRemovesOrStaysUnreconciled(descs: Descriptors, s: State, kind: Kind, id: Id, report: AdapterStatus)
    requires RegistryOk(descs) && Inv(descs, s) && Deleting(s, id) && ReportStep(descs, s, kind, id, report).Ok?
    requires report.adapter in Required(descs, s.rows[id].kind)
    requires TakesEffect(s.rows[id].generation, ReportsOf(s, id), report)
    ensures var s' := ReportStep(descs, s, kind, id, report).value;
            id !in s'.rows || (ReconciledOf(s', id).Some? && ReconciledOf(s', id).value.status == CondFalse)
  {
    var s' := ReportStep(descs, s, kind, id, report).value;
    ReportKeeps(descs, s, kind, id, report);
    ReportedSelfEvolves(descs, s, id, report);
    if id in s'.rows {
      assert ViewOk(descs, s', id);
      HasChildSame(s, s', id);
      if FreshStatus(descs, s', id) == CondTrue { FinalReportCompletes(descs, s, id, report); }
    }
  }

  /** If all required adapters would count as final after the report, the report itself completes the deletion. */
  lemma FinalReportCompletes(descs: Descriptors, s: State, id: Id, report: AdapterStatus)
    requires Deleting(s, id) && report.adapter in Required(descs, s.rows[id].kind) && !HasChild(s, id)
    requires TakesEffect(s.rows[id].generation, ReportsOf(s, id), report)
    requires AllMet(s.rows[id].generation, true, Required(descs, s.rows[id].kind),
                    SnapshotsFor(descs, s.rows[id], Deliver(s.rows[id].generation, ReportsOf(s, id), report)))
    ensures CompletesDeletion(descs, s, id, report, Deliver(s.rows[id].generation, ReportsOf(s, id), report))
  {
    var reports := Deliver(s.rows[id].generation, ReportsOf(s, id), report);
    WithTransitionsSame(Arrived(report), Lookup(ReportsOf(s, id), report.adapter));
    FinalSnapshots(Required(descs, s.rows[id].kind), reports, s.rows[id].generation);
    SameConditionsFinalized(reports[report.adapter].conditions, report.conditions);
  }

  /** Snapshots that are all final come from rows that are all final. */
  lemma FinalSnapshots(required: seq<string>, reports: Reports, gen: int)
    requires AllMet(gen, true, required, SnapshotTable(reports, required, gen))
    ensures AllRowsFinalized(required, reports, gen)
  {
    forall name | name in required
      ensures name in reports && reports[name].observedGeneration == gen && ReportsFinalized(reports[name].conditions)
    {
      assert Met(name, gen, true, SnapshotTable(reports, required, gen));
      FirstOfTypeFinds(reports[name].conditions, Finalized);
    }
  }


  // ---------------------------------------------------------------------------------------
  // Force-delete
  // ---------------------------------------------------------------------------------------

  /** From any state: exactly the rows below the root go, and no surviving source falls below a minimum. */
  lemma ForceDeleteIsExact(descs: Descriptors, s: State, s': State, kind: Kind, id: Id, scope: Option<Id>)
    requires AllRooted(descs) && ForceDeleteStep(descs, s, kind, id, scope, Ok(s'))
    ensures forall n :: n in s'.rows <==> n in s.rows && !Reaches(descs, s, id, n, false)
    ensures forall n :: n in s'.rows ==> s'.rows[n] == s.rows[n]
    ensures forall r :: r in s'.refs <==>
              r in s.refs && r.source !in Subtree(descs, s, id) && r.target !in Subtree(descs, s, id)
    ensures forall r :: r in s.refs && r.source !in Subtree(descs, s, id) && r.target in Subtree(descs, s, id) ==>
              Declared(descs, s, r.source, r.refType) &&
              |RefsOf(s', r.source, r.refType)| >=
                FindReference(descs[s.rows[r.source].kind].references, r.refType).value.min
  {
    var doomed := Subtree(descs, s, id);
    forall r | r in s.refs && r.source !in doomed && r.target in doomed
      ensures KeepsMinimum(descs, s, doomed, r.source, r.refType)
      ensures RefsOf(s', r.source, r.refType) == Remaining(s, doomed, r.source, r.refType)
    {
      assert Affected(s, doomed, r.source, r.refType);
    }
  }

  // ---------------------------------------------------------------------------------------
  // Metric conservation
  // ---------------------------------------------------------------------------------------

  /** The counters before and after step `i` differ by what the step moved. */
  ghost predicate CountedAt(states: seq<State>, meters: seq<Metrics>, i: nat)
    requires i + 1 < |states| == |meters|
  {
    Counted(states[i], states[i + 1], meters[i], meters[i + 1])
  }

  /** A run together with the counters read before each step and at the end. */
  ghost predicate IsMeteredRun(descs: Descriptors, ops: seq<Op>, states: seq<State>, meters: seq<Metrics>)
    requires AllRooted(descs)
  {
    && IsRun(descs, ops, states) && |meters| == |states| && meters[0] == map[]
    && forall i {:trigger CountedAt(states, meters, i)} :: 0 <= i < |ops| ==> CountedAt(states, meters, i)
  }

  /** The committed moves to False over the first `n` steps. */
  ghost function Moves(states: seq<State>, n: nat, kind: Kind, deleting: bool): nat
    requires n < |states|
  {
    if n == 0 then 0 else Moves(states, n - 1, kind, deleting) + |MoveSet(states[n - 1], states[n], kind, deleting)|
  }

  /** In a metered run the counts of the steps add up. */
  lemma {:induction false} MetricConserved(
    descs: Descriptors, ops: seq<Op>, states: seq<State>, meters: seq<Metrics>, n: nat, kind: Kind, deleting: bool)
    requires RegistryOk(descs) && IsMeteredRun(descs, ops, states, meters) && n < |states|
    ensures Count(meters[n], kind, deleting) == Moves(states, n, kind, deleting)
  {
    if n > 0 {
      MetricConserved(descs, ops, states, meters, n - 1, kind, deleting);
      assert CountedAt(states, meters, n - 1);
    }
  }
}
