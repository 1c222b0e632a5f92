/** What Delete and ForceDelete do and when they refuse, in terms of the stored rows and the registry alone. */
module DeletePromise {
  import opened Common
  import opened Registry
  import opened Tables
  import opened Lifecycle
  import opened Invariants
  import opened Preservation
  import opened Runs
  import opened StatusPromise
  import opened WritePromise
  import opened ReportPromise

  // ---------------------------------------------------------------------------------------
  // When a delete is refused
  // ---------------------------------------------------------------------------------------

  /** `c` is a child of `n` that is not being deleted, and its kind forbids the delete of its parent. */
  ghost predicate HeldBy(descs: Descriptors, s: State, n: Id, c: Id) {
    && c in s.rows && s.rows[c].owner == Some(n) && s.rows[c].deletedTime.None?
    && s.rows[c].kind in descs && descs[s.rows[c].kind].onParentDelete == Restrict
  }

  /** Exactly active children of a restricting kind restrict; one that is being deleted already does not. */
  lemma RestrictionMeans(descs: Descriptors, s: State, root: Id)
    requires AllRooted(descs)
    ensures NoRestriction(descs, s, CascadeTree(descs, s, root)) <==>
            forall n, c :: Reaches(descs, s, root, n, true) ==> !HeldBy(descs, s, n, c)
  {
    var tree := CascadeTree(descs, s, root);
    forall c | c in s.rows
      ensures Restricts(descs, s, tree, c) <==> exists n :: Reaches(descs, s, root, n, true) && HeldBy(descs, s, n, c)
    {
      if Restricts(descs, s, tree, c) { assert HeldBy(descs, s, s.rows[c].owner.value, c); }
    }
  }

  /** A delete conflicts, and changes nothing, when a row of the cascade has such a child. */
  lemma HeldDeleteConflicts(descs: Descriptors, s: State, op: Op, outcome: Outcome, n: Id, c: Id)
    requires AllRooted(descs) && op.DeleteOp? && StepOutcome(descs, s, op, outcome)
    requires Addressed(descs, s, op.kind, op.id, op.scope)
    requires Reaches(descs, s, op.id, n, true) && HeldBy(descs, s, n, c)
    ensures outcome.Err? && outcome.error == ConflictState && AfterOutcome(s, outcome) == s
  {
    RestrictionMeans(descs, s, op.id);
  }

  /**
   * A delete succeeds when all below is being deleted already, whatever policy it has, and nobody refers to the row.
   */
  lemma FreeDeleteSucceeds(descs: Descriptors, s: State, op: Op, outcome: Outcome)
    requires RegistryOk(descs) && Inv(descs, s) && op.DeleteOp? && StepOutcome(descs, s, op, outcome)
    requires Addressed(descs, s, op.kind, op.id, op.scope)
    requires forall n :: Reaches(descs, s, op.id, n, false) && n != op.id ==> s.rows[n].deletedTime.Some?
    requires forall r :: r in s.refs ==> r.target != op.id
    ensures outcome.Ok?
  {
    forall n, c | Reaches(descs, s, op.id, n, true) ensures !HeldBy(descs, s, n, c) {
      if HeldBy(descs, s, n, c) {
        assert RowOk(descs, s, c);
        CascadeReaches(descs, s, op.id, n);
        OwnerIsShallower(descs, s, c);
        if c == op.id && n != op.id { ReachesIsDeeper(descs, s, op.id, n, false); }
        assert Reaches(descs, s, op.id, c, false);
      }
    }
    RestrictionMeans(descs, s, op.id);
    forall r | r in s.refs ensures r.target !in CascadeTree(descs, s, op.id) {
      assert ReferenceOk(descs, s, r);
      if r.target in CascadeTree(descs, s, op.id) { CascadeReaches(descs, s, op.id, r.target); }
    }
  }

  /** So a step of such a delete leaves the row marked, or takes it. */
  lemma FreeDeleteTakesEffect(descs: Descriptors, s: State, op: Op, s': State)
    requires RegistryOk(descs) && Inv(descs, s) && op.DeleteOp? && Step(descs, s, op, s')
    requires Addressed(descs, s, op.kind, op.id, op.scope)
    requires forall n :: Reaches(descs, s, op.id, n, false) && n != op.id ==> s.rows[n].deletedTime.Some?
    requires forall r :: r in s.refs ==> r.target != op.id
    ensures op.id in s'.rows ==> s'.rows[op.id].deletedTime.Some? && s'.rows[op.id].updatedTime == op.now
  {
    var outcome :| StepOutcome(descs, s, op, outcome) && s' == AfterOutcome(s, outcome);
    FreeDeleteSucceeds(descs, s, op, outcome);
    assert Reaches(descs, s, op.id, op.id, true);
    DeleteLeavesRow(descs, s, op, s', op.id);
  }

  // ---------------------------------------------------------------------------------------
  // Which error
  // ---------------------------------------------------------------------------------------

  /** The kind is not registered, or the request names an owner for a kind that has none. */
  ghost predicate WrongKind(descs: Descriptors, kind: Kind, scope: Option<Id>) {
    kind !in descs || (scope.Some? && descs[kind].parentKind == NoKind)
  }

  /** Why a mutation failed. */
  lemma ErrorTells(descs: Descriptors, s: State, op: Op, outcome: Outcome)
    requires RegistryOk(descs) && StepOutcome(descs, s, op, outcome) && outcome.Err?
    ensures op.CreateOp? ==>
              outcome.error ==
              if op.kind !in descs || op.name == "" then Validation
              else if op.owner.Some? && (op.owner.value !in s.rows ||
                                         s.rows[op.owner.value].kind != descs[op.kind].parentKind) then NotFound
              else if op.owner.Some? && s.rows[op.owner.value].deletedTime.Some? then ConflictState
              else if !RefsFit(descs, s, op.kind, op.refs) then Validation
              else Conflict
    ensures op.PatchOp? ==>
              outcome.error ==
              if WrongKind(descs, op.kind, op.scope) then Validation
              else if !Addressed(descs, s, op.kind, op.id, op.scope) then NotFound
              else if s.rows[op.id].deletedTime.Some? then ConflictState
              else Validation
    ensures op.ReportOp? ==>
              outcome.error ==
              if op.kind in descs && (op.id !in s.rows || s.rows[op.id].kind != op.kind) then NotFound else Validation
    ensures op.DeleteOp? ==>
              outcome.error ==
              if WrongKind(descs, op.kind, op.scope) then Validation
              else if !Addressed(descs, s, op.kind, op.id, op.scope) then NotFound
              else ConflictState
    ensures op.ForceDeleteOp? ==>
              if WrongKind(descs, op.kind, op.scope) then outcome.error == Validation
              else if !Addressed(descs, s, op.kind, op.id, op.scope) then outcome.error == NotFound
              else if s.rows[op.id].deletedTime.None? then outcome.error == ConflictState
              else outcome.error in {ConflictState, General}
  {
    if op.CreateOp? && op.kind in descs { RefsFitAcceptable(descs, s, op.kind, op.refs); }
  }

  // ---------------------------------------------------------------------------------------
  // What a delete leaves
  // ---------------------------------------------------------------------------------------

  /** The row after the delete: marked at the time of the delete, unless it was marked before. */
  ghost predicate MarkedAt(before: Row, after: Row, now: Time) {
    && after.kind == before.kind && after.name == before.name && after.owner == before.owner
    && after.spec == before.spec && after.labels == before.labels && after.createdTime == before.createdTime
    && after.updatedTime == now
    && if before.deletedTime.Some? then after.deletedTime == before.deletedTime && after.generation == before.generation
       else after.generation == before.generation + 1 && after.deletedTime.Some? &&
            IsMicrosecond(after.deletedTime.value, now)
  }

  /**
   * A row of the cascade stays while its kind has required adapters or something is left below it; then it is marked.
   */
  lemma DeleteLeavesRow(descs: Descriptors, s: State, op: Op, s': State, n: Id)
    requires AllRooted(descs) && op.DeleteOp? && StepOutcome(descs, s, op, Ok(s'))
    requires Reaches(descs, s, op.id, n, true) && s.rows[n].kind in descs
    ensures n in s'.rows <==> descs[s.rows[n].kind].requiredAdapters != [] ||
                              exists c :: c in s'.rows && s'.rows[c].owner == Some(n)
    ensures n in s'.rows ==> MarkedAt(s.rows[n], s'.rows[n], op.now)
    ensures n !in s'.rows ==> ConditionsOf(s', n) == map[]
  {
    assert n in CascadeTree(descs, s, op.id);
    assert Processed(descs, s, s', n, op.now);
    MicrosecondMeans(op.now, TruncateToMicrosecond(op.now));
    assert HasChild(s', n) <==> exists c :: c in s'.rows && s'.rows[c].owner == Some(n);
  }

  /** Everything else stays as it was, but for the references that leave the cascade. */
  lemma DeleteLeavesRest(descs: Descriptors, s: State, op: Op, s': State)
    requires AllRooted(descs) && op.DeleteOp? && StepOutcome(descs, s, op, Ok(s'))
    ensures Addressed(descs, s, op.kind, op.id, op.scope)
    ensures forall n :: !Reaches(descs, s, op.id, n, true) ==>
              && (n in s'.rows <==> n in s.rows) && (n in s.rows ==> s'.rows[n] == s.rows[n])
              && ConditionsOf(s', n) == ConditionsOf(s, n)
    ensures forall r :: r in s'.refs <==> r in s.refs && !Reaches(descs, s, op.id, r.source, true)
    ensures s'.statuses == s.statuses && s'.issued == s.issued
  {
    forall n | !Reaches(descs, s, op.id, n, true) ensures Untouched(s, s', n) {
      assert n !in CascadeTree(descs, s, op.id);
    }
  }

  /** The conditions of a row that stays are computed for a deleting resource. */
  lemma DeleteReconciles(descs: Descriptors, s: State, op: Op, s': State, n: Id)
    requires RegistryOk(descs) && Inv(descs, s) && op.DeleteOp? && OpOk(s, op) && StepOutcome(descs, s, op, Ok(s'))
    requires Reaches(descs, s, op.id, n, true) && n in s'.rows && s'.rows[n].kind in descs
    ensures ReconciledOf(s', n).Some?
    ensures ReconciledSays(ReconciledOf(s', n).value, s'.rows[n].generation, true,
                           descs[s'.rows[n].kind].requiredAdapters, ReportsOf(s, n), HasChild(s', n))
  {
    assert n in CascadeTree(descs, s, op.id);
    assert Processed(descs, s, s', n, op.now);
    StoredNotAhead(descs, s, n);
    FreshReconciled(descs, s'.rows[n], ReportsOf(s, n), ConditionsOf(s, n), HasChild(s', n));
  }

  // ---------------------------------------------------------------------------------------
  // Force-delete
  // ---------------------------------------------------------------------------------------

  /** What the sources outside keep of the types that lose references: at least Min, and of declared types only. */
  ghost predicate MinimumsRemain(descs: Descriptors, s: State, root: Id)
    requires AllRooted(descs)
  {
    forall r :: r in s.refs && !Reaches(descs, s, root, r.source, false) && Reaches(descs, s, root, r.target, false) ==>
      && r.source in s.rows && s.rows[r.source].kind in descs
      && MinimumRemains(descs[s.rows[r.source].kind].references, r.refType, KeptReferences(descs, s, root, r))
  }

  /** A declaration of the type allows as few references as are kept. */
  ghost predicate MinimumRemains(declared: seq<ReferenceDescriptor>, refType: string, kept: set<Reference>) {
    exists rd :: rd in declared && rd.refType == refType && rd.min <= |kept|
  }

  /** The references of the same source and type as `r` that do not lead below `root`. */
  ghost function KeptReferences(descs: Descriptors, s: State, root: Id, r: Reference): set<Reference>
    requires AllRooted(descs)
  {
    set q | q in s.refs && q.source == r.source && q.refType == r.refType && !Reaches(descs, s, root, q.target, false)
  }

  /** From any tables: a force-delete succeeds exactly on a marked row, when the rows outside keep their minimums. */
  lemma ForceDeleteSucceedsExactly(descs: Descriptors, s: State, op: Op, outcome: Outcome)
    requires RegistryOk(descs) && op.ForceDeleteOp? && StepOutcome(descs, s, op, outcome)
    requires forall r :: r in s.refs ==> r.target in s.rows
    ensures outcome.Ok? <==>
            && Addressed(descs, s, op.kind, op.id, op.scope) && s.rows[op.id].deletedTime.Some?
            && MinimumsRemain(descs, s, op.id)
  {
    MinimumsMean(descs, s, op.id);
  }

  lemma MinimumsMean(descs: Descriptors, s: State, root: Id)
    requires RegistryOk(descs) && forall r :: r in s.refs ==> r.target in s.rows
    ensures MinimumsKept(descs, s, Subtree(descs, s, root)) <==> MinimumsRemain(descs, s, root)
  {
    var doomed := Subtree(descs, s, root);
    forall r | r in s.refs && r.source !in doomed && r.target in doomed
      ensures Affected(s, doomed, r.source, r.refType)
      ensures KeepsMinimum(descs, s, doomed, r.source, r.refType) <==>
              && r.source in s.rows && s.rows[r.source].kind in descs
              && MinimumRemains(descs[s.rows[r.source].kind].references, r.refType, KeptReferences(descs, s, root, r))
    {
      MinimumMeans(descs, s, root, r);
    }
    if MinimumsRemain(descs, s, root) {
      forall q | q in s.refs && Affected(s, doomed, q.source, q.refType)
        ensures KeepsMinimum(descs, s, doomed, q.source, q.refType)
      {
        var r :| r in s.refs && r.source == q.source && r.refType == q.refType && r.target in doomed;
      }
    }
  }

  lemma MinimumMeans(descs: Descriptors, s: State, root: Id, r: Reference)
    requires RegistryOk(descs) && forall q :: q in s.refs ==> q.target in s.rows
    ensures KeepsMinimum(descs, s, Subtree(descs, s, root), r.source, r.refType) <==>
            && r.source in s.rows && s.rows[r.source].kind in descs
            && MinimumRemains(descs[s.rows[r.source].kind].references, r.refType, KeptReferences(descs, s, root, r))
  {
    assert Remaining(s, Subtree(descs, s, root), r.source, r.refType) == KeptReferences(descs, s, root, r);
    if r.source in s.rows && s.rows[r.source].kind in descs {
      var declared := descs[s.rows[r.source].kind].references;
      FindReferenceFinds(declared, r.refType);
      assert EntryOk(descs, descs[s.rows[r.source].kind]);
      forall rd | rd in declared && rd.refType == r.refType ensures FindReference(declared, r.refType) == Some(rd) {
        FindReferenceUnique(descs, declared, rd);
      }
    }
  }

  /** In a reachable state it succeeds on every marked row, and takes exactly the rows below with all that is theirs. */
  lemma ForceDeletePurges(descs: Descriptors, s: State, op: Op, outcome: Outcome)
    requires RegistryOk(descs) && Inv(descs, s) && op.ForceDeleteOp? && StepOutcome(descs, s, op, outcome)
    requires Addressed(descs, s, op.kind, op.id, op.scope) && s.rows[op.id].deletedTime.Some?
    ensures outcome.Ok?
    ensures var s' := outcome.value;
            && (forall n :: n in s'.rows <==> n in s.rows && !Reaches(descs, s, op.id, n, false))
            && (forall n :: n in s'.rows ==> s'.rows[n] == s.rows[n])
            && s'.refs == s.refs && s'.issued == s.issued
            && (forall n :: n in s'.statuses <==> n in s.statuses && !Reaches(descs, s, op.id, n, false))
            && (forall n :: n in s'.statuses ==> s'.statuses[n] == s.statuses[n])
            && (forall n :: n in s'.conditions <==> n in s.conditions && !Reaches(descs, s, op.id, n, false))
            && (forall n :: n in s'.conditions ==> s'.conditions[n] == s.conditions[n])
  {
    NothingRefersIntoDoomed(descs, s, op.id);
  }

  /** A force-delete of a row that is not marked conflicts and changes nothing. */
  lemma ForceDeleteRefusesLive(descs: Descriptors, s: State, op: Op, s': State)
    requires AllRooted(descs) && op.ForceDeleteOp? && Step(descs, s, op, s')
    requires Addressed(descs, s, op.kind, op.id, op.scope) && s.rows[op.id].deletedTime.None?
    ensures s' == s && StepOutcome(descs, s, op, Err(ConflictState))
    ensures forall outcome :: StepOutcome(descs, s, op, outcome) ==> outcome == Err(ConflictState)
  {
  }

  /** In a run, a force-delete that changes anything comes after the step that marked its row. */
  lemma ForceDeleteAfterMark(descs: Descriptors, ops: seq<Op>, states: seq<State>, j: nat) returns (d: nat)
    requires RegistryOk(descs) && IsRun(descs, ops, states) && j < |ops| && ops[j].ForceDeleteOp?
    requires states[j + 1] != states[j]
    ensures d < j && Live(states[d], ops[j].id) && Deleting(states[d + 1], ops[j].id)
  {
    RunStep(descs, ops, states, j);
    ForceDeleteNeedsMark(descs, states[j], ops[j], states[j + 1]);
    d := MarkedOnce(descs, ops, states, j, ops[j].id);
  }

  lemma ForceDeleteNeedsMark(descs: Descriptors, s: State, op: Op, s': State)
    requires AllRooted(descs) && op.ForceDeleteOp? && Step(descs, s, op, s') && s' != s
    ensures Deleting(s, op.id)
  {
    var outcome :| StepOutcome(descs, s, op, outcome) && s' == AfterOutcome(s, outcome);
    if Addressed(descs, s, op.kind, op.id, op.scope) && s.rows[op.id].deletedTime.None? {
      ForceDeleteRefusesLive(descs, s, op, s');
    }
  }

  /** A row that is live before a step and gone after it went with a delete, and had no adapters to wait for. */
  lemma LiveRowGoes(descs: Descriptors, s: State, op: Op, s': State, n: Id)
    requires RegistryOk(descs) && Inv(descs, s) && Step(descs, s, op, s') && Live(s, n) && n !in s'.rows
    ensures op.DeleteOp? && Reaches(descs, s, op.id, n, true)
    ensures s.rows[n].kind in descs && descs[s.rows[n].kind].requiredAdapters == []
  {
    var outcome :| StepOutcome(descs, s, op, outcome) && s' == AfterOutcome(s, outcome);
    assert RowOk(descs, s, n);
    match op
    case CreateOp(_, _, _, _, _, _, _, _) =>
    case PatchOp(_, _, _, _, _) =>
    case ReportOp(_, _, _) =>
    case DeleteOp(_, _, _, _) =>
      DeleteLeavesRest(descs, s, op, s');
      DeleteLeavesRow(descs, s, op, s', n);
    case ForceDeleteOp(_, _, _) =>
      if n in Subtree(descs, s, op.id) { DeletingBelow(descs, s, op.id, n); }
  }
}
