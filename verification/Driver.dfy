/** Sequences of calls on the service: they are runs, and the counters of the service are the moves of the run. */
module Driver {
  import opened Common
  import opened Registry
  import opened Tables
  import opened Lifecycle
  import opened Purge
  import opened Service
  import opened Runs

  /** The id that an operation brings into the tables. */
  function NewId(op: Op): set<Id> {
    if op.CreateOp? then {op.id} else {}
  }

  /** What callers supply: the clock has started, and no id is ever given to two creates. */
  predicate Supplied(ops: seq<Op>) {
    (forall i :: 0 <= i < |ops| ==> OpOk(EMPTY, ops[i])) &&
    forall i, j :: 0 <= i < j < |ops| && ops[i].CreateOp? && ops[j].CreateOp? ==> ops[i].id != ops[j].id
  }

  /** A step hands out no other id than the one it brings. */
  lemma StepIssues(descs: Descriptors, s: State, op: Op, s': State)
    requires AllRooted(descs) && Step(descs, s, op, s')
    ensures s'.issued <= s.issued + NewId(op)
  {
    var outcome :| StepOutcome(descs, s, op, outcome) && s' == AfterOutcome(s, outcome);
    if outcome.Ok? {
      match op
      case CreateOp(_, _, _, _, _, _, _, _) => CreateOutcome(descs, s, op, s');
      case PatchOp(_, _, _, _, _) => PatchOutcome(descs, s, op, s');
      case _ =>
    }
  }

  /** One call of the operation's method. */
  method Apply(service: ResourceService, op: Op) returns (err: Option<Error>)
    requires service.Valid() && OpOk(service.db.tables, op)
    modifies service`started, service.db
    ensures service.Valid()
    ensures StepOutcome(service.descs, old(service.db.tables), op, OutcomeOf(err, service.db.tables))
    ensures Step(service.descs, old(service.db.tables), op, service.db.tables)
    ensures Counted(old(service.db.tables), service.db.tables, old(service.started), service.started)
  {
    ghost var s := service.db.tables;
    InvKeys(service.descs, s);
    match op {
      case CreateOp(kind, name, owner, refs, spec, labels, id, now) =>
        err := service.Create(kind, name, owner, refs, spec, labels, id, now);
      case PatchOp(kind, id, scope, patch, now) => err := service.Patch(kind, id, scope, patch, now);
      case ReportOp(kind, id, report) =>
        var now: Time := *;  // any reading of the clock: the outcome does not depend on it
        err := service.ProcessAdapterStatus(kind, id, report, now);
      case DeleteOp(kind, id, scope, now) => err := service.Delete(kind, id, scope, now);
      case ForceDeleteOp(kind, id, scope) => err := service.ForceDelete(kind, id, scope);
    }
    assert service.db.tables == AfterOutcome(s, OutcomeOf(err, service.db.tables));
  }

  /**
   * Calls on a new service make a metered run that ends in its tables and counters; so each counter is the number of
   * committed moves of a stored Reconciled to False.
   */
  method RunAll(service: ResourceService, ops: seq<Op>) returns (ghost states: seq<State>, ghost meters: seq<Metrics>)
    requires service.Valid() && service.db.tables == EMPTY && service.started == map[] && Supplied(ops)
    modifies service`started, service.db
    ensures service.Valid() && IsMeteredRun(service.descs, ops, states, meters)
    ensures states[|ops|] == service.db.tables && meters[|ops|] == service.started
    ensures forall kind, deleting :: Count(service.started, kind, deleting) == Moves(states, |ops|, kind, deleting)
  {
    states, meters := [EMPTY], [map[]];
    for n := 0 to |ops|
      invariant service.Valid() && IsMeteredRun(service.descs, ops[..n], states, meters)
      invariant states[n] == service.db.tables && meters[n] == service.started
      invariant IssuedBy(service.db.tables, ops, n)
    {
      assert OpOk(EMPTY, ops[n]);
      var err := Apply(service, ops[n]);
      StepIssues(service.descs, states[n], ops[n], service.db.tables);
      OneMoreStep(service.descs, ops[..n], states, meters, ops[n], service.db.tables, service.started);
      assert ops[..n + 1] == ops[..n] + [ops[n]];
      states, meters := states + [service.db.tables], meters + [service.started];
    }
    assert ops[..|ops|] == ops;
    forall kind, deleting { MetricConserved(service.descs, ops, states, meters, |ops|, kind, deleting); }
  }

  /** Every id that was given out was given to a create among the first `n` operations. */
  ghost predicate IssuedBy(s: State, ops: seq<Op>, n: nat)
    requires n <= |ops|
  {
    forall id :: id in s.issued ==> exists i :: 0 <= i < n && ops[i].CreateOp? && ops[i].id == id
  }

  lemma OneMoreStep(
    descs: Descriptors, ops: seq<Op>, states: seq<State>, meters: seq<Metrics>, op: Op, s': State, m': Metrics)
    requires AllRooted(descs) && IsMeteredRun(descs, ops, states, meters)
    requires Step(descs, states[|ops|], op, s') && Counted(states[|ops|], s', meters[|ops|], m')
    ensures IsMeteredRun(descs, ops + [op], states + [s'], meters + [m'])
  {
    var all, after, counts := ops + [op], states + [s'], meters + [m'];
    forall i | 0 <= i < |all| ensures StepAt(descs, all, after, i) && CountedAt(after, counts, i) {
      if i < |ops| { assert StepAt(descs, ops, states, i) && CountedAt(states, meters, i); }
    }
  }
}
