/** What processing an adapter report does, in terms of the report and the stored rows alone. */
module ReportPromise {
  import opened Common
  import opened Registry
  import opened Conditions
  import opened AggregationLaws
  import opened Delivery
  import opened Tables
  import opened Lifecycle
  import opened Invariants
  import opened Preservation
  import opened StatusPromise

  /** The time of the report at the resolution of its column. */
  ghost predicate IsMicrosecond(t: Time, sent: Time) {
    t % 1000 == 0 && t <= sent < t + 1000
  }

  /** The report has nothing new: it is ahead of the resource, untimed, or behind the stored report of its adapter. */
  ghost predicate Outdated(row: Row, reports: Reports, r: AdapterStatus) {
    || r.observedGeneration > row.generation
    || IsMicrosecond(0, r.lastReportTime)
    || (r.adapter in reports &&
        (|| r.observedGeneration < reports[r.adapter].observedGeneration
         || (r.observedGeneration == reports[r.adapter].observedGeneration && reports[r.adapter].lastReportTime != 0 &&
             exists t :: IsMicrosecond(t, r.lastReportTime) && t < reports[r.adapter].lastReportTime)))
  }

  ghost predicate Lacks(r: AdapterStatus, t: AdapterConditionType) {
    forall i :: 0 <= i < |r.conditions| ==> r.conditions[i].ctype != t
  }

  /** A mandatory condition is missing, or the first Available is none of True, False and Unknown. */
  ghost predicate Malformed(r: AdapterStatus) {
    || Lacks(r, Available) || Lacks(r, Applied) || Lacks(r, Health)
    || exists text :: Says(r, Available, ReportedOther(text))
  }

  ghost predicate Addresses(descs: Descriptors, s: State, op: Op)
    requires op.ReportOp?
  {
    op.kind in descs && op.id in s.rows && s.rows[op.id].kind == op.kind
  }

  /** The report is refused exactly when the resource is not there, or it has something new and is malformed. */
  lemma ReportRefusedExactly(descs: Descriptors, s: State, op: Op, outcome: Outcome)
    requires RegistryOk(descs) && op.ReportOp? && StepOutcome(descs, s, op, outcome)
    ensures outcome.Err? <==>
            || !Addresses(descs, s, op)
            || (!Outdated(s.rows[op.id], ReportsOf(s, op.id), op.report) && Malformed(op.report))
  {
    if Addresses(descs, s, op) { ClassifiedAs(s.rows[op.id], ReportsOf(s, op.id), op.report); }
  }

  lemma MicrosecondMeans(sent: Time, t: Time)
    ensures IsMicrosecond(t, sent) <==> t == TruncateToMicrosecond(sent)
  {
  }

  lemma OutdatedMeans(row: Row, reports: Reports, r: AdapterStatus)
    ensures Outdated(row, reports, r) <==>
            || r.observedGeneration > row.generation || Arrived(r).lastReportTime == ZERO_TIME
            || (r.adapter in reports && Stale(Arrived(r), reports[r.adapter]))
  {
    MicrosecondMeans(r.lastReportTime, 0);
    MicrosecondMeans(r.lastReportTime, TruncateToMicrosecond(r.lastReportTime));
    if r.adapter in reports && Outdated(row, reports, r) {
      forall t | IsMicrosecond(t, r.lastReportTime) ensures t == Arrived(r).lastReportTime {
        MicrosecondMeans(r.lastReportTime, t);
      }
    }
  }

  lemma LacksMeans(r: AdapterStatus)
    ensures HasMandatory(r.conditions) <==> !Lacks(r, Available) && !Lacks(r, Applied) && !Lacks(r, Health)
  {
    var mandatory := [Available, Applied, Health];
    assert Available in mandatory && Applied in mandatory && Health in mandatory;
    forall t ensures Lacks(r, t) <==> !exists c :: c in r.conditions && c.ctype == t {
      if !Lacks(r, t) {
        var i :| 0 <= i < |r.conditions| && r.conditions[i].ctype == t;
        assert r.conditions[i] in r.conditions;
      }
    }
  }

  /** The four fates of a report of an existing resource. */
  lemma ClassifiedAs(row: Row, reports: Reports, r: AdapterStatus)
    ensures var decision := Classify(row.generation, Arrived(r), Lookup(reports, r.adapter));
            var known := r.adapter in reports && Says(r, Available, ReportedUnknown);
            && (decision.Refused? <==> !Outdated(row, reports, r) && Malformed(r))
            && (decision.Discarded? <==> Outdated(row, reports, r) || (!Malformed(r) && known))
            && (decision == Accepted(true) <==> !Outdated(row, reports, r) && !Malformed(r) && Usable(r))
  {
    OutdatedMeans(row, reports, r);
    LacksMeans(r);
    FirstOfTypeFinds(r.conditions, Available);
    FirstHasFound(r.conditions, Available, ReportedTrue);
    FirstHasFound(r.conditions, Available, ReportedFalse);
    FirstHasFound(r.conditions, Available, ReportedUnknown);
    var first := FirstOfType(r.conditions, Available);
    if first.Some? { FirstHasFound(r.conditions, Available, first.value.status); }
    forall text
      ensures Says(r, Available, ReportedOther(text)) <==> first.Some? && first.value.status == ReportedOther(text) {
      FirstHasFound(r.conditions, Available, ReportedOther(text));
    }
  }

  // ---------------------------------------------------------------------------------------
  // What is stored
  // ---------------------------------------------------------------------------------------

  /** The last condition of the type in the list. */
  ghost predicate LastOf(conditions: seq<AdapterCondition>, t: AdapterConditionType, j: int) {
    0 <= j < |conditions| && conditions[j].ctype == t && forall k :: j < k < |conditions| ==> conditions[k].ctype != t
  }

  /** `x` is the sent condition, with the stored transition time if the stored condition has the same status. */
  ghost predicate KeptFrom(x: AdapterCondition, sent: AdapterCondition, stored: seq<AdapterCondition>) {
    && x.ctype == sent.ctype && x.status == sent.status && x.reason == sent.reason && x.message == sent.message
    && (forall j :: LastOf(stored, sent.ctype, j) && stored[j].status == sent.status ==>
          x.lastTransitionTime == stored[j].lastTransitionTime)
    && ((forall j :: LastOf(stored, sent.ctype, j) ==> stored[j].status != sent.status) ==>
          x.lastTransitionTime == sent.lastTransitionTime)
  }

  /** `x` stores the report `r` in the place of the conditions `stored`. */
  ghost predicate Stores(x: AdapterStatus, r: AdapterStatus, stored: seq<AdapterCondition>) {
    && x.adapter == r.adapter && x.observedGeneration == r.observedGeneration && x.data == r.data
    && IsMicrosecond(x.lastReportTime, r.lastReportTime) && |x.conditions| == |r.conditions|
    && forall i :: 0 <= i < |r.conditions| ==> KeptFrom(x.conditions[i], r.conditions[i], stored)
  }

  /** The report is about a later generation than the stored one, or about the same one at a later time. */
  ghost predicate Later(r: AdapterStatus, x: AdapterStatus) {
    || r.observedGeneration > x.observedGeneration
    || (r.observedGeneration == x.observedGeneration &&
        exists t :: IsMicrosecond(t, r.lastReportTime) && t > x.lastReportTime)
  }

  /** The reports once `r` has been taken in: the later one of its adapter, and those of the others. */
  ghost predicate TakesIn(before: Reports, r: AdapterStatus, after: Reports) {
    && after.Keys == before.Keys + {r.adapter}
    && (forall name :: name in before && name != r.adapter ==> after[name] == before[name])
    && if r.adapter in before && !Later(r, before[r.adapter]) then after[r.adapter] == before[r.adapter]
       else Stores(after[r.adapter], r, if r.adapter in before then before[r.adapter].conditions else [])
  }

  lemma {:induction false} OldByTypeMeans(conditions: seq<AdapterCondition>, t: AdapterConditionType, j: int)
    ensures LastOf(conditions, t, j) ==> t in OldByType(conditions) && OldByType(conditions)[t] == conditions[j]
    ensures t in OldByType(conditions) ==> exists k :: LastOf(conditions, t, k)
  {
    if conditions != [] {
      var n := |conditions| - 1;
      if conditions[n].ctype == t {
        assert LastOf(conditions, t, n);
      } else {
        OldByTypeMeans(conditions[..n], t, j);
        if t in OldByType(conditions[..n]) {
          var k :| LastOf(conditions[..n], t, k);
          assert LastOf(conditions, t, k);
        }
        if LastOf(conditions, t, j) { assert LastOf(conditions[..n], t, j); }
      }
    }
  }

  lemma KeepTransitionMeans(sent: AdapterCondition, stored: seq<AdapterCondition>)
    ensures KeptFrom(KeepTransition(sent, OldByType(stored)), sent, stored)
  {
    forall j ensures LastOf(stored, sent.ctype, j) ==>
                     sent.ctype in OldByType(stored) && OldByType(stored)[sent.ctype] == stored[j] {
      OldByTypeMeans(stored, sent.ctype, j);
    }
    OldByTypeMeans(stored, sent.ctype, 0);
  }

  lemma LaterMeans(r: AdapterStatus, x: AdapterStatus)
    ensures Later(r, x) <==> Newer(x, Arrived(r))
  {
    MicrosecondMeans(r.lastReportTime, Arrived(r).lastReportTime);
    forall t | IsMicrosecond(t, r.lastReportTime) ensures t == Arrived(r).lastReportTime {
      MicrosecondMeans(r.lastReportTime, t);
    }
  }

  lemma DeliverTakesIn(gen: int, reports: Reports, r: AdapterStatus)
    requires Classify(gen, Arrived(r), Lookup(reports, r.adapter)).Accepted?
    ensures TakesIn(reports, r, Deliver(gen, reports, r))
  {
    var stored := if r.adapter in reports then reports[r.adapter].conditions else [];
    var x := WithTransitions(Arrived(r), Lookup(reports, r.adapter));
    if r.adapter in reports { LaterMeans(r, reports[r.adapter]); }
    MicrosecondMeans(r.lastReportTime, x.lastReportTime);
    forall i | 0 <= i < |r.conditions| ensures KeptFrom(x.conditions[i], r.conditions[i], stored) {
      KeepTransitionMeans(r.conditions[i], stored);
    }
  }

  // ---------------------------------------------------------------------------------------
  // The step
  // ---------------------------------------------------------------------------------------

  ghost predicate SaysFinal(conditions: seq<AdapterCondition>) {
    exists i :: 0 <= i < |conditions| && conditions[i].ctype == Finalized && conditions[i].status == ReportedTrue
  }

  /** The report completes the deletion: it is final, so are all required adapters with it, and no row is left below. */
  ghost predicate Completes(descs: Descriptors, s: State, id: Id, r: AdapterStatus, reports: Reports)
    requires id in s.rows && s.rows[id].kind in descs
  {
    && s.rows[id].deletedTime.Some? && SaysFinal(r.conditions)
    && (forall name :: name in descs[s.rows[id].kind].requiredAdapters ==>
          name in reports && reports[name].observedGeneration == s.rows[id].generation &&
          SaysFinal(reports[name].conditions))
    && forall n :: n in s.rows ==> s.rows[n].owner != Some(id)
  }

  lemma FinalMeans(conditions: seq<AdapterCondition>)
    ensures SaysFinal(conditions) <==> ReportsFinalized(conditions)
  {
    if SaysFinal(conditions) {
      var i :| 0 <= i < |conditions| && conditions[i].ctype == Finalized && conditions[i].status == ReportedTrue;
      assert conditions[i] in conditions;
    }
  }

  lemma CompletesMeans(descs: Descriptors, s: State, id: Id, r: AdapterStatus, reports: Reports)
    requires id in s.rows && s.rows[id].kind in descs
    ensures Completes(descs, s, id, r, reports) <==> CompletesDeletion(descs, s, id, r, reports)
  {
    FinalMeans(r.conditions);
    forall name | name in reports
      ensures SaysFinal(reports[name].conditions) <==> ReportsFinalized(reports[name].conditions)
    {
      FinalMeans(reports[name].conditions);
    }
    assert HasChild(s, id) <==> exists n :: n in s.rows && s.rows[n].owner == Some(id);
  }

  /** The report has something new, and is not just Unknown again. */
  ghost predicate Counts(s: State, op: Op)
    requires op.ReportOp? && op.id in s.rows
  {
    && !Outdated(s.rows[op.id], ReportsOf(s, op.id), op.report)
    && !(op.report.adapter in ReportsOf(s, op.id) && Says(op.report, Available, ReportedUnknown))
  }

  /** Any other report changes nothing. */
  lemma ReportDiscarded(descs: Descriptors, s: State, op: Op, s': State)
    requires RegistryOk(descs) && op.ReportOp? && StepOutcome(descs, s, op, Ok(s'))
    ensures Addresses(descs, s, op) && (!Counts(s, op) ==> s' == s)
  {
    ClassifiedAs(s.rows[op.id], ReportsOf(s, op.id), op.report);
  }

  lemma ReportGives(descs: Descriptors, s: State, op: Op, s': State)
    requires RegistryOk(descs) && op.ReportOp? && StepOutcome(descs, s, op, Ok(s'))
    ensures Addresses(descs, s, op) && s' == Reported(descs, s, op.id, op.report)
  {
  }

  lemma ReportedGives(descs: Descriptors, s: State, id: Id, r: AdapterStatus, reports: Reports)
    requires id in s.rows && s.rows[id].kind in descs
    requires reports == Deliver(s.rows[id].generation, ReportsOf(s, id), r)
    requires Classify(s.rows[id].generation, Arrived(r), Lookup(ReportsOf(s, id), r.adapter)).Accepted?
    ensures var s' := Reported(descs, s, id, r);
            var stored := s.(statuses := s.statuses[id := reports]);
            if Completes(descs, s, id, r, reports) then s' == Removed(s, id) && Gone(s, s', id)
            else if Classify(s.rows[id].generation, Arrived(r), Lookup(ReportsOf(s, id), r.adapter)).aggregate
            then s' == Recomputed(descs, stored, id) else s' == stored
  {
    CompletesMeans(descs, s, id, r, reports);
  }

  /** The row is gone with all that is stored under it, and its references. */
  ghost predicate Gone(s: State, s': State, id: Id) {
    && s'.rows == s.rows - {id} && s'.statuses == s.statuses - {id} && s'.conditions == s.conditions - {id}
    && forall r :: r in s'.refs <==> r in s.refs && r.source != id
  }

  /** Nothing has changed but the reports of the row and, if they were computed anew, its conditions. */
  ghost predicate Kept(s: State, s': State, id: Id, reports: Reports, computed: bool) {
    && s'.rows == s.rows && s'.refs == s.refs && s'.statuses == s.statuses[id := reports]
    && forall n :: n != id || !computed ==> ConditionsOf(s', n) == ConditionsOf(s, n)
  }

  /**
   * A report that counts takes its place among the reports: with them the resource is removed, or its conditions
   * recomputed.
   */
  lemma ReportStored(descs: Descriptors, s: State, op: Op, s': State) returns (reports: Reports)
    requires RegistryOk(descs) && op.ReportOp? && StepOutcome(descs, s, op, Ok(s'))
    requires Addresses(descs, s, op) && Counts(s, op)
    ensures TakesIn(ReportsOf(s, op.id), op.report, reports)
    ensures s'.issued == s.issued
    ensures Completes(descs, s, op.id, op.report, reports) ==> Gone(s, s', op.id)
    ensures !Completes(descs, s, op.id, op.report, reports) ==> Kept(s, s', op.id, reports, Usable(op.report))
  {
    var row := s.rows[op.id];
    reports := Deliver(row.generation, ReportsOf(s, op.id), op.report);
    ReportGives(descs, s, op, s');
    CountsMeans(descs, s, op, s');
    DeliverTakesIn(row.generation, ReportsOf(s, op.id), op.report);
    ReportedGives(descs, s, op.id, op.report, reports);
    var stored := s.(statuses := s.statuses[op.id := reports]);
    KeptMeans(descs, s, stored, op.id, reports);
  }

  lemma KeptMeans(descs: Descriptors, s: State, stored: State, id: Id, reports: Reports)
    requires id in s.rows && stored == s.(statuses := s.statuses[id := reports])
    ensures Kept(s, stored, id, reports, false) && Kept(s, Recomputed(descs, stored, id), id, reports, true)
  {
  }

  lemma CountsMeans(descs: Descriptors, s: State, op: Op, s': State)
    requires RegistryOk(descs) && op.ReportOp? && StepOutcome(descs, s, op, Ok(s'))
    requires Addresses(descs, s, op) && Counts(s, op)
    ensures var decision :=
              Classify(s.rows[op.id].generation, Arrived(op.report), Lookup(ReportsOf(s, op.id), op.report.adapter));
            decision.Accepted? && (decision.aggregate <==> Usable(op.report))
  {
    ClassifiedAs(s.rows[op.id], ReportsOf(s, op.id), op.report);
  }

  /** A report that says how the adapter stands has the conditions computed anew. */
  lemma ReportRecomputes(descs: Descriptors, s: State, op: Op, s': State)
    requires RegistryOk(descs) && op.ReportOp? && StepOutcome(descs, s, op, Ok(s'))
    requires Addresses(descs, s, op) && Counts(s, op) && Usable(op.report) && op.id in s'.rows
    ensures s'.rows == s.rows
    ensures ConditionsOf(s', op.id) ==
            FreshConditions(descs, s'.rows[op.id], ReportsOf(s', op.id), ConditionsOf(s, op.id),
                            Deleting(s', op.id) && HasChild(s', op.id))
  {
    var reports := Deliver(s.rows[op.id].generation, ReportsOf(s, op.id), op.report);
    var stored := s.(statuses := s.statuses[op.id := reports]);
    ReportGives(descs, s, op, s');
    CountsMeans(descs, s, op, s');
    ReportedGives(descs, s, op.id, op.report, reports);
    HasChildSame(stored, s', op.id);
  }

  /** Reconciled of a deleting resource after such a report: True when all is final and nothing is left below. */
  lemma ReportReconciles(descs: Descriptors, s: State, op: Op, s': State)
    requires RegistryOk(descs) && Inv(descs, s) && op.ReportOp? && StepOutcome(descs, s, op, Ok(s'))
    requires Addresses(descs, s, op) && Counts(s, op) && Usable(op.report) && Deleting(s', op.id)
    ensures ReconciledOf(s', op.id).Some?
    ensures ReconciledSays(ReconciledOf(s', op.id).value, s'.rows[op.id].generation, true,
                           descs[op.kind].requiredAdapters, ReportsOf(s', op.id), HasChild(s', op.id))
  {
    ReportRecomputes(descs, s, op, s');
    ReportKeeps(descs, s, op.kind, op.id, op.report);
    StoredNotAhead(descs, s', op.id);
    FreshReconciled(descs, s'.rows[op.id], ReportsOf(s', op.id), ConditionsOf(s, op.id), HasChild(s', op.id));
  }
}
