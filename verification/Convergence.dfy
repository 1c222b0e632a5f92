/** Two orders of the same reports on one live resource, processed report by report, leave the same Reconciled. */
module Convergence {
  import opened Common
  import opened Registry
  import opened Conditions
  import opened AggregationLaws
  import opened Delivery
  import opened Tables
  import opened Lifecycle
  import opened Invariants
  import opened Preservation

  /** The tables after the reports were processed one after the other. */
  ghost function AfterReports(descs: Descriptors, s: State, kind: Kind, id: Id, rs: seq<AdapterStatus>): State {
    if rs == [] then s
    else
      var n := |rs| - 1;
      var before := AfterReports(descs, s, kind, id, rs[..n]);
      AfterOutcome(before, ReportStep(descs, before, kind, id, rs[n]))
  }

  /** `after` has the rows of `s`, and the reports of `id` are those that the deliveries leave. */
  ghost predicate Delivered(descs: Descriptors, s: State, after: State, id: Id, rs: seq<AdapterStatus>)
    requires id in s.rows
  {
    Inv(descs, after) && after.rows == s.rows &&
    ReportsOf(after, id) == DeliverAll(s.rows[id].generation, ReportsOf(s, id), rs)
  }

  /** One report more: it is stored or discarded, and the row stays. */
  lemma OneMoreReport(
    descs: Descriptors, s: State, before: State, kind: Kind, id: Id, rs: seq<AdapterStatus>, r: AdapterStatus)
    requires RegistryOk(descs) && Found(descs, s, kind, id, None) && Live(s, id) && Delivered(descs, s, before, id, rs)
    requires Deliverable(s.rows[id].generation, r)
    ensures Delivered(descs, s, AfterOutcome(before, ReportStep(descs, before, kind, id, r)), id, rs + [r])
  {
    var gen := s.rows[id].generation;
    assert (rs + [r])[..|rs|] == rs;
    ReportKeepsRows(descs, before, id, r);
    ReportKeeps(descs, before, kind, id, r);
  }

  /** On a live resource a report leaves all rows, and the reports that the delivery leaves. */
  lemma ReportKeepsRows(descs: Descriptors, s: State, id: Id, r: AdapterStatus)
    requires Live(s, id) && Deliverable(s.rows[id].generation, r)
    ensures !Classify(s.rows[id].generation, Arrived(r), Lookup(ReportsOf(s, id), r.adapter)).Refused?
    ensures Reported(descs, s, id, r).rows == s.rows
    ensures ReportsOf(Reported(descs, s, id, r), id) == Deliver(s.rows[id].generation, ReportsOf(s, id), r)
  {
  }

  lemma {:induction false} ReportsDelivered(descs: Descriptors, s: State, kind: Kind, id: Id, rs: seq<AdapterStatus>)
    requires RegistryOk(descs) && Inv(descs, s) && Found(descs, s, kind, id, None) && Live(s, id)
    requires forall r :: r in rs ==> Deliverable(s.rows[id].generation, r)
    ensures Delivered(descs, s, AfterReports(descs, s, kind, id, rs), id, rs)
  {
    if rs != [] {
      var n := |rs| - 1;
      assert rs == rs[..n] + [rs[n]];
      ReportsDelivered(descs, s, kind, id, rs[..n]);
      OneMoreReport(descs, s, AfterReports(descs, s, kind, id, rs[..n]), kind, id, rs[..n], rs[n]);
    }
  }

  /**
   * Convergence: from any state that meets the invariant, reports on a live resource at a fixed generation that never
   * tie leave, in whatever order they are processed, the same reports up to transition times, and the same stored
   * Reconciled but for its created and transition times.
   */
  lemma StoredReconciledConverges(
    descs: Descriptors, s: State, kind: Kind, id: Id, rs: seq<AdapterStatus>, permuted: seq<AdapterStatus>)
    requires RegistryOk(descs) && Inv(descs, s) && Found(descs, s, kind, id, None) && Live(s, id)
    requires Required(descs, kind) != []
    requires (forall r :: r in rs ==> Deliverable(s.rows[id].generation, r)) && NoTies(rs)
    requires multiset(rs) == multiset(permuted)
    ensures var a, b := AfterReports(descs, s, kind, id, rs), AfterReports(descs, s, kind, id, permuted);
            && a.rows == b.rows && ReportsOf(a, id).Keys == ReportsOf(b, id).Keys
            && (forall name :: name in ReportsOf(a, id) ==> SameReport(ReportsOf(a, id)[name], ReportsOf(b, id)[name]))
            && ReconciledOf(a, id).Some? && ReconciledOf(b, id).Some?
            && View(ReconciledOf(a, id).value) == View(ReconciledOf(b, id).value)
  {
    var a, b := AfterReports(descs, s, kind, id, rs), AfterReports(descs, s, kind, id, permuted);
    forall r | r in permuted ensures r in rs { assert r in multiset(permuted); }
    ReportsDelivered(descs, s, kind, id, rs);
    ReportsDelivered(descs, s, kind, id, permuted);
    DeliveryConverges(s.rows[id].generation, ReportsOf(s, id), rs, permuted, Required(descs, kind));
    SameView(descs, a, b, id);
  }

  /** The stored Reconciled of a live resource follows from its row and the snapshots of its reports. */
  lemma SameView(descs: Descriptors, a: State, b: State, id: Id)
    requires RegistryOk(descs) && Inv(descs, a) && Inv(descs, b) && Live(a, id) && a.rows == b.rows &&
             Required(descs, a.rows[id].kind) != []
    requires SnapshotsFor(descs, a.rows[id], ReportsOf(a, id)) == SnapshotsFor(descs, b.rows[id], ReportsOf(b, id))
    ensures ReconciledOf(a, id).Some? && ReconciledOf(b, id).Some?
    ensures View(ReconciledOf(a, id).value) == View(ReconciledOf(b, id).value)
  {
    assert ViewOk(descs, a, id) && ViewOk(descs, b, id);
    var p := AggregatedTable(descs, a.rows[id], ReportsOf(a, id), ConditionsOf(a, id));
    var q := AggregatedTable(descs, b.rows[id], ReportsOf(b, id), ConditionsOf(b, id));
  }

  // ---------------------------------------------------------------------------------------
  // Completing a deletion
  // ---------------------------------------------------------------------------------------

  /** A report that makes its adapter final at `gen`, newer than the stored one. */
  ghost predicate Final(gen: int, reports: Reports, r: AdapterStatus) {
    && Deliverable(gen, r) && r.observedGeneration == gen && ReportsFinalized(r.conditions)
    && (r.adapter in reports ==> Newer(reports[r.adapter], Arrived(r)))
  }

  predicate RowFinal(gen: int, reports: Reports, name: string) {
    name in reports && reports[name].observedGeneration == gen && ReportsFinalized(reports[name].conditions)
  }

  /** The adapter is among the reports, or was final before. */
  ghost predicate Covered(gen: int, reports: Reports, rs: seq<AdapterStatus>, name: string) {
    (exists r :: r in rs && r.adapter == name) || RowFinal(gen, reports, name)
  }

  ghost predicate AllCovered(gen: int, required: seq<string>, reports: Reports, rs: seq<AdapterStatus>) {
    forall name {:trigger Covered(gen, reports, rs, name)} :: name in required ==> Covered(gen, reports, rs, name)
  }

  /** Delivered final reports make exactly the covered rows final. */
  lemma RowCovered(gen: int, reports: Reports, rs: seq<AdapterStatus>, name: string)
    requires forall r :: r in rs ==> Final(gen, reports, r)
    ensures Covered(gen, reports, rs, name) <==> RowFinal(gen, DeliverAll(gen, reports, rs), name)
  {
    DeliverAllKeepsLatest(gen, reports, rs, name);
    var all := DeliverAll(gen, reports, rs);
    if name in all && !(name in reports && all[name] == reports[name]) {
      var r :| r in rs && r.adapter == name && SameReport(all[name], Arrived(r));
      SameConditionsFinalized(r.conditions, all[name].conditions);
    }
  }

  lemma AllRowsCovered(gen: int, required: seq<string>, reports: Reports, rs: seq<AdapterStatus>)
    requires forall r :: r in rs ==> Final(gen, reports, r)
    ensures AllCovered(gen, required, reports, rs) <==> AllRowsFinalized(required, DeliverAll(gen, reports, rs), gen)
  {
    var all := DeliverAll(gen, reports, rs);
    forall name ensures Covered(gen, reports, rs, name) <==> RowFinal(gen, all, name) {
      RowCovered(gen, reports, rs, name);
    }
    assert AllRowsFinalized(required, all, gen) <==> forall name :: name in required ==> RowFinal(gen, all, name);
  }

  /** A deleting resource that is waiting for reports at its generation only. */
  ghost predicate Draining(descs: Descriptors, s: State, kind: Kind, id: Id) {
    Found(descs, s, kind, id, None) && Deleting(s, id) && !HasChild(s, id)
  }

  /** The resource is gone and its adapters were covered; or it waits, and once a report came they were not. */
  ghost predicate Drained(descs: Descriptors, s: State, after: State, id: Id, rs: seq<AdapterStatus>)
    requires id in s.rows
  {
    var gen, required := s.rows[id].generation, Required(descs, s.rows[id].kind);
    if id in after.rows then
      Delivered(descs, s, after, id, rs) && (rs != [] ==> !AllCovered(gen, required, ReportsOf(s, id), rs))
    else
      AllCovered(gen, required, ReportsOf(s, id), rs)
  }

  /** What one more report does while the resource is there. */
  lemma OneMoreFinal(
    descs: Descriptors, s: State, before: State, kind: Kind, id: Id, rs: seq<AdapterStatus>, r: AdapterStatus)
    requires RegistryOk(descs) && Draining(descs, s, kind, id) && id in before.rows && Drained(descs, s, before, id, rs)
    requires forall q :: q in rs + [r] ==> Final(s.rows[id].generation, ReportsOf(s, id), q)
    ensures Drained(descs, s, AfterOutcome(before, ReportStep(descs, before, kind, id, r)), id, rs + [r])
  {
    var gen, required := s.rows[id].generation, Required(descs, s.rows[id].kind);
    var reports := ReportsOf(s, id);
    assert (rs + [r])[..|rs|] == rs && r in rs + [r];
    AllRowsCovered(gen, required, reports, rs);
    AllRowsCovered(gen, required, reports, rs + [r]);
    assert DeliverAll(gen, reports, rs + [r]) == Deliver(gen, ReportsOf(before, id), r);
    HasChildSame(s, before, id);
    FinalReportAccepted(gen, reports, rs, r);
    FinalReportProcessed(descs, before, id, r);
    ReportKeeps(descs, before, kind, id, r);
  }

  /** The first of these reports is accepted; a later one is, or changes nothing. */
  lemma FinalReportAccepted(gen: int, reports: Reports, rs: seq<AdapterStatus>, r: AdapterStatus)
    requires Final(gen, reports, r)
    ensures var decision := Classify(gen, Arrived(r), Lookup(DeliverAll(gen, reports, rs), r.adapter));
            !decision.Refused? && (rs == [] ==> decision.Accepted?)
  {
  }

  /** An accepted final report that leaves all rows final takes the row; any other leaves it. */
  lemma FinalReportProcessed(descs: Descriptors, s: State, id: Id, r: AdapterStatus)
    requires Deleting(s, id) && !HasChild(s, id) && ReportsFinalized(r.conditions)
    ensures var gen, reports := s.rows[id].generation, ReportsOf(s, id);
            var after := Reported(descs, s, id, r);
            if Classify(gen, Arrived(r), Lookup(reports, r.adapter)).Accepted? &&
               AllRowsFinalized(Required(descs, s.rows[id].kind), Deliver(gen, reports, r), gen)
            then id !in after.rows
            else after.rows == s.rows && ReportsOf(after, id) == Deliver(gen, reports, r)
  {
  }

  /** Once it is gone, further reports find nothing. */
  lemma GoneStaysGone(
    descs: Descriptors, s: State, before: State, kind: Kind, id: Id, rs: seq<AdapterStatus>, r: AdapterStatus)
    requires id in s.rows && id !in before.rows && Drained(descs, s, before, id, rs)
    ensures Drained(descs, s, AfterOutcome(before, ReportStep(descs, before, kind, id, r)), id, rs + [r])
  {
    var gen, required := s.rows[id].generation, Required(descs, s.rows[id].kind);
    forall name | name in required ensures Covered(gen, ReportsOf(s, id), rs + [r], name) {
      assert Covered(gen, ReportsOf(s, id), rs, name);
    }
  }

  lemma {:induction false} FinalReportsDrain(descs: Descriptors, s: State, kind: Kind, id: Id, rs: seq<AdapterStatus>)
    requires RegistryOk(descs) && Inv(descs, s) && Draining(descs, s, kind, id)
    requires forall r :: r in rs ==> Final(s.rows[id].generation, ReportsOf(s, id), r)
    ensures Drained(descs, s, AfterReports(descs, s, kind, id, rs), id, rs)
  {
    if rs != [] {
      var n := |rs| - 1;
      assert rs == rs[..n] + [rs[n]];
      FinalReportsDrain(descs, s, kind, id, rs[..n]);
      var before := AfterReports(descs, s, kind, id, rs[..n]);
      if id in before.rows {
        OneMoreFinal(descs, s, before, kind, id, rs[..n], rs[n]);
      } else {
        GoneStaysGone(descs, s, before, kind, id, rs[..n], rs[n]);
      }
    }
  }

  /**
   * The dual of finalization safety: final reports on a deleting resource without children, newer than the stored ones,
   * end with the row gone, in whatever order they are processed, exactly when every required adapter is among them or
   * was final before.
   */
  lemma FinalReportsRemove(descs: Descriptors, s: State, kind: Kind, id: Id, rs: seq<AdapterStatus>)
    requires RegistryOk(descs) && Inv(descs, s) && Draining(descs, s, kind, id) && rs != []
    requires forall r :: r in rs ==> Final(s.rows[id].generation, ReportsOf(s, id), r)
    ensures id !in AfterReports(descs, s, kind, id, rs).rows <==>
            forall name :: name in Required(descs, kind) ==>
              || (exists r :: r in rs && r.adapter == name)
              || RowFinal(s.rows[id].generation, ReportsOf(s, id), name)
  {
    FinalReportsDrain(descs, s, kind, id, rs);
    assert forall name :: Covered(s.rows[id].generation, ReportsOf(s, id), rs, name) <==>
                            ((exists r :: r in rs && r.adapter == name) ||
                             RowFinal(s.rows[id].generation, ReportsOf(s, id), name));
  }
}
