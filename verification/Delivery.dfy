/**
 * Acceptance of adapter reports: the classification of an incoming report, the conditional
 * upsert, and the transition times it preserves. Together they are a last-writer-wins
 * register for each adapter, ordered by observed generation and then report time.
 */
module Delivery {
  import opened Common
  import opened Conditions
  import opened Aggregation
  import opened AggregationLaws

  /** The outcome of `validateAndClassifyAdapterStatus`. */
  datatype Decision = Discarded | Refused | Accepted(aggregate: bool)

  predicate HasMandatory(conditions: seq<AdapterCondition>) {
    forall t :: t in [Available, Applied, Health] ==> exists c :: c in conditions && c.ctype == t
  }

  /** The report is behind the stored one: an older generation, or the same one and an earlier time. */
  predicate Stale(incoming: AdapterStatus, existing: AdapterStatus) {
    || incoming.observedGeneration < existing.observedGeneration
    || (incoming.observedGeneration == existing.observedGeneration &&
        existing.lastReportTime != ZERO_TIME && incoming.lastReportTime < existing.lastReportTime)
  }

  function Classify(gen: int, incoming: AdapterStatus, existing: Option<AdapterStatus>): Decision {
    var available := FirstOfType(incoming.conditions, Available);
    if incoming.observedGeneration > gen || incoming.lastReportTime == ZERO_TIME then Discarded
    else if existing.Some? && Stale(incoming, existing.value) then Discarded
    else if !HasMandatory(incoming.conditions) then Refused
    else if available.None? then Accepted(false)
    else
      match available.value.status
      case ReportedOther(_) => Refused
      case ReportedUnknown => if existing.Some? then Discarded else Accepted(false)
      case _ => Accepted(true)
  }

  method MissingMandatory(conditions: seq<AdapterCondition>) returns (missing: bool)
    ensures missing == !HasMandatory(conditions)
  {
    var seen: set<AdapterConditionType> := {};
    for i := 0 to |conditions|
      invariant forall t :: t in seen <==> exists c :: c in conditions[..i] && c.ctype == t
    {
      assert conditions[..i + 1] == conditions[..i] + [conditions[i]];
      assert conditions[i] in conditions[..i + 1];
      seen := seen + {conditions[i].ctype};
    }
    assert conditions[..|conditions|] == conditions;
    var mandatory := [Available, Applied, Health];
    for i := 0 to |mandatory|
      invariant forall t :: t in mandatory[..i] ==> t in seen
    {
      if mandatory[i] !in seen {
        assert mandatory[i] in mandatory;
        return true;
      }
    }
    assert mandatory[..|mandatory|] == mandatory;
    return false;
  }

  method ValidateAndClassify(gen: int, incoming: AdapterStatus, existing: Option<AdapterStatus>) returns (d: Decision)
    ensures d == Classify(gen, incoming, existing)
  {
    if incoming.observedGeneration > gen { return Discarded; }
    if existing.Some? && incoming.observedGeneration < existing.value.observedGeneration { return Discarded; }
    if incoming.lastReportTime == ZERO_TIME { return Discarded; }
    if existing.Some? && incoming.observedGeneration == existing.value.observedGeneration {
      var previous := existing.value.lastReportTime;
      if previous != ZERO_TIME && incoming.lastReportTime < previous { return Discarded; }
    }
    var missing := MissingMandatory(incoming.conditions);
    if missing { return Refused; }
    var trigger := false;
    var conditions := incoming.conditions;
    for i := 0 to |conditions|
      invariant !trigger && FirstOfType(conditions, Available) == FirstOfType(conditions[i..], Available)
    {
      assert conditions[i..][1..] == conditions[i + 1..];
      if conditions[i].ctype != Available { continue; }
      var status := conditions[i].status;
      if status.ReportedOther? { return Refused; }
      if status != ReportedTrue && status != ReportedFalse {
        if existing.Some? { return Discarded; }
        return Accepted(false);
      }
      return Accepted(true);
    }
    return Accepted(trigger);
  }

  // ---------------------------------------------------------------------------------------
  // Transition times and upsert
  // ---------------------------------------------------------------------------------------

  /** The stored conditions by type; a later one of the same type wins. */
  function OldByType(conditions: seq<AdapterCondition>): map<AdapterConditionType, AdapterCondition> {
    if conditions == [] then map[]
    else
      var n := |conditions| - 1;
      OldByType(conditions[..n])[conditions[n].ctype := conditions[n]]
  }

  function KeepTransition(c: AdapterCondition, stored: map<AdapterConditionType, AdapterCondition>): AdapterCondition {
    if c.ctype in stored && stored[c.ctype].status == c.status
    then c.(lastTransitionTime := stored[c.ctype].lastTransitionTime)
    else c
  }

  function KeepTransitions(
    conditions: seq<AdapterCondition>, stored: map<AdapterConditionType, AdapterCondition>)
    : (kept: seq<AdapterCondition>)
    ensures |kept| == |conditions|
    ensures forall i :: 0 <= i < |kept| ==> kept[i] == KeepTransition(conditions[i], stored)
  {
    seq(|conditions|, i requires 0 <= i < |conditions| => KeepTransition(conditions[i], stored))
  }

  /** The report as it would be stored next to `existing`. */
  function WithTransitions(incoming: AdapterStatus, existing: Option<AdapterStatus>): AdapterStatus {
    if existing.None? then incoming
    else incoming.(conditions := KeepTransitions(incoming.conditions, OldByType(existing.value.conditions)))
  }

  /** Rewrites the incoming conditions in place, keeping the transition time of an unchanged status. */
  method SetConditionTransitionTimes(conditions: array<AdapterCondition>, existing: AdapterStatus)
    modifies conditions
    ensures conditions[..] == KeepTransitions(old(conditions[..]), OldByType(existing.conditions))
  {
    var previous := existing.conditions;
    var byType: map<AdapterConditionType, AdapterCondition> := map[];
    for i := 0 to |previous|
      invariant byType == OldByType(previous[..i])
    {
      assert previous[..i + 1][..i] == previous[..i];
      byType := byType[previous[i].ctype := previous[i]];
    }
    assert previous[..|previous|] == previous;
    for i := 0 to conditions.Length
      invariant forall j :: 0 <= j < i ==> conditions[j] == KeepTransition(old(conditions[..])[j], byType)
      invariant forall j :: i <= j < conditions.Length ==> conditions[j] == old(conditions[..])[j]
    {
      if conditions[i].ctype in byType && byType[conditions[i].ctype].status == conditions[i].status {
        conditions[i] := conditions[i].(lastTransitionTime := byType[conditions[i].ctype].lastTransitionTime);
      }
    }
  }

  /** Strictly later in the order of the register. */
  predicate Newer(a: AdapterStatus, b: AdapterStatus) {
    || a.observedGeneration < b.observedGeneration
    || (a.observedGeneration == b.observedGeneration && a.lastReportTime < b.lastReportTime)
  }

  /** The row after the guarded upsert. */
  function Upserted(existing: Option<AdapterStatus>, incoming: AdapterStatus): AdapterStatus {
    if existing.Some? && !Newer(existing.value, incoming) then existing.value else incoming
  }

  /** A report with its time cut to the resolution of the stored column. */
  function Arrived(incoming: AdapterStatus): AdapterStatus {
    incoming.(lastReportTime := TruncateToMicrosecond(incoming.lastReportTime))
  }

  /** The stored rows of a resource at generation `gen` after `incoming` has been processed. */
  function Deliver(gen: int, reports: Reports, incoming: AdapterStatus): Reports {
    var existing := Lookup(reports, incoming.adapter);
    var arrived := Arrived(incoming);
    if Classify(gen, arrived, existing).Accepted?
    then reports[incoming.adapter := Upserted(existing, WithTransitions(arrived, existing))]
    else reports
  }

  // ---------------------------------------------------------------------------------------
  // Lists of reports
  // ---------------------------------------------------------------------------------------

  method FindInList(list: seq<AdapterStatus>, adapter: string) returns (found: Option<AdapterStatus>)
    ensures found.None? <==> forall r :: r in list ==> r.adapter != adapter
    ensures found.Some? ==> found.value in list && found.value.adapter == adapter
  {
    for i := 0 to |list|
      invariant forall r :: r in list[..i] ==> r.adapter != adapter
    {
      assert list[..i + 1] == list[..i] + [list[i]];
      if list[i].adapter == adapter { return Some(list[i]); }
    }
    assert list[..|list|] == list;
    return None;
  }

  /** A copy of the list with the adapter's entry replaced in place, or appended. */
  method ReplaceInList(list: seq<AdapterStatus>, updated: AdapterStatus) returns (result: seq<AdapterStatus>)
    ensures |list| <= |result|
    ensures forall i :: 0 <= i < |list| ==> result[i] == if list[i].adapter == updated.adapter then updated else list[i]
    ensures (exists r :: r in list && r.adapter == updated.adapter) ==> |result| == |list|
    ensures (forall r :: r in list ==> r.adapter != updated.adapter) ==> result == list + [updated]
  {
    result := [];
    var found := false;
    for i := 0 to |list|
      invariant |result| == i
      invariant forall j :: 0 <= j < i ==> result[j] == if list[j].adapter == updated.adapter then updated else list[j]
      invariant found <==> exists r :: r in list[..i] && r.adapter == updated.adapter
    {
      assert list[..i + 1] == list[..i] + [list[i]];
      if list[i].adapter == updated.adapter {
        result := result + [updated];
        assert list[i] in list[..i + 1];
        found := true;
      } else {
        result := result + [list[i]];
      }
    }
    assert list[..|list|] == list;
    if !found {
      result := result + [updated];
    }
  }

  /** Replacing in the list is updating the table. */
  lemma ReplacedLists(list: seq<AdapterStatus>, reports: Reports, updated: AdapterStatus, result: seq<AdapterStatus>)
    requires Lists(list, reports) && |list| <= |result|
    requires forall i :: 0 <= i < |list| ==>
               result[i] == if list[i].adapter == updated.adapter then updated else list[i]
    requires (exists r :: r in list && r.adapter == updated.adapter) ==> |result| == |list|
    requires (forall r :: r in list ==> r.adapter != updated.adapter) ==> result == list + [updated]
    ensures Lists(result, reports[updated.adapter := updated])
  {
    var table := reports[updated.adapter := updated];
    forall r | r in result ensures r.adapter in table && table[r.adapter] == r {
      var i :| 0 <= i < |result| && result[i] == r;
      if i < |list| { assert list[i] in list; }
    }
    forall name | name in table ensures table[name] in result {
      if name in reports {
        var i :| 0 <= i < |list| && list[i] == reports[name];
        assert result[i] in result;
      } else {
        assert forall r :: r in list ==> r.adapter != updated.adapter;
        assert result[|list|] == updated;
      }
    }
  }

  // ---------------------------------------------------------------------------------------
  // Convergence
  // ---------------------------------------------------------------------------------------

  /** The same report up to the transition times of its conditions. */
  ghost predicate SameReport(a: AdapterStatus, b: AdapterStatus) {
    && a.adapter == b.adapter && a.observedGeneration == b.observedGeneration
    && a.lastReportTime == b.lastReportTime && a.data == b.data
    && |a.conditions| == |b.conditions|
    && forall i :: 0 <= i < |a.conditions| ==>
         a.conditions[i].(lastTransitionTime := ZERO_TIME) == b.conditions[i].(lastTransitionTime := ZERO_TIME)
  }

  lemma {:induction false} FirstOfTypeSame(a: seq<AdapterCondition>, b: seq<AdapterCondition>, t: AdapterConditionType)
    requires |a| == |b|
    requires forall i :: 0 <= i < |a| ==>
               a[i].(lastTransitionTime := ZERO_TIME) == b[i].(lastTransitionTime := ZERO_TIME)
    ensures FirstOfType(a, t).Some? == FirstOfType(b, t).Some?
    ensures FirstOfType(a, t).Some? ==>
              FirstOfType(a, t).value.(lastTransitionTime := ZERO_TIME) ==
                FirstOfType(b, t).value.(lastTransitionTime := ZERO_TIME)
  {
    if a != [] {
      assert a[0].(lastTransitionTime := ZERO_TIME) == b[0].(lastTransitionTime := ZERO_TIME);
      assert a[0].ctype == b[0].ctype;
      FirstOfTypeSame(a[1..], b[1..], t);
    }
  }

  lemma SameConditionsFinalized(a: seq<AdapterCondition>, b: seq<AdapterCondition>)
    requires |a| == |b|
    requires forall i :: 0 <= i < |a| ==>
               a[i].(lastTransitionTime := ZERO_TIME) == b[i].(lastTransitionTime := ZERO_TIME)
    ensures ReportsFinalized(a) ==> ReportsFinalized(b)
  {
    if ReportsFinalized(a) {
      var i :| 0 <= i < |a| && a[i].ctype == Finalized && a[i].status == ReportedTrue;
      assert a[i].(lastTransitionTime := ZERO_TIME) == b[i].(lastTransitionTime := ZERO_TIME);
      assert b[i].ctype == a[i].ctype && b[i].status == a[i].status;
    }
  }

  /** Aggregation cannot tell such reports apart. */
  lemma SameReportSameSnapshot(a: AdapterStatus, b: AdapterStatus, gen: int)
    requires SameReport(a, b)
    ensures SnapshotOf(a, gen) == SnapshotOf(b, gen)
  {
    FirstOfTypeSame(a.conditions, b.conditions, Available);
    FirstOfTypeSame(a.conditions, b.conditions, Finalized);
    var x, y := FirstOfType(a.conditions, Available), FirstOfType(b.conditions, Available);
    if x.Some? {
      assert x.value.(lastTransitionTime := ZERO_TIME) == y.value.(lastTransitionTime := ZERO_TIME);
      assert x.value.status == y.value.status && x.value.reason == y.value.reason && x.value.message == y.value.message;
    }
    var f, g := FirstOfType(a.conditions, Finalized), FirstOfType(b.conditions, Finalized);
    if f.Some? {
      assert f.value.(lastTransitionTime := ZERO_TIME) == g.value.(lastTransitionTime := ZERO_TIME);
      assert f.value.status == g.value.status;
    }
  }

  lemma WithTransitionsSame(incoming: AdapterStatus, existing: Option<AdapterStatus>)
    ensures SameReport(WithTransitions(incoming, existing), incoming)
  {
  }

  /** A well-formed report about a generation the resource has, which aggregation would use. */
  ghost predicate Deliverable(gen: int, r: AdapterStatus) {
    && r.observedGeneration <= gen
    && Arrived(r).lastReportTime != ZERO_TIME
    && HasMandatory(r.conditions)
    && FirstOfType(r.conditions, Available).Some?
    && FirstOfType(r.conditions, Available).value.status in {ReportedTrue, ReportedFalse}
  }

  /** What one delivery does to the adapter's row: keep the later of the two. */
  lemma DeliverKeepsLater(gen: int, reports: Reports, r: AdapterStatus)
    requires Deliverable(gen, r)
    ensures var after := Deliver(gen, reports, r);
            && after.Keys == reports.Keys + {r.adapter}
            && (forall name :: name in reports && name != r.adapter ==> after[name] == reports[name])
            && if r.adapter in reports && !Newer(reports[r.adapter], Arrived(r))
               then after[r.adapter] == reports[r.adapter]
               else SameReport(after[r.adapter], Arrived(r))
  {
    WithTransitionsSame(Arrived(r), Lookup(reports, r.adapter));
  }

  /** Any change of a stored row is to a strictly later generation, or a later time of the same one. */
  lemma EffectiveUpsertAdvances(gen: int, reports: Reports, r: AdapterStatus)
    requires Keyed(reports)
    ensures Keyed(Deliver(gen, reports, r))
    ensures forall name :: name in reports ==> name in Deliver(gen, reports, r)
    ensures forall name :: name in reports && Deliver(gen, reports, r)[name] != reports[name] ==>
              name == r.adapter && Newer(reports[name], Deliver(gen, reports, r)[name]) &&
              Deliver(gen, reports, r)[name].observedGeneration <= gen
  {
    WithTransitionsSame(Arrived(r), Lookup(reports, r.adapter));
  }

  function DeliverAll(gen: int, reports: Reports, rs: seq<AdapterStatus>): Reports {
    if rs == [] then reports
    else
      var n := |rs| - 1;
      Deliver(gen, DeliverAll(gen, reports, rs[..n]), rs[n])
  }

  /** `x` is the lexicographic maximum of the adapter's old row and its delivered reports; a tie keeps the old row. */
  ghost predicate IsLatest(reports: Reports, rs: seq<AdapterStatus>, name: string, x: AdapterStatus) {
    && (forall r :: r in rs && r.adapter == name ==> !Newer(x, Arrived(r)))
    && (|| (name in reports && x == reports[name])
        || ((name in reports ==> Newer(reports[name], x)) &&
            exists r :: r in rs && r.adapter == name && SameReport(x, Arrived(r))))
  }

  /** One more report of the adapter: the row stays, or a newer report takes its place. */
  lemma NextIsLatest(reports: Reports, rs: seq<AdapterStatus>, r: AdapterStatus, x: AdapterStatus, y: AdapterStatus)
    requires IsLatest(reports, rs, r.adapter, x)
    requires if Newer(x, Arrived(r)) then SameReport(y, Arrived(r)) else y == x
    ensures IsLatest(reports, rs + [r], r.adapter, y)
  {
    assert r in rs + [r];
  }

  lemma FirstIsLatest(reports: Reports, rs: seq<AdapterStatus>, r: AdapterStatus, y: AdapterStatus)
    requires r.adapter !in reports && (forall q :: q in rs ==> q.adapter != r.adapter) && SameReport(y, Arrived(r))
    ensures IsLatest(reports, rs + [r], r.adapter, y)
  {
    assert r in rs + [r];
  }

  lemma {:induction false} DeliverAllKeepsLatest(gen: int, reports: Reports, rs: seq<AdapterStatus>, name: string)
    requires forall r :: r in rs ==> Deliverable(gen, r)
    ensures name in DeliverAll(gen, reports, rs) <==> name in reports || exists r :: r in rs && r.adapter == name
    ensures name in DeliverAll(gen, reports, rs) ==> IsLatest(reports, rs, name, DeliverAll(gen, reports, rs)[name])
  {
    if rs != [] {
      var n := |rs| - 1;
      assert rs == rs[..n] + [rs[n]] && rs[n] in rs;
      DeliverAllKeepsLatest(gen, reports, rs[..n], name);
      var before := DeliverAll(gen, reports, rs[..n]);
      DeliverKeepsLater(gen, before, rs[n]);
      if name == rs[n].adapter {
        var y := Deliver(gen, before, rs[n])[name];
        if name in before {
          NextIsLatest(reports, rs[..n], rs[n], before[name], y);
        } else {
          FirstIsLatest(reports, rs[..n], rs[n], y);
        }
      }
    }
  }

  /** Reports of one adapter never tie. */
  ghost predicate NoTies(rs: seq<AdapterStatus>) {
    forall r, q :: r in rs && q in rs && r.adapter == q.adapter && r != q ==>
      Newer(Arrived(r), Arrived(q)) || Newer(Arrived(q), Arrived(r))
  }

  /** Any order of delivery ends in the same rows up to transition times, and so in the same snapshots. */
  lemma DeliveryConverges(
    gen: int, reports: Reports, rs: seq<AdapterStatus>, permuted: seq<AdapterStatus>, required: seq<string>)
    requires (forall r :: r in rs ==> Deliverable(gen, r)) && NoTies(rs) && multiset(rs) == multiset(permuted)
    ensures var a, b := DeliverAll(gen, reports, rs), DeliverAll(gen, reports, permuted);
            && a.Keys == b.Keys
            && (forall name :: name in a ==> SameReport(a[name], b[name]) && IsLatest(reports, rs, name, a[name]))
            && SnapshotTable(a, required, gen) == SnapshotTable(b, required, gen)
  {
    AllRowsConverge(gen, reports, rs, permuted);
    SameTables(gen, reports, rs, DeliverAll(gen, reports, rs), DeliverAll(gen, reports, permuted), required);
  }

  lemma AllRowsConverge(gen: int, reports: Reports, rs: seq<AdapterStatus>, permuted: seq<AdapterStatus>)
    requires (forall r :: r in rs ==> Deliverable(gen, r)) && NoTies(rs) && multiset(rs) == multiset(permuted)
    ensures RowsSame(gen, reports, rs, DeliverAll(gen, reports, rs), DeliverAll(gen, reports, permuted))
  {
    forall r ensures r in rs <==> r in permuted {
      assert r in multiset(rs) <==> r in multiset(permuted);
    }
    forall name
      ensures SameRow(gen, reports, rs, DeliverAll(gen, reports, rs), DeliverAll(gen, reports, permuted), name) {
      RowConverges(gen, reports, rs, permuted, name);
    }
  }

  /** Both tables have a row for the adapter or neither has, the same but for transition times, and the latest. */
  ghost predicate SameRow(gen: int, reports: Reports, rs: seq<AdapterStatus>, a: Reports, b: Reports, name: string) {
    && (name in a <==> name in b)
    && (name in a ==> SameReport(a[name], b[name]) && IsLatest(reports, rs, name, a[name])
                      && SnapshotOf(a[name], gen) == SnapshotOf(b[name], gen))
  }

  ghost predicate RowsSame(gen: int, reports: Reports, rs: seq<AdapterStatus>, a: Reports, b: Reports) {
    forall name {:trigger SameRow(gen, reports, rs, a, b, name)} :: SameRow(gen, reports, rs, a, b, name)
  }

  lemma SameTables(gen: int, reports: Reports, rs: seq<AdapterStatus>, a: Reports, b: Reports, required: seq<string>)
    requires RowsSame(gen, reports, rs, a, b)
    ensures a.Keys == b.Keys
    ensures forall name :: name in a ==> SameReport(a[name], b[name]) && IsLatest(reports, rs, name, a[name])
    ensures SnapshotTable(a, required, gen) == SnapshotTable(b, required, gen)
  {
    forall name
      ensures name in a <==> name in b
      ensures name in a ==> SameReport(a[name], b[name]) && IsLatest(reports, rs, name, a[name])
      ensures name in a ==> SnapshotOf(a[name], gen) == SnapshotOf(b[name], gen)
    {
      assert SameRow(gen, reports, rs, a, b, name);
    }
  }

  /** One adapter's row after two orders of delivery. */
  lemma RowConverges(gen: int, reports: Reports, rs: seq<AdapterStatus>, permuted: seq<AdapterStatus>, name: string)
    requires (forall r :: r in rs ==> Deliverable(gen, r)) && NoTies(rs) && forall r :: r in rs <==> r in permuted
    ensures SameRow(gen, reports, rs, DeliverAll(gen, reports, rs), DeliverAll(gen, reports, permuted), name)
  {
    var a, b := DeliverAll(gen, reports, rs), DeliverAll(gen, reports, permuted);
    DeliverAllKeepsLatest(gen, reports, rs, name);
    DeliverAllKeepsLatest(gen, reports, permuted, name);
    if name in a {
      LatestUnique(reports, rs, name, a[name], b[name]);
      SameReportSameSnapshot(a[name], b[name], gen);
    }
  }

  lemma LatestUnique(reports: Reports, rs: seq<AdapterStatus>, name: string, x: AdapterStatus, y: AdapterStatus)
    requires NoTies(rs) && IsLatest(reports, rs, name, x) && IsLatest(reports, rs, name, y)
    ensures SameReport(x, y)
  {
    if !(name in reports && x == reports[name]) {
      var r :| r in rs && r.adapter == name && SameReport(x, Arrived(r));
      if !(name in reports && y == reports[name]) {
        var q :| q in rs && q.adapter == name && SameReport(y, Arrived(q));
      }
    }
  }
}
