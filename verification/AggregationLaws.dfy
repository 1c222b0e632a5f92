/** What the aggregation rules promise: fixed point, independence of order, the witness of the sticky condition. */
module AggregationLaws {
  import opened Common
  import opened Conditions
  import opened SortedNames
  import opened Aggregation

  // ---------------------------------------------------------------------------------------
  // Reports as a table
  // ---------------------------------------------------------------------------------------

  type Reports = map<string, AdapterStatus>

  /** What normalisation keeps of a table of reports, one row an adapter. */
  function SnapshotTable(reports: Reports, required: seq<string>, gen: int): Snapshots {
    map name | name in reports && name in required && SnapshotOf(reports[name], gen).Some? ::
      SnapshotOf(reports[name], gen).value
  }

  ghost predicate Keyed(reports: Reports) {
    forall name :: name in reports ==> reports[name].adapter == name
  }

  /** The list holds exactly the rows of the table, in some order. */
  ghost predicate Lists(list: seq<AdapterStatus>, reports: Reports) {
    && Keyed(reports)
    && (forall r :: r in list ==> r.adapter in reports && reports[r.adapter] == r)
    && (forall name :: name in reports ==> reports[name] in list)
  }

  lemma {:induction false} NormalizedPrefix(
    list: seq<AdapterStatus>, reports: Reports, required: seq<string>, gen: int, n: nat)
    requires Lists(list, reports) && n <= |list|
    ensures forall name :: name in Normalized(list[..n], required, gen) ==>
              name in SnapshotTable(reports, required, gen) &&
              Normalized(list[..n], required, gen)[name] == SnapshotTable(reports, required, gen)[name]
    ensures forall i :: 0 <= i < n && list[i].adapter in SnapshotTable(reports, required, gen) ==>
              list[i].adapter in Normalized(list[..n], required, gen)
  {
    if n > 0 {
      NormalizedPrefix(list, reports, required, gen, n - 1);
      assert list[..n][..n - 1] == list[..n - 1];
      assert list[n - 1] in list;
    }
  }

  /** However the rows of the table are listed, normalisation gives the same snapshots. */
  lemma NormalizedOfTable(list: seq<AdapterStatus>, reports: Reports, required: seq<string>, gen: int)
    requires Lists(list, reports)
    ensures Normalized(list, required, gen) == SnapshotTable(reports, required, gen)
  {
    assert list[..|list|] == list;
    NormalizedPrefix(list, reports, required, gen, |list|);
    var table := SnapshotTable(reports, required, gen);
    forall name | name in table ensures name in Normalized(list, required, gen) {
      assert reports[name] in list;
      var i :| 0 <= i < |list| && list[i] == reports[name];
      assert list[i].adapter == name;
    }
  }

  ghost predicate UniqueAdapters(list: seq<AdapterStatus>) {
    forall i, j :: 0 <= i < j < |list| ==> list[i].adapter != list[j].adapter
  }

  /** The table of a list that has one row an adapter. */
  ghost function TableOf(list: seq<AdapterStatus>): (reports: Reports)
    requires UniqueAdapters(list)
    ensures Lists(list, reports)
  {
    map r | r in list :: r.adapter := r
  }

  // ---------------------------------------------------------------------------------------
  // Order
  // ---------------------------------------------------------------------------------------

  lemma PermutedListsTable(a: seq<AdapterStatus>, b: seq<AdapterStatus>)
    requires UniqueAdapters(a) && multiset(a) == multiset(b)
    ensures Lists(b, TableOf(a))
  {
    forall r ensures r in a <==> r in b {
      assert r in multiset(a) <==> r in multiset(b);
    }
  }

  /** The outcome does not depend on the order in which the stored reports are listed. */
  lemma ReportOrderIrrelevant(input: Input, permuted: seq<AdapterStatus>)
    requires UniqueAdapters(input.reports) && multiset(input.reports) == multiset(permuted)
    ensures Aggregate(input.(reports := permuted)) == Aggregate(input)
  {
    PermutedListsTable(input.reports, permuted);
    NormalizedOfTable(input.reports, TableOf(input.reports), input.required, input.generation);
    NormalizedOfTable(permuted, TableOf(input.reports), input.required, input.generation);
  }

  lemma SameMembers(a: seq<string>, b: seq<string>)
    requires multiset(a) == multiset(b)
    ensures forall x :: x in a <==> x in b
    ensures a == [] <==> b == []
  {
    forall x ensures x in a <==> x in b {
      assert x in multiset(a) <==> x in multiset(b);
    }
    assert |a| == |multiset(a)| && |b| == |multiset(b)|;
  }

  lemma EarliestOfSameTimes(a: seq<string>, b: seq<string>, snaps: Snapshots, at: Snapshot -> bool)
    requires forall x :: x in a <==> x in b
    ensures Earliest(TimesWhere(a, snaps, at)) == Earliest(TimesWhere(b, snaps, at))
    ensures TimesWhere(a, snaps, at) == [] <==> TimesWhere(b, snaps, at) == []
  {
    var s, t := TimesWhere(a, snaps, at), TimesWhere(b, snaps, at);
    assert forall x :: x in s <==> x in t;
    if s != [] { assert s[0] in t; }
    if t != [] { assert t[0] in s; }
  }

  lemma FirstGenerationIrrelevant(a: seq<string>, b: seq<string>, snaps: Snapshots)
    requires forall x :: x in a <==> x in b
    requires AllAvailable(a, snaps) && a != [] && b != []
    ensures OneGeneration(a, snaps, FirstGeneration(a, snaps)) <==> OneGeneration(b, snaps, FirstGeneration(b, snaps))
    ensures OneGeneration(a, snaps, FirstGeneration(a, snaps)) ==>
              FirstGeneration(a, snaps) == FirstGeneration(b, snaps)
  {
    assert a[0] in a && b[0] in b && a[0] in b && b[0] in a;
  }

  lemma MaxReportedOfSameMembers(a: seq<string>, b: seq<string>, snaps: Snapshots)
    requires forall x :: x in a <==> x in b
    ensures MaxReported(a, snaps) == MaxReported(b, snaps)
  {
  }

  lemma ReconciledIgnoresOrder(
    gen: int, refTime: Time, deleting: bool, prev: Option<Condition>,
    a: seq<string>, b: seq<string>, snaps: Snapshots, hasChildren: bool)
    requires multiset(a) == multiset(b)
    ensures Reconciled(gen, refTime, deleting, prev, a, snaps, hasChildren)
         == Reconciled(gen, refTime, deleting, prev, b, snaps, hasChildren)
  {
    SameMembers(a, b);
    var status := ReconciledStatus(gen, deleting, a, snaps, hasChildren);
    assert AllMet(gen, deleting, a, snaps) == AllMet(gen, deleting, b, snaps);
    assert ReconciledUpdated(gen, refTime, a, snaps) == ReconciledUpdated(gen, refTime, b, snaps) by {
      EarliestOfSameTimes(a, b, snaps, AtGeneration(gen));
    }
    assert UnmetMessage(gen, deleting, a, snaps) == UnmetMessage(gen, deleting, b, snaps) by {
      SortedFilterIgnoresOrder(a, b, Unmet(gen, deleting, snaps));
      SortedFilterIgnoresOrder(a, b, Reporting(snaps));
    }
    assert ReconciledGeneration(gen, status, a, snaps) == ReconciledGeneration(gen, status, b, snaps) by {
      MaxReportedOfSameMembers(a, b, snaps);
    }
  }

  lemma LastKnownStatusIgnoresOrder(prev: Option<Condition>, a: seq<string>, b: seq<string>, snaps: Snapshots)
    requires (forall x :: x in a <==> x in b) && (a == [] <==> b == [])
    ensures LastKnownStatus(prev, a, snaps) == LastKnownStatus(prev, b, snaps)
    ensures UniformlyAvailable(a, snaps, FirstGeneration(a, snaps)) ==
            UniformlyAvailable(b, snaps, FirstGeneration(b, snaps))
    ensures UniformlyAvailable(a, snaps, FirstGeneration(a, snaps)) ==>
              FirstGeneration(a, snaps) == FirstGeneration(b, snaps)
  {
    assert AllReported(a, snaps) == AllReported(b, snaps);
    assert AllAvailable(a, snaps) == AllAvailable(b, snaps);
    if a != [] && AllAvailable(a, snaps) {
      FirstGenerationIrrelevant(a, b, snaps);
    } else if prev.Some? {
      assert FailsAt(a, snaps, prev.value.observedGeneration) == FailsAt(b, snaps, prev.value.observedGeneration);
    }
  }

  lemma LastKnownUpdatedIgnoresOrder(
    prev: Option<Condition>, refTime: Time, a: seq<string>, b: seq<string>, snaps: Snapshots, status: Status,
    observed: int)
    requires (forall x :: x in a <==> x in b) && (a == [] <==> b == [])
    ensures LastKnownUpdated(prev, refTime, a, snaps, status, observed)
         == LastKnownUpdated(prev, refTime, b, snaps, status, observed)
  {
    LastKnownStatusIgnoresOrder(prev, a, b, snaps);
    assert FailsAt(a, snaps, observed) == FailsAt(b, snaps, observed);
    EarliestOfSameTimes(a, b, snaps, Anywhere());
    EarliestOfSameTimes(a, b, snaps, AtGeneration(observed));
  }

  lemma LastKnownIgnoresOrder(refTime: Time, prev: Option<Condition>, a: seq<string>, b: seq<string>, snaps: Snapshots)
    requires multiset(a) == multiset(b)
    ensures LastKnownReconciled(refTime, prev, a, snaps) == LastKnownReconciled(refTime, prev, b, snaps)
  {
    SameMembers(a, b);
    var status := LastKnownStatus(prev, a, snaps);
    var observed := LastKnownGeneration(prev, a, snaps);
    assert status == LastKnownStatus(prev, b, snaps) && observed == LastKnownGeneration(prev, b, snaps) by {
      LastKnownStatusIgnoresOrder(prev, a, b, snaps);
      MaxReportedOfSameMembers(a, b, snaps);
    }
    LastKnownUpdatedIgnoresOrder(prev, refTime, a, b, snaps, status, observed);
    assert AllReported(a, snaps) == AllReported(b, snaps);
    assert SomeUnavailable(a, snaps) == SomeUnavailable(b, snaps);
  }

  lemma {:induction false} AdapterConditionsAppend(
    a: seq<string>, b: seq<string>, snaps: Snapshots, prev: ConditionTable, refTime: Time)
    ensures AdapterConditions(a + b, snaps, prev, refTime)
         == AdapterConditions(a, snaps, prev, refTime) + AdapterConditions(b, snaps, prev, refTime)
  {
    if b == [] {
      assert a + b == a;
    } else {
      var n := |b| - 1;
      assert (a + b)[..|a + b| - 1] == a + b[..n];
      AdapterConditionsAppend(a, b[..n], snaps, prev, refTime);
    }
  }

  /** The conditions before, of, and after the `k`-th name. */
  lemma AdapterConditionsAt(b: seq<string>, k: nat, snaps: Snapshots, prev: ConditionTable, refTime: Time)
    requires k < |b|
    ensures AdapterConditions(b, snaps, prev, refTime) ==
            AdapterConditions(b[..k], snaps, prev, refTime) +
            (AdapterConditions([b[k]], snaps, prev, refTime) + AdapterConditions(b[k + 1..], snaps, prev, refTime))
  {
    AdapterConditionsAppend([b[k]], b[k + 1..], snaps, prev, refTime);
    AdapterConditionsAppend(b[..k], [b[k]] + b[k + 1..], snaps, prev, refTime);
    assert b == b[..k] + ([b[k]] + b[k + 1..]);
  }

  lemma TakeMiddleOut<T>(low: seq<T>, mid: seq<T>, high: seq<T>)
    ensures multiset(low + (mid + high)) == multiset(low + high) + multiset(mid)
  {
  }

  /** Taking one name out of the list takes its condition out of the result. */
  lemma AdapterConditionsRemove(
    b: seq<string>, k: nat, snaps: Snapshots, prev: ConditionTable, refTime: Time)
    requires k < |b|
    ensures multiset(AdapterConditions(b, snaps, prev, refTime))
         == multiset(AdapterConditions(b[..k] + b[k + 1..], snaps, prev, refTime))
          + multiset(AdapterConditions([b[k]], snaps, prev, refTime))
  {
    AdapterConditionsAt(b, k, snaps, prev, refTime);
    AdapterConditionsAppend(b[..k], b[k + 1..], snaps, prev, refTime);
    TakeMiddleOut(AdapterConditions(b[..k], snaps, prev, refTime), AdapterConditions([b[k]], snaps, prev, refTime),
                  AdapterConditions(b[k + 1..], snaps, prev, refTime));
  }

  lemma RemoveFromMultiset(b: seq<string>, k: nat)
    requires k < |b|
    ensures multiset(b[..k] + b[k + 1..]) == multiset(b) - multiset{b[k]}
  {
    assert b == b[..k] + ([b[k]] + b[k + 1..]);
  }

  /** Permuting the required adapters permutes the per-adapter conditions. */
  lemma {:induction false} AdapterConditionsPermute(
    a: seq<string>, b: seq<string>, snaps: Snapshots, prev: ConditionTable, refTime: Time)
    requires multiset(a) == multiset(b)
    ensures multiset(AdapterConditions(a, snaps, prev, refTime)) == multiset(AdapterConditions(b, snaps, prev, refTime))
    decreases |a|
  {
    SameMembers(a, b);
    if a != [] {
      var n := |a| - 1;
      assert a[n] in b;
      var k :| 0 <= k < |b| && b[k] == a[n];
      assert a[..n] + a[n + 1..] == a[..n];
      RemoveFromMultiset(a, n);
      RemoveFromMultiset(b, k);
      AdapterConditionsPermute(a[..n], b[..k] + b[k + 1..], snaps, prev, refTime);
      AdapterConditionsRemove(a, n, snaps, prev, refTime);
      AdapterConditionsRemove(b, k, snaps, prev, refTime);
    }
  }

  /** Permuting the required adapters leaves both resource conditions identical and permutes the rest. */
  lemma RequiredOrderIrrelevant(input: Input, permuted: seq<string>)
    requires multiset(input.required) == multiset(permuted)
    ensures var before, after := Aggregate(input), Aggregate(input.(required := permuted));
            after[..2] == before[..2] && multiset(after[2..]) == multiset(before[2..])
  {
    var prev := ByType(input.prevConditions);
    var snaps := Normalized(input.reports, input.required, input.generation);
    SameMembers(input.required, permuted);
    NormalizedSameRequired(input.reports, input.required, permuted, input.generation);
    ReconciledIgnoresOrder(input.generation, input.refTime, input.deletedTime.Some?, Lookup(prev, ReconciledType),
                           input.required, permuted, snaps, input.hasChildren);
    LastKnownIgnoresOrder(input.refTime, Lookup(prev, LastKnownReconciledType), input.required, permuted, snaps);
    AdapterConditionsPermute(input.required, permuted, snaps, prev, input.refTime);
    var before, after := Aggregate(input), Aggregate(input.(required := permuted));
    assert before[2..] == AdapterConditions(input.required, snaps, prev, input.refTime);
    assert after[2..] == AdapterConditions(permuted, snaps, prev, input.refTime);
  }

  lemma {:induction false} NormalizedSameRequired(list: seq<AdapterStatus>, a: seq<string>, b: seq<string>, gen: int)
    requires forall x :: x in a <==> x in b
    ensures Normalized(list, a, gen) == Normalized(list, b, gen)
  {
    if list != [] { NormalizedSameRequired(list[..|list| - 1], a, b, gen); }
  }

  // ---------------------------------------------------------------------------------------
  // Fixed point
  // ---------------------------------------------------------------------------------------

  lemma ReconciledIsFixed(
    gen: int, refTime: Time, deleting: bool, prev: Option<Condition>,
    required: seq<string>, snaps: Snapshots, hasChildren: bool)
    ensures var c := Reconciled(gen, refTime, deleting, prev, required, snaps, hasChildren);
            Reconciled(gen, refTime, deleting, Some(c), required, snaps, hasChildren) == c
  {
  }

  lemma LastKnownIsFixed(refTime: Time, prev: Option<Condition>, required: seq<string>, snaps: Snapshots)
    ensures var c := LastKnownReconciled(refTime, prev, required, snaps);
            LastKnownReconciled(refTime, Some(c), required, snaps) == c
  {
    var c := LastKnownReconciled(refTime, prev, required, snaps);
    assert LastKnownStatus(Some(c), required, snaps) == c.status;
    assert LastKnownGeneration(Some(c), required, snaps) == c.observedGeneration;
  }

  ghost predicate TypesDistinct(s: seq<Condition>) {
    forall i, j :: 0 <= i < j < |s| ==> s[i].ctype != s[j].ctype
  }

  lemma {:induction false} ByTypeFinds(s: seq<Condition>, i: nat)
    requires TypesDistinct(s) && i < |s|
    ensures s[i].ctype in ByType(s) && ByType(s)[s[i].ctype] == s[i]
  {
    var n := |s| - 1;
    if i < n {
      ByTypeFinds(s[..n], i);
      assert s[..n][i] == s[i];
    }
  }

  lemma {:induction false} ByTypeOnlyListed(s: seq<Condition>, t: ConditionType)
    requires t in ByType(s)
    ensures exists i :: 0 <= i < |s| && s[i] == ByType(s)[t] && s[i].ctype == t
  {
    var n := |s| - 1;
    if s[n].ctype != t {
      ByTypeOnlyListed(s[..n], t);
      var i :| 0 <= i < n && s[..n][i] == ByType(s[..n])[t] && s[..n][i].ctype == t;
      assert s[i] == ByType(s)[t];
    }
  }

  /** The conditions for the adapters come from required adapters, in order. */
  lemma {:induction false} AdapterConditionsFrom(
    required: seq<string>, snaps: Snapshots, prev: ConditionTable, refTime: Time, i: nat) returns (k: nat)
    requires i < |AdapterConditions(required, snaps, prev, refTime)|
    ensures k < |required| && required[k] in snaps
    ensures AdapterConditions(required, snaps, prev, refTime)[i] ==
            ConditionOf(required[k], snaps[required[k]], prev, refTime)
  {
    var n := |required| - 1;
    if i < |AdapterConditions(required[..n], snaps, prev, refTime)| {
      k := AdapterConditionsFrom(required[..n], snaps, prev, refTime, i);
    } else {
      k := n;
    }
  }

  lemma {:induction false} AdapterTypesDistinct(
    required: seq<string>, snaps: Snapshots, prev: ConditionTable, refTime: Time)
    requires DistinctTypes(required)
    ensures TypesDistinct(AdapterConditions(required, snaps, prev, refTime))
  {
    if required != [] {
      var n := |required| - 1;
      var before := AdapterConditions(required[..n], snaps, prev, refTime);
      AdapterTypesDistinct(required[..n], snaps, prev, refTime);
      if required[n] in snaps {
        forall i | 0 <= i < |before| ensures before[i].ctype != MapAdapterToConditionType(required[n]) {
          var k := AdapterConditionsFrom(required[..n], snaps, prev, refTime, i);
          assert required[..n][k] == required[k];
        }
      }
    }
  }

  lemma AggregateTypesDistinct(
    gen: int, refTime: Time, deleting: bool, prev: ConditionTable,
    required: seq<string>, snaps: Snapshots, hasChildren: bool)
    requires DistinctTypes(required)
    ensures TypesDistinct(AggregateOver(gen, refTime, deleting, prev, required, snaps, hasChildren))
  {
    var adapters := AdapterConditions(required, snaps, prev, refTime);
    AdapterTypesDistinct(required, snaps, prev, refTime);
    forall i | 0 <= i < |adapters| ensures adapters[i].ctype.AdapterType? {
      var k := AdapterConditionsFrom(required, snaps, prev, refTime, i);
    }
    TypesDistinctAfter(
      Reconciled(gen, refTime, deleting, Lookup(prev, ReconciledType), required, snaps, hasChildren),
      LastKnownReconciled(refTime, Lookup(prev, LastKnownReconciledType), required, snaps), adapters);
  }

  /** The adapter conditions are those of the reporting adapters, in order. */
  lemma {:induction false} AdapterConditionTypes(
    required: seq<string>, snaps: Snapshots, prev: ConditionTable, refTime: Time)
    ensures var adapters, names := AdapterConditions(required, snaps, prev, refTime),
            Filter(required, Reporting(snaps));
            |adapters| == |names| &&
            forall i :: 0 <= i < |names| ==> adapters[i].ctype == MapAdapterToConditionType(names[i])
  {
    if required != [] { AdapterConditionTypes(required[..|required| - 1], snaps, prev, refTime); }
  }

  /** Exactly: no two aggregated conditions share a type iff no two reporting adapters share theirs. */
  lemma AggregateTypesExactly(
    gen: int, refTime: Time, deleting: bool, prev: ConditionTable,
    required: seq<string>, snaps: Snapshots, hasChildren: bool)
    ensures TypesDistinct(AggregateOver(gen, refTime, deleting, prev, required, snaps, hasChildren)) <==>
            DistinctTypes(Filter(required, Reporting(snaps)))
  {
    var adapters, names := AdapterConditions(required, snaps, prev, refTime), Filter(required, Reporting(snaps));
    var reconciled := Reconciled(gen, refTime, deleting, Lookup(prev, ReconciledType), required, snaps, hasChildren);
    var lastKnown := LastKnownReconciled(refTime, Lookup(prev, LastKnownReconciledType), required, snaps);
    AdapterConditionTypes(required, snaps, prev, refTime);
    if DistinctTypes(names) {
      TypesDistinctAfter(reconciled, lastKnown, adapters);
    } else {
      var i, j :| 0 <= i < j < |names| && MapAdapterToConditionType(names[i]) == MapAdapterToConditionType(names[j]);
      var all := [reconciled, lastKnown] + adapters;
      assert all[i + 2] == adapters[i] && all[j + 2] == adapters[j];
    }
  }

  lemma TypesDistinctAfter(reconciled: Condition, lastKnown: Condition, adapters: seq<Condition>)
    requires reconciled.ctype == ReconciledType && lastKnown.ctype == LastKnownReconciledType
    requires TypesDistinct(adapters) && forall i :: 0 <= i < |adapters| ==> adapters[i].ctype.AdapterType?
    ensures TypesDistinct([reconciled, lastKnown] + adapters)
  {
  }

  /** With previous conditions that agree with the result on every listed type, the result is the same. */
  lemma {:induction false} AdapterConditionsFixed(
    required: seq<string>, snaps: Snapshots, prev: ConditionTable, out: ConditionTable, refTime: Time)
    requires forall name :: name in required && name in snaps ==>
               Lookup(out, MapAdapterToConditionType(name)) == Some(ConditionOf(name, snaps[name], prev, refTime))
    ensures AdapterConditions(required, snaps, out, refTime) == AdapterConditions(required, snaps, prev, refTime)
  {
    if required != [] {
      var n := |required| - 1;
      assert required[n] in required;
      AdapterConditionsFixed(required[..n], snaps, prev, out, refTime);
    }
  }

  lemma {:induction false} AdapterConditionsContain(
    required: seq<string>, snaps: Snapshots, prev: ConditionTable, refTime: Time, name: string)
    requires name in required && name in snaps
    ensures ConditionOf(name, snaps[name], prev, refTime) in AdapterConditions(required, snaps, prev, refTime)
  {
    var n := |required| - 1;
    if required[n] != name {
      assert name in required[..n];
      AdapterConditionsContain(required[..n], snaps, prev, refTime, name);
    }
  }

  lemma ListedByType(conditions: seq<Condition>, adapters: seq<Condition>, c: Condition)
    requires TypesDistinct(conditions) && |conditions| >= 2 && conditions[2..] == adapters && c in adapters
    ensures Lookup(ByType(conditions), c.ctype) == Some(c)
  {
    var i :| 0 <= i < |adapters| && adapters[i] == c;
    assert conditions[i + 2] == adapters[i];
    ByTypeFinds(conditions, i + 2);
  }

  /** The table of the result, type by type. */
  lemma AggregateTable(
    gen: int, refTime: Time, deleting: bool, prev: ConditionTable,
    required: seq<string>, snaps: Snapshots, hasChildren: bool)
    requires DistinctTypes(required)
    ensures var out := ByType(AggregateOver(gen, refTime, deleting, prev, required, snaps, hasChildren));
            && Lookup(out, ReconciledType) ==
               Some(Reconciled(gen, refTime, deleting, Lookup(prev, ReconciledType), required, snaps, hasChildren))
            && Lookup(out, LastKnownReconciledType) ==
               Some(LastKnownReconciled(refTime, Lookup(prev, LastKnownReconciledType), required, snaps))
            && forall name :: name in required && name in snaps ==>
                 Lookup(out, MapAdapterToConditionType(name)) == Some(ConditionOf(name, snaps[name], prev, refTime))
  {
    var conditions := AggregateOver(gen, refTime, deleting, prev, required, snaps, hasChildren);
    AggregateTypesDistinct(gen, refTime, deleting, prev, required, snaps, hasChildren);
    ByTypeFinds(conditions, 0);
    ByTypeFinds(conditions, 1);
    forall name | name in required && name in snaps
      ensures Lookup(ByType(conditions), MapAdapterToConditionType(name)) ==
              Some(ConditionOf(name, snaps[name], prev, refTime))
    {
      AdapterConditionsContain(required, snaps, prev, refTime, name);
      ListedByType(conditions, AdapterConditions(required, snaps, prev, refTime),
                   ConditionOf(name, snaps[name], prev, refTime));
    }
  }

  /** Aggregating again, with the result as the previous conditions, changes nothing: no time, generation or reason. */
  lemma AggregateIsFixedPoint(input: Input)
    requires DistinctTypes(input.required)
    ensures Aggregate(input.(prevConditions := Aggregate(input))) == Aggregate(input)
  {
    var prev := ByType(input.prevConditions);
    var snaps := Normalized(input.reports, input.required, input.generation);
    var out := ByType(Aggregate(input));
    AggregateTable(input.generation, input.refTime, input.deletedTime.Some?, prev, input.required, snaps,
                   input.hasChildren);
    ReconciledIsFixed(input.generation, input.refTime, input.deletedTime.Some?, Lookup(prev, ReconciledType),
                      input.required, snaps, input.hasChildren);
    LastKnownIsFixed(input.refTime, Lookup(prev, LastKnownReconciledType), input.required, snaps);
    AdapterConditionsFixed(input.required, snaps, prev, out, input.refTime);
  }

  // ---------------------------------------------------------------------------------------
  // One step of the sticky condition
  // ---------------------------------------------------------------------------------------

  /** A True LastKnownReconciled is either seen now, uniformly at its generation, or was True there before. */
  lemma LastKnownWitness(refTime: Time, prev: Option<Condition>, required: seq<string>, snaps: Snapshots)
    ensures var c := LastKnownReconciled(refTime, prev, required, snaps);
            c.status == CondTrue ==>
              || UniformlyAvailable(required, snaps, c.observedGeneration)
              || (prev.Some? && prev.value.status == CondTrue && prev.value.observedGeneration == c.observedGeneration)
  {
  }

  // ---------------------------------------------------------------------------------------
  // Times
  // ---------------------------------------------------------------------------------------

  ghost predicate TimesSet(c: Condition) {
    c.createdTime != ZERO_TIME && c.lastUpdatedTime != ZERO_TIME && c.lastTransitionTime != ZERO_TIME
  }

  ghost predicate TableTimesSet(table: ConditionTable) {
    forall t :: t in table ==> TimesSet(table[t])
  }

  ghost predicate TableKeyed(table: ConditionTable) {
    forall t :: t in table ==> table[t].ctype == t
  }

  ghost predicate SnapshotTimesSet(snaps: Snapshots) {
    forall name :: name in snaps ==> snaps[name].observedTime != ZERO_TIME
  }

  /** No time that aggregation computes is the zero time, so nothing is defaulted when the conditions are written. */
  lemma AggregateSetsTimes(
    gen: int, refTime: Time, deleting: bool, prev: ConditionTable,
    required: seq<string>, snaps: Snapshots, hasChildren: bool)
    requires refTime != ZERO_TIME && TableTimesSet(prev) && SnapshotTimesSet(snaps)
    ensures forall c :: c in AggregateOver(gen, refTime, deleting, prev, required, snaps, hasChildren) ==> TimesSet(c)
  {
    var prevReconciled := Lookup(prev, ReconciledType);
    assert TimesSet(Reconciled(gen, refTime, deleting, prevReconciled, required, snaps, hasChildren));
    LastKnownSetsTimes(refTime, Lookup(prev, LastKnownReconciledType), required, snaps);
    var adapters := AdapterConditions(required, snaps, prev, refTime);
    forall i | 0 <= i < |adapters| ensures TimesSet(adapters[i]) {
      var k := AdapterConditionsFrom(required, snaps, prev, refTime, i);
    }
  }

  lemma LastKnownSetsTimes(refTime: Time, prev: Option<Condition>, required: seq<string>, snaps: Snapshots)
    requires refTime != ZERO_TIME && (prev.Some? ==> TimesSet(prev.value)) && SnapshotTimesSet(snaps)
    ensures TimesSet(LastKnownReconciled(refTime, prev, required, snaps))
  {
    var c := LastKnownReconciled(refTime, prev, required, snaps);
    if required != [] && UniformlyAvailable(required, snaps, FirstGeneration(required, snaps)) {
      assert required[0] in required;
      assert snaps[required[0]].observedTime in TimesWhere(required, snaps, Anywhere());
    }
    if FailsAt(required, snaps, c.observedGeneration) {
      var name :| name in required && name in snaps && !snaps[name].availableTrue &&
                  snaps[name].observedGeneration == c.observedGeneration;
      assert snaps[name].observedTime in TimesWhere(required, snaps, AtGeneration(c.observedGeneration));
    }
  }

  /** Rewriting keeps the creation time of a type, and its transition time while its status stays. */
  ghost predicate Succeeds(before: Condition, after: Condition) {
    && after.createdTime == before.createdTime
    && (after.status == before.status ==> after.lastTransitionTime == before.lastTransitionTime)
  }

  /** Every condition that aggregation computes succeeds the previous one of its type. */
  lemma AggregateSucceeds(
    gen: int, refTime: Time, deleting: bool, prev: ConditionTable,
    required: seq<string>, snaps: Snapshots, hasChildren: bool, c: Condition)
    requires c in AggregateOver(gen, refTime, deleting, prev, required, snaps, hasChildren)
    requires c.ctype in prev && prev[c.ctype].createdTime != ZERO_TIME
    ensures Succeeds(prev[c.ctype], c)
  {
    if c in AdapterConditions(required, snaps, prev, refTime) {
      var i :| 0 <= i < |AdapterConditions(required, snaps, prev, refTime)| &&
               AdapterConditions(required, snaps, prev, refTime)[i] == c;
      var k := AdapterConditionsFrom(required, snaps, prev, refTime, i);
    }
  }
}
