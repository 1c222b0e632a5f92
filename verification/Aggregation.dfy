/**
 * Status aggregation: adapter reports and previous conditions are folded into Reconciled,
 * LastKnownReconciled and one condition per required adapter. The functions say what each
 * rule computes; the methods are the loops that compute it.
 */
module Aggregation {
  import opened Common
  import opened Conditions
  import opened SortedNames

  /** One required adapter's signal after normalisation. */
  datatype Snapshot = Snapshot(
    observedTime: Time, reason: Option<string>, message: Option<string>,
    availableTrue: bool, finalizedTrue: bool, observedGeneration: int)

  type Snapshots = map<string, Snapshot>

  // ---------------------------------------------------------------------------------------
  // Normalisation
  // ---------------------------------------------------------------------------------------

  /** What a report says at generation `gen`; nothing when it is from the future or has no True/False Available. */
  function SnapshotOf(report: AdapterStatus, gen: int): Option<Snapshot> {
    var available := FirstOfType(report.conditions, Available);
    var finalized := FirstOfType(report.conditions, Finalized);
    if report.observedGeneration > gen then None
    else if available.None? then None
    else if available.value.status != ReportedTrue && available.value.status != ReportedFalse then None
    else Some(Snapshot(report.lastReportTime, available.value.reason, available.value.message,
                       available.value.status == ReportedTrue,
                       finalized.Some? && finalized.value.status == ReportedTrue,
                       report.observedGeneration))
  }

  function Normalized(list: seq<AdapterStatus>, required: seq<string>, gen: int): Snapshots {
    if list == [] then map[]
    else
      var n := |list| - 1;
      var before := Normalized(list[..n], required, gen);
      var snap := SnapshotOf(list[n], gen);
      if list[n].adapter in required && snap.Some? then before[list[n].adapter := snap.value] else before
  }

  method FindCondition(conditions: seq<AdapterCondition>, t: AdapterConditionType)
    returns (found: Option<AdapterCondition>)
    ensures found == FirstOfType(conditions, t)
  {
    for i := 0 to |conditions|
      invariant FirstOfType(conditions, t) == FirstOfType(conditions[i..], t)
    {
      assert conditions[i..][1..] == conditions[i + 1..];
      if conditions[i].ctype == t { return Some(conditions[i]); }
    }
    return None;
  }

  method NormalizeAdapterReports(list: seq<AdapterStatus>, required: seq<string>, gen: int) returns (out: Snapshots)
    ensures out == Normalized(list, required, gen)
  {
    out := map[];
    for i := 0 to |list|
      invariant out == Normalized(list[..i], required, gen)
    {
      var report := list[i];
      assert list[..i + 1][..i] == list[..i];
      if report.adapter !in required || report.observedGeneration > gen { continue; }
      var available := FindCondition(report.conditions, Available);
      if available.None? { continue; }
      if available.value.status != ReportedTrue && available.value.status != ReportedFalse { continue; }
      var finalized := FindCondition(report.conditions, Finalized);
      out := out[report.adapter := Snapshot(
        report.lastReportTime, available.value.reason, available.value.message,
        available.value.status == ReportedTrue,
        finalized.Some? && finalized.value.status == ReportedTrue,
        report.observedGeneration)];
    }
    assert list[..|list|] == list;
  }

  // ---------------------------------------------------------------------------------------
  // Reconciled
  // ---------------------------------------------------------------------------------------

  /** The adapter has reported at `gen`, and reports Available (or, during deletion, Finalized) True. */
  predicate Met(name: string, gen: int, deleting: bool, snaps: Snapshots) {
    && name in snaps
    && snaps[name].observedGeneration == gen
    && (if deleting then snaps[name].finalizedTrue else snaps[name].availableTrue)
  }

  predicate AllMet(gen: int, deleting: bool, required: seq<string>, snaps: Snapshots) {
    required != [] && forall name :: name in required ==> Met(name, gen, deleting, snaps)
  }

  function ReconciledStatus(
    gen: int, deleting: bool, required: seq<string>, snaps: Snapshots, hasChildren: bool): Status {
    if AllMet(gen, deleting, required, snaps) && !(deleting && hasChildren) then CondTrue else CondFalse
  }

  /** The highest generation any required adapter has reported, or 0. */
  function MaxReported(required: seq<string>, snaps: Snapshots): (g: int)
    ensures g >= 0
    ensures forall name :: name in required && name in snaps ==> snaps[name].observedGeneration <= g
    ensures g == 0 || exists name :: name in required && name in snaps && snaps[name].observedGeneration == g
  {
    if required == [] then 0
    else
      var n := |required| - 1;
      var before := MaxReported(required[..n], snaps);
      assert required == required[..n] + [required[n]];
      if required[n] in snaps && snaps[required[n]].observedGeneration > before
      then snaps[required[n]].observedGeneration
      else before
  }

  /** Report times of the required adapters whose snapshot satisfies `at`. */
  function TimesWhere(required: seq<string>, snaps: Snapshots, at: Snapshot -> bool): (times: seq<Time>)
    ensures forall t :: t in times <==>
              exists name :: name in required && name in snaps && at(snaps[name]) && snaps[name].observedTime == t
  {
    if required == [] then []
    else
      var n := |required| - 1;
      assert required == required[..n] + [required[n]];
      TimesWhere(required[..n], snaps, at) +
      if required[n] in snaps && at(snaps[required[n]]) then [snaps[required[n]].observedTime] else []
  }

  /** `minTime`: the earliest of the times, the zero time of none. */
  function Earliest(times: seq<Time>): (t: Time)
    ensures times == [] ==> t == ZERO_TIME
    ensures times != [] ==> t in times && forall u :: u in times ==> t <= u
  {
    if times == [] then ZERO_TIME
    else if |times| == 1 then times[0]
    else
      var n := |times| - 1;
      var before := Earliest(times[..n]);
      assert times == times[..n] + [times[n]];
      if times[n] < before then times[n] else before
  }

  method MinTime(times: seq<Time>) returns (t: Time)
    ensures t == Earliest(times)
  {
    if |times| == 0 { return ZERO_TIME; }
    t := times[0];
    for i := 1 to |times|
      invariant t == Earliest(times[..i])
    {
      assert times[..i + 1][..i] == times[..i];
      if times[i] < t { t := times[i]; }
    }
    assert times[..|times|] == times;
  }

  function AtGeneration(gen: int): Snapshot -> bool { (s: Snapshot) => s.observedGeneration == gen }

  function ReconciledUpdated(gen: int, refTime: Time, required: seq<string>, snaps: Snapshots): Time {
    var times := TimesWhere(required, snaps, AtGeneration(gen));
    if times == [] then refTime else Earliest(times)
  }

  function ReconciledTransition(
    gen: int, refTime: Time, prev: Option<Condition>, status: Status, updated: Time): Time
  {
    if prev.None? then updated
    else if prev.value.status == status then prev.value.lastTransitionTime
    else if prev.value.status == CondTrue && status == CondFalse && gen > prev.value.observedGeneration then refTime
    else updated
  }

  function Unmet(gen: int, deleting: bool, snaps: Snapshots): string -> bool {
    name => !Met(name, gen, deleting, snaps)
  }

  function Reporting(snaps: Snapshots): string -> bool {
    name => name in snaps
  }

  /** The diagnostic of a False Reconciled: who is not ready, and who has reported at all, in name order. */
  function UnmetMessage(gen: int, deleting: bool, required: seq<string>, snaps: Snapshots): Message {
    UnmetAdapters(deleting, SortStrings(Filter(required, Unmet(gen, deleting, snaps))),
                  SortStrings(Filter(required, Reporting(snaps))))
  }

  function MessageText(m: Message): string {
    match m
    case MetAll => "All required adapters reported Available=True or Finalized=True at the current generation"
    case MetButChildren =>
      "Deletion in progress. All required adapters reported Finalized=True but child resources still exist"
    case UnmetAdapters(finalizing, unmet, reporting) =>
      "Required adapters not reporting " + (if finalizing then "Finalized" else "Available") + "=True: [" +
      Join(unmet, ", ") + "]. Currently reporting: [" + Join(reporting, ", ") + "]"
    case KnownAll => "All required adapters report Available=True for the tracked generation"
    case KnownMissing => "Required adapters have not yet reported status"
    case KnownUnavailable => "One or more required adapters report Available=False"
    case KnownMixed => "Required adapters do not report a consistent Available state"
    case AdapterMessage(text) => text
  }

  function ReconciledReason(gen: int, deleting: bool, required: seq<string>, snaps: Snapshots, status: Status): Reason {
    if status == CondTrue then ReconciledAll
    else if deleting && AllMet(gen, deleting, required, snaps) then ReconciledWaitingForChildren
    else ReconciledMissingAdapters
  }

  function ReconciledMessage(
    gen: int, deleting: bool, required: seq<string>, snaps: Snapshots, status: Status): Message {
    if status == CondTrue then MetAll
    else if deleting && AllMet(gen, deleting, required, snaps) then MetButChildren
    else UnmetMessage(gen, deleting, required, snaps)
  }

  /** A condition that is replaced keeps its creation time; a first one is created at the reference time. */
  function CreatedTime(prev: Option<Condition>, refTime: Time): Time {
    if prev.Some? && prev.value.createdTime != ZERO_TIME then prev.value.createdTime else refTime
  }

  function ReconciledGeneration(gen: int, status: Status, required: seq<string>, snaps: Snapshots): int {
    if status == CondTrue then gen else MaxReported(required, snaps)
  }

  function Reconciled(
    gen: int, refTime: Time, deleting: bool, prev: Option<Condition>,
    required: seq<string>, snaps: Snapshots, hasChildren: bool): Condition
  {
    var status := ReconciledStatus(gen, deleting, required, snaps, hasChildren);
    var updated := ReconciledUpdated(gen, refTime, required, snaps);
    Condition(
      ReconciledType, status, ReconciledGeneration(gen, status, required, snaps),
      Some(ReconciledReason(gen, deleting, required, snaps, status)),
      Some(ReconciledMessage(gen, deleting, required, snaps, status)),
      CreatedTime(prev, refTime), updated, ReconciledTransition(gen, refTime, prev, status, updated))
  }

  method BuildUnmetMessage(gen: int, deleting: bool, required: seq<string>, snaps: Snapshots) returns (message: Message)
    ensures message == UnmetMessage(gen, deleting, required, snaps)
  {
    var notReady: seq<string>, reporting: seq<string> := [], [];
    for i := 0 to |required|
      invariant notReady == Filter(required[..i], Unmet(gen, deleting, snaps))
      invariant reporting == Filter(required[..i], Reporting(snaps))
    {
      assert required[..i + 1][..i] == required[..i];
      if !Met(required[i], gen, deleting, snaps) { notReady := notReady + [required[i]]; }
      if required[i] in snaps { reporting := reporting + [required[i]]; }
    }
    assert required[..|required|] == required;
    message := UnmetAdapters(deleting, SortStrings(notReady), SortStrings(reporting));
  }

  method ComputeReconciledObservedGeneration(gen: int, status: Status, required: seq<string>, snaps: Snapshots)
    returns (g: int)
    ensures g == ReconciledGeneration(gen, status, required, snaps)
  {
    if status == CondTrue { return gen; }
    g := ComputeMaxReported(required, snaps);
  }

  method ComputeMaxReported(required: seq<string>, snaps: Snapshots) returns (g: int)
    ensures g == MaxReported(required, snaps)
  {
    g := 0;
    for i := 0 to |required|
      invariant g == MaxReported(required[..i], snaps)
    {
      assert required[..i + 1][..i] == required[..i];
      if required[i] in snaps && snaps[required[i]].observedGeneration > g {
        g := snaps[required[i]].observedGeneration;
      }
    }
    assert required[..|required|] == required;
  }

  method CollectTimes(required: seq<string>, snaps: Snapshots, at: Snapshot -> bool) returns (times: seq<Time>)
    ensures times == TimesWhere(required, snaps, at)
  {
    times := [];
    for i := 0 to |required|
      invariant times == TimesWhere(required[..i], snaps, at)
    {
      assert required[..i + 1][..i] == required[..i];
      if required[i] in snaps && at(snaps[required[i]]) { times := times + [snaps[required[i]].observedTime]; }
    }
    assert required[..|required|] == required;
  }

  method ComputeReconciled(
    gen: int, refTime: Time, deletedTime: Option<Time>, prev: Option<Condition>,
    required: seq<string>, snaps: Snapshots, hasChildren: bool) returns (c: Condition)
    ensures c == Reconciled(gen, refTime, deletedTime.Some?, prev, required, snaps, hasChildren)
  {
    var isDeleting := deletedTime.Some?;
    var allMet := |required| > 0;
    for i := 0 to |required|
      invariant allMet == (required != [])
      invariant forall name :: name in required[..i] ==> Met(name, gen, isDeleting, snaps)
    {
      assert required[..i + 1] == required[..i] + [required[i]];
      if !Met(required[i], gen, isDeleting, snaps) {
        allMet := false;
        assert required[i] in required;
        break;
      }
    }
    assert required[..|required|] == required;
    assert allMet == AllMet(gen, isDeleting, required, snaps);

    var status := CondTrue;
    if !allMet || (isDeleting && hasChildren) { status := CondFalse; }
    var reason: Reason, message: Message;
    if status == CondTrue {
      reason, message := ReconciledAll, MetAll;
    } else if isDeleting && allMet {
      reason, message := ReconciledWaitingForChildren, MetButChildren;
    } else {
      reason := ReconciledMissingAdapters;
      message := BuildUnmetMessage(gen, isDeleting, required, snaps);
    }
    var times := CollectTimes(required, snaps, AtGeneration(gen));
    var updated := refTime;
    if times != [] { updated := MinTime(times); }
    var observed := ComputeReconciledObservedGeneration(gen, status, required, snaps);
    c := Condition(ReconciledType, status, observed, Some(reason), Some(message), CreatedTime(prev, refTime), updated,
                   ReconciledTransition(gen, refTime, prev, status, updated));
  }

  // ---------------------------------------------------------------------------------------
  // LastKnownReconciled
  // ---------------------------------------------------------------------------------------

  predicate AllReported(required: seq<string>, snaps: Snapshots) {
    forall name :: name in required ==> name in snaps
  }

  predicate AllAvailable(required: seq<string>, snaps: Snapshots) {
    forall name :: name in required ==> name in snaps && snaps[name].availableTrue
  }

  /** The generation of the first required adapter, which the rules use only when all agree on it. */
  function FirstGeneration(required: seq<string>, snaps: Snapshots): int {
    if required != [] && required[0] in snaps then snaps[required[0]].observedGeneration else 0
  }

  predicate OneGeneration(required: seq<string>, snaps: Snapshots, g: int) {
    forall name :: name in required && name in snaps ==> snaps[name].observedGeneration == g
  }

  /** All required adapters report Available=True, all at generation `g`. */
  predicate UniformlyAvailable(required: seq<string>, snaps: Snapshots, g: int) {
    required != [] && AllAvailable(required, snaps) && OneGeneration(required, snaps, g)
  }

  predicate WasTrue(prev: Option<Condition>) {
    prev.Some? && prev.value.status == CondTrue
  }

  predicate FailsAt(required: seq<string>, snaps: Snapshots, g: int) {
    exists name :: name in required && name in snaps && !snaps[name].availableTrue &&
      snaps[name].observedGeneration == g
  }

  function LastKnownStatus(prev: Option<Condition>, required: seq<string>, snaps: Snapshots): Status {
    if required == [] || !AllReported(required, snaps) then CondFalse
    else if AllAvailable(required, snaps) then
      if OneGeneration(required, snaps, FirstGeneration(required, snaps)) || WasTrue(prev) then CondTrue else CondFalse
    else if WasTrue(prev) && !FailsAt(required, snaps, prev.value.observedGeneration) then CondTrue
    else CondFalse
  }

  function LastKnownGeneration(prev: Option<Condition>, required: seq<string>, snaps: Snapshots): int {
    if required == [] then 0
    else if LastKnownStatus(prev, required, snaps) == CondTrue then
      if UniformlyAvailable(required, snaps, FirstGeneration(required, snaps)) then FirstGeneration(required, snaps)
      else if prev.Some? then prev.value.observedGeneration else 0
    else if MaxReported(required, snaps) != 0 then MaxReported(required, snaps)
    else if prev.Some? then prev.value.observedGeneration else 0
  }

  function Anywhere(): Snapshot -> bool { s => true }

  function LastKnownUpdated(
    prev: Option<Condition>, refTime: Time, required: seq<string>, snaps: Snapshots, status: Status,
    observed: int): Time
  {
    if required == [] then refTime
    else if UniformlyAvailable(required, snaps, FirstGeneration(required, snaps)) then
      Earliest(TimesWhere(required, snaps, Anywhere()))
    else if status == CondFalse && FailsAt(required, snaps, observed) then
      Earliest(TimesWhere(required, snaps, AtGeneration(observed)))
    else if prev.Some? then prev.value.lastUpdatedTime
    else refTime
  }

  function GenericTransition(prev: Option<Condition>, status: Status, updated: Time): Time {
    if prev.Some? && prev.value.status == status then prev.value.lastTransitionTime else updated
  }

  predicate SomeUnavailable(required: seq<string>, snaps: Snapshots) {
    exists name :: name in required && name in snaps && !snaps[name].availableTrue
  }

  function LastKnownReason(required: seq<string>, snaps: Snapshots, status: Status): Reason {
    if status == CondTrue then AllAdaptersReconciled
    else if required == [] || !AllReported(required, snaps) then AdaptersMissingReports
    else if SomeUnavailable(required, snaps) then AdapterReportedNotAvailable
    else AdaptersNotAtSameGeneration
  }

  function LastKnownMessage(required: seq<string>, snaps: Snapshots, status: Status): Message {
    if status == CondTrue then KnownAll
    else if required == [] || !AllReported(required, snaps) then KnownMissing
    else if SomeUnavailable(required, snaps) then KnownUnavailable
    else KnownMixed
  }

  function LastKnownReconciled(
    refTime: Time, prev: Option<Condition>, required: seq<string>, snaps: Snapshots): Condition {
    var status := LastKnownStatus(prev, required, snaps);
    var observed := LastKnownGeneration(prev, required, snaps);
    var updated := LastKnownUpdated(prev, refTime, required, snaps, status, observed);
    Condition(
      LastKnownReconciledType, status, observed,
      Some(LastKnownReason(required, snaps, status)), Some(LastKnownMessage(required, snaps, status)),
      CreatedTime(prev, refTime), updated, GenericTransition(prev, status, updated))
  }

  /** The fold over the required adapters: all True, the first generation seen, and whether another one occurs. */
  method SameGenerationAllTrue(required: seq<string>, snaps: Snapshots) returns (allTrue: bool, gen: int, mixed: bool)
    ensures required == [] ==> allTrue && gen == 1 && !mixed
    ensures required != [] ==> allTrue == AllAvailable(required, snaps)
    ensures required != [] && allTrue ==>
              gen == FirstGeneration(required, snaps) && mixed == !OneGeneration(required, snaps, gen)
    ensures required != [] && !allTrue ==> gen == 0 && !mixed
  {
    if |required| == 0 { return true, 1, false; }
    var g: Option<int> := None;
    mixed := false;
    for i := 0 to |required|
      invariant AllAvailable(required[..i], snaps)
      invariant if i == 0 then g.None? && !mixed else g == Some(FirstGeneration(required, snaps))
      invariant i > 0 ==> mixed == !OneGeneration(required[..i], snaps, FirstGeneration(required, snaps))
    {
      assert required[..i + 1] == required[..i] + [required[i]];
      assert required[i] in required;
      if required[i] !in snaps || !snaps[required[i]].availableTrue { return false, 0, false; }
      var generation := snaps[required[i]].observedGeneration;
      if g.None? {
        g := Some(generation);
      } else if g.value != generation {
        assert required[i] in required[..i + 1];
        mixed := true;
      }
    }
    assert required[..|required|] == required;
    return true, g.value, mixed;
  }

  method HasMissingAdapter(required: seq<string>, snaps: Snapshots) returns (missing: bool)
    ensures missing == !AllReported(required, snaps)
  {
    for i := 0 to |required|
      invariant AllReported(required[..i], snaps)
    {
      assert required[..i + 1] == required[..i] + [required[i]];
      if required[i] !in snaps {
        assert required[i] in required;
        return true;
      }
    }
    assert required[..|required|] == required;
    return false;
  }

  method HasAdapterNotAvailable(required: seq<string>, snaps: Snapshots) returns (unavailable: bool)
    ensures unavailable == SomeUnavailable(required, snaps)
  {
    for i := 0 to |required|
      invariant !SomeUnavailable(required[..i], snaps)
    {
      assert required[..i + 1] == required[..i] + [required[i]];
      if required[i] in snaps && !snaps[required[i]].availableTrue {
        assert required[i] in required;
        return true;
      }
    }
    assert required[..|required|] == required;
    return false;
  }

  method HasFailureAt(required: seq<string>, snaps: Snapshots, g: int) returns (fails: bool)
    ensures fails == FailsAt(required, snaps, g)
  {
    for i := 0 to |required|
      invariant !FailsAt(required[..i], snaps, g)
    {
      assert required[..i + 1] == required[..i] + [required[i]];
      if required[i] in snaps && !snaps[required[i]].availableTrue && snaps[required[i]].observedGeneration == g {
        assert required[i] in required;
        return true;
      }
    }
    assert required[..|required|] == required;
    return false;
  }

  method ComputeLastKnownReconciledStatus(
    prev: Option<Condition>, required: seq<string>, snaps: Snapshots, allTrue: bool, mixed: bool)
      returns (status: Status)
    requires required != [] ==> allTrue == AllAvailable(required, snaps)
    requires required != [] && allTrue ==> mixed == !OneGeneration(required, snaps, FirstGeneration(required, snaps))
    ensures status == LastKnownStatus(prev, required, snaps)
  {
    if |required| == 0 { return CondFalse; }
    var missing := HasMissingAdapter(required, snaps);
    if missing { return CondFalse; }
    if allTrue {
      if !mixed || (prev.Some? && prev.value.status == CondTrue) { return CondTrue; }
      return CondFalse;
    }
    if prev.None? || prev.value.status != CondTrue { return CondFalse; }
    var fails := HasFailureAt(required, snaps, prev.value.observedGeneration);
    return if fails then CondFalse else CondTrue;
  }

  method ComputeLastKnownReconciledObservedGeneration(
    status: Status, prev: Option<Condition>, required: seq<string>, snaps: Snapshots,
    allTrue: bool, commonGen: int, mixed: bool) returns (g: int)
    requires status == LastKnownStatus(prev, required, snaps)
    requires required != [] ==> allTrue == AllAvailable(required, snaps)
    requires required != [] && allTrue ==>
               commonGen == FirstGeneration(required, snaps) && mixed == !OneGeneration(required, snaps, commonGen)
    ensures g == LastKnownGeneration(prev, required, snaps)
  {
    if |required| == 0 { return 0; }
    if status == CondTrue {
      if allTrue && !mixed { return commonGen; }
      return if prev.Some? then prev.value.observedGeneration else 0;
    }
    g := ComputeMaxReported(required, snaps);
    if g == 0 { return if prev.Some? then prev.value.observedGeneration else 0; }
  }

  method ComputeLastKnownReconciledLastUpdatedTime(
    status: Status, prev: Option<Condition>, refTime: Time, required: seq<string>, snaps: Snapshots,
    observed: int, allTrue: bool, mixed: bool) returns (updated: Time)
    requires required != [] ==> allTrue == AllAvailable(required, snaps)
    requires required != [] && allTrue ==> mixed == !OneGeneration(required, snaps, FirstGeneration(required, snaps))
    requires required != [] && !allTrue ==> !mixed
    ensures updated == LastKnownUpdated(prev, refTime, required, snaps, status, observed)
  {
    if |required| == 0 { return refTime; }
    if allTrue && !mixed {
      var times := CollectTimes(required, snaps, Anywhere());
      updated := MinTime(times);
      return;
    }
    if allTrue && mixed && status == CondTrue {
      return if prev.Some? then prev.value.lastUpdatedTime else refTime;
    }
    if status == CondFalse {
      var fails := HasFailureAt(required, snaps, observed);
      if fails {
        var times := CollectTimes(required, snaps, AtGeneration(observed));
        updated := MinTime(times);
        return;
      }
    }
    return if prev.Some? then prev.value.lastUpdatedTime else refTime;
  }

  method ComputeLastKnownReconciled(refTime: Time, prev: Option<Condition>, required: seq<string>, snaps: Snapshots)
    returns (c: Condition)
    ensures c == LastKnownReconciled(refTime, prev, required, snaps)
  {
    var allTrue, commonGen, mixed := SameGenerationAllTrue(required, snaps);
    var status := ComputeLastKnownReconciledStatus(prev, required, snaps, allTrue, mixed);
    var observed :=
      ComputeLastKnownReconciledObservedGeneration(status, prev, required, snaps, allTrue, commonGen, mixed);
    var updated :=
      ComputeLastKnownReconciledLastUpdatedTime(status, prev, refTime, required, snaps, observed, allTrue, mixed);
    var missing := HasMissingAdapter(required, snaps);
    var unavailable := HasAdapterNotAvailable(required, snaps);
    var reason: Reason, message: Message;
    if status == CondTrue {
      reason, message := AllAdaptersReconciled, KnownAll;
    } else if |required| == 0 || missing {
      reason, message := AdaptersMissingReports, KnownMissing;
    } else if unavailable {
      reason, message := AdapterReportedNotAvailable, KnownUnavailable;
    } else {
      reason, message := AdaptersNotAtSameGeneration, KnownMixed;
    }
    c := Condition(LastKnownReconciledType, status, observed, Some(reason), Some(message), CreatedTime(prev, refTime),
                   updated, GenericTransition(prev, status, updated));
  }

  // ---------------------------------------------------------------------------------------
  // Per-adapter conditions and the whole
  // ---------------------------------------------------------------------------------------

  type ConditionTable = map<ConditionType, Condition>

  function ConditionOf(name: string, snap: Snapshot, prevByType: ConditionTable, refTime: Time): Condition {
    var ctype := MapAdapterToConditionType(name);
    var prev := Lookup(prevByType, ctype);
    var status := if snap.availableTrue then CondTrue else CondFalse;
    Condition(
      ctype, status, snap.observedGeneration,
      if snap.reason.Some? then Some(AdapterReason(snap.reason.value)) else None,
      if snap.message.Some? then Some(AdapterMessage(snap.message.value)) else None,
      CreatedTime(prev, refTime), snap.observedTime, GenericTransition(prev, status, snap.observedTime))
  }

  /** One condition for every required adapter that has reported, in the order of `required`. */
  function AdapterConditions(
    required: seq<string>, snaps: Snapshots, prevByType: ConditionTable, refTime: Time): seq<Condition>
  {
    if required == [] then []
    else
      var n := |required| - 1;
      AdapterConditions(required[..n], snaps, prevByType, refTime) +
      if required[n] in snaps then [ConditionOf(required[n], snaps[required[n]], prevByType, refTime)] else []
  }

  method ComputeAdapterConditions(
    required: seq<string>, snaps: Snapshots, prevByType: ConditionTable, refTime: Time) returns (result: seq<Condition>)
    ensures result == AdapterConditions(required, snaps, prevByType, refTime)
  {
    result := [];
    for i := 0 to |required|
      invariant result == AdapterConditions(required[..i], snaps, prevByType, refTime)
    {
      assert required[..i + 1][..i] == required[..i];
      if required[i] !in snaps { continue; }
      result := result + [ConditionOf(required[i], snaps[required[i]], prevByType, refTime)];
    }
    assert required[..|required|] == required;
  }

  datatype Input = Input(
    generation: int, refTime: Time, deletedTime: Option<Time>, prevConditions: seq<Condition>,
    required: seq<string>, reports: seq<AdapterStatus>, hasChildren: bool)

  /** The conditions of a resource: Reconciled, LastKnownReconciled, then the adapters. */
  function Aggregate(input: Input): seq<Condition> {
    var prev := ByType(input.prevConditions);
    var snaps := Normalized(input.reports, input.required, input.generation);
    AggregateOver(input.generation, input.refTime, input.deletedTime.Some?, prev, input.required, snaps,
                  input.hasChildren)
  }

  function AggregateOver(
    gen: int, refTime: Time, deleting: bool, prev: ConditionTable,
    required: seq<string>, snaps: Snapshots, hasChildren: bool): seq<Condition>
  {
    [Reconciled(gen, refTime, deleting, Lookup(prev, ReconciledType), required, snaps, hasChildren),
     LastKnownReconciled(refTime, Lookup(prev, LastKnownReconciledType), required, snaps)] +
    AdapterConditions(required, snaps, prev, refTime)
  }

  method ParsePrevConditions(conditions: seq<Condition>) returns (byType: ConditionTable)
    ensures byType == ByType(conditions)
  {
    byType := map[];
    for i := 0 to |conditions|
      invariant byType == ByType(conditions[..i])
    {
      assert conditions[..i + 1][..i] == conditions[..i];
      byType := byType[conditions[i].ctype := conditions[i]];
    }
    assert conditions[..|conditions|] == conditions;
  }

  method AggregateResourceStatus(input: Input)
    returns (reconciled: Condition, lastKnown: Condition, adapters: seq<Condition>)
    ensures [reconciled, lastKnown] + adapters == Aggregate(input)
  {
    var prev := ParsePrevConditions(input.prevConditions);
    var snaps := NormalizeAdapterReports(input.reports, input.required, input.generation);
    reconciled := ComputeReconciled(input.generation, input.refTime, input.deletedTime, Lookup(prev, ReconciledType),
                                    input.required, snaps, input.hasChildren);
    lastKnown :=
      ComputeLastKnownReconciled(input.refTime, Lookup(prev, LastKnownReconciledType), input.required, snaps);
    adapters := ComputeAdapterConditions(input.required, snaps, prev, input.refTime);
  }

  /** Every required adapter has some report at `gen` with a Finalized=True condition. */
  predicate AllFinalized(required: seq<string>, reports: seq<AdapterStatus>, gen: int) {
    forall name :: name in required ==>
      exists r :: r in reports && r.adapter == name && r.observedGeneration == gen && ReportsFinalized(r.conditions)
  }

  method AllAdaptersFinalized(required: seq<string>, reports: seq<AdapterStatus>, gen: int) returns (all: bool)
    ensures all == AllFinalized(required, reports, gen)
  {
    var finalized: set<string> := {};
    for i := 0 to |reports|
      invariant forall name :: name in finalized <==>
                  exists r :: r in reports[..i] && r.adapter == name && r.observedGeneration == gen &&
                    ReportsFinalized(r.conditions)
    {
      assert reports[..i + 1] == reports[..i] + [reports[i]];
      if reports[i].observedGeneration == gen && ReportsFinalized(reports[i].conditions) {
        assert reports[i] in reports[..i + 1];
        finalized := finalized + {reports[i].adapter};
      }
    }
    assert reports[..|reports|] == reports;
    for i := 0 to |required|
      invariant forall name :: name in required[..i] ==> name in finalized
    {
      assert required[..i + 1] == required[..i] + [required[i]];
      if required[i] !in finalized {
        assert required[i] in required;
        return false;
      }
    }
    assert required[..|required|] == required;
    return true;
  }
}
