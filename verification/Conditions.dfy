/** Adapter reports and resource conditions: the values that status aggregation folds. */
module Conditions {
  import opened Common

  /** A resource condition is True or False; adapters may also report Unknown, and the wire carries any string. */
  datatype Status = CondTrue | CondFalse
  datatype ReportedStatus = ReportedTrue | ReportedFalse | ReportedUnknown | ReportedOther(text: string)

  /** The condition types that the service interprets; adapters may add their own. */
  datatype AdapterConditionType = Available | Applied | Health | Finalized | OtherCondition(text: string)

  datatype AdapterCondition = AdapterCondition(
    ctype: AdapterConditionType, status: ReportedStatus,
    reason: Option<string>, message: Option<string>, lastTransitionTime: Time)

  /** One stored or incoming adapter report. `data` stands for the payload columns that no rule reads. */
  datatype AdapterStatus = AdapterStatus(
    adapter: string, observedGeneration: int, lastReportTime: Time,
    conditions: seq<AdapterCondition>, data: string)

  /** Reconciled and LastKnownReconciled, and one type for each adapter; the latter always end in "Successful". */
  datatype ConditionType = ReconciledType | LastKnownReconciledType | AdapterType(text: string)

  /** The reasons that aggregation gives, and the ones it passes on from adapters. */
  datatype Reason =
    | ReconciledAll | ReconciledMissingAdapters | ReconciledWaitingForChildren
    | AllAdaptersReconciled | AdaptersMissingReports | AdapterReportedNotAvailable | AdaptersNotAtSameGeneration
    | AdapterReason(text: string)

  /** The messages that go with them; `MessageText` spells them out. */
  datatype Message =
    | MetAll | MetButChildren | UnmetAdapters(finalizing: bool, unmet: seq<string>, reporting: seq<string>)
    | KnownAll | KnownMissing | KnownUnavailable | KnownMixed
    | AdapterMessage(text: string)

  datatype Condition = Condition(
    ctype: ConditionType, status: Status, observedGeneration: int,
    reason: Option<Reason>, message: Option<Message>,
    createdTime: Time, lastUpdatedTime: Time, lastTransitionTime: Time)

  function Lookup<K, V>(m: map<K, V>, k: K): Option<V> {
    if k in m then Some(m[k]) else None
  }

  /** A list of conditions as a table keyed by type; a later entry replaces an earlier one. */
  function ByType(conditions: seq<Condition>): map<ConditionType, Condition> {
    if conditions == [] then map[]
    else
      var n := |conditions| - 1;
      ByType(conditions[..n])[conditions[n].ctype := conditions[n]]
  }

  /** The first condition of a type, which is the one the rules read. */
  function FirstOfType(conditions: seq<AdapterCondition>, t: AdapterConditionType): Option<AdapterCondition> {
    if conditions == [] then None
    else if conditions[0].ctype == t then Some(conditions[0])
    else FirstOfType(conditions[1..], t)
  }

  ghost predicate HasType(conditions: seq<AdapterCondition>, t: AdapterConditionType) {
    exists c :: c in conditions && c.ctype == t
  }

  /** Some Finalized=True condition is present. */
  predicate ReportsFinalized(conditions: seq<AdapterCondition>) {
    exists c :: c in conditions && c.ctype == Finalized && c.status == ReportedTrue
  }

  lemma {:induction false} FirstOfTypeFinds(conditions: seq<AdapterCondition>, t: AdapterConditionType)
    ensures FirstOfType(conditions, t).Some? <==> HasType(conditions, t)
    ensures FirstOfType(conditions, t).Some? ==>
              FirstOfType(conditions, t).value in conditions && FirstOfType(conditions, t).value.ctype == t
  {
    if conditions != [] {
      FirstOfTypeFinds(conditions[1..], t);
      assert conditions[0] in conditions;
      forall c | c in conditions[1..] ensures c in conditions {}
      if HasType(conditions, t) && conditions[0].ctype != t {
        var c :| c in conditions && c.ctype == t;
        assert c in conditions[1..];
      }
    }
  }

  // ---------------------------------------------------------------------------------------
  // Condition type names
  // ---------------------------------------------------------------------------------------

  const ADAPTER_CONDITION_SUFFIX: string := "Successful"

  function ToUpper(c: char): char {
    if 'a' <= c <= 'z' then (c as int - 'a' as int + 'A' as int) as char else c
  }

  /** The adapter name with its hyphens dropped and the letter after each of them capitalised. */
  function PascalCase(name: string, startOfPart: bool): string {
    if name == "" then ""
    else if name[0] == '-' then PascalCase(name[1..], true)
    else [if startOfPart then ToUpper(name[0]) else name[0]] + PascalCase(name[1..], false)
  }

  function MapAdapterToConditionType(adapter: string): ConditionType {
    AdapterType(PascalCase(adapter, true) + ADAPTER_CONDITION_SUFFIX)
  }

  /** Required adapters that land on different condition types. */
  ghost predicate DistinctTypes(required: seq<string>) {
    forall i, j :: 0 <= i < j < |required| ==>
      MapAdapterToConditionType(required[i]) != MapAdapterToConditionType(required[j])
  }
}
