/**
 * What the stored conditions of a resource say, in terms of the stored reports alone: which reports make Reconciled,
 * LastKnownReconciled and the adapter conditions what they are, in every reachable state and over every step.
 */
module StatusPromise {
  import opened Common
  import opened Registry
  import opened Conditions
  import opened SortedNames
  import opened Aggregation
  import opened AggregationLaws
  import opened Tables
  import opened Lifecycle
  import opened Invariants
  import opened Preservation
  import opened Runs

  // ---------------------------------------------------------------------------------------
  // Reports
  // ---------------------------------------------------------------------------------------

  /** The first condition of the type in the list has the status. */
  ghost predicate FirstHas(conditions: seq<AdapterCondition>, t: AdapterConditionType, status: ReportedStatus) {
    exists i :: 0 <= i < |conditions| && conditions[i].ctype == t && conditions[i].status == status &&
                forall j :: 0 <= j < i ==> conditions[j].ctype != t
  }

  ghost predicate Says(r: AdapterStatus, t: AdapterConditionType, status: ReportedStatus) {
    FirstHas(r.conditions, t, status)
  }

  /** A report counts once its Available is True or False. */
  ghost predicate Usable(r: AdapterStatus) {
    Says(r, Available, ReportedTrue) || Says(r, Available, ReportedFalse)
  }

  lemma FirstHasTail(conditions: seq<AdapterCondition>, t: AdapterConditionType, status: ReportedStatus)
    requires conditions != [] && conditions[0].ctype != t
    ensures FirstHas(conditions, t, status) <==> FirstHas(conditions[1..], t, status)
  {
    assert [conditions[0]] + conditions[1..] == conditions;
    if FirstHas(conditions[1..], t, status) { FirstHasLater(conditions[0], conditions[1..], t, status); }
    if FirstHas(conditions, t, status) {
      var i :| 0 <= i < |conditions| && conditions[i].ctype == t && conditions[i].status == status &&
               forall j :: 0 <= j < i ==> conditions[j].ctype != t;
      assert conditions[1..][i - 1] == conditions[i];
    }
  }

  lemma FirstHasLater(
    c: AdapterCondition, rest: seq<AdapterCondition>, t: AdapterConditionType, status: ReportedStatus)
    requires c.ctype != t && FirstHas(rest, t, status)
    ensures FirstHas([c] + rest, t, status)
  {
    var i :| 0 <= i < |rest| && rest[i].ctype == t && rest[i].status == status &&
             forall j :: 0 <= j < i ==> rest[j].ctype != t;
    var all := [c] + rest;
    assert all[i + 1] == rest[i];
    assert forall j :: 1 <= j < i + 1 ==> all[j] == rest[j - 1];
  }

  lemma {:induction false} FirstHasFound(conditions: seq<AdapterCondition>, t: AdapterConditionType, st: ReportedStatus)
    ensures FirstHas(conditions, t, st) <==>
            FirstOfType(conditions, t).Some? && FirstOfType(conditions, t).value.status == st
  {
    if conditions != [] && conditions[0].ctype != t {
      FirstHasTail(conditions, t, st);
      FirstHasFound(conditions[1..], t, st);
    }
  }

  /** What aggregation takes from a stored report that is not ahead of the resource. */
  lemma SnapshotMeans(reports: Reports, required: seq<string>, gen: int, name: string)
    requires name in required && (name in reports ==> reports[name].observedGeneration <= gen)
    ensures var snaps := SnapshotTable(reports, required, gen);
            && (name in snaps <==> name in reports && Usable(reports[name]))
            && (name in snaps ==>
                  && snaps[name].observedGeneration == reports[name].observedGeneration
                  && snaps[name].observedTime == reports[name].lastReportTime
                  && (snaps[name].availableTrue <==> Says(reports[name], Available, ReportedTrue))
                  && (snaps[name].finalizedTrue <==> Says(reports[name], Finalized, ReportedTrue)))
  {
    if name in reports {
      FirstHasFound(reports[name].conditions, Available, ReportedTrue);
      FirstHasFound(reports[name].conditions, Available, ReportedFalse);
      FirstHasFound(reports[name].conditions, Finalized, ReportedTrue);
    }
  }

  ghost predicate NotAhead(reports: Reports, gen: int) {
    forall name :: name in reports ==> reports[name].observedGeneration <= gen
  }

  /** The adapter stands at the generation of the resource, available, or finalized when that is deleting. */
  ghost predicate Ready(reports: Reports, gen: int, deleting: bool, name: string) {
    && name in reports && reports[name].observedGeneration == gen && Usable(reports[name])
    && Says(reports[name], if deleting then Finalized else Available, ReportedTrue)
  }

  lemma MetMeansReady(reports: Reports, required: seq<string>, gen: int, deleting: bool, name: string)
    requires name in required && NotAhead(reports, gen)
    ensures Met(name, gen, deleting, SnapshotTable(reports, required, gen)) <==> Ready(reports, gen, deleting, name)
  {
    SnapshotMeans(reports, required, gen, name);
  }

  // ---------------------------------------------------------------------------------------
  // Reconciled
  // ---------------------------------------------------------------------------------------

  /** The highest generation that a required adapter has a usable report at; 0 if there is none. */
  ghost predicate IsHighest(reports: Reports, required: seq<string>, g: int) {
    && (forall name :: name in required && name in reports && Usable(reports[name]) ==>
          reports[name].observedGeneration <= g)
    && (g == 0 || exists name ::
          name in required && name in reports && Usable(reports[name]) && reports[name].observedGeneration == g)
  }

  lemma HighestReported(reports: Reports, required: seq<string>, gen: int)
    requires NotAhead(reports, gen)
    ensures IsHighest(reports, required, MaxReported(required, SnapshotTable(reports, required, gen)))
  {
    var snaps := SnapshotTable(reports, required, gen);
    forall name | name in required ensures name in snaps <==> name in reports && Usable(reports[name]) {
      SnapshotMeans(reports, required, gen, name);
    }
  }

  /** What a computed Reconciled says of the reports it was computed from. */
  ghost predicate ReconciledSays(
    c: Condition, gen: int, deleting: bool, required: seq<string>, reports: Reports, hasChildren: bool)
  {
    var ready := required != [] && forall name :: name in required ==> Ready(reports, gen, deleting, name);
    && (c.status == CondTrue <==> ready && !(deleting && hasChildren))
    && c.reason == Some(if c.status == CondTrue then ReconciledAll
                        else if deleting && ready then ReconciledWaitingForChildren else ReconciledMissingAdapters)
    && (c.status == CondTrue ==> c.message == Some(MetAll))
    && (c.status == CondFalse && deleting && ready ==> c.message == Some(MetButChildren))
    && (if c.status == CondTrue then c.observedGeneration == gen
        else IsHighest(reports, required, c.observedGeneration))
  }

  lemma ReconciledMeans(
    gen: int, refTime: Time, deleting: bool, prev: Option<Condition>, required: seq<string>, reports: Reports,
    hasChildren: bool)
    requires NotAhead(reports, gen)
    ensures ReconciledSays(
              Reconciled(gen, refTime, deleting, prev, required, SnapshotTable(reports, required, gen), hasChildren),
              gen, deleting, required, reports, hasChildren)
  {
    forall name | name in required
      ensures Met(name, gen, deleting, SnapshotTable(reports, required, gen)) <==> Ready(reports, gen, deleting, name)
    {
      MetMeansReady(reports, required, gen, deleting, name);
    }
    HighestReported(reports, required, gen);
  }

  /** The adapter has a usable report at the generation. */
  ghost predicate StandsAt(reports: Reports, name: string, gen: int) {
    name in reports && Usable(reports[name]) && reports[name].observedGeneration == gen
  }

  /** The earliest time of the required reports that stand at the generation, or the reference time if none does. */
  ghost predicate IsUpdateTime(t: Time, gen: int, refTime: Time, required: seq<string>, reports: Reports) {
    if exists name :: name in required && StandsAt(reports, name, gen) then
      && (exists name :: name in required && StandsAt(reports, name, gen) && reports[name].lastReportTime == t)
      && (forall name :: name in required && StandsAt(reports, name, gen) ==> t <= reports[name].lastReportTime)
    else t == refTime
  }

  lemma UpdateTimeMeans(gen: int, refTime: Time, required: seq<string>, reports: Reports)
    requires NotAhead(reports, gen)
    ensures IsUpdateTime(ReconciledUpdated(gen, refTime, required, SnapshotTable(reports, required, gen)),
                         gen, refTime, required, reports)
  {
    var snaps := SnapshotTable(reports, required, gen);
    var times := TimesWhere(required, snaps, AtGeneration(gen));
    forall name | name in required
      ensures name in snaps <==> name in reports && Usable(reports[name])
      ensures name in snaps ==> snaps[name].observedGeneration == reports[name].observedGeneration &&
                                snaps[name].observedTime == reports[name].lastReportTime
    {
      SnapshotMeans(reports, required, gen, name);
    }
    forall name | name in required && StandsAt(reports, name, gen)
      ensures reports[name].lastReportTime in times
    {
      assert AtGeneration(gen)(snaps[name]);
    }
  }

  /** The names that an unmet Reconciled lists: who is not ready, and who reports at all, each in order. */
  ghost predicate MessageSays(m: Message, gen: int, deleting: bool, required: seq<string>, reports: Reports) {
    && m.UnmetAdapters? && m.finalizing == deleting && IsSorted(m.unmet) && IsSorted(m.reporting)
    && (forall name :: multiset(m.unmet)[name] ==
                       if Ready(reports, gen, deleting, name) then 0 else multiset(required)[name])
    && (forall name :: multiset(m.reporting)[name] ==
                       if name in reports && Usable(reports[name]) then multiset(required)[name] else 0)
  }

  lemma MessageMeans(gen: int, deleting: bool, required: seq<string>, reports: Reports)
    requires NotAhead(reports, gen)
    ensures MessageSays(UnmetMessage(gen, deleting, required, SnapshotTable(reports, required, gen)), gen, deleting,
                        required, reports)
  {
    var snaps := SnapshotTable(reports, required, gen);
    var unmet, reporting := Filter(required, Unmet(gen, deleting, snaps)), Filter(required, Reporting(snaps));
    SortIsSorted(unmet);
    SortIsSorted(reporting);
    forall name
      ensures multiset(unmet)[name] == if Ready(reports, gen, deleting, name) then 0 else multiset(required)[name]
      ensures multiset(reporting)[name] ==
              if name in reports && Usable(reports[name]) then multiset(required)[name] else 0
    {
      FilterCounts(required, Unmet(gen, deleting, snaps), name);
      FilterCounts(required, Reporting(snaps), name);
      if name in required {
        SnapshotMeans(reports, required, gen, name);
        MetMeansReady(reports, required, gen, deleting, name);
      }
    }
  }

  // ---------------------------------------------------------------------------------------
  // LastKnownReconciled
  // ---------------------------------------------------------------------------------------

  /** All required adapters say Available=True, at one generation. */
  ghost predicate Uniform(required: seq<string>, reports: Reports, g: int) {
    required != [] && forall name :: name in required ==>
      name in reports && Says(reports[name], Available, ReportedTrue) && reports[name].observedGeneration == g
  }

  ghost predicate AllUsable(required: seq<string>, reports: Reports) {
    required != [] && forall name :: name in required ==> name in reports && Usable(reports[name])
  }

  /** No required adapter says Available=False at that generation. */
  ghost predicate NoneFails(required: seq<string>, reports: Reports, g: int) {
    forall name :: name in required && name in reports && reports[name].observedGeneration == g ==>
      !Says(reports[name], Available, ReportedFalse)
  }

  /** True was stored before, at generation `g`. */
  ghost predicate WasTrueAt(prev: Option<Condition>, g: int) {
    prev.Some? && prev.value.status == CondTrue && prev.value.observedGeneration == g
  }

  /** The sticky condition: earned by uniform reports, kept until a report is missing or fails at its generation. */
  ghost predicate KnownSays(c: Condition, prev: Option<Condition>, required: seq<string>, reports: Reports) {
    && (c.status == CondTrue <==>
          (exists g :: Uniform(required, reports, g)) ||
          (AllUsable(required, reports) && exists g :: WasTrueAt(prev, g) && NoneFails(required, reports, g)))
    && (forall g :: Uniform(required, reports, g) ==> c.observedGeneration == g)
    && (c.status == CondTrue && !(exists g :: Uniform(required, reports, g)) ==> WasTrueAt(prev, c.observedGeneration))
    && (c.status == CondFalse && required != [] ==>
          || (c.observedGeneration != 0 && IsHighest(reports, required, c.observedGeneration))
          || (IsHighest(reports, required, 0) &&
              c.observedGeneration == if prev.Some? then prev.value.observedGeneration else 0))
  }

  /** What snapshots and reports have in common, for all required adapters. */
  ghost predicate SnapshotsFit(required: seq<string>, reports: Reports, snaps: Snapshots) {
    forall name {:trigger name in snaps} :: name in required ==>
      && (name in snaps <==> name in reports && Usable(reports[name]))
      && (name in snaps ==> snaps[name].observedGeneration == reports[name].observedGeneration &&
                            (snaps[name].availableTrue <==> Says(reports[name], Available, ReportedTrue)))
  }

  lemma TableFits(required: seq<string>, reports: Reports, gen: int)
    requires NotAhead(reports, gen)
    ensures SnapshotsFit(required, reports, SnapshotTable(reports, required, gen))
  {
    forall name | name in required
      ensures var snaps := SnapshotTable(reports, required, gen);
              && (name in snaps <==> name in reports && Usable(reports[name]))
              && (name in snaps ==> snaps[name].observedGeneration == reports[name].observedGeneration &&
                                    (snaps[name].availableTrue <==> Says(reports[name], Available, ReportedTrue)))
    {
      SnapshotMeans(reports, required, gen, name);
    }
  }

  /** A first condition has one status. */
  lemma SaysOne(r: AdapterStatus, t: AdapterConditionType, a: ReportedStatus, b: ReportedStatus)
    requires Says(r, t, a) && Says(r, t, b)
    ensures a == b
  {
    FirstHasFound(r.conditions, t, a);
    FirstHasFound(r.conditions, t, b);
  }

  lemma UniformMeans(required: seq<string>, reports: Reports, snaps: Snapshots, g: int)
    requires SnapshotsFit(required, reports, snaps)
    ensures Uniform(required, reports, g) <==> UniformlyAvailable(required, snaps, g)
  {
    if UniformlyAvailable(required, snaps, g) {
      forall name | name in required
        ensures name in reports && Says(reports[name], Available, ReportedTrue) && reports[name].observedGeneration == g
      {
        assert name in snaps;
      }
    }
    if Uniform(required, reports, g) {
      forall name | name in required
        ensures name in snaps && snaps[name].availableTrue { assert Usable(reports[name]); }
    }
  }

  lemma FailsMeans(required: seq<string>, reports: Reports, snaps: Snapshots, g: int)
    requires SnapshotsFit(required, reports, snaps)
    ensures NoneFails(required, reports, g) <==> !FailsAt(required, snaps, g)
  {
    forall name | name in required && name in snaps
      ensures snaps[name].availableTrue <==> !Says(reports[name], Available, ReportedFalse)
    {
      if Says(reports[name], Available, ReportedTrue) && Says(reports[name], Available, ReportedFalse) {
        SaysOne(reports[name], Available, ReportedTrue, ReportedFalse);
      }
    }
    if !NoneFails(required, reports, g) {
      var name :| name in required && name in reports && reports[name].observedGeneration == g &&
                  Says(reports[name], Available, ReportedFalse);
      assert name in snaps;
    }
  }

  lemma KnownMeans(gen: int, refTime: Time, prev: Option<Condition>, required: seq<string>, reports: Reports)
    requires NotAhead(reports, gen)
    ensures KnownSays(LastKnownReconciled(refTime, prev, required, SnapshotTable(reports, required, gen)), prev,
                      required, reports)
  {
    var snaps := SnapshotTable(reports, required, gen);
    TableFits(required, reports, gen);
    HighestReported(reports, required, gen);
    UniformFirst(required, reports, snaps);
    if prev.Some? { FailsMeans(required, reports, snaps, prev.value.observedGeneration); }
    assert AllUsable(required, reports) <==> required != [] && AllReported(required, snaps);
    KnownFromParts(refTime, prev, required, reports, snaps);
  }

  /** Reports can only be uniform at the generation of the first adapter. */
  lemma UniformFirst(required: seq<string>, reports: Reports, snaps: Snapshots)
    requires SnapshotsFit(required, reports, snaps)
    ensures forall g :: Uniform(required, reports, g) ==> g == FirstGeneration(required, snaps)
    ensures (exists g :: Uniform(required, reports, g)) <==>
            UniformlyAvailable(required, snaps, FirstGeneration(required, snaps))
  {
    UniformMeans(required, reports, snaps, FirstGeneration(required, snaps));
    forall g | Uniform(required, reports, g) ensures g == FirstGeneration(required, snaps) {
      UniformMeans(required, reports, snaps, g);
      assert required[0] in required;
    }
  }

  lemma KnownFromParts(
    refTime: Time, prev: Option<Condition>, required: seq<string>, reports: Reports, snaps: Snapshots)
    requires forall g :: Uniform(required, reports, g) ==> g == FirstGeneration(required, snaps)
    requires (exists g :: Uniform(required, reports, g)) <==>
             UniformlyAvailable(required, snaps, FirstGeneration(required, snaps))
    requires AllUsable(required, reports) <==> required != [] && AllReported(required, snaps)
    requires prev.Some? ==> (NoneFails(required, reports, prev.value.observedGeneration) <==>
                             !FailsAt(required, snaps, prev.value.observedGeneration))
    requires IsHighest(reports, required, MaxReported(required, snaps))
    ensures KnownSays(LastKnownReconciled(refTime, prev, required, snaps), prev, required, reports)
  {
  }

  ghost predicate EarliestOf(t: Time, names: set<string>, reports: Reports) {
    && (exists name :: name in names && name in reports && reports[name].lastReportTime == t)
    && (forall name :: name in names && name in reports ==> t <= reports[name].lastReportTime)
  }

  /** The required adapters with a usable report at the generation. */
  ghost function Standing(required: seq<string>, reports: Reports, g: int): set<string> {
    set name | name in required && StandsAt(reports, name, g)
  }

  /** Its reason, and its times: of the reports that earned it, or that fail at its generation, or as before. */
  ghost predicate KnownDetails(
    c: Condition, prev: Option<Condition>, refTime: Time, required: seq<string>, reports: Reports)
  {
    && c.reason == Some(
         if c.status == CondTrue then AllAdaptersReconciled
         else if !AllUsable(required, reports) then AdaptersMissingReports
         else if exists name :: name in required && Says(reports[name], Available, ReportedFalse)
              then AdapterReportedNotAvailable
         else AdaptersNotAtSameGeneration)
    && (if exists g :: Uniform(required, reports, g) then EarliestOf(c.lastUpdatedTime, Members(required), reports)
        else if c.status == CondFalse && !NoneFails(required, reports, c.observedGeneration) then
          EarliestOf(c.lastUpdatedTime, Standing(required, reports, c.observedGeneration), reports)
        else c.lastUpdatedTime == if prev.Some? then prev.value.lastUpdatedTime else refTime)
    && c.lastTransitionTime == (if prev.Some? && prev.value.status == c.status then prev.value.lastTransitionTime
                                else c.lastUpdatedTime)
  }

  lemma EarliestMeans(
    required: seq<string>, reports: Reports, gen: int, at: Snapshot -> bool, names: set<string>, one: string)
    requires NotAhead(reports, gen)
    requires var snaps := SnapshotTable(reports, required, gen);
             && (forall name :: name in names <==> name in required && name in snaps && at(snaps[name]))
             && one in names
    ensures EarliestOf(Earliest(TimesWhere(required, SnapshotTable(reports, required, gen), at)), names, reports)
  {
    var snaps := SnapshotTable(reports, required, gen);
    var times := TimesWhere(required, snaps, at);
    forall name | name in names ensures name in reports && reports[name].lastReportTime in times {
      SnapshotMeans(reports, required, gen, name);
    }
    var name :| name in required && name in snaps && at(snaps[name]) && snaps[name].observedTime == Earliest(times);
    SnapshotMeans(reports, required, gen, name);
  }

  lemma UniformTime(gen: int, required: seq<string>, reports: Reports, g: int)
    requires NotAhead(reports, gen) && Uniform(required, reports, g)
    ensures EarliestOf(Earliest(TimesWhere(required, SnapshotTable(reports, required, gen), Anywhere())),
                       Members(required), reports)
  {
    TableFits(required, reports, gen);
    forall name | name in required ensures name in SnapshotTable(reports, required, gen) {
      assert Usable(reports[name]);
    }
    EarliestMeans(required, reports, gen, Anywhere(), Members(required), required[0]);
  }

  lemma FailingTime(gen: int, required: seq<string>, reports: Reports, g: int)
    requires NotAhead(reports, gen) && !NoneFails(required, reports, g)
    ensures EarliestOf(Earliest(TimesWhere(required, SnapshotTable(reports, required, gen), AtGeneration(g))),
                       Standing(required, reports, g), reports)
  {
    var snaps := SnapshotTable(reports, required, gen);
    TableFits(required, reports, gen);
    var failing :| failing in required && failing in reports && reports[failing].observedGeneration == g &&
                   Says(reports[failing], Available, ReportedFalse);
    forall name ensures name in Standing(required, reports, g) <==>
                        name in required && name in snaps && AtGeneration(g)(snaps[name]) {
      if name in required { SnapshotMeans(reports, required, gen, name); }
    }
    EarliestMeans(required, reports, gen, AtGeneration(g), Standing(required, reports, g), failing);
  }

  lemma KnownReasonMeans(required: seq<string>, reports: Reports, snaps: Snapshots)
    requires required != [] && SnapshotsFit(required, reports, snaps) && AllUsable(required, reports)
    ensures SomeUnavailable(required, snaps) <==>
            exists name :: name in required && Says(reports[name], Available, ReportedFalse)
  {
    forall name | name in required
      ensures name in snaps && (snaps[name].availableTrue <==> !Says(reports[name], Available, ReportedFalse))
    {
      assert name in snaps;
      if Says(reports[name], Available, ReportedTrue) && Says(reports[name], Available, ReportedFalse) {
        SaysOne(reports[name], Available, ReportedTrue, ReportedFalse);
      }
    }
  }

  lemma KnownDetailsMean(gen: int, refTime: Time, prev: Option<Condition>, required: seq<string>, reports: Reports)
    requires NotAhead(reports, gen) && required != []
    ensures KnownDetails(LastKnownReconciled(refTime, prev, required, SnapshotTable(reports, required, gen)), prev,
                         refTime, required, reports)
  {
    var snaps := SnapshotTable(reports, required, gen);
    var c := LastKnownReconciled(refTime, prev, required, snaps);
    TableFits(required, reports, gen);
    FailsMeans(required, reports, snaps, c.observedGeneration);
    assert AllUsable(required, reports) <==> AllReported(required, snaps);
    if AllUsable(required, reports) { KnownReasonMeans(required, reports, snaps); }
    UniformMeans(required, reports, snaps, FirstGeneration(required, snaps));
    if g :| Uniform(required, reports, g) {
      UniformMeans(required, reports, snaps, g);
      assert required[0] in required && g == FirstGeneration(required, snaps);
      UniformTime(gen, required, reports, g);
    } else if c.status == CondFalse && !NoneFails(required, reports, c.observedGeneration) {
      FailingTime(gen, required, reports, c.observedGeneration);
    }
  }

  // ---------------------------------------------------------------------------------------
  // In the tables
  // ---------------------------------------------------------------------------------------

  /** A live resource of a kind with required adapters. */
  ghost predicate Tracked(descs: Descriptors, s: State, id: Id) {
    Live(s, id) && s.rows[id].kind in descs && descs[s.rows[id].kind].requiredAdapters != []
  }

  lemma StoredNotAhead(descs: Descriptors, s: State, id: Id)
    requires Inv(descs, s) && id in s.rows
    ensures NotAhead(ReportsOf(s, id), s.rows[id].generation) && RefTime(s.rows[id]) == s.rows[id].updatedTime
  {
    assert RowOk(descs, s, id);
    assert id in s.statuses ==> ReportsOk(s, id);
  }

  /** Reconciled of a live resource, from its stored reports: status, reason, generation, time and message. */
  lemma LiveReconciled(descs: Descriptors, s: State, id: Id)
    requires RegistryOk(descs) && Inv(descs, s) && Tracked(descs, s, id)
    ensures ReconciledOf(s, id).Some?
    ensures var c, row := ReconciledOf(s, id).value, s.rows[id];
            var required, reports := descs[row.kind].requiredAdapters, ReportsOf(s, id);
            && ReconciledSays(c, row.generation, false, required, reports, false)
            && IsUpdateTime(c.lastUpdatedTime, row.generation, row.updatedTime, required, reports)
            && (c.status == CondFalse ==>
                  c.message.Some? && MessageSays(c.message.value, row.generation, false, required, reports))
  {
    var row, reports := s.rows[id], ReportsOf(s, id);
    var required := descs[row.kind].requiredAdapters;
    assert ViewOk(descs, s, id);
    StoredNotAhead(descs, s, id);
    var prev := AggregatedTable(descs, row, reports, ConditionsOf(s, id));
    ReconciledMeans(row.generation, row.updatedTime, false, Lookup(prev, ReconciledType), required, reports, false);
    UpdateTimeMeans(row.generation, row.updatedTime, required, reports);
    MessageMeans(row.generation, false, required, reports);
  }

  /**
   * In every reachable state: the stored Reconciled of a live resource is True exactly when each required adapter has a
   * report at its generation whose first Available is True; the observed generation is then that of the resource.
   */
  lemma ReachableReconciled(descs: Descriptors, ops: seq<Op>, states: seq<State>, i: nat, id: Id)
    requires RegistryOk(descs) && IsRun(descs, ops, states) && i < |states| && Tracked(descs, states[i], id)
    ensures ReconciledOf(states[i], id).Some?
    ensures ReconciledOf(states[i], id).value.status == CondTrue <==>
            forall name :: name in descs[states[i].rows[id].kind].requiredAdapters ==>
              && name in ReportsOf(states[i], id)
              && ReportsOf(states[i], id)[name].observedGeneration == states[i].rows[id].generation
              && Says(ReportsOf(states[i], id)[name], Available, ReportedTrue)
    ensures ReconciledOf(states[i], id).value.status == CondTrue ==>
              ReconciledOf(states[i], id).value.observedGeneration == states[i].rows[id].generation
  {
    ReachableOk(descs, ops, states, i);
    LiveReconciled(descs, states[i], id);
  }

  /** Reconciled in freshly computed conditions. */
  lemma FreshReconciled(descs: Descriptors, row: Row, reports: Reports, prev: ConditionTable, hasChildren: bool)
    requires RegistryOk(descs) && row.kind in descs && NotAhead(reports, row.generation)
    ensures var table := FreshConditions(descs, row, reports, prev, hasChildren);
            && ReconciledType in table
            && ReconciledSays(table[ReconciledType], row.generation, row.deletedTime.Some?,
                              descs[row.kind].requiredAdapters, reports, hasChildren)
  {
    RequiredTypesDistinct(descs, row.kind);
    var required := Required(descs, row.kind);
    AggregateTable(row.generation, RefTime(row), row.deletedTime.Some?, prev, required,
                   SnapshotsFor(descs, row, reports), hasChildren);
    ReconciledMeans(row.generation, RefTime(row), row.deletedTime.Some?, Lookup(prev, ReconciledType),
                    required, reports,
                    hasChildren);
  }

  /** LastKnownReconciled after a computation, in the tables. */
  lemma LiveKnown(descs: Descriptors, s: State, id: Id) returns (prev: Option<Condition>)
    requires RegistryOk(descs) && Inv(descs, s) && Tracked(descs, s, id)
    ensures LastKnownOf(s, id).Some?
    ensures KnownSays(LastKnownOf(s, id).value, prev, descs[s.rows[id].kind].requiredAdapters, ReportsOf(s, id))
    ensures KnownDetails(LastKnownOf(s, id).value, prev, s.rows[id].updatedTime,
                         descs[s.rows[id].kind].requiredAdapters, ReportsOf(s, id))
  {
    var row := s.rows[id];
    assert ViewOk(descs, s, id);
    StoredNotAhead(descs, s, id);
    var before := AggregatedTable(descs, row, ReportsOf(s, id), ConditionsOf(s, id));
    prev := Lookup(before, LastKnownReconciledType);
    KnownMeans(row.generation, row.updatedTime, prev, descs[row.kind].requiredAdapters, ReportsOf(s, id));
    KnownDetailsMean(row.generation, row.updatedTime, prev, descs[row.kind].requiredAdapters, ReportsOf(s, id));
  }

  /** A condition that a computation left is what the same rule makes of it again. */
  lemma KnownAgain(c: Condition, prev: Option<Condition>, required: seq<string>, reports: Reports)
    requires KnownSays(c, prev, required, reports)
    ensures KnownSays(c, Some(c), required, reports)
  {
    forall g | Uniform(required, reports, g) ensures NoneFails(required, reports, g) && AllUsable(required, reports) {
      forall name | name in required && name in reports ensures !Says(reports[name], Available, ReportedFalse) {
        if Says(reports[name], Available, ReportedFalse) {
          SaysOne(reports[name], Available, ReportedTrue, ReportedFalse);
        }
      }
    }
    if c.status == CondTrue { assert WasTrueAt(Some(c), c.observedGeneration); }
  }

  /**
   * Over every step: LastKnownReconciled of a resource that is live afterwards is True exactly when all required
   * adapters now say Available=True at one generation, or it was True, all have usable reports, and none says
   * Available=False at the generation it was True at; its generation is that one, or else the highest reported.
   */
  lemma KnownOverStep(descs: Descriptors, s: State, op: Op, s': State, id: Id)
    requires RegistryOk(descs) && Inv(descs, s) && Step(descs, s, op, s') && id in s.rows && Tracked(descs, s', id)
    ensures LastKnownOf(s', id).Some?
    ensures KnownSays(LastKnownOf(s', id).value, LastKnownOf(s, id), descs[s'.rows[id].kind].requiredAdapters,
                      ReportsOf(s', id))
    ensures KnownDetails(LastKnownOf(s', id).value, LastKnownOf(s, id), s'.rows[id].updatedTime,
                         descs[s'.rows[id].kind].requiredAdapters, ReportsOf(s', id))
  {
    var row := s'.rows[id];
    StepKeeps(descs, s, op, s');
    StepEvolves(descs, s, op, s', id);
    var prev := LiveKnown(descs, s', id);
    if ConditionsOf(s', id) == ConditionsOf(s, id) {
      KnownAgain(LastKnownOf(s', id).value, prev, descs[row.kind].requiredAdapters, ReportsOf(s', id));
    } else {
      RequiredTypesDistinct(descs, row.kind);
      AggregateTable(row.generation, RefTime(row), false, ConditionsOf(s, id), Required(descs, row.kind),
                     SnapshotsFor(descs, row, ReportsOf(s', id)), false);
      StoredNotAhead(descs, s', id);
      KnownMeans(row.generation, RefTime(row), LastKnownOf(s, id), descs[row.kind].requiredAdapters, ReportsOf(s', id));
      KnownDetailsMean(row.generation, RefTime(row), LastKnownOf(s, id), descs[row.kind].requiredAdapters,
                       ReportsOf(s', id));
    }
  }

  // ---------------------------------------------------------------------------------------
  // Adapter conditions
  // ---------------------------------------------------------------------------------------

  /** The condition says what the first Available of the report says, at its generation and time. */
  ghost predicate AdapterSays(c: Condition, r: AdapterStatus) {
    && (c.status == CondTrue <==> Says(r, Available, ReportedTrue))
    && c.observedGeneration == r.observedGeneration && c.lastUpdatedTime == r.lastReportTime
    && exists i :: 0 <= i < |r.conditions| && r.conditions[i].ctype == Available &&
                   (forall j :: 0 <= j < i ==> r.conditions[j].ctype != Available) &&
                   SameWords(c, r.conditions[i])
  }

  ghost predicate SameWords(c: Condition, a: AdapterCondition) {
    && c.reason == (if a.reason.Some? then Some(AdapterReason(a.reason.value)) else None)
    && c.message == (if a.message.Some? then Some(AdapterMessage(a.message.value)) else None)
  }

  lemma {:induction false} FirstAt(conditions: seq<AdapterCondition>, t: AdapterConditionType) returns (i: nat)
    requires FirstOfType(conditions, t).Some?
    ensures i < |conditions| && conditions[i].ctype == t && FirstOfType(conditions, t).value == conditions[i]
    ensures forall j :: 0 <= j < i ==> conditions[j].ctype != t
  {
    if conditions[0].ctype == t {
      i := 0;
    } else {
      var k := FirstAt(conditions[1..], t);
      i := k + 1;
      assert forall j :: 1 <= j < i ==> conditions[j] == conditions[1..][j - 1];
    }
  }

  lemma AdapterMeans(
    reports: Reports, required: seq<string>, gen: int, name: string, prev: ConditionTable, refTime: Time)
    requires name in required && NotAhead(reports, gen) && name in SnapshotTable(reports, required, gen)
    ensures name in reports &&
            AdapterSays(ConditionOf(name, SnapshotTable(reports, required, gen)[name], prev, refTime), reports[name])
  {
    SnapshotMeans(reports, required, gen, name);
    var i := FirstAt(reports[name].conditions, Available);
    assert SameWords(ConditionOf(name, SnapshotTable(reports, required, gen)[name], prev, refTime),
                     reports[name].conditions[i]);
  }

  /**
   * A live resource has the condition of a required adapter exactly when that has a usable report, and it says the
   * same.
   */
  lemma LiveAdapter(descs: Descriptors, s: State, id: Id, name: string)
    requires RegistryOk(descs) && Inv(descs, s) && Tracked(descs, s, id)
    requires name in descs[s.rows[id].kind].requiredAdapters
    ensures var t, reports := MapAdapterToConditionType(name), ReportsOf(s, id);
            && (t in ConditionsOf(s, id) <==> name in reports && Usable(reports[name]))
            && (t in ConditionsOf(s, id) ==> AdapterSays(ConditionsOf(s, id)[t], reports[name]))
  {
    var row, reports := s.rows[id], ReportsOf(s, id);
    var required := descs[row.kind].requiredAdapters;
    var snaps := SnapshotTable(reports, required, row.generation);
    assert ViewOk(descs, s, id);
    StoredNotAhead(descs, s, id);
    var prev := AggregatedTable(descs, row, reports, ConditionsOf(s, id));
    SnapshotMeans(reports, required, row.generation, name);
    if name in snaps {
      AdapterMeans(reports, required, row.generation, name, prev, RefTime(row));
    } else {
      RequiredTypesDistinct(descs, row.kind);
      NoOtherAdapter(required, snaps, prev, RefTime(row), row.generation, name);
    }
  }

  /** With distinct types nobody else's condition takes the place of an adapter that has no usable report. */
  lemma NoOtherAdapter(
    required: seq<string>, snaps: Snapshots, prev: ConditionTable, refTime: Time, gen: int, name: string)
    requires DistinctTypes(required) && name in required && name !in snaps
    ensures MapAdapterToConditionType(name) !in
            ByType(AggregateOver(gen, refTime, false, prev, required, snaps, false))
  {
    var all := AggregateOver(gen, refTime, false, prev, required, snaps, false);
    var t := MapAdapterToConditionType(name);
    var adapters := AdapterConditions(required, snaps, prev, refTime);
    forall i | 0 <= i < |adapters| ensures adapters[i].ctype != t {
      var k := AdapterConditionsFrom(required, snaps, prev, refTime, i);
      TypesTellApart(required, required[k], name);
    }
    NotListed(all[0], all[1], adapters, t);
  }

  lemma TypesTellApart(required: seq<string>, a: string, b: string)
    requires DistinctTypes(required) && a in required && b in required && a != b
    ensures MapAdapterToConditionType(a) != MapAdapterToConditionType(b)
  {
    var i :| 0 <= i < |required| && required[i] == a;
    var j :| 0 <= j < |required| && required[j] == b;
  }

  lemma NotListed(reconciled: Condition, known: Condition, adapters: seq<Condition>, t: ConditionType)
    requires reconciled.ctype != t && known.ctype != t && forall i :: 0 <= i < |adapters| ==> adapters[i].ctype != t
    ensures t !in ByType([reconciled, known] + adapters)
  {
    var all := [reconciled, known] + adapters;
    assert forall i :: 2 <= i < |all| ==> all[i] == adapters[i - 2];
    if t in ByType(all) { ByTypeOnlyListed(all, t); }
  }

  // ---------------------------------------------------------------------------------------
  // Condition types
  // ---------------------------------------------------------------------------------------

  /** A hyphen goes, and the letter behind it is capitalised as at the beginning. */
  lemma {:induction false} HyphenParts(a: string, b: string, start: bool)
    ensures PascalCase(a + "-" + b, start) == PascalCase(a, start) + PascalCase(b, true)
    decreases |a|
  {
    if a == "" {
      assert a + "-" + b == "-" + b && ("-" + b)[1..] == b;
    } else {
      assert (a + "-" + b)[1..] == a[1..] + "-" + b;
      HyphenParts(a[1..], b, a[0] == '-');
    }
  }

  /** A part without hyphens keeps all its letters but the first, which is capitalised. */
  lemma {:induction false} PartCapitalised(part: string, start: bool)
    requires '-' !in part
    ensures |PascalCase(part, start)| == |part|
    ensures forall i :: (if start then 1 else 0) <= i < |part| ==> PascalCase(part, start)[i] == part[i]
    ensures start && part != "" && 'a' <= part[0] <= 'z' ==>
              PascalCase(part, start)[0] as int == part[0] as int - 'a' as int + 'A' as int
    ensures start && part != "" && !('a' <= part[0] <= 'z') ==> PascalCase(part, start)[0] == part[0]
  {
    if part != "" {
      assert '-' !in part[1..];
      PartCapitalised(part[1..], false);
    }
  }

  /** The condition type of an adapter: its parts, capitalised, and the suffix. */
  lemma TypeOfAdapter(name: string)
    ensures MapAdapterToConditionType(name) == AdapterType(PascalCase(name, true) + "Successful")
  {
  }

  // ---------------------------------------------------------------------------------------
  // Transition times
  // ---------------------------------------------------------------------------------------

  /**
   * When the stored Reconciled of a live resource changes its status, its transition time becomes the time of the new
   * generation if that is what took True away, and else the update time.
   */
  lemma TransitionOverStep(descs: Descriptors, s: State, op: Op, s': State, id: Id)
    requires RegistryOk(descs) && Inv(descs, s) && Step(descs, s, op, s') && id in s.rows && Tracked(descs, s', id)
    requires ReconciledOf(s, id).Some? && ReconciledOf(s', id).Some?
    requires ReconciledOf(s', id).value.status != ReconciledOf(s, id).value.status
    ensures var before, after, row := ReconciledOf(s, id).value, ReconciledOf(s', id).value, s'.rows[id];
            after.lastTransitionTime ==
            if after.status == CondFalse && row.generation > before.observedGeneration then row.updatedTime
            else after.lastUpdatedTime
  {
    var row := s'.rows[id];
    StepKeeps(descs, s, op, s');
    StepEvolves(descs, s, op, s', id);
    RequiredTypesDistinct(descs, row.kind);
    StoredNotAhead(descs, s', id);
    AggregateTable(row.generation, RefTime(row), false, ConditionsOf(s, id), Required(descs, row.kind),
                   SnapshotsFor(descs, row, ReportsOf(s', id)), false);
  }
}
