# HyperFleet API: a verified model

A Dafny model of the core of the HyperFleet API, a store of generic resources with an ownership tree, cross-references,
generations and adapter-reported status. It has five parts and a small extra:

- **The resource lifecycle.** `Database` holds the tables and the data-access methods, `ResourceService` the public
  mutations (Create, Patch, Delete, ProcessAdapterStatus, ForceDelete), each one transaction. Every method is proved to be a
  transition of `Lifecycle`; `Invariants` and `Preservation` say and prove what every transition keeps, `Cascade` and
  `Purge` how the recursive deletes compose, and `Runs` what follows over whole runs. `Driver` calls the service operation
  by operation and so ties those runs to it; `Convergence` processes the same reports in different orders.
- **What a caller is promised.** `WritePromise`, `ReportPromise`, `DeletePromise` and `StatusPromise` say, in the terms of
  the stored rows and the request alone, when each mutation succeeds, what it stores, and what Reconciled,
  LastKnownReconciled and the adapter conditions mean, without the transition functions and the rules of aggregation.
- **Status aggregation.** `Aggregation` has the rules for Reconciled, LastKnownReconciled and the per-adapter conditions as
  functions, with the loops that compute them; `AggregationLaws` has order independence, the fixed point and the timestamps;
  `Delivery` has the classification and the guarded upsert of reports as a last-writer-wins register.
- **The search compiler.** `Tsl` walks a search tree with one shared mutable context and emits SQL tokens and arguments;
  `TslSafety` has the structural guarantees, `SqlReader` reads tokens with PostgreSQL's operator precedence, `TslMeaning`
  proves what the text reads as, `TslWitnesses` has accepted queries that are misread, and `TslTruth` gives both sides a
  three-valued truth. `TslNames` says what the names of fields mean, `TslAccept` states acceptance without a context, and
  `SqlLexer` takes the emitted text apart again.
- **Registry validation.** `Registry` combines the walk up the ParentKind chains with the three-colour search over required
  references; the depth of a kind is what makes the recursive deletes terminate.
- **Connection strings.** `Dsn` has the printer against a keyword/value parser (section 34.1.1.1 of the PostgreSQL 14 manual).

`Conditions`, `SortedNames`, `Tables` and `Common` hold the shared vocabulary. `Findings` shows, on inputs, where the code
does not do what it says.

A transition is a function of the tables, except for Delete, which also depends on the order in which a cascade visits the
child kinds, the order of a Go map: it decides whether a reference between two branches blocks the delete.
`Lifecycle.DeleteInOrder` is the delete under a given order, `Lifecycle.DeleteStep` the delete under any.

## Assumptions

- Transactions run one after the other, and the caller sees all tenants. Each transaction reads one instant from the clock,
  which is not the zero time.
- Ids are fresh and never used again; ids and kinds are opaque (numbers here).
- The registry does not change after validation. Every child kind's policy is `restrict` or `cascade`, and the required
  adapters of a kind have distinct condition types. Validation checks neither; `Findings` has what happens without them, and
  exactly when.
- No kind has a condition mapper.
- Condition types are unique within a report (pkg/handlers/validation.go:304-314), and generations stay below the limit of
  their column type.

## Where the code and its words differ

- pkg/registry/registry.go:99 speaks of required cycles "between two or more kinds"; the search also rejects a kind that
  requires itself, and so does the model.
- pkg/registry/registry.go:121-124 says that the kind it names participates in a ParentKind cycle. It does exactly when it
  is the kind that the walk met twice (`Registry.Registry.WalkParents`, `Findings.MisnamedKind`); `Registry.ReturnsExactly`
  says when that is. It always does if and only if no two kinds on endless chains share a ParentKind
  (`Findings.NamesParticipants`).
- pkg/services/resource.go:432-461 skips policies other than the two declared ones, and then deletes or marks rows over
  their live children, anywhere in the cascade (`Findings.OrphanBelow`); `Findings.CascadeKeepsForest` has the exact condition
  in the tables before the delete.
- pkg/util/naming.go:14-28 maps different adapter names to one condition type. The write of their conditions is then refused
  as soon as both have reported (`Findings.CollidingReports`), exactly as `Findings.WriteAggregated` says.
- pkg/db/sql_tsl.go:311-316 puts a minus directly in front of a spec path, where SQL takes it as a minus on the column. The
  text is read as it was meant exactly without such a minus, and without an empty IN list (`TslMeaning.ReadAsMeant`); such
  queries are accepted (`TslWitnesses.MisreadAccepted`, `TslWitnesses.UnreadableAccepted`).
- pkg/db/sql_tsl.go:515-540 does not clear the remembered condition subfield after LIKE, nor does walkIn. A query behind
  it is then accepted or refused by what stands before it (`TslSafety.LeakedSubfield`), exactly when the walk of what
  stands before leaves a subfield behind (`TslSafety.LeaksExactly`).

## Model

| member | source | states |
|---|---|---|
| `Runs.ReachableOk` | pkg/services/resource.go:126-321 | In every state reachable from the empty tables by any sequence of creates, patches, reports, deletes and force-deletes, failed ones included: every owner exists, is of the parent kind and is not deleted over a live child; every reference joins a live source to a live target of the declared kind and every live resource is within Min and Max per type; no stored report is ahead of its resource; the stored conditions of a live resource are, all of them, an aggregation of its stored reports, and the Reconciled of a deleting one is never True ahead of them; live names are unique per kind and owner |
| `Preservation.StepKeeps` | pkg/services/resource.go:341-511 | One step of any of the five kinds, from any state that meets that invariant, leads to one that meets it: no cascade, adapter-driven hard-delete or force-delete leaves an orphan, a live child under a deleted parent or a dangling reference |
| `Runs.FinalizationSafety` | pkg/services/resource.go:907-950 | A resource whose kind has required adapters disappears in a step other than a force-delete only in the step of a report that leaves every required adapter with Finalized=True at the generation of the resource, without children; an earlier step had marked it, and each of those reports was accepted by a report operation after that step |
| `Runs.AcceptedAfterMark` | pkg/services/resource.go:366-371 | A report stored at the generation of a deleting resource was brought by a report operation of the run that came after the step that marked it |
| `Runs.MarkedOnce` | pkg/services/resource.go:366-371 | A deleting resource was live until some step marked it, and has had one frozen generation ever since, ahead of every report stored at the marking |
| `Runs.LastKnownHasWitness` | pkg/services/aggregation.go:433-519 | If the stored LastKnownReconciled is True with observed generation g, then in this or an earlier state of the run all required adapters stood at Available=True, uniformly at g |
| `Runs.TimestampsOverRuns` | pkg/services/aggregation.go:404-424 | Over any stretch of a run in which a condition type stays stored, its created time does not change, nor its transition time while its status does not |
| `Runs.TimestampsKept` | pkg/services/aggregation.go:672-733 | One step keeps the created time of every condition type that stays, and its transition time unless the status changes |
| `Runs.ReportRemovesOrStaysUnreconciled` | pkg/services/resource.go:734-767 | An effective report of a required adapter on a deleting resource either removes the row or leaves its stored Reconciled False, although the two decisions are computed differently |
| `Runs.FinalReportCompletes` | pkg/services/aggregation.go:760-777 | If aggregation would call all required adapters final after such a report, the hard-delete check over the reports themselves says so too |
| `Runs.FinalSnapshots` | pkg/services/aggregation.go:203-218 | Snapshots that are all final come from rows of reports that are all final, at the generation of the resource |
| `Runs.ForceDeleteIsExact` | pkg/services/resource.go:1163-1224 | From any tables: a successful force-delete removes exactly the rows below the root and every reference that touches them, and leaves each surviving affected source with at least Min references of each affected, registered type |
| `Runs.MetricConserved` | pkg/services/resource.go:883-901 | Whatever each step counts adds up: over a run whose steps count their moves, the reconciliation-started counter of a kind and delete flag is the number of committed moves of a stored Reconciled from absent or True to False |
| `Driver.RunAll` | pkg/services/resource.go:377-386 | Any sequence of calls on a new service over empty tables, failed ones included, makes a run of the model that ends in its tables and counters; and each counter is the number of committed moves of a stored Reconciled to False over all its states |
| `Driver.Apply` | pkg/services/resource.go:126-1160 | Each public operation, called in a state that meets the invariant with a fresh id and a clock, is a step of the model, counts exactly the moves of that step, and leaves the invariant |
| `Runs.StepEvolves` | pkg/api/resource.go:97-110 | How one step can move one row: identity never changes, a deletion mark is never taken back, bumps the generation exactly once and freezes it; stored reports take in at most one report; conditions are left alone or are the fresh aggregation |
| `StatusPromise.ReachableReconciled` | pkg/services/aggregation.go:277-351 | In every reachable state the stored Reconciled of a live resource of a kind with required adapters is True if and only if each of them has a stored report at the generation of the resource whose first Available condition is True; the observed generation is then that of the resource |
| `StatusPromise.LiveReconciled` | pkg/services/aggregation.go:277-351 | Read off the stored reports alone: status, reason and observed generation of the stored Reconciled (if not True, the highest reported generation), its update time (the earliest report at the generation) and the adapters that its message names |
| `StatusPromise.KnownOverStep` | pkg/services/aggregation.go:433-519 | Over every step: LastKnownReconciled is True exactly when all required adapters now say Available=True at one generation, or it was True, all have usable reports and none says Available=False at the generation it was True at; its generation, reason, message and time follow from the reports in the same way |
| `StatusPromise.LiveAdapter` | pkg/services/aggregation.go:690-734 | A live resource has the condition of a required adapter exactly when that has a usable report, and the condition repeats the status, generation, time, reason and message of its first Available |
| `StatusPromise.TransitionOverStep` | pkg/services/aggregation.go:404-424 | When the stored Reconciled changes, its transition time is the time of the new generation if that is what took True away, and else its update time |
| `StatusPromise.HyphenParts` | pkg/util/naming.go:14-28 | A hyphen in an adapter name vanishes, and what follows is capitalised like a beginning |
| `StatusPromise.PartCapitalised` | pkg/util/naming.go:14-28 | Of a part without hyphens only the first letter changes, to its capital |
| `WritePromise.CreateSucceedsExactly` | pkg/services/resource.go:126-213 | A create succeeds exactly for a registered kind, a name that no live row of the kind and owner has, a live owner of the parent kind, and references of declared types within Min and Max, each at a different live target of the declared kind |
| `WritePromise.CreateStores` | pkg/services/resource.go:171-205 | It adds the row with the given kind, name, owner, spec and labels at generation 1, and the given references; nothing else changes but its conditions |
| `WritePromise.CreateConditions` | pkg/services/resource.go:193-205 | Its first conditions are the two of the resource, False at generation 0 and dated at the creation, and none of an adapter |
| `WritePromise.PatchSucceedsExactly` | pkg/services/resource.go:246-278 | A patch succeeds exactly on a live row of the kind, under the owner that the request names, with references that fit where any are given |
| `WritePromise.PatchStores` | pkg/services/resource.go:253-300 | If spec and labels are absent or equal and no references are given, nothing changes at all; otherwise the row has the given spec and labels, the old ones where none are given, at the old generation plus one |
| `WritePromise.PatchStoresReferences` | pkg/services/resource.go:271-284 | The references of the patched resource are the given ones where given, and nobody else loses or gains any |
| `WritePromise.PatchUnreconciles` | pkg/services/resource.go:286-315 | After a patch that raised the generation the stored Reconciled of a kind with required adapters is False, dated at the patch, since no stored report is ahead of the old generation |
| `ReportPromise.ReportRefusedExactly` | pkg/services/adapter_status_validation.go:20-96 | A report fails exactly when the resource is not there, or when it is neither ahead, untimed nor behind the stored one but lacks Available, Applied or Health, or has a first Available other than True, False and Unknown |
| `ReportPromise.ReportDiscarded` | pkg/services/adapter_status_validation.go:26-93 | A report that is outdated, or a repeated Unknown, changes nothing |
| `ReportPromise.ReportStored` | pkg/services/resource.go:700-767 | Any other takes the place of the stored report of its adapter unless that is as late, condition by condition with the stored transition time where the status is unchanged; it then removes the resource with all its rows exactly when it is final, all required reports are final at the generation and nothing is left below, and else changes nothing but the conditions |
| `ReportPromise.ReportReconciles` | pkg/services/resource.go:747-767 | After a report about a deleting resource that says how its adapter stands, Reconciled is True exactly when all required reports are Finalized=True at the generation and no child is left |
| `DeletePromise.RestrictionMeans` | pkg/services/resource.go:548-562 | A cascade is restricted exactly by the rows below it that are not deleted and whose kind has the policy Restrict; a soft-deleted one restricts nothing |
| `DeletePromise.HeldDeleteConflicts` | pkg/services/resource.go:432-437 | A delete conflicts and changes nothing when a row of its cascade has such a child |
| `DeletePromise.FreeDeleteSucceeds` | pkg/services/resource.go:425-511 | In a reachable state it succeeds when everything below is already deleting, whatever the policies, and no reference targets the row |
| `DeletePromise.DeleteLeavesRow` | pkg/services/resource.go:487-546 | A row of the cascade stays exactly while its kind has required adapters or something is left below it; then it is marked, with the generation raised once, or keeps the mark and the generation it had |
| `DeletePromise.DeleteLeavesRest` | pkg/services/resource.go:425-511 | All other rows and their conditions stay as they are, and exactly the references that start in the cascade go |
| `DeletePromise.DeleteReconciles` | pkg/services/resource.go:487-504 | The Reconciled of a row that stays is True exactly when all required reports are Finalized=True at its new generation and nothing is left below it |
| `DeletePromise.ErrorTells` | pkg/services/resource.go:126-1224 | Which error each of the five operations gives, from the request and the rows alone |
| `DeletePromise.ForceDeleteSucceedsExactly` | pkg/services/resource.go:1163-1224 | From any tables without dangling targets: a force-delete succeeds exactly on a row that is marked, when every outside source that loses references keeps at least Min of each such type |
| `DeletePromise.ForceDeletePurges` | pkg/services/resource.go:1163-1256 | In a reachable state it succeeds on every marked row and takes exactly the rows below with their statuses and conditions |
| `DeletePromise.ForceDeleteRefusesLive` | pkg/services/resource.go:1175-1177 | A force-delete of a live row is a conflict and leaves the tables as they were |
| `DeletePromise.ForceDeleteAfterMark` | pkg/services/resource.go:1175-1177 | In a run, a force-delete that changes anything comes after the step that marked its row |
| `DeletePromise.LiveRowGoes` | pkg/services/resource.go:517-546 | A row that is live before a step and missing after it went with the cascade of a delete, and its kind has no required adapters |
| `Preservation.DeleteKeepsForest` | pkg/services/resource.go:425-511 | After a delete every remaining row still hangs under an existing owner of the right kind, and nothing live remains under a deleting one |
| `Preservation.DeleteKeepsReferences` | pkg/services/resource.go:463-490 | After a delete no reference has lost its source or its target |
| `Preservation.ReportKeeps` | pkg/services/resource.go:690-775 | Processing a report keeps the invariant on all its branches: hard-delete, aggregation, silent storage, discard |
| `Preservation.CreateKeeps` | pkg/services/resource.go:126-213 | A create keeps the invariant: live owner of the parent kind, checked references, fresh first conditions |
| `Preservation.PatchKeeps` | pkg/services/resource.go:232-323 | A patch keeps the invariant, whether or not it replaces the references |
| `Preservation.ForceDeleteKeeps` | pkg/services/resource.go:1247-1256 | A force-delete keeps the invariant |
| `Preservation.NothingRefersIntoDoomed` | pkg/services/resource.go:1282-1302 | In a reachable state nothing refers into or out of a tree under a deleting root, so a force-delete there breaks no minimum |
| `Preservation.SilentReport` | pkg/services/adapter_status_validation.go:62-93 | A report accepted without aggregation (Available missing, or a first Available=Unknown) cannot change what aggregation would compute, so skipping the aggregation keeps the view right |
| `Service.ResourceService.Create` | pkg/services/resource.go:126-213 | Is the create transition of the tables, with every error case in its order; leaves the tables alone on error, keeps the invariant, and counts exactly the moves it commits |
| `Service.ResourceService.Patch` | pkg/services/resource.go:232-323 | Is the patch transition: owner-scoped lookup, conflict on a deleting row, references replaced after validation, generation bumped exactly when something changed or references were given |
| `Service.ResourceService.ProcessAdapterStatus` | pkg/services/resource.go:690-775 | Is the report transition: discard, refuse, store, aggregate or hard-delete |
| `Service.ResourceService.Delete` | pkg/services/resource.go:341-389 | Given the turns in which the iterations over the map of child kinds take them, and the id order within a kind: conflicts exactly when a live restricted child stands against the cascade or a reference into it has a source outside, or one that is not deleted before its target; then nothing changes. Otherwise every node of the cascade is kept exactly while it has required adapters or children, marked once and recomputed, everything else is untouched, and all moves of the cascade are counted |
| `Cascade.DeleteNeverConflicts` | pkg/services/resource.go:425-511 | A delete of a found row succeeds under all turns if and only if nothing restricts it and every reference into its cascade comes from a row below its target or in an earlier branch of the same kind |
| `Cascade.DeleteAlwaysConflicts` | pkg/services/resource.go:463-475 | It conflicts under all turns when something restricts it, or a reference into the cascade comes from outside, from its target, from above it, from a later branch of the same kind, or is one of two in opposite directions |
| `Cascade.SurelyIsAlways` | pkg/services/resource.go:438-461 | A row is deleted before another under all turns exactly when it hangs below it, or in an earlier branch of the same kind |
| `Cascade.PrecedesAsymmetric` | pkg/services/resource.go:438-475 | No two rows are deleted before each other, so no pair of opposite references can go in time |
| `Service.ResourceService.ForceDelete` | pkg/services/resource.go:1112-1224 | Is the force-delete transition from any tables with consistent keys, invariant or not; all or nothing; moves no condition |
| `Service.ResourceService.CreateTx` | pkg/services/resource.go:141-205 | The transaction body of a create, in the order of its checks |
| `Service.ResourceService.InsertNew` | pkg/services/resource.go:171-205 | Refuses a taken name; else the row, its references and its first conditions are all that is new |
| `Service.ResourceService.PatchTx` | pkg/services/resource.go:246-315 | The transaction body of a patch |
| `Service.ResourceService.ReportTx` | pkg/services/resource.go:700-767 | The transaction body of a report |
| `Service.ResourceService.DeleteTree` | pkg/services/resource.go:425-511 | The recursive delete: children first, then the references check, then soft or hard. Returns the turns it took; under them it succeeds exactly when nothing restricts the cascade and every reference into it is gone in time. Terminates because the ParentKind chain is finite |
| `Service.ResourceService.DeleteChildren` | pkg/services/resource.go:438-461 | After the loop over the cascading kinds exactly their trees are deleted, in the turns of that loop; what blocks a child under its turns blocks the parent under the merged ones |
| `Service.ResourceService.DeleteKind` | pkg/services/resource.go:438-461 | After the loop over the owned rows of one kind, in id order, exactly their trees are deleted besides those of before |
| `Service.ResourceService.DeleteChild` | pkg/services/resource.go:447-460 | A child not reached so far is still as it was, and is marked once and deleted with its tree; its turns become those of the parent inside that tree |
| `Service.ResourceService.FollowReport` | pkg/services/resource.go:734-767 | After the upsert: the hard-delete when the report completes it, else the aggregation when Available triggers it, else nothing |
| `Service.ResourceService.DeleteSelf` | pkg/services/resource.go:463-510 | The row itself: refused while referenced, kept while it must stay, else removed; together with its children this is the whole delete |
| `Service.ResourceService.SoftDelete` | pkg/services/resource.go:487-504 | Saves the mark, clears the outgoing references and recomputes the conditions, of one row only |
| `Service.ResourceService.ShouldSoftDelete` | pkg/services/resource.go:517-546 | The row must stay exactly when its kind has required adapters or it has a soft-deleted child |
| `Service.ResourceService.IsRestricted` | pkg/services/resource.go:548-562 | True exactly when a live child of a restricting kind exists |
| `Service.ResourceService.Mark` | pkg/services/resource.go:366-371 | Sets the deletion mark and bumps the generation, unless already marked |
| `Service.ResourceService.HasChildren` | pkg/services/resource.go:954-970 | The two queries over the registered child kinds find a child exactly when there is one, live or soft-deleted |
| `Service.ResourceService.SaveAggregated` | pkg/services/resource.go:813-902 | Stores exactly the fresh aggregation over the listed reports and the stored conditions, also when the write is skipped as unchanged, and reports a started reconciliation exactly when the stored Reconciled moves to False |
| `Service.WrittenAsComputed` | pkg/dao/resource_condition.go:41-87 | What aggregation computes from stored conditions passes through the timestamp rule of the write unchanged |
| `Service.ResourceService.TryHardDelete` | pkg/services/resource.go:907-950 | Removes the row, its statuses and its conditions exactly when the report is final, all required adapters are and no child remains |
| `Service.ResourceService.StoreReport` | pkg/services/resource.go:700-767 | Upsert, in-memory list, hard-delete and aggregation together give the tables of the report transition |
| `Service.ResourceService.ValidateReferences` | pkg/services/resource.go:1323-1388 | Accepts exactly the reference maps whose counts, ids, kinds, distinctness and live targets are in order |
| `Service.ResourceService.ConvertRefs` | pkg/services/resource.go:1392-1410 | Flattens an accepted map into distinct rows with the kind of the registry, losing and adding none |
| `Service.ResourceService.Collect` | pkg/services/resource.go:1258-1280 | Visits every row below the root exactly once, each after its owner, and terminates |
| `Service.ResourceService.ValidateRemainingReferenceMins` | pkg/services/resource.go:1282-1302 | Passes exactly when every group keeps its minimum; the error tells an unregistered kind or type from a broken minimum |
| `Service.ResourceService.ForceDeleteTx` | pkg/services/resource.go:1163-1224 | Not found, not deleting, a broken minimum, or exactly the purge of the subtree |
| `Service.ResourceService.RecordStarted` | pkg/services/resource.go:377-386 | Adds each outcome of a committed transaction to its counter once |
| `Service.MinimumsFromCounts` | pkg/services/resource.go:1191-1199 | The grouped counts pass the check exactly when no surviving source falls below a minimum |
| `Cascade.ComposeDeletes` | pkg/services/resource.go:438-461 | Two deletes of disjoint trees, the second not reaching under the first, are one delete of both |
| `Cascade.OneMoreChild` | pkg/services/resource.go:447-460 | Deleting one more child after its siblings is deleting all of them, outcomes included |
| `Cascade.BlockedChild` | pkg/services/resource.go:452-455 | What blocks the delete of a child, after some siblings are gone, already blocked the delete of the parent under the merged turns |
| `Cascade.ReferencesCompose` | pkg/services/resource.go:463-475 | References gone in time among the children deleted so far, and among the next one in the tables it meets, are gone in time in both together under the merged turns |
| `Cascade.LateInside` | pkg/services/resource.go:463-475 | A reference that is late when the next child is deleted, in the tables it meets, is late in the whole cascade in the tables at the start |
| `Cascade.RootLast` | pkg/services/resource.go:463-510 | Deleting the children and then the root is deleting the root |
| `Cascade.RemainingChildrenDeleting` | pkg/services/resource.go:517-546 | Once the cascading children are dealt with, whatever is left under the root is soft-deleted |
| `Cascade.MovesCompose` | pkg/services/resource.go:460-461 | The moves counted for disjoint trees add up |
| `Purge.BelowAll` | pkg/services/resource.go:1258-1280 | The subtrees of the children of the root are the whole tree without the root |
| `Purge.InvKeys` | pkg/db/migrations/202605202128_add_resources.go:24-92 | Reachable tables have the consistent keys that collection relies on, although owner_id is no foreign key |
| `Database.Database.Begin` | pkg/db/transactions.go:30-63 | A transaction opens unless one is open already; nesting fails |
| `Database.Database.Rollback` | pkg/db/transactions.go:30-63 | Puts back the tables of the moment the transaction opened |
| `Database.Database.GetForUpdateByOwner` | pkg/dao/resource.go:92-127 | Finds the row exactly when kind, id and owner fit and the owner exists in its kind |
| `Database.Database.Create` | pkg/dao/resource.go:139-155 | Inserts unless a live row of the kind and owner has the name |
| `Database.Database.Delete` | pkg/dao/resource.go:165-173 | Takes the row, its references and conditions; the foreign key refuses a referenced row |
| `Database.Database.DeleteIDs` | pkg/dao/resource.go:175-182 | The same for a set of rows at once |
| `Database.Database.FindByKindAndOwnerForUpdate` | pkg/dao/resource.go:233-244 | Exactly the owned rows of the kind, each once, in the order of their ids, as loaded objects |
| `Database.Database.FindChildrenForUpdate` | pkg/dao/resource.go:246-252 | Exactly the owned rows, each once, in the order of their ids |
| `Database.Database.ReplaceReferences` | pkg/dao/resource.go:254-270 | Replaces the outgoing references, or fails on duplicates and missing targets |
| `Database.Database.HasReferencers` | pkg/dao/resource.go:274-294 | True exactly when a live resource references the target |
| `Database.Database.FindExternalReferenceCounts` | pkg/dao/resource.go:299-336 | One group per surviving source and type that loses references, with what it keeps |
| `Database.Database.DeleteReferencesByTargets` | pkg/dao/resource.go:338-344 | Removes exactly the references into the set |
| `Database.Database.Upsert` | pkg/dao/adapter_status.go:58-101 | Updates only to a later generation or a later time of the same one, inserts a first row, and yields the row as stored |
| `Database.Database.UpdateConditions` | pkg/dao/resource_condition.go:41-87 | Rewrites the slice in place by the timestamp rule and replaces all condition rows by it; fails without effect on a repeated type |
| `Database.PreservationChangesNothing` | pkg/dao/resource_condition.go:41-87 | Conditions that succeed the stored ones and have all their times are written exactly as computed |
| `Database.Resource.IncrementGeneration` | pkg/api/resource.go:108-110 | Raises the generation by one and touches nothing else |
| `Database.Resource.MarkDeleted` | pkg/api/resource.go:97-100 | Sets the deletion time and touches nothing else |
| `Delivery.ValidateAndClassify` | pkg/services/adapter_status_validation.go:20-96 | The ordered early exits and the loop give the classification: discard ahead or behind or untimed reports, refuse missing or malformed conditions, store, and aggregate on Available True or False |
| `Delivery.SetConditionTransitionTimes` | pkg/services/adapter_status.go:48-77 | Rewrites the slice in place: a condition whose status did not change keeps its stored transition time |
| `Delivery.FindInList` | pkg/services/util.go:90-98 | The row of the adapter, if the list has one |
| `Delivery.ReplaceInList` | pkg/services/util.go:102-118 | The list with the row of the adapter replaced or added |
| `Delivery.ReplacedLists` | pkg/services/util.go:102-118 | The new list lists the table after the upsert, so no second query is needed |
| `Delivery.EffectiveUpsertAdvances` | pkg/dao/adapter_status.go:58-100 | A delivery changes at most the row of its adapter, and only to a strictly later (generation, time) that is not ahead of the resource |
| `Delivery.DeliverAllKeepsLatest` | pkg/services/adapter_status_validation.go:26-60 | Whatever was delivered, the stored row is the lexicographic maximum of the old row and the delivered reports |
| `Delivery.DeliveryConverges` | pkg/services/resource.go:700-732 | Any order of delivery of reports that never tie ends in the same rows up to transition times, and in the same snapshots |
| `Convergence.StoredReconciledConverges` | pkg/services/resource.go:690-775 | Two orders of processing the same reports, which never tie, on one live resource of a kind with required adapters leave the same stored Reconciled, reason, message and update time included, but for its created and transition times |
| `Convergence.ReportsDelivered` | pkg/services/resource.go:700-732 | Processing reports one by one on a live resource keeps the invariant and every row, and leaves as stored reports exactly what delivering them in that order leaves |
| `Convergence.FinalReportsRemove` | pkg/services/resource.go:907-950 | The dual of finalization safety: Finalized=True reports at the generation of a deleting resource without children, newer than the stored ones, leave the row gone in whatever order they are processed, exactly when every required adapter is among them or was final before |
| `Aggregation.AggregateResourceStatus` | pkg/services/aggregation.go:91-115 | The loops compute the aggregated list: Reconciled, LastKnownReconciled and one condition per reporting required adapter |
| `Aggregation.NormalizeAdapterReports` | pkg/services/aggregation.go:154-222 | The loop keeps the last usable report of each required adapter |
| `Aggregation.ComputeReconciled` | pkg/services/aggregation.go:277-351 | Status, generation, times, reason and message of Reconciled, on all branches |
| `Aggregation.SameGenerationAllTrue` | pkg/services/aggregation.go:539-560 | Whether all required adapters are Available=True, at which first-seen generation, and whether generations are mixed |
| `Aggregation.ComputeLastKnownReconciledStatus` | pkg/services/aggregation.go:433-470 | The sticky status: earned by a uniform set, kept through mixed generations and through failures at other generations |
| `Aggregation.ComputeLastKnownReconciledObservedGeneration` | pkg/services/aggregation.go:563-604 | The generation the status was earned at |
| `Aggregation.ComputeLastKnownReconciledLastUpdatedTime` | pkg/services/aggregation.go:606-669 | The earliest relevant report time, or the stored or reference time |
| `Aggregation.ComputeLastKnownReconciled` | pkg/services/aggregation.go:472-519 | The whole LastKnownReconciled condition |
| `Aggregation.ComputeAdapterConditions` | pkg/services/aggregation.go:690-734 | One condition per required adapter that has reported, in order |
| `Aggregation.MinTime` | pkg/services/aggregation.go:736-750 | The earliest of the times, zero for none |
| `Aggregation.AllAdaptersFinalized` | pkg/services/aggregation.go:760-777 | True exactly when each required adapter has a final report at the generation |
| `AggregationLaws.ReportOrderIrrelevant` | pkg/services/aggregation.go:154-222 | Permuting the reports, one per adapter, changes nothing at all |
| `AggregationLaws.RequiredOrderIrrelevant` | pkg/services/aggregation.go:539-560 | Permuting the required adapters leaves Reconciled and LastKnownReconciled identical, messages included, and only permutes the rest |
| `AggregationLaws.FirstGenerationIrrelevant` | pkg/services/aggregation.go:539-560 | The first-seen generation does not depend on the order where it is used |
| `AggregationLaws.AggregateIsFixedPoint` | pkg/services/aggregation.go:91-115 | Aggregating again with its own output as previous conditions returns exactly the same conditions |
| `AggregationLaws.LastKnownWitness` | pkg/services/aggregation.go:433-519 | A computed True at generation g is uniform now or was True at g before |
| `AggregationLaws.AggregateSucceeds` | pkg/services/aggregation.go:672-733 | Every computed condition keeps the created time of its predecessor, and its transition time unless the status changed |
| `AggregationLaws.AggregateTypesDistinct` | pkg/services/aggregation.go:690-734 | With distinct adapter types no two aggregated conditions share a type |
| `AggregationLaws.AggregateTypesExactly` | pkg/services/aggregation.go:690-734 | No two aggregated conditions share a type if and only if no two reporting adapters do |
| `Registry.Registry.Register` | pkg/registry/registry.go:12-24 | Accepts a descriptor exactly when kind and plural are set and the kind is new |
| `Registry.ChildrenOf` | pkg/registry/registry.go:80-88 | Exactly the descriptors that name the kind as parent, each once, in any order |
| `Registry.Registry.Validate` | pkg/registry/registry.go:100-229 | Returns normally if and only if every descriptor passes each single check (written out in `Sound`: kinds, plurals, names, parents, reference types, targets, Min and Max), every kind has a depth below its parent and the required references allow an order of creation, so neither kind of cycle exists, for every map order. A kind named in an ownership panic has no root, and is on a cycle exactly when going up from it comes back to it within as many steps as there are kinds; a reported reference cycle is a genuine one |
| `Registry.Registry.WalkParents` | pkg/registry/registry.go:118-128 | The walk loops exactly when the kind never reaches a root; the kind met twice is on a cycle, and the kind that the message names is on one exactly when it is the one met twice, or again when going up from it comes back to it |
| `Registry.Registry.CheckMappings` | pkg/registry/registry.go:169-177 | Passes exactly when the validator of condition mappings, a parameter, accepts every entity |
| `Registry.ReturnsExactly` | pkg/registry/registry.go:118-128 | The first kind of a looping chain is on a cycle exactly when going up from it comes back to it within as many steps as there are kinds |
| `Registry.Registry.Visit` | pkg/registry/registry.go:187-224 | One activation of the depth-first search finishes its kind with a rank above its required targets, or returns a cycle |
| `Registry.Registry.CircleAt` | pkg/registry/registry.go:197-213 | The path cut at the repeated kind and closed by it is a cycle of required references |
| `Registry.RootedMeansNoCycle` | pkg/registry/registry.go:118-128 | Chains that reach a root mean that no ParentKind cycle exists |
| `Registry.RankMeansNoRequiredCycle` | pkg/registry/registry.go:181-224 | A rank on all kinds means that no cycle of required references exists |
| `Tables.ValidatedRegistryOk` | pkg/registry/registry.go:90-179 | A validated registry gives what the services rely on, but for known delete policies and distinct condition types |
| `Tsl.Compile` | pkg/db/sql_tsl.go:111-117 | Accepts exactly the accepted trees and yields their text and arguments |
| `Tsl.WalkContext.WalkNode` | pkg/db/sql_tsl.go:131-166 | Under any state of the shared context: accepts exactly what the specification accepts under it, emits text and arguments that do not depend on it, and leaves the remembered subfield that the specification says |
| `Tsl.WalkContext.ResolveStatusConditionColumn` | pkg/db/sql_tsl.go:207-247 | Condition types and subfields are checked, and the subfield is remembered |
| `Tsl.WalkContext.ResolveSpecColumn` | pkg/db/sql_tsl.go:249-269 | All keys of the path are checked before the path is built |
| `Tsl.WalkContext.ResolveField` | pkg/db/sql_tsl.go:271-288 | A single checked key behind the table name |
| `Tsl.WalkContext.WalkComparison` | pkg/db/sql_tsl.go:356-406 | Constant comparisons and mistyped literals are refused, casts stand exactly where a spec path meets a number first, a pending subfield is checked and cleared |
| `Tsl.WalkContext.WalkIn` | pkg/db/sql_tsl.go:408-457 | The list is walked in order; the cast needs at least one argument and only numbers |
| `Tsl.WalkContext.WalkList` | pkg/db/sql_tsl.go:425-457 | Past its first checks walkIn accepts exactly what the specification accepts, with the list in order and the cast decided over all its arguments |
| `Tsl.WalkContext.WalkBetween` | pkg/db/sql_tsl.go:459-500 | Exactly two bounds; the cast needs both to be numbers |
| `Tsl.WalkContext.WalkIsNull` | pkg/db/sql_tsl.go:502-513 | The remembered subfield is cleared |
| `Tsl.WalkContext.WalkStringMatch` | pkg/db/sql_tsl.go:515-540 | LIKE and ILIKE over anything but a condition on the left |
| `Tsl.SpecPrefix` | pkg/db/sql_tsl.go:382-391 | The prefix test on the emitted text picks out exactly the spec paths |
| `Tsl.EmittedWellBegun` | pkg/db/sql_tsl.go:249-269 | Every emitted text meets what that test relies on |
| `TslSafety.PlaceholdersMatchArgs` | pkg/db/sql_tsl.go:111-166 | In every accepted query the number of placeholders is the number of arguments |
| `TslSafety.NoLabelUnderNot` | pkg/db/sql_tsl.go:168-194 | In every accepted query no label or condition field lies under a NOT, at any depth |
| `TslSafety.TestsMentionFields` | pkg/db/sql_tsl.go:356-520 | In every accepted query each comparison, IN, BETWEEN, LIKE and IS NULL, at any depth, is about a field |
| `TslSafety.EmittedHarmless` | pkg/db/sql_tsl.go:196-288 | Of the query only checked names reach the text; all else travels as arguments |
| `TslSafety.SubfieldCleared` | pkg/db/sql_tsl.go:356-406 | If condition fields occur only as direct operands of comparisons or IS NULL, the shared subfield is clear after every predicate |
| `TslSafety.NoLeak` | pkg/db/sql_tsl.go:326-354 | Then AND and OR accept exactly what their two sides accept alone |
| `TslSafety.LeakedSubfield` | pkg/db/sql_tsl.go:515-540 | In general they do not: after LIKE with a condition on the right, a later comparison of another field is refused as if it compared the condition |
| `TslSafety.LeaksExactly` | pkg/db/sql_tsl.go:326-354 | Exactly: an accepted left side of AND or OR lets through every right side that is accepted alone if and only if its walk leaves no subfield behind |
| `TslMeaning.ReadAsMeant` | pkg/db/sql_tsl.go:290-560 | For tests over fields, literals and their negation, the flat text read with SQL precedence is the query that was meant if and only if no IN list is empty and no minus stands directly on a spec path; an empty IN list, and only that, makes the text unreadable |
| `TslWitnesses.MisreadAccepted` | pkg/db/sql_tsl.go:311-316 | A negated spec field compared with a number is accepted, and its text reads as something else than was meant |
| `TslWitnesses.UnreadableAccepted` | pkg/db/sql_tsl.go:408-457 | A field tested against the empty list is accepted, and its text cannot be read as SQL |
| `TslMeaning.QueryReads` | pkg/db/sql_tsl.go:326-354 | Every emitted clause, followed by anything that ends a clause, reads as one expression that uses exactly its own placeholders in order |
| `TslMeaning.NegatedPathReads` | pkg/db/sql_tsl.go:311-316 | A minus in front of a spec path binds to the column, not to the path |
| `TslMeaning.NumericValues` | pkg/db/sql_tsl.go:434-447 | The cast test over the collected arguments is the test over the items: some number, and nothing else that binds an argument |
| `TslTruth.MeaningPreserved` | pkg/db/sql_tsl.go:111-166 | On every row, whatever the operators do to values, the text read as SQL with its arguments bound by position has the three-valued truth of the tree evaluated directly |
| `TslTruth.MeaningPreservedWithoutMinus` | pkg/db/sql_tsl.go:311-316 | With a minus on spec paths the two still agree wherever documents and texts have no minus, as in PostgreSQL |
| `TslNames.PathMeans` | pkg/db/sql_tsl.go:249-269 | The keys of a spec path are the only list of texts without dots that, joined by dots, gives the name behind "spec." back |
| `TslNames.SplitUnique` | pkg/db/sql_tsl.go:249-269 | A list of texts without dots is the split of what it joins to, in its order |
| `TslNames.ConditionMeans` | pkg/db/sql_tsl.go:207-226 | A status condition name is cut into the only type without dots and what follows the dot behind it |
| `TslNames.TrimUnique` | pkg/db/sql_tsl.go:131-166 | Trimming takes off white space at the two ends only: what is left is the one middle part that neither begins nor ends in white space |
| `TslAccept.AcceptedExactly` | pkg/db/sql_tsl.go:111-166 | For queries whose tests are plain, with condition fields only where nothing stays remembered, acceptance without any context: a query is accepted if and only if every field name, literal type, condition comparison and NOT in it obeys the stated rules |
| `SqlLexer.TextComesBack` | pkg/db/sql_tsl.go:196-560 | The emitted text of every accepted query, taken apart by a lexer that knows nothing of the compiler, is exactly the tokens that were emitted |
| `TslTruth.TextPreservesMeaning` | pkg/db/sql_tsl.go:111-166 | The text itself, taken apart and read as SQL with its arguments bound by position, has the truth of the tree on every row, with the fields read by their names: path keys, label key, condition type and subfield as the name says |
| `Dsn.ConnectionString` | pkg/config/db.go:204-226 | For all host, name, user, password and root-certificate strings and every permitted mode, the keyword/value parser reads back exactly the parameters of the configuration |
| `Dsn.ValueComesBack` | pkg/config/db.go:182-200 | Whatever the value, what is printed for it is read back as it, up to its end and no further |
| `Dsn.JoinComesBack` | pkg/config/db.go:217-225 | Printed parameters joined by blanks are read back as the parameters, in order |
| `Dsn.ParametersMean` | pkg/config/db.go:204-226 | Those parameters are the fields of the configuration, each under the keyword that the parser has for it, sslrootcert only where it applies, and nothing else |
| `Dsn.DecimalMeans` | pkg/config/db.go:204-226 | The port is printed as the numeral of its value: digits only, no superfluous zero, that number |
| `Findings.MisnamedKind` | pkg/registry/registry.go:118-128 | The ownership-cycle panic can name a kind that participates in no cycle and only leads into one |
| `Findings.NamesParticipants` | pkg/registry/registry.go:118-128 | The kind that the ownership-cycle panic names is on a cycle whichever entry the map yields first, if and only if no two kinds whose ParentKind chains never end share a ParentKind |
| `Findings.UnknownPolicyOrphans` | pkg/services/resource.go:432-461 | A live child whose kind has a policy that is neither declared one stays as it was under a row of the cascade, which is then gone or deleted |
| `Findings.CascadeKeepsForest` | pkg/services/resource.go:432-511 | In the tables that the caller of a delete has, with nothing restricting it: the delete keeps every owner in place and nothing live under a deleted row if and only if no row of the cascade has a live child of a kind with an unknown policy |
| `Findings.OrphanBelow` | pkg/services/resource.go:432-461 | A registry that passes every check, and a delete of a row without a child of an unknown policy that orphans a row further down |
| `Findings.DeletedIsLeft` | pkg/services/resource.go:425-511 | With known policies, what the cascade leaves by those rules is what the delete of the service leaves |
| `Findings.CollidingAdapters` | pkg/util/naming.go:14-28 | A hyphen in front of a digit vanishes, so two different adapter names share a condition type |
| `Findings.WriteAggregated` | pkg/dao/resource_condition.go:41-87 | Aggregated conditions are refused by the key of their table exactly when two required adapters with usable reports share a condition type; then nothing is written |
| `Findings.CollidingReports` | pkg/util/naming.go:14-28 | Once two such adapters have both reported, no aggregation of the resource can be written |

## Left out

- HTTP handlers, routing, authentication, presenters, logging, telemetry, configuration loading and the metrics server:
  I/O and library plumbing. The counters themselves are modelled.
- Tenant scoping: the reference and ownership invariants are for callers that see all tenants.
- Interleaved transactions, row locks and deadlock mapping: transactions are atomic here.
- Condition mappers (CEL): a foreign expression language, with a cache that can hold a map of a rolled-back patch.
- Leftover adapter statuses: the hard-delete inside a delete does not remove them, so nothing is claimed about them beyond
  the freshness of ids.
- A deleting resource may show Reconciled=True again after a repeated delete or a report of an adapter that is not required;
  only the step property of `Runs.ReportRemovesOrStaysUnreconciled` is claimed.
- Actors, hrefs and the request middleware that checks label syntax and the format and length of names: they would only add
  easy members. The service itself refuses just the empty name, and so does the model.
- JSON: specs are opaque strings compared for equality, and lists of conditions are compared as lists.
- Reasons and messages are constructors; `Aggregation.MessageText` renders the messages that name adapters.
- The order of rows in queries without an ORDER BY: any order is allowed.
- The validator of condition mappings: its verdict on an entity is a parameter of the registry.
- Upper-casing of letters outside ASCII in condition type names, and the 32-bit width of the generation column.
- The parser of the search language and the order-by and paging parts of a list: trees come in. The emitted text is taken
  apart by a lexer for the words of this dialect only, for table names that are keys like those of the source.
- Operands of tests beyond fields, literals and their negation (a comparison of comparisons, say) are compiled and covered by
  the structural guarantees, but not by `TslMeaning.ReadAsMeant`. The error messages of refused searches are one refusal here.
- TslAccept.AcceptedExactly: for plain tests, in which condition fields are compared with literals or NULL only; what other
  tests do with the shared context is said by `Tsl.WalkContext.WalkNode` and `TslSafety.LeaksExactly`.
- RFC3339 parsing is a parameter of the compiler.
- NUL characters in connection values, which end a C string.
