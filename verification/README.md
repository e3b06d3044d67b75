# AtlasFlow verification

A Dafny model of the parts of AtlasFlow whose correctness spans several functions, several steps or a whole run. Each
module follows one component of the repository, keeps its branches, constants and error cases, and proves what that
component is for. Code that updates state in place is a class or a loop here too, proved against a specification
function; the properties are lemmas about that function, stated for all inputs or all runs.

The modules, by component:

- **Run ledger and its consumers.** `RunLedger` (the SQLite event log and its validated projection), `OutboxDelivery`
  (at-least-once delivery into it), `JournalFlushes` (all runs' outboxes, flushed in any interleaving), `Startup`
  (startup reconciliation over the ledger and the execution journal), `Tombstones` (the life of one run through commands,
  crashes and startups: where a deletion mark can stand, and why startup settles every run) and `LifeSteps` (its steps are
  what the writes to store and journal do), `RunLocks` and `RunTasks` (locking of several runs, and the table of
  background tasks), `EventView` (the browser's bounded view of a log).
- **Plan graph.** `PlanGraph` (dependency graphs and the depth-first validator), `ResearchPlans` (plans, supplements and
  their lineage), `TaskColumns` (the layout's memoised column function).
- **Report text and citations.** `CitationCatalog`, `ExcerptSelection`, `ExcerptBudget`, `HistoricalCitations`,
  `ReferenceCleanup` (removing invalid references from a paragraph), `Fences` and `CodeMask` (code in Markdown), `Splice`
  (rewriting spans from last to first), `WarningPublication`, `HeadingScan` and `Limitations` (the headings of a report,
  and the warnings added to it), `TornWarning` (an example for them).
- **Model output and verdicts.** `FindingCleanup` and `ResearchResults` (a fresh research result, from the raw payload to
  acceptance), `TaskCapabilities`, `QualityVerdict` and `ReviewPipeline` (a report's review, from the model's verdict to
  the route). `Json` is the value type both normalisers work on.

`Common` and `Sorting` hold what several modules need: strings, deduplication, a stable sort.

`dafny verify dfyconfig.toml` checks everything.

## What the code does not promise

Where a law one would expect is false of the code, the model keeps the code, shows an input and proves when the law
holds.

- `apply_outbox` by itself: a repeated delivery is not always without effect, because one refused at first can be accepted
  when repeated. Repeats have no effect if and only if that never happens
  (`OutboxDelivery.EffectIsFirstOccurrencesExactly`; `OutboxDelivery.RetryExample` is an input of the store method). The
  outboxes by themselves never send such a sequence: whatever the runs emit, however their flushes interleave, fail, die
  and resume, and whenever they are fenced, as long as nothing else writes the records in between, repeats have no effect
  (`JournalFlushes.AllOutboxesObeyLaw`).
- `update` and `apply_outbox` do not look at the transition table, so they can leave a terminal status
  (`RunLedger.TerminalRunRevived`). They do so exactly when the patch sets a status that is not terminal and is neither
  refused nor, for a delivery, already logged (`RunLedger.UpdateKeepsTerminalIff`,
  `RunLedger.DeliveryKeepsTerminalIff`); `transition` never does.
- A replan verdict on a cumulative report whose only critical finding says that content is missing cannot be carried out:
  coverage replaces that finding by a warning and keeps the route, and the execution check then refuses it
  (`ReviewPipeline.MissingContentReplanFails`). Of all verdicts the model can give, the gate refuses exactly those that
  lose their critical finding so, besides acceptances below the threshold (`ReviewPipeline.ReviewReport`).
- A section whose text holds nothing substantive after code is masked is overwritten by the placeholder, so a kept
  paragraph of symbols alone is lost, even from a usable draft (`WarningPublication.SymbolsLostFromUsableDraft`). A kept
  paragraph survives exactly when its section has substantive text, unless it is a piece of the placeholder anyway
  (`WarningPublication.ParagraphEndToEnd`).
- `_clean_references` removes the matches of two patterns from last to first. When an internal marker ends in an invalid
  citation, as in `[task:a[9]`, it cuts the end twice and also removes text behind it
  (`ReferenceCleanup.NestedMarkerEatsText`). It removes exactly the matches if and only if no text survives behind such
  a marker (`ReferenceCleanup.RemovesExactlyMatchesIff`).
- Both link passes write a link's label back as the masked view shows it, so inline code in a label is lost
  (`ReferenceCleanup.LabelCodeIsLost`). All code survives if and only if no label of a found link overlaps code
  (`ReferenceCleanup.LinksSpareCodeIff`).
- Inserting missing warnings twice is not always inserting them once: a warning with `#` can be found across the
  insertion point, and the notes tear it apart (`Limitations.SeparatedIsTorn`, `TornWarning.HashWarningIsTorn`). It is the
  same if and only if nothing is missing, or every warning the report shows stands on one side of the insertion point or is
  spelled by the notes and their edges (`Limitations.IdempotentIff`).

Three limits of single functions do not reach the program, and the modules prove why:

- The cleanup alone checks support only when it removes a placeholder (`FindingCleanup.ClaimsSupportedExactly`,
  `FindingCleanup.UnsupportedClaimCanPass`). The validation behind it closes the gap: an accepted result is supported
  whichever branch was taken (`ResearchResults.AcceptResearch`).
- The merge alone can cut a critical audit finding from a list of more than 20 (`QualityVerdict.CutKeepsCriticalIff`,
  `QualityVerdict.FullListCutsCritical`). No caller gets there: the gateway lets 8 findings through, coverage adds at most
  one and the audit at most 8, so nothing is cut and a critical finding on either side forces a replan
  (`ReviewPipeline.ReplannedIff`).
- The audit alone can crowd out an actionable instruction behind 20 blank ones (`QualityVerdict.AuditStaysExecutableIff`).
  No caller gets there either: at most 9 instructions arrive (`ReviewPipeline.CoverageFacts`).

## Model

| member | source | states |
|---|---|---|
| `RunLedger.SQLiteRunStore.CreateRun` | backend/src/atlasflow/storage.py:206-235 | The new tables and the reply are those of the specification step `Create` |
| `RunLedger.SQLiteRunStore.AppendRunEvent` | backend/src/atlasflow/storage.py:241-259 | Same for an appended event: numbered MAX+1, or refused with nothing changed |
| `RunLedger.SQLiteRunStore.UpdateRun` | backend/src/atlasflow/storage.py:308-314 | Same for a validated update that ignores the transition table |
| `RunLedger.SQLiteRunStore.TransitionRun` | backend/src/atlasflow/storage.py:316-347 | Same for a transition: event id known means only the projection is written; a refused transition or record writes neither table |
| `RunLedger.SQLiteRunStore.ApplyOutboxEvent` | backend/src/atlasflow/storage.py:104-117 | Same for an outbox delivery: event and patch together, or nothing when the event is known |
| `RunLedger.SQLiteRunStore.UpsertTraceSegment` | backend/src/atlasflow/storage.py:349-398 | Same for a trace segment, with the event it logs |
| `RunLedger.SQLiteRunStore.DeleteRun` | backend/src/atlasflow/storage.py:467-475 | Same for a deletion: only terminal runs, and their events with them |
| `RunLedger.SQLiteRunStore.EventBatch` | backend/src/atlasflow/storage.py:279-306 | On a consistent ledger: exactly the log after the cursor, in order, with the status of the same snapshot |
| `RunLedger.SQLiteRunStore.NextSequence` | backend/src/atlasflow/storage.py:587-596 | The scan returns the highest sequence of the run plus one |
| `RunLedger.SQLiteRunStore.InsertEvent` | backend/src/atlasflow/storage.py:570-585 | Inserts at MAX+1 and touches nothing else |
| `RunLedger.SQLiteRunStore.WriteProjection` | backend/src/atlasflow/storage.py:550-568 | Writes a record that meets the terminal rules, otherwise rolls the events back |
| `RunLedger.PlaceSegment` | backend/src/atlasflow/storage.py:359-379 | The in-place scan computes the specified upsert |
| `RunLedger.MaxIsLength` | backend/src/atlasflow/storage.py:587-596 | On a log numbered 1..n, MAX is n |
| `RunLedger.StepKeepsConsistent` | backend/src/atlasflow/storage.py:104-398 | Every write keeps logs numbered 1..n without gaps, event ids unique and records valid; a refused write changes neither table |
| `RunLedger.EveryRunIsConsistent` | backend/src/atlasflow/storage.py:104-398 | The same after any interleaving of writes |
| `RunLedger.ConsistentFromEmpty` | backend/src/atlasflow/storage.py:33-43 | In particular from the empty store |
| `RunLedger.CreateEffect` | backend/src/atlasflow/storage.py:206-235 | A creation is refused exactly for a known id or a broken record; otherwise the record is stored as given and its log is empty |
| `RunLedger.AppendEffect` | backend/src/atlasflow/storage.py:241-259 | An append is refused exactly for a foreign or unknown run; an unknown event id becomes the next event of the run's log, a known one changes nothing |
| `RunLedger.UpdateEffect` | backend/src/atlasflow/storage.py:308-314 | An update is refused exactly when the run is unknown or the patched record breaks a terminal rule; otherwise each field is the patch's or the old one, and the logs stay |
| `RunLedger.TransitionReply` | backend/src/atlasflow/storage.py:316-347 | The reply of a transition, told from run, table, announced event and terminal rules |
| `RunLedger.TransitionEffect` | backend/src/atlasflow/storage.py:316-347 | An accepted transition sets the status and the other fields, and its announced event becomes the next of the log unless its id is known |
| `RunLedger.DeliveryEffect` | backend/src/atlasflow/storage.py:104-117 | A delivery of a known id changes nothing; otherwise it is refused exactly for an unknown run or a broken rule, and else event and patch both go in |
| `RunLedger.SegmentEffect` | backend/src/atlasflow/storage.py:349-398 | A segment is refused exactly for a foreign or unknown run or a broken record; a repeat or late form changes nothing; otherwise segments and log both gain it |
| `RunLedger.DeleteEffect` | backend/src/atlasflow/storage.py:467-475 | A deletion is refused exactly for an unknown or open run; otherwise the record and its whole log are gone |
| `RunLedger.LogsOnlyGrow` | backend/src/atlasflow/storage.py:241-259 | A write extends a run's log by at most one event; only deleting the run empties it |
| `RunLedger.TransitionRespectsTable` | backend/src/atlasflow/storage.py:610-619 | A transition reaches the requested status only along the table or on the spot, and never leaves a terminal one |
| `RunLedger.OtherRunsKept` | backend/src/atlasflow/storage.py:104-398 | A write leaves the record and the log of every other run as they were |
| `RunLedger.UpdateKeepsTerminalIff` | backend/src/atlasflow/storage.py:308-314 | An updated terminal run stays terminal if and only if the patch sets no other kind of status or breaks a terminal rule |
| `RunLedger.DeliveryKeepsTerminalIff` | backend/src/atlasflow/storage.py:104-117 | The same for an outbox delivery, where a known event is a third way to stay terminal |
| `RunLedger.TerminalRunRevived` | backend/src/atlasflow/storage.py:104-117 | Any stored terminal run can be set running by either write |
| `RunLedger.ReaderMissesNothing` | backend/src/atlasflow/storage.py:261-306 | Through any writes, a reader resuming behind its last sequence gets exactly what was logged in between |
| `RunLedger.UpsertPosition` | backend/src/atlasflow/storage.py:359-379 | An upsert touches the first entry with the id, keeps its start, ignores a repeat and a late running form |
| `RunLedger.UpsertKeepsOnePerInvocation` | backend/src/atlasflow/storage.py:352-379 | One invocation stays one segment, in place; a final form never runs again; repeating the stored form changes nothing |
| `OutboxDelivery.EffectIsFirstOccurrencesExactly` | backend/src/atlasflow/storage.py:104-117 | A delivery sequence has the effect of its first occurrences if and only if no refused delivery is accepted when repeated |
| `OutboxDelivery.NoRefusalNoRetry` | backend/src/atlasflow/storage.py:104-117 | In particular when no first delivery is refused |
| `OutboxDelivery.RetriedAfterOther` | backend/src/atlasflow/storage.py:104-117 | Refused, another delivery that lifts the refusal, repeated: the law fails |
| `OutboxDelivery.RetryExample` | backend/src/atlasflow/schemas.py:227-238 | The smallest such case for the store method: completion without report, the report, completion again |
| `OutboxDelivery.RedeliveryIsSilent` | backend/src/atlasflow/storage.py:104-117 | Through any writes, redelivering a logged event of a run not deleted changes nothing and reports no error |
| `OutboxDelivery.OneOutboxObeysLaw` | backend/src/atlasflow/execution/runtime.py:354-370 | A sequence of attempts that turns from an entry only once it is logged has the effect of its first occurrences, unconditionally |
| `OutboxDelivery.AttemptsAreTheFlush` | backend/src/atlasflow/execution/runtime.py:354-370 | The attempts of one flush do to the ledger what the flush does |
| `OutboxDelivery.RepeatedFlushesObeyLaw` | backend/src/atlasflow/execution/runtime.py:354-370 | However often one outbox is flushed while it grows, through refusals and retries, its repeats have no effect |
| `JournalFlushes.EmitKeeps` | backend/src/atlasflow/execution/runtime.py:335-347 | An emitted event leaves every attempted id accounted for: logged, never attempted again, or next in its outbox and refused |
| `JournalFlushes.FenceKeeps` | backend/src/atlasflow/execution/runtime.py:152-177 | So does a cancellation or deletion mark, whatever it discards |
| `JournalFlushes.AttemptKeeps` | backend/src/atlasflow/execution/runtime.py:360-370 | So does an attempt, marked afterwards or cut off before; deliveries of other runs lift no refusal |
| `JournalFlushes.AttemptedIsAccounted` | backend/src/atlasflow/execution/runtime.py:354-370 | Hence every attempted id is accounted for in every reachable state |
| `JournalFlushes.AllOutboxesObeyLaw` | backend/src/atlasflow/execution/runtime.py:354-370 | Under any interleaving of emits, fences and attempts of all runs, the deliveries have the effect of their first occurrences |
| `JournalFlushes.FlushIsAttempts` | backend/src/atlasflow/execution/runtime.py:354-370 | What a flush does to ledger and journal, a number of attempts does |
| `JournalFlushes.EmitDoes` | backend/src/atlasflow/execution/runtime.py:329-347 | An emit adds the entry at the end of its run's outbox unless the run is deleted, the fence is against it or its id is there, and touches nothing else |
| `JournalFlushes.FenceDoes` | backend/src/atlasflow/execution/runtime.py:152-177 | A fence marks one journal and discards exactly the open entries it stands against |
| `JournalFlushes.AttemptOpen` | backend/src/atlasflow/execution/runtime.py:354-370 | An attempt delivers the first open entry, and marks it unless it was refused or the process died |
| `Startup.RunService.FlushJournal` | backend/src/atlasflow/execution/runtime.py:354-370 | The delivery loop is the specified flush: in order, fenced entries skipped, stopping at a refusal |
| `Startup.RunService.ReconcileOne` | backend/src/atlasflow/service.py:711-735 | One run's branch of the first loop is the specified reconciliation |
| `Startup.RunService.SettleOne` | backend/src/atlasflow/service.py:726-748 | The writes for a run still not terminal: cancellation with its event, missing checkpoint with its error and event, finished graph, approval or interruption |
| `Startup.RunService.FailLegacyRun` | backend/src/atlasflow/service.py:752-760 | One unfinished run without journal is failed and its log gains exactly that event; nothing else changes |
| `Startup.RunService.FailLegacyRuns` | backend/src/atlasflow/service.py:749-760 | Exactly the unfinished runs without journal are failed, each with one event; the rest of the store and every other log is kept |
| `Startup.RunService.ReconcileEach` | backend/src/atlasflow/service.py:711-748 | The first loop is the specified reconciliation of each run in turn |
| `Startup.RunService.ReconcileStartup` | backend/src/atlasflow/service.py:706-760 | Only a refused deletion of an unsafe tombstone or a refused delivery can raise; otherwise each run is left exactly as its record, log and journal say it must be: deleted, or with the named status, error and events; exactly the runs that were closed but open before are left pending or running; a reconciled world keeps every status |
| `Startup.FlushFacts` | backend/src/atlasflow/execution/runtime.py:354-370 | A flush touches one run, keeps the ledger consistent, only marks entries delivered, and when it succeeds leaves none open |
| `Startup.FlushStatus` | backend/src/atlasflow/execution/runtime.py:354-370 | A flush that succeeds ends with the status the journal predicts: that of the last open entry with a status that is neither fenced nor logged |
| `Startup.FlushTold` | backend/src/atlasflow/execution/runtime.py:354-370 | That status, and whether the closing event is known, can be read off the journal and the run's own log beforehand |
| `Startup.CancelEffect` | backend/src/atlasflow/execution/runtime.py:152-177 | A cancellation sets both marks and discards exactly the open entries that project another status than cancelled, or all for a deletion |
| `Startup.EmitEffect` | backend/src/atlasflow/execution/runtime.py:329-347 | An emit adds the entry at the end exactly when the run is neither deleted nor fenced against it and its id is new |
| `Startup.FlushLog` | backend/src/atlasflow/execution/runtime.py:354-370 | A flush that succeeds logs exactly the open entries that are neither fenced nor known, in order |
| `Startup.EmitFacts` | backend/src/atlasflow/execution/runtime.py:329-348 | Recording a finished graph either raises on its delivery or leaves the run reconciled |
| `Startup.ReconcileRunFacts` | backend/src/atlasflow/service.py:711-748 | No transition or update of reconciliation is ever refused; a deletion is refused if and only if the tombstone is unsafe; other runs are untouched |
| `Startup.ReconcileStableRun` | backend/src/atlasflow/service.py:711-748 | Reconciling a reconciled run changes no status |
| `Startup.SettledExactly` | backend/src/atlasflow/service.py:711-748 | A surviving run ends terminal, waiting for approval or interrupted if and only if it was not closed but open: graph finished, closing event recorded, last status pending or running, all read off before startup does anything |
| `Startup.SettleAs` | backend/src/atlasflow/service.py:726-748 | What is left of a run that was not terminal, branch by branch: a requested cancellation ends cancelled with one run_cancelled event, a missing checkpoint failed with its error and one run_failed event, a finished graph in its final status with its closing event, the rest waiting or interrupted |
| `Startup.ReconcileRunAs` | backend/src/atlasflow/service.py:711-748 | The same from the state before the flush: status and log after reconciliation told from journal and own log |
| `Startup.ReconcileAllAs` | backend/src/atlasflow/service.py:711-748 | The same for every run of the first loop |
| `Startup.ReconcileAllSettles` | backend/src/atlasflow/service.py:711-748 | The same for the whole first loop: what earlier iterations do to other runs makes no difference |
| `Startup.ReconcileRunOwned` | backend/src/atlasflow/service.py:711-748 | Reconciling a run logs only event ids of that run |
| `Startup.ReconcileAllFacts` | backend/src/atlasflow/service.py:711-748 | The first loop over any runs: what it can raise, what it leaves, what it does not touch |
| `Startup.ReconcileAllStable` | backend/src/atlasflow/service.py:711-748 | A second startup changes no status and stays reconciled |
| `Tombstones.StepKeepsInvariant` | backend/src/atlasflow/service.py:549-704 | Every step of commands, task, resume, crash or startup keeps tombstones on runs that are terminal or absent, and a recorded closing event decisive |
| `Tombstones.AppliedKeepsInvariant` | backend/src/atlasflow/execution/runtime.py:354-370 | So does applying the oldest entry to the ledger, fenced or known or not |
| `Tombstones.MarkedKeepsInvariant` | backend/src/atlasflow/execution/runtime.py:368-370 | So does marking it delivered afterwards, although a crash can fall between the two |
| `Tombstones.EnqueuedKeepsInvariant` | backend/src/atlasflow/service.py:649-666 | So does the event of a resume, although the old task may still be releasing its claim |
| `Tombstones.ClosingKeepsInvariant` | backend/src/atlasflow/service.py:976-981 | So does recording the closing event of a finished graph, once |
| `LifeSteps.DeliveryIsApplied` | backend/src/atlasflow/execution/runtime.py:354-367 | A delivery of the oldest open entry that the store takes turns the world into one that shows the life after the step EntryApplied |
| `LifeSteps.MarkIsMarked` | backend/src/atlasflow/execution/runtime.py:368-370 | Marking it delivered is the step EntryMarked |
| `LifeSteps.EmitIsEnqueued` | backend/src/atlasflow/execution/runtime.py:329-347 | Emitting an event under a new id is the step of the task, or the announcement of a resume |
| `LifeSteps.EmitIsClosing` | backend/src/atlasflow/execution/runtime.py:329-347 | Emitting the closing event is the closing step, a second time included |
| `LifeSteps.CancelIsFence` | backend/src/atlasflow/execution/runtime.py:152-177 | Cancelling the journal is the step CancelFence |
| `LifeSteps.CancelIsTombstone` | backend/src/atlasflow/execution/runtime.py:152-177 | Cancelling it for a deletion is the step Tombstone |
| `LifeSteps.TransitionIsStep` | backend/src/atlasflow/storage.py:316-347 | A transition that the store takes is one of the life's steps, and the table allowed it |
| `LifeSteps.DeletionIsStep` | backend/src/atlasflow/storage.py:467-475 | So is a deletion that the store takes, of a terminal run |
| `Tombstones.TombstonesAlwaysSafe` | backend/src/atlasflow/service.py:549-704 | Hence tombstones are safe in every reachable state, under any interleaving |
| `Tombstones.StartupMeetsSafeTombstones` | backend/src/atlasflow/service.py:711-718 | Hence startup never meets a deletion the store refuses |
| `Tombstones.StatusAfterIsFinal` | backend/src/atlasflow/execution/runtime.py:360-367 | The status startup's flush will leave is the one the run's open entries add up to |
| `Tombstones.StartupMeetsNoneClosedOpen` | backend/src/atlasflow/service.py:736-748 | Startup never meets a run that is closed but open: resume refuses a finished graph |
| `Tombstones.StartupSettlesEveryRun` | backend/src/atlasflow/service.py:706-760 | So every run that survives startup is terminal, waiting for approval or interrupted |
| `Tombstones.StartReachable` | backend/src/atlasflow/service.py:706-760 | The method itself, started in a reachable world, raises nothing but a refused delivery and otherwise settles every run |
| `RunLocks.LockOrderAscends` | backend/src/atlasflow/service.py:574-576 | `sorted(set(ids))` holds exactly the ids, strictly ascending |
| `RunLocks.AdvanceKeepsOrdered` | backend/src/atlasflow/service.py:574-576 | Any step keeps locks unshared and taken in order |
| `RunLocks.AdvanceTakesNext` | backend/src/atlasflow/service.py:574-576 | A step takes exactly the next lock, a free one, or with all held finishes and lets go of all; the others keep theirs |
| `RunLocks.NoDeadlock` | backend/src/atlasflow/service.py:574-576 | With any number of commands, while one is unfinished one can step |
| `RunLocks.EveryScheduleFinishes` | backend/src/atlasflow/service.py:565-601 | Every schedule is bounded, can continue until all commands are done, and then they are |
| `RunTasks.TaskTable.constructor` | backend/src/atlasflow/service.py:317-332 | The empty table is valid |
| `RunTasks.TaskTable.Track` | backend/src/atlasflow/service.py:860-866 | Refused if and only if the run has an unfinished task; otherwise the new task takes the entry |
| `RunTasks.TaskTable.Finish` | backend/src/atlasflow/service.py:860-874 | A task ends before its callback, keeping at most one unfinished task per run, the one in the table |
| `RunTasks.TaskTable.Forget` | backend/src/atlasflow/service.py:868-872 | A late callback never removes a newer task's entry |
| `EventView.CollectUnique` | frontend/lib/event-reducer.ts:19-20 | The filled map holds each key once, its newest event in its first place |
| `EventView.RetainRoutes` | frontend/lib/event-reducer.ts:24-27 | The second map holds the recent events and every route |
| `EventView.EventReducer` | frontend/lib/event-reducer.ts:14-31 | The reducer with its two loops is the specified action |
| `EventView.CollectedIsLatest` | frontend/lib/event-reducer.ts:19-20 | The map's values are exactly the events no later event of their key replaced |
| `EventView.LastOfMembers` | frontend/lib/event-reducer.ts:23 | `slice(-n)` of the sorted events holds those with fewer than n above them |
| `EventView.RankSurvivesDropping` | frontend/lib/event-reducer.ts:23 | Dropping events outside the top 1000 never changes who ranks in the top 1000 later |
| `EventView.BoundedFacts` | frontend/lib/event-reducer.ts:18-30 | One pass keeps exactly the newest routes and the newest top 1000, sorted without duplicates |
| `EventView.StepKeepsView` | frontend/lib/event-reducer.ts:14-31 | One action keeps the state the exact view of everything ever seen, although dropped events may arrive again |
| `EventView.RunShowsExactView` | frontend/lib/event-reducer.ts:14-31 | So after any actions; `lastSequence` is the maximum seen |
| `EventView.TelemetryIsBounded` | frontend/lib/event-reducer.ts:21-27 | Events that are not routes never take more than 1000 rows |
| `PlanGraph.DagValidator.constructor` | backend/src/atlasflow/agents/contracts.py:171-174 | Visiting starts with both sets empty |
| `PlanGraph.DagValidator.Visit` | backend/src/atlasflow/agents/contracts.py:175-184 | Terminates on every graph with known ids; success keeps finished tasks ranked above their dependencies; failure yields an actual cycle |
| `PlanGraph.DagValidator.VisitDependencies` | backend/src/atlasflow/agents/contracts.py:181-182 | The loop over the dependencies: all visited, or a cycle |
| `PlanGraph.DagValidator.Finish` | backend/src/atlasflow/agents/contracts.py:183-184 | Moving a task from visiting to visited keeps the order of finishing a rank |
| `PlanGraph.RankedIsAcyclic` | backend/src/atlasflow/agents/contracts.py:171-188 | A rank with dependencies strictly below rules out cycles |
| `PlanGraph.AcyclicIffRanked` | backend/src/atlasflow/agents/contracts.py:171-188 | A closed graph is acyclic if and only if such a rank exists |
| `PlanGraph.NeverStalls` | backend/src/atlasflow/agents/contracts.py:139-188 | In a closed acyclic graph, unless all is finished some unfinished task is ready |
| `PlanGraph.WavesAdvance` | backend/src/atlasflow/agents/contracts.py:139-188 | n waves finish at least n tasks or all |
| `PlanGraph.WavesFinish` | backend/src/atlasflow/agents/contracts.py:139-188 | As many waves as tasks finish the plan |
| `PlanGraph.DependencyFinishesFirst` | backend/src/atlasflow/agents/contracts.py:139-188 | A dependency finishes in an earlier wave than its task |
| `ResearchPlans.ValidateTaskDag` | backend/src/atlasflow/agents/contracts.py:150-188 | No error if and only if the plan meets every rule and is acyclic; each error names its cause, a cyclic one with a cycle |
| `ResearchPlans.VisitAll` | backend/src/atlasflow/agents/contracts.py:171-188 | Accepts if and only if the dependency graph is acyclic |
| `ResearchPlans.AcceptedPlanNeverStalls` | backend/src/atlasflow/agents/contracts.py:139-188 | In an accepted plan any unfinished rest has a task whose dependencies are all finished |
| `ResearchPlans.CycleAvoidsBase` | backend/src/atlasflow/agents/contracts.py:253-257 | A cycle of the combined graph lies wholly outside the base tasks |
| `ResearchPlans.CombinedAcyclicIffBatchAcyclic` | backend/src/atlasflow/agents/contracts.py:253-257 | The combined graph is acyclic if and only if the new tasks among themselves are |
| `ResearchPlans.ExtensionAcceptedIffFits` | backend/src/atlasflow/agents/contracts.py:198-206 | Extending an accepted plan is accepted if and only if the new tasks fit; the base is never rechecked |
| `ResearchPlans.WithSupplementalTasks` | backend/src/atlasflow/agents/contracts.py:198-206 | Succeeds exactly for one or two fitting tasks, and appends them; each error names its cause |
| `ResearchPlans.ValidateBatch` | backend/src/atlasflow/agents/contracts.py:209-226 | Accepts exactly the batches of the right size, ids and version; each error names its cause |
| `ResearchPlans.ValidateLineage` | backend/src/atlasflow/agents/contracts.py:238-257 | Accepts exactly the lineages with contiguous rounds, one version, new ids and a valid active plan; each error names its cause |
| `ResearchPlans.ActivePlanGrows` | backend/src/atlasflow/agents/contracts.py:271-277 | Appending a batch keeps the active plan's tasks as a prefix |
| `ResearchPlans.LongerLineageAcceptedIffFits` | backend/src/atlasflow/agents/contracts.py:238-257 | The longer lineage is accepted if and only if it is the first supplement and fits the plan it extends |
| `ResearchPlans.WithSupplement` | backend/src/atlasflow/agents/contracts.py:279-295 | Succeeds exactly then; base plan kept, new tasks appended; each error names its cause |
| `TaskColumns.Layout.constructor` | frontend/components/task-graph.tsx:18 | Layout starts without levels |
| `TaskColumns.Layout.Level` | frontend/components/task-graph.tsx:19-27 | Terminates on every graph, cyclic or with missing ids; on acyclic ones returns the longest chain despite the shared `seen` set |
| `TaskColumns.Layout.DeepestBelow` | frontend/components/task-graph.tsx:24 | The maximum over the dependencies, each memoised |
| `TaskColumns.ComputeLevels` | frontend/components/task-graph.tsx:18-28 | Every task gets a column, on acyclic graphs its longest chain; every edge goes right if and only if the graph is acyclic |
| `TaskColumns.StepChain` | frontend/components/task-graph.tsx:24 | One more than the deepest dependency is the longest chain |
| `TaskColumns.LongestChainUnique` | frontend/components/task-graph.tsx:24 | The length of the longest chain is unique, so the columns are determined |
| `TaskColumns.ExactLevelsRank` | frontend/components/task-graph.tsx:56-59 | Exact levels put every dependency left of its task |
| `TaskColumns.AcceptedPlanGraph` | backend/src/atlasflow/agents/contracts.py:150-188 | On an accepted plan the layout's graph is the validator's, hence acyclic |
| `CitationCatalog.CollectEvidence` | backend/src/atlasflow/agents/report_skill.py:54-74 | The first loop with its in-place upgrades gives one row per web URL |
| `CitationCatalog.CollectLinks` | backend/src/atlasflow/agents/report_skill.py:75-95 | The second loop appends one row per navigation URL not seen before, with its leg number |
| `CitationCatalog.BuildCitationCatalog` | backend/src/atlasflow/agents/report_skill.py:46-102 | The whole method is the specified catalog, and entry by entry it shows what the evidence and the links say |
| `CitationCatalog.CatalogIsExact` | backend/src/atlasflow/agents/report_skill.py:46-102 | The catalog lists exactly the acquired URLs: the requested ones first, in that order, the others in order of acquisition; entry i has number i + 1 and shows, field by field, its URL's first best evidence, or else its first navigation link with its leg, summary and warning |
| `CitationCatalog.AcquiredInOrder` | backend/src/atlasflow/agents/report_skill.py:54-95 | Without an order the URLs stand in order of first occurrence, evidence before links |
| `CitationCatalog.OrderedExactly` | backend/src/atlasflow/agents/report_skill.py:96-98 | With one, those not requested keep that order behind the requested ones |
| `CitationCatalog.SlotsShowFirstBest` | backend/src/atlasflow/agents/report_skill.py:58-74 | Each evidence row shows the first excerpt of highest priority of its URL |
| `CitationCatalog.CatalogShowsFirstBest` | backend/src/atlasflow/agents/report_skill.py:46-102 | So does the catalog, whatever the order |
| `CitationCatalog.NumbersAreABijection` | backend/src/atlasflow/agents/report_skill.py:99-102 | Numbers are a bijection between the acquired URLs and 1..n |
| `CitationCatalog.RequestedOrderFirst` | backend/src/atlasflow/agents/report_skill.py:96-98 | The acquired URLs of the requested order take the first numbers, in that order |
| `CitationCatalog.OrderFixesNumbers` | backend/src/atlasflow/agents/report_skill.py:96-102 | When all URLs of a duplicate-free order were acquired, the i-th has number i |
| `CitationCatalog.SavedOrderKeepsNumbers` | backend/src/atlasflow/agents/contracts.py:532-534 | A draft's saved order keeps all its numbers, whatever evidence is added, upgraded or reordered later |
| `ExcerptSelection.BuiltCatalogIsCatalog` | backend/src/atlasflow/agents/report_skill.py:99-102 | Built catalogs meet what the selection needs: ascending numbers, one entry per URL |
| `ExcerptSelection.Draw` | backend/src/atlasflow/agents/report_skill.py:187-192 | Draws the group's next entry not selected yet, or reports the group used up |
| `ExcerptSelection.ShareRounds` | backend/src/atlasflow/agents/report_skill.py:182-197 | The groups take turns, the cited one first, each time with the first entry not selected yet, and one used up leaves its turn to the other; the first 15 of each group are taken; below the limit both groups are whole |
| `ExcerptSelection.FillUp` | backend/src/atlasflow/agents/report_skill.py:198-201 | Fills up with the pool's first entry not selected yet until the limit or the end of the pool |
| `ExcerptSelection.GroupsDistinct` | backend/src/atlasflow/agents/report_skill.py:164-181 | Neither competing group names an entry twice |
| `ExcerptSelection.CitedIsGroup` | backend/src/atlasflow/agents/report_skill.py:170-178 | The cited group holds exactly the cited entries, fresh sources first, then by number |
| `ExcerptSelection.OtherIsGroup` | backend/src/atlasflow/agents/report_skill.py:169-181 | The other group holds exactly the preferred entries, fresh ones first, then by preference; without any, the fresh entries by number |
| `ExcerptSelection.SelectReportExcerpts` | backend/src/atlasflow/agents/report_skill.py:154-202 | Up to 30 sources: all. More: exactly 30 distinct entries in number order, those that the turns, the current sources and the catalog pick for groups told from report, preferences and evidence; of each competing group 15 different entries, its first, or all of it; spare room to current sources first |
| `ExcerptSelection.LimitReached` | backend/src/atlasflow/agents/report_skill.py:198-202 | A catalog above the limit always fills it |
| `ExcerptBudget.SharesFitBudget` | backend/src/atlasflow/agents/report_review.py:51-53 | The first pass never overspends, for any number of sources |
| `ExcerptBudget.BaseIsFirstShare` | backend/src/atlasflow/agents/report_review.py:51-53 | The first share is the largest that the source, the limit of 4000 and n equal shares of 60000 allow |
| `ExcerptBudget.AllocateExcerpts` | backend/src/atlasflow/agents/report_review.py:51-59 | Each source gets at least min(length, share, 4000) and at most min(length, 4000); the total is exactly min(60000, sum of the caps); leftovers go to the earliest |
| `ExcerptBudget.FairAllocationUnique` | backend/src/atlasflow/agents/report_review.py:51-59 | These promises determine the sizes |
| `CodeMask.SplitLinesFlatten` | backend/src/atlasflow/agents/report_skill.py:213 | Splitting keeps every character |
| `CodeMask.SplitLinesAreLines` | backend/src/atlasflow/agents/report_skill.py:213 | Each piece is text without breaks and one break, and no carriage return is torn from its line feed |
| `Fences.MarkerIff` | backend/src/atlasflow/agents/report_skill.py:214 | The scanner finds a fence marker exactly in a line of its form: at most three spaces, then at least three of one mark |
| `Fences.OpenIffSince` | backend/src/atlasflow/agents/report_skill.py:211-223 | A fence is open exactly since the line that opened it outside code and while no later line closed it |
| `Fences.InFenceIff` | backend/src/atlasflow/agents/report_skill.py:211-223 | A line is code exactly when it is a marker or lies in an open fence |
| `CodeMask.MaskFences` | backend/src/atlasflow/agents/report_skill.py:211-223 | The loop with its running fence masks exactly the fenced lines |
| `CodeMask.MaskedAt` | backend/src/atlasflow/agents/report_skill.py:211-223 | After it a position is blanked if and only if its line is fenced and it is no line end |
| `CodeMask.InlineAt` | backend/src/atlasflow/agents/report_skill.py:224-225 | The inline stage blanks exactly the spans |
| `CodeMask.ReportProse` | backend/src/atlasflow/agents/report_skill.py:205-225 | Same length; each character kept, or blanked exactly in code; every CR and LF kept |
| `CodeMask.SolidSpansSpareCode` | backend/src/atlasflow/agents/report_publication.py:84-91 | Spans without white space found in the view, as raw URLs and citations are, are valid in the original, and rewriting there keeps every character of code |
| `Splice.RewriteFromLast` | backend/src/atlasflow/agents/report_publication.py:256-257 | Rewriting from last to first is the simultaneous left-to-right substitution |
| `Splice.GapKept` | backend/src/atlasflow/agents/report_publication.py:256-257 | Text between spans is kept, moved by what the edits before it added |
| `Splice.ReplacementPlaced` | backend/src/atlasflow/agents/report_publication.py:256-257 | Each replacement stands where its span stood |
| `Splice.LengthAdded` | backend/src/atlasflow/agents/report_publication.py:256-257 | Nothing else is in the result |
| `Splice.CharacterKept` | backend/src/atlasflow/agents/report_publication.py:256-257 | Every single character outside the spans is kept |
| `Splice.PuttingBackChangesNothing` | backend/src/atlasflow/agents/report_delivery.py:46-50 | Edits that put back what they replace are the identity |
| `ReferenceCleanup.ApartOrNested` | backend/src/atlasflow/agents/report_publication.py:44-45 | A citation match and an internal match are apart, or the citation is the end of the internal marker |
| `ReferenceCleanup.MergedIsChained` | backend/src/atlasflow/agents/report_publication.py:97-102 | So the merged list has strictly ascending starts, and any two matches in it are apart or nested that way |
| `ReferenceCleanup.RemoveMarkers` | backend/src/atlasflow/agents/report_publication.py:102-103 | The loop from the last match on is the specified removal |
| `ReferenceCleanup.RemovesExactlyMatchesIff` | backend/src/atlasflow/agents/report_publication.py:97-103 | It removes exactly the characters the matches cover if and only if no text survives behind a marker that ends in an invalid citation; it never removes less |
| `ReferenceCleanup.ApartMatchesRemovedExactly` | backend/src/atlasflow/agents/report_publication.py:97-103 | In particular when no internal marker contains an invalid citation |
| `ReferenceCleanup.NestedMarkerEatsText` | backend/src/atlasflow/agents/report_publication.py:97-103 | `[task:a[9] tail` with 9 unknown becomes `il`, not ` tail` |
| `ReferenceCleanup.RemovalExactlyIff` | backend/src/atlasflow/agents/report_publication.py:96-103 | The same exact condition for what the patterns find in any paragraph |
| `ReferenceCleanup.RemovesUnwanted` | backend/src/atlasflow/agents/report_publication.py:95-101 | A match is removed if and only if it is an internal marker or a citation of a cited, unknown number |
| `ReferenceCleanup.RemovalIsWanted` | backend/src/atlasflow/agents/report_publication.py:95-103 | Without nesting the removal leaves exactly the characters outside those matches |
| `ReferenceCleanup.CodeSurvivesIff` | backend/src/atlasflow/agents/report_publication.py:79-83 | A character of code survives the link pass if and only if no found link has it in its label, or it is a blank or a line end |
| `ReferenceCleanup.LinksSpareCodeIff` | backend/src/atlasflow/agents/report_delivery.py:53-57 | The link pass spares all code if and only if no label of a found link overlaps code |
| `ReferenceCleanup.LabelCodeIsLost` | backend/src/atlasflow/agents/report_delivery.py:53-57 | A link whose label is the inline code `x` keeps three blanks instead |
| `ReferenceCleanup.LabelIsCode` | backend/src/atlasflow/agents/report_skill.py:205-225 | In that link exactly the label, marks included, is code |
| `ReferenceCleanup.ProseMasks` | backend/src/atlasflow/agents/report_skill.py:205-225 | The view of `report_prose` is one these two theorems apply to |
| `ReferenceCleanup.NumberUrls` | backend/src/atlasflow/agents/report_publication.py:84-91 | The loop over the raw URLs gives the specified edits, and its flag says whether one is unknown |
| `ReferenceCleanup.SourceLinks` | backend/src/atlasflow/agents/report_publication.py:77-92 | Both passes, the second matched in the view of what the first left; the flag says whether a link or URL names no known source |
| `ReferenceCleanup.CleanReferences` | backend/src/atlasflow/agents/report_publication.py:95-105 | The matches removed are exactly the internal markers and the citations whose number is cited but unknown; without nesting, the text the link passes get is the paragraph without exactly those; the flag is set if and only if there is such a match or an unknown link or URL |
| `HistoricalCitations.SplitUrl` | backend/src/atlasflow/agents/report_delivery.py:58-61 | The trimming loop splits a match into its URL and its punctuation |
| `HistoricalCitations.TrimsToLongestKnown` | backend/src/atlasflow/agents/report_publication.py:84-87 | Only punctuation is cut, and never past a known source |
| `HistoricalCitations.KnownSourceFound` | backend/src/atlasflow/agents/report_delivery.py:58-62 | A known source followed by punctuation is recognised |
| `HistoricalCitations.TrimUrl` | backend/src/atlasflow/agents/report_delivery.py:58-63 | One raw URL becomes its number and its punctuation |
| `HistoricalCitations.TrimUrls` | backend/src/atlasflow/agents/report_delivery.py:58-63 | So for all of them |
| `HistoricalCitations.Renumber` | backend/src/atlasflow/agents/report_delivery.py:46-50 | The first pass is the simultaneous substitution of the numbers |
| `HistoricalCitations.HistoricalBody` | backend/src/atlasflow/agents/report_delivery.py:39-64 | The three passes, each on a view of the text the pass before it left; each edit told from numbers, labels and URLs |
| `HistoricalCitations.RenumbersAs` | backend/src/atlasflow/agents/report_delivery.py:41-50 | The first pass keeps the text before the bibliography and replaces each number by the new number of the URL it named, or by nothing |
| `HistoricalCitations.UnlinksAs` | backend/src/atlasflow/agents/report_delivery.py:53-57 | The second replaces each link of the text's own view by its label and the number of its URL |
| `HistoricalCitations.NumbersAs` | backend/src/atlasflow/agents/report_delivery.py:58-63 | The third replaces each URL by its number and keeps the punctuation behind it |
| `HistoricalCitations.NumbersOfCatalog` | backend/src/atlasflow/agents/report_delivery.py:96-97 | The number table maps exactly the catalog's URLs to their numbers |
| `HistoricalCitations.TranslatesByUrl` | backend/src/atlasflow/agents/report_delivery.py:46-50 | A historical number becomes m if and only if both name one URL; all others disappear, 0 and numbers past the list included |
| `HistoricalCitations.NumbersSurvive` | backend/src/atlasflow/agents/report_delivery.py:94-97 | When all historical sources are acquired again, each citation keeps its number |
| `HistoricalCitations.FirstPassIsIdentity` | backend/src/atlasflow/agents/report_delivery.py:46-50 | In that case the first pass leaves the text unchanged |
| `WarningPublication.MarkParagraphs` | backend/src/atlasflow/agents/report_publication.py:219-240 | Marks exactly the paragraphs located by a non-omission warning or critical issue, and the abstract and conclusion when restricted |
| `WarningPublication.WithheldIff` | backend/src/atlasflow/agents/report_publication.py:214-248 | A paragraph is withheld exactly when a warning or critical issue that is no omission is located there, it concludes while conclusions are held back, or it holds an invalid reference |
| `WarningPublication.CollectEdits` | backend/src/atlasflow/agents/report_publication.py:244-255 | One edit per paragraph; the withheld ones set aside in order |
| `WarningPublication.WithholdParagraphs` | backend/src/atlasflow/agents/report_publication.py:214-257 | The new body and the pending list are those of withholding paragraph i if and only if it is located, restricted or holds an invalid reference |
| `WarningPublication.NoParagraphLost` | backend/src/atlasflow/agents/report_publication.py:244-257 | A withheld paragraph leaves the body and has its own place in the pending list; every other stands cleaned in the body |
| `WarningPublication.PendingOnlyWithheld` | backend/src/atlasflow/agents/report_publication.py:285-291 | Each pending entry is one withheld paragraph |
| `WarningPublication.FillEmptiedSections` | backend/src/atlasflow/agents/report_publication.py:259-269 | The loop from the last section is the simultaneous substitution, though it reads the text it is changing |
| `WarningPublication.BeforeSection` | backend/src/atlasflow/agents/report_publication.py:260-269 | When the loop reaches a section, that section is still as it was |
| `WarningPublication.SectionSurvivesIffSubstantive` | backend/src/atlasflow/agents/report_publication.py:263-269 | Each section shows its own text if substantive, else the placeholder |
| `WarningPublication.PieceShown` | backend/src/atlasflow/agents/report_publication.py:259-269 | A text inside a section is shown in the final body, at its place moved by the sections before, if and only if the section is substantive or the text is a piece of the placeholder |
| `WarningPublication.PublishBody` | backend/src/atlasflow/agents/report_publication.py:214-269 | Both stages: the final body and the pending list for exactly the paragraphs that something keeps from staying, with the headings looked up in what the first stage left |
| `WarningPublication.ParagraphEndToEnd` | backend/src/atlasflow/agents/report_publication.py:214-269 | A withheld paragraph is at its place in the pending list; a kept one stands cleaned in the final body if and only if its section is substantive or it is a piece of the placeholder |
| `WarningPublication.SymbolsLostFromUsableDraft` | backend/src/atlasflow/agents/report_publication.py:108-118 | From a usable draft of two sections without disputed paragraphs, a section of symbols alone disappears from body and pending list |
| `HeadingScan.FindHeadings` | frontend/lib/report-document.ts:103-117 | The loop with offset and fence lists exactly the unfenced lines that fit the heading pattern, in order, with offset and title |
| `HeadingScan.HeadingIff` | frontend/lib/report-document.ts:113 | The scanner accepts a line exactly when it splits as the pattern asks, and titles it by the group of the preferred split: longest gap, then shortest group |
| `HeadingScan.LinesAreLines` | frontend/lib/report-document.ts:106 | Each line has its only line feed at its end |
| `Limitations.ReportWithLimitations` | frontend/lib/report-document.ts:94-128 | Unchanged exactly when the text or the warnings are empty or nothing is missing; otherwise the missing warnings, each a bullet, stand at the place told from the headings, the text around them kept |
| `Limitations.InsertNotes` | frontend/lib/report-document.ts:105-127 | The notes end the first limitations section before the bibliography; without one they stand at the first bibliography heading, or at the end |
| `HeadingScan.LinesFlatten` | frontend/lib/report-document.ts:106 | Splitting keeps every character |
| `HeadingScan.TrimCuts` | frontend/lib/report-document.ts:113 | Trimming cuts spaces at both ends, and all of them |
| `Limitations.InsertionIsSafe` | frontend/lib/report-document.ts:108-123 | Insertion is at the end or before a heading line outside code, never after the start of a bibliography |
| `Limitations.EndsLimitations` | frontend/lib/report-document.ts:122-123 | With a limitations section before the bibliography, the notes end the first one |
| `Limitations.InsertionIsNotesPlace` | frontend/lib/report-document.ts:118-123 | The insertion point told from the headings: the end of the first limitations section before the bibliography, else the bibliography or the end |
| `Limitations.WithNotesShows` | frontend/lib/report-document.ts:118-127 | The inserted text is the report with the notes there |
| `Limitations.TextKept` | frontend/lib/report-document.ts:127 | The report's text stays in order around the notes; only blanks at the insertion point change |
| `Limitations.StaysFindable` | frontend/lib/report-document.ts:96-127 | What the report showed, it still shows, unless it contains `#` |
| `Limitations.EveryWarningShown` | frontend/lib/report-document.ts:96-127 | Every warning is findable afterwards, modulo spacing and escaping; one with `#` at least when it was missing |
| `Limitations.UnchangedIff` | frontend/lib/report-document.ts:94-103 | A report is returned unchanged if and only if it shows every warning |
| `Limitations.ShownAfterIff` | frontend/lib/report-document.ts:96-127 | A shown item is still shown if and only if it stands on one side of the insertion point or meets the notes, told from the report and what is to be added |
| `Limitations.IdempotentIff` | frontend/lib/report-document.ts:94-128 | Inserting twice is inserting once if and only if nothing is missing or that holds of every warning the report shows |
| `Limitations.OneSidedIdempotent` | frontend/lib/report-document.ts:94-128 | In particular when every shown warning, with `#` or without, stands on one side of the insertion point |
| `Limitations.SeparatedIsTorn` | frontend/lib/report-document.ts:94-128 | A shown warning with a character from either side alone is torn by notes that hold neither and something it lacks: the next call adds it |
| `Limitations.Idempotent` | frontend/lib/report-document.ts:94-128 | Hence for warnings without `#` |
| `TornWarning.HashWarningIsTorn` | frontend/lib/report-document.ts:94-128 | A report and two warnings for which that happens |
| `Limitations.PlainIsInert` | frontend/lib/report-document.ts:97 | An escaped warning has no active Markdown control and renders as written |
| `Limitations.CleanedIsOneLine` | frontend/lib/report-document.ts:99 | A cleaned warning has no line break, so it cannot start a heading |
| `Limitations.OneLineJoins` | frontend/lib/report-document.ts:99 | A run of line breaks becomes one blank and nothing else changes |
| `FindingCleanup.BuildRemapping` | backend/src/atlasflow/agents/output_validation.py:109-111 | The dictionary maps each kept position to its rank |
| `FindingCleanup.RemapIndices` | backend/src/atlasflow/agents/output_validation.py:125 | The comprehension is the specified renumbering |
| `FindingCleanup.NormalizeResearchOutput` | backend/src/atlasflow/agents/output_validation.py:77-134 | All branches: untouched, all placeholders, the first refused assessment, or the renumbered payload |
| `FindingCleanup.BranchIff` | backend/src/atlasflow/agents/output_validation.py:86-110 | Which branch a payload takes, told from its findings: all placeholders, some of each with readable assessments, or anything else |
| `FindingCleanup.ComplaintIff` | backend/src/atlasflow/agents/output_validation.py:114-131 | What an assessment is refused for, in order: wrong references, an unhashable status, a claim without a finding that stays |
| `FindingCleanup.KeptTexts` | backend/src/atlasflow/agents/output_validation.py:133 | The kept findings, in order |
| `FindingCleanup.RankPointsAtSameText` | backend/src/atlasflow/agents/output_validation.py:109-111 | A kept finding's new number shows the same text |
| `FindingCleanup.RankIncreases` | backend/src/atlasflow/agents/output_validation.py:109-111 | Renumbering is strictly increasing |
| `FindingCleanup.RankIsOnto` | backend/src/atlasflow/agents/output_validation.py:109-111 | Renumbering reaches every number 1..m |
| `FindingCleanup.RemappedOrigin` | backend/src/atlasflow/agents/output_validation.py:125 | No reference is transferred or dangling |
| `FindingCleanup.RemappedDistinct` | backend/src/atlasflow/agents/output_validation.py:125 | Distinct references stay distinct |
| `FindingCleanup.RemappedKeepsTexts` | backend/src/atlasflow/agents/output_validation.py:125 | Surviving references name the same texts in the same order |
| `FindingCleanup.ReferencesPreserved` | backend/src/atlasflow/agents/output_validation.py:77-134 | So in the whole payload, assessment by assessment |
| `FindingCleanup.OtherFieldsUntouched` | backend/src/atlasflow/agents/output_validation.py:77-134 | Nothing but findings and references changes |
| `FindingCleanup.SecondPassRemovesNothing` | backend/src/atlasflow/agents/output_validation.py:77-134 | A second pass removes nothing |
| `FindingCleanup.ClaimsSupportedExactly` | backend/src/atlasflow/agents/output_validation.py:126-130 | After the cleanup alone, every met or partial assessment is supported if and only if something was removed or it was so before |
| `FindingCleanup.UnsupportedClaimCanPass` | backend/src/atlasflow/agents/output_validation.py:94-99 | The cleanup alone passes a met assessment without findings when nothing is a placeholder |
| `ResearchResults.ValidateTaskResult` | backend/src/atlasflow/agents/task_quality.py:88-124 | The checks and the loop report the first fault, each fault told from the result with everything checked before it in order |
| `ResearchResults.ValidationReports` | backend/src/atlasflow/agents/task_quality.py:88-124 | No fault is reported exactly when summary, findings, coverage and every assessment are in order |
| `ResearchResults.UntouchedFaults` | backend/src/atlasflow/agents/task_quality.py:116-122 | Without a removal, references and support are refused exactly where the payload had them wrong |
| `ResearchResults.CleanedFaults` | backend/src/atlasflow/agents/task_quality.py:116-124 | After a removal the loop can only miss a reason |
| `ResearchResults.CleanedIsNotBlamed` | backend/src/atlasflow/agents/task_quality.py:116-122 | So after a removal validation never blames references or support |
| `ResearchResults.UntouchedIsBlamedIff` | backend/src/atlasflow/agents/task_quality.py:116-122 | Without one it blames them if and only if the payload came with a wrong reference or an unsupported claim |
| `ResearchResults.PassesAsCleaned` | backend/src/atlasflow/agents/gateway.py:721-729 | Whichever way the cleanup went, contract and validation pass its payload if and only if the raw one was worth accepting |
| `ResearchResults.AcceptResearch` | backend/src/atlasflow/agents/gateway.py:701-736 | Accepts exactly the payloads with a real finding, right references and real support for each claim; the result is sound, and each assessment names, in order, the real findings it named before; each refusal names the first check that fails |
| `TaskCapabilities.SameMeaning` | backend/src/atlasflow/agents/output_validation.py:70-73 | Exactly the same capability sets satisfy the requirement |
| `TaskCapabilities.EstablishesTaskRules` | backend/src/atlasflow/agents/contracts.py:97-106 | For known well-formed declarations the capability rules then fail only when fresh data is required and nothing declared |
| `TaskCapabilities.Idempotent` | backend/src/atlasflow/agents/output_validation.py:37-74 | Normalising twice is normalising once, for any input |
| `TaskCapabilities.ChangedIff` | backend/src/atlasflow/agents/output_validation.py:37-74 | A task changes exactly when its declaration can be read and is known and some group holds a mandatory capability |
| `TaskCapabilities.VerdictIff` | backend/src/atlasflow/agents/contracts.py:122-136 | The verdict names exactly the unknown capabilities, else refuses exactly a task that needs fresh data and cannot fetch it |
| `TaskCapabilities.SameVerdict` | backend/src/atlasflow/agents/contracts.py:122-136 | The unknown-capability and fresh-data verdict never changes |
| `TaskCapabilities.OnlyAlternativesChange` | backend/src/atlasflow/agents/output_validation.py:37-74 | No other field changes |
| `QualityVerdict.MergeIssues` | backend/src/atlasflow/agents/report_quality.py:264-274 | The merge loop is the specified merge |
| `QualityVerdict.MergeOneFacts` | backend/src/atlasflow/agents/report_quality.py:266-273 | One finding merged: no position weakens, the finding is represented |
| `QualityVerdict.MergeOneExactly` | backend/src/atlasflow/agents/report_quality.py:266-273 | The finding joins the end, or takes the place of the first one about the same exactly if that is weaker |
| `QualityVerdict.MergeKeepsRanks` | backend/src/atlasflow/agents/report_quality.py:264-273 | Listed findings keep their place and never weaken |
| `QualityVerdict.MergeRepresents` | backend/src/atlasflow/agents/report_quality.py:264-273 | Every audit finding is represented at its severity or above |
| `QualityVerdict.CriticalSurvivesMerge` | backend/src/atlasflow/agents/report_quality.py:264-275 | A listed critical finding survives the cut |
| `QualityVerdict.CutKeepsCriticalIff` | backend/src/atlasflow/agents/report_quality.py:264-275 | The cut list holds a critical finding if and only if a listed one is critical or a critical audit finding has its place among the first 20, counted from the two lists |
| `QualityVerdict.FullListCutsCritical` | backend/src/atlasflow/agents/report_quality.py:275 | Twenty lesser findings and a new critical one: the cut drops the critical one |
| `QualityVerdict.RoomKeepsCritical` | backend/src/atlasflow/agents/report_quality.py:264-276 | With at most 20 findings in all nothing is cut, and the merged list is critical if and only if either side is |
| `QualityVerdict.CriticalForcesReplan` | backend/src/atlasflow/agents/report_quality.py:276-296 | Then the merged verdict is replan if and only if the verdict was, or a finding on either side is critical |
| `QualityVerdict.BlockingIffSome` | backend/src/atlasflow/agents/report_quality.py:276-282 | Nothing blocks if and only if the audit is empty, or review is relaxed and every finding is waived |
| `QualityVerdict.NonblockingIff` | backend/src/atlasflow/agents/report_quality.py:90-95 | What relaxed review waives: nothing critical or about the core; findings about form, and local remarks on paragraphs that state a limitation |
| `QualityVerdict.AcceptsIff` | backend/src/atlasflow/agents/report_quality.py:276-296 | The audited route, told from the verdict, the merged list and the audit |
| `QualityVerdict.WithRecommendations` | backend/src/atlasflow/agents/report_quality.py:299-302 | Appends in order without repeats; every recommendation present unless 20 instructions are, and each appended one some audit's |
| `QualityVerdict.RecommendationsExactly` | backend/src/atlasflow/agents/report_quality.py:299-302 | The instructions afterwards are the old ones, then each new recommendation once, in order, cut at 20 |
| `QualityVerdict.AppendRecommendations` | backend/src/atlasflow/agents/report_quality.py:299-302 | The loop appends exactly those |
| `QualityVerdict.InstructionsStayActionableIff` | backend/src/atlasflow/agents/report_quality.py:299-302 | The instructions say something afterwards if and only if they did before, or there was a recommendation and room for it |
| `QualityVerdict.ApplyReportAudit` | backend/src/atlasflow/agents/report_quality.py:252-320 | When the merged verdict is replan or accept, exactly; every recommendation present unless 20 instructions are; score kept; a critical finding on either side rules out accept; replan stays; construction succeeds at every threshold of at least 50 |
| `QualityVerdict.NoteSays` | backend/src/atlasflow/agents/report_quality.py:308-316 | The rationale gains the note on kept improvements exactly for an acceptance with findings, otherwise the codes of the audit, if any |
| `QualityVerdict.CalibrateIssue` | backend/src/atlasflow/agents/report_quality.py:65-76 | One issue's calibration, and whether it changed |
| `QualityVerdict.CalibrateIssues` | backend/src/atlasflow/agents/report_quality.py:63-77 | The loop and its `changed` flag |
| `QualityVerdict.CalibrateScope` | backend/src/atlasflow/agents/report_quality.py:46-87 | The method is the specified calibration |
| `QualityVerdict.CalibratedOnlyLowers` | backend/src/atlasflow/agents/report_quality.py:65-76 | Severity only drops, the original is on record, a second pass changes nothing |
| `QualityVerdict.CalibratedExactly` | backend/src/atlasflow/agents/report_quality.py:65-76 | A local finding not about the core, located in the report, becomes information when it lies in limitations alone, otherwise at most a warning; nothing else changes |
| `QualityVerdict.CalibrationExactly` | backend/src/atlasflow/agents/report_quality.py:46-87 | The calibrated verdict: each finding so, and a replan left without a critical finding becomes a revision with the recommendations |
| `QualityVerdict.CalibrationIsStable` | backend/src/atlasflow/agents/report_quality.py:46-87 | The whole calibration is idempotent, keeps validity, score and acceptance, and softens replan only without critical findings |
| `QualityVerdict.RepairKeepsRejection` | backend/src/atlasflow/agents/report_quality.py:323-344 | Local repair never accepts a rejected report and is idempotent |
| `QualityVerdict.RepairExactly` | backend/src/atlasflow/agents/report_quality.py:323-344 | Only a replan changes: into a revision, with the recommendations and the instruction to repair, room permitting |
| `QualityVerdict.CalibrationStaysExecutable` | backend/src/atlasflow/agents/contracts.py:589-601 | A calibrated executable decision stays executable |
| `QualityVerdict.RepairStaysExecutable` | backend/src/atlasflow/agents/contracts.py:589-601 | So does a repaired one |
| `QualityVerdict.AuditStaysExecutableIff` | backend/src/atlasflow/agents/contracts.py:589-601 | An audited one stays executable unless, exactly, 20 blank instructions of an acceptance leave no room for a recommendation |
| `QualityVerdict.JudgeReport` | backend/src/atlasflow/agents/workflow.py:2041-2051 | The three in the workflow's order with its two execution checks: the first fails exactly on crowded-out instructions, never with room for one, the second never; no acceptance over a critical finding; score kept |
| `ReviewPipeline.CoverageIdempotent` | backend/src/atlasflow/agents/report_update.py:115-167 | Gateway and workflow both apply coverage; the second time changes nothing |
| `ReviewPipeline.CoverageExactly` | backend/src/atlasflow/agents/report_update.py:134-167 | Fails exactly with 20 other findings; otherwise one warning in front, its advice first, no acceptance, and the missing sections named unless a finding did |
| `ReviewPipeline.CoverageKeepsCriticalIff` | backend/src/atlasflow/agents/report_update.py:146-152 | After coverage something is critical if and only if a critical finding is about something else than missing content |
| `ReviewPipeline.CoverageFacts` | backend/src/atlasflow/agents/report_update.py:115-167 | A verdict from the model grows by at most one finding and instruction, is no acceptance when content is missing, and stays executable unless its replan rests on missing content alone |
| `ReviewPipeline.AuditReport` | backend/src/atlasflow/agents/report_quality.py:120-249 | Each of the nine findings is there if and only if the report gives cause for it, once, with its severity; none of another kind |
| `ReviewPipeline.CheckMeans` | backend/src/atlasflow/agents/report_quality.py:148-248 | What makes each check fire, told from headings, links, numbers, sources and length |
| `ReviewPipeline.AllFindings` | backend/src/atlasflow/agents/report_quality.py:148-248 | Hence each code is found exactly under its condition |
| `ReviewPipeline.FindingsAsRaised` | backend/src/atlasflow/agents/report_quality.py:133-144 | Each finding has its severity, lowered by relaxed review for presentation alone, and no code comes twice |
| `ReviewPipeline.FindingsFit` | backend/src/atlasflow/agents/report_quality.py:225-248 | Three checks exclude each other, so there are at most eight findings |
| `ReviewPipeline.AuditFacts` | backend/src/atlasflow/agents/report_quality.py:242-248 | The audit is critical exactly when fresh data is needed and there is no source; every finding says what to do |
| `ReviewPipeline.UnblockedIff` | backend/src/atlasflow/agents/report_quality.py:276-282 | Nothing in the audit blocks if and only if every link and citation is known and listed and sources are used and there when needed, and, unless relaxed, the form is right |
| `ReviewPipeline.GateFailsIff` | backend/src/atlasflow/agents/workflow.py:2034-2049 | Every verdict the model can give passes the execution check, except exactly the replan that lost its critical finding |
| `ReviewPipeline.AcceptedIff` | backend/src/atlasflow/agents/workflow.py:2034-2049 | The gate accepts if and only if no content is missing, nothing in the report stands against it, and the verdict accepts or is a revision that relaxed review waives |
| `ReviewPipeline.ReplannedIff` | backend/src/atlasflow/agents/workflow.py:2034-2049 | It asks for a replan if and only if the reviewed verdict does or something on either side is critical |
| `ReviewPipeline.ReviewReport` | backend/src/atlasflow/agents/workflow.py:2034-2065 | The whole gate fails exactly on an acceptance below the threshold and on that replan; otherwise its decision is executable, accepts exactly as stated, and then reaches the threshold without a critical finding |
| `ReviewPipeline.MissingContentReplanFails` | backend/src/atlasflow/agents/report_update.py:146-160 | The smallest verdict that loses its critical finding |

## Left out

- Regular-expression matching: what a pattern finds is a parameter, a sorted list of disjoint spans. Written out are the
  fence marker, `splitlines`, and the second-level heading pattern of the report document.
- The fuzzy locator, `paragraph_spans`, `report_paragraphs` and `has_substantive_text` in the warning publication:
  parameters with stated preconditions, like its paragraph cleaner, which `ReferenceCleanup` models by itself. The text
  of its limitations section is left out.
- The lookarounds of the two marker patterns: they only rule matches out.
- ReferenceCleanup.CleanReferences: which numbers a paragraph cites, `cited_numbers`, is a parameter like the matches.
- LifeSteps: the phases of task and resume, creation and binding have no counterpart in store and journal entries.
- Clocks, UUIDs and event ids are parameters of the writes. SQL and JSON encoding are abstracted to a map of records and
  a sequence of events; a transaction is one method that succeeds or restores both.
- The in-memory store, whose `transition` does not deduplicate event ids.
- `_recover_interrupted_runs` in the SQLite store, paging, filters and analytics.
- The execution runtime except `cancel`, `emit` and the outbox flush; owner recovery changes nothing the model shows;
  graph snapshots are inputs of startup. That an event id belongs to one run is an assumption where startup's outcome
  is told from the run's own log.
- `InvalidRunStateError` of a conversation deletion that meets a foreign run: it raises before any tombstone.
- RunLocks: run ids are integers standing for their place in the order of the strings.
- RunTasks.TaskTable.Finish: does not distinguish return, failure and cancellation, because the table does not.
- Rationale and title lengths of plans, and the single-field rules of a task that no graph property needs.
- Field stripping on revalidation: texts in decisions, plans and results are taken as already stripped.
- Strings are sequences of Unicode characters, also for the frontend's UTF-16 code units.
- Deep copies need no model: values are immutable, so the input of a normaliser cannot change.
- Limitations.Idempotent: stated for warnings without `#`; with `#` it can fail (`TornWarning.HashWarningIsTorn`), and
  `Limitations.IdempotentIff` is the exact condition.
- JournalFlushes: a flush looks at the run's journal anew before each attempt, where the code reads it once per flush
  under the run's delivery lock; an event emitted during a flush is therefore attempted at once instead of by the next
  flush. A cancellation takes the same lock. Writes to the store other than deliveries are left out there.
- ReviewPipeline: what the audit reads off the report text and its sources is an input, as are the section ids coverage
  calls missing; the checks of the coverage list itself and of paragraph ids are left out.
- ResearchResults: what the contract demands of limitations, confidence and source ids is a parameter.
- Tombstones: one service process. A task that entered its exception handler records nothing more, and a graph's last
  node alone writes a terminal status.
- `render_academic_references`, the gateway, tools, search, maps, pages, charts, tracing and settings.
