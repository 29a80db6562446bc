# Verified model of the APM incident core

A Dafny 4.11 model of the deterministic incident core of the AIOps APM service and of the stateful protocols around it,
with proofs of what holds for every input, every run and every reachable state. `dafny verify dfyconfig.toml` checks
all of it.

| Part | Files |
|---|---|
| anomaly grouping | `Anomalies`, `UnionFind`, `GroupingRules`, `Grouping`, `Services` |
| detection over many rounds | `DetectionState`, `Verify`, `GroupCounts`, `Pipeline`, `PipelineLaws`, `RoundWrites`, `WrittenRecords` |
| record store | `Outcomes`, `Records`, `WriteLaws`, `RecordRuns`, `RecordHistories`, `OpenSets`, `SqlRecords`, `Sequence`, `Decimal`, `Fingerprint` |
| automatic closing | `Listing`, `Reconcile` |
| the whole service over time | `Lifetime`, `LifetimeLaws`, `RequestSteps`, `PassSteps`, `Accountability`, `OneDomain`, `Findings`, `LifetimeFindings` |
| SQL scripts | `Text`, `SqlSplitter`, `SplitterLaws`, `SolidText`, `SeedDump`, `SeedReader`, `SeedFile` |
| lease and scheduler | `Lease`, `Scheduler`, `SchedulerRuns`, `SchedulerSpacing`, `SchedulerTurns` |
| rates, signatures, escalation | `FalsePositiveRate`, `Signature`, `SignatureLaws`, `Escalation`, `RequestLaws` |

Code that changes state in place is modelled by classes and loops (`UnionFind`, the stores, the scheduler, the scanner);
each such method is tied to a function of the old state, and the laws are lemmas about those functions. Protocols are
state machines over their steps: any interleaving of lease calls, of ticks and rounds, of requests with a crash after
any store operation, of rounds with requests and reconcile passes.

## Conventions

- Anomalies are identified by their position in the round, as the `id(a)` assertion in `grouping.py` does. An
  anomaly key and a record key are the identity fields themselves; module `Fingerprints` proves that the hashed texts
  agree exactly when those fields do, if no two of the texts concerned collide after truncation and names are free of `|`.
- Times are integers of one clock; floats are reals, with `round(x, 4)` as rounding to even at four decimals.
- Rendered label lists, the answers of other services, the day at which a number is drawn, the L2 verdict `related` and
  the free text of comments in the generated file are parameters.
- A `ValueError` for an empty tenant is the result `TenantRequired`.

## Where the code gives less than its comments promise

- Open keys are not always unique in memory (`records.py:273-289`): the merge branch runs before the exact-key branch.
  `WriteKeepsUniqueIffNoClash` gives the exact condition, `WholePartWholeBreaksUnique` a whole family of histories
  that break it, and `ExactFirstIsAlwaysUnique` shows that swapping the two branches repairs it. The table refuses the
  clashing write instead. `MemoryAgreesWithSqlIff` lists all cases in which the two stores differ: a clash, a merge across
  domains, and a stored severity outside the vocabulary that meets a warning.
- Repetition splits an incident. The record key depends on how often each anomaly occurs (`fingerprint.py:26`), the
  merge test only on which occur (`records.py:76-81`), so two samples of one metric in one round and one sample in the
  next open two records for one set of anomalies (`RepetitionSplitsIncident`, for all such pairs).
  `WriteKeepsSetsUniqueIff` and `AlwaysUniqueSetsIffSplitFree` say exactly when each set has one open record.
- Repeated anomalies of one key in a round also count as often as they occur (`l3_verify.py:47-60`); the totals say so.
- A merge ignores the domain (`records.py:76-81`). A record that takes in anomalies of another domain keeps its own, in
  which they are never counted as missing, so no pass closes it however long they stay away
  (`CrossDomainMergeIsNeverFinished`, `StrandedIsNeverClosed`). With one domain per tenant absence alone decides
  (`PassClosesExactlyTheAbsent`).
- The rate key covers only persisted members (`l3_verify.py:68`). It also differs from the record key when the
  representative name is empty and the group has further services, because an empty `group_key_service` falls back
  to the joined names (`record.py:74`). `RateKeyIsRecordKeyIff` states both.
- A comment in `problems.py:1312-1315` expects a retry to complete an escalation that crashed before the change of
  state. The direct endpoint refuses every retry (`problems.py:279-284`); only a decision on a record with a bound run or
  session completes it.
- A `resolved` report that crashes between its two store operations is treated as a duplicate ever after. A decision to
  ignore, or on a false alarm, that crashes before it is noted has ended the record, so no retry notes it
  (`CutOffDecisionIsLost`).
- A key right behind another assignment's equals sign is that assignment's value (`x=y=1` becomes `x=<*>=1`):
  `KeyIsReplacedIff` says exactly when a key keeps its place.
- The in-memory false-positive rate stops hearing verdicts. A verdict changes the rate exactly if 20000 times its distance
  from the rate exceeds the number of verdicts including it, or equals that number while the rate is an odd number of units
  of 0.0001 (`VerdictChangesRateIff`). So a rate freezes for good exactly when neither verdict is heard any more
  (`RateIsFrozenIff`): at a rate of one half from 10000 verdicts on, at any rate from 20000 on. The table's formula does not
  freeze.
- The table lease is not extended by re-acquiring, so tick length alone does not bound overlap: a tick excludes all others
  exactly as long as the time since the last write of the lease plus its own length is within the ttl
  (`SqlTickIsProtectedIff`).

## Model

| member | source | states |
|---|---|---|
| `UnionFinds.UnionFind.constructor` | src/aiops_apm/pipeline/grouping.py:50-51 | every position starts as its own class, and the parent array is a forest |
| `UnionFinds.UnionFind.Find` | src/aiops_apm/pipeline/grouping.py:53-59 | terminates, answers the representative, and compression leaves every represented class unchanged |
| `UnionFinds.UnionFind.Union` | src/aiops_apm/pipeline/grouping.py:61-64 | merges exactly the two classes of its arguments and no others |
| `UnionFinds.RootIsReachedByClimbing` | src/aiops_apm/pipeline/grouping.py:53-56 | in every forest, following parents for as many steps as the level allows ends at the represented root |
| `UnionFinds.CompressionKeepsForest` | src/aiops_apm/pipeline/grouping.py:57-58 | pointing a node straight at its root keeps the forest and all roots |
| `Grouping.UnionLogs` | src/aiops_apm/pipeline/grouping.py:67-80 | with only first-seen anchors, the partition is exactly the closure of "same signature or shared trace" |
| `Grouping.UnionMetrics` | src/aiops_apm/pipeline/grouping.py:108-112 | adds exactly the closure of "metrics of one service" |
| `Grouping.CollectRoots` | src/aiops_apm/pipeline/grouping.py:114-116 | per service, exactly the representatives of its log anomalies |
| `Grouping.AttachMetrics` | src/aiops_apm/pipeline/grouping.py:117-120 | the partition becomes exactly the closure of all four rules |
| `Grouping.FileByRoot` | src/aiops_apm/pipeline/grouping.py:124-131 | members are filed once each, ascending, and groups stand in order of their smallest member |
| `Grouping.GroupAnomalies` | src/aiops_apm/pipeline/grouping.py:83-136 | two anomalies share a group if and only if the closure of the rules connects them; groups partition the round, members ascend, groups are ordered by first member |
| `GroupingRules.AttachingMetricsKeepsLogComponents` | src/aiops_apm/pipeline/grouping.py:94-120 | restricted to logs, the incidents are exactly the log-only components |
| `GroupingRules.IncidentsIgnoreInputOrder` | src/aiops_apm/pipeline/grouping.py:83-131 | reordering the round does not change which anomalies belong together |
| `GroupingRules.SameKeySameIncident` | src/aiops_apm/pipeline/grouping.py:67-131 | anomalies of one identity are always in one incident |
| `GroupingRules.GroupsHaveDisjointKeys` | src/aiops_apm/pipeline/grouping.py:83-136 | distinct groups share no anomaly key |
| `GroupingRules.GroupingIsUnique` | src/aiops_apm/pipeline/grouping.py:124-136 | the rules and the ordering leave exactly one possible list of groups |
| `Services.GroupServices` | src/aiops_apm/pipeline/grouping.py:139-145 | the distinct service names of a group, ascending |
| `Services.RepresentativeService` | src/aiops_apm/pipeline/grouping.py:148-156 | the least service name of the group, "unknown" for an empty one |
| `Services.RepresentativeIsStable` | src/aiops_apm/pipeline/grouping.py:148-156 | depends only on which services take part |
| `DetectionState.DetectionStateStore.Get` | src/aiops_apm/storage/detection_state.py:55-59 | the stored row, or none; an empty tenant is refused |
| `DetectionState.DetectionStateStore.Upsert` | src/aiops_apm/storage/detection_state.py:61-79 | replaces exactly one row |
| `DetectionState.DetectionStateStore.Sweep` | src/aiops_apm/storage/detection_state.py:81-87 | one more miss for exactly the unseen keys of the domain |
| `DetectionState.DetectionStateStore.ListByDomain` | src/aiops_apm/storage/detection_state.py:89-96 | exactly the domain's keys with their rows |
| `DetectionState.RunsAreReflected` | src/aiops_apm/storage/detection_state.py:61-87 | after any run of rounds from an empty store, the counters are total appearances with repetition and completed rounds since the last one |
| `DetectionState.RunsTellTimes` | src/aiops_apm/pipeline/l3_verify.py:52-60 | and each row tells the times of the first and of the last round that saw its key |
| `DetectionState.MissCountIsAbsence` | src/aiops_apm/storage/detection_state.py:81-87 | a miss count of at least n means absence from each of the domain's last n rounds, and conversely |
| `Verify.CalibrateSeverity` | src/aiops_apm/pipeline/l3_verify.py:21-31 | critical exactly if a member is critical or a related high metric and high log occur; high exactly if not critical and some member is high |
| `Verify.L3Verify` | src/aiops_apm/pipeline/l3_verify.py:34-78 | each anomaly's appearance is counted; the group passes exactly if a member persists, and is then a warning if the rate on file under the persisted members' key has enough verdicts and reaches the threshold, else as severe as the persisted members call for |
| `Verify.PassesIffTotalReached` | src/aiops_apm/pipeline/l3_verify.py:45-66 | some member passes at its turn if and only if some member's total after the whole group reaches the threshold |
| `Verify.WherePicks` | src/aiops_apm/pipeline/l3_verify.py:46-60 | the persisted members are exactly those at the positions that reach the threshold, in order |
| `GroupCounts.GroupsHoldAllKeys` | src/aiops_apm/pipeline/runner.py:69-98 | the groups together hold exactly the round's keys, with repetition |
| `GroupCounts.KeyStaysInItsGroup` | src/aiops_apm/pipeline/runner.py:69-98 | a member's key occurs in its own group as often as in the round, and in no earlier group |
| `Pipeline.KindsKeepKeys` | src/aiops_apm/pipeline/emit.py:50-51 | splitting a group by kind loses and invents no anomaly key |
| `Pipeline.CollectTraceIds` | src/aiops_apm/pipeline/emit.py:57-61 | first occurrences of the logs' trace ids, in order |
| `Pipeline.FirstOccurrencesAreDistinct` | src/aiops_apm/pipeline/emit.py:57-61 | each trace id once, none lost |
| `WrittenRecords.EvidenceIsTold` | src/aiops_apm/pipeline/emit.py:53-71 | the evidence is the round's degraded sources, if any, then exactly the trace ids of the group's logs, once each, if any |
| `WrittenRecords.KindsAreSorted` | src/aiops_apm/pipeline/emit.py:50-51 | the metrics of the record are exactly the metrics of the group and its logs exactly the logs, in the group's order |
| `WrittenRecords.JudgedIsGraded` | src/aiops_apm/pipeline/l3_verify.py:62-78 | a group that passes has the severity called for by exactly the members whose total over all earlier rounds and their turn reaches the threshold, or a warning if their key is on file as mostly false |
| `WrittenRecords.RecordsTell` | src/aiops_apm/pipeline/emit.py:75-97 | every record of a round tells its group field by field: time, services, findings by kind, evidence and severity |
| `Pipeline.Emit` | src/aiops_apm/pipeline/emit.py:48-98 | writes exactly the assembled record under a fresh number if verification passed, else changes nothing |
| `Pipeline.EarlierGroupsDoNotMatter` | src/aiops_apm/pipeline/runner.py:72-80 | the verdict on a group does not depend on the groups verified before it in the round |
| `Pipeline.RunDomain` | src/aiops_apm/pipeline/runner.py:57-98 | after the round the counters are those of one AfterRound step, and the records written are those of the groups that pass, judged by the counts before the round |
| `PipelineLaws.EmitsIffTotalReached` | src/aiops_apm/pipeline/l3_verify.py:45-66 | a group emits if and only if some member's total over the whole history reaches the threshold |
| `PipelineLaws.RateKeyIsRecordKeyIff` | src/aiops_apm/pipeline/l3_verify.py:47-72 | the rate is read under the stored record's key if and only if every member persisted and the representative name is not empty or no other name is there |
| `PipelineLaws.PartlyPersistedReadsAnotherKey` | src/aiops_apm/pipeline/l3_verify.py:47-72 | a group that passes with a member not persisted reads its rate under another key than its record's |
| `PipelineLaws.AssembledKey` | src/aiops_apm/models/record.py:63-74 | the record key holds tenant, domain, service part and the whole group's keys |
| `PipelineLaws.OneRoundPersistsAll` | src/aiops_apm/pipeline/l3_verify.py:47-55 | with a threshold of at most one, every member persists |
| `PipelineLaws.OneRecordPerPassingGroup` | src/aiops_apm/pipeline/runner.py:69-89 | exactly one record per passing group, in order, with its anomalies and severity |
| `PipelineLaws.EmissionsAreProperWrites` | src/aiops_apm/pipeline/emit.py:75-97 | a round continues the record history by detected records under numbers never used before |
| `Lifetime.RunReflectsRounds` | src/aiops_apm/pipeline/runner.py:66-98 | in any mix of rounds, requests and passes, the counters tell the rounds' history |
| `Lifetime.RunHasRecordHistory` | src/aiops_apm/pipeline/runner.py:66-98 | in any such mix the record rows are those of a proper record history |
| `Lifetime.RunKeepsRecordsSound` | src/aiops_apm/storage/records.py:270-395 | in any such mix rows are filed under their key sets, ids are distinct and in-progress rows name a run |
| `RequestSteps.RequestIsHistory` | src/aiops_apm/router/problems.py:249-316 | a request, wherever it is cut off, continues the record history by proper steps |
| `LifetimeLaws.DetectWritesExactlyTheReached` | src/aiops_apm/pipeline/runner.py:57-98 | in any such mix a round writes exactly one record for each group in which a member's running total reaches the threshold, in order, and changes the record rows in no other way; each record has its group's findings by kind, the round's time, all traces of its logs, and the severity that the rate on file and the members persisting over the whole history call for |
| `RoundWrites.PassingIsRaised` | src/aiops_apm/pipeline/runner.py:71-89 | the groups that pass, listed by position |
| `LifetimeLaws.PassClosesExactlyTheGone` | src/aiops_apm/reconcile.py:52-71 | in any such mix, a pass with a threshold of at least one closes exactly the listed open records with anomalies each of which has appeared in the record's own domain and was absent from that many last rounds of it |
| `LifetimeLaws.RunKnowsItsKeys` | src/aiops_apm/storage/records.py:67-82 | with one domain per tenant, every anomaly of every record has been counted in the record's domain |
| `LifetimeLaws.PassClosesExactlyTheAbsent` | src/aiops_apm/reconcile.py:52-71 | with one domain per tenant, a pass closes exactly the listed open records whose anomalies were all absent from that many last rounds |
| `LifetimeLaws.StrandedIsNeverClosed` | src/aiops_apm/reconcile.py:63-67 | a record with an anomaly never counted in its own domain is closed by no pass |
| `OneDomain.CrossDomainMergeIsNeverFinished` | src/aiops_apm/storage/records.py:76-95 | a merge across domains leaves such a record, for every history |
| `LifetimeLaws.RunKeepsRecordsAccountable` | src/aiops_apm/router/problems.py:249-316 | in any such mix from empty stores: escalated implies a ticketed entry, all such entries of a record name one ticket, in progress implies a run |
| `Accountability.WriteActsAsDetected` | src/aiops_apm/storage/records.py:85-95 | to state and evidence of its row a write does what the Detected event of the record protocol does |
| `Accountability.PassActsAsReconciled` | src/aiops_apm/reconcile.py:52-71 | to each row a pass does what the Reconciled event does, or nothing |
| `LifetimeFindings.RunSortsFindings` | src/aiops_apm/storage/records.py:85-88 | in any such mix, every record holds metrics among its metrics and logs among its logs |
| `LifetimeFindings.FindingsAreTheKeys` | src/aiops_apm/storage/records.py:85-90 | and its metrics have exactly the metric identities of the key it is filed under, its logs exactly the others |
| `LifetimeFindings.OpenedTellsRound` | src/aiops_apm/pipeline/emit.py:82 | a record keeps the time of the round that opened it |
| `LifetimeFindings.EveryRowWasOpened` | src/aiops_apm/storage/records.py:290-292 | every record was opened by a round |
| `LifetimeFindings.NewerRoundsComeFirst` | src/aiops_apm/storage/records.py:313-314 | the listing shows the records of newer rounds first |
| `Records.MergeAnomalies` | src/aiops_apm/storage/records.py:54-64 | the union by identity, first occurrences in order |
| `Records.DistinctKeepsKeys` | src/aiops_apm/storage/records.py:54-64 | each identity of both lists once |
| `Records.SupersetCandidate` | src/aiops_apm/storage/records.py:67-82 | the first of the largest open records with strictly fewer anomalies |
| `Records.FirstLargest` | src/aiops_apm/storage/records.py:73-82 | first position of the greatest weight; none if and only if there is no candidate |
| `Records.RecordStore.FindOpen` | src/aiops_apm/storage/records.py:258-268 | an open row with this key, none only if there is none |
| `Records.RecordStore.WriteOrAppend` | src/aiops_apm/storage/records.py:270-292 | the whole new store: merge into a smaller open record, else append to the exact one, else a new row; the WriteLaws rows say what each case leaves |
| `WriteLaws.WriteMerges` | src/aiops_apm/storage/records.py:85-95 | if an open record has fewer anomalies, the first largest such row alone changes: metrics united with the incoming metrics, logs with the incoming logs, the incoming key, one more occurrence, evidence appended, the later time, the higher severity |
| `WriteLaws.MergeKeepsListsApart` | src/aiops_apm/storage/records.py:54-88 | after a merge each list has exactly the identities that its own kind had on either side, and what was there stays in front with its values |
| `WriteLaws.DistinctUnites` | src/aiops_apm/storage/records.py:54-64 | the merged list is made of the first occurrences of each identity, in order |
| `WriteLaws.WriteAppends` | src/aiops_apm/storage/records.py:278-289 | if none has, the first open row under the exact key alone changes: one more occurrence, its anomalies untouched |
| `WriteLaws.WriteOpens` | src/aiops_apm/storage/records.py:290-292 | if there is neither, the record becomes the last row |
| `WriteLaws.WriteReplaces` | src/aiops_apm/storage/records.py:290-292 | unless its id is taken: then it takes the place of that row |
| `WriteLaws.EveryWriteIsOneOfThree` | src/aiops_apm/storage/records.py:270-292 | one of these cases always applies |
| `Records.RecordStore.SetTerminalState` | src/aiops_apm/storage/records.py:343-359 | only the tenant's row with this id changes, in state and reason |
| `Records.RecordStore.MarkInProgress` | src/aiops_apm/storage/records.py:361-382 | turns only a pending row, adds its run, and says whether it did |
| `Records.RecordStore.AppendEvidence` | src/aiops_apm/storage/records.py:384-395 | adds one entry to the tenant's row and says whether there was one |
| `RecordRuns.WriteTouchesOneRow` | src/aiops_apm/storage/records.py:270-292 | a write adds or changes exactly one row; it is open and has the incoming key and key set |
| `RecordRuns.WriteKeepsUniqueIffNoClash` | src/aiops_apm/storage/records.py:273-289 | a write keeps open keys unique if and only if it does not merge while the exact key is already open |
| `RecordRuns.WholePartWholeBreaksUnique` | src/aiops_apm/storage/records.py:273-289 | an incident, a part of it, then the whole again: two open rows with one key, for all such records |
| `RecordRuns.ExactFirstKeepsUnique` | src/aiops_apm/storage/records.py:273-289 | looking for the exact key first keeps open keys unique |
| `RecordHistories.RunIsSound` | src/aiops_apm/storage/records.py:270-395 | over any run rows stay filed under their own key sets, with distinct ids |
| `RecordHistories.RunIsAccounted` | src/aiops_apm/storage/records.py:85-95 | over any run each row is the exact sum of what it received (count, evidence in order, highest rank, last key), and all occurrences add up to the writes |
| `RecordHistories.RunEvolves` | src/aiops_apm/storage/records.py:270-395 | between any two points of a run evidence grows by suffix, final rows never reopen and keep their findings |
| `RecordHistories.StepEvolves` | src/aiops_apm/storage/records.py:270-292 | a write never alters a row in a final state |
| `RecordHistories.RunRecordsRuns` | src/aiops_apm/storage/records.py:361-382 | in progress implies an agent run on file |
| `RecordHistories.AlwaysUniqueIffClashFree` | src/aiops_apm/storage/records.py:270-292 | open keys are unique throughout a run if and only if none of its writes clashes |
| `RecordHistories.ExactFirstIsAlwaysUnique` | src/aiops_apm/storage/records.py:270-292 | the exact-first variant keeps open keys unique on every run |
| `OpenSets.RepetitionSplitsIncident` | src/aiops_apm/storage/records.py:273-292 | two records with one set of identities and different numbers of them leave two open rows with that set, for all such records |
| `OpenSets.WriteKeepsSetsUniqueIff` | src/aiops_apm/storage/records.py:270-292 | a write keeps open sets unique if and only if its set is not open yet or it goes to the row that has it |
| `OpenSets.AlwaysUniqueSetsIffSplitFree` | src/aiops_apm/storage/records.py:270-292 | each set has one open record throughout a run if and only if none of its writes splits a set |
| `SqlRecords.SqlWriteKeepsUnique` | src/aiops_apm/storage/records.py:427-518 | against the table with its unique constraint, every write keeps open keys unique |
| `SqlRecords.MemoryAgreesWithSqlIff` | src/aiops_apm/storage/records.py:427-518 | the in-memory write is an outcome of the SQL write if and only if it does not clash, merges within the domain and meets no unknown stored severity with a warning |
| `Listing.List` | src/aiops_apm/storage/records.py:294-314 | exactly the rows kept by the filters with fewer than `limit` kept rows ahead of them, newest first, ties in stored order; an empty tenant is refused |
| `Listing.PositionIsRank` | src/aiops_apm/storage/records.py:313-314 | a row's place in the listing is the number of rows ahead of it |
| `Reconcile.ReconcileRecord` | src/aiops_apm/reconcile.py:59-70 | resolves the record if and only if it is open, has anomalies and all are stale |
| `Reconcile.ReconcileOnce` | src/aiops_apm/reconcile.py:52-71 | a pass resolves exactly the listed finished records, counts them and changes nothing else |
| `Reconcile.ListTenants` | src/aiops_apm/storage/records.py:397-398 | exactly the tenants with records, ascending |
| `Reconcile.FinishedIffGone` | src/aiops_apm/reconcile.py:63-67 | for a threshold of at least one, finished means every key appeared before and was absent from that many last rounds |
| `Reconcile.FewRecordsAreAllListed` | src/aiops_apm/reconcile.py:58 | a tenant with at most 10000 records has all of them listed |
| `Sequences.SequenceStore.Bump` | src/aiops_apm/storage/sequence.py:61-67 | the next count of just this prefix and day |
| `Sequences.SequenceStore.Next` | src/aiops_apm/storage/sequence.py:53-59 | the number printed from the prefix, the day and the new count |
| `Sequences.LabelDetermines` | src/aiops_apm/storage/sequence.py:53-59 | a printed number determines kind, day and count, beyond four digits too |
| `Sequences.NumbersCountUp` | src/aiops_apm/storage/sequence.py:51-67 | in any history of calls the numbers of one kind and day count up from one without a gap, printed as PR or INC, the day, and four digits or as many as it takes |
| `Sequences.IdsAreDistinct` | src/aiops_apm/storage/sequence.py:51-67 | no number is given out twice in any history of calls |
| `SqlSplitter.SplitStatements` | src/aiops_apm/migrations/runner.py:70-125 | the scanner computes the token-by-token definition of splitting |
| `SplitterLaws.SplitIsCanonical` | src/aiops_apm/migrations/runner.py:79-125 | every statement produced is one the scanner would keep whole |
| `SplitterLaws.SplittingIsStable` | src/aiops_apm/migrations/runner.py:70-125 | joining the statements with semicolons and splitting again gives the same list |
| `SplitterLaws.SplittingIsHomomorphic` | src/aiops_apm/migrations/runner.py:79-125 | a script ending outside quotes, bodies and comments, then a semicolon, then a script: the lists are appended |
| `SolidText.TaggedBodyIsSolid` | src/aiops_apm/migrations/runner.py:86-112 | a body between two equal delimiters, with or without a name, is kept whole if the delimiter does not occur earlier, whatever else is in it |
| `SeedDump.LiteralReadsBack` | docker/dump_seed_sql.py:108-116 | a quoted text reads back as itself, whatever follows |
| `SeedDump.RenderedCellIsSolid` | docker/dump_seed_sql.py:119-150 | no rendered value can start or end a statement, a comment or a body |
| `SolidText.UnescapedQuoteStaysOpen` | docker/dump_seed_sql.py:218-225 | a name ending in a double quote leaves the scanner inside quotes, so names must be free of them |
| `SeedReader.CellReadsBack` | docker/dump_seed_sql.py:119-150 | a rendered cell reads back with its kind and text: NULL exactly for SQL null, TRUE exactly for true |
| `SeedReader.NumberReadsBackIff` | docker/dump_seed_sql.py:134-139 | a number in digits, letters, signs and dots reads back exactly if it is no keyword |
| `SeedReader.CellsReadBack` | docker/dump_seed_sql.py:210-213 | a row reads back as its cells in column order |
| `SeedReader.InsertReadsBack` | docker/dump_seed_sql.py:216-225 | an INSERT reads back as its table, its columns in order, and its rows |
| `SeedDump.EmitTableSql` | docker/dump_seed_sql.py:216-226 | the INSERTs of the table's chunks in order; the next row says what they hold |
| `SeedFile.InsertsLoadRows` | docker/dump_seed_sql.py:216-226 | the rows read from all INSERTs of a table are exactly the table's rows, in order |
| `SeedFile.EveryInsertIsOfItsTable` | docker/dump_seed_sql.py:218-225 | each INSERT names the table and its columns in order and holds 1 to 200 rows |
| `SeedDump.TableYieldsItsInserts` | docker/dump_seed_sql.py:216-226 | splitting the table's section returns exactly its INSERTs |
| `SeedDump.SetvalYieldsItself` | docker/dump_seed_sql.py:229-247 | splitting a sequence block returns that one block |
| `SeedFile.SetvalReadsBack` | docker/dump_seed_sql.py:229-247 | a sequence block reads back as its table and column |
| `SeedFile.AllIdentitiesAdvance` | docker/dump_seed_sql.py:329-333 | exactly the identity columns of all tables are advanced |
| `SeedFile.DumpFile` | docker/dump_seed_sql.py:319-343 | a NUL is refused; otherwise splitting the generated file returns exactly the emitted statements in order, and reading those gives each table exactly its rows |
| `Leases.LeaseStore.TryAcquire` | src/aiops_apm/storage/lease.py:42-48 | taken over when expired, extended by its holder, refused to others |
| `Leases.LeaseStore.Renew` | src/aiops_apm/storage/lease.py:50-56 | extends only the holder's unexpired lease |
| `Leases.LeaseStore.Release` | src/aiops_apm/storage/lease.py:58-61 | removes only the holder's lease |
| `Leases.UnexpiredLeaseStands` | src/aiops_apm/storage/lease.py:42-106 | in both forms, while a lease is unexpired and its holder silent, it stands and no claim of others succeeds |
| `Leases.RenewedLeaseStands` | src/aiops_apm/storage/lease.py:50-56 | after the holder's renewal in time the lease stands until now plus the ttl, and no claim of others succeeds before that |
| `Leases.ReleasedLeaseIsFree` | src/aiops_apm/storage/lease.py:58-61 | after the holder's release the next claim by anyone succeeds for its full term |
| `Leases.OverlapMeansOverrun` | src/aiops_apm/scheduler.py:82-109 | in both forms, two replicas' tick bodies overlap only if one ran past its recorded expiry |
| `Leases.MemoryOverlapMeansLongTick` | src/aiops_apm/storage/lease.py:42-56 | in memory, overlap needs a tick as long as the ttl |
| `Leases.SqlOverlapMeansLongSinceWritten` | src/aiops_apm/storage/lease.py:75-103 | in the table, overlap needs time since the last write plus tick length above the ttl |
| `Leases.TickIsProtectedIff` | src/aiops_apm/scheduler.py:82-109 | in both forms, a tick excludes every other replica exactly as long as its recorded expiry is not reached |
| `Leases.MemoryTickIsProtectedIff` | src/aiops_apm/storage/lease.py:42-56 | in memory, exactly as long as the tick is shorter than the ttl |
| `Leases.SqlTickIsProtectedIff` | src/aiops_apm/storage/lease.py:75-106 | in the table, exactly as long as time since the last write plus tick length is within the ttl |
| `Leases.SqlShortTicksCanOverlap` | src/aiops_apm/storage/lease.py:75-103 | for every ttl, ticks of at most one unit can overlap in the table form, because re-acquiring does not extend |
| `Schedulers.Scheduler.DueTargets` | src/aiops_apm/scheduler.py:69-80 | plans unseen targets one interval ahead and returns exactly those whose time has come |
| `Schedulers.Scheduler.GroupDue` | src/aiops_apm/scheduler.py:94-99 | due targets by tenant and domain, without groups in flight |
| `Schedulers.Scheduler.Enter` | src/aiops_apm/scheduler.py:142-145 | a group enters unless it is in flight |
| `Schedulers.Scheduler.Leave` | src/aiops_apm/scheduler.py:178-184 | frees the group and plans its targets anew, on success and on failure |
| `SchedulerRuns.EveryRunIsExclusive` | src/aiops_apm/scheduler.py:82-184 | under every interleaving, at most one running round per tenant and domain, at most the configured number in all, and no group left in flight |
| `SchedulerSpacing.FiringsKeepTheirDistance` | src/aiops_apm/scheduler.py:69-184 | with ticks one after another, a target first fires at least an interval after first sight and then at least interval plus jitter apart |
| `SchedulerSpacing.SuccessiveFirings` | src/aiops_apm/scheduler.py:178-184 | two successive firings of a target are at least a gap apart |
| `SchedulerTurns.FirstPlanIsOneInterval` | src/aiops_apm/scheduler.py:69-80 | a target's first planned time is one interval after the tick that first listed it |
| `SchedulerTurns.PermittedTargetsWait` | src/aiops_apm/scheduler.py:92-106 | after a tick exactly the listed targets wait whose permitted time has come, each in its own group's round |
| `SchedulerTurns.PermittedTargetFires` | src/aiops_apm/scheduler.py:82-184 | and each of them has fired, at the tick's time, once the tick's rounds are let in: no target is passed over |
| `FalsePositiveRate.RateStore.WriteFpr` | src/aiops_apm/storage/dynamic_config.py:209-219 | one verdict more on just this tenant and key |
| `FalsePositiveRate.RateIsNearRatio` | src/aiops_apm/storage/dynamic_config.py:209-219 | after n verdicts within 0.000025 (n + 1) of the exact ratio |
| `FalsePositiveRate.RateStaysInRange` | src/aiops_apm/storage/dynamic_config.py:209-219 | always between 0 and 1 and a multiple of 0.0001 |
| `FalsePositiveRate.VerdictChangesRateIff` | src/aiops_apm/storage/dynamic_config.py:209-219 | a verdict changes the rate if and only if 20000 times its distance exceeds the number of verdicts, or equals it at an odd number of units |
| `FalsePositiveRate.RateIsFrozenIff` | src/aiops_apm/storage/dynamic_config.py:209-219 | no later verdict changes the rate if and only if neither verdict is heard now |
| `FalsePositiveRate.HalfRateFreezesEarlier` | src/aiops_apm/storage/dynamic_config.py:209-219 | at a rate of one half it is frozen from 10000 verdicts on |
| `FalsePositiveRate.RateIsFrozen` | src/aiops_apm/storage/dynamic_config.py:209-219 | from 20000 verdicts on it is frozen whatever its value |
| `FalsePositiveRate.TableRateIsExact` | src/aiops_apm/storage/dynamic_config.py:394-416 | after every verdict the table holds the exact counts and their ratio rounded once to four decimals |
| `FalsePositiveRate.MemoryStopsListening` | src/aiops_apm/storage/dynamic_config.py:209-416 | after 20000 true alarms, any number of false ones leaves the in-memory rate at 0 while the table's follows |
| `SignatureLaws.FreeIsKept` | src/aiops_apm/signature.py:35-44 | a text without `key=value` is returned unchanged |
| `SignatureLaws.FirstIsReplaced` | src/aiops_apm/signature.py:35-44 | the first `key=value` keeps its key and becomes `key=<*>`, what stands before it is kept, and what follows is normalised on its own |
| `SignatureLaws.FreeOrFirst` | src/aiops_apm/signature.py:35-44 | every text is of one of these two forms, so they say what any text becomes |
| `SignatureLaws.KeyIsReplacedIff` | src/aiops_apm/signature.py:32-35 | behind a text free of `key=value`, an assignment is replaced if and only if the text with the key added is still free of one |
| `SignatureLaws.SameNormalFormIff` | src/aiops_apm/signature.py:35-44 | two messages have one normal form if and only if they are the same up to the values of assignments |
| `SignatureLaws.PlainSignature` | src/aiops_apm/signature.py:53-54 | without a stack: the first 120 characters, normalised, cut at 1000 |
| `SignatureLaws.SameSignatureIff` | src/aiops_apm/signature.py:53-54 | without a stack and within the window, one signature if and only if the messages are the same up to values |
| `SignatureLaws.StackSignature` | src/aiops_apm/signature.py:55-60 | with a stack: the exception line, normalised, then the first lines behind it, stripped, in order, as many as asked for and there are, cut at 1000 |
| `Signatures.NormalizeMessageIsIdempotent` | src/aiops_apm/signature.py:35-44 | normalising twice is normalising once |
| `Signatures.ValuesDoNotMatter` | src/aiops_apm/signature.py:35-44 | exchanging any matched value for any non-empty delimiter-free one leaves the result unchanged |
| `Signatures.MatchIsShape` | src/aiops_apm/signature.py:35 | the matcher finds exactly key, equals sign and the longest value |
| `Signatures.SignatureIgnoresValues` | src/aiops_apm/signature.py:47-60 | without a stack and within the window, messages that differ in a matched value have one signature |
| `Signatures.StackSignatureIgnoresValues` | src/aiops_apm/signature.py:47-60 | with a stack, exchanging a matched value in the exception line leaves the signature unchanged, without a window |
| `Fingerprints.RawKeyDetermines` | src/aiops_apm/models/fingerprint.py:15-21 | the text before hashing determines the identity, even if signatures or labels contain the separator |
| `Fingerprints.KeyTextDetermines` | src/aiops_apm/models/fingerprint.py:15-21 | hashed keys agree exactly when identities do |
| `Fingerprints.OrderIsCanonical` | src/aiops_apm/models/fingerprint.py:26 | sorting makes the key independent of order and sensitive to repetition |
| `Fingerprints.RawGroupDetermines` | src/aiops_apm/models/fingerprint.py:24-29 | group texts agree exactly when names and the multiset of key texts do |
| `Fingerprints.GroupTextDetermines` | src/aiops_apm/models/fingerprint.py:24-29 | group keys agree exactly when tenant, domain, service and the multiset of identities do |
| `Escalation.CreatedTicket` | src/aiops_apm/router/problems.py:1221-1240 | the first ticketed escalation on record, none only if there is none |
| `Escalation.Handle` | src/aiops_apm/router/problems.py:249-316 | a request on the store performs its effects in order, up to a crash; the RequestLaws rows say what each request leaves |
| `RequestLaws.ResolvedByHand` | src/aiops_apm/router/problems.py:199 | resolving by hand leaves the record resolved with reason manual, whatever its state, and nothing else changed |
| `RequestLaws.IgnoredByHand` | src/aiops_apm/router/problems.py:230 | ignoring by hand leaves it closed with reason ignored |
| `RequestLaws.EscalatedDirectly` | src/aiops_apm/router/problems.py:271-316 | an open record without a ticket is escalated with the created ticket, noted as a decision; otherwise nothing happens |
| `RequestLaws.DecidedToEscalate` | src/aiops_apm/router/problems.py:1486-1514 | on an open record with a run or session, the first ticket on record is used, else the created one; without either nothing happens |
| `RequestLaws.DecidedToIgnore` | src/aiops_apm/router/problems.py:1574-1592 | on such a record: closed, ignored, and the decision noted; otherwise nothing |
| `RequestLaws.DecidedFalsePositive` | src/aiops_apm/router/problems.py:1574-1592 | on such a record: resolved, false_positive, and the decision noted; otherwise nothing |
| `RequestLaws.DecidedToReject` | src/aiops_apm/router/problems.py:1511-1592 | with a run on file, another run of the last run's workflow is noted and then the rejection; with a session only the rejection; the state stays; without a workflow or a started run nothing happens |
| `RequestLaws.CutOffDecisionIsLost` | src/aiops_apm/router/problems.py:1584-1592 | a decision to ignore or on a false alarm, cut off before it is noted, has ended the record, and no repetition notes it |
| `RequestLaws.CutOffRejection` | src/aiops_apm/router/problems.py:1569-1592 | a rejection cut off in between has noted the new run but not itself |
| `RequestLaws.Analyzed` | src/aiops_apm/router/problems.py:624-709 | a started run takes a pending record into progress, is noted on one in progress if asked for again, and does nothing otherwise |
| `RequestLaws.Diagnosed` | src/aiops_apm/router/problems.py:897-951 | a session is noted on an open record that has none; otherwise nothing |
| `RequestLaws.RunDecisionNoted` | src/aiops_apm/router/problems.py:738-772 | noted once per run and node in any state, under approve-plan if no node is named; an empty run or a repetition does nothing |
| `RequestLaws.Reporting` | src/aiops_apm/router/problems.py:395-408 | a new report to the holder of its ticket is noted and resolves an escalated record if it says resolved; otherwise nothing |
| `Escalation.FindByTicket` | src/aiops_apm/storage/records.py:324-330 | the first holder of the ticket |
| `Escalation.ReportTicketStatus` | src/aiops_apm/router/problems.py:364-425 | a report goes to the holder of its ticket, or nowhere |
| `Escalation.EveryRunIsAccountable` | src/aiops_apm/router/problems.py:271-316 | requests, crashes, detection and reconciliation keep an accountable record accountable |
| `Escalation.CutOffEscalation` | src/aiops_apm/router/problems.py:306-309 | after a crash between entry and state the record is as open as before and has its ticket |
| `Escalation.DirectRetryNeverCompletes` | src/aiops_apm/router/problems.py:279-284 | a direct escalation cut off there leaves the record open with its ticket through any number of retries and rounds |
| `Escalation.DecisionRetryCompletesIffBound` | src/aiops_apm/router/problems.py:1486-1510 | a decision to escalate then completes it with the same ticket if and only if a run or session is bound |
| `Escalation.ReportResolvesIff` | src/aiops_apm/router/problems.py:395-408 | a full report resolves the record exactly if it says resolved, the record is escalated and holds the ticket, and the same report is not on record |
| `Escalation.CutOffReportIsLost` | src/aiops_apm/router/problems.py:395-408 | a report cut off before the change of state is lost: no repetition resolves the record |

## Left out

- HTTP clients, outbound gateway, secrets, authentication, metrics, audit logging and FastAPI routing: input, output or library wrappers.
- Collectors, field mapping, L0 suppression, L1 detection and L2 correlation: a round's anomalies and the `related` verdict are arbitrary inputs.
- View models, ticket texts and payload building: presentation.
- PostgreSQL connections, JSONB binding and migration execution; SQL appears only as the transition functions named above. Isolation between concurrent transactions is not modelled.
- Round audit rows, per-service counts of a round and orphan recovery with its watermark.
- The clock time of closing (`resolved_at`), `first_seen_at`, `instance`, `symptom` and other descriptive fields of a record.
- Concurrent requests on one record, and reads racing with a reconcile pass: requests are sequential, with crashes.
- SeedFile.DumpFile: assumes table and column names free of double quotes, which the program does not escape, table names free of line breaks, names that enter a sequence block free of dollar signs, number texts of digits, letters, signs and dots that are no keywords, and a header, note and message text that stay on their comment lines or inside their literal; the program fixes those texts.
- SeedFile.SetvalReadsBack: assumes names free of single quotes, which the program does not double inside a sequence block.
- Fingerprints.GroupTextDetermines: assumes that the truncated digests of just the texts concerned do not collide.
- SchedulerSpacing.FiringsKeepTheirDistance: for ticks that follow one another, as the scheduler's loop makes them, and listings that name each target once.
- Escalation.Handle: what an endpoint does besides changing its record (outbound calls, rate updates, responses) is a parameter or absent; so is the reason for which a decision is refused before it has an effect.
