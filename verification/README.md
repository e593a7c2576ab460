# Verified model of the anomaly detection pipeline

The pipeline ingests metrics from agents, evaluates rules on them, publishes anomalies and keeps incidents.
This project models the parts of it that hold logic and proves what they promise, in Dafny. Check it with
`dafny verify dfyconfig.toml`.

| file | what it models |
|---|---|
| `Ecdf.dfy`, `KsMerge.dfy`, `Exponential.dfy`, `KsTest.dfy` | the Kolmogorov-Smirnov test: a two-pointer merge used in place of the supremum distance of two empirical distribution functions |
| `Text.dfy`, `Conditions.dfy` | threshold conditions and their parser |
| `MlInference.dfy`, `Rules.dfy` | the forecast test of the training service and the rule objects with their sliding windows |
| `ModelLookup.dfy` | the ids under which analyzer and training service look for and file models |
| `Selection.dfy`, `Chunks.dfy`, `RuleEngine.dfy`, `EngineStreams.dfy` | the indexed rule engine, its parallel batch, and the engine over whole streams |
| `AnalyzerProtocol.dfy`, `AnalyzerService.dfy`, `AnalyzerDrain.dfy`, `AnalyzerSafety.dfy` | fetch, evaluate, mark and publish by any number of analyzers over one table and one log |
| `IncidentStore.dfy`, `IncidentProtocol.dfy`, `IncidentRaces.dfy` | the incident tables and the interleaved statements of any number of notifier workers |
| `NotifierService.dfy`, `NotifierRuns.dfy`, `IncidentHistory.dfy`, `IncidentLifecycle.dfy`, `AnomalyConsumer.dfy` | the notifier's operations with failing calls, their refinement to steps, and the life of incidents over whole histories |
| `JobQueue.dfy` | the bounded queue of both Kafka consumers, which drops the oldest message |
| `Ingestion.dfy`, `InsertStatement.dfy` | validation, retry and commit of the ingestion consumer, and its multi-row insert |
| `ModelNames.dfy` | names of model artifacts and their parser |
| `Wrappers.dfy`, `Sequences.dfy`, `Placeholders.dfy` | results, call outcomes, facts about sequences, and numbered placeholders, for several modules |
| `IncidentQuery.dfy` | the filtered incident list: numbered placeholders and pages |

Every protocol is a state machine whose steps are the single calls to a database, a broker or a queue. A
call can fail, or take effect with its answer lost; a worker can stop between any two steps. The classes
follow the program statement by statement, their methods are specified by functions of the state before,
and lemmas show that each operation is a run of the steps. So whatever is proved of every run holds for the
operations. What an operation computes is stated in the end without these functions: p-values in arithmetic,
verdicts from the text of a condition, fetched batches and pages by what is in them, incidents and notices by
the history of operations.

## What the proofs found

* The Kolmogorov-Smirnov statistic is not the largest distance of the two distribution functions. The loop
  reads both functions one rank late, which is off by up to the difference of the steps 1/n and 1/m, and
  more when values repeat unevenly. Windows that do not overlap get 1 - 1/m instead of 1. Two constant
  windows with the same value get 1 - min/max of their sizes instead of 0, so the documented rule (60
  reference values, 30 current ones, level 0.05) fires on every constant stream once its window is full.
  With equal windows the statistic never exceeds the true one and is at most 1/n below it.
* The index agrees with a scan over the rules if and only if no rule strays: is filed under a key that is
  looked up, accepts the metric and is not meant for it. Threshold rules and windowed rules with a metric
  name never do. Script rules, which do not compare the metric name, can for agent ids that start with `*:`.
* The analyzer looks for the model of a forecast rule for any agent under `*__metric`, but the training
  service files it under `__metric`, and only the latter replaces colons. Such a rule never fires unless a
  model is trained by hand under the wildcard.
* README.md:327 says that the unique constraint on incidents includes the status, so that a resolved and an
  open incident can share a key. The constraint in schema.sql:14 does not; a new anomaly reopens the
  resolved incident. The model follows the schema.
* README.md:313 says that an escalated incident does not fall back. That holds for operations one after
  another, and for interleaved ones as long as no update is based on an outdated status. Otherwise an
  anomaly or a comment that read the incident earlier writes the earlier status back. A resolution is undone
  in the same way by an anomaly, a comment or an escalation that read the incident before it; and a comment
  that read one resolution can put its time and text back over a later one.
* An incident that was reopened keeps its resolution time.
* The consumers' queue can drop a message although a worker has made room in the meantime.
* The notifier's comment on delivery at least once (consumer.go:34) does not hold. Commits are cumulative, so
  a commit passes every earlier message that was dropped, failed or is still being handled, and a restart
  from it never sees that message again. Exactly when there is none of these are all earlier messages
  committed; with one failed message and no drop at all the promise is broken already.
* A batch whose storing succeeded without an answer is stored again, up to four times.
* The incident list orders by update time alone. Its pages can repeat one incident and omit another exactly
  if two incidents on different sides of a page boundary have the same update time; ties within a page do no
  harm.

## Model

| member | source | states |
|---|---|---|
| KsTest.SortFloats | services/analyzer/internal/core/ks.go:23-30 | sorts in place to the ascending permutation that is unique for the multiset of values |
| KsTest.KsTest | services/analyzer/internal/core/ks.go:17-67 | sorted copies, merge loop and clamp compute the specified p-value; the inputs are not changed |
| KsTest.PValueFormula | services/analyzer/internal/core/ks.go:57-66 | with E = exp(2 d^2 n m / (n + m)): a p-value below 1 is 2 / E, it is 1 if and only if E <= 2, and for a level of at most 1 it is below the level if and only if level times E exceeds 2 |
| KsTest.PValueOfSmallWindow | services/analyzer/internal/core/ks.go:18-21 | a window of fewer than two values has p-value 1 |
| KsTest.MergeLoop | services/analyzer/internal/core/ks.go:34-55 | the loop over two arrays computes the merge result of their contents |
| Ecdf.SortCorrect | services/analyzer/internal/core/ks.go:29-30 | the sorted form is ascending and a permutation |
| Ecdf.SortedUnique | services/analyzer/internal/core/ks.go:29-30 | two sorted sequences of the same values are equal |
| Ecdf.KsDistanceIsSupremum | services/analyzer/internal/core/ks.go:32-33 | the reference statistic is the supremum over all reals of the distance of the two empirical distribution functions, and is attained |
| KsMerge.Covers | services/analyzer/internal/core/ks.go:34-55 | at every point below both maxima the pair of counts lies on the path of the merge, whatever repeats there are |
| KsMerge.DistanceAtMost | services/analyzer/internal/core/ks.go:34-55 | the distance at any point is at most one step of the smaller window above the merge result |
| KsMerge.MergeAtMost | services/analyzer/internal/core/ks.go:34-55 | the merge result is at most k + 1 times the difference of the steps above the true distance, where k counts unevenly repeated copies |
| KsTest.StatisticNearDistance | services/analyzer/internal/core/ks.go:32-55 | two-sided error bound between the computed d and the true statistic for windows of any sizes with any repeats |
| KsTest.SameSizeBounds | services/analyzer/internal/core/ks.go:34-55 | windows of equal size n with any repeats: d <= D <= d + 1/n |
| KsTest.DistinctValuesBounds | services/analyzer/internal/core/ks.go:34-55 | windows without repeats inside: -abs(1/n - 1/m) <= D - d <= 1/min(n, m) |
| KsTest.DistinctValuesExact | services/analyzer/internal/core/ks.go:34-55 | without repeats, d is exactly the supremum of the distance with both functions read one rank late, below both maxima |
| KsTest.SameSizeExact | services/analyzer/internal/core/ks.go:34-55 | equal sizes, however values repeat: d is the true statistic if and only if the true distance is attained below both maxima |
| KsMerge.MergeReached | services/analyzer/internal/core/ks.go:34-55 | the merge result is the gap at one of the positions the merge goes through |
| KsMerge.ReachedBefore | services/analyzer/internal/core/ks.go:34-55 | with equal sizes, a position whose gap is the largest distance gives a point below both maxima with that distance |
| KsTest.SeparatedWindows | services/analyzer/internal/core/ks.go:34-55 | windows that do not overlap: the true distance is 1 and d stops short of it by 1/m |
| KsTest.ConstantWindows | services/analyzer/internal/core/ks.go:34-55 | constant windows of n and m equal values: true distance 0, but d = 1 - min/max; d is 0 if and only if n = m |
| KsTest.ConstantPValueExample | services/analyzer/internal/core/ks.go:57-59 | for 60 and 30 constant values the p-value is below 0.05 |
| KsTest.PValuePermutation | services/analyzer/internal/core/ks.go:23-66 | the p-value does not depend on the order of values in either window |
| KsTest.PValueSymmetric | services/analyzer/internal/core/ks.go:17-67 | exchanging the two windows does not change the p-value |
| KsTest.PValueRanksOnly | services/analyzer/internal/core/ks.go:17-67 | applying one strictly increasing function to both windows does not change the p-value |
| KsTest.SmirnovAntitone | services/analyzer/internal/core/ks.go:57-66 | for fixed sizes the p-value lies in [0, 1], does not grow with d, and is 1 at d = 0 |
| KsTest.PValueInUnitInterval | services/analyzer/internal/core/ks.go:57-66 | the p-value of any two windows lies in [0, 1] |
| KsTest.PValueOfPermutedWindow | services/analyzer/internal/core/ks.go:34-66 | two windows holding the same values have d = 0 and p-value 1 |
| Conditions.ParseConditionExact | services/analyzer/internal/core/rule.go:379-418 | the parser returns a comparison if and only if the expression is a written `value OP number` with that meaning, white space being free |
| Conditions.WrittenIsAccepted | services/analyzer/internal/core/rule.go:379-399 | every comparison written with any of the six operators, any white space and a literal without operator characters is parsed to exactly that comparison |
| Conditions.AcceptedIsWritten | services/analyzer/internal/core/rule.go:379-399 | whatever is accepted was written as such a comparison, given that number literals have no operator characters |
| Conditions.ParsedSays | services/analyzer/internal/core/rule.go:379-418 | an accepted condition holds of a value if and only if its text says so: the number written after the sign compares with the value as the sign reads |
| Conditions.SpelledIsParsed | services/analyzer/internal/core/rule.go:379-399 | each of the six signs, spelled in a condition with any white space, is parsed to its comparison |
| MlInference.AnomalyExactly | services/training/infer.py:92-125 | for any history, in plain arithmetic: a value is anomalous if and only if there are two values to forecast from and it lies further than z times the residual deviation from the corrected newest value; the seasonal part counts only once a whole period lies behind |
| MlInference.FiresIffCorrectionLarge | services/training/infer.py:92-125 | for a history of one period plus one ending in the tested value, the interval test fires if and only if the forecast correction exceeds the half-width |
| MlInference.CorrectionOfShifted | services/training/infer.py:105-118 | the correction does not change when all values are shifted |
| MlInference.CorrectionOfRepeated | services/training/infer.py:105-118 | the seasonal terms vanish when the value one period back repeats |
| Rules.Rule.Evaluate | services/analyzer/internal/core/rule.go:86-109 | one evaluation of a rule object leaves the window and gives the verdict of the specification, by rule type |
| Rules.Rule.EvaluateMl | services/analyzer/internal/core/rule.go:189-269 | appends to the bounded window, stays silent until it is full, then asks the service |
| Rules.Rule.EvaluateKs | services/analyzer/internal/core/rule.go:298-353 | appends to the bounded window and leaves the specified verdict; KsFiresIff says which |
| Rules.Feed | services/analyzer/internal/core/rule.go:189-353 | a rule object fed with a stream goes through the specified windows and verdicts |
| Rules.FactoryAccepts | services/analyzer/internal/core/rule.go:358-374 | a configuration gives a rule if and only if its condition, script or evaluator is there and reads; the rule keeps the configuration |
| Rules.WindowIsHistory | services/analyzer/internal/core/rule.go:207-315 | after any stream the window is the last values accepted, in order: period + 1 of them, or as many as both windows hold |
| Rules.VerdictFromHistory | services/analyzer/internal/core/rule.go:213-217 | no verdict before W accepted values; every later one depends on the last W accepted values only |
| Rules.ThresholdMeaning | services/analyzer/internal/core/rule.go:72-109 | a threshold rule fires exactly on metrics of its name and agent for which the written comparison holds |
| Rules.ThresholdFires | services/analyzer/internal/core/rule.go:72-109 | from the text of a condition to the anomaly: a threshold rule reports a metric of its name and agent if and only if its condition, as written, says so of the value; every field of the report is given |
| Rules.ThresholdBySign | services/analyzer/internal/core/rule.go:379-418 | sign by sign, with any white space and a literal that reads as t: the rule is accepted and fires if and only if the value compares with t as the sign says |
| Rules.KsFiresIff | services/analyzer/internal/core/rule.go:298-353 | which values are compared: the newest minWindowSize accepted values with the referenceWindow before them, once there are so many and each window has two; the rule fires on a metric in its scope if and only if their p-value is below the level, 0.05 if none is set |
| Rules.KsSilentOnPeriodicStream | services/analyzer/internal/core/rule.go:298-353 | windows of k whole periods each, at least 2 values: the rule never fires on a periodic stream |
| Rules.KsOnConstantStream | services/analyzer/internal/core/rule.go:298-353 | on a constant stream the rule fires, from the first full window on, if and only if the p-value fixed by its two sizes is below the level |
| Rules.DocumentedKsRuleFiresOnConstantStream | services/analyzer/internal/core/rule.go:298-353 | the documented configuration (60, 30, 0.05) fires on every constant stream once its window is full |
| Rules.MlFiresIff | services/analyzer/internal/core/rule.go:189-269 | rule and service composed: an anomaly if and only if the window is full and the correction computed from the newest, previous and period-old values exceeds the half-width |
| Rules.MlFiresExactly | services/analyzer/internal/core/rule.go:189-269 | the same in plain arithmetic over the accepted values, with the rule's scope |
| Rules.MlReport | services/analyzer/internal/core/rule.go:240-269 | the report names the metric, the rule and its severity and carries the forecast with its interval |
| Rules.MlSilentWithoutAnswer | services/analyzer/internal/core/rule.go:224-238 | a forecast rule whose service does not answer stays silent |
| Rules.ScriptFires | services/analyzer/internal/core/rule.go:130-157 | a script rule reports exactly the metrics of its agent for which the script triggers, with the script's message |
| Rules.MlShiftInvariant | services/analyzer/internal/core/rule.go:189-269 | shifting a whole stream by a constant changes no verdict |
| Rules.MlOnPeriodicStream | services/analyzer/internal/core/rule.go:189-269 | on streams with the rule's period only the trend terms decide, and constant streams never fire |
| ModelLookup.ModelFoundIff | services/analyzer/internal/core/rule.go:165-172 | the id a forecast rule asks for is the id its model is trained under if and only if the rule names an agent and its metric has no colon |
| ModelLookup.AnyAgentForecastRuleIsSilent | services/training/app.py:288-293 | a forecast rule for any agent never fires when the service knows only models trained for rules whose agents do not start with the wildcard |
| RuleEngine.BuildIndex | services/analyzer/internal/core/engine.go:30-51 | the index holds under every key exactly the positions of the rules filed there, in order, and no empty entry |
| RuleEngine.IndexGrows | services/analyzer/internal/core/engine.go:34-48 | filing one more rule keeps that correspondence |
| RuleEngine.RuleEngine.Evaluate | services/analyzer/internal/core/engine.go:72-107 | runs the rules of the metric's own key, then those of the wildcard key unless they are the same |
| RuleEngine.EngineAgreesWithScan | services/analyzer/internal/core/engine.go:72-107 | without a stray rule indexed evaluation is the linear scan: each matching rule moves once on its own window, no other rule moves or reports, own-agent reports come first, each group in registration order |
| RuleEngine.AgreesIff | services/analyzer/internal/core/engine.go:72-107 | index and scan agree in every environment and on all windows if and only if no rule strays: none is looked up, accepts the metric and is not meant for it |
| RuleEngine.NoStrayIfUnambiguous | services/analyzer/internal/core/rule.go:86-304 | threshold rules and windowed rules with a metric name never stray, and no rule does for agents that do not start with the wildcard and a colon |
| RuleEngine.EngineHitsAreScanHits | services/analyzer/internal/core/engine.go:72-107 | the reports are those of the scan over all rules, each as often |
| RuleEngine.EngineHitsAreStamped | services/analyzer/internal/core/engine.go:87-88 | every report carries the metric's agent, name and id and names a rule meant for it |
| RuleEngine.AmbiguousAgentMisfires | services/analyzer/internal/core/engine.go:80-84 | a family of stray rules: for an agent id starting with the wildcard and a colon, a script rule filed under a longer metric name runs |
| RuleEngine.RuleEngine.EvaluateBatch | services/analyzer/internal/core/engine.go:163-204 | below 500 metrics evaluation in turn, from 500 on chunks of 200 merged in some order |
| RuleEngine.Split | services/analyzer/internal/core/engine.go:186-198 | chunk c holds metrics 200c up to 200c + 199, as far as there are any |
| RuleEngine.StatelessRun | services/analyzer/internal/core/engine.go:172-177 | with rules without windows, evaluating in turn changes no window and collects what each metric triggers |
| RuleEngine.BatchAgreesWithSequence | services/analyzer/internal/core/engine.go:178-201 | with rules without windows, every merge order gives the same anomalies as evaluating in turn, each as often |
| RuleEngine.BatchFindsAll | services/analyzer/internal/core/engine.go:163-204 | with rules without windows, whatever EvaluateBatch may answer is what the metrics trigger one by one, each as often, and no window moves |
| RuleEngine.RunConcat | services/analyzer/internal/core/engine.go:172-177 | evaluating two streams one after the other is evaluating one, windows included |
| RuleEngine.RunStamps | services/analyzer/internal/core/engine.go:72-107 | whatever the rules, every report of a run names one of its metrics |
| EngineStreams.EngineMoves | services/analyzer/internal/core/engine.go:72-107 | one evaluation moves the window of a rule meant for the metric as the rule itself would, and leaves every other window |
| EngineStreams.StreamWindows | services/analyzer/internal/core/engine.go:72-107 | over any stream, rules that compare the metric name have in the engine the windows they would have alone |
| EngineStreams.EngineIsEachRuleAlone | services/analyzer/internal/core/engine.go:72-107 | and the engine reports, over any stream, exactly what each of them alone would report, with the metric's agent: so what is proved of single rules holds for rules run by the engine |
| Chunks.ChunksTile | services/analyzer/internal/core/engine.go:186-187 | chunks merged in their own order give the sequential result |
| Chunks.BlocksPermutation | services/analyzer/internal/core/engine.go:195-197 | any merge order of contiguous chunk results yields the same multiset |
| AnalyzerProtocol.StepKeepsInv | services/analyzer/internal/core/service.go:92-164 | every step of any analyzer keeps: polls work on rows of the table, and what a poll has written is in the log |
| AnalyzerProtocol.MarkingIsJustified | services/analyzer/internal/core/service.go:128-163 | in every run and for any rules, a row is marked only by a poll that found it normal, or that found an anomaly for it and has itself, since its fetch, published every anomaly it found |
| AnalyzerProtocol.RunInPoll | services/analyzer/internal/core/service.go:92-164 | in every run the phase of an analyzer belongs to its latest fetch, and what is no longer to be written was written since |
| AnalyzerProtocol.NoMarkedMetricUnreported | services/analyzer/internal/core/service.go:92-164 | any number of analyzers, any failures, lost answers, partial publishes and crashes: everything a marked metric triggers is in the log, and the log holds nothing made up |
| AnalyzerService.AnalyzerService.FetchUnanalyzed | services/analyzer/internal/adapter/storage/postgres/reader.go:40-76 | unanalyzed metrics that are not locked, as many as there are up to the limit, ordered by time, and none left out that is older than one taken |
| AnalyzerService.BatchIsFetch | services/analyzer/internal/adapter/storage/postgres/reader.go:40-76 | the batch of every poll is such a fetch |
| AnalyzerService.UnanalyzedOrdered | services/analyzer/internal/adapter/storage/postgres/reader.go:41-48 | what is fetched is ordered by time |
| AnalyzerService.UnanalyzedMembers | services/analyzer/internal/adapter/storage/postgres/reader.go:41-48 | what may be fetched are exactly the unanalyzed rows that are not locked |
| AnalyzerService.AnalyzerService.MarkAnalyzed | services/analyzer/internal/adapter/storage/postgres/reader.go:79-96 | marks exactly the rows with the ids and answers how many there were |
| AnalyzerService.AnalyzerService.SplitIds | services/analyzer/internal/core/service.go:107-119 | the batch's ids split by whether an anomaly names them, in batch order |
| AnalyzerService.AnalyzerService.ProcessMetrics | services/analyzer/internal/core/service.go:92-164 | one poll with every early return: the rule engine evaluates the batch on its windows, and table and log are left as specified for what it finds |
| AnalyzerService.AnalyzerService.MarkAndPublish | services/analyzer/internal/core/service.go:107-163 | the part of a poll after the evaluation, with every early return; a mark that fails or counts other rows publishes nothing |
| AnalyzerService.PollIsRun | services/analyzer/internal/core/service.go:92-164 | every poll, whatever fails in it, is a run of protocol steps |
| AnalyzerSafety.BatchIsFaithful | services/analyzer/internal/core/service.go:104-105 | whatever the engine may answer for a batch, with rules without windows it is exactly what its metrics trigger |
| AnalyzerSafety.EngineStepsFaithful | services/analyzer/internal/core/service.go:104-105 | analyzers that evaluate what they fetch with the engine meet the assumption of NoMarkedMetricUnreported |
| AnalyzerSafety.MarkedMetricsAreLogged | services/analyzer/internal/core/service.go:90-164 | with rules without windows, every run of any number of engines with any failures: what the engine reports for a marked metric is in the log, and nothing else is |
| AnalyzerSafety.EngineStamps | services/analyzer/internal/core/engine.go:72-107 | every anomaly names the metric it was found in |
| AnalyzerSafety.MarkedThresholdsAreLogged | services/analyzer/internal/core/service.go:90-164 | with threshold rules evaluated by the engine, a metric marked analyzed has in the log, field by field, the anomaly of every rule of its name and agent whose condition, as written, says so of its value |
| AnalyzerDrain.JudgedPollSucceeds | services/analyzer/internal/core/service.go:128-163 | an undisturbed poll passes both row-count checks, publishes everything and marks the whole batch |
| AnalyzerDrain.PollOutcome | services/analyzer/internal/core/service.go:107-163 | a poll with any faults, row by row: normal rows of the batch are marked unless that statement is not applied; anomalies are published if and only if there are any and the marks were answered or not needed; the other rows are marked only after everything was published |
| AnalyzerDrain.PollTakesBatch | services/analyzer/internal/core/service.go:92-164 | whatever the rules find in it, an undisturbed poll takes exactly the first batch off the backlog |
| AnalyzerDrain.PollsTakeBatches | services/analyzer/internal/core/service.go:92-164 | k undisturbed polls, each with findings of its own, mark the first k batches and no other rows, and publish the findings in order |
| AnalyzerDrain.DrainedIff | services/analyzer/internal/core/service.go:92-164 | for any rules, the backlog is empty after k polls if and only if k times the batch size reaches its length |
| AnalyzerDrain.DrainIsOnePass | services/analyzer/internal/core/service.go:92-164 | for any rules, windows carried from poll to poll: k polls mark, publish and leave in the windows what one pass of the engine over the first k batches would, oldest metric first |
| AnalyzerDrain.DrainPublishesOnce | services/analyzer/internal/core/service.go:142-163 | with rules without windows, evaluated by the engine in turn or in parallel, draining publishes everything the backlog triggers exactly once |
| IncidentStore.UpdateKeepsTable | services/notifier/internal/adapter/storage/postgres/repository.go:68-88 | an update of a row keeps the table's constraints |
| IncidentStore.InsertBothKeepsTable | services/notifier/internal/adapter/storage/postgres/repository.go:207-269 | committing an incident with its first event keeps the table's constraints |
| IncidentStore.DeleteKeepsTable | services/notifier/internal/adapter/storage/postgres/schema.sql:19-32 | a deletion with its cascade leaves no event or comment behind and no incident without an event |
| IncidentStore.DeleteRemoves | services/notifier/internal/adapter/storage/postgres/schema.sql:19-32 | a deletion takes the incident with all its events and comments, and leaves every other incident with its own |
| IncidentStore.LookupFinds | services/notifier/internal/adapter/storage/postgres/repository.go:102-112 | under the unique constraint a lookup by key finds the row of that key and no other |
| IncidentProtocol.StepKeepsInv | services/notifier/internal/core/service.go:42-230 | every step of any worker keeps the table's constraints, the reservations of open transactions, and the fit between a pending change and the status it was read from |
| IncidentProtocol.RunKeepsInv | services/notifier/internal/core/service.go:42-230 | so does every run |
| IncidentRaces.TableSurvivesRaces | services/notifier/internal/adapter/storage/postgres/schema.sql:3-32 | in every interleaving with any failures: one incident per key, no incident without an event, RESOLVED implies a resolution time, no orphaned event or comment |
| IncidentRaces.IdentityNeverChanges | services/notifier/internal/adapter/storage/postgres/repository.go:68-88 | rule, service, metric, severity and creation time of an id are the same in all later states of every run |
| IncidentRaces.CreatedOnce | services/notifier/internal/core/service.go:129-130 | in every run an incident is announced as created at most once |
| IncidentRaces.AnnouncedWasTrue | services/notifier/internal/core/service.go:129-165 | in every run whatever is announced was true before: the created incident was committed, the escalated one was stored as escalated |
| IncidentRaces.EscalationKeptIff | services/notifier/internal/core/service.go:49-63 | an update of an escalated incident keeps it escalated if and only if it is an escalation, or no resolution and based on a read that saw it escalated |
| IncidentRaces.EscalationSticks | services/notifier/internal/core/service.go:42-230 | in every run in which no update is based on an outdated status, an escalated incident stays escalated until it is resolved or deleted |
| IncidentRaces.EscalationLost | services/notifier/internal/core/service.go:44-63 | from every reachable open or updated incident, an anomaly read before an escalation and written after it undoes the announced escalation |
| IncidentRaces.ResolutionLost | services/notifier/internal/core/service.go:219-227 | a comment's refresh based on an earlier read undoes a resolution and erases its time and text |
| IncidentRaces.ResolutionKeptIff | services/notifier/internal/core/service.go:49-63 | an update of a resolved incident keeps it resolved if and only if it is a resolution, or a comment's refresh based on a read that saw it resolved |
| IncidentRaces.ResolutionSticks | services/notifier/internal/core/service.go:42-230 | in every run in which no update is based on an outdated status, a resolved incident stays resolved until an anomaly or a deletion |
| IncidentRaces.ResolutionTextSticks | services/notifier/internal/core/service.go:42-230 | if moreover no comment's refresh is based on an outdated resolution, its time and text stay |
| IncidentRaces.ResolutionTextLost | services/notifier/internal/core/service.go:219-227 | the status alone does not protect them: after reopening and resolving again, a pending comment puts the old time and text back |
| NotifierService.Repository.FindByDedupKey | services/notifier/internal/adapter/storage/postgres/repository.go:102-112 | finds the incident of the key, or reports that there is none |
| NotifierService.Repository.Update | services/notifier/internal/adapter/storage/postgres/repository.go:68-88 | writes the four mutable columns; a missing row is reported |
| NotifierService.Repository.Commit | services/notifier/internal/adapter/storage/postgres/repository.go:28-42 | makes the transaction's rows visible all at once |
| NotifierService.NotifierService.HandleAnomaly | services/notifier/internal/core/service.go:42-133 | with any faults: handled if and only if every call that its branch makes is answered; then the event is appended with its dates, the answer is the row that now stands, and a first anomaly alone is announced; a failure is a storage error without notice; the table's constraints are kept |
| NotifierService.NotifierService.Escalate | services/notifier/internal/core/service.go:142-168 | with any faults: not found if and only if there is no row, refused if and only if the row read is resolved; on success the row stands escalated as answered and nothing else changes; the notice is sent if and only if the call succeeds |
| NotifierService.NotifierService.Resolve | services/notifier/internal/core/service.go:173-199 | the same for a resolution, with its time and text, and no notice |
| NotifierService.NotifierService.AddComment | services/notifier/internal/core/service.go:203-230 | a comment succeeds if and only if the incident is read and the comment stored; its refresh may fail without failing the comment and changes the update time only |
| NotifierService.NotifierService.Delete | services/notifier/internal/core/service.go:136-138 | the row goes unless the call is not applied; DeleteRemoves says what goes with it |
| NotifierRuns.AnomalyIsRun | services/notifier/internal/core/service.go:42-133 | handling an anomaly, with any faults, is a run of one worker's steps |
| NotifierRuns.EscalateIsRun | services/notifier/internal/core/service.go:142-168 | so is an escalation |
| NotifierRuns.ResolveIsRun | services/notifier/internal/core/service.go:173-199 | so is a resolution |
| NotifierRuns.CommentIsRun | services/notifier/internal/core/service.go:203-230 | so is a comment |
| NotifierRuns.DeleteIsRun | services/notifier/internal/core/service.go:136-138 | so is a deletion |
| IncidentLifecycle.IncidentOfKey | services/notifier/internal/core/service.go:35-276 | after any history: the first anomaly of a key fixes id, severity and creation time; status, update time and resolution are what the history says; the k-th event is the k-th anomaly of the key, recorded when it arrived and dated as it says, or then if it does not; the k-th comment is the k-th remark with its text and time; creation is announced once, escalation once for every escalation that found it unresolved; no second incident has the key |
| IncidentLifecycle.HistoryTold | services/notifier/internal/core/service.go:35-230 | the same for all incidents of a history at once, with nothing else in the tables |
| IncidentHistory.StatusNext | services/notifier/internal/core/service.go:49-55 | the status told by a history follows the transitions of the lifecycle |
| IncidentLifecycle.IncidentsAreKeys | services/notifier/internal/core/service.go:42-133 | incidents exist for exactly the keys that had an anomaly, one each |
| IncidentLifecycle.RedeliveryKeepsKeys | services/notifier/internal/core/service.go:42-133 | histories with the same payloads delivered, in any order and number, have incidents for the same keys |
| IncidentLifecycle.IdIsStable | services/notifier/internal/core/service.go:49-83 | an incident keeps id and identity through every continuation, resolved and reopened as often as may be |
| IncidentLifecycle.EscalatedUntilResolved | README.md:308-325 | an escalated incident stays escalated through anomalies, comments and escalations until a resolution |
| IncidentLifecycle.ReopenedStaysDated | services/notifier/internal/core/service.go:51-63 | a resolution time does not imply RESOLVED: reopening keeps it recorded |
| AnomalyConsumer.Consumer.Process | services/notifier/internal/adapter/broker/consumer.go:200-228 | a message is committed if and only if it cannot be decoded or was handled without error |
| AnomalyConsumer.HandledIsRecorded | services/notifier/internal/adapter/broker/consumer.go:29-34 | what is committed is recorded as the newest event of its incident; a failure that was recorded all the same lost its answer |
| JobQueue.QueueNeverBlocks | services/ingestion/internal/adapter/broker/kafka.go:141-151 | any interleaving: the queue stays within capacity and holds consecutive messages in fetch order, the send after the drop finds room, and fetched = queued + in hand + in flight + dropped + finished |
| JobQueue.OneDropPerFetch | services/ingestion/internal/adapter/broker/kafka.go:143-150 | a fetch drops at most one message |
| JobQueue.DropWithinReach | services/ingestion/internal/adapter/broker/kafka.go:143-150 | a dropped message had waited longest and is at most a queue's length behind the one it is dropped for |
| JobQueue.CommittedWasProcessed | services/ingestion/internal/adapter/broker/kafka.go:191-197 | a committed message was taken and processed exactly once; a dropped one is never committed |
| JobQueue.AtLeastOnceIff | services/notifier/internal/adapter/broker/consumer.go:29-34 | every run: all messages below a committed one are committed if and only if none of them was dropped, none is still being handled and the handling of none failed |
| JobQueue.CommitPassesDropped | services/notifier/internal/adapter/broker/consumer.go:34-34 | for every capacity a run in which a dropped message is passed by a committed one |
| JobQueue.CommitPassesFailed | services/notifier/internal/adapter/broker/consumer.go:34-34 | for every capacity a run without drops in which a message whose handling failed is passed |
| JobQueue.CommitPassesInFlight | services/notifier/internal/adapter/broker/consumer.go:34-34 | for every capacity a run without drops and failures in which a message still being handled is passed |
| JobQueue.DropWasNeededIff | services/notifier/internal/adapter/broker/consumer.go:149-155 | after a failed attempt to send and any steps of workers, the drop was needed if and only if none of them took a message |
| JobQueue.Jobs.Enqueue | services/notifier/internal/adapter/broker/consumer.go:147-156 | without interference the queue holds the newest messages in order |
| JobQueue.EnqueueIsRun | services/notifier/internal/adapter/broker/consumer.go:147-156 | the producer's steps without interference leave that queue |
| Ingestion.ValidationExact | services/ingestion/internal/core/model.go:41-60 | a batch is accepted if and only if it has an agent, is not empty and all metrics have a name, a time and a finite value; each error is answered if and only if its check is the first that fails, of the first metric that fails one |
| Ingestion.IngestionService.HandleBatch | services/ingestion/internal/core/service.go:26-40 | only acceptable batches reach the storage |
| Ingestion.KafkaConsumer.Process | services/ingestion/internal/adapter/broker/kafka.go:206-269 | the retry loop makes the specified attempts, additions and commit |
| Ingestion.ProcessGuarantees | services/ingestion/internal/adapter/broker/kafka.go:236-268 | at most four attempts, all four unless the message is malformed, unacceptable or acknowledged, and only the last acknowledged; an acceptable batch is stored once for every applied attempt, dated with it, and nothing else; commit if and only if malformed, unacceptable or acknowledged, and then stored |
| Ingestion.StoredTwiceIff | services/ingestion/internal/adapter/broker/kafka.go:236-261 | a call stores its batch more than once if and only if the batch is acceptable and an attempt with a lost answer is followed by one that is applied |
| Ingestion.StoredOnceIff | services/ingestion/internal/adapter/broker/kafka.go:236-261 | an acceptable batch is stored exactly once if and only if exactly one of its attempts has an effect, and not at all if and only if none of four has |
| Ingestion.RunGuarantees | services/ingestion/internal/adapter/broker/kafka.go:191-269 | over every run: what is stored is acceptable and was received; an offset is committed if and only if some call commits it; a committed acceptable batch is stored |
| InsertStatement.BuildInsert | services/ingestion/internal/adapter/db/postgres/storage.go:55-75 | the statement holds the rows of the encodable metrics: group r numbers arguments 6r + 1 to 6r + 6, which are the columns of row r in the order of the statement |
| InsertStatement.RowsOfParts | services/ingestion/internal/adapter/db/postgres/storage.go:57-68 | a metric anywhere in a batch has its row there, unless its labels cannot be encoded |
| InsertStatement.NothingSkipped | services/ingestion/internal/adapter/db/postgres/storage.go:57-68 | if all labels can be encoded every metric has its row, in order |
| ModelNames.SanitizeAt | services/training/core/naming.py:13-15 | keeps the length, replaces exactly the unsafe characters |
| ModelNames.SanitizeFixpoint | services/training/core/naming.py:13-15 | is idempotent, and changes a name if and only if it has an unsafe character |
| ModelNames.FirstPartFound | services/training/core/naming.py:41-41 | a part in front of a separator is split off whole if and only if it holds no separator and does not end in an underscore |
| ModelNames.ParseExact | services/training/core/naming.py:34-50 | a name parses to four parts if and only if it is these joined by double underscores, none holds a separator and none but the last ends in an underscore |
| ModelNames.RoundTripIff | services/training/core/naming.py:18-50 | a built name parses back if and only if no part holds a separator and none but the version ends in an underscore |
| ModelNames.NamesDistinct | services/training/core/naming.py:30-31 | different clean parts have different names |
| IncidentQuery.BuildQuery | services/notifier/internal/adapter/storage/postgres/repository.go:139-187 | the loops over the filters build the specified clauses and arguments; page size and offset follow, a page below 1 counting as 1 and a size below 1 as 20 |
| IncidentQuery.PlaceholdersNameArguments | services/notifier/internal/adapter/storage/postgres/repository.go:149-187 | the placeholders in text order are 1, 2, ... up to the number of arguments; the last two name page size and offset |
| IncidentQuery.ClausesMeanFilters | services/notifier/internal/adapter/storage/postgres/repository.go:153-170 | read with its arguments, the condition holds of a row if and only if it passes both filters, an empty filter passing everything |
| IncidentQuery.SelectsFiltered | services/notifier/internal/adapter/storage/postgres/repository.go:149-187 | count query and page query select every incident that passes both filters, as often as it is stored, and no other |
| IncidentQuery.AnswerIsPage | services/notifier/internal/adapter/storage/postgres/repository.go:140-203 | a list call answers the page asked for, of an arrangement with the newest first of exactly the filtered incidents, and their number; and any such page may be answered |
| IncidentQuery.PageRows | services/notifier/internal/adapter/storage/postgres/repository.go:146-186 | row i of page p of size s is row (p - 1) s + i of the arrangement, as far as there are any |
| IncidentQuery.PagesOfOneListing | services/notifier/internal/adapter/storage/postgres/repository.go:140-203 | pages 1 to ceil(total/size) of one arrangement are that arrangement, without gap or overlap, and none is empty |
| IncidentQuery.PagesCoverListing | services/notifier/internal/adapter/storage/postgres/repository.go:180-187 | without equal update times, the answers to the calls for pages 1 to ceil(total/size) in a row are the filtered listing, whatever arrangement each was cut from; none is empty and each gives that number of pages |
| IncidentQuery.PagesTrustedIff | services/notifier/internal/adapter/storage/postgres/repository.go:180-187 | for every page size: all answers to those calls show every filtered row once, whatever arrangements they are cut from, if and only if no two rows on different sides of a page boundary have equal update times |
| IncidentQuery.TieAcrossPagesMisleads | services/notifier/internal/adapter/storage/postgres/repository.go:180-187 | for every tie across a page boundary, answers that mislead the reader |
| IncidentQuery.TiedPagesRepeat | services/notifier/internal/adapter/storage/postgres/repository.go:180-187 | the smallest case: one incident is shown twice and the other never |

## Left out

- Kafka, PostgreSQL and HTTP clients, templates, environment, logging and metrics: a table is a map or a
  sequence with the schema's constraints, a topic is a log, clocks and generated identifiers are parameters.
- Rules.Rule.Evaluate: does not model the wording of Kolmogorov-Smirnov conditions and messages and of
  forecast messages, because the formatted numbers carry no logic.
- Rules.RuleFactory: does not model unknown rule types and rules without an evaluator, which the loader and
  the wiring exclude, and takes window sizes as the loader demands them, positive.
- KsTest.KsTest: works on real numbers, so rounding, NaN and infinities are not modelled; ingestion rejects
  values that are not finite. The exponential is any function with the laws of the exponential.
- MlInference.FiresIffCorrectionLarge: takes the normal quantile as a parameter, because the Newton
  iteration and the error function are library numerics. Fitting of models is not part of this model.
- Script rules are a parameter that maps a script and a metric to a verdict; the interpreter is not modelled.
- RuleEngine.BatchAgreesWithSequence: is for rules without windows, because several goroutines append to the
  same window in a parallel batch and the sequential result is not promised there.
- AnalyzerProtocol.NoMarkedMetricUnreported: does not cover the HTTP debug path, which evaluates metrics and
  marks ids that its request names without a poll.
- AnalyzerService.AnalyzerService.Produce: does not model the order of messages within the topic's
  partitions; a successful publish appends in batch order.
- AnalyzerService.AnalyzerService.ProcessMetrics: takes rules with windows for batches below 500 only,
  because larger ones are evaluated by several goroutines at once.
- AnalyzerService.AnalyzerService.FetchUnanalyzed: takes rows of equal time in table order; the statement
  leaves their order open.
- AnalyzerDrain.DrainIsOnePass: is for batches evaluated in turn; parallel ones are covered by
  AnalyzerDrain.DrainPublishesOnce and, whatever they find, by AnalyzerDrain.DrainedIff.
- AnalyzerDrain.DrainedIff: is for one analyzer that nothing disturbs, as the promise is.
- Metric labels and types are carried by ingestion only, since no rule reads them.
- IncidentStore.UpdateKeepsTable: does not model the columns' widths, which only make an insert fail, nor the
  latest value, forecast and interval, which the update statement does not store.
- IncidentProtocol.RunKeepsInv: takes generated identifiers as never repeated within a run.
- IncidentLifecycle.IncidentOfKey: is for operations one after another, without failures and deletions; with
  them IncidentRaces.TableSurvivesRaces applies. All clock readings of one operation are one value.
- JobQueue.AtLeastOnceIff: takes offsets as those of one partition, in the order of fetching.
- JobQueue.QueueNeverBlocks: is about the time before shutdown; closing the channel, timeouts and backoff
  are timing, not logic. Messages of several partitions are numbered as one stream.
- Ingestion.KafkaConsumer.Process: does not model that a batch none of whose labels can be encoded counts as
  stored without a row, because labels are maps of strings and encoding them does not fail.
- Ingestion.RunGuarantees: takes the calls of several workers one after another; they share nothing but a
  storage and a commit log that both only grow.
- IncidentQuery.BuildQuery: models the statement's clauses and placeholders, not the characters of its text.
- Agents, the signal generator, migrations, the incident web pages and the training jobs hold no further
  logic of this kind.
