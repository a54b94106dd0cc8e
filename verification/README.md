# Verified model of the Ferric evidence pipeline

Ferric's benchmark decides, from what its child processes leave behind, whether
a run counts, what it measured and what may be published from it. This project
models that pipeline in Dafny and proves what its verdicts mean.

* **Corpus, episodes and traces** (`Corpus`, `CommandChecks`, `Traces`,
  `Episode`, `EpisodeContract`, `EpisodeTraces`, `EpisodeEvidence`, `EpisodeRows`,
  `EvidenceRows`, `RetainedNames`). A validated
  task drives a loop of child segments with injections, resume links, answers
  and refusal probes; every child's trace is folded into an analysis. Child
  processes, graders, the trace grammar and the file system are part of a
  `Setting`, so every statement holds for whatever they do. The contract verdict
  is characterised by an if-and-only-if, read off the children's own trace lines;
  every other field of a recorded row, passed or not, is told by what happened;
  and the recorded row is compared with the independently written persisted-row
  reader.
* **Paired-run summary** (`PairedSummary`, `Provenance`, `PairedRuns`,
  `PairedObjective`, `Schedule`, `ScheduledRuns`). Rows are grouped into control/candidate pairs,
  which are admitted exactly when they ran under equal circumstances; counting arguments show what "complete and clean" implies and that the paired
  statistics agree with the arms' own rates, and a schedule whose every episode
  leaves its row is shown to meet the summary's clauses of completeness.
* **Ladder, calibration and profiles** (`Ladder`, `Statistics`, `Calibration`,
  `BudgetControls`, `ProfileStore`). Complete-matrix counting, the least
  sufficient number of passes, sticky diagnostics, and a stored list that behaves
  like a map over every history of calls.
* **No-clobber retention** (`AttemptNames`, `Retention`, `RetentionSafety`,
  `RetentionProgress`, `ResultsDirectory`). Any number of retainers take steps in
  any order over one file map, break off anywhere and are intruded upon by
  foreign processes that create files. Copying and writing go in chunks of any
  size at a handle's offset, and each read of the final verification is a step
  of its own.
* **Brief, framing and setup** (`BriefRules`, `BriefScan`, `BriefTraversal`,
  `BriefCounts`, `BriefRender`, `Framing`, `Setup`). An early-stopping scan refines an unbounded
  sorted traversal, bounded rendering has exact flags, framing is uniquely
  decodable, and the setup collision check is compared with what the file system
  does.

`Wrappers`, `Machine`, `Text`, `Ordering`, `Counting` and `Selecting` hold the
shared vocabulary. `dafny verify dfyconfig.toml` checks the whole project.

Conventions: counters are naturals with `u32` saturation and truncation written
out (`Machine`); `f64` rates are exact reals; SHA-256, the JSON codec, the trace
grammar, path canonicalisation, timeout resolution and the managed-server check
are function parameters about which nothing is assumed.

Where the code does not do what its documentation or its other half promises, the
model follows the code and the exact condition is proved:

* A child that was killed after writing its session end, or whose session end is
  the empty string, is recorded without an infrastructure error but rejected by
  the strict reader (`EpisodeEvidence.UnsoundEndingRejected`,
  `UnsoundEndingsExist`; `RecordedRowsAreStrict` is the exact condition).
* The setup collision check compares slash-separated components literally, so two
  spellings of one file pass (`Setup.EmptyComponentEscapes`). It is never too
  strict (`Setup.CheckNeverTooStrict`), the condition that decides for every map
  is `Setup.WrittenInFullExactly`, and for plain components it is the check itself
  (`Setup.CheckMeetsWorkspace`).
* The brief of a workspace with unreadable places is not always refused, although
  its documentation speaks of an error for any unreadable workspace
  (`BriefTraversal.UnreadableWorkspaceScanned`). It is refused exactly when a
  visible path leads to such a place with at most `max_files` visible files before
  it (`BriefTraversal.ScanWorkspace`, `FailsAtObstacle`).

* The order in which a pair runs is computed from trial, task and variant, but the
  variant has no influence on it: the byte sums of all variant labels are odd
  (`Schedule.VariantNeverMatters`).

## Model

| member | source | states |
|---|---|---|
| `Corpus.ScanStops` | crates/ferric-bench/src/autonomy.rs:469-547 | the loop over the injections accepts exactly the lists that hit distinct non-final segments with the outcome each kind forces, and reports whether any asks for input |
| `Corpus.CountingMeansCovering` | crates/ferric-bench/src/autonomy.rs:469-547 | pigeonhole: distinct in-range injections reach every non-final segment exactly when there are `max_segments - 1` of them, which is all the validator counts |
| `Corpus.ValidateRecoveryTask` | crates/ferric-bench/src/autonomy.rs:446-571 | the sequence of checks accepts exactly the declaratively sound recovery contracts, error paths included |
| `Corpus.InjectionFixesOutcome` | crates/ferric-bench/src/autonomy.rs:469-547 | in a valid task the first injection found for a non-final segment fixes its outcome; the final segment has none and must complete |
| `CommandChecks.VerifyCommandChecks` | crates/ferric-bench/src/verify.rs:307-340 | the early-breaking loop yields the results up to and including the first check that does not pass |
| `CommandChecks.PassingMeansEveryCheckRan` | crates/ferric-bench/src/verify.rs:307-340 | recorded results all pass exactly when every configured check ran and passed; no verdict rests on a prefix |
| `Traces.Scan` | crates/ferric-cli/src/autonomy_cmd.rs:2134-2385 | the one-pass scan accepts exactly the line sequences each of whose lines is acceptable in its place, and has then folded all events |
| `Traces.Analyze` | crates/ferric-cli/src/autonomy_cmd.rs:2134-2385 | acceptance is equivalent to contiguous sequence numbers, one session, one session start at 0 in the requested workspace and one policy at 1 as requested; the analysis reports the declarative reading: the last session end, questions and resume prompts by position, each tool call with the turn it fell in, an open request is not a turn, mutation before question exactly when some mutation precedes some question; the turn counter saturates and the gate counter wraps at 32 bits |
| `Traces.FoldDescribes` | crates/ferric-cli/src/autonomy_cmd.rs:2096-2113 | the running tally, with its open-turn tail, says of every event sequence what quantifiers over positions say |
| `Traces.ReportsRead` | crates/ferric-cli/src/autonomy_cmd.rs:2096-2113 | what the tally reports is what positions and cardinalities over the events say, list by list and counter by counter |
| `Traces.AcceptedMeansWellFormed` | crates/ferric-cli/src/autonomy_cmd.rs:2134-2385 | line-by-line acceptance with running flags is the same as the global well-formedness of a trace |
| `Traces.OpenRequestStarted` | crates/ferric-cli/src/autonomy_cmd.rs:2096-2113 | the turn that is subtracted for an open request was counted |
| `Episode.RunSegments` | crates/ferric-cli/src/autonomy_cmd.rs:734-945 | the segment loop, left at the first segment that goes wrong, computes the folded segment steps |
| `EpisodeRows.RunEpisode` | crates/ferric-cli/src/autonomy_cmd.rs:667-1169 | the runner's contract verdict is positive exactly when the whole run was as the frozen task demands, such a run is always recorded unless start-up or clean-up fails, and every recorded row says what `RowMeans` states |
| `EpisodeContract.RunIsClean` | crates/ferric-cli/src/autonomy_cmd.rs:734-945 | while every segment is good the loop state is determined by the segments: all analysed, matched, linked and answered |
| `EpisodeContract.RunIsSpoiled` | crates/ferric-cli/src/autonomy_cmd.rs:734-945 | one bad segment leaves a mark no later step removes |
| `EpisodeContract.ContractPassedExactly` | crates/ferric-cli/src/autonomy_cmd.rs:734-1083 | the recorded contract verdict is positive if and only if the whole run was as the frozen task demands, and such a run is always recorded |
| `EpisodeContract.RecoveryContractMeans` | crates/ferric-cli/src/autonomy_cmd.rs:734-1083 | for every valid recovery task under a resumable variant a passed contract means all `max_segments` segments ran as injected, each linked to the session before, resumes equal `max_segments - 1`, each requested refusal was probed exactly once and rejected, every check ran and passed, and recovery succeeded |
| `EpisodeContract.PassingRecoveryExists` | crates/ferric-cli/src/autonomy_cmd.rs:734-1083 | such runs exist: an injected provider failure, both refusals probed, a resumed second segment and a passed contract |
| `EpisodeRows.RowMeans` | crates/ferric-cli/src/autonomy_cmd.rs:734-1083 | every recorded row, passed or not: the segments are those up to the first after which the run could not go on; the objective was completed exactly when the episode had to complete, nothing timed out, the last segment ended complete with exit code 0 and a passed gate, and every configured check ran and passed; and likewise, in both directions, clarification expected, observed, correct and unnecessary, resumes expected and observed, refusal probes, recovery and infrastructure error |
| `EpisodeRows.MatchesExactly` | crates/ferric-cli/src/autonomy_cmd.rs:2474-2505 | which exit codes and stop reasons meet which expected terminal; a pause is one of ten named reasons with a failing exit code |
| `EpisodeRows.InjectedMatchesExactly` | crates/ferric-cli/src/autonomy_cmd.rs:2497-2499 | an injected segment matches only with the very stop its injection produces |
| `EpisodeRows.CurrentRunsOnce` | crates/ferric-cli/src/autonomy_cmd.rs:667-945 | in the plain variant an episode is one segment with the plain terminal, never resumed and never probed |
| `EpisodeRows.ResumableRunsInTurn` | crates/ferric-cli/src/autonomy_cmd.rs:734-945 | in a resumable variant segments expect the resumable terminals in turn, and only refusals the contract requests are probed, each once |
| `EpisodeTraces.CaptureTrace` | crates/ferric-cli/src/autonomy_cmd.rs:734-815 | the retained analysis of a segment is the analyser's verdict on that segment's own lines and request, whose turn budget depends on the injection |
| `EpisodeTraces.PassedContractReadsTraces` | crates/ferric-cli/src/autonomy_cmd.rs:734-1083 | a passed contract means every segment's lines are a well-formed trace for its own request, each later one resumes the session the one before wrote, each ended as expected, and a completing run shows a passed completion gate |
| `EpisodeEvidence.AnswerAlwaysAvailable` | crates/ferric-cli/src/autonomy_cmd.rs:913-936 | in a valid task a matched non-final segment that needs input always finds a non-blank frozen answer |
| `EpisodeEvidence.TracePathValid` | crates/ferric-cli/src/autonomy_cmd.rs:2516-2530 | every retained trace name meets the persisted-row path rule |
| `RetainedNames.RetainedNamesDistinct` | crates/ferric-cli/src/autonomy_cmd.rs:2516-2530 | two retained traces share a name only if they are the same segment of the same trial, task, variant and coordinate |
| `EpisodeEvidence.RunRecords` | crates/ferric-cli/src/autonomy_cmd.rs:734-945 | after any number of segments the recorded segments are numbered, retained and validated, and only the last may have timed out |
| `EpisodeEvidence.RecordedRowsAreStrict` | crates/ferric-bench/src/autonomy_results.rs:1520-1558 | a row without infrastructure error satisfies the strict reader exactly when no timed-out segment carries a terminal and no terminal is empty; a timeout is always last, ungraded and claims nothing |
| `EpisodeEvidence.UnsoundEndingRejected` | crates/ferric-bench/src/autonomy_results.rs:1536-1540 | in every variant and after any number of good segments, a child captured without issue whose session end is late or empty yields a row without infrastructure error that the strict reader rejects |
| `EpisodeEvidence.UnsoundEndingsExist` | crates/ferric-cli/src/autonomy_cmd.rs:761-1026 | both kinds of such episodes exist for valid tasks with plain names |
| `EvidenceRows.StrictEvidenceValid` | crates/ferric-bench/src/autonomy_results.rs:1520-1558 | the one-pass loop with its timeout flag decides the declarative reading of strict evidence |
| `EvidenceRows.TracePathExactly` | crates/ferric-bench/src/autonomy_results.rs:1560-1567 | a valid path does not start at the root or with the current directory, and never goes up |
| `EvidenceRows.StrictExactly` | crates/ferric-bench/src/autonomy_results.rs:1520-1558 | strict evidence spelled out field by field: traceable segments in order, all but the last ended, and a timed-out last one with no exit code, terminal or claim |
| `EvidenceRows.LegacyIsStrictWithoutTimeouts` | crates/ferric-bench/src/autonomy_results.rs:1502-1518 | legacy evidence is exactly strict evidence without a timed-out segment |
| `PairedSummary.PairedRowsUsesGroup` | crates/ferric-bench/src/autonomy_results.rs:1310-1406 | an admitted pair uses up its group: exactly one row of each arm with agreeing labels |
| `PairedSummary.PairedRowsExactly` | crates/ferric-bench/src/autonomy_results.rs:1310-1406 | a group is admitted if and only if it is one control and one candidate row with agreeing labels, valid and distinct workspaces, valid and equal starting trees, distinct binaries, equal corpus and model, temperature 0.0 and the same server carrying that model |
| `PairedSummary.ScoreableCounts` | crates/ferric-bench/src/autonomy_results.rs:1461-1500 | a row is scoreable exactly when nothing failed for infrastructure reasons and its evidence, digests, provenance and server are in order for its schema and coordinate |
| `PairedSummary.EligibleExactly` | crates/ferric-bench/src/autonomy_results.rs:1293-1406 | a pair is eligible exactly when both rows count, they make a fair pair, and they are the only two rows with their id |
| `PairedSummary.GroupByPairId` | crates/ferric-bench/src/autonomy_results.rs:1293-1308 | the grouping map holds, for each pair id, exactly its rows in order |
| `PairedSummary.EligiblePairedRows` | crates/ferric-bench/src/autonomy_results.rs:1293-1406 | the pairs come in ascending id order, and a pair is among them exactly when it is a fair pair of countable rows which alone carry their id |
| `Provenance.ProvenanceMatches` | crates/ferric-bench/src/autonomy_results.rs:1196-1234 | one pass against the first row of each coordinate decides whether all rows agree pairwise |
| `PairedRuns.MatrixFilledExactly` | crates/ferric-bench/src/autonomy_results.rs:545-609 | comparing a row count and a coordinate set is the same as every expected coordinate occurring exactly once and no other |
| `PairedRuns.EligiblePairsDistinct` | crates/ferric-bench/src/autonomy_results.rs:1293-1406 | for every row set every eligible pair is a fair pair and no two share task, variant and trial |
| `PairedRuns.GroupsPartition` | crates/ferric-bench/src/autonomy_results.rs:1293-1308 | the groups of distinct ids hold, as a multiset, exactly the rows carrying those ids |
| `PairedRuns.PairsUseUpGroups` | crates/ferric-bench/src/autonomy_results.rs:1270-1308 | when every group pairs up, the pairs contain the groups' rows and there is one pair per id |
| `PairedRuns.RunFits` | crates/ferric-bench/src/autonomy_results.rs:1270-1308 | paired metadata allows at most two rows per expected cell, so the truncated row count cannot wrap |
| `PairedRuns.RunRowsSelected` | crates/ferric-bench/src/autonomy_results.rs:545-546 | the rows of a run are those of its run id, in order, each once |
| `PairedRuns.MetadataExactly` | crates/ferric-bench/src/autonomy_results.rs:1270-1291 | paired metadata is in order exactly when every row is one of the only two rows of a fair pair |
| `PairedRuns.CompleteRunExactly` | crates/ferric-bench/src/autonomy_results.rs:545-632 | a two-coordinate run is complete if and only if its dimensions are distinct, the categories are those of the tasks, each expected coordinate occurs exactly once, every row is in order, all rows have one origin and every row has its partner |
| `PairedRuns.CompletePairedRun` | crates/ferric-bench/src/autonomy_results.rs:545-632 | in every complete two-coordinate run, clean or not, each expected coordinate occurs exactly once and no other |
| `PairedRuns.CompleteCleanRun` | crates/ferric-bench/src/autonomy_results.rs:545-675 | complete and clean together mean each expected coordinate occurs once, eligible pairs equal expected pairs, every pair is a fair one, the scoreable rows are a permutation of the run rows, and every row lies in exactly one pair |
| `PairedRuns.CleanExactly` | crates/ferric-bench/src/autonomy_results.rs:628-629 | a run is clean exactly when no issue was reported and each row with its run id counts |
| `PairedRuns.CompleteCleanRunExists` | crates/ferric-bench/src/autonomy_results.rs:545-675 | complete and clean paired runs exist, for any task, variant and pair of distinct digests |
| `PairedObjective.PairTally.Record` | crates/ferric-bench/src/autonomy_results.rs:1160-1194 | exactly one of the four cells grows, saturating |
| `PairedObjective.TallyPairs` | crates/ferric-bench/src/autonomy_results.rs:1408-1455 | one pass over any number of pairs fills the four cells with their counts, cut off at 32 bits, and the per-trial map with every pair's outcome |
| `PairedObjective.SummarizePairedObjective` | crates/ferric-bench/src/autonomy_results.rs:1408-1455 | for any number of pairs the summary's cells, eligible and excluded pairs are the numbers of pairs with those completed objectives, cut off at 32 bits, the combinations that meet the threshold are those of the pairs, and the delta is exact when the counters are |
| `PairedObjective.CellIsCount` | crates/ferric-bench/src/autonomy_results.rs:1160-1194 | a cell is the number of pairs whose control and candidate completed their objectives in that way |
| `PairedObjective.QualifiesMeans` | crates/ferric-bench/src/autonomy_results.rs:1415-1435 | for pairs of distinct cells, two-of-three is all three trials present and a set of at least two that reached the objective |
| `PairedObjective.ThresholdMeans` | crates/ferric-bench/src/autonomy_results.rs:1415-1435 | over the eligible pairs of every row set: a combination qualifies exactly when all three trials ran and at least two reached the objective |
| `PairedObjective.NothingOverwritten` | crates/ferric-bench/src/autonomy_results.rs:1408-1455 | the per-trial map returns each eligible pair's own outcome |
| `PairedObjective.CellsCountPairs` | crates/ferric-bench/src/autonomy_results.rs:1160-1194 | the four cells sum to the pairs |
| `PairedObjective.ArmsBalanced` | crates/ferric-bench/src/autonomy_results.rs:1001-1036 | among the paired rows each arm has one row per pair, and its completions are the two cells it shares in |
| `PairedObjective.PairedStatisticsAgree` | crates/ferric-bench/src/autonomy_results.rs:1001-1036 | for every row set both arms score exactly the eligible pairs, each arm's rate is its number of completed objectives over them, its other rows are its failures, and the paired delta is the candidate's rate minus the control's |
| `Schedule.RotationVisitsOnce` | crates/ferric-cli/src/bench_cmd.rs:455-467 | a rotated pass visits each item exactly once, at a computable position |
| `Schedule.BuildSchedule` | crates/ferric-cli/src/autonomy_cmd.rs:452-472 | the nested rotating loops produce the recursive schedule |
| `Schedule.ScheduleInBlocks` | crates/ferric-cli/src/autonomy_cmd.rs:452-472 | the schedule is, trial by trial, the rotated tasks, and task by task the rotated variants |
| `Schedule.CellInOrder` | crates/ferric-cli/src/autonomy_cmd.rs:452-472 | the slots of one cell: one plain slot, or control and candidate in the order the cell's label names, numbered 1 and 2 under one pair id |
| `Schedule.VisitedExactlyOnce` | crates/ferric-cli/src/autonomy_cmd.rs:452-472 | every task, variant, trial and coordinate is visited exactly once and nothing outside the requested trials |
| `Schedule.OrdersBalanced` | crates/ferric-cli/src/autonomy_cmd.rs:1835-1842 | over any stretch of consecutive trials the two pair orders differ in number by at most one |
| `Schedule.OrderExactly` | crates/ferric-cli/src/autonomy_cmd.rs:1835-1842 | for ASCII task names the control runs first exactly when the trial plus the number of odd characters of the name is odd |
| `Schedule.NameDecidesOrder` | crates/ferric-cli/src/autonomy_cmd.rs:1835-1842 | for every name: appending a character with an odd byte sum turns the order round, one with an even byte sum keeps it |
| `Schedule.VariantNeverMatters` | crates/ferric-cli/src/autonomy_cmd.rs:1835-1842 | the variant, although it is added, never changes the order |
| `Schedule.PairIdInjective` | crates/ferric-cli/src/autonomy_cmd.rs:1844-1846 | a pair id determines trial, task and variant, whatever the task is called |
| `Schedule.ScheduledPairAgrees` | crates/ferric-bench/src/autonomy_results.rs:1322-1345 | a control row and a candidate row of one scheduled cell carry the id, slots and order label the summary demands, whichever ran first |
| `Schedule.ScheduledGroupsAreWhole` | crates/ferric-bench/src/autonomy_results.rs:1293-1308 | when every scheduled episode leaves its row, each pair id groups exactly two rows |
| `ScheduledRuns.ScheduledKeys` | crates/ferric-cli/src/autonomy_cmd.rs:452-472 | the rows of a completed paired schedule carry every expected coordinate exactly once and no other |
| `ScheduledRuns.ScheduledMetadata` | crates/ferric-bench/src/autonomy_results.rs:1270-1406 | when paired rows ran under equal circumstances, every pair id of such a schedule is admitted as a pair |
| `ScheduledRuns.ScheduledRunFillsMatrix` | crates/ferric-bench/src/autonomy_results.rs:545-632 | such rows meet the count, coordinate-set, metadata and dimension clauses of completeness |
| `ScheduledRuns.ScheduledRunComplete` | crates/ferric-bench/src/autonomy_results.rs:545-632 | with row contracts, categories and provenance in order the summary calls the run complete |
| `Statistics.WilsonContainsProportion` | crates/ferric-bench/src/summary.rs:88-108 | the interval lies in [0, 1] before clamping and contains the observed proportion |
| `Statistics.WilsonBoundsSolveScore` | crates/ferric-bench/src/summary.rs:88-108 | both bounds solve the score equation with z = 1.959963984540054, which defines the Wilson interval |
| `Statistics.PercentilesOrdered` | crates/ferric-bench/src/summary.rs:69-85 | interpolated percentiles stay within the sample and grow with the probability |
| `Statistics.PercentileInterpolates` | crates/ferric-bench/src/summary.rs:69-80 | a percentile divides the gap between its two neighbours in the proportion of its position |
| `Statistics.MedianIsMiddle` | crates/ferric-bench/src/summary.rs:69-80 | the median is the middle value, or the mean of the two middle ones |
| `Statistics.QuartilesBracketMedian` | crates/ferric-bench/src/summary.rs:56-85 | the median lies between the quartiles, so the interquartile range is never negative |
| `Ladder.GroupByTrial` | crates/ferric-bench/src/summary.rs:515-534 | the map holds each trial's levels in row order |
| `Ladder.CompleteTrialCount` | crates/ferric-bench/src/summary.rs:515-534 | the count is the number of trials that observed the expected levels exactly |
| `Ladder.CompleteExactly` | crates/ferric-bench/src/summary.rs:311-326 | a run is judged complete if and only if every row has a trial id, there are exactly `trials` ids and each trial/level cell is filled exactly once |
| `Ladder.EveryLevelObserved` | crates/ferric-bench/src/summary.rs:311-326 | in such a run every level is observed by exactly `trials` rows |
| `Ladder.LevelCountsAreRows` | crates/ferric-bench/src/summary.rs:434-470 | rows and passes at a level are the numbers of the run's rows at that level, and of those that completed |
| `Ladder.RunRowsSelected` | crates/ferric-bench/src/summary.rs:311-326 | the rows of a run are those of its run id, in order, each once |
| `Calibration.RequiredPassesIsLeast` | crates/ferric-bench/src/summary.rs:425-432 | the searched number of passes is the least that reaches the demanded rate |
| `Calibration.OutOfReach` | crates/ferric-bench/src/summary.rs:425-432 | where no number of passes reaches the rate, one more than there are trials is required, saturating |
| `Calibration.PrefixFromExactly` | crates/ferric-bench/src/summary.rs:538-540 | the prefix ends exactly before the first level that is missing or failed |
| `Calibration.EvidenceCell.RecordBudgetControls` | crates/ferric-bench/src/summary.rs:236-270 | the in-place recording adds each control once and settles the derived flags and the reason |
| `Calibration.RecordControlsSticky` | crates/ferric-bench/src/summary.rs:224-270 | evidence is diagnostic after recording exactly when it was before or a recorded control is; diagnostic evidence is never eligible |
| `Calibration.CalibratedExactly` | crates/ferric-bench/src/calibrate.rs:53-86 | calibration succeeds exactly for a complete, clean full ladder without modified budgets, which is exactly when the summary says eligible |
| `Calibration.IneligibleSaysWhy` | crates/ferric-bench/src/summary.rs:335-397 | a summary gives a reason exactly when it is not eligible: a diagnostic one exactly when a budget was changed, naming which kinds, and otherwise the first that holds of a partial ladder, an incomplete run and an infrastructure failure |
| `Calibration.PublishedLevelMeans` | crates/ferric-bench/src/summary.rs:335-397 | over the raw rows: a published level L means every level up to L has exactly `trials` rows of which a share of at least the demanded rate completed, and level L+1 has not; no level is published exactly when level 0 has not |
| `Calibration.FailedLevelNeverPublished` | crates/ferric-bench/src/summary.rs:434-470 | for a positive rate, a level none of whose rows completed is never published, nor any above it |
| `Calibration.PublishedExactly` | crates/ferric-bench/src/calibrate.rs:53-86 | a summary publishes if and only if the ladder is full, each trial filled each level once, and no row of the run failed for infrastructure reasons or changed a budget |
| `Calibration.PassingLevelPublished` | crates/ferric-bench/src/calibrate.rs:53-86 | one clean pass of a one-trial ladder of level 0 publishes exactly level 0 |
| `ProfileStore.WriteIsUpdate` | crates/ferric-bench/src/calibrate.rs:119-128 | retain-then-push on the list is an update of the map keyed by model and protocol |
| `ProfileStore.Store.ReadProfile` | crates/ferric-bench/src/calibrate.rs:92-102 | a read is a lookup in that map |
| `ProfileStore.Store.Write` | crates/ferric-bench/src/calibrate.rs:119-128 | one key changes, all others stay, and a read returns the written record |
| `ProfileStore.Store.WriteCalibratedRing` | crates/ferric-bench/src/calibrate.rs:104-117 | afterwards the record's ring is the one written; an existing record keeps everything else and a missing one is created empty |
| `ProfileStore.Store.PublishCalibration` | crates/ferric-cli/src/bench_cmd.rs:390-410 | the store changes exactly when the evidence is credible; then the record read back has the key, parameters and evidence, no ring, and as level the end of the unbroken run of qualified levels, or none exactly when level 0 is not qualified; diagnostic evidence is reported as such |
| `ProfileStore.PublishesExactly` | crates/ferric-bench/src/calibrate.rs:53-86 | which evidence publishes, field by field: flags, unmodified budgets, consistent level, rate and least passes, distinct levels of at most 6, and attribution to its run |
| `ProfileStore.PublishedLevelIsRead` | crates/ferric-bench/src/calibrate.rs:53-102 | from rows to profile: the level read back after publishing a summary is the one the run's raw rows earned |
| `ProfileStore.Store.Replay` | crates/ferric-bench/src/calibrate.rs:92-128 | any history of calls on the list refines the same history on the map |
| `ProfileStore.LastTouchWins` | crates/ferric-bench/src/calibrate.rs:92-128 | a read returns what the last operation on its key left; other keys never show |
| `ProfileStore.RingsKeepLevels` | crates/ferric-bench/src/calibrate.rs:104-117 | no number of ring writes changes a measured level or its evidence |
| `ProfileStore.DiagnosisNeverForgotten` | crates/ferric-bench/src/summary.rs:224-270 | over any sequence of recordings evidence is diagnostic exactly when some recording was |
| `ProfileStore.DiagnosticNeverPublishes` | crates/ferric-cli/src/bench_cmd.rs:390-410 | evidence that ever recorded a modified budget never changes the store, whatever is recorded later |
| `AttemptNames.TraceIsNotSidecar` | crates/ferric-bench/src/budget.rs:274-277 | no name is both a trace and a sidecar, even of two attempts |
| `AttemptNames.NamesIdentifyAttempts` | crates/ferric-bench/src/budget.rs:258-277 | two valid identities share a trace or sidecar name exactly when they are equal |
| `AttemptNames.NamesStayInside` | crates/ferric-bench/src/budget.rs:258-277 | a valid identity's names have exactly three components, none of them empty or a dot name, below `traces` |
| `Retention.ObserveTrace` | crates/ferric-bench/src/budget_trace.rs:27-61 | the accumulating loop: the first bad record decides; otherwise the budgets are those of the main-budget records by position, absent when there are none, and the terminal is that of the last session end |
| `Retention.ObservedReads` | crates/ferric-bench/src/budget_trace.rs:27-61 | the observation of any records, by positions: one budget per main-budget record, at the index of the number of such records before it, and the last end |
| `Retention.VerifyAttests` | crates/ferric-bench/src/budget_trace.rs:162-206 | verification yields a document exactly when the files attest it: decodable sidecar of this version naming this reference, matching digest, observations and resolved duration |
| `RetentionSafety.StepIsLocal` | crates/ferric-bench/src/budget_trace.rs:105-158 | one step of a call keeps its view of its files true and changes nothing it did not create |
| `RetentionSafety.RunKeepsInvariant` | crates/ferric-bench/src/budget_trace.rs:105-158 | every interleaving keeps initial files, exclusive ownership and every call's view |
| `RetentionSafety.NothingOverwritten` | crates/ferric-bench/src/budget_trace.rs:92-103 | however retainers interleave or fail, no file that existed before is changed or removed |
| `RetentionSafety.OneSuccessPerIdentity` | crates/ferric-bench/src/budget_trace.rs:120-126 | at most one call per identity succeeds |
| `RetentionSafety.SuccessIsFinal` | crates/ferric-bench/src/budget_trace.rs:150-158 | no later action revokes a success |
| `RetentionSafety.SuccessKeepsVerifying` | crates/ferric-bench/src/budget_trace.rs:105-206 | a success published exactly the source bytes and the document that speaks for them, and verifies in every later state |
| `RetentionSafety.PublishedSpeaks` | crates/ferric-bench/src/budget_trace.rs:105-158 | the published document names its identity and files, carries the digest and the reading of the source bytes, and keeps the caller's other evidence |
| `RetentionProgress.UndisturbedSucceeds` | crates/ferric-bench/src/budget_trace.rs:105-158 | a call alone in its identity never fails whatever the others do, and given a bounded number of turns in any interleaving it succeeds |
| `RetentionProgress.OnlyPublishableSucceeds` | crates/ferric-bench/src/budget_trace.rs:150-158 | only a valid identity whose document reads back as itself, with the resolved duration, ever succeeds |
| `ResultsDirectory.Directory.CreateNew` | crates/ferric-bench/src/budget_trace.rs:92-103 | creation succeeds exactly on a free name and never touches an existing file |
| `ResultsDirectory.Directory.VerifyBudgetTrace` | crates/ferric-bench/src/budget_trace.rs:162-206 | for every document: it is returned exactly when the files attest it |
| `ResultsDirectory.Directory.Retain` | crates/ferric-bench/src/budget_trace.rs:105-158 | with a file system that may refuse at any statement: earlier files are untouched, a returned document is the published one and verifies, and when nothing is refused a document is returned exactly when the identity is valid, both names were free and it is publishable |
| `ResultsDirectory.Concluded` | crates/ferric-bench/src/budget_trace.rs:105-158 | any run of the protocol by one call that has ended, broken off or not, ended with what the call is worth or with nothing |
| `BriefRules.DisplayPrintable` | crates/ferric-bench/src/repository_brief.rs:273-291 | a displayed path contains no control character |
| `BriefRules.DisplayInjective` | crates/ferric-bench/src/repository_brief.rs:273-291 | two different paths of valid Unicode names are never displayed alike: the escapes are a prefix code |
| `BriefRules.OrdinaryVerbatim` | crates/ferric-bench/src/repository_brief.rs:273-291 | a name without backslash and control character is displayed as it is |
| `BriefRules.SensitiveExactly` | crates/ferric-bench/src/repository_brief.rs:325-347 | which file names are secrets, whatever their case |
| `BriefRules.ClassifiedExactly` | crates/ferric-bench/src/repository_brief.rs:349-407 | no name is both an instruction and a manifest name, so each class is exactly its own names, whatever their case |
| `BriefScan.Scan.VisitDirectory` | crates/ferric-bench/src/repository_brief.rs:164-220 | the recursive in-place visit is one pass over the directory's sorted visits, cut short by the first error or the file that no longer fits |
| `BriefTraversal.ScanWorkspace` | crates/ferric-bench/src/repository_brief.rs:164-220 | for every tree the scan keeps the first `max_files` entries of the unbounded traversal and the flag holds exactly when there are more; it fails exactly when a visible path leads to an unreadable directory or untyped entry with at most `max_files` visible files before it |
| `BriefTraversal.PlacesAreReached` | crates/ferric-bench/src/repository_brief.rs:164-220 | the traversal comes to a file, an unreadable directory or an untyped entry exactly when a path of visible directories leads to it |
| `BriefTraversal.ListedExactlyWhenVisible` | crates/ferric-bench/src/repository_brief.rs:164-220 | a file is listed exactly when a path of visible directories leads to it |
| `BriefTraversal.NoSecretListed` | crates/ferric-bench/src/repository_brief.rs:164-220 | no listed path goes through a hidden, generated or secret directory or ends in a hidden or secret name |
| `BriefTraversal.FailsAtObstacle` | crates/ferric-bench/src/repository_brief.rs:164-220 | meeting an unreadable place while files still fit is the same as such a place having few enough visible files before it in path order |
| `BriefTraversal.UnreadableWorkspaceScanned` | crates/ferric-bench/src/repository_brief.rs:65-72 | a workspace with an unreadable directory whose scan succeeds |
| `BriefTraversal.TraversalAscends` | crates/ferric-bench/src/repository_brief.rs:168-170 | the traversal, obstacles included, is strictly ascending by components, so nothing is listed twice and listing order does not matter |
| `BriefCounts.FinishedScanCounts` | crates/ferric-bench/src/repository_brief.rs:164-220 | a scan that came to its end counted, in each counter, exactly the tree entries with that fate below visible directories |
| `BriefRender.RenderBounded` | crates/ferric-bench/src/repository_brief.rs:255-271 | the text is within the limit and is the header with the longest run of whole lines that fits, or the header's longest prefix that fits |
| `BriefRender.CompleteLength` | crates/ferric-bench/src/repository_brief.rs:99-105 | the fold is the length of the complete rendering |
| `BriefRender.FlagLengthensHeader` | crates/ferric-bench/src/repository_brief.rs:223-242 | the byte-limit flag makes the header longer |
| `BriefRender.HeaderTells` | crates/ferric-bench/src/repository_brief.rs:223-242 | two equal headers have equal limits and flags |
| `BriefRender.EntryTells` | crates/ferric-bench/src/repository_brief.rs:243-253 | a line tells relevance and symlink of its path, and with them known the path |
| `BriefRender.FlagExact` | crates/ferric-bench/src/repository_brief.rs:99-108 | everything fits under the short header exactly when all lines appear under the header finally used |
| `BriefRender.GenerateRepositoryBrief` | crates/ferric-bench/src/repository_brief.rs:73-123 | the brief is within its limit, holds the longest fit, both flags say exactly what was cut, there is one line per rendered file, and unless files were cut each counter is the number of tree entries with that fate |
| `Framing.FrameFiles` | crates/ferric-cli/src/autonomy_cmd.rs:1930-1953 | the appending loop computes the frame of the file list |
| `Framing.LittleEndianAt` | crates/ferric-cli/src/autonomy_cmd.rs:1930-1953 | byte i of a length is its digit of weight 256 to the i |
| `Framing.UnframeFrame` | crates/ferric-cli/src/autonomy_cmd.rs:1930-1953 | a reader recovers exactly the framed files, for lengths below 2^64 |
| `Framing.FramingInjective` | crates/ferric-cli/src/autonomy_cmd.rs:1930-1953 | equal framed bytes mean equal lists of path texts and contents |
| `Setup.ValidatePathCollisions` | crates/ferric-bench/src/autonomy.rs:720-746 | the nested loops accept exactly the path sets in which no two component lists are equal or one a proper prefix of the other |
| `Setup.CaseNeverMatters` | crates/ferric-bench/src/autonomy.rs:720-729 | paths that differ in ASCII case only have the same components, resolve alike and collide |
| `Setup.SignificantSelects` | crates/ferric-bench/src/runner.rs:201-219 | resolution drops exactly the empty and the dot components and keeps the others in order |
| `Setup.Workspace.CreateDirAll` | crates/ferric-bench/src/runner.rs:211-215 | succeeds exactly when no folder on the way is a file, and adds exactly the missing folders |
| `Setup.Workspace.MaterializeSetupFiles` | crates/ferric-bench/src/runner.rs:201-219 | writing into an empty workspace succeeds exactly when every path names a file and none is an ancestor of another; the tree then holds those files and their folders only |
| `Setup.ExactWhenSeparate` | crates/ferric-bench/src/runner.rs:201-219 | a completed setup left one file per entry with its contents exactly when no two paths resolve to the same file |
| `Setup.WrittenInFullExactly` | crates/ferric-bench/src/autonomy.rs:720-746 | any map can be written out in full exactly when each path names a file and no two collide as the file system resolves them |
| `Setup.CheckNeverTooStrict` | crates/ferric-bench/src/autonomy.rs:720-746 | whatever its components, a map that can be written out in full passes the check |
| `Setup.CheckMeetsWorkspace` | crates/ferric-bench/src/autonomy.rs:720-746 | for every path set fully writable implies accepted, and for plain components accepted implies fully writable |
| `Setup.CheckAndMaterialize` | crates/ferric-bench/src/autonomy.rs:720-746 | for every map a complete and exact setup had passed the check and is equivalent to resolved collision freedom; plain maps that pass the check are always set up completely and exactly |
| `Setup.EmptyComponentEscapes` | crates/ferric-bench/src/autonomy.rs:721-729 | `a/b` and `a//b` pass the check and are one file |

## Left out

- Process spawning, HTTP preflight, server discovery, permissions, clocks and
  hashing internals: foreign calls, present only as results in a `Setting` or as
  function parameters.
- `TraceStructure`, `policy_for`, `resolve_output_budget`, `resolve_agent`,
  `strict_managed_server_valid` and the JSON/TOML codecs: parameters.
- f64 rounding: rates, percentiles and intervals are exact reals, and the square
  root is any real with the right square.
- Mechanism counters, token metrics, `aggregate_metrics`, `summarize_tools`,
  `pass_power_3` and `repository_brief_comparison`: sums and per-key tallies that
  would only add easy members.
- The remaining suite validation (ids, check argv, budgets, relative paths) and
  `verify_expectations`: conjunctions settled by reading one branch.
- Tier strings of profile records and I/O errors while writing profiles.
- PairedRuns.MatrixFilledExactly: assumes that the product of the dimensions and the row count fit
  `u32`, since the code saturates the former and truncates the latter.
- PairedObjective.PairedStatisticsAgree: assumes the eligible pairs fit `u32`, since the
  tallies saturate there.
- Ladder.CompleteExactly: assumes the product of trials and levels and the row
  count fit `u32`; rows without a trial id could otherwise wrap the row count.
- Calibration.PublishedLevelMeans: assumes the row count fits `u32`, for the same
  reason.
- Calibration.RequiredPassesIsLeast: assumes a rate of at most one or fewer than
  `u32::MAX` trials, since the code saturates when no number of passes suffices.
- BriefRules.DisplayInjective: the lossy reading of names that are not valid
  Unicode is not modelled.
- Framing.FramingInjective: starts from path texts, after names have been read
  lossily and `\` replaced by `/`.
- Retention: names are case-sensitive; the source bytes of a call are fixed when
  it starts, and files are never deleted while retainers run.
- BriefRender.GenerateRepositoryBrief: lengths add exactly, where the code
  saturates at the size of the address space; names are valid Unicode.
- Setup.Workspace.MaterializeSetupFiles: paths are relative and free of `..`, as
  the suite validation demands of them; folders are created and files replaced
  as a POSIX system does, except that ASCII case is ignored.
