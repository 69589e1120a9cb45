# Verified model of Henyey's alarm evaluator, quorum sets, maintenance and metrics

This project models the stateful and recursive core of Henyey and proves what it is meant to
guarantee, over every input and every run.

- **Alarm evaluation** (`scripts/lib/eval-alarms.py`). One tick reads the state directory, judges
  every alarm of the catalog and rewrites the state. `AlarmTypes` holds what a tick sees and what it
  answers, `Runs` the generic notion of a run. `StreakAlarms`, `RatioAlarms`, `DynamicAlarms` and
  `GaugeAlarms` give one tick of each stateful family and prove what whole runs mean;
  `RatioRuns` and `RatioMeaning` are about the file all ratio alarms share. `StreakSnapshots` and
  `RatioSnapshots` carry the evaluators out on the string dictionaries that are actually stored, and
  refine them to the state machines; `SnapshotFiles` and `Numerals` take the dictionaries to file text
  and back. `Cooldowns` suppresses repeated reports in place. `Catalog` says what one evaluation of a
  whole catalog yields, `CatalogEvaluator` is the main loop that does it on the stored files, and
  `DryRuns` says exactly when an evaluation without writes tells the truth. `CatalogRuns` shows that
  each alarm's state runs inside the catalog as if it were alone, and `CatalogVerdicts` that it fires
  there exactly under the condition of its family on its own ticks.
- **Quorum sets** (`crates/app/src/compat_config.rs`, `crates/app/src/config.rs`,
  `crates/scp/src/quorum.rs`). `Thresholds` holds the integer thresholds, `QuorumSets` the tree, its
  meaning, its normalization and its conversion, with quorum intersection (section 4.1 of the SCP
  whitepaper). `QuorumNormalForm` is about what normalization reaches, and `QuorumSplits` says exactly which
  trees have quorum intersection. `QuorumGeneration` builds the tree from validators, `GeneratedQuorums` proves
  what it builds, and `GeneratedTolerance` which node sets satisfy it and which validators are accepted.
  `QuorumLoader` reads a tree from nested tables, and `QuorumErrors` shows that errors name a fault that is
  there. `Sorting` is the stable sort they use.
- **Database maintenance** (`crates/app/src/maintainer.rs`): `Maintainer`.
- **Metric accumulators** (`crates/app/src/medida_compat.rs`): `EwmaMeters` for the lazy ticking of
  meters, `EwmaRates` for the numbers they show, and `Reservoirs`, with quantiles by definition 7 of Hyndman
  and Fan (1996).
- **Generated document regions** (`scripts/lib/gen-alarm-surfaces.py`): `Markers`.

A method that changes state is proved against a function of the old state, and the theorems are about
that function. Their conditions are stated on the observations and fields themselves, not by the helpers the
function is computed with. A run is a sequence of ticks, marks, evaluations or reports of any length.

`dafny verify dfyconfig.toml` checks the whole project. Every lemma switches Dafny's automatic induction off:
what is proved by induction has its recursive call written out.

## Where a promise holds only under a condition

- A written document can be reported stale by `--check` when the reconciliation region lies inside the
  non-overlaps region: `Markers.CheckAfterWrite` proves that writing is followed by "up to date" exactly
  when the regions are not nested that way.
- A replacement is idempotent exactly when the inserted text contains neither marker
  (`Markers.ReplaceIsIdempotent`).
- A mark that falls exactly 5 s after the last tick is counted in the interval before it, because the lazy
  ticker compares with `>`. `EwmaMeters.AgreementIsExact` proves that the readings of a whole run agree
  with an eager timer exactly when there is no such mark; every such mark shows all three rates too high
  until the next boundary (`EwmaMeters.LateMarkRaises`). A reading at that one instant agrees exactly when
  the tick it misses would not move a rate (`EwmaMeters.LateReadingExactly`).
- Ledger 0 can be deleted although a queued checkpoint needs it, since a threshold saturates at 0:
  `Maintainer.PublishLedgersAboveThresholds` says that this is the only such ledger.
- The 51% threshold equals the simple majority, and the 67% threshold the Byzantine one, only up to the
  sizes given by `Thresholds.SimpleMajorityAgreement` and `Thresholds.ByzantineAgreement`.
- One shared ratio snapshot is as good as one per alarm exactly while no evaluation is lost
  (`RatioRuns.SharedFileExactly`): none that could be measured against the alarm's own last baseline of
  the same process finds that another process was evaluated in between. While no process identity comes
  back after it was replaced, nothing is lost (`RatioRuns.SharedFileActsPrivate`);
  `RatioRuns.ReturningIdentityDiffers` is a run where one comes back.
- With unique names, dry runs of a catalog agree with real ones on everything that can be stored and seen
  exactly when no non-exempt streak alarm comes after another streak alarm with the same file
  (`DryRuns.DryRunExactly`). The catalog validation rejects duplicate names
  (scripts/lib/eval-alarms.py:1892-1895) but not shared files, which a common default makes likely.
- Validators are accepted exactly when each High or Critical home domain lists at least three of them and no
  two entries clash: the same home domain in two qualities goes unnoticed unless it sorts last in the better
  one and first in the next (`GeneratedTolerance.AcceptsExactly`).
- A snapshot survives its file exactly when keys have no `=` and neither keys nor values have line
  breaks or outer whitespace (`SnapshotFiles.SnapshotRoundTrip`).
- Two disjoint node sets can both satisfy a tree exactly when the tree is splittable
  (`QuorumSplits.IntersectionIsExact`); trees of majorities, and so all generated ones, never are.
- A quorum tree survives printing and loading exactly when it is `Printable`
  (`QuorumLoader.RoundTrip`): besides at most five levels, non-empty nodes and percentages in 1..100,
  every key must be its own first token and not `$self`.

## Model

| member | source | states |
|---|---|---|
| AlarmTypes.GatesPass | scripts/lib/eval-alarms.py:352-371 | an alarm passes exactly when every gate is open, and otherwise reports the first closed gate |
| AlarmTypes.Screened | scripts/lib/eval-alarms.py:2170-2181 | exemption and gates are the only reasons the main loop gives itself; none of them is a reason that preserves a baseline |
| AlarmTypes.ScreenedExactly | scripts/lib/eval-alarms.py:352-371 | an alarm is evaluated exactly when it is not exempt and every gate it lists is open, each gate with its own condition on the mode, the warmup ticks, 900 seconds of uptime, crash recovery and fresh starts; the reason given otherwise is true |
| AlarmTypes.CompareMeans | scripts/lib/eval-alarms.py:376-390 | the six comparison operators in terms of one order |
| Runs.DropStutters | scripts/lib/eval-alarms.py:71-87 | ticks that leave the state as it was can be dropped from any run without changing the final state or any other verdict |
| StreakAlarms.StreakStuttering | scripts/lib/eval-alarms.py:1566-1569 | ticks answered "missing process identity" or "interval too short" can be deleted from any run of a streak alarm: same final snapshot, same other verdicts |
| StreakAlarms.StuttersExactly | scripts/lib/eval-alarms.py:1692-1694 | exactly which ticks are such no-ops: no identity, or a too-fresh scrape of the remembered process with no reset and no stale gap |
| StreakAlarms.StreakMeaning | scripts/lib/eval-alarms.py:1584-1763 | after any run the snapshot holds the process and counter of the last tick that counted or set a baseline, and the number of consecutive hot ticks since; nothing after a resetting skip |
| StreakAlarms.CountsExactly | scripts/lib/eval-alarms.py:1696-1763 | a delta is judged exactly on evaluable ticks that neither restart, re-baseline nor duplicate; it is ok exactly below both thresholds |
| StreakAlarms.CountedDelta | scripts/lib/eval-alarms.py:1622-1696 | every judged delta is the growth since the last active tick, and that tick saw the same process |
| StreakAlarms.DeltasTelescope | scripts/lib/eval-alarms.py:1696-1763 | between two baselines the reported deltas add up to the growth of the counter |
| StreakAlarms.FiresExactly | scripts/lib/eval-alarms.py:1503-1763 | the alarm fires exactly on a burst, on a hot tick that completes the streak before it, or on a restart where the scoped series, or the counter when nothing is scoped, already shows the positive post-restart count, and reports just that number; never from a stale gap |
| StreakAlarms.ScopedIgnoresCounter | scripts/lib/eval-alarms.py:213-235 | after a restart a rule scoped to one labelled series gives the same verdict whatever the counter itself shows |
| StreakAlarms.BaselinesExactly | scripts/lib/eval-alarms.py:1584-1690 | exactly which ticks set a baseline and do no more: the first one, a restart that does not fire, and one after a gap of the monitoring loop |
| StreakSnapshots.StreakSnapshot.EvalCounterStreak | scripts/lib/eval-alarms.py:1537-1763 | the evaluator on the stored dictionary gives the verdict and the next state of the state machine |
| StreakSnapshots.StreakSnapshot.MaybeReset | scripts/lib/eval-alarms.py:619-683 | the cleanup hook clears the streak snapshot on a skip about the node and keeps it on a preserved one |
| StreakSnapshots.StreakSnapshot.Tick | scripts/lib/eval-alarms.py:2165-2217 | one pass of the main loop over a streak alarm is one step of the state machine |
| StreakSnapshots.StoredDecodes | scripts/lib/eval-alarms.py:1611-1625 | a stored baseline decodes to itself |
| StreakSnapshots.StoredSurvivesTheFile | scripts/lib/eval-alarms.py:395-423 | a stored baseline survives its file exactly when the identity parts have no line break and no outer whitespace |
| RatioAlarms.RatioStuttering | scripts/lib/eval-alarms.py:1298-1301 | preserved skips can be deleted from any run over the shared file |
| RatioRuns.SharedFileActsPrivate | scripts/lib/eval-alarms.py:1334-1421 | while no process identity returns, every ratio alarm gets from the shared snapshot exactly the verdicts of a snapshot of its own |
| RatioRuns.SharedFileExactly | scripts/lib/eval-alarms.py:1334-1421 | over any run an alarm gets from the shared snapshot the verdicts of a snapshot of its own exactly when no evaluation of it is lost to another process evaluated in between |
| RatioRuns.FilesRelate | scripts/lib/eval-alarms.py:1394-1421 | the invariant behind it: the private file holds the alarm's own baseline, and the shared one holds the same unless another process was evaluated since, when it holds none |
| RatioRuns.ReturningIdentityDiffers | scripts/lib/eval-alarms.py:1338-1342 | a sample run with a returning identity in which shared and private verdicts differ |
| RatioMeaning.DeltaWithinOneProcess | scripts/lib/eval-alarms.py:1338-1342 | in any run a judged ratio is measured against the alarm's own last stored baseline, taken from the same process |
| RatioMeaning.RatioRunMeaning | scripts/lib/eval-alarms.py:1394-1500 | the file of one alarm holds the last stored baseline and the number of consecutive breaching evaluations |
| RatioMeaning.RatioFiresExactly | scripts/lib/eval-alarms.py:1452-1500 | a ratio alarm is judged exactly on growth since a baseline of the same process, breaches exactly with enough volume and a numerator growth beyond the threshold's share of the denominator growth, and fires exactly on a breach that completes a series of the configured length |
| RatioMeaning.RatioBaselinesExactly | scripts/lib/eval-alarms.py:1394-1440 | exactly which evaluations change nothing, and which only set a baseline: the first of a process, one after a counter reset and one after a gap of the monitoring loop |
| RatioSnapshots.KeysApart | scripts/lib/eval-alarms.py:1394-1397 | the dictionary keys of different alarms, roles and header fields never clash, whatever the alarms are called |
| RatioSnapshots.EntryStores | scripts/lib/eval-alarms.py:1399-1408 | writing one alarm's numbers changes that alarm's entry and nobody else's |
| RatioAlarms.SumIsPresent | scripts/lib/eval-alarms.py:1352-1359 | a sum is present exactly when all its parts are |
| RatioAlarms.SumAdds | scripts/lib/eval-alarms.py:1352-1359 | the sum of two lists of parts is the sum of their sums, that of one part is the part, and that of none is 0 |
| RatioAlarms.SidesCount | scripts/lib/eval-alarms.py:1344-1391 | numerator and denominator are what the scrape counts for each: all parts added up, or the one series |
| RatioAlarms.StoppedExactly | scripts/lib/eval-alarms.py:1298-1391 | an evaluation reaches the alarm's baseline exactly when it is open, of a known process up for 600 seconds without a fresh start, with a ledger age of at most 30, the expected labels and both sides countable; otherwise the reason given is true |
| RatioSnapshots.ReadSource | scripts/lib/eval-alarms.py:1344-1391 | the loop observes a sum exactly when all its parts are present, its value is theirs added up, and each absence has its own reason |
| RatioSnapshots.MeasureGrowth | scripts/lib/eval-alarms.py:1415-1500 | resets, stale gaps, duplicates, low volume and the ratio test give the verdict and new streak of the specification |
| RatioSnapshots.RatioSnapshot.EvalCounterRatio | scripts/lib/eval-alarms.py:1271-1500 | the evaluator on the shared dictionary gives the verdict and next file of the state machine |
| RatioSnapshots.RatioSnapshot.MaybeReset | scripts/lib/eval-alarms.py:664-670 | the cleanup hook zeroes only the alarm's own streak |
| RatioSnapshots.RatioSnapshot.Tick | scripts/lib/eval-alarms.py:2165-2217 | one pass of the main loop over a ratio alarm is one step of the state machine |
| DynamicAlarms.DynamicMeaning | scripts/lib/eval-alarms.py:957-966 | the stored delta is the one of the last tick that was not a preserved skip, if that tick took one |
| DynamicAlarms.DynamicFiresExactly | scripts/lib/eval-alarms.py:901-998 | a dynamic alarm fires exactly when its delta reaches the multiple of that stored delta, itself non-zero and large enough |
| DynamicAlarms.DynamicStuttersExactly | scripts/lib/eval-alarms.py:917-952 | exactly which ticks leave the stored delta alone: those that have all a delta needs but a previous scrape that is too young |
| GaugeAlarms.CounterMeasuresWindow | scripts/lib/eval-alarms.py:731-751 | the persistence counter reaches m exactly when the last m ticks were evaluated and breached, each but the first with a valid previous scrape |
| GaugeAlarms.GaugeFiresOnFullWindow | scripts/lib/eval-alarms.py:605-751 | a persistent gauge fires exactly on a full such window |
| GaugeAlarms.GaugeFiresAtOnce | scripts/lib/eval-alarms.py:692-729 | a gauge without persistence fires exactly on the ticks that breach |
| Cooldowns.CooldownData.ApplyCooldowns | scripts/lib/eval-alarms.py:499-533 | the in-place pass over the results gives the reports and entries of the specification |
| Cooldowns.FileKnowsLastReport | scripts/lib/eval-alarms.py:524-533 | the file always holds the time and window of the last report for a key, or what it held before the first; suppression never moves it |
| Cooldowns.SuppressedExactly | scripts/lib/eval-alarms.py:499-533 | whatever the file held, over any run with a clock that does not run back a firing metrics alarm is suppressed exactly when a report for its key, or before the first one the stored entry, lies strictly inside its window; it becomes a cooldown with the remaining seconds, more than none, and the same numbers and key, and everything else passes unchanged |
| Cooldowns.ReportsAreApart | scripts/lib/eval-alarms.py:524-533 | two reports for one key are at least the later alarm's cooldown apart |
| CatalogEvaluator.Evaluator.EvaluateJob | scripts/lib/eval-alarms.py:2165-2217 | one alarm of the main loop on the stored dictionaries and counters: its verdict, and what it writes unless writes are off |
| CatalogEvaluator.Evaluator.JudgeGauge | scripts/lib/eval-alarms.py:686-751 | the gauge evaluator updates the persistence counter in memory as specified |
| CatalogEvaluator.Evaluator.JudgeDynamic | scripts/lib/eval-alarms.py:901-998 | the dynamic evaluator stores the new delta before comparing it, unless writes are off |
| CatalogEvaluator.Evaluator.Evaluate | scripts/lib/eval-alarms.py:2156-2240 | the whole evaluation: results and final state directory of the specification |
| DryRuns.WritesStayOwn | scripts/lib/eval-alarms.py:2165-2217 | what one alarm writes is invisible to a later alarm that does not read its file |
| DryRuns.DryRunAgrees | scripts/lib/eval-alarms.py:89-97 | an evaluation without snapshot writes leaves all stored state unchanged, and gives the same results, cooldowns included, unless a non-exempt streak alarm follows another one with the same file |
| DryRuns.DryRunExactly | scripts/lib/eval-alarms.py:89-97 | with unique names, dry and real evaluations agree on everything that can be stored and seen exactly when there is no such streak alarm |
| DryRuns.SharedStreakFileDiffers | scripts/lib/eval-alarms.py:1580-1582 | for every such streak alarm some stored file and some tick tell a dry run from a real one |
| CatalogRuns.StreakFileRunsAlone | scripts/lib/eval-alarms.py:2165-2217 | after any number of evaluations of whole catalogs, a streak alarm's file holds what its own ticks and verdicts alone say |
| CatalogRuns.RatioFileRunsAlone | scripts/lib/eval-alarms.py:2165-2217 | the shared ratio file of the catalog is the one of the run of all ratio evaluations, whatever other alarms do in between |
| CatalogRuns.RatioVerdictInRun | scripts/lib/eval-alarms.py:2198-2203 | a ratio alarm inside the catalog gets the verdict of its place in the run of all ratio evaluations, whatever was stored before |
| CatalogVerdicts.StreakFiresInCatalog | scripts/lib/eval-alarms.py:2165-2217 | in any sequence of whole evaluations a streak alarm fires exactly under the streak condition on its own ticks |
| CatalogVerdicts.DynamicFiresInCatalog | scripts/lib/eval-alarms.py:2165-2217 | the same for dynamic alarms and their own deltas |
| CatalogVerdicts.GaugeFiresInCatalog | scripts/lib/eval-alarms.py:2165-2217 | the same for persistent gauges and their own windows of breaches |
| CatalogVerdicts.RatioFiresUnlessLost | scripts/lib/eval-alarms.py:2165-2217 | while none of its evaluations is lost, a ratio alarm inside the catalog fires exactly under the ratio condition on its own evaluations |
| CatalogVerdicts.RatioFiresInCatalog | scripts/lib/eval-alarms.py:2165-2217 | so it does while no process identity returns over the run of the catalog |
| CatalogVerdicts.CooldownFileInRun | scripts/lib/eval-alarms.py:2234-2239 | over any number of evaluations the cooldown file runs through all their reports in order, and every final report is the one of its place among them |
| CatalogVerdicts.SuppressedInCatalog | scripts/lib/eval-alarms.py:2234-2239 | inside the catalog a firing alarm that is neither a ratio nor a streak becomes a cooldown exactly as all the reports of the run demand, and every other verdict is reported as it is |
| CatalogRuns.DynamicDeltaRunsAlone | scripts/lib/eval-alarms.py:2165-2217 | after any number of evaluations a dynamic alarm's stored delta is that of its own last active tick |
| CatalogRuns.GaugeCounterRunsAlone | scripts/lib/eval-alarms.py:2156-2229 | after any number of evaluations the stored persistence counter measures the gauge's own window of breaches |
| SnapshotFiles.ReadSnapshot | scripts/lib/eval-alarms.py:395-405 | the line loop reads the dictionary of the specification |
| SnapshotFiles.ReadIsClean | scripts/lib/eval-alarms.py:400-404 | whatever a file holds, what is read from it is free of line breaks and outer whitespace, with no `=` in keys |
| SnapshotFiles.SnapshotRoundTrip | scripts/lib/eval-alarms.py:395-423 | reading a written snapshot gives the dictionary back exactly when it is clean in that sense |
| SnapshotFiles.PaddedLine | scripts/lib/eval-alarms.py:400-404 | whitespace around a line, its key and its value does not count |
| SnapshotFiles.StrayLineIgnored | scripts/lib/eval-alarms.py:402 | a line without `=` is as good as none |
| Numerals.IntOfStr | scripts/lib/eval-alarms.py:1411-1413 | a stored number reads back |
| Thresholds.FromPercent | crates/app/src/config.rs:387-390 | for 1 to 100 percent the threshold lies in 1..n |
| Thresholds.FromPercentIsCeiling | crates/app/src/config.rs:387-390 | a vote count meets the threshold exactly when it is at least the given percentage of the total |
| Thresholds.DefaultIsLeast | crates/app/src/config.rs:2470-2487 | the minimum threshold is the least count that outvotes the rest of a flat set, or leaves less than a third of the entries out in any other one |
| Thresholds.SimpleMajorityAgreement | crates/app/src/config.rs:2479-2482 | 51% is never below the simple majority, and equals it exactly up to 49 validators for odd and 100 for even sizes |
| Thresholds.ByzantineAgreement | crates/app/src/config.rs:2483-2484 | 67% is never below the Byzantine threshold, and equals it exactly up to 100, 200 or 300 entries by residue modulo 3 |
| QuorumSets.IsQuorumSlice | crates/scp/src/quorum.rs:90-123 | the early-exit loop decides the vote count of the tree; a threshold of 0 is never met |
| QuorumSets.SimplifyInPlace | crates/scp/src/quorum.rs:390-427 | the loop that merges singletons and unwraps single inner sets computes the specified tree |
| QuorumSets.NormalizePreserves | crates/scp/src/quorum.rs:358-427 | normalization changes the tree but not which node sets satisfy it |
| QuorumNormalForm.NormalizeReachesNormalForm | crates/scp/src/quorum.rs:358-427 | afterwards no inner set stands for one validator, no set only wraps another, everything is sorted, and normalizing again changes nothing; exactly the trees already in that form are kept |
| QuorumSets.ConvertToXdr | crates/app/src/config.rs:355-405 | the conversion loops give the specified tree or its first error |
| QuorumSets.ConvertsExactly | crates/app/src/config.rs:355-385 | a configuration converts exactly when every node has entries, a percentage in 1..100 and readable keys: no bad inner set is dropped silently |
| QuorumErrors.ConversionErrorIsThere | crates/app/src/config.rs:355-385 | the path and content of a conversion error lead to an inner set that has that fault |
| QuorumSets.ToXdrMeaning | crates/app/src/config.rs:355-405 | the converted, normalized tree is satisfied by exactly the node sets that reach the percentage at every level of the configuration |
| QuorumSets.QuorumIntersection | crates/app/src/config.rs:387-390 | any two node sets that satisfy a tree of majority percentages share a node, even when keys repeat |
| QuorumSets.HalfIsNotEnough | crates/app/src/config.rs:387-390 | no percentage of 50 or less is enough for all trees: two disjoint node sets satisfy a two-validator tree |
| QuorumSplits.IntersectionIsExact | crates/app/src/config.rs:387-390 | for a converted tree that lists no node twice, two disjoint node sets can both satisfy it exactly when twice its threshold is at most its entries plus its splittable inner sets |
| QuorumSplits.NeedsSplit | crates/app/src/config.rs:387-390 | two disjoint sets need a splittable tree even when nodes are listed twice |
| QuorumSplits.MajoritiesNeverSplit | crates/app/src/config.rs:387-390 | trees of majorities are not splittable |
| QuorumSets.LeavesSatisfy | crates/app/src/config.rs:355-405 | the set of all leaves satisfies every convertible tree |
| QuorumGeneration.CollectDomain | crates/app/src/compat_config.rs:1202-1228 | one home domain is collected completely, or its quality mix or lack of redundancy is reported |
| QuorumGeneration.GenerateHelper | crates/app/src/compat_config.rs:1192-1258 | the nested loops and the recursion through the tiers build the specified tree, and terminate |
| QuorumGeneration.GenerateQuorumSet | crates/app/src/compat_config.rs:1170-1183 | sorting and building from Critical gives the specified tree |
| QuorumGeneration.BuildTiersAccepts | crates/app/src/compat_config.rs:1230-1258 | on sorted input the "must be ascending" error never occurs; success depends on uniform and redundant domains only |
| GeneratedQuorums.SortIsStable | crates/app/src/compat_config.rs:1175-1181 | the sort keeps the validators of one quality and home domain in input order |
| GeneratedQuorums.GenerateAccepts | crates/app/src/compat_config.rs:1170-1258 | generation succeeds exactly when each High or Critical domain has at least three validators and no run of a domain mixes qualities |
| GeneratedTolerance.AcceptsExactly | crates/app/src/compat_config.rs:1170-1258 | the same told from the entries alone: at least three validators in every High or Critical domain, and no domain that is both the last of one quality and the first of the next |
| GeneratedQuorums.GeneratedShape | crates/app/src/compat_config.rs:1192-1258 | one inner set per quality and home domain with its validators in order, in the tier of its quality; no direct validators above them, tiers nested by descending quality, at 100 percent for Critical and 67 for the others |
| GeneratedTolerance.SatisfiedExactly | crates/app/src/compat_config.rs:1192-1258 | a node set satisfies the converted tree exactly when it has 51% of the validators in every Critical home domain and the tiers below are up, a lower tier being up with 67% of its domains, the tiers below it counting as one; better qualities come first and domains in ascending order |
| GeneratedTolerance.EveryCriticalNeeded | crates/app/src/compat_config.rs:1249-1255 | no satisfying node set does without a Critical domain |
| GeneratedQuorums.LeadingIsAll | crates/app/src/compat_config.rs:1202-1236 | the groups a tier takes are exactly those of its quality |
| GeneratedQuorums.GeneratedLeaves | crates/app/src/compat_config.rs:1170-1258 | the leaves of the generated tree are exactly the input keys, as a multiset |
| GeneratedQuorums.GeneratedIntersection | crates/app/src/compat_config.rs:1192-1258 | any two node sets that satisfy a generated and converted tree share one of its nodes, even when keys repeat |
| QuorumLoader.LoadQset | crates/app/src/compat_config.rs:1280-1355 | the table loop and its recursion load the specified tree or its first error |
| QuorumLoader.LoadKeysLoop | crates/app/src/compat_config.rs:1306-1329 | keys are resolved in order: the node's own key for `$self`, the first token otherwise |
| QuorumLoader.FirstTokenFixed | crates/app/src/compat_config.rs:1322-1326 | a key is its own first token exactly when it has no whitespace, or nothing else |
| QuorumLoader.FirstTokenMeans | crates/app/src/compat_config.rs:1322-1326 | the token is the maximal run without whitespace after the leading whitespace, and the whole string when it has none |
| QuorumLoader.KeyWithAlias | crates/app/src/compat_config.rs:1322-1326 | a key followed by a common name is read as the key |
| QuorumLoader.KeysReadExactly | crates/app/src/compat_config.rs:1306-1329 | every listed text is read as its token, and `$self` as the node's own key; only `$self` without a usable seed fails, telling a missing seed from a bad one |
| QuorumLoader.KeysRoundTrip | crates/app/src/compat_config.rs:1306-1329 | printed keys load back exactly when each loads as itself |
| QuorumLoader.RoundTrip | crates/app/src/compat_config.rs:1280-1355 | printing and loading a tree gives it back exactly when it is printable |
| QuorumLoader.TooDeepRejected | crates/app/src/compat_config.rs:1286-1289 | any tree of more than five levels is rejected |
| QuorumLoader.LoadsExactly | crates/app/src/compat_config.rs:1280-1355 | exactly which tables load: at most five levels, every entry of the right kind at every level, and something listed in each table |
| QuorumLoader.LoadedTree | crates/app/src/compat_config.rs:1291-1354 | a loaded tree lists the keys and inner sets of its table in order, with the percentage named or 67 |
| QuorumErrors.LoadErrorIsThere | crates/app/src/compat_config.rs:1280-1355 | the groups and content of a load error lead to an entry that has that fault |
| QuorumLoader.LoadedIsWellFormed | crates/app/src/compat_config.rs:1286-1354 | whatever the table, a tree that loads has at most five levels, and entries and a percentage in 1..100 at every node |
| QuorumLoader.DefaultPercent | crates/app/src/compat_config.rs:1291 | a table that names no percentage loads with 67 |
| Maintainer.MaintainedTable.DeleteWithRetry | crates/app/src/maintainer.rs:385-420 | one to three calls, all but the last busy; it gives up on the third busy call or the first other failure, and then nothing is removed |
| Maintainer.MaintainedTable.DeleteInChunks | crates/app/src/maintainer.rs:365-450 | exactly the oldest ledgers of the successful chunks are gone, and the returned total is the rows removed |
| Maintainer.AttemptMeans | crates/app/src/maintainer.rs:385-420 | the attempts end with the first call that is not busy, or with the last one allowed |
| Maintainer.ChunksWithinBudget | crates/app/src/maintainer.rs:365-450 | never more than the budget is requested, in at most three calls for every two ledgers of it, and at most one chunk is tried after the eligible ledgers are gone |
| Maintainer.ChunksRefineBulk | crates/app/src/maintainer.rs:365-450 | chunked deletion ends like one bulk deletion of the oldest min(budget, eligible) ledgers exactly when every chunk needed succeeds, that is at its first call or after one or two busy ones; otherwise what the chunks before the first failed one cover is gone |
| Maintainer.Database.EvictStale | crates/app/src/maintainer.rs:462-503 | under every combination of eviction and re-read errors the minimum used covers what is still queued |
| Maintainer.Database.RunMaintenance | crates/app/src/maintainer.rs:452-565 | every ledger a still queued checkpoint needs, and every ledger inside the RPC window, is kept in the tables that need it, whatever failed; when eviction does not fail the publish threshold trails the last closed ledger by at most 31 checkpoint intervals |
| Maintainer.TrimKeeps | crates/app/src/maintainer.rs:536-564 | a trim never touches a ledger above its threshold |
| Maintainer.PublishLedgersAboveThresholds | crates/app/src/maintainer.rs:505-521 | the ledgers a queued checkpoint needs lie above both publish thresholds, except ledger 0 |
| Maintainer.ThresholdsExactly | crates/app/src/maintainer.rs:462-521 | which ledgers each threshold admits: those that even a checkpoint later, the RPC window later, or 30 checkpoints later do not reach the limit, and ledger 0 |
| Maintainer.UnneededLedgersGo | crates/app/src/maintainer.rs:505-564 | while no call fails and the budget covers the table, every ledger that neither publishing nor the RPC window needs is removed |
| Maintainer.PublishThresholdLag | crates/app/src/maintainer.rs:505-509 | a queue minimum that is not stale keeps the publish threshold within 31 checkpoint intervals of the last closed ledger |
| EwmaMeters.MeterInner.TickIfNecessary | crates/app/src/medida_compat.rs:143-159 | the lazy loop applies as many ticks as whole intervals have passed and carries the remainder |
| EwmaMeters.MeterInner.Mark | crates/app/src/medida_compat.rs:162-168 | a mark ticks first and then counts |
| EwmaMeters.MeterInner.MarkAt | crates/app/src/medida_compat.rs:232-238 | marking nothing does not even tick |
| EwmaMeters.MeterInner.SnapshotAt | crates/app/src/medida_compat.rs:246-255 | a reading shows the mean rate and the three rates after one, two and three catch-ups, which are one as long as fewer than 2^32 ticks have passed |
| EwmaMeters.LazyTickCatchesUp | crates/app/src/medida_compat.rs:143-159 | lazy ticking at an instant agrees with a timer that ticked at every boundary up to it |
| EwmaMeters.LazyRefinesEager | crates/app/src/medida_compat.rs:143-168 | after any run without a mark exactly one interval after the last tick, a reading shows the rates of the eagerly ticked meter, or is one tick behind when it is itself taken at that instant |
| EwmaMeters.OffBoundaryReading | crates/app/src/medida_compat.rs:143-168 | off the 5 s grid from the start, every reading equals that of the eagerly ticked meter |
| EwmaMeters.ReadsChangeNothing | crates/app/src/medida_compat.rs:170-181 | off the 5 s grid, leaving out all earlier reads does not change a reading |
| EwmaMeters.AgreementIsExact | crates/app/src/medida_compat.rs:143-168 | over a whole run the off-grid readings agree with the eager meter exactly when no event is marked one interval after the last tick |
| EwmaMeters.NextMarkExactly | crates/app/src/medida_compat.rs:146 | after a run without late marks, one more mark keeps the readings before the next boundary right exactly when it counts nothing or is not late |
| EwmaMeters.LateMarkRaises | crates/app/src/medida_compat.rs:146 | a late mark makes all three rates too high until the next boundary |
| EwmaMeters.LateReadingExactly | crates/app/src/medida_compat.rs:146 | a reading at the late instant agrees exactly when the tick it misses would move no rate |
| EwmaMeters.BoundaryMarkDiffers | crates/app/src/medida_compat.rs:146 | a sample run with one late mark, in numbers |
| EwmaMeters.TickTwice | crates/app/src/medida_compat.rs:143-159 | catching up twice at one instant is catching up once |
| EwmaRates.ReadingIsDecayedAverage | crates/app/src/medida_compat.rs:96-112 | what a reading shows after any run: the number of events, their mean per second since the start, and per average (1-alpha)^n times the rate of what the first tick folded in plus alpha (1-alpha)^(n-i) times that of each later tick, each average with its own alpha |
| EwmaRates.ReadingAveragesIntervals | crates/app/src/medida_compat.rs:143-168 | without late marks and off the 5 s grid what the ticks fold in is the number of events in each interval that is over |
| EwmaRates.IdleDecay | crates/app/src/medida_compat.rs:96-106 | without events each rate decays by its own factor 1-alpha at every tick |
| EwmaRates.MeanRateIsMean | crates/app/src/medida_compat.rs:184-195 | the mean rate times the seconds since the start is the number of events |
| Reservoirs.ReservoirInner.Update | crates/app/src/medida_compat.rs:356-364 | the ring holds the last 256 observations with the oldest at the write position once it is full |
| Reservoirs.ReservoirInner.TakeSnapshot | crates/app/src/medida_compat.rs:366-399 | the summary is the specified one of those observations |
| Reservoirs.SnapshotOfPermutation | crates/app/src/medida_compat.rs:366-399 | the summary depends on the stored values only as a multiset |
| Reservoirs.QuantileInRange | crates/app/src/medida_compat.rs:274-296 | a quantile of sorted values lies between the first and the last |
| Reservoirs.QuantileMonotone | crates/app/src/medida_compat.rs:274-296 | quantiles grow with the argument |
| Reservoirs.QuantileAtSample | crates/app/src/medida_compat.rs:274-296 | the quantile i/(n-1) is element i |
| Reservoirs.QuantileInterpolates | crates/app/src/medida_compat.rs:274-296 | between two neighbouring samples the quantile moves linearly |
| Reservoirs.SummaryMeans | crates/app/src/medida_compat.rs:366-399 | each field of the summary is the number it is named after: the ends, the sum, the mean and the six quantiles of the sorted observations |
| Reservoirs.SummaryBounds | crates/app/src/medida_compat.rs:366-399 | every observation lies between the minimum and the maximum |
| Markers.SplicedOccurrences | scripts/lib/gen-alarm-surfaces.py:52 | a one-line text occurs in a spliced document exactly where it occurs in one of the three parts: it cannot straddle the inserted newlines |
| Markers.ReplacesExactly | scripts/lib/gen-alarm-surfaces.py:29-52 | replacement succeeds exactly when both markers are there once and in order, and keeps all text up to the begin marker's end and from the end marker on |
| Markers.ReplaceIsIdempotent | scripts/lib/gen-alarm-surfaces.py:29-52 | a successful replacement repeated gives the same text exactly when the inserted text contains neither marker |
| Markers.CheckAfterWrite | scripts/lib/gen-alarm-surfaces.py:81-96 | writing both tables and then checking reports up to date exactly when the regions are not nested |
| Markers.DocumentMarkers | scripts/lib/gen-alarm-surfaces.py:23-26 | the four markers of the document are one-line comments, all different |

## Left out

- Prometheus text parsing, label extraction, message templates, the reported threshold value, the per-reason breakdown, aggregate rendering, telemetry and JSON output: they do not feed back into stored state.
- The histogram kinds and the plain counter kind keep no state; `Catalog` takes their verdicts as given.
- The histogram percentile adds up bucket deltas that are already cumulative (scripts/lib/eval-alarms.py:1100-1108), so it is not claimed to be a percentile.
- Counters are non-negative integers and ratios exact fractions: float rounding, truncation to int and `round(ratio, 4)` are not modelled.
- Snapshots with hand-edited, non-numeric values (on which the evaluator raises) are excluded by `Readable` and `Represents`; in `CatalogEvaluator` the gauge and dynamic files hold numbers, and its files are separate, so a streak file is assumed not to be named like one of the reserved files.
- The temporary file and rename of a snapshot write, the JSON form of the cooldown file and its migration: a file is its dictionary. `\r\n` counts as two line breaks, which only adds an empty line.
- Locks, threads, sleeps, clocks, logging and metrics counters of the Rust components; instants are nanosecond numbers.
- EwmaMeters.MeterInner.TickIfNecessary: the 32-bit truncation of the tick count is modelled; the widths of the event counters are not, and the three decay constants are positive parameters, since their exponentials are outside real arithmetic here.
- Reservoirs.ReservoirInner.TakeSnapshot: no standard deviation (a square root), and the values are reals.
- Strkey parsing, secret keys and XDR length limits: key parsing and `$self` resolution are parameters.
- QuorumSets.NormalizePreserves: for arbitrary comparison functions and without the variant that also removes a node.
- QuorumSets.ConvertToXdr: totals are unbounded naturals, not 32-bit numbers.
- The flat key-by-key configuration translation, environment overrides and the quorum safety checks on manual sets: many easy branches.
- Tables of a configuration file are their entries in iteration order; TOML text is not parsed.
- Maintainer.MaintainedTable.DeleteInChunks: one delete call covers one table of ledgers; the several tables behind the SCP and transaction history calls, and a failure between their statements, are not told apart. SQL is the stated contract: oldest ledgers at or below the threshold, atomic, nothing on error.
- Maintainer.Database.RunMaintenance: checkpoint frequency and row counts are unbounded naturals; ledger 0 is left aside as described above.
- Rendering of the two document tables: they are arbitrary texts.
