# Dynamic-routing behaviour metrics, modelled in Dafny

This project models the analysis core of the dynamic-routing metrics tools.
That core has two halves.

- **Behaviour session analysis** (`generate_plots.py`). `DynRoutData.loadBehavData`
  takes the arrays of one behaviour session and derives what the plots use:
  - the frame timeline;
  - the per-trial times;
  - the trial numbering within blocks;
  - the reconstructed auto-reward flags of older files;
  - the merged lick times.

  It then classifies every trial (catch, multimodal, go, nogo, the three nogo
  sub-kinds, and the hit / miss / false alarm / correct rejection / catch
  response outcomes). A forward scan marks the trials where the mouse had
  disengaged. Finally it builds ten per-block lists of response rates and d′
  values. Beside it sit the d′ boundary correction `adjustResponseRate`,
  `calcDprime` and the running-total loops of the cumulative volume and
  reward count plots.
- **Training-history table** (`generate_metrics.py`). It starts from the
  `<td>` rows of the mtrain session-metrics table. Rows are checked and
  filtered by subject and metric, then grouped into one summary per session.
  The summaries are sorted by session date and cut off after the target
  session. Each one becomes a history entry whose metric tuples are
  transposed into per-block rows. The result is rendered as nested HTML
  tables, newest session first.

Modules, in dependency order:

| file | module | models |
|---|---|---|
| wrappers.dfy | Wrappers | `Option` / `Result` |
| masks.dfy | Masks | numpy boolean masks, fancy indexing, `sum`, `cumsum` |
| signal_detection.dfy | SignalDetection | `adjustResponseRate`, `calcDprime`, rates with NaN as `None` |
| session_loader.dfy | SessionLoader | lines 48-114 of `loadBehavData` as functions on values |
| trial_classifier.dfy | TrialClassifier | lines 144-159 |
| engagement.dfy | Engagement | the engagement loop of lines 161-166, as a method |
| block_metrics.dfy | BlockRates | the per-block rates of lines 168-192 |
| dyn_rout_data.dfy | DynRout | the `DynRoutData` class, whose methods update its fields |
| cumulative.dfy | Cumulative | the `pop(0)` running-total loops |
| metrics_summary.dfy | MetricsSummary | `session_metrics_summary_to_training_summary` |
| training_history.dfy | TrainingHistory | `get_mtrain_training_history` from the extracted rows on |
| metrics_view.dfy | MetricsView | `generate_block_value_view`, `generate_metrics_view`, `generate_mtrain_table` |

Foreign calls are modelled as function-typed parameters whose values are left
open:

- scipy's `norm.ppf` is `probit: real -> real`. Only the lemmas about the sign
  of d′ assume that it is increasing.
- The network and library calls of the metrics side are grouped in
  `MetricsSummary.Services`:
  - `strptime` is `parseDate`, and dates are comparable integers;
  - `strftime` is `formatDate`;
  - the stage-name lookup is `stageName`, `None` where one of its queries or key lookups raises;
  - `ast.literal_eval` is `literalEval`.
- The float formatting `{value: .2f}` is `formatFloat`.

The `'distract' in taskVersion` test is a `bool` parameter. A rate whose
denominator is zero (numpy's NaN) is `None`. Times, rates and volumes are
`real`.

Lick merging compares each detection with the previous *detection*, not
with the previous kept lick; `SessionLoader.MergeLicksComparesRawNeighbours`
shows detections 0.03 s apart merging into their first lick.

## Model

| member | source | states |
|---|---|---|
| SignalDetection.Rate | generate_plots.py:180-189 | a count ratio is undefined exactly when the denominator is 0; otherwise it solves `r·n = k`, lies in [0, 1] for `k ≤ n`, and is 0 / 1 exactly for no / all trials |
| SignalDetection.AdjustResponseRate | generate_plots.py:13-18 | 0 becomes 0.5/n, 1 becomes 1 − 0.5/n, any other rate is unchanged; undefined only for a boundary rate with n = 0; for r in [0, 1] and n ≥ 1 the result is strictly inside (0, 1) |
| SignalDetection.DprimeDefinedForCountRates | generate_plots.py:21-25 | d′ of two count rates is defined exactly when both trial counts are non-zero, and then it is probit(hr) − probit(far) with both corrected rates strictly inside (0, 1) |
| SignalDetection.DprimeOfEqualRates | generate_plots.py:21-25 | equal rates over equal counts give d′ = 0 for any probit |
| SignalDetection.DprimeAntisymmetric | generate_plots.py:21-25 | swapping the two rates and their counts negates d′ and keeps its definedness |
| SignalDetection.DprimeBothZero | generate_plots.py:13-25 | no hits and no false alarms out of 50 each are both corrected to 0.01, so d′ is exactly 0 |
| SignalDetection.DprimePerfectPerformance | generate_plots.py:13-25 | all hits and no false alarms out of 10 each give probit(0.95) − probit(0.05), which is positive for an increasing probit |
| SignalDetection.DprimePositiveWhenMoreHits | generate_plots.py:13-25 | over the same n ≥ 2 trials, more hits than false alarms gives a defined, positive d′ |
| SignalDetection.DprimeSingleTrial | generate_plots.py:13-25 | with one trial of each kind, both 1 and 0 are corrected to 0.5, so d′ = 0 |
| SignalDetection.AdjustedCountRateBounds | generate_plots.py:13-18 | the corrected rate of k out of n > 0 trials is defined and strictly inside (0, 1) |
| Masks.TakeAllPositions | generate_plots.py:52-57 | fancy indexing with every position in order gives the array back |
| Masks.TakeNegativeTwin | generate_plots.py:52-57 | a negative index `i - len` reads the same element as its in-range twin `i` |
| Masks.TakeConcat | generate_plots.py:52-57 | indexing with two index arrays in turn is indexing with each and concatenating; it raises exactly when one part does |
| Masks.Diff | generate_plots.py:111 | `np.diff(t)` has one entry fewer than a non-empty `t`, entry i being `t[i+1] - t[i]` |
| Masks.CountTrueDisjointUnion | generate_plots.py:180-189 | counting the union of two disjoint masks adds their counts |
| Masks.CountCompress | generate_plots.py:180-189 | `x[mask].sum()` is the count of `x & mask` |
| Masks.CompressPositions | generate_plots.py:112 | `s[mask]` is the subsequence of `s` at exactly the true positions, in order |
| SessionLoader.FrameTimes | generate_plots.py:49 | the timeline has one more entry than there are frame intervals |
| SessionLoader.FrameTimeIsPrefixSum | generate_plots.py:49 | frame k starts at the sum of the first k intervals |
| SessionLoader.FrameTimesTimeline | generate_plots.py:49 | the timeline starts at 0, and each entry adds one interval to the previous one |
| SessionLoader.FrameTimesNonDecreasing | generate_plots.py:49 | with no negative interval the timeline never decreases |
| SessionLoader.InsertSortedSpec | generate_plots.py:77 | sorted insertion without duplicates keeps the sequence strictly increasing and adds exactly the new value |
| SessionLoader.UniqueSpec | generate_plots.py:77 | `np.unique` is strictly increasing and holds exactly the values of its input |
| SessionLoader.BlockTrialLength | generate_plots.py:77 | the concatenated `arange`s give one number per trial |
| SessionLoader.BlockTrialIsRankWithinBlock | generate_plots.py:77 | when blocks never go down, a trial's number is the count of earlier trials of its block |
| SessionLoader.FirstIndex | generate_plots.py:78-79 | `np.where(s == v)[0][0]` is the first position holding `v` |
| SessionLoader.BlockFirstTrials | generate_plots.py:78-79 | one first trial per distinct block, in ascending block order, each the first trial of that block |
| SessionLoader.AutoRewardFlags | generate_plots.py:90-100 | succeeds exactly when the file has the schedule field or a long-enough `trialAutoRewarded`; a short schedule is rebuilt as the first `newBlockAutoRewards` trials of each block; rebuilt rewarded flags are the scheduled trials with a reward at stimulus onset plus the auto-reward delay; flags read from the file are kept, truncated |
| SessionLoader.ReconstructedAutoRewardIsScheduled | generate_plots.py:97-100 | on both reconstruction paths an auto-rewarded trial is a scheduled one |
| SessionLoader.LickMaskOfDiff | generate_plots.py:111 | on non-empty detections the mask is `[True]` followed by `np.diff(t) > 0.05`, built from the independent `Diff` |
| SessionLoader.MergeLicksKeepsFirst | generate_plots.py:108-114 | no detections give no licks; otherwise the first detection is kept |
| SessionLoader.MergeLicksPositions | generate_plots.py:111-112 | the merged licks are the subsequence of detections at the first position and at every position more than 0.05 s after its raw predecessor |
| SessionLoader.MergeLicksIdempotent | generate_plots.py:111-112 | on time-ordered detections, merging again changes nothing |
| SessionLoader.MergeLicksComparesRawNeighbours | generate_plots.py:111 | detections 0.03 s apart merge into their first lick, although the third is 0.06 s after it |
| SessionLoader.LickTimes | generate_plots.py:107-114 | lick times exist exactly when every lick frame is a valid index; no lick frames give no licks |
| SessionLoader.LickTimesAreFrameTimes | generate_plots.py:107-114 | every lick time is a frame time, and the first detected lick is kept |
| SessionLoader.PerTrial | generate_plots.py:54 | the model's `a[:nTrials]`: a numpy slice never fails, but the model rejects an `a` shorter than `nTrials` as `TooShort`, and otherwise gives its first `nTrials` entries |
| SessionLoader.LoadTrialTimes | generate_plots.py:49-57 | succeeds exactly when every trial end, start and stimulus frame is a valid index; trial count is the number of end frames; each time is the frame time of its frame |
| SessionLoader.BlockIndexRead | generate_plots.py:81 | a block number indexes `blockStimRewarded` exactly when it lies in 1-len..len; blocks 1..len read entries 0..len-1, and blocks 1-len..0 wrap to the end (block 0 reads the last entry) |
| SessionLoader.LoadTrialLabels | generate_plots.py:65-81 | succeeds exactly when the label arrays are long enough, there is a trial, and every block indexes `blockStimRewarded`; the rewarded stimulus of each trial is that of its block |
| SessionLoader.DeliveredAtOnset | generate_plots.py:97 | `np.in1d(stimStartFrame + autoRewardOnsetFrame, rewardFrames)` entry by entry |
| SessionLoader.LoadTrialRewards | generate_plots.py:83-100 | succeeds exactly when reward frames are valid indices and the per-trial arrays are long enough; the auto-reward flags are those of `AutoRewardFlags` |
| SessionLoader.AssembleSession | generate_plots.py:78-79 | the assembled session is valid, and each block's start and first stimulus times are those of its first trial |
| SessionLoader.LoadSession | generate_plots.py:48-114 | loading succeeds exactly when none of the conditions of lines 48-101 and 107-114 raises; the result is a valid session whose timeline, trial end, start and stimulus times, repeats, stimuli, blocks, block numbering, rewarded stimuli, reward times and sizes, responses, rewarded flags, auto-reward flags, earned rewards and lick times are those the raw arrays give at numpy's indices (`TrialArraysOf`) |
| SessionLoader.LoadedBlockStartTimes | generate_plots.py:78-79 | each block's start time is the start time of the first trial of that block |
| SessionLoader.LoadedBlockTrial | generate_plots.py:77-95 | when blocks never go down, trials are numbered 0, 1, 2, … within each block, and a rebuilt schedule holds the first `newBlockAutoRewards` trials of each block |
| SessionLoader.LoadedRewardEarned | generate_plots.py:97-101 | a trial's reward is earned exactly when it was rewarded and not auto-rewarded; a rebuilt auto-reward flag needs both the schedule and a delivered reward |
| TrialClassifier.DropLastUndoesAppend | generate_plots.py:148 | `s[:-1]` undoes appending one character, so `vis1` and `sound2` give the modalities `vis` and `sound` |
| TrialClassifier.EqualAllTrue | generate_plots.py:144-147 | element-wise `==` is all true exactly when the arrays are equal, and is symmetric |
| TrialClassifier.Classify | generate_plots.py:144-159 | every mask has one entry per trial |
| TrialClassifier.GoNogoExclusive | generate_plots.py:144-147 | go and nogo never overlap; go excludes auto-reward-scheduled trials; nogo excludes catch and multimodal trials; a plain unscheduled trial is go or nogo according to whether its stimulus is rewarded |
| TrialClassifier.CatchTrialsAreNotGo | generate_plots.py:144-147 | unless some block rewards a stimulus named "catch", a catch trial is neither go nor nogo |
| TrialClassifier.NogoSubMasks | generate_plots.py:148-153 | the three nogo sub-masks lie inside nogo and cover it, and other-modality nogo overlaps neither of the other two |
| TrialClassifier.SameModalAndOtherModalGoMayOverlap | generate_plots.py:148-152 | a concrete trial is both same-modality nogo and other-modality go |
| TrialClassifier.OutcomesPartition | generate_plots.py:155-159 | hit and miss partition go, false alarm and correct rejection partition nogo, each by the response; a catch response is a catch trial with a response |
| TrialClassifier.OutcomeCounts | generate_plots.py:155-158 | over any trial mask, hits plus misses count the go trials and false alarms plus correct rejections count the nogo trials |
| Engagement.GoResponses | generate_plots.py:163 | one response per go trial up to and including trial i |
| Engagement.EngagedTrials | generate_plots.py:161-166 | the scan marks trial i engaged exactly when the test of lines 164-165 passes at i |
| Engagement.MissStreak | generate_plots.py:161-166 | the run of unanswered go trials never exceeds the go trials seen |
| Engagement.SuffixCountZero | generate_plots.py:165 | the last t responses sum to 0 exactly when they end in at least t misses |
| Engagement.TrailingFalseOfGoResponses | generate_plots.py:163 | selecting the go responses turns the miss streak into the trailing misses of the selection |
| Engagement.EngagedIffShortMissStreak | generate_plots.py:161-166 | a trial is disengaged exactly when more than 10 go trials occur up to it and the last 10 were all missed |
| Engagement.EngagedWhileFewGoTrials | generate_plots.py:164 | a trial with at most 10 go trials up to and including it is engaged |
| Engagement.EngagedAtGoHit | generate_plots.py:163-165 | an answered go trial is always engaged |
| Engagement.DisengagementPersists | generate_plots.py:161-166 | once disengaged, the mouse stays disengaged until a go trial gets a response |
| BlockRates.BlockUniverse | generate_plots.py:179 | a trial is in a block's universe exactly when it is in that block, engaged and not a repeat |
| BlockRates.SelectCount | generate_plots.py:180-189 | a selected count never exceeds the size of the selection |
| BlockRates.ClassifyIsNested | generate_plots.py:155-159 | hits lie in go, false alarms in nogo, catch responses in catch |
| BlockRates.SelectCountSubset | generate_plots.py:180-189 | counting a sub-mask over a universe never exceeds counting the mask |
| BlockRates.SelectCountIsAndCount | generate_plots.py:180-189 | `x[u].sum()` counts the trials where both `x` and `u` hold |
| BlockRates.BlockRatesAreProportions | generate_plots.py:180-189 | the hit count is at most the block's go count, and every defined rate lies in [0, 1] |
| BlockRates.BlockRatesDefinedness | generate_plots.py:180-192 | each rate is undefined exactly when its block has no trial of that kind; each d′ is defined exactly when both of its counts are non-zero |
| BlockRates.BlockRateExtremes | generate_plots.py:181-183 | all go trials answered gives hit rate 1 with hit count equal to the go count; no false alarm gives false-alarm rate 0 |
| BlockRates.AllHitsCount | generate_plots.py:181-182 | with every go trial answered, the hit count is the go count |
| BlockRates.NoFalseAlarmsCount | generate_plots.py:183 | with no false alarm in the universe, the false-alarm count is 0 |
| BlockRates.NoCatchTrialsNoCatchRate | generate_plots.py:180 | a block without catch trials has an undefined catch response rate |
| BlockRates.BlockMetricsLocal | generate_plots.py:179-192 | a block's metrics depend only on the trials of its universe |
| BlockRates.BlockCountsLocal | generate_plots.py:179-190 | a block's counts depend only on the trials of its universe |
| BlockRates.BlockMetricsList | generate_plots.py:178-192 | one metrics entry per element of `blockStimRewarded` |
| DynRout.DynRoutData.constructor | generate_plots.py:30-32 | the frame rate is 60 and the engagement threshold is 10 |
| DynRout.DynRoutData.LoadBehavData | generate_plots.py:35-192 | succeeds exactly when the session loads and leaves the object unchanged otherwise; on success the object holds the loaded session, its classification, the scan's engagement flags and one entry per block in each of the ten lists |
| DynRout.DynRoutData.DeriveFrom | generate_plots.py:144-192 | stores the session, its classification, the engagement flags and the per-block lists |
| DynRout.DynRoutData.FillBlockLists | generate_plots.py:168-192 | after the loop, the ten lists hold the block metrics entry by entry, in block order |
| DynRout.DynRoutData.AppendBlockMetrics | generate_plots.py:180-192 | each of the ten lists grows by that block's value and nothing else changes |
| Cumulative.RewardsUpTo | generate_plots.py:464-467 | the rewards up to trial j never exceed all the rewards |
| Cumulative.RunningTotalByTrial | generate_plots.py:462-467 | the loop fails (`pop` from an empty list) exactly when there are more rewarded trials than totals; otherwise trial j records the k-th total, k being the rewards up to j, or 0 before any |
| Cumulative.InterTrialTotalsStep | generate_plots.py:464-467 | an unrewarded trial repeats the previous value; a rewarded trial takes the next total |
| Cumulative.InterTrialTotalsOfCumSum | generate_plots.py:461-467 | over cumulative sums, trial j's value is the sum of the first k reward sizes |
| Cumulative.InterTrialCumSumNonDecreasing | generate_plots.py:461-467 | with no negative reward size the series never decreases |
| Cumulative.CumulativeVolume | generate_plots.py:459-467 | the volume up to each trial is the sum of the reward sizes of the rewards so far, and it never decreases |
| Cumulative.RewardCountAsWrittenSumsVolumes | generate_plots.py:486-492 | two 0.005 mL rewards give 0.005, 0.01 rather than the counts 1, 2 |
| Cumulative.CumulativeRewardCount | generate_plots.py:486-492 | as intended, trial j records the number of rewarded trials up to and including j |
| MetricsSummary.NormalizeMetricCases | generate_metrics.py:75-85 | a missing metric becomes `(None,)`, a tuple is kept, any other value becomes a 1-tuple, and an unreadable value raises |
| MetricsSummary.NormalizedMetrics | generate_metrics.py:76-85 | succeeds exactly when every metric normalises; then entry i is metric i's tuple; otherwise the first failing metric decides the error |
| MetricsSummary.NormalizedMetricsPrefixFailure | generate_metrics.py:76-85 | a failure on the first metrics is the failure of the whole loop |
| MetricsSummary.CollectMetrics | generate_metrics.py:74-85 | the loop computes `NormalizedMetrics` of the three shown metrics |
| MetricsSummary.MaxLen | generate_metrics.py:90 | the length of the longest tuple: no tuple is longer and one attains it |
| MetricsSummary.ZipLongestColumns | generate_metrics.py:90 | column i of the transposed rows is tuple i followed by `None` |
| MetricsSummary.BlockWiseRowsShape | generate_metrics.py:87-91 | as many rows as the longest tuple, and row k is `[k, m1[k], m2[k], m3[k]]` with `None` where a tuple is shorter |
| MetricsSummary.TrainingSummaryShape | generate_metrics.py:63-97 | the entry fails exactly when the stage lookup raises or a metric value cannot be read, and a failed stage lookup decides the error because it comes first; otherwise it carries the formatted date, the stage name and one four-cell row per block, numbered from 0 |
| MetricsSummary.SessionMetricsSummaryToTrainingSummary | generate_metrics.py:63-97 | the method computes `TrainingSummary` |
| TrainingHistory.LeadingRun | generate_metrics.py:168 | the leading run of `c` is all `c` and followed by something else |
| TrainingHistory.TrailingRun | generate_metrics.py:169 | the trailing run of `c` is all `c` and preceded by something else |
| TrainingHistory.StripBracketsSlice | generate_metrics.py:168-169 | the stored value is the cell without every leading '[' and every trailing ']' that follows them, and it starts with no '[' and ends with no ']' |
| TrainingHistory.StripBracketsIdempotent | generate_metrics.py:168-169 | stripping a stripped value changes nothing |
| TrainingHistory.MapOfRowsPrefixFailure | generate_metrics.py:144-169 | the first row that raises decides the error |
| TrainingHistory.BuildSessionMetricsMap | generate_metrics.py:143-169 | the loop computes `MapOfRows` |
| TrainingHistory.StepKeys | generate_metrics.py:149-160 | one row adds its session when it contributes and the session is new, and nothing else |
| TrainingHistory.StepSessions | generate_metrics.py:158-166 | a row never changes a stored session's date or id; a new session takes the row's parsed date |
| TrainingHistory.StepMetrics | generate_metrics.py:168-169 | a contributing row stores its stripped value under its metric, and every other stored value stays |
| TrainingHistory.MapOfRowsKeys | generate_metrics.py:149-166 | the sessions in the map are exactly those with a contributing row, each dated by its first such row |
| TrainingHistory.MapOfRowsOrder | generate_metrics.py:158-166 | each session is listed once, in the order of its first contributing row, with a summary of its own id |
| TrainingHistory.AcceptedSnoc | generate_metrics.py:145-164 | the rows are accepted exactly when the earlier rows are, the last row has six cells and, if it opens a session, its date parses |
| TrainingHistory.MapOfRowsSucceeds | generate_metrics.py:145-164 | building the map succeeds exactly when every row has six cells and each session's first contributing row has a date that parses |
| TrainingHistory.MapOfRowsMetrics | generate_metrics.py:153-169 | each session holds exactly the metrics its rows name, each with the stripped value of the last such row |
| TrainingHistory.ValuesOfWellFormed | generate_metrics.py:173 | `dict.values()` holds each session's summary once and nothing else |
| TrainingHistory.SortByDatetimeSpec | generate_metrics.py:172-175 | the result is sorted by datetime, is a permutation of the input, and keeps input order among equal datetimes |
| TrainingHistory.TruncateAtSession | generate_metrics.py:177-195 | the loop with `break` / `else` computes `HistoryUpTo` |
| TrainingHistory.HistoryUpToAbsent | generate_metrics.py:193-195 | without the target session the history fails, with SessionNotFound when every summary converts |
| TrainingHistory.HistoryUpToPresent | generate_metrics.py:177-192 | with the target first at position k, the history succeeds exactly when summaries 0..k convert, and then it is their k + 1 entries in order |
| TrainingHistory.GetMtrainTrainingHistory | generate_metrics.py:143-197 | the method computes `TrainingHistoryOf` |
| TrainingHistory.SortedSummaries | generate_metrics.py:172-175 | the sorted list holds a summary of a session exactly when the map does, and then it is that session's summary |
| TrainingHistory.TrainingHistoryNeedsTarget | generate_metrics.py:193-195 | a target session with no contributing row gives no history |
| TrainingHistory.TrainingHistoryEndsAtTarget | generate_metrics.py:143-197 | a history is the date-ascending, stably sorted run of session summaries up to the target session's first summary, which comes last and is built from the target's rows |
| MetricsView.LinesOfJoin | generate_metrics.py:228-231 | `"\n".join` is undone by `split('\n')` when no line holds a newline |
| MetricsView.LinesFramed | generate_metrics.py:240-242 | text framed around joined one-line rows reads back as those rows, with the frame on the first and last |
| MetricsView.NatToString | generate_metrics.py:211 | `str(n)` is a non-empty string of digits |
| MetricsView.NatToStringRoundTrip | generate_metrics.py:211 | the decimal text of a number reads back as that number |
| MetricsView.BlockRowsRoundTrip | generate_metrics.py:228-231 | the joined block rows read back, line by line, as the block rows |
| MetricsView.BodyLines | generate_metrics.py:240-242 | the body reads back as the block rows framed by `<tbody>` and `</tbody>` |
| MetricsView.MetricsViewLines | generate_metrics.py:219-244 | line by line the corrected view is the table opening, the head (`<thead></thead>` when hidden), one line per block row inside the body tags, and the closing tags |
| MetricsView.MetricsViewAsWrittenClosesBodyTwice | generate_metrics.py:240-244 | as written, a second, bare `</tbody>` line follows the already-closed body |
| MetricsView.MetricsViewAsWrittenOneLineLonger | generate_metrics.py:240-244 | the view as written is exactly one line longer than the corrected one |
| MetricsView.RowsNewestFirst | generate_metrics.py:249-255 | over a date-sorted history ending at the target, the rows start with the target and datetimes never increase down the rows |
| MetricsView.MtrainTableNewestFirst | generate_metrics.py:247-257 | the table is built exactly when the history is; its first row is the target session with the metric header visible, every later row has it hidden, each row shows the matching summary, and datetimes never increase down the table |

## Findings

| source | as written | input that shows it | evidently intended | confidence | as-written member | corrected member |
|---|---|---|---|---|---|---|
| generate_plots.py:486-492 | the reward count is cumulated from `np.cumsum(obj.rewardSize)`, so it is the cumulated volume | two rewarded trials with `rewardSize` 0.005 each give 0.005, 0.01 | the counts 1, 2: a unit per reward | not executed | Cumulative.RewardCountAsWrittenSumsVolumes | Cumulative.CumulativeRewardCount |
| generate_metrics.py:240-244 | `table_html` already ends with `</tbody>\n`, and the return adds another `</tbody>` | any history entry, e.g. one with no block rows | the body closes once, then the table closes | not executed | MetricsView.MetricsViewAsWrittenClosesBodyTwice | MetricsView.MetricsViewLines |

## Left out

- File reading. h5py reads of `generate_plots.py:37-47, 59-72, 116-142` are not modelled, and the session arrays are the `RawSession` datatype. This leaves out the subject-name regex (line 42), `rigName` and the other metadata, `responseWindowTime` (line 73), `responseTimes` (lines 104-105), `trialResponseFrame`, the running speed (lines 116-119), and the contrast, grating, sound and opto fields. Nothing in the modelled core reads them.
- `newBlockGoTrials`, `newBlockNogoTrials`, `newBlockCatchTrials`, `incorrectTrialRepeats`, `incorrectTimeoutFrames` and the quiescent fields. They are read (lines 60-70) but never used by the core.
- `SignalDetection.CalcDprime`: the values of `scipy.stats.norm.ppf` are not modelled. It is the parameter `probit`. A corrected rate that numpy would make infinite (a boundary rate over 0 trials) is `None`.
- `taskVersion` is the boolean `distract` parameter. The source raises a TypeError when it is missing; the model has no such case.
- `SessionLoader.LoadSession`, `SessionLoader.PerTrial`: a per-trial array shorter than `nTrials` is rejected up front (`TooShort`), although a numpy slice never fails. numpy would either broadcast it later, fail at a different line, or not fail at all. For example, a short `trialStartFrame` loads in Python when the trials that open each block are within it (line 78 reads only those, and nothing else in lines 80-192 reads `trialStartTimes`); the model rejects it.
- `SessionLoader.LoadSession`: the IndexError that line 105 raises is not modelled, for example when `trialResponseFrame` is shorter than `nTrials` or holds a frame outside the timeline. On such input the model loads and the source raises.
- `DynRout.DynRoutData.LoadBehavData`: a failed load leaves the object unchanged. The Python object keeps the attributes assigned before the exception. The session arrays are grouped in one `Session` field and the masks in one `TrialCategories` field, not one attribute each.
- The in-place overwrite of `autoRewardScheduled` (lines 94-95) is computed as a value in `SessionLoader.AutoRewardFlags`.
- The matplotlib plotting, the lick rasters and the `np.interp` / `np.nanmean` averaging of `generate_plots.py:195-548`. Of this code, only the running-total loops of the two cumulative plots are modelled.
- The network side of `generate_metrics.py:10-59, 121-136`: `requests`, the API base URL and `get_stage_name_from_session_id`. They are the `Services` parameters.
- The BeautifulSoup row extraction of lines 137-141, including the per-cell `strip` and the dropping of empty cells. The model starts from `table_data`.
- `strptime`, `strftime` and `ast.literal_eval` are parameters. Dates are integers, and `PyOther` carries any non-scalar literal as its `str()` text.
- `MetricsView.CellText`: `format(value, ' .2f')` for floats is the `formatFloat` parameter. The cell text of a float is never checked for newlines; the line-by-line lemmas assume it has none.
- `MetricsView.MtrainTable`: the rows (`EntryRow`, `MtrainRows`) embed the corrected `MetricsView`, so the modelled table is not the one `generate_mtrain_table` emits: in the source each row also carries the extra bare `</tbody>` line of `generate_metrics.py:240-244`.
- `list.reverse()` at line 249 is modelled as the value `Reverse(history)`, not as an update in place.
- `generate_element` (a stub returning `None`) and the unused `'<thead class="opacity-0 h-0">'` assignment of lines 234-237.
- get_behavior_file.py: a data-management lookup that always raises before its return.
- The `argparse` / `__main__` drivers are not modelled.
- `SessionLoader.LickTimes`: its own contract states only when it succeeds and the empty case. What the merged times are is stated by `LickTimesAreFrameTimes` and the `MergeLicks` lemmas.
