# IoT gateway rule engine: verified model

A Dafny model of the stateful core of the gateway's rule engine and of the structures around it. Each
keeps a fast, incremental, indexed or concurrent representation of something simple; the project states
the simple thing separately and proves that the representation agrees with it in every run.

| file | what it models |
|---|---|
| `RealSeq.dfy`, `OrderStats.dfy` | recomputation of sums, extremes and variance; sorting, percentiles, quartile outliers, thresholds |
| `Ring.dfy`, `WindowSpec.dfy` | circular buffers; what a count window or a (calendar-aligned) time window must hold after a history |
| `Reporting.dfy` | what is reported after a history, when median and percentiles are right, estimates without a buffer |
| `IncrementalStats.dfy` | the statistics object with its two ring buffers, cache, percentiles and threshold counts |
| `HighPerformanceStats.dfy` | the lock-free statistics cells seen by one thread: single additions, batches, nulls, reset |
| `LockFreeAdds.dfy`, `LockFreeWindow.dfy` | concurrent additions interleaved at their atomic operations; when the window keeps the newest values |
| `Conditions.dfy` | rule conditions, comparison, evaluation, and the values a condition pins |
| `RuleIndex.dfy`, `IndexAgreement.dfy`, `Index.dfy` | what the index operations do, the index against a full scan, and the index object |
| `WorkerPool.dfy`, `PoolRuns.dfy`, `WorkerSelection.dfy` | the worker pool as a transition system, what its runs do, and worker selection |
| `IspClient.dfy` | the sidecar request/response table as a transition system |
| `AggregateManager.dfy` | state and memory accounting with 64-bit arithmetic |
| `ShardedTags.dfy` | the sharded tag map as one map |
| `LinearTrend.dfy` | the regression slope of a series |
| `ChangeRateFilter.dfy` | the change-rate filter over runs of points |
| `Options.dfy`, `Numbers.dfy` | optional values; floating-point numbers with NaN and the infinities |

`dafny verify dfyconfig.toml` checks everything.

## How to read it

Readings are `real`; NaN and the infinities are the separate case `NotFinite`, which only bumps the null
counter of the statistics (the condition evaluator and the change-rate filter treat them as numbers, and so do
their models). Running minima and maxima are extended reals. Clock readings are parameters in nanoseconds. The
classes carry a ghost history of everything accepted since the last reset, and `Valid()` says what the
fields must be for that history; since every constructor and method keeps `Valid()`, it holds in every
reachable state. Fields that the source updates together are grouped in small records (`Totals`, `Cache`,
`Ends`, `Quality`, `Figures`).

Concurrent parts are functions from a state and a move to the next state; a run is any sequence of moves,
so every interleaving is covered, and a theorem about `Run` is about every reachable state. Timeouts, task
outcomes, worker choices and I/O results are part of the move and therefore free. In the worker pool every
place a task can be is measured by an arbitrary weight function; conservation of every weight gives both
"each task is in exactly one place" and the balance of the counters.

Foreign code appears as parameters: number parsing, regular expressions, the expression engine and fields
other than the three indexed ones are functions in an environment, the square root is a function given to the
statistics object, and what is proved holds for all of them.

## Where the code does less than intended

Each of these has a lemma at a failing input, named first, and one with the exact condition.

- A calendar-aligned time window shorter than a second can put the cutoff in the future, so the reading
  just added is itself expired and the window is not the last min(size, unexpired) readings
  (`ShortCalendarWindow`; `TimeWindowExact`, `CutoffNotInFuture`).
- With one covered reading the reported median and percentiles are those of the first reading ever added; in
  a time window and without a window the "median" is the mean, and time-window percentiles are not
  interpolated. Over all windows they are right after every history exactly for count windows of a size
  other than one (`ApartWrong`, `SkewedMedianWrong`, `SkewedPercentileWrong`, `IdleWrong`;
  `MedianAlwaysRightIff`, `PercentilesAlwaysRightIff`), and after one history exactly when the first reading
  stands in for the one covered, if the window is a count window (`RightIff`); lower-rank percentiles are the interpolated ones exactly at
  whole positions or between equal neighbours (`LowerRankExact`).
- A time window with a duration of zero or less and a positive size never fills its buffer, yet percentiles
  read it: GetStats panics exactly when there are more readings than slots and their number is not a
  multiple of the slots, and reports zeros otherwise (`IdlePanics`, `IdleWrong`; `GetStats`, `StartBelowZero`).
- The above, below and in-range counts add up to the number of readings exactly when none lies strictly
  between an upper limit and a larger lower limit, and for all readings exactly when lower ≤ upper
  (`MisorderedLimits`; `ThresholdsPartition`, `ThresholdsPartitionIff`).
- The unsynchronised slot writes of concurrent additions can leave an older value over a newer one. Every
  schedule leaves the newest values in their slots exactly when there is no window, no more calls than slots,
  or only one value (`OldestOverNewest`; `NewestKeptIff`).
- Removing or replacing a rule that pins a value twice in a field leaves a stale copy, which Match still
  returns and which can displace the new version (`RemovedRuleStillReturned`, `StaleVersionDisplaces`). One
  operation keeps the index equal to a rebuild exactly when it does not do that (`StepInv`, `AddThenRemove`),
  and over a run the index has been one since the last Clear exactly when no operation since did
  (`RunInv`). Such rules are harmless while they are indexed.
- Adding a disabled rule returns before the priority list is rebuilt, and Match falls back to that list
  when no slot leads anywhere, so disabled rules are still returned (`DisabledRuleStillReturned`). One such
  addition leaves the list current exactly when it was current and the ID was not indexed (`StepInv`); over a
  run it is current exactly when no indexed rule was disabled since the last rebuild (`PriorityCurrentIff`).
- The index can lose a firing rule that pins all three fields under a negation, or to numerals, which
  compare by value but are filed by spelling (`NegationLost`, `NumeralsLost`). Agreement with a scan after a
  run has an exact condition in terms of the operations (`AgreesIff`, and `IndexAgreesWithScan` for anchored
  rules).
- Worker selection can return a busier worker once all are at a million tasks; it is least-busy on every
  snapshot of every run exactly when the batch size is at most 1000000 or there is one worker
  (`BusierWorkerChosen`, `UnbalancedSnapshot`; `SelectBestWorker`, `SelectionBalancedIff`).
- Stop does not wait for queued tasks. Nothing runs afterwards, and all tasks handed over were run or dropped
  exactly when all queues are empty (`TaskLeftBehind`; `NothingRunsAfterStop`, `AllDoneAfterStopIff`).
- A request pending when a disconnect sweeps the table closes its channel a second time, which panics;
  this happens exactly for swept requests (`PendingRequestCrashes`; `CloseTwiceIffSwept`).
- With equal request IDs one request removes the other's registration, and no response reaches that one any
  more (`TimeoutTakesOtherRegistration`). A move loses a registration exactly when another call with the ID
  registers or unregisters (`LosesIff`), so in every run a response finds a live request exactly when that
  never happened since it registered (`FoundIffUndisturbed`), and all runs are safe exactly for distinct IDs
  (`SafeIdsIff`).
- The memory check of the aggregate manager wraps around for window sizes near 2^60; it is sound exactly
  for safe window sizes (`GiantWindowAdmitted`; `AdmissionSound`). Once a state beyond the budget is stored, the
  clamp to zero fires although states are stored (`ClampFires`); the accounting of a run has been exact so far
  exactly when the table was always within the budget (`ExactSoFarIff`).
- The change-rate filter accepts any jump after a gap that is not positive or longer than the window, and after
  a NaN (`JumpUnbounded`, `NaNAcceptsAnyJump`). One accepted step is bounded for all values exactly when its gap
  is positive and within the window (`StepBoundedIff`), and so is the drift of a run exactly when all its gaps
  are (`DriftBoundedIff`).
- The doubling that rounds a shard count up ends exactly for requests up to 2^62
  (`NeverCovered`; `CoveredIff`).

## Model

| member | source | states |
|---|---|---|
| WindowSpec.StreamedIsRetained | internal/rules/actions/incremental_stats.go:207-368 | over every run with a clock that does not go back, expiring and pushing one reading at a time ends in exactly the last min(capacity, unexpired) readings of the history (last `size` for a count window, all of it without a window) |
| WindowSpec.TimeStep | internal/rules/actions/incremental_stats.go:277-368 | one time-window addition: dropping the expired prefix and pushing gives the declared contents of the longer history, aligned or not |
| WindowSpec.CountStep | internal/rules/actions/incremental_stats.go:208-243 | one count-window addition gives the last `size` readings of the longer history |
| WindowSpec.PlainWindowCovers | internal/rules/actions/incremental_stats.go:340 | a plain time window covers a reading exactly when it is at most the duration older than the newest one and among the newest `size` |
| WindowSpec.CalendarWindowCovers | internal/rules/actions/incremental_stats.go:371-397 | a calendar window counts its duration back from the end of the current day (from 24 h on), hour (from 1 h), minute (from 1 min) or second, and covers the newest reading in any case |
| WindowSpec.CutoffMonotone | internal/rules/actions/incremental_stats.go:334-341 | the cutoff, calendar-aligned or not, never moves back while the clock does not |
| WindowSpec.CalendarWindowCoversUnits | internal/rules/actions/incremental_stats.go:371-397 | a calendar window of n whole days, hours, minutes or seconds covers the current unit and the n-1 before it |
| WindowSpec.TimeWindowExact | internal/rules/actions/incremental_stats.go:277-368 | the time window is exactly the last min(size, unexpired) readings if and only if the cutoff is not in the future |
| WindowSpec.CutoffNotInFuture | internal/rules/actions/incremental_stats.go:371-397 | when that is: always, except for calendar windows under a second outside the last `duration` of each second |
| WindowSpec.ShortCalendarWindow | internal/rules/actions/incremental_stats.go:390-396 | a 200 ms calendar window expires the reading being added |
| Statistics.IncrementalStats.constructor | internal/rules/actions/incremental_stats.go:66-95 | window size clamped to 0..1000000, empty history, valid object |
| Statistics.IncrementalStats.AddValue | internal/rules/actions/incremental_stats.go:128-183 | in every mode the covered readings are those declared for the whole history, the ring holds them, and count, sum, sum of squares, min and max equal recomputation; non-finite readings only bump the null counter |
| Statistics.IncrementalStats.AddNullValue | internal/rules/actions/incremental_stats.go:186-191 | only the null counter changes |
| Statistics.IncrementalStats.AddValueCumulative | internal/rules/actions/incremental_stats.go:194-205 | figures equal recomputation over one more reading |
| Statistics.IncrementalStats.AddValueWindowed | internal/rules/actions/incremental_stats.go:208-243 | the circular array holds the pushed contents as a rotation and the figures equal recomputation |
| Statistics.IncrementalStats.RecalculateMinMax | internal/rules/actions/incremental_stats.go:246-274 | the scan of the occupied slots finds the extremes of the covered readings |
| Statistics.IncrementalStats.AddValueTimeWindowed | internal/rules/actions/incremental_stats.go:277-326 | expire, then push; cumulative without a buffer; figures equal recomputation |
| Statistics.IncrementalStats.StoreTimed | internal/rules/actions/incremental_stats.go:287-325 | writing into free space or over the oldest reading is a push, and the figures equal recomputation |
| Statistics.IncrementalStats.SumExpired | internal/rules/actions/incremental_stats.go:343-359 | the scan from the oldest slot finds exactly the expired prefix and the sums without it |
| Statistics.IncrementalStats.CleanExpiredTimeData | internal/rules/actions/incremental_stats.go:329-368 | the covered readings lose exactly the expired prefix and all figures follow |
| Statistics.IncrementalStats.RecalculateTimeWindowMinMax | internal/rules/actions/incremental_stats.go:400-422 | the scan around the ring finds the extremes of the covered readings |
| Statistics.IncrementalStats.Reset | internal/rules/actions/incremental_stats.go:702-730 | empty history and valid figures, although the time ring's write position stays |
| Statistics.IncrementalStats.GetStats | internal/rules/actions/incremental_stats.go:733-847 | count, sum, mean, variance, deviation, volatility and extremes are those of the covered readings (sanitised); median, percentiles, outliers and threshold counts are those declared for the history in every mode, changes and null rate those of the whole history; a panic exactly for an unfilled time buffer with more readings than slots whose number is no multiple of the slots; the cache is valid afterwards |
| Statistics.IncrementalStats.FillCache | internal/rules/actions/incremental_stats.go:738-785 | the one-pass variance, clamp included, is the two-pass variance, the deviation its root, mean matches the contents; the median is that of the covered readings in a count window, the first reading ever added for one covered reading, and the mean otherwise |
| Statistics.IncrementalStats.CollectWindow | internal/rules/actions/incremental_stats.go:661-670 | the readings taken from the array in storage order are a permutation of the covered readings |
| Statistics.IncrementalStats.CalculateMedianFromWindow | internal/rules/actions/incremental_stats.go:656-692 | the median of the covered readings |
| Statistics.IncrementalStats.CalculatePercentile | internal/rules/actions/incremental_stats.go:889-909 | the percentile declared for the history in each mode, unfilled time buffers and the normal approximation included |
| Statistics.IncrementalStats.PercentileFromWindow | internal/rules/actions/incremental_stats.go:912-958 | the interpolated percentile of the covered readings |
| Statistics.InterpolateSorted | internal/rules/actions/incremental_stats.go:941-957 | interpolation at percentile/100·(n-1), whose clamp of the upper neighbour is dead |
| Statistics.IncrementalStats.PercentileFromTimeWindow | internal/rules/actions/incremental_stats.go:961-999 | the lower-rank percentile of the covered readings, since the interpolating tail is never reached; for an unfilled buffer zero or a panic, by the exact condition |
| Statistics.IncrementalStats.CollectTimed | internal/rules/actions/incremental_stats.go:966-974 | the readings in order of age, from the oldest slot around the ring; zeros from an unfilled buffer |
| Ring.StartBelowZero | internal/rules/actions/incremental_stats.go:968 | the start index into an unfilled buffer, a remainder with the sign of its dividend, is negative exactly when there are more readings than slots and no multiple of them |
| Statistics.IncrementalStats.GetFigures | internal/rules/actions/incremental_stats.go:788-800 | the figures of the covered readings, sanitised, with zero extremes when there are none |
| Statistics.IncrementalStats.GetChanges | internal/rules/actions/incremental_stats.go:1033-1057 | null rate, completeness, change and change rate of the whole history |
| Statistics.IncrementalStats.GetPercentiles | internal/rules/actions/incremental_stats.go:804-823 | the six percentiles, none exactly when they panic |
| Statistics.IncrementalStats.GetThresholds | internal/rules/actions/incremental_stats.go:831-840 | the counts of the limits that are set |
| Statistics.IncrementalStats.GetOutlierCount | internal/rules/actions/incremental_stats.go:1077-1146 | the quartile outlier count of the covered readings, at most 2·ceil((n-1)/4); zero below four readings; without a count buffer one in twenty above fifty varying readings |
| Statistics.CountOutliers | internal/rules/actions/incremental_stats.go:1110-1128 | readings beyond one and a half interquartile ranges from the quartiles |
| Statistics.InterpolatePercentile | internal/rules/actions/incremental_stats.go:1149-1162 | agrees with the general interpolation at every position |
| Statistics.IncrementalStats.GetAboveCount | internal/rules/actions/incremental_stats.go:1165-1192 | how many covered readings exceed the upper limit, or the estimate from the extremes without a count buffer; zero without a limit |
| Statistics.IncrementalStats.GetBelowCount | internal/rules/actions/incremental_stats.go:1194-1220 | how many covered readings are under the lower limit, or the estimate; zero without a limit |
| Statistics.IncrementalStats.GetInRangeCount | internal/rules/actions/incremental_stats.go:1222-1252 | how many covered readings lie within both limits, or the estimate; zero unless both are set |
| Reporting.EstimateAboveBounded | internal/rules/actions/incremental_stats.go:1182-1188 | the estimate is at most half of the readings and zero exactly when none exceeds the limit |
| Reporting.EstimateBelowBounded | internal/rules/actions/incremental_stats.go:1211-1216 | likewise for readings under the lower limit |
| Reporting.EstimateInsideBounded | internal/rules/actions/incremental_stats.go:1240-1248 | at most the number of readings, and zero exactly without readings or without a range between the limits |
| Reporting.AboveInNumbers | internal/rules/actions/incremental_stats.go:1182-1188 | the estimate is the share of the range beyond the limit, at most a half |
| Reporting.BelowInNumbers | internal/rules/actions/incremental_stats.go:1211-1216 | likewise below the lower limit |
| Reporting.InsideInNumbers | internal/rules/actions/incremental_stats.go:1240-1248 | the share of the range that the limits span, at most all of it |
| Reporting.OneInTwenty | internal/rules/actions/incremental_stats.go:1129-1143 | the outlier estimate: one in twenty above fifty varying readings |
| Reporting.NormalPercentiles | internal/rules/actions/incremental_stats.go:1001-1030 | where the normal approximation puts the reported percentiles |
| Reporting.PercentilesOrdered | internal/rules/actions/incremental_stats.go:804-823 | after every history with at least two covered readings, min ≤ percentile p ≤ percentile q ≤ max for p ≤ q as reported, and in a count window p50 is the reported median |
| Reporting.MedianAlwaysRightIff | internal/rules/actions/incremental_stats.go:773-782 | over all windows: the median is right after every history exactly for count windows of a size other than one |
| Reporting.PercentilesAlwaysRightIff | internal/rules/actions/incremental_stats.go:889-909 | over all windows: so are the percentiles |
| Reporting.RightIff | internal/rules/actions/incremental_stats.go:889-895 | after one history of a count window median and percentiles, and in a time window the lower-rank percentiles, are right exactly when more than one reading is covered or the first reading ever added is reported as the same number |
| Reporting.ApartWrong | internal/rules/actions/incremental_stats.go:893-895 | two readings far apart in time, or in a window of size one: 1 is reported for a window that covers 2 |
| Reporting.SkewedMedianWrong | internal/rules/actions/incremental_stats.go:779-782 | readings 0, 0, 3 without a count buffer: the mean is reported as median |
| Reporting.SkewedPercentileWrong | internal/rules/actions/incremental_stats.go:901-908 | and as 50th percentile without any buffer |
| Reporting.IdleWrong | internal/rules/actions/incremental_stats.go:898-900 | two readings with an unfilled time buffer: zero or a panic instead of the smaller reading |
| Reporting.IdlePanics | internal/rules/actions/incremental_stats.go:968 | three readings and two unfilled slots: every percentile panics |
| OrderStats.LowerRankExact | internal/rules/actions/incremental_stats.go:982-998 | the lower-rank percentile is the interpolated one exactly at whole positions or between equal neighbours |
| RealSeq.OnePassVariance | internal/rules/actions/incremental_stats.go:745-758 | (Σx² - n·mean²)/(n-1) is the mean-centred variance and is never negative |
| RealSeq.SquaredDevExpansion | internal/rules/actions/incremental_stats.go:748 | the expansion of squared deviations into running sums |
| RealSeq.Extremes | internal/rules/actions/incremental_stats.go:252-273 | minimum and maximum are attained bounds |
| RealSeq.BelowIsStrictOrder | internal/rules/actions/incremental_stats.go:252-273 | the order of running extremes is strict and total, agrees with that of the reals and has the infinities at its ends |
| RealSeq.Rotation | internal/rules/actions/incremental_stats.go:265-273 | a rotated buffer has the same extremes |
| Ring.Write | internal/rules/actions/incremental_stats.go:215-231 | writing at the position and advancing is a push; a full buffer overwrites its oldest element |
| OrderStats.ExchangeSort | internal/rules/actions/incremental_stats.go:677-683 | a sorted permutation |
| OrderStats.SortedUnique | internal/rules/actions/incremental_stats.go:676-683 | there is only one sorted permutation, so the sorts are interchangeable |
| OrderStats.PercentileMonotone | internal/rules/actions/incremental_stats.go:941-957 | percentiles are ordered and within the range of the data, interpolated or by lower rank |
| OrderStats.MedianIsP50 | internal/rules/actions/incremental_stats.go:685-691 | the 50th percentile is the median |
| OrderStats.OutlierBound | internal/rules/actions/incremental_stats.go:1110-1128 | at most 2·ceil((n-1)/4) readings are outliers |
| OrderStats.ThresholdsPartition | internal/rules/actions/incremental_stats.go:1165-1252 | above + below + in-range is the number of readings plus those strictly between upper and lower limit; exact when there are none of those |
| OrderStats.ThresholdsPartitionIff | internal/rules/actions/incremental_stats.go:1165-1252 | for all readings the three counts add up exactly when lower ≤ upper |
| OrderStats.MisorderedLimits | internal/rules/actions/incremental_stats.go:1165-1252 | a reading between misordered limits counts as above and as below |
| OrderStats.SanitizeMonotone | internal/rules/actions/incremental_stats.go:850-868 | cleaning tiny values keeps the order and is idempotent |
| OrderStats.SanitizeExact | internal/rules/actions/incremental_stats.go:850-868 | only numbers closer to zero than 1e-15 are changed, and nothing by more |
| HighPerformance.BatchIsRepeatedSingles | internal/rules/actions/high_performance_stats.go:119-254 | totals over a batch reach the same cells as adding its values one by one, for any prior cells and any batch length |
| HighPerformance.WriteAllKeepsLast | internal/rules/actions/high_performance_stats.go:240-250 | after a batch every one of the last `window` values is in its own slot |
| HighPerformance.HighPerformanceStats.AddValue | internal/rules/actions/high_performance_stats.go:119-176 | the cells after one addition |
| HighPerformance.HighPerformanceStats.AddBatch | internal/rules/actions/high_performance_stats.go:179-254 | the cells are those after repeated single additions |
| HighPerformance.AddTotals | internal/rules/actions/high_performance_stats.go:186-237 | scalar cells from local totals |
| HighPerformance.Summarise | internal/rules/actions/high_performance_stats.go:187-200 | local sum, sum of squares, minimum and maximum of a batch |
| HighPerformance.HighPerformanceStats.WriteRing | internal/rules/actions/high_performance_stats.go:241-245 | slot writes from a start ticket |
| HighPerformance.HighPerformanceStats.AddNull | internal/rules/actions/high_performance_stats.go:482-486 | null, count and version cells advance |
| HighPerformance.HighPerformanceStats.Reset | internal/rules/actions/high_performance_stats.go:451-469 | everything is cleared except first and last value |
| LockFree.FinishedRunIsExact | internal/rules/actions/high_performance_stats.go:107-161 | once all concurrent calls have finished, whatever the interleaving, sums are exact, counters count the calls and the extremes are true |
| LockFree.ExtremesMonotone | internal/rules/actions/high_performance_stats.go:139-161 | during any run the minimum never rises and the maximum never falls |
| LockFree.EveryScheduleEnds | internal/rules/actions/high_performance_stats.go:107-161 | n calls perform at most n(8n+16) atomic operations under every scheduler, retries included |
| LockFree.StepProgresses | internal/rules/actions/high_performance_stats.go:107-116 | every operation of an unfinished call, a failed swap included, brings the whole system closer to the end |
| LockFree.WindowHoldsEveryValue | internal/rules/actions/high_performance_stats.go:163-172 | with no more concurrent calls than slots, the finished window holds every value, each in its own slot |
| LockFree.SlotsHoldTicketHolders | internal/rules/actions/high_performance_stats.go:163-172 | for any number of concurrent calls, once all have finished they hold consecutive tickets and every slot holds the value of a call whose ticket falls into it, or is untouched |
| LockFreeWindow.NewestKeptIff | internal/rules/actions/high_performance_stats.go:163-172 | every finished schedule leaves each newest value in its slot exactly when there is no window, no more calls than slots, or only one value |
| LockFreeWindow.OldestOverNewest | internal/rules/actions/high_performance_stats.go:163-172 | one slot and two calls: a schedule that ends with the older value |
| LockFreeWindow.OlderValueLeft | internal/rules/actions/high_performance_stats.go:163-172 | with more calls than slots and differing values such a schedule always exists |
| LockFree.EndsComeFromCalls | internal/rules/actions/high_performance_stats.go:131-137 | the last value comes from a call, and so does the first unless something had been counted before, when it stays |
| LockFreeWindow.AloneIsAddOne | internal/rules/actions/high_performance_stats.go:119-176 | a call running alone through its atomic operations does exactly what one addition does, window and flags included |
| LockFreeWindow.OneAfterTheOther | internal/rules/actions/high_performance_stats.go:119-176 | calls running one after the other do what repeated additions do |
| LockFreeWindow.FullIff | internal/rules/actions/high_performance_stats.go:163-172 | once all concurrent calls have finished the full flag is set exactly if it was or tickets were handed out for every slot |
| LockFree.RunHolds | internal/rules/actions/high_performance_stats.go:119-176 | in every state of every interleaving each additive cell is its start plus the contributions made so far and the extreme cells are bounded and attained |
| Conditions.PinsHold | internal/rules/evaluator.go:40-120 | when a conjunctive condition holds on a point, every equality leaf on an indexed field compares equal to the point's field |
| Conditions.ClauseMeaning | internal/rules/evaluator.go:97-146 | AND holds exactly when every condition is present and holds; OR is false exactly when every condition is present and false |
| Conditions.ClauseDecided | internal/rules/evaluator.go:97-146 | AND is false exactly when some condition is false and all before it hold; OR holds exactly when some condition holds and all before it are false |
| Conditions.EvaluationOrder | internal/rules/evaluator.go:40-85 | AND before OR before NOT before the kind; NOT exchanges true and false and keeps errors; unknown kinds are errors |
| Conditions.LeafMeaning | internal/rules/evaluator.go:150-233 | a leaf on a resolved field: outcome of each operator, the default operator and the error cases |
| Conditions.LeafError | internal/rules/evaluator.go:151-169 | a blank or unresolvable field is an error |
| Conditions.ExpressionMeaning | internal/rules/evaluator.go:436-460 | expressions of one to ten thousand characters go to the engine |
| Conditions.EqualStrings | internal/rules/types.go:370-450 | strings compare equal exactly when they are the same or are numerals of equal value |
| Conditions.NumbersCompare | internal/rules/types.go:271-313 | on finite numbers the six operators are the comparisons of the reals |
| Conditions.SpecialsCompare | internal/rules/types.go:389-414 | where the infinities stand, and NaN differs from everything and is in no order |
| Conditions.StringsCompare | internal/rules/types.go:426-436 | strings compare in dictionary order, numerals by value |
| Conditions.LessIsPrecedes | internal/rules/types.go:426-436 | dictionary order: a proper prefix, or smaller at the first difference |
| Conditions.OthersCompare | internal/rules/types.go:370-450 | booleans, absent values, and kinds that cannot be compared |
| Conditions.StringOperators | internal/rules/types.go:314-337 | contains, startswith and endswith as concatenations |
| Conditions.StringOperatorsNeedStrings | internal/rules/types.go:314-337 | they are false on anything but two strings |
| Conditions.CompareAntisymmetric | internal/rules/types.go:370-450 | swapping operands negates the comparison; NaN is incomparable both ways |
| Conditions.OrderingLaws | internal/rules/types.go:271-313 | the six ordering operators are consistent with each other, NaN included |
| Conditions.IndexedFieldValue | internal/rules/evaluator.go:236-249 | device_id, key and type resolve to the point's own strings |
| Conditions.NoParts | internal/rules/evaluator.go:236-249 | a dotted name that starts with one of the three does not resolve |
| IndexAgreement.IndexAgreesWithScan | internal/rules/index.go:113-268 | after every run that since the last Clear removed no rule pinning a value twice, with anchored rules, no firing rule is lost, and the rules firing among the matches are those firing in a full scan exactly when a slot leads somewhere or no rule disabled since the last rebuild fires |
| IndexAgreement.AgreesIff | internal/rules/index.go:31-268 | after every such run, for all rules, repeated pins included: agreement with a full scan exactly when every firing rule is led to or, if no slot leads anywhere, no rule disabled since the last rebuild fires |
| IndexAgreement.MatchAfterRun | internal/rules/index.go:31-268 | what Match returns after such a run, from the operations alone: the rules led to, or the indexed rules and those disabled since the last rebuild |
| IndexAgreement.ReturnedIff | internal/rules/index.go:201-268 | in an index equal to a rebuild, whatever its rules pin, an indexed rule is returned exactly when a slot leads to it or no slot leads anywhere |
| IndexAgreement.UnpinnedAlwaysReturned | internal/rules/index.go:125-154 | after every such run a rule leaving one of the three fields unpinned is returned for every point |
| IndexAgreement.AnchoredHit | internal/rules/index.go:113-187 | an anchored rule is led to on every point it fires on |
| RuleIndex.RunInv | internal/rules/index.go:31-198 | over every run of adds, removes and clears: since the last Clear each slot has held exactly the rules pinning it, as often as they do, without empty slots, with distinct IDs and a sorted, complete priority list, exactly when no operation since removed or replaced a rule that pins a value twice |
| RuleIndex.SlotsAreSubsequences | internal/rules/index.go:31-198 | over every run with rules that pin no value twice each slot is exactly the subsequence of rules pinning it |
| RuleIndex.StepInv | internal/rules/index.go:31-110 | each operation keeps the index equal to a rebuild exactly when it removes no rule that pins a value twice, and makes the priority list a permutation of the rules; adding a disabled rule leaves it one exactly when it was one and the ID was not indexed |
| RuleIndex.PriorityCurrentIff | internal/rules/index.go:31-60 | over every run the rule list is the replay of the operations and the priority list adds exactly the rules disabled since the last rebuild, so it is current exactly when there are none |
| RuleIndex.PurgeOk | internal/rules/index.go:63-110 | removing an ID from the slots is rebuilding without its rule exactly when that rule pins no value twice; otherwise some slot keeps more |
| RuleIndex.FileRuleOk | internal/rules/index.go:113-155 | filing a rule is rebuilding with it, repeated pins included |
| RuleIndex.WildcardsSkipped | internal/rules/index.go:118-128 | a rule pinning a field only to the wildcard or the empty string is in no slot of it |
| RuleIndex.FileThenPurge | internal/rules/index.go:63-155 | filing and removing a rule restores every slot exactly when it pins no value twice |
| RuleIndex.AddThenRemove | internal/rules/index.go:31-155 | inserting a new rule and removing it gives back the index exactly when the rule pins no value twice in any field |
| IndexAgreement.RemovedRuleStillReturned | internal/rules/index.go:73-83 | a rule that pins its device twice is still returned for it after removal |
| IndexAgreement.StaleVersionDisplaces | internal/rules/index.go:73-83 | a run in which a stale version is returned in place of the indexed one, which fires and is led to |
| IndexAgreement.DisabledRuleStillReturned | internal/rules/index.go:31-51 | any rule enabled and then disabled in an otherwise empty index is still returned for every point |
| IndexAgreement.NegationNotHit | internal/rules/index.go:165-187 | a negation pinning all three fields fires on points no slot leads from |
| IndexAgreement.NumeralsNotHit | internal/rules/index.go:113-155 | a rule pinning numerals fires on other spellings, and no slot leads to it |
| IndexAgreement.NegationLost | internal/rules/index.go:165-268 | a reachable index of two rules on which Match leaves out a firing negation |
| IndexAgreement.NumeralsLost | internal/rules/index.go:113-268 | and one on which it leaves out a firing rule with numerals |
| Indexing.Index.AddRule | internal/rules/index.go:31-51 | the effect specified for adding, the early return for disabled rules included |
| Indexing.Index.RemoveRule | internal/rules/index.go:54-60 | the effect specified for removing |
| Indexing.Index.Clear | internal/rules/index.go:370-379 | the empty index |
| Indexing.Index.RemoveRuleFromIndex | internal/rules/index.go:63-110 | first occurrence dropped from the list and from every slot, emptied slots deleted |
| Indexing.Index.AnalyzeAndIndex | internal/rules/index.go:113-155 | the rule filed under its pins of each field, or under the wildcard |
| Indexing.ExtractFields | internal/rules/index.go:165-187 | the shared map gains exactly the pins of the condition, field by field, in traversal order |
| Indexing.PurgeSlots | internal/rules/index.go:73-83 | every slot loses the first rule with the ID, in any visiting order |
| Indexing.FileUnder | internal/rules/index.go:118-128 | wildcards and empty values are skipped |
| Indexing.SortByPriority | internal/rules/index.go:190-198 | some priority ordering of the rules |
| Indexing.Index.Match | internal/rules/index.go:201-268 | for each ID in the six slots the last rule met with it, by priority; the priority list when they hold nothing |
| WorkerPool.Configure | internal/rules/optimized_worker_pool.go:67-88 | given sizes or the defaults (two workers per processor, 1000, 10), all positive, and each worker buffer the rounded-down share of the queue size |
| WorkerPool.EveryTaskInOnePlace | internal/rules/optimized_worker_pool.go:171-439 | in every interleaving each submitted task is in exactly one place |
| WorkerPool.NoTaskRunsTwice | internal/rules/optimized_worker_pool.go:344-439 | no task runs twice and no executed task was dropped |
| WorkerPool.BooksBalance | internal/rules/optimized_worker_pool.go:171-439 | total + about to be counted + refused = queued + held + completed + failed + not yet published, in every state |
| WorkerPool.QuiescentBooks | internal/rules/optimized_worker_pool.go:171-439 | between operations totalTasks + refused = queued + batched + completedTasks + failedTasks |
| PoolRuns.OutcomesCounted | internal/rules/optimized_worker_pool.go:396-439 | in every interleaving completed tasks are the successful executions, and failed ones the failed executions, drops and refusals |
| PoolRuns.WorkerOutcome | internal/rules/optimized_worker_pool.go:402-421 | one worker move counts a success on the one side and a failure on the other |
| PoolRuns.BatchProcessed | internal/rules/optimized_worker_pool.go:375-439 | when the timer fires a waiting worker executes its whole batch in order, publishes both counts and starts with an empty batch |
| PoolRuns.WorkerLeaves | internal/rules/optimized_worker_pool.go:383-390 | after cancellation it does so once more and returns |
| PoolRuns.FirstComeFirstServed | internal/rules/optimized_worker_pool.go:344-439 | in every run each worker executes its tasks in the order in which they were handed to it |
| PoolRuns.DispatcherInOrder | internal/rules/optimized_worker_pool.go:262-292 | the dispatcher takes tasks in the order in which they were queued |
| PoolRuns.DroppedAfterTryingAll | internal/rules/optimized_worker_pool.go:268-342 | in every run a task was dropped only after the hand-over to every worker had failed for lack of room |
| PoolRuns.PrioritiesRespected | internal/rules/optimized_worker_pool.go:183-256 | in every run only high-priority tasks are forced in, and one is refused only after that was tried |
| PoolRuns.ForcedIn | internal/rules/optimized_worker_pool.go:236-256 | a waiting high-priority task that times out goes to the chosen worker if that has room |
| PoolRuns.TakenIn | internal/rules/optimized_worker_pool.go:171-194 | a task is taken in as soon as the dispatcher queue has room; without room the call waits |
| PoolRuns.CountedOrRefused | internal/rules/optimized_worker_pool.go:171-256 | a task taken in is counted; a forced one without room in time is refused and counted as failed |
| PoolRuns.RunningUntilStop | internal/rules/optimized_worker_pool.go:284-291 | dispatcher and workers go on until Stop is called |
| WorkerPool.RunInv | internal/rules/optimized_worker_pool.go:171-439 | worker books, channel capacities, counters and every task weight are kept in every interleaving, missed hand-overs to idle workers included |
| WorkerPool.NextConserves | internal/rules/optimized_worker_pool.go:171-439 | no move loses or duplicates a task |
| WorkerSelection.SelectBestWorker | internal/rules/optimized_worker_pool.go:298-325 | the worker whose turn it is if idle, else the first least busy one, else the turn again; least busy exactly when some cell is below 1000000 or the round-robin choice is least busy |
| WorkerSelection.LeastBusyHasSmallestBatch | internal/rules/optimized_worker_pool.go:345-393 | in every reachable state a busy cell is the size of the open batch, at most the batch size and below it while waiting, so least busy means smallest batch |
| WorkerSelection.SelectionBalanced | internal/rules/optimized_worker_pool.go:298-325 | for batch sizes up to 1000000 selection on any reachable snapshot is balanced |
| WorkerSelection.SelectionBalancedIff | internal/rules/optimized_worker_pool.go:298-325 | selection is balanced on every snapshot of every run exactly when the batch size is at most 1000000 or there is one worker |
| WorkerSelection.UnbalancedSnapshot | internal/rules/optimized_worker_pool.go:298-393 | a run to a snapshot on which the busier worker is chosen, for every larger batch size and two or more workers |
| WorkerSelection.BusierWorkerChosen | internal/rules/optimized_worker_pool.go:306-325 | such a snapshot of two workers |
| WorkerPool.NothingRunsAfterStop | internal/rules/optimized_worker_pool.go:148-168 | once dispatcher and workers have returned, no continuation runs or drops anything |
| WorkerPool.AllDoneAfterStopIff | internal/rules/optimized_worker_pool.go:148-168 | then every task handed over has run or was dropped exactly when all queues are empty |
| WorkerPool.TaskLeftBehind | internal/rules/optimized_worker_pool.go:148-180 | a run that stops with a task left in the dispatcher queue |
| IspClient.TableChannelsOpen | internal/plugin/isp_client.go:72-99 | in every interleaving, colliding IDs included, every channel in the table is open and no delivery sends on a closed channel |
| IspClient.RepliesCarryOwnId | internal/plugin/isp_client.go:150-183 | a returned message carries the request's own ID |
| IspClient.ResponseReturned | internal/plugin/isp_client.go:264-278 | a request waiting with an empty channel gets the next response with its ID and returns it |
| IspClient.FirstMessageReturned | internal/plugin/isp_client.go:170-183 | in every run the message a call returns is the first one delivered to it, and a waiting call is given it as soon as it receives |
| IspClient.TakesFirst | internal/plugin/isp_client.go:155-183 | in every run each request holds or has taken the first message delivered to it |
| IspClient.OfflineNoReplies | internal/plugin/isp_client.go:110-118 | before the first Connect no call waits for or returns a message |
| IspClient.OfflineWhileDisconnecting | internal/plugin/isp_client.go:72-104 | a disconnect under way keeps the client offline until it is complete |
| IspClient.SendsWaitForDisconnect | internal/plugin/isp_client.go:110-118 | senders wait for a disconnect under way, and fail afterwards |
| IspClient.NeverReturnsNothing | internal/plugin/isp_client.go:170-183 | no call returns without a message and without an error |
| IspClient.DistinctIdsStayFound | internal/plugin/isp_client.go:155-167 | while IDs are distinct no registration is lost, so a response always finds its request |
| IspClient.LosesIff | internal/plugin/isp_client.go:155-167 | a move loses a live request's table entry exactly when another call with the same ID registers or unregisters |
| IspClient.FoundIffUndisturbed | internal/plugin/isp_client.go:155-183 | in every run a response finds a live request exactly when no such move happened since it registered |
| IspClient.SafeIdsIff | internal/plugin/isp_client.go:150-183 | all runs with given request IDs keep every live request findable exactly when the IDs are distinct |
| IspClient.TimeoutTakesOtherRegistration | internal/plugin/isp_client.go:150-183 | a run of two calls with one ID: the first times out and unregisters, and no response reaches the second, which still waits |
| IspClient.CloseTwiceIffSwept | internal/plugin/isp_client.go:93-99 | a closing request panics if and only if a disconnect swept it |
| IspClient.NoSweepNoCrash | internal/plugin/isp_client.go:150-183 | without a disconnect sweep no run crashes |
| IspClient.PendingRequestCrashes | internal/plugin/isp_client.go:72-99 | a disconnect with a request pending ends in a second close |
| IspClient.NextKeeps | internal/plugin/isp_client.go:264-278 | every move keeps the table and channel invariant |
| Aggregates.AggregateManager.constructor | internal/rules/actions/aggregate_manager.go:55-74 | no states, limits of 10000 states and 100 MB |
| Aggregates.AggregateManager.GetOrCreateState | internal/rules/actions/aggregate_manager.go:77-197 | the call specified by Obtain, in every state and with separate clock readings; exact books stay exact exactly when the table is within the budget afterwards, as for every safe window size |
| Aggregates.ObtainFacts | internal/rules/actions/aggregate_manager.go:77-197 | touch, creation and refusal: other states stay as they are unless a forced cleanup found them older than half the TTL, and a refusal means that a cleanup has left none older than that and there is still no room |
| Aggregates.RefusedOnlyWhenFull | internal/rules/actions/aggregate_manager.go:99-140 | with exact books and a safe window size the states younger than half the TTL alone are too many or need too much memory |
| Aggregates.ObtainExact | internal/rules/actions/aggregate_manager.go:77-197 | a call on exact books leaves them exact exactly when the table is within the budget, and whenever nothing is added |
| Aggregates.ExactSoFarIff | internal/rules/actions/aggregate_manager.go:77-439 | in every run the number of states is within its limit, and the accounting has been exact so far exactly when the table was always within the budget |
| Aggregates.SafeRunExact | internal/rules/actions/aggregate_manager.go:77-439 | with safe window sizes it is exact in every state of every run |
| Aggregates.SweptExact | internal/rules/actions/aggregate_manager.go:371-439 | a cleanup of exact books takes off exactly what goes, so the clamp to zero is dead |
| Aggregates.ClampFires | internal/rules/actions/aggregate_manager.go:391-401 | a run beyond the budget in which the clamp fires and nothing is believed to be in use |
| Aggregates.AggregateManager.StoreIfAffordable | internal/rules/actions/aggregate_manager.go:118-196 | stores what the budget check admits, after a cleanup at its own clock reading if needed |
| Aggregates.AggregateManager.CleanupExpiredStates | internal/rules/actions/aggregate_manager.go:371-406 | the cleanup step with the TTL, in every state |
| Aggregates.AggregateManager.ForceCleanup | internal/rules/actions/aggregate_manager.go:409-439 | the same with half the TTL |
| Aggregates.AggregateManager.CollectExpired | internal/rules/actions/aggregate_manager.go:379-389 | the expired keys and the 64-bit sum of their estimates |
| Aggregates.AggregateManager.Sweep | internal/rules/actions/aggregate_manager.go:391-401 | exactly the states older than the TTL go, and the memory is reduced and clamped; exact books stay exact |
| Aggregates.AdmissionSound | internal/rules/actions/aggregate_manager.go:118-125 | the 64-bit budget check is sound for all usage levels if and only if the window size is safe |
| Aggregates.EstimateExact | internal/rules/actions/aggregate_manager.go:442-450 | the estimate is the intended size exactly when that fits 64 bits |
| Aggregates.GiantWindowAdmitted | internal/rules/actions/aggregate_manager.go:118-125 | a window of 2^60 slots is admitted |
| Aggregates.OrdinaryWindowsSafe | internal/rules/actions/aggregate_manager.go:442-450 | all window sizes below 2^60 - 2^48 are safe |
| Aggregates.TotalRemove | internal/rules/actions/aggregate_manager.go:379-398 | the memory total does not depend on the order of summation |
| ShardedTags.RoundUp | internal/utils/sharded_tags.go:32-42 | the least power of two covering the request, sixteen by default |
| ShardedTags.CoveredIff | internal/utils/sharded_tags.go:32-42 | doubling in 64-bit arithmetic ever covers a request exactly when it is at most 2^62 |
| ShardedTags.NeverCovered | internal/utils/sharded_tags.go:38-41 | a request of 2^62 + 1 is never covered |
| ShardedTags.DoubledStep | internal/utils/sharded_tags.go:38-41 | the doubled counter is the 64-bit left shift |
| ShardedTags.MaskIsModulo | internal/utils/sharded_tags.go:78-80 | masking with 2^k - 1 is reduction modulo 2^k |
| ShardedTags.ShardIndexIsModulo | internal/utils/sharded_tags.go:53-60 | for every shard count the masked hash is the hash modulo the count, the 32-bit cut of the mask included |
| ShardedTags.Fnv32a | internal/utils/sharded_tags.go:283-294 | the FNV-1a hash in 32-bit arithmetic |
| ShardedTags.HashVectors | internal/utils/sharded_tags.go:283-294 | published FNV-1a test vectors |
| ShardedTags.Lookup | internal/utils/sharded_tags.go:100-106 | looking a key up in its own shard is looking it up in the one map |
| ShardedTags.SizeIsTotal | internal/utils/sharded_tags.go:140-148 | the shard sizes add up to the size of the one map |
| ShardedTags.ShardedTags.constructor | internal/utils/sharded_tags.go:32-61 | an empty map over the rounded number of shards |
| ShardedTags.ShardedTags.GetShard | internal/utils/sharded_tags.go:78-89 | the key's own shard, whose hit counter advances by one; hits keep adding up to the operation count |
| ShardedTags.ShardedTags.Set | internal/utils/sharded_tags.go:92-97 | one map update |
| ShardedTags.ShardedTags.Get | internal/utils/sharded_tags.go:100-106 | one map lookup |
| ShardedTags.ShardedTags.Delete | internal/utils/sharded_tags.go:151-156 | one map removal |
| ShardedTags.ShardedTags.Clear | internal/utils/sharded_tags.go:159-165 | the empty map |
| ShardedTags.ShardedTags.GetAll | internal/utils/sharded_tags.go:109-122 | the one map |
| ShardedTags.ShardedTags.Len | internal/utils/sharded_tags.go:140-148 | the size of the one map |
| ShardedTags.ShardedTags.GroupByShard | internal/utils/sharded_tags.go:174-184 | the tags split by home shard |
| ShardedTags.WriteGroups | internal/utils/sharded_tags.go:187-202 | every group written once, in any goroutine order |
| ShardedTags.ShardedTags.SetMultiple | internal/utils/sharded_tags.go:168-203 | one map union |
| ShardedTags.ShardedTags.Clone | internal/utils/sharded_tags.go:223-227 | a separate object with the same contents and shard count |
| ShardedTags.ShardedTags.Merge | internal/utils/sharded_tags.go:230-235 | union with the other container, which may be absent or the same object |
| LinearTrend.CalculateLinearTrend | internal/model/point.go:598-626 | the regression slope; zero under two values |
| LinearTrend.DenominatorClosed | internal/model/point.go:616-623 | the denominator is n²(n²-1)/12, positive from two values on, so the zero guard is dead |
| LinearTrend.SlopeIsLeastSquares | internal/model/point.go:616-625 | the line with the computed slope has the smallest squared error, and no other line reaches it |
| LinearTrend.SlopeOfLine | internal/model/point.go:598-626 | the slope of a straight line is exact |
| LinearTrend.SlopeShiftInvariant | internal/model/point.go:598-626 | adding a constant to all values leaves the slope unchanged |
| ChangeRate.FilterHandler.ChangeRateFilter | internal/rules/actions/filter.go:546-603 | verdict and new cache of one check, configuration errors, NaN, infinities and non-numeric values included; only accepted points change the cache |
| ChangeRate.AcceptedChain | internal/rules/actions/filter.go:577-602 | the cache entry of a key is its last accepted point, NaN and infinities included, and consecutive accepted finite points within the window respect the limit, whatever lies between them |
| ChangeRate.FilteredIff | internal/rules/actions/filter.go:546-603 | after any run a numeric point is filtered exactly when it breaks the limit against the last accepted point of its device and key, within ten seconds unless another window is given |
| ChangeRate.TooFastIff | internal/rules/actions/filter.go:581-594 | a finite point is too fast exactly when it lies within the window and moved further than the rate allows |
| ChangeRate.TooFastSpecial | internal/rules/actions/filter.go:581-594 | steps from or to infinities are too fast within the window, steps with NaN never are |
| ChangeRate.AllowedPerSecond | internal/rules/actions/filter.go:586-588 | the limit is per second |
| ChangeRate.AcceptedDriftBounded | internal/rules/actions/filter.go:577-602 | accepted points with finite values whose gaps stay within the window drift no faster than the limit from first to last |
| ChangeRate.StepBoundedIff | internal/rules/actions/filter.go:581-594 | after a finite value every accepted value respects the limit exactly when the gap is positive and within the window |
| ChangeRate.DriftBoundedIff | internal/rules/actions/filter.go:577-602 | for given times, every accepted run drifts no faster than the limit exactly when all gaps are positive and within the window; for a negative limit the runs that exist are characterised too |
| ChangeRate.JumpUnbounded | internal/rules/actions/filter.go:581-594 | over any other gap there is an accepted run beyond the limit |
| ChangeRate.NaNAcceptsAnyJump | internal/rules/actions/filter.go:587-594 | a NaN between two points within the window lets any jump through |

## Left out

- Floating-point rounding, NaN payloads and overflow of the statistics; values are reals.
- The square root is a parameter about which nothing is assumed. Percentiles, outliers and threshold counts
  without a buffer are heuristics of the source; what they return is stated, but not that they are close.
- CalculatePercentile outside GetStats: it is private and reads the cache, which GetStats has filled.
- GetMean, GetVariance, GetMedian and GetStdDev: the same formulas as GetStats behind other locks. The NaN
  fallback of the variance cannot be reached over reals.
- A clock that goes back: time windows assume that it does not. Time zones other than UTC.
- The library sort of the time-window percentiles is modelled by the exchange sort; both give the one sorted
  permutation. `sort.Slice` on rules is modelled by its result only, since it is not stable.
- HighPerformanceStats.GetStats: its windowed outputs skip stored zeros and mix cumulative with windowed data.
- Wrap-around of the 64-bit ticket and version cells of the lock-free statistics.
- LockFree.WindowHoldsEveryValue: for no more calls than slots; SlotsHoldTicketHolders and NewestKeptIff say what
  holds for any number.
- Rules as shared mutable objects: an index entry is a value, and a changed rule arrives as a new AddRule.
- GetRulesByDevice, GetRulesByKey and index statistics: they only read what is specified here.
- Composite-data fields, tags, geo functions, expressions, Lua, regular expressions: parameters of the evaluator.
- Panic recovery inside a field comparison: the modelled operators cannot panic.
- Latencies, worker statistics and logging of the pool; a second call of Stop, which would panic.
- Message encoding, the receive loop's I/O, heartbeats and data messages of the sidecar client.
- Thresholds and window configuration passed to a new aggregate state, and the state's own statistics (modelled
  separately); saturation of clock differences.
- ShardedTags.RoundUp: requests above 2^62 are excluded, because on exactly those the source's doubling overflows
  and never ends (CoveredIff).
- ShardedTags.ShardedTags.constructor: the same requests are excluded, for the same reason.
- Locks inside ShardedTags: each operation is one step per shard; GetAll concurrent with writers is not a snapshot.
- Eviction from the change-rate cache, and the other filters.
- Sinks, adapters, HTTP, authentication, configuration, metrics and the frontend.
