# Stillbox, verified

A Dafny model of three parts of Stillbox, a store for recorded radio calls, with proofs of what they
promise. `dafny verify dfyconfig.toml` checks all of it.

**Calendar arithmetic and partitions.** Call rows live in date partitions, and call audio under a
prefix named after the partition; the hourly check creates and prunes partitions by name, and pruning
deletes audio by that prefix.

- `Julian`, `IsoWeek`: the closed forms of `internal/isoweek` against the Gregorian leap rules and the
  definition of an ISO week (section 2.2.10 of ISO 8601:2004).
- `CivilTime`, `Intervals`: UTC times as (day number, nanosecond of the day), `time.Date` and `AddDate`
  with their normalisation, interval bounds and stepping, against a numbering of the intervals of the
  day axis.
- `GoStrings`, `PartitionNames`, `AudioPaths`: names, prefixes and object paths as strings, printed and
  read back.
- `Partman`, `PartmanRuns`, `PartmanOrder`, `PartmanHistory`: the partition manager as an object over a
  catalogue, when one check succeeds and what it leaves, and when sequences of checks succeed and what
  they leave.

**Rings and time series.**

- `RingQueue`: the growing and shrinking power-of-two queue, as a sequence.
- `Windows`, `Levels`: one level as a sliding window of counts, and the circular array that stores it.
- `SeriesModel`, `TimeSeries`: the levels with their pending slot; a state machine on values and the
  class that refines it.
- `SeriesLog`: the series against a plain log of its calls, over every sequence of calls and queries.

**Audio life cycle and filter coherence.** Remote calls, statements and deletes fail at the
environment's will (`Env`, `Faults`).

- `RuleJobs`: a batch of S3 lifecycle-rule changes, with the in-place compaction.
- `Journal`, `JournalSafety`, `JournalStuck`, `JournalProgress`, `JournalOutcomes`: the deletion journal, its
  collector, every interleaving of prunes, collections, stores and removals, what is achieved when nothing
  fails, and what can come of one entry when anything does.
- `AddCalls`: storing a call's audio and row, with the tracker that takes audio back.
- `TagFilters`, `TagWrites`, `FilterCache`: which talkgroups a filter lets through, what a change of
  tags can affect, and the registry that compiles filters again.

Objects the source updates in place are classes here. Each of their methods is proved equal to a
function on values; the lemmas are about those functions, so they hold of the objects.

## Where the code and its promises differ

These are proved, with the exact condition under which the promise holds, or an input that fails.

- `JulianToDate` inverts from day -1363 on (1 March -4716), a little before day 0, and from no earlier
  day on (`FirstDayIsSharp`).
- The optimised `startOffset` is the plain form in its comment for every year from 1 on, but before that,
  looking back as far as year -4712, only in one case (`OffsetIsPlainForm`).
- Weekly bounds of a Sunday are those of the next week, so a partition created on a Sunday carries this
  week's name over next week's range and every later check fails to read it (`OwnRangeAccepted`,
  `SecondCheck`). Checks in the order of time succeed exactly when none but the last is the first of its
  week on a Sunday, if no quarterly step overflows (`PartmanOrder.RunsSucceed`). Checks at any times, in
  any order, succeed exactly when the new names of each are distinct, none but the last has new ones on
  a Sunday, whose ranges the last must leave free, and, where detached tables are kept, no partition is
  expected again after a check that did not expect it (`PartmanHistory.RunsExactly`).
- Quarterly steps keep the day of the month. From 31 March and 31 December they can skip a quarter
  (`ExpectedTile`) and name another twice (`ExpectedNamesDistinct`). A skipped quarter is detached, and
  when detached tables are kept its name then blocks every later check (`SkippedQuarterBlocks`; exactly
  when a check succeeds: `CheckSucceeds`).
- A check that fails is rolled back, but the audio it condemned on its way is not: the partition stays
  and its audio goes. Every partition whose audio a check condemns goes too exactly when the check
  condemns none, or what it needs to succeed is there and no condemned partition's own prune fails:
  facts about the catalogue, the time and the faults alone (`CondemnedGo`; without faults
  `CondemnedGoWithoutFaults`).
- Weekly and quarterly prefixes pad the year to four digits and names do not (`PrefixMeansRange`).
- An audio name with a slash hides the call's ID from `CallIDFromBlobPath`, unless the slashes only
  close it or its last element starts with the very ID (`CallIDComesBack`).
- The oldest slot of a level can lose calls that are still inside its window: exactly when a clear lands
  a window ahead and finds something in the newest slot (`AdvanceIsExact`, `RunIsExact`,
  `OldestSlotCanLose`). The second call of a pending slot counts 1 whatever its amount, where the
  package's own README promises the amount (`FoldedAmountIsOne`).
- The query refuses a range by the coarsest level's start and the finest level's end alone, although other
  levels may reach further or leave a gap between (`RefusedWhenMissed`); what it refuses
  holds no credited call but before the coarsest level's oldest slot (`RefusedHoldsNothing`).
- A rule added and deleted in one batch is committed all the same (`DeleteConsistent`).
- The deferred commit of `PruneBackendRefs` looks at a shadowed error: it always commits, and its own
  error is lost. An entry whose prune time could not be recorded while its rule was committed stays for
  ever, because adding its rule again is refused (`LostUpdateSticks`, `LostCollectSticks`,
  `StuckForever`).
- Adding a stored call a second time deletes the first one's audio (`AddingTwiceLosesAudio`). Adding a
  call is safe whatever fails exactly when no backend holds its path for a committed row
  (`AddCallAlwaysSafe`).
- A store that fails may leave a partial object, as `os.WriteFile` in `pkg/calls/callstore/fs.go` may;
  the call then has no reference to it, and its rollback cannot take it back. Whatever else fails, no
  object is left without a row exactly when each configured backend that may do this, or whose deletes
  may fail, holds the call's path for a committed row (`AddCallNeverOrphans`); over runs of calls, exactly
  when no configured backend may (`RunsNeverOrphan`).
- A filter with an empty, not missing, list of all-tags selects every talkgroup that has no excluded tag,
  and goes stale when one is added (`UnaffectedExactly`); for talkgroups that are there already all
  filters are alike (`KnownIndifferent`). One with only excluded tags lets nothing through
  (`ExcludedTagsAlone`).
- `UpsertTGs` looks up old tags under the system each row names and writes under the one it is given
  (`OneRowCovers`, `BatchCovers`). `UpdateTG` misses the old tags when its look at the talkgroup fails, or when the
  row id names another talkgroup (`UpdateCoversExactly`). A failed recompile leaves a filter with its
  listed talkgroups only, and later calls are judged by that (`PartialIsFresh`, `FilterCache.Filter.Test`).

## Model

| member | source | states |
|---|---|---|
| Julian.DateRoundTrip | internal/isoweek/julian.go:6-32 | every valid date from day -1363 on comes back unchanged from its day number |
| Julian.DayRoundTrip | internal/isoweek/julian.go:6-32 | every day number from -1363 on is turned into a valid date and comes back unchanged |
| Julian.FirstDayIsSharp | internal/isoweek/julian.go:21-32 | all day numbers from n on come back exactly when n is at least -1363 |
| Julian.NextDayIsOneMore | internal/isoweek/julian.go:6-18 | the civil day after a valid date, by the Gregorian leap rules, has the next day number |
| Julian.Monotone | internal/isoweek/julian.go:6-18 | day numbers are ordered exactly as dates are |
| Julian.CenturyCorrection | internal/isoweek/julian.go:21-32 | the shifted-century quotient counts the centuries that are not leap, on every day of a March year |
| Julian.MonthAndDay | internal/isoweek/julian.go:21-32 | the 153/5 month arithmetic recovers month and day from the day of the March year |
| IsoWeek.OffsetIsPlainForm | internal/isoweek/isoweek.go:38-49 | for years from -4712 on, whose dates have day numbers from 0 on, the optimised offset is the commented plain form exactly from year 1 on, or before that after a leap year whose next 4 January is a Monday |
| IsoWeek.StartDateIsMonday | internal/isoweek/isoweek.go:57-62 | StartDate is the Monday week - 1 weeks after the week of 4 January |
| IsoWeek.FromDate | internal/isoweek/isoweek.go:68-80 | the week is at least 1, and a recursive call meets a 31 December that does not recurse again |
| IsoWeek.FromDateIsISO | internal/isoweek/isoweek.go:68-80 | the result is the ISO week: the year of the week's Thursday, and that Thursday's week in it |
| IsoWeek.WeekHoldsDate | internal/isoweek/isoweek.go:57-80 | the Monday of the computed week is the Monday at most six days before the date, and the week is a real one |
| IsoWeek.WeekRoundTrip | internal/isoweek/isoweek.go:57-80 | FromDate undoes StartDate exactly on the real weeks of a year |
| IsoWeek.ValidateAccepts | internal/isoweek/isoweek.go:82-93 | weeks 1 to 52 of every year, week 53 exactly of the long years, and no other |
| IsoWeek.WeeksFill | internal/isoweek/isoweek.go:57-93 | 52 or 53 weeks, by whether the year starts or ends on a Thursday, fill the span between first Mondays |
| CivilTime.AddDays | pkg/database/partman/partman_intervals.go:14-17 | AddDate by days moves along the day axis and keeps the clock, across months and years |
| CivilTime.GoDateOfDate | internal/common/intervals.go:86-92 | time.Date of a valid date is that date |
| Intervals.IndexHolds | internal/common/intervals.go:60-113 | each day lies in the interval with its number |
| Intervals.IndexUnique | internal/common/intervals.go:60-113 | no day lies in two intervals of one kind |
| Intervals.BoundsByIndex | internal/common/intervals.go:60-113 | the bounds of a time are the interval that holds it, or on a Sunday asked for its week, the next |
| Intervals.BoundsHoldTime | internal/common/intervals.go:60-113 | a time lies within its own bounds exactly when it is no such Sunday |
| Intervals.StepByIndex | pkg/database/partman/partman_intervals.go:10-39 | i steps move the interval number by i, plus one exactly where a quarterly step overflows; stepping back is stepping by -i |
| Intervals.QuarterStep | pkg/database/partman/partman_intervals.go:18-24 | a quarterly step from 31 March or 31 December into a month of 30 days lands a quarter late |
| PartitionNames.SameFields | pkg/database/partman/partman_intervals.go:41-77 | two times print the same numbers exactly when they lie in the same interval |
| PartitionNames.NamesAsDocumented | pkg/database/partman/partman.go:358-365 | on 28 November 2024 the names are calls_p_2024_11_28, calls_p_2024_w48, calls_p_2024_11, calls_p_2024_q4 and calls_p_2024 |
| PartitionNames.NamesIdentify | pkg/database/partman/partman_intervals.go:41-77 | two partitions of one kind have the same name exactly when they are the same interval |
| PartitionNames.VerifyRender | pkg/database/partman/partman.go:367-462 | a printed name is read back as its kind and accepted exactly at the start its numbers mean |
| PartitionNames.AcceptedExactly | pkg/database/partman/partman.go:367-462 | of all rows, exactly those are read as a kind of interval whose bounds are in order and whose name, after one "calls_p_", spells numbers of that kind that mean the lower bound, a quarter being at most 4 |
| PartitionNames.NamesParseBack | pkg/database/partman/partman.go:367-462 | the name of a time's partition is read back as its kind, and accepted exactly at the interval's first instant |
| PartitionNames.OwnRangeAccepted | pkg/database/partman/partman.go:150-161 | a partition's name accepts the range it is created with, except on a Sunday of a weekly scheme |
| PartitionNames.RenderMeans | pkg/database/partman/partman.go:464-483 | names or prefixes that print alike, whatever their padding, mean the same first day |
| PartitionNames.PrefixMeansRange | pkg/database/partman/partman.go:347-349 | a call time's prefix is a partition's prefix exactly when the time lies in its range, and for weekly and quarterly schemes the year is at least 1000 |
| AudioPaths.RefLeadsBack | pkg/calls/callstore/audio.go:50-88 | the stored reference of a call leads back to the path its object was stored under, also after being printed and read |
| AudioPaths.PrunedPrefixHoldsCall | pkg/calls/callstore/audio.go:686-702 | an object lies under a partition's pruned prefix exactly when its call lies in the partition's range |
| AudioPaths.CallIDComesBack | pkg/calls/callstore/audio.go:704-710 | the call ID comes back from the object path exactly when there is no audio name, or, closing slashes aside, it has no slash, or its last element starts with the ID |
| AudioPaths.PathsDiffer | pkg/calls/callstore/audio.go:686-702 | calls of different IDs never share an object path, whatever their names and dates |
| Partman.RetentionPartitions | pkg/database/partman/partman.go:163-171 | the partitions before the current one, newest first, as many as retained |
| Partman.FuturePartitions | pkg/database/partman/partman.go:173-186 | the partitions after the current one, oldest first |
| Partman.ExpectedPartitions | pkg/database/partman/partman.go:188-202 | current, retained and provided, in that order |
| Partman.ExpectedAreSteps | pkg/database/partman/partman.go:163-202 | the expected partitions are exactly the steps in reach of now |
| Partman.ExpectedInOrder | pkg/database/partman/partman.go:163-202 | they are the current one, as many before it as are retained, and as many after it as are provided, each in its place; none before it when everything is retained |
| Partman.ExpectedTile | pkg/database/partman/partman.go:163-202 | their ranges tile one span without gap or overlap exactly when no quarterly step overflows |
| Partman.SpanHoldsNow | pkg/database/partman/partman.go:163-202 | that span holds now, except on a Sunday of a weekly scheme that keeps no past week |
| Partman.ExpectedNamesDistinct | pkg/database/partman/partman.go:163-202 | names are pairwise distinct exactly when no overflowed quarter meets the next |
| Partman.ComparePartitions | pkg/database/partman/partman.go:204-228 | the existing partitions not expected and the expected ones not existing, by name, in order |
| Partman.ExistingPartitions | pkg/database/partman/partman.go:230-248 | the rows read in order, or the first row's error that cannot be read (which rows can: PartmanRuns.ReadsExactly) |
| Partman.ReadRowsShape | pkg/database/partman/partman.go:230-248 | reading succeeds exactly when every row is readable, and gives one partition a row |
| PartmanRuns.ReadsExactly | pkg/database/partman/partman.go:230-248 | reading succeeds exactly when every row is of the configured schema, has its bounds in order, and bears a name of the configured kind that means its lower bound; it gives each row its partition, in order |
| PartmanRuns.UnreadableStops | pkg/database/partman/partman.go:304-341 | any other row stops the check with an error, before it touches the catalogue or any audio |
| PartmanRuns.FirstUnreadable | pkg/database/partman/partman.go:230-248 | the first such row decides: wrong schema exactly for another schema, different interval exactly for a proper name of another kind |
| PartmanRuns.ForeignRowStops | pkg/database/partman/partman.go:237-243 | in particular the partition of another kind of interval, under its own name and start, and any row of another schema |
| Partman.Manager.Check | pkg/database/partman/partman.go:304-341 | one transaction: reads every row or stops (PartmanRuns.ReadsExactly, UnreadableStops), prunes the unexpected, creates the missing; any error leaves the catalogue as it was, while the audio condemned on the way stays condemned |
| PartmanRuns.PruneAllNames | pkg/database/partman/partman.go:254-301 | pruning aborts exactly when a statement it comes to fails; else it removes exactly the named rows whose audio could be pruned, keeps their tables exactly without dropping, and condemns exactly the audio it reached |
| PartmanRuns.CreateAllNames | pkg/database/partman/partman.go:351-356 | creating adds exactly one row a partition, under its own name and range |
| PartmanRuns.CheckLeavesExpected | pkg/database/partman/partman.go:304-341 | a successful check leaves exactly the expected names and those whose audio it could not prune, or with everything retained adds exactly the missing; detached tables are exactly the others |
| PartmanRuns.CheckSucceeds | pkg/database/partman/partman.go:304-341 | a check succeeds exactly when its rows are readable, no statement it comes to fails, and the missing partitions have distinct names, none of a detached table, and cover no time of a partition that stays |
| PartmanRuns.CheckOffSunday | pkg/database/partman/partman.go:304-341 | off a Sunday, from whole intervals and without faults: exactly when the missing names are distinct and none is a detached table's |
| PartmanRuns.CreateAllExactly | pkg/database/partman/partman.go:328-334 | the missing partitions are all created exactly when there is room for each |
| PartmanRuns.CheckKeepsAligned | pkg/database/partman/partman.go:304-341 | a successful check that creates nothing on a Sunday leaves only whole intervals, named for themselves |
| PartmanRuns.CondemnedKept | pkg/calls/callstore/audio.go:618-648 | a partition whose audio a check condemned is still there exactly when the check failed or the prune of its audio did |
| PartmanRuns.CondemnedGo | pkg/database/partman/partman.go:254-341 | every partition whose audio a check condemned is gone exactly when, by catalogue, time and faults alone, it condemns none, or what it needs to succeed is there and no condemned one's own prune fails |
| PartmanRuns.CondemnedGoWithoutFaults | pkg/database/partman/partman.go:254-341 | without faults: exactly when its rows are unreadable, all is retained, no partition is unexpected, or what it needs to succeed is there |
| PartmanRuns.CondemnsUnexpected | pkg/database/partman/partman.go:254-301 | without faults a check condemns the audio of every partition it does not expect, even when it then fails |
| PartmanRuns.IdleCheck | pkg/database/partman/partman.go:304-341 | a check that finds exactly the expected names changes nothing |
| PartmanRuns.SecondCheck | pkg/database/partman/partman.go:304-341 | the second check at one time changes nothing, and succeeds exactly when the first created nothing on a Sunday of a weekly scheme |
| PartmanRuns.DroppingRunsSucceed | pkg/database/partman/partman.go:304-341 | with dropping, checks at any times off Sundays all succeed and end with exactly the last one's partitions |
| PartmanOrder.RunsSucceed | pkg/database/partman/partman.go:304-341 | dropping or not, checks in the order of time from an empty catalogue, none of which meets an overflowing quarterly step, all succeed exactly when none but the last is the first of its week on a Sunday of a weekly scheme, and end with exactly the last one's partitions |
| PartmanOrder.OrderedCheckSucceeds | pkg/database/partman/partman.go:304-341 | a check at a time no earlier than those before it, all tiling cleanly, succeeds |
| PartmanOrder.SkippedQuarterBlocks | pkg/database/partman/partman_intervals.go:18-24 | checks on 30 March, 31 March and 1 April of any year that keep detached tables: the third fails, having condemned the audio of the first quarter, which stays |
| PartmanHistory.RunsExactly | pkg/database/partman/partman.go:304-341 | checks from an empty catalogue at any times, in any order, overflowing quarters and Sundays included, all succeed exactly when, by the times alone, the new names of each are distinct, none but the last has new ones on a Sunday of a weekly scheme, the last one's take no range that stays, and no partition returns to its own detached table; rows, detached tables and readability at the end are given exactly |
| PartmanHistory.CheckByNames | pkg/database/partman/partman.go:304-341 | whether a check of whole intervals succeeds depends on the names there are alone, also on a Sunday |
| PartmanHistory.SundayRoom | pkg/database/partman/partman.go:150-161 | what a Sunday's check creates covers no time of a partition that stays exactly when the week after each new one is not there, or goes |
| PartmanHistory.DetachedWere | pkg/database/partman/partman.go:288-301 | without dropping, the tables left detached are those that one check expected and the next did not |
| RingQueue.MaskIsMod | internal/queue/queue.go:56-99 | masking with the length less one is the remainder, for powers of two |
| RingQueue.Queue.constructor | internal/queue/queue.go:21-25 | a new queue is empty |
| RingQueue.Queue.Length | internal/queue/queue.go:28-30 | the number of elements |
| RingQueue.Queue.Resize | internal/queue/queue.go:34-47 | all elements move in order, wrapped or not, to a buffer of twice their number, which is again a queue when that is a power of two of at least 16 |
| RingQueue.Queue.Add | internal/queue/queue.go:50-59 | appends to the sequence; the buffer doubles exactly when full |
| RingQueue.Queue.Peek | internal/queue/queue.go:63-68 | the first element, or a panic when empty |
| RingQueue.Queue.Get | internal/queue/queue.go:74-84 | element i from the front, or from the back for negative i; a panic exactly out of range |
| RingQueue.Queue.Remove | internal/queue/queue.go:88-102 | takes the first element off, or panics when empty; the buffer halves exactly when a quarter of more than 16 is left in use |
| Windows.AdvanceMeans | internal/timeseries/level.go:65-75 | an advance ends at the first slot boundary at or after the target, keeps each slot still in the window and starts new ones at 0 |
| Windows.AdvanceIsShort | internal/timeseries/level.go:65-75 | an advance the caller lets through loops at most length - 1 times |
| Windows.SumIsWeighted | internal/timeseries/level.go:80-119 | where the latest time cuts no bucket, the sum weighs each count by the part of its slot inside the range |
| Windows.SumIsCut | internal/timeseries/level.go:80-119 | wherever the latest time is, each count is weighed by its slot's overlap with the range up to the latest time, but in full when the slot starts in the range and is over, or cut, within it |
| Windows.SumBounds | internal/timeseries/level.go:80-119 | the sum of any range lies between 0 and the bucket total |
| Windows.SumIsExact | internal/timeseries/level.go:80-119 | ranges of whole slots inside the window that end by the latest time are counted exactly |
| Windows.SumAdds | internal/timeseries/level.go:80-119 | adjacent ranges add up when the latest time cuts none of their buckets |
| Levels.Level.constructor | internal/timeseries/level.go:19-29 | a new level is an empty window ending at the zero time |
| Levels.Level.Clear | internal/timeseries/level.go:31-38 | an empty window that ends with the slot of the time |
| Levels.Level.IncreaseAtTime | internal/timeseries/level.go:52-63 | adds to the slot of the time, or for a time outside the window to the slot it wraps around to; reports the future case exactly when that slot is past the window; panics exactly when Go's remainder leaves a negative index |
| Levels.Level.Advance | internal/timeseries/level.go:65-75 | for any target the circular array moves as the sliding window does; it panics exactly when a level of one bucket has to move on |
| Levels.Level.SumInterval | internal/timeseries/level.go:80-119 | the loop over the circular array computes the window's sum |
| Levels.LevelBounds | internal/timeseries/level.go:40-50 | earliest and latest are the starts of the window's first and last slots |
| SeriesModel.FlushIsPast | internal/timeseries/timeseries.go:212-236 | a flushed pending slot is in no level's future: the comment "cannot be negative" holds |
| SeriesModel.LateIsPast | internal/timeseries/timeseries.go:189-201 | a late event is in no level's future |
| SeriesModel.AdvanceToValid | internal/timeseries/timeseries.go:212-220 | advancing keeps the invariant between the levels and the pending slot |
| SeriesModel.IncreaseValid | internal/timeseries/timeseries.go:189-201 | so does every call of IncreaseAtTime |
| SeriesModel.InitialValid | internal/timeseries/timeseries.go:150-156 | a new series has it |
| TimeSeries.CheckGranularities | internal/timeseries/timeseries.go:158-173 | accepts exactly the non-empty lists whose counts are not 0, negative ones included, and whose granularities grow strictly from above 0 |
| TimeSeries.Series.New | internal/timeseries/timeseries.go:150-156 | builds exactly for good granularities, with every level empty, and panics exactly when a good one has a negative count |
| TimeSeries.Series.CreditLevels | internal/timeseries/timeseries.go:203-210 | credits every level whose window the time is not older than, wherever the time is, and never panics |
| TimeSeries.Series.AdvanceLevels | internal/timeseries/timeseries.go:222-230 | clears the levels the target is a whole window past and advances the others |
| TimeSeries.Series.HandlePending | internal/timeseries/timeseries.go:232-236 | flushes the pending amount at its time, wherever that is, and starts a pending slot at the finest end |
| TimeSeries.Series.AdvanceTo | internal/timeseries/timeseries.go:212-220 | the class step refines the model's |
| TimeSeries.Series.IncreaseAtTime | internal/timeseries/timeseries.go:189-201 | late, pending and future calls as in the model, from every valid state |
| TimeSeries.Series.Range | internal/timeseries/timeseries.go:247-263 | refuses a reversed range, else advances to the clock and answers |
| TimeSeries.Series.Answer | internal/timeseries/timeseries.go:252-274 | the finest level that covers the start answers; no answer exactly when no level meets the range |
| SeriesModel.RefusedWhenMissed | internal/timeseries/timeseries.go:265-274 | exactly the ranges that miss every level are refused, if and only if the levels together reach without a gap from the coarsest's oldest slot to the finest's newest, and no further |
| SeriesLog.RefusedHoldsNothing | internal/timeseries/timeseries.go:247-274 | after any calls, a refused range holds no credited or waiting call but before the coarsest level's oldest slot |
| SeriesLog.RunAgrees | internal/timeseries/timeseries.go:189-236 | in every reachable state every slot counts exactly the logged calls credited to it, the oldest but for what clears took from it |
| SeriesLog.AdvanceIsExact | internal/timeseries/timeseries.go:222-230 | an advance of a level whose slots are all exact leaves them exact exactly when it is not a clear that lands a window ahead of a newest slot that counts something |
| SeriesLog.CreditIsExact | internal/timeseries/level.go:52-63 | a credit keeps every slot exact |
| SeriesLog.RunIsExact | internal/timeseries/timeseries.go:189-236 | in every reachable state all slots are exact exactly when nothing is taken from the oldest |
| SeriesLog.RunNear | internal/timeseries/timeseries.go:189-236 | no call is ever credited a finest granule or more from its time |
| SeriesLog.NoCallLost | internal/timeseries/timeseries.go:189-236 | every call is in the log or waiting, once |
| SeriesLog.RunConserves | internal/timeseries/timeseries.go:189-236 | in every run all that was credited is in a bucket of each level, or was dropped there by a shift, a clear or for being too old, added up as it happens |
| SeriesLog.Conservation | internal/timeseries/timeseries.go:189-236 | with unit amounts, bucket total plus pending plus what the level's operations dropped is the number of calls, on every level |
| SeriesLog.DroppedIsOld | internal/timeseries/timeseries.go:189-236 | what the operations dropped is what was credited before the window, and what clears took from its oldest slot |
| SeriesLog.RunSound | internal/timeseries/timeseries.go:222-230 | with amounts that are not negative the oldest slot never counts too much |
| SeriesLog.RunLatest | internal/timeseries/timeseries.go:189-193 | in every run the latest time is that of the latest call so far, or the zero time |
| SeriesLog.ClearDiscards | internal/timeseries/level.go:31-38 | a clear discards only slots at or before the new oldest |
| SeriesLog.RangeAnswersLog | internal/timeseries/timeseries.go:247-263 | after any calls, a query of whole slots ended by the latest event counts exactly the calls credited in it, but for what was taken from the oldest slot |
| SeriesLog.RangeNearTimes | internal/timeseries/timeseries.go:247-263 | such a query, also from the oldest slot on, counts, but for what was taken from that slot, every credited call whose own time lies a finest granule inside the range, and none a finest granule outside |
| SeriesLog.OldestSlotCanLose | internal/timeseries/timeseries.go:222-230 | three calls after which the oldest slot has lost one |
| SeriesLog.FoldedAmountIsOne | internal/timeseries/timeseries.go:189-201 | a call folded into the pending slot adds its amount exactly when that is 1 |
| RuleJobs.RuleJob.constructor | pkg/calls/callstore/s3.go:189-213 | the job starts from the bucket's rules, copied, and their map by ID |
| RuleJobs.RuleJob.Add | pkg/calls/callstore/s3.go:108-126 | refuses an ID in the map; else queues the rule, and on B2 its marker |
| RuleJobs.RuleJob.Delete | pkg/calls/callstore/s3.go:94-105 | queues the ID, and on B2 its marker, for deletion, and takes them from the map |
| RuleJobs.RuleJob.AddRmRule | pkg/calls/callstore/s3.go:152-173 | queues the removal rule of a prefix |
| RuleJobs.RuleJob.PruneRmRule | pkg/calls/callstore/s3.go:176-180 | queues its deletion |
| RuleJobs.RuleJob.LifecycleConfig | pkg/calls/callstore/s3.go:129-149 | in-place compaction yields the original rules in order without the deleted, then the added |
| RuleJobs.KeptMembers | pkg/calls/callstore/s3.go:129-149 | the compacted rules are exactly those not deleted |
| RuleJobs.AddedRuleRemoves | pkg/calls/callstore/s3.go:152-173 | a job that does not know a prefix's ID then commits, after the rest, an enabled rule of that ID that expires exactly the prefix after a day, in the field the bucket uses; on B2 with old versions, and a marker rule before it; a job that knows it refuses |
| RuleJobs.RuleIDOf | pkg/calls/callstore/s3.go:426-428 | the ID of a prefix with one closing slash is "sb_" and the prefix without it |
| RuleJobs.AddConsistent | pkg/calls/callstore/s3.go:108-126 | an addition keeps committed IDs unique, equal to the map's keys, and B2 rules paired with markers |
| RuleJobs.DeleteConsistent | pkg/calls/callstore/s3.go:94-105 | a deletion does so exactly when the same job had not added the rule |
| RuleJobs.JobStaysConsistent | pkg/calls/callstore/s3.go:94-149 | so does every sequence of changes that deletes nothing it added |
| RuleJobs.RuleIDInjective | pkg/calls/callstore/s3.go:426-428 | rule IDs tell prefixes with one closing slash apart |
| Journal.Callstore.Prune | pkg/calls/callstore/s3.go:379-419 | by rule on S3, by removal on the file system: failed, again at a time, or done (what is achieved: JournalProgress.PrefixTurn, PlainPruned) |
| Journal.Callstore.PruneBackendRefs | pkg/calls/callstore/audio.go:347-424 | journals each prefix, prunes it and records what came of it; the job is committed even after an error (what is achieved: JournalProgress.PruneRefsAchieves) |
| Journal.Callstore.GC | pkg/calls/callstore/journal.go:105-244 | goes through the due rows by backend, with one job each, error counts and a commit at every change of backend (what is achieved: JournalProgress.CollectSettles) |
| Journal.Callstore.CollectCallback | pkg/calls/callstore/journal.go:126-239 | one row: the last backend's commit, the next one's job, the row's prune and its journal statement |
| Journal.Callstore.CommitPruneJob | pkg/calls/callstore/s3.go:228-234 | sets the bucket's rules to the job's configuration when it changed anything and the call succeeds |
| JournalSafety.PruneRefSafe | pkg/calls/callstore/s3.go:346-419 | a prune adds no object, and reports done only when none is left, unless the context was cancelled |
| JournalSafety.FilesCover | pkg/calls/callstore/fs.go:90-114 | the files removed for a reference include every object under it |
| JournalSafety.PruneRefsGuards | pkg/calls/callstore/audio.go:383-421 | after PruneBackendRefs each journalled prefix has an entry or nothing under it |
| JournalSafety.CollectGuards | pkg/calls/callstore/journal.go:126-239 | the collector keeps that true, whatever fails |
| JournalSafety.RunsAreSafe | pkg/calls/callstore/journal.go:105-244 | over every interleaving, a journalled prefix keeps an entry until no object under it remains, if nothing new is stored there |
| JournalProgress.PruneRefsAchieves | pkg/calls/callstore/audio.go:383-421 | without faults PruneBackendRefs succeeds: all under a file-system reference and each single S3 object is gone, exactly those, and no entry is left for them; each S3 prefix has an entry and its rule, with a prune time five days on exactly when the rule is new; nothing else changes |
| JournalProgress.PlainPruned | pkg/calls/callstore/fs.go:90-114 | one reference on the file system, or one object in S3: exactly what it names goes, and the journal is as before |
| JournalProgress.CollectSettles | pkg/calls/callstore/journal.go:105-244 | without faults one pass of the collector settles every due entry: on the file system it is gone with exactly the objects it names; an S3 prefix with nothing under it loses entry and rule; every other waits five more days with its rule committed |
| JournalProgress.PrefixTurn | pkg/calls/callstore/s3.go:379-419 | one due S3 prefix: entry and rule go exactly when its time was set and is over, its rule is there and nothing is under it; else the prune time is set anew and the rule is in force; other rules stay |
| JournalProgress.CollectReports | pkg/calls/callstore/journal.go:233-239 | whatever fails, the count that is reported is the number of entries the journal has lost |
| JournalProgress.FailingBackendStops | pkg/calls/callstore/journal.go:183-185 | when every prune of a backend fails, five of its entries are tried and the rest passed over |
| JournalOutcomes.UnderExactly | pkg/calls/callstore/s3.go:346-377 | what a reference names: itself, and if it ends in a slash everything that starts with it |
| JournalOutcomes.EntryAfter | pkg/calls/callstore/journal.go:186-239 | whatever fails, a row's entry goes exactly when nothing failed, it was due and what it names was removed or emptied; waits five more days exactly when its S3 prefix gets or keeps its rule and that can be recorded; and else counts one more try exactly when something failed; the reported numbers follow |
| JournalOutcomes.ObjectsAfter | pkg/calls/callstore/journal.go:186-239 | whatever fails, an object goes exactly when it is named by a due file-system row or a single S3 object, and the removal succeeded or had reached it |
| JournalOutcomes.PruneOneStops | pkg/calls/callstore/audio.go:383-421 | pruning stops exactly when an entry could not be added, or the new prune time or the finished removal not be recorded |
| JournalOutcomes.LostDropStays | pkg/calls/callstore/audio.go:412-416 | an entry that could not be dropped stays, with nothing left under it |
| JournalOutcomes.NothingPruned | pkg/calls/callstore/audio.go:347-382 | an unknown backend and a job that cannot be started are errors, a disabled backend is none, and none is touched |
| JournalOutcomes.LostJobStops | pkg/calls/callstore/journal.go:146-172 | a backend whose job could not be started is left alone for the rest of the pass, and each of its rows counts one more try |
| JournalStuck.LostUpdateSticks | pkg/calls/callstore/audio.go:383-421 | pruning a fresh prefix leaves a stuck entry exactly when the entry was added, its prune time was not recorded and the job was committed; an error is reported exactly when the job, the entry or the prune time failed |
| JournalStuck.LostCollectSticks | pkg/calls/callstore/journal.go:186-239 | a collected entry is stuck exactly when its job started and was committed but its prune time was not recorded |
| JournalStuck.StuckForever | pkg/calls/callstore/journal.go:126-239 | a stuck entry and its rule stay through every later sequence of steps, even when no object is left |
| JournalStuck.RowGetsPruneTime | pkg/calls/callstore/journal.go:186-237 | without faults a collected prefix gets a prune time exactly when its rule is not in the job yet |
| AddCalls.RefTracker.Reset | pkg/calls/callstore/reftracker.go:15-42 | empties every list |
| AddCalls.TrackedGo | pkg/calls/callstore/reftracker.go:46-83 | references created or queued one after the other on a reset tracker are exactly what a rollback or commit takes away, but for what failing deletes leave |
| AddCalls.RefTracker.QueueDeleteAll | pkg/calls/callstore/reftracker.go:85-107 | queues every reference of a call, each as the path it names, exactly when all its backends are known; never anything else |
| AddCalls.RefTracker.Rollback | pkg/calls/callstore/reftracker.go:46-60 | deletes every created object; reports success exactly when no delete failed |
| AddCalls.RefTracker.Commit | pkg/calls/callstore/reftracker.go:64-83 | deletes every queued object; resets exactly when all deletes succeeded |
| AddCalls.Callstore.StoreAudio | pkg/calls/callstore/audio.go:426-474 | the first accepting backend takes the object; a failure goes on, stops, or falls to the database as configured |
| AddCalls.StoreFromKeeps | pkg/calls/callstore/audio.go:426-474 | storing loses no object, a stored object exists, and what else is added is the call's object in a configured backend that failed and kept it |
| AddCalls.StoreFromExactly | pkg/calls/callstore/audio.go:426-474 | the backend that takes a call is the first that does not pass it on, if it does not fail; the call is for the database exactly when that one fails and says so, or there is none and the end of the list says so |
| AddCalls.Callstore.AddCall | pkg/calls/callstore/store.go:233-324 | audio, row, learn-and-retry, commit or rollback, whatever the pooled tracker held before (what it leaves: AddCalls.AddCallLeavesRow, AddCallLeavesObjects) |
| AddCalls.AddCallLeavesRow | pkg/calls/callstore/store.go:233-324 | a call is reported stored exactly when it is authorized, taken or for the database, its reference can be written down, its key is free and the insert commits, at once or after learning; then it has exactly one new row, with its audio in it exactly when no backend took it, and else the object it refers to; otherwise no row is new |
| AddCalls.AddCallLeavesObjects | pkg/calls/callstore/store.go:233-324 | the objects afterwards are the old ones, the call's own in backends that failed and kept it, and in the one that took it unless the call failed later and its removal reached it |
| AddCalls.AddCallNoDangling | pkg/calls/callstore/store.go:233-324 | every committed reference keeps naming an object exactly when the call does not take back one that a committed row refers to |
| AddCalls.AddCallAlwaysSafe | pkg/calls/callstore/store.go:233-324 | it does so whatever fails exactly when no configured backend holds the call's path for a committed row |
| AddCalls.AddingTwiceLosesAudio | pkg/calls/callstore/store.go:233-324 | adding a stored call again fails and leaves the first row without its object |
| AddCalls.AddCallNeverOrphans | pkg/calls/callstore/store.go:233-324 | whatever else fails, no object is left without a row exactly when each configured backend that may keep what it failed to store, or fail to delete, holds the call's path for a committed row |
| AddCalls.RunKeepsAudio | pkg/calls/callstore/store.go:233-324 | over every sequence of calls with distinct IDs sharing trackers, whatever fails, references name objects |
| AddCalls.RunsNeverOrphan | pkg/calls/callstore/fs.go:219-236 | no sequence of given calls, whatever else fails, leaves an object without a row exactly when there is no call, or no configured backend may keep what it failed to store or fail to delete |
| TagFilters.UnaffectedExactly | pkg/calls/filter/filter.go:162-193 | tags a filter does not refer to never change its compile, exactly for filters whose all-tags are missing or not empty |
| TagFilters.KnownIndifferent | pkg/calls/filter/filter.go:162-193 | on talkgroups that are there already, they never do for any filter |
| TagFilters.RecompileSuffices | pkg/talkgroups/tgstore/store.go:550-566 | recompiling the filters that refer to an affected tag suffices exactly when each lost tag is among the affected: for all filters when no talkgroup is added, else for those whose all-tags are missing or not empty |
| TagFilters.DeleteMatters | pkg/talkgroups/tgstore/store.go:661-695 | deleting a talkgroup changes a compile exactly when the filter selected it by tags alone |
| TagFilters.PartialIsFresh | pkg/calls/filter/filter.go:162-193 | what a failed compile leaves equals a fresh one exactly when nothing is excluded and tags select only what is listed |
| TagFilters.ExcludedTagsAlone | pkg/database/talkgroups.sql.go:204-210 | with excluded tags only, a NULL list of all-tags selects nothing and an empty one everything not excluded |
| TagFilters.SelectedExactly | pkg/database/talkgroups.sql.go:204-210 | a filter with tags selects exactly the talkgroups that have no excluded tag and either all of the all-tags, when there is such a list, or one of the any-tags |
| TagFilters.CompileExactly | pkg/calls/filter/filter.go:162-193 | a compile that succeeds lets through exactly what is not excluded by number and is listed or selected; one whose query fails, exactly what is listed; a filter for everything is left as it was |
| TagFilters.FreshExactly | pkg/calls/filter/filter.go:162-193 | a compile lets through exactly what is not excluded by number and is listed or selected, and knows the excluded as well |
| TagFilters.VerdictExactly | pkg/calls/filter/filter.go:195-224 | a call passes exactly when the first of its talkgroup and patches that the filter knows is let through |
| TagFilters.OwnTalkgroupDecides | pkg/calls/filter/filter.go:195-224 | whenever the filter knows a call's own talkgroup, that decides, whatever its patches |
| TagWrites.UpdateWrites | pkg/talkgroups/tgstore/store.go:580-636 | an update writes no tag that it does not report |
| TagWrites.UpdateLeaves | pkg/talkgroups/tgstore/store.go:580-636 | an update with tags gives exactly those to every talkgroup it matches by number or row id; nothing else changes |
| TagWrites.UpdateCoversExactly | pkg/talkgroups/tgstore/store.go:580-636 | it reports every lost tag exactly when it sets none, or each matched talkgroup loses only tags seen on the one named by number |
| TagWrites.UpdateCovers | pkg/talkgroups/tgstore/store.go:580-636 | one matched row, seen beforehand: every lost tag is reported and the cache stays right |
| TagWrites.UpsertWrites | pkg/talkgroups/tgstore/store.go:784-866 | an upsert writes no tag that it does not report |
| TagWrites.UpsertCovers | pkg/talkgroups/tgstore/store.go:784-866 | when rows name the system they are written to, every lost tag is reported |
| TagWrites.OneRowCovers | pkg/talkgroups/tgstore/store.go:784-806 | for one row, exactly when it names its system, keeps its tags, is new, or finds the dropped tags on the talkgroup it names |
| TagWrites.BatchCovers | pkg/talkgroups/tgstore/store.go:784-866 | for a batch, exactly when each tag that the last tags written to a talkgroup lack is among some row's tags or on a talkgroup that some row names |
| TagWrites.UpsertExactly | pkg/talkgroups/tgstore/store.go:784-866 | after a batch there are exactly the old talkgroups and its targets; each has the tags of the last row with tags written to it, each in lower case, or without one its old tags, or none when new |
| TagWrites.ResultsAgree | pkg/talkgroups/tgstore/store.go:844-847 | adding the statements' results in order leaves the cache right, also when a talkgroup comes twice |
| TagWrites.PrimedAgrees | pkg/talkgroups/tgstore/store.go:774-783 | priming keeps the cache right and brings in every named talkgroup there is |
| FilterCache.Filter.Compile | pkg/calls/filter/filter.go:162-193 | lets through exactly the listed and selected talkgroups less the excluded (selected: TagFilters.SelectedExactly); a failing query leaves the listed only |
| FilterCache.Filter.Test | pkg/calls/filter/filter.go:195-224 | compiles on first use; the first of talkgroup and patches that the filter knows decides; a current filter answers what the database says |
| FilterCache.RegisteringIndexes | pkg/talkgroups/tgstore/store.go:887-900 | a filter with tags is registered, and every registered filter is found under exactly the tags it refers to |
| FilterCache.UnregisteringIndexes | pkg/talkgroups/tgstore/store.go:902-910 | the filter is gone, the others stay, the index stays right |
| FilterCache.StaysCurrent | pkg/talkgroups/tgstore/store.go:550-566 | a current filter is current again after the recompiles of a write that reports what it lost, if its all-tags are missing or not empty or the write adds no talkgroup |
| FilterCache.Cache.RegisterFilter | pkg/talkgroups/tgstore/store.go:887-900 | adds the filter under each of its tags; registering a current filter keeps all current |
| FilterCache.Cache.UnregisterFilter | pkg/talkgroups/tgstore/store.go:902-910 | removes it under every tag; the rest stay current |
| FilterCache.Cache.RecompileFilters | pkg/talkgroups/tgstore/store.go:550-566 | compiles exactly the filters with an affected tag; a failure leaves later ones as they were and one half compiled |
| FilterCache.Cache.UpdateTG | pkg/talkgroups/tgstore/store.go:568-636 | errors change nothing; success sets the matched rows and cache, and with its recompiles keeps every filter equal to a fresh compile when what it lost is reported |
| FilterCache.Cache.UpsertTGs | pkg/talkgroups/tgstore/store.go:751-866 | the same for a batch (what it leaves: TagWrites.UpsertExactly), in particular whenever the rows name the system given |
| FilterCache.Cache.LearnTG | pkg/talkgroups/tgstore/store.go:708-749 | a learned talkgroup has no tags, and every compliant filter stays current |
| FilterCache.Cache.DeleteTG | pkg/talkgroups/tgstore/store.go:661-695 | filters stay current exactly when none selected the talkgroup by tags alone |

## Left out

- `pkg/calls/callstore/move.go`, HTTP, RBAC policy, the S3, file-system and Postgres clients: remote
  systems are sets and maps whose operations succeed or fail as the environment chooses.
- Locks and goroutine scheduling: each operation is one step, except that the journal's steps and the
  environment's removals interleave freely.
- Time zones other than UTC, daylight saving, the monotonic clock, and years before 1 for partitions.
- Integer widths: Go's 64-bit `int` and `time.Duration` are unbounded here, and `Atoi` has no range error.
- Floating point: bucket fractions are exact reals.
- `IsoWeek.OffsetIsPlainForm`: says nothing of years before -4712, whose dates have negative day numbers.
- `PartitionNames.VerifyPartName`: the text of partition bounds in the catalogue is already decoded.
- `Partman.Manager.Check`: the statements that sweep calls out of a pruned partition are one statement
  that may fail; the order in which the catalogue lists rows is an input; what condemning does to the
  audio is `Journal`'s part.
- A negative number of provided partitions: Go panics when it makes the slice.
- `PartmanOrder.RunsSucceed`: is for times from which no quarterly step overflows;
  `PartmanHistory.RunsExactly` gives the condition for all times.
- `SeriesLog.RangeAnswersLog`: does not say what a range cut inside a slot, or past the latest event,
  should count; `SumIsWeighted` and `SumBounds` say what it does count.
- `AudioPaths.CallIDComesBack`: compares the text that is parsed; other spellings of the same UUID, as
  upper-case digits, are not modelled.
- `AddCalls.RunKeepsAudio`: object paths are keys as S3 has them; the file system cleans `.`, `..` and
  empty elements out of a path, so that audio names with such elements can meet there.
- `Recent` and `Increase`: one call each to what is modelled, with the clock's time.
- `Journal.Callstore.GC`: entries that record a creation are never selected by its query and are not
  modelled; metrics and the error channel are not either.
- `JournalSafety.PruneRefSafe`: a cancelled listing may report a prefix as empty; the journal statement
  that would drop the entry fails with the same context, which is why runs stay safe.
- `AddCalls.Callstore.AddCall`: the call row's other columns and the marshalled form of the reference.
- `FilterCache.Cache.UpdateTG`: versions of talkgroups are part of the transaction that may fail, and
  columns other than the tags are not modelled.
- `FilterCache.Cache.UpsertTGs`: lower-casing of tags is any function of a tag, since no property
  depends on it.
- `FilterCache.Cache.LearnTG`: the name of a learned system.
