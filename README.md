# Shadow-waste pipeline, modelled in Dafny

A model of the core of the "Shadow Nirikshan Engine". This batch pipeline looks for
*shadow waste*: water or electricity used during a building's scheduled inactive hours.
The model covers all five stages of one 30-minute monitoring cycle:

- **Window extraction** (`get_time_window`). The readings stamped in the half-open range
  `[t - w minutes, t)`. Modelled in `Scheduler.dfy`.
- **Silence classification** (`is_time_in_window`, `mark_silence_windows`). It handles normal
  windows and windows that run past midnight. Every reading is tagged `is_silence` when some
  `NO` rule of its building covers its time of day. Modelled in `SilenceDetection.dfy`.
- **Mean baseline** (`compute_silence_baseline`). The mean usage of the silence rows of each
  (building, resource) pair. Modelled in `Baseline.dfy`.
- **Anomaly detection** (`detect_shadow_waste`). A left join of the baseline onto the readings,
  then a loop that flags a row when it is silent, its pair has a baseline, and usage is strictly
  above baseline times the resource's threshold (water 1.5, electricity 1.3, anything else 1.5).
  Modelled in `Anomaly.dfy`.
- **Cycle driver** (`run_single_cycle` and the run-all loop of `app.py`). A class `App.Session`
  holds the cursor, the end of the data, the cycle counter and the two append-only histories
  (anomaly tables and decisions). Modelled in `App.dfy`.

Shared pieces:

- `Readings.dfy` holds the entities: readings, schedule rules, tagged readings and
  (building, resource) keys.
- `Seqs.dfy` holds `Filter`, which models a pandas boolean mask `df[mask]`, and its lemmas.
- `Wrappers.dfy` holds `Option`, used for a baseline that may be missing (pandas' NaN).

How the model represents the data:

- Timestamps are whole seconds.
- A time of day is `timestamp % 86400`, so it lies in `0 .. 86399`.
- Usage and baselines are exact `real`s.
- Tables are sequences of datatype values. Every transform returns a new sequence, so an input
  table is never modified — as the source's `.copy()` calls intend.

The imperative pieces keep the source's form:

- `MarkSilenceWindows` is a method with nested loops over the readings and over the building's
  rules, writing into a fresh `is_silence` array that starts all false.
- `DetectShadowWaste` copies the joined table into an array and loops over it, deciding each
  row's `is_anomaly` in place.
- `Session.RunSingleCycle` updates the session's fields. `Session.AppendDecisions` is its
  decision loop, and `Session.RunOneDay` is the run-all `while` loop.

Each method is proved against a specification function: `Tag`, `ShadowWaste`, `CycleResult`,
`CycleDecisions`. The properties are lemmas about those functions.

### Consequences of the code's boundaries

- **The history includes the current window.** The baseline of the cycle at cursor `t` is
  learned from every reading with `timestamp < current_time` (`app.py:100`). That set includes
  the window being judged, `[t - 30 min, t)`.
  - So inside the driver, every silent row of the window has a baseline: at least its own
    reading (`App.SilentRowsHaveBaseline`).
  - The deferral of `detect_shadow_waste` for a row without a baseline (`pipeline/anomaly.py:32-34`)
    happens only when the detector is called on its own
    (`Anomaly.MissingBaselineNeverFlagged`).
- **The last reading is never judged.** A cycle runs only while `current_time <= end_time`
  (`app.py:82`), and `end_time` is the latest timestamp of the data (`app.py:45`). A window never
  contains its own cursor (`pipeline/scheduler.py:19`). So a reading stamped exactly at
  `end_time` lies in no window the driver ever runs (`App.LastReadingNeverJudged`). On data laid
  out on a 30-minute grid, that is the whole last slot.
- **The run-all loop runs up to 49 cycles.** It loops while `current_time <= start + 1 day`,
  so cursor values start, start + 30 min, …, start + 1 day are all run. That is up to 49 cycles,
  where the progress-bar comment says 48 (`Session.RunOneDay`).

## Model

| member | source | states |
|---|---|---|
| Seqs.Filter | pipeline/scheduler.py:17-20 | a boolean mask keeps at most the input's rows, and a row is kept exactly when it is in the input and satisfies the mask |
| Seqs.FilterCount | pipeline/scheduler.py:17-20 | a mask keeps every satisfying row as many times as it occurs and drops every other row |
| Seqs.FilterIsSubsequence | pipeline/scheduler.py:17-22 | a mask's result is an order-preserving subsequence of its input |
| Scheduler.GetTimeWindow | pipeline/scheduler.py:3-22 | computes the readings stamped in `[t - w min, t)`, in input order (its properties are the `Window` lemmas below) |
| Scheduler.WindowCount | pipeline/scheduler.py:15-20 | a reading occurs in the window exactly as often as in the data if its timestamp is in `[t - w min, t)`, and otherwise not at all (sound and complete, fields unchanged) |
| Scheduler.WindowMembership | pipeline/scheduler.py:15-20 | a reading is in the window iff it is in the data and `t - 60w <= timestamp < t` |
| Scheduler.WindowKeepsOrder | pipeline/scheduler.py:17-22 | the window is an order-preserving subsequence of the data |
| Scheduler.WindowBounds | pipeline/scheduler.py:18-19 | for a positive window, a reading stamped exactly `t` is excluded and one stamped exactly `t - w min` is included |
| Scheduler.WindowEmpty | pipeline/scheduler.py:17-22 | the window is empty iff no reading lies in the range; an empty window is an ordinary result |
| Scheduler.AdjacentWindowsCover | pipeline/scheduler.py:15-20 | the windows at cursors `t` and `t + w`, taken together, are exactly the readings of `[t - w, t + w)`, counted as multisets |
| Scheduler.AdjacentWindowsDisjoint | pipeline/scheduler.py:15-20 | a reading in the window at `t` is never in the window at `t + w` |
| Readings.TimeOfDayOf | pipeline/silence_detection.py:29 | the time of day differs from the timestamp by a whole number of days, and is the timestamp itself within the first day |
| SilenceDetection.IsTimeInWindow | pipeline/silence_detection.py:5-13 | computes the window test: the closed range from start to end when `start <= end`, otherwise the times from start to midnight and from midnight to end (its properties are `WindowShapes` and `WindowIsArc`) |
| SilenceDetection.WindowShapes | pipeline/silence_detection.py:9-13 | a normal window is inclusive at both ends; an overnight one holds `t >= start or t <= end`, that is everything except the gap between end and start; `start == end` holds only that time |
| SilenceDetection.WindowIsArc | pipeline/silence_detection.py:9-13 | a time is in a window, normal or overnight, iff its clockwise distance from start is at most end's |
| SilenceDetection.Tag | pipeline/silence_detection.py:24-40 | the reference table `MarkSilenceWindows` is proved equal to: every reading paired with whether some rule of the schedule silences it |
| SilenceDetection.MarkSilenceWindows | pipeline/silence_detection.py:24-40 | the same readings in the same order, each tagged `is_silence` iff some rule of its building with activity `NO` has a window containing its time of day; equal to `Tag` |
| SilenceDetection.BuildingRulesDecide | pipeline/silence_detection.py:31-40 | a reading is silent iff one of its own building's rules (the per-building filter the loop walks) covers its time of day |
| SilenceDetection.OnlyNoRulesMatter | pipeline/silence_detection.py:34 | removing every rule whose activity is not `NO` leaves every tag unchanged |
| SilenceDetection.OtherBuildingsIgnored | pipeline/silence_detection.py:31 | removing every rule of other buildings leaves a reading's tag unchanged |
| SilenceDetection.UnscheduledBuildingIsActive | pipeline/silence_detection.py:25-34 | a reading of a building with no `NO` rule is tagged false |
| SilenceDetection.TagIgnoresRuleOrder | pipeline/silence_detection.py:33-40 | two schedules with the same rules, in any order or repetition, tag alike |
| SilenceDetection.TagIdempotent | pipeline/silence_detection.py:25-40 | tagging the tagged table again (the column reset first) gives back the same table |
| SilenceDetection.TagMember | pipeline/silence_detection.py:27-40 | every input reading appears in the output with its own silence verdict |
| Baseline.DistinctKeys | pipeline/baseline.py:15 | the group keys are pairwise distinct and are exactly the keys that occur in the rows |
| Baseline.KeyHasGroup | pipeline/baseline.py:15 | a pair is a group key iff its group of rows is non-empty |
| Baseline.ComputeSilenceBaseline | pipeline/baseline.py:11-19 | one baseline row per distinct pair among the silence rows, keyed by that pair |
| Baseline.Lookup | pipeline/anomaly.py:22-26 | a pair's lookup is missing iff no baseline row has that pair |
| Baseline.LookupUnique | pipeline/anomaly.py:22-26 | in a table with unique keys, looking up a row's pair finds that row's baseline |
| Baseline.BaselineKeysUnique | pipeline/baseline.py:13-16 | no pair has two baseline rows |
| Baseline.BaselineLookup | pipeline/baseline.py:11-18 | a pair's baseline is the mean usage of its silence rows, and is missing (not 0) when it has none |
| Baseline.NoSilenceNoBaseline | pipeline/baseline.py:11-18 | an input without silence rows gives an empty baseline |
| Baseline.OnlySilenceRowsCount | pipeline/baseline.py:11 | two inputs with the same silence rows have the same baseline, whatever their active rows |
| Baseline.TotalAtLeast | pipeline/baseline.py:16 | the total usage is at least the count times a lower bound on each usage |
| Baseline.TotalAtMost | pipeline/baseline.py:16 | the total usage is at most the count times an upper bound on each usage |
| Baseline.Mean | pipeline/baseline.py:16 | computes the arithmetic mean of a non-empty group's usages: their total divided by their count |
| Baseline.MeanBetween | pipeline/baseline.py:16 | a mean lies between any lower and upper bound of the usages it averages |
| Baseline.BaselineWithinGroup | pipeline/baseline.py:16 | a pair's baseline lies between the least and greatest usage of its silence rows, so it is non-negative when they are |
| Anomaly.Threshold | pipeline/anomaly.py:3-6 | the threshold is 1.5 for water, 1.3 for electricity and 1.5 for any other resource, as the `THRESHOLDS.get(resource, 1.5)` lookup on line 36 gives |
| Anomaly.JoinOne | pipeline/anomaly.py:22-26 | a reading yields one merged row per matching baseline row, in order, each carrying the reading unchanged, `is_anomaly` false and that baseline row's value; or exactly one row with a missing baseline when there is no match |
| Anomaly.LeftJoin | pipeline/anomaly.py:18-26 | the join has at least as many rows as there are readings, and every merged row starts with `is_anomaly` false |
| Anomaly.LeftJoinSound | pipeline/anomaly.py:18-26 | whatever the baseline's keys, every merged row carries an input reading unchanged, with `is_anomaly` false, and a baseline that is a value of a baseline row of its own pair, missing only when its pair has no baseline row |
| Anomaly.LeftJoinComplete | pipeline/anomaly.py:22-26 | whatever the baseline's keys, every input reading appears in at least one merged row |
| Anomaly.LeftJoinConcat | pipeline/anomaly.py:22-26 | the join keeps the readings' order: joining two tables one after the other gives the two joins one after the other |
| Anomaly.IsShadowWaste | pipeline/anomaly.py:29-38 | the flagging rule: the row is silent, its baseline is known, and usage is strictly above baseline times the resource's threshold |
| Anomaly.ShadowWaste | pipeline/anomaly.py:18-42 | the reference table `DetectShadowWaste` is proved equal to: the left join with every row's `is_anomaly` set by the flagging rule |
| Anomaly.DecideRow | pipeline/anomaly.py:28-39 | the loop body keeps the row's reading and baseline and sets `is_anomaly` iff the row is silent, has a baseline, and usage is strictly above baseline times threshold |
| Anomaly.DetectShadowWaste | pipeline/anomaly.py:18-42 | at least one row per reading, each row flagged iff it satisfies the shadow-waste rule; equal to `ShadowWaste` |
| Anomaly.MatchesOfUniqueKey | pipeline/anomaly.py:22-26 | with unique keys, the baseline rows matching a pair are its looked-up row, or none |
| Anomaly.LeftJoinUnique | pipeline/anomaly.py:18-26 | with unique keys, the join has one row per reading, in input order, with the reading unchanged, `is_anomaly` false, and its pair's baseline or a missing one |
| Anomaly.ShadowWasteRows | pipeline/anomaly.py:18-39 | with unique keys, the detector's table has one row per reading, in order, unchanged, carrying its pair's baseline, flagged iff silent, baseline known and usage above baseline times threshold |
| Anomaly.ActiveNeverFlagged | pipeline/anomaly.py:29-30 | a row that is not silent is never flagged, whatever its usage |
| Anomaly.MissingBaselineNeverFlagged | pipeline/anomaly.py:32-34 | a row whose pair has no baseline is never flagged |
| Anomaly.AtThresholdNotFlagged | pipeline/anomaly.py:38 | usage exactly at baseline times threshold is not an anomaly |
| Anomaly.MoreUsageStaysFlagged | pipeline/anomaly.py:38 | raising a flagged row's usage keeps it flagged |
| App.StampRunTime | app.py:106 | the `run_time` column is added to every row and the rows are otherwise unchanged |
| App.CycleResult | app.py:96-106 | the reference table of one non-empty cycle: the window, tagged, judged against the baseline of the tagged history before the cursor, stamped with the cursor |
| App.CycleDecisions | app.py:112-117 | the reference decisions of one cycle: for each flagged row, in row order, `generate` of that row stamped with the cycle number and run time |
| App.DecisionsStep | app.py:112-117 | one more row of a result adds one decision if and only if that row is flagged |
| App.DecisionsPerAnomaly | app.py:112-117 | a cycle makes exactly one decision per flagged row, in row order, generated from that row and stamped with the cycle number and run time |
| App.CycleUsesOnlyPast | app.py:96-106 | the cycle at cursor `t` depends only on the readings stamped before `t` |
| App.LastReadingNeverJudged | app.py:82-90 | a reading stamped exactly at the end of the data is in no window of a cycle the driver runs, since such a cycle's cursor is at most that end and the window excludes its cursor |
| App.WindowWithinHistory | app.py:86-100 | the cycle's window is the last 30 minutes of the history before the cursor |
| App.CycleResultRows | app.py:96-106 | a cycle's result has one record per window reading, in order: the reading's silence tag, its pair's historical baseline, the anomaly verdict and the cycle's run time |
| App.SilentRowsHaveBaseline | app.py:96-105 | in the driver every silent row of the window has a baseline, because the history includes the window |
| App.RecordCyclePreserves | app.py:106-120 | recording one cycle's result, stamped with the cursor, then advancing the cursor keeps the session invariant |
| App.AdvancePreserves | app.py:93 | advancing the cursor alone keeps the session invariant |
| App.CyclePipeline | app.py:96-106 | tagging the window, tagging the history before the cursor, learning its baseline, detecting and stamping gives the cycle's specified result, every row stamped with the cursor |
| App.Session.constructor | app.py:47-54 | a fresh session: cursor at the start, counter 0, both histories empty, invariant established |
| App.Session.RunSingleCycle | app.py:77-121 | past the end it returns false and changes nothing; on an empty window it advances the cursor only; otherwise it appends the cycle's result, adds one to the counter, appends that cycle's decisions, and advances the cursor by 30 minutes; the session invariant holds throughout |
| App.Session.AppendDecisions | app.py:111-117 | the decision history gains exactly the cycle's decisions, one per flagged row, in order |
| App.Session.RunOneDay | app.py:134-147 | the loop terminates after at most 49 cycles, with the cursor moved by 30 minutes per cycle and past either one day after its start or the end of the data; if the data lasts a full day it runs all 49; the histories are only appended to |

The session invariant (`App.SessionInvariant`, kept by every `Session` method) states:

- one anomaly entry per counted cycle;
- the entries' run times increase strictly and lie before the cursor;
- every record of an entry carries that entry's run time;
- the decision history is exactly the decisions those entries produce (`App.AllDecisions`).

## Left out

- The Streamlit page, sidebar buttons, progress bar, messages and result charts: presentation only.
- Loading the CSV files and parsing dates: the model starts from in-memory sequences.
  `App.Session.constructor` takes the starting cursor and the end of the data as parameters
  instead of deriving them from the minimum and maximum timestamps.
- `pipeline/ingestion.py`: schedule loading is not part of this model.
- `generate_dummy_data.py`: random data generation and a file write, not part of this model.
- `generate_decision`: `pipeline/decision.py` is not part of this model. The session holds it as
  an opaque function `generate`, and each decision is `generate` of its row, stamped with the
  cycle and run time.
- A learned baseline strategy and strategy switching: no such code exists in the modelled files.
- Floating-point rounding: the mean and `baseline * threshold` are exact reals.
- The diagnostic print on each detection: observability only.
- When two baseline rows share a pair (which `compute_silence_baseline` never produces, `Baseline.BaselineKeysUnique`), the model's join does give one row per match. But the exact contents of each merged row, position by position, are stated only for unique keys (`Anomaly.LeftJoinUnique`). For any keys, only membership, the baselines' origin and order across readings are stated.
- The order of the baseline table's rows: pandas' `groupby` sorts the keys, and the model keeps
  them in order of first appearance. Nothing downstream depends on this order, because the join
  looks rows up by key.
- An anomaly-history entry being equal to `CycleResult` of its own run time is stated per call,
  by `Session.RunSingleCycle`, and is not carried in the session invariant.
- Sub-second timestamps: times are whole seconds.
- The test scripts: they print and assert nothing.
