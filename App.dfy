/**
 * The cycle driver: a session holding a time cursor, a cycle counter and
 * the two append-only histories, advanced one 30-minute cycle at a time.
 */
module App {
  import opened Seqs
  import opened Readings
  import opened Scheduler
  import opened SilenceDetection
  import opened Baseline
  import opened Anomaly

  /** Each cycle covers, and advances the cursor by, 30 minutes. */
  const CYCLE_MINUTES: int := 30
  const CYCLE_SECONDS: int := 30 * 60

  /** A row of one cycle's result: the detector's row with the `run_time` column added. */
  datatype AnomalyRecord = AnomalyRecord(row: AnomalyRow, runTime: int)

  /** What `generate_decision` returned, with the `cycle` and `run_time` keys the driver sets. */
  datatype Decision<D> = Decision(details: D, cycle: nat, runTime: int)

  /** The mask `timestamp < current_time`. */
  function Before(t: int): Reading -> bool
  {
    (r: Reading) => r.timestamp < t
  }

  /** The readings the baseline of the cycle at `t` is learned from. */
  function Historical(usage: seq<Reading>, t: int): seq<Reading>
  {
    Filter(usage, Before(t))
  }

  /** The window of the cycle at `t`. */
  function CycleWindow(usage: seq<Reading>, t: int): seq<Reading>
  {
    GetTimeWindow(usage, t, CYCLE_MINUTES)
  }

  /** The baseline of the cycle at `t`: silence tagging, then the mean, over the history. */
  function CycleBaseline(usage: seq<Reading>, schedule: seq<Rule>, t: int): seq<BaselineRow>
  {
    ComputeSilenceBaseline(Tag(Historical(usage, t), schedule))
  }

  /** `result["run_time"] = current_time`. */
  function StampRunTime(rows: seq<AnomalyRow>, t: int): (r: seq<AnomalyRecord>)
    ensures |r| == |rows|
    ensures forall i :: 0 <= i < |rows| ==> r[i].row == rows[i] && r[i].runTime == t
  {
    seq(|rows|, i requires 0 <= i < |rows| => AnomalyRecord(rows[i], t))
  }

  /** The table one non-empty cycle at `t` appends to the anomaly history. */
  function CycleResult(usage: seq<Reading>, schedule: seq<Rule>, t: int): seq<AnomalyRecord>
  {
    StampRunTime(ShadowWaste(Tag(CycleWindow(usage, t), schedule), CycleBaseline(usage, schedule, t)), t)
  }

  predicate IsFlagged(rec: AnomalyRecord)
  {
    rec.row.isAnomaly
  }

  /** The decisions one cycle appends: one per flagged row, in row order, stamped with the cycle and its run time. */
  function CycleDecisions<D>(result: seq<AnomalyRecord>, generate: AnomalyRecord -> D, cycle: nat, runTime: int): seq<Decision<D>>
  {
    if result == [] then []
    else
      var last := result[|result| - 1];
      CycleDecisions(result[..|result| - 1], generate, cycle, runTime) +
        (if last.row.isAnomaly then [Decision(generate(last), cycle, runTime)] else [])
  }

  /** The decision history that a sequence of cycles, numbered from 1, builds up. */
  function AllDecisions<D>(history: seq<seq<AnomalyRecord>>, runTimes: seq<int>, generate: AnomalyRecord -> D): seq<Decision<D>>
    requires |runTimes| == |history|
  {
    if history == [] then []
    else
      var n := |history|;
      AllDecisions(history[..n - 1], runTimes[..n - 1], generate) +
        CycleDecisions(history[n - 1], generate, n, runTimes[n - 1])
  }

  /** One more row of a cycle's result adds its decision, if it is flagged. */
  lemma DecisionsStep<D>(result: seq<AnomalyRecord>, i: int, generate: AnomalyRecord -> D, cycle: nat, runTime: int)
    requires 0 <= i < |result|
    ensures CycleDecisions(result[..i + 1], generate, cycle, runTime) ==
      CycleDecisions(result[..i], generate, cycle, runTime) +
        (if result[i].row.isAnomaly then [Decision(generate(result[i]), cycle, runTime)] else [])
  {
    assert result[..i + 1][..i] == result[..i];
  }

  /**
   * A cycle makes exactly one decision per flagged row, in row order, each
   * built by the decision generator from that row and stamped with the
   * cycle's number and run time.
   */
  lemma {:induction false} DecisionsPerAnomaly<D>(result: seq<AnomalyRecord>, generate: AnomalyRecord -> D, cycle: nat, runTime: int)
    ensures var flagged := Filter(result, IsFlagged);
      var ds := CycleDecisions(result, generate, cycle, runTime);
      |ds| == |flagged| &&
      forall i :: 0 <= i < |ds| ==> ds[i] == Decision(generate(flagged[i]), cycle, runTime)
  {
    if result != [] {
      var n := |result|;
      var init, last := result[..n - 1], result[n - 1];
      assert result == init + [last];
      DecisionsPerAnomaly(init, generate, cycle, runTime);
      FilterConcat(init, [last], IsFlagged);
      assert Filter([last], IsFlagged) == (if IsFlagged(last) then [last] else []) + Filter([last][1..], IsFlagged);
      assert [last][1..] == [];
    }
  }

  /** The readings stamped at or after the cursor never influence the cycle. */
  lemma CycleUsesOnlyPast(u1: seq<Reading>, u2: seq<Reading>, schedule: seq<Rule>, t: int)
    requires Historical(u1, t) == Historical(u2, t)
    ensures CycleResult(u1, schedule, t) == CycleResult(u2, schedule, t)
  {
    WindowWithinHistory(u1, t);
    WindowWithinHistory(u2, t);
  }

  /**
   * A cycle runs only while its cursor is at most the end of the data, and
   * its window stops short of the cursor: a reading stamped exactly at the
   * end of the data is in no window the driver ever judges.
   */
  lemma LastReadingNeverJudged(usage: seq<Reading>, r: Reading, t: int, endTime: int)
    requires r in usage && r.timestamp == endTime
    requires t <= endTime
    ensures r !in CycleWindow(usage, t)
  {
    WindowMembership(usage, t, CYCLE_MINUTES, r);
  }

  /** The window is the last 30 minutes of the history. */
  lemma WindowWithinHistory(usage: seq<Reading>, t: int)
    ensures CycleWindow(usage, t) == Filter(Historical(usage, t), InHalfOpen(t - CYCLE_SECONDS, t))
  {
    FilterFilter(usage, Before(t), InHalfOpen(t - CYCLE_SECONDS, t));
  }

  /**
   * A cycle's result has one record per reading of its window, in order,
   * each carrying the cycle's run time, the reading's silence tag, its
   * pair's baseline, and the anomaly rule's verdict on it.
   */
  lemma CycleResultRows(usage: seq<Reading>, schedule: seq<Rule>, t: int)
    ensures var window := CycleWindow(usage, t);
      var base := CycleBaseline(usage, schedule, t);
      var result := CycleResult(usage, schedule, t);
      |result| == |window| &&
      forall i :: 0 <= i < |window| ==>
        var b := Lookup(base, KeyOf(window[i]));
        result[i].runTime == t &&
        result[i].row.row == Tagged(window[i], IsSilent(window[i], schedule)) &&
        result[i].row.baselineUsage == b &&
        result[i].row.isAnomaly == IsShadowWaste(result[i].row.row, b)
  {
    BaselineKeysUnique(Tag(Historical(usage, t), schedule));
    ShadowWasteRows(Tag(CycleWindow(usage, t), schedule), CycleBaseline(usage, schedule, t));
  }

  /**
   * The history a cycle learns from includes its own window, so in the
   * driver a silent row of the window always has a baseline: its judgement
   * is never deferred.
   */
  lemma SilentRowsHaveBaseline(usage: seq<Reading>, schedule: seq<Rule>, t: int, i: int)
    requires 0 <= i < |CycleResult(usage, schedule, t)|
    requires CycleResult(usage, schedule, t)[i].row.row.isSilence
    ensures CycleResult(usage, schedule, t)[i].row.baselineUsage.Some?
  {
    CycleResultRows(usage, schedule, t);
    var window := CycleWindow(usage, t);
    var history := Historical(usage, t);
    var r := window[i];
    assert r in window;
    WindowWithinHistory(usage, t);
    assert r in history;
    TagMember(history, schedule, r);
    var tagged := Tagged(r, true);
    assert tagged in SilenceRows(Tag(history, schedule));
    assert tagged in Group(SilenceRows(Tag(history, schedule)), KeyOf(r));
    BaselineLookup(Tag(history, schedule), KeyOf(r));
  }

  /**
   * The session invariant: one anomaly entry per counted cycle, each run at
   * an earlier cursor, in increasing order, every record of an entry stamped
   * with its cycle's run time, and the decision history exactly the
   * decisions those cycles make.
   */
  ghost predicate SessionInvariant<D>(usage: seq<Reading>, schedule: seq<Rule>, generate: AnomalyRecord -> D,
                                      currentTime: int, cycleCount: nat, anomalyHistory: seq<seq<AnomalyRecord>>,
                                      decisionHistory: seq<Decision<D>>, runTimes: seq<int>)
  {
    |runTimes| == |anomalyHistory| == cycleCount &&
    (forall k :: 0 <= k < |runTimes| ==> runTimes[k] < currentTime) &&
    (forall j, k :: 0 <= j < k < |runTimes| ==> runTimes[j] < runTimes[k]) &&
    (forall k, i :: 0 <= k < |runTimes| && 0 <= i < |anomalyHistory[k]| ==> anomalyHistory[k][i].runTime == runTimes[k]) &&
    decisionHistory == AllDecisions(anomalyHistory, runTimes, generate)
  }

  /** Recording a cycle run at the cursor, then advancing the cursor, keeps the invariant. */
  lemma RecordCyclePreserves<D>(usage: seq<Reading>, schedule: seq<Rule>, generate: AnomalyRecord -> D,
                                t: int, cycleCount: nat, anomalyHistory: seq<seq<AnomalyRecord>>,
                                decisionHistory: seq<Decision<D>>, runTimes: seq<int>, later: int,
                                result: seq<AnomalyRecord>)
    requires SessionInvariant(usage, schedule, generate, t, cycleCount, anomalyHistory, decisionHistory, runTimes)
    requires later > t
    requires forall i :: 0 <= i < |result| ==> result[i].runTime == t
    ensures SessionInvariant(usage, schedule, generate, later, cycleCount + 1, anomalyHistory + [result],
                             decisionHistory + CycleDecisions(result, generate, cycleCount + 1, t), runTimes + [t])
  {
    var h, rt := anomalyHistory + [result], runTimes + [t];
    assert h[..|h| - 1] == anomalyHistory;
    assert rt[..|rt| - 1] == runTimes;
  }

  /** Advancing the cursor alone keeps the invariant. */
  lemma AdvancePreserves<D>(usage: seq<Reading>, schedule: seq<Rule>, generate: AnomalyRecord -> D,
                            t: int, cycleCount: nat, anomalyHistory: seq<seq<AnomalyRecord>>,
                            decisionHistory: seq<Decision<D>>, runTimes: seq<int>, later: int)
    requires SessionInvariant(usage, schedule, generate, t, cycleCount, anomalyHistory, decisionHistory, runTimes)
    requires later > t
    ensures SessionInvariant(usage, schedule, generate, later, cycleCount, anomalyHistory, decisionHistory, runTimes)
  {
  }

  /**
   * Steps 2 to 4 of a cycle with a non-empty window: tag the window, tag the
   * history before the cursor and learn the baseline from it, detect, and
   * stamp the run time.
   */
  method CyclePipeline(usage: seq<Reading>, schedule: seq<Rule>, window: seq<Reading>, t: int)
    returns (result: seq<AnomalyRecord>)
    requires window == CycleWindow(usage, t)
    ensures result == CycleResult(usage, schedule, t)
    ensures forall i :: 0 <= i < |result| ==> result[i].runTime == t
  {
    var taggedWindow := MarkSilenceWindows(window, schedule);

    var historical := Filter(usage, Before(t));
    var taggedHistory := MarkSilenceWindows(historical, schedule);
    var baseline := ComputeSilenceBaseline(taggedHistory);

    var detected := DetectShadowWaste(taggedWindow, baseline);
    result := StampRunTime(detected, t);
  }

  /** The session state of the dashboard: the data, the cursor, the counter and the two histories. */
  class Session<D> {
    const usage: seq<Reading>
    const schedule: seq<Rule>
    const endTime: int
    /** `generate_decision`, whose body is not part of this model. */
    const generate: AnomalyRecord -> D

    var currentTime: int
    var cycleCount: nat
    var anomalyHistory: seq<seq<AnomalyRecord>>
    var decisionHistory: seq<Decision<D>>
    /** The cursor value of each cycle that appended to the anomaly history. */
    ghost var runTimes: seq<int>

    ghost predicate Valid()
      reads this
    {
      SessionInvariant(usage, schedule, generate, currentTime, cycleCount, anomalyHistory, decisionHistory, runTimes)
    }

    /** A fresh session: nothing run yet, the cursor at its starting point. */
    constructor (usage: seq<Reading>, schedule: seq<Rule>, generate: AnomalyRecord -> D, startTime: int, endTime: int)
      ensures Valid()
      ensures this.usage == usage && this.schedule == schedule && this.generate == generate
      ensures currentTime == startTime && this.endTime == endTime
      ensures cycleCount == 0 && anomalyHistory == [] && decisionHistory == []
    {
      this.usage := usage;
      this.schedule := schedule;
      this.generate := generate;
      this.endTime := endTime;
      currentTime := startTime;
      cycleCount := 0;
      anomalyHistory := [];
      decisionHistory := [];
      runTimes := [];
    }

    /**
     * `run_single_cycle`: past the end of the data it reports false and
     * changes nothing; on an empty window it only advances the cursor;
     * otherwise it appends the cycle's result, counts the cycle, appends one
     * decision per flagged row, and advances the cursor.
     */
    method RunSingleCycle() returns (ran: bool)
      requires Valid()
      modifies this
      ensures Valid()
      ensures ran == (old(currentTime) <= endTime)
      ensures !ran ==>
        currentTime == old(currentTime) && cycleCount == old(cycleCount) &&
        anomalyHistory == old(anomalyHistory) && decisionHistory == old(decisionHistory)
      ensures ran ==> currentTime == old(currentTime) + CYCLE_SECONDS
      ensures ran && CycleWindow(usage, old(currentTime)) == [] ==>
        cycleCount == old(cycleCount) &&
        anomalyHistory == old(anomalyHistory) && decisionHistory == old(decisionHistory)
      ensures ran && CycleWindow(usage, old(currentTime)) != [] ==>
        cycleCount == old(cycleCount) + 1 &&
        anomalyHistory == old(anomalyHistory) + [CycleResult(usage, schedule, old(currentTime))] &&
        decisionHistory == old(decisionHistory) +
          CycleDecisions(CycleResult(usage, schedule, old(currentTime)), generate, cycleCount, old(currentTime))
    {
      var t := currentTime;
      if t > endTime {
        return false;
      }

      var window := GetTimeWindow(usage, t, CYCLE_MINUTES);
      if |window| == 0 {
        AdvancePreserves(usage, schedule, generate, t, cycleCount, anomalyHistory, decisionHistory, runTimes, t + CYCLE_SECONDS);
        currentTime := t + CYCLE_SECONDS;
        return true;
      }

      var result := CyclePipeline(usage, schedule, window, t);
      RecordCyclePreserves(usage, schedule, generate, t, cycleCount, anomalyHistory, decisionHistory, runTimes, t + CYCLE_SECONDS, result);

      anomalyHistory := anomalyHistory + [result];
      runTimes := runTimes + [t];

      cycleCount := cycleCount + 1;
      AppendDecisions(result, t);

      currentTime := t + CYCLE_SECONDS;
      return true;
    }

    /**
     * Step 5 of a cycle: one decision per flagged row of the cycle's result,
     * in row order, stamped with the cycle's number and run time, appended
     * to the decision history.
     */
    method AppendDecisions(result: seq<AnomalyRecord>, t: int)
      modifies this`decisionHistory
      ensures decisionHistory == old(decisionHistory) + CycleDecisions(result, generate, cycleCount, t)
    {
      for i := 0 to |result|
        invariant decisionHistory == old(decisionHistory) + CycleDecisions(result[..i], generate, cycleCount, t)
      {
        DecisionsStep(result, i, generate, cycleCount, t);
        if result[i].row.isAnomaly {
          var decision := Decision(generate(result[i]), cycleCount, t);
          decisionHistory := decisionHistory + [decision];
        }
      }
      assert result[..|result|] == result;
    }

    /**
     * The run-all loop: run cycles while the cursor has not passed one day
     * after where it started, stopping early once a cycle reports the data
     * exhausted. It runs at most 49 cycles (the cursor values start, start +
     * 30 minutes, ..., start + 1 day), exactly 49 when the data lasts that
     * long, and only appends to the histories.
     */
    method RunOneDay() returns (steps: nat)
      requires Valid()
      modifies this
      ensures Valid()
      ensures steps <= 49
      ensures currentTime == old(currentTime) + steps * CYCLE_SECONDS
      ensures currentTime > old(currentTime) + DAY || currentTime > endTime
      ensures old(currentTime) + DAY <= endTime ==> steps == 49
      ensures |old(anomalyHistory)| <= |anomalyHistory| && anomalyHistory[..|old(anomalyHistory)|] == old(anomalyHistory)
      ensures |old(decisionHistory)| <= |decisionHistory| && decisionHistory[..|old(decisionHistory)|] == old(decisionHistory)
    {
      var startTime := currentTime;
      var endOfDay := startTime + DAY;
      steps := 0;
      while currentTime <= endOfDay
        invariant Valid()
        invariant steps <= 49
        invariant currentTime == startTime + steps * CYCLE_SECONDS
        invariant |old(anomalyHistory)| <= |anomalyHistory| && anomalyHistory[..|old(anomalyHistory)|] == old(anomalyHistory)
        invariant |old(decisionHistory)| <= |decisionHistory| && decisionHistory[..|old(decisionHistory)|] == old(decisionHistory)
        decreases endOfDay - currentTime
      {
        ghost var anomaliesBefore, decisionsBefore := anomalyHistory, decisionHistory;
        var ok := RunSingleCycle();
        if !ok {
          break;
        }
        steps := steps + 1;
        assert anomalyHistory[..|anomaliesBefore|] == anomaliesBefore;
        assert decisionHistory[..|decisionsBefore|] == decisionsBefore;
      }
    }
  }
}
