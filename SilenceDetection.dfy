/**
 * Tagging readings that fall inside a building's declared inactivity
 * ("silence") windows.
 */
module SilenceDetection {
  import opened Seqs
  import opened Readings

  /**
   * `is_time_in_window`: a window with `start <= end` is the closed range
   * between them; one with `start > end` runs past midnight.
   */
  predicate IsTimeInWindow(checkTime: TimeOfDay, start: TimeOfDay, end: TimeOfDay)
  {
    if start <= end then start <= checkTime <= end
    else checkTime >= start || checkTime <= end
  }

  /** The mask `expected_activity == "NO"`. */
  predicate IsNoRule(rule: Rule)
  {
    rule.expectedActivity == "NO"
  }

  /** A rule declares silence at a time of day. */
  predicate Covers(rule: Rule, t: TimeOfDay)
  {
    IsNoRule(rule) && IsTimeInWindow(t, rule.startTime, rule.endTime)
  }

  /** A rule silences a reading: same building, a NO rule, and the reading's time of day inside it. */
  predicate Silences(rule: Rule, r: Reading)
  {
    rule.building == r.building && Covers(rule, TimeOfDayOf(r.timestamp))
  }

  /** The `is_silence` a reading gets: some rule of the schedule silences it. */
  predicate IsSilent(r: Reading, schedule: seq<Rule>)
  {
    exists rule :: rule in schedule && Silences(rule, r)
  }

  /** The mask `schedule_df["building"] == building`. */
  function ForBuilding(building: string): Rule -> bool
  {
    (rule: Rule) => rule.building == building
  }

  /** The table `mark_silence_windows` returns, as a function of its inputs. */
  function Tag(usage: seq<Reading>, schedule: seq<Rule>): seq<Tagged>
  {
    seq(|usage|, i requires 0 <= i < |usage| => Tagged(usage[i], IsSilent(usage[i], schedule)))
  }

  /**
   * `mark_silence_windows`: a fresh `is_silence` column, all false, set to
   * true for each reading that some NO rule of its building covers. The
   * readings come back in order and unchanged.
   */
  method MarkSilenceWindows(usage: seq<Reading>, schedule: seq<Rule>) returns (tagged: seq<Tagged>)
    ensures |tagged| == |usage|
    ensures forall i :: 0 <= i < |usage| ==> tagged[i].reading == usage[i]
    ensures forall i :: 0 <= i < |usage| ==>
      (tagged[i].isSilence <==>
         exists rule :: rule in schedule && rule.building == usage[i].building && rule.expectedActivity == "NO" &&
                        IsTimeInWindow(TimeOfDayOf(usage[i].timestamp), rule.startTime, rule.endTime))
    ensures tagged == Tag(usage, schedule)
  {
    var silence := new bool[|usage|](_ => false);
    for i := 0 to |usage|
      invariant forall k :: 0 <= k < i ==> silence[k] == IsSilent(usage[k], schedule)
      invariant forall k :: i <= k < |usage| ==> !silence[k]
    {
      var building := usage[i].building;
      var recordTime := TimeOfDayOf(usage[i].timestamp);
      var buildingSchedule := Filter(schedule, ForBuilding(building));
      for j := 0 to |buildingSchedule|
        invariant forall k :: 0 <= k < i ==> silence[k] == IsSilent(usage[k], schedule)
        invariant forall k :: i < k < |usage| ==> !silence[k]
        invariant silence[i] <==> exists k :: 0 <= k < j && Covers(buildingSchedule[k], recordTime)
      {
        var sched := buildingSchedule[j];
        if sched.expectedActivity == "NO" {
          if IsTimeInWindow(recordTime, sched.startTime, sched.endTime) {
            silence[i] := true;
          }
        }
      }
      BuildingRulesDecide(usage[i], schedule, buildingSchedule);
      assert silence[i] == IsSilent(usage[i], schedule);
    }
    tagged := seq(|usage|, k requires 0 <= k < |usage| reads silence => Tagged(usage[k], silence[k]));
  }

  /** Only the reading's own building's rules are consulted. */
  lemma BuildingRulesDecide(r: Reading, schedule: seq<Rule>, bs: seq<Rule>)
    requires bs == Filter(schedule, ForBuilding(r.building))
    ensures IsSilent(r, schedule) <==> exists k :: 0 <= k < |bs| && Covers(bs[k], TimeOfDayOf(r.timestamp))
  {
    var t := TimeOfDayOf(r.timestamp);
    if IsSilent(r, schedule) {
      var rule :| rule in schedule && Silences(rule, r);
      assert rule in bs;
      var k :| 0 <= k < |bs| && bs[k] == rule;
      assert 0 <= k < |bs| && Covers(bs[k], t);
    }
    if exists k :: 0 <= k < |bs| && Covers(bs[k], t) {
      var k :| 0 <= k < |bs| && Covers(bs[k], t);
      assert bs[k] in bs;
      assert bs[k] in schedule && Silences(bs[k], r);
    }
  }

  /**
   * The three shapes of window: a normal one is inclusive at both ends, an
   * overnight one holds the times from its start to midnight and from
   * midnight to its end, and one whose start equals its end holds that
   * single time of day.
   */
  lemma WindowShapes(t: TimeOfDay, start: TimeOfDay, end: TimeOfDay)
    ensures start <= end ==> (IsTimeInWindow(t, start, end) <==> start <= t && t <= end)
    ensures start > end ==> (IsTimeInWindow(t, start, end) <==> t >= start || t <= end)
    ensures start > end ==> (IsTimeInWindow(t, start, end) <==> !(end < t < start))
    ensures start == end ==> (IsTimeInWindow(t, start, end) <==> t == start)
  {
  }

  /**
   * Every window, normal or overnight, is the arc of the clock that starts
   * at `start` and runs forward to `end`: a time is inside exactly when it
   * is no farther past `start`, going round the clock, than `end` is.
   */
  lemma WindowIsArc(t: TimeOfDay, start: TimeOfDay, end: TimeOfDay)
    ensures IsTimeInWindow(t, start, end) <==> (t - start) % DAY <= (end - start) % DAY
  {
    ClockDistance(t, start);
    ClockDistance(end, start);
  }

  /** How far `b` lies past `a` going forward round the clock. */
  lemma ClockDistance(b: TimeOfDay, a: TimeOfDay)
    ensures (b - a) % DAY == if a <= b then b - a else b - a + DAY
  {
    var d := b - a;
    if a <= b {
      assert 0 <= d < DAY;
    } else {
      assert 0 <= d + DAY < DAY;
      assert (d + DAY) % DAY == d % DAY;
    }
  }

  /** Rules that declare anything other than NO never affect a tag. */
  lemma OnlyNoRulesMatter(usage: seq<Reading>, schedule: seq<Rule>)
    ensures Tag(usage, schedule) == Tag(usage, Filter(schedule, IsNoRule))
  {
    forall i | 0 <= i < |usage|
      ensures IsSilent(usage[i], schedule) == IsSilent(usage[i], Filter(schedule, IsNoRule))
    {
      if IsSilent(usage[i], schedule) {
        var rule :| rule in schedule && Silences(rule, usage[i]);
        assert rule in Filter(schedule, IsNoRule);
      }
    }
  }

  /** Rules for other buildings never affect a tag. */
  lemma OtherBuildingsIgnored(r: Reading, schedule: seq<Rule>)
    ensures IsSilent(r, schedule) == IsSilent(r, Filter(schedule, ForBuilding(r.building)))
  {
    if IsSilent(r, schedule) {
      var rule :| rule in schedule && Silences(rule, r);
      assert rule in Filter(schedule, ForBuilding(r.building));
    }
  }

  /** A building without any NO rule is active at every reading. */
  lemma UnscheduledBuildingIsActive(usage: seq<Reading>, schedule: seq<Rule>, building: string, i: int)
    requires forall rule :: rule in schedule && rule.building == building ==> rule.expectedActivity != "NO"
    requires 0 <= i < |usage| && usage[i].building == building
    ensures !Tag(usage, schedule)[i].isSilence
  {
  }

  /** The tags depend on which rules there are, not on their order or repetition. */
  lemma TagIgnoresRuleOrder(usage: seq<Reading>, s1: seq<Rule>, s2: seq<Rule>)
    requires forall rule :: rule in s1 <==> rule in s2
    ensures Tag(usage, s1) == Tag(usage, s2)
  {
  }

  /**
   * Tagging the tagged table again (its `is_silence` column is reset first)
   * gives back the same table.
   */
  lemma TagIdempotent(usage: seq<Reading>, schedule: seq<Rule>)
    ensures Tag(Untag(Tag(usage, schedule)), schedule) == Tag(usage, schedule)
  {
  }

  /** Each reading is tagged on its own: a reading of the input appears tagged in the output. */
  lemma TagMember(usage: seq<Reading>, schedule: seq<Rule>, r: Reading)
    requires r in usage
    ensures Tagged(r, IsSilent(r, schedule)) in Tag(usage, schedule)
  {
    var i :| 0 <= i < |usage| && usage[i] == r;
    assert Tag(usage, schedule)[i] == Tagged(r, IsSilent(r, schedule));
  }
}
