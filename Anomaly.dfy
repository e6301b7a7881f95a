/** `detect_shadow_waste`: flag silence-period usage far above its baseline. */
module Anomaly {
  import opened Seqs
  import opened Readings
  import opened Wrappers
  import opened Baseline

  /** The per-resource multipliers, and the one used for any other resource. */
  const THRESHOLDS: map<string, real> := map["water" := 1.5, "electricity" := 1.3]
  const DEFAULT_THRESHOLD: real := 1.5

  /** `THRESHOLDS.get(resource, 1.5)`. */
  function Threshold(resource: string): (t: real)
    ensures resource == "water" ==> t == 1.5
    ensures resource == "electricity" ==> t == 1.3
    ensures resource != "water" && resource != "electricity" ==> t == 1.5
  {
    if resource in THRESHOLDS then THRESHOLDS[resource] else DEFAULT_THRESHOLD
  }

  /** A row of the merged table: the tagged reading, `is_anomaly`, and the joined `baseline_usage` (NaN as None). */
  datatype AnomalyRow = AnomalyRow(row: Tagged, isAnomaly: bool, baselineUsage: Option<real>)

  /** The mask selecting the baseline rows of one pair. */
  function RowHasKey(k: Key): BaselineRow -> bool
  {
    (b: BaselineRow) => RowKey(b) == k
  }

  /** The merged rows one reading produces: one per matching baseline row, or one with no baseline. */
  function JoinOne(t: Tagged, matches: seq<BaselineRow>): (m: seq<AnomalyRow>)
    ensures |m| == if matches == [] then 1 else |matches|
    ensures forall i :: 0 <= i < |m| ==>
      m[i].row == t && !m[i].isAnomaly &&
      m[i].baselineUsage == (if matches == [] then None else Some(matches[i].baselineUsage))
  {
    if matches == [] then [AnomalyRow(t, false, None)]
    else seq(|matches|, i requires 0 <= i < |matches| => AnomalyRow(t, false, Some(matches[i].baselineUsage)))
  }

  /**
   * `df.merge(baseline_df, on=["building", "resource"], how="left")` after
   * the `is_anomaly` column was set to false: every reading is kept, in order,
   * once per baseline row of its pair, or once with a missing baseline.
   */
  function LeftJoin(rows: seq<Tagged>, baseline: seq<BaselineRow>): (m: seq<AnomalyRow>)
    ensures |m| >= |rows|
    ensures forall i :: 0 <= i < |m| ==> !m[i].isAnomaly
  {
    if rows == [] then []
    else JoinOne(rows[0], Filter(baseline, RowHasKey(TaggedKey(rows[0])))) + LeftJoin(rows[1..], baseline)
  }

  /** A merged row's baseline: missing only when its pair has no baseline row, else the value of a row of its pair. */
  predicate JoinedFrom(r: AnomalyRow, baseline: seq<BaselineRow>)
  {
    (r.baselineUsage.None? ==> forall j :: 0 <= j < |baseline| ==> RowKey(baseline[j]) != TaggedKey(r.row)) &&
    (r.baselineUsage.Some? ==> exists b :: b in baseline && RowKey(b) == TaggedKey(r.row) && b.baselineUsage == r.baselineUsage.value)
  }

  /**
   * Whatever the baseline's keys, every merged row carries a reading of the
   * input, unchanged and not yet flagged, with its baseline taken from its
   * own pair's rows, or missing only when its pair has none.
   */
  lemma {:induction false} LeftJoinSound(rows: seq<Tagged>, baseline: seq<BaselineRow>, i: int)
    requires 0 <= i < |LeftJoin(rows, baseline)|
    ensures LeftJoin(rows, baseline)[i].row in rows
    ensures !LeftJoin(rows, baseline)[i].isAnomaly
    ensures JoinedFrom(LeftJoin(rows, baseline)[i], baseline)
  {
    var m := LeftJoin(rows, baseline);
    var tail := LeftJoin(rows[1..], baseline);
    var k := TaggedKey(rows[0]);
    var matches := Filter(baseline, RowHasKey(k));
    var head := JoinOne(rows[0], matches);
    assert m == head + tail;
    if i < |head| {
      assert m[i] == head[i];
      if matches == [] {
        forall j | 0 <= j < |baseline| ensures RowKey(baseline[j]) != k {
          assert baseline[j] in matches <==> RowHasKey(k)(baseline[j]);
        }
      } else {
        assert matches[i] in matches;
      }
    } else {
      LeftJoinSound(rows[1..], baseline, i - |head|);
      assert m[i] == tail[i - |head|];
      assert m[i].row in rows[1..];
    }
  }

  /** Whatever the baseline's keys, every reading yields at least one merged row. */
  lemma {:induction false} LeftJoinComplete(rows: seq<Tagged>, baseline: seq<BaselineRow>, t: Tagged)
    requires t in rows
    ensures exists i :: 0 <= i < |LeftJoin(rows, baseline)| && LeftJoin(rows, baseline)[i].row == t
  {
    var m := LeftJoin(rows, baseline);
    var tail := LeftJoin(rows[1..], baseline);
    var head := JoinOne(rows[0], Filter(baseline, RowHasKey(TaggedKey(rows[0]))));
    assert m == head + tail;
    if t == rows[0] {
      assert m[0] == head[0];
    } else {
      assert t in rows[1..];
      LeftJoinComplete(rows[1..], baseline, t);
      var i :| 0 <= i < |tail| && tail[i].row == t;
      assert m[|head| + i] == tail[i];
    }
  }

  /** The left join of two tables of readings, one after the other, is the two joins one after the other. */
  lemma {:induction false} LeftJoinConcat(a: seq<Tagged>, b: seq<Tagged>, baseline: seq<BaselineRow>)
    ensures LeftJoin(a + b, baseline) == LeftJoin(a, baseline) + LeftJoin(b, baseline)
  {
    if a != [] {
      assert (a + b)[0] == a[0];
      assert (a + b)[1..] == a[1..] + b;
      LeftJoinConcat(a[1..], b, baseline);
    } else {
      assert a + b == b;
    }
  }

  /** The flagging rule of the loop: silent, a known baseline, and usage strictly above baseline times threshold. */
  predicate IsShadowWaste(t: Tagged, baseline: Option<real>)
  {
    t.isSilence && baseline.Some? && t.reading.usage > baseline.value * Threshold(t.reading.resource)
  }

  /** A merged row with `is_anomaly` decided. */
  function Flagged(r: AnomalyRow): AnomalyRow
  {
    r.(isAnomaly := IsShadowWaste(r.row, r.baselineUsage))
  }

  /** The table `detect_shadow_waste` returns, as a function of its inputs. */
  function ShadowWaste(usage: seq<Tagged>, baseline: seq<BaselineRow>): seq<AnomalyRow>
  {
    var m := LeftJoin(usage, baseline);
    seq(|m|, i requires 0 <= i < |m| => Flagged(m[i]))
  }

  /**
   * The body of the loop over the merged rows: a row that is active, or has
   * no baseline yet, is left as it is; otherwise `is_anomaly` becomes true
   * when usage is strictly above baseline times the resource's threshold.
   */
  method DecideRow(row: AnomalyRow) returns (decided: AnomalyRow)
    requires !row.isAnomaly
    ensures decided.row == row.row && decided.baselineUsage == row.baselineUsage
    ensures decided.isAnomaly <==>
      row.row.isSilence && row.baselineUsage.Some? &&
      row.row.reading.usage > row.baselineUsage.value * Threshold(row.row.reading.resource)
  {
    decided := row;
    if !row.row.isSilence {
      return;
    }
    var b := row.baselineUsage;
    if b.None? {
      return;  // no baseline learned yet
    }
    var threshold := Threshold(row.row.reading.resource);
    if row.row.reading.usage > b.value * threshold {
      decided := row.(isAnomaly := true);
    }
  }

  /**
   * `detect_shadow_waste`: join the baseline onto the readings, then walk
   * the merged rows and set `is_anomaly` on each silent row whose usage
   * exceeds its known baseline times its resource's threshold.
   */
  method DetectShadowWaste(usage: seq<Tagged>, baseline: seq<BaselineRow>) returns (result: seq<AnomalyRow>)
    ensures result == ShadowWaste(usage, baseline)
    ensures |result| >= |usage|
    ensures forall i :: 0 <= i < |result| ==> result[i].isAnomaly == IsShadowWaste(result[i].row, result[i].baselineUsage)
  {
    var merged := LeftJoin(usage, baseline);
    var table := new AnomalyRow[|merged|](i requires 0 <= i < |merged| => merged[i]);
    for idx := 0 to |merged|
      invariant forall k :: 0 <= k < idx ==> table[k] == Flagged(merged[k])
      invariant forall k :: idx <= k < |merged| ==> table[k] == merged[k]
    {
      table[idx] := DecideRow(table[idx]);
    }
    result := table[..];
    assert forall k :: 0 <= k < |result| ==> result[k] == Flagged(merged[k]);
  }

  /**
   * Given a baseline with unique keys, the detector's table has one row per
   * reading, in input order, with the reading unchanged and its pair's
   * baseline attached when there is one.
   */
  lemma ShadowWasteRows(usage: seq<Tagged>, baseline: seq<BaselineRow>)
    requires UniqueKeys(baseline)
    ensures var r := ShadowWaste(usage, baseline);
      |r| == |usage| &&
      forall i :: 0 <= i < |usage| ==>
        r[i].row == usage[i] && r[i].baselineUsage == Lookup(baseline, TaggedKey(usage[i])) &&
        r[i].isAnomaly == IsShadowWaste(usage[i], Lookup(baseline, TaggedKey(usage[i])))
  {
    LeftJoinUnique(usage, baseline);
  }

  /** With unique keys, the rows of one pair filtered from a baseline are its lookup, or nothing. */
  lemma {:induction false} MatchesOfUniqueKey(b: seq<BaselineRow>, k: Key)
    requires UniqueKeys(b)
    ensures Filter(b, RowHasKey(k)) ==
      if Lookup(b, k).None? then [] else [BaselineRow(k.building, k.resource, Lookup(b, k).value)]
  {
    if b != [] {
      assert UniqueKeys(b[1..]);
      MatchesOfUniqueKey(b[1..], k);
      if RowKey(b[0]) == k {
        assert forall i :: 0 <= i < |b[1..]| ==> !RowHasKey(k)(b[1..][i]);
        FilterNone(b[1..], RowHasKey(k));
      }
    }
  }

  /**
   * With unique baseline keys the left join keeps one row per reading, in
   * order, carrying the reading unchanged and its pair's baseline if any.
   */
  lemma {:induction false} LeftJoinUnique(rows: seq<Tagged>, baseline: seq<BaselineRow>)
    requires UniqueKeys(baseline)
    ensures var m := LeftJoin(rows, baseline);
      |m| == |rows| &&
      forall i :: 0 <= i < |rows| ==> m[i] == AnomalyRow(rows[i], false, Lookup(baseline, TaggedKey(rows[i])))
  {
    if rows != [] {
      LeftJoinUnique(rows[1..], baseline);
      MatchesOfUniqueKey(baseline, TaggedKey(rows[0]));
      var m := LeftJoin(rows, baseline);
      var tail := LeftJoin(rows[1..], baseline);
      var k := TaggedKey(rows[0]);
      var matches := Filter(baseline, RowHasKey(k));
      var head := JoinOne(rows[0], matches);
      assert m == head + tail;
      if Lookup(baseline, k).None? {
        assert matches == [];
      } else {
        assert matches == [BaselineRow(k.building, k.resource, Lookup(baseline, k).value)];
        assert head[0] == AnomalyRow(rows[0], false, Some(matches[0].baselineUsage));
      }
      assert |head| == 1 && head[0] == AnomalyRow(rows[0], false, Lookup(baseline, k));
      forall i | 0 <= i < |rows|
        ensures m[i] == AnomalyRow(rows[i], false, Lookup(baseline, TaggedKey(rows[i])))
      {
        if i > 0 {
          assert m[i] == tail[i - 1];
          assert rows[1..][i - 1] == rows[i];
        }
      }
    }
  }

  /** An active-period row is never flagged, whatever its usage. */
  lemma ActiveNeverFlagged(usage: seq<Tagged>, baseline: seq<BaselineRow>, i: int)
    requires 0 <= i < |ShadowWaste(usage, baseline)|
    requires !ShadowWaste(usage, baseline)[i].row.isSilence
    ensures !ShadowWaste(usage, baseline)[i].isAnomaly
  {
  }

  /** A row whose pair has no baseline is deferred, not flagged. */
  lemma MissingBaselineNeverFlagged(usage: seq<Tagged>, baseline: seq<BaselineRow>, i: int)
    requires 0 <= i < |usage|
    requires UniqueKeys(baseline)
    requires Lookup(baseline, TaggedKey(usage[i])).None?
    ensures !ShadowWaste(usage, baseline)[i].isAnomaly
  {
    ShadowWasteRows(usage, baseline);
  }

  /** The comparison is strict: usage exactly at baseline times threshold is not an anomaly. */
  lemma AtThresholdNotFlagged(t: Tagged, b: real)
    requires t.reading.usage == b * Threshold(t.reading.resource)
    ensures !IsShadowWaste(t, Some(b))
  {
  }

  /** Raising a reading's usage never turns an anomaly off. */
  lemma MoreUsageStaysFlagged(t: Tagged, b: Option<real>, more: real)
    requires IsShadowWaste(t, b)
    requires more >= t.reading.usage
    ensures IsShadowWaste(t.(reading := t.reading.(usage := more)), b)
  {
  }
}
