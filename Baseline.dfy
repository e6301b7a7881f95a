/** `compute_silence_baseline`: mean silence-period usage per (building, resource). */
module Baseline {
  import opened Seqs
  import opened Readings
  import opened Wrappers

  /** One row of the baseline table: `building, resource, baseline_usage`. */
  datatype BaselineRow = BaselineRow(building: string, resource: string, baselineUsage: real)

  function RowKey(b: BaselineRow): Key
  {
    Key(b.building, b.resource)
  }

  function TaggedKey(t: Tagged): Key
  {
    KeyOf(t.reading)
  }

  /** The mask `is_silence == True`. */
  predicate IsSilenceRow(t: Tagged)
  {
    t.isSilence
  }

  function SilenceRows(rows: seq<Tagged>): seq<Tagged>
  {
    Filter(rows, IsSilenceRow)
  }

  /** The mask selecting one (building, resource) group. */
  function HasKey(k: Key): Tagged -> bool
  {
    (t: Tagged) => TaggedKey(t) == k
  }

  /** The rows of one group, in input order. */
  function Group(rows: seq<Tagged>, k: Key): seq<Tagged>
  {
    Filter(rows, HasKey(k))
  }

  /** The sum of the `usage` column. */
  function TotalUsage(rows: seq<Tagged>): real
  {
    if rows == [] then 0.0 else rows[0].reading.usage + TotalUsage(rows[1..])
  }

  /** The arithmetic mean of the `usage` column of a non-empty table. */
  function Mean(rows: seq<Tagged>): real
    requires rows != []
  {
    TotalUsage(rows) / (|rows| as real)
  }

  /** The keys that occur in a table, each once, in order of first occurrence. */
  function DistinctKeys(rows: seq<Tagged>): (ks: seq<Key>)
    ensures forall i, j :: 0 <= i < j < |ks| ==> ks[i] != ks[j]
    ensures forall k :: k in ks <==> exists t :: t in rows && TaggedKey(t) == k
  {
    if rows == [] then []
    else
      var init := rows[..|rows| - 1];
      var last := rows[|rows| - 1];
      assert rows == init + [last];
      var ks := DistinctKeys(init);
      if TaggedKey(last) in ks then ks else ks + [TaggedKey(last)]
  }

  /** No (building, resource) pair has two rows. */
  predicate UniqueKeys(b: seq<BaselineRow>)
  {
    forall i, j :: 0 <= i < j < |b| ==> RowKey(b[i]) != RowKey(b[j])
  }

  /**
   * The baseline table: for each (building, resource) pair with at least one
   * silence row, in order of first occurrence, the mean usage of its silence
   * rows.
   */
  function ComputeSilenceBaseline(usage: seq<Tagged>): (b: seq<BaselineRow>)
    ensures |b| == |DistinctKeys(SilenceRows(usage))|
    ensures forall i :: 0 <= i < |b| ==> RowKey(b[i]) == DistinctKeys(SilenceRows(usage))[i]
  {
    var silent := SilenceRows(usage);
    var ks := DistinctKeys(silent);
    seq(|ks|, i requires 0 <= i < |ks| =>
      KeyHasGroup(silent, ks[i]);
      BaselineRow(ks[i].building, ks[i].resource, Mean(Group(silent, ks[i]))))
  }

  /** A key occurs in a table exactly when its group there is non-empty. */
  lemma KeyHasGroup(rows: seq<Tagged>, k: Key)
    ensures k in DistinctKeys(rows) <==> Group(rows, k) != []
  {
    if k in DistinctKeys(rows) {
      var t :| t in rows && TaggedKey(t) == k;
      assert t in Group(rows, k);
    }
    if Group(rows, k) != [] {
      assert Group(rows, k)[0] in Group(rows, k);
    }
  }

  /** `baseline[(building, resource)]`, the first row for the pair if there is one. */
  function Lookup(b: seq<BaselineRow>, k: Key): (v: Option<real>)
    ensures v.None? <==> forall i :: 0 <= i < |b| ==> RowKey(b[i]) != k
  {
    if b == [] then None
    else if RowKey(b[0]) == k then Some(b[0].baselineUsage)
    else Lookup(b[1..], k)
  }

  /** In a table with unique keys, a lookup finds the pair's own row. */
  lemma {:induction false} LookupUnique(b: seq<BaselineRow>, i: int)
    requires UniqueKeys(b)
    requires 0 <= i < |b|
    ensures Lookup(b, RowKey(b[i])) == Some(b[i].baselineUsage)
  {
    if i > 0 {
      assert RowKey(b[0]) != RowKey(b[i]);
      LookupUnique(b[1..], i - 1);
    }
  }

  /** Every pair appears at most once in the baseline table. */
  lemma BaselineKeysUnique(usage: seq<Tagged>)
    ensures UniqueKeys(ComputeSilenceBaseline(usage))
  {
  }

  /**
   * The baseline of a pair is the mean usage of its silence rows; a pair
   * without silence rows has no baseline at all (not a baseline of 0).
   */
  lemma BaselineLookup(usage: seq<Tagged>, k: Key)
    ensures var g := Group(SilenceRows(usage), k);
      Lookup(ComputeSilenceBaseline(usage), k) == if g == [] then None else Some(Mean(g))
  {
    var b := ComputeSilenceBaseline(usage);
    var ks := DistinctKeys(SilenceRows(usage));
    KeyHasGroup(SilenceRows(usage), k);
    if k in ks {
      var i :| 0 <= i < |ks| && ks[i] == k;
      LookupUnique(b, i);
    }
  }

  /** An input without silence rows yields an empty baseline. */
  lemma NoSilenceNoBaseline(usage: seq<Tagged>)
    requires forall i :: 0 <= i < |usage| ==> !usage[i].isSilence
    ensures ComputeSilenceBaseline(usage) == []
  {
    FilterNone(usage, IsSilenceRow);
  }

  /** Active-period rows never contribute: the baseline depends on the silence rows alone. */
  lemma OnlySilenceRowsCount(u1: seq<Tagged>, u2: seq<Tagged>)
    requires SilenceRows(u1) == SilenceRows(u2)
    ensures ComputeSilenceBaseline(u1) == ComputeSilenceBaseline(u2)
  {
  }

  lemma {:induction false} TotalAtLeast(rows: seq<Tagged>, lo: real)
    requires forall i :: 0 <= i < |rows| ==> lo <= rows[i].reading.usage
    ensures (|rows| as real) * lo <= TotalUsage(rows)
  {
    if rows != [] {
      TotalAtLeast(rows[1..], lo);
    }
  }

  lemma {:induction false} TotalAtMost(rows: seq<Tagged>, hi: real)
    requires forall i :: 0 <= i < |rows| ==> rows[i].reading.usage <= hi
    ensures TotalUsage(rows) <= (|rows| as real) * hi
  {
    if rows != [] {
      TotalAtMost(rows[1..], hi);
    }
  }

  /**
   * A mean lies between the smallest and the largest usage it averages; in
   * particular it is non-negative when the usages are.
   */
  lemma MeanBetween(rows: seq<Tagged>, lo: real, hi: real)
    requires rows != []
    requires forall i :: 0 <= i < |rows| ==> lo <= rows[i].reading.usage <= hi
    ensures lo <= Mean(rows) <= hi
  {
    TotalAtLeast(rows, lo);
    TotalAtMost(rows, hi);
    DivBetween(TotalUsage(rows), |rows| as real, lo, hi);
  }

  /** Dividing a total bounded by `n * lo` and `n * hi` by `n` gives a value between `lo` and `hi`. */
  lemma DivBetween(total: real, n: real, lo: real, hi: real)
    requires n > 0.0
    requires n * lo <= total <= n * hi
    ensures lo <= total / n <= hi
  {
  }

  /** Every baseline lies within the usages of its pair's silence rows. */
  lemma BaselineWithinGroup(usage: seq<Tagged>, k: Key, lo: real, hi: real)
    requires forall t :: t in usage && t.isSilence && TaggedKey(t) == k ==> lo <= t.reading.usage <= hi
    requires Lookup(ComputeSilenceBaseline(usage), k).Some?
    ensures lo <= Lookup(ComputeSilenceBaseline(usage), k).value <= hi
  {
    var g := Group(SilenceRows(usage), k);
    BaselineLookup(usage, k);
    forall i | 0 <= i < |g| ensures lo <= g[i].reading.usage <= hi {
      assert g[i] in g;
    }
    MeanBetween(g, lo, hi);
  }
}
