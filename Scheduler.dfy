/** `get_time_window`: the readings of one scheduling window. */
module Scheduler {
  import opened Seqs
  import opened Readings

  /** The mask `lo <= timestamp < hi`. */
  function InHalfOpen(lo: int, hi: int): Reading -> bool
  {
    (r: Reading) => lo <= r.timestamp < hi
  }

  /**
   * The readings stamped in `[currentTime - windowMinutes, currentTime)`, in
   * input order. A window with no readings is an ordinary, empty result.
   */
  function GetTimeWindow(df: seq<Reading>, currentTime: int, windowMinutes: int): seq<Reading>
  {
    Filter(df, InHalfOpen(currentTime - windowMinutes * MINUTE, currentTime))
  }

  /**
   * The window is sound and complete with multiplicities: a reading inside
   * it occurs as often as in the input, one outside it not at all.
   */
  lemma WindowCount(df: seq<Reading>, currentTime: int, windowMinutes: int, r: Reading)
    ensures multiset(GetTimeWindow(df, currentTime, windowMinutes))[r] ==
      if currentTime - windowMinutes * MINUTE <= r.timestamp < currentTime then multiset(df)[r] else 0
  {
    FilterCount(df, InHalfOpen(currentTime - windowMinutes * MINUTE, currentTime), r);
  }

  /** Soundness and completeness of the window, by membership. */
  lemma WindowMembership(df: seq<Reading>, currentTime: int, windowMinutes: int, r: Reading)
    ensures r in GetTimeWindow(df, currentTime, windowMinutes) <==>
      r in df && currentTime - windowMinutes * MINUTE <= r.timestamp < currentTime
  {
  }

  /** The window is an order-preserving subsequence of the input. */
  lemma WindowKeepsOrder(df: seq<Reading>, currentTime: int, windowMinutes: int)
    ensures IsSubsequence(GetTimeWindow(df, currentTime, windowMinutes), df)
  {
    FilterIsSubsequence(df, InHalfOpen(currentTime - windowMinutes * MINUTE, currentTime));
  }

  /** The lower bound is inclusive and the upper bound exclusive. */
  lemma WindowBounds(df: seq<Reading>, currentTime: int, windowMinutes: int, r: Reading)
    requires r in df
    requires windowMinutes > 0
    ensures r.timestamp == currentTime ==> r !in GetTimeWindow(df, currentTime, windowMinutes)
    ensures r.timestamp == currentTime - windowMinutes * MINUTE ==> r in GetTimeWindow(df, currentTime, windowMinutes)
  {
    WindowMembership(df, currentTime, windowMinutes, r);
  }

  /** The window is empty exactly when no reading falls inside it. */
  lemma WindowEmpty(df: seq<Reading>, currentTime: int, windowMinutes: int)
    ensures GetTimeWindow(df, currentTime, windowMinutes) == [] <==>
      forall i :: 0 <= i < |df| ==> !(currentTime - windowMinutes * MINUTE <= df[i].timestamp < currentTime)
  {
    var w := GetTimeWindow(df, currentTime, windowMinutes);
    if w != [] {
      WindowMembership(df, currentTime, windowMinutes, w[0]);
    } else {
      forall i | 0 <= i < |df|
        ensures !(currentTime - windowMinutes * MINUTE <= df[i].timestamp < currentTime)
      {
        WindowMembership(df, currentTime, windowMinutes, df[i]);
      }
    }
  }

  /**
   * The windows at cursors `t` and `t + w` together hold exactly the readings
   * of `[t - w, t + w)`: consecutive cycles neither skip nor repeat a reading.
   */
  lemma AdjacentWindowsCover(df: seq<Reading>, t: int, windowMinutes: int)
    requires windowMinutes >= 0
    ensures multiset(GetTimeWindow(df, t, windowMinutes)) + multiset(GetTimeWindow(df, t + windowMinutes * MINUTE, windowMinutes))
         == multiset(GetTimeWindow(df, t + windowMinutes * MINUTE, 2 * windowMinutes))
  {
    var d := windowMinutes * 60;
    assert MINUTE == 60;
    assert GetTimeWindow(df, t, windowMinutes) == Filter(df, InHalfOpen(t - d, t));
    assert GetTimeWindow(df, t + d, windowMinutes) == Filter(df, InHalfOpen(t, t + d));
    assert GetTimeWindow(df, t + d, 2 * windowMinutes) == Filter(df, InHalfOpen(t - d, t + d));
    SplitRange(df, t - d, t, t + d);
  }

  lemma SplitRange(df: seq<Reading>, lo: int, mid: int, hi: int)
    requires lo <= mid <= hi
    ensures multiset(Filter(df, InHalfOpen(lo, hi))) ==
      multiset(Filter(df, InHalfOpen(lo, mid))) + multiset(Filter(df, InHalfOpen(mid, hi)))
  {
    FilterSplit(df, InHalfOpen(lo, hi), InHalfOpen(lo, mid), InHalfOpen(mid, hi));
  }

  /** The windows at cursors `t` and `t + w` share no reading. */
  lemma AdjacentWindowsDisjoint(df: seq<Reading>, t: int, windowMinutes: int, r: Reading)
    requires r in GetTimeWindow(df, t, windowMinutes)
    ensures r !in GetTimeWindow(df, t + windowMinutes * MINUTE, windowMinutes)
  {
    WindowMembership(df, t, windowMinutes, r);
    WindowMembership(df, t + windowMinutes * MINUTE, windowMinutes, r);
  }
}
