/** The tap-tempo estimate: the median of the plausible intervals between the most
    recent taps, turned into beats per minute and clamped to the supported range. */
module TapTempo {

  /** At most this many taps are remembered. */
  const MaxTaps: nat := 6
  /** Intervals at or below this (double triggers) are ignored. */
  const MinInterval: real := 0.12
  /** Intervals at or above this (stale taps) are ignored. */
  const MaxInterval: real := 2.0
  const MinBpm: real := 20.0
  const MaxBpm: real := 300.0

  datatype Option<T> = None | Some(value: T)

  /** The most recent `n` entries of `history`, oldest first. */
  function Recent(history: seq<real>, n: nat): (r: seq<real>)
    ensures |r| == if |history| < n then |history| else n
    ensures history == history[..|history| - |r|] + r
  {
    if |history| <= n then history else history[|history| - n..]
  }

  /** The time between each tap and the next one. */
  function Intervals(taps: seq<real>): (r: seq<real>)
    ensures |r| == if |taps| < 2 then 0 else |taps| - 1
    ensures forall i :: 0 <= i < |r| ==> r[i] == taps[i + 1] - taps[i]
  {
    if |taps| < 2 then [] else [taps[1] - taps[0]] + Intervals(taps[1..])
  }

  /** An interval between two taps that a human tapping a tempo could mean: strictly positive,
      so its rate `60 / interval` is defined. */
  predicate Plausible(interval: real)
    ensures Plausible(interval) ==> 0.0 < interval
  {
    MinInterval < interval < MaxInterval
  }

  /** The plausible intervals, each kept as often as it occurs; the others are dropped. */
  function KeepPlausible(intervals: seq<real>): (r: seq<real>)
    ensures forall x :: multiset(r)[x] == if Plausible(x) then multiset(intervals)[x] else 0
  {
    if intervals == [] then []
    else
      assert intervals == [intervals[0]] + intervals[1..];
      (if Plausible(intervals[0]) then [intervals[0]] else []) + KeepPlausible(intervals[1..])
  }

  predicate SortedAscending(s: seq<real>)
  {
    forall i, j :: 0 <= i < j < |s| ==> s[i] <= s[j]
  }

  /** Putting a value no larger than the head in front keeps a sequence sorted. */
  lemma SortedCons(h: real, s: seq<real>)
    requires SortedAscending(s) && (0 < |s| ==> h <= s[0])
    ensures SortedAscending([h] + s)
  {
    var r := [h] + s;
    forall i, j | 0 <= i < j < |r| ensures r[i] <= r[j] {
      if 0 < i {
        assert r[i] == s[i - 1] && r[j] == s[j - 1];
      } else {
        assert s[0] <= s[j - 1];
      }
    }
  }

  /** Inserts `x` into an ascending sequence at the first place that keeps it ascending. */
  function Insert(x: real, sorted: seq<real>): (r: seq<real>)
    requires SortedAscending(sorted)
    ensures SortedAscending(r)
    ensures multiset(r) == multiset(sorted) + multiset{x}
    ensures 0 < |r| && (r[0] == x || (0 < |sorted| && r[0] == sorted[0]))
  {
    if sorted == [] then [x]
    else if x <= sorted[0] then
      SortedCons(x, sorted);
      [x] + sorted
    else
      var tail := sorted[1..];
      assert sorted == [sorted[0]] + tail;
      assert SortedAscending(tail) by {
        forall i, j | 0 <= i < j < |tail| ensures tail[i] <= tail[j] {
          assert tail[i] == sorted[i + 1] && tail[j] == sorted[j + 1];
        }
      }
      var rest := Insert(x, tail);
      SortedCons(sorted[0], rest);
      [sorted[0]] + rest
  }

  /** The intervals in ascending order. */
  function Sort(s: seq<real>): (r: seq<real>)
    ensures SortedAscending(r)
    ensures multiset(r) == multiset(s)
  {
    if s == [] then []
    else
      assert s == [s[0]] + s[1..];
      Insert(s[0], Sort(s[1..]))
  }

  /** The middle value of a sorted sequence; for an even count, the mean of the two middle values. */
  function Median(sorted: seq<real>): (r: real)
    requires 0 < |sorted|
    ensures sorted[(|sorted| - 1) / 2] <= sorted[|sorted| / 2] ==>
      sorted[(|sorted| - 1) / 2] <= r <= sorted[|sorted| / 2]
    ensures sorted[|sorted| / 2] <= sorted[(|sorted| - 1) / 2] ==>
      sorted[|sorted| / 2] <= r <= sorted[(|sorted| - 1) / 2]
  {
    var mid := |sorted| / 2;
    if |sorted| % 2 == 0 then (sorted[mid - 1] + sorted[mid]) / 2.0 else sorted[mid]
  }

  /** The median is no larger than the lower half (rounded up) and no smaller than the upper half. */
  lemma MedianSplitsHalves(sorted: seq<real>)
    requires 0 < |sorted| && SortedAscending(sorted)
    ensures forall i :: 0 <= i < (|sorted| + 1) / 2 ==> sorted[i] <= Median(sorted)
    ensures forall i :: |sorted| / 2 <= i < |sorted| ==> Median(sorted) <= sorted[i]
  {
    var mid := |sorted| / 2;
    if |sorted| % 2 == 0 {
      assert sorted[mid - 1] <= sorted[mid];
    }
  }

  function Clamp(x: real, lo: real, hi: real): (r: real)
    requires lo <= hi
    ensures lo <= r <= hi
    ensures lo <= x <= hi ==> r == x
    ensures hi < x ==> r == hi
    ensures x < lo ==> r == lo
  {
    if hi < x then hi else if x < lo then lo else x
  }

  /** The tempo the taps suggest, or `None` when there are fewer than two taps or no
      plausible interval between them. */
  function EstimateBpm(taps: seq<real>): (r: Option<real>)
    ensures r.None? <==> |taps| < 2 || KeepPlausible(Intervals(taps)) == []
    ensures r.Some? ==> MinBpm <= r.value <= MaxBpm
  {
    if |taps| < 2 then None
    else
      var intervals := KeepPlausible(Intervals(taps));
      if intervals == [] then None
      else
        var median := Median(Sort(intervals));
        PlausibleMedian(intervals);
        Some(Clamp(60.0 / median, MinBpm, MaxBpm))
  }

  /** The median of plausible intervals is itself a plausible interval. */
  lemma PlausibleMedian(intervals: seq<real>)
    requires 0 < |intervals| && forall i :: 0 <= i < |intervals| ==> Plausible(intervals[i])
    ensures 0 < |Sort(intervals)| && Plausible(Median(Sort(intervals)))
  {
    var s := Sort(intervals);
    assert |s| == |multiset(s)| == |multiset(intervals)| == |intervals|;
    assert Plausible(s[0]) by {
      assert s[0] in multiset(intervals);
    }
    assert Plausible(s[|s| - 1]) by {
      assert s[|s| - 1] in multiset(intervals);
    }
    MedianSplitsHalves(s);
  }

  /** Every estimate lies above 30 BPM: an interval below 2 s gives more than 30 BPM,
      so the lower clamp bound of 20 BPM is never reached. */
  lemma EstimateAboveThirty(taps: seq<real>)
    requires EstimateBpm(taps).Some?
    ensures 30.0 < EstimateBpm(taps).value
  {
    var intervals := KeepPlausible(Intervals(taps));
    forall i | 0 <= i < |intervals| ensures Plausible(intervals[i]) {
      assert intervals[i] in multiset(intervals);
    }
    PlausibleMedian(intervals);
    var median := Median(Sort(intervals));
    RateOfShortInterval(median);
    assert EstimateBpm(taps).value == Clamp(60.0 / median, MinBpm, MaxBpm);
  }

  /** An interval shorter than two seconds is a rate above 30 per minute. */
  lemma RateOfShortInterval(interval: real)
    requires 0.0 < interval < 2.0
    ensures 30.0 < 60.0 / interval
  {
    var rate := 60.0 / interval;
    assert rate * interval == 60.0;
    assert (rate - 30.0) * interval == 60.0 - 30.0 * interval;
    assert 0.0 < (rate - 30.0) * interval;
  }

  lemma ExampleIntervals()
    ensures Intervals([0.0, 0.5, 1.02, 1.48]) == [0.5, 0.52, 0.46]
  {
    var r := Intervals([0.0, 0.5, 1.02, 1.48]);
    assert |r| == 3 && r[0] == 0.5 && r[1] == 0.52 && r[2] == 0.46;
  }

  lemma ExampleKeep()
    ensures KeepPlausible([0.5, 0.52, 0.46]) == [0.5, 0.52, 0.46]
  {
    assert [0.5, 0.52, 0.46][1..] == [0.52, 0.46];
    assert [0.52, 0.46][1..] == [0.46];
    assert [0.46][1..] == [];
  }

  lemma ExampleInsertLast()
    ensures Insert(0.52, [0.46]) == [0.46, 0.52]
  {
    assert [0.46][1..] == [];
  }

  lemma ExampleInsertMiddle()
    ensures Insert(0.5, [0.46, 0.52]) == [0.46, 0.5, 0.52]
  {
    assert [0.46, 0.52][1..] == [0.52];
    assert Insert(0.5, [0.52]) == [0.5, 0.52];
  }

  lemma ExampleSort()
    ensures Sort([0.5, 0.52, 0.46]) == [0.46, 0.5, 0.52]
  {
    assert [0.46][1..] == [];
    assert Sort([0.46]) == [0.46];
    assert [0.52, 0.46][1..] == [0.46];
    ExampleInsertLast();
    assert Sort([0.52, 0.46]) == [0.46, 0.52];
    assert [0.5, 0.52, 0.46][1..] == [0.52, 0.46];
    ExampleInsertMiddle();
  }



  lemma ExampleMedian()
    ensures Median(Sort([0.5, 0.52, 0.46])) == 0.5
  {
    ExampleSort();
    var sorted := [0.46, 0.5, 0.52];
    assert |sorted| / 2 == 1 && |sorted| % 2 == 1;
    assert Median(sorted) == sorted[1];
  }

  /** Taps at 0, 0.5, 1.02 and 1.48 s (intervals 0.5, 0.52, 0.46) give 120 BPM. */
  lemma ExampleTaps()
    ensures EstimateBpm([0.0, 0.5, 1.02, 1.48]) == Some(120.0)
  {
    var taps := [0.0, 0.5, 1.02, 1.48];
    ExampleIntervals();
    ExampleKeep();
    ExampleMedian();
    calc {
      EstimateBpm(taps);
      Some(Clamp(60.0 / Median(Sort(KeepPlausible(Intervals(taps)))), MinBpm, MaxBpm));
      Some(Clamp(60.0 / Median(Sort([0.5, 0.52, 0.46])), MinBpm, MaxBpm));
      Some(Clamp(60.0 / 0.5, MinBpm, MaxBpm));
      Some(120.0);
    }
  }

  /** Taps 0.15 s apart (400 BPM) are plausible but faster than the range: the estimate
      is clamped to exactly 300 BPM. The two equal intervals take the even-count median. */
  lemma ExampleFastTaps()
    ensures EstimateBpm([0.0, 0.15, 0.3]) == Some(300.0)
  {
    var taps := [0.0, 0.15, 0.3];
    var intervals := Intervals(taps);
    assert |intervals| == 2 && intervals[0] == 0.15 && intervals[1] == 0.15;
    assert intervals == [0.15, 0.15];
    assert [0.15, 0.15][1..] == [0.15];
    assert [0.15][1..] == [];
    assert KeepPlausible(intervals) == [0.15, 0.15];
    assert Sort([0.15]) == [0.15];
    assert Insert(0.15, [0.15]) == [0.15, 0.15];
    assert Sort([0.15, 0.15]) == [0.15, 0.15];
    assert Median([0.15, 0.15]) == 0.15;
    assert 60.0 / 0.15 == 400.0;
  }

  /** Taps at 0, 0.4 and 1.0 s give two plausible intervals, 0.4 and 0.6. With an even count
      the median is the mean of the two middle values, 0.5 s, which is exactly 120 BPM. */
  lemma ExampleEvenTaps()
    ensures EstimateBpm([0.0, 0.4, 1.0]) == Some(120.0)
  {
    var taps := [0.0, 0.4, 1.0];
    var intervals := Intervals(taps);
    assert |intervals| == 2 && intervals[0] == 0.4 && intervals[1] == 0.6;
    assert intervals == [0.4, 0.6];
    assert [0.4, 0.6][1..] == [0.6];
    assert [0.6][1..] == [];
    assert KeepPlausible(intervals) == [0.4, 0.6];
    assert Sort([0.6]) == [0.6];
    assert Insert(0.4, [0.6]) == [0.4, 0.6];
    assert Sort([0.4, 0.6]) == [0.4, 0.6];
    assert Median([0.4, 0.6]) == 0.5;
    assert 60.0 / 0.5 == 120.0;
  }
}
