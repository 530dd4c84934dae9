/** What the spike, median and city-outlier rules of the batch quality control flag, in both directions. */
module BatchQcTheorems {
  import opened Prelude
  import opened BatchQc

  // ---------------------------------------------------------------- spikes

  /** Rows `a` to `b` are consecutive rows of one station, each with a valid value. */
  predicate Measured(rows: seq<Row>, a: int, b: int) {
    0 <= a <= b < |rows|
    && forall j :: a <= j <= b ==> rows[j].station == rows[a].station && Clean(rows[j]).Some?
  }

  /** After row `a` the series jumps by more than 250 for `width` rows and then comes back to within 1 of row `a`. */
  predicate Bump(rows: seq<Row>, a: int, width: nat) {
    && Measured(rows, a, a + width + 1)
    && (forall j :: a < j <= a + width ==> Far(Clean(rows[j]).value, Clean(rows[a]).value))
    && -1.0 <= Clean(rows[a + width + 1]).value - Clean(rows[a]).value <= 1.0
  }

  predicate Far(x: real, y: real) {
    x - y > 250.0 || y - x > 250.0
  }

  lemma OneHourIff(rows: seq<Row>, i: nat)
    requires i < |rows|
    ensures Spike1h(rows, i) <==> Bump(rows, i - 1, 1)
  {
    hide Clean;
    if Spike1h(rows, i) {
      forall j: int | i - 1 <= j <= i + 1
        ensures rows[j].station == rows[i - 1].station && Clean(rows[j]).Some?
      {
      }
    }
    if Bump(rows, i - 1, 1) {
      assert rows[i].station == rows[i - 1].station && rows[i + 1].station == rows[i - 1].station;
      assert Far(Clean(rows[i]).value, Clean(rows[i - 1]).value);
    }
  }

  lemma TwoHoursIff(rows: seq<Row>, i: nat)
    requires i < |rows|
    ensures Spike2h(rows, i) <==> Bump(rows, i - 2, 2)
  {
    hide Clean;
    if Spike2h(rows, i) {
      forall j: int | i - 2 <= j <= i + 1
        ensures rows[j].station == rows[i - 2].station && Clean(rows[j]).Some?
      {
      }
    }
    if Bump(rows, i - 2, 2) {
      assert rows[i - 1].station == rows[i - 2].station && rows[i].station == rows[i - 2].station;
      assert rows[i + 1].station == rows[i - 2].station;
      assert Far(Clean(rows[i - 1]).value, Clean(rows[i - 2]).value);
      assert Far(Clean(rows[i]).value, Clean(rows[i - 2]).value);
    }
  }

  /** A row is flagged as a spike iff it lies on a bump of one or two rows; both rows of a longer one are flagged. */
  lemma SpikeIffBump(rows: seq<Row>, i: nat)
    requires i < |rows|
    ensures Spike(rows, i) <==> exists a, width :: 1 <= width <= 2 && a < i <= a + width && Bump(rows, a, width)
  {
    OneHourIff(rows, i);
    TwoHoursIff(rows, i);
    if i + 1 < |rows| { TwoHoursIff(rows, i + 1); }
    assert Bump(rows, i - 1, 2) ==> i + 1 < |rows| && rows[i + 1].station == rows[i].station;
    hide Spike1h, Spike2h, Bump;
    if a, width :| 1 <= width <= 2 && a < i <= a + width && Bump(rows, a, width) {
      assert (a == i - 1 && width == 1) || (a == i - 1 && width == 2) || (a == i - 2 && width == 2);
    }
  }

  // ---------------------------------------------------------------- the median

  function CountBelow(s: seq<real>, t: real): nat {
    if s == [] then 0 else CountBelow(s[1..], t) + if s[0] < t then 1 else 0
  }

  /** Sorting only rearranges. */
  lemma {:induction false} SortKeeps(s: seq<real>)
    ensures multiset(Sort(s)) == multiset(s)
  {
    if s != [] {
      var n := |s| - 1;
      SortKeeps(s[..n]);
      InsertAdds(s[n], Sort(s[..n]));
      assert s == s[..n] + [s[n]];
    }
  }

  lemma {:induction false} InsertAdds(x: real, s: seq<real>)
    ensures multiset(Insert(x, s)) == multiset(s) + multiset{x}
  {
    if s != [] && x > s[0] {
      InsertAdds(x, s[1..]);
      assert s == [s[0]] + s[1..];
    }
  }

  /** The median is the middle value of the sorted ones, or the mean of the two middle ones. */
  lemma MedianIs(s: seq<real>)
    requires s != []
    ensures IsSorted(Sort(s)) && multiset(Sort(s)) == multiset(s) && |Sort(s)| == |s|
    ensures |s| % 2 == 1 ==> Median(s) == Some(Sort(s)[|s| / 2])
    ensures |s| % 2 == 0 ==> 2.0 * Median(s).value == Sort(s)[|s| / 2 - 1] + Sort(s)[|s| / 2]
  {
    hide Sort, IsSorted;
    SortSorted(s);
    SortKeeps(s);
    SortLength(s);
  }

  lemma {:induction false} CountsByValue(s: seq<real>, t: real)
    ensures CountAbove(s, t) + CountBelow(s, t) + multiset(s)[t] == |s|
  {
    if s != [] {
      CountsByValue(s[1..], t);
      assert s == [s[0]] + s[1..];
      assert multiset(s) == multiset{s[0]} + multiset(s[1..]);
    }
  }

  lemma SameCountBelow(s: seq<real>, t: real)
    ensures CountBelow(Sort(s), t) == CountBelow(s, t)
  {
    hide CountBelow, CountAbove, Sort;
    SortKeeps(s);
    SortLength(s);
    CountAboveSort(s, t);
    CountsByValue(s, t);
    CountsByValue(Sort(s), t);
  }

  /** If the values from `p` on are not below `t`, at most the first `p` are. */
  lemma {:induction false} CountBelowBound(s: seq<real>, t: real, p: nat)
    requires p <= |s| && forall i :: p <= i < |s| ==> s[i] >= t
    ensures CountBelow(s, t) <= p
  {
    if s != [] {
      assert forall i :: 0 <= i < |s| - 1 ==> s[1..][i] == s[i + 1];
      CountBelowBound(s[1..], t, if p > 0 then p - 1 else 0);
    }
  }

  /** The two middle values, one value when the number is odd, and the median between them. */
  lemma Middle(sorted: seq<real>)
    requires IsSorted(sorted) && sorted != []
    ensures var low, high := sorted[(|sorted| - 1) / 2], sorted[|sorted| / 2];
            && low <= MedianSorted(sorted) <= high
            && (forall i :: 0 <= i <= (|sorted| - 1) / 2 ==> sorted[i] <= low)
            && (forall i :: |sorted| / 2 <= i < |sorted| ==> high <= sorted[i])
  {
    if |sorted| % 2 == 0 {
      assert (|sorted| - 1) / 2 == |sorted| / 2 - 1;
      assert sorted[|sorted| / 2 - 1] <= sorted[|sorted| / 2];
    } else {
      assert (|sorted| - 1) / 2 == |sorted| / 2;
    }
  }

  /** At most half of the values lie below the median, as at most half lie above it. */
  lemma HalfBelowMedian(s: seq<real>)
    requires s != []
    ensures 2 * CountBelow(s, Median(s).value) <= |s|
  {
    hide Sort, CountBelow, MedianSorted, IsSorted;
    SortSorted(s);
    SortLength(s);
    Middle(Sort(s));
    CountBelowBound(Sort(s), Median(s).value, |s| / 2);
    SameCountBelow(s, Median(s).value);
  }

  lemma {:induction false} SomeAbove(s: seq<real>, t: real, p: nat)
    requires p <= |s| && forall i :: p <= i < |s| ==> s[i] > t
    ensures CountAbove(s, t) >= |s| - p
  {
    if s != [] {
      assert forall i :: 0 <= i < |s| - 1 ==> s[1..][i] == s[i + 1];
      SomeAbove(s[1..], t, if p > 0 then p - 1 else 0);
    }
  }

  lemma {:induction false} SomeBelow(s: seq<real>, t: real, p: nat)
    requires p <= |s| && forall i :: 0 <= i < p ==> s[i] < t
    ensures CountBelow(s, t) >= p
  {
    if s != [] {
      assert forall i :: 0 <= i < |s| - 1 ==> s[1..][i] == s[i + 1];
      SomeBelow(s[1..], t, if p > 0 then p - 1 else 0);
    }
  }

  /** The median does not exceed what more than half do not exceed, and reaches what more than half reach. */
  lemma MedianBetween(s: seq<real>, t: real)
    requires s != []
    ensures 2 * CountAbove(s, t) < |s| ==> Median(s).value <= t
    ensures 2 * CountBelow(s, t) < |s| ==> t <= Median(s).value
  {
    hide Sort, CountBelow, CountAbove, MedianSorted, IsSorted;
    SortSorted(s);
    SortLength(s);
    var sorted := Sort(s);
    Middle(sorted);
    CountAboveSort(s, t);
    SameCountBelow(s, t);
    if sorted[|s| / 2] > t { SomeAbove(sorted, t, |s| / 2); }
    if sorted[(|s| - 1) / 2] < t { SomeBelow(sorted, t, (|s| - 1) / 2 + 1); }
  }

  // ---------------------------------------------------------------- station means

  /** The stations of a day, each once. */
  lemma {:induction false} StationsOnIff(rows: seq<Row>, day: int, station: string)
    ensures station in StationsOn(rows, day) <==> exists i :: 0 <= i < |rows| && OnDay(rows[i], station, day)
    ensures forall i, j :: 0 <= i < j < |StationsOn(rows, day)| ==> StationsOn(rows, day)[i] != StationsOn(rows, day)[j]
  {
    if rows != [] {
      var n := |rows| - 1;
      StationsOnIff(rows[..n], day, station);
      assert forall i :: 0 <= i < n ==> rows[..n][i] == rows[i];
      if i :| 0 <= i < n && OnDay(rows[..n][i], station, day) {
        assert OnDay(rows[i], station, day);
      }
    }
  }

  predicate Within(rows: seq<Row>, station: string, day: int, low: real, high: real) {
    forall i :: 0 <= i < |rows| && Counts(rows[i], station, day) ==> low <= Clean(rows[i]).value <= high
  }

  /** The row has a valid value of the station-day. */
  predicate Counts(r: Row, station: string, day: int) {
    OnDay(r, station, day) && Clean(r).Some?
  }

  /** A station-day has a mean iff it has a valid value, and the mean lies between any bounds of its valid values. */
  lemma MeanBetween(rows: seq<Row>, station: string, day: int, low: real, high: real)
    requires Within(rows, station, day, low, high)
    ensures Mean(rows, station, day).Some? <==> exists i :: 0 <= i < |rows| && Counts(rows[i], station, day)
    ensures Mean(rows, station, day).Some? ==> low <= Mean(rows, station, day).value <= high
  {
    hide SumOf, CountOf, Counts, Within;
    CountIff(rows, station, day);
    SumBetween(rows, station, day, low, high);
    var n, sum := CountOf(rows, station, day), SumOf(rows, station, day);
    if n > 0 { QuotientBetween(sum, n as real, low, high); }
  }

  lemma QuotientBetween(sum: real, n: real, low: real, high: real)
    requires n > 0.0 && low * n <= sum <= high * n
    ensures low <= sum / n <= high
  {
    var q := sum / n;
    assert sum == q * n;
    TimesLess(q, low, n);
    TimesLess(high, q, n);
  }

  lemma TimesLess(x: real, y: real, n: real)
    requires n > 0.0
    ensures x < y ==> x * n < y * n
  {
  }

  lemma OneMore(x: real, k: nat)
    ensures x * (k + 1) as real == x * k as real + x
  {
    assert (k + 1) as real == k as real + 1.0;
  }

  lemma {:induction false} CountIff(rows: seq<Row>, station: string, day: int)
    ensures CountOf(rows, station, day) > 0 <==> exists i :: 0 <= i < |rows| && Counts(rows[i], station, day)
  {
    if rows != [] {
      var n := |rows| - 1;
      CountIff(rows[..n], station, day);
      assert Counts(rows[n], station, day) <==> OnDay(rows[n], station, day) && Clean(rows[n]).Some?;
      hide Counts, OnDay, Clean;
      assert forall i :: 0 <= i < n ==> rows[..n][i] == rows[i];
      if i :| 0 <= i < n && Counts(rows[..n][i], station, day) {
        assert Counts(rows[i], station, day);
      }
    }
  }

  /** The sum of `k` values between the bounds. */
  predicate Bounded(sum: real, k: nat, low: real, high: real) {
    low * k as real <= sum <= high * k as real
  }

  lemma BoundedNext(sum: real, k: nat, low: real, high: real, x: real)
    requires Bounded(sum, k, low, high) && low <= x <= high
    ensures Bounded(sum + x, k + 1, low, high)
  {
    OneMore(low, k);
    OneMore(high, k);
  }

  lemma {:induction false} SumBetween(rows: seq<Row>, station: string, day: int, low: real, high: real)
    requires Within(rows, station, day, low, high)
    ensures Bounded(SumOf(rows, station, day), CountOf(rows, station, day), low, high)
  {
    if rows != [] {
      hide Bounded, Clean, OnDay;
      var n := |rows| - 1;
      WithinFront(rows, station, day, low, high);
      SumBetween(rows[..n], station, day, low, high);
      if Counts(rows[n], station, day) {
        BoundedNext(SumOf(rows[..n], station, day), CountOf(rows[..n], station, day), low, high, Clean(rows[n]).value);
      }
    }
  }

  lemma WithinFront(rows: seq<Row>, station: string, day: int, low: real, high: real)
    requires rows != [] && Within(rows, station, day, low, high)
    ensures Within(rows[..|rows| - 1], station, day, low, high)
  {
    hide Counts, Clean;
  }

  // ---------------------------------------------------------------- city outliers

  /**
   With at least three stations on the day, a station whose mean exceeds 50 and three times a value that more than half
   of the means do not exceed is flagged; one whose mean does not exceed 50, or three times a value that more than half
   reach, is not.
   */
  lemma OutlierBothWays(rows: seq<Row>, station: string, day: int, t: real)
    requires Mean(rows, station, day).Some?
    ensures var stations := StationsOn(rows, day);
            var means, mean := Means(rows, stations, day), Mean(rows, station, day).value;
            && (|stations| >= 3 && mean > 50.0 && mean > 3.0 * t && 2 * CountAbove(means, t) < |means| ==>
                  OutlierDay(rows, station, day))
            && (|stations| < 3 || mean <= 50.0 || (mean <= 3.0 * t && 2 * CountBelow(means, t) < |means|) ==>
                  !OutlierDay(rows, station, day))
  {
    hide Mean, StationsOn, Means, Median, CountAbove, CountBelow;
    var means := Means(rows, StationsOn(rows, day), day);
    MedianIff(means);
    if means != [] { MedianBetween(means, t); }
  }

  /** Exactly half is not enough: two of these four means do not exceed 10, but the median is 105 and 301 below 315. */
  lemma HalfIsNotEnough()
    ensures var means := [10.0, 10.0, 200.0, 301.0];
            2 * CountAbove(means, 10.0) == |means| && Median(means) == Some(105.0) && 301.0 <= 3.0 * 105.0
  {
    var means := [10.0, 10.0, 200.0, 301.0];
    assert means[..3] == [10.0, 10.0, 200.0] && means[..3][..2] == [10.0, 10.0];
    assert [10.0, 10.0][..1] == [10.0] && [10.0][..0] == [];
    assert Sort([10.0]) == [10.0] && Sort([10.0, 10.0]) == [10.0, 10.0];
    assert [10.0, 10.0][1..] == [10.0] && [10.0][1..] == [];
    assert Insert(200.0, [10.0]) == [10.0, 200.0];
    assert Sort(means[..3]) == [10.0, 10.0, 200.0];
    assert [10.0, 10.0, 200.0][1..] == [10.0, 200.0] && [10.0, 200.0][1..] == [200.0] && [200.0][1..] == [];
    assert Insert(301.0, [200.0]) == [200.0, 301.0];
    assert Insert(301.0, [10.0, 200.0]) == [10.0, 200.0, 301.0];
    assert Sort(means) == means;
    assert means[1..] == [10.0, 200.0, 301.0] && means[1..][1..] == [200.0, 301.0];
    assert CountAbove([200.0, 301.0], 10.0) == 2 by {
      assert [200.0, 301.0][1..] == [301.0] && [301.0][1..] == [];
    }
  }

  // ---------------------------------------------------------------- suspect rows

  /** A row is suspect iff it lies on a bump or in a flat window, or is valid on an outlier day of its station. */
  lemma SuspectIff(rows: seq<Row>, i: nat)
    requires i < |rows|
    ensures Suspect(rows, i) <==>
            || (exists a, width :: 1 <= width <= 2 && a < i <= a + width && Bump(rows, a, width))
            || InFlatWindow(rows, i)
            || (Clean(rows[i]).Some? && OutlierDay(rows, rows[i].station, rows[i].day))
  {
    hide Spike, Flatline, InFlatWindow, OutlierDay, Bump;
    SpikeIffBump(rows, i);
    FlatlineIffWindow(rows, i);
  }
}
