/** Batch quality control of an exported series (`apply_qc` of `build_peshawar_package.py`). */
module BatchQc {
  import opened Prelude

  const PM25_ABS_MAX: real := 1000.0
  const PM25_MAX_DELTA_1H: real := 250.0
  const PM25_SPIKE_RETURN_TOL: real := 1.0
  const PM25_FLATLINE_HOURS: nat := 18
  const CITY_OUTLIER_RATIO: real := 3.0
  const CITY_OUTLIER_MIN_STATIONS: nat := 3
  const CITY_OUTLIER_MIN_PM25: real := 50.0

  /** A row of the frame, sorted by station and time; `pm` is None where the value is missing. */
  datatype Row = Row(station: string, day: int, pm: Option<real>)

  predicate Sentinel(x: real) {
    x == 999.0 || x == 1000.0 || x == -1.0
  }

  predicate IsInvalid(r: Row) {
    r.pm.Some? && (Sentinel(r.pm.value) || r.pm.value < 0.0 || r.pm.value > PM25_ABS_MAX)
  }

  /** pm.where(~invalid) */
  function Clean(r: Row): Option<real> {
    if IsInvalid(r) then None else r.pm
  }

  // ---------------------------------------------------------------- flatline

  /** Does row `i` start a new segment? */
  predicate NewSegment(rows: seq<Row>, i: nat)
    requires i < |rows|
  {
    i == 0 || rows[i].station != rows[i - 1].station
    || Clean(rows[i]).None? || Clean(rows[i - 1]).None? || Clean(rows[i]) != Clean(rows[i - 1])
  }

  /** new_seg.cumsum() */
  function Segment(rows: seq<Row>, i: nat): nat
    requires i < |rows|
  {
    (if NewSegment(rows, i) then 1 else 0) + if i == 0 then 0 else Segment(rows, i - 1)
  }

  /** How many of the first `k` rows have segment number `id`. */
  function SizeOf(rows: seq<Row>, id: nat, k: nat): nat
    requires k <= |rows|
  {
    if k == 0 then 0 else SizeOf(rows, id, k - 1) + if Segment(rows, k - 1) == id then 1 else 0
  }

  /** pm25_flatline */
  predicate Flatline(rows: seq<Row>, i: nat)
    requires i < |rows|
  {
    Clean(rows[i]).Some? && SizeOf(rows, Segment(rows, i), |rows|) >= PM25_FLATLINE_HOURS
  }

  /** Rows `from` to `to` are one station with one non-missing value. */
  predicate Uniform(rows: seq<Row>, from: nat, to: nat)
    requires from < to <= |rows|
  {
    forall j :: from <= j < to ==>
      rows[j].station == rows[from].station && Clean(rows[j]).Some? && Clean(rows[j]) == Clean(rows[from])
  }

  /** The 18 consecutive rows from `s` on are uniform. */
  predicate FlatWindow(rows: seq<Row>, s: nat) {
    s + PM25_FLATLINE_HOURS <= |rows| && Uniform(rows, s, s + PM25_FLATLINE_HOURS)
  }

  predicate InFlatWindow(rows: seq<Row>, i: nat)
    requires i < |rows|
  {
    exists s: nat :: s <= i < s + PM25_FLATLINE_HOURS && FlatWindow(rows, s)
  }

  /** The segment of row `i` is the block [a, b). */
  predicate IsBlock(rows: seq<Row>, i: nat, a: nat, b: nat) {
    && a <= i < b <= |rows| && NewSegment(rows, a)
    && (b < |rows| ==> NewSegment(rows, b))
    && forall j :: a < j < b ==> !NewSegment(rows, j)
  }

  lemma {:induction false} BlockStart(rows: seq<Row>, i: nat) returns (a: nat)
    requires i < |rows|
    ensures a <= i && NewSegment(rows, a) && forall j :: a < j <= i ==> !NewSegment(rows, j)
    decreases i
  {
    if NewSegment(rows, i) {
      a := i;
    } else {
      a := BlockStart(rows, i - 1);
    }
  }

  lemma {:induction false} BlockEnd(rows: seq<Row>, i: nat, k: nat) returns (b: nat)
    requires i < k <= |rows| && forall j :: i < j < k ==> !NewSegment(rows, j)
    ensures k <= b <= |rows| && (b < |rows| ==> NewSegment(rows, b)) && forall j :: i < j < b ==> !NewSegment(rows, j)
    decreases |rows| - k
  {
    if k == |rows| || NewSegment(rows, k) {
      b := k;
    } else {
      b := BlockEnd(rows, i, k + 1);
    }
  }

  lemma BlockOf(rows: seq<Row>, i: nat) returns (a: nat, b: nat)
    requires i < |rows|
    ensures IsBlock(rows, i, a, b)
  {
    a := BlockStart(rows, i);
    b := BlockEnd(rows, i, i + 1);
  }

  /** Segment numbers never fall, and rise exactly where a segment starts. */
  lemma {:induction false} SegmentsRise(rows: seq<Row>, i: nat, j: nat)
    requires i <= j < |rows|
    ensures Segment(rows, i) <= Segment(rows, j)
    ensures (forall k :: i < k <= j ==> !NewSegment(rows, k)) ==> Segment(rows, i) == Segment(rows, j)
    ensures (exists k :: i < k <= j && NewSegment(rows, k)) ==> Segment(rows, i) < Segment(rows, j)
    decreases j
  {
    hide NewSegment;
    if i < j {
      SegmentsRise(rows, i, j - 1);
      if k :| i < k <= j && NewSegment(rows, k) && k != j {
        assert i < k <= j - 1;
      }
    }
  }

  lemma SameSegmentIff(rows: seq<Row>, i: nat, a: nat, b: nat, j: nat)
    requires IsBlock(rows, i, a, b) && j < |rows|
    ensures Segment(rows, j) == Segment(rows, i) <==> a <= j < b
  {
    hide NewSegment;
    if j <= i { SegmentsRise(rows, j, i); } else { SegmentsRise(rows, i, j); }
  }

  /** The size of a segment is the length of its block. */
  lemma {:induction false} BlockSize(rows: seq<Row>, i: nat, a: nat, b: nat, k: nat)
    requires IsBlock(rows, i, a, b) && k <= |rows|
    ensures SizeOf(rows, Segment(rows, i), k) == if k <= a then 0 else if k <= b then k - a else b - a
  {
    if k > 0 {
      BlockSize(rows, i, a, b, k - 1);
      SameSegmentIff(rows, i, a, b, k - 1);
    }
  }

  /** Without a segment start inside, a block that holds a value is uniform. */
  lemma {:induction false} BlockUniform(rows: seq<Row>, a: nat, b: nat)
    requires a < b <= |rows| && Clean(rows[a]).Some? && forall j :: a < j < b ==> !NewSegment(rows, j)
    ensures Uniform(rows, a, b)
    decreases b
  {
    if b - 1 > a {
      BlockUniform(rows, a, b - 1);
      assert !NewSegment(rows, b - 1);
    }
  }

  /** The cumulative-sum segmentation flags exactly the rows that lie in a flat window of 18 rows. */
  lemma FlatlineIffWindow(rows: seq<Row>, i: nat)
    requires i < |rows|
    ensures Flatline(rows, i) <==> InFlatWindow(rows, i)
  {
    hide Segment, SizeOf;
    var a, b := BlockOf(rows, i);
    BlockSize(rows, i, a, b, |rows|);
    if Flatline(rows, i) {
      var s: nat := if i + PM25_FLATLINE_HOURS <= b then i else b - PM25_FLATLINE_HOURS;
      assert Clean(rows[s]).Some? by { assert s < i ==> !NewSegment(rows, s + 1); }
      BlockUniform(rows, s, s + PM25_FLATLINE_HOURS);
      assert FlatWindow(rows, s);
    }
    if s: nat :| s <= i < s + PM25_FLATLINE_HOURS && FlatWindow(rows, s) {
      WindowHasNoStart(rows, s);
      assert a <= s && s + PM25_FLATLINE_HOURS <= b;
    }
  }

  lemma WindowHasNoStart(rows: seq<Row>, s: nat)
    requires FlatWindow(rows, s)
    ensures forall j :: s < j < s + PM25_FLATLINE_HOURS ==> !NewSegment(rows, j)
    ensures Clean(rows[s]).Some?
  {
  }

  // ---------------------------------------------------------------- spikes

  /** groupby(station).shift(d): the clean value `d` rows away within the station; rows of a station are consecutive. */
  function Shifted(rows: seq<Row>, i: nat, d: int): Option<real>
    requires i < |rows|
  {
    if 0 <= i + d < |rows| && rows[i + d].station == rows[i].station then Clean(rows[i + d]) else None
  }

  function Distance(a: real, b: real): real {
    if a < b then b - a else a - b
  }

  predicate Spike1h(rows: seq<Row>, i: nat)
    requires i < |rows|
  {
    var c, prev, next := Clean(rows[i]), Shifted(rows, i, -1), Shifted(rows, i, 1);
    && c.Some? && prev.Some? && next.Some?
    && Distance(c.value, prev.value) > PM25_MAX_DELTA_1H
    && Distance(next.value, prev.value) <= PM25_SPIKE_RETURN_TOL
  }

  /** Row `i` is the second of two rows far from the row before them, after which the series returns. */
  predicate Spike2h(rows: seq<Row>, i: nat)
    requires i < |rows|
  {
    var c, prev, prev2, next := Clean(rows[i]), Shifted(rows, i, -1), Shifted(rows, i, -2), Shifted(rows, i, 1);
    && c.Some? && prev.Some? && prev2.Some? && next.Some?
    && Distance(prev.value, prev2.value) > PM25_MAX_DELTA_1H
    && Distance(c.value, prev2.value) > PM25_MAX_DELTA_1H
    && Distance(next.value, prev2.value) <= PM25_SPIKE_RETURN_TOL
  }

  predicate Spike(rows: seq<Row>, i: nat)
    requires i < |rows|
  {
    || Spike1h(rows, i) || Spike2h(rows, i)
    || (i + 1 < |rows| && rows[i + 1].station == rows[i].station && Spike2h(rows, i + 1))
  }

  // ---------------------------------------------------------------- city outliers

  predicate OnDay(r: Row, station: string, day: int) {
    r.station == station && r.day == day
  }

  /** Sum and number of the clean values of one station and day. */
  function SumOf(rows: seq<Row>, station: string, day: int): real {
    if rows == [] then 0.0
    else
      var r := rows[|rows| - 1];
      SumOf(rows[..|rows| - 1], station, day) + if OnDay(r, station, day) && Clean(r).Some? then Clean(r).value else 0.0
  }

  function CountOf(rows: seq<Row>, station: string, day: int): nat {
    if rows == [] then 0
    else
      var r := rows[|rows| - 1];
      CountOf(rows[..|rows| - 1], station, day) + if OnDay(r, station, day) && Clean(r).Some? then 1 else 0
  }

  /** The mean of a station-day, None where it has rows but no clean value. */
  function Mean(rows: seq<Row>, station: string, day: int): Option<real> {
    var n := CountOf(rows, station, day);
    if n == 0 then None else Some(SumOf(rows, station, day) / n as real)
  }

  /** The stations with a row on the day. */
  function StationsOn(rows: seq<Row>, day: int): seq<string> {
    if rows == [] then []
    else
      var r := rows[|rows| - 1];
      var front := StationsOn(rows[..|rows| - 1], day);
      if r.day == day && r.station !in front then front + [r.station] else front
  }

  /** The means of the listed stations that have one. */
  function Means(rows: seq<Row>, stations: seq<string>, day: int): seq<real> {
    if stations == [] then []
    else
      var m := Mean(rows, stations[|stations| - 1], day);
      Means(rows, stations[..|stations| - 1], day) + if m.Some? then [m.value] else []
  }

  function Insert(x: real, s: seq<real>): seq<real> {
    if s == [] || x <= s[0] then [x] + s else [s[0]] + Insert(x, s[1..])
  }

  function Sort(s: seq<real>): seq<real> {
    if s == [] then [] else Insert(s[|s| - 1], Sort(s[..|s| - 1]))
  }

  /** The median of a sorted sequence. */
  function MedianSorted(s: seq<real>): real
    requires s != []
  {
    if |s| % 2 == 1 then s[|s| / 2] else (s[|s| / 2 - 1] + s[|s| / 2]) / 2.0
  }

  function Median(s: seq<real>): Option<real> {
    SortLength(s);
    if s == [] then None else Some(MedianSorted(Sort(s)))
  }

  lemma {:induction false} SortLength(s: seq<real>)
    ensures |Sort(s)| == |s|
  {
    if s != [] {
      SortLength(s[..|s| - 1]);
      InsertLength(s[|s| - 1], Sort(s[..|s| - 1]));
    }
  }

  lemma {:induction false} InsertLength(x: real, s: seq<real>)
    ensures |Insert(x, s)| == |s| + 1
  {
    if s != [] { InsertLength(x, s[1..]); }
  }

  /** Is the station far above the others on this day? */
  predicate OutlierDay(rows: seq<Row>, station: string, day: int) {
    var stations := StationsOn(rows, day);
    var mean, median := Mean(rows, station, day), Median(Means(rows, stations, day));
    && |stations| >= CITY_OUTLIER_MIN_STATIONS
    && mean.Some? && median.Some?
    && mean.value > CITY_OUTLIER_MIN_PM25 && mean.value > CITY_OUTLIER_RATIO * median.value
  }

  predicate CityOutlier(rows: seq<Row>, i: nat)
    requires i < |rows|
  {
    Clean(rows[i]).Some? && OutlierDay(rows, rows[i].station, rows[i].day)
  }

  // ---------------------------------------------------------------- at most half are outliers

  function CountAbove(s: seq<real>, t: real): nat {
    if s == [] then 0 else CountAbove(s[1..], t) + if s[0] > t then 1 else 0
  }

  predicate IsSorted(s: seq<real>) {
    forall i, j :: 0 <= i < j < |s| ==> s[i] <= s[j]
  }

  lemma {:induction false} InsertSorted(x: real, s: seq<real>)
    requires IsSorted(s)
    ensures IsSorted(Insert(x, s))
    ensures forall y :: y in Insert(x, s) <==> y == x || y in s
  {
    if s != [] && x > s[0] {
      var rest := s[1..];
      assert forall i :: 0 <= i < |rest| ==> rest[i] == s[i + 1];
      InsertSorted(x, rest);
      var r := Insert(x, rest);
      forall i | 0 <= i < |r| ensures s[0] <= r[i] {
        assert r[i] in r;
      }
      assert s == [s[0]] + rest;
    }
  }

  lemma {:induction false} SortSorted(s: seq<real>)
    ensures IsSorted(Sort(s))
    ensures forall y :: y in Sort(s) ==> y in s
  {
    if s != [] {
      var n := |s| - 1;
      SortSorted(s[..n]);
      InsertSorted(s[n], Sort(s[..n]));
      assert s == s[..n] + [s[n]];
    }
  }

  lemma {:induction false} CountAboveInsert(x: real, s: seq<real>, t: real)
    ensures CountAbove(Insert(x, s), t) == CountAbove(s, t) + if x > t then 1 else 0
  {
    if s == [] || x <= s[0] {
      assert ([x] + s)[1..] == s;
    } else {
      CountAboveInsert(x, s[1..], t);
      assert ([s[0]] + Insert(x, s[1..]))[1..] == Insert(x, s[1..]);
    }
  }

  lemma {:induction false} CountAboveAppend(s: seq<real>, x: real, t: real)
    ensures CountAbove(s + [x], t) == CountAbove(s, t) + if x > t then 1 else 0
  {
    if s == [] {
      assert (s + [x])[1..] == [];
    } else {
      CountAboveAppend(s[1..], x, t);
      assert (s + [x])[1..] == s[1..] + [x];
    }
  }

  lemma {:induction false} CountAboveSort(s: seq<real>, t: real)
    ensures CountAbove(Sort(s), t) == CountAbove(s, t)
  {
    if s != [] {
      var n := |s| - 1;
      CountAboveSort(s[..n], t);
      CountAboveInsert(s[n], Sort(s[..n]), t);
      CountAboveAppend(s[..n], s[n], t);
      assert s == s[..n] + [s[n]];
    }
  }

  /** If the first `p` values do not exceed `t`, at most the others do. */
  lemma {:induction false} CountAboveBound(s: seq<real>, t: real, p: nat)
    requires p <= |s| && forall i :: 0 <= i < p ==> s[i] <= t
    ensures CountAbove(s, t) <= |s| - p
  {
    if s != [] {
      assert forall i :: 0 <= i < |s| - 1 ==> s[1..][i] == s[i + 1];
      CountAboveBound(s[1..], t, if p > 0 then p - 1 else 0);
    }
  }

  /** The lower half of a sorted sequence, middle included, does not exceed its median. */
  lemma LowerHalf(sorted: seq<real>)
    requires IsSorted(sorted) && sorted != []
    ensures forall i :: 0 <= i < (|sorted| - 1) / 2 + 1 ==> sorted[i] <= MedianSorted(sorted)
  {
    var n := |sorted|;
    var h := (n - 1) / 2;
    if n % 2 == 1 {
      assert h == n / 2;
    } else {
      assert h == n / 2 - 1 && sorted[h] <= sorted[n / 2];
    }
    assert sorted[h] <= MedianSorted(sorted);
    forall i | 0 <= i < h + 1 ensures sorted[i] <= MedianSorted(sorted) {
      if i < h { assert sorted[i] <= sorted[h]; }
    }
  }

  /** At most half of the values lie above the median. */
  lemma HalfAboveMedian(s: seq<real>)
    requires s != []
    ensures 2 * CountAbove(s, Median(s).value) <= |s|
  {
    hide MedianSorted, Sort, CountAbove;
    SortLength(s);
    SortSorted(s);
    LowerHalf(Sort(s));
    CountAboveBound(Sort(s), Median(s).value, (|s| - 1) / 2 + 1);
    CountAboveSort(s, Median(s).value);
  }

  lemma {:induction false} CountAboveMonotone(s: seq<real>, t: real, u: real)
    requires t <= u
    ensures CountAbove(s, u) <= CountAbove(s, t)
  {
    if s != [] { CountAboveMonotone(s[1..], t, u); }
  }

  /** The listed stations flagged on the day. */
  function Flagged(rows: seq<Row>, stations: seq<string>, day: int): nat {
    if stations == [] then 0
    else Flagged(rows, stations[..|stations| - 1], day)
         + if OutlierDay(rows, stations[|stations| - 1], day) then 1 else 0
  }

  lemma {:induction false} FlaggedAboveMedian(rows: seq<Row>, stations: seq<string>, day: int, median: real)
    requires Median(Means(rows, StationsOn(rows, day), day)) == Some(median)
    ensures Flagged(rows, stations, day) <= CountAbove(Means(rows, stations, day), CITY_OUTLIER_RATIO * median)
  {
    hide Mean, Median, StationsOn;
    if stations != [] {
      var n := |stations| - 1;
      FlaggedAboveMedian(rows, stations[..n], day, median);
      var m := Mean(rows, stations[n], day);
      if m.Some? {
        CountAboveAppend(Means(rows, stations[..n], day), m.value, CITY_OUTLIER_RATIO * median);
      } else {
        assert Means(rows, stations, day) == Means(rows, stations[..n], day);
      }
    }
  }

  lemma {:induction false} SumNonNegative(rows: seq<Row>, station: string, day: int)
    ensures SumOf(rows, station, day) >= 0.0
  {
    if rows != [] { SumNonNegative(rows[..|rows| - 1], station, day); }
  }

  lemma {:induction false} MeansNonNegative(rows: seq<Row>, stations: seq<string>, day: int)
    ensures forall x :: x in Means(rows, stations, day) ==> x >= 0.0
  {
    if stations != [] {
      var n := |stations| - 1;
      MeansNonNegative(rows, stations[..n], day);
      SumNonNegative(rows, stations[n], day);
      var k := CountOf(rows, stations[n], day);
      if k > 0 { QuotientNonNegative(SumOf(rows, stations[n], day), k as real); }
    }
  }

  lemma QuotientNonNegative(x: real, y: real)
    requires x >= 0.0 && y > 0.0
    ensures x / y >= 0.0
  {
  }

  lemma MedianNonNegative(s: seq<real>)
    requires s != [] && forall x :: x in s ==> x >= 0.0
    ensures Median(s).value >= 0.0
  {
    SortLength(s);
    SortSorted(s);
    var sorted := Sort(s);
    assert sorted[|s| / 2] in sorted;
    if |s| % 2 == 0 { assert sorted[|s| / 2 - 1] in sorted; }
  }

  lemma {:induction false} NoMeanNoFlag(rows: seq<Row>, stations: seq<string>, day: int)
    requires Median(Means(rows, StationsOn(rows, day), day)).None?
    ensures Flagged(rows, stations, day) == 0
  {
    if stations != [] { NoMeanNoFlag(rows, stations[..|stations| - 1], day); }
  }

  /** On every day at most half of the stations with a mean are flagged, for any number of stations. */
  lemma AtMostHalfOutliers(rows: seq<Row>, day: int)
    ensures var stations := StationsOn(rows, day);
            2 * Flagged(rows, stations, day) <= |Means(rows, stations, day)|
  {
    hide Means, StationsOn, Median, Flagged;
    var stations := StationsOn(rows, day);
    var means := Means(rows, stations, day);
    MedianIff(means);
    if means == [] {
      NoMeanNoFlag(rows, stations, day);
    } else {
      var m := Median(means).value;
      MeansNonNegative(rows, stations, day);
      MedianNonNegative(means);
      FlaggedAboveMedian(rows, stations, day, m);
      CountAboveMonotone(means, m, CITY_OUTLIER_RATIO * m);
      HalfAboveMedian(means);
    }
  }

  lemma MedianIff(s: seq<real>)
    ensures Median(s).Some? <==> s != []
  {
  }

  // ---------------------------------------------------------------- states

  predicate Suspect(rows: seq<Row>, i: nat)
    requires i < |rows|
  {
    Spike(rows, i) || Flatline(rows, i) || CityOutlier(rows, i)
  }

  datatype State = Missing | InvalidState | SuspectState | OkState

  /** pm25_qc_state, in the order of np.select. */
  function StateOf(rows: seq<Row>, i: nat): State
    requires i < |rows|
  {
    if rows[i].pm.None? then Missing
    else if IsInvalid(rows[i]) then InvalidState
    else if Suspect(rows, i) then SuspectState
    else OkState
  }

  /** pm25_qc: clean.where(~suspect) */
  function Pm25Qc(rows: seq<Row>, i: nat): Option<real>
    requires i < |rows|
  {
    if Suspect(rows, i) then None else Clean(rows[i])
  }

  /**
   Only measured, valid rows are ever suspect, so the three conditions exclude each other and their order does not
   matter; the exported value is there iff the state is ok, and is then the original one, within the valid range.
   */
  lemma StatesPartition(rows: seq<Row>, i: nat)
    requires i < |rows|
    ensures Suspect(rows, i) ==> rows[i].pm.Some? && !IsInvalid(rows[i])
    ensures Pm25Qc(rows, i).Some? <==> StateOf(rows, i) == OkState
    ensures Pm25Qc(rows, i).Some? ==> Pm25Qc(rows, i) == rows[i].pm && 0.0 <= Pm25Qc(rows, i).value <= PM25_ABS_MAX
    ensures StateOf(rows, i) == SuspectState <==> Suspect(rows, i)
    ensures StateOf(rows, i) == Missing <==> rows[i].pm.None?
    ensures StateOf(rows, i) == InvalidState <==>
            exists x: real :: rows[i].pm == Some(x) && (x == 999.0 || x == 1000.0 || x < 0.0 || x > 1000.0)
  {
    hide OutlierDay, SizeOf, Segment;
    if rows[i].pm.Some? { assert rows[i].pm == Some(rows[i].pm.value); }
  }
}
