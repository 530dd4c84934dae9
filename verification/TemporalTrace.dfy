/** Whether the recorded sources and shifts are those of the values in a row. */
module TemporalTrace {
  import opened Prelude
  import opened Columns
  import opened Readings
  import opened Temporal
  import opened TemporalTheorems
  import TemporalProvenance

  /** A current reading of this kind sits at hour `h`. */
  predicate CurrentAt(p: Payload, policy: Policy, kind: Kind, h: int) {
    if kind.Pollution? then Anchor(p) == Some(h)
    else CurrentWeatherTs(p).Some? && Slot(policy, CurrentWeatherTs(p).value) == h
  }

  /** The shift of the entry that the value of column `c` came from; None for no value and for overlap values. */
  function TrueShift(p: Payload, policy: Policy, h: int, c: Column): Option<int> {
    var kind := KindOf(c);
    if LastLanding(History(p, kind), Anchor(p), kind, policy, h, c).Some? then Some(Shift(policy, kind))
    else if c in At(Start(p, policy), h).vals then Some(0)
    else None
  }

  // ---------------------------------------------------------------- what is recorded

  /** What one history entry records for stream `s` of hour `h`. */
  lemma StreamStep(bs: Buckets, anchor: Option<int>, entry: Option<Entry>, kind: Kind, policy: Policy, h: int,
                   s: Stream)
    requires s == P || s == W
    ensures var now := At(AddEntry(bs, anchor, entry, kind, policy), h);
            var was := At(bs, h);
            var sets := s == StreamOf(kind) && Lands(entry, anchor, kind, policy, h);
            && Get(now.shiftHours, s)
               == (if sets && s !in was.shiftHours then Some(Shift(policy, kind)) else Get(was.shiftHours, s))
            && Get(now.srcTs, s)
               == (if sets && s !in was.srcTs then Some(NormHour(entry.value.ts.value)) else Get(was.srcTs, s))
  {
    hide NormHour, FieldsOf;
  }

  predicate SomeLanding(entries: seq<Option<Entry>>, anchor: Option<int>, kind: Kind, policy: Policy, h: int) {
    entries != [] &&
    (|| SomeLanding(entries[..|entries| - 1], anchor, kind, policy, h)
     || Lands(entries[|entries| - 1], anchor, kind, policy, h))
  }

  lemma {:induction false} LandingIsSome(entries: seq<Option<Entry>>, anchor: Option<int>, kind: Kind, policy: Policy,
                                         h: int, c: Column)
    ensures LastLanding(entries, anchor, kind, policy, h, c).Some? ==> SomeLanding(entries, anchor, kind, policy, h)
  {
    hide Lands, Supply;
    if entries != [] {
      LandingIsSome(entries[..|entries| - 1], anchor, kind, policy, h, c);
    }
  }

  /** The first one to set a source or a shift wins; a landing sets what is not set. */
  lemma {:induction false} StreamAll(bs: Buckets, anchor: Option<int>, entries: seq<Option<Entry>>, kind: Kind,
                                     policy: Policy, h: int)
    ensures var s := StreamOf(kind);
            var now := At(AddAll(bs, anchor, entries, kind, policy), h);
            var was := At(bs, h);
            var lands := SomeLanding(entries, anchor, kind, policy, h);
            && Get(now.shiftHours, s)
               == (if s in was.shiftHours then Some(was.shiftHours[s])
                   else if lands then Some(Shift(policy, kind)) else None)
            && (s in was.srcTs ==> Get(now.srcTs, s) == Some(was.srcTs[s]))
            && (s !in was.srcTs ==> (s in now.srcTs <==> lands))
            && (s !in was.srcTs && lands ==> NormHour(now.srcTs[s]) + Shift(policy, kind) * HOUR == h)
  {
    hide AddEntry, NormHour, At, IsOverlap;
    if entries != [] {
      var n := |entries| - 1;
      StreamAll(bs, anchor, entries[..n], kind, policy, h);
      StreamStep(AddAll(bs, anchor, entries[..n], kind, policy), anchor, entries[n], kind, policy, h, StreamOf(kind));
      if Timed(entries[n]) { TemporalProvenance.NormHourOfHour(entries[n].value.ts.value); }
    }
  }

  lemma {:induction false} StreamOther(bs: Buckets, anchor: Option<int>, entries: seq<Option<Entry>>, kind: Kind,
                                       policy: Policy, h: int, s: Stream)
    requires (s == P || s == W) && s != StreamOf(kind)
    ensures var now := At(AddAll(bs, anchor, entries, kind, policy), h);
            Get(now.shiftHours, s) == Get(At(bs, h).shiftHours, s) && Get(now.srcTs, s) == Get(At(bs, h).srcTs, s)
  {
    hide AddEntry, At;
    if entries != [] {
      var n := |entries| - 1;
      StreamOther(bs, anchor, entries[..n], kind, policy, h, s);
      StreamStep(AddAll(bs, anchor, entries[..n], kind, policy), anchor, entries[n], kind, policy, h, s);
    }
  }

  /** The current readings record their own hour, unshifted. */
  lemma StartStream(p: Payload, policy: Policy, kind: Kind, h: int)
    ensures var b := At(Start(p, policy), h);
            var s := StreamOf(kind);
            && (s in b.shiftHours <==> CurrentAt(p, policy, kind, h)) && (s in b.srcTs <==> s in b.shiftHours)
            && (s in b.shiftHours ==> b.shiftHours[s] == 0 && NormHour(b.srcTs[s]) == NormHour(h))
            && (s in b.srcTs ==> Some(b.srcTs[s]) == CurrentTime(p, kind))
  {
    hide NormHour, FieldsOf;
    if p.currentPollution.Some? && p.currentPollution.value.ts.Some? {
      TemporalProvenance.NormHourOfHour(p.currentPollution.value.ts.value);
    }
    if CurrentWeatherTs(p).Some? {
      TemporalProvenance.NormHourOfHour(CurrentWeatherTs(p).value);
    }
  }

  /** They give values only where they sit. */
  lemma StartValues(p: Payload, policy: Policy, kind: Kind, h: int, c: Column)
    requires OfKind(kind, c) && c in At(Start(p, policy), h).vals
    ensures CurrentAt(p, policy, kind, h)
  {
    hide NormHour, IsPollution, IsWeather, SetDefault;
    assert !(IsPollution(c) && IsWeather(c)) by { OneKind(c); }
  }

  lemma OneKind(c: Column)
    ensures !(IsPollution(c) && IsWeather(c))
  {
  }

  // ---------------------------------------------------------------- values and what is recorded for them

  /** The shift recorded for a kind of value in a row, and the hour of the recorded source. */
  function RecordedShift(b: Bucket, kind: Kind): Option<int> {
    Get(b.shiftHours, StreamOf(kind))
  }

  function RecordedHour(b: Bucket, kind: Kind): Option<int> {
    if StreamOf(kind) in b.srcTs then Some(NormHour(b.srcTs[StreamOf(kind)])) else None
  }

  /** The provider's own timestamp of a current reading; weather without one has that of pollution's hour. */
  function CurrentTime(p: Payload, kind: Kind): Option<int> {
    if kind.Weather? then CurrentWeatherTs(p)
    else if p.currentPollution.Some? then p.currentPollution.value.ts else None
  }

  /** What a row names for a kind: the current reading that sits there, else the first history entry to land. */
  lemma RecordedIs(p: Payload, policy: Policy, kind: Kind, h: int)
    ensures var b := At(AllBuckets(p, policy), h);
            var current := CurrentAt(p, policy, kind, h);
            var lands := SomeLanding(History(p, kind), Anchor(p), kind, policy, h);
            && RecordedShift(b, kind)
               == (if current then Some(0) else if lands then Some(Shift(policy, kind)) else None)
            && RecordedHour(b, kind)
               == (if current then Some(NormHour(h)) else if lands then Some(h - Shift(policy, kind) * HOUR) else None)
            && (current ==> Get(b.srcTs, StreamOf(kind)) == CurrentTime(p, kind))
  {
    var start := Start(p, policy);
    var middle := AddAll(start, Anchor(p), p.pollution, Pollution, policy);
    StartStream(p, policy, kind, h);
    hide AddAll, Start, At, NormHour, Anchor, CurrentAt, SomeLanding, CurrentTime;
    if kind == Pollution {
      StreamAll(start, Anchor(p), p.pollution, Pollution, policy, h);
      StreamOther(middle, Anchor(p), p.weather, Weather, policy, h, P);
    } else {
      StreamOther(start, Anchor(p), p.pollution, Pollution, policy, h, W);
      StreamAll(middle, Anchor(p), p.weather, Weather, policy, h);
    }
  }

  /**
   For every payload and policy, a value from a current or a shifted history entry has that entry's shift and source
   hour recorded, exactly unless the entry was shifted onto an hour where a current reading of its kind sits.
   */
  lemma ValueTracesIff(p: Payload, policy: Policy, h: int, c: Column)
    requires (IsPollution(c) || IsWeather(c)) && TrueShift(p, policy, h, c).Some?
    ensures var kind := KindOf(c);
            var shift := TrueShift(p, policy, h, c).value;
            var b := At(AllBuckets(p, policy), h);
            var traces := shift == 0 || !CurrentAt(p, policy, kind, h);
            && (RecordedShift(b, kind) == Some(shift) <==> traces)
            && (RecordedHour(b, kind) == Some(NormHour(h) - shift * HOUR) <==> traces)
  {
    var kind := KindOf(c);
    assert OfKind(kind, c);
    hide AllBuckets, Start, At, NormHour, Anchor, CurrentAt, SomeLanding, LastLanding, IsPollution, IsWeather;
    hide RecordedShift, RecordedHour, CurrentTime, OfKind;
    if c in At(Start(p, policy), h).vals { StartValues(p, policy, kind, h, c); }
    LandingIsSome(History(p, kind), Anchor(p), kind, policy, h, c);
    LandingOnHour(History(p, kind), Anchor(p), kind, policy, h);
    RecordedIs(p, policy, kind, h);
  }

  lemma {:induction false} LandingOnHour(entries: seq<Option<Entry>>, anchor: Option<int>, kind: Kind, policy: Policy,
                                         h: int)
    ensures SomeLanding(entries, anchor, kind, policy, h) ==> NormHour(h) == h
  {
    hide IsOverlap, NormHour;
    if entries != [] {
      var n := |entries| - 1;
      LandingOnHour(entries[..n], anchor, kind, policy, h);
      if Timed(entries[n]) { TemporalProvenance.ShiftedHour(entries[n].value.ts.value, Shift(policy, kind)); }
    }
  }

  /**
   Under the registered policies every value traces back, except city weather from history on the hour where current
   weather sits off the anchor.
   */
  lemma RegisteredTracesIff(p: Payload, policy: Policy, h: int, c: Column)
    requires policy == STATION_V1 || policy == CITY_V1
    requires (IsPollution(c) || IsWeather(c)) && TrueShift(p, policy, h, c).Some?
    ensures var b := At(AllBuckets(p, policy), h);
            var shift := TrueShift(p, policy, h, c).value;
            RecordedShift(b, KindOf(c)) == Some(shift) && RecordedHour(b, KindOf(c)) == Some(NormHour(h) - shift * HOUR)
            <==> !(policy == CITY_V1 && IsWeather(c) && shift != 0 && CurrentAt(p, policy, Weather, h))
  {
    hide AllBuckets, NormHour, Start, RecordedShift, RecordedHour, LastLanding, Anchor, CurrentWeatherTs, IsPollution,
      IsWeather;
    ValueTracesIff(p, policy, h, c);
    OneKind(c);
    if IsPollution(c) && Anchor(p) == Some(h) {
      NoLanding(p.pollution, p, Pollution, policy, h, c);
    }
  }

  /** Where a current reading sits, its own timestamp is what the row names, whatever history lands there. */
  lemma CurrentIsRecorded(p: Payload, policy: Policy, kind: Kind, h: int)
    requires CurrentAt(p, policy, kind, h)
    ensures var b := At(AllBuckets(p, policy), h);
            && RecordedShift(b, kind) == Some(0) && RecordedHour(b, kind) == Some(NormHour(h))
            && Get(b.srcTs, StreamOf(kind)) == CurrentTime(p, kind)
  {
    hide AllBuckets, CurrentAt, SomeLanding, RecordedShift, RecordedHour, CurrentTime;
    RecordedIs(p, policy, kind, h);
  }

  /** Pollution at 08:00, current humidity 50 at 09:00, and humidity 40 in the history entry of 08:00. */
  function LateWeather(): Payload {
    Payload(Some(Entry(Some(8 * HOUR), map[])), Some(Entry(Some(9 * HOUR), map[Humidity := Number(Finite(50.0))])),
            [], [Some(Entry(Some(8 * HOUR), map[Humidity := Number(Finite(40.0))]))])
  }

  /** The 40 is shifted onto 09:00 and replaces the 50, yet the row names 09:00, unshifted and unmarked. */
  lemma CityWeatherIsMisnamed()
    ensures var p := LateWeather();
            var b := At(AllBuckets(p, CITY_V1), 9 * HOUR);
            && Get(b.vals, Humidity) == Some(Number(Finite(40.0))) && Humidity !in b.filled
            && TrueShift(p, CITY_V1, 9 * HOUR, Humidity) == Some(1)
            && RecordedShift(b, Weather) == Some(0) && RecordedHour(b, Weather) == Some(9 * HOUR)
            && TemporalProvenance.AllReversible(AllBuckets(p, CITY_V1))
  {
    var p, h := LateWeather(), 9 * HOUR;
    assert NormHour(8 * HOUR) == 8 * HOUR && NormHour(h) == h;
    assert p.weather[..0] == [];
    assert Lands(p.weather[0], Anchor(p), Weather, CITY_V1, h);
    assert LastLanding(p.weather, Anchor(p), Weather, CITY_V1, h, Humidity) == Some(Number(Finite(40.0)));
    assert CurrentAt(p, CITY_V1, Weather, h) && Anchor(p) == Some(8 * HOUR);
    assert History(p, KindOf(Humidity)) == p.weather && KindOf(Humidity) == Weather;
    hide NormHour, AllBuckets, LastLanding, Lands, LateWeather, TemporalProvenance.AllReversible, Start, RecordedShift,
      RecordedHour;
    TemporalProvenance.ShiftIsReversible(p, CITY_V1);
    ColumnMeaning(p, CITY_V1, h, Humidity);
    RegisteredAreRegular();
    FilledMarksFilled(p, CITY_V1, h, Humidity);
    CurrentIsRecorded(p, CITY_V1, Weather, h);
  }

  // ---------------------------------------------------------------- overlap values

  /** A value that only the overlap gave names an overlap entry; with a one-hour overlap, the hour before. */
  lemma OverlapTraces(p: Payload, policy: Policy, h: int, c: Column)
    requires (IsPollution(c) || IsWeather(c)) && TrueShift(p, policy, h, c).None?
    requires c in At(AllBuckets(p, policy), h).vals
    ensures var kind := KindOf(c);
            var b := At(AllBuckets(p, policy), h);
            && Anchor(p) == Some(h) && OverlapStreamOf(kind) in b.srcTs
            && Overlaps(policy, Some(h), kind, b.srcTs[OverlapStreamOf(kind)])
            && (OneHourOverlap(policy, kind) ==> b.srcTs[OverlapStreamOf(kind)] + HOUR == h)
  {
    OnlyOverlap(p, policy, h, c);
    var kind := KindOf(c);
    var start := Start(p, policy);
    var middle := AddAll(start, Anchor(p), p.pollution, Pollution, policy);
    StartOverlapSources(p, policy, h);
    TemporalProvenance.AnchorOnHour(p);
    hide AddAll, Start, At, NormHour, IsPollution, IsWeather, LastLanding, OverlapSource, FirstOverlap, Overlaps;
    OverlapAll(start, Anchor(p), p.pollution, Pollution, policy, h, c);
    OverlapAll(middle, Anchor(p), p.weather, Weather, policy, h, c);
    OverlapNames(At(AllBuckets(p, policy), h), policy, kind, h);
  }

  lemma OnlyOverlap(p: Payload, policy: Policy, h: int, c: Column)
    requires (IsPollution(c) || IsWeather(c)) && TrueShift(p, policy, h, c).None?
    requires c in At(AllBuckets(p, policy), h).vals
    ensures Anchor(p) == Some(h) && !policy.skipOverlap
    ensures FirstOverlap(History(p, KindOf(c)), Anchor(p), KindOf(c), policy, c).Some?
  {
    hide AllBuckets, Start, At, LastLanding, FirstOverlap, Anchor, IsPollution, IsWeather;
    ColumnMeaning(p, policy, h, c);
  }

  lemma OverlapNames(b: Bucket, policy: Policy, kind: Kind, h: int)
    requires OverlapSource(b, policy, kind, h) && OverlapStreamOf(kind) in b.srcTs && NormHour(h) == h
    ensures Overlaps(policy, Some(h), kind, b.srcTs[OverlapStreamOf(kind)])
    ensures OneHourOverlap(policy, kind) ==> b.srcTs[OverlapStreamOf(kind)] + HOUR == h
  {
  }

  predicate OverlapSource(b: Bucket, policy: Policy, kind: Kind, h: int) {
    OverlapStreamOf(kind) in b.srcTs ==>
      && Overlaps(policy, Some(h), kind, b.srcTs[OverlapStreamOf(kind)])
      && NormHour(b.srcTs[OverlapStreamOf(kind)]) == b.srcTs[OverlapStreamOf(kind)]
  }

  lemma StartOverlapSources(p: Payload, policy: Policy, h: int)
    ensures OverlapSource(At(Start(p, policy), h), policy, Pollution, h)
    ensures OverlapSource(At(Start(p, policy), h), policy, Weather, h)
  {
  }

  lemma OverlapStep(bs: Buckets, anchor: Option<int>, entry: Option<Entry>, kind: Kind, policy: Policy, h: int,
                    other: Kind)
    requires OverlapSource(At(bs, h), policy, other, h)
    ensures var now := At(AddEntry(bs, anchor, entry, kind, policy), h);
            && OverlapSource(now, policy, other, h)
            && (OverlapStreamOf(other) in At(bs, h).srcTs ==> OverlapStreamOf(other) in now.srcTs)
            && (other == kind && anchor == Some(h) && !policy.skipOverlap && IsOverlap(entry, anchor, kind, policy) ==>
                  OverlapStreamOf(kind) in now.srcTs)
  {
    hide NormHour, FieldsOf;
    if Timed(entry) { TemporalProvenance.NormHourOfHour(entry.value.ts.value); }
  }

  lemma {:induction false} OverlapAll(bs: Buckets, anchor: Option<int>, entries: seq<Option<Entry>>, kind: Kind,
                                      policy: Policy, h: int, c: Column)
    requires OverlapSource(At(bs, h), policy, Pollution, h) && OverlapSource(At(bs, h), policy, Weather, h)
    ensures var now := At(AddAll(bs, anchor, entries, kind, policy), h);
            && OverlapSource(now, policy, Pollution, h) && OverlapSource(now, policy, Weather, h)
            && (POverlap in At(bs, h).srcTs ==> POverlap in now.srcTs)
            && (anchor == Some(h) && !policy.skipOverlap && FirstOverlap(entries, anchor, kind, policy, c).Some? ==>
                  OverlapStreamOf(kind) in now.srcTs)
  {
    hide AddEntry, At, OverlapSource, IsOverlap, Supply;
    if entries != [] {
      var n := |entries| - 1;
      OverlapAll(bs, anchor, entries[..n], kind, policy, h, c);
      var was := AddAll(bs, anchor, entries[..n], kind, policy);
      OverlapStep(was, anchor, entries[n], kind, policy, h, Pollution);
      OverlapStep(was, anchor, entries[n], kind, policy, h, Weather);
    }
  }
}
