/** What the extracted rows mean: which entry each value comes from, and how to reverse the shift. */
module TemporalTheorems {
  import opened Prelude
  import opened Columns
  import opened Readings
  import opened Temporal

  // ---------------------------------------------------------------- where each value comes from

  predicate Timed(entry: Option<Entry>) {
    entry.Some? && entry.value.ts.Some?
  }

  predicate IsOverlap(entry: Option<Entry>, anchor: Option<int>, kind: Kind, policy: Policy) {
    Timed(entry) && Overlaps(policy, anchor, kind, NormHour(entry.value.ts.value))
  }

  /** The entry is shifted into hour `h`. */
  predicate Lands(entry: Option<Entry>, anchor: Option<int>, kind: Kind, policy: Policy, h: int) {
    && Timed(entry) && !IsOverlap(entry, anchor, kind, policy)
    && NormHour(entry.value.ts.value) + Shift(policy, kind) * HOUR == h
  }

  /** What an entry supplies for column `c`. */
  function Supply(entry: Option<Entry>, kind: Kind, c: Column): Option<Value> {
    if entry.Some? && OfKind(kind, c) then Get(entry.value.fields, c) else None
  }

  /** The last non-null value among the entries shifted into hour `h`. */
  function LastLanding(entries: seq<Option<Entry>>, anchor: Option<int>, kind: Kind, policy: Policy, h: int, c: Column)
    : Option<Value>
  {
    if entries == [] then None
    else
      var n := |entries| - 1;
      if Lands(entries[n], anchor, kind, policy, h) && Supply(entries[n], kind, c).Some?
      then Supply(entries[n], kind, c)
      else LastLanding(entries[..n], anchor, kind, policy, h, c)
  }

  /** The first non-null value among the overlap entries. */
  function FirstOverlap(entries: seq<Option<Entry>>, anchor: Option<int>, kind: Kind, policy: Policy, c: Column)
    : Option<Value>
  {
    if entries == [] then None
    else
      var n := |entries| - 1;
      var first := FirstOverlap(entries[..n], anchor, kind, policy, c);
      if first.None? && IsOverlap(entries[n], anchor, kind, policy) then Supply(entries[n], kind, c) else first
  }

  /** History beats what was there, what was there beats an overlap entry, and overlaps fill only the anchor hour. */
  function Meaning(start: Option<Value>, entries: seq<Option<Entry>>, anchor: Option<int>, kind: Kind, policy: Policy,
                   h: int, c: Column): Option<Value>
  {
    var last := LastLanding(entries, anchor, kind, policy, h, c);
    if last.Some? then last
    else if start.Some? then start
    else if anchor == Some(h) && !policy.skipOverlap then FirstOverlap(entries, anchor, kind, policy, c)
    else None
  }

  lemma {:induction false} AddAllMeaning(bs: Buckets, anchor: Option<int>, entries: seq<Option<Entry>>, kind: Kind,
                                         policy: Policy, h: int, c: Column)
    ensures Get(At(AddAll(bs, anchor, entries, kind, policy), h).vals, c)
            == if OfKind(kind, c) then Meaning(Get(At(bs, h).vals, c), entries, anchor, kind, policy, h, c)
               else Get(At(bs, h).vals, c)
  {
    hide OfKind, AddEntry, IsOverlap, Lands, Supply, At;
    if entries != [] {
      var n := |entries| - 1;
      AddAllMeaning(bs, anchor, entries[..n], kind, policy, h, c);
      AddEntryColumn(AddAll(bs, anchor, entries[..n], kind, policy), anchor, entries[n], kind, policy, h, c);
      LandsOrOverlaps(entries[n], anchor, kind, policy, h);
    }
  }

  /** One history entry's effect on one column of one hour. */
  lemma AddEntryColumn(bs: Buckets, anchor: Option<int>, entry: Option<Entry>, kind: Kind, policy: Policy, h: int,
                       c: Column)
    ensures var now := Get(At(AddEntry(bs, anchor, entry, kind, policy), h).vals, c);
            var was := Get(At(bs, h).vals, c);
            var v := Supply(entry, kind, c);
            now == if Lands(entry, anchor, kind, policy, h) then (if v.Some? then v else was)
                   else if IsOverlap(entry, anchor, kind, policy) && !policy.skipOverlap && anchor == Some(h)
                   then (if was.Some? then was else v)
                   else was
    ensures Supply(entry, kind, c).Some? ==> OfKind(kind, c)
  {
    hide OfKind, AddEntry, IsOverlap, Lands, FieldsOf, At;
    AddEntryBucket(bs, anchor, entry, kind, policy, h);
    LandsOrOverlaps(entry, anchor, kind, policy, h);
    if entry.Some? { FieldsAre(entry.value, kind, c); }
  }

  /** One history entry's effect on one hour. */
  lemma AddEntryBucket(bs: Buckets, anchor: Option<int>, entry: Option<Entry>, kind: Kind, policy: Policy, h: int)
    ensures var now := At(AddEntry(bs, anchor, entry, kind, policy), h);
            var was := At(bs, h);
            if Lands(entry, anchor, kind, policy, h)
            then now.vals == was.vals + FieldsOf(entry.value, kind) && now.filled == was.filled
            else if IsOverlap(entry, anchor, kind, policy) && !policy.skipOverlap && anchor == Some(h)
            then now.vals == FieldsOf(entry.value, kind) + was.vals
                 && now.filled == was.filled + (FieldsOf(entry.value, kind).Keys - was.vals.Keys)
            else now.vals == was.vals && now.filled == was.filled
  {
    hide FieldsOf, NormHour, SetDefault;
  }

  lemma LandsOrOverlaps(entry: Option<Entry>, anchor: Option<int>, kind: Kind, policy: Policy, h: int)
    ensures Lands(entry, anchor, kind, policy, h) ==> entry.Some? && !IsOverlap(entry, anchor, kind, policy)
    ensures IsOverlap(entry, anchor, kind, policy) ==> entry.Some?
  {
  }

  lemma FieldsAre(e: Entry, kind: Kind, c: Column)
    ensures Get(FieldsOf(e, kind), c) == if OfKind(kind, c) then Get(e.fields, c) else None
  {
  }

  function KindOf(c: Column): Kind {
    if IsPollution(c) then Pollution else Weather
  }

  function History(p: Payload, kind: Kind): seq<Option<Entry>> {
    if kind.Pollution? then p.pollution else p.weather
  }

  /** For every payload and policy, each measured column of each hour is what `Meaning` says. */
  lemma ColumnMeaning(p: Payload, policy: Policy, h: int, c: Column)
    requires IsPollution(c) || IsWeather(c)
    ensures var kind := KindOf(c);
            Get(At(AllBuckets(p, policy), h).vals, c)
            == Meaning(Get(At(Start(p, policy), h).vals, c), History(p, kind), Anchor(p), kind, policy, h, c)
  {
    hide Meaning, Start, AddAll, Anchor;
    var bs := AddAll(Start(p, policy), Anchor(p), p.pollution, Pollution, policy);
    AddAllMeaning(Start(p, policy), Anchor(p), p.pollution, Pollution, policy, h, c);
    AddAllMeaning(bs, Anchor(p), p.weather, Weather, policy, h, c);
  }

  // ---------------------------------------------------------------- the anchor hour

  /** The policies in use shift pollution by one hour and recognise the overlap within less than an hour. */
  predicate OneHourOverlap(policy: Policy, kind: Kind) {
    Shift(policy, kind) == 1 && 0 <= policy.toleranceMin < 60
  }

  /** Then the overlap is the hour before the anchor, so nothing is ever shifted into the anchor hour. */
  lemma NothingLandsOnAnchor(entry: Option<Entry>, p: Payload, kind: Kind, policy: Policy, h: int)
    requires OneHourOverlap(policy, kind) && Anchor(p) == Some(h)
    ensures !Lands(entry, Anchor(p), kind, policy, h)
    ensures Timed(entry) ==> (IsOverlap(entry, Anchor(p), kind, policy) <==> NormHour(entry.value.ts.value) + HOUR == h)
  {
    if Timed(entry) {
      var hour := NormHour(entry.value.ts.value);
      var k: int :| hour == k * HOUR by { assert hour == (hour / HOUR) * HOUR; }
      var j: int :| h == j * HOUR by { assert h == (h / HOUR) * HOUR; }
      assert h - hour - HOUR == (j - k - 1) * HOUR;
      if j - k - 1 >= 1 { assert (j - k - 1) * HOUR >= HOUR; }
      if j - k - 1 <= -1 { assert (j - k - 1) * HOUR <= -HOUR; }
    }
  }

  lemma {:induction false} NoLanding(entries: seq<Option<Entry>>, p: Payload, kind: Kind, policy: Policy, h: int,
                                     c: Column)
    requires OneHourOverlap(policy, kind) && Anchor(p) == Some(h)
    ensures LastLanding(entries, Anchor(p), kind, policy, h, c) == None
  {
    if entries != [] {
      NoLanding(entries[..|entries| - 1], p, kind, policy, h, c);
      NothingLandsOnAnchor(entries[|entries| - 1], p, kind, policy, h);
    }
  }

  /** At the anchor hour the current value wins and the first overlap value fills what is left empty. */
  lemma CurrentWins(p: Payload, policy: Policy, h: int, c: Column)
    requires IsPollution(c) || IsWeather(c)
    requires OneHourOverlap(policy, KindOf(c)) && !policy.skipOverlap && Anchor(p) == Some(h)
    ensures var current := Get(At(Start(p, policy), h).vals, c);
            Get(At(AllBuckets(p, policy), h).vals, c)
            == if current.Some? then current else FirstOverlap(History(p, KindOf(c)), Anchor(p), KindOf(c), policy, c)
  {
    hide Start, LastLanding, FirstOverlap, Anchor;
    ColumnMeaning(p, policy, h, c);
    NoLanding(History(p, KindOf(c)), p, KindOf(c), policy, h, c);
  }

  /** The pollution value of the anchor hour before history: exactly what the current reading carries. */
  lemma AnchorStart(p: Payload, policy: Policy, h: int, c: Column)
    requires Anchor(p) == Some(h) && IsPollution(c)
    ensures Get(At(Start(p, policy), h).vals, c) == Get(p.currentPollution.value.fields, c)
  {
    assert !IsWeather(c);
  }

  /** The weather value before history at the hour of current weather; without a timestamp that is the anchor hour. */
  lemma WeatherStart(p: Payload, policy: Policy, h: int, c: Column)
    requires IsWeather(c) && p.currentWeather.Some?
    requires var ts := if p.currentWeather.value.ts.Some? then p.currentWeather.value.ts else Anchor(p);
             ts.Some? && h == if policy.floorToHour then NormHour(ts.value) else ts.value
    ensures Get(At(Start(p, policy), h).vals, c) == Get(p.currentWeather.value.fields, c)
  {
    hide NormHour, SetDefault;
    assert !IsPollution(c);
  }

  /** Under the station policy a history weather entry of the same hour beats current weather. */
  lemma StationHistoryWeatherWins(p: Payload, h: int, c: Column, i: int)
    requires IsWeather(c) && 0 <= i < |p.weather| && Timed(p.weather[i])
    requires NormHour(p.weather[i].value.ts.value) == h && c in p.weather[i].value.fields
    requires forall j :: i < j < |p.weather| && Timed(p.weather[j]) && NormHour(p.weather[j].value.ts.value) == h ==>
               c !in p.weather[j].value.fields
    ensures Get(At(AllBuckets(p, STATION_V1), h).vals, c) == Some(p.weather[i].value.fields[c])
  {
    ColumnMeaning(p, STATION_V1, h, c);
    LastLandingAt(p.weather, Anchor(p), STATION_V1, h, c, i);
  }

  lemma {:induction false} LastLandingAt(entries: seq<Option<Entry>>, anchor: Option<int>, policy: Policy, h: int,
                                         c: Column, i: int)
    requires IsWeather(c) && policy.weatherShift == 0 && 0 <= i < |entries| && Timed(entries[i])
    requires NormHour(entries[i].value.ts.value) == h && c in entries[i].value.fields
    requires forall j :: i < j < |entries| && Timed(entries[j]) && NormHour(entries[j].value.ts.value) == h ==>
               c !in entries[j].value.fields
    ensures LastLanding(entries, anchor, Weather, policy, h, c) == Some(entries[i].value.fields[c])
  {
    var n := |entries| - 1;
    if i < n {
      LastLandingAt(entries[..n], anchor, policy, h, c, i);
    }
  }

  // ---------------------------------------------------------------- which fields came from history

  lemma AddEntryFilled(bs: Buckets, anchor: Option<int>, entry: Option<Entry>, kind: Kind, policy: Policy, h: int,
                       c: Column)
    ensures c in At(AddEntry(bs, anchor, entry, kind, policy), h).filled <==>
            c in At(bs, h).filled
            || (IsOverlap(entry, anchor, kind, policy) && !policy.skipOverlap && anchor == Some(h)
                && Supply(entry, kind, c).Some? && c !in At(bs, h).vals)
    ensures Supply(entry, kind, c).Some? ==> OfKind(kind, c)
  {
    hide OfKind, AddEntry, IsOverlap, Lands, FieldsOf, At;
    AddEntryBucket(bs, anchor, entry, kind, policy, h);
    LandsOrOverlaps(entry, anchor, kind, policy, h);
    if entry.Some? { FieldsAre(entry.value, kind, c); }
  }

  /** When nothing lands on the anchor hour, `filled` gains exactly the empty fields an overlap entry supplies. */
  lemma {:induction false} FilledExactly(bs: Buckets, p: Payload, entries: seq<Option<Entry>>, kind: Kind,
                                         policy: Policy,
                                         h: int, c: Column)
    requires OneHourOverlap(policy, kind) && !policy.skipOverlap && Anchor(p) == Some(h)
    ensures c in At(AddAll(bs, Anchor(p), entries, kind, policy), h).filled <==>
            c in At(bs, h).filled
            || (OfKind(kind, c) && c !in At(bs, h).vals && FirstOverlap(entries, Anchor(p), kind, policy, c).Some?)
  {
    hide OfKind, NormHour, Overlaps, SetDefault, Anchor, AddEntry, FieldsOf, IsOverlap, Lands, LastLanding, Supply, At;
    if entries != [] {
      var n := |entries| - 1;
      FilledExactly(bs, p, entries[..n], kind, policy, h, c);
      AddEntryFilled(AddAll(bs, Anchor(p), entries[..n], kind, policy), Anchor(p), entries[n], kind, policy, h, c);
      NothingLandsOnAnchor(entries[n], p, kind, policy, h);
      AddAllMeaning(bs, Anchor(p), entries[..n], kind, policy, h, c);
      NoLanding(entries[..n], p, kind, policy, h, c);
    }
  }

  /** The overlap either is the hour before the anchor or, when the kind is not shifted, does not exist. */
  predicate OverlapFills(policy: Policy, kind: Kind) {
    OneHourOverlap(policy, kind) || (kind == Weather && policy.weatherShift == 0)
  }

  /** What both registered policies satisfy. */
  predicate Regular(policy: Policy) {
    OverlapFills(policy, Pollution) && OverlapFills(policy, Weather)
  }

  lemma RegisteredAreRegular()
    ensures Regular(STATION_V1) && Regular(CITY_V1)
  {
  }

  /** A field, pollution or weather, that is empty at the anchor hour before history and that an overlap supplies. */
  predicate FilledFromOverlap(p: Payload, policy: Policy, h: int, c: Column) {
    && (IsPollution(c) || IsWeather(c))
    && Anchor(p) == Some(h) && !policy.skipOverlap && c !in At(Start(p, policy), h).vals
    && FirstOverlap(History(p, KindOf(c)), Anchor(p), KindOf(c), policy, c).Some?
  }

  /** The marks of every hour are exactly those fields: none at other hours, none for other columns. */
  lemma FilledMarksFilled(p: Payload, policy: Policy, h: int, c: Column)
    requires Regular(policy)
    ensures c in At(AllBuckets(p, policy), h).filled <==> FilledFromOverlap(p, policy, h, c)
  {
    hide FirstOverlap, AddAll, Anchor, Start, At, OverlapFills;
    var start := Start(p, policy);
    var middle := AddAll(start, Anchor(p), p.pollution, Pollution, policy);
    StartFillsNothing(p, policy, h);
    AddAllMeaning(start, Anchor(p), p.pollution, Pollution, policy, h, c);
    if IsPollution(c) {
      FilledOtherKind(middle, Anchor(p), p.weather, Weather, policy, h, c);
      FilledAt(start, p, p.pollution, Pollution, policy, h, c);
    } else {
      FilledOtherKind(start, Anchor(p), p.pollution, Pollution, policy, h, c);
      if IsWeather(c) {
        FilledAt(middle, p, p.weather, Weather, policy, h, c);
      } else {
        FilledOtherKind(middle, Anchor(p), p.weather, Weather, policy, h, c);
      }
    }
  }

  /** So `prov.from` of every emitted row names exactly the fields of that row which the overlap filled. */
  lemma ProvFromIsFilled(p: Payload, scope: Scope, policy: Policy, r: TimedReading)
    requires Regular(policy) && r in Rows(p, scope, policy)
    ensures r.raw.Some? && "prov" in r.raw.value && r.raw.value["prov"].ProvDoc?
    ensures forall c :: c in r.raw.value["prov"].prov.filledFromHistory <==> FilledFromOverlap(p, policy, r.ts.value, c)
  {
    RowIsBucket(p, scope, policy, r);
    hide AllBuckets, FilledFromOverlap, Rows, At, Regular;
    forall c { FilledMarksFilled(p, policy, r.ts.value, c); }
  }

  lemma RowIsBucket(p: Payload, scope: Scope, policy: Policy, r: TimedReading)
    requires r in Rows(p, scope, policy)
    ensures r == RowOf(scope, r.ts.value, At(AllBuckets(p, policy), r.ts.value), policy)
  {
    hide AllBuckets, UnitsFor;
    var rows := Rows(p, scope, policy);
    var i :| 0 <= i < |rows| && rows[i] == r;
  }

  lemma StartFillsNothing(p: Payload, policy: Policy, h: int)
    ensures At(Start(p, policy), h).filled == {}
  {
  }

  /** What one history list adds to the marks of an hour. */
  lemma FilledAt(bs: Buckets, p: Payload, entries: seq<Option<Entry>>, kind: Kind, policy: Policy, h: int, c: Column)
    requires OverlapFills(policy, kind)
    ensures c in At(AddAll(bs, Anchor(p), entries, kind, policy), h).filled <==>
            c in At(bs, h).filled
            || (Anchor(p) == Some(h) && !policy.skipOverlap && OfKind(kind, c) && c !in At(bs, h).vals
                && FirstOverlap(entries, Anchor(p), kind, policy, c).Some?)
  {
    hide AddAll, FirstOverlap, At, Anchor, OfKind;
    if OneHourOverlap(policy, kind) && Anchor(p) == Some(h) && !policy.skipOverlap {
      FilledExactly(bs, p, entries, kind, policy, h, c);
    } else {
      FilledElsewhere(bs, Anchor(p), entries, kind, policy, h, c);
      if kind == Weather && policy.weatherShift == 0 {
        NoOverlap(entries, Anchor(p), policy, c);
      }
    }
  }

  lemma {:induction false} NoOverlap(entries: seq<Option<Entry>>, anchor: Option<int>, policy: Policy, c: Column)
    requires policy.weatherShift == 0
    ensures FirstOverlap(entries, anchor, Weather, policy, c) == None
  {
    if entries != [] {
      NoOverlap(entries[..|entries| - 1], anchor, policy, c);
    }
  }

  /** Nothing is marked off the anchor hour, under a policy that skips overlaps, or in an unshifted kind. */
  lemma {:induction false} FilledElsewhere(bs: Buckets, anchor: Option<int>, entries: seq<Option<Entry>>, kind: Kind,
                                           policy: Policy, h: int, c: Column)
    requires anchor != Some(h) || policy.skipOverlap || (kind == Weather && policy.weatherShift == 0)
    ensures c in At(AddAll(bs, anchor, entries, kind, policy), h).filled <==> c in At(bs, h).filled
  {
    hide AddEntry, Supply, At;
    if entries != [] {
      var n := |entries| - 1;
      FilledElsewhere(bs, anchor, entries[..n], kind, policy, h, c);
      AddEntryFilled(AddAll(bs, anchor, entries[..n], kind, policy), anchor, entries[n], kind, policy, h, c);
    }
  }

  lemma {:induction false} FilledOtherKind(bs: Buckets, anchor: Option<int>, entries: seq<Option<Entry>>, kind: Kind,
                                           policy: Policy, h: int, c: Column)
    requires !OfKind(kind, c)
    ensures c in At(AddAll(bs, anchor, entries, kind, policy), h).filled <==> c in At(bs, h).filled
  {
    hide AddEntry, Supply, At, OfKind, IsOverlap;
    if entries != [] {
      var n := |entries| - 1;
      FilledOtherKind(bs, anchor, entries[..n], kind, policy, h, c);
      AddEntryFilled(AddAll(bs, anchor, entries[..n], kind, policy), anchor, entries[n], kind, policy, h, c);
    }
  }
}
