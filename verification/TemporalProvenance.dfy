/** Provenance of the extracted rows: both overlap modes agree, and the shift can be reversed. */
module TemporalProvenance {
  import opened Prelude
  import opened Columns
  import opened Readings
  import opened Temporal
  import opened TemporalTheorems

  // ---------------------------------------------------------------- fill_current extends skip

  /** The same streams landed in the same hours with the same source and shift. */
  predicate SameStreams(a: Bucket, b: Bucket) {
    a.shiftHours == b.shiftHours && Get(a.srcTs, P) == Get(b.srcTs, P) && Get(a.srcTs, W) == Get(b.srcTs, W)
  }

  predicate SameHours(a: Buckets, b: Buckets) {
    a.Keys == b.Keys && forall h :: h in a ==> SameStreams(At(a, h), At(b, h))
  }

  lemma SameHoursStep(a: Buckets, b: Buckets, anchor: Option<int>, entry: Option<Entry>, kind: Kind, policy: Policy)
    requires !policy.skipOverlap && SameHours(a, b) && (anchor.Some? ==> anchor.value in a)
    ensures var a' := AddEntry(a, anchor, entry, kind, policy.(skipOverlap := true));
            SameHours(a', AddEntry(b, anchor, entry, kind, policy)) && (anchor.Some? ==> anchor.value in a')
  {
    hide NormHour, FieldsOf;
    forall h ensures h in a <==> h in b {}
  }

  lemma {:induction false} SameHoursAll(a: Buckets, b: Buckets, anchor: Option<int>, entries: seq<Option<Entry>>,
                                        kind: Kind, policy: Policy)
    requires !policy.skipOverlap && SameHours(a, b) && (anchor.Some? ==> anchor.value in a)
    ensures var a' := AddAll(a, anchor, entries, kind, policy.(skipOverlap := true));
            SameHours(a', AddAll(b, anchor, entries, kind, policy)) && (anchor.Some? ==> anchor.value in a')
  {
    hide SameHours, AddEntry;
    if entries != [] {
      var n := |entries| - 1;
      SameHoursAll(a, b, anchor, entries[..n], kind, policy);
      SameHoursStep(AddAll(a, anchor, entries[..n], kind, policy.(skipOverlap := true)),
                    AddAll(b, anchor, entries[..n], kind, policy), anchor, entries[n], kind, policy);
    }
  }

  lemma {:induction false} SameLandings(entries: seq<Option<Entry>>, anchor: Option<int>, kind: Kind, policy: Policy,
                                        skip: Policy, h: int, c: Column)
    requires skip == policy.(skipOverlap := true)
    ensures LastLanding(entries, anchor, kind, skip, h, c) == LastLanding(entries, anchor, kind, policy, h, c)
  {
    if entries != [] {
      SameLandings(entries[..|entries| - 1], anchor, kind, policy, skip, h, c);
    }
  }

  /** Filling from the overlap adds no hour and changes no source or shift that skipping it would have recorded. */
  lemma FillKeepsHours(p: Payload, policy: Policy)
    requires !policy.skipOverlap
    ensures SameHours(AllBuckets(p, policy.(skipOverlap := true)), AllBuckets(p, policy))
  {
    hide AddAll, Anchor;
    var skip := policy.(skipOverlap := true);
    StartHasAnchor(p, policy);
    assert Start(p, skip) == Start(p, policy);
    hide Start;
    SameHoursAll(Start(p, skip), Start(p, policy), Anchor(p), p.pollution, Pollution, policy);
    SameHoursAll(AddAll(Start(p, skip), Anchor(p), p.pollution, Pollution, skip),
                 AddAll(Start(p, policy), Anchor(p), p.pollution, Pollution, policy),
                 Anchor(p), p.weather, Weather, policy);
  }

  /** Filling from the overlap keeps every value that skipping it would have produced. */
  lemma FillExtendsSkip(p: Payload, policy: Policy, h: int, c: Column)
    requires !policy.skipOverlap && (IsPollution(c) || IsWeather(c))
    ensures var skip := policy.(skipOverlap := true);
            c in At(AllBuckets(p, skip), h).vals ==>
              Get(At(AllBuckets(p, policy), h).vals, c) == Some(At(AllBuckets(p, skip), h).vals[c])
  {
    hide LastLanding, FirstOverlap, AllBuckets, Anchor, At;
    var skip := policy.(skipOverlap := true);
    assert Start(p, skip) == Start(p, policy);
    hide Start;
    ColumnMeaning(p, policy, h, c);
    ColumnMeaning(p, skip, h, c);
    SameLandings(History(p, KindOf(c)), Anchor(p), KindOf(c), policy, skip, h, c);
  }

  lemma StartHasAnchor(p: Payload, policy: Policy)
    ensures Anchor(p).Some? ==> Anchor(p).value in Start(p, policy)
  {
  }

  // ---------------------------------------------------------------- source hours and shifts agree

  /** p and w each carry a source and a shift together, and source hour plus shift is the hour of the row. */
  predicate Reversible(b: Bucket, h: int) {
    && (forall s :: s in b.shiftHours ==> s == P || s == W)
    && (forall s :: s == P || s == W ==> (s in b.srcTs <==> s in b.shiftHours))
    && (forall s :: s in b.shiftHours ==> NormHour(b.srcTs[s]) + b.shiftHours[s] * HOUR == h)
  }

  predicate AllReversible(bs: Buckets) {
    forall h :: h in bs ==> Reversible(bs[h], h)
  }

  lemma NormHourOfHour(t: int)
    ensures NormHour(NormHour(t)) == NormHour(t)
  {
  }

  lemma ReversibleStep(bs: Buckets, anchor: Option<int>, entry: Option<Entry>, kind: Kind, policy: Policy)
    requires AllReversible(bs)
    ensures AllReversible(AddEntry(bs, anchor, entry, kind, policy))
  {
    hide FieldsOf, Overlaps, NormHour, Reversible;
    if Timed(entry) {
      var hour := NormHour(entry.value.ts.value);
      NormHourOfHour(entry.value.ts.value);
      var slot := hour + Shift(policy, kind) * HOUR;
      ReversibleBucket(At(bs, slot), slot, hour, StreamOf(kind), Shift(policy, kind), FieldsOf(entry.value, kind));
      if Overlaps(policy, anchor, kind, hour) && !policy.skipOverlap && IsOverlap(entry, anchor, kind, policy) {
        AnchorSome(entry, anchor, kind, policy);
        ReversibleOverlap(At(bs, anchor.value), anchor.value, hour, OverlapStreamOf(kind), FieldsOf(entry.value, kind));
      }
      EmptyReversible(slot);
      if anchor.Some? { EmptyReversible(anchor.value); }
    }
  }

  lemma EmptyReversible(h: int)
    ensures Reversible(EMPTY_BUCKET, h)
  {
  }

  lemma AnchorSome(entry: Option<Entry>, anchor: Option<int>, kind: Kind, policy: Policy)
    requires IsOverlap(entry, anchor, kind, policy)
    ensures anchor.Some?
  {
  }

  lemma ReversibleBucket(b: Bucket, h: int, hour: int, s: Stream, shift: int, fields: Vals)
    requires hour == NormHour(hour) && hour + shift * HOUR == h && (s == P || s == W)
    ensures var b' := Overwrite(b, fields);
            Reversible(b, h) ==>
            Reversible(b'.(srcTs := SetDefault(b'.srcTs, s, hour), shiftHours := SetDefault(b'.shiftHours, s, shift)),
                       h)
  {
    hide NormHour;
  }

  lemma ReversibleOverlap(b: Bucket, h: int, hour: int, s: Stream, fields: Vals)
    requires s == POverlap || s == WOverlap
    ensures var b' := Fill(b, fields);
            Reversible(b, h) ==> Reversible(b'.(srcTs := SetDefault(b'.srcTs, s, hour)), h)
  {
    hide NormHour;
  }

  lemma {:induction false} ReversibleAll(bs: Buckets, anchor: Option<int>, entries: seq<Option<Entry>>, kind: Kind,
                                         policy: Policy)
    requires AllReversible(bs)
    ensures AllReversible(AddAll(bs, anchor, entries, kind, policy))
  {
    hide AllReversible, AddEntry;
    if entries != [] {
      var n := |entries| - 1;
      ReversibleAll(bs, anchor, entries[..n], kind, policy);
      ReversibleStep(AddAll(bs, anchor, entries[..n], kind, policy), anchor, entries[n], kind, policy);
    }
  }

  /** Current weather is the only reading that can sit off the hour, and only when the policy does not floor. */
  predicate Aligned(p: Payload, policy: Policy) {
    policy.floorToHour || CurrentWeatherTs(p).None? || NormHour(CurrentWeatherTs(p).value) == CurrentWeatherTs(p).value
  }

  /** A bucket off the hour is out of reach of every history entry. */
  lemma {:induction false} OffHourUntouched(bs: Buckets, anchor: Option<int>, entries: seq<Option<Entry>>, kind: Kind,
                                            policy: Policy, h: int)
    requires NormHour(h) != h && (anchor.Some? ==> NormHour(anchor.value) == anchor.value)
    ensures Get(AddAll(bs, anchor, entries, kind, policy), h) == Get(bs, h)
  {
    if entries != [] {
      var n := |entries| - 1;
      OffHourUntouched(bs, anchor, entries[..n], kind, policy, h);
      OffHourStep(AddAll(bs, anchor, entries[..n], kind, policy), anchor, entries[n], kind, policy, h);
    }
  }

  lemma OffHourStep(bs: Buckets, anchor: Option<int>, entry: Option<Entry>, kind: Kind, policy: Policy, h: int)
    requires NormHour(h) != h && (anchor.Some? ==> NormHour(anchor.value) == anchor.value)
    ensures Get(AddEntry(bs, anchor, entry, kind, policy), h) == Get(bs, h)
  {
    hide FieldsOf, Overlaps, SetDefault;
    if Timed(entry) {
      if IsOverlap(entry, anchor, kind, policy) { AnchorSome(entry, anchor, kind, policy); }
      ShiftedHour(entry.value.ts.value, Shift(policy, kind));
    }
  }

  lemma ShiftedHour(t: int, shift: int)
    ensures NormHour(NormHour(t) + shift * HOUR) == NormHour(t) + shift * HOUR
  {
    assert (NormHour(t) + shift * HOUR) % HOUR == 0;
  }

  lemma AnchorOnHour(p: Payload)
    ensures Anchor(p).Some? ==> NormHour(Anchor(p).value) == Anchor(p).value
  {
  }

  lemma StartReversible(p: Payload, policy: Policy)
    ensures AllReversible(Start(p, policy)) <==> Aligned(p, policy)
    ensures !Aligned(p, policy) ==>
      var ts := CurrentWeatherTs(p).value; ts in Start(p, policy) && !Reversible(Start(p, policy)[ts], ts)
  {
    hide FieldsOf, NormHour;
    AnchorOnHour(p);
    var ts := CurrentWeatherTs(p);
    if ts.Some? {
      NormHourOfHour(ts.value);
      var b := Start(p, policy)[Slot(policy, ts.value)];
      assert W in b.shiftHours && b.shiftHours[W] == 0 && b.srcTs[W] == ts.value;
    }
  }

  /** Recorded sources and shifts agree with the hour of every row iff current weather is aligned. */
  lemma ShiftIsReversible(p: Payload, policy: Policy)
    ensures AllReversible(AllBuckets(p, policy)) <==> Aligned(p, policy)
  {
    hide Aligned, Start, AddAll, Reversible, Anchor, NormHour, CurrentWeatherTs;
    StartReversible(p, policy);
    if Aligned(p, policy) {
      ReversibleAll(Start(p, policy), Anchor(p), p.pollution, Pollution, policy);
      ReversibleAll(AddAll(Start(p, policy), Anchor(p), p.pollution, Pollution, policy), Anchor(p), p.weather, Weather,
                    policy);
    } else {
      MisalignedStays(p, policy);
    }
  }

  lemma MisalignedStays(p: Payload, policy: Policy)
    requires !Aligned(p, policy)
    ensures !AllReversible(AllBuckets(p, policy))
  {
    hide Start, AddAll, Reversible, Anchor;
    StartReversible(p, policy);
    AnchorOnHour(p);
    var ts := CurrentWeatherTs(p).value;
    OffHourUntouched(Start(p, policy), Anchor(p), p.pollution, Pollution, policy, ts);
    OffHourUntouched(AddAll(Start(p, policy), Anchor(p), p.pollution, Pollution, policy), Anchor(p), p.weather,
                     Weather, policy, ts);
    assert ts in AllBuckets(p, policy);
  }

  // ---------------------------------------------------------------- rows in order of time

  predicate OnHours(bs: Buckets) {
    forall h :: h in bs ==> NormHour(h) == h
  }

  lemma {:induction false} OnHoursAll(bs: Buckets, anchor: Option<int>, entries: seq<Option<Entry>>, kind: Kind,
                                      policy: Policy)
    requires OnHours(bs) && (anchor.Some? ==> NormHour(anchor.value) == anchor.value)
    ensures OnHours(AddAll(bs, anchor, entries, kind, policy))
  {
    hide AddEntry, NormHour;
    if entries != [] {
      var n := |entries| - 1;
      OnHoursAll(bs, anchor, entries[..n], kind, policy);
      var was := AddAll(bs, anchor, entries[..n], kind, policy);
      forall h | h in AddEntry(was, anchor, entries[n], kind, policy) ensures NormHour(h) == h {
        if NormHour(h) != h { OffHourStep(was, anchor, entries[n], kind, policy, h); }
      }
    }
  }

  predicate StrictlyLater(rows: seq<TimedReading>) {
    forall i, j :: 0 <= i < j < |rows| ==> rows[i].ts.value < rows[j].ts.value
  }

  /** The emitted rows are strictly increasing in time, all of one scope. */
  lemma RowsInOrder(p: Payload, scope: Scope, policy: Policy)
    ensures StrictlyLater(Rows(p, scope, policy))
    ensures forall r :: r in Rows(p, scope, policy) ==> r.scopeType == scope.scopeType && r.scopeKey == scope.scopeKey
  {
    hide AddAll, NormHour, Anchor;
  }

  /** They all lie on whole hours iff current weather is aligned. */
  lemma RowsOnHoursIff(p: Payload, scope: Scope, policy: Policy)
    ensures (forall r :: r in Rows(p, scope, policy) ==> NormHour(r.ts.value) == r.ts.value) <==> Aligned(p, policy)
  {
    var start := Start(p, policy);
    var middle := AddAll(start, Anchor(p), p.pollution, Pollution, policy);
    AnchorOnHour(p);
    if Aligned(p, policy) {
      StartOnHours(p, policy);
      hide AddAll, NormHour, Anchor, Start;
      OnHoursAll(start, Anchor(p), p.pollution, Pollution, policy);
      OnHoursAll(middle, Anchor(p), p.weather, Weather, policy);
    } else {
      var ts := CurrentWeatherTs(p).value;
      assert ts in start;
      hide AddAll, NormHour, Anchor, Start;
      OffHourUntouched(start, Anchor(p), p.pollution, Pollution, policy, ts);
      OffHourUntouched(middle, Anchor(p), p.weather, Weather, policy, ts);
      var bs := AllBuckets(p, policy);
      assert ts in bs && ts in Sorted(bs.Keys);
      var i :| 0 <= i < |Sorted(bs.Keys)| && Sorted(bs.Keys)[i] == ts;
      assert Rows(p, scope, policy)[i] in Rows(p, scope, policy);
    }
  }

  lemma StartOnHours(p: Payload, policy: Policy)
    requires Aligned(p, policy)
    ensures OnHours(Start(p, policy))
  {
    hide FieldsOf;
  }
}
