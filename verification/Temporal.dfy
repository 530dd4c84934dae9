/** Current and history entries of a provider payload become hourly rows under a policy (`temporal.py`). */
module Temporal {
  import opened Prelude
  import opened Columns
  import opened Readings

  datatype Policy = Policy(policyId: string, pollutionShift: int, weatherShift: int,
                           toleranceMin: int, skipOverlap: bool, floorToHour: bool)

  const STATION_V1: Policy := Policy("iqair_station_v1", 1, 0, 10, false, true)
  const CITY_V1: Policy := Policy("iqair_city_v1", 1, 1, 10, false, true)

  const MINUTE: int := 60_000_000

  /** One provider object: its parsed timestamp (None: missing or unparseable) and its non-null fields. */
  datatype Entry = Entry(ts: Option<int>, fields: Vals)

  /** `None` stands for a missing object, and in the history lists for an element that is not an object. */
  datatype Payload = Payload(currentPollution: Option<Entry>, currentWeather: Option<Entry>,
                             pollution: seq<Option<Entry>>, weather: seq<Option<Entry>>)

  datatype Kind = Pollution | Weather

  predicate OfKind(kind: Kind, c: Column) {
    if kind.Pollution? then IsPollution(c) else IsWeather(c)
  }

  function FieldsOf(e: Entry, kind: Kind): Vals {
    map c | c in e.fields && OfKind(kind, c) :: e.fields[c]
  }

  function StreamOf(kind: Kind): Stream {
    if kind.Pollution? then P else W
  }

  function OverlapStreamOf(kind: Kind): Stream {
    if kind.Pollution? then POverlap else WOverlap
  }

  function Shift(policy: Policy, kind: Kind): int {
    if kind.Pollution? then policy.pollutionShift else policy.weatherShift
  }

  // ---------------------------------------------------------------- buckets

  datatype Bucket = Bucket(vals: Vals, srcTs: map<Stream, int>, shiftHours: map<Stream, int>, filled: set<Column>)

  type Buckets = map<int, Bucket>

  const EMPTY_BUCKET: Bucket := Bucket(map[], map[], map[], {})

  function At(bs: Buckets, h: int): Bucket {
    if h in bs then bs[h] else EMPTY_BUCKET
  }

  function SetDefault<K, V>(m: map<K, V>, k: K, v: V): map<K, V> {
    if k in m then m else m[k := v]
  }

  /** merge(fill_only=False): every non-null field overwrites. */
  function Overwrite(b: Bucket, fields: Vals): Bucket {
    b.(vals := b.vals + fields)
  }

  /** merge(fill_only=True, mark_history=True): only empty fields are filled, and remembered. */
  function Fill(b: Bucket, fields: Vals): Bucket {
    b.(vals := fields + b.vals, filled := b.filled + (fields.Keys - b.vals.Keys))
  }

  function Slot(policy: Policy, t: int): int {
    if policy.floorToHour then NormHour(t) else t
  }

  /** The hour of the current pollution reading. */
  function Anchor(p: Payload): Option<int> {
    if p.currentPollution.Some? && p.currentPollution.value.ts.Some?
    then Some(NormHour(p.currentPollution.value.ts.value)) else None
  }

  function CurrentWeatherTs(p: Payload): Option<int> {
    if p.currentWeather.None? then None
    else if p.currentWeather.value.ts.Some? then p.currentWeather.value.ts
    else Anchor(p)
  }

  /** The buckets after the current readings. */
  function Start(p: Payload, policy: Policy): Buckets {
    var bs: Buckets :=
      if Anchor(p).None? then map[]
      else map[Anchor(p).value := Overwrite(EMPTY_BUCKET, FieldsOf(p.currentPollution.value, Pollution))
                                  .(srcTs := map[P := p.currentPollution.value.ts.value], shiftHours := map[P := 0])];
    var ts := CurrentWeatherTs(p);
    if ts.None? then bs
    else
      var h := Slot(policy, ts.value);
      var b := Overwrite(At(bs, h), FieldsOf(p.currentWeather.value, Weather));
      bs[h := b.(srcTs := SetDefault(b.srcTs, W, ts.value), shiftHours := SetDefault(b.shiftHours, W, 0))]
  }

  function AbsInt(x: int): int { if x < 0 then -x else x }

  /** Is `hour` the history label of the current hour? Weather overlaps only when it is shifted. */
  predicate Overlaps(policy: Policy, anchor: Option<int>, kind: Kind, hour: int) {
    && (kind.Weather? ==> policy.weatherShift != 0)
    && anchor.Some? && AbsInt(anchor.value - hour - HOUR) <= policy.toleranceMin * MINUTE
  }

  /** One history entry. */
  function AddEntry(bs: Buckets, anchor: Option<int>, entry: Option<Entry>, kind: Kind, policy: Policy): Buckets {
    if entry.None? || entry.value.ts.None? then bs
    else
      var hour := NormHour(entry.value.ts.value);
      var fields := FieldsOf(entry.value, kind);
      if Overlaps(policy, anchor, kind, hour) then
        if policy.skipOverlap then bs
        else
          var b := Fill(At(bs, anchor.value), fields);
          bs[anchor.value := b.(srcTs := SetDefault(b.srcTs, OverlapStreamOf(kind), hour))]
      else
        var slot := hour + Shift(policy, kind) * HOUR;
        var b := Overwrite(At(bs, slot), fields);
        bs[slot := b.(srcTs := SetDefault(b.srcTs, StreamOf(kind), hour),
                      shiftHours := SetDefault(b.shiftHours, StreamOf(kind), Shift(policy, kind)))]
  }

  function AddAll(bs: Buckets, anchor: Option<int>, entries: seq<Option<Entry>>, kind: Kind, policy: Policy): Buckets {
    if entries == [] then bs
    else
      var n := |entries| - 1;
      AddEntry(AddAll(bs, anchor, entries[..n], kind, policy), anchor, entries[n], kind, policy)
  }

  function AllBuckets(p: Payload, policy: Policy): Buckets {
    AddAll(AddAll(Start(p, policy), Anchor(p), p.pollution, Pollution, policy), Anchor(p), p.weather, Weather, policy)
  }

  // ---------------------------------------------------------------- emitted rows

  predicate IsMin(s: set<int>, m: int) {
    m in s && forall x :: x in s ==> m <= x
  }

  function MinOf(s: set<int>): (m: int)
    requires s != {}
    ensures IsMin(s, m)
  {
    MinExists(s);
    var m :| IsMin(s, m);
    m
  }

  lemma {:induction false} MinExists(s: set<int>)
    requires s != {}
    ensures exists m :: IsMin(s, m)
  {
    var y := Pick(s);
    assert forall x :: x in s ==> x == y || x in s - {y};
    if s - {y} == {} {
      assert IsMin(s, y);
    } else {
      MinExists(s - {y});
      var m :| IsMin(s - {y}, m);
      assert IsMin(s, if m <= y then m else y);
    }
  }

  function Sorted(s: set<int>): (ks: seq<int>)
    ensures forall x :: x in ks <==> x in s
    ensures forall i, j :: 0 <= i < j < |ks| ==> ks[i] < ks[j]
    decreases s
  {
    if s == {} then []
    else
      var m := MinOf(s);
      [m] + Sorted(s - {m})
  }

  datatype Scope = Scope(scopeType: string, scopeKey: string, provider: string, units: Vals)

  function UnitsFor(vals: Vals, units: Vals): Vals {
    map c | c in vals && IsPollutant(c) && c in units :: UnitsOf(c) := units[c]
  }

  function RowOf(scope: Scope, h: int, b: Bucket, policy: Policy): TimedReading {
    Reading(scope.scopeType, scope.scopeKey, Some(h), b.vals + UnitsFor(b.vals, scope.units), {}, None, {}, {},
            Some(scope.provider),
            Some(map["prov" := ProvDoc(Prov(policy.policyId, b.srcTs, b.shiftHours, b.filled, map[]))]))
  }

  /** The rows of the buckets, in order of time. */
  function Emit(bs: Buckets, scope: Scope, policy: Policy): (rows: seq<TimedReading>)
    ensures |rows| == |Sorted(bs.Keys)|
    ensures forall i :: 0 <= i < |rows| ==>
      Sorted(bs.Keys)[i] in bs && rows[i] == RowOf(scope, Sorted(bs.Keys)[i], bs[Sorted(bs.Keys)[i]], policy)
  {
    var ks := Sorted(bs.Keys);
    assert forall i :: 0 <= i < |ks| ==> ks[i] in ks;
    seq(|ks|, i requires 0 <= i < |ks| => RowOf(scope, ks[i], bs[ks[i]], policy))
  }

  function Rows(p: Payload, scope: Scope, policy: Policy): seq<TimedReading> {
    Emit(AllBuckets(p, policy), scope, policy)
  }

  method ExtractRows(p: Payload, scope: Scope, policy: Policy) returns (rows: seq<TimedReading>)
    ensures rows == Rows(p, scope, policy)
  {
    hide AddEntry, Start, Anchor;
    var buckets := Start(p, policy);
    var anchor := Anchor(p);
    for i := 0 to |p.pollution|
      invariant buckets == AddAll(Start(p, policy), anchor, p.pollution[..i], Pollution, policy)
    {
      assert p.pollution[..i + 1][..i] == p.pollution[..i];
      buckets := AddHistory(buckets, anchor, p.pollution[i], Pollution, policy);
    }
    assert p.pollution[..|p.pollution|] == p.pollution;
    ghost var afterPollution := buckets;
    for i := 0 to |p.weather|
      invariant buckets == AddAll(afterPollution, anchor, p.weather[..i], Weather, policy)
    {
      assert p.weather[..i + 1][..i] == p.weather[..i];
      buckets := AddHistory(buckets, anchor, p.weather[i], Weather, policy);
    }
    assert p.weather[..|p.weather|] == p.weather;
    rows := EmitRows(buckets, scope, policy);
  }

  /** The emit loop over the sorted hours. */
  method EmitRows(buckets: Buckets, scope: Scope, policy: Policy) returns (rows: seq<TimedReading>)
    ensures rows == Emit(buckets, scope, policy)
  {
    hide RowOf;
    rows := [];
    var hours := Sorted(buckets.Keys);
    for i := 0 to |hours|
      invariant |rows| == i && forall j :: 0 <= j < i ==> rows[j] == Emit(buckets, scope, policy)[j]
    {
      assert hours[i] in hours;
      rows := rows + [RowOf(scope, hours[i], buckets[hours[i]], policy)];
    }
  }

  /** One turn of a history loop. */
  method AddHistory(buckets0: Buckets, anchor: Option<int>, entry: Option<Entry>, kind: Kind, policy: Policy)
    returns (buckets: Buckets)
    ensures buckets == AddEntry(buckets0, anchor, entry, kind, policy)
  {
    buckets := buckets0;
    if entry.None? || entry.value.ts.None? {
      return;
    }
    var hour := NormHour(entry.value.ts.value);
    var fields := FieldsOf(entry.value, kind);
    if Overlaps(policy, anchor, kind, hour) {
      if policy.skipOverlap {
        return;
      }
      var b := MergeFields(At(buckets, anchor.value), fields, true);
      buckets := buckets[anchor.value := b.(srcTs := SetDefault(b.srcTs, OverlapStreamOf(kind), hour))];
    } else {
      var shift := Shift(policy, kind);
      var b := MergeFields(At(buckets, hour + shift * HOUR), fields, false);
      buckets := buckets[hour + shift * HOUR := b.(srcTs := SetDefault(b.srcTs, StreamOf(kind), hour),
                                                   shiftHours := SetDefault(b.shiftHours, StreamOf(kind), shift))];
    }
  }

  /** The fields of `done` that a merge takes over. */
  function Taken(b: Bucket, fields: Vals, done: set<Column>, fillOnly: bool): Vals {
    map c | c in fields && c in done && (fillOnly ==> c !in b.vals) :: fields[c]
  }

  lemma TakenNone(b: Bucket, fields: Vals, fillOnly: bool)
    ensures Taken(b, fields, {}, fillOnly) == map[]
  {
  }

  lemma TakenNext(b: Bucket, fields: Vals, done: set<Column>, c: Column, fillOnly: bool)
    requires c in fields && c !in done
    ensures var taken := Taken(b, fields, done, fillOnly);
            && Taken(b, fields, done + {c}, fillOnly)
               == (if fillOnly && c in b.vals then taken else taken[c := fields[c]])
            && (c in b.vals + taken <==> c in b.vals)
            && b.vals + taken[c := fields[c]] == (b.vals + taken)[c := fields[c]]
  {
  }

  lemma TakenIsMerge(b: Bucket, fields: Vals, fillOnly: bool)
    ensures b.(vals := b.vals + Taken(b, fields, fields.Keys, fillOnly),
               filled := b.filled + if fillOnly then Taken(b, fields, fields.Keys, fillOnly).Keys else {})
            == if fillOnly then Fill(b, fields) else Overwrite(b, fields)
  {
    var taken := Taken(b, fields, fields.Keys, fillOnly);
    assert b.vals + taken == if fillOnly then fields + b.vals else b.vals + fields;
  }

  /** The loop of _Bucket.merge over the fields, in any order. */
  method MergeFields(b0: Bucket, fields: Vals, fillOnly: bool) returns (b: Bucket)
    ensures b == if fillOnly then Fill(b0, fields) else Overwrite(b0, fields)
  {
    hide Taken, Fill, Overwrite;
    TakenNone(b0, fields, fillOnly);
    b := b0;
    var todo := fields.Keys;
    ghost var done: set<Column> := {};
    while todo != {}
      invariant todo !! done && todo + done == fields.Keys
      invariant b.vals == b0.vals + Taken(b0, fields, done, fillOnly)
      invariant b.filled == b0.filled + if fillOnly then Taken(b0, fields, done, fillOnly).Keys else {}
      invariant b.srcTs == b0.srcTs && b.shiftHours == b0.shiftHours
    {
      var c :| c in todo;
      todo := todo - {c};
      TakenNext(b0, fields, done, c, fillOnly);
      if !(fillOnly && c in b.vals) {
        b := b.(vals := b.vals[c := fields[c]]);
        if fillOnly {
          b := b.(filled := b.filled + {c});
        }
      }
      done := done + {c};
    }
    assert done == fields.Keys;
    TakenIsMerge(b0, fields, fillOnly);
  }
}
