/** What an emitted row holds beside the measured values: units, source and provenance. */
module TemporalRows {
  import opened Prelude
  import opened Columns
  import opened Readings
  import opened Temporal
  import opened TemporalTheorems

  /** Buckets hold measured columns only. */
  lemma BucketsAreMeasured(p: Payload, policy: Policy, h: int, c: Column)
    requires c in At(AllBuckets(p, policy), h).vals
    ensures IsPollution(c) || IsWeather(c)
  {
    if !IsPollution(c) && !IsWeather(c) {
      var start := Start(p, policy);
      var middle := AddAll(start, Anchor(p), p.pollution, Pollution, policy);
      StartIsMeasured(p, policy, h, c);
      hide AddAll, Start, At, IsPollution, IsWeather, Anchor;
      AddAllMeaning(start, Anchor(p), p.pollution, Pollution, policy, h, c);
      AddAllMeaning(middle, Anchor(p), p.weather, Weather, policy, h, c);
      assert false;
    }
  }

  lemma StartIsMeasured(p: Payload, policy: Policy, h: int, c: Column)
    ensures c in At(Start(p, policy), h).vals ==> IsPollution(c) || IsWeather(c)
  {
    hide NormHour, IsPollution, IsWeather, SetDefault;
  }

  /**
   Every emitted row holds the measured values of its bucket, the unit of every pollutant it has a value for and of no
   other, and nothing else.
   */
  lemma RowHolds(p: Payload, scope: Scope, policy: Policy, r: TimedReading, c: Column)
    requires r in Rows(p, scope, policy)
    ensures IsPollution(c) || IsWeather(c) ==> Get(r.vals, c) == Get(At(AllBuckets(p, policy), r.ts.value).vals, c)
    ensures IsPollutant(c) ==> Get(r.vals, UnitsOf(c)) == if c in r.vals then Get(scope.units, c) else None
    ensures c in r.vals ==> IsPollution(c) || IsWeather(c) || IsUnits(c)
  {
    RowIsBucket(p, scope, policy, r);
    var vals := At(AllBuckets(p, policy), r.ts.value).vals;
    hide AllBuckets, At, Rows, IsPollution, IsWeather, IsUnits, IsPollutant;
    assert r.vals == vals + UnitsFor(vals, scope.units);
    hide RowOf, UnitsFor;
    forall d | d in vals ensures IsPollution(d) || IsWeather(d) {
      BucketsAreMeasured(p, policy, r.ts.value, d);
    }
    UnitsOfRow(vals, scope.units, c);
  }

  lemma RowOfNames(scope: Scope, h: int, b: Bucket, policy: Policy)
    ensures var r := RowOf(scope, h, b, policy);
            && r.source == Some(scope.provider) && r.flags == {} && r.withdraw == {} && r.present == {}
            && r.raw.Some? && Get(r.raw.value, "prov").Some? && Get(r.raw.value, "prov").value.ProvDoc?
            && (forall name :: name in r.raw.value ==> name == "prov")
            && var prov := Get(r.raw.value, "prov").value.prov;
               prov.policyId == policy.policyId && prov.quarantined == map[]
               && prov.srcTs == b.srcTs && prov.shiftHours == b.shiftHours
  {
    hide UnitsFor;
  }

  /** It names its provider and its policy, carries the sources and shifts of its bucket, and no flags. */
  lemma RowNames(p: Payload, scope: Scope, policy: Policy, r: TimedReading)
    requires r in Rows(p, scope, policy)
    ensures r.source == Some(scope.provider) && r.flags == {} && r.withdraw == {} && r.present == {}
    ensures r.raw.Some? && Get(r.raw.value, "prov").Some? && Get(r.raw.value, "prov").value.ProvDoc?
    ensures forall name :: name in r.raw.value ==> name == "prov"
    ensures var prov, b := Get(r.raw.value, "prov").value.prov, At(AllBuckets(p, policy), r.ts.value);
            && prov.policyId == policy.policyId && prov.quarantined == map[]
            && prov.srcTs == b.srcTs && prov.shiftHours == b.shiftHours
  {
    hide AllBuckets, At, Rows, RowOf;
    RowIsBucket(p, scope, policy, r);
    RowOfNames(scope, r.ts.value, At(AllBuckets(p, policy), r.ts.value), policy);
  }

  lemma UnitsOfRow(vals: Vals, units: Vals, c: Column)
    requires forall d :: d in vals ==> IsPollution(d) || IsWeather(d)
    ensures var all := vals + UnitsFor(vals, units);
            && (IsPollution(c) || IsWeather(c) ==> Get(all, c) == Get(vals, c))
            && (IsPollutant(c) ==> Get(all, UnitsOf(c)) == if c in all then Get(units, c) else None)
            && (c in all ==> IsPollution(c) || IsWeather(c) || IsUnits(c))
  {
    forall d | IsPollutant(d) ensures IsUnits(UnitsOf(d)) && !IsPollution(UnitsOf(d)) && !IsWeather(UnitsOf(d)) {}
    forall d | IsPollutant(d) && IsPollutant(c) && UnitsOf(d) == UnitsOf(c) ensures d == c {}
    assert IsPollutant(c) ==> IsPollution(c);
    assert IsPollution(c) || IsWeather(c) ==> !IsUnits(c);
  }

  /** A history hour is the overlap iff, moved one hour on, it is within the tolerance of the anchor. */
  lemma OverlapsIff(policy: Policy, anchor: int, kind: Kind, hour: int)
    requires kind.Pollution? || policy.weatherShift != 0
    ensures Overlaps(policy, Some(anchor), kind, hour) <==>
            anchor - policy.toleranceMin * MINUTE <= hour + HOUR <= anchor + policy.toleranceMin * MINUTE
  {
  }
}
