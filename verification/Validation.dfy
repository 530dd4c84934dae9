/** Value checks and the qc_state machine of raw ingest (`validation.py`). */
module Validation {
  import opened Prelude
  import opened Columns
  import opened Readings

  // ---------------------------------------------------------------- flags

  const VALIDATION_FLAG_PREFIX: string := "v:"

  function FlagText(c: Column, reason: string): string {
    VALIDATION_FLAG_PREFIX + Name(c) + ":" + reason
  }

  predicate IsValidationFlag(flag: string) {
    VALIDATION_FLAG_PREFIX <= flag
  }

  /** The text before the first colon. */
  function BeforeColon(s: string): string {
    if s == "" || s[0] == ':' then "" else [s[0]] + BeforeColon(s[1..])
  }

  /** The field a validation flag names. */
  function FlagField(flag: string): Option<string> {
    if !IsValidationFlag(flag) || flag == VALIDATION_FLAG_PREFIX then None
    else Some(BeforeColon(flag[2..]))
  }

  lemma {:induction false} BeforeColonOfJoin(name: string, rest: string)
    requires ':' !in name
    ensures BeforeColon(name + ":" + rest) == name
  {
    if name != "" {
      BeforeColonOfJoin(name[1..], rest);
      assert (name + ":" + rest)[1..] == name[1..] + ":" + rest;
    }
  }

  /** A flag names exactly the column it was raised for. */
  lemma FlagNamesItsField(c: Column, reason: string)
    ensures IsValidationFlag(FlagText(c, reason))
    ensures forall d :: FlagField(FlagText(c, reason)) == Some(Name(d)) <==> d == c
  {
    hide Name;
    var rest := Name(c) + ":" + reason;
    assert FlagText(c, reason) == VALIDATION_FLAG_PREFIX + rest;
    assert FlagText(c, reason)[2..] == rest;
    NameHasNoColon(c);
    BeforeColonOfJoin(Name(c), reason);
    forall d | FlagField(FlagText(c, reason)) == Some(Name(d)) ensures d == c {
      NameInjective(c, d);
    }
  }

  /** Flags raised on the same column for the same reason are the same; different columns never collide. */
  lemma FlagTextInjective(c: Column, reason: string, d: Column, reason': string)
    requires FlagText(c, reason) == FlagText(d, reason')
    ensures c == d
  {
    FlagNamesItsField(c, reason);
    FlagNamesItsField(d, reason');
  }

  predicate NamesPrimary(flag: string) {
    IsValidationFlag(flag) && (FlagField(flag) == Some(Name(Pm25)) || FlagField(flag) == Some(Name(AqiUs)))
  }

  function StateForFlags(flags: set<string>): QcState {
    if exists f :: f in flags && NamesPrimary(f) then Invalid else Raw
  }

  // ---------------------------------------------------------------- field checks

  function AsFloat(v: Value): Option<Float> {
    match v
    case Number(f) => Some(f)
    case Text(_, parsed) => parsed
    case Printed(f) => Some(f)
  }

  predicate NonNegative(c: Column) {
    IsPollutant(c) || c.AqiUs? || c.AqiCn? || c.Humidity? || c.PressureHpa? || c.WindSpeedMs? || c.WindDirDeg?
    || c.VisibilityKm? || c.UvIndex? || c.PopPct?
  }

  function PlausibleMax(c: Column): Option<real> {
    match c
    case Pm25 => Some(2000.0) case Pm10 => Some(5000.0) case O3 => Some(1000.0) case No2 => Some(2000.0)
    case So2 => Some(2000.0) case AqiUs => Some(5000.0) case AqiCn => Some(1000.0) case TempC => Some(80.0)
    case Humidity => Some(100.0) case PressureHpa => Some(1100.0) case WindSpeedMs => Some(150.0)
    case WindDirDeg => Some(360.0) case HeatindexC => Some(100.0) case DewpointC => Some(60.0)
    case VisibilityKm => Some(500.0) case UvIndex => Some(25.0) case PopPct => Some(100.0)
    case _ => None
  }

  function PlausibleMin(c: Column): Option<real> {
    match c
    case TempC => Some(-60.0) case PressureHpa => Some(300.0) case DewpointC => Some(-80.0)
    case HeatindexC => Some(-60.0)
    case _ => None
  }

  /** The reason a value fails its checks, in the order in which they are made. */
  function Fault(c: Column, v: Value): Option<string> {
    match AsFloat(v)
    case Some(Finite(x)) =>
      if NonNegative(c) && x < 0.0 then Some("negative")
      else if PlausibleMax(c).Some? && x > PlausibleMax(c).value then Some("above_max")
      else if PlausibleMin(c).Some? && x < PlausibleMin(c).value then Some("below_min")
      else None
    case _ => Some("nonfinite")
  }

  /** A finite number inside the physical range of its column. */
  predicate Sane(c: Column, v: Value) {
    && AsFloat(v).Some? && AsFloat(v).value.Finite?
    && (NonNegative(c) ==> 0.0 <= AsFloat(v).value.x)
    && (PlausibleMax(c).Some? ==> AsFloat(v).value.x <= PlausibleMax(c).value)
    && (PlausibleMin(c).Some? ==> PlausibleMin(c).value <= AsFloat(v).value.x)
  }

  predicate Between(x: real, low: real, high: real) { low <= x <= high }

  /** The physical ranges of the measured fields. */
  lemma PhysicalRanges(c: Column, x: real)
    requires IsNumeric(c)
    ensures Sane(c, Number(Finite(x))) <==>
            match c
            case Pm25 => Between(x, 0.0, 2000.0) case Pm10 => Between(x, 0.0, 5000.0)
            case O3 => Between(x, 0.0, 1000.0) case No2 => Between(x, 0.0, 2000.0)
            case So2 => Between(x, 0.0, 2000.0) case Co => x >= 0.0
            case AqiUs => Between(x, 0.0, 5000.0) case AqiCn => Between(x, 0.0, 1000.0)
            case TempC => Between(x, -60.0, 80.0) case DewpointC => Between(x, -80.0, 60.0)
            case HeatindexC => Between(x, -60.0, 100.0) case Humidity => Between(x, 0.0, 100.0)
            case PressureHpa => Between(x, 300.0, 1100.0) case WindSpeedMs => Between(x, 0.0, 150.0)
            case WindDirDeg => Between(x, 0.0, 360.0) case VisibilityKm => Between(x, 0.0, 500.0)
            case UvIndex => Between(x, 0.0, 25.0) case PopPct => Between(x, 0.0, 100.0)
            case _ => false
  {
  }

  /** Each reason is given for exactly its own kind of failure; a negative pressure is negative first. */
  lemma FaultReasons(c: Column, v: Value)
    ensures Fault(c, v) == Some("nonfinite") <==> AsFloat(v).None? || !AsFloat(v).value.Finite?
    ensures AsFloat(v).Some? && AsFloat(v).value.Finite? ==>
      var x := AsFloat(v).value.x;
      && (Fault(c, v) == Some("negative") <==> NonNegative(c) && x < 0.0)
      && (Fault(c, v) == Some("above_max") <==> PlausibleMax(c).Some? && x > PlausibleMax(c).value)
      && (Fault(c, v) == Some("below_min") <==>
            PlausibleMin(c).Some? && x < PlausibleMin(c).value && !(NonNegative(c) && x < 0.0))
  {
    assert |"nonfinite"| == 9 && |"negative"| == 8 && "above_max"[0] == 'a' && "below_min"[0] == 'b';
    assert "nonfinite"[0] == 'n';
  }

  // ---------------------------------------------------------------- validate_reading

  datatype Rejection = TsMissing | TsFuture | TsBeforeCutoff

  datatype Outcome = Outcome(row: Reading, flags: seq<string>, rejected: Option<Rejection>, quarantined: Vals)

  /** The values validation takes out of a row. */
  function Quarantine(vals: Vals): Vals {
    map c | c in vals && IsNumeric(c) && Fault(c, vals[c]).Some? :: vals[c]
  }

  /** Columns nulled when `q` is quarantined: the failing fields and the units of failing pollutants. */
  function Nulled(q: Vals): set<Column> {
    q.Keys + set c | c in q && IsPollutant(c) :: UnitsOf(c)
  }

  function FlagsFor(q: Vals): set<string> {
    set c | c in q && Fault(c, q[c]).Some? :: FlagText(c, Fault(c, q[c]).value)
  }

  /** The row after validation. */
  function Validated(row: Reading): Reading {
    var q := Quarantine(row.vals);
    var kept := row.vals - Nulled(q);
    row.(vals := kept, flags := FlagsFor(q), qcState := Some(StateForFlags(FlagsFor(q))),
         present := set c | c in kept && IsNumeric(c))
  }

  const FUTURE_TOLERANCE: int := HOUR

  lemma QuarantineOne(q: Vals, c: Column, v: Value)
    requires Fault(c, v).Some? && (c in q ==> q[c] == v)
    ensures Nulled(q[c := v]) == Nulled(q) + {c} + if IsPollutant(c) then {UnitsOf(c)} else {}
    ensures FlagsFor(q[c := v]) == FlagsFor(q) + {FlagText(c, Fault(c, v).value)}
  {
    var q' := q[c := v];
    assert c in q';
    assert FlagText(c, Fault(c, q'[c]).value) in FlagsFor(q');
    forall d | d in q ensures d in q' && q'[d] == q[d] {}
  }

  method ValidateReading(row: Reading, now: int, cutoff: Option<int>) returns (out: Outcome)
    ensures out.row == Validated(row)
    ensures out.quarantined == Quarantine(row.vals)
    ensures (set s | s in out.flags) == FlagsFor(Quarantine(row.vals))
    ensures out.rejected.None? <==>
      row.ts.Some? && row.ts.value <= now + FUTURE_TOLERANCE && (cutoff.Some? ==> cutoff.value <= row.ts.value)
    ensures row.ts.None? <==> out.rejected == Some(TsMissing)
    ensures row.ts.Some? && row.ts.value > now + FUTURE_TOLERANCE <==> out.rejected == Some(TsFuture)
  {
    var rejected := None;
    if row.ts.None? {
      rejected := Some(TsMissing);
    } else if row.ts.value > now + FUTURE_TOLERANCE {
      rejected := Some(TsFuture);
    } else if cutoff.Some? && row.ts.value < cutoff.value {
      rejected := Some(TsBeforeCutoff);
    }
    forall c ensures c in NUMERIC_FIELDS <==> IsNumeric(c) { NumericListed(c); }
    var vals, flags, quarantined := QuarantineFields(row.vals, NUMERIC_FIELDS);
    var present := set c | c in vals && c in NUMERIC_FIELDS;
    var flagSet := set s | s in flags;
    out := Outcome(row.(vals := vals, present := present, flags := flagSet, qcState := Some(StateForFlags(flagSet))),
                   flags, rejected, quarantined);
  }

  function QuarantineAmong(row: Vals, done: seq<Column>): Vals {
    map c | c in Quarantine(row) && c in done :: row[c]
  }

  lemma QuarantineNext(row: Vals, done: seq<Column>, c: Column)
    requires IsNumeric(c)
    ensures QuarantineAmong(row, done + [c]) ==
            if c in row && Fault(c, row[c]).Some? then QuarantineAmong(row, done)[c := row[c]]
            else QuarantineAmong(row, done)
    ensures c in Nulled(QuarantineAmong(row, done)) <==> c in QuarantineAmong(row, done)
    ensures c in QuarantineAmong(row, done) ==> c in row && Fault(c, row[c]).Some?
  {
    hide Fault;
  }

  /** The loop over the numeric fields: null what fails, keep it aside and flag it. */
  method QuarantineFields(row: Vals, fields: seq<Column>) returns (vals: Vals, flags: seq<string>, quarantined: Vals)
    requires forall c :: c in fields <==> IsNumeric(c)
    ensures quarantined == Quarantine(row)
    ensures vals == row - Nulled(quarantined)
    ensures (set s | s in flags) == FlagsFor(quarantined)
  {
    vals, flags, quarantined := row, [], map[];
    for i := 0 to |fields|
      invariant quarantined == QuarantineAmong(row, fields[..i])
      invariant vals == row - Nulled(quarantined)
      invariant (set s | s in flags) == FlagsFor(quarantined)
    {
      var c := fields[i];
      assert fields[..i + 1] == fields[..i] + [c];
      QuarantineNext(row, fields[..i], c);
      if c in vals && Fault(c, vals[c]).Some? {
        vals, flags, quarantined := QuarantineField(row, vals, flags, quarantined, c);
      } else {
        assert c in row && Fault(c, row[c]).Some? ==> quarantined[c := row[c]] == quarantined;
      }
    }
    assert fields[..|fields|] == fields;
  }

  /** What the loop does to one failing field. */
  method QuarantineField(ghost row: Vals, vals0: Vals, flags0: seq<string>, q0: Vals, c: Column)
    returns (vals: Vals, flags: seq<string>, quarantined: Vals)
    requires c in vals0 && c !in q0 && Fault(c, vals0[c]).Some?
    requires vals0 == row - Nulled(q0) && (set s | s in flags0) == FlagsFor(q0)
    ensures quarantined == q0[c := row[c]]
    ensures vals == row - Nulled(quarantined) && (set s | s in flags) == FlagsFor(quarantined)
  {
    var v := vals0[c];
    QuarantineOne(q0, c, v);
    flags := flags0 + [FlagText(c, Fault(c, v).value)];
    quarantined := q0[c := v];
    vals := vals0 - {c};
    MapMinusMinus(row, Nulled(q0), {c});
    if IsPollutant(c) {
      vals := vals - {UnitsOf(c)};
      MapMinusMinus(row, Nulled(q0) + {c}, {UnitsOf(c)});
    }
    assert (set s | s in flags) == (set s | s in flags0) + {FlagText(c, Fault(c, v).value)};
  }

  // ---------------------------------------------------------------- merge_qc

  predicate IsCurated(state: Option<QcState>) {
    state == Some(Ok) || state == Some(Suspect)
  }

  /** A validation flag on a field that `present` supplies. */
  predicate Supplied(flag: string, present: set<Column>) {
    IsValidationFlag(flag) && exists c :: c in present && FlagField(flag) == Some(Name(c))
  }

  /** INVALID for a reason other than raw validation. */
  predicate InvalidByOther(state: Option<QcState>, flags: set<string>) {
    state == Some(Invalid) && exists f :: f in flags && !IsValidationFlag(f)
  }

  /** The qc_state and qc_flags to store when a raw row meets an existing one (or none). */
  function MergeQc(exState: Option<QcState>, exFlags: set<string>, inFlags: set<string>, present: set<Column>)
    : (r: (QcState, set<string>))
  {
    if IsCurated(exState) then (exState.value, exFlags + inFlags)
    else if InvalidByOther(exState, exFlags) then (Invalid, exFlags + inFlags)
    else
      var remaining := (set f | f in exFlags && !Supplied(f, present)) + inFlags;
      (StateForFlags(remaining), remaining)
  }

  /** Incoming flags are all kept; a stored one goes only from an unprotected row that is supplied its field. */
  lemma MergedFlag(exState: Option<QcState>, exFlags: set<string>, inFlags: set<string>, present: set<Column>,
                   f: string)
    ensures var (state, flags) := MergeQc(exState, exFlags, inFlags, present);
            var guarded := IsCurated(exState) || InvalidByOther(exState, exFlags);
            && (f in flags <==> f in inFlags || (f in exFlags && (guarded || !Supplied(f, present))))
            && (guarded ==> exState == Some(state))
            && (!guarded ==> state == if exists g :: g in flags && NamesPrimary(g) then Invalid else Raw)
  {
    hide Supplied, NamesPrimary, IsValidationFlag;
  }

  /** Merging the same incoming row twice is the same as merging it once. */
  lemma MergeQcIdempotent(exState: Option<QcState>, exFlags: set<string>, inFlags: set<string>, present: set<Column>)
    ensures var (state, flags) := MergeQc(exState, exFlags, inFlags, present);
            MergeQc(Some(state), flags, inFlags, present) == (state, flags)
  {
    var (state, flags) := MergeQc(exState, exFlags, inFlags, present);
    var (state', flags') := MergeQc(Some(state), flags, inFlags, present);
    assert flags' == flags;
    if InvalidByOther(exState, exFlags) {
      var f :| f in exFlags && !IsValidationFlag(f);
      assert f in flags;
    }
  }

  /** A curated state or an INVALID of other origin is kept, and the flags are the old and the incoming ones. */
  lemma ProtectedStatesSurvive(exState: Option<QcState>, exFlags: set<string>, inFlags: set<string>,
                               present: set<Column>)
    requires IsCurated(exState) || InvalidByOther(exState, exFlags)
    ensures var (state, flags) := MergeQc(exState, exFlags, inFlags, present);
            Some(state) == exState && flags == exFlags + inFlags
            && (IsCurated(Some(state)) || InvalidByOther(Some(state), flags))
  {
    if !IsCurated(exState) {
      var f :| f in exFlags && !IsValidationFlag(f);
      assert f in MergeQc(exState, exFlags, inFlags, present).1;
    }
  }
}
