/**
 The columns of a reading, the values they can hold and the fixed column groups of
 `reconcile.py` and `validation.py`. A row is a map from columns to values; a column
 that is absent from the map is NULL (None in Python).
 */
module Columns {
  import opened Prelude

  /** A Python float. */
  datatype Float = Finite(x: real) | NaN | PosInf | NegInf

  /**
   A number, or a string together with what Python's float() makes of it (None: ValueError). A number written to a
   text column is stored as its printed form.
   */
  datatype Value = Number(f: Float) | Text(s: string, parsed: Option<Float>) | Printed(f: Float)

  datatype Column =
    | AqiUs | AqiCn | MainUs | MainCn | Pm25 | Pm10 | O3 | No2 | So2 | Co
    | UnitsPm25 | UnitsPm10 | UnitsO3 | UnitsNo2 | UnitsSo2 | UnitsCo
    | TempC | Humidity | PressureHpa | WindSpeedMs | WindDirDeg | WeatherIcon | HeatindexC | PopPct
    | DewpointC | VisibilityKm | UvIndex

  type Vals = map<Column, Value>

  function Name(c: Column): string {
    match c
    case AqiUs => "aqi_us" case AqiCn => "aqi_cn" case MainUs => "main_us" case MainCn => "main_cn"
    case Pm25 => "pm25" case Pm10 => "pm10" case O3 => "o3" case No2 => "no2" case So2 => "so2" case Co => "co"
    case UnitsPm25 => "units_pm25" case UnitsPm10 => "units_pm10" case UnitsO3 => "units_o3"
    case UnitsNo2 => "units_no2" case UnitsSo2 => "units_so2" case UnitsCo => "units_co"
    case TempC => "temp_c" case Humidity => "humidity" case PressureHpa => "pressure_hpa"
    case WindSpeedMs => "wind_speed_ms" case WindDirDeg => "wind_dir_deg" case WeatherIcon => "weather_icon"
    case HeatindexC => "heatindex_c" case PopPct => "pop_pct"
    case DewpointC => "dewpoint_c" case VisibilityKm => "visibility_km" case UvIndex => "uv_index"
  }

  lemma NameHasNoColon(c: Column)
    ensures ':' !in Name(c)
  {
  }

  /** A number that tells the names apart, from their length and three of their letters. */
  function MarkOf(s: string): int {
    if s == "" then 0
    else |s| * 1000 + s[0] as int + s[|s| - 1] as int * 7 + if |s| > 6 then s[6] as int * 13 else 0
  }

  function Mark(c: Column): int {
    match c
    case AqiUs => 6902 case AqiCn => 6867 case MainUs => 9409 case MainCn => 9309 case Pm25 => 4483
    case Pm10 => 4448 case O3 => 2468 case No2 => 3460 case So2 => 3465 case Co => 2876
    case UnitsPm25 => 11944 case UnitsPm10 => 11909 case UnitsO3 => 9917 case UnitsNo2 => 10897 case UnitsSo2 => 10962
    case UnitsCo => 10181 case TempC => 6809 case Humidity => 10459 case PressureHpa => 14273 case WindSpeedMs => 15380
    case WindDirDeg => 14205 case WeatherIcon => 14371 case HeatindexC => 13097
    case PopPct => 9432 case DewpointC => 12223
    case VisibilityKm => 15285 case UvIndex => 10270
  }

  lemma MarkOfName(c: Column)
    ensures MarkOf(Name(c)) == Mark(c)
  {
  }

  lemma MarkInjective(c: Column, d: Column)
    requires Mark(c) == Mark(d)
    ensures c == d
  {
  }

  lemma NameInjective(c: Column, d: Column)
    requires Name(c) == Name(d)
    ensures c == d
  {
    hide Name, Mark, MarkOf;
    MarkOfName(c);
    MarkOfName(d);
    MarkInjective(c, d);
  }

  predicate IsPollutant(c: Column) {
    match c
    case Pm25 | Pm10 | O3 | No2 | So2 | Co => true
    case _ => false
  }

  /** The unit column that belongs to a pollutant. */
  function UnitsOf(c: Column): Column
    requires IsPollutant(c)
  {
    match c
    case Pm25 => UnitsPm25 case Pm10 => UnitsPm10 case O3 => UnitsO3
    case No2 => UnitsNo2 case So2 => UnitsSo2 case Co => UnitsCo
  }

  /** The unit column of a pollutant is named after it. */
  lemma UnitsName(c: Column)
    requires IsPollutant(c)
    ensures Name(UnitsOf(c)) == "units_" + Name(c)
  {
  }

  predicate IsUnits(c: Column) {
    match c
    case UnitsPm25 | UnitsPm10 | UnitsO3 | UnitsNo2 | UnitsSo2 | UnitsCo => true
    case _ => false
  }

  predicate IsEnum(c: Column) {
    c == MainUs || c == MainCn
  }

  /** Measured fields that validation checks; the last three have no column in the readings table. */
  predicate IsNumeric(c: Column) {
    match c
    case Pm25 | Pm10 | O3 | No2 | So2 | Co | AqiUs | AqiCn => true
    case TempC | Humidity | PressureHpa | WindSpeedMs | WindDirDeg | HeatindexC | PopPct => true
    case DewpointC | VisibilityKm | UvIndex => true
    case _ => false
  }

  predicate IsPollution(c: Column) {
    match c
    case AqiUs | AqiCn | MainUs | MainCn | Pm25 | Pm10 | O3 | No2 | So2 | Co => true
    case _ => false
  }

  predicate IsWeather(c: Column) {
    match c
    case TempC | Humidity | PressureHpa | WindSpeedMs | WindDirDeg | WeatherIcon | HeatindexC | PopPct => true
    case _ => false
  }

  /** Columns of the readings table that hold a value. */
  predicate IsStored(c: Column) {
    IsPollution(c) || IsUnits(c) || IsWeather(c)
  }

  /** Columns whose changes are logged as revisions. */
  predicate IsRevision(c: Column) {
    IsPollution(c) || IsWeather(c)
  }

  const NUMERIC_FIELDS: seq<Column> :=
    [Pm25, Pm10, O3, No2, So2, Co, AqiUs, AqiCn, TempC, Humidity, PressureHpa, WindSpeedMs, WindDirDeg,
     HeatindexC, DewpointC, VisibilityKm, UvIndex, PopPct]

  const REVISION_COLUMNS: seq<Column> :=
    [AqiUs, AqiCn, MainUs, MainCn, Pm25, Pm10, O3, No2, So2, Co,
     TempC, Humidity, PressureHpa, WindSpeedMs, WindDirDeg, WeatherIcon, HeatindexC, PopPct]

  /** The revision columns in the order of their names. */
  const REVISION_COLUMNS_SORTED: seq<Column> :=
    [AqiCn, AqiUs, Co, HeatindexC, Humidity, MainCn, MainUs, No2, O3, Pm10, Pm25, PopPct,
     PressureHpa, So2, TempC, WeatherIcon, WindDirDeg, WindSpeedMs]

  lemma NumericListed(c: Column)
    ensures IsNumeric(c) ==> c in NUMERIC_FIELDS
    ensures c in NUMERIC_FIELDS ==> IsNumeric(c)
  {
  }

  lemma RevisionListed(c: Column)
    ensures IsRevision(c) ==> c in REVISION_COLUMNS
    ensures c in REVISION_COLUMNS ==> IsRevision(c)
  {
  }

  lemma RevisionListedSorted(c: Column)
    ensures IsRevision(c) ==> c in REVISION_COLUMNS_SORTED
    ensures c in REVISION_COLUMNS_SORTED ==> IsRevision(c)
  {
  }
}
