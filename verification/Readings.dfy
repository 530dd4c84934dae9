/** Rows as they travel from the extractor to the readings table (`temporal.py`, `reconcile.py`). */
module Readings {
  import opened Prelude
  import opened Columns

  /** Instants are microseconds since the epoch, in UTC. */
  const HOUR: int := 3_600_000_000

  /** Start of the hour that contains `t`. */
  function NormHour(t: int): (h: int)
    ensures h % HOUR == 0 && h <= t < h + HOUR
  {
    t - t % HOUR
  }

  datatype QcState = Raw | Invalid | Ok | Suspect | OtherState(name: string)

  /** Provenance streams: pollution, weather and their overlap entries. */
  datatype Stream = P | W | POverlap | WOverlap

  datatype Prov = Prov(policyId: string, srcTs: map<Stream, int>, shiftHours: map<Stream, int>,
                       filledFromHistory: set<Column>, quarantined: Vals)

  /** A value under a top-level key of the `raw` JSON column. */
  datatype Json = ProvDoc(prov: Prov) | Withdrawal(fields: seq<Column>, run: Option<string>) | Doc(text: string)

  type RawDoc = map<string, Json>

  datatype Reading = Reading(scopeType: string, scopeKey: string, ts: Option<int>, vals: Vals,
                             flags: set<string>, qcState: Option<QcState>, present: set<Column>,
                             withdraw: set<Column>, source: Option<string>, raw: Option<RawDoc>)

  /** A reading that carries a timestamp; only these reach the reconciler. */
  type TimedReading = r: Reading | r.ts.Some?
    witness Reading("", "", Some(0), map[], {}, None, {}, {}, None, None)

  datatype Key = Key(scopeType: string, scopeKey: string, hour: int)

  function KeyOf(r: TimedReading): Key {
    Key(r.scopeType, r.scopeKey, NormHour(r.ts.value))
  }
}
