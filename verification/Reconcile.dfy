/**
 What one reconciliation means (`reconcile.py`): duplicates merge first-non-null-wins, then
 each row meets the stored row of its key. The Python side prepares the row, the SQL side
 applies COALESCE and the IS DISTINCT FROM guard, and withdrawals run last.
 */
module Reconcile {
  import opened Prelude
  import opened Columns
  import opened Readings
  import opened Validation

  datatype Stored = Stored(vals: Vals, qcState: Option<QcState>, qcFlags: Option<set<string>>,
                           source: string, raw: Option<RawDoc>)

  type Store = map<Key, Stored>

  datatype Policy = Policy(source: string, runId: Option<string>, batchSize: int,
                           recordRevisions: bool, allowWithdrawals: bool)

  datatype Reason = Revised | Withdrawn

  datatype Revision = Revision(key: Key, field: Column, oldValue: Value, newValue: Option<Value>, reason: Reason)

  // ---------------------------------------------------------------- dedupe_rows

  /** Merge a duplicate into the row already kept: what the kept row has wins. */
  function MergeInto(a: TimedReading, r: TimedReading): (m: TimedReading)
    ensures KeyOf(m) == KeyOf(a)
  {
    var flags := a.flags + r.flags;
    a.(vals := r.vals + a.vals,
       flags := flags,
       qcState := if flags != {} then Some(Invalid) else if a.qcState.Some? then a.qcState else r.qcState,
       present := a.present + r.present,
       withdraw := a.withdraw + r.withdraw,
       source := if a.source.Some? then a.source else r.source,
       raw := if a.raw.Some? then a.raw else r.raw)
  }

  function AtHour(r: TimedReading): (m: TimedReading)
    ensures KeyOf(m) == KeyOf(r)
  {
    r.(ts := Some(NormHour(r.ts.value)))
  }

  predicate HasKey(rows: seq<TimedReading>, k: Key) {
    exists i :: 0 <= i < |rows| && KeyOf(rows[i]) == k
  }

  /** All rows of one key merged, in input order. */
  function MergedFor(rows: seq<TimedReading>, k: Key): (m: TimedReading)
    requires HasKey(rows, k)
    ensures KeyOf(m) == k
  {
    var n := |rows| - 1;
    if KeyOf(rows[n]) != k then MergedFor(rows[..n], k)
    else if HasKey(rows[..n], k) then MergeInto(MergedFor(rows[..n], k), rows[n])
    else AtHour(rows[n])
  }

  /** The distinct keys of the rows in order of first occurrence. */
  function KeyOrder(rows: seq<TimedReading>): (ks: seq<Key>)
    ensures forall k :: k in ks <==> HasKey(rows, k)
    ensures forall i, j :: 0 <= i < j < |ks| ==> ks[i] != ks[j]
  {
    if rows == [] then []
    else
      var n := |rows| - 1;
      var ks := KeyOrder(rows[..n]);
      assert forall k :: HasKey(rows, k) <==> HasKey(rows[..n], k) || k == KeyOf(rows[n]);
      if KeyOf(rows[n]) in ks then ks else ks + [KeyOf(rows[n])]
  }

  function Dedupe(rows: seq<TimedReading>): (out: seq<TimedReading>)
    ensures |out| == |KeyOrder(rows)|
    ensures forall i :: 0 <= i < |out| ==> KeyOf(out[i]) == KeyOrder(rows)[i]
  {
    var ks := KeyOrder(rows);
    assert forall i :: 0 <= i < |ks| ==> ks[i] in ks;
    seq(|ks|, i requires 0 <= i < |ks| => MergedFor(rows, ks[i]))
  }

  predicate DistinctKeys(rows: seq<TimedReading>) {
    forall i, j :: 0 <= i < j < |rows| ==> KeyOf(rows[i]) != KeyOf(rows[j])
  }

  // ---------------------------------------------------------------- one row

  predicate IsPollutantCode(v: Value) {
    v.Text? && v.s in {"pm25", "pm10", "o3", "no2", "so2", "co"}
  }

  /** Will the column take the value? JSON writes only finite numbers, and a number column parses texts. */
  predicate Storable(c: Column, v: Value) {
    && (v.Number? ==> v.f.Finite?)
    && (IsNumeric(c) ==> AsFloat(v).Some?)
  }

  /** The value with the type of its column, as the recordset gives it. */
  function Cast(c: Column, v: Value): Value {
    if IsNumeric(c) then (if AsFloat(v).Some? then Number(AsFloat(v).value) else v)
    else if v.Number? then Printed(v.f) else v
  }

  /** Does the value reach the INSERT? Only stored columns do, and an unknown pollutant code is dropped. */
  predicate Reaches(c: Column, v: Value) {
    IsStored(c) && (IsEnum(c) ==> IsPollutantCode(v)) && Storable(c, v)
  }

  /** What the INSERT gets from a row that is not refused. */
  function Encode(vals: Vals): Vals {
    map c | c in vals && Reaches(c, vals[c]) :: Cast(c, vals[c])
  }

  /** A value that no column takes: the statement raises, and with it the call. */
  predicate Refused(r: TimedReading) {
    exists c :: c in r.vals && IsStored(c) && !IsEnum(c) && !Storable(c, r.vals[c])
  }

  /** Every column holds a value of its type. */
  predicate Typed(vals: Vals) {
    forall c :: c in vals ==> (IsNumeric(c) <==> vals[c].Number?)
  }

  function Max(a: real, b: real): real { if a < b then b else a }
  function Abs(a: real): real { if a < 0.0 then -a else a }

  /** math.isclose with relative and absolute tolerance 1e-9. */
  predicate IsClose(a: Float, b: Float) {
    match (a, b)
    case (Finite(x), Finite(y)) =>
      x == y || Abs(x - y) <= Max(0.000000001 * Max(Abs(x), Abs(y)), 0.000000001)
    case _ => a == b && !a.NaN?
  }

  predicate ValuesDiffer(a: Value, b: Value) {
    if a.Number? && b.Number? then !IsClose(a.f, b.f) else a != b
  }

  /** Revisions of the stored row by the incoming one, column by column. */
  function Diff(ex: Stored, r: TimedReading, cols: seq<Column>): seq<Revision> {
    if cols == [] then []
    else
      var c := cols[|cols| - 1];
      Diff(ex, r, cols[..|cols| - 1])
      + if c in r.vals && c in ex.vals && ValuesDiffer(ex.vals[c], r.vals[c])
        then [Revision(KeyOf(r), c, ex.vals[c], Some(r.vals[c]), Revised)] else []
  }

  /** `_present`, or the non-null revision columns when it is absent or empty. */
  function EffectivePresent(r: TimedReading): set<Column> {
    if r.present != {} then r.present else set c | c in r.vals && IsRevision(c)
  }

  /** A row as it is handed to the upsert statement. */
  datatype Prepared = Prepared(key: Key, vals: Vals, qcState: QcState, qcFlags: Option<set<string>>,
                               source: string, raw: Option<RawDoc>, refused: bool)

  function FlagsOf(ex: Option<Stored>): set<string> {
    if ex.Some? && ex.value.qcFlags.Some? then ex.value.qcFlags.value else {}
  }

  function StateOf(ex: Option<Stored>): Option<QcState> {
    if ex.Some? then ex.value.qcState else None
  }

  function NullIfEmpty(flags: set<string>): Option<set<string>> {
    if flags == {} then None else Some(flags)
  }

  function Prepare(ex: Option<Stored>, r: TimedReading, source: string): (p: Prepared)
    ensures p.key == KeyOf(r)
  {
    var (state, flags) := MergeQc(StateOf(ex), FlagsOf(ex), r.flags, EffectivePresent(r));
    Prepared(KeyOf(r), Encode(r.vals), state, NullIfEmpty(flags),
             if r.source.Some? && r.source.value != "" then r.source.value else source, r.raw, Refused(r))
  }

  function OrEmpty(raw: Option<RawDoc>): RawDoc {
    if raw.Some? then raw.value else map[]
  }

  /** INSERT ... ON CONFLICT DO UPDATE SET c = COALESCE(EXCLUDED.c, readings.c) WHERE something is distinct. */
  function SqlUpsert(cur: Option<Stored>, p: Prepared): (Stored, bool) {
    match cur
    case None => (Stored(p.vals, Some(p.qcState), p.qcFlags, p.source, p.raw), true)
    case Some(s) =>
      var vals := s.vals + p.vals;
      if vals != s.vals || s.qcState != Some(p.qcState) || s.qcFlags != p.qcFlags
      then (Stored(vals, Some(p.qcState), p.qcFlags, s.source, Some(OrEmpty(s.raw) + OrEmpty(p.raw))), true)
      else (s, false)
  }

  /** Withdrawn fields that are revision columns, by name. */
  function WithdrawFields(withdraw: set<Column>, cols: seq<Column>): seq<Column> {
    if cols == [] then []
    else
      var c := cols[|cols| - 1];
      WithdrawFields(withdraw, cols[..|cols| - 1]) + if c in withdraw then [c] else []
  }

  function FieldsToWithdraw(r: TimedReading): seq<Column> {
    WithdrawFields(r.withdraw, REVISION_COLUMNS_SORTED)
  }

  /** Columns a withdrawal nulls: the fields and the units of the pollutants among them. */
  function WithdrawnColumns(fields: seq<Column>): set<Column> {
    (set c | c in fields) + set c | c in fields && IsPollutant(c) :: UnitsOf(c)
  }

  function SqlWithdraw(cur: Stored, fields: seq<Column>, run: Option<string>): (Stored, bool) {
    if exists c :: c in fields && c in cur.vals
    then (cur.(vals := cur.vals - WithdrawnColumns(fields),
               raw := Some(OrEmpty(cur.raw)["withdrawn" := Withdrawal(fields, run)])), true)
    else (cur, false)
  }

  /** A withdrawal is queued only for a key that already had a row. */
  predicate Withdraws(ex: Option<Stored>, r: TimedReading, policy: Policy) {
    ex.Some? && policy.allowWithdrawals && FieldsToWithdraw(r) != []
  }

  function Upserted(ex: Option<Stored>, r: TimedReading, policy: Policy): (Stored, bool) {
    SqlUpsert(ex, Prepare(ex, r, policy.source))
  }

  /** The stored row after `r` has met the row `ex`. */
  function NextRow(ex: Option<Stored>, r: TimedReading, policy: Policy): Stored {
    var up := Upserted(ex, r, policy).0;
    if Withdraws(ex, r, policy) then SqlWithdraw(up, FieldsToWithdraw(r), policy.runId).0 else up
  }

  /** Does the withdrawal of `r` find something to null? */
  predicate Fires(ex: Option<Stored>, r: TimedReading, policy: Policy) {
    Withdraws(ex, r, policy) && SqlWithdraw(Upserted(ex, r, policy).0, FieldsToWithdraw(r), policy.runId).1
  }

  function RevisedBy(ex: Option<Stored>, r: TimedReading): seq<Revision> {
    if ex.Some? then Diff(ex.value, r, REVISION_COLUMNS) else []
  }

  /** One revision per withdrawn field that held a value before the call. */
  function WithdrawRevisions(ex: Stored, k: Key, fields: seq<Column>): seq<Revision> {
    if fields == [] then []
    else
      var c := fields[|fields| - 1];
      WithdrawRevisions(ex, k, fields[..|fields| - 1])
      + if c in ex.vals then [Revision(k, c, ex.vals[c], None, Withdrawn)] else []
  }

  function WithdrawnBy(ex: Option<Stored>, r: TimedReading, policy: Policy): seq<Revision> {
    if Fires(ex, r, policy) then WithdrawRevisions(ex.value, KeyOf(r), FieldsToWithdraw(r)) else []
  }

  // ---------------------------------------------------------------- all rows of one call

  /** The row of `r` once upserted, and once its withdrawal has run too. */
  function RowAfter(before: Store, r: TimedReading, policy: Policy, withdrawn: bool): Stored {
    if withdrawn then NextRow(Get(before, KeyOf(r)), r, policy) else Upserted(Get(before, KeyOf(r)), r, policy).0
  }

  /** The table when `rows` are upserted and the withdrawals of the first `w` of them have run. */
  function TableAfter(before: Store, rows: seq<TimedReading>, policy: Policy, w: nat): Store {
    if rows == [] then before
    else
      var n := |rows| - 1;
      TableAfter(before, rows[..n], policy, w)[KeyOf(rows[n]) := RowAfter(before, rows[n], policy, n < w)]
  }

  /** The table after one call with deduplicated rows, stated without batches or phases. */
  function Reconciled(before: Store, rows: seq<TimedReading>, policy: Policy): Store {
    TableAfter(before, rows, policy, |rows|)
  }

  function AllRevised(before: Store, rows: seq<TimedReading>): seq<Revision> {
    if rows == [] then []
    else AllRevised(before, rows[..|rows| - 1]) + RevisedBy(Get(before, KeyOf(rows[|rows| - 1])), rows[|rows| - 1])
  }

  function AllWithdrawn(before: Store, rows: seq<TimedReading>, policy: Policy): seq<Revision> {
    if rows == [] then []
    else AllWithdrawn(before, rows[..|rows| - 1], policy)
         + WithdrawnBy(Get(before, KeyOf(rows[|rows| - 1])), rows[|rows| - 1], policy)
  }

  function AllRevisions(before: Store, rows: seq<TimedReading>, policy: Policy): seq<Revision> {
    AllRevised(before, rows) + AllWithdrawn(before, rows, policy)
  }

  datatype Counts = Counts(inserted: nat, updated: nat, untouched: nat, withdrawnFields: nat)

  function Count(before: Store, rows: seq<TimedReading>, policy: Policy): Counts {
    if rows == [] then Counts(0, 0, 0, 0)
    else
      var r := rows[|rows| - 1];
      var ex := Get(before, KeyOf(r));
      var c := CountUpsert(Count(before, rows[..|rows| - 1], policy), ex.Some?, Upserted(ex, r, policy).1);
      c.(withdrawnFields := c.withdrawnFields + if Fires(ex, r, policy) then |FieldsToWithdraw(r)| else 0)
  }

  function CountUpsert(c: Counts, existed: bool, touched: bool): Counts {
    if !touched then c.(untouched := c.untouched + 1)
    else if existed then c.(updated := c.updated + 1)
    else c.(inserted := c.inserted + 1)
  }

  // ---------------------------------------------------------------- the table, key by key

  lemma {:induction false} TableAfterElsewhere(before: Store, rows: seq<TimedReading>, policy: Policy, w: nat, k: Key)
    requires !HasKey(rows, k)
    ensures Get(TableAfter(before, rows, policy, w), k) == Get(before, k)
  {
    if rows != [] {
      var n := |rows| - 1;
      assert KeyOf(rows[n]) != k;
      TableAfterElsewhere(before, rows[..n], policy, w, k);
    }
  }

  lemma {:induction false} TableAfterAt(before: Store, rows: seq<TimedReading>, policy: Policy, w: nat, i: nat)
    requires DistinctKeys(rows) && i < |rows|
    ensures Get(TableAfter(before, rows, policy, w), KeyOf(rows[i])) == Some(RowAfter(before, rows[i], policy, i < w))
  {
    hide RowAfter;
    var n := |rows| - 1;
    if i < n {
      TableAfterAt(before, rows[..n], policy, w, i);
      assert KeyOf(rows[i]) != KeyOf(rows[n]);
    }
  }

  /** Withdrawals beyond the last row do nothing. */
  lemma {:induction false} TableAfterAll(before: Store, rows: seq<TimedReading>, policy: Policy, w: nat, w': nat)
    requires |rows| <= w && |rows| <= w'
    ensures TableAfter(before, rows, policy, w) == TableAfter(before, rows, policy, w')
  {
    hide RowAfter;
    if rows != [] {
      TableAfterAll(before, rows[..|rows| - 1], policy, w, w');
    }
  }

  /** Running the withdrawal of row `w` replaces exactly that row. */
  lemma {:induction false} WithdrawNext(before: Store, rows: seq<TimedReading>, policy: Policy, w: nat)
    requires DistinctKeys(rows) && w < |rows|
    ensures TableAfter(before, rows, policy, w + 1)
            == TableAfter(before, rows, policy, w)[KeyOf(rows[w]) := RowAfter(before, rows[w], policy, true)]
  {
    hide RowAfter;
    var n := |rows| - 1;
    if w == n {
      TableAfterAll(before, rows[..n], policy, w, w + 1);
    } else {
      WithdrawNext(before, rows[..n], policy, w);
      assert KeyOf(rows[w]) != KeyOf(rows[n]);
    }
  }
}
