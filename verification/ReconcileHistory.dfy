/** What a row becomes over a whole history of calls with one reading each, all for the same key. */
module ReconcileHistory {
  import opened Prelude
  import opened Columns
  import opened Readings
  import opened Validation
  import opened Reconcile
  import opened ReconcileTheorems

  /** The table after one call per reading, in order. */
  function After(before: Store, history: seq<TimedReading>, policy: Policy): Store {
    if history == [] then before
    else
      var n := |history| - 1;
      Reconciled(After(before, history[..n], policy), Dedupe([history[n]]), policy)
  }

  /** The row alone: each reading meets what the ones before it left. */
  function RowAfterHistory(ex: Option<Stored>, history: seq<TimedReading>, policy: Policy): Option<Stored> {
    if history == [] then ex
    else
      var n := |history| - 1;
      Some(NextRow(RowAfterHistory(ex, history[..n], policy), history[n], policy))
  }

  lemma AtHourIrrelevant(ex: Option<Stored>, r: TimedReading, policy: Policy)
    ensures NextRow(ex, AtHour(r), policy) == NextRow(ex, r, policy)
  {
  }

  lemma {:induction false} AfterIsRow(before: Store, history: seq<TimedReading>, policy: Policy, k: Key)
    requires forall r :: r in history ==> KeyOf(r) == k
    ensures Get(After(before, history, policy), k) == RowAfterHistory(Get(before, k), history, policy)
  {
    hide NextRow;
    if history != [] {
      var n := |history| - 1;
      var r := history[n];
      assert r in history;
      AfterIsRow(before, history[..n], policy, k);
      RowOfKey(After(before, history[..n], policy), [r], policy, k);
      assert KeyOf([r][0]) == k;
      assert MergedFor([r], k) == AtHour(r);
      AtHourIrrelevant(RowAfterHistory(Get(before, k), history[..n], policy), r, policy);
    }
  }

  // ---------------------------------------------------------------- values

  /** Reading `j` leaves column `c` of an existing row alone. */
  predicate Passes(r: TimedReading, policy: Policy, c: Column) {
    c !in Encode(r.vals) && !(policy.allowWithdrawals && c in r.withdraw)
  }

  /** Reading `i` is the last that supplied `c`, did not itself withdraw it, and nothing withdrew it later. */
  predicate LastSupply(history: seq<TimedReading>, policy: Policy, c: Column, i: int) {
    && 0 <= i < |history| && c in Encode(history[i].vals)
    && (i > 0 && policy.allowWithdrawals ==> c !in history[i].withdraw)
    && forall j :: i < j < |history| ==> Passes(history[j], policy, c)
  }

  /** One reading's effect on one revision column. */
  lemma StepColumn(ex: Option<Stored>, r: TimedReading, policy: Policy, c: Column)
    requires IsRevision(c)
    ensures Get(NextRow(ex, r, policy).vals, c)
            == if ex.Some? && policy.allowWithdrawals && c in r.withdraw then None
               else if c in Encode(r.vals) then Some(Encode(r.vals)[c])
               else if ex.Some? then Get(ex.value.vals, c) else None
  {
    hide NextRow, FieldsToWithdraw, Fires, Encode;
    NextColumn(ex, r, policy, c);
    FiresIff(ex, r, policy);
    FieldsToWithdrawMember(r, c);
    assert !IsUnits(c);
  }

  /** The value the readings leave in column `c` of a new row, one reading at a time. */
  function LastSupplied(history: seq<TimedReading>, policy: Policy, c: Column): Option<Value> {
    if history == [] then None
    else
      var n := |history| - 1;
      if n > 0 && policy.allowWithdrawals && c in history[n].withdraw then None
      else if c in Encode(history[n].vals) then Some(Encode(history[n].vals)[c])
      else LastSupplied(history[..n], policy, c)
  }

  lemma {:induction false} LastSupplyGives(history: seq<TimedReading>, policy: Policy, c: Column, i: int)
    requires LastSupply(history, policy, c, i)
    ensures LastSupplied(history, policy, c) == Some(Encode(history[i].vals)[c])
  {
    hide Encode;
    var n := |history| - 1;
    if i < n {
      assert Passes(history[n], policy, c);
      LastSupplyGives(history[..n], policy, c, i);
    }
  }

  lemma {:induction false} LastSupplyExists(history: seq<TimedReading>, policy: Policy, c: Column) returns (i: int)
    requires LastSupplied(history, policy, c).Some?
    ensures LastSupply(history, policy, c, i)
  {
    hide Encode;
    var n := |history| - 1;
    i := n;
    if c !in Encode(history[n].vals) {
      i := LastSupplyExists(history[..n], policy, c);
      LastSupplyLater(history, policy, c, i);
      hide Passes, LastSupply;
    }
  }

  lemma LastSupplyLater(history: seq<TimedReading>, policy: Policy, c: Column, i: int)
    requires history != [] && LastSupply(history[..|history| - 1], policy, c, i)
    requires Passes(history[|history| - 1], policy, c)
    ensures LastSupply(history, policy, c, i)
  {
    hide Passes, Encode;
    var n := |history| - 1;
    assert forall j :: 0 <= j < n ==> history[..n][j] == history[j];
  }

  lemma {:induction false} StoredColumn(history: seq<TimedReading>, policy: Policy, c: Column)
    requires history != [] && IsRevision(c)
    ensures Get(RowAfterHistory(None, history, policy).value.vals, c) == LastSupplied(history, policy, c)
  {
    hide NextRow;
    var n := |history| - 1;
    StepColumn(RowAfterHistory(None, history[..n], policy), history[n], policy, c);
    if n > 0 {
      StoredColumn(history[..n], policy, c);
    }
  }

  predicate IsLastSupplied(history: seq<TimedReading>, policy: Policy, c: Column, v: Value) {
    exists i :: 0 <= i < |history| && LastSupply(history, policy, c, i) && Encode(history[i].vals)[c] == v
  }

  /** From no row, every stored measurement is the last value supplied and not withdrawn since. */
  lemma StoredIsLastSupplied(history: seq<TimedReading>, policy: Policy, c: Column, v: Value)
    requires history != [] && IsRevision(c)
    ensures Get(RowAfterHistory(None, history, policy).value.vals, c) == Some(v) <==>
            IsLastSupplied(history, policy, c, v)
  {
    hide RowAfterHistory, LastSupplied, Passes;
    StoredColumn(history, policy, c);
    if LastSupplied(history, policy, c).Some? {
      var i := LastSupplyExists(history, policy, c);
      LastSupplyGives(history, policy, c, i);
    }
    forall i | LastSupply(history, policy, c, i)
      ensures LastSupplied(history, policy, c) == Some(Encode(history[i].vals)[c])
    {
      LastSupplyGives(history, policy, c, i);
    }
  }

  // ---------------------------------------------------------------- flags of validated rows

  /** Reading `raw` fails validation in field `c` for `reason`. */
  predicate Raises(raw: TimedReading, c: Column, reason: string) {
    c in Quarantine(raw.vals) && Fault(c, raw.vals[c]) == Some(reason)
  }

  /** Reading `raw` supplies a valid value for field `c`. */
  predicate SuppliesValid(raw: TimedReading, c: Column) {
    c in raw.vals && Sane(c, raw.vals[c])
  }

  lemma SaneIffNoFault(c: Column, v: Value)
    ensures Sane(c, v) <==> Fault(c, v).None?
  {
  }

  /** After validation every measured value left in the row is sane, and only failing ones were taken out. */
  lemma ValidatedIsSane(raw: Reading, c: Column)
    requires IsNumeric(c)
    ensures c in Validated(raw).vals <==> c in raw.vals && Sane(c, raw.vals[c])
    ensures c in Validated(raw).vals ==> Validated(raw).vals[c] == raw.vals[c]
    ensures c in Validated(raw).present <==> c in Validated(raw).vals
  {
    if c in raw.vals { SaneIffNoFault(c, raw.vals[c]); }
    assert !IsUnits(c);
  }

  /**
   A unit goes exactly with the failing value of its pollutant; columns that are neither measured nor units are left
   alone; the state is INVALID iff pm25 or aqi_us fails.
   */
  lemma ValidatedRest(raw: Reading, c: Column)
    ensures IsPollutant(c) ==>
      Get(Validated(raw).vals, UnitsOf(c))
      == if c in raw.vals && Fault(c, raw.vals[c]).Some? then None else Get(raw.vals, UnitsOf(c))
    ensures !IsNumeric(c) && !IsUnits(c) ==> Get(Validated(raw).vals, c) == Get(raw.vals, c)
    ensures Validated(raw).qcState
            == Some(if Pm25 in Quarantine(raw.vals) || AqiUs in Quarantine(raw.vals) then Invalid else Raw)
    ensures Validated(raw).source == raw.source && Validated(raw).raw == raw.raw
            && Validated(raw).withdraw == raw.withdraw
  {
    hide Fault, FlagText, FlagField, IsValidationFlag;
    var q := Quarantine(raw.vals);
    assert IsPollutant(c) ==> IsNumeric(c) && !IsNumeric(UnitsOf(c));
    forall d | IsPollutant(d) && IsPollutant(c) && UnitsOf(d) == UnitsOf(c) ensures d == c {}
    forall d | IsPollutant(d) ensures IsUnits(UnitsOf(d)) {}
    forall f | f in FlagsFor(q) && NamesPrimary(f) ensures Pm25 in q || AqiUs in q {
      var d :| d in q && Fault(d, q[d]).Some? && f == FlagText(d, Fault(d, q[d]).value);
      FlagNamesItsField(d, Fault(d, q[d]).value);
    }
    forall d | d in q && (d == Pm25 || d == AqiUs)
      ensures FlagText(d, Fault(d, q[d]).value) in FlagsFor(q) && NamesPrimary(FlagText(d, Fault(d, q[d]).value))
    {
      FlagNamesItsField(d, Fault(d, q[d]).value);
    }
  }

  /** Quarantine keeps what validation removes: the row and its quarantine together are the original row. */
  lemma NothingUnaccounted(raw: Reading)
    ensures var v := Validated(raw);
            && v.vals.Keys !! Quarantine(raw.vals).Keys
            && forall c :: c in raw.vals && !IsUnits(c) ==> Get(v.vals + Quarantine(raw.vals), c) == Some(raw.vals[c])
  {
    hide Fault, IsNumeric, IsPollutant;
    forall c | c in raw.vals && !IsUnits(c) && c !in Quarantine(raw.vals) ensures c in Validated(raw).vals {
      forall d | d in Quarantine(raw.vals) && IsPollutant(d) ensures UnitsOf(d) != c { UnitsAreUnits(d); }
    }
  }

  lemma UnitsAreUnits(c: Column)
    requires IsPollutant(c)
    ensures IsUnits(UnitsOf(c))
  {
  }

  /** The fields a validated row supplies heal exactly the flags raised on them. */
  lemma HealsIff(raw: TimedReading, c: Column, reason: string)
    requires IsNumeric(c)
    ensures Supplied(FlagText(c, reason), EffectivePresent(Validated(raw))) <==> SuppliesValid(raw, c)
  {
    hide FlagText, FlagField, IsValidationFlag, Quarantine, Nulled, StateForFlags, FlagsFor;
    FlagNamesItsField(c, reason);
    ValidatedIsSane(raw, c);
    var present := EffectivePresent(Validated(raw));
    assert Supplied(FlagText(c, reason), present) <==> c in present;
  }

  lemma RaisedFlags(raw: TimedReading, c: Column, reason: string)
    ensures FlagText(c, reason) in Validated(raw).flags <==> Raises(raw, c, reason)
  {
    hide Fault, Quarantine, Nulled;
    var q := Quarantine(raw.vals);
    if FlagText(c, reason) in FlagsFor(q) {
      var d :| d in q && Fault(d, q[d]).Some? && FlagText(c, reason) == FlagText(d, Fault(d, q[d]).value);
      FlagTextInjective(c, reason, d, Fault(d, q[d]).value);
      SameReason(c, reason, Fault(d, q[d]).value);
      QuarantineValue(raw.vals, c);
    }
    if Raises(raw, c, reason) {
      QuarantineValue(raw.vals, c);
      assert c in q && Fault(c, q[c]) == Some(reason);
    }
  }

  lemma QuarantineValue(vals: Vals, c: Column)
    ensures c in Quarantine(vals) ==>
            c in vals && IsNumeric(c) && Quarantine(vals)[c] == vals[c] && Fault(c, vals[c]).Some?
  {
  }

  lemma SameReason(c: Column, a: string, b: string)
    requires FlagText(c, a) == FlagText(c, b)
    ensures a == b
  {
    var pre := VALIDATION_FLAG_PREFIX + Name(c) + ":";
    assert a == (pre + a)[|pre|..] && b == (pre + b)[|pre|..];
  }

  function ValidatedAll(raws: seq<TimedReading>): (h: seq<TimedReading>)
    ensures |h| == |raws| && forall i :: 0 <= i < |raws| ==> h[i] == Validated(raws[i])
  {
    seq(|raws|, i requires 0 <= i < |raws| => Validated(raws[i]))
  }

  /** Some reading raised the flag and none since supplied a valid value for the field. */
  predicate Standing(raws: seq<TimedReading>, c: Column, reason: string) {
    exists i :: 0 <= i < |raws| && Raises(raws[i], c, reason) && NotHealedSince(raws, c, i)
  }

  predicate NotHealedSince(raws: seq<TimedReading>, c: Column, i: int) {
    forall j :: i < j < |raws| && 0 <= j ==> !SuppliesValid(raws[j], c)
  }

  /** The same, one reading at a time. */
  predicate Stands(raws: seq<TimedReading>, c: Column, reason: string) {
    raws != [] &&
    var n := |raws| - 1;
    Raises(raws[n], c, reason) || (Stands(raws[..n], c, reason) && !SuppliesValid(raws[n], c))
  }

  lemma {:induction false} StandsFrom(raws: seq<TimedReading>, c: Column, reason: string, i: int)
    requires 0 <= i < |raws| && Raises(raws[i], c, reason) && NotHealedSince(raws, c, i)
    ensures Stands(raws, c, reason)
  {
    hide Raises, SuppliesValid;
    var n := |raws| - 1;
    if i < n {
      assert forall j :: i < j < n ==> raws[..n][j] == raws[j];
      StandsFrom(raws[..n], c, reason, i);
    }
  }

  lemma {:induction false} StandsSince(raws: seq<TimedReading>, c: Column, reason: string) returns (i: int)
    requires Stands(raws, c, reason)
    ensures 0 <= i < |raws| && Raises(raws[i], c, reason) && NotHealedSince(raws, c, i)
  {
    hide Raises, SuppliesValid;
    var n := |raws| - 1;
    i := n;
    if !Raises(raws[n], c, reason) {
      i := StandsSince(raws[..n], c, reason);
      forall j | i < j < |raws| ensures !SuppliesValid(raws[j], c) {
        if j < n { assert raws[..n][j] == raws[j]; }
      }
    }
  }

  lemma StandsIff(raws: seq<TimedReading>, c: Column, reason: string)
    ensures Stands(raws, c, reason) <==> Standing(raws, c, reason)
  {
    hide Raises, NotHealedSince, Stands;
    if Stands(raws, c, reason) {
      var i := StandsSince(raws, c, reason);
    }
    if i :| 0 <= i < |raws| && Raises(raws[i], c, reason) && NotHealedSince(raws, c, i) {
      StandsFrom(raws, c, reason, i);
    }
  }

  /** A row that only validated readings have written is never protected from healing. */
  predicate RawOnly(s: Stored) {
    && (s.qcState == Some(Raw) || s.qcState == Some(Invalid))
    && (forall f :: f in FlagsOf(Some(s)) ==> IsValidationFlag(f))
    && s.qcState == Some(StateForFlags(FlagsOf(Some(s))))
  }

  lemma StepFlags(ex: Option<Stored>, raw: TimedReading, policy: Policy)
    requires ex.Some? ==> RawOnly(ex.value)
    ensures var s := NextRow(ex, Validated(raw), policy);
            && RawOnly(s)
            && FlagsOf(Some(s))
               == (set f | f in FlagsOf(ex) && !Supplied(f, EffectivePresent(Validated(raw)))) + Validated(raw).flags
  {
    hide Encode, FieldsToWithdraw, Supplied, EffectivePresent, NamesPrimary, Quarantine, Nulled, IsValidationFlag,
      Fault;
    forall f | f in Validated(raw).flags ensures IsValidationFlag(f) {
      var q := Quarantine(raw.vals);
      var c :| c in q && Fault(c, q[c]).Some? && f == FlagText(c, Fault(c, q[c]).value);
      FlagNamesItsField(c, Fault(c, q[c]).value);
    }
  }

  lemma {:induction false} FlagsStand(raws: seq<TimedReading>, policy: Policy, c: Column, reason: string)
    requires raws != [] && IsNumeric(c)
    ensures var s := RowAfterHistory(None, ValidatedAll(raws), policy);
            RawOnly(s.value) && (FlagText(c, reason) in FlagsOf(s) <==> Stands(raws, c, reason))
  {
    hide NextRow, Validated, FlagText, Supplied, RawOnly, Raises, SuppliesValid, EffectivePresent;
    var n := |raws| - 1;
    var front := raws[..n];
    assert ValidatedAll(raws)[..n] == ValidatedAll(front);
    if front != [] {
      FlagsStand(front, policy, c, reason);
    }
    StepFlags(RowAfterHistory(None, ValidatedAll(front), policy), raws[n], policy);
    HealsIff(raws[n], c, reason);
    RaisedFlags(raws[n], c, reason);
  }

  /** A flag is stored iff some reading raised it and no later one supplied a valid value for its field. */
  lemma FlagsAreStanding(raws: seq<TimedReading>, policy: Policy, c: Column, reason: string)
    requires raws != [] && IsNumeric(c)
    ensures var s := RowAfterHistory(None, ValidatedAll(raws), policy);
            RawOnly(s.value) && (FlagText(c, reason) in FlagsOf(s) <==> Standing(raws, c, reason))
  {
    FlagsStand(raws, policy, c, reason);
    StandsIff(raws, c, reason);
  }

  /** Only flags raised by validation are stored. */
  lemma {:induction false} FlagsAreRaised(raws: seq<TimedReading>, policy: Policy, f: string)
    requires raws != [] && f in FlagsOf(RowAfterHistory(None, ValidatedAll(raws), policy))
    ensures exists c, reason :: IsNumeric(c) && f == FlagText(c, reason)
    ensures RawOnly(RowAfterHistory(None, ValidatedAll(raws), policy).value)
  {
    hide NextRow, FlagText, Supplied, EffectivePresent, RawOnly, Fault, Nulled, StateForFlags, Standing;
    var n := |raws| - 1;
    var front := raws[..n];
    assert ValidatedAll(raws)[..n] == ValidatedAll(front);
    FlagsAreStanding(raws, policy, Pm25, "");
    if front != [] { FlagsAreStanding(front, policy, Pm25, ""); }
    StepFlags(RowAfterHistory(None, ValidatedAll(front), policy), raws[n], policy);
    if f in Validated(raws[n]).flags {
      var q := Quarantine(raws[n].vals);
      var c :| c in q && Fault(c, q[c]).Some? && f == FlagText(c, Fault(c, q[c]).value);
    } else {
      FlagsAreRaised(front, policy, f);
    }
  }

  /** From no row, the state is INVALID iff a standing flag names pm25 or aqi_us, and raw otherwise. */
  lemma InvalidIffPrimaryStands(raws: seq<TimedReading>, policy: Policy)
    requires raws != []
    ensures var s := RowAfterHistory(None, ValidatedAll(raws), policy).value;
            && (s.qcState == Some(Invalid) <==>
                exists reason :: Standing(raws, Pm25, reason) || Standing(raws, AqiUs, reason))
            && (s.qcState == Some(Invalid) || s.qcState == Some(Raw))
  {
    hide NextRow, FlagsOf, Standing, FlagText, FlagField, IsValidationFlag;
    var s := RowAfterHistory(None, ValidatedAll(raws), policy);
    FlagsAreStanding(raws, policy, Pm25, "");
    if s.value.qcState == Some(Invalid) {
      var f :| f in FlagsOf(s) && NamesPrimary(f);
      FlagsAreRaised(raws, policy, f);
      var c, reason :| IsNumeric(c) && f == FlagText(c, reason);
      FlagNamesItsField(c, reason);
      FlagsAreStanding(raws, policy, c, reason);
      assert c == Pm25 || c == AqiUs;
    }
    if reason :| Standing(raws, Pm25, reason) || Standing(raws, AqiUs, reason) {
      var c := if Standing(raws, Pm25, reason) then Pm25 else AqiUs;
      FlagsAreStanding(raws, policy, c, reason);
      FlagNamesItsField(c, reason);
      assert NamesPrimary(FlagText(c, reason));
    }
  }

  /**
   One call per validated reading, all of one key that has no row yet. Each stored measurement is then the last
   sane value supplied, each validation flag stands iff it was raised and not healed since, and the row is
   INVALID iff such a flag names pm25 or aqi_us.
   */
  lemma ValidatedHistory(before: Store, raws: seq<TimedReading>, policy: Policy, k: Key)
    requires raws != [] && k !in before && forall r :: r in raws ==> KeyOf(r) == k
    ensures k in After(before, ValidatedAll(raws), policy)
    ensures var s := After(before, ValidatedAll(raws), policy)[k];
            && (forall c, v :: IsRevision(c) ==>
                  (Get(s.vals, c) == Some(v) <==> IsLastSupplied(ValidatedAll(raws), policy, c, v)))
            && (forall c, reason :: IsNumeric(c) ==>
                (FlagText(c, reason) in FlagsOf(Some(s)) <==> Standing(raws, c, reason)))
            && (s.qcState == Some(Invalid) <==>
                exists reason :: Standing(raws, Pm25, reason) || Standing(raws, AqiUs, reason))
  {
    hide RowAfterHistory, IsLastSupplied, Standing, FlagText, FlagsOf, RawOnly, After, Validated, IsRevision,
      IsNumeric, IsEnum;
    ValidatedKeys(raws, k);
    var h := ValidatedAll(raws);
    AfterIsRow(before, h, policy, k);
    HistoryHasRow(h, policy);
    var s := RowAfterHistory(None, h, policy).value;
    forall c, v | IsRevision(c)
      ensures Get(s.vals, c) == Some(v) <==> IsLastSupplied(h, policy, c, v)
    {
      StoredIsLastSupplied(h, policy, c, v);
    }
    forall c, reason | IsNumeric(c) ensures FlagText(c, reason) in FlagsOf(Some(s)) <==> Standing(raws, c, reason) {
      FlagsAreStanding(raws, policy, c, reason);
    }
    InvalidIffPrimaryStands(raws, policy);
  }

  lemma ValidatedKeys(raws: seq<TimedReading>, k: Key)
    requires forall r :: r in raws ==> KeyOf(r) == k
    ensures forall r :: r in ValidatedAll(raws) ==> KeyOf(r) == k
  {
    var h := ValidatedAll(raws);
    forall r | r in h ensures KeyOf(r) == k {
      var i :| 0 <= i < |h| && h[i] == r;
      assert raws[i] in raws;
    }
  }

  lemma HistoryHasRow(history: seq<TimedReading>, policy: Policy)
    requires history != []
    ensures RowAfterHistory(None, history, policy).Some?
  {
  }

  // ---------------------------------------------------------------- protected states

  /** Curated, or INVALID for a reason other than raw validation. */
  predicate Protected(ex: Option<Stored>) {
    IsCurated(StateOf(ex)) || InvalidByOther(StateOf(ex), FlagsOf(ex))
  }

  /** Every flag that some reading carries. */
  function FlagsIn(history: seq<TimedReading>): set<string> {
    set i, f | 0 <= i < |history| && f in history[i].flags :: f
  }

  lemma FlagsInNext(history: seq<TimedReading>)
    requires history != []
    ensures FlagsIn(history) == FlagsIn(history[..|history| - 1]) + history[|history| - 1].flags
  {
    var n := |history| - 1;
    assert forall i :: 0 <= i < n ==> history[..n][i] == history[i];
    forall f | f in FlagsIn(history[..n]) + history[n].flags ensures f in FlagsIn(history) {
      if f !in history[n].flags {
        var i :| 0 <= i < n && f in history[..n][i].flags;
        assert f in history[i].flags;
      }
    }
    forall f | f in FlagsIn(history) ensures f in FlagsIn(history[..n]) + history[n].flags {
      var i :| 0 <= i < |history| && f in history[i].flags;
      assert i < n ==> f in history[..n][i].flags;
    }
  }

  /**
   No history of raw readings changes a curated state or heals a row that another QC marked INVALID; its flags are the
   old ones together with every flag of the readings.
   */
  lemma {:induction false} ProtectedSurvives(ex: Stored, history: seq<TimedReading>, policy: Policy)
    requires Protected(Some(ex))
    ensures var s := RowAfterHistory(Some(ex), history, policy).value;
            && s.qcState == ex.qcState && FlagsOf(Some(s)) == FlagsOf(Some(ex)) + FlagsIn(history)
            && Protected(Some(s))
  {
    hide Encode, FieldsToWithdraw, EffectivePresent, MergeQc, Refused, FlagsIn;
    if history == [] {
      NoFlags();
    } else {
      var n := |history| - 1;
      ProtectedSurvives(ex, history[..n], policy);
      FlagsInNext(history);
      var s := RowAfterHistory(Some(ex), history[..n], policy).value;
      ProtectedStatesSurvive(s.qcState, FlagsOf(Some(s)), history[n].flags, EffectivePresent(history[n]));
    }
  }

  lemma NoFlags()
    ensures FlagsIn([]) == {}
  {
  }

  /** The same for the table: one call per reading over a protected row. */
  lemma ProtectedSurvivesCalls(before: Store, history: seq<TimedReading>, policy: Policy, k: Key)
    requires k in before && forall r :: r in history ==> KeyOf(r) == k
    requires Protected(Some(before[k]))
    ensures var after := After(before, history, policy);
            && k in after && after[k].qcState == before[k].qcState
            && FlagsOf(Some(after[k])) == FlagsOf(Some(before[k])) + FlagsIn(history) && Protected(Some(after[k]))
  {
    hide RowAfterHistory, After, KeyOf, FlagsOf, FlagsIn;
    AfterIsRow(before, history, policy, k);
    ExistingHasRow(before[k], history, policy);
    ProtectedSurvives(before[k], history, policy);
  }

  lemma ExistingHasRow(ex: Stored, history: seq<TimedReading>, policy: Policy)
    ensures RowAfterHistory(Some(ex), history, policy).Some?
  {
  }

  // ---------------------------------------------------------------- one call against many

  /** Someone supplies the field, and from then on nobody withdraws it. */
  predicate HeldToTheEnd(rows: seq<TimedReading>, c: Column) {
    exists j :: 0 <= j < |rows| && HeldFrom(rows, c, j)
  }

  predicate HeldFrom(rows: seq<TimedReading>, c: Column, j: int)
    requires 0 <= j < |rows|
  {
    c in Encode(rows[j].vals) && forall m :: j <= m < |rows| ==> c !in rows[m].withdraw
  }

  /** Some row withdraws the field. */
  predicate Withdrawn(rows: seq<TimedReading>, c: Column) {
    exists j :: 0 <= j < |rows| && c in rows[j].withdraw
  }

  lemma HeldFromNext(rows: seq<TimedReading>, c: Column, j: int)
    requires 0 <= j < |rows| - 1
    ensures HeldFrom(rows, c, j) <==> HeldFrom(rows[..|rows| - 1], c, j) && c !in rows[|rows| - 1].withdraw
  {
    hide Encode;
    var n := |rows| - 1;
    assert forall m :: 0 <= m < n ==> rows[..n][m] == rows[m];
  }

  lemma HeldNext(rows: seq<TimedReading>, c: Column)
    requires rows != []
    ensures var n := |rows| - 1;
            HeldToTheEnd(rows, c) <==>
            c !in rows[n].withdraw && (c in Encode(rows[n].vals) || HeldToTheEnd(rows[..n], c))
  {
    hide Encode;
    var n := |rows| - 1;
    assert HeldFrom(rows, c, n) <==> c !in rows[n].withdraw && c in Encode(rows[n].vals);
    hide HeldFrom;
    forall j | 0 <= j < n ensures HeldFrom(rows, c, j) <==> HeldFrom(rows[..n], c, j) && c !in rows[n].withdraw {
      HeldFromNext(rows, c, j);
    }
  }

  lemma WithdrawnNext(rows: seq<TimedReading>, c: Column)
    requires rows != []
    ensures Withdrawn(rows, c) <==> Withdrawn(rows[..|rows| - 1], c) || c in rows[|rows| - 1].withdraw
  {
    var n := |rows| - 1;
    assert forall m :: 0 <= m < n ==> rows[..n][m] == rows[m];
    if Withdrawn(rows[..n], c) {
      var j :| 0 <= j < n && c in rows[..n][j].withdraw;
      assert c in rows[j].withdraw;
    }
  }

  /** On an existing row, a field that some reading withdraws holds a value at the end iff it was held to the end. */
  lemma {:induction false} HeldIffStored(ex: Stored, rows: seq<TimedReading>, policy: Policy, c: Column)
    requires policy.allowWithdrawals && IsRevision(c)
    ensures var s := RowAfterHistory(Some(ex), rows, policy);
            s.Some? && (c in s.value.vals <==> HeldToTheEnd(rows, c) || (!Withdrawn(rows, c) && c in ex.vals))
  {
    if rows != [] {
      hide NextRow, HeldToTheEnd, Withdrawn;
      var n := |rows| - 1;
      HeldIffStored(ex, rows[..n], policy, c);
      HeldNext(rows, c);
      StepColumn(RowAfterHistory(Some(ex), rows[..n], policy), rows[n], policy, c);
      WithdrawnNext(rows, c);
    }
  }

  /** Without effective withdrawals, the last value supplied, else what was there. */
  lemma {:induction false} StoredColumnFrom(ex: Option<Stored>, history: seq<TimedReading>, policy: Policy, c: Column)
    requires history != [] && IsRevision(c) && (policy.allowWithdrawals ==> !Withdrawn(history, c))
    ensures var last := LastSupplied(history, policy, c);
            Get(RowAfterHistory(ex, history, policy).value.vals, c)
            == if last.Some? then last else if ex.Some? then Get(ex.value.vals, c) else None
  {
    hide NextRow, Encode, Withdrawn, IsRevision;
    var n := |history| - 1;
    StepColumn(RowAfterHistory(ex, history[..n], policy), history[n], policy, c);
    WithdrawnNext(history, c);
    if n > 0 {
      StoredColumnFrom(ex, history[..n], policy, c);
    }
  }

  lemma MergedWithdraws(rows: seq<TimedReading>, k: Key, c: Column)
    requires rows != [] && forall i :: 0 <= i < |rows| ==> KeyOf(rows[i]) == k
    ensures HasKey(rows, k) && (c in MergedFor(rows, k).withdraw <==> Withdrawn(rows, c))
  {
    hide KeyOf, MergedFor;
    assert KeyOf(rows[0]) == k;
    DedupeUnions(rows, k);
  }

  /** The row existed, and some reading withdraws the field. */
  predicate Nulling(before: Store, rows: seq<TimedReading>, policy: Policy, k: Key, c: Column) {
    k in before && policy.allowWithdrawals && Withdrawn(rows, c)
  }

  /** The value as its column keeps it, if it reaches it. */
  function Kept(c: Column, v: Option<Value>): Option<Value> {
    if v.Some? && Reaches(c, v.value) then Some(Cast(c, v.value)) else None
  }

  function Or(v: Option<Value>, otherwise: Option<Value>): Option<Value> {
    if v.Some? then v else otherwise
  }

  function ColumnOf(table: Store, k: Key, c: Column): Option<Value> {
    if k in table then Get(table[k].vals, c) else None
  }

  /**
   One call with several readings of a key against one call per reading. When some reading withdraws the field of an
   existing row, the one call leaves NULL, so the two agree exactly when nothing supplied later is kept to the end.
   Otherwise one writes the first value supplied and the other the last that reaches the column, or leaves what was
   there, and they agree exactly when this comes to the same.
   */
  lemma OneCallAgreesIff(before: Store, rows: seq<TimedReading>, policy: Policy, k: Key, c: Column)
    requires rows != [] && IsRevision(c)
    requires forall i :: 0 <= i < |rows| ==> KeyOf(rows[i]) == k
    ensures var once := Reconciled(before, Dedupe(rows), policy);
            var each := After(before, rows, policy);
            var was := ColumnOf(before, k, c);
            k in once && k in each
            && (ColumnOf(once, k, c) == ColumnOf(each, k, c) <==>
                  if Nulling(before, rows, policy, k, c) then !HeldToTheEnd(rows, c)
                  else Or(Kept(c, FirstValue(rows, k, c)), was) == Or(LastSupplied(rows, policy, c), was))
  {
    hide NextRow, Reconciled, Dedupe, After, RowAfterHistory, MergedFor, KeyOf, HasKey, IsRevision, Reaches, Cast;
    hide HeldToTheEnd, LastSupplied, FirstValue, Withdrawn, Encode;
    OnceColumn(before, rows, policy, k, c);
    EachColumn(before, rows, policy, k, c);
  }

  /** What one call leaves in a column. */
  lemma OnceColumn(before: Store, rows: seq<TimedReading>, policy: Policy, k: Key, c: Column)
    requires rows != [] && IsRevision(c) && forall i :: 0 <= i < |rows| ==> KeyOf(rows[i]) == k
    ensures var once := Reconciled(before, Dedupe(rows), policy);
            && k in once
            && ColumnOf(once, k, c) == if Nulling(before, rows, policy, k, c) then None
                                       else Or(Kept(c, FirstValue(rows, k, c)), ColumnOf(before, k, c))
  {
    hide NextRow, Reconciled, Dedupe, MergedFor, KeyOf, HasKey, IsRevision, Reaches, Cast, FirstValue, Withdrawn;
    MergedWithdraws(rows, k, c);
    RowOfKey(before, rows, policy, k);
    StepColumn(Get(before, k), MergedFor(rows, k), policy, c);
    MergedIsFirstValue(rows, k, c);
  }

  /** What one call per reading leaves there. */
  lemma EachColumn(before: Store, rows: seq<TimedReading>, policy: Policy, k: Key, c: Column)
    requires rows != [] && IsRevision(c) && forall i :: 0 <= i < |rows| ==> KeyOf(rows[i]) == k
    ensures var each := After(before, rows, policy);
            && k in each
            && (Nulling(before, rows, policy, k, c) ==> (ColumnOf(each, k, c).Some? <==> HeldToTheEnd(rows, c)))
            && (!Nulling(before, rows, policy, k, c) ==>
                  ColumnOf(each, k, c) == Or(LastSupplied(rows, policy, c), ColumnOf(before, k, c)))
  {
    forall r | r in rows ensures KeyOf(r) == k {
      var i :| 0 <= i < |rows| && rows[i] == r;
    }
    hide NextRow, After, RowAfterHistory, LastSupplied, KeyOf, Withdrawn, HeldToTheEnd, IsRevision, Encode;
    AfterIsRow(before, rows, policy, k);
    HistoryHasRow(rows, policy);
    if Nulling(before, rows, policy, k, c) {
      HeldIffStored(before[k], rows, policy, c);
    } else if k in before {
      StoredColumnFrom(Get(before, k), rows, policy, c);
    } else {
      StoredColumn(rows, policy, c);
    }
  }
}
