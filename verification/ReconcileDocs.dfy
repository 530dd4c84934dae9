/** What a call leaves in the columns beside the values: the raw document, key by key, and the source. */
module ReconcileDocs {
  import opened Prelude
  import opened Columns
  import opened Readings
  import opened Validation
  import opened Reconcile
  import opened ReconcileTheorems

  /** The document under a top-level name; a missing raw document has none. */
  function DocAt(raw: Option<RawDoc>, name: string): Option<Json> {
    if raw.Some? then Get(raw.value, name) else None
  }

  /** The row's own source, or the caller's when it names none. */
  function SourceOf(r: TimedReading, policy: Policy): string {
    if r.source.Some? && r.source.value != "" then r.source.value else policy.source
  }

  /** A new row takes the raw document as it comes, and its source from the row before the policy. */
  lemma NewRow(r: TimedReading, policy: Policy)
    ensures NextRow(None, r, policy).raw == r.raw
    ensures NextRow(None, r, policy).source == SourceOf(r, policy)
  {
    hide Encode, MergeQc, EffectivePresent, Refused;
  }

  /**
   Under each name a touched row takes the incoming document where there is one and keeps its own where there is none;
   a withdrawal that finds something puts its own document under "withdrawn"; an untouched row keeps everything.
   */
  lemma DocAfter(ex: Stored, r: TimedReading, policy: Policy, name: string)
    ensures var touched := Upserted(Some(ex), r, policy).1;
            DocAt(NextRow(Some(ex), r, policy).raw, name)
            == if Fires(Some(ex), r, policy) && name == "withdrawn"
               then Some(Withdrawal(FieldsToWithdraw(r), policy.runId))
               else if touched && DocAt(r.raw, name).Some? then DocAt(r.raw, name)
               else DocAt(ex.raw, name)
    ensures !Upserted(Some(ex), r, policy).1 && !Fires(Some(ex), r, policy) ==> NextRow(Some(ex), r, policy) == ex
    ensures NextRow(Some(ex), r, policy).source == ex.source
  {
    hide Encode, FieldsToWithdraw, MergeQc, EffectivePresent, Refused;
  }

  /** The same for the row of a key after a whole call, where duplicates count with their merged row. */
  lemma DocOfKey(before: Store, rows: seq<TimedReading>, policy: Policy, k: Key, name: string)
    requires HasKey(rows, k)
    ensures var after := Reconciled(before, Dedupe(rows), policy);
            var r := MergedFor(rows, k);
            && k in after
            && (k !in before ==> after[k].raw == r.raw && after[k].source == SourceOf(r, policy))
            && (k in before ==>
                  && after[k].source == before[k].source
                  && DocAt(after[k].raw, name)
                     == if Fires(Some(before[k]), r, policy) && name == "withdrawn"
                        then Some(Withdrawal(FieldsToWithdraw(r), policy.runId))
                        else if Upserted(Some(before[k]), r, policy).1 && DocAt(r.raw, name).Some?
                        then DocAt(r.raw, name)
                        else DocAt(before[k].raw, name))
  {
    hide Reconciled, Dedupe, MergedFor, NextRow, Fires, Upserted, FieldsToWithdraw, SourceOf, DocAt;
    RowOfKey(before, rows, policy, k);
    NewRow(MergedFor(rows, k), policy);
    if k in before {
      DocAfter(before[k], MergedFor(rows, k), policy, name);
    }
  }

  // ---------------------------------------------------------------- the comparison of values

  /** Two finite numbers count as the same iff they differ by no more than one of the three bounds. */
  lemma CloseIff(x: real, y: real)
    ensures IsClose(Finite(x), Finite(y)) <==>
            || -0.000000001 <= x - y <= 0.000000001
            || (x >= 0.0 && -0.000000001 * x <= x - y <= 0.000000001 * x)
            || (x <= 0.0 && 0.000000001 * x <= x - y <= -0.000000001 * x)
            || (y >= 0.0 && -0.000000001 * y <= x - y <= 0.000000001 * y)
            || (y <= 0.0 && 0.000000001 * y <= x - y <= -0.000000001 * y)
  {
  }

  /** Infinities are close to themselves, NaN to nothing, and a number is never the same as a text. */
  lemma OtherValuesDiffer(a: Value, b: Value)
    ensures a.Number? && b.Number? && (!a.f.Finite? || !b.f.Finite?) ==>
            (ValuesDiffer(a, b) <==> a != b || a.f == NaN)
    ensures !(a.Number? && b.Number?) ==> (ValuesDiffer(a, b) <==> a != b)
  {
    if a.Number? && b.Number? { assert a == Number(a.f) && b == Number(b.f); }
  }

  // ---------------------------------------------------------------- which flags a row heals

  /** A row that lists no supplied fields heals the flags of every revision column it has a value for. */
  lemma UnlistedHeals(r: TimedReading, c: Column, reason: string)
    requires r.present == {} && IsRevision(c)
    ensures Supplied(FlagText(c, reason), EffectivePresent(r)) <==> c in r.vals
  {
    hide FlagText, FlagField, IsValidationFlag;
    FlagNamesItsField(c, reason);
    var present := EffectivePresent(r);
    assert c in present <==> c in r.vals;
    assert Supplied(FlagText(c, reason), present) <==> c in present;
  }

  /** One that lists them heals exactly the flags of the listed ones. */
  lemma ListedHeals(r: TimedReading, c: Column, reason: string)
    requires r.present != {}
    ensures Supplied(FlagText(c, reason), EffectivePresent(r)) <==> c in r.present
  {
    hide FlagText, FlagField, IsValidationFlag;
    FlagNamesItsField(c, reason);
  }

  /** Curated are OK and SUSPECT; of the others only an INVALID beside a flag of other origin is left alone. */
  lemma ProtectedIff(exState: Option<QcState>, exFlags: set<string>)
    ensures IsCurated(exState) || InvalidByOther(exState, exFlags) <==>
            || exState == Some(Ok) || exState == Some(Suspect)
            || (exState == Some(Invalid) && exists f :: f in exFlags && !IsValidationFlag(f))
  {
  }

  // ---------------------------------------------------------------- what the insert refuses and what it drops

  /**
   A row is refused iff some stored value that is no pollutant code does not reach its column; what is not refused
   reaches its column, unknown pollutant codes apart.
   */
  lemma RefusedIff(r: TimedReading)
    ensures Refused(r) <==> exists c :: c in r.vals && IsStored(c) && !IsEnum(c) && c !in Encode(r.vals)
    ensures !Refused(r) ==> forall c :: c in r.vals && IsStored(c) && c !in Encode(r.vals) ==> IsEnum(c)
  {
    hide Storable, Cast, IsStored, IsEnum;
  }

  /** The pollutant codes are the names of the pollutant columns. */
  lemma CodesAreNames(v: Value)
    ensures IsPollutantCode(v) <==> v.Text? && exists c :: IsPollutant(c) && v.s == Name(c)
  {
    assert Name(Pm25) == "pm25" && Name(Pm10) == "pm10" && Name(O3) == "o3";
    assert Name(No2) == "no2" && Name(So2) == "so2" && Name(Co) == "co";
  }

  /** A value is refused for being a number that is not finite, or text that is no number in a measured column. */
  lemma StorableIff(c: Column, v: Value)
    ensures Storable(c, v) <==>
            match v
            case Number(f) => f.Finite?
            case Text(_, parsed) => IsNumeric(c) ==> parsed.Some?
            case Printed(_) => true
  {
    hide IsNumeric;
  }
}
