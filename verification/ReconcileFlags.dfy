/** What histories of validated readings make of the flags and the state of any stored row. */
module ReconcileFlags {
  import opened Prelude
  import opened Columns
  import opened Readings
  import opened Validation
  import opened Reconcile
  import opened ReconcileHistory

  /** The fields that the raw reading supplies once validated. */
  function PresentIn(raw: TimedReading): set<Column> {
    EffectivePresent(Validated(raw))
  }

  /** The flags that readings leave of given ones while the row is unprotected. */
  function FlagsRun(flags: set<string>, raws: seq<TimedReading>): set<string> {
    if raws == [] then flags
    else
      var n := |raws| - 1;
      (set f | f in FlagsRun(flags, raws[..n]) && !Supplied(f, PresentIn(raws[n]))) + Validated(raws[n]).flags
  }

  predicate HealedBy(raws: seq<TimedReading>, f: string, from: int) {
    exists j :: from <= j < |raws| && 0 <= j && Supplied(f, PresentIn(raws[j]))
  }

  predicate RaisedAt(raws: seq<TimedReading>, f: string, i: int) {
    0 <= i < |raws| && f in Validated(raws[i]).flags && !HealedBy(raws, f, i + 1)
  }

  lemma HealedNext(raws: seq<TimedReading>, f: string, from: int)
    requires raws != [] && from <= |raws| - 1
    ensures HealedBy(raws, f, from) <==>
            HealedBy(raws[..|raws| - 1], f, from) || Supplied(f, PresentIn(raws[|raws| - 1]))
  {
    hide Supplied, PresentIn;
    var n := |raws| - 1;
    assert forall j :: 0 <= j < n ==> raws[..n][j] == raws[j];
    if HealedBy(raws[..n], f, from) {
      var j :| from <= j < n && 0 <= j && Supplied(f, PresentIn(raws[..n][j]));
      assert Supplied(f, PresentIn(raws[j]));
    }
  }

  lemma RaisedNext(raws: seq<TimedReading>, f: string, i: int)
    requires raws != [] && i < |raws| - 1
    ensures RaisedAt(raws, f, i) <==> RaisedAt(raws[..|raws| - 1], f, i) && !Supplied(f, PresentIn(raws[|raws| - 1]))
  {
    hide HealedBy, Supplied, PresentIn, Validated;
    if i >= 0 { HealedNext(raws, f, i + 1); }
  }

  /** Some reading raised the flag and none has healed it since. */
  predicate RaisedSince(raws: seq<TimedReading>, f: string) {
    exists i :: 0 <= i < |raws| && RaisedAt(raws, f, i)
  }

  lemma RaisedLast(raws: seq<TimedReading>, f: string)
    requires raws != []
    ensures RaisedAt(raws, f, |raws| - 1) <==> f in Validated(raws[|raws| - 1]).flags
  {
    hide Supplied, PresentIn, Validated;
  }

  lemma RaisedSinceNext(raws: seq<TimedReading>, f: string)
    requires raws != []
    ensures var n := |raws| - 1;
            RaisedSince(raws, f) <==>
            f in Validated(raws[n]).flags || (RaisedSince(raws[..n], f) && !Supplied(f, PresentIn(raws[n])))
  {
    var n := |raws| - 1;
    RaisedLast(raws, f);
    hide RaisedAt, Supplied, PresentIn, Validated;
    forall i | 0 <= i < n
      ensures RaisedAt(raws, f, i) <==> RaisedAt(raws[..n], f, i) && !Supplied(f, PresentIn(raws[n]))
    {
      RaisedNext(raws, f, i);
    }
  }

  /** A flag is left iff it was there and never healed, or was raised and not healed since. */
  lemma {:induction false} FlagsRunMeaning(flags: set<string>, raws: seq<TimedReading>, f: string)
    ensures f in FlagsRun(flags, raws) <==> (f in flags && !HealedBy(raws, f, 0)) || RaisedSince(raws, f)
  {
    if raws != [] {
      hide HealedBy, RaisedSince, Supplied, PresentIn, Validated;
      FlagsRunMeaning(flags, raws[..|raws| - 1], f);
      HealedNext(raws, f, 0);
      RaisedSinceNext(raws, f);
    }
  }

  /** For the flags of validation that is the standing of the reading histories. */
  lemma RaisedSinceIsStanding(raws: seq<TimedReading>, c: Column, reason: string)
    requires IsNumeric(c)
    ensures RaisedSince(raws, FlagText(c, reason)) <==> Standing(raws, c, reason)
    ensures HealedBy(raws, FlagText(c, reason), 0) <==> exists j :: 0 <= j < |raws| && SuppliesValid(raws[j], c)
  {
    var f := FlagText(c, reason);
    hide Raises, SuppliesValid, Supplied, PresentIn, Validated, FlagText, IsNumeric;
    forall j | 0 <= j < |raws|
      ensures Supplied(f, PresentIn(raws[j])) <==> SuppliesValid(raws[j], c)
      ensures f in Validated(raws[j]).flags <==> Raises(raws[j], c, reason)
    {
      StandingTerms(raws[j], c, reason);
    }
    forall i | 0 <= i < |raws|
      ensures RaisedAt(raws, f, i) <==> Raises(raws[i], c, reason) && NotHealedSince(raws, c, i)
    {
      if HealedBy(raws, f, i + 1) {
        var j :| i + 1 <= j < |raws| && 0 <= j && Supplied(f, PresentIn(raws[j]));
        assert SuppliesValid(raws[j], c);
      }
    }
  }

  lemma StandingTerms(raw: TimedReading, c: Column, reason: string)
    requires IsNumeric(c)
    ensures Supplied(FlagText(c, reason), PresentIn(raw)) <==> SuppliesValid(raw, c)
    ensures FlagText(c, reason) in Validated(raw).flags <==> Raises(raw, c, reason)
  {
    hide FlagText, Supplied, SuppliesValid, Raises, Validated, EffectivePresent;
    HealsIff(raw, c, reason);
    RaisedFlags(raw, c, reason);
  }

  lemma StepUnprotected(ex: Option<Stored>, raw: TimedReading, policy: Policy)
    requires !Protected(ex)
    ensures var s := NextRow(ex, Validated(raw), policy);
            && FlagsOf(Some(s)) == (set f | f in FlagsOf(ex) && !Supplied(f, PresentIn(raw))) + Validated(raw).flags
            && s.qcState == Some(StateForFlags(FlagsOf(Some(s))))
  {
    hide Encode, FieldsToWithdraw, Supplied, EffectivePresent, StateForFlags, Validated, IsValidationFlag, Refused;
  }

  /** A flag that no validation has raised. */
  predicate HasForeign(flags: set<string>) {
    exists f :: f in flags && !IsValidationFlag(f)
  }

  /** No reading but the last leaves the row INVALID beside a flag that no validation has raised. */
  predicate StaysFree(flags: set<string>, raws: seq<TimedReading>) {
    HasForeign(flags) ==> forall j :: 1 <= j < |raws| ==> StateForFlags(FlagsRun(flags, raws[..j])) != Invalid
  }

  lemma {:induction false} ForeignStays(flags: set<string>, raws: seq<TimedReading>)
    ensures HasForeign(FlagsRun(flags, raws)) <==> HasForeign(flags)
  {
    hide IsValidationFlag, Validated, PresentIn;
    if raws != [] {
      var n := |raws| - 1;
      ForeignStays(flags, raws[..n]);
      ValidationFlagsOnly(raws[n]);
      var was := FlagsRun(flags, raws[..n]);
      if f :| f in was && !IsValidationFlag(f) {
        assert !Supplied(f, PresentIn(raws[n]));
        assert f in FlagsRun(flags, raws);
      }
    }
  }

  lemma ValidationFlagsOnly(raw: TimedReading)
    ensures forall f :: f in Validated(raw).flags ==> IsValidationFlag(f)
  {
    hide IsValidationFlag, Fault, FlagText;
    forall f | f in Validated(raw).flags ensures IsValidationFlag(f) {
      var q := Quarantine(raw.vals);
      var c :| c in q && Fault(c, q[c]).Some? && f == FlagText(c, Fault(c, q[c]).value);
      FlagNamesItsField(c, Fault(c, q[c]).value);
    }
  }

  /**
   From any unprotected row: as long as it stays free, the stored flags are the old ones not healed and the standing
   ones (see FlagsRunMeaning), and they decide the state.
   */
  lemma {:induction false} FlagsFromAnyRow(ex: Option<Stored>, raws: seq<TimedReading>, policy: Policy)
    requires !Protected(ex) && StaysFree(FlagsOf(ex), raws) && raws != []
    ensures var s := RowAfterHistory(ex, ValidatedAll(raws), policy);
            && s.Some? && FlagsOf(s) == FlagsRun(FlagsOf(ex), raws)
            && s.value.qcState == Some(StateForFlags(FlagsRun(FlagsOf(ex), raws)))
  {
    hide NextRow, Validated, Supplied, PresentIn, StateForFlags, HasForeign, StaysFree, Protected, FlagsOf;
    var n := |raws| - 1;
    var front := raws[..n];
    assert ValidatedAll(raws)[..n] == ValidatedAll(front);
    var mid := RowAfterHistory(ex, ValidatedAll(front), policy);
    if front != [] {
      StaysFreeBefore(FlagsOf(ex), raws);
      FlagsFromAnyRow(ex, front, policy);
      ForeignStays(FlagsOf(ex), front);
      UnprotectedAfter(mid);
    }
    StepUnprotected(mid, raws[n], policy);
  }

  lemma UnprotectedAfter(s: Option<Stored>)
    requires s.Some? && s.value.qcState == Some(StateForFlags(FlagsOf(s)))
    requires HasForeign(FlagsOf(s)) ==> StateForFlags(FlagsOf(s)) != Invalid
    ensures !Protected(s)
  {
    hide IsValidationFlag, NamesPrimary;
  }

  lemma StaysFreeBefore(flags: set<string>, raws: seq<TimedReading>)
    requires |raws| > 1 && StaysFree(flags, raws)
    ensures StaysFree(flags, raws[..|raws| - 1])
    ensures HasForeign(flags) ==> StateForFlags(FlagsRun(flags, raws[..|raws| - 1])) != Invalid
  {
    hide StateForFlags, FlagsRun, HasForeign;
    var n := |raws| - 1;
    assert forall j :: 1 <= j < n ==> raws[..n][..j] == raws[..j];
  }

  lemma {:induction false} HistoryInTwo(ex: Option<Stored>, history: seq<TimedReading>, policy: Policy, j: nat)
    requires j <= |history|
    ensures RowAfterHistory(ex, history, policy)
            == RowAfterHistory(RowAfterHistory(ex, history[..j], policy), history[j..], policy)
  {
    hide NextRow;
    var n := |history| - 1;
    if j == |history| {
      assert history[..j] == history;
    } else {
      HistoryInTwo(ex, history[..n], policy, j);
      assert history[..n][..j] == history[..j] && history[..n][j..] == history[j..][..n - j];
    }
  }

  /**
   The exception: once a reading leaves an unprotected row INVALID beside a flag that no validation has raised, the row
   is taken for one that another QC has marked, and no later reading heals it.
   */
  lemma ForeignFlagSticks(ex: Option<Stored>, raws: seq<TimedReading>, policy: Policy, j: nat)
    requires !Protected(ex) && HasForeign(FlagsOf(ex)) && 1 <= j <= |raws|
    requires StaysFree(FlagsOf(ex), raws[..j]) && StateForFlags(FlagsRun(FlagsOf(ex), raws[..j])) == Invalid
    ensures var s := RowAfterHistory(ex, ValidatedAll(raws), policy);
            && s.Some? && s.value.qcState == Some(Invalid) && FlagsRun(FlagsOf(ex), raws[..j]) <= FlagsOf(s)
  {
    hide StateForFlags, FlagsRun, RowAfterHistory, StaysFree, IsValidationFlag, Validated;
    var h := ValidatedAll(raws);
    FlagsFromAnyRow(ex, raws[..j], policy);
    ForeignStays(FlagsOf(ex), raws[..j]);
    assert h[..j] == ValidatedAll(raws[..j]);
    HistoryInTwo(ex, h, policy, j);
    var mid := RowAfterHistory(ex, h[..j], policy);
    ExistingHasRow(mid.value, h[j..], policy);
    ProtectedSurvives(mid.value, h[j..], policy);
  }

  lemma NegativePm25(bad: TimedReading)
    requires bad.vals == map[Pm25 := Number(Finite(-5.0))]
    ensures FlagText(Pm25, "negative") in Validated(bad).flags && NamesPrimary(FlagText(Pm25, "negative"))
  {
    assert Raises(bad, Pm25, "negative");
    hide Fault, Quarantine, Nulled, FlagsFor, Raises;
    RaisedFlags(bad, Pm25, "negative");
    FlagNamesItsField(Pm25, "negative");
  }

  lemma BamIsForeign()
    ensures !IsValidationFlag("bam")
  {
    assert "bam"[0] == 'b' && VALIDATION_FLAG_PREFIX[0] == 'v';
  }

  /** A raw row flagged "bam" stays INVALID for pm25 = -5 although the next reading supplies pm25 = 20. */
  lemma ForeignFlagBlocksHealing(ex: Stored, bad: TimedReading, good: TimedReading, policy: Policy)
    requires ex.qcState == Some(Raw) && ex.qcFlags == Some({"bam"})
    requires bad.vals == map[Pm25 := Number(Finite(-5.0))] && good.vals == map[Pm25 := Number(Finite(20.0))]
    ensures SuppliesValid(good, Pm25)
    ensures var s := RowAfterHistory(Some(ex), ValidatedAll([bad, good]), policy);
            && s.Some? && s.value.qcState == Some(Invalid) && FlagText(Pm25, "negative") in FlagsOf(s)
  {
    hide FlagText, Validated, IsValidationFlag, Supplied, NamesPrimary, RowAfterHistory;
    assert [bad, good][..1] == [bad] && [bad][..0] == [];
    BamIsForeign();
    NegativePm25(bad);
    assert "bam" in FlagsOf(Some(ex));
    assert FlagText(Pm25, "negative") in FlagsRun(FlagsOf(Some(ex)), [bad]);
    ForeignFlagSticks(Some(ex), [bad, good], policy, 1);
  }

  /** The first two for the table: one call per validated reading over any unprotected row, or none. */
  lemma ValidatedHistoryFrom(before: Store, raws: seq<TimedReading>, policy: Policy, k: Key)
    requires raws != [] && forall r :: r in raws ==> KeyOf(r) == k
    requires !Protected(Get(before, k)) && StaysFree(FlagsOf(Get(before, k)), raws)
    ensures var after := After(before, ValidatedAll(raws), policy);
            var flags := FlagsRun(FlagsOf(Get(before, k)), raws);
            k in after && FlagsOf(Some(after[k])) == flags && after[k].qcState == Some(StateForFlags(flags))
  {
    hide RowAfterHistory, After, KeyOf, FlagsRun, StateForFlags, StaysFree, Validated;
    ValidatedKeys(raws, k);
    AfterIsRow(before, ValidatedAll(raws), policy, k);
    FlagsFromAnyRow(Get(before, k), raws, policy);
  }
}
