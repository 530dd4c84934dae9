/** Exact replay: reconciling the same rows a second time touches nothing, and exactly when. */
module ReconcileReplay {
  import opened Prelude
  import opened Columns
  import opened Readings
  import opened Validation
  import opened Reconcile
  import opened ReconcileTheorems
  import opened ReconcileUndo

  /**
   The caller's side of replay stability for one row: it supplies no value for a field it withdraws, and
   no unit for a withdrawn pollutant when the stored row holds one of the withdrawn fields.
   */
  predicate ReplayClean(ex: Option<Stored>, r: TimedReading, policy: Policy) {
    policy.allowWithdrawals ==>
      && (forall c :: c in FieldsToWithdraw(r) ==> c !in Encode(r.vals))
      && (ex.Some? && (exists c :: c in FieldsToWithdraw(r) && c in ex.value.vals) ==>
            forall c :: c in FieldsToWithdraw(r) && IsPollutant(c) ==> UnitsOf(c) !in Encode(r.vals))
  }

  /** The second call neither upserts nor withdraws anything in this row. */
  predicate Untouched(ex: Option<Stored>, r: TimedReading, policy: Policy) {
    !Upserted(ex, r, policy).1 && !Fires(ex, r, policy)
  }

  /** An upsert onto an existing row is skipped iff no column and no QC value would change. */
  lemma TouchedIff(s: Stored, r: TimedReading, policy: Policy)
    ensures !Upserted(Some(s), r, policy).1 <==>
      var (state, flags) := MergeQc(s.qcState, FlagsOf(Some(s)), r.flags, EffectivePresent(r));
      && (forall c :: c in Encode(r.vals) ==> Get(s.vals, c) == Some(Encode(r.vals)[c]))
      && s.qcState == Some(state) && s.qcFlags == NullIfEmpty(flags)
  {
    hide MergeQc, EffectivePresent, FlagsOf;
    var e := Encode(r.vals);
    if forall c :: c in e ==> Get(s.vals, c) == Some(e[c]) {
      assert s.vals + e == s.vals;
    } else {
      var c :| c in e && Get(s.vals, c) != Some(e[c]);
      assert (s.vals + e)[c] == e[c];
    }
  }

  /** Whatever was stored before, the QC columns are already what a replay would write. */
  lemma QcSettles(ex: Option<Stored>, r: TimedReading, policy: Policy)
    ensures var s := NextRow(ex, r, policy);
            var (state, flags) := MergeQc(s.qcState, FlagsOf(Some(s)), r.flags, EffectivePresent(r));
            s.qcState == Some(state) && s.qcFlags == NullIfEmpty(flags)
  {
    hide Encode, FieldsToWithdraw, MergeQc, EffectivePresent;
    var s := NextRow(ex, r, policy);
    var (state, flags) := MergeQc(StateOf(ex), FlagsOf(ex), r.flags, EffectivePresent(r));
    assert s.qcState == Some(state) && s.qcFlags == NullIfEmpty(flags);
    MergeQcIdempotent(StateOf(ex), FlagsOf(ex), r.flags, EffectivePresent(r));
  }

  /** A replayed row is left alone iff it is clean. */
  lemma ReplayRow(ex: Option<Stored>, r: TimedReading, policy: Policy)
    ensures ReplayClean(ex, r, policy) <==> Untouched(Some(NextRow(ex, r, policy)), r, policy)
  {
    hide NextRow, FieldsToWithdraw, Encode, Upserted, Fires, MergeQc, EffectivePresent;
    var s := NextRow(ex, r, policy);
    QcSettles(ex, r, policy);
    TouchedIff(s, r, policy);
    FiresIff(ex, r, policy);
    FiresIff(Some(s), r, policy);
    forall c ensures Get(s.vals, c)
            == if NulledBy(ex, r, policy, c) then None
               else if c in Encode(r.vals) then Some(Encode(r.vals)[c])
               else if ex.Some? then Get(ex.value.vals, c) else None {
      NextColumn(ex, r, policy, c);
    }
    if ReplayClean(ex, r, policy) {
      forall c | c in Encode(r.vals) ensures Get(s.vals, c) == Some(Encode(r.vals)[c]) {
        assert !NulledBy(ex, r, policy, c);
      }
      forall c | c in FieldsToWithdraw(r) && policy.allowWithdrawals ensures c !in s.vals && c !in Encode(r.vals) {
        assert ex.Some? && c in ex.value.vals ==> NulledBy(ex, r, policy, c);
      }
    } else {
      if c :| c in FieldsToWithdraw(r) && c in Encode(r.vals) {
        assert ex.Some? ==> NulledBy(ex, r, policy, c);
      } else {
        var c :| c in FieldsToWithdraw(r) && IsPollutant(c) && UnitsOf(c) in Encode(r.vals);
        assert NulledBy(ex, r, policy, UnitsOf(c));
      }
    }
  }

  // ---------------------------------------------------------------- a whole call

  predicate AllClean(before: Store, rows: seq<TimedReading>, policy: Policy) {
    forall r :: r in rows ==> ReplayClean(Get(before, KeyOf(r)), r, policy)
  }

  /** A call counts every row as unchanged and withdraws nothing iff it touches no row. */
  lemma {:induction false} CountsQuiet(before: Store, rows: seq<TimedReading>, policy: Policy)
    ensures Count(before, rows, policy) == Counts(0, 0, |rows|, 0) <==>
            forall r :: r in rows ==> Untouched(Get(before, KeyOf(r)), r, policy)
  {
    hide Upserted, KeyOf;
    if rows != [] {
      var n := |rows| - 1;
      CountsQuiet(before, rows[..n], policy);
      EveryRowCounted(before, rows[..n], policy);
      FiresNeedsFields(Get(before, KeyOf(rows[n])), rows[n], policy);
      assert forall r :: r in rows <==> r in rows[..n] || r == rows[n] by {
        assert rows == rows[..n] + [rows[n]];
      }
    }
  }

  lemma FiresNeedsFields(ex: Option<Stored>, r: TimedReading, policy: Policy)
    ensures Fires(ex, r, policy) ==> |FieldsToWithdraw(r)| > 0
  {
  }

  lemma UntouchedStays(ex: Option<Stored>, r: TimedReading, policy: Policy)
    requires Untouched(ex, r, policy)
    ensures Some(NextRow(ex, r, policy)) == ex
  {
    hide Prepare, FieldsToWithdraw;
  }

  /**
   Replaying a call leaves every row uncounted but as unchanged iff every row is clean; the table is then
   the same value as after the first call.
   */
  lemma ExactReplay(before: Store, rows: seq<TimedReading>, policy: Policy)
    ensures var d := Dedupe(rows);
            var after := Reconciled(before, d, policy);
            && (AllClean(before, d, policy) <==> Count(after, d, policy) == Counts(0, 0, |d|, 0))
            && (AllClean(before, d, policy) ==> Reconciled(after, d, policy) == after)
  {
    hide NextRow, Upserted, Fires, ReplayClean, MergedFor, Dedupe, Reconciled, Untouched;
    var d := Dedupe(rows);
    var after := Reconciled(before, d, policy);
    forall r | r in d
      ensures ReplayClean(Get(before, KeyOf(r)), r, policy) <==> Untouched(Get(after, KeyOf(r)), r, policy)
    {
      DedupedRow(rows, r);
      RowOfKey(before, rows, policy, KeyOf(r));
      ReplayRow(Get(before, KeyOf(r)), r, policy);
    }
    CountsQuiet(after, d, policy);
    if AllClean(before, d, policy) {
      forall k ensures Get(Reconciled(after, d, policy), k) == Get(after, k) {
        RowOfKey(after, rows, policy, k);
        if HasKey(rows, k) {
          MergedInDedupe(rows, k);
          UntouchedStays(Get(after, k), MergedFor(rows, k), policy);
        }
      }
      SameMap(Reconciled(after, d, policy), after);
    }
  }

  lemma DedupedRow(rows: seq<TimedReading>, r: TimedReading)
    requires r in Dedupe(rows)
    ensures HasKey(rows, KeyOf(r)) && r == MergedFor(rows, KeyOf(r))
  {
    hide MergedFor;
    var i :| 0 <= i < |Dedupe(rows)| && Dedupe(rows)[i] == r;
    assert KeyOrder(rows)[i] in KeyOrder(rows);
  }

  // ---------------------------------------------------------------- revisions of a replay

  /** A value that is dropped, as an unknown pollutant code is, while the stored one contradicts it. */
  predicate Stray(ex: Option<Stored>, r: TimedReading, policy: Policy, c: Column) {
    && c in r.vals && !Reaches(c, r.vals[c])
    && ex.Some? && c in ex.value.vals && ValuesDiffer(ex.value.vals[c], r.vals[c])
    && !(policy.allowWithdrawals && c in r.withdraw)
  }

  /** A number supplied as text, or a text column given a number: the table keeps another type than the row has. */
  predicate Recast(r: TimedReading, c: Column) {
    c in r.vals && Reaches(c, r.vals[c]) && (IsNumeric(c) <==> !r.vals[c].Number?)
  }

  /** The comparison tells a value from the one it is stored as iff their types differ. */
  lemma CastDiffers(c: Column, v: Value)
    requires Reaches(c, v)
    ensures ValuesDiffer(Cast(c, v), v) <==> (IsNumeric(c) <==> !v.Number?)
  {
  }

  /** The replay of a clean row logs nothing iff it carries no stray value and no value of another type. */
  lemma ReplayRevisions(ex: Option<Stored>, r: TimedReading, policy: Policy)
    requires ReplayClean(ex, r, policy)
    ensures RevisedBy(Some(NextRow(ex, r, policy)), r) == [] <==>
            forall c :: IsRevision(c) ==> !Stray(ex, r, policy, c) && !Recast(r, c)
  {
    hide NextRow, ValuesDiffer, Encode, FieldsToWithdraw, Fires, Stray, Recast;
    var s := NextRow(ex, r, policy);
    forall c | IsRevision(c)
      ensures (c in r.vals && c in s.vals && ValuesDiffer(s.vals[c], r.vals[c])) <==>
              Stray(ex, r, policy, c) || Recast(r, c)
    {
      ReplayColumn(ex, r, policy, c);
    }
    DiffEmpty(s, r, REVISION_COLUMNS);
    forall c ensures IsRevision(c) <==> c in REVISION_COLUMNS { RevisionListed(c); }
  }

  lemma {:induction false} DiffEmpty(ex: Stored, r: TimedReading, cols: seq<Column>)
    ensures Diff(ex, r, cols) == [] <==>
            forall c :: c in cols ==> !(c in r.vals && c in ex.vals && ValuesDiffer(ex.vals[c], r.vals[c]))
  {
    hide ValuesDiffer, KeyOf;
    if cols != [] {
      var n := |cols| - 1;
      DiffEmpty(ex, r, cols[..n]);
      assert forall c :: c in cols <==> c in cols[..n] || c == cols[n] by { assert cols == cols[..n] + [cols[n]]; }
    }
  }

  lemma ReplayColumn(ex: Option<Stored>, r: TimedReading, policy: Policy, c: Column)
    requires ReplayClean(ex, r, policy) && IsRevision(c)
    ensures var s := NextRow(ex, r, policy);
            (c in r.vals && c in s.vals && ValuesDiffer(s.vals[c], r.vals[c])) <==>
            Stray(ex, r, policy, c) || Recast(r, c)
  {
    hide NextRow, FieldsToWithdraw, Fires, ValuesDiffer, Reaches, Cast, ReplayClean, IsRevision, NulledBy;
    NextColumn(ex, r, policy, c);
    NulledRevision(ex, r, policy, c);
    if c in r.vals && Reaches(c, r.vals[c]) { CastDiffers(c, r.vals[c]); }
  }

  /** Which revision columns a clean row nulls. */
  lemma NulledRevision(ex: Option<Stored>, r: TimedReading, policy: Policy, c: Column)
    requires ReplayClean(ex, r, policy) && IsRevision(c)
    ensures c in Encode(r.vals) ==> !NulledBy(ex, r, policy, c)
    ensures ex.Some? && c in ex.value.vals ==>
            (NulledBy(ex, r, policy, c) <==> policy.allowWithdrawals && c in r.withdraw)
  {
    hide FieldsToWithdraw, Fires, Encode;
    FiresIff(ex, r, policy);
    forall f ensures f in FieldsToWithdraw(r) <==> f in r.withdraw && IsRevision(f) { FieldsToWithdrawMember(r, f); }
    assert !IsUnits(c);
  }

  /** A clean row finds nothing to withdraw the second time. */
  lemma ReplayWithdraws(ex: Option<Stored>, r: TimedReading, policy: Policy)
    requires ReplayClean(ex, r, policy)
    ensures WithdrawnBy(Some(NextRow(ex, r, policy)), r, policy) == []
  {
    hide NextRow, Upserted, FieldsToWithdraw;
    ReplayRow(ex, r, policy);
  }

  /** A call logs nothing iff none of its rows does. */
  lemma {:induction false} LogsNothing(before: Store, rows: seq<TimedReading>, policy: Policy)
    ensures AllRevisions(before, rows, policy) == [] <==>
            forall r :: r in rows ==> RowLogsNothing(before, r, policy)
  {
    hide RevisedBy, WithdrawnBy, KeyOf;
    if rows != [] {
      var n := |rows| - 1;
      LogsNothing(before, rows[..n], policy);
      LogsNothingNext(before, rows, policy);
      hide AllRevisions, RowLogsNothing;
      assert forall r :: r in rows <==> r in rows[..n] || r == rows[n] by { assert rows == rows[..n] + [rows[n]]; }
    }
  }

  lemma LogsNothingNext(before: Store, rows: seq<TimedReading>, policy: Policy)
    requires rows != []
    ensures AllRevisions(before, rows, policy) == [] <==>
            AllRevisions(before, rows[..|rows| - 1], policy) == [] && RowLogsNothing(before, rows[|rows| - 1], policy)
  {
    hide RevisedBy, WithdrawnBy, KeyOf;
  }

  predicate RowLogsNothing(before: Store, r: TimedReading, policy: Policy) {
    RevisedBy(Get(before, KeyOf(r)), r) == [] && WithdrawnBy(Get(before, KeyOf(r)), r, policy) == []
  }

  /** No value of the row has another type than its column, and none is dropped that the stored one contradicts. */
  ghost predicate Settled(ex: Option<Stored>, r: TimedReading, policy: Policy) {
    forall c :: IsRevision(c) ==> !Stray(ex, r, policy, c) && !Recast(r, c)
  }

  /** The replay of a clean call, withdrawals included, logs nothing iff every row is settled. */
  lemma ReplayLogsNothingIff(before: Store, rows: seq<TimedReading>, policy: Policy)
    requires AllClean(before, Dedupe(rows), policy)
    ensures var d := Dedupe(rows);
            AllRevisions(Reconciled(before, d, policy), d, policy) == [] <==>
            forall r :: r in d ==> Settled(Get(before, KeyOf(r)), r, policy)
  {
    hide NextRow, MergedFor, Dedupe, Reconciled, RevisedBy, WithdrawnBy, ReplayClean, AllRevisions, Stray, Recast;
    var d := Dedupe(rows);
    var after := Reconciled(before, d, policy);
    forall r | r in d ensures RowLogsNothing(after, r, policy) <==> Settled(Get(before, KeyOf(r)), r, policy) {
      var ex := Get(before, KeyOf(r));
      DedupedRow(rows, r);
      RowOfKey(before, rows, policy, KeyOf(r));
      ReplayRevisions(ex, r, policy);
      ReplayWithdraws(ex, r, policy);
    }
    LogsNothing(after, d, policy);
  }

  /** The row supplies neither a value nor a unit for a field it withdraws. */
  predicate KeepsApart(r: TimedReading) {
    forall c :: c in FieldsToWithdraw(r) ==>
      c !in Encode(r.vals) && (IsPollutant(c) ==> UnitsOf(c) !in Encode(r.vals))
  }

  /**
   Replaying rows that supply nothing they withdraw changes no table and counts every row as unchanged; it logs nothing
   iff every row is settled.
   */
  lemma SilentReplay(before: Store, rows: seq<TimedReading>, policy: Policy)
    requires forall r :: r in Dedupe(rows) ==> KeepsApart(r)
    ensures var d := Dedupe(rows);
            var after := Reconciled(before, d, policy);
            && Reconciled(after, d, policy) == after
            && Count(after, d, policy) == Counts(0, 0, |d|, 0)
            && (AllRevisions(after, d, policy) == [] <==>
                  forall r :: r in d ==> Settled(Get(before, KeyOf(r)), r, policy))
  {
    forall r | r in Dedupe(rows) ensures ReplayClean(Get(before, KeyOf(r)), r, policy) {
      hide Encode, FieldsToWithdraw, Dedupe, KeyOf;
    }
    hide Dedupe, Reconciled, AllRevisions, Count, ReplayClean, KeepsApart, Settled;
    ExactReplay(before, rows, policy);
    ReplayLogsNothingIff(before, rows, policy);
  }

  // ---------------------------------------------------------------- duplicates

  /** Neither of two rows supplies what the other withdraws. */
  predicate Compatible(r: TimedReading, s: TimedReading) {
    forall c :: c in r.withdraw && IsRevision(c) ==>
      c !in Encode(s.vals) && (IsPollutant(c) ==> UnitsOf(c) !in Encode(s.vals))
  }

  /** What a merged row supplies, one of its rows supplies. */
  lemma {:induction false} MergedSupplies(rows: seq<TimedReading>, k: Key, c: Column)
    requires HasKey(rows, k) && c in Encode(MergedFor(rows, k).vals)
    ensures exists r :: r in rows && KeyOf(r) == k && c in Encode(r.vals)
  {
    hide Reaches, Cast;
    var n := |rows| - 1;
    assert rows[n] in rows;
    if HasKey(rows[..n], k) && c in Encode(MergedFor(rows[..n], k).vals) {
      MergedSupplies(rows[..n], k, c);
    } else {
      assert KeyOf(rows[n]) == k && c in Encode(rows[n].vals);
    }
  }

  /** Merging duplicates keeps that apart when no two rows of a key stand against each other. */
  lemma MergedKeepsApart(rows: seq<TimedReading>)
    requires forall r, s :: r in rows && s in rows && KeyOf(r) == KeyOf(s) ==> Compatible(r, s)
    ensures forall r :: r in Dedupe(rows) ==> KeepsApart(r)
  {
    hide Encode, Dedupe, MergedFor, FieldsToWithdraw;
    forall m, c | m in Dedupe(rows) && c in FieldsToWithdraw(m)
      ensures c !in Encode(m.vals) && (IsPollutant(c) ==> UnitsOf(c) !in Encode(m.vals))
    {
      var k := KeyOf(m);
      DedupedRow(rows, m);
      FieldsToWithdrawMember(m, c);
      DedupeUnions(rows, k);
      var i :| 0 <= i < |rows| && KeyOf(rows[i]) == k && c in rows[i].withdraw;
      assert rows[i] in rows;
      if c in Encode(m.vals) {
        MergedSupplies(rows, k, c);
      }
      if IsPollutant(c) && UnitsOf(c) in Encode(m.vals) {
        MergedSupplies(rows, k, UnitsOf(c));
      }
    }
  }

  /**
   It is not enough that each row keeps it apart on its own: when one row supplies a field and a duplicate withdraws
   it, the replay writes the value and withdraws it again.
   */
  lemma DuplicatesBreakReplay(before: Store, r: TimedReading, s: TimedReading, c: Column, policy: Policy)
    requires KeyOf(r) == KeyOf(s) && KeepsApart(r) && KeepsApart(s) && policy.allowWithdrawals
    requires c in Encode(r.vals) && c in s.withdraw && IsRevision(c)
    ensures var d := Dedupe([r, s]);
            Count(Reconciled(before, d, policy), d, policy) != Counts(0, 0, |d|, 0)
  {
    var rows := [r, s];
    var k := KeyOf(r);
    assert KeyOf(rows[0]) == k && rows[..1] == [r] && KeyOf([r][0]) == k;
    var m := MergedFor(rows, k);
    assert m == MergeInto(MergedFor([r], k), s) && MergedFor([r], k) == AtHour(r);
    MergedInDedupe(rows, k);
    FieldsToWithdrawMember(m, c);
    assert c in Encode(m.vals);
    assert !ReplayClean(Get(before, KeyOf(m)), m, policy);
    hide Dedupe, Reconciled, Count, ReplayClean, MergedFor;
    ExactReplay(before, rows, policy);
  }

  // ---------------------------------------------------------------- replays that log every time

  /** One reading, replayed over what its first call left, is unchanged and yet logged unless it is settled. */
  lemma OneRowReplay(before: Store, r: TimedReading, policy: Policy)
    requires r.withdraw == {}
    ensures var d := Dedupe([r]);
            var after := Reconciled(before, d, policy);
            && Count(after, d, policy) == Counts(0, 0, 1, 0)
            && (AllRevisions(after, d, policy) == [] <==> Settled(Get(before, KeyOf(r)), r, policy))
  {
    DedupeOfOne(r);
    forall c ensures c !in FieldsToWithdraw(AtHour(r)) { FieldsToWithdrawMember(AtHour(r), c); }
    assert KeepsApart(AtHour(r));
    assert KeyOf(AtHour(r)) == KeyOf(r);
    forall m | m in [AtHour(r)]
      ensures KeepsApart(m)
              && (Settled(Get(before, KeyOf(m)), m, policy) <==> Settled(Get(before, KeyOf(r)), r, policy))
    {
      SettledAtHour(Get(before, KeyOf(r)), r, policy);
    }
    assert AtHour(r) in [AtHour(r)];
    hide Dedupe, Reconciled, Count, AllRevisions, Settled, KeepsApart, AtHour, KeyOf;
    SilentReplay(before, [r], policy);
  }

  lemma DedupeOfOne(r: TimedReading)
    ensures Dedupe([r]) == [AtHour(r)]
  {
    assert [r][..0] == [] && KeyOf([r][0]) == KeyOf(r);
    assert KeyOrder([r]) == [KeyOf(r)];
    assert HasKey([r], KeyOf(r)) && MergedFor([r], KeyOf(r)) == AtHour(r);
  }

  lemma SettledAtHour(ex: Option<Stored>, r: TimedReading, policy: Policy)
    ensures Settled(ex, AtHour(r), policy) <==> Settled(ex, r, policy)
  {
    hide Reaches, ValuesDiffer;
    forall c
      ensures Stray(ex, AtHour(r), policy, c) <==> Stray(ex, r, policy, c)
      ensures Recast(AtHour(r), c) <==> Recast(r, c)
    {
    }
  }

  /** main_us "p3" over a stored "pm25": dropped by every call, and logged by every call. */
  lemma StrayCodeIsLoggedAgain(before: Store, r: TimedReading, policy: Policy)
    requires r.withdraw == {} && r.vals == map[MainUs := Text("p3", None)]
    requires KeyOf(r) in before && Get(before[KeyOf(r)].vals, MainUs) == Some(Text("pm25", None))
    ensures var d := Dedupe([r]);
            var after := Reconciled(before, d, policy);
            && Count(after, d, policy) == Counts(0, 0, 1, 0)
            && AllRevisions(after, d, policy) != []
  {
    assert "p3" !in {"pm25", "pm10", "o3", "no2", "so2", "co"} by {
      assert |"p3"| == 2 && "p3"[0] != "o3"[0] && "p3"[0] != "co"[0];
    }
    assert |"p3"| == 2 && |"pm25"| == 4;
    assert Stray(Get(before, KeyOf(r)), r, policy, MainUs);
    hide Dedupe, Reconciled, Count, AllRevisions;
    OneRowReplay(before, r, policy);
  }

  /** pm25 supplied as the text "12.5": stored as a number, and logged by every later call. */
  lemma TextNumberIsLoggedAgain(before: Store, r: TimedReading, policy: Policy)
    requires r.withdraw == {} && r.vals == map[Pm25 := Text("12.5", Some(Finite(12.5)))]
    ensures Sane(Pm25, r.vals[Pm25])
    ensures var d := Dedupe([r]);
            var after := Reconciled(before, d, policy);
            && Count(after, d, policy) == Counts(0, 0, 1, 0)
            && AllRevisions(after, d, policy) != []
  {
    assert Recast(r, Pm25);
    hide Dedupe, Reconciled, Count, AllRevisions;
    OneRowReplay(before, r, policy);
  }
}
