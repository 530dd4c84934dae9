/** What `reconcile_and_upsert_readings` promises about the table, for every table and every list of rows. */
module ReconcileTheorems {
  import opened Prelude
  import opened Columns
  import opened Readings
  import opened Validation
  import opened Reconcile

  // ---------------------------------------------------------------- dedupe_rows

  predicate Supplies(rows: seq<TimedReading>, k: Key, c: Column, i: int) {
    0 <= i < |rows| && KeyOf(rows[i]) == k && c in rows[i].vals
  }

  predicate FirstSupplier(rows: seq<TimedReading>, k: Key, c: Column, i: int) {
    Supplies(rows, k, c, i) && forall j :: 0 <= j < i ==> !Supplies(rows, k, c, j)
  }

  /** The first value that a row of key `k` supplies for column `c`, scanning the rows in order. */
  function FirstValue(rows: seq<TimedReading>, k: Key, c: Column): Option<Value> {
    if rows == [] then None
    else
      var n := |rows| - 1;
      var v := FirstValue(rows[..n], k, c);
      if v.None? && KeyOf(rows[n]) == k then Get(rows[n].vals, c) else v
  }

  lemma {:induction false} FirstValueMeaning(rows: seq<TimedReading>, k: Key, c: Column)
    ensures FirstValue(rows, k, c).None? ==> forall i :: !Supplies(rows, k, c, i)
    ensures FirstValue(rows, k, c).Some? ==>
      exists i :: FirstSupplier(rows, k, c, i) && rows[i].vals[c] == FirstValue(rows, k, c).value
  {
    if rows != [] {
      var n := |rows| - 1;
      var front := rows[..n];
      FirstValueMeaning(front, k, c);
      forall i ensures Supplies(rows, k, c, i) <==> Supplies(front, k, c, i) || (i == n && Supplies(rows, k, c, n)) {}
      if FirstValue(front, k, c).Some? {
        var i :| FirstSupplier(front, k, c, i) && front[i].vals[c] == FirstValue(front, k, c).value;
        assert FirstSupplier(rows, k, c, i);
      } else if Supplies(rows, k, c, n) {
        assert FirstSupplier(rows, k, c, n);
      }
    }
  }

  lemma {:induction false} MergedIsFirstValue(rows: seq<TimedReading>, k: Key, c: Column)
    requires HasKey(rows, k)
    ensures Get(MergedFor(rows, k).vals, c) == FirstValue(rows, k, c)
  {
    var n := |rows| - 1;
    if HasKey(rows[..n], k) {
      MergedIsFirstValue(rows[..n], k, c);
    } else {
      FirstValueMeaning(rows[..n], k, c);
    }
  }

  /** Among the rows of one key the first non-null value of a column wins. */
  lemma DedupeFirstWins(rows: seq<TimedReading>, k: Key, c: Column)
    requires HasKey(rows, k)
    ensures c in MergedFor(rows, k).vals <==> exists i :: Supplies(rows, k, c, i)
    ensures forall i :: FirstSupplier(rows, k, c, i) ==> Get(MergedFor(rows, k).vals, c) == Some(rows[i].vals[c])
  {
    MergedIsFirstValue(rows, k, c);
    FirstValueMeaning(rows, k, c);
  }

  /** Flags, withdrawals and supplied fields of duplicates are united. */
  lemma {:induction false} DedupeUnions(rows: seq<TimedReading>, k: Key)
    requires HasKey(rows, k)
    ensures MergedFor(rows, k).flags == set i, f | 0 <= i < |rows| && KeyOf(rows[i]) == k && f in rows[i].flags :: f
    ensures MergedFor(rows, k).withdraw
            == set i, c | 0 <= i < |rows| && KeyOf(rows[i]) == k && c in rows[i].withdraw :: c
    ensures MergedFor(rows, k).present
            == set i, c | 0 <= i < |rows| && KeyOf(rows[i]) == k && c in rows[i].present :: c
  {
    var n := |rows| - 1;
    var front := rows[..n];
    if HasKey(front, k) {
      DedupeUnions(front, k);
    } else {
      assert forall i :: 0 <= i < n ==> KeyOf(front[i]) != k && front[i] == rows[i];
    }
  }

  /** Row `i` is the first of its key that has a raw document. */
  predicate FirstRaw(rows: seq<TimedReading>, k: Key, i: int) {
    && 0 <= i < |rows| && KeyOf(rows[i]) == k && rows[i].raw.Some?
    && forall j :: 0 <= j < i && KeyOf(rows[j]) == k ==> rows[j].raw.None?
  }

  /** Row `i` is the first of its key that names a source. */
  predicate FirstSource(rows: seq<TimedReading>, k: Key, i: int) {
    && 0 <= i < |rows| && KeyOf(rows[i]) == k && rows[i].source.Some?
    && forall j :: 0 <= j < i && KeyOf(rows[j]) == k ==> rows[j].source.None?
  }

  /** Among duplicates the first raw document and the first source stay. */
  lemma DedupeKeepsFirst(rows: seq<TimedReading>, k: Key)
    requires HasKey(rows, k)
    ensures forall i :: FirstRaw(rows, k, i) ==> MergedFor(rows, k).raw == rows[i].raw
    ensures forall i :: FirstSource(rows, k, i) ==> MergedFor(rows, k).source == rows[i].source
    ensures MergedFor(rows, k).raw.Some? ==> exists i :: FirstRaw(rows, k, i)
    ensures MergedFor(rows, k).source.Some? ==> exists i :: FirstSource(rows, k, i)
  {
    FirstRawStays(rows, k);
    FirstSourceStays(rows, k);
  }

  lemma FirstRawNext(rows: seq<TimedReading>, k: Key, i: int)
    requires rows != [] && i < |rows| - 1
    ensures FirstRaw(rows, k, i) <==> FirstRaw(rows[..|rows| - 1], k, i)
  {
    hide KeyOf;
  }

  lemma FirstSourceNext(rows: seq<TimedReading>, k: Key, i: int)
    requires rows != [] && i < |rows| - 1
    ensures FirstSource(rows, k, i) <==> FirstSource(rows[..|rows| - 1], k, i)
  {
    hide KeyOf;
  }

  lemma FirstInside(rows: seq<TimedReading>, k: Key)
    ensures forall i :: FirstRaw(rows, k, i) || FirstSource(rows, k, i) ==> 0 <= i < |rows| && KeyOf(rows[i]) == k
  {
  }

  lemma {:induction false} FirstRawStays(rows: seq<TimedReading>, k: Key)
    requires HasKey(rows, k)
    ensures forall i :: FirstRaw(rows, k, i) ==> MergedFor(rows, k).raw == rows[i].raw
    ensures MergedFor(rows, k).raw.Some? ==> exists i :: FirstRaw(rows, k, i)
  {
    hide KeyOf;
    var n := |rows| - 1;
    FirstInside(rows, k);
    FirstInside(rows[..n], k);
    forall i: int | i < n ensures FirstRaw(rows, k, i) <==> FirstRaw(rows[..n], k, i) { FirstRawNext(rows, k, i); }
    if HasKey(rows[..n], k) {
      FirstRawStays(rows[..n], k);
      FirstOfNone(rows[..n], k);
    } else {
      assert forall i :: 0 <= i < n ==> KeyOf(rows[..n][i]) != k;
    }
  }

  lemma {:induction false} FirstSourceStays(rows: seq<TimedReading>, k: Key)
    requires HasKey(rows, k)
    ensures forall i :: FirstSource(rows, k, i) ==> MergedFor(rows, k).source == rows[i].source
    ensures MergedFor(rows, k).source.Some? ==> exists i :: FirstSource(rows, k, i)
  {
    hide KeyOf;
    var n := |rows| - 1;
    FirstInside(rows, k);
    FirstInside(rows[..n], k);
    forall i: int | i < n ensures FirstSource(rows, k, i) <==> FirstSource(rows[..n], k, i) {
      FirstSourceNext(rows, k, i);
    }
    if HasKey(rows[..n], k) {
      FirstSourceStays(rows[..n], k);
      FirstOfNone(rows[..n], k);
    } else {
      assert forall i :: 0 <= i < n ==> KeyOf(rows[..n][i]) != k;
    }
  }

  /** More than one row has the key. */
  predicate Doubled(rows: seq<TimedReading>, k: Key) {
    exists i, j :: 0 <= i < j < |rows| && KeyOf(rows[i]) == k && KeyOf(rows[j]) == k
  }

  lemma DoubledFront(rows: seq<TimedReading>, k: Key)
    requires rows != []
    ensures Doubled(rows[..|rows| - 1], k) ==> Doubled(rows, k)
  {
    hide KeyOf;
    var front := rows[..|rows| - 1];
    if i, j :| 0 <= i < j < |front| && KeyOf(front[i]) == k && KeyOf(front[j]) == k {
      assert KeyOf(rows[i]) == k && KeyOf(rows[j]) == k;
    }
  }

  /** A merged row that carries a flag is INVALID before it meets the table; a single row keeps the state it has. */
  lemma {:induction false} DedupeState(rows: seq<TimedReading>, k: Key)
    requires HasKey(rows, k)
    ensures Doubled(rows, k) && MergedFor(rows, k).flags != {} ==> MergedFor(rows, k).qcState == Some(Invalid)
    ensures !Doubled(rows, k) ==>
            exists i :: 0 <= i < |rows| && KeyOf(rows[i]) == k && MergedFor(rows, k).qcState == rows[i].qcState
  {
    hide KeyOf;
    var n := |rows| - 1;
    var front := rows[..n];
    assert forall i :: 0 <= i < n ==> front[i] == rows[i];
    if HasKey(front, k) {
      DedupeState(front, k);
      DoubledFront(rows, k);
      if KeyOf(rows[n]) == k {
        var i :| 0 <= i < n && KeyOf(front[i]) == k;
        assert KeyOf(rows[i]) == k;
        assert Doubled(rows, k);
      } else if !Doubled(rows, k) {
        var i :| 0 <= i < n && KeyOf(front[i]) == k && MergedFor(front, k).qcState == front[i].qcState;
        assert KeyOf(rows[i]) == k;
      }
      if Doubled(rows, k) && KeyOf(rows[n]) != k {
        var i, j :| 0 <= i < j < |rows| && KeyOf(rows[i]) == k && KeyOf(rows[j]) == k;
        assert KeyOf(front[i]) == k && KeyOf(front[j]) == k;
      }
    } else {
      assert forall i :: 0 <= i < n ==> KeyOf(front[i]) != k;
    }
  }

  /** Where the merged row has none, no duplicate has one. */
  lemma {:induction false} FirstOfNone(rows: seq<TimedReading>, k: Key)
    requires HasKey(rows, k)
    ensures MergedFor(rows, k).raw.None? ==> forall i :: 0 <= i < |rows| && KeyOf(rows[i]) == k ==> rows[i].raw.None?
    ensures MergedFor(rows, k).source.None? ==>
            forall i :: 0 <= i < |rows| && KeyOf(rows[i]) == k ==> rows[i].source.None?
  {
    hide KeyOf;
    var n := |rows| - 1;
    var front := rows[..n];
    assert forall i :: 0 <= i < n ==> front[i] == rows[i];
    if HasKey(front, k) {
      FirstOfNone(front, k);
    } else {
      assert forall i :: 0 <= i < n ==> KeyOf(front[i]) != k;
    }
  }

  // ---------------------------------------------------------------- counts and keys

  /** Every row is counted once. */
  lemma {:induction false} EveryRowCounted(before: Store, rows: seq<TimedReading>, policy: Policy)
    ensures var c := Count(before, rows, policy); c.inserted + c.updated + c.untouched == |rows|
  {
    if rows != [] {
      EveryRowCounted(before, rows[..|rows| - 1], policy);
    }
  }

  /** The table keeps every key and grows by exactly the rows counted as inserted. */
  lemma {:induction false} TableGrowsByInserted(before: Store, rows: seq<TimedReading>, policy: Policy, w: nat)
    requires DistinctKeys(rows)
    ensures |TableAfter(before, rows, policy, w)| == |before| + Count(before, rows, policy).inserted
    ensures forall k :: k in TableAfter(before, rows, policy, w) <==> k in before || HasKey(rows, k)
  {
    hide RowAfter, Fires, FieldsToWithdraw, Prepare;
    if rows != [] {
      var n := |rows| - 1;
      var r := rows[n];
      var t := TableAfter(before, rows[..n], policy, w);
      TableGrowsByInserted(before, rows[..n], policy, w);
      assert !HasKey(rows[..n], KeyOf(r));
      GrowsByOne(t, KeyOf(r), RowAfter(before, r, policy, n < w));
      HasKeyNext(rows);
    }
  }

  lemma HasKeyNext(rows: seq<TimedReading>)
    requires rows != []
    ensures forall k :: HasKey(rows, k) <==> HasKey(rows[..|rows| - 1], k) || k == KeyOf(rows[|rows| - 1])
  {
    var n := |rows| - 1;
    forall k | HasKey(rows, k) && k != KeyOf(rows[n]) ensures HasKey(rows[..n], k) {
      var i :| 0 <= i < |rows| && KeyOf(rows[i]) == k;
      assert rows[..n][i] == rows[i];
    }
  }

  lemma GrowsByOne<K, V>(m: map<K, V>, k: K, v: V)
    ensures |m[k := v]| == |m| + if k in m then 0 else 1
  {
    assert m[k := v].Keys == m.Keys + {k};
  }

  // ---------------------------------------------------------------- fields taken apart

  lemma {:induction false} WithdrawFieldsMember(withdraw: set<Column>, cols: seq<Column>, c: Column)
    ensures c in WithdrawFields(withdraw, cols) <==> c in withdraw && c in cols
  {
    if cols != [] {
      WithdrawFieldsMember(withdraw, cols[..|cols| - 1], c);
    }
  }

  /** A row withdraws exactly the revision columns it names. */
  lemma FieldsToWithdrawMember(r: TimedReading, c: Column)
    ensures c in FieldsToWithdraw(r) <==> c in r.withdraw && IsRevision(c)
  {
    WithdrawFieldsMember(r.withdraw, REVISION_COLUMNS_SORTED, c);
    RevisionListedSorted(c);
  }

  /** One column after COALESCE: the new value if there is one, else the stored one. */
  lemma UpsertedColumn(ex: Option<Stored>, r: TimedReading, policy: Policy, c: Column)
    ensures Get(Upserted(ex, r, policy).0.vals, c)
            == if c in Encode(r.vals) then Some(Encode(r.vals)[c]) else if ex.Some? then Get(ex.value.vals, c) else None
  {
  }

  /** Is column `c` nulled when `r` meets `ex`? */
  predicate NulledBy(ex: Option<Stored>, r: TimedReading, policy: Policy, c: Column) {
    Fires(ex, r, policy) && c in WithdrawnColumns(FieldsToWithdraw(r))
  }

  /** One column after the whole call. */
  lemma NextColumn(ex: Option<Stored>, r: TimedReading, policy: Policy, c: Column)
    ensures Get(NextRow(ex, r, policy).vals, c)
            == if NulledBy(ex, r, policy, c) then None
               else if c in Encode(r.vals) then Some(Encode(r.vals)[c])
               else if ex.Some? then Get(ex.value.vals, c) else None
  {
    hide Encode, Prepare, MergeQc;
    UpsertedColumn(ex, r, policy, c);
  }

  /** A withdrawal runs iff the row existed and one of the withdrawn fields holds a value after the upsert. */
  lemma FiresIff(ex: Option<Stored>, r: TimedReading, policy: Policy)
    ensures Fires(ex, r, policy) <==>
      ex.Some? && policy.allowWithdrawals
      && exists c :: c in FieldsToWithdraw(r) && (c in Encode(r.vals) || c in ex.value.vals)
  {
    hide Encode, FieldsToWithdraw, Prepare, MergeQc;
    forall c ensures c in Upserted(ex, r, policy).0.vals <==> c in Encode(r.vals) || (ex.Some? && c in ex.value.vals) {
      UpsertedColumn(ex, r, policy, c);
    }
  }

  // ---------------------------------------------------------------- what a call never does

  /** The row of `k` after a whole call. */
  lemma RowOfKey(before: Store, rows: seq<TimedReading>, policy: Policy, k: Key)
    ensures Get(Reconciled(before, Dedupe(rows), policy), k)
            == if HasKey(rows, k) then Some(NextRow(Get(before, k), MergedFor(rows, k), policy)) else Get(before, k)
  {
    hide NextRow, MergedFor;
    var d := Dedupe(rows);
    if k in KeyOrder(rows) {
      var i :| 0 <= i < |d| && KeyOrder(rows)[i] == k;
      TableAfterAt(before, d, policy, |d|, i);
    } else {
      assert !HasKey(d, k);
      TableAfterElsewhere(before, d, policy, |d|, k);
    }
  }

  /** Does `r` withdraw column `c`, directly or as the unit of a withdrawn pollutant? */
  predicate Withdrawable(r: TimedReading, c: Column) {
    exists f :: f in r.withdraw && (f == c || (IsPollutant(f) && UnitsOf(f) == c))
  }

  lemma NulledOnlyByWithdrawal(ex: Option<Stored>, r: TimedReading, policy: Policy, c: Column)
    requires NulledBy(ex, r, policy, c)
    ensures policy.allowWithdrawals && Withdrawable(r, c)
  {
    hide FieldsToWithdraw, Upserted;
    forall f ensures f in FieldsToWithdraw(r) ==> f in r.withdraw { FieldsToWithdrawMember(r, f); }
  }

  /** A stored value becomes NULL only by a withdrawal of its field; `source` never changes; no row disappears. */
  lemma NothingLost(before: Store, rows: seq<TimedReading>, policy: Policy, k: Key, c: Column)
    requires k in before && c in before[k].vals
    ensures k in Reconciled(before, Dedupe(rows), policy)
    ensures var after := Reconciled(before, Dedupe(rows), policy)[k];
            && after.source == before[k].source
            && (c !in after.vals ==> policy.allowWithdrawals && HasKey(rows, k) && Withdrawable(MergedFor(rows, k), c))
  {
    hide NulledBy, Withdrawable, NextRow, MergedFor, Encode, Reconciled, Dedupe;
    RowOfKey(before, rows, policy, k);
    if HasKey(rows, k) {
      var r := MergedFor(rows, k);
      SourceKept(before[k], r, policy);
      NextColumn(Some(before[k]), r, policy, c);
      if NulledBy(Some(before[k]), r, policy, c) {
        NulledOnlyByWithdrawal(Some(before[k]), r, policy, c);
      }
    }
  }

  lemma SourceKept(ex: Stored, r: TimedReading, policy: Policy)
    ensures NextRow(Some(ex), r, policy).source == ex.source
  {
    hide Encode, FieldsToWithdraw, MergeQc;
  }
}
