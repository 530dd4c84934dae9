/** The revision list is an undo log: putting back every `old_value` restores what a call overwrote or withdrew. */
module ReconcileUndo {
  import opened Prelude
  import opened Columns
  import opened Readings
  import opened Reconcile
  import opened ReconcileTheorems

  /** Put the old value of every revision back, in order. */
  function Undo(table: Store, revisions: seq<Revision>): (t: Store)
    ensures t.Keys == table.Keys
  {
    if revisions == [] then table
    else
      var rv := revisions[|revisions| - 1];
      var t := Undo(table, revisions[..|revisions| - 1]);
      if rv.key in t then t[rv.key := t[rv.key].(vals := t[rv.key].vals[rv.field := rv.oldValue])] else t
  }

  // ---------------------------------------------------------------- what the list contains

  lemma {:induction false} DiffMember(ex: Stored, r: TimedReading, cols: seq<Column>, rv: Revision)
    ensures rv in Diff(ex, r, cols) <==>
      && rv.field in cols && rv.field in r.vals && rv.field in ex.vals
      && ValuesDiffer(ex.vals[rv.field], r.vals[rv.field])
      && rv == Revision(KeyOf(r), rv.field, ex.vals[rv.field], Some(r.vals[rv.field]), Revised)
  {
    hide ValuesDiffer, KeyOf;
    if cols != [] {
      DiffMember(ex, r, cols[..|cols| - 1], rv);
    }
  }

  lemma {:induction false} WithdrawRevisionsMember(ex: Stored, k: Key, fields: seq<Column>, rv: Revision)
    ensures rv in WithdrawRevisions(ex, k, fields) <==>
      rv.field in fields && rv.field in ex.vals && rv == Revision(k, rv.field, ex.vals[rv.field], None, Withdrawn)
  {
    if fields != [] {
      WithdrawRevisionsMember(ex, k, fields[..|fields| - 1], rv);
    }
  }

  /** The revisions one row causes. */
  predicate CausedBy(before: Store, r: TimedReading, policy: Policy, rv: Revision) {
    var ex := Get(before, KeyOf(r));
    rv in RevisedBy(ex, r) || rv in WithdrawnBy(ex, r, policy)
  }

  lemma {:induction false} AllRevisionsMember(before: Store, rows: seq<TimedReading>, policy: Policy, rv: Revision)
    ensures rv in AllRevisions(before, rows, policy) <==> exists r :: r in rows && CausedBy(before, r, policy, rv)
  {
    hide RevisedBy, WithdrawnBy, KeyOf;
    if rows != [] {
      var n := |rows| - 1;
      AllRevisionsMember(before, rows[..n], policy, rv);
      assert rows[n] in rows;
      assert rv in AllRevisions(before, rows, policy) <==>
        rv in AllRevisions(before, rows[..n], policy) || CausedBy(before, rows[n], policy, rv);
      if r :| r in rows && CausedBy(before, r, policy, rv) {
        assert r in rows[..n] || r == rows[n];
      }
    }
  }

  /** Every logged old value is the value the table held before the call. */
  lemma LoggedOldValue(before: Store, r: TimedReading, policy: Policy, rv: Revision)
    requires CausedBy(before, r, policy, rv)
    ensures rv.key == KeyOf(r) && rv.key in before && Get(before[rv.key].vals, rv.field) == Some(rv.oldValue)
  {
    hide Fires, FieldsToWithdraw, ValuesDiffer;
    var ex := Get(before, KeyOf(r));
    if rv in RevisedBy(ex, r) {
      DiffMember(ex.value, r, REVISION_COLUMNS, rv);
    } else {
      assert Fires(ex, r, policy);
      FiresIff(ex, r, policy);
      WithdrawRevisionsMember(ex.value, KeyOf(r), FieldsToWithdraw(r), rv);
    }
  }

  // ---------------------------------------------------------------- undoing

  /** Undo puts `v` back where the log mentions (k, c), and leaves the column alone where it does not. */
  lemma {:induction false} UndoAt(table: Store, revisions: seq<Revision>, k: Key, c: Column, v: Value)
    requires k in table
    requires forall rv :: rv in revisions && rv.key == k && rv.field == c ==> rv.oldValue == v
    ensures Get(Undo(table, revisions)[k].vals, c)
            == if exists rv :: rv in revisions && rv.key == k && rv.field == c then Some(v) else Get(table[k].vals, c)
  {
    if revisions != [] {
      var n := |revisions| - 1;
      UndoAt(table, revisions[..n], k, c, v);
      assert revisions == revisions[..n] + [revisions[n]];
    }
  }

  predicate Logged(before: Store, rows: seq<TimedReading>, policy: Policy, k: Key, c: Column) {
    exists rv :: rv in AllRevisions(before, rows, policy) && rv.key == k && rv.field == c
  }

  /** A revision column that lost or changed its value beyond the tolerance is in the log. */
  lemma ChangeIsLogged(ex: Stored, r: TimedReading, policy: Policy, c: Column)
    requires IsRevision(c) && c in ex.vals && Typed(ex.vals)
    ensures var now := Get(NextRow(Some(ex), r, policy).vals, c);
            || now == Some(ex.vals[c])
            || (now.Some? && !ValuesDiffer(ex.vals[c], now.value))
            || Revision(KeyOf(r), c, ex.vals[c], Get(r.vals, c), Revised) in RevisedBy(Some(ex), r)
            || Revision(KeyOf(r), c, ex.vals[c], None, Withdrawn) in WithdrawnBy(Some(ex), r, policy)
  {
    hide Fires, FieldsToWithdraw, ValuesDiffer, Encode, NextRow, Typed;
    NextColumn(Some(ex), r, policy, c);
    if NulledBy(Some(ex), r, policy, c) {
      WithdrawRevisionsMember(ex, KeyOf(r), FieldsToWithdraw(r), Revision(KeyOf(r), c, ex.vals[c], None, Withdrawn));
    } else if c in r.vals && ValuesDiffer(ex.vals[c], r.vals[c]) {
      RevisionListed(c);
      DiffMember(ex, r, REVISION_COLUMNS, Revision(KeyOf(r), c, ex.vals[c], Some(r.vals[c]), Revised));
    } else if c in Encode(r.vals) {
      SameAfterCast(ex, r, c);
    }
  }

  /** What is stored for a value that the comparison does not tell from the old one. */
  lemma SameAfterCast(ex: Stored, r: TimedReading, c: Column)
    requires c in ex.vals && Typed(ex.vals) && c in Encode(r.vals)
    ensures c in r.vals
    ensures !ValuesDiffer(ex.vals[c], r.vals[c]) ==>
            Encode(r.vals)[c] == ex.vals[c] || !ValuesDiffer(ex.vals[c], Encode(r.vals)[c])
  {
  }

  /** A call keeps the types of the columns. */
  lemma NextRowTyped(ex: Option<Stored>, r: TimedReading, policy: Policy)
    requires ex.Some? ==> Typed(ex.value.vals)
    ensures Typed(NextRow(ex, r, policy).vals)
  {
    hide NextRow, NulledBy;
    forall c { NextColumn(ex, r, policy, c); }
  }

  ghost predicate TypedStore(table: Store) {
    forall k :: k in table ==> Typed(table[k].vals)
  }

  lemma ReconciledTyped(before: Store, rows: seq<TimedReading>, policy: Policy)
    requires TypedStore(before)
    ensures TypedStore(Reconciled(before, Dedupe(rows), policy))
  {
    hide Typed, NextRow, Reconciled, Dedupe, MergedFor;
    forall k | k in Reconciled(before, Dedupe(rows), policy)
      ensures Typed(Reconciled(before, Dedupe(rows), policy)[k].vals)
    {
      RowOfKey(before, rows, policy, k);
      if HasKey(rows, k) { NextRowTyped(Get(before, k), MergedFor(rows, k), policy); }
    }
  }

  /**
   After any call, undoing its revisions gives back every revision column that held a value:
   exactly, or within the tolerance of `_values_differ`.
   */
  lemma RevisionsUndo(before: Store, rows: seq<TimedReading>, policy: Policy, k: Key, c: Column)
    requires TypedStore(before) && k in before && IsRevision(c) && c in before[k].vals
    ensures var d := Dedupe(rows);
            var undone := Undo(Reconciled(before, d, policy), AllRevisions(before, d, policy));
            && k in undone && c in undone[k].vals
            && (undone[k].vals[c] == before[k].vals[c] || !ValuesDiffer(before[k].vals[c], undone[k].vals[c]))
  {
    hide NextRow, MergedFor, RevisedBy, WithdrawnBy, ValuesDiffer, Dedupe, Reconciled, AllRevisions, Typed;
    var d := Dedupe(rows);
    var after := Reconciled(before, d, policy);
    var revisions := AllRevisions(before, d, policy);
    var v := before[k].vals[c];
    RowOfKey(before, rows, policy, k);
    forall rv | rv in revisions && rv.key == k && rv.field == c ensures rv.oldValue == v {
      AllRevisionsMember(before, d, policy, rv);
      var r :| r in d && CausedBy(before, r, policy, rv);
      LoggedOldValue(before, r, policy, rv);
    }
    UndoAt(after, revisions, k, c, v);
    if HasKey(rows, k) && !Logged(before, d, policy, k, c) {
      var r := MergedFor(rows, k);
      MergedInDedupe(rows, k);
      ChangeIsLogged(before[k], r, policy, c);
      forall rv | CausedBy(before, r, policy, rv) ensures rv in revisions {
        AllRevisionsMember(before, d, policy, rv);
      }
      assert !CausedBy(before, r, policy, Revision(k, c, v, Get(r.vals, c), Revised));
      assert !CausedBy(before, r, policy, Revision(k, c, v, None, Withdrawn));
    }
  }

  lemma MergedInDedupe(rows: seq<TimedReading>, k: Key)
    requires HasKey(rows, k)
    ensures MergedFor(rows, k) in Dedupe(rows)
  {
    var i :| 0 <= i < |KeyOrder(rows)| && KeyOrder(rows)[i] == k;
    assert Dedupe(rows)[i] == MergedFor(rows, k);
  }

  /**
   A logged revision is what the row then holds exactly unless the value was dropped as an unknown pollutant code, cast
   to another type or withdrawn in the same call: the log is written before any of this is known.
   */
  lemma LoggedIsStoredIff(ex: Stored, r: TimedReading, policy: Policy, rv: Revision)
    requires rv in RevisedBy(Some(ex), r) && rv.newValue != Some(rv.oldValue)
    ensures Get(NextRow(Some(ex), r, policy).vals, rv.field) == rv.newValue <==>
            Get(Encode(r.vals), rv.field) == rv.newValue && !NulledBy(Some(ex), r, policy, rv.field)
  {
    hide NextRow, Encode, NulledBy;
    DiffMember(ex, r, REVISION_COLUMNS, rv);
    NextColumn(Some(ex), r, policy, rv.field);
  }
}
