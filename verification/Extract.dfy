/** Envelope to validated rows (`extract.py`): reject, quarantine, count; and what then reaches the reconciler. */
module Extract {
  import opened Prelude
  import opened Columns
  import opened Readings
  import opened Validation
  import opened Reconcile
  import Temporal
  import TemporalProvenance
  import ReconcileHistory
  import ReconcileReplay
  import ReconcileTheorems

  /** Why a row is never written, if so. */
  function RejectionOf(r: TimedReading, now: int, cutoff: int): Option<Rejection> {
    if r.ts.value > now + FUTURE_TOLERANCE then Some(TsFuture)
    else if r.ts.value < cutoff then Some(TsBeforeCutoff)
    else None
  }

  predicate HasProv(r: TimedReading) {
    r.raw.Some? && "prov" in r.raw.value && r.raw.value["prov"].ProvDoc?
  }

  /** Keep quarantined values under raw.prov.q. */
  function Annotate(r: TimedReading, q: Vals): TimedReading
    requires HasProv(r)
  {
    if q == map[] then r
    else r.(raw := Some(r.raw.value["prov" := ProvDoc(r.raw.value["prov"].prov.(quarantined := q))]))
  }

  /** The rows that pass, validated and annotated, in order. */
  function Accepted(rows: seq<TimedReading>, now: int, cutoff: int): seq<TimedReading>
    requires forall r :: r in rows ==> HasProv(r)
  {
    if rows == [] then []
    else
      var r := rows[|rows| - 1];
      assert HasProv(r) by { assert r in rows; }
      Accepted(rows[..|rows| - 1], now, cutoff)
      + if RejectionOf(r, now, cutoff).None? then [Annotate(Validated(r), Quarantine(r.vals))] else []
  }

  function RejectedFor(rows: seq<TimedReading>, now: int, cutoff: int, reason: Rejection): nat {
    if rows == [] then 0
    else RejectedFor(rows[..|rows| - 1], now, cutoff, reason)
         + if RejectionOf(rows[|rows| - 1], now, cutoff) == Some(reason) then 1 else 0
  }

  function QuarantinedIn(rows: seq<TimedReading>, now: int, cutoff: int): nat {
    if rows == [] then 0
    else
      var r := rows[|rows| - 1];
      QuarantinedIn(rows[..|rows| - 1], now, cutoff)
      + if RejectionOf(r, now, cutoff).None? then |Quarantine(r.vals)| else 0
  }

  class ExtractStats {
    var rejected: map<Rejection, nat>
    var quarantinedFields: nat

    function Rejected(reason: Rejection): nat
      reads this
    {
      if reason in rejected then rejected[reason] else 0
    }

    /** Validate one row and put what was quarantined under its provenance. */
    static method CheckRow(r: TimedReading, now: int, cutoff: int)
      returns (reason: Option<Rejection>, row: TimedReading, quarantined: nat)
      requires HasProv(r)
      ensures reason == RejectionOf(r, now, cutoff)
      ensures row == Annotate(Validated(r), Quarantine(r.vals)) && quarantined == |Quarantine(r.vals)|
    {
      hide Quarantine, FlagsFor, Nulled, StateForFlags;
      var v := ValidateReading(r, now, Some(cutoff));
      reason := v.rejected;
      match reason {
        case None =>
        case Some(TsMissing) =>
        case Some(TsFuture) =>
        case Some(TsBeforeCutoff) =>
      }
      row := v.row;
      quarantined := 0;
      if v.quarantined != map[] {
        row := Annotate(row, v.quarantined);
        quarantined := |v.quarantined|;
      }
    }

    /** The validate, reject and quarantine loop of normalize_envelope. */
    method NormalizeRows(rows: seq<TimedReading>, now: int, backfillHours: int) returns (out: seq<TimedReading>)
      requires forall r :: r in rows ==> HasProv(r)
      modifies this
      ensures out == Accepted(rows, now, now - backfillHours * HOUR)
      ensures forall reason ::
        Rejected(reason) == old(Rejected(reason)) + RejectedFor(rows, now, now - backfillHours * HOUR, reason)
      ensures quarantinedFields == old(quarantinedFields) + QuarantinedIn(rows, now, now - backfillHours * HOUR)
    {
      hide Quarantine, Validated, RejectionOf, Annotate;
      var cutoff := now - backfillHours * HOUR;
      out := [];
      for i := 0 to |rows|
        invariant out == Accepted(rows[..i], now, cutoff)
        invariant forall reason ::
          Rejected(reason) == old(Rejected(reason)) + RejectedFor(rows[..i], now, cutoff, reason)
        invariant quarantinedFields == old(quarantinedFields) + QuarantinedIn(rows[..i], now, cutoff)
      {
        var r := rows[i];
        assert rows[..i + 1][..i] == rows[..i] && r in rows;
        var reason, row, quarantined := CheckRow(r, now, cutoff);
        if reason.Some? {
          rejected := rejected[reason.value := Rejected(reason.value) + 1];
        } else {
          quarantinedFields := quarantinedFields + quarantined;
          out := out + [row];
        }
      }
      assert rows[..|rows|] == rows;
    }
  }

  // ---------------------------------------------------------------- nothing is lost on the way

  /** Every row is accepted or counted under exactly one reason. */
  lemma {:induction false} EveryRowAccounted(rows: seq<TimedReading>, now: int, cutoff: int)
    requires forall r :: r in rows ==> HasProv(r)
    ensures |Accepted(rows, now, cutoff)| + RejectedFor(rows, now, cutoff, TsFuture)
            + RejectedFor(rows, now, cutoff, TsBeforeCutoff) == |rows|
    ensures RejectedFor(rows, now, cutoff, TsMissing) == 0
  {
    if rows != [] {
      EveryRowAccounted(rows[..|rows| - 1], now, cutoff);
    }
  }

  /** `a` is the accepted form of `r`. */
  ghost predicate AcceptedFrom(a: TimedReading, r: TimedReading) {
    && HasProv(r) && HasProv(a) && a.ts == r.ts && KeyOf(a) == KeyOf(r)
    && a.vals == Validated(r).vals && a.flags == Validated(r).flags && a.present == Validated(r).present
    && a.withdraw == r.withdraw
    && a.source == r.source && a.qcState == Validated(r).qcState
    && (forall name :: name != "prov" ==> Get(a.raw.value, name) == Get(r.raw.value, name))
    && var was := r.raw.value["prov"].prov;
       a.raw.value["prov"].prov
       == if Quarantine(r.vals) == map[] then was else was.(quarantined := Quarantine(r.vals))
  }

  /** Accepted rows are the validated forms of the rows in the window, in the same order. */
  lemma {:induction false} AcceptedRows(rows: seq<TimedReading>, now: int, cutoff: int) returns (idx: seq<nat>)
    requires forall r :: r in rows ==> HasProv(r)
    ensures |idx| == |Accepted(rows, now, cutoff)|
    ensures forall i :: 0 <= i < |idx| ==>
      idx[i] < |rows| && AcceptedFrom(Accepted(rows, now, cutoff)[i], rows[idx[i]])
      && cutoff <= rows[idx[i]].ts.value <= now + FUTURE_TOLERANCE
    ensures forall i, j :: 0 <= i < j < |idx| ==> idx[i] < idx[j]
  {
    idx := [];
    if rows != [] {
      var n := |rows| - 1;
      assert rows[n] in rows;
      AcceptedNext(rows, now, cutoff);
      hide Accepted, Validated, Quarantine, Annotate, AcceptedFrom, HasProv;
      idx := AcceptedRows(rows[..n], now, cutoff);
      if RejectionOf(rows[n], now, cutoff).None? {
        AcceptedOne(rows[n]);
        idx := idx + [n];
      }
    }
  }

  lemma AcceptedNext(rows: seq<TimedReading>, now: int, cutoff: int)
    requires rows != [] && HasProv(rows[|rows| - 1]) && forall r :: r in rows ==> HasProv(r)
    ensures var r := rows[|rows| - 1];
            Accepted(rows, now, cutoff)
            == Accepted(rows[..|rows| - 1], now, cutoff)
               + if RejectionOf(r, now, cutoff).None? then [Annotate(Validated(r), Quarantine(r.vals))] else []
  {
    hide Validated, Quarantine;
  }

  lemma AcceptedOne(r: TimedReading)
    requires HasProv(r)
    ensures AcceptedFrom(Annotate(Validated(r), Quarantine(r.vals)), r)
  {
    hide Quarantine, FlagsFor, Nulled, StateForFlags;
  }

  /** What an accepted row stores is sane, and with its quarantine it is the provider's row again. */
  lemma AcceptedIsSane(a: TimedReading, r: TimedReading, c: Column)
    requires AcceptedFrom(a, r)
    ensures c in a.vals && IsNumeric(c) ==> Sane(c, a.vals[c])
    ensures c in r.vals && !IsUnits(c) ==>
      Get(a.vals + Quarantine(r.vals), c) == Some(r.vals[c]) && !(c in a.vals && c in Quarantine(r.vals))
  {
    hide Quarantine, Nulled, FlagsFor, Sane;
    if IsNumeric(c) {
      ReconcileHistory.ValidatedIsSane(r, c);
    }
    ReconcileHistory.NothingUnaccounted(r);
  }

  // ---------------------------------------------------------------- one envelope has no duplicates

  predicate OnTheHour(rows: seq<TimedReading>) {
    forall r :: r in rows ==> NormHour(r.ts.value) == r.ts.value
  }

  /** Rows with distinct hours: dedupe keeps them as they are. */
  lemma {:induction false} DedupeOfDistinct(rows: seq<TimedReading>)
    requires DistinctKeys(rows) && OnTheHour(rows)
    ensures Dedupe(rows) == rows
  {
    KeyOrderOfDistinct(rows);
    forall i | 0 <= i < |rows| ensures Dedupe(rows)[i] == rows[i] {
      MergedForDistinct(rows, i);
    }
  }

  lemma {:induction false} KeyOrderOfDistinct(rows: seq<TimedReading>)
    requires DistinctKeys(rows)
    ensures |KeyOrder(rows)| == |rows| && forall i :: 0 <= i < |rows| ==> KeyOrder(rows)[i] == KeyOf(rows[i])
  {
    hide KeyOf;
    if rows != [] {
      var n := |rows| - 1;
      KeyOrderOfDistinct(rows[..n]);
      assert !HasKey(rows[..n], KeyOf(rows[n]));
    }
  }

  lemma {:induction false} MergedForDistinct(rows: seq<TimedReading>, i: nat)
    requires DistinctKeys(rows) && OnTheHour(rows) && i < |rows|
    ensures HasKey(rows, KeyOf(rows[i])) && MergedFor(rows, KeyOf(rows[i])) == rows[i]
  {
    hide KeyOf;
    var n := |rows| - 1;
    assert rows[n] in rows && AtHour(rows[n]) == rows[n];
    if i < n {
      assert OnTheHour(rows[..n]);
      MergedForDistinct(rows[..n], i);
    } else {
      assert !HasKey(rows[..n], KeyOf(rows[n]));
    }
  }

  lemma RowsHaveProv(p: Temporal.Payload, scope: Temporal.Scope, policy: Temporal.Policy)
    ensures forall r :: r in Temporal.Rows(p, scope, policy) ==> HasProv(r) && r.withdraw == {}
  {
    var rows := Temporal.Rows(p, scope, policy);
    forall r | r in rows ensures HasProv(r) && r.withdraw == {} {
      var i :| 0 <= i < |rows| && rows[i] == r;
    }
  }

  /** The validated rows of one envelope, ready for the reconciler. */
  function Envelope(p: Temporal.Payload, scope: Temporal.Scope, policy: Temporal.Policy, now: int, backfillHours: int)
    : seq<TimedReading>
  {
    RowsHaveProv(p, scope, policy);
    Accepted(Temporal.Rows(p, scope, policy), now, now - backfillHours * HOUR)
  }

  /** The rows of one envelope are already deduplicated: one per hour, in order of time. */
  lemma EnvelopeIsDeduped(p: Temporal.Payload, scope: Temporal.Scope, policy: Temporal.Policy, now: int,
                          backfillHours: int)
    requires TemporalProvenance.Aligned(p, policy)
    ensures var out := Envelope(p, scope, policy, now, backfillHours);
            TemporalProvenance.StrictlyLater(out) && Dedupe(out) == out
  {
    hide Accepted, Quarantine, Validated, Dedupe;
    RowsHaveProv(p, scope, policy);
    var rows := Temporal.Rows(p, scope, policy);
    var out := Envelope(p, scope, policy, now, backfillHours);
    TemporalProvenance.RowsInOrder(p, scope, policy);
    TemporalProvenance.RowsOnHoursIff(p, scope, policy);
    hide Temporal.Rows;
    var idx := AcceptedRows(rows, now, now - backfillHours * HOUR);
    assert forall i :: 0 <= i < |out| ==> rows[idx[i]] in rows && out[i].ts == rows[idx[i]].ts;
    assert OnTheHour(out) by {
      forall r | r in out ensures NormHour(r.ts.value) == r.ts.value {
        var i :| 0 <= i < |out| && out[i] == r;
      }
    }
    assert DistinctKeys(out) by {
      forall i, j | 0 <= i < j < |out| ensures KeyOf(out[i]) != KeyOf(out[j]) {
        assert out[i] in out && out[j] in out;
        assert rows[idx[i]].ts.value < rows[idx[j]].ts.value;
      }
    }
    DedupeOfDistinct(out);
  }

  /**
   Fetching and reconciling the same envelope twice: the second time nothing is written. Nothing is logged either, iff
   every measured value is a number rather than text, no unknown pollutant code contradicts the stored one, and no
   column that is not measured holds a number.
   */
  lemma EnvelopeReplay(before: Store, p: Temporal.Payload, scope: Temporal.Scope, tpolicy: Temporal.Policy, now: int,
                       backfillHours: int, policy: Policy)
    ensures var d := Dedupe(Envelope(p, scope, tpolicy, now, backfillHours));
            var after := Reconciled(before, d, policy);
            && Reconciled(after, d, policy) == after
            && Count(after, d, policy) == Counts(0, 0, |d|, 0)
            && (AllRevisions(after, d, policy) == [] <==>
                  forall r :: r in d ==> Quiet(Get(before, KeyOf(r)), r, policy))
  {
    hide Accepted, Dedupe, Reconciled, Count, AllRevisions, Reaches;
    var out := Envelope(p, scope, tpolicy, now, backfillHours);
    forall m | m in Dedupe(out) ensures ReconcileReplay.KeepsApart(m) {
      MergedIsSane(p, scope, tpolicy, now, backfillHours, m);
    }
    ReconcileReplay.SilentReplay(before, out, policy);
    hide Quiet, ReconcileReplay.Settled, ReconcileReplay.KeepsApart, Envelope, KeyOf;
    forall m | m in Dedupe(out)
      ensures ReconcileReplay.Settled(Get(before, KeyOf(m)), m, policy) <==> Quiet(Get(before, KeyOf(m)), m, policy)
    {
      MergedIsSane(p, scope, tpolicy, now, backfillHours, m);
      QuietIsSettled(Get(before, KeyOf(m)), m, policy);
    }
  }

  lemma QuietIsSettled(ex: Option<Stored>, m: TimedReading, policy: Policy)
    requires forall c :: IsNumeric(c) && IsRevision(c) && c in m.vals ==> Reaches(c, m.vals[c])
    ensures ReconcileReplay.Settled(ex, m, policy) <==> Quiet(ex, m, policy)
  {
    hide Reaches, ValuesDiffer;
  }

  /** What keeps the replay of a validated row from logging. */
  ghost predicate Quiet(ex: Option<Stored>, r: TimedReading, policy: Policy) {
    forall c :: IsRevision(c) && c in r.vals ==>
      if IsNumeric(c) then r.vals[c].Number?
      else !ReconcileReplay.Stray(ex, r, policy, c) && !ReconcileReplay.Recast(r, c)
  }

  lemma SaneReaches(c: Column, v: Value)
    requires IsNumeric(c) && IsRevision(c) && Sane(c, v)
    ensures Reaches(c, v)
  {
  }

  /** Rows of an envelope withdraw nothing, and every measured value reaches its column, merged or not. */
  lemma MergedIsSane(p: Temporal.Payload, scope: Temporal.Scope, tpolicy: Temporal.Policy, now: int, backfillHours: int,
                     m: TimedReading)
    requires m in Dedupe(Envelope(p, scope, tpolicy, now, backfillHours))
    ensures ReconcileReplay.KeepsApart(m)
    ensures forall c :: IsNumeric(c) && IsRevision(c) && c in m.vals ==> Reaches(c, m.vals[c])
  {
    hide Accepted, Dedupe, MergedFor, Encode, Quarantine, Validated, Sane, Reaches, FieldsToWithdraw;
    RowsHaveProv(p, scope, tpolicy);
    var rows := Temporal.Rows(p, scope, tpolicy);
    var out := Envelope(p, scope, tpolicy, now, backfillHours);
    hide Temporal.Rows;
    var idx := AcceptedRows(rows, now, now - backfillHours * HOUR);
    forall a | a in out ensures a.withdraw == {} && forall c :: IsNumeric(c) && c in a.vals ==> Sane(c, a.vals[c]) {
      var i :| 0 <= i < |out| && out[i] == a;
      assert rows[idx[i]] in rows;
      forall c { AcceptedIsSane(a, rows[idx[i]], c); }
    }
    ReconcileReplay.DedupedRow(out, m);
    ReconcileTheorems.DedupeUnions(out, KeyOf(m));
    assert forall i :: 0 <= i < |out| ==> out[i] in out;
    forall c ensures c !in FieldsToWithdraw(m) { ReconcileTheorems.FieldsToWithdrawMember(m, c); }
    forall c | IsNumeric(c) && IsRevision(c) && c in m.vals ensures Reaches(c, m.vals[c]) {
      ReconcileTheorems.MergedIsFirstValue(out, KeyOf(m), c);
      ReconcileTheorems.FirstValueMeaning(out, KeyOf(m), c);
      SaneReaches(c, m.vals[c]);
    }
  }
}
