/**
 The readings table and the revision log as `reconcile_and_upsert_readings` changes them: batch by
 batch, each batch one SELECT, one loop in Python and one INSERT, then the queued withdrawals.
 */
module ReadingsDb {
  import opened Prelude
  import opened Columns
  import opened Readings
  import opened Validation
  import opened Reconcile

  datatype Result = Result(rowsIn: nat, counts: Counts, revisionsRecorded: nat, revisionsFailed: bool)

  datatype Job = Job(row: TimedReading, fields: seq<Column>, existing: Stored)

  // ---------------------------------------------------------------- the queue of withdrawals

  function JobsOf(before: Store, rows: seq<TimedReading>, policy: Policy): seq<Job> {
    if rows == [] then []
    else
      var r := rows[|rows| - 1];
      var ex := Get(before, KeyOf(r));
      JobsOf(before, rows[..|rows| - 1], policy)
      + if Withdraws(ex, r, policy) then [Job(r, FieldsToWithdraw(r), ex.value)] else []
  }

  datatype Progress = Progress(table: Store, revisions: seq<Revision>, fields: nat)

  function RunJob(p: Progress, job: Job, policy: Policy): Progress {
    var k := KeyOf(job.row);
    if k !in p.table then p
    else
      var (row, fired) := SqlWithdraw(p.table[k], job.fields, policy.runId);
      if fired
      then Progress(p.table[k := row], p.revisions + WithdrawRevisions(job.existing, k, job.fields),
                    p.fields + |job.fields|)
      else p
  }

  function RunJobs(p: Progress, jobs: seq<Job>, policy: Policy): Progress {
    if jobs == [] then p else RunJob(RunJobs(p, jobs[..|jobs| - 1], policy), jobs[|jobs| - 1], policy)
  }

  /** The job of row `w` performs its withdrawal; a row without a job is left as it is. */
  lemma RunJobStep(before: Store, rows: seq<TimedReading>, policy: Policy, w: nat, revisions: seq<Revision>,
                   fields: nat)
    requires DistinctKeys(rows) && w < |rows|
    ensures var r := rows[w];
            var ex := Get(before, KeyOf(r));
            var p := Progress(TableAfter(before, rows, policy, w), revisions, fields);
            var next := TableAfter(before, rows, policy, w + 1);
            if Withdraws(ex, r, policy)
            then RunJob(p, Job(r, FieldsToWithdraw(r), ex.value), policy)
                 == Progress(next, revisions + WithdrawnBy(ex, r, policy),
                             fields + if Fires(ex, r, policy) then |FieldsToWithdraw(r)| else 0)
            else p.table == next && WithdrawnBy(ex, r, policy) == [] && !Fires(ex, r, policy)
  {
    WithdrawNext(before, rows, policy, w);
    TableAfterAt(before, rows, policy, w, w);
    var t := TableAfter(before, rows, policy, w);
    var k := KeyOf(rows[w]);
    assert t[k := t[k]] == t;
  }

  /** Draining the queue carries out exactly the withdrawals of the rows it was built from. */
  lemma {:induction false} RunJobsIsWithdrawal(before: Store, rows: seq<TimedReading>, policy: Policy, w: nat,
                                               revisions: seq<Revision>)
    requires DistinctKeys(rows) && w <= |rows|
    ensures RunJobs(Progress(TableAfter(before, rows, policy, 0), revisions, 0),
                    JobsOf(before, rows[..w], policy), policy)
            == Progress(TableAfter(before, rows, policy, w), revisions + AllWithdrawn(before, rows[..w], policy),
                        Count(before, rows[..w], policy).withdrawnFields)
  {
    if w > 0 {
      RunJobsIsWithdrawal(before, rows, policy, w - 1, revisions);
      RunJobsStep(before, rows, policy, w - 1, revisions);
    }
  }

  lemma RunJobsStep(before: Store, rows: seq<TimedReading>, policy: Policy, w: nat, revisions: seq<Revision>)
    requires DistinctKeys(rows) && w < |rows|
    requires RunJobs(Progress(TableAfter(before, rows, policy, 0), revisions, 0),
                     JobsOf(before, rows[..w], policy), policy)
            == Progress(TableAfter(before, rows, policy, w), revisions + AllWithdrawn(before, rows[..w], policy),
                        Count(before, rows[..w], policy).withdrawnFields)
    ensures RunJobs(Progress(TableAfter(before, rows, policy, 0), revisions, 0),
                    JobsOf(before, rows[..w + 1], policy), policy)
            == Progress(TableAfter(before, rows, policy, w + 1),
                        revisions + AllWithdrawn(before, rows[..w + 1], policy),
                        Count(before, rows[..w + 1], policy).withdrawnFields)
  {
    hide RowAfter, Upserted, Fires, WithdrawnBy, FieldsToWithdraw, RunJob, RunJobs, CountUpsert, AllWithdrawn, JobsOf,
      Count, TableAfter;
    var r := rows[w];
    var ex := Get(before, KeyOf(r));
    var jobs := JobsOf(before, rows[..w], policy);
    var p0 := Progress(TableAfter(before, rows, policy, 0), revisions, 0);
    var p := RunJobs(p0, jobs, policy);
    assert rows[..w + 1] == rows[..w] + [r];
    RunJobStep(before, rows, policy, w, p.revisions, p.fields);
    JobsOfNext(before, rows[..w], r, policy);
    CountNext(before, rows[..w], r, policy);
    assert revisions + (AllWithdrawn(before, rows[..w], policy) + WithdrawnBy(ex, r, policy))
        == revisions + AllWithdrawn(before, rows[..w], policy) + WithdrawnBy(ex, r, policy);
    if Withdraws(ex, r, policy) {
      RunJobsNext(p0, jobs, Job(r, FieldsToWithdraw(r), ex.value), policy);
    } else {
      assert jobs + [] == jobs;
    }
  }

  lemma JobsOfNext(before: Store, rows: seq<TimedReading>, r: TimedReading, policy: Policy)
    ensures var ex := Get(before, KeyOf(r));
            JobsOf(before, rows + [r], policy)
            == JobsOf(before, rows, policy)
               + if Withdraws(ex, r, policy) then [Job(r, FieldsToWithdraw(r), ex.value)] else []
    ensures AllWithdrawn(before, rows + [r], policy)
            == AllWithdrawn(before, rows, policy) + WithdrawnBy(Get(before, KeyOf(r)), r, policy)
  {
    assert (rows + [r])[..|rows|] == rows;
  }

  lemma RunJobsNext(p: Progress, jobs: seq<Job>, job: Job, policy: Policy)
    ensures RunJobs(p, jobs + [job], policy) == RunJob(RunJobs(p, jobs, policy), job, policy)
  {
    assert (jobs + [job])[..|jobs|] == jobs;
  }

  lemma CountNext(before: Store, rows: seq<TimedReading>, r: TimedReading, policy: Policy)
    ensures var ex := Get(before, KeyOf(r));
            var c := Count(before, rows, policy);
            Count(before, rows + [r], policy)
            == CountUpsert(c, ex.Some?, Upserted(ex, r, policy).1)
               .(withdrawnFields := c.withdrawnFields + if Fires(ex, r, policy) then |FieldsToWithdraw(r)| else 0)
  {
    assert (rows + [r])[..|rows|] == rows;
  }

  /** What one more row does to the keys seen so far and to their merged rows. */
  lemma DedupeNext(rows: seq<TimedReading>, r: TimedReading)
    ensures forall k :: HasKey(rows + [r], k) <==> HasKey(rows, k) || k == KeyOf(r)
    ensures KeyOrder(rows + [r]) == if HasKey(rows, KeyOf(r)) then KeyOrder(rows) else KeyOrder(rows) + [KeyOf(r)]
    ensures forall k :: HasKey(rows, k) && k != KeyOf(r) ==> MergedFor(rows + [r], k) == MergedFor(rows, k)
    ensures MergedFor(rows + [r], KeyOf(r))
            == if HasKey(rows, KeyOf(r)) then MergeInto(MergedFor(rows, KeyOf(r)), r) else AtHour(r)
  {
    assert (rows + [r])[..|rows|] == rows;
    assert (rows + [r])[|rows|] == r;
    forall k ensures HasKey(rows + [r], k) <==> HasKey(rows, k) || k == KeyOf(r) {
      if HasKey(rows, k) {
        var i :| 0 <= i < |rows| && KeyOf(rows[i]) == k;
        assert (rows + [r])[i] == rows[i];
      }
    }
  }

  /** The dictionary and the order of its keys, after the given rows. */
  ghost predicate MergedSoFar(byKey: map<Key, TimedReading>, order: seq<Key>, rows: seq<TimedReading>) {
    && order == KeyOrder(rows)
    && (forall k :: k in byKey <==> HasKey(rows, k))
    && (forall k :: k in byKey ==> byKey[k] == MergedFor(rows, k))
  }

  lemma NothingMerged()
    ensures MergedSoFar(map[], [], [])
  {
  }

  lemma MergedIsDedupe(byKey: map<Key, TimedReading>, order: seq<Key>, rows: seq<TimedReading>)
    requires MergedSoFar(byKey, order, rows)
    ensures |Dedupe(rows)| == |order|
    ensures forall i :: 0 <= i < |order| ==> order[i] in byKey && Dedupe(rows)[i] == byKey[order[i]]
  {
    hide KeyOrder, MergedFor, HasKey;
    assert forall i :: 0 <= i < |order| ==> order[i] in order;
  }

  lemma MergeAtHour(byKey: map<Key, TimedReading>, r: TimedReading)
    ensures forall k :: k in byKey ==> MergeInto(byKey[k], AtHour(r)) == MergeInto(byKey[k], r)
  {
  }

  lemma MergedNext(byKey: map<Key, TimedReading>, order: seq<Key>, rows: seq<TimedReading>, r: TimedReading)
    requires MergedSoFar(byKey, order, rows)
    ensures var m := AtHour(r);
            var k := KeyOf(m);
            if k in byKey then MergedSoFar(byKey[k := MergeInto(byKey[k], m)], order, rows + [r])
            else MergedSoFar(byKey[k := m], order + [k], rows + [r])
  {
    DedupeNext(rows, r);
    MergeAtHour(byKey, r);
    hide KeyOrder, MergedFor, MergeInto, HasKey, KeyOf, AtHour;
  }

  // ---------------------------------------------------------------- a batch

  /** One row of the Python loop over a batch. */
  function PreparedAt(existing: Store, r: TimedReading, policy: Policy): Prepared {
    Prepare(Get(existing, KeyOf(r)), r, policy.source)
  }

  /** The database takes every value of every row. */
  predicate NoneRefused(rows: seq<TimedReading>) {
    forall r :: r in rows ==> !Refused(r)
  }

  /** What the prepared rows of a batch carry to the upsert. */
  lemma PreparedAre(before: Store, batch: seq<TimedReading>, existing: Store, policy: Policy, prepared: seq<Prepared>)
    requires DistinctKeys(batch) && forall r :: r in batch ==> Get(existing, KeyOf(r)) == Get(before, KeyOf(r))
    requires |prepared| == |batch|
    requires forall i :: 0 <= i < |batch| ==> prepared[i] == PreparedAt(existing, batch[i], policy)
    ensures forall i :: 0 <= i < |batch| ==> prepared[i].key == KeyOf(batch[i])
    ensures forall i :: 0 <= i < |batch| ==>
      SqlUpsert(Get(before, KeyOf(batch[i])), prepared[i]) == Upserted(Get(before, KeyOf(batch[i])), batch[i], policy)
    ensures NoneRefused(batch) <==> forall i :: 0 <= i < |batch| ==> !prepared[i].refused
  {
    hide SqlUpsert, MergeQc, Encode, EffectivePresent, Refused, KeyOf;
    assert forall i :: 0 <= i < |batch| ==> batch[i] in batch;
    forall r | r in batch ensures exists i :: 0 <= i < |batch| && batch[i] == r {}
  }

  lemma RefusedInBatch(rows: seq<TimedReading>, start: nat, end: nat)
    requires start <= end <= |rows|
    ensures NoneRefused(rows[..end]) <==> NoneRefused(rows[..start]) && NoneRefused(rows[start..end])
    ensures NoneRefused(rows) ==> NoneRefused(rows[..end])
  {
    hide Refused;
    assert rows[..end] == rows[..start] + rows[start..end];
    assert rows == rows[..end] + rows[end..];
  }

  class Database {
    var readings: Store
    var revisionLog: seq<Revision>

    /** dedupe_rows: a dictionary by key, kept in insertion order. */
    static method DedupeRows(rows: seq<TimedReading>) returns (out: seq<TimedReading>)
      ensures out == Dedupe(rows)
    {
      var byKey: map<Key, TimedReading> := map[];
      var order: seq<Key> := [];
      NothingMerged();
      hide MergedSoFar, MergeInto, Dedupe;
      for i := 0 to |rows|
        invariant MergedSoFar(byKey, order, rows[..i])
      {
        var r := AtHour(rows[i]);
        var k := KeyOf(r);
        MergedNext(byKey, order, rows[..i], rows[i]);
        assert rows[..i + 1] == rows[..i] + [rows[i]];
        if k !in byKey {
          byKey := byKey[k := r];
          order := order + [k];
        } else {
          byKey := byKey[k := MergeInto(byKey[k], r)];
        }
      }
      assert rows[..|rows|] == rows;
      MergedIsDedupe(byKey, order, rows);
      out := seq(|order|, i requires 0 <= i < |order| => byKey[order[i]]);
    }

    /** SELECT ... JOIN keys: the stored rows of the batch. */
    method SelectExisting(batch: seq<TimedReading>) returns (existing: Store)
      ensures forall r :: r in batch ==> Get(existing, KeyOf(r)) == Get(readings, KeyOf(r))
    {
      existing := map r | r in batch && KeyOf(r) in readings :: KeyOf(r) := readings[KeyOf(r)];
    }

    /** The loop over a batch that decides QC, revisions and withdrawals. */
    static method PrepareBatch(batch: seq<TimedReading>, existing: Store, policy: Policy)
      returns (prepared: seq<Prepared>, revisions: seq<Revision>, jobs: seq<Job>)
      ensures |prepared| == |batch|
      ensures forall i :: 0 <= i < |batch| ==> prepared[i] == PreparedAt(existing, batch[i], policy)
      ensures revisions == AllRevised(existing, batch)
      ensures jobs == JobsOf(existing, batch, policy)
    {
      hide Prepare, Diff;
      prepared, revisions, jobs := [], [], [];
      for i := 0 to |batch|
        invariant |prepared| == i
        invariant forall j :: 0 <= j < i ==> prepared[j] == PreparedAt(existing, batch[j], policy)
        invariant revisions == AllRevised(existing, batch[..i])
        invariant jobs == JobsOf(existing, batch[..i], policy)
      {
        var r := batch[i];
        var ex := Get(existing, KeyOf(r));
        assert batch[..i + 1][..i] == batch[..i];
        if ex.Some? {
          revisions := revisions + Diff(ex.value, r, REVISION_COLUMNS);
          if policy.allowWithdrawals {
            if r.withdraw != {} {
              var fields := FieldsToWithdraw(r);
              if fields != [] {
                jobs := jobs + [Job(r, fields, ex.value)];
              }
            } else {
              NothingToWithdraw(r.withdraw, REVISION_COLUMNS_SORTED);
            }
          }
        }
        prepared := prepared + [Prepare(ex, r, policy.source)];
      }
      assert batch[..|batch|] == batch;
    }

    /** The INSERT ... ON CONFLICT of one batch: the keys it touched, or an error when it refuses a value. */
    method ExecUpsert(prepared: seq<Prepared>) returns (ok: bool, touched: set<Key>)
      requires forall i, j :: 0 <= i < j < |prepared| ==> prepared[i].key != prepared[j].key
      modifies this`readings
      ensures ok <==> forall i :: 0 <= i < |prepared| ==> !prepared[i].refused
      ensures !ok ==> readings == old(readings)
      ensures ok ==> forall i :: 0 <= i < |prepared| ==>
        var (row, hit) := SqlUpsert(Get(old(readings), prepared[i].key), prepared[i]);
        Get(readings, prepared[i].key) == Some(row) && (prepared[i].key in touched <==> hit)
      ensures forall k :: (forall i :: 0 <= i < |prepared| ==> prepared[i].key != k) ==>
        Get(readings, k) == Get(old(readings), k)
    {
      touched := {};
      ok := forall i :: 0 <= i < |prepared| ==> !prepared[i].refused;
      if !ok {
        return;
      }
      for i := 0 to |prepared|
        invariant forall j :: 0 <= j < i ==>
          var (row, hit) := SqlUpsert(Get(old(readings), prepared[j].key), prepared[j]);
          Get(readings, prepared[j].key) == Some(row) && (prepared[j].key in touched <==> hit)
        invariant forall k :: (forall j :: 0 <= j < i ==> prepared[j].key != k) ==>
          Get(readings, k) == Get(old(readings), k) && k !in touched
      {
        var p := prepared[i];
        var (row, hit) := SqlUpsert(Get(readings, p.key), p);
        readings := readings[p.key := row];
        if hit {
          touched := touched + {p.key};
        }
      }
    }

    /**
     Reconcile `rows` into the table. The call raises, and the caller's transaction is rolled back, exactly when a
     deduplicated row has a value that no column takes. `opsAvailable` says whether the revisions can be written.
     */
    method ReconcileAndUpsert(rows: seq<TimedReading>, policy: Policy, opsAvailable: bool) returns (res: Option<Result>)
      requires policy.batchSize >= 1
      modifies this
      ensures res.None? <==> !NoneRefused(Dedupe(rows))
      ensures res.None? ==> readings == old(readings) && revisionLog == old(revisionLog)
      ensures res.Some? ==> readings == Reconciled(old(readings), Dedupe(rows), policy)
      ensures res.Some? ==>
        res.value.rowsIn == |rows| && res.value.counts == Count(old(readings), Dedupe(rows), policy)
      ensures res.Some? ==>
        var all := AllRevisions(old(readings), Dedupe(rows), policy);
        var record := policy.recordRevisions && all != [];
        && revisionLog == old(revisionLog) + (if record && opsAvailable then all else [])
        && res.value.revisionsRecorded == (if record && opsAvailable then |all| else 0)
        && res.value.revisionsFailed == (record && !opsAvailable)
    {
      hide Refused;
      if rows == [] {
        return Some(Result(0, Counts(0, 0, 0, 0), 0, false));
      }
      var before := readings;
      var deduped := DedupeRows(rows);
      assert DistinctKeys(deduped);
      var ok, revisions, jobs, counts := UpsertBatches(deduped, policy);
      if !ok {
        readings := before;
        return None;
      }
      RunJobsIsWithdrawal(before, deduped, policy, |deduped|, revisions);
      assert deduped[..|deduped|] == deduped;
      var withdrawn, fields := DrainWithdrawals(jobs, revisions, policy);
      revisions, counts := withdrawn, counts.(withdrawnFields := fields);
      var recorded, failed := 0, false;
      if policy.recordRevisions && revisions != [] {
        if opsAvailable {
          revisionLog := revisionLog + revisions;
          recorded := |revisions|;
        } else {
          failed := true;
        }
      }
      res := Some(Result(|rows|, counts, recorded, failed));
    }

    /** The loop over the batches; it stops at the first one that is refused. */
    method UpsertBatches(deduped: seq<TimedReading>, policy: Policy)
      returns (ok: bool, revisions: seq<Revision>, jobs: seq<Job>, counts: Counts)
      requires DistinctKeys(deduped) && policy.batchSize >= 1
      modifies this`readings
      ensures ok <==> NoneRefused(deduped)
      ensures ok ==> readings == TableAfter(old(readings), deduped, policy, 0)
      ensures ok ==> revisions == AllRevised(old(readings), deduped)
      ensures ok ==> jobs == JobsOf(old(readings), deduped, policy)
      ensures ok ==> counts == Count(old(readings), deduped, policy).(withdrawnFields := 0)
    {
      hide RowAfter, RevisedBy, Upserted, Withdraws, Fires, CountUpsert, FieldsToWithdraw, Refused;
      ghost var before := readings;
      ok, revisions, jobs, counts := true, [], [], Counts(0, 0, 0, 0);
      var start := 0;
      while start < |deduped|
        invariant 0 <= start <= |deduped|
        invariant ok && NoneRefused(deduped[..start])
        invariant readings == TableAfter(before, deduped[..start], policy, 0)
        invariant revisions == AllRevised(before, deduped[..start])
        invariant jobs == JobsOf(before, deduped[..start], policy)
        invariant counts == Count(before, deduped[..start], policy).(withdrawnFields := 0)
      {
        var end := if start + policy.batchSize < |deduped| then start + policy.batchSize else |deduped|;
        assert start + |deduped[start..end]| == end;
        var done, revs, js, cs := RunBatch(before, deduped, start, deduped[start..end], policy, counts);
        RefusedInBatch(deduped, start, end);
        if !done {
          ok := false;
          return;
        }
        revisions, jobs, counts, start := revisions + revs, jobs + js, cs, end;
      }
      assert deduped[..|deduped|] == deduped;
    }

    /** The loop over the queued withdrawals. */
    method DrainWithdrawals(jobs: seq<Job>, revisions0: seq<Revision>, policy: Policy)
      returns (revisions: seq<Revision>, fields: nat)
      modifies this`readings
      ensures Progress(readings, revisions, fields) == RunJobs(Progress(old(readings), revisions0, 0), jobs, policy)
    {
      revisions, fields := revisions0, 0;
      for j := 0 to |jobs|
        invariant Progress(readings, revisions, fields)
                  == RunJobs(Progress(old(readings), revisions0, 0), jobs[..j], policy)
      {
        var job := jobs[j];
        var k := KeyOf(job.row);
        RunJobsNext(Progress(old(readings), revisions0, 0), jobs[..j], job, policy);
        assert jobs[..j + 1] == jobs[..j] + [job];
        if k in readings {
          var (row, fired) := SqlWithdraw(readings[k], job.fields, policy.runId);
          if fired {
            readings := readings[k := row];
            fields := fields + |job.fields|;
            revisions := revisions + WithdrawRevisions(job.existing, k, job.fields);
          }
        }
      }
      assert jobs[..|jobs|] == jobs;
    }

    /** One batch: select, prepare, upsert, count. */
    method RunBatch(ghost before: Store, ghost deduped: seq<TimedReading>, ghost start: nat, batch: seq<TimedReading>,
                    policy: Policy, counts0: Counts)
      returns (ok: bool, revisions: seq<Revision>, jobs: seq<Job>, counts: Counts)
      requires DistinctKeys(deduped) && start + |batch| <= |deduped| && batch == deduped[start..start + |batch|]
      requires readings == TableAfter(before, deduped[..start], policy, 0)
      requires counts0 == Count(before, deduped[..start], policy).(withdrawnFields := 0)
      modifies this`readings
      ensures ok <==> NoneRefused(batch)
      ensures ok ==> readings == TableAfter(before, deduped[..start + |batch|], policy, 0)
      ensures AllRevised(before, deduped[..start]) + revisions == AllRevised(before, deduped[..start + |batch|])
      ensures JobsOf(before, deduped[..start], policy) + jobs == JobsOf(before, deduped[..start + |batch|], policy)
      ensures ok ==> counts == Count(before, deduped[..start + |batch|], policy).(withdrawnFields := 0)
    {
      hide AllRevised, JobsOf, Count, TableAfter, Refused;
      ghost var done := deduped[..start];
      assert deduped[..start + |batch|] == done + batch;
      DistinctPrefix(deduped, start + |batch|);
      var existing := SelectExisting(batch);
      BatchIsNew(before, done, batch, policy, existing);
      var prepared;
      prepared, revisions, jobs := PrepareBatch(batch, existing, policy);
      SameExisting(existing, before, batch, policy);
      RevisedAppend(before, done, batch);
      JobsAppend(before, done, batch, policy);
      DistinctSuffix(done, batch);
      PreparedAre(before, batch, existing, policy, prepared);
      hide PreparedAt, Upserted, SqlUpsert, AllRevised, KeyOf;
      ghost var atStart := readings;
      var touched;
      ok, touched := ExecUpsert(prepared);
      if !ok {
        counts := counts0;
        return;
      }
      UpsertIsTableAfter(before, done, batch, policy, atStart, readings);
      counts := Tally(before, done, batch, policy, existing, touched, counts0);
    }

    /** Count every row of the batch as unchanged, updated or inserted. */
    static method Tally(ghost before: Store, ghost done: seq<TimedReading>, batch: seq<TimedReading>,
                        ghost policy: Policy,
                        existing: Store, touched: set<Key>, counts0: Counts)
      returns (counts: Counts)
      requires forall r :: r in batch ==> Get(existing, KeyOf(r)) == Get(before, KeyOf(r))
      requires forall r :: r in batch ==> (KeyOf(r) in touched <==> Upserted(Get(before, KeyOf(r)), r, policy).1)
      requires counts0 == Count(before, done, policy).(withdrawnFields := 0)
      ensures counts == Count(before, done + batch, policy).(withdrawnFields := 0)
    {
      hide RowAfter, Upserted, Fires, FieldsToWithdraw;
      counts := counts0;
      assert done + batch[..0] == done;
      for i := 0 to |batch|
        invariant counts == Count(before, done + batch[..i], policy).(withdrawnFields := 0)
      {
        var k := KeyOf(batch[i]);
        CountNext(before, done + batch[..i], batch[i], policy);
        assert done + batch[..i + 1] == done + batch[..i] + [batch[i]];
        assert batch[i] in batch;
        if k !in touched {
          counts := counts.(untouched := counts.untouched + 1);
        } else if k in existing {
          counts := counts.(updated := counts.updated + 1);
        } else {
          counts := counts.(inserted := counts.inserted + 1);
        }
      }
      assert batch[..|batch|] == batch;
    }
  }

  // ---------------------------------------------------------------- lemmas for the batches

  lemma {:induction false} NothingToWithdraw(withdraw: set<Column>, cols: seq<Column>)
    requires withdraw == {}
    ensures WithdrawFields(withdraw, cols) == []
  {
    if cols != [] {
      NothingToWithdraw(withdraw, cols[..|cols| - 1]);
    }
  }

  lemma DistinctPrefix(rows: seq<TimedReading>, n: nat)
    requires DistinctKeys(rows) && n <= |rows|
    ensures DistinctKeys(rows[..n])
  {
  }

  lemma DistinctSuffix(a: seq<TimedReading>, b: seq<TimedReading>)
    requires DistinctKeys(a + b)
    ensures DistinctKeys(a) && DistinctKeys(b)
    ensures forall r :: r in b ==> !HasKey(a, KeyOf(r))
  {
    assert forall i :: 0 <= i < |a| ==> (a + b)[i] == a[i];
    assert forall i :: 0 <= i < |b| ==> (a + b)[|a| + i] == b[i];
  }

  /** Earlier batches have not touched the rows of this one. */
  lemma BatchIsNew(before: Store, done: seq<TimedReading>, batch: seq<TimedReading>, policy: Policy, existing: Store)
    requires DistinctKeys(done + batch)
    requires forall r :: r in batch ==> Get(existing, KeyOf(r)) == Get(TableAfter(before, done, policy, 0), KeyOf(r))
    ensures forall r :: r in batch ==> Get(existing, KeyOf(r)) == Get(before, KeyOf(r))
  {
    DistinctSuffix(done, batch);
    forall r | r in batch ensures Get(existing, KeyOf(r)) == Get(before, KeyOf(r)) {
      TableAfterElsewhere(before, done, policy, 0, KeyOf(r));
    }
  }

  /** A batch sees the same existing rows as the whole call would. */
  lemma {:induction false} SameExisting(existing: Store, before: Store, batch: seq<TimedReading>, policy: Policy)
    requires forall r :: r in batch ==> Get(existing, KeyOf(r)) == Get(before, KeyOf(r))
    ensures AllRevised(existing, batch) == AllRevised(before, batch)
    ensures JobsOf(existing, batch, policy) == JobsOf(before, batch, policy)
  {
    if batch != [] {
      SameExisting(existing, before, batch[..|batch| - 1], policy);
      assert batch[|batch| - 1] in batch;
    }
  }

  lemma {:induction false} RevisedAppend(before: Store, a: seq<TimedReading>, b: seq<TimedReading>)
    ensures AllRevised(before, a + b) == AllRevised(before, a) + AllRevised(before, b)
  {
    hide RevisedBy, KeyOf;
    if b == [] {
      assert a + b == a;
    } else {
      RevisedAppend(before, a, b[..|b| - 1]);
      assert (a + b)[..|a + b| - 1] == a + b[..|b| - 1];
    }
  }

  lemma {:induction false} JobsAppend(before: Store, a: seq<TimedReading>, b: seq<TimedReading>, policy: Policy)
    ensures JobsOf(before, a + b, policy) == JobsOf(before, a, policy) + JobsOf(before, b, policy)
  {
    hide Withdraws, FieldsToWithdraw, KeyOf;
    if b == [] {
      assert a + b == a;
    } else {
      JobsAppend(before, a, b[..|b| - 1], policy);
      assert (a + b)[..|a + b| - 1] == a + b[..|b| - 1];
    }
  }

  lemma UpsertIsTableAfter(before: Store, done: seq<TimedReading>, batch: seq<TimedReading>, policy: Policy,
                           atStart: Store, after: Store)
    requires DistinctKeys(done + batch)
    requires atStart == TableAfter(before, done, policy, 0)
    requires forall i :: 0 <= i < |batch| ==>
      Get(after, KeyOf(batch[i])) == Some(RowAfter(before, batch[i], policy, false))
    requires forall k :: !HasKey(batch, k) ==> Get(after, k) == Get(atStart, k)
    ensures after == TableAfter(before, done + batch, policy, 0)
  {
    forall k ensures Get(after, k) == Get(TableAfter(before, done + batch, policy, 0), k) {
      UpsertIsTableAfterAt(before, done, batch, policy, after, k);
    }
    SameMap(after, TableAfter(before, done + batch, policy, 0));
  }

  lemma UpsertIsTableAfterAt(before: Store, done: seq<TimedReading>, batch: seq<TimedReading>, policy: Policy,
                             after: Store, k: Key)
    requires DistinctKeys(done + batch)
    requires forall i :: 0 <= i < |batch| ==>
      Get(after, KeyOf(batch[i])) == Some(RowAfter(before, batch[i], policy, false))
    requires !HasKey(batch, k) ==> Get(after, k) == Get(TableAfter(before, done, policy, 0), k)
    ensures Get(after, k) == Get(TableAfter(before, done + batch, policy, 0), k)
  {
    hide RowAfter, TableAfter;
    if HasKey(batch, k) {
      var i :| 0 <= i < |batch| && KeyOf(batch[i]) == k;
      assert (done + batch)[|done| + i] == batch[i];
      TableAfterAt(before, done + batch, policy, 0, |done| + i);
    } else {
      TableAfterPrefix(before, done, batch, policy, k);
    }
  }

  lemma {:induction false} TableAfterPrefix(before: Store, done: seq<TimedReading>, batch: seq<TimedReading>,
                                            policy: Policy, k: Key)
    requires !HasKey(batch, k)
    ensures Get(TableAfter(before, done + batch, policy, 0), k) == Get(TableAfter(before, done, policy, 0), k)
  {
    hide RowAfter;
    if batch == [] {
      assert done + batch == done;
    } else {
      var n := |batch| - 1;
      assert KeyOf(batch[n]) != k;
      assert (done + batch)[..|done| + n] == done + batch[..n];
      assert (done + batch)[|done| + n] == batch[n];
      hide KeyOf;
      TableAfterPrefix(before, done, batch[..n], policy, k);
    }
  }
}
