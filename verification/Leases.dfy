/** Fenced leases in one table (`leases.py`): every SQL statement is one atomic step of some process. */
module Leases {
  import opened Prelude

  datatype Row = Row(holder: string, expires: int, fence: nat)

  type Table = map<string, Row>

  datatype Lease = Lease(key: string, holder: string, fence: nat)

  // ---------------------------------------------------------------- the three statements

  /** INSERT ... ON CONFLICT DO UPDATE ... WHERE expires_at < now(): the new row, or None when the lease is held. */
  function Acquired(cur: Option<Row>, holder: string, now: int, ttl: int): Option<Row> {
    match cur
    case None => Some(Row(holder, now + ttl, 1))
    case Some(r) => if r.expires < now then Some(Row(holder, now + ttl, r.fence + 1)) else None
  }

  /** WHERE lease_key = :key AND fence = :fence AND holder = :holder */
  predicate Matches(rows: Table, lease: Lease) {
    lease.key in rows && rows[lease.key].holder == lease.holder && rows[lease.key].fence == lease.fence
  }

  function AfterAcquire(rows: Table, key: string, holder: string, now: int, ttl: int): Table {
    var row := Acquired(Get(rows, key), holder, now, ttl);
    if row.Some? then rows[key := row.value] else rows
  }

  function AfterRenew(rows: Table, lease: Lease, now: int, ttl: int): Table {
    if Matches(rows, lease) then rows[lease.key := rows[lease.key].(expires := now + ttl)] else rows
  }

  function AfterRelease(rows: Table, lease: Lease): Table {
    if Matches(rows, lease) then rows - {lease.key} else rows
  }

  /** The table behind the lease manager; `now` is the database clock at the statement. */
  class LeaseManager {
    var rows: Table

    method Acquire(key: string, holder: string, ttl: int, now: int) returns (lease: Option<Lease>, expires: int)
      modifies this
      ensures rows == AfterAcquire(old(rows), key, holder, now, ttl)
      ensures lease.Some? <==> (key in old(rows) ==> old(rows)[key].expires < now)
      ensures lease.Some? ==> lease.value == Lease(key, holder, lease.value.fence) && expires == now + ttl
      ensures lease.Some? ==> Get(rows, key) == Some(Row(holder, expires, lease.value.fence))
      ensures lease.Some? && key in old(rows) ==> lease.value.fence == old(rows)[key].fence + 1
      ensures lease.Some? && key !in old(rows) ==> lease.value.fence == 1
      ensures lease.None? ==> rows == old(rows)
      ensures forall k :: k != key ==> Get(rows, k) == Get(old(rows), k)
    {
      lease, expires := None, 0;
      if key !in rows {
        rows := rows[key := Row(holder, now + ttl, 1)];
        lease, expires := Some(Lease(key, holder, 1)), now + ttl;
      } else if rows[key].expires < now {
        var fence := rows[key].fence + 1;
        rows := rows[key := Row(holder, now + ttl, fence)];
        lease, expires := Some(Lease(key, holder, fence)), now + ttl;
      }
    }

    method Renew(lease: Lease, ttl: int, now: int) returns (ok: bool)
      modifies this
      ensures rows == AfterRenew(old(rows), lease, now, ttl)
      ensures ok <==> Matches(old(rows), lease)
      ensures ok ==> Get(rows, lease.key) == Some(Row(lease.holder, now + ttl, lease.fence))
      ensures !ok ==> rows == old(rows)
      ensures forall k :: k != lease.key ==> Get(rows, k) == Get(old(rows), k)
    {
      ok := Matches(rows, lease);
      if ok {
        rows := rows[lease.key := rows[lease.key].(expires := now + ttl)];
      }
    }

    method Release(lease: Lease)
      modifies this
      ensures rows == AfterRelease(old(rows), lease)
      ensures !Matches(rows, lease)
      ensures lease.key in rows <==> lease.key in old(rows) && !Matches(old(rows), lease)
      ensures lease.key in rows ==> rows[lease.key] == old(rows)[lease.key]
      ensures forall k :: k != lease.key ==> Get(rows, k) == Get(old(rows), k)
    {
      if Matches(rows, lease) {
        rows := rows - {lease.key};
      }
    }
  }

  // ---------------------------------------------------------------- runs of many processes

  /**
   The table, the clock, the (key, holder) pairs that have tried to acquire, and for every lease granted and
   not released the expiry its holder was last told.
   */
  datatype State = State(rows: Table, now: int, tried: set<(string, string)>, told: map<Lease, int>)

  datatype Step =
    | Acquire(key: string, holder: string, ttl: int)
    | Renew(lease: Lease, ttl: int)
    | Release(lease: Lease)
    | Tick(seconds: nat)

  /** Holder ids carry the run id, so no holder acquires the same key twice. */
  predicate Legal(s: State, step: Step) {
    step.Acquire? ==> (step.key, step.holder) !in s.tried
  }

  function Next(s: State, step: Step): State {
    match step
    case Acquire(key, holder, ttl) =>
      var row := Acquired(Get(s.rows, key), holder, s.now, ttl);
      s.(rows := AfterAcquire(s.rows, key, holder, s.now, ttl),
         tried := s.tried + {(key, holder)},
         told := if row.Some? then s.told[Lease(key, holder, row.value.fence) := row.value.expires] else s.told)
    case Renew(lease, ttl) =>
      s.(rows := AfterRenew(s.rows, lease, s.now, ttl),
         told := if Matches(s.rows, lease) then s.told[lease := s.now + ttl] else s.told)
    case Release(lease) =>
      s.(rows := AfterRelease(s.rows, lease), told := s.told - {lease})
    case Tick(seconds) => s.(now := s.now + seconds)
  }

  predicate LegalRun(s: State, steps: seq<Step>)
    decreases |steps|
  {
    steps == [] || (Legal(s, steps[0]) && LegalRun(Next(s, steps[0]), steps[1..]))
  }

  function Run(s: State, steps: seq<Step>): State
    decreases |steps|
  {
    if steps == [] then s else Run(Next(s, steps[0]), steps[1..])
  }

  const INIT: State := State(map[], 0, {}, map[])

  function OwnerOf(rows: Table, key: string): Lease
    requires key in rows
  {
    Lease(key, rows[key].holder, rows[key].fence)
  }

  ghost predicate Inv(s: State) {
    && (forall l :: l in s.told ==> (l.key, l.holder) in s.tried)
    && (forall l :: l in s.told && s.now <= s.told[l] ==> Matches(s.rows, l) && s.rows[l.key].expires == s.told[l])
    && (forall k :: k in s.rows ==> Get(s.told, OwnerOf(s.rows, k)) == Some(s.rows[k].expires))
  }

  lemma InvStep(s: State, step: Step)
    requires Inv(s) && Legal(s, step)
    ensures Inv(Next(s, step))
  {
    match step
    case Acquire(key, holder, ttl) => InvAcquire(s, key, holder, ttl);
    case Renew(lease, ttl) => InvRenew(s, lease, ttl);
    case Release(lease) => InvRelease(s, lease);
    case Tick(seconds) =>
  }

  lemma InvAcquire(s: State, key: string, holder: string, ttl: int)
    requires Inv(s) && (key, holder) !in s.tried
    ensures Inv(Next(s, Acquire(key, holder, ttl)))
  {
    var row := Acquired(Get(s.rows, key), holder, s.now, ttl);
    var s' := Next(s, Acquire(key, holder, ttl));
    assert row.None? ==> s'.rows == s.rows;
    if row.Some? {
      var mine := Lease(key, holder, row.value.fence);
      forall l | l in s'.told && s'.now <= s'.told[l]
        ensures Matches(s'.rows, l) && s'.rows[l.key].expires == s'.told[l]
      {
        if l != mine {
          assert l in s.told;
          assert l.key != key;
        }
      }
    }
  }

  lemma InvRenew(s: State, lease: Lease, ttl: int)
    requires Inv(s)
    ensures Inv(Next(s, Renew(lease, ttl)))
  {
    if Matches(s.rows, lease) {
      assert OwnerOf(s.rows, lease.key) == lease;
    }
  }

  lemma InvRelease(s: State, lease: Lease)
    requires Inv(s)
    ensures Inv(Next(s, Release(lease)))
  {
    var s' := Next(s, Release(lease));
    forall k | k in s'.rows ensures Get(s'.told, OwnerOf(s'.rows, k)) == Some(s'.rows[k].expires) {
      assert OwnerOf(s.rows, k) != lease;
    }
  }

  lemma {:induction false} InvRun(s: State, steps: seq<Step>)
    requires Inv(s) && LegalRun(s, steps)
    ensures Inv(Run(s, steps))
    decreases |steps|
  {
    if steps != [] {
      InvStep(s, steps[0]);
      InvRun(Next(s, steps[0]), steps[1..]);
    }
  }

  /** In every interleaving at most one unreleased, unexpired lease exists per key, and it owns the row. */
  lemma MutualExclusion(steps: seq<Step>, a: Lease, b: Lease)
    requires LegalRun(INIT, steps)
    requires var s := Run(INIT, steps);
             a in s.told && b in s.told && a.key == b.key && s.now <= s.told[a] && s.now <= s.told[b]
    ensures a == b && a.key in Run(INIT, steps).rows && OwnerOf(Run(INIT, steps).rows, a.key) == a
  {
    InvRun(INIT, steps);
  }

  // ---------------------------------------------------------------- fences

  predicate StaysPresent(s: State, steps: seq<Step>, key: string)
    decreases |steps|
  {
    key in s.rows && (steps == [] || StaysPresent(Next(s, steps[0]), steps[1..], key))
  }

  /** As long as the row of a key is not released, its fence never falls, and it rises at every change of holder. */
  lemma {:induction false} FencesIncrease(s: State, steps: seq<Step>, key: string)
    requires LegalRun(s, steps) && StaysPresent(s, steps, key)
    requires (key, s.rows[key].holder) in s.tried
    ensures var t := Run(s, steps);
            key in t.rows && (if t.rows[key].holder == s.rows[key].holder then t.rows[key].fence == s.rows[key].fence
                              else t.rows[key].fence > s.rows[key].fence)
    decreases |steps|
  {
    if steps != [] {
      var s' := Next(s, steps[0]);
      FencesIncrease(s', steps[1..], key);
      if s'.rows[key].holder != s.rows[key].holder {
        HolderNeverReturns(s', steps[1..], key, s.rows[key].holder);
      }
    }
  }

  lemma {:induction false} HolderNeverReturns(s: State, steps: seq<Step>, key: string, holder: string)
    requires LegalRun(s, steps) && (key, holder) in s.tried
    requires key in s.rows ==> s.rows[key].holder != holder
    ensures key in Run(s, steps).rows ==> Run(s, steps).rows[key].holder != holder
    decreases |steps|
  {
    if steps != [] {
      HolderNeverReturns(Next(s, steps[0]), steps[1..], key, holder);
    }
  }

  // ---------------------------------------------------------------- stale leases

  /** A lease that does not match can only match again when its own holder acquires its key at its fence. */
  lemma RevivedIff(s: State, step: Step, lease: Lease)
    requires !Matches(s.rows, lease)
    ensures Matches(Next(s, step).rows, lease) <==>
      && step.Acquire? && step.key == lease.key && step.holder == lease.holder
      && Acquired(Get(s.rows, lease.key), lease.holder, s.now, step.ttl).Some?
      && Acquired(Get(s.rows, lease.key), lease.holder, s.now, step.ttl).value.fence == lease.fence
  {
  }

  /** A lease once lost or released never changes the table again, although release resets the fence. */
  lemma {:induction false} StaleIsPowerless(s: State, steps: seq<Step>, lease: Lease, ttl: int)
    requires LegalRun(s, steps) && (lease.key, lease.holder) in s.tried && !Matches(s.rows, lease)
    ensures var t := Run(s, steps);
            && AfterRenew(t.rows, lease, t.now, ttl) == t.rows
            && AfterRelease(t.rows, lease) == t.rows
    decreases |steps|
  {
    if steps != [] {
      RevivedIff(s, steps[0], lease);
      StaleIsPowerless(Next(s, steps[0]), steps[1..], lease, ttl);
    }
  }

  /** What makes a lease stale: its release, or another holder's acquisition of the key. */
  lemma BecomesStale(s: State, step: Step, lease: Lease)
    requires Matches(s.rows, lease) && Legal(s, step) && (lease.key, lease.holder) in s.tried
    ensures !Matches(Next(s, step).rows, lease) <==>
      step == Release(lease)
      || (step.Acquire? && step.key == lease.key && s.rows[lease.key].expires < s.now)
  {
  }

  /** Without fresh holder ids the promise fails: a stale copy of a released lease deletes the holder's new row. */
  lemma ReusedHolderRevives(key: string, holder: string, ttl: nat)
    ensures var stale := Lease(key, holder, 1);
            var s := Run(INIT, [Acquire(key, holder, ttl), Release(stale), Acquire(key, holder, ttl)]);
            && !LegalRun(INIT, [Acquire(key, holder, ttl), Release(stale), Acquire(key, holder, ttl)])
            && key in s.rows && AfterRelease(s.rows, stale) == map[]
  {
    var a, stale := Acquire(key, holder, ttl), Lease(key, holder, 1);
    var s1 := Next(INIT, a);
    var s2 := Next(s1, Release(stale));
    assert s2.rows == map[];
    RunOfThree(INIT, a, Release(stale), a);
    assert AfterRelease(Next(s2, a).rows, stale) == map[];
  }

  lemma RunOfThree(s: State, a: Step, b: Step, c: Step)
    ensures Run(s, [a, b, c]) == Next(Next(Next(s, a), b), c)
    ensures LegalRun(s, [a, b, c]) <==> Legal(s, a) && Legal(Next(s, a), b) && Legal(Next(Next(s, a), b), c)
  {
    hide Next;
    assert [a, b, c] == [a] + ([b] + ([c] + []));
    RunCons(s, a, [b] + ([c] + []));
    RunCons(Next(s, a), b, [c] + []);
    RunCons(Next(Next(s, a), b), c, []);
  }

  lemma RunCons(s: State, a: Step, rest: seq<Step>)
    ensures Run(s, [a] + rest) == Run(Next(s, a), rest)
    ensures LegalRun(s, [a] + rest) <==> Legal(s, a) && LegalRun(Next(s, a), rest)
  {
    assert ([a] + rest)[1..] == rest;
  }
}
