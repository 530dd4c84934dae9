/**
 Two-level request budgets shared by a fleet (`quota.py`): a minute slot, then an hour slot, each
 taken by one row-locked statement, in any interleaving of processes.
 */
module Quota {
  import opened Prelude

  datatype Kind = Minute | Hour

  datatype WindowKey = WindowKey(kind: Kind, credential: string, index: int)

  datatype Window = Window(used: nat, limit: int)

  type Table = map<WindowKey, Window>

  function MaxInt(a: int, b: int): int { if a < b then b else a }

  /** INSERT ... ON CONFLICT DO UPDATE SET used = used + 1 WHERE used < limit: the new row, or None when denied. */
  function Reserved(cur: Option<Window>, limit: int): Option<Window> {
    match cur
    case None => Some(Window(1, limit))
    case Some(w) => if w.used < limit then Some(Window(w.used + 1, limit)) else None
  }

  function AfterReserve(table: Table, k: WindowKey, limit: int): Table {
    var row := Reserved(Get(table, k), limit);
    if row.Some? then table[k := row.value] else table
  }

  /** One call: the transaction's clock in seconds, the minute limit (at least 1) and the hour limit if there is one. */
  datatype Request = Request(credential: string, now: int, minuteLimit: int, hourLimit: Option<int>)

  function MinuteKey(r: Request): WindowKey { WindowKey(Minute, r.credential, r.now / 60) }
  function HourKey(r: Request): WindowKey { WindowKey(Hour, r.credential, r.now / 3600) }

  function RequestFor(credential: string, now: int, limitPerMin: int, limitPerHour: int): Request {
    Request(credential, now, MaxInt(1, limitPerMin), if limitPerHour == 0 then None else Some(limitPerHour))
  }

  datatype Outcome = Granted | MinuteDenied | HourDenied

  datatype Decision = Decision(outcome: Outcome, used: nat, limit: int)

  /** What an undisturbed call decides. */
  function OutcomeOf(table: Table, r: Request): Outcome {
    if Reserved(Get(table, MinuteKey(r)), r.minuteLimit).None? then MinuteDenied
    else if r.hourLimit.Some? && Reserved(Get(table, HourKey(r)), r.hourLimit.value).None? then HourDenied
    else Granted
  }

  /** Both slots, unless the minute slot is denied; a denied statement changes nothing. */
  function AfterCall(table: Table, r: Request): Table {
    var t := AfterReserve(table, MinuteKey(r), r.minuteLimit);
    if OutcomeOf(table, r).MinuteDenied? || r.hourLimit.None? then t
    else AfterReserve(t, HourKey(r), r.hourLimit.value)
  }

  /**
   A negative hour limit is no limit of zero: it grants the first request of the hour, and every later one under a
   negative limit is denied, although its minute slot is taken.
   */
  lemma NegativeHourLimit(table: Table, credential: string, now: int, limitPerMin: int, limitPerHour: int)
    requires limitPerHour < 0
    ensures var r := RequestFor(credential, now, limitPerMin, limitPerHour);
            Reserved(Get(table, MinuteKey(r)), r.minuteLimit).Some? ==>
              && (OutcomeOf(table, r) == Granted <==> HourKey(r) !in table)
              && (OutcomeOf(table, r) == HourDenied <==> HourKey(r) in table)
              && MinuteKey(r) in AfterCall(table, r)
              && Used(AfterCall(table, r), MinuteKey(r)) == Used(table, MinuteKey(r)) + 1
  {
  }

  /** A minute limit below one counts as one: it grants the first request of the minute, and then none. */
  lemma LowMinuteLimit(table: Table, credential: string, now: int, limitPerMin: int)
    requires limitPerMin < 1
    ensures var r := RequestFor(credential, now, limitPerMin, 0);
            OutcomeOf(table, r) == Granted <==> MinuteKey(r) !in table || table[MinuteKey(r)].used == 0
  {
  }

  /** A request counts in the minute and the hour that its time falls into, and hours hold whole minutes. */
  lemma WindowsOf(r: Request)
    ensures 60 * MinuteKey(r).index <= r.now < 60 * MinuteKey(r).index + 60
    ensures 3600 * HourKey(r).index <= r.now < 3600 * HourKey(r).index + 3600
    ensures HourKey(r).index == MinuteKey(r).index / 60
    ensures MinuteKey(r).credential == r.credential && HourKey(r).credential == r.credential
    ensures MinuteKey(r).kind.Minute? && HourKey(r).kind.Hour?
  {
  }

  function Used(table: Table, k: WindowKey): nat {
    if k in table then table[k].used else 0
  }

  /** The table behind the quota; one process at a time executes a statement. */
  class PostgresQuota {
    var table: Table

    /** One reservation statement. */
    method ReserveWindow(k: WindowKey, limit: int) returns (row: Option<Window>)
      modifies this
      ensures table == AfterReserve(old(table), k, limit)
      ensures row == Reserved(Get(old(table), k), limit)
      ensures row.Some? ==> Get(table, k) == row
    {
      row := None;
      if k !in table {
        row := Some(Window(1, limit));
        table := table[k := row.value];
      } else if table[k].used < limit {
        row := Some(Window(table[k].used + 1, limit));
        table := table[k := row.value];
      }
    }

    /** reserve(): a zero hour limit is none. A grant takes both slots; an hour denial keeps the minute slot. */
    method Reserve(credential: string, now: int, limitPerMin: int, limitPerHour: int) returns (d: Decision)
      modifies this
      ensures var r := RequestFor(credential, now, limitPerMin, limitPerHour);
              d.outcome == OutcomeOf(old(table), r) && table == AfterCall(old(table), r)
      ensures var r := RequestFor(credential, now, limitPerMin, limitPerHour);
              match d.outcome
              case Granted => Get(table, MinuteKey(r)) == Some(Window(d.used, d.limit))
                && d.used <= d.limit == r.minuteLimit
              case MinuteDenied => Get(table, MinuteKey(r)) == Some(Window(d.used, d.limit)) && d.used >= r.minuteLimit
              case HourDenied => Get(table, HourKey(r)) == Some(Window(d.used, d.limit)) && d.used >= r.hourLimit.value
    {
      var limit := MaxInt(1, limitPerMin);
      var mk := WindowKey(Minute, credential, now / 60);
      var row := ReserveWindow(mk, limit);
      if row.None? {
        return Decision(MinuteDenied, table[mk].used, table[mk].limit);
      }
      if limitPerHour != 0 {
        var hk := WindowKey(Hour, credential, now / 3600);
        var hour := ReserveWindow(hk, limitPerHour);
        if hour.None? {
          return Decision(HourDenied, table[hk].used, table[hk].limit);
        }
      }
      d := Decision(Granted, row.value.used, row.value.limit);
    }
  }

  // ---------------------------------------------------------------- interleavings

  datatype Pid = Pid(id: int)

  datatype Event = Event(request: Request, outcome: Outcome)

  /** Requests between their minute and their hour statement, everything decided so far, and every request begun. */
  datatype State = State(table: Table, pending: map<Pid, Request>, decided: seq<Event>, begun: seq<Request>)

  datatype Step =
    | Begin(pid: Pid, request: Request)
    | Finish(pid: Pid)

  predicate Legal(s: State, step: Step) {
    match step
    case Begin(pid, r) => pid !in s.pending && r.minuteLimit >= 1 && r.hourLimit != Some(0)
    case Finish(pid) => pid in s.pending
  }

  function Next(s: State, step: Step): State
    requires Legal(s, step)
  {
    match step
    case Begin(pid, r) =>
      var s' := s.(table := AfterReserve(s.table, MinuteKey(r), r.minuteLimit), begun := s.begun + [r]);
      if Reserved(Get(s.table, MinuteKey(r)), r.minuteLimit).None?
      then s'.(decided := s.decided + [Event(r, MinuteDenied)])
      else if r.hourLimit.None? then s'.(decided := s.decided + [Event(r, Granted)])
      else s'.(pending := s.pending[pid := r])
    case Finish(pid) =>
      var r := s.pending[pid];
      var s' := s.(pending := s.pending - {pid});
      if r.hourLimit.None? then s'
      else
        var outcome := if Reserved(Get(s.table, HourKey(r)), r.hourLimit.value).Some? then Granted else HourDenied;
        s'.(table := AfterReserve(s.table, HourKey(r), r.hourLimit.value), decided := s.decided + [Event(r, outcome)])
  }

  const INIT: State := State(map[], map[], [], [])

  ghost predicate Reaches(s: State, steps: seq<Step>, t: State)
    decreases |steps|
  {
    if steps == [] then s == t
    else Legal(s, steps[0]) && Reaches(Next(s, steps[0]), steps[1..], t)
  }

  // ---------------------------------------------------------------- what is counted

  function CountMinute(events: seq<Event>, k: WindowKey, outcome: Outcome): nat {
    if events == [] then 0
    else
      var e := events[|events| - 1];
      CountMinute(events[..|events| - 1], k, outcome)
      + if MinuteKey(e.request) == k && e.outcome == outcome then 1 else 0
  }

  function CountHour(events: seq<Event>, k: WindowKey): nat {
    if events == [] then 0
    else
      var e := events[|events| - 1];
      CountHour(events[..|events| - 1], k)
      + if HourKey(e.request) == k && e.request.hourLimit.Some? && e.outcome == Granted then 1 else 0
  }

  function PendingPids(pending: map<Pid, Request>, k: WindowKey): set<Pid> {
    set p | p in pending && MinuteKey(pending[p]) == k
  }

  function PendingIn(pending: map<Pid, Request>, k: WindowKey): nat {
    |PendingPids(pending, k)|
  }

  /** The requests that have taken a slot in a minute window: granted, denied later by the hour, or still undecided. */
  function TookSlot(s: State, k: WindowKey): nat {
    CountMinute(s.decided, k, Granted) + CountMinute(s.decided, k, HourDenied) + PendingIn(s.pending, k)
  }

  /** Does the request fall into window `k` and allow `used` slots? An hour limit grants one slot whatever it is. */
  predicate Allows(r: Request, k: WindowKey, used: nat) {
    match k.kind
    case Minute => MinuteKey(r) == k && used <= r.minuteLimit
    case Hour => HourKey(r) == k && r.hourLimit.Some? && used <= MaxInt(1, r.hourLimit.value)
  }

  predicate WithinSomeLimit(begun: seq<Request>, k: WindowKey, used: nat) {
    exists r: Request :: r in begun && Allows(r, k, used)
  }

  ghost predicate CountersRight(s: State) {
    && (forall k: WindowKey :: k.kind.Minute? ==> Used(s.table, k) == TookSlot(s, k))
    && (forall k: WindowKey :: k.kind.Hour? ==> Used(s.table, k) == CountHour(s.decided, k))
  }

  ghost predicate Inv(s: State) {
    && (forall p :: p in s.pending ==> s.pending[p].hourLimit.Some? && s.pending[p] in s.begun)
    && CountersRight(s)
    && (forall k :: k in s.table ==> WithinSomeLimit(s.begun, k, s.table[k].used))
  }

  lemma CountNext(events: seq<Event>, e: Event, k: WindowKey, o: Outcome)
    ensures CountMinute(events + [e], k, o)
            == CountMinute(events, k, o) + if MinuteKey(e.request) == k && e.outcome == o then 1 else 0
    ensures CountHour(events + [e], k)
            == CountHour(events, k)
               + if HourKey(e.request) == k && e.request.hourLimit.Some? && e.outcome == Granted then 1 else 0
  {
    assert (events + [e])[..|events|] == events;
  }

  lemma CountBoth(events: seq<Event>, e: Event, k: WindowKey)
    ensures var took := if MinuteKey(e.request) == k && !e.outcome.MinuteDenied? then 1 else 0;
            CountMinute(events + [e], k, Granted) + CountMinute(events + [e], k, HourDenied)
            == CountMinute(events, k, Granted) + CountMinute(events, k, HourDenied) + took
    ensures CountHour(events + [e], k)
            == CountHour(events, k)
               + if HourKey(e.request) == k && e.request.hourLimit.Some? && e.outcome == Granted then 1 else 0
  {
    hide CountMinute, CountHour;
    CountNext(events, e, k, Granted);
    CountNext(events, e, k, HourDenied);
  }

  lemma PendingNext(pending: map<Pid, Request>, pid: Pid, r: Request, k: WindowKey)
    requires pid !in pending
    ensures PendingIn(pending[pid := r], k) == PendingIn(pending, k) + if MinuteKey(r) == k then 1 else 0
  {
    hide MinuteKey;
    assert PendingPids(pending[pid := r], k) == PendingPids(pending, k) + if MinuteKey(r) == k then {pid} else {};
  }

  lemma LimitsGrow(begun: seq<Request>, r: Request, k: WindowKey, used: nat)
    requires WithinSomeLimit(begun, k, used)
    ensures WithinSomeLimit(begun + [r], k, used)
  {
  }

  lemma InvBegin(s: State, pid: Pid, r: Request)
    requires Inv(s) && Legal(s, Begin(pid, r))
    ensures Inv(Next(s, Begin(pid, r)))
  {
    BeginCountersRight(s, pid, r);
    BeginWithin(s, pid, r);
    hide CountersRight, WithinSomeLimit;
  }

  lemma BeginCountersRight(s: State, pid: Pid, r: Request)
    requires CountersRight(s) && Legal(s, Begin(pid, r))
    ensures CountersRight(Next(s, Begin(pid, r)))
  {
    forall k: WindowKey { BeginCounts(s, pid, r, k); }
    hide TookSlot, CountHour, Used, Next;
  }

  lemma BeginWithin(s: State, pid: Pid, r: Request)
    requires Inv(s) && Legal(s, Begin(pid, r))
    ensures var s' := Next(s, Begin(pid, r));
            forall k :: k in s'.table ==> WithinSomeLimit(s'.begun, k, s'.table[k].used)
  {
    hide CountersRight;
    var s' := Next(s, Begin(pid, r));
    assert r in s'.begun;
    forall k | k in s'.table ensures WithinSomeLimit(s'.begun, k, s'.table[k].used) {
      if k in s.table { LimitsGrow(s.begun, r, k, s.table[k].used); }
      assert k == MinuteKey(r) && s'.table != s.table ==> Allows(r, k, s'.table[k].used);
    }
  }

  lemma BeginCounts(s: State, pid: Pid, r: Request, k: WindowKey)
    requires CountersRight(s) && Legal(s, Begin(pid, r))
    ensures var s' := Next(s, Begin(pid, r));
            && (k.kind.Minute? ==> Used(s'.table, k) == TookSlot(s', k))
            && (k.kind.Hour? ==> Used(s'.table, k) == CountHour(s'.decided, k))
  {
    hide PendingIn, CountMinute, CountHour;
    var s' := Next(s, Begin(pid, r));
    PendingNext(s.pending, pid, r, k);
    CountBoth(s.decided, Event(r, MinuteDenied), k);
    CountBoth(s.decided, Event(r, Granted), k);
  }

  lemma InvFinish(s: State, pid: Pid)
    requires Inv(s) && Legal(s, Finish(pid))
    ensures Inv(Next(s, Finish(pid)))
  {
    var s' := Next(s, Finish(pid));
    var r := s.pending[pid];
    forall k: WindowKey
      ensures (k.kind.Minute? ==> Used(s'.table, k) == TookSlot(s', k))
        && (k.kind.Hour? ==> Used(s'.table, k) == CountHour(s'.decided, k))
    {
      FinishCounts(s, pid, k);
    }
    forall k | k in s'.table ensures WithinSomeLimit(s'.begun, k, s'.table[k].used) {
      assert k == HourKey(r) && s'.table != s.table ==> Allows(r, k, s'.table[k].used);
    }
  }

  lemma FinishCounts(s: State, pid: Pid, k: WindowKey)
    requires Inv(s) && Legal(s, Finish(pid))
    ensures var s' := Next(s, Finish(pid));
            && (k.kind.Minute? ==> Used(s'.table, k) == TookSlot(s', k))
            && (k.kind.Hour? ==> Used(s'.table, k) == CountHour(s'.decided, k))
  {
    hide PendingIn, CountMinute, CountHour, WithinSomeLimit;
    var s' := Next(s, Finish(pid));
    var r := s.pending[pid];
    assert s.pending == s'.pending[pid := r];
    PendingNext(s'.pending, pid, r, k);
    CountBoth(s.decided, Event(r, Granted), k);
    CountBoth(s.decided, Event(r, HourDenied), k);
  }

  lemma {:induction false} InvReaches(s: State, steps: seq<Step>, t: State)
    requires Inv(s) && Reaches(s, steps, t)
    ensures Inv(t)
    decreases |steps|
  {
    hide Inv, Next;
    if steps != [] {
      match steps[0] {
        case Begin(pid, r) => InvBegin(s, pid, r);
        case Finish(pid) => InvFinish(s, pid);
      }
      InvReaches(Next(s, steps[0]), steps[1..], t);
    }
  }

  lemma InitInv()
    ensures Inv(INIT)
  {
    assert forall k :: PendingIn(INIT.pending, k) == 0;
  }

  /** A minute's counter is exactly the granted, the hour-denied and the undecided requests that took a slot in it. */
  lemma MinuteConservation(steps: seq<Step>, t: State, k: WindowKey)
    requires Reaches(INIT, steps, t) && k.kind.Minute?
    ensures Used(t.table, k) == TookSlot(t, k)
    ensures k in t.table ==> exists r: Request :: r in t.begun && MinuteKey(r) == k && Used(t.table, k) <= r.minuteLimit
  {
    hide Reaches, TookSlot;
    InitInv();
    InvReaches(INIT, steps, t);
    if k in t.table {
      assert WithinSomeLimit(t.begun, k, t.table[k].used);
    }
  }

  /** An hour's counter is its granted requests, and never exceeds the largest limit asked for (at least one). */
  lemma HourConservation(steps: seq<Step>, t: State, k: WindowKey)
    requires Reaches(INIT, steps, t) && k.kind.Hour?
    ensures Used(t.table, k) == CountHour(t.decided, k)
    ensures k in t.table ==>
      exists r: Request ::
        r in t.begun && HourKey(r) == k && r.hourLimit.Some? && Used(t.table, k) <= MaxInt(1, r.hourLimit.value)
  {
    hide Reaches, CountHour;
    InitInv();
    InvReaches(INIT, steps, t);
    if k in t.table {
      assert WithinSomeLimit(t.begun, k, t.table[k].used);
    }
  }

  /** A call that no other process interrupts is its two statements. */
  lemma CallIsTwoSteps(s: State, pid: Pid, r: Request)
    requires Legal(s, Begin(pid, r))
    ensures var s1 := Next(s, Begin(pid, r));
            if pid in s1.pending
            then Next(s1, Finish(pid)).table == AfterCall(s.table, r)
                 && Next(s1, Finish(pid)).decided == s.decided + [Event(r, OutcomeOf(s.table, r))]
            else s1.table == AfterCall(s.table, r) && s1.decided == s.decided + [Event(r, OutcomeOf(s.table, r))]
  {
  }

  /** With the same limit on every request of a minute, at most that many requests are granted in it. */
  lemma GrantsBounded(steps: seq<Step>, t: State, k: WindowKey, limit: nat)
    requires Reaches(INIT, steps, t) && k.kind.Minute?
    requires forall r :: r in t.begun && MinuteKey(r) == k ==> r.minuteLimit <= limit
    ensures CountMinute(t.decided, k, Granted) <= limit
  {
    MinuteConservation(steps, t, k);
  }

  // ---------------------------------------------------------------- reserve_or_wait

  datatype Attempt = Attempt(granted: bool, retryIn: real)

  function Clamp(x: real): real {
    if x < 0.25 then 0.25 else if x > 60.0 then 60.0 else x
  }

  /** The delay after attempt `i`: the clamped retry hint plus up to half a second of jitter. */
  function Delay(attempts: nat -> Attempt, jitter: nat -> real, i: nat): real {
    Clamp(attempts(i).retryIn) + jitter(i) * 0.5
  }

  /** A delay is the retry hint itself between a quarter of a second and a minute, and up to half a second more. */
  lemma DelayBetween(attempts: nat -> Attempt, jitter: nat -> real, i: nat)
    requires 0.0 <= jitter(i) < 1.0
    ensures 0.25 <= Delay(attempts, jitter, i) < 60.5
    ensures 0.25 <= attempts(i).retryIn <= 60.0 ==>
            attempts(i).retryIn <= Delay(attempts, jitter, i) < attempts(i).retryIn + 0.5
    ensures attempts(i).retryIn < 0.25 ==> Delay(attempts, jitter, i) < 0.75
    ensures attempts(i).retryIn > 60.0 ==> Delay(attempts, jitter, i) >= 60.0
  {
  }

  /** The time slept before attempt `n`. */
  function Slept(attempts: nat -> Attempt, jitter: nat -> real, n: nat): real {
    if n == 0 then 0.0 else Slept(attempts, jitter, n - 1) + Delay(attempts, jitter, n - 1)
  }

  lemma {:induction false} SleptAtLeast(attempts: nat -> Attempt, jitter: nat -> real, n: nat)
    requires forall i :: 0.0 <= jitter(i) < 1.0
    ensures Slept(attempts, jitter, n) >= 0.25 * n as real
  {
    if n > 0 {
      SleptAtLeast(attempts, jitter, n - 1);
      var d := Delay(attempts, jitter, n - 1);
      assert d >= 0.25;
      assert 0.25 * (n - 1) as real + 0.25 == 0.25 * n as real;
    }
  }

  lemma TriesFit(n: nat, maxWait: real)
    requires 0.25 * n as real <= maxWait
    ensures n <= (4.0 * maxWait).Floor
  {
    assert n as real <= 4.0 * maxWait;
  }

  /**
   Whatever the backend answers and whatever the jitter: the loop stops, at the first attempt that is granted or
   whose delay no longer fits; it has slept at most `maxWait`, and tried at most floor(4 * maxWait) + 1 times.
   */
  method ReserveOrWait(attempts: nat -> Attempt, jitter: nat -> real, maxWait: real)
    returns (granted: bool, tries: nat, waited: real)
    requires forall i :: 0.0 <= jitter(i) < 1.0
    ensures tries >= 1 && waited == Slept(attempts, jitter, tries - 1)
    ensures forall i :: 0 <= i < tries - 1 ==> !attempts(i).granted
    ensures tries > 1 ==> waited <= maxWait
    ensures granted == attempts(tries - 1).granted
    ensures !granted ==> waited + Delay(attempts, jitter, tries - 1) > maxWait
    ensures 0.0 <= maxWait ==> waited <= maxWait && tries <= (4.0 * maxWait).Floor + 1
    ensures maxWait < 0.0 ==> tries == 1
  {
    waited := 0.0;
    tries := 0;
    while true
      invariant waited == Slept(attempts, jitter, tries)
      invariant forall i :: 0 <= i < tries ==> !attempts(i).granted
      invariant tries > 0 ==> waited <= maxWait
      decreases (4.0 * maxWait).Floor + 1 - tries
    {
      SleptAtLeast(attempts, jitter, tries);
      if tries > 0 { TriesFit(tries, maxWait); }
      var d := attempts(tries);
      tries := tries + 1;
      if d.granted {
        return true, tries, waited;
      }
      var delay := Delay(attempts, jitter, tries - 1);
      if waited + delay > maxWait {
        return false, tries, waited;
      }
      waited := waited + delay;
      SleptAtLeast(attempts, jitter, tries);
      TriesFit(tries, maxWait);
    }
  }
}
