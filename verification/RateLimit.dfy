/** The sliding-window limiter with deque pruning and periodic sweeps (`core/ratelimit.py`). */
module RateLimit {
  const MAX_TRACKED_KEYS: nat := 50_000
  const SWEEP_EVERY: nat := 1000

  /** The dict of deques with its insertion order, and the calls since the last sweep. */
  datatype Limiter = Limiter(order: seq<string>, log: map<string, seq<int>>, calls: nat)

  function Deque(s: Limiter, key: string): seq<int> {
    if key in s.log then s.log[key] else []
  }

  /** Idle: empty, or the newest call is out of the window. */
  predicate Stale(dq: seq<int>, now: int, window: int) {
    dq == [] || now - dq[|dq| - 1] > window
  }

  function Live(order: seq<string>, log: map<string, seq<int>>, now: int, window: int): seq<string> {
    if order == [] then []
    else
      var k := order[|order| - 1];
      Live(order[..|order| - 1], log, now, window) + if k in log && Stale(log[k], now, window) then [] else [k]
  }

  /** The keys a sweep keeps: the live ones, and of more than 50,000 live ones the newest half. */
  function Kept(s: Limiter, now: int, window: int): seq<string> {
    var live := Live(s.order, s.log, now, window);
    if |live| > MAX_TRACKED_KEYS then live[|live| / 2..] else live
  }

  function Sweep(s: Limiter, now: int, window: int): Limiter {
    var kept := Kept(s, now, window);
    Limiter(kept, map k | k in s.log && k in kept :: s.log[k], 0)
  }

  /** Drop calls from the front while they are out of the window. */
  function Prune(dq: seq<int>, now: int, window: int): seq<int> {
    if dq != [] && now - dq[0] > window then Prune(dq[1..], now, window) else dq
  }

  /** The end of check(): prune, decide and record. */
  function Decide(s: Limiter, key: string, now: int, limit: int, window: int): (Limiter, bool) {
    var order := if key in s.log then s.order else s.order + [key];
    var dq := Prune(Deque(s, key), now, window);
    if |dq| >= limit then (Limiter(order, s.log[key := dq], s.calls), false)
    else (Limiter(order, s.log[key := dq + [now]], s.calls), true)
  }

  /** Count the call, and sweep when it is time. */
  function Counting(s: Limiter, now: int, window: int): Limiter {
    if Sweeps(s) then Sweep(s, now, window) else s.(calls := s.calls + 1)
  }

  predicate Sweeps(s: Limiter) {
    s.calls + 1 >= SWEEP_EVERY
  }

  /** check(): the new state and whether the call is admitted. */
  function Check(s: Limiter, key: string, now: int, limit: int, window: int): (Limiter, bool) {
    if limit <= 0 then (s, true) else Decide(Counting(s, now, window), key, now, limit, window)
  }

  class SlidingWindowLimiter {
    const limit: int
    const window: int
    var state: Limiter

    constructor (limit: int, window: int)
      ensures this.limit == limit && this.window == window && state == Limiter([], map[], 0)
    {
      this.limit, this.window := limit, window;
      state := Limiter([], map[], 0);
    }

    method SweepIdle(now: int)
      modifies this`state
      ensures state == Sweep(old(state), now, window)
    {
      var live: seq<string> := [];
      for i := 0 to |state.order|
        invariant live == Live(state.order[..i], state.log, now, window)
      {
        assert state.order[..i + 1][..i] == state.order[..i];
        var k := state.order[i];
        if !(k in state.log && Stale(state.log[k], now, window)) {
          live := live + [k];
        }
      }
      assert state.order[..|state.order|] == state.order;
      if |live| > MAX_TRACKED_KEYS {
        live := live[|live| / 2..];
      }
      state := Limiter(live, map k | k in state.log && k in live :: state.log[k], 0);
    }

    /** Record a call at time `now`; false when over the limit. */
    method CheckCall(key: string, now: int) returns (ok: bool)
      modifies this`state
      ensures (state, ok) == Check(old(state), key, now, limit, window)
    {
      if limit <= 0 {
        return true;
      }
      state := state.(calls := state.calls + 1);
      if state.calls >= SWEEP_EVERY {
        SweepIdle(now);
      }
      ghost var s1 := state;
      var dq := [];
      if key in state.log {
        dq := state.log[key];
      } else {
        state := state.(order := state.order + [key]);
      }
      while dq != [] && now - dq[0] > window
        invariant Prune(dq, now, window) == Prune(Deque(s1, key), now, window)
        decreases |dq|
      {
        dq := dq[1..];
      }
      if |dq| >= limit {
        state := state.(log := state.log[key := dq]);
        return false;
      }
      state := state.(log := state.log[key := dq + [now]]);
      return true;
    }
  }

  // ---------------------------------------------------------------- the full log

  /** An admitted call. */
  datatype Call = Call(key: string, time: int)

  /** The times of one key, oldest first. */
  function Times(log: seq<Call>, key: string): seq<int> {
    if log == [] then []
    else
      var c := log[|log| - 1];
      Times(log[..|log| - 1], key) + if c.key == key then [c.time] else []
  }

  /** How many of the times lie in the last `window`. */
  function Recent(times: seq<int>, now: int, window: int): nat {
    if times == [] then 0
    else Recent(times[..|times| - 1], now, window) + if now - times[|times| - 1] <= window then 1 else 0
  }

  /** The specification: fewer than `limit` admitted calls of this key in the last `window`. */
  predicate Admits(log: seq<Call>, key: string, now: int, limit: int, window: int) {
    limit <= 0 || Recent(Times(log, key), now, window) < limit
  }

  function LogAfter(log: seq<Call>, key: string, now: int, limit: int, ok: bool): seq<Call> {
    if limit > 0 && ok then log + [Call(key, now)] else log
  }

  predicate Sorted(times: seq<int>) {
    forall i, j :: 0 <= i < j < |times| ==> times[i] <= times[j]
  }

  // ---------------------------------------------------------------- deques agree with the log

  /** The deque holds the newest times of its key; the ones it lacks are out of the window for good. */
  predicate Agrees(dq: seq<int>, times: seq<int>, now: int, window: int) {
    && Sorted(times) && (forall i :: 0 <= i < |times| ==> times[i] <= now)
    && |dq| <= |times| && dq == times[|times| - |dq|..]
    && forall i :: 0 <= i < |times| - |dq| ==> now - times[i] > window
  }

  predicate Distinct(order: seq<string>) {
    forall i, j :: 0 <= i < j < |order| ==> order[i] != order[j]
  }

  /** Every deque agrees with the times that still count for its key. */
  ghost predicate Inv(s: Limiter, since: string -> seq<int>, now: int, window: int) {
    && (forall k :: k in s.log <==> k in s.order)
    && Distinct(s.order)
    && (forall k :: Agrees(Deque(s, k), since(k), now, window))
  }

  lemma AgreesLater(dq: seq<int>, times: seq<int>, now: int, later: int, window: int)
    requires Agrees(dq, times, now, window) && now <= later
    ensures Agrees(dq, times, later, window)
  {
  }

  lemma {:induction false} PruneAgrees(dq: seq<int>, times: seq<int>, now: int, window: int)
    requires Agrees(dq, times, now, window)
    ensures var p := Prune(dq, now, window);
            Agrees(p, times, now, window) && (p != [] ==> now - p[0] <= window)
  {
    if dq != [] && now - dq[0] > window {
      assert dq[0] == times[|times| - |dq|];
      PruneAgrees(dq[1..], times, now, window);
    }
  }

  /** All times in the window, none in the window. */
  lemma {:induction false} RecentAll(times: seq<int>, now: int, window: int)
    requires forall i :: 0 <= i < |times| ==> now - times[i] <= window
    ensures Recent(times, now, window) == |times|
  {
    if times != [] { RecentAll(times[..|times| - 1], now, window); }
  }

  lemma {:induction false} RecentSplit(a: seq<int>, b: seq<int>, now: int, window: int)
    requires forall i :: 0 <= i < |a| ==> now - a[i] > window
    ensures Recent(a + b, now, window) == Recent(b, now, window)
  {
    if b != [] {
      RecentSplit(a, b[..|b| - 1], now, window);
      assert (a + b)[..|a + b| - 1] == a + b[..|b| - 1];
    } else {
      assert a + b == a;
      if a != [] {
        RecentSplit(a[..|a| - 1], [], now, window);
        assert a[..|a| - 1] + [] == a[..|a| - 1];
      }
    }
  }

  /** The pruned deque is exactly the calls that count. */
  lemma PrunedIsRecent(dq: seq<int>, times: seq<int>, now: int, window: int)
    requires Agrees(dq, times, now, window)
    ensures |Prune(dq, now, window)| == Recent(times, now, window)
  {
    hide Recent, Prune;
    PruneAgrees(dq, times, now, window);
    var p := Prune(dq, now, window);
    var cut := |times| - |p|;
    assert forall i :: 0 <= i < |p| ==> p[i] == times[cut + i];
    assert forall i :: 0 <= i < |p| ==> p[0] <= p[i];
    RecentAll(p, now, window);
    RecentSplit(times[..cut], p, now, window);
    assert times == times[..cut] + p;
  }

  // ---------------------------------------------------------------- sweeps

  lemma {:induction false} LiveMember(order: seq<string>, log: map<string, seq<int>>, now: int, window: int, k: string)
    ensures k in Live(order, log, now, window) <==> k in order && !(k in log && Stale(log[k], now, window))
  {
    hide Stale;
    if order != [] {
      LiveMember(order[..|order| - 1], log, now, window, k);
    }
  }

  lemma {:induction false} LiveDistinct(order: seq<string>, log: map<string, seq<int>>, now: int, window: int)
    requires Distinct(order)
    ensures Distinct(Live(order, log, now, window))
  {
    hide Stale;
    if order != [] {
      var n := |order| - 1;
      LiveDistinct(order[..n], log, now, window);
      LiveMember(order[..n], log, now, window, order[n]);
    }
  }

  /** The live keys a crowded sweep throws away: the older half. */
  predicate Dropped(s: Limiter, now: int, window: int, key: string) {
    key in Live(s.order, s.log, now, window) && key !in Kept(s, now, window)
  }

  lemma KeptSubset(s: Limiter, now: int, window: int, k: string)
    ensures k in Kept(s, now, window) ==> k in Live(s.order, s.log, now, window)
  {
  }

  /** An idle deque may be forgotten: everything in it is out of the window. */
  lemma StaleForgotten(dq: seq<int>, times: seq<int>, now: int, window: int)
    requires Agrees(dq, times, now, window) && Stale(dq, now, window)
    ensures Agrees([], times, now, window)
  {
    forall i | 0 <= i < |times| ensures now - times[i] > window {
      if i >= |times| - |dq| { assert times[i] <= times[|times| - 1]; }
    }
    assert times[|times|..] == [];
  }

  /** What a sweep leaves of the times that count: nothing for the keys it drops. */
  function Swept(s: Limiter, since: string -> seq<int>, now: int, window: int): string -> seq<int> {
    k => if Dropped(s, now, window, k) then [] else since(k)
  }

  /** After a sweep the deques of the dropped keys are empty and all others agree as before. */
  lemma SweepAgrees(s: Limiter, since: string -> seq<int>, now: int, window: int, k: string)
    requires Inv(s, since, now, window)
    ensures Agrees(Deque(Sweep(s, now, window), k), Swept(s, since, now, window)(k), now, window)
    ensures Dropped(s, now, window, k) ==> Deque(Sweep(s, now, window), k) == []
  {
    assert Agrees([], [], now, window);
    hide Agrees, Kept, Live, Stale;
    assert Agrees(Deque(s, k), since(k), now, window);
    LiveMember(s.order, s.log, now, window, k);
    KeptSubset(s, now, window, k);
    if k in s.log && Stale(s.log[k], now, window) {
      StaleForgotten(s.log[k], since(k), now, window);
    }
  }

  lemma SweepInv(s: Limiter, since: string -> seq<int>, now: int, window: int)
    requires Inv(s, since, now, window)
    ensures Inv(Sweep(s, now, window), Swept(s, since, now, window), now, window)
  {
    hide Agrees, Live, Swept, Stale;
    var s' := Sweep(s, now, window);
    LiveDistinct(s.order, s.log, now, window);
    forall k ensures Agrees(Deque(s', k), Swept(s, since, now, window)(k), now, window) {
      SweepAgrees(s, since, now, window, k);
    }
    forall k ensures k in s'.log <==> k in s'.order {
      LiveMember(s.order, s.log, now, window, k);
      KeptSubset(s, now, window, k);
    }
  }

  // ---------------------------------------------------------------- one call

  /** The times that count once a call at `now` has swept, if it does. */
  function Counted(s: Limiter, since: string -> seq<int>, now: int, window: int): string -> seq<int> {
    if Sweeps(s) then Swept(s, since, now, window) else since
  }

  function Recorded(since: string -> seq<int>, key: string, now: int, ok: bool): string -> seq<int> {
    k => if k == key && ok then since(k) + [now] else since(k)
  }

  lemma InvLater(s: Limiter, since: string -> seq<int>, last: int, now: int, window: int)
    requires Inv(s, since, last, window) && last <= now
    ensures Inv(s, since, now, window)
  {
    hide Agrees;
    forall k ensures Agrees(Deque(s, k), since(k), now, window) {
      AgreesLater(Deque(s, k), since(k), last, now, window);
    }
  }

  lemma AgreesAppend(dq: seq<int>, times: seq<int>, now: int, window: int)
    requires Agrees(dq, times, now, window)
    ensures Agrees(dq + [now], times + [now], now, window)
  {
  }

  lemma CountingInv(s: Limiter, since: string -> seq<int>, last: int, now: int, window: int)
    requires Inv(s, since, last, window) && last <= now
    ensures Inv(Counting(s, now, window), Counted(s, since, now, window), now, window)
  {
    hide Agrees, Swept, Sweep;
    InvLater(s, since, last, now, window);
    if Sweeps(s) {
      SweepInv(s, since, now, window);
    } else {
      assert forall k :: Deque(s.(calls := s.calls + 1), k) == Deque(s, k);
    }
  }

  lemma DecideInv(s: Limiter, counted: string -> seq<int>, key: string, now: int, limit: int, window: int)
    requires Inv(s, counted, now, window) && limit > 0
    ensures var (s', ok) := Decide(s, key, now, limit, window);
            && (ok <==> Recent(counted(key), now, window) < limit)
            && Inv(s', Recorded(counted, key, now, ok), now, window)
  {
    hide Agrees, Recent, Prune;
    var (s', ok) := Decide(s, key, now, limit, window);
    PrunedIsRecent(Deque(s, key), counted(key), now, window);
    forall k ensures Agrees(Deque(s', k), Recorded(counted, key, now, ok)(k), now, window) {
      assert Agrees(Deque(s, k), counted(k), now, window);
      if k == key {
        PruneAgrees(Deque(s, k), counted(k), now, window);
        AgreesAppend(Prune(Deque(s, k), now, window), counted(k), now, window);
      }
    }
  }

  /** A call is admitted iff fewer than `limit` of the times that count for its key lie in the window. */
  lemma CheckInv(s: Limiter, since: string -> seq<int>, last: int, key: string, now: int, limit: int, window: int)
    requires Inv(s, since, last, window) && last <= now && limit > 0
    ensures var (s', ok) := Check(s, key, now, limit, window);
            var counted := Counted(s, since, now, window);
            && (ok <==> Recent(counted(key), now, window) < limit)
            && Inv(s', Recorded(counted, key, now, ok), now, window)
  {
    hide Inv, Decide, Counting, Counted, Recent;
    CountingInv(s, since, last, now, window);
    DecideInv(Counting(s, now, window), Counted(s, since, now, window), key, now, limit, window);
  }

  lemma TimesNext(log: seq<Call>, c: Call, k: string)
    ensures Times(log + [c], k) == if c.key == k then Times(log, k) + [c.time] else Times(log, k)
  {
    assert (log + [c])[..|log|] == log;
    assert Times(log, k) + [] == Times(log, k);
  }

  // ---------------------------------------------------------------- every trace

  const FRESH: Limiter := Limiter([], map[], 0)

  /** A limiter and every call it has admitted so far. */
  datatype Past = Past(limiter: Limiter, admitted: seq<Call>)

  function Ran(calls: seq<Call>, limit: int, window: int): Past {
    if calls == [] then Past(FRESH, [])
    else
      var n := |calls| - 1;
      var p := Ran(calls[..n], limit, window);
      var (s', ok) := Check(p.limiter, calls[n].key, calls[n].time, limit, window);
      Past(s', LogAfter(p.admitted, calls[n].key, calls[n].time, limit, ok))
  }

  /** Calls in order of arrival under a clock that never goes back. */
  predicate Monotonic(calls: seq<Call>) {
    forall i, j :: 0 <= i < j < |calls| ==> calls[i].time <= calls[j].time
  }

  /** The sweep of this call, if it has one, throws away the live deque of `key`. */
  predicate Drops(calls: seq<Call>, c: Call, limit: int, window: int, key: string) {
    var s := Ran(calls, limit, window).limiter;
    Sweeps(s) && Dropped(s, c.time, window, key)
  }

  /** The admitted calls of `key` since it was last dropped. */
  function SinceDrop(calls: seq<Call>, limit: int, window: int, key: string): seq<int>
    decreases |calls|, 0
  {
    if calls == [] then []
    else
      var n := |calls| - 1;
      var c := calls[n];
      var kept := Remembered(calls[..n], c, limit, window, key);
      if c.key == key && Check(Ran(calls[..n], limit, window).limiter, c.key, c.time, limit, window).1
      then kept + [c.time] else kept
  }

  /** The same at the moment the call `c` is decided. */
  function Remembered(calls: seq<Call>, c: Call, limit: int, window: int, key: string): seq<int>
    decreases |calls|, 1
  {
    if Drops(calls, c, limit, window, key) then [] else SinceDrop(calls, limit, window, key)
  }

  lemma InvSame(s: Limiter, a: string -> seq<int>, b: string -> seq<int>, now: int, window: int)
    requires Inv(s, a, now, window) && forall k :: a(k) == b(k)
    ensures Inv(s, b, now, window)
  {
    hide Agrees;
    forall k ensures Agrees(Deque(s, k), b(k), now, window) {
      assert Agrees(Deque(s, k), a(k), now, window);
    }
  }

  /** What a call records is what then counts since the last drop. */
  lemma RecordedIsSince(calls: seq<Call>, limit: int, window: int, k: string)
    requires calls != []
    ensures var n := |calls| - 1;
            var c := calls[n];
            var s := Ran(calls[..n], limit, window).limiter;
            var counted := Counted(s, key => SinceDrop(calls[..n], limit, window, key), c.time, window);
            Recorded(counted, c.key, c.time, Check(s, c.key, c.time, limit, window).1)(k)
            == SinceDrop(calls, limit, window, k)
  {
    hide Check, Dropped;
  }

  lemma {:induction false} RanInv(calls: seq<Call>, limit: int, window: int, now: int)
    requires limit > 0 && Monotonic(calls) && forall c :: c in calls ==> c.time <= now
    ensures Inv(Ran(calls, limit, window).limiter, k => SinceDrop(calls, limit, window, k), now, window)
  {
    if calls != [] {
      var n := |calls| - 1;
      var c := calls[n];
      assert c in calls;
      hide Inv, Check, SinceDrop, Recorded, Counted, Recent;
      RanInv(calls[..n], limit, window, c.time);
      var s := Ran(calls[..n], limit, window).limiter;
      var since := (k: string) => SinceDrop(calls[..n], limit, window, k);
      CheckInv(s, since, c.time, c.key, c.time, limit, window);
      var (s', ok) := Check(s, c.key, c.time, limit, window);
      var counted := Counted(s, since, c.time, window);
      forall k ensures Recorded(counted, c.key, c.time, ok)(k) == SinceDrop(calls, limit, window, k) {
        RecordedIsSince(calls, limit, window, k);
      }
      InvSame(s', Recorded(counted, c.key, c.time, ok), k => SinceDrop(calls, limit, window, k), c.time, window);
      InvLater(s', k => SinceDrop(calls, limit, window, k), c.time, now, window);
    }
  }

  /** Does the limiter admit `c` after `calls`? */
  predicate Decides(calls: seq<Call>, c: Call, limit: int, window: int) {
    Check(Ran(calls, limit, window).limiter, c.key, c.time, limit, window).1
  }

  /**
   After every trace, however crowded its sweeps, a call is admitted iff fewer than `limit` calls of its key were
   admitted in the window since the key was last dropped.
   */
  lemma AdmittedIff(calls: seq<Call>, c: Call, limit: int, window: int)
    requires limit > 0 && Monotonic(calls + [c])
    ensures Decides(calls, c, limit, window) <==>
            Recent(Remembered(calls, c, limit, window, c.key), c.time, window) < limit
  {
    hide Agrees, Check, Dropped, Recent;
    assert Monotonic(calls) by { assert forall i :: 0 <= i < |calls| ==> (calls + [c])[i] == calls[i]; }
    forall b | b in calls ensures b.time <= c.time {
      var i :| 0 <= i < |calls| && calls[i] == b;
      assert (calls + [c])[i] == b && (calls + [c])[|calls|] == c;
    }
    RanInv(calls, limit, window, c.time);
    var since := (k: string) => SinceDrop(calls, limit, window, k);
    CheckInv(Ran(calls, limit, window).limiter, since, c.time, c.key, c.time, limit, window);
  }

  /** What the last call of a trace adds to what was ever admitted and to what still counts. */
  lemma AdmittedNext(calls: seq<Call>, limit: int, window: int, key: string)
    requires limit > 0 && calls != []
    ensures var n := |calls| - 1;
            var ok := calls[n].key == key && Decides(calls[..n], calls[n], limit, window);
            var more := if ok then [calls[n].time] else [];
            && Times(Ran(calls, limit, window).admitted, key)
               == Times(Ran(calls[..n], limit, window).admitted, key) + more
            && SinceDrop(calls, limit, window, key) == Remembered(calls[..n], calls[n], limit, window, key) + more
  {
    hide Check, Times, Drops;
    var n := |calls| - 1;
    TimesNext(Ran(calls[..n], limit, window).admitted, calls[n], key);
  }

  /** What counts since the last drop is the end of what was ever admitted. */
  lemma {:induction false} SinceIsSuffix(calls: seq<Call>, limit: int, window: int, key: string)
    returns (before: seq<int>)
    requires limit > 0
    ensures Times(Ran(calls, limit, window).admitted, key) == before + SinceDrop(calls, limit, window, key)
  {
    before := [];
    if calls != [] {
      hide Times, Drops, Decides;
      hide Ran, SinceDrop;
      var n := |calls| - 1;
      before := SinceIsSuffix(calls[..n], limit, window, key);
      AdmittedNext(calls, limit, window, key);
      if Drops(calls[..n], calls[n], limit, window, key) {
        before := Times(Ran(calls[..n], limit, window).admitted, key);
      }
    }
  }

  /** The limiter admits a call that the full log of its admissions refuses. */
  predicate Wrong(calls: seq<Call>, c: Call, limit: int, window: int) {
    Decides(calls, c, limit, window) && !Admits(Ran(calls, limit, window).admitted, c.key, c.time, limit, window)
  }

  lemma {:induction false} RecentOfEnd(a: seq<int>, b: seq<int>, now: int, window: int)
    ensures Recent(b, now, window) <= Recent(a + b, now, window)
  {
    if b != [] {
      RecentOfEnd(a, b[..|b| - 1], now, window);
      assert (a + b)[..|a + b| - 1] == a + b[..|b| - 1];
    }
  }

  /**
   The limiter never refuses what the log admits, and a call is admitted wrongly iff the window is full but was emptied
   by a drop of the key.
   */
  lemma WrongIff(calls: seq<Call>, c: Call, limit: int, window: int)
    requires limit > 0 && Monotonic(calls + [c])
    ensures Admits(Ran(calls, limit, window).admitted, c.key, c.time, limit, window) ==>
            Decides(calls, c, limit, window)
    ensures Wrong(calls, c, limit, window) <==>
            Recent(Remembered(calls, c, limit, window, c.key), c.time, window) < limit
            <= Recent(Times(Ran(calls, limit, window).admitted, c.key), c.time, window)
  {
    hide Check, Dropped, Ran;
    AdmittedIff(calls, c, limit, window);
    var before := SinceIsSuffix(calls, limit, window, c.key);
    RecentOfEnd(before, SinceDrop(calls, limit, window, c.key), c.time, window);
  }

  // ---------------------------------------------------------------- whole traces against the full log

  predicate NeverWrong(calls: seq<Call>, limit: int, window: int) {
    forall i :: 0 <= i < |calls| ==> !Wrong(calls[..i], calls[i], limit, window)
  }

  lemma NeverWrongNext(calls: seq<Call>, limit: int, window: int)
    requires calls != []
    ensures NeverWrong(calls, limit, window) <==>
            NeverWrong(calls[..|calls| - 1], limit, window)
            && !Wrong(calls[..|calls| - 1], calls[|calls| - 1], limit, window)
  {
    hide Wrong;
    var n := |calls| - 1;
    assert forall i :: 0 <= i < n ==> calls[..n][..i] == calls[..i] && calls[..n][i] == calls[i];
    if NeverWrong(calls[..n], limit, window) && !Wrong(calls[..n], calls[n], limit, window) {
      forall i | 0 <= i < |calls| ensures !Wrong(calls[..i], calls[i], limit, window) {
        if i < n { assert !Wrong(calls[..n][..i], calls[..n][i], limit, window); }
      }
    }
    if NeverWrong(calls, limit, window) {
      forall i | 0 <= i < n ensures !Wrong(calls[..n][..i], calls[..n][i], limit, window) {
        assert !Wrong(calls[..i], calls[i], limit, window);
      }
    }
  }

  /** The decisions of the limiter. */
  function Decisions(calls: seq<Call>, limit: int, window: int): (ds: seq<bool>)
    ensures |ds| == |calls|
  {
    if calls == [] then []
    else
      var n := |calls| - 1;
      Decisions(calls[..n], limit, window) + [Decides(calls[..n], calls[n], limit, window)]
  }

  /** The specification keeps every admitted call. */
  function SpecLog(calls: seq<Call>, limit: int, window: int): seq<Call> {
    if calls == [] then []
    else
      var n := |calls| - 1;
      var log := SpecLog(calls[..n], limit, window);
      var ok := Admits(log, calls[n].key, calls[n].time, limit, window);
      LogAfter(log, calls[n].key, calls[n].time, limit, ok)
  }

  function SpecDecisions(calls: seq<Call>, limit: int, window: int): (ds: seq<bool>)
    ensures |ds| == |calls|
  {
    if calls == [] then []
    else
      var n := |calls| - 1;
      SpecDecisions(calls[..n], limit, window)
      + [Admits(SpecLog(calls[..n], limit, window), calls[n].key, calls[n].time, limit, window)]
  }

  /** On every trace the limiter decides as the full log does iff no call is admitted wrongly. */
  lemma {:induction false} LimiterRefinesLogIff(calls: seq<Call>, limit: int, window: int)
    requires limit > 0 && Monotonic(calls)
    ensures Decisions(calls, limit, window) == SpecDecisions(calls, limit, window) <==> NeverWrong(calls, limit, window)
    ensures NeverWrong(calls, limit, window) ==> Ran(calls, limit, window).admitted == SpecLog(calls, limit, window)
  {
    if calls != [] {
      hide Check, Admits, SinceDrop, Remembered, NeverWrong;
      var n := |calls| - 1;
      assert calls[..n] + [calls[n]] == calls;
      LimiterRefinesLogIff(calls[..n], limit, window);
      NeverWrongNext(calls, limit, window);
      WrongIff(calls[..n], calls[n], limit, window);
      assert Decisions(calls, limit, window)[..n] == Decisions(calls[..n], limit, window);
      assert SpecDecisions(calls, limit, window)[..n] == SpecDecisions(calls[..n], limit, window);
    }
  }

  // ---------------------------------------------------------------- windows

  /** How many of the times lie in the closed window of length `window` that starts at `from`. */
  function Within(times: seq<int>, from: int, window: int): nat {
    if times == [] then 0
    else Within(times[..|times| - 1], from, window) + if from <= times[|times| - 1] <= from + window then 1 else 0
  }

  predicate NoneAfter(times: seq<int>, last: int) {
    forall i :: 0 <= i < |times| ==> times[i] <= last
  }

  /** No closed window of length `window`, wherever it starts, holds more than `limit` calls of one key. */
  ghost predicate WindowsHold(log: seq<Call>, limit: int, window: int) {
    forall k, from :: Within(Times(log, k), from, window) <= limit
  }

  lemma {:induction false} WithinAndRecent(times: seq<int>, from: int, now: int, window: int)
    requires NoneAfter(times, now)
    ensures from <= now <= from + window ==> Within(times, from, window) <= Recent(times, now, window)
    ensures from == now - window ==> Within(times, from, window) == Recent(times, now, window)
    ensures window < 0 ==> Recent(times, now, window) == 0
  {
    if times != [] {
      WithinAndRecent(times[..|times| - 1], from, now, window);
    }
  }

  lemma AdmittedByOne(calls: seq<Call>, limit: int, window: int)
    requires calls != []
    ensures var before := Ran(calls[..|calls| - 1], limit, window).admitted;
            var after := Ran(calls, limit, window).admitted;
            after == before || after == before + [calls[|calls| - 1]]
  {
    hide Check;
  }

  lemma {:induction false} AdmittedBefore(calls: seq<Call>, limit: int, window: int, key: string, now: int)
    requires forall c :: c in calls ==> c.time <= now
    ensures NoneAfter(Times(Ran(calls, limit, window).admitted, key), now)
  {
    if calls != [] {
      var n := |calls| - 1;
      assert calls[n] in calls;
      assert forall c :: c in calls[..n] ==> c in calls;
      var before := Ran(calls[..n], limit, window).admitted;
      AdmittedByOne(calls, limit, window);
      hide Ran, Times;
      AdmittedBefore(calls[..n], limit, window, key, now);
      TimesNext(before, calls[n], key);
    }
  }

  /** One more admitted call keeps the windows iff the log admits it. */
  lemma WindowsNext(log: seq<Call>, c: Call, limit: int, window: int)
    requires limit > 0 && WindowsHold(log, limit, window)
    requires forall k :: NoneAfter(Times(log, k), c.time)
    ensures WindowsHold(log + [c], limit, window) <==> Admits(log, c.key, c.time, limit, window)
  {
    hide Recent, Times, NoneAfter;
    var times := Times(log, c.key);
    TimesNext(log, c, c.key);
    assert (times + [c.time])[..|times|] == times;
    WithinAndRecent(times, c.time - window, c.time, window);
    if Admits(log, c.key, c.time, limit, window) {
      forall k, from ensures Within(Times(log + [c], k), from, window) <= limit {
        TimesNext(log, c, k);
        assert Within(Times(log, k), from, window) <= limit;
        if k == c.key { WithinAndRecent(times, from, c.time, window); }
      }
    } else {
      assert Within(Times(log + [c], c.key), c.time - window, window) > limit;
    }
  }

  lemma WindowsShrink(log: seq<Call>, c: Call, limit: int, window: int)
    requires WindowsHold(log + [c], limit, window)
    ensures WindowsHold(log, limit, window)
  {
    hide Times;
    forall k, from ensures Within(Times(log, k), from, window) <= limit {
      TimesNext(log, c, k);
      assert Within(Times(log + [c], k), from, window) <= limit;
      assert (Times(log, k) + [c.time])[..|Times(log, k)|] == Times(log, k);
    }
  }

  /** On every trace, the admissions of the limiter keep to the limit in every closed window iff none is wrong. */
  lemma {:induction false} WindowsHoldIff(calls: seq<Call>, limit: int, window: int)
    requires limit > 0 && Monotonic(calls)
    ensures WindowsHold(Ran(calls, limit, window).admitted, limit, window) <==> NeverWrong(calls, limit, window)
  {
    if calls != [] {
      hide Check, Admits, SinceDrop, Remembered, NeverWrong, NoneAfter, WindowsHold;
      var n := |calls| - 1;
      var c := calls[n];
      var log := Ran(calls[..n], limit, window).admitted;
      assert calls[..n] + [c] == calls;
      WindowsHoldIff(calls[..n], limit, window);
      NeverWrongNext(calls, limit, window);
      WrongIff(calls[..n], c, limit, window);
      forall k ensures NoneAfter(Times(log, k), c.time) { AdmittedBefore(calls[..n], limit, window, k, c.time); }
      if WindowsHold(log, limit, window) {
        WindowsNext(log, c, limit, window);
      } else if WindowsHold(log + [c], limit, window) {
        WindowsShrink(log, c, limit, window);
      }
    }
  }

  // ---------------------------------------------------------------- at most 50,000 tracked keys

  /** A sweep is crowded when more than 50,000 live keys remain. */
  predicate Crowded(s: Limiter, now: int, window: int) {
    |Live(s.order, s.log, now, window)| > MAX_TRACKED_KEYS
  }

  predicate NeverCrowded(calls: seq<Call>, limit: int, window: int) {
    forall i :: 0 <= i < |calls| ==>
      var s := Ran(calls[..i], limit, window).limiter;
      !(Sweeps(s) && Crowded(s, calls[i].time, window))
  }

  lemma {:induction false} UncrowdedRemembers(calls: seq<Call>, limit: int, window: int, key: string)
    requires limit > 0 && NeverCrowded(calls, limit, window)
    ensures SinceDrop(calls, limit, window, key) == Times(Ran(calls, limit, window).admitted, key)
  {
    if calls != [] {
      hide Check, Live, Times;
      var n := |calls| - 1;
      assert forall i :: 0 <= i < n ==> calls[..n][..i] == calls[..i];
      UncrowdedRemembers(calls[..n], limit, window, key);
      AdmittedNext(calls, limit, window, key);
    }
  }

  lemma UncrowdedIsNeverWrong(calls: seq<Call>, limit: int, window: int)
    requires limit > 0 && Monotonic(calls) && NeverCrowded(calls, limit, window)
    ensures NeverWrong(calls, limit, window)
  {
    hide Ran, Recent, Live, SinceDrop;
    forall i | 0 <= i < |calls| ensures !Wrong(calls[..i], calls[i], limit, window) {
      var front := calls[..i];
      assert forall j :: 0 <= j < i ==> front[..j] == calls[..j];
      assert Monotonic(front + [calls[i]]);
      UncrowdedRemembers(front, limit, window, calls[i].key);
      WrongIff(front, calls[i], limit, window);
    }
  }

  /**
   With at most 50,000 live keys at each sweep, the limiter admits exactly the calls the full log admits, and no closed
   window holds more than `limit` admissions of one key.
   */
  lemma LimiterRefinesLog(calls: seq<Call>, limit: int, window: int)
    requires limit > 0 && Monotonic(calls) && NeverCrowded(calls, limit, window)
    ensures Decisions(calls, limit, window) == SpecDecisions(calls, limit, window)
    ensures WindowsHold(Ran(calls, limit, window).admitted, limit, window)
  {
    UncrowdedIsNeverWrong(calls, limit, window);
    LimiterRefinesLogIff(calls, limit, window);
    WindowsHoldIff(calls, limit, window);
  }

  // ---------------------------------------------------------------- a trace that reaches a drop

  /** Distinct keys, one for every number. */
  function KeyNo(i: nat): (k: string)
    ensures |k| == i
  {
    seq(i, _ => 'k')
  }

  function Keys(n: nat): seq<string> {
    seq(n, i requires 0 <= i < n => KeyNo(i))
  }

  /** The first `n` keys call once each, all at time 0. */
  function Rush(n: nat): seq<Call> {
    seq(n, i requires 0 <= i < n => Call(KeyNo(i), 0))
  }

  ghost predicate Filled(s: Limiter, n: nat) {
    && s.order == Keys(n) && s.calls == n % SWEEP_EVERY
    && (forall k :: k in s.log <==> k in s.order)
    && (forall k :: k in s.log ==> s.log[k] == [0])
  }

  lemma {:induction false} AllLive(order: seq<string>, log: map<string, seq<int>>, window: int)
    requires window >= 0 && forall k :: k in log ==> log[k] == [0]
    ensures Live(order, log, 0, window) == order
  {
    if order != [] {
      AllLive(order[..|order| - 1], log, window);
    }
  }

  lemma RushStep(s: Limiter, n: nat, window: int)
    requires Filled(s, n) && n < 50_999 && window >= 0
    ensures var (s', ok) := Check(s, KeyNo(n), 0, 1, window); ok && Filled(s', n + 1)
  {
    hide Live, Sweep;
    assert KeyNo(n) !in Keys(n);
    assert Keys(n + 1) == Keys(n) + [KeyNo(n)];
    if Sweeps(s) {
      assert n % SWEEP_EVERY == 999;
      QuietSweep(s, n, window);
    }
  }

  /** With at most 50,000 keys, all of them live, a sweep forgets nothing. */
  lemma QuietSweep(s: Limiter, n: nat, window: int)
    requires Filled(s, n) && n <= MAX_TRACKED_KEYS && window >= 0
    ensures Sweep(s, 0, window) == s.(calls := 0)
  {
    hide Live;
    AllLive(s.order, s.log, window);
    var s1 := Sweep(s, 0, window);
    assert s1.log == s.log;
  }

  lemma {:induction false} RushFills(n: nat, window: int)
    requires n <= 50_999 && window >= 0
    ensures Filled(Ran(Rush(n), 1, window).limiter, n)
    ensures Ran(Rush(n), 1, window).admitted == Rush(n)
  {
    if n > 0 {
      hide Filled, Check;
      assert Rush(n)[..n - 1] == Rush(n - 1) && Rush(n) == Rush(n - 1) + [Call(KeyNo(n - 1), 0)];
      RushFills(n - 1, window);
      RushStep(Ran(Rush(n - 1), 1, window).limiter, n - 1, window);
    }
  }

  lemma {:induction false} FirstOfRush(n: nat)
    requires n >= 1
    ensures Times(Rush(n), KeyNo(0)) == [0]
  {
    assert Rush(n)[..n - 1] == Rush(n - 1);
    if n == 1 {
      assert Rush(0) == [];
    } else {
      FirstOfRush(n - 1);
    }
  }

  lemma RushDropsFirst(window: int)
    requires window >= 0
    ensures Drops(Rush(50_999), Call(KeyNo(50_999), 0), 1, window, KeyNo(0))
  {
    hide Ran, Rush;
    RushFills(50_999, window);
    var s := Ran(Rush(50_999), 1, window).limiter;
    AllLive(s.order, s.log, window);
    assert s.order[0] == KeyNo(0);
    assert KeyNo(0) !in s.order[25_499..];
  }

  lemma RushNext(n: nat)
    ensures Rush(n + 1)[..n] == Rush(n) && Rush(n + 1) == Rush(n) + [Call(KeyNo(n), 0)]
  {
  }

  lemma RushForgetsFirst(window: int)
    requires window >= 0
    ensures SinceDrop(Rush(51_000), 1, window, KeyNo(0)) == []
    ensures Times(Ran(Rush(51_000), 1, window).admitted, KeyNo(0)) == [0]
  {
    RushNext(50_999);
    RushDropsFirst(window);
    RushFills(50_999, window);
    FirstOfRush(50_999);
    TimesNext(Rush(50_999), Call(KeyNo(50_999), 0), KeyNo(0));
    hide Check, Drops, Filled, Rush, Times;
  }

  /** The 51,000th key makes the sweep drop the first one, whose next call then gets past its full window. */
  lemma CrowdedSweepAdmitsWrongly(window: int)
    requires window >= 0
    ensures Monotonic(Rush(51_000) + [Call(KeyNo(0), 0)]) && Wrong(Rush(51_000), Call(KeyNo(0), 0), 1, window)
  {
    RushForgetsFirst(window);
    assert Recent([0], 0, window) == 1 && Recent([], 0, window) == 0 by { assert [0][..0] == []; }
    assert Monotonic(Rush(51_000) + [Call(KeyNo(0), 0)]);
    hide Ran, SinceDrop, Rush, Check, Drops, Recent, Times;
    WrongIff(Rush(51_000), Call(KeyNo(0), 0), 1, window);
  }

  /** A limit of zero or less switches the limiter off: it admits every call and keeps no record. */
  lemma Unlimited(s: Limiter, key: string, now: int, limit: int, window: int)
    requires limit <= 0
    ensures Check(s, key, now, limit, window) == (s, true)
  {
  }
}
