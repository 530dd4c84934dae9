/** The union manifest of discovery runs and its liveness counters (`manifests.py`). */
module Manifest {
  import opened Prelude

  /** A station of the manifest. Texts are stripped and lower-case; an empty text is a missing one. */
  datatype Row = Row(provider: string, uid: Option<string>, sourceId: Option<string>, metadataUid: Option<string>,
                     country: string, state: string, city: string, name: string,
                     firstSeen: Option<int>, lastSeen: Option<int>, missCount: int, dormant: bool, active: bool)

  datatype Key = Key(provider: string, uid: string)

  type Manifest = map<Key, Row>

  predicate Truthy(s: Option<string>) {
    s.Some? && s.value != ""
  }

  /** Provider and native uid, with the slug and then the name path as fallbacks. */
  function KeyOf(r: Row): Key {
    Key(if r.provider == "" then "unknown" else r.provider,
        if Truthy(r.uid) then r.uid.value
        else if Truthy(r.sourceId) then r.sourceId.value
        else r.country + "|" + r.state + "|" + r.city + "|" + r.name)
  }

  datatype StateKey = StateKey(country: string, state: string)

  function StateKeyOf(r: Row): StateKey {
    StateKey(r.country, r.state)
  }

  function ScopeKeyOf(r: Row): string {
    r.country + "|" + r.state + "|" + r.city
  }

  function ApplyLiveness(r: Row, dormantAfter: int, inactiveAfter: int): Row {
    r.(dormant := r.missCount >= dormantAfter, active := r.missCount < inactiveAfter)
  }

  /** One discovery run and what it managed to read from the provider. */
  datatype Run = Run(discovered: seq<Row>, citiesListed: set<string>, statesFetched: Option<set<StateKey>>,
                     now: int, dormantAfter: int, inactiveAfter: int)

  /** A listed station: seen now, no misses. */
  function Normalize(r: Row, now: int): Row {
    r.(uid := if r.uid.None? then r.metadataUid else r.uid,
       firstSeen := if r.firstSeen.None? then Some(now) else r.firstSeen,
       lastSeen := Some(now), missCount := 0)
  }

  /** The run's stations by key; the last of several rows with one key counts. */
  function Discovered(rows: seq<Row>, now: int): (m: Manifest)
    ensures forall k :: k in m ==> KeyOf(m[k]) == k && m[k].missCount == 0 && m[k].firstSeen.Some?
  {
    if rows == [] then map[]
    else
      var r := Normalize(rows[|rows| - 1], now);
      Discovered(rows[..|rows| - 1], now)[KeyOf(r) := r]
  }

  predicate HasPlace(r: Row) {
    r.country != "" && r.state != "" && r.city != ""
  }

  predicate VouchedState(rows: seq<Row>, s: StateKey) {
    exists d :: d in rows && HasPlace(d) && StateKeyOf(d) == s
  }

  predicate VouchedCity(rows: seq<Row>, city: string) {
    exists d :: d in rows && HasPlace(d) && ScopeKeyOf(d) == city
  }

  /** Did this run have the chance to see the station? A listed station vouches for its own state and city. */
  predicate ChanceToSee(run: Run, r: Row) {
    if run.statesFetched.Some?
    then StateKeyOf(r) in run.statesFetched.value || VouchedState(run.discovered, StateKeyOf(r))
    else ScopeKeyOf(r) in run.citiesListed || VouchedCity(run.discovered, ScopeKeyOf(r))
  }

  /** The two sets a run gathers decide for every row whether the run had the chance to see it. */
  ghost predicate Gathered(run: Run, listed: set<string>, fetched: set<StateKey>) {
    forall r :: ChanceToSee(run, r) <==>
      (if run.statesFetched.Some? then StateKeyOf(r) in fetched else ScopeKeyOf(r) in listed)
  }

  function Relist(r: Row, base: Option<Row>, run: Run): Row {
    ApplyLiveness(if base.Some? && base.value.firstSeen.Some? then r.(firstSeen := base.value.firstSeen) else r,
                  run.dormantAfter, run.inactiveAfter)
  }

  function CarryForward(was: Row, run: Run): Row {
    var first := if was.firstSeen.Some? then was.firstSeen
                 else if was.lastSeen.Some? then was.lastSeen else Some(run.now);
    ApplyLiveness(was.(firstSeen := first, missCount := was.missCount + if ChanceToSee(run, was) then 1 else 0),
                  run.dormantAfter, run.inactiveAfter)
  }

  /** The manifest after one run. */
  function Finalize(prev: Manifest, run: Run): Manifest {
    var listed := Discovered(run.discovered, run.now);
    map k | k in prev.Keys + listed.Keys ::
      if k in listed then Relist(listed[k], Get(prev, k), run) else CarryForward(prev[k], run)
  }

  /** The dictionary of a list of rows; the last of several rows with one key counts. */
  function ByKey(rows: seq<Row>): (m: Manifest)
    ensures forall k :: k in m ==> KeyOf(m[k]) == k
  {
    if rows == [] then map[] else ByKey(rows[..|rows| - 1])[KeyOf(rows[|rows| - 1]) := rows[|rows| - 1]]
  }

  function Restrict(m: Manifest, ks: set<Key>): Manifest {
    map k | k in m && k in ks :: m[k]
  }

  lemma VouchedNext(rows: seq<Row>, d: Row)
    ensures forall s :: VouchedState(rows + [d], s) <==> VouchedState(rows, s) || (HasPlace(d) && StateKeyOf(d) == s)
    ensures forall c :: VouchedCity(rows + [d], c) <==> VouchedCity(rows, c) || (HasPlace(d) && ScopeKeyOf(d) == c)
  {
    assert d in rows + [d];
    forall s | VouchedState(rows, s) ensures VouchedState(rows + [d], s) {
      var e :| e in rows && HasPlace(e) && StateKeyOf(e) == s;
      assert e in rows + [d];
    }
    forall c | VouchedCity(rows, c) ensures VouchedCity(rows + [d], c) {
      var e :| e in rows && HasPlace(e) && ScopeKeyOf(e) == c;
      assert e in rows + [d];
    }
  }

  method FinalizeUnionManifest(prev: seq<Row>, run: Run) returns (union: Manifest)
    ensures union == Finalize(ByKey(prev), run)
  {
    var prevByKey: Manifest := map[];
    for i := 0 to |prev|
      invariant prevByKey == ByKey(prev[..i])
    {
      assert prev[..i + 1][..i] == prev[..i];
      prevByKey := prevByKey[KeyOf(prev[i]) := prev[i]];
    }
    assert prev[..|prev|] == prev;

    var discovered, listed, fetched := NormalizeDiscovered(run);
    union := AddDiscovered(prevByKey, discovered, run);
    union := CarryPrevious(prevByKey, discovered, listed, fetched, run, union);
  }

  /** First the fresh discoveries, keeping the first sighting of known stations. */
  method AddDiscovered(prev: Manifest, discovered: Manifest, run: Run) returns (union: Manifest)
    requires discovered == Discovered(run.discovered, run.now)
    ensures union == Restrict(Finalize(prev, run), discovered.Keys)
  {
    union := map[];
    var todo := discovered.Keys;
    while todo != {}
      invariant todo <= discovered.Keys
      invariant union == Restrict(Finalize(prev, run), discovered.Keys - todo)
    {
      hide ChanceToSee, Discovered;
      var k :| k in todo;
      var r := discovered[k];
      if k in prev && prev[k].firstSeen.Some? {
        r := r.(firstSeen := prev[k].firstSeen);
      }
      r := ApplyLiveness(r, run.dormantAfter, run.inactiveAfter);
      FinalizeAt(prev, run, k);
      RestrictNext(Finalize(prev, run), discovered.Keys - todo, k);
      assert discovered.Keys - (todo - {k}) == discovered.Keys - todo + {k};
      todo := todo - {k};
      union := union[k := r];
    }
    assert discovered.Keys - {} == discovered.Keys;
  }

  /** Then the stations not seen this run, aged where the provider had the chance to list them. */
  method CarryPrevious(prev: Manifest, discovered: Manifest, listed: set<string>, fetched: set<StateKey>, run: Run,
                       union0: Manifest)
    returns (union: Manifest)
    requires discovered == Discovered(run.discovered, run.now)
    requires union0 == Restrict(Finalize(prev, run), discovered.Keys)
    requires Gathered(run, listed, fetched)
    ensures union == Finalize(prev, run)
  {
    union := union0;
    var todo := prev.Keys;
    ghost var done := discovered.Keys;
    while todo != {}
      invariant todo <= prev.Keys && done + todo == discovered.Keys + prev.Keys
      invariant discovered.Keys <= done
      invariant union == Restrict(Finalize(prev, run), done)
    {
      hide ChanceToSee, Discovered, CarryForward, Relist, Finalize, Restrict, Gathered;
      var k :| k in todo;
      todo := todo - {k};
      if k !in discovered {
        FinalizeAt(prev, run, k);
        RestrictNext(Finalize(prev, run), done, k);
        var row := AgeRow(prev[k], listed, fetched, run);
        union := union[k := row];
        done := done + {k};
      }
    }
    RestrictAll(Finalize(prev, run), discovered.Keys + prev.Keys);
  }

  /** Age one carried-forward row by a miss when its state or city was read. */
  method AgeRow(row0: Row, listed: set<string>, fetched: set<StateKey>, run: Run) returns (row: Row)
    requires Gathered(run, listed, fetched)
    ensures row == CarryForward(row0, run)
  {
    row := row0;
    if row.firstSeen.None? {
      row := row.(firstSeen := if row.lastSeen.Some? then row.lastSeen else Some(run.now));
    }
    var seen := if run.statesFetched.Some? then StateKeyOf(row) in fetched else ScopeKeyOf(row) in listed;
    if seen {
      row := row.(missCount := row.missCount + 1);
    }
    row := ApplyLiveness(row, run.dormantAfter, run.inactiveAfter);
  }

  lemma FinalizeAt(prev: Manifest, run: Run, k: Key)
    ensures Get(Finalize(prev, run), k)
            == if Lists(run, k) then Some(Relist(Discovered(run.discovered, run.now)[k], Get(prev, k), run))
               else if k in prev then Some(CarryForward(prev[k], run))
               else None
  {
    hide Relist, CarryForward, Discovered;
  }

  lemma RestrictNext(m: Manifest, ks: set<Key>, k: Key)
    ensures Restrict(m, ks + {k}) == if k in m then Restrict(m, ks)[k := m[k]] else Restrict(m, ks)
  {
  }

  lemma RestrictAll(m: Manifest, ks: set<Key>)
    requires m.Keys <= ks
    ensures Restrict(m, ks) == m
  {
  }

  /** The loop over the discovered rows: normalize, index, and note which cities and states they vouch for. */
  method NormalizeDiscovered(run: Run) returns (discovered: Manifest, listed: set<string>, fetched: set<StateKey>)
    ensures discovered == Discovered(run.discovered, run.now)
    ensures Gathered(run, listed, fetched)
  {
    assert forall s :: !VouchedCity([], s);
    assert forall s :: !VouchedState([], s);
    assert run.discovered[..0] == [];
    hide VouchedCity, VouchedState, KeyOf, ScopeKeyOf, StateKeyOf;
    discovered, listed := map[], run.citiesListed;
    fetched := if run.statesFetched.Some? then run.statesFetched.value else {};
    for i := 0 to |run.discovered|
      invariant discovered == Discovered(run.discovered[..i], run.now)
      invariant forall s :: s in listed <==> s in run.citiesListed || VouchedCity(run.discovered[..i], s)
      invariant run.statesFetched.Some? ==>
        forall s :: s in fetched <==> s in run.statesFetched.value || VouchedState(run.discovered[..i], s)
    {
      var r := Normalize(run.discovered[i], run.now);
      assert run.discovered[..i + 1][..i] == run.discovered[..i];
      assert run.discovered[..i + 1] == run.discovered[..i] + [run.discovered[i]];
      VouchedNext(run.discovered[..i], run.discovered[i]);
      discovered := discovered[KeyOf(r) := r];
      if HasPlace(r) {
        listed := listed + {ScopeKeyOf(r)};
        if run.statesFetched.Some? {
          fetched := fetched + {StateKeyOf(r)};
        }
      }
    }
    assert run.discovered[..|run.discovered|] == run.discovered;
  }

  // ---------------------------------------------------------------- sequences of runs

  function After(runs: seq<Run>): Manifest {
    if runs == [] then map[] else Finalize(After(runs[..|runs| - 1]), runs[|runs| - 1])
  }

  /** The rows of the manifest under their own keys, in any order: what a run writes and the next one reads. */
  predicate Listing(m: Manifest, rows: seq<Row>) {
    (forall r :: r in rows ==> Get(m, KeyOf(r)) == Some(r)) && forall k :: k in m ==> m[k] in rows
  }

  lemma {:induction false} KeyedByOwnKey(runs: seq<Run>)
    ensures forall k :: k in After(runs) ==> KeyOf(After(runs)[k]) == k
  {
    hide Discovered, ChanceToSee;
    if runs != [] {
      KeyedByOwnKey(runs[..|runs| - 1]);
    }
  }

  lemma {:induction false} ByKeyLast(rows: seq<Row>, k: Key)
    ensures k in ByKey(rows) ==> ByKey(rows)[k] in rows && KeyOf(ByKey(rows)[k]) == k
    ensures (exists r :: r in rows && KeyOf(r) == k) ==> k in ByKey(rows)
  {
    hide KeyOf;
    if rows != [] {
      var n := |rows| - 1;
      ByKeyLast(rows[..n], k);
      assert forall r :: r in rows <==> r in rows[..n] || r == rows[n] by { assert rows == rows[..n] + [rows[n]]; }
    }
  }

  /** Reading back what was written gives the same manifest. */
  lemma ReadBack(m: Manifest, rows: seq<Row>)
    requires Listing(m, rows) && forall k :: k in m ==> KeyOf(m[k]) == k
    ensures ByKey(rows) == m
  {
    hide ByKey, KeyOf;
    forall k ensures Get(ByKey(rows), k) == Get(m, k) {
      ByKeyLast(rows, k);
      if k in ByKey(rows) {
        assert Get(m, KeyOf(ByKey(rows)[k])) == Some(ByKey(rows)[k]);
      }
    }
    SameMap(ByKey(rows), m);
  }

  /** Each run reads the list that the one before it wrote, starting with none. */
  ghost predicate Written(runs: seq<Run>, lists: seq<seq<Row>>) {
    && |lists| == |runs| + 1 && lists[0] == []
    && forall i :: 0 <= i < |runs| ==> Listing(Finalize(ByKey(lists[i]), runs[i]), lists[i + 1])
  }

  /** So runs that pass the manifest on as a list compute the same as runs that pass on the map. */
  lemma {:induction false} ListsCarryTheManifest(runs: seq<Run>, lists: seq<seq<Row>>)
    requires Written(runs, lists)
    ensures ByKey(lists[|runs|]) == After(runs)
  {
    if runs != [] {
      hide Finalize, ByKey, Listing;
      var n := |runs| - 1;
      ListsCarryTheManifest(runs[..n], lists[..n + 1]);
      assert Listing(After(runs), lists[n + 1]);
      KeyedByOwnKey(runs);
      hide After;
      ReadBack(After(runs), lists[n + 1]);
    }
  }

  predicate Lists(run: Run, k: Key) {
    k in Discovered(run.discovered, run.now)
  }

  /** The last run that listed the station, -1 if none did. */
  function LastListed(runs: seq<Run>, k: Key): int {
    if runs == [] then -1
    else if Lists(runs[|runs| - 1], k) then |runs| - 1
    else LastListed(runs[..|runs| - 1], k)
  }

  /** The first run that listed the station, -1 if none did. */
  function FirstListed(runs: seq<Run>, k: Key): int {
    if runs == [] then -1
    else
      var f := FirstListed(runs[..|runs| - 1], k);
      if f >= 0 then f else if Lists(runs[|runs| - 1], k) then |runs| - 1 else -1
  }

  lemma {:induction false} LastListedIs(runs: seq<Run>, k: Key)
    ensures -1 <= LastListed(runs, k) < |runs|
    ensures LastListed(runs, k) >= 0 ==> Lists(runs[LastListed(runs, k)], k)
    ensures forall i :: LastListed(runs, k) < i < |runs| ==> !Lists(runs[i], k)
  {
    hide Lists;
    if runs != [] { LastListedIs(runs[..|runs| - 1], k); }
  }

  lemma {:induction false} FirstListedIs(runs: seq<Run>, k: Key)
    ensures -1 <= FirstListed(runs, k) < |runs|
    ensures FirstListed(runs, k) >= 0 ==> Lists(runs[FirstListed(runs, k)], k)
    ensures forall i :: 0 <= i < |runs| && Lists(runs[i], k) ==> 0 <= FirstListed(runs, k) <= i
  {
    hide Lists;
    if runs != [] { FirstListedIs(runs[..|runs| - 1], k); }
  }

  lemma FirstBeforeLast(runs: seq<Run>, k: Key)
    requires LastListed(runs, k) >= 0
    ensures 0 <= FirstListed(runs, k) <= LastListed(runs, k) < |runs|
    ensures Lists(runs[LastListed(runs, k)], k) && Lists(runs[FirstListed(runs, k)], k)
  {
    hide LastListed, FirstListed, Lists;
    LastListedIs(runs, k);
    FirstListedIs(runs, k);
  }

  /** How many runs after `from` could have seen the station. */
  function ChancesSince(runs: seq<Run>, r: Row, from: int): nat {
    if |runs| - 1 <= from || runs == [] then 0
    else ChancesSince(runs[..|runs| - 1], r, from) + if ChanceToSee(runs[|runs| - 1], r) then 1 else 0
  }

  /** The row of the station as run `i` listed it. */
  function ListedRow(runs: seq<Run>, k: Key, i: int): Row
    requires 0 <= i < |runs| && Lists(runs[i], k)
  {
    Discovered(runs[i].discovered, runs[i].now)[k]
  }

  predicate SameStation(a: Row, b: Row) {
    a == b.(firstSeen := a.firstSeen, missCount := a.missCount, dormant := a.dormant, active := a.active)
  }

  /** `row` is the station as `listed`, with this first sighting and these misses, judged by the thresholds of `run`. */
  predicate RowIs(row: Row, listed: Row, first: Option<int>, misses: int, run: Run) {
    && SameStation(row, listed) && first.Some? && row.firstSeen == first && row.missCount == misses
    && (row.active <==> misses < run.inactiveAfter)
    && (row.dormant <==> misses >= run.dormantAfter)
  }

  lemma RelistIs(listed: Row, base: Option<Row>, run: Run)
    requires listed.firstSeen.Some? && listed.missCount == 0
    ensures RowIs(Relist(listed, base, run), listed,
                  if base.Some? && base.value.firstSeen.Some? then base.value.firstSeen else listed.firstSeen, 0, run)
  {
  }

  lemma CarryIs(row: Row, listed: Row, first: Option<int>, misses: int, before: Run, run: Run)
    requires RowIs(row, listed, first, misses, before)
    ensures RowIs(CarryForward(row, run), listed, first, misses + if ChanceToSee(run, listed) then 1 else 0, run)
  {
    SameChance(run, row, listed);
    SameChance(run, row.(firstSeen := first), listed);
  }

  /** What the manifest says of a station that some run has listed. */
  predicate Described(runs: seq<Run>, k: Key, row: Row)
    requires LastListed(runs, k) >= 0
  {
    FirstBeforeLast(runs, k);
    var last, first := LastListed(runs, k), FirstListed(runs, k);
    var listed := ListedRow(runs, k, last);
    RowIs(row, listed, ListedRow(runs, k, first).firstSeen, ChancesSince(runs, listed, last), runs[|runs| - 1])
  }

  /**
   After any sequence of runs a station is in the manifest iff some run listed it. Its row is the one of the last
   listing, with the first sighting of the first one; `miss_count` is the number of later runs that could have seen
   it, and it is active iff that is below the threshold of the last run.
   */
  lemma {:induction false} MissesAreChances(runs: seq<Run>, k: Key)
    ensures k in After(runs) <==> LastListed(runs, k) >= 0
    ensures k in After(runs) ==> Described(runs, k, After(runs)[k])
  {
    hide Lists, RowIs, ChanceToSee, Finalize, Relist, CarryForward;
    if runs != [] {
      var n := |runs| - 1;
      var front := runs[..n];
      MissesAreChances(front, k);
      FinalizeAt(After(front), runs[n], k);
      if Lists(runs[n], k) {
        ListedStep(runs, k);
      } else if k in After(front) {
        CarriedStep(runs, k);
      }
    }
  }

  lemma ListedStep(runs: seq<Run>, k: Key)
    requires runs != []
    requires var front := runs[..|runs| - 1];
             && (k in After(front) <==> LastListed(front, k) >= 0)
             && (k in After(front) ==> Described(front, k, After(front)[k]))
    requires Lists(runs[|runs| - 1], k)
    ensures k in After(runs) && LastListed(runs, k) >= 0 && Described(runs, k, After(runs)[k])
  {
    hide ChanceToSee, Relist, Finalize;
    var n := |runs| - 1;
    var front := runs[..n];
    FinalizeAt(After(front), runs[n], k);
    var listed := ListedRow(runs, k, n);
    RelistIs(listed, Get(After(front), k), runs[n]);
    FirstListedIs(front, k);
    LastListedIs(front, k);
    if k in After(front) {
      FirstBeforeLast(front, k);
      assert runs[FirstListed(front, k)] == front[FirstListed(front, k)];
    } else {
      assert FirstListed(front, k) < 0;
    }
  }

  lemma CarriedStep(runs: seq<Run>, k: Key)
    requires runs != []
    requires var front := runs[..|runs| - 1];
             k in After(front) && LastListed(front, k) >= 0 && Described(front, k, After(front)[k])
    requires !Lists(runs[|runs| - 1], k)
    ensures k in After(runs) && LastListed(runs, k) >= 0 && Described(runs, k, After(runs)[k])
  {
    hide ChanceToSee, CarryForward, RowIs, Lists, Finalize;
    var n := |runs| - 1;
    var front := runs[..n];
    FinalizeAt(After(front), runs[n], k);
    FirstBeforeLast(front, k);
    FirstBeforeLast(runs, k);
    var last, first := LastListed(front, k), FirstListed(front, k);
    assert runs[last] == front[last] && runs[first] == front[first];
    CarryIs(After(front)[k], ListedRow(front, k, last), ListedRow(front, k, first).firstSeen,
            ChancesSince(front, ListedRow(front, k, last), last), front[|front| - 1], runs[n]);
  }

  lemma SameChance(run: Run, a: Row, b: Row)
    requires SameStation(a, b)
    ensures ChanceToSee(run, a) <==> ChanceToSee(run, b)
  {
  }

  /** Stations are never deleted. */
  lemma {:induction false} KeysOnlyGrow(runs: seq<Run>, more: seq<Run>)
    ensures After(runs).Keys <= After(runs + more).Keys
  {
    if more == [] {
      assert runs + more == runs;
    } else {
      KeysOnlyGrow(runs, more[..|more| - 1]);
      assert (runs + more)[..|runs + more| - 1] == runs + more[..|more| - 1];
    }
  }

  /** Runs that could not read a station's state leave its counter alone, however many there are. */
  lemma {:induction false} FailedFetchesAgeNobody(runs: seq<Run>, more: seq<Run>, k: Key)
    requires k in After(runs)
    requires forall run :: run in more ==> !Lists(run, k) && !ChanceToSee(run, After(runs)[k])
    ensures k in After(runs + more) && SameStation(After(runs + more)[k], After(runs)[k])
    ensures After(runs + more)[k].missCount == After(runs)[k].missCount
  {
    hide Finalize;
    if more == [] {
      assert runs + more == runs;
    } else {
      hide Lists, ChanceToSee;
      var n := |more| - 1;
      FailedFetchesAgeNobody(runs, more[..n], k);
      FinalizeAt(After(runs + more[..n]), more[n], k);
      assert (runs + more)[..|runs + more| - 1] == runs + more[..n];
      assert more[n] in more;
      SameChance(more[n], After(runs + more[..n])[k], After(runs)[k]);
    }
  }

  /** A relisted station is active again, whatever it had missed, and keeps its first sighting. */
  lemma RelistingReactivates(prev: Manifest, run: Run, k: Key)
    requires Lists(run, k) && run.inactiveAfter >= 1
    ensures k in Finalize(prev, run)
    ensures var row := Finalize(prev, run)[k];
            && row.active && row.missCount == 0
            && (k in prev && prev[k].firstSeen.Some? ==> row.firstSeen == prev[k].firstSeen)
  {
  }

  /** So a station turns inactive only after `inactive_after` runs that could have seen it and did not. */
  lemma InactiveOnlyAfterMisses(runs: seq<Run>, k: Key)
    requires k in After(runs) && !After(runs)[k].active
    ensures var last := LastListed(runs, k);
            0 <= last < |runs| && Lists(runs[last], k)
            && ChancesSince(runs, ListedRow(runs, k, last), last) >= runs[|runs| - 1].inactiveAfter
  {
    MissesAreChances(runs, k);
    FirstBeforeLast(runs, k);
  }

  // ---------------------------------------------------------------- identity and times

  function ProviderOf(r: Row): string {
    if r.provider == "" then "unknown" else r.provider
  }

  /**
   Rows with a provider uid are the same station iff provider and uid agree, whatever their names and slugs; without a
   uid the slug decides, whatever the names.
   */
  lemma KeyIsStable(a: Row, b: Row)
    ensures Truthy(a.uid) && Truthy(b.uid) ==>
            (KeyOf(a) == KeyOf(b) <==> ProviderOf(a) == ProviderOf(b) && a.uid == b.uid)
    ensures !Truthy(a.uid) && !Truthy(b.uid) && Truthy(a.sourceId) && Truthy(b.sourceId) ==>
            (KeyOf(a) == KeyOf(b) <==> ProviderOf(a) == ProviderOf(b) && a.sourceId == b.sourceId)
    ensures !Truthy(a.uid) && !Truthy(a.sourceId) ==>
            KeyOf(a) == Key(ProviderOf(a), ScopeKeyOf(a) + "|" + a.name)
  {
  }

  /** A row of a run is listed as of now; it keeps a first sighting it brings, and takes a uid only when it has none. */
  lemma NormalizedIs(r: Row, now: int)
    ensures var n := Normalize(r, now);
            && n.lastSeen == Some(now) && n.missCount == 0 && n.firstSeen.Some?
            && (r.firstSeen.Some? ==> n.firstSeen == r.firstSeen) && (r.firstSeen.None? ==> n.firstSeen == Some(now))
            && (r.uid.Some? ==> n.uid == r.uid) && (r.uid.None? ==> n.uid == r.metadataUid)
            && StateKeyOf(n) == StateKeyOf(r) && ScopeKeyOf(n) == ScopeKeyOf(r)
  {
  }

  lemma {:induction false} DiscoveredNow(rows: seq<Row>, now: int)
    ensures forall k :: k in Discovered(rows, now) ==> Discovered(rows, now)[k].lastSeen == Some(now)
  {
    hide KeyOf;
    if rows != [] {
      DiscoveredNow(rows[..|rows| - 1], now);
      NormalizedIs(rows[|rows| - 1], now);
    }
  }

  /** After any sequence of runs a station was last seen in the last run that listed it. */
  lemma LastSeenIsLastListing(runs: seq<Run>, k: Key)
    requires k in After(runs)
    ensures var last := LastListed(runs, k);
            0 <= last < |runs| && After(runs)[k].lastSeen == Some(runs[last].now)
  {
    hide After, Discovered, ChanceToSee, ChancesSince, FirstListed;
    MissesAreChances(runs, k);
    LastListedIs(runs, k);
    var last := LastListed(runs, k);
    DiscoveredNow(runs[last].discovered, runs[last].now);
    FirstBeforeLast(runs, k);
  }

  /** The row names a country, a state and a city. */
  predicate Placed(d: Row) {
    d.country != "" && d.state != "" && d.city != ""
  }

  /**
   A run could have seen a station iff its state was read, or the run lists a placed row of that state; when the run
   does not say which states it read, the same goes for the city.
   */
  lemma ChanceIff(run: Run, r: Row)
    ensures run.statesFetched.Some? ==>
            (ChanceToSee(run, r) <==>
               || StateKey(r.country, r.state) in run.statesFetched.value
               || exists d :: d in run.discovered && Placed(d) && d.country == r.country && d.state == r.state)
    ensures run.statesFetched.None? ==>
            (ChanceToSee(run, r) <==>
               || r.country + "|" + r.state + "|" + r.city in run.citiesListed
               || exists d :: d in run.discovered && Placed(d) &&
                    d.country + "|" + d.state + "|" + d.city == r.country + "|" + r.state + "|" + r.city)
  {
  }
}
