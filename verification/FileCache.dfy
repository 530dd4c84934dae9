/**
 The bounded on-disk cache (`core/filecache.py`). get_or_download holds its lock in three short sections
 (look up, mark absent, publish) and downloads in between, so concurrent calls interleave at those points.
 */
module FileCache {
  import opened Prelude

  datatype Path = Path(id: int)

  datatype Entry = Entry(key: string, path: Path)

  /** Two ordered dictionaries, least recently used first. */
  datatype Cache = Cache(files: seq<Entry>, absent: seq<string>)

  // ---------------------------------------------------------------- the critical sections

  function Find(files: seq<Entry>, key: string): Option<Path> {
    if files == [] then None
    else if files[0].key == key then Some(files[0].path)
    else Find(files[1..], key)
  }

  function Remove(files: seq<Entry>, key: string): seq<Entry> {
    if files == [] then []
    else if files[0].key == key then Remove(files[1..], key)
    else [files[0]] + Remove(files[1..], key)
  }

  function MoveToEnd(files: seq<Entry>, key: string, path: Path): seq<Entry> {
    Remove(files, key) + [Entry(key, path)]
  }

  function Newest<T>(s: seq<T>, max: nat): seq<T> {
    if |s| > max then s[|s| - max..] else s
  }

  function Oldest<T>(s: seq<T>, max: nat): seq<T> {
    if |s| > max then s[..|s| - max] else []
  }

  datatype Looked = KnownAbsent | Hit(path: Path) | MustDownload

  /** First section. A mapped file that no longer exists is forgotten. */
  function LookUp(c: Cache, key: string, disk: set<Path>): (Cache, Looked) {
    var path := Find(c.files, key);
    if key in c.absent then (c, KnownAbsent)
    else if path.Some? && path.value in disk then (c.(files := MoveToEnd(c.files, key, path.value)), Hit(path.value))
    else (c.(files := Remove(c.files, key)), MustDownload)
  }

  /** The object does not exist: remember that, forgetting the oldest such keys. */
  function MarkAbsent(c: Cache, key: string, maxAbsent: nat): Cache {
    c.(absent := Newest(if key in c.absent then c.absent else c.absent + [key], maxAbsent))
  }

  /** Does another download of the same key already hold the place? */
  predicate Beaten(c: Cache, key: string, path: Path) {
    Find(c.files, key).Some? && Find(c.files, key).value != path
  }

  /** Last section: keep the file of the first of two concurrent downloads, evict the least recently used. */
  function Publish(c: Cache, key: string, path: Path, maxFiles: nat): Cache {
    if Beaten(c, key, path) then c.(files := MoveToEnd(c.files, key, Find(c.files, key).value))
    else c.(files := Newest(MoveToEnd(c.files, key, path), maxFiles))
  }

  function Paths(files: seq<Entry>): set<Path> {
    set e | e in files :: e.path
  }

  /** The files the last section deletes. */
  function Unlinked(c: Cache, key: string, path: Path, maxFiles: nat): set<Path> {
    if Beaten(c, key, path) then {path} else Paths(Oldest(MoveToEnd(c.files, key, path), maxFiles))
  }

  class BoundedBlobCache {
    const maxFiles: nat
    const maxAbsent: nat
    var cache: Cache
    var disk: set<Path>

    constructor (maxFiles: nat, maxAbsent: nat, disk: set<Path>)
      ensures this.maxFiles == maxFiles && this.maxAbsent == maxAbsent
      ensures cache == Cache([], []) && this.disk == disk
    {
      this.maxFiles, this.maxAbsent, this.disk := maxFiles, maxAbsent, disk;
      cache := Cache([], []);
    }

    method LookUpLocked(key: string) returns (r: Looked)
      modifies this`cache
      ensures (cache, r) == LookUp(old(cache), key, disk)
    {
      if key in cache.absent {
        return KnownAbsent;
      }
      var path := Find(cache.files, key);
      if path.Some? && path.value in disk {
        cache := cache.(files := MoveToEnd(cache.files, key, path.value));
        return Hit(path.value);
      }
      if path.Some? {
        cache := cache.(files := Remove(cache.files, key));
      } else {
        RemoveMissing(cache.files, key);
      }
      return MustDownload;
    }

    method MarkAbsentLocked(key: string)
      modifies this`cache
      ensures cache == MarkAbsent(old(cache), key, maxAbsent)
    {
      var absent := if key in cache.absent then cache.absent else cache.absent + [key];
      ghost var all := absent;
      while |absent| > maxAbsent
        invariant |absent| <= |all| && absent == all[|all| - |absent|..]
        invariant |absent| == |all| || |absent| >= maxAbsent
      {
        absent := absent[1..];
      }
      cache := cache.(absent := absent);
    }

    method PublishLocked(key: string, path: Path) returns (result: Path)
      modifies this`cache, this`disk
      ensures cache == Publish(old(cache), key, path, maxFiles)
      ensures disk == old(disk) - Unlinked(old(cache), key, path, maxFiles)
      ensures result == if Beaten(old(cache), key, path) then Find(old(cache).files, key).value else path
    {
      var existing := Find(cache.files, key);
      if existing.Some? && existing.value != path {
        disk := disk - {path};
        cache := cache.(files := MoveToEnd(cache.files, key, existing.value));
        return existing.value;
      }
      var files := MoveToEnd(cache.files, key, path);
      ghost var all := files;
      while |files| > maxFiles
        invariant |files| <= |all| && files == all[|all| - |files|..]
        invariant |files| == |all| || |files| >= maxFiles
        invariant cache == old(cache) && disk == old(disk) - Paths(all[..|all| - |files|])
      {
        PathsNext(all, |all| - |files|);
        disk := disk - {files[0].path};
        files := files[1..];
      }
      assert all[..|all| - |files|] == Oldest(all, maxFiles);
      cache := cache.(files := files);
      return path;
    }
  }

  lemma {:induction false} RemoveMissing(files: seq<Entry>, key: string)
    requires Find(files, key).None?
    ensures Remove(files, key) == files
  {
    if files != [] { RemoveMissing(files[1..], key); }
  }

  lemma PathsNext(files: seq<Entry>, i: nat)
    requires i < |files|
    ensures Paths(files[..i + 1]) == Paths(files[..i]) + {files[i].path}
  {
    assert files[..i + 1] == files[..i] + [files[i]];
    assert forall e :: e in files[..i + 1] <==> e in files[..i] || e == files[i];
  }

  // ---------------------------------------------------------------- concurrent calls

  datatype Thread = Thread(id: int)

  datatype Flight = Downloading(key: string) | Downloaded(key: string, path: Path)

  /**
   The cache, the files on disk, the files the cache has unlinked, the calls between their lock sections, every
   path ever downloaded, and the keys in the order they were used.
   */
  datatype State = State(cache: Cache, disk: set<Path>, unlinked: set<Path>, flights: map<Thread, Flight>,
                         ever: set<Path>, uses: seq<string>)

  datatype Step =
    | Call(t: Thread, key: string)        // first section
    | Fetched(t: Thread, path: Path)      // the download succeeded, to a fresh path
    | NotFound(t: Thread)                 // the download found nothing: mark absent
    | Failed(t: Thread)                   // the download raised something else
    | Finish(t: Thread)                   // last section
    | Vanish(path: Path)                  // something outside the cache deletes a file

  predicate Legal(s: State, step: Step) {
    match step
    case Call(t, _) => t !in s.flights
    case Fetched(t, path) => t in s.flights && s.flights[t].Downloading? && path !in s.ever
    case NotFound(t) => t in s.flights && s.flights[t].Downloading?
    case Failed(t) => t in s.flights && s.flights[t].Downloading?
    case Finish(t) => t in s.flights && s.flights[t].Downloaded?
    case Vanish(_) => true
  }

  function Next(s: State, step: Step, maxFiles: nat, maxAbsent: nat): State
    requires Legal(s, step)
  {
    match step
    case Call(t, key) =>
      var (c, r) := LookUp(s.cache, key, s.disk);
      match r {
        case KnownAbsent => s.(cache := c)
        case Hit(_) => s.(cache := c, uses := s.uses + [key])
        case MustDownload => s.(cache := c, flights := s.flights[t := Downloading(key)])
      }
    case Fetched(t, path) =>
      s.(disk := s.disk + {path}, ever := s.ever + {path},
         flights := s.flights[t := Downloaded(s.flights[t].key, path)])
    case NotFound(t) =>
      s.(cache := MarkAbsent(s.cache, s.flights[t].key, maxAbsent), flights := s.flights - {t})
    case Failed(t) => s.(flights := s.flights - {t})
    case Finish(t) =>
      var f := s.flights[t];
      var gone := Unlinked(s.cache, f.key, f.path, maxFiles);
      s.(cache := Publish(s.cache, f.key, f.path, maxFiles), disk := s.disk - gone, unlinked := s.unlinked + gone,
         flights := s.flights - {t}, uses := s.uses + [f.key])
    case Vanish(path) => s.(disk := s.disk - {path})
  }

  ghost predicate Reaches(s: State, steps: seq<Step>, maxFiles: nat, maxAbsent: nat, t: State)
    decreases |steps|
  {
    if steps == [] then s == t
    else Legal(s, steps[0]) && Reaches(Next(s, steps[0], maxFiles, maxAbsent), steps[1..], maxFiles, maxAbsent, t)
  }

  const INIT: State := State(Cache([], []), {}, {}, map[], {}, [])

  // ---------------------------------------------------------------- entries and their order

  /** Position of the last use of a key, -1 if it was never used. */
  function LastUse(uses: seq<string>, key: string): int {
    if uses == [] then -1
    else if uses[|uses| - 1] == key then |uses| - 1
    else LastUse(uses[..|uses| - 1], key)
  }

  predicate Before(a: Entry, b: Entry, uses: seq<string>) {
    a.key != b.key && a.path != b.path && LastUse(uses, a.key) < LastUse(uses, b.key)
  }

  /** Distinct keys and paths, every key used, and the keys in the order of their last use. */
  predicate Ordered(files: seq<Entry>, uses: seq<string>) {
    && (forall e :: e in files ==> LastUse(uses, e.key) >= 0)
    && (forall i, j :: 0 <= i < j < |files| ==> Before(files[i], files[j], uses))
  }

  lemma {:induction false} RemoveMember(files: seq<Entry>, key: string, e: Entry)
    ensures e in Remove(files, key) <==> e in files && e.key != key
  {
    if files != [] { RemoveMember(files[1..], key, e); }
  }

  lemma {:induction false} FindMember(files: seq<Entry>, key: string)
    ensures Find(files, key).Some? ==> Entry(key, Find(files, key).value) in files
    ensures Find(files, key).None? ==> forall e :: e in files ==> e.key != key
  {
    if files != [] { FindMember(files[1..], key); }
  }

  lemma LastUseNext(uses: seq<string>, key: string, k: string)
    ensures LastUse(uses + [key], k) == if k == key then |uses| else LastUse(uses, k)
    ensures LastUse(uses, k) < |uses|
  {
    assert (uses + [key])[..|uses|] == uses;
    LastUseBound(uses, k);
  }

  lemma {:induction false} LastUseBound(uses: seq<string>, k: string)
    ensures LastUse(uses, k) < |uses|
  {
    if uses != [] { LastUseBound(uses[..|uses| - 1], k); }
  }

  /** Removing a key keeps the rest in order. */
  lemma {:induction false} RemoveOrdered(files: seq<Entry>, key: string, uses: seq<string>)
    requires Ordered(files, uses)
    ensures Ordered(Remove(files, key), uses)
  {
    hide Before, LastUse;
    if files != [] {
      var rest := files[1..];
      assert forall i :: 0 <= i < |rest| ==> rest[i] == files[i + 1];
      RemoveOrdered(rest, key, uses);
      var r := Remove(rest, key);
      forall i | 0 <= i < |r| ensures Before(files[0], r[i], uses) {
        RemoveMember(rest, key, r[i]);
        var j :| 0 <= j < |rest| && rest[j] == r[i];
      }
      forall e ensures e in Remove(files, key) ==> e in files { RemoveMember(files, key, e); }
    }
  }

  lemma {:induction false} RemoveShorter(files: seq<Entry>, key: string)
    ensures |Remove(files, key)| <= |files|
    ensures Find(files, key).Some? ==> |Remove(files, key)| < |files|
  {
    if files != [] { RemoveShorter(files[1..], key); }
  }

  /** Using a key moves it to the end: the map stays in order of last use. */
  lemma MoveOrdered(files: seq<Entry>, key: string, path: Path, uses: seq<string>)
    requires Ordered(files, uses)
    requires forall e :: e in files && e.key != key ==> e.path != path
    ensures Ordered(MoveToEnd(files, key, path), uses + [key])
  {
    RemoveOrdered(files, key, uses);
    var r := Remove(files, key);
    var e := Entry(key, path);
    LastUseNext(uses, key, key);
    forall i | 0 <= i < |r| ensures r[i].key != key && r[i].path != path && Before(r[i], e, uses + [key]) {
      RemoveMember(files, key, r[i]);
      LastUseNext(uses, key, r[i].key);
    }
    forall a | a in r ensures a.key != key && LastUse(uses + [key], a.key) == LastUse(uses, a.key) {
      RemoveMember(files, key, a);
      LastUseNext(uses, key, a.key);
    }
    assert forall i, j :: 0 <= i < j < |r| ==> Before(r[i], r[j], uses + [key]) by {
      forall i, j | 0 <= i < j < |r| ensures Before(r[i], r[j], uses + [key]) {
        assert Before(r[i], r[j], uses) && r[i] in r && r[j] in r;
      }
    }
  }

  lemma OrderedPair(files: seq<Entry>, uses: seq<string>, a: Entry, b: Entry)
    requires Ordered(files, uses) && a in files && b in files && a != b
    ensures Before(a, b, uses) || Before(b, a, uses)
  {
  }

  lemma PartsOrdered(o: seq<Entry>, n: seq<Entry>, uses: seq<string>)
    requires Ordered(o + n, uses)
    ensures Ordered(n, uses)
    ensures forall a, b :: a in o && b in n ==> Before(a, b, uses)
  {
    hide Before, LastUse;
    var files := o + n;
    assert forall i :: 0 <= i < |o| ==> files[i] == o[i];
    assert forall i :: 0 <= i < |n| ==> files[|o| + i] == n[i];
    forall a, b | a in o && b in n ensures Before(a, b, uses) {
      var i :| 0 <= i < |o| && o[i] == a;
      var j :| 0 <= j < |n| && n[j] == b;
      assert Before(files[i], files[|o| + j], uses);
    }
  }

  lemma NewestOrdered(files: seq<Entry>, uses: seq<string>, max: nat)
    requires Ordered(files, uses)
    ensures var n := Newest(files, max); Ordered(n, uses) && |n| <= max
    ensures forall e :: e in files <==> e in Newest(files, max) || e in Oldest(files, max)
    ensures forall a, b :: a in Oldest(files, max) && b in Newest(files, max) ==> Before(a, b, uses)
  {
    hide Before, LastUse, Ordered;
    assert files == Oldest(files, max) + Newest(files, max);
    PartsOrdered(Oldest(files, max), Newest(files, max), uses);
  }

  // ---------------------------------------------------------------- the invariant

  function Flying(flights: map<Thread, Flight>): set<Path> {
    set t | t in flights && flights[t].Downloaded? :: flights[t].path
  }

  /** Files in flight before and after a change to one call. */
  lemma FlyingChange(before: map<Thread, Flight>, after: map<Thread, Flight>, t: Thread)
    requires forall u :: u != t ==> Get(before, u) == Get(after, u)
    ensures t in before && before[t].Downloaded? ==> before[t].path in Flying(before)
    ensures t in after && after[t].Downloaded? ==> after[t].path in Flying(after)
    ensures !(t in before && before[t].Downloaded?) ==> Flying(before) <= Flying(after)
    ensures !(t in after && after[t].Downloaded?) ==> Flying(after) <= Flying(before)
    ensures t in before && before[t].Downloaded? ==> Flying(before) <= Flying(after) + {before[t].path}
    ensures t in after && after[t].Downloaded? ==> Flying(after) <= Flying(before) + {after[t].path}
  {
    forall u | u in before && before[u].Downloaded? && u != t ensures before[u].path in Flying(after) {
      assert Get(before, u) == Get(after, u) && u in after;
    }
    forall u | u in after && after[u].Downloaded? && u != t ensures after[u].path in Flying(before) {
      assert Get(before, u) == Get(after, u) && u in before;
    }
  }

  ghost predicate Inv(s: State, maxFiles: nat, maxAbsent: nat) {
    && |s.cache.files| <= maxFiles && |s.cache.absent| <= maxAbsent
    && Ordered(s.cache.files, s.uses)
    && Tracked(s)
  }

  /** Who holds which file: mapped, in flight and unlinked are disjoint, and nothing else of the cache is on disk. */
  ghost predicate Tracked(s: State) {
    && Paths(s.cache.files) + Flying(s.flights) + s.unlinked <= s.ever
    && Paths(s.cache.files) !! Flying(s.flights) && Paths(s.cache.files) !! s.unlinked
    && Flying(s.flights) !! s.unlinked
    && (forall t, u | t in s.flights && u in s.flights && t != u ::
          s.flights[t].Downloaded? && s.flights[u].Downloaded? ==> s.flights[t].path != s.flights[u].path)
    && s.disk <= Paths(s.cache.files) + Flying(s.flights)
  }

  /** The first section only reorders or forgets entries; what it forgets is no longer on disk. */
  lemma LookUpKeeps(c: Cache, key: string, disk: set<Path>, uses: seq<string>)
    requires Ordered(c.files, uses)
    ensures var (c', r) := LookUp(c, key, disk);
            && |c'.files| <= |c.files| && c'.absent == c.absent
            && Ordered(c'.files, if r.Hit? then uses + [key] else uses)
            && Paths(c'.files) <= Paths(c.files)
            && Paths(c.files) * disk <= Paths(c'.files)
            && (r.Hit? ==> r.path in disk && Entry(key, r.path) in c'.files)
  {
    hide Before, LastUse;
    var (c', r) := LookUp(c, key, disk);
    FindMember(c.files, key);
    RemoveShorter(c.files, key);
    RemoveOrdered(c.files, key, uses);
    if r.Hit? {
      FoundPathIsItsOwn(c.files, key, uses);
      MoveOrdered(c.files, key, r.path, uses);
    }
    forall e ensures e in Remove(c.files, key) <==> e in c.files && e.key != key { RemoveMember(c.files, key, e); }
    forall e | e in c.files && e.path in disk ensures e in c'.files {
      if e.key == key {
        SameKeySameEntry(c.files, uses, e, Entry(key, Find(c.files, key).value));
      }
    }
    assert forall e :: e in c'.files ==> e in c.files;
  }

  lemma SameKeySameEntry(files: seq<Entry>, uses: seq<string>, a: Entry, b: Entry)
    requires Ordered(files, uses) && a in files && b in files && a.key == b.key
    ensures a == b
  {
    if a != b { OrderedPair(files, uses, a, b); }
  }

  lemma FoundPathIsItsOwn(files: seq<Entry>, key: string, uses: seq<string>)
    requires Ordered(files, uses) && Find(files, key).Some?
    ensures forall e :: e in files && e.key != key ==> e.path != Find(files, key).value
  {
    FindMember(files, key);
    forall e | e in files && e.key != key ensures e.path != Find(files, key).value {
      OrderedPair(files, uses, e, Entry(key, Find(files, key).value));
    }
  }

  /** The last section: the bound holds, the order is kept, and every file is either still mapped or unlinked. */
  lemma PublishKeeps(c: Cache, key: string, path: Path, maxFiles: nat, uses: seq<string>)
    requires Ordered(c.files, uses) && |c.files| <= maxFiles && path !in Paths(c.files)
    ensures var c' := Publish(c, key, path, maxFiles);
            var gone := Unlinked(c, key, path, maxFiles);
            && |c'.files| <= maxFiles && c'.absent == c.absent && Ordered(c'.files, uses + [key])
            && Paths(c'.files) + gone == Paths(c.files) + {path} && Paths(c'.files) !! gone
  {
    hide Before, LastUse, Ordered;
    FindMember(c.files, key);
    RemoveShorter(c.files, key);
    var kept := if Find(c.files, key).Some? then Find(c.files, key).value else path;
    if Find(c.files, key).Some? {
      assert Find(c.files, key).value in Paths(c.files);
      FoundPathIsItsOwn(c.files, key, uses);
    } else {
      assert forall e :: e in c.files ==> e.path in Paths(c.files);
    }
    MoveOrdered(c.files, key, kept, uses);
    var all := MoveToEnd(c.files, key, kept);
    forall e ensures e in all <==> e == Entry(key, kept) || (e in c.files && e.key != key) {
      RemoveMember(c.files, key, e);
    }
    if Beaten(c, key, path) {
      forall e | e in c.files ensures e in all {
        if e.key == key { SameKeySameEntry(c.files, uses, e, Entry(key, kept)); }
      }
      assert Paths(all) == Paths(c.files);
    } else {
      assert Paths(all) == Paths(c.files) + {path};
      NewestOrdered(all, uses + [key], maxFiles);
      DisjointPaths(Newest(all, maxFiles), Oldest(all, maxFiles), uses + [key]);
    }
  }

  lemma DisjointPaths(n: seq<Entry>, o: seq<Entry>, uses: seq<string>)
    requires forall a, b :: a in o && b in n ==> Before(a, b, uses)
    ensures Paths(n) !! Paths(o)
  {
    hide LastUse;
  }

  // ---------------------------------------------------------------- every step keeps it

  lemma InvCall(s: State, t: Thread, key: string, maxFiles: nat, maxAbsent: nat)
    requires Inv(s, maxFiles, maxAbsent) && Legal(s, Call(t, key))
    ensures Inv(Next(s, Call(t, key), maxFiles, maxAbsent), maxFiles, maxAbsent)
  {
    hide Ordered, LookUp, Paths;
    LookUpKeeps(s.cache, key, s.disk, s.uses);
    FlyingChange(s.flights, Next(s, Call(t, key), maxFiles, maxAbsent).flights, t);
  }

  lemma InvFinish(s: State, t: Thread, maxFiles: nat, maxAbsent: nat)
    requires Inv(s, maxFiles, maxAbsent) && Legal(s, Finish(t))
    ensures Inv(Next(s, Finish(t), maxFiles, maxAbsent), maxFiles, maxAbsent)
  {
    hide Ordered, Paths, Publish, Unlinked;
    var f := s.flights[t];
    var s' := Next(s, Finish(t), maxFiles, maxAbsent);
    FlyingChange(s.flights, s'.flights, t);
    PublishKeeps(s.cache, f.key, f.path, maxFiles, s.uses);
    assert f.path !in Flying(s'.flights);
  }

  lemma InvFetched(s: State, t: Thread, path: Path, maxFiles: nat, maxAbsent: nat)
    requires Inv(s, maxFiles, maxAbsent) && Legal(s, Fetched(t, path))
    ensures Inv(Next(s, Fetched(t, path), maxFiles, maxAbsent), maxFiles, maxAbsent)
  {
    hide Ordered, Paths;
    var s' := Next(s, Fetched(t, path), maxFiles, maxAbsent);
    FlyingChange(s.flights, s'.flights, t);
    forall u | u in s.flights && s.flights[u].Downloaded? ensures s.flights[u].path in Flying(s.flights) {}
  }

  lemma InvGiveUp(s: State, step: Step, maxFiles: nat, maxAbsent: nat)
    requires Inv(s, maxFiles, maxAbsent) && Legal(s, step) && (step.NotFound? || step.Failed?)
    ensures Inv(Next(s, step, maxFiles, maxAbsent), maxFiles, maxAbsent)
  {
    hide Ordered, Paths;
    var s' := Next(s, step, maxFiles, maxAbsent);
    FlyingChange(s.flights, s'.flights, step.t);
  }

  lemma InvStep(s: State, step: Step, maxFiles: nat, maxAbsent: nat)
    requires Inv(s, maxFiles, maxAbsent) && Legal(s, step)
    ensures Inv(Next(s, step, maxFiles, maxAbsent), maxFiles, maxAbsent)
  {
    match step
    case Call(t, key) => InvCall(s, t, key, maxFiles, maxAbsent);
    case Fetched(t, path) => InvFetched(s, t, path, maxFiles, maxAbsent);
    case NotFound(t) => InvGiveUp(s, step, maxFiles, maxAbsent);
    case Failed(t) => InvGiveUp(s, step, maxFiles, maxAbsent);
    case Finish(t) => InvFinish(s, t, maxFiles, maxAbsent);
    case Vanish(path) => { hide Ordered; }
  }

  lemma InitInv(maxFiles: nat, maxAbsent: nat)
    ensures Inv(INIT, maxFiles, maxAbsent)
  {
  }

  lemma {:induction false} InvReaches(s: State, steps: seq<Step>, maxFiles: nat, maxAbsent: nat, t: State)
    requires Inv(s, maxFiles, maxAbsent) && Reaches(s, steps, maxFiles, maxAbsent, t)
    ensures Inv(t, maxFiles, maxAbsent)
    decreases |steps|
  {
    hide Inv, Next, Legal;
    if steps != [] {
      InvStep(s, steps[0], maxFiles, maxAbsent);
      InvReaches(Next(s, steps[0], maxFiles, maxAbsent), steps[1..], maxFiles, maxAbsent, t);
    }
  }

  // ---------------------------------------------------------------- what every interleaving guarantees

  /** Both bounds hold after every lock section, no mapped file was unlinked by the cache, and nothing leaks. */
  lemma CacheSafety(steps: seq<Step>, maxFiles: nat, maxAbsent: nat, t: State)
    requires Reaches(INIT, steps, maxFiles, maxAbsent, t)
    ensures |t.cache.files| <= maxFiles && |t.cache.absent| <= maxAbsent
    ensures Paths(t.cache.files) !! t.unlinked
    ensures forall p :: p in t.disk ==> p in Paths(t.cache.files) || p in Flying(t.flights)
    ensures t.unlinked !! t.disk
  {
    InitInv(maxFiles, maxAbsent);
    InvReaches(INIT, steps, maxFiles, maxAbsent, t);
  }

  /** What the last section evicts was used before everything it keeps. */
  lemma EvictsLeastRecentlyUsed(steps: seq<Step>, maxFiles: nat, maxAbsent: nat, s: State, t: Thread, a: Entry,
                                b: Entry)
    requires Reaches(INIT, steps, maxFiles, maxAbsent, s) && Legal(s, Finish(t))
    requires var s' := Next(s, Finish(t), maxFiles, maxAbsent);
             a in s.cache.files && a.path in s'.unlinked && b in s'.cache.files
    ensures var s' := Next(s, Finish(t), maxFiles, maxAbsent);
            LastUse(s'.uses, a.key) < LastUse(s'.uses, b.key)
  {
    hide LastUse, Ordered;
    InitInv(maxFiles, maxAbsent);
    InvReaches(INIT, steps, maxFiles, maxAbsent, s);
    var f := s.flights[t];
    FlyingChange(s.flights, s.flights, t);
    assert a.path in Paths(s.cache.files);
    assert a.path !in s.unlinked;
    assert Next(s, Finish(t), maxFiles, maxAbsent).unlinked == s.unlinked + Unlinked(s.cache, f.key, f.path, maxFiles);
    var all := MoveToEnd(s.cache.files, f.key, f.path);
    EvictedEntry(s, f, maxFiles, a);
    forall e | e in s.cache.files && e.key != f.key ensures e.path != f.path { assert e.path in Paths(s.cache.files); }
    MoveOrdered(s.cache.files, f.key, f.path, s.uses);
    NewestOrdered(all, s.uses + [f.key], maxFiles);
  }

  lemma EvictedEntry(s: State, f: Flight, maxFiles: nat, a: Entry)
    requires f.Downloaded? && Ordered(s.cache.files, s.uses) && f.path !in Paths(s.cache.files)
    requires a in s.cache.files && a.path in Unlinked(s.cache, f.key, f.path, maxFiles)
    ensures !Beaten(s.cache, f.key, f.path) && a in Oldest(MoveToEnd(s.cache.files, f.key, f.path), maxFiles)
  {
    hide LastUse;
    assert a.path in Paths(s.cache.files);
    var all := MoveToEnd(s.cache.files, f.key, f.path);
    var e :| e in Oldest(all, maxFiles) && e.path == a.path;
    assert e in all;
    RemoveMember(s.cache.files, f.key, e);
    if e != a { OrderedPair(s.cache.files, s.uses, e, a); }
  }

  /** The path a call returns from its last section is mapped, unless the cache may hold no file at all. */
  lemma ReturnedPathIsMapped(c: Cache, key: string, path: Path, maxFiles: nat)
    requires |c.files| <= maxFiles
    ensures var result := if Beaten(c, key, path) then Find(c.files, key).value else path;
            Entry(key, result) in Publish(c, key, path, maxFiles).files <==> maxFiles >= 1
  {
    var all := MoveToEnd(c.files, key, path);
    if maxFiles >= 1 && !Beaten(c, key, path) {
      var n := Newest(all, maxFiles);
      assert n[|n| - 1] == Entry(key, path);
    }
    FindMember(c.files, key);
  }

  // ---------------------------------------------------------------- what a later call finds

  /** The first section answers 404 iff the key is marked absent, else the mapped file iff it is still on disk. */
  lemma LookUpIff(c: Cache, key: string, disk: set<Path>, path: Path)
    ensures LookUp(c, key, disk).1 == KnownAbsent <==> key in c.absent
    ensures LookUp(c, key, disk).1 == Hit(path) <==>
            key !in c.absent && Find(c.files, key) == Some(path) && path in disk
  {
  }

  /** After a key is marked absent the next call knows it, unless no mark may be kept at all. */
  lemma AbsentIsRemembered(c: Cache, key: string, maxAbsent: nat, disk: set<Path>)
    requires |c.absent| <= maxAbsent
    ensures LookUp(MarkAbsent(c, key, maxAbsent), key, disk).1 == KnownAbsent <==> maxAbsent >= 1
    ensures MarkAbsent(c, key, maxAbsent).files == c.files
  {
    if key !in c.absent {
      var all := c.absent + [key];
      assert all[|all| - 1] == key;
      if maxAbsent >= 1 { assert Newest(all, maxAbsent)[|Newest(all, maxAbsent)| - 1] == key; }
    }
  }

  /** A mark that was there is forgotten only when it is the oldest of a full list and a new one is added. */
  lemma MarksAreKept(c: Cache, key: string, maxAbsent: nat, other: string)
    requires |c.absent| <= maxAbsent && other in c.absent
    requires forall i, j :: 0 <= i < j < |c.absent| ==> c.absent[i] != c.absent[j]
    ensures other !in MarkAbsent(c, key, maxAbsent).absent <==>
            key !in c.absent && |c.absent| == maxAbsent && other == c.absent[0]
  {
    var i :| 0 <= i < |c.absent| && c.absent[i] == other;
    var all := c.absent + [key];
    if key !in c.absent && |c.absent| == maxAbsent {
      assert forall j :: 1 <= j < |all| ==> all[1..][j - 1] == all[j];
      if i > 0 { assert all[1..][i - 1] == other; }
    } else if key !in c.absent {
      assert all[i] == other;
    }
  }

  /** What the last section returns, the next call for the key finds, as long as the file exists. */
  lemma PublishedIsFound(c: Cache, key: string, path: Path, maxFiles: nat, disk: set<Path>)
    requires maxFiles >= 1 && |c.files| <= maxFiles && key !in c.absent
    ensures var result := if Beaten(c, key, path) then Find(c.files, key).value else path;
            result in disk ==> LookUp(Publish(c, key, path, maxFiles), key, disk).1 == Hit(result)
  {
    var result := if Beaten(c, key, path) then Find(c.files, key).value else path;
    var kept := Remove(c.files, key);
    forall e | e in kept ensures e.key != key { RemoveMember(c.files, key, e); }
    RemoveShorter(c.files, key);
    var all := MoveToEnd(c.files, key, result);
    LastIsFound(kept, key, result);
    if |all| > maxFiles && !Beaten(c, key, path) {
      var rest := kept[|all| - maxFiles..];
      assert all[|all| - maxFiles..] == rest + [Entry(key, result)];
      LastIsFound(rest, key, result);
    }
  }

  lemma {:induction false} LastIsFound(files: seq<Entry>, key: string, path: Path)
    requires forall e :: e in files ==> e.key != key
    ensures Find(files + [Entry(key, path)], key) == Some(path)
  {
    if files != [] {
      assert (files + [Entry(key, path)])[1..] == files[1..] + [Entry(key, path)];
      LastIsFound(files[1..], key, path);
    }
  }
}
