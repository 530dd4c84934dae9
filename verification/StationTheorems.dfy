/** What station upserts promise: one row per device, stable ids, curated metadata kept (`db.py`, `identity.py`). */
module StationTheorems {
  import opened Prelude
  import opened Identity
  import opened Stations
  import opened Strings

  // ---------------------------------------------------------------- one upsert

  predicate SameDevice(a: Station, b: Station, family: set<string>) {
    a.native.Some? && a.native == b.native && Kin(a.provider, b.provider, LookupFamily(family))
  }

  /** No two rows share a native id within the provider family. */
  ghost predicate Unique(table: Table, family: set<string>) {
    forall i, j :: i in table && j in table && i != j ==> !SameDevice(table[i], table[j], family)
  }

  /** Aliases and curated keys as they were; native ids only appended. */
  ghost predicate Curated(a: Meta, b: Meta) {
    && b.aliases == a.aliases
    && a.nativeIds <= b.nativeIds
    && (forall key :: !OwnedByDiscovery(key) ==> Get(b.keys, key) == Get(a.keys, key))
  }

  /** What no upsert may change in a row that exists. */
  ghost predicate Kept(a: Station, b: Station) {
    b.provider == a.provider && (a.cityId.Some? ==> b.cityId == a.cityId) && Curated(a.meta, b.meta)
  }

  lemma CuratedByMerge(m: Meta, incoming: Meta)
    ensures Curated(m, m)
    ensures Curated(m, Merge(m, incoming))
    ensures forall e :: Curated(m, AppendHistory(Merge(m, incoming), e))
  {
    hide Merge, OwnedByDiscovery;
    forall key ensures !OwnedByDiscovery(key) ==> Get(Merge(m, incoming).keys, key) == Get(m.keys, key) {
      MergeKeeps(m, incoming, key);
    }
    MergeKeeps(m, incoming, "");
  }

  /** The table grows by the created row, under the computed id, and by nothing else. */
  lemma UpsertRows(table: Table, d: Discovery, family: set<string>, byNative: Option<string>)
    requires IsByNative(table, d, family, byNative)
    ensures var (after, res) := Upsert(table, d, family, byNative);
            && after.Keys == table.Keys + (if res.created then {d.computedId} else {})
            && (res.created ==>
                res.stationId == Some(d.computedId) && d.computedId !in table && res.event != RenameMerged)
            && (res.stationId.Some? ==> res.stationId.value in after)
  {
    if d.listedNames.Some? && RenameSource(table, d, family).Some? {
      RenamedIsFamily(table, d, family);
    }
    assert byNative.Some? ==> byNative.value in table;
    hide IsByNative, RenameSource, Vanished, Taken, Clashes, IsCandidate, Refreshed, Logged, IncomingMeta, Merge;
  }

  /**
   Every row but the answered one is as before; the answered row keeps its provider, city, aliases, native ids and
   curated keys; its native id changes only in a rename merge.
   */
  lemma UpsertFrame(table: Table, d: Discovery, family: set<string>, byNative: Option<string>, id: string)
    requires IsByNative(table, d, family, byNative) && id in table
    ensures var (after, res) := Upsert(table, d, family, byNative);
            && id in after
            && Kept(table[id], after[id])
            && (res.stationId != Some(id) ==> after[id] == table[id])
            && (!(res.event == RenameMerged && res.stationId == Some(id)) ==> after[id].native == table[id].native)
  {
    UpsertRows(table, d, family, byNative);
    CuratedByMerge(table[id].meta, IncomingMeta(d));
    hide IsByNative, RenameSource, Vanished, Taken, Clashes, IsCandidate, Merge, AppendHistory, Curated, IncomingMeta;
  }

  lemma RenamedIsFamily(table: Table, d: Discovery, family: set<string>)
    requires d.listedNames.Some? && RenameSource(table, d, family).Some?
    ensures var id := RenameSource(table, d, family).value;
            id in table && table[id].provider in family
  {
    hide SameSite, Strip;
    assert RenameSource(table, d, family).value in Vanished(table, d, family);
  }

  // ---------------------------------------------------------------- one row per device

  /** The row that a rename merge answered with joins a device some other row stands for. */
  ghost predicate JoinsTwo(table: Table, d: Discovery, family: set<string>, res: Result) {
    && res.event == RenameMerged
    && (exists j ::
          j in table && res.stationId != Some(j) && table[j].native == d.native && table[j].provider in family)
  }

  lemma UniqueByAnswer(table: Table, d: Discovery, family: set<string>, byNative: Option<string>)
    requires IsByNative(table, d, family, byNative) && Unique(table, family)
    ensures var (after, res) := Upsert(table, d, family, byNative);
            Unique(after, family) <==> !JoinsTwo(table, d, family, res)
  {
    hide Upsert, IsByNative, Curated;
    var (after, res) := Upsert(table, d, family, byNative);
    UpsertRows(table, d, family, byNative);
    forall id | id in table
      ensures after[id].provider == table[id].provider
              && (!(res.event == RenameMerged && res.stationId == Some(id)) ==> after[id].native == table[id].native) {
      UpsertFrame(table, d, family, byNative, id);
    }
    if res.created {
      CreatedIsNew(table, d, family, byNative);
    }
    if res.event == RenameMerged {
      RenameAnswer(table, d, family, byNative);
      var id := res.stationId.value;
      if JoinsTwo(table, d, family, res) {
        var j :| j in table && res.stationId != Some(j) && table[j].native == d.native && table[j].provider in family;
        assert SameDevice(after[id], after[j], family);
      }
    }
  }

  lemma CreatedIsNew(table: Table, d: Discovery, family: set<string>, byNative: Option<string>)
    requires IsByNative(table, d, family, byNative)
    requires Upsert(table, d, family, byNative).1.created
    ensures var after := Upsert(table, d, family, byNative).0;
            && d.computedId in after && after[d.computedId].native == d.native
            && after[d.computedId].provider == d.provider
            && forall j :: j in table ==> !CarriesNative(table[j], d, family)
  {
    hide RenameSource, Taken, Clashes, IsCandidate;
  }

  lemma RenameAnswer(table: Table, d: Discovery, family: set<string>, byNative: Option<string>)
    requires IsByNative(table, d, family, byNative)
    requires Upsert(table, d, family, byNative).1.event == RenameMerged
    ensures var (after, res) := Upsert(table, d, family, byNative);
            && res.stationId.Some? && res.stationId.value in table && table[res.stationId.value].provider in family
            && after[res.stationId.value].native == d.native && d.native.Some?
            && after[res.stationId.value].provider == table[res.stationId.value].provider
            && forall j :: j in table ==> !CarriesNative(table[j], d, family)
  {
    hide RenameSource, Taken, Clashes, IsCandidate;
    RenamedIsFamily(table, d, family);
  }

  /** What a rename merge needs: a native id and a computed id nobody has, and one delisted row at a small site. */
  ghost predicate Renames(table: Table, d: Discovery, family: set<string>) {
    && d.native.Some? && d.listedNames.Some? && d.computedId !in table
    && (forall j :: j in table ==> !CarriesNative(table[j], d, family))
    && |AtSite(table, d, family)| <= 5
    && (exists id :: Vanished(table, d, family) == {id})
  }

  /** `id` is the delisted row that may take the native id, and the family row `j` already has it. */
  predicate Twin(table: Table, d: Discovery, family: set<string>, id: string, j: string) {
    && d.native.Some? && d.listedNames.Some? && Vanished(table, d, family) == {id}
    && id in table && !Clashes(table, id, d.native.value)
    && j in table && j != id && table[j].native == d.native && table[j].provider in family
  }

  /** A rename is due whose native id another family row carries. */
  ghost predicate MeetsTwin(table: Table, d: Discovery, family: set<string>) {
    Renames(table, d, family) && exists id, j :: Twin(table, d, family, id, j)
  }

  /** The answer is a rename merge exactly when a rename is due and the UNIQUE constraint allows it. */
  lemma RenamesIff(table: Table, d: Discovery, family: set<string>, byNative: Option<string>)
    requires IsByNative(table, d, family, byNative)
    ensures var res := Upsert(table, d, family, byNative).1;
            && (res.event == RenameMerged || res.event == UniqueViolation <==> Renames(table, d, family))
            && (Renames(table, d, family) ==>
                  && RenameSource(table, d, family).Some?
                  && var id := RenameSource(table, d, family).value;
                     id in table && (res.event == RenameMerged <==> !Clashes(table, id, d.native.value))
                     && (res.event == RenameMerged ==> res.stationId == Some(id)))
  {
    if d.listedNames.Some? && RenameSource(table, d, family).Some? {
      RenamedIsFamily(table, d, family);
    }
    hide Vanished, AtSite, Taken, Clashes, IsCandidate, Refreshed, IncomingMeta, Merge, Kin;
  }

  /**
   An upsert keeps the family's native ids apart exactly unless a rename is due whose native id another row of the
   family carries.
   */
  lemma UniqueStep(table: Table, d: Discovery, family: set<string>, byNative: Option<string>)
    requires IsByNative(table, d, family, byNative) && Unique(table, family)
    ensures Unique(Upsert(table, d, family, byNative).0, family) <==> !MeetsTwin(table, d, family)
  {
    UniqueByAnswer(table, d, family, byNative);
    RenamesIff(table, d, family, byNative);
    hide Upsert, IsByNative, Unique, Vanished, Clashes;
    var res := Upsert(table, d, family, byNative).1;
    if Renames(table, d, family) {
      var id := RenameSource(table, d, family).value;
      forall i, j | Twin(table, d, family, i, j) ensures i == id { assert i in {id}; }
      if JoinsTwo(table, d, family, res) {
        var j :| j in table && res.stationId != Some(j) && table[j].native == d.native && table[j].provider in family;
        assert Twin(table, d, family, id, j);
      }
    }
  }

  /** A family provider never meets one: its native-id query would have found the other row. */
  lemma FamilyMeetsNoTwin(table: Table, d: Discovery, family: set<string>)
    requires d.provider in family
    ensures !MeetsTwin(table, d, family)
  {
    hide Vanished, Clashes, AtSite;
  }

  /**
   The exception takes a provider outside the family. With a family setting that leaves `airvisual` out, a discovery of
   airvisual gives row "a" the native id that row "b" already has.
   */
  lemma OutsiderJoinsTwo(m: Meta)
    ensures var family := {"airvisual-paqi", "airvisual-urban-unit"};
            var a := Station("airvisual-paqi", Some("x"), "Old", 34.0, 71.5, None, true, None, m);
            var b := Station("airvisual-urban-unit", Some("n"), "Depot", 30.0, 71.5, None, true, None, m);
            var d := Discovery("c", "airvisual", Some("n"), "New", 34.0, 71.5, None, true, None, m, Some({"New"}));
            var table := map["a" := a, "b" := b];
            Unique(table, family) && IsByNative(table, d, family, None)
            && !Unique(Upsert(table, d, family, None).0, family)
  {
    var family := {"airvisual-paqi", "airvisual-urban-unit"};
    var a := Station("airvisual-paqi", Some("x"), "Old", 34.0, 71.5, None, true, None, m);
    var b := Station("airvisual-urban-unit", Some("n"), "Depot", 30.0, 71.5, None, true, None, m);
    var d := Discovery("c", "airvisual", Some("n"), "New", 34.0, 71.5, None, true, None, m, Some({"New"}));
    var table := map["a" := a, "b" := b];
    assert "x"[0] != "n"[0] && "a"[0] != "b"[0] && "c" !in table;
    assert |"airvisual"| == 9 && |"airvisual-paqi"| == 14 && |"airvisual-urban-unit"| == 20;
    assert SameSite(a, d) && !SameSite(b, d);
    assert Strip("Old") == "Old" && "Old"[0] != "New"[0];
    hide SameSite, Strip;
    assert AtSite(table, d, family) == {"a"};
    assert Vanished(table, d, family) == {"a"};
    hide AtSite, Vanished, Upsert;
    assert Twin(table, d, family, "a", "b");
    UniqueStep(table, d, family, None);
  }

  /**
   For family providers a rename merges exactly then, never against the UNIQUE constraint; the merged row is the
   delisted one, takes the new native id, and its newest history entry records the native id it had.
   */
  lemma RenameMergedIff(table: Table, d: Discovery, family: set<string>, byNative: Option<string>)
    requires IsByNative(table, d, family, byNative) && d.provider in family
    ensures var (after, res) := Upsert(table, d, family, byNative);
            && res.event != UniqueViolation
            && (res.event == RenameMerged <==> Renames(table, d, family))
            && (res.event == RenameMerged ==>
                  && res.stationId.Some? && Vanished(table, d, family) == {res.stationId.value}
                  && var id := res.stationId.value;
                     id in table && after[id].native == d.native && |after[id].meta.history| > 0
                     && after[id].meta.history[|after[id].meta.history| - 1] == RenameOf(table[id], d))
  {
    if d.native.Some? && d.listedNames.Some? && RenameSource(table, d, family).Some? {
      RenamedIsFamily(table, d, family);
      var id := RenameSource(table, d, family).value;
      assert byNative.None? ==> !Clashes(table, id, d.native.value);
    }
    hide Vanished, AtSite, Taken, Clashes, IsCandidate, Refreshed, IncomingMeta, Merge, Kin;
  }

  // ---------------------------------------------------------------- every run

  /** One upsert of a run, with the row its native-id query returned. */
  datatype Step = Step(d: Discovery, byNative: Option<string>)

  ghost function After(table: Table, family: set<string>, s: Step): Table
    requires IsByNative(table, s.d, family, s.byNative)
  {
    Upsert(table, s.d, family, s.byNative).0
  }

  ghost predicate Legal(table: Table, family: set<string>, steps: seq<Step>)
    decreases |steps|
  {
    steps == [] || (&& IsByNative(table, steps[0].d, family, steps[0].byNative)
                    && Legal(After(table, family, steps[0]), family, steps[1..]))
  }

  ghost function RunTo(table: Table, family: set<string>, steps: seq<Step>): Table
    requires Legal(table, family, steps)
    decreases |steps|
  {
    if steps == [] then table else RunTo(After(table, family, steps[0]), family, steps[1..])
  }

  ghost predicate ByFamily(steps: seq<Step>, family: set<string>) {
    forall k :: 0 <= k < |steps| ==> steps[k].d.provider in family
  }

  /** A rename is due, onto row `id`. */
  ghost predicate LandsOn(table: Table, d: Discovery, family: set<string>, id: string) {
    && Renames(table, d, family) && Vanished(table, d, family) == {id}
    && id in table && !Clashes(table, id, d.native.value)
  }

  lemma LandsOnAnswer(table: Table, d: Discovery, family: set<string>, byNative: Option<string>, id: string)
    requires IsByNative(table, d, family, byNative)
    ensures var res := Upsert(table, d, family, byNative).1;
            LandsOn(table, d, family, id) <==> res.event == RenameMerged && res.stationId == Some(id)
  {
    RenamesIff(table, d, family, byNative);
    hide Upsert, IsByNative, Vanished, Clashes;
    if LandsOn(table, d, family, id) {
      assert RenameSource(table, d, family).value in {id};
    }
  }

  /** Some rename of the run lands on row `id`. */
  ghost predicate Reassigned(table: Table, family: set<string>, steps: seq<Step>, id: string)
    requires Legal(table, family, steps)
    decreases |steps|
  {
    steps != [] && (|| LandsOn(table, steps[0].d, family, id)
                    || Reassigned(After(table, family, steps[0]), family, steps[1..], id))
  }

  lemma KeptTwice(a: Station, b: Station, c: Station)
    requires Kept(a, b) && Kept(b, c)
    ensures Kept(a, c)
  {
    hide OwnedByDiscovery;
    forall key | !OwnedByDiscovery(key) ensures Get(c.meta.keys, key) == Get(a.meta.keys, key) {
      assert Get(b.meta.keys, key) == Get(a.meta.keys, key);
    }
  }

  /** No station id disappears, and each row keeps what people curated; native ids change only by rename merges. */
  lemma {:induction false} RunKeeps(table: Table, family: set<string>, steps: seq<Step>, id: string)
    requires Legal(table, family, steps) && id in table
    ensures var last := RunTo(table, family, steps);
            && id in last && Kept(table[id], last[id])
            && (!Reassigned(table, family, steps, id) ==> last[id].native == table[id].native)
    decreases |steps|
  {
    if steps != [] {
      hide Upsert, IsByNative, Curated;
      var next := After(table, family, steps[0]);
      UpsertFrame(table, steps[0].d, family, steps[0].byNative, id);
      LandsOnAnswer(table, steps[0].d, family, steps[0].byNative, id);
      RunKeeps(next, family, steps[1..], id);
      KeptTwice(table[id], next[id], RunTo(table, family, steps)[id]);
    }
  }

  lemma {:induction false} RunIsUnique(table: Table, family: set<string>, steps: seq<Step>)
    requires Legal(table, family, steps) && ByFamily(steps, family) && Unique(table, family)
    ensures Unique(RunTo(table, family, steps), family)
    decreases |steps|
  {
    if steps != [] {
      var d := steps[0].d;
      UniqueStep(table, d, family, steps[0].byNative);
      FamilyMeetsNoTwin(table, d, family);
      hide Upsert, IsByNative;
      assert ByFamily(steps[1..], family);
      RunIsUnique(After(table, family, steps[0]), family, steps[1..]);
    }
  }

  /** On a row that carries the discovered native id the upsert answers that row, and creates none. */
  lemma FoundIsAnswer(table: Table, d: Discovery, family: set<string>, byNative: Option<string>, id: string)
    requires IsByNative(table, d, family, byNative) && Unique(table, family)
    requires d.provider in family && id in table && CarriesNative(table[id], d, family)
    ensures byNative == Some(id)
    ensures var res := Upsert(table, d, family, byNative).1; res.stationId == Some(id) && !res.created
  {
    assert byNative.Some?;
    var b := byNative.value;
    assert b != id ==> SameDevice(table[b], table[id], family);
    hide Merge, IncomingMeta, Vanished, AtSite, RenameSource, IsCandidate, Clashes;
  }

  /**
   A device is never split: through every run of family upserts, and until a rename merge lands on its row, its native
   id resolves to the row it started on, and the next upsert of it updates that row.
   */
  lemma DeviceKeepsItsRow(table: Table, family: set<string>, steps: seq<Step>, id: string, d: Discovery,
                          byNative: Option<string>)
    requires Legal(table, family, steps) && ByFamily(steps, family) && Unique(table, family)
    requires id in table && table[id].provider in family && !Reassigned(table, family, steps, id)
    requires d.provider in family && d.native.Some? && d.native == table[id].native
    requires IsByNative(RunTo(table, family, steps), d, family, byNative)
    ensures byNative == Some(id)
    ensures var res := Upsert(RunTo(table, family, steps), d, family, byNative).1;
            res.stationId == Some(id) && !res.created
  {
    RunIsUnique(table, family, steps);
    RunKeeps(table, family, steps, id);
    FoundIsAnswer(RunTo(table, family, steps), d, family, byNative, id);
  }

  // ---------------------------------------------------------------- the id that is not recorded

  /** The computed id belongs to a row without a native id: the normal path never fills that column. */
  ghost predicate Unadopted(table: Table, d: Discovery, byNative: Option<string>) {
    byNative.None? && d.computedId in table && table[d.computedId].native.None?
  }

  /** A discovered native id is on the answered row afterwards exactly unless the row was there without one. */
  lemma NativeRecordedIff(table: Table, d: Discovery, family: set<string>, byNative: Option<string>)
    requires IsByNative(table, d, family, byNative) && d.native.Some?
    requires Upsert(table, d, family, byNative).1.stationId.Some?
    ensures var (after, res) := Upsert(table, d, family, byNative);
            res.stationId.value in after &&
            (after[res.stationId.value].native == d.native <==> !Unadopted(table, d, byNative))
  {
    if d.listedNames.Some? && RenameSource(table, d, family).Some? {
      RenamedIsFamily(table, d, family);
    }
    hide Merge, IncomingMeta, Vanished, AtSite, RenameSource, IsCandidate, Clashes, Kin;
  }

  lemma RecordedInFamily(table: Table, d: Discovery, family: set<string>, byNative: Option<string>)
    requires IsByNative(table, d, family, byNative) && d.native.Some? && d.provider in family
    requires Upsert(table, d, family, byNative).1.stationId.Some? && !Unadopted(table, d, byNative)
    ensures var (after, res) := Upsert(table, d, family, byNative);
            var id := res.stationId.value;
            id in after && after[id].native == d.native && after[id].provider in family
  {
    if d.listedNames.Some? && RenameSource(table, d, family).Some? {
      RenamedIsFamily(table, d, family);
    }
    hide Merge, IncomingMeta, Vanished, AtSite, RenameSource, IsCandidate, Clashes;
  }

  lemma UnadoptedStays(table: Table, d: Discovery, family: set<string>, byNative: Option<string>)
    requires IsByNative(table, d, family, byNative) && d.native.Some? && Unadopted(table, d, byNative)
    ensures var (after, res) := Upsert(table, d, family, byNative);
            && res.stationId == Some(d.computedId)
            && d.computedId in after && after[d.computedId].native.None?
            && forall j :: j in after ==> !CarriesNative(after[j], d, family)
  {
    hide Merge, IncomingMeta, IsCandidate, Kin;
  }

  /** The second upsert renames the row of the first. */
  ghost predicate RenamesThat(table: Table, e: Discovery, family: set<string>, id: string) {
    Renames(table, e, family) && Vanished(table, e, family) == {id}
  }

  lemma NotFoundIsAnswer(table: Table, e: Discovery, family: set<string>, id: string)
    requires e.provider in family && e.native.Some? && id in table && table[id].native.None?
    requires forall j :: j in table ==> !CarriesNative(table[j], e, family)
    ensures Upsert(table, e, family, None).1.stationId == Some(id) <==>
            e.computedId == id || RenamesThat(table, e, family, id)
  {
    RenameMergedIff(table, e, family, None);
    hide Merge, IncomingMeta, IsCandidate, Kin, Clashes, Renames, RenameSource, Vanished;
    if RenamesThat(table, e, family, id) {
      assert {id} == Vanished(table, e, family);
      var res := Upsert(table, e, family, None).1;
      assert res.stationId.value in {id};
    }
  }

  /**
   Two upserts of one family device, under any two computed ids, answer the same row, exactly unless the first one
   left the native id unrecorded and the second neither has the same computed id nor renames that row.
   */
  lemma SecondUpsertFindsFirst(table: Table, d: Discovery, e: Discovery, family: set<string>,
                               first: Option<string>, second: Option<string>)
    requires IsByNative(table, d, family, first) && Unique(table, family)
    requires d.provider in family && e.provider in family && d.native.Some? && e.native == d.native
    requires Upsert(table, d, family, first).1.stationId.Some?
    requires IsByNative(Upsert(table, d, family, first).0, e, family, second)
    ensures var (after, res) := Upsert(table, d, family, first);
            Upsert(after, e, family, second).1.stationId == res.stationId
            <==> (Unadopted(table, d, first) ==>
                  e.computedId == d.computedId || RenamesThat(after, e, family, d.computedId))
  {
    var (after, res) := Upsert(table, d, family, first);
    if Unadopted(table, d, first) {
      UnadoptedStays(table, d, family, first);
      forall j | j in after ensures !CarriesNative(after[j], e, family) {
        assert !CarriesNative(after[j], d, family);
      }
      assert second == None;
      hide Upsert, IsByNative, RenamesThat;
      NotFoundIsAnswer(after, e, family, d.computedId);
    } else {
      UniqueStep(table, d, family, first);
      FamilyMeetsNoTwin(table, d, family);
      RecordedInFamily(table, d, family, first);
      hide Upsert, IsByNative, MeetsTwin, Unadopted;
      FoundIsAnswer(after, e, family, second, res.stationId.value);
    }
  }

  /** A device that was stored without a native id and then moves: its second discovery creates a second row. */
  lemma MovedDeviceIsSplit(m: Meta)
    ensures var family := {"airvisual"};
            var stored := Station("airvisual", None, "Depot", 34.0, 71.5, None, true, None, m);
            var d := Discovery("id-1", "airvisual", Some("n"), "Depot", 34.0, 71.5, None, true, None, m, None);
            var e := d.(computedId := "id-2", lat := 34.1);
            var table := map["id-1" := stored];
            IsByNative(table, d, family, None)
            && var (after, first) := Upsert(table, d, family, None);
               IsByNative(after, e, family, None)
               && var (last, second) := Upsert(after, e, family, None);
                  first.stationId == Some("id-1") && second.stationId == Some("id-2") && second.created
                  && "id-1" in last && last["id-1"].native.None? && "id-2" in last
  {
    hide Merge, IncomingMeta, IsCandidate;
    assert "id-1" != "id-2" by { assert "id-1"[3] != "id-2"[3]; }
  }

  // ---------------------------------------------------------------- what a row's metadata documents

  predicate Lists(m: Meta, native: string) {
    exists n :: n in m.nativeIds && n.nativeId == native
  }

  /** A bounded history, native ids listed once each, and the row's own native id among them. */
  ghost predicate Documented(s: Station) {
    && |s.meta.history| <= HISTORY_MAX
    && NoDuplicates(s.meta.nativeIds)
    && (s.native.Some? && s.native.value != "" ==> Lists(s.meta, s.native.value))
  }

  ghost predicate AllDocumented(table: Table) {
    forall id :: id in table ==> Documented(table[id])
  }

  lemma IncomingLists(m: Meta, d: Discovery)
    ensures var out := Merge(m, IncomingMeta(d));
            && out.history == m.history
            && (NoDuplicates(m.nativeIds) ==> NoDuplicates(out.nativeIds))
            && (forall native :: Lists(m, native) ==> Lists(out, native))
            && (d.native.Some? && d.native.value != "" ==> Lists(out, d.native.value))
  {
    hide Merge;
    MergeKeeps(m, IncomingMeta(d), "");
    var out := Merge(m, IncomingMeta(d));
    if d.native.Some? && d.native.value != "" {
      var n := NativeId(d.provider, d.native.value);
      assert n in IncomingMeta(d).nativeIds;
      assert n in out.nativeIds && n.nativeId == d.native.value;
    }
    forall native | Lists(m, native) ensures Lists(out, native) {
      var n :| n in m.nativeIds && n.nativeId == native;
      assert n in out.nativeIds;
    }
  }

  /** Every upsert keeps every row documented. */
  lemma DocumentedStep(table: Table, d: Discovery, family: set<string>, byNative: Option<string>)
    requires IsByNative(table, d, family, byNative) && AllDocumented(table)
    ensures AllDocumented(Upsert(table, d, family, byNative).0)
  {
    var (after, res) := Upsert(table, d, family, byNative);
    forall id | id in after ensures Documented(after[id]) {
      IncomingLists(if id in table then table[id].meta else EMPTY, d);
      hide IsByNative, Vanished, AtSite, RenameSource, Taken, Clashes, IsCandidate, Merge, IncomingMeta, Lists;
    }
  }

  lemma {:induction false} RunIsDocumented(table: Table, family: set<string>, steps: seq<Step>)
    requires Legal(table, family, steps) && AllDocumented(table)
    ensures AllDocumented(RunTo(table, family, steps))
    decreases |steps|
  {
    if steps != [] {
      DocumentedStep(table, steps[0].d, family, steps[0].byNative);
      hide Upsert, IsByNative, AllDocumented;
      RunIsDocumented(After(table, family, steps[0]), family, steps[1..]);
    }
  }
}
