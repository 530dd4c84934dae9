/** What an upsert writes into the row it answers, and which answer it gives (`db.py`). */
module StationUpdates {
  import opened Prelude
  import opened Identity
  import opened Stations
  import StationTheorems
  import Strings

  // ---------------------------------------------------------------- what the answered row takes over

  /** Metadata that lists the discovered native id and has discovery's own keys. */
  ghost predicate MetaShows(m: Meta, d: Discovery) {
    && (d.native.Some? && d.native.value != "" ==> NativeId(d.provider, d.native.value) in m.nativeIds)
    && forall key :: key in d.meta.keys && OwnedByDiscovery(key) ==> Get(m.keys, key) == Some(d.meta.keys[key])
  }

  /** The facts of a discovery that every answered row shows afterwards. */
  ghost predicate Shows(row: Station, d: Discovery) {
    row.name == d.name && row.active == d.active && row.lastSeen == d.lastSeen && MetaShows(row.meta, d)
  }

  lemma MergeShows(m: Meta, d: Discovery)
    ensures MetaShows(Merge(m, IncomingMeta(d)), d)
    ensures forall e :: MetaShows(AppendHistory(Merge(m, IncomingMeta(d)), e), d)
  {
    hide Merge, OwnedByDiscovery;
    MergeKeeps(m, IncomingMeta(d), "");
    forall key | key in d.meta.keys && OwnedByDiscovery(key)
      ensures Get(Merge(m, IncomingMeta(d)).keys, key) == Some(d.meta.keys[key])
    {
      MergeKeeps(m, IncomingMeta(d), key);
    }
  }

  /**
   The answered row takes the discovery's name, activity, time, native id and own metadata; it takes the coordinates
   too, except in a rename merge, which keeps the old ones.
   */
  lemma TakesOver(table: Table, d: Discovery, family: set<string>, byNative: Option<string>)
    requires IsByNative(table, d, family, byNative)
    requires Upsert(table, d, family, byNative).1.stationId.Some?
    ensures var (after, res) := Upsert(table, d, family, byNative);
            var id := res.stationId.value;
            && id in after && Shows(after[id], d)
            && (res.event != RenameMerged ==> after[id].lat == d.lat && after[id].lon == d.lon)
            && (res.event == RenameMerged ==>
                  id in table && after[id].lat == table[id].lat && after[id].lon == table[id].lon)
  {
    hide Upsert, IsByNative, MetaShows;
    StationTheorems.UpsertRows(table, d, family, byNative);
    PlaceAfter(table, d, family, byNative);
    MetaAfter(table, d, family, byNative);
  }

  lemma PlaceAfter(table: Table, d: Discovery, family: set<string>, byNative: Option<string>)
    requires IsByNative(table, d, family, byNative)
    requires Upsert(table, d, family, byNative).1.stationId.Some?
    ensures var (after, res) := Upsert(table, d, family, byNative);
            var id := res.stationId.value;
            && id in after
            && after[id].name == d.name && after[id].active == d.active && after[id].lastSeen == d.lastSeen
            && (res.event != RenameMerged ==> after[id].lat == d.lat && after[id].lon == d.lon)
            && (res.event == RenameMerged ==>
                  id in table && after[id].lat == table[id].lat && after[id].lon == table[id].lon)
  {
    if d.listedNames.Some? && RenameSource(table, d, family).Some? {
      StationTheorems.RenamedIsFamily(table, d, family);
    }
    hide RenameSource, Taken, Clashes, IsCandidate, Merge, IncomingMeta, AppendHistory, Kin;
  }

  lemma MetaAfter(table: Table, d: Discovery, family: set<string>, byNative: Option<string>)
    requires IsByNative(table, d, family, byNative)
    requires Upsert(table, d, family, byNative).1.stationId.Some?
    ensures var (after, res) := Upsert(table, d, family, byNative);
            res.stationId.value in after && MetaShows(after[res.stationId.value].meta, d)
  {
    if d.listedNames.Some? && RenameSource(table, d, family).Some? {
      StationTheorems.RenamedIsFamily(table, d, family);
    }
    var id := Upsert(table, d, family, byNative).1.stationId.value;
    MergeShows(if id in table then table[id].meta else EMPTY, d);
    hide RenameSource, Taken, Clashes, IsCandidate, Merge, IncomingMeta, AppendHistory, Kin, MetaShows;
  }

  /**
   The city: a created row takes the discovery's, a refreshed one only when it has none, and a moved, tagged or renamed
   row keeps what it has. A created row also takes provider and native id.
   */
  lemma CityAfter(table: Table, d: Discovery, family: set<string>, byNative: Option<string>)
    requires IsByNative(table, d, family, byNative)
    requires Upsert(table, d, family, byNative).1.stationId.Some?
    ensures var (after, res) := Upsert(table, d, family, byNative);
            var id := res.stationId.value;
            && id in after
            && (res.created ==> after[id].cityId == d.cityId && after[id].provider == d.provider
                                && after[id].native == d.native)
            && (!res.created && (res.event == Plain || res.event == RenameCandidate) ==>
                  id in table && after[id].cityId == if table[id].cityId.Some? then table[id].cityId else d.cityId)
            && (res.event == RenameOrMove || res.event == ProviderTagKept || res.event == RenameMerged ==>
                  id in table && after[id].cityId == table[id].cityId)
  {
    if d.listedNames.Some? && RenameSource(table, d, family).Some? {
      StationTheorems.RenamedIsFamily(table, d, family);
    }
    hide RenameSource, Taken, Clashes, IsCandidate, Merge, IncomingMeta, Kin;
  }

  // ---------------------------------------------------------------- the history of a row

  /** One more event at the end; of the older ones the newest stay in order, at most 50 in all. */
  predicate OneMore(was: seq<Event>, now: seq<Event>, e: Event) {
    && |now| == (if |was| < HISTORY_MAX then |was| + 1 else HISTORY_MAX) && |now| > 0
    && now[|now| - 1] == e
    && forall i :: 0 <= i < |now| - 1 && |was| + 1 - |now| + i >= 0 ==> now[i] == was[|was| + 1 - |now| + i]
  }

  lemma AppendIsOneMore(m: Meta, e: Event)
    ensures OneMore(m.history, AppendHistory(m, e).history, e)
    ensures AppendHistory(m, e).keys == m.keys && AppendHistory(m, e).nativeIds == m.nativeIds
    ensures AppendHistory(m, e).aliases == m.aliases
  {
  }

  /**
   A move is recorded with the old and the new name and place and the computed id, a rename merge with the old and the
   new name and native id; no other answer touches the history.
   */
  lemma HistoryRecords(table: Table, d: Discovery, family: set<string>, byNative: Option<string>, id: string)
    requires IsByNative(table, d, family, byNative) && id in table
    ensures var (after, res) := Upsert(table, d, family, byNative);
            var was := table[id];
            && id in after
            && (res.stationId == Some(id) && res.event == RenameOrMove ==>
                  OneMore(was.meta.history, after[id].meta.history,
                          Moved(d.provider, was.name, was.lat, was.lon, d.name, d.lat, d.lon, d.computedId)))
            && (res.stationId == Some(id) && res.event == RenameMerged ==>
                  d.native.Some?
                  && OneMore(was.meta.history, after[id].meta.history,
                             Renamed(d.provider, was.name, was.native, d.name, d.native.value, d.computedId)))
            && (res.stationId != Some(id) || (res.event != RenameOrMove && res.event != RenameMerged) ==>
                  after[id].meta.history == was.meta.history)
  {
    hide Merge, IncomingMeta, AppendHistory, OneMore, RenameSource, Taken, Clashes, IsCandidate;
    StationTheorems.UpsertRows(table, d, family, byNative);
    var merged := Merge(table[id].meta, IncomingMeta(d));
    MergedHistory(table[id].meta, d);
    AppendIsOneMore(merged, MoveOf(table[id], d));
    if d.native.Some? { AppendIsOneMore(merged, RenameOf(table[id], d)); }
    hide IsByNative;
  }

  lemma MergedHistory(m: Meta, d: Discovery)
    ensures Merge(m, IncomingMeta(d)).history == m.history
  {
    hide Merge;
    MergeKeeps(m, IncomingMeta(d), "");
  }

  // ---------------------------------------------------------------- which answer

  /** The computed id belongs to a row with a native id, and that row is not this provider's row of this device. */
  predicate BelongsToAnother(table: Table, d: Discovery) {
    && d.computedId in table && d.native.Some? && table[d.computedId].native.Some?
    && !(table[d.computedId].native == d.native && table[d.computedId].provider == d.provider)
  }

  /** It is this device's row all the same, under another tag of the family. */
  predicate UnderAnotherTag(table: Table, d: Discovery, family: set<string>) {
    && d.computedId in table && table[d.computedId].native == d.native
    && d.provider in family && table[d.computedId].provider in family
  }

  /**
   A row found by its native id under another computed id is a move; else a computed id that belongs to another row is a
   kept tag or a conflict; a conflict changes nothing. Only conflicts and the UNIQUE constraint leave no answer.
   */
  lemma AnswerIff(table: Table, d: Discovery, family: set<string>, byNative: Option<string>)
    requires IsByNative(table, d, family, byNative)
    ensures var (after, res) := Upsert(table, d, family, byNative);
            var moved := byNative.Some? && byNative != Some(d.computedId);
            && (res.event == RenameOrMove <==> moved)
            && (moved ==> res.stationId == byNative)
            && (res.event == ProviderTagKept <==>
                  !moved && BelongsToAnother(table, d) && UnderAnotherTag(table, d, family))
            && (res.event == IdentityConflict <==>
                  !moved && BelongsToAnother(table, d) && !UnderAnotherTag(table, d, family))
            && (res.stationId.None? <==> res.event == IdentityConflict || res.event == UniqueViolation)
            && (res.stationId.None? ==> after == table && !res.created)
            && (res.updated <==> res.stationId.Some? && !res.created)
            && (res.event == Plain || res.event == RenameCandidate || res.event == ProviderTagKept ==>
                  res.stationId == Some(d.computedId))
  {
    hide IsByNative, RenameSource, Clashes, IsCandidate, Merge, IncomingMeta, Refreshed, Logged, Again, Found;
  }

  /** The normal path reports a candidate iff another row of the provider is at the same site. */
  lemma CandidateIff(table: Table, d: Discovery, family: set<string>, byNative: Option<string>)
    requires IsByNative(table, d, family, byNative)
    requires var event := Upsert(table, d, family, byNative).1.event; event == Plain || event == RenameCandidate
    ensures Upsert(table, d, family, byNative).1.event == RenameCandidate <==>
            exists id :: id in table && id != d.computedId && table[id].provider == d.provider && SameSite(table[id], d)
  {
    hide SameSite, RenameSource, Taken, Merge, IncomingMeta;
    var after := Upsert(table, d, family, byNative).0;
    assert forall id :: id in table && id != d.computedId ==> id in after && after[id] == table[id];
    assert forall id :: id in after && id != d.computedId ==> id in table;
  }

  /** One site: no city on both sides or the same one (-1 counts as none), and coordinates within a millionth. */
  lemma SameSiteIff(s: Station, d: Discovery)
    ensures SameSite(s, d) <==>
            && (s.cityId == d.cityId || (s.cityId in {None, Some(-1)} && d.cityId in {None, Some(-1)}))
            && -0.000001 < s.lat - d.lat < 0.000001 && -0.000001 < s.lon - d.lon < 0.000001
  {
  }

  /** The site's rows that IQAir no longer lists, and all of its rows, are rows of the family there. */
  lemma SiteMembers(table: Table, d: Discovery, family: set<string>, id: string)
    ensures id in AtSite(table, d, family) <==> id in table && table[id].provider in family && SameSite(table[id], d)
    ensures d.listedNames.Some? ==>
            (id in Vanished(table, d, family) <==>
               id in AtSite(table, d, family) && Strings.Strip(table[id].name) !in d.listedNames.value)
  {
    hide SameSite;
  }

  // ---------------------------------------------------------------- the UNIQUE constraint

  /** UNIQUE (provider_id, source_station_id), which rows without a native id do not touch. */
  ghost predicate ProviderUnique(table: Table) {
    forall i, j :: i in table && j in table && i != j && table[i].native.Some? ==>
      !(table[i].native == table[j].native && table[i].provider == table[j].provider)
  }

  /** Every upsert keeps it, whatever the provider and the family. */
  lemma ConstraintHolds(table: Table, d: Discovery, family: set<string>, byNative: Option<string>)
    requires IsByNative(table, d, family, byNative) && ProviderUnique(table)
    ensures ProviderUnique(Upsert(table, d, family, byNative).0)
  {
    hide Upsert, IsByNative, Clashes, StationTheorems.Curated;
    var (after, res) := Upsert(table, d, family, byNative);
    StationTheorems.UpsertRows(table, d, family, byNative);
    forall id | id in table
      ensures after[id].provider == table[id].provider
              && (!(res.event == RenameMerged && res.stationId == Some(id)) ==> after[id].native == table[id].native) {
      StationTheorems.UpsertFrame(table, d, family, byNative, id);
    }
    if res.created { StationTheorems.CreatedIsNew(table, d, family, byNative); }
    if res.event == RenameMerged {
      StationTheorems.RenameAnswer(table, d, family, byNative);
      ViolationIff(table, d, family, byNative);
      var id := res.stationId.value;
      forall j | j in table && j != id
        ensures !(table[j].provider == table[id].provider && table[j].native == d.native)
      {
        assert !Takes(table, d, family, id, j);
      }
    }
  }

  /**
   A rename is refused iff another row of the renamed row's provider has the native id already; otherwise it is merged.
   */
  lemma ViolationIff(table: Table, d: Discovery, family: set<string>, byNative: Option<string>)
    requires IsByNative(table, d, family, byNative)
    ensures var res := Upsert(table, d, family, byNative).1;
            && (res.event == UniqueViolation <==>
                  StationTheorems.Renames(table, d, family)
                  && exists id, j :: Takes(table, d, family, id, j))
            && (res.event == RenameMerged ==>
                  res.stationId.Some? && Vanished(table, d, family) == {res.stationId.value} && d.listedNames.Some?
                  && forall j :: !Takes(table, d, family, res.stationId.value, j))
  {
    StationTheorems.RenamesIff(table, d, family, byNative);
    if StationTheorems.Renames(table, d, family) {
      var id := RenameSource(table, d, family).value;
      if Clashes(table, id, d.native.value) {
        var j :| j in table && j != id && table[j].provider == table[id].provider && table[j].native == d.native;
        assert Takes(table, d, family, id, j);
      }
      assert (exists j :: Takes(table, d, family, id, j)) ==> Clashes(table, id, d.native.value);
      forall i, j | Takes(table, d, family, i, j) ensures i == id { assert i in {id}; }
    }
    hide IsByNative, Vanished, Clashes, AtSite, Upsert;
  }

  /** Row `j`, another row of the same provider, has the native id that row `id` would be given. */
  predicate Takes(table: Table, d: Discovery, family: set<string>, id: string, j: string) {
    && d.listedNames.Some? && d.native.Some? && Vanished(table, d, family) == {id} && id in table
    && j in table && j != id && table[j].provider == table[id].provider && table[j].native == d.native
  }

  /** Without a family setting only the exact provider finds its rows. */
  lemma EmptyFamilyIsExact(p: string, q: string)
    ensures Kin(p, q, LookupFamily({})) <==> p == q
  {
  }
}
