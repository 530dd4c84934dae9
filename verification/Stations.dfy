/**
 Station identity resolution (`db.py`: upsert_station, _rename_source). The database picks the row that carries the
 native id; everything after that choice is determined.
 */
module Stations {
  import opened Prelude
  import opened Identity
  import opened Strings

  datatype Station = Station(provider: string, native: Option<string>, name: string, lat: real, lon: real,
                             cityId: Option<int>, active: bool, lastSeen: Option<int>, meta: Meta)

  type Table = map<string, Station>

  /** One discovered station; `native` is None when the provider gives no id (or an empty one). */
  datatype Discovery = Discovery(computedId: string, provider: string, native: Option<string>, name: string,
                                 lat: real, lon: real, cityId: Option<int>, active: bool, lastSeen: Option<int>,
                                 meta: Meta, listedNames: Option<set<string>>)

  datatype IdentityEvent =
    | Plain | RenameOrMove | ProviderTagKept | IdentityConflict | RenameMerged | RenameCandidate | UniqueViolation

  datatype Result = Result(stationId: Option<string>, created: bool, updated: bool, event: IdentityEvent)

  // ---------------------------------------------------------------- lookups

  /** Two provider codes denote the same make of device. */
  predicate Kin(p: string, q: string, family: set<string>) {
    p == q || (p in family && q in family)
  }

  /** The family as the native lookup uses it. */
  function LookupFamily(family: set<string>): set<string> {
    if family == {} then {"airvisual"} else family
  }

  predicate CarriesNative(s: Station, d: Discovery, family: set<string>) {
    d.native.Some? && s.native == d.native && Kin(s.provider, d.provider, LookupFamily(family))
  }

  /** What the native-id query may return: any matching row, but one of the exact provider if there is one. */
  ghost predicate IsByNative(table: Table, d: Discovery, family: set<string>, choice: Option<string>) {
    match choice
    case None => forall id :: id in table ==> !CarriesNative(table[id], d, family)
    case Some(id) =>
      && id in table && CarriesNative(table[id], d, family)
      && (table[id].provider != d.provider ==>
            forall j :: j in table && CarriesNative(table[j], d, family) ==> table[j].provider != d.provider)
  }

  function CityOr(city: Option<int>): int {
    if city.Some? then city.value else -1
  }

  function AbsReal(x: real): real { if x < 0.0 then -x else x }

  /** Same city and same coordinates. */
  predicate SameSite(s: Station, d: Discovery) {
    CityOr(s.cityId) == CityOr(d.cityId) && AbsReal(s.lat - d.lat) < 0.000001 && AbsReal(s.lon - d.lon) < 0.000001
  }

  function Vanished(table: Table, d: Discovery, family: set<string>): set<string>
    requires d.listedNames.Some?
  {
    set id | id in table && table[id].provider in family && SameSite(table[id], d)
             && Strip(table[id].name) !in d.listedNames.value
  }

  function AtSite(table: Table, d: Discovery, family: set<string>): set<string> {
    set id | id in table && table[id].provider in family && SameSite(table[id], d)
  }

  /** _rename_source(): the one row of the site whose name is no longer listed, if the site has at most five rows. */
  ghost function RenameSource(table: Table, d: Discovery, family: set<string>): (r: Option<string>)
    requires d.listedNames.Some?
    ensures r.Some? ==> Vanished(table, d, family) == {r.value}
  {
    if |AtSite(table, d, family)| <= 5 && exists id :: Vanished(table, d, family) == {id}
    then var id :| Vanished(table, d, family) == {id}; Some(id)
    else None
  }

  // ---------------------------------------------------------------- upsert_station

  /** Discovery's metadata with the native id listed. */
  function IncomingMeta(d: Discovery): Meta {
    if d.native.Some? then EnsureIdentity(d.meta, NativeId(d.provider, d.native.value)) else d.meta
  }

  function Refreshed(s: Station, d: Discovery): Station {
    s.(name := d.name, lat := d.lat, lon := d.lon, active := d.active, lastSeen := d.lastSeen,
       meta := Merge(s.meta, IncomingMeta(d)))
  }

  /** The row the normal path leaves where one was: the city stays once it is known. */
  function Again(s: Station, d: Discovery): Station {
    Refreshed(s, d).(cityId := if s.cityId.Some? then s.cityId else d.cityId)
  }

  /** The row it leaves where none was. */
  function Found(d: Discovery): Station {
    Station(d.provider, d.native, d.name, d.lat, d.lon, d.cityId, d.active, d.lastSeen, Merge(EMPTY, IncomingMeta(d)))
  }

  function Logged(s: Station, e: Event): Station {
    s.(meta := AppendHistory(s.meta, e))
  }

  function MoveOf(was: Station, d: Discovery): Event {
    Moved(d.provider, was.name, was.lat, was.lon, d.name, d.lat, d.lon, d.computedId)
  }

  function RenameOf(was: Station, d: Discovery): Event
    requires d.native.Some?
  {
    Renamed(d.provider, was.name, was.native, d.name, d.native.value, d.computedId)
  }

  /** The computed id belongs to a row of another native id or another provider. */
  predicate Taken(table: Table, d: Discovery) {
    && d.computedId in table && d.native.Some? && table[d.computedId].native.Some?
    && (table[d.computedId].native != d.native || table[d.computedId].provider != d.provider)
  }

  predicate IsCandidate(table: Table, d: Discovery) {
    exists id :: id in table && id != d.computedId && table[id].provider == d.provider && SameSite(table[id], d)
  }

  /** UNIQUE (provider_id, source_station_id): would giving row `id` this native id clash? */
  predicate Clashes(table: Table, id: string, native: string)
    requires id in table
  {
    exists j :: j in table && j != id && table[j].provider == table[id].provider && table[j].native == Some(native)
  }

  /** The table and the answer, given the row the native-id query returned. */
  ghost function Upsert(table: Table, d: Discovery, family: set<string>, byNative: Option<string>): (Table, Result)
    requires IsByNative(table, d, family, byNative)
  {
    var cid := d.computedId;
    if byNative.Some? && byNative.value != cid then
      var id := byNative.value;
      (table[id := Logged(Refreshed(table[id], d), MoveOf(table[id], d))],
       Result(Some(id), false, true, RenameOrMove))
    else if Taken(table, d) then
      if table[cid].native == d.native && d.provider in family && table[cid].provider in family
      then (table[cid := Refreshed(table[cid], d)], Result(Some(cid), false, true, ProviderTagKept))
      else (table, Result(None, false, false, IdentityConflict))
    else if byNative.None? && cid !in table && d.native.Some? && d.listedNames.Some?
            && RenameSource(table, d, family).Some? then
      var id := RenameSource(table, d, family).value;
      if Clashes(table, id, d.native.value) then (table, Result(None, false, false, UniqueViolation))
      else
        var s := table[id].(name := d.name, native := d.native, active := d.active, lastSeen := d.lastSeen,
                            meta := Merge(table[id].meta, IncomingMeta(d)));
        (table[id := Logged(s, RenameOf(table[id], d))], Result(Some(id), false, true, RenameMerged))
    else
      var row := if cid in table then Again(table[cid], d) else Found(d);
      (table[cid := row],
       Result(Some(cid), cid !in table, cid in table,
              if IsCandidate(table[cid := row], d) then RenameCandidate else Plain))
  }

  class DatabaseService {
    var stations: Table
    const family: set<string>

    method FindByNative(d: Discovery) returns (choice: Option<string>)
      ensures IsByNative(stations, d, family, choice)
    {
      choice := None;
      if exact :| && exact in stations && CarriesNative(stations[exact], d, family)
                  && stations[exact].provider == d.provider {
        choice := Some(exact);
      } else if kin :| kin in stations && CarriesNative(stations[kin], d, family) {
        choice := Some(kin);
      }
    }

    method FindRenameSource(d: Discovery) returns (r: Option<string>)
      requires d.listedNames.Some?
      ensures r == RenameSource(stations, d, family)
    {
      r := None;
      var rows := AtSite(stations, d, family);
      var vanished := Vanished(stations, d, family);
      if |vanished| == 1 && |rows| <= 5 {
        var id :| id in vanished;
        SingletonOf(vanished, id);
        r := Some(id);
      } else {
        ghost var some := exists id :: vanished == {id};
        assert |vanished| != 1 ==> !some;
      }
    }

    method UpsertStation(d: Discovery) returns (result: Result, ghost byNative: Option<string>)
      modifies this`stations
      ensures IsByNative(old(stations), d, family, byNative)
      ensures (stations, result) == Upsert(old(stations), d, family, byNative)
    {
      var cid := d.computedId;
      var found := FindByNative(d);
      byNative := found;
      if found.Some? && found.value != cid {
        var id := found.value;
        var row := Logged(Refreshed(stations[id], d), MoveOf(stations[id], d));
        stations := stations[id := row];
        return Result(Some(id), false, true, RenameOrMove), byNative;
      }
      if Taken(stations, d) {
        if stations[cid].native == d.native && d.provider in family && stations[cid].provider in family {
          stations := stations[cid := Refreshed(stations[cid], d)];
          return Result(Some(cid), false, true, ProviderTagKept), byNative;
        }
        return Result(None, false, false, IdentityConflict), byNative;
      }
      if found.None? && cid !in stations && d.native.Some? && d.listedNames.Some? {
        var renamed := FindRenameSource(d);
        if renamed.Some? {
          var id := renamed.value;
          if Clashes(stations, id, d.native.value) {
            return Result(None, false, false, UniqueViolation), byNative;
          }
          var s := stations[id].(name := d.name, native := d.native, active := d.active, lastSeen := d.lastSeen,
                                 meta := Merge(stations[id].meta, IncomingMeta(d)));
          stations := stations[id := Logged(s, RenameOf(stations[id], d))];
          return Result(Some(id), false, true, RenameMerged), byNative;
        }
      }
      var existed := cid in stations;
      var row := if existed then Again(stations[cid], d) else Found(d);
      stations := stations[cid := row];
      result := Result(Some(cid), !existed, existed, if IsCandidate(stations, d) then RenameCandidate else Plain);
    }
  }

  lemma SingletonOf(s: set<string>, x: string)
    requires |s| == 1 && x in s
    ensures s == {x}
  {
    assert s == {x} + (s - {x});
    assert |s - {x}| == 0;
  }
}
