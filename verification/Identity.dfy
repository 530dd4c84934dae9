/** Station metadata conventions (`identity.py`): discovery owns a few keys and the native ids, people own the rest. */
module Identity {
  import opened Prelude

  datatype NativeId = NativeId(provider: string, nativeId: string)

  datatype Event =
    | Moved(provider: string, fromName: string, fromLat: real, fromLon: real,
            toName: string, toLat: real, toLon: real, computedId: string)
    | Renamed(provider: string, fromName: string, fromNative: Option<string>,
              toName: string, toNative: string, computedId: string)

  /** metadata_json: the top-level keys other than `identity`, and the parts of `identity`. */
  datatype Meta = Meta(keys: map<string, string>, nativeIds: seq<NativeId>, aliases: seq<string>, history: seq<Event>)

  const EMPTY: Meta := Meta(map[], [], [], [])

  const HISTORY_MAX: nat := 50

  predicate OwnedByDiscovery(key: string) {
    key in {"iqair_station_name", "iqair_city", "iqair_state", "iqair_country", "location_type",
            "data_source", "last_updated_utc", "discovery_method"}
  }

  /** ensure_identity(): list a native id once; an absent or empty id adds nothing. */
  function EnsureIdentity(m: Meta, n: NativeId): Meta {
    if n.nativeId == "" || n in m.nativeIds then m else m.(nativeIds := m.nativeIds + [n])
  }

  function EnsureAll(m: Meta, ns: seq<NativeId>): Meta {
    if ns == [] then m else EnsureIdentity(EnsureAll(m, ns[..|ns| - 1]), ns[|ns| - 1])
  }

  /** append_identity_history(): the newest events, at most HISTORY_MAX of them. */
  function AppendHistory(m: Meta, e: Event): Meta {
    var h := m.history + [e];
    m.(history := if |h| > HISTORY_MAX then h[|h| - HISTORY_MAX..] else h)
  }

  /** The keys among `ks` that discovery owns. */
  function Owned(keys: map<string, string>, ks: set<string>): map<string, string> {
    map k | k in keys && k in ks && OwnedByDiscovery(k) :: keys[k]
  }

  /** merge_discovery_metadata() */
  function Merge(existing: Meta, incoming: Meta): Meta {
    EnsureAll(existing.(keys := existing.keys + Owned(incoming.keys, incoming.keys.Keys)), incoming.nativeIds)
  }

  lemma OwnedNext(keys: map<string, string>, ks: set<string>, k: string)
    requires k in keys
    ensures Owned(keys, ks + {k}) == if OwnedByDiscovery(k) then Owned(keys, ks)[k := keys[k]] else Owned(keys, ks)
  {
    hide OwnedByDiscovery;
  }

  method MergeDiscoveryMetadata(existing: Meta, incoming: Meta) returns (out: Meta)
    ensures out == Merge(existing, incoming)
  {
    hide OwnedByDiscovery;
    assert Owned(incoming.keys, {}) == map[];
    var keys := existing.keys;
    var todo := incoming.keys.Keys;
    ghost var done: set<string> := {};
    while todo != {}
      invariant todo !! done && todo + done == incoming.keys.Keys
      invariant keys == existing.keys + Owned(incoming.keys, done)
    {
      var k :| k in todo;
      OwnedNext(incoming.keys, done, k);
      todo := todo - {k};
      done := done + {k};
      if OwnedByDiscovery(k) {
        keys := keys[k := incoming.keys[k]];
      }
    }
    assert done == incoming.keys.Keys;
    out := existing.(keys := keys);
    ghost var start := out;
    for i := 0 to |incoming.nativeIds|
      invariant out == EnsureAll(start, incoming.nativeIds[..i])
    {
      assert incoming.nativeIds[..i + 1][..i] == incoming.nativeIds[..i];
      out := EnsureIdentity(out, incoming.nativeIds[i]);
    }
    assert incoming.nativeIds[..|incoming.nativeIds|] == incoming.nativeIds;
  }

  // ---------------------------------------------------------------- what merging keeps

  predicate NoDuplicates(ns: seq<NativeId>) {
    forall i, j :: 0 <= i < j < |ns| ==> ns[i] != ns[j]
  }

  lemma {:induction false} EnsureAllKeeps(m: Meta, ns: seq<NativeId>)
    ensures var out := EnsureAll(m, ns);
            && out.keys == m.keys && out.aliases == m.aliases && out.history == m.history
            && m.nativeIds <= out.nativeIds
            && (forall n :: n in out.nativeIds <==> n in m.nativeIds || (n in ns && n.nativeId != ""))
            && (NoDuplicates(m.nativeIds) ==> NoDuplicates(out.nativeIds))
  {
    if ns != [] {
      var k := |ns| - 1;
      EnsureAllKeeps(m, ns[..k]);
      assert ns == ns[..k] + [ns[k]];
      var was := EnsureAll(m, ns[..k]).nativeIds;
      if NoDuplicates(was) && ns[k] !in was {
        assert forall i :: 0 <= i < |was| ==> was[i] in was;
      }
    }
  }

  /**
   Curated keys, aliases and history are untouched; discovery's keys take the incoming value; native ids are the
   old ones in their order and then the new ones, each once.
   */
  lemma MergeKeeps(existing: Meta, incoming: Meta, key: string)
    ensures var out := Merge(existing, incoming);
            && Get(out.keys, key) == (if OwnedByDiscovery(key) && key in incoming.keys then Get(incoming.keys, key)
                                      else Get(existing.keys, key))
            && out.aliases == existing.aliases && out.history == existing.history
            && existing.nativeIds <= out.nativeIds
            && (forall n :: n in out.nativeIds <==>
                          n in existing.nativeIds || (n in incoming.nativeIds && n.nativeId != ""))
            && (NoDuplicates(existing.nativeIds) ==> NoDuplicates(out.nativeIds))
  {
    hide OwnedByDiscovery;
    EnsureAllKeeps(existing.(keys := existing.keys + Owned(incoming.keys, incoming.keys.Keys)), incoming.nativeIds);
  }

  lemma {:induction false} EnsureAllSettled(m: Meta, ns: seq<NativeId>)
    requires forall n :: n in ns && n.nativeId != "" ==> n in m.nativeIds
    ensures EnsureAll(m, ns) == m
  {
    if ns != [] {
      EnsureAllSettled(m, ns[..|ns| - 1]);
    }
  }

  /** Discovering the same metadata again changes nothing. */
  lemma MergeIdempotent(existing: Meta, incoming: Meta)
    ensures Merge(Merge(existing, incoming), incoming) == Merge(existing, incoming)
  {
    hide OwnedByDiscovery;
    var owned := Owned(incoming.keys, incoming.keys.Keys);
    var first := existing.(keys := existing.keys + owned);
    EnsureAllKeeps(first, incoming.nativeIds);
    var out := Merge(existing, incoming);
    assert out.keys + owned == out.keys;
    EnsureAllSettled(out, incoming.nativeIds);
  }
}
