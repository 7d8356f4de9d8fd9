/**
  The web telemetry archive (`flask_telemetry_store`): for every sonde id,
  the time of its last accepted record, that record, and the path of
  positions it has reported. Entries are created and extended by `Merge`
  and removed whole by `Sweep`.
*/
module TrackStore {
  import opened Telemetry

  /** One `[lat, lon, alt]` element of an entry's `path`. */
  datatype Point = Point(lat: Value, lon: Value, alt: Value)

  datatype Entry = Entry(timestamp: int, latest: Record, path: seq<Point>)

  type Store = map<Value, Entry>

  function PointOf(t: Record): Point
    requires Mergeable(t)
  {
    Point(t["lat"], t["lon"], t["alt"])
  }

  /** The path an id had before a merge: empty when the id is new. */
  function PriorPath(store: Store, id: Value): seq<Point>
  {
    if id in store then store[id].path else []
  }

  /**
    The store update of `handle_telemetry`: an unknown id first gets an entry
    with an empty path; then the point is appended, the latest record is
    replaced and the timestamp is refreshed.
  */
  function Merge(store: Store, t: Record, now: int): (s: Store)
    requires Mergeable(t)
    ensures s.Keys == store.Keys + {t["id"]}
    ensures forall id :: id in store && id != t["id"] ==> s[id] == store[id]
    ensures s[t["id"]].latest == t && s[t["id"]].timestamp == now
    ensures t["id"] !in store ==> s[t["id"]].path == [PointOf(t)]
    ensures t["id"] in store ==>
      |s[t["id"]].path| == |store[t["id"]].path| + 1
      && s[t["id"]].path[..|store[t["id"]].path|] == store[t["id"]].path
      && s[t["id"]].path[|store[t["id"]].path|] == PointOf(t)
  {
    var id := t["id"];
    var created := if id in store then store else store[id := Entry(now, t, [])];
    var e := created[id];
    created[id := e.(path := e.path + [PointOf(t)], latest := t, timestamp := now)]
  }

  /** The eviction test of `clean_telemetry_store`: strictly older than `maxAge`. */
  predicate Expired(e: Entry, now: int, maxAge: int)
  {
    now - e.timestamp > maxAge
  }

  /** Every entry is at most `maxAge` old: what a sweep leaves behind. */
  predicate Fresh(store: Store, now: int, maxAge: int)
  {
    forall id :: id in store ==> !Expired(store[id], now, maxAge)
  }

  /** The store after `clean_telemetry_store` at time `now`. */
  function Sweep(store: Store, now: int, maxAge: int): (s: Store)
    ensures forall id :: id in s <==> id in store && !Expired(store[id], now, maxAge)
    ensures forall id :: id in s ==> s[id] == store[id]
    ensures Fresh(s, now, maxAge)
  {
    map id | id in store && !Expired(store[id], now, maxAge) :: store[id]
  }

  /**
    `clean_telemetry_store` as written: walk the ids present at the start and
    pop each one whose entry is too old.
  */
  method CleanTelemetryStore(store: Store, now: int, maxAge: int) returns (cleaned: Store)
    ensures cleaned == Sweep(store, now, maxAge)
  {
    cleaned := store;
    var pending := store.Keys;
    while pending != {}
      invariant pending <= store.Keys
      invariant cleaned.Keys <= store.Keys
      invariant forall id :: id in cleaned ==> cleaned[id] == store[id]
      invariant forall id :: id in pending ==> id in cleaned
      invariant forall id :: id in store && id !in pending ==>
        (id in cleaned <==> !Expired(store[id], now, maxAge))
      decreases pending
    {
      var id :| id in pending;
      if now - cleaned[id].timestamp > maxAge {
        cleaned := cleaned - {id};
      }
      pending := pending - {id};
    }
    assert cleaned.Keys == Sweep(store, now, maxAge).Keys;
  }

  /** Sweeping twice at the same time removes nothing more. */
  lemma SweepIdempotent(store: Store, now: int, maxAge: int)
    ensures Sweep(Sweep(store, now, maxAge), now, maxAge) == Sweep(store, now, maxAge)
  {
  }

  /**
    With no merge in between, an earlier sweep is subsumed by a later one:
    ages only grow, so whatever the first sweep removed the second would too.
  */
  lemma SweepLater(store: Store, t1: int, t2: int, maxAge: int)
    requires t1 <= t2
    ensures Sweep(Sweep(store, t1, maxAge), t2, maxAge) == Sweep(store, t2, maxAge)
  {
  }

  /** The boundary is strict: an entry exactly `maxAge` old survives, one unit older does not. */
  lemma SweepBoundary(store: Store, id: Value, maxAge: int)
    requires id in store
    ensures id in Sweep(store, store[id].timestamp + maxAge, maxAge)
    ensures id !in Sweep(store, store[id].timestamp + maxAge + 1, maxAge)
  {
  }

  /** A freshly merged entry survives a sweep at the same time whenever `maxAge` is not negative. */
  lemma MergeSurvivesSweep(store: Store, t: Record, now: int, maxAge: int)
    requires Mergeable(t) && maxAge >= 0
    ensures t["id"] in Sweep(Merge(store, t, now), now, maxAge)
  {
  }
}
