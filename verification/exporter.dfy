/**
  `WebExporter`: the run flag and input queue, the per-item handler, and one
  pass of the processing loop (drain the queue in order, handle every item,
  then sweep the archive). The archive is passed in and returned instead of
  living in a global, and the clock reading is the parameter `now`.
*/
module Exporter {
  import opened Telemetry
  import opened TrackStore
  import opened Wrappers

  /** The constructor argument is multiplied by 60 before it is stored. */
  const MaxAgeScale: int := 60

  /** The default constructor argument, `max_age = 120`. */
  const DefaultMaxAge: int := 120

  datatype Exporter = Exporter(maxAge: int, queue: seq<Input>, running: bool)

  /** What handling some queued items produced: the new archive, the
      `telemetry_event` payloads in emission order, and the logged rejections. */
  datatype Batch = Batch(store: Store, emitted: seq<Record>, errors: seq<Rejection>)

  datatype AddResult = AddResult(exporter: Exporter, discarded: bool)

  datatype TickResult = TickResult(exporter: Exporter, batch: Batch)

  /** `WebExporter.__init__`: running, with an empty queue. */
  function Create(maxAge: int): (r: Exporter)
    ensures r.running && r.queue == []
    ensures r.maxAge == maxAge * MaxAgeScale
  {
    Exporter(maxAge * MaxAgeScale, [], true)
  }

  /** `add`: queue the item while running; afterwards log and discard it. */
  function Add(e: Exporter, item: Input): (r: AddResult)
    ensures e.running ==> r.exporter.queue == e.queue + [item] && !r.discarded
    ensures !e.running ==> r.exporter == e && r.discarded
    ensures r.exporter.running == e.running && r.exporter.maxAge == e.maxAge
  {
    if e.running then AddResult(e.(queue := e.queue + [item]), false)
    else AddResult(e, true)
  }

  /** `close`: clear the run flag; nothing else changes. */
  function Close(e: Exporter): (r: Exporter)
    ensures !r.running
    ensures r.queue == e.queue && r.maxAge == e.maxAge
  {
    e.(running := false)
  }

  /** `handle_telemetry` for one queued item. */
  function HandleTelemetry(store: Store, item: Input, now: int): (b: Batch)
    ensures Validate(item).Invalid? ==>
      b.store == store && b.emitted == [] && b.errors == [Validate(item).reason]
    ensures Validate(item).Valid? ==>
      b.emitted == [Strip(item.fields)] && b.errors == []
      && b.store == Merge(store, Strip(item.fields), now)
  {
    match Validate(item)
    case Invalid(reason) => Batch(store, [], [reason])
    case Valid(t) => Batch(Merge(store, t, now), [t], [])
  }

  /** The records of `items` that pass validation, stripped, in queue order. */
  function Accepted(items: seq<Input>): (rs: seq<Record>)
    ensures forall i :: 0 <= i < |rs| ==> Mergeable(rs[i])
    ensures |rs| <= |items|
  {
    if |items| == 0 then []
    else match Validate(items[0])
      case Valid(t) => [t] + Accepted(items[1..])
      case Invalid(_) => Accepted(items[1..])
  }

  /** The rejection reasons of `items`, in queue order. */
  function Rejections(items: seq<Input>): seq<Rejection>
  {
    if |items| == 0 then []
    else match Validate(items[0])
      case Valid(_) => Rejections(items[1..])
      case Invalid(reason) => [reason] + Rejections(items[1..])
  }

  /** The positions reported for `id` by the given accepted records, in order. */
  function TrackOf(rs: seq<Record>, id: Value): seq<Point>
  {
    if |rs| == 0 then []
    else if Mergeable(rs[0]) && rs[0]["id"] == id then [PointOf(rs[0])] + TrackOf(rs[1..], id)
    else TrackOf(rs[1..], id)
  }

  /** The ids the given accepted records name. */
  function IdsOf(rs: seq<Record>): set<Value>
  {
    set i | 0 <= i < |rs| && "id" in rs[i] :: rs[i]["id"]
  }

  /** The inner `while not self.input_queue.empty()` loop: handle items front to back. */
  function HandleBatch(store: Store, items: seq<Input>, now: int): (b: Batch)
    ensures b.emitted == Accepted(items)
    ensures b.errors == Rejections(items)
    ensures |b.emitted| + |b.errors| == |items|
    ensures b.store.Keys == store.Keys + IdsOf(Accepted(items))
    ensures forall id :: id in store && id !in IdsOf(Accepted(items)) ==> b.store[id] == store[id]
    decreases |items|
  {
    if |items| == 0 then Batch(store, [], [])
    else
      var h := HandleTelemetry(store, items[0], now);
      var rest := HandleBatch(h.store, items[1..], now);
      assert Accepted(items) == h.emitted + Accepted(items[1..]);
      IdsOfConcat(h.emitted, Accepted(items[1..]));
      HandleTelemetryKeys(store, items[0], now);
      Batch(rest.store, h.emitted + rest.emitted, h.errors + rest.errors)
  }

  /** One handled item adds at most its own id to the archive and touches no other entry. */
  lemma HandleTelemetryKeys(store: Store, item: Input, now: int)
    ensures var h := HandleTelemetry(store, item, now);
      h.store.Keys == store.Keys + IdsOf(h.emitted)
      && forall id :: id in store && id !in IdsOf(h.emitted) ==> h.store[id] == store[id]
  {
    var h := HandleTelemetry(store, item, now);
    if h.emitted != [] {
      assert IdsOf(h.emitted) == {h.emitted[0]["id"]};
    }
  }

  lemma IdsOfConcat(a: seq<Record>, b: seq<Record>)
    ensures IdsOf(a + b) == IdsOf(a) + IdsOf(b)
  {
    var ab := a + b;
    forall x | x in IdsOf(ab) ensures x in IdsOf(a) + IdsOf(b) {
      var i :| 0 <= i < |ab| && "id" in ab[i] && ab[i]["id"] == x;
      if i < |a| { assert ab[i] == a[i]; } else { assert ab[i] == b[i - |a|]; }
    }
    forall x | x in IdsOf(a) + IdsOf(b) ensures x in IdsOf(ab) {
      if x in IdsOf(a) {
        var i :| 0 <= i < |a| && "id" in a[i] && a[i]["id"] == x;
        assert ab[i] == a[i];
      } else {
        var i :| 0 <= i < |b| && "id" in b[i] && b[i]["id"] == x;
        assert ab[|a| + i] == b[i];
      }
    }
  }

  /**
    One pass of `process_queue`'s outer loop body: every queued item is
    handled in FIFO order, then the archive is swept at `now`.
  */
  function ProcessIteration(queue: seq<Input>, store: Store, now: int, maxAge: int): (b: Batch)
    ensures b.emitted == Accepted(queue) && b.errors == Rejections(queue)
    ensures |b.emitted| + |b.errors| == |queue|
    ensures b.store == Sweep(HandleBatch(store, queue, now).store, now, maxAge)
    ensures Fresh(b.store, now, maxAge)
  {
    var h := HandleBatch(store, queue, now);
    Batch(Sweep(h.store, now, maxAge), h.emitted, h.errors)
  }

  /**
    One turn of the worker thread: while the run flag is set, the queue is
    drained and processed; once it is cleared the loop has exited and
    nothing happens, so items still queued are never handled.
  */
  function Tick(e: Exporter, store: Store, now: int): (r: TickResult)
    ensures r.exporter.running == e.running && r.exporter.maxAge == e.maxAge
    ensures e.running ==> r.exporter.queue == []
    ensures e.running ==>
      r.batch.emitted == Accepted(e.queue) && r.batch.errors == Rejections(e.queue)
    ensures e.running ==> Fresh(r.batch.store, now, e.maxAge)
    ensures e.running ==> r.batch.store.Keys <= store.Keys + IdsOf(Accepted(e.queue))
    ensures !e.running ==> r.exporter.queue == e.queue
    ensures !e.running ==>
      r.batch.store == store && r.batch.emitted == [] && r.batch.errors == []
  {
    if e.running then TickResult(e.(queue := []), ProcessIteration(e.queue, store, now, e.maxAge))
    else TickResult(e, Batch(store, [], []))
  }

  /** The last of the given accepted records that names `id`. */
  function LatestFor(rs: seq<Record>, id: Value): Option<Record>
  {
    if |rs| == 0 then None
    else match LatestFor(rs[1..], id)
      case Some(r) => Some(r)
      case None => if "id" in rs[0] && rs[0]["id"] == id then Some(rs[0]) else None
  }

  /** An id has a non-empty track exactly when some accepted record names it. */
  lemma {:induction false} TrackOfNonEmpty(rs: seq<Record>, id: Value)
    requires forall i :: 0 <= i < |rs| ==> Mergeable(rs[i])
    ensures TrackOf(rs, id) != [] <==> id in IdsOf(rs)
    ensures LatestFor(rs, id).Some? <==> id in IdsOf(rs)
  {
    if |rs| > 0 {
      TrackOfNonEmpty(rs[1..], id);
      if id in IdsOf(rs[1..]) {
        var i :| 0 <= i < |rs[1..]| && "id" in rs[1..][i] && rs[1..][i]["id"] == id;
        assert rs[i + 1] == rs[1..][i];
      }
      if id in IdsOf(rs) && rs[0]["id"] != id {
        var i :| 0 <= i < |rs| && "id" in rs[i] && rs[i]["id"] == id;
        assert rs[1..][i - 1] == rs[i];
      }
    }
  }

  /**
    What a batch does to one id: if some accepted record names it, its path
    is its earlier path followed by those records' points in order, its
    latest record is the last of them and its timestamp is `now`; otherwise
    it is left exactly as it was.
  */
  ghost predicate Tracked(before: Store, after: Store, rs: seq<Record>, id: Value, now: int)
  {
    if TrackOf(rs, id) != [] then
      id in after
      && after[id].path == PriorPath(before, id) + TrackOf(rs, id)
      && LatestFor(rs, id) == Some(after[id].latest)
      && after[id].timestamp == now
    else
      (id in after <==> id in before) && (id in before ==> after[id] == before[id])
  }

  /** Merging one record in front of a batch keeps `Tracked`. */
  lemma TrackedStep(store: Store, t: Record, rest: seq<Record>, after: Store, id: Value, now: int)
    requires Mergeable(t)
    requires forall i :: 0 <= i < |rest| ==> Mergeable(rest[i])
    requires Tracked(Merge(store, t, now), after, rest, id, now)
    ensures Tracked(store, after, [t] + rest, id, now)
  {
    var rs := [t] + rest;
    assert rs[0] == t && rs[1..] == rest;
    TrackOfNonEmpty(rest, id);
    if t["id"] == id {
      assert TrackOf(rs, id) == [PointOf(t)] + TrackOf(rest, id);
      assert PriorPath(Merge(store, t, now), id) == PriorPath(store, id) + [PointOf(t)];
    } else {
      assert TrackOf(rs, id) == TrackOf(rest, id);
      assert LatestFor(rs, id) == LatestFor(rest, id);
    }
  }

  /**
    The history property of the archive, for any id and any batch: see
    `Tracked`.
  */
  lemma {:induction false} BatchTrack(store: Store, items: seq<Input>, now: int, id: Value)
    ensures Tracked(store, HandleBatch(store, items, now).store, Accepted(items), id, now)
    decreases |items|
  {
    if |items| > 0 {
      var after := HandleBatch(store, items, now).store;
      var h := HandleTelemetry(store, items[0], now);
      assert after == HandleBatch(h.store, items[1..], now).store;
      BatchTrack(h.store, items[1..], now, id);
      match Validate(items[0])
      case Invalid(_) =>
        assert Accepted(items) == Accepted(items[1..]);
      case Valid(t) =>
        assert Accepted(items) == [t] + Accepted(items[1..]);
        TrackedStep(store, t, Accepted(items[1..]), after, id, now);
    }
  }

  /**
    Records r1..rn for one new id, all valid and handled in one pass, leave
    `path == [pt(r1), ..., pt(rn)]` and `latest == rn` (stripped), and the
    entry survives the sweep that ends the pass.
  */
  lemma SingleTrackHistory(store: Store, items: seq<Input>, now: int, maxAge: int, id: Value)
    requires id !in store && maxAge >= 0 && |items| > 0
    requires forall i :: 0 <= i < |items| ==>
      Validate(items[i]).Valid? && Validate(items[i]).telem["id"] == id
    ensures var s := ProcessIteration(items, store, now, maxAge).store;
      id in s
      && |s[id].path| == |items|
      && (forall i :: 0 <= i < |items| ==> s[id].path[i] == PointOf(Validate(items[i]).telem))
      && s[id].latest == Validate(items[|items| - 1]).telem
  {
    AllValidTrack(items, id);
    BatchTrack(store, items, now, id);
  }

  lemma {:induction false} AllValidTrack(items: seq<Input>, id: Value)
    requires |items| > 0
    requires forall i :: 0 <= i < |items| ==>
      Validate(items[i]).Valid? && Validate(items[i]).telem["id"] == id
    ensures |TrackOf(Accepted(items), id)| == |items|
    ensures forall i :: 0 <= i < |items| ==>
      TrackOf(Accepted(items), id)[i] == PointOf(Validate(items[i]).telem)
    ensures LatestFor(Accepted(items), id) == Some(Validate(items[|items| - 1]).telem)
  {
    var t := Validate(items[0]).telem;
    var rest := Accepted(items[1..]);
    assert Accepted(items) == [t] + rest;
    assert ([t] + rest)[0] == t && ([t] + rest)[1..] == rest;
    if |items| > 1 {
      AllValidTrack(items[1..], id);
      assert items[|items| - 1] == items[1..][|items[1..]| - 1];
      forall i | 0 <= i < |items|
        ensures TrackOf(Accepted(items), id)[i] == PointOf(Validate(items[i]).telem)
      {
        if i > 0 { assert items[i] == items[1..][i - 1]; }
      }
    } else {
      assert items[1..] == [];
    }
  }

  /** Invalid items never create or change an entry, however often they are fed. */
  lemma {:induction false} RejectedBatchLeavesStore(store: Store, items: seq<Input>, now: int)
    requires forall i :: 0 <= i < |items| ==> Validate(items[i]).Invalid?
    ensures HandleBatch(store, items, now).store == store
    ensures HandleBatch(store, items, now).emitted == []
    ensures |HandleBatch(store, items, now).errors| == |items|
  {
    if |items| > 0 {
      RejectedBatchLeavesStore(store, items[1..], now);
      assert Accepted(items) == Accepted(items[1..]);
    }
  }

  /** Adding several items in order, as a producer does. */
  function AddAll(e: Exporter, items: seq<Input>): Exporter
    decreases |items|
  {
    if |items| == 0 then e else AddAll(Add(e, items[0]).exporter, items[1..])
  }

  /** While running, added items join the queue tail in order. */
  lemma {:induction false} AddAllWhileRunning(e: Exporter, items: seq<Input>)
    requires e.running
    ensures AddAll(e, items) == e.(queue := e.queue + items)
    decreases |items|
  {
    if |items| > 0 {
      AddAllWhileRunning(Add(e, items[0]).exporter, items[1..]);
      assert e.queue + [items[0]] + items[1..] == e.queue + items;
    }
  }

  /** After `close`, every further `add` is discarded. */
  lemma {:induction false} AddAllAfterClose(e: Exporter, items: seq<Input>)
    ensures AddAll(Close(e), items) == Close(e)
    decreases |items|
  {
    if |items| > 0 {
      AddAllAfterClose(e, items[1..]);
    }
  }

  /**
    Enqueue-then-drain: items added while running are all handled by the
    next pass, in order, each either emitted or rejected, and the queue is
    left empty.
  */
  lemma EnqueueThenDrain(e: Exporter, items: seq<Input>, store: Store, now: int)
    requires e.running
    ensures var r := Tick(AddAll(e, items), store, now);
      r.exporter.queue == []
      && r.batch.emitted == Accepted(e.queue + items)
      && r.batch.errors == Rejections(e.queue + items)
      && |r.batch.emitted| + |r.batch.errors| == |e.queue| + |items|
  {
    AddAllWhileRunning(e, items);
  }

  /**
    The age threshold of a new exporter is its argument times 60: an entry
    survives a pass exactly when it is at most that old.
  */
  lemma CreateThreshold(maxAge: int, store: Store, now: int, id: Value)
    requires id in store
    ensures id in Tick(Create(maxAge), store, now).batch.store
      <==> now - store[id].timestamp <= maxAge * 60
  {
  }

  /** With the default argument `max_age = 120`, entries are kept 7200 time units. */
  lemma DefaultThreshold()
    ensures Create(DefaultMaxAge).maxAge == 7200
  {
  }
}
