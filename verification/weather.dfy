/**
 The weather store: a map from timestamp to the weather sample taken at that
 timestamp, `Weather::add` (insert or replace) and `Weather::get` (the sample
 whose timestamp is nearest to a query).
 */
module Weather {
  import opened Optional
  import opened I64
  import opened Nearest

  /** Where a sample was taken; carried, never inspected. */
  datatype Position = Position(city: string, country: string, state: string)

  /** One weather sample, keyed by its own `timestamp`; the readings are carried, never inspected. */
  datatype WeatherData = WeatherData(
    timestamp: Int64,
    temperature: real,
    pressure: real,
    windSpeed: real,
    position: Position)

  /** The store's invariant: each sample sits at the key equal to its own timestamp. */
  ghost predicate KeyedByTimestamp(records: map<Int64, WeatherData>)
  {
    forall t :: t in records ==> records[t].timestamp == t
  }

  /**
   The effect of `insert(data.timestamp, data)`: the sample is stored at its
   timestamp, replacing whatever was there, every other entry is kept, and the
   map grows by one exactly when the timestamp is new.
   */
  function Put(records: map<Int64, WeatherData>, data: WeatherData): (r: map<Int64, WeatherData>)
    ensures r.Keys == records.Keys + {data.timestamp}
    ensures r[data.timestamp] == data
    ensures forall t :: t in records && t != data.timestamp ==> r[t] == records[t]
    ensures |r| == if data.timestamp in records then |records| else |records| + 1
    ensures KeyedByTimestamp(records) ==> KeyedByTimestamp(r)
  {
    var r := records[data.timestamp := data];
    assert data.timestamp in records ==> r.Keys == records.Keys;
    assert data.timestamp !in records ==> r.Keys == records.Keys + {data.timestamp};
    r
  }

  /** The shared state behind the mutex: one map, created empty, changed only by `Add`. */
  class Store {
    var records: map<Int64, WeatherData>

    ghost predicate Valid()
      reads this
    {
      KeyedByTimestamp(records)
    }

    constructor ()
      ensures Valid()
      ensures records == map[]
    {
      records := map[];
    }

    /** `Weather::add`: store `data` at its timestamp, replacing any earlier sample there. */
    method Add(data: WeatherData)
      requires Valid()
      modifies this
      ensures Valid()
      ensures records == Put(old(records), data)
    {
      records := records[data.timestamp := data];
    }
  }

  /** `order` lists the keys of `records`, each once, in the map's iteration order. */
  ghost predicate IsIterationOrder(order: seq<Int64>, records: map<Int64, WeatherData>)
  {
    && (forall t :: t in order <==> t in records)
    && (forall i, j :: 0 <= i < j < |order| ==> order[i] != order[j])
  }

  /** The answer of `Weather::get`: the sample as the body of a 200 response, or a 404. */
  datatype Response = Found(data: WeatherData) | NotFound

  /**
   `Weather::get`: the sample whose timestamp is nearest to `query`, ties going
   to the key met first in iteration order; not found exactly when the store
   is empty, so the not-found answer after a key was chosen cannot happen.
   */
  function Get(records: map<Int64, WeatherData>, order: seq<Int64>, query: Int64): (r: Response)
    requires IsIterationOrder(order, records)
    ensures r.NotFound? <==> records == map[]
    ensures r.Found? ==> r.data in records.Values
    ensures forall i :: FirstNearest(order, query, i) ==> r == Found(records[order[i]])
    ensures KeyedByTimestamp(records) && r.Found? ==>
      && r.data.timestamp in records
      && records[r.data.timestamp] == r.data
      && forall t :: t in records ==> Dist(r.data.timestamp, query) <= Dist(t, query)
  {
    var r := match Closest(order, query)
      case None => NotFound
      case Some(t) => if t in records then Found(records[t]) else NotFound;
    assert records == map[] ==> order == [] by {
      if order != [] { assert order[0] in order; }
    }
    forall i | FirstNearest(order, query, i) ensures r == Found(records[order[i]]) {
      FirstNearestWins(order, query, i);
    }
    r
  }

  /** Right after `Add(data)`, a query at `data.timestamp` returns `data`: distance 0 beats every other key. */
  lemma GetAfterAdd(records: map<Int64, WeatherData>, data: WeatherData, order: seq<Int64>)
    requires IsIterationOrder(order, Put(records, data))
    ensures Get(Put(records, data), order, data.timestamp) == Found(data)
  {
  }

  /** Adding twice at one timestamp leaves only the second sample there. */
  lemma SecondAddReplaces(records: map<Int64, WeatherData>, first: WeatherData, second: WeatherData)
    requires first.timestamp == second.timestamp
    ensures Put(Put(records, first), second) == Put(records, second)
  {
  }

  /** The store after a sequence of `Add` calls, in call order. */
  function PutAll(records: map<Int64, WeatherData>, added: seq<WeatherData>): (r: map<Int64, WeatherData>)
    ensures |records| <= |r| <= |records| + |added|
    ensures KeyedByTimestamp(records) ==> KeyedByTimestamp(r)
    decreases |added|
  {
    if added == [] then records
    else Put(PutAll(records, added[..|added| - 1]), added[|added| - 1])
  }

  /** The last sample in `added` with timestamp `t`, if any. */
  function LastAt(added: seq<WeatherData>, t: Int64): (r: Option<WeatherData>)
    ensures r.Some? ==> r.value in added && r.value.timestamp == t
    ensures r.None? ==> forall d :: d in added ==> d.timestamp != t
    decreases |added|
  {
    if added == [] then None
    else if added[|added| - 1].timestamp == t then Some(added[|added| - 1])
    else
      var r := LastAt(added[..|added| - 1], t);
      assert forall d :: d in added ==> d in added[..|added| - 1] || d == added[|added| - 1];
      r
  }

  /**
   After any sequence of adds, a timestamp is stored exactly when it was
   stored before or some add used it, and the sample stored there is the last
   one added with that timestamp.
   */
  lemma {:induction false} PutAllKeepsLast(records: map<Int64, WeatherData>, added: seq<WeatherData>, t: Int64)
    ensures t in PutAll(records, added) <==> t in records || LastAt(added, t).Some?
    ensures t in PutAll(records, added) ==>
      PutAll(records, added)[t] == if LastAt(added, t).Some? then LastAt(added, t).value else records[t]
    decreases |added|
  {
    if added != [] {
      PutAllKeepsLast(records, added[..|added| - 1], t);
    }
  }

  /** Adds at distinct new timestamps each leave one more entry: none is lost. */
  lemma {:induction false} PutAllDistinctGrows(records: map<Int64, WeatherData>, added: seq<WeatherData>)
    requires forall d :: d in added ==> d.timestamp !in records
    requires forall i, j :: 0 <= i < j < |added| ==> added[i].timestamp != added[j].timestamp
    ensures |PutAll(records, added)| == |records| + |added|
    decreases |added|
  {
    if added != [] {
      var init := added[..|added| - 1];
      var last := added[|added| - 1];
      PutAllDistinctGrows(records, init);
      PutAllKeepsLast(records, init, last.timestamp);
      assert last.timestamp !in PutAll(records, init);
    }
  }

}
