/** The application shell's data: `fetchGazetteData`, which asks the database once per
    date it has no graph for yet and shapes the first record of each answer into the
    graph for that date, and the per-date cache behind `initializeApp` and
    `handleDateChange`. The database is an oracle: `query(date)` is what awaiting
    `session.run` for `date` gives. */
module GazetteData {
  import opened Common
  import opened Dates

  /** One record of the answer for a date: the amended gazette `p` and the gazettes `c`
      that amend it, as the property maps of the nodes. */
  datatype Record = Record(parent: Props, children: seq<Props>)

  /** What awaiting `session.run` for a date gives: a thrown error, or the records. */
  datatype Answer = Threw | Records(records: seq<Record>)

  /** An answer the loop turns into a graph: it has a first record. */
  predicate Found(a: Answer)
  {
    a.Records? && |a.records| > 0
  }

  /** `node.properties[key]`; a property the node lacks reads as `undefined`. */
  function Property(props: Props, key: string): Option<string>
  {
    if key in props then Some(props[key]) else None
  }

  /** The five properties a graph node copies. */
  const DisplayKeys: set<string> := {"name", "date", "description", "gazette_id", "url"}

  /** The display fields of a gazette node. */
  function GazetteOf(props: Props): Gazette
  {
    Gazette(Property(props, "name"), Property(props, "date"), Property(props, "description"),
            Property(props, "gazette_id"), Property(props, "url"))
  }

  /** The display field of a gazette that stands for the property `key`. */
  function Field(g: Gazette, key: string): Option<string>
  {
    if key == "name" then g.name
    else if key == "date" then g.date
    else if key == "description" then g.description
    else if key == "gazette_id" then g.gazetteId
    else if key == "url" then g.url
    else None
  }

  /** The properties a gazette's display fields stand for. */
  function PropsOf(g: Gazette): Props
  {
    map k | k in DisplayKeys && Field(g, k).Some? :: Field(g, k).value
  }

  /** Each display field of a gazette node reads its own property of the database node. */
  lemma FieldOfGazette(props: Props, key: string)
    requires key in DisplayKeys
    ensures Field(GazetteOf(props), key) == Property(props, key)
  {
  }

  /** A graph node keeps exactly the five display properties of its database node: its
      properties are the node's, cut down to those five keys. */
  lemma GazetteKeepsDisplayProps(props: Props)
    ensures PropsOf(GazetteOf(props)) == map k | k in props && k in DisplayKeys :: props[k]
  {
    forall k | k in DisplayKeys {
      FieldOfGazette(props, k);
    }
  }

  /** ... and loses none of them: the fields come back from their properties. */
  lemma GazetteOfProps(g: Gazette)
    ensures GazetteOf(PropsOf(g)) == g
  {
    var m := PropsOf(g);
    assert Property(m, "name") == g.name;
    assert Property(m, "date") == g.date;
    assert Property(m, "description") == g.description;
    assert Property(m, "gazette_id") == g.gazetteId;
    assert Property(m, "url") == g.url;
  }

  /** The graph built from a record: the parent's display fields, then one child entry
      per collected child, in order, each with that child's display fields and no
      children of its own. */
  function GraphOf(r: Record): (g: Graph)
    ensures g.root == GazetteOf(r.parent)
    ensures |g.children| == |r.children|
    ensures forall i :: 0 <= i < |r.children| ==> g.children[i] == GazetteOf(r.children[i])
  {
    Graph(GazetteOf(r.parent), seq(|r.children|, i requires 0 <= i < |r.children| => GazetteOf(r.children[i])))
  }

  /** Where the loop of `fetchGazetteData` stands: the graphs found so far, the dates
      queried so far in order, and whether a query threw. */
  datatype Fetch = Fetch(data: map<string, Graph>, queried: seq<string>, threw: bool)

  /** One turn of the loop for `date`. */
  function Step(f: Fetch, date: string, query: string -> Answer): Fetch
  {
    if f.threw || date in f.data then f
    else
      match query(date)
      case Threw => Fetch(f.data, f.queried + [date], true)
      case Records(rs) =>
        Fetch(if |rs| == 0 then f.data else f.data[date := GraphOf(rs[0])], f.queried + [date], false)
  }

  /** The loop over `dates`, left to right. */
  function Run(dates: seq<string>, query: string -> Answer): Fetch
  {
    if |dates| == 0 then Fetch(map[], [], false)
    else Step(Run(dates[..|dates| - 1], query), dates[|dates| - 1], query)
  }

  /** What `fetchGazetteData(dates)` returns: the graphs found, or `{}` once a query threw. */
  function Fetched(dates: seq<string>, query: string -> Answer): map<string, Graph>
  {
    var f := Run(dates, query);
    if f.threw then map[] else f.data
  }

  /** A thrown query ends the loop: nothing after it changes the outcome. */
  lemma {:induction false} ThrowIsFinal(dates: seq<string>, query: string -> Answer, n: nat)
    requires n <= |dates| && Run(dates[..n], query).threw
    ensures Run(dates, query) == Run(dates[..n], query)
  {
    if n < |dates| {
      var init := dates[..|dates| - 1];
      assert init[..n] == dates[..n];
      ThrowIsFinal(init, query, n);
    } else {
      assert dates[..n] == dates;
    }
  }

  /** Every graph the loop holds for a date is the graph of the first record the
      database gave for that date, which it asked about. */
  ghost predicate SoundData(f: Fetch, query: string -> Answer)
  {
    forall d :: d in f.data ==>
      Found(query(d)) && f.data[d] == GraphOf(query(d).records[0]) && d in f.queried
  }

  /** A date the loop asked about whose answer has a record is in the map, and it asks
      about a date a second time only when the first answer had no record. */
  ghost predicate SoundQueries(f: Fetch, query: string -> Answer)
  {
    && (forall k :: 0 <= k < |f.queried| && Found(query(f.queried[k])) ==> f.queried[k] in f.data)
    && (forall i, j :: 0 <= i < j < |f.queried| && f.queried[i] == f.queried[j] ==>
          !Found(query(f.queried[i])))
  }

  /** The loop has thrown exactly when the last date it asked about threw. */
  ghost predicate SoundThrow(f: Fetch, query: string -> Answer)
  {
    && (forall k :: 0 <= k < |f.queried| - 1 ==> query(f.queried[k]).Records?)
    && (0 < |f.queried| ==> (f.threw <==> query(f.queried[|f.queried| - 1]).Threw?))
    && (|f.queried| == 0 ==> !f.threw)
  }

  /** What the loop holds is sound. */
  ghost predicate Sound(f: Fetch, query: string -> Answer)
  {
    SoundData(f, query) && SoundQueries(f, query) && SoundThrow(f, query)
  }

  /** One turn of the loop keeps its graphs sound. */
  lemma StepSoundData(f: Fetch, date: string, query: string -> Answer)
    requires SoundData(f, query)
    ensures SoundData(Step(f, date, query), query)
  {
  }

  /** One turn of the loop keeps its queries sound. */
  lemma StepSoundQueries(f: Fetch, date: string, query: string -> Answer)
    requires SoundQueries(f, query)
    ensures SoundQueries(Step(f, date, query), query)
  {
    var g := Step(f, date, query);
    if !f.threw && date !in f.data {
      assert g.queried == f.queried + [date];
      assert f.data.Keys <= g.data.Keys;
      forall i, j | 0 <= i < j < |g.queried| && g.queried[i] == g.queried[j]
        ensures !Found(query(g.queried[i]))
      {
        if j == |f.queried| {
          assert f.queried[i] == date;
        }
      }
    }
  }

  /** One turn of the loop keeps the throw accounted for. */
  lemma StepSoundThrow(f: Fetch, date: string, query: string -> Answer)
    requires SoundThrow(f, query)
    ensures SoundThrow(Step(f, date, query), query)
  {
    var g := Step(f, date, query);
    if !f.threw && date !in f.data {
      assert g.queried == f.queried + [date];
      assert 0 < |f.queried| ==> query(f.queried[|f.queried| - 1]).Records?;
    }
  }

  /** One turn of the loop keeps what it holds sound. */
  lemma StepSound(f: Fetch, date: string, query: string -> Answer)
    requires Sound(f, query)
    ensures Sound(Step(f, date, query), query)
  {
    StepSoundData(f, date, query);
    StepSoundQueries(f, date, query);
    StepSoundThrow(f, date, query);
  }

  /** The loop over `dates` is sound and asks only about dates of `dates`. */
  lemma {:induction false} RunSound(dates: seq<string>, query: string -> Answer)
    ensures Sound(Run(dates, query), query)
    ensures forall k :: 0 <= k < |Run(dates, query).queried| ==> Run(dates, query).queried[k] in dates
  {
    if |dates| > 0 {
      var init := dates[..|dates| - 1];
      RunSound(init, query);
      StepSound(Run(init, query), dates[|dates| - 1], query);
      assert forall k :: 0 <= k < |init| ==> init[k] in dates;
    }
  }

  /** When no query threw, the loop finds a graph for exactly the dates whose answer has
      a record. */
  lemma {:induction false} RunComplete(dates: seq<string>, query: string -> Answer)
    requires !Run(dates, query).threw
    ensures forall d :: d in dates ==> (d in Run(dates, query).data <==> Found(query(d)))
  {
    RunSound(dates, query);
    if |dates| > 0 {
      var init := dates[..|dates| - 1];
      var date := dates[|dates| - 1];
      assert !Run(init, query).threw;
      RunComplete(init, query);
      assert Run(init, query).data.Keys <= Run(dates, query).data.Keys;
      forall d | d in dates ensures d in Run(dates, query).data <==> Found(query(d)) {
        if d != date {
          var k :| 0 <= k < |dates| && dates[k] == d;
          assert init[k] == d;
        }
      }
    }
  }

  /** What a fetch returns: only graphs for dates of `dates`, each the graph of the first
      record of that date's answer; a graph for every such date whose answer has a
      record, unless a query threw, in which case nothing at all. */
  lemma FetchedGraphs(dates: seq<string>, query: string -> Answer)
    ensures forall d :: d in Fetched(dates, query) ==>
              d in dates && Found(query(d)) && Fetched(dates, query)[d] == GraphOf(query(d).records[0])
    ensures !Run(dates, query).threw ==>
              forall d :: d in dates && Found(query(d)) ==> d in Fetched(dates, query)
    ensures Run(dates, query).threw ==> Fetched(dates, query) == map[]
  {
    RunSound(dates, query);
    if !Run(dates, query).threw {
      RunComplete(dates, query);
    }
  }

  /** `fetchGazetteData(dates)`: returns the graphs found and the dates it queried, in
      order. */
  method FetchGazetteData(dates: seq<string>, query: string -> Answer)
    returns (allData: map<string, Graph>, queried: seq<string>)
    ensures allData == Fetched(dates, query)
    ensures queried == Run(dates, query).queried
  {
    allData, queried := map[], [];
    for i := 0 to |dates|
      invariant Run(dates[..i], query) == Fetch(allData, queried, false)
    {
      assert dates[..i + 1][..i] == dates[..i];
      var date := dates[i];
      if date in allData {
        continue;
      }
      var answer := query(date);
      queried := queried + [date];
      if answer.Threw? {
        ThrowIsFinal(dates, query, i + 1);
        return map[], queried;
      }
      if |answer.records| == 0 {
        continue;
      }
      allData := allData[date := GraphOf(answer.records[0])];
    }
    assert dates[..|dates|] == dates;
  }

  /** `obj[date]` of a returned map: the graph, or `undefined`. */
  function Lookup(m: map<string, Graph>, date: string): Option<Graph>
  {
    if date in m then Some(m[date]) else None
  }

  /** Fetching a single date gives at most that date's graph, and gives it exactly when
      the database's answer has a record. */
  lemma FetchOne(date: string, query: string -> Answer)
    ensures Fetched([date], query).Keys <= {date}
    ensures Lookup(Fetched([date], query), date) ==
              if Found(query(date)) then Some(GraphOf(query(date).records[0])) else None
  {
    assert [date][..0] == [];
    assert Run([date], query) == Step(Fetch(map[], [], false), date, query);
  }

  /** A fetch's answer as the cache stores it: every key the answer has, holding its graph. */
  function Lift(m: map<string, Graph>): (c: map<string, Option<Graph>>)
  {
    map k | k in m :: Some(m[k])
  }

  /** Every graph a cache holds is the graph the database gives for its date. */
  ghost predicate CachedFor(cache: map<string, Option<Graph>>, query: string -> Answer)
  {
    forall d :: d in cache && cache[d].Some? ==>
      Found(query(d)) && cache[d].value == GraphOf(query(d).records[0])
  }

  /** The answer of any fetch, stored as the cache, is a sound cache. */
  lemma LiftCached(dates: seq<string>, query: string -> Answer)
    ensures CachedFor(Lift(Fetched(dates, query)), query)
  {
    RunSound(dates, query);
  }

  /** The application shell's date state: the dates of the dates file, the per-date
      cache `allData` (a key can hold `undefined`), the tree on display and the loading
      flag. */
  class App {
    const query: string -> Answer
    var gazetteDates: seq<string>
    var allData: map<string, Option<Graph>>
    var treeData: Option<Graph>
    var loading: bool

    /** Every graph the cache holds is the graph the database gives for its date. */
    ghost predicate Cached()
      reads this`allData
    {
      CachedFor(allData, query)
    }

    /** The state before the first effect runs. */
    constructor (query: string -> Answer)
      ensures this.query == query
      ensures gazetteDates == [] && allData == map[] && treeData == None && loading
      ensures Cached()
    {
      this.query := query;
      gazetteDates, allData, treeData, loading := [], map[], None, true;
    }

    /** `initializeApp`, given the text of the dates file (`None` when reading it threw,
        which yields no dates): list the dates and, when there are any, fetch the initial
        date, make the answer the whole cache and show its graph. Returns the dates it
        queried. */
    method Initialize(text: Option<string>) returns (queried: seq<string>)
      requires Cached()
      modifies this`gazetteDates, this`allData, this`treeData, this`loading
      ensures Cached()
      ensures gazetteDates == if text.Some? then ParseDates(text.value) else []
      ensures |gazetteDates| == 0 ==>
                allData == old(allData) && treeData == old(treeData) && loading == old(loading) && queried == []
      ensures |gazetteDates| > 0 ==>
                var d := InitialDate(gazetteDates).value;
                && queried == [d] && !loading
                && allData == Lift(Fetched([d], query))
                && treeData == Lookup(Fetched([d], query), d)
    {
      gazetteDates := if text.Some? then ParseDates(text.value) else [];
      queried := [];
      if |gazetteDates| > 0 {
        var initialDate := InitialDate(gazetteDates).value;
        var initialData;
        initialData, queried := FetchGazetteData([initialDate], query);
        LiftCached([initialDate], query);
        allData := Lift(initialData);
        treeData := Lookup(initialData, initialDate);
        loading := false;
      }
    }

    /** `handleDateChange(date)`: serve the cached graph when the cache holds one for the
        date; otherwise fetch the date, store the answer's graph (or `undefined`) under
        it and show it. Either way the tree shown is the one a fetch would give, and
        only the entry for `date` can change. Returns the dates it queried. */
    method HandleDateChange(date: string) returns (queried: seq<string>)
      requires Cached()
      modifies this`allData, this`treeData, this`loading
      ensures Cached()
      ensures treeData == Lookup(Fetched([date], query), date)
      ensures !loading
      ensures date in old(allData) && old(allData)[date].Some? ==>
                allData == old(allData) && queried == [] && treeData == old(allData)[date]
      ensures date !in old(allData) || old(allData)[date].None? ==>
                allData == old(allData)[date := treeData] && queried == [date]
    {
      loading := true;
      FetchOne(date, query);
      if date !in allData || allData[date].None? {
        var newData;
        newData, queried := FetchGazetteData([date], query);
        assert queried == [date] by {
          assert [date][..0] == [];
        }
        allData := allData[date := Lookup(newData, date)];
        treeData := Lookup(newData, date);
      } else {
        queried := [];
        treeData := allData[date];
      }
      loading := false;
    }
  }
}
