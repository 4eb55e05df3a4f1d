/** Translating a Scout search builder into the client's search parameters
    (`search`, `paginate` and the parameter-building part of `performSearch`).

    The engine first collects an options array, drops its falsy entries with
    `array_filter`, quotes a string query, and then makes calls on the
    client's parameter builder: sort calls first, then one filter call per
    `where`. The client itself, and what it does with these calls, is not part
    of this model: the result is the options plus the list of calls. */
module SearchTranslation {
  import opened Optional
  import opened PhpValues
  import opened PhpArrays
  import opened PhpStrings
  import opened IndexNames

  /** `SearchParamsBuilder::SORT_INCREASE` and `SORT_DECREASE`. */
  datatype SortDirection = Increase | Decrease

  /** One entry of `$builder->orders`. */
  datatype Order = Order(column: string, direction: string)

  /** The parts of a Scout builder the engine reads: the model's
      `searchableAs()`, `query`, `limit`, `orders` and `wheres`. */
  datatype Builder = Builder(searchableAs: string, query: Value, limit: Value, orders: seq<Order>, wheres: Assoc)

  /** A call on the client's parameter builder. */
  datatype ParamCall = AddSort(field: string, sortDirection: SortDirection) | SetFilter(filter: string)

  /** The options the parameter builder is constructed with, and the calls
      then made on it, in order. */
  datatype SearchParams = SearchParams(options: Assoc, calls: seq<ParamCall>)

  /** The options array `search` and `paginate` build before filtering, for
      the application name `app`. */
  function RawOptions(query: Value, hits: Value, app: string, start: int): Assoc
  {
    [("query", query), ("hits", hits), ("appName", Str(app)), ("format", Str("fulljson")), ("start", Int(start))]
  }

  lemma RawOptionsLookups(query: Value, hits: Value, app: string, start: int)
    ensures DistinctKeys(RawOptions(query, hits, app, start))
    ensures Lookup(RawOptions(query, hits, app, start), "query") == Some(query)
    ensures Lookup(RawOptions(query, hits, app, start), "hits") == Some(hits)
    ensures Lookup(RawOptions(query, hits, app, start), "appName") == Some(Str(app))
    ensures Lookup(RawOptions(query, hits, app, start), "format") == Some(Str("fulljson"))
    ensures Lookup(RawOptions(query, hits, app, start), "start") == Some(Int(start))
  {
    var a := RawOptions(query, hits, app, start);
    RawOptionsDistinct(a, query, hits, app, start);
    LookupAt(a, "query", 0);
    LookupAt(a, "hits", 1);
    LookupAt(a, "appName", 2);
    LookupAt(a, "format", 3);
    LookupAt(a, "start", 4);
  }

  lemma RawOptionsDistinct(a: Assoc, query: Value, hits: Value, app: string, start: int)
    requires a == RawOptions(query, hits, app, start)
    ensures DistinctKeys(a)
  {
    assert "query" != "start" by {
      assert "query"[0] != "start"[0];
    }
  }

  /** The five option names `search` and `paginate` build. */
  predicate OptionName(k: string)
  {
    k == "query" || k == "hits" || k == "appName" || k == "format" || k == "start"
  }

  /** `array_filter` of the raw options: the format is always kept, each
      other entry is kept exactly when its value is truthy, and no other
      option appears. */
  function FilteredOptions(b: Builder, hits: Value, start: int): (opts: Assoc)
    ensures Lookup(opts, "format") == Some(Str("fulljson"))
    ensures Lookup(opts, "query") == (if Truthy(b.query) then Some(b.query) else None)
    ensures Lookup(opts, "hits") == (if Truthy(hits) then Some(hits) else None)
    ensures Lookup(opts, "appName") == (if Truthy(Str(AppName(b.searchableAs))) then Some(Str(AppName(b.searchableAs))) else None)
    ensures Lookup(opts, "start") == (if start != 0 then Some(Int(start)) else None)
    ensures forall e :: e in opts ==> OptionName(e.0)
  {
    var raw := RawOptions(b.query, hits, AppName(b.searchableAs), start);
    assert forall e :: e in raw ==> OptionName(e.0);
    RawOptionsLookups(b.query, hits, AppName(b.searchableAs), start);
    ArrayFilterLookup(raw, "query");
    ArrayFilterLookup(raw, "hits");
    ArrayFilterLookup(raw, "appName");
    ArrayFilterLookup(raw, "format");
    ArrayFilterLookup(raw, "start");
    assert Truthy(Str("fulljson")) by {
      assert |"fulljson"| != |"0"|;
    }
    ArrayFilter(raw)
  }

  /** The filtered options hold each name once, and only truthy values. */
  lemma FilteredOptionsAreTruthy(b: Builder, hits: Value, start: int)
    ensures DistinctKeys(FilteredOptions(b, hits, start))
    ensures forall e :: e in FilteredOptions(b, hits, start) ==> Truthy(e.1)
  {
    RawOptionsLookups(b.query, hits, AppName(b.searchableAs), start);
  }

  /** `$perPage * ($page - 1)`: the offset of the first hit of a 1-based page. */
  function PageStart(perPage: int, page: int): (start: int)
    ensures page >= 1 && perPage >= 0 ==> start >= 0
    ensures page == 1 ==> start == 0
  {
    perPage * (page - 1)
  }

  /** Consecutive pages are adjacent: each starts where the previous one ends. */
  lemma PagesAreAdjacent(perPage: int, page: int)
    ensures PageStart(perPage, page + 1) == PageStart(perPage, page) + perPage
  {
  }

  /** `"'" . $q . "'"` for a string query; any other query is left alone. */
  function QuoteQuery(q: Value): (r: Value)
    ensures q.Str? ==> r == Str(Quote(q.s))
    ensures !q.Str? ==> r == q
  {
    if q.Str? then Str(Quote(q.s)) else q
  }

  predicate Recognised(o: Order)
  {
    o.direction == "asc" || o.direction == "desc"
  }

  function DirectionOf(o: Order): SortDirection
    requires Recognised(o)
  {
    if o.direction == "desc" then Decrease else Increase
  }

  /** The sort calls for a non-empty `orders`: one per order whose direction is
      `asc` or `desc`, in order; orders with any other direction are skipped. */
  function OrderSorts(orders: seq<Order>): (calls: seq<ParamCall>)
    ensures |calls| <= |orders|
    ensures forall i :: 0 <= i < |calls| ==> calls[i].AddSort?
    ensures (forall j :: 0 <= j < |orders| ==> Recognised(orders[j])) ==>
              |calls| == |orders| &&
              forall i :: 0 <= i < |calls| ==> calls[i] == AddSort(orders[i].column, DirectionOf(orders[i]))
    ensures (forall j :: 0 <= j < |orders| ==> !Recognised(orders[j])) ==> calls == []
    decreases |orders|
  {
    if orders == [] then []
    else
      var o := orders[0];
      var rest := OrderSorts(orders[1..]);
      assert forall j :: 0 <= j < |orders[1..]| ==> orders[1..][j] == orders[j + 1];
      if o.direction == "desc" then [AddSort(o.column, Decrease)] + rest
      else if o.direction == "asc" then [AddSort(o.column, Increase)] + rest
      else rest
  }

  /** The sort calls of `performSearch`: `id` descending when there are no
      orders, otherwise the calls for the orders. */
  function SortCalls(orders: seq<Order>): (calls: seq<ParamCall>)
    ensures orders == [] ==> calls == [AddSort("id", Decrease)]
    ensures orders != [] ==> calls == OrderSorts(orders)
  {
    (if orders == [] then [AddSort("id", Decrease)] else []) + OrderSorts(orders)
  }

  /** The orders a list of sort calls expresses (filter calls express none). */
  function OrdersOf(calls: seq<ParamCall>): seq<Order>
  {
    if calls == [] then []
    else
      var rest := OrdersOf(calls[1..]);
      match calls[0]
      case AddSort(f, d) => [Order(f, if d == Decrease then "desc" else "asc")] + rest
      case SetFilter(_) => rest
  }

  /** The recognised orders of `orders`, in order. */
  function RecognisedOrders(orders: seq<Order>): seq<Order>
  {
    if orders == [] then []
    else (if Recognised(orders[0]) then [orders[0]] else []) + RecognisedOrders(orders[1..])
  }

  /** Reading the sort calls back gives exactly the recognised orders: no
      order is reordered, changed or invented, and none but the unrecognised
      ones is lost. */
  lemma {:induction false} SortCallsRoundTrip(orders: seq<Order>)
    ensures OrdersOf(OrderSorts(orders)) == RecognisedOrders(orders)
    decreases |orders|
  {
    if orders != [] {
      SortCallsRoundTrip(orders[1..]);
      var rest := OrderSorts(orders[1..]);
      if Recognised(orders[0]) {
        var c := AddSort(orders[0].column, DirectionOf(orders[0]));
        assert OrderSorts(orders) == [c] + rest;
        assert ([c] + rest)[1..] == rest;
      }
    }
  }

  /** With no orders, the only sort is `id` descending. */
  lemma DefaultSortRoundTrip()
    ensures OrdersOf(SortCalls([])) == [Order("id", "desc")]
  {
    assert SortCalls([]) == [AddSort("id", Decrease)];
  }

  /** `sprintf('%s=%s', $key, $value)`. */
  function FilterExpression(key: string, value: Value): (f: string)
    ensures |f| == |key| + 1 + |ToPhpString(value)|
    ensures f[..|key|] == key && f[|key|] == '='
    ensures f[|key| + 1..] == ToPhpString(value)
  {
    key + "=" + ToPhpString(value)
  }

  /** The filter calls of `performSearch`: one per `where`, in order. */
  function FilterCalls(wheres: Assoc): (calls: seq<ParamCall>)
    ensures |calls| == |wheres|
    ensures forall i :: 0 <= i < |calls| ==> calls[i].SetFilter? && |calls[i].filter| > |wheres[i].0|
    ensures forall i :: 0 <= i < |calls| ==> calls[i].filter[..|wheres[i].0|] == wheres[i].0
    ensures forall i :: 0 <= i < |calls| ==>
              calls[i].filter[|wheres[i].0|] == '=' && calls[i].filter[|wheres[i].0| + 1..] == ToPhpString(wheres[i].1)
  {
    seq(|wheres|, i requires 0 <= i < |wheres| => SetFilter(FilterExpression(wheres[i].0, wheres[i].1)))
  }

  /** Splits a filter expression at its first `=`. */
  function ParseFilter(f: string): (string, string)
  {
    (Before(f, '='), After(f, '='))
  }

  /** Every filter call reads back as its `where`: the column before the first
      `=` and the value's string form after it, provided the column has no `=`. */
  lemma FilterRoundTrip(wheres: Assoc, i: int)
    requires 0 <= i < |wheres| && '=' !in wheres[i].0
    ensures ParseFilter(FilterCalls(wheres)[i].filter) == (wheres[i].0, ToPhpString(wheres[i].1))
  {
    var k, v := wheres[i].0, ToPhpString(wheres[i].1);
    SplitIsUnique(k, '=', v);
  }

  /** The non-callback path of `performSearch`: reads the `query` option (a
      missing key reads as null), writes it back quoted, and lists the sort
      calls followed by the filter calls. */
  function PerformSearch(b: Builder, options: Assoc): (p: SearchParams)
    ensures Lookup(p.options, "query") == Some(QuoteQuery(Lookup(options, "query").GetOr(Null)))
    ensures forall k :: k != "query" ==> Lookup(p.options, k) == Lookup(options, k)
    ensures p.calls == SortCalls(b.orders) + FilterCalls(b.wheres)
  {
    var query := Lookup(options, "query").GetOr(Null);
    SearchParams(Set(options, "query", QuoteQuery(query)), SortCalls(b.orders) + FilterCalls(b.wheres))
  }

  /** `performSearch` keeps every option where it was; a `query` option that
      was filtered out is added at the end. */
  lemma PerformSearchKeepsKeyOrder(b: Builder, options: Assoc)
    ensures var sent := PerformSearch(b, options).options;
      && |sent| >= |options|
      && (forall i :: 0 <= i < |options| ==> sent[i].0 == options[i].0)
      && (!HasKey(options, "query") ==> sent == options + [("query", QuoteQuery(Null))])
  {
  }

  /** `search`: at most `limit` hits, always from offset 0, with the sort
      calls before the filter calls. SearchParameters states which options
      are sent. */
  function Search(b: Builder): (p: SearchParams)
    ensures p.calls == SortCalls(b.orders) + FilterCalls(b.wheres)
  {
    PerformSearch(b, FilteredOptions(b, b.limit, 0))
  }

  /** `paginate`: `perPage` hits from the start of the 1-based `page`, with
      the sort calls before the filter calls. PaginateStart and PaginateHits
      state which options are sent. */
  function Paginate(b: Builder, perPage: int, page: int): (p: SearchParams)
    ensures p.calls == SortCalls(b.orders) + FilterCalls(b.wheres)
  {
    PerformSearch(b, FilteredOptions(b, Int(perPage), PageStart(perPage, page)))
  }

  /** What `performSearch` receives from the filtered options and sends on. */
  lemma SentOptions(b: Builder, hits: Value, start: int)
    ensures var sent := PerformSearch(b, FilteredOptions(b, hits, start)).options;
      && Lookup(sent, "start") == (if start != 0 then Some(Int(start)) else None)
      && Lookup(sent, "hits") == (if Truthy(hits) then Some(hits) else None)
      && Lookup(sent, "format") == Some(Str("fulljson"))
      && Lookup(sent, "appName") == (if Truthy(Str(AppName(b.searchableAs))) then Some(Str(AppName(b.searchableAs))) else None)
      && (b.query.Str? && Truthy(b.query) ==> Lookup(sent, "query") == Some(Str(Quote(b.query.s))))
      && (!Truthy(b.query) ==> Lookup(sent, "query") == Some(Null))
  {
    var opts := FilteredOptions(b, hits, start);
    OtherKeysDiffer();
    PassedOn(b, opts, "start");
    PassedOn(b, opts, "hits");
    PassedOn(b, opts, "format");
    PassedOn(b, opts, "appName");
  }

  /** The option names other than `query` differ from it. */
  lemma OtherKeysDiffer()
    ensures "start" != "query" && "hits" != "query" && "format" != "query" && "appName" != "query"
  {
    assert "start"[1] != "query"[1] && "hits"[0] != "query"[0] && "format"[0] != "query"[0] && "appName"[0] != "query"[0];
  }

  /** `performSearch` passes every option but `query` on unchanged. */
  lemma PassedOn(b: Builder, options: Assoc, k: string)
    requires k != "query"
    ensures Lookup(PerformSearch(b, options).options, k) == Lookup(options, k)
  {
  }

  /** What `search` sends: no `start` (the 0 offset is falsy and filtered out),
      `hits` only for a truthy limit, the format, the quoted query when it is a
      truthy string, and the sort and filter calls. */
  lemma SearchParameters(b: Builder)
    ensures Lookup(Search(b).options, "start") == None
    ensures Lookup(Search(b).options, "format") == Some(Str("fulljson"))
    ensures Lookup(Search(b).options, "hits") == (if Truthy(b.limit) then Some(b.limit) else None)
    ensures b.query.Str? && Truthy(b.query) ==> Lookup(Search(b).options, "query") == Some(Str(Quote(b.query.s)))
    ensures Search(b).calls == SortCalls(b.orders) + FilterCalls(b.wheres)
  {
    SentOptions(b, b.limit, 0);
  }

  /** The offset `paginate` sends: `perPage * (page - 1)` unless that is 0,
      and so, from page 1 on, never a negative one. */
  lemma PaginateStart(b: Builder, perPage: int, page: int)
    ensures Lookup(Paginate(b, perPage, page).options, "start") ==
              (if PageStart(perPage, page) != 0 then Some(Int(PageStart(perPage, page))) else None)
    ensures page >= 1 && perPage >= 0 ==>
              forall v :: Lookup(Paginate(b, perPage, page).options, "start") == Some(v) ==> v.Int? && v.i > 0
  {
    var opts := FilteredOptions(b, Int(perPage), PageStart(perPage, page));
    OtherKeysDiffer();
    PassedOn(b, opts, "start");
  }

  /** The page size `paginate` sends as `hits`, unless it is 0, with the format. */
  lemma PaginateHits(b: Builder, perPage: int, page: int)
    ensures Lookup(Paginate(b, perPage, page).options, "hits") == (if perPage != 0 then Some(Int(perPage)) else None)
    ensures Lookup(Paginate(b, perPage, page).options, "format") == Some(Str("fulljson"))
  {
    SentHits(b, Int(perPage), PageStart(perPage, page));
  }

  /** `hits` and `format` reach the client as `array_filter` left them. */
  lemma SentHits(b: Builder, hits: Value, start: int)
    ensures Lookup(PerformSearch(b, FilteredOptions(b, hits, start)).options, "hits") == (if Truthy(hits) then Some(hits) else None)
    ensures Lookup(PerformSearch(b, FilteredOptions(b, hits, start)).options, "format") == Some(Str("fulljson"))
  {
    var opts := FilteredOptions(b, hits, start);
    OtherKeysDiffer();
    PassedOn(b, opts, "hits");
    PassedOn(b, opts, "format");
  }

  /** The page request of 15 per page, page 3, starts at hit 30. */
  lemma PaginateExample(b: Builder)
    ensures Lookup(Paginate(b, 15, 3).options, "start") == Some(Int(30))
  {
    PaginateStart(b, 15, 3);
  }

  /** As written, a search for the string "0" loses its query: "0" is falsy
      for `array_filter`, so the option is dropped and read back as null. */
  lemma SearchForZeroDropsQuery(b: Builder)
    requires b.query == Str("0")
    ensures Lookup(Search(b).options, "query") == Some(Null)
  {
  }

  /** The evidently intended test for keeping the query: anything truthy, and
      also the string "0". */
  predicate KeepQuery(q: Value)
  {
    Truthy(q) || q == Str("0")
  }

  /** The options with the intended query test; all other entries are filtered
      as before. */
  function IntendedOptions(b: Builder, hits: Value, start: int): (opts: Assoc)
    ensures KeepQuery(b.query) ==> Lookup(opts, "query") == Some(b.query)
    ensures forall k :: k != "query" ==> Lookup(opts, k) == Lookup(FilteredOptions(b, hits, start), k)
    ensures b.query != Str("0") ==> opts == FilteredOptions(b, hits, start)
  {
    var rest := FilteredOptions(b, hits, start);
    if b.query == Str("0") then Set(rest, "query", b.query) else rest
  }

  /** `search` with the intended query test. */
  function SearchKeepingQuery(b: Builder): (p: SearchParams)
    ensures b.query.Str? && b.query.s != "" ==> Lookup(p.options, "query") == Some(Str(Quote(b.query.s)))
    ensures b.query != Str("0") ==> p == Search(b)
  {
    var opts := IntendedOptions(b, b.limit, 0);
    assert b.query.Str? && b.query.s != "" ==> KeepQuery(b.query);
    PerformSearch(b, opts)
  }

  /** `paginate` with the intended query test. */
  function PaginateKeepingQuery(b: Builder, perPage: int, page: int): (p: SearchParams)
    ensures b.query.Str? && b.query.s != "" ==> Lookup(p.options, "query") == Some(Str(Quote(b.query.s)))
    ensures b.query != Str("0") ==> p == Paginate(b, perPage, page)
  {
    var start := PageStart(perPage, page);
    var opts := IntendedOptions(b, Int(perPage), start);
    assert b.query.Str? && b.query.s != "" ==> KeepQuery(b.query);
    PerformSearch(b, opts)
  }
}
