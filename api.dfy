/**
 * The four routes of the serving API (data_serving/api.py) with their argument
 * checks, over the tables as sequences of rows. A route answers a JSON body
 * (status 200), a JSON error with a status of its own choosing, or status 500
 * when an exception escapes it.
 */
module Api {
  import opened Wrappers
  import opened Rows
  import opened Sequences
  import opened Queries
  import opened Binning

  /** A query-string argument as `request.args.get` returns it. */
  type Arg = Option<string>

  /** Python truthiness of an argument: given and not empty. */
  predicate Present(a: Arg) {
    a.Some? && a.value != ""
  }

  /** What a route answers. */
  datatype Reply<T> =
    | Ok(body: T)
    | Refused(status: nat, message: string)  // a JSON error the route returns itself
    | ServerError                            // an exception escaped: Flask answers 500

  /** The parsers the routes call, `None` where they raise. */
  datatype Parsers = Parsers(
    toDatetime: string -> Option<Stamp>,     // `pd.to_datetime` of one string
    pgTimestamp: string -> Option<Instant>,  // PostgreSQL reading a TIMESTAMP parameter
    toInt: string -> Option<int>)            // `int(s)`

  const InvalidStartTime: string := "Invalid start_time format"
  const MissingTickerArgs: string := "Missing 'product_id' or 'start_time'"
  const MissingProduct: string := "Missing 'product_id'"
  const MissingSinceArgs: string := "Missing 'product_id' or 'since'"
  const InvalidSince: string := "Invalid 'since' format"
  const NoTradesFound: string := "No trades found"

  /** `bin_size = "10s"` in `get_ticker_data`. */
  const BinSeconds: nat := 10

  // ---------------------------------------------------------------- ticker data

  datatype TickerArgs = TickerArgs(productId: Arg, startTime: Arg, endTime: Arg)

  /**
   * `pd.to_datetime(start_time).tz_localize(None)`: `None` when it raises, which it
   * also does for a missing argument (`to_datetime(None)` is `None`, which has no
   * `tz_localize`).
   */
  function StartOf(args: TickerArgs, p: Parsers): Option<Stamp> {
    if args.startTime.None? then None else p.toDatetime(args.startTime.value)
  }

  /** The upper bound `fetch_ticker_data` binds: none for a falsy argument. */
  datatype EndBound = Unbounded | Until(t: Instant) | Unreadable

  function EndOf(a: Arg, p: Parsers): EndBound {
    if !Present(a) then Unbounded
    else match p.pgTimestamp(a.value)
      case Some(t) => Until(t)
      case None => Unreadable
  }

  function EndOption(e: EndBound): Option<Instant> {
    if e.Until? then Some(e.t) else None
  }

  /**
   * `get_ticker_data` up to the query (data_serving/api.py:106-120): the 400
   * answers of its two checks, a 500 when the query raises (the server is down,
   * the start is NaT, the end is not a timestamp), and otherwise the rows, which
   * are exactly those the query selects, ascending and none before the start.
   */
  function TickerRows(table: seq<TickerRow>, args: TickerArgs, db: DbCondition, p: Parsers)
    : (r: Reply<seq<TickerPoint>>)
    ensures StartOf(args, p).None? ==> r == Refused(400, InvalidStartTime)
    ensures StartOf(args, p).Some? && !Present(args.productId) ==> r == Refused(400, MissingTickerArgs)
    ensures r.Ok? <==>
      && StartOf(args, p).Some? && StartOf(args, p).value.At? && Present(args.productId)
      && db.Available? && !EndOf(args.endTime, p).Unreadable?
    ensures StartOf(args, p).Some? && Present(args.productId) && !r.Ok? ==> r == ServerError
    ensures r.Refused? ==> r.status == 400
    ensures r.Ok? ==>
      var start := StartOf(args, p).value.instant;
      var end := EndOption(EndOf(args.endTime, p));
      && SortedBy(r.body, PointTime)
      && multiset(r.body) == multiset(SelectedPoints(table, args.productId.value, start, end))
      && (forall i :: 0 <= i < |r.body| ==> start <= r.body[i].time)
  {
    match StartOf(args, p)
    case None => Refused(400, InvalidStartTime)
    case Some(start) =>
      if !Present(args.productId) then Refused(400, MissingTickerArgs)
      else
        var end := EndOf(args.endTime, p);
        if end.Unreadable? then ServerError
        else
          match FetchTickerData(table, args.productId.value, start, EndOption(end), db)
          case Failure(_) => ServerError
          case Success(rows) =>
            FetchTickerDataExact(table, args.productId.value, start.instant, EndOption(end));
            assert forall i :: 0 <= i < |rows| ==> rows[i] in rows;
            Ok(rows)
  }

  function AsPoint(t: TickerPoint): Point {
    Point(t.time, t.price)
  }

  function PriceOf(t: TickerPoint): real {
    t.price
  }

  /** `df['_time'] >= start_time`. */
  function NotBefore(start: Instant): TickerPoint -> bool {
    (t: TickerPoint) => t.time >= start
  }

  /** The same failure, for a route of another body type. */
  function Relay<A, B>(r: Reply<A>): (s: Reply<B>)
    requires !r.Ok?
    ensures !s.Ok?
    ensures s.Refused? <==> r.Refused?
    ensures s.Refused? ==> s.status == r.status && s.message == r.message
    ensures s.ServerError? <==> r.ServerError?
  {
    match r
    case Refused(status, message) => Refused(status, message)
    case ServerError => ServerError
  }

  /**
   * Lines 121-127 for a non-empty answer: the frame keeps every row (none is
   * before the start), and the binning sees one point per row.
   */
  method BinRows(rows: seq<TickerPoint>, start: Instant, p: Parsers) returns (b: Binned)
    requires rows != []
    requires forall i :: 0 <= i < |rows| ==> start <= rows[i].time
    ensures IsBinning(Map(rows, AsPoint), BinSeconds * MicrosPerSecond, b)
  {
    FilterAll(rows, NotBefore(start));
    var times := Map(rows, PointTime);
    var prices := Map(rows, PriceOf);
    var binned := BinTimePriceData(Stamps(times), prices, BinSeconds, p.toDatetime);
    RowsAsPoints(rows, p);
    b := binned.value;
  }

  /** A column of timestamps taken from rows, paired with their prices, gives one point per row. */
  lemma {:induction false} RowsAsPoints(rows: seq<TickerPoint>, p: Parsers)
    ensures var times, prices := Map(rows, PointTime), Map(rows, PriceOf);
      && ColumnLength(Stamps(times)) == |prices| == |rows|
      && Points(ParsedTimes(Stamps(times), p.toDatetime), prices) == Map(rows, AsPoint)
  {
    var times, prices := Map(rows, PointTime), Map(rows, PriceOf);
    MapAt(rows, PointTime);
    MapAt(rows, PriceOf);
    MapAt(rows, AsPoint);
    var stamps := ParsedTimes(Stamps(times), p.toDatetime);
    PointsWithoutNaT(stamps, prices);
  }

  /**
   * `get_ticker_data` as evidently intended: the checks and the query of
   * `TickerRows`, then the query's rows in ten-second bins, the empty series for
   * no rows.
   */
  method GetTickerData(table: seq<TickerRow>, args: TickerArgs, db: DbCondition, p: Parsers)
    returns (r: Reply<Binned>)
    ensures r.Ok? <==> TickerRows(table, args, db, p).Ok?
    ensures TickerRows(table, args, db, p).Refused? ==>
      r == Refused(TickerRows(table, args, db, p).status, TickerRows(table, args, db, p).message)
    ensures r.Ok? ==> IsBinning(Map(TickerRows(table, args, db, p).body, AsPoint), BinSeconds * MicrosPerSecond, r.body)
    ensures r.Ok? && TickerRows(table, args, db, p).body == [] ==> r.body == Binned([], [])
    ensures TickerRows(table, args, db, p).ServerError? ==> r == ServerError
  {
    var rows := TickerRows(table, args, db, p);
    if !rows.Ok? {
      return Relay(rows);
    }
    if rows.body == [] {
      return Ok(Binned([], []));
    }
    var b := BinRows(rows.body, StartOf(args, p).value.instant, p);
    r := Ok(b);
  }

  /**
   * `get_ticker_data` as written: with no rows `pd.DataFrame([])` has no `time`
   * column and `df['time']` raises KeyError, so the route answers 500.
   */
  method GetTickerDataAsWritten(table: seq<TickerRow>, args: TickerArgs, db: DbCondition, p: Parsers)
    returns (r: Reply<Binned>)
    ensures r.Ok? <==> TickerRows(table, args, db, p).Ok? && TickerRows(table, args, db, p).body != []
    ensures TickerRows(table, args, db, p).Ok? && TickerRows(table, args, db, p).body == [] ==> r == ServerError
    ensures TickerRows(table, args, db, p).Refused? ==>
      r == Refused(TickerRows(table, args, db, p).status, TickerRows(table, args, db, p).message)
    ensures r.Ok? ==> IsBinning(Map(TickerRows(table, args, db, p).body, AsPoint), BinSeconds * MicrosPerSecond, r.body)
    ensures TickerRows(table, args, db, p).ServerError? ==> r == ServerError
  {
    var rows := TickerRows(table, args, db, p);
    if rows.Ok? && rows.body == [] {
      return ServerError;
    }
    r := GetTickerData(table, args, db, p);
  }

  /**
   * An empty table reaches that branch: a well-formed request on a reachable
   * server gets no rows, which the code as written answers with 500.
   */
  lemma {:induction false} EmptyTableHasNoRows(args: TickerArgs, p: Parsers)
    requires StartOf(args, p).Some? && StartOf(args, p).value.At? && Present(args.productId)
    requires !EndOf(args.endTime, p).Unreadable?
    ensures TickerRows([], args, Available, p) == Ok([])
  {
    var r := TickerRows([], args, Available, p);
    assert multiset(r.body) == multiset([]) by {
      var start := StartOf(args, p).value.instant;
      var end := EndOption(EndOf(args.endTime, p));
      assert SelectedPoints([], args.productId.value, start, end) == [];
    }
  }

  // ------------------------------------------------------------- recent trades

  datatype RecentArgs = RecentArgs(productId: Arg, limit: Arg)

  /** `int(request.args.get('limit', 10))`: `None` when `int` raises. */
  function LimitOf(a: Arg, p: Parsers): Option<int> {
    if a.None? then Some(10) else p.toInt(a.value)
  }

  /**
   * `get_recent_trades`: the limit is converted before anything else and a bad
   * one escapes as a 500; then the product check; then the query, whose failure
   * (a negative LIMIT included) the route answers with 500. The re-sort and the
   * re-cut change nothing: the answer is exactly the query's.
   */
  function GetRecentTrades(table: seq<TradeRow>, args: RecentArgs, db: DbCondition, p: Parsers)
    : (r: Reply<seq<TradeView>>)
    ensures LimitOf(args.limit, p).None? ==> r == ServerError
    ensures LimitOf(args.limit, p).Some? && !Present(args.productId) ==> r == Refused(400, MissingProduct)
    ensures r.Ok? <==>
      LimitOf(args.limit, p).Some? && Present(args.productId) && db.Available? && LimitOf(args.limit, p).value >= 0
    ensures LimitOf(args.limit, p).Some? && Present(args.productId) && !r.Ok? ==> r == ServerError
    ensures r.Refused? ==> r.status == 400
    ensures r.Ok? ==> r.body == FetchRecentTrades(table, args.productId.value, LimitOf(args.limit, p).value, db).value
  {
    match LimitOf(args.limit, p)
    case None => ServerError
    case Some(limit) =>
      if !Present(args.productId) then Refused(400, MissingProduct)
      else
        match FetchRecentTrades(table, args.productId.value, limit, db)
        case Failure(_) => ServerError
        case Success(data) =>
          SortBySorted(data, NewestFirst);
          var sorted := SortBy(data, NewestFirst);
          Ok(Take(sorted, limit))
  }

  /**
   * So an answer is newest first, at most `limit` long, and cut only where no
   * trade left out is newer than one kept.
   */
  lemma {:induction false} RecentTradesAnswer(table: seq<TradeRow>, args: RecentArgs, db: DbCondition, p: Parsers)
    requires GetRecentTrades(table, args, db, p).Ok?
    ensures var r := GetRecentTrades(table, args, db, p).body;
      var all := Map(Filter(table, OfProduct(args.productId.value)), ViewOf);
      && SortedBy(r, NewestFirst)
      && |r| == (if LimitOf(args.limit, p).value < |all| then LimitOf(args.limit, p).value else |all|)
      && multiset(r) <= multiset(all)
      && forall t :: t in multiset(all) - multiset(r) ==> forall i :: 0 <= i < |r| ==> t.time <= r[i].time
  {
    RecentTradesAreLatest(table, args.productId.value, LimitOf(args.limit, p).value);
  }

  // --------------------------------------------------------------- last trade

  /**
   * `get_last_trade`: 400 without a product; the query is not guarded, so its
   * failure is a 500; 404 when the product has no trade; otherwise the first
   * row of `fetch_recent_trades(product_id, limit=1)`.
   */
  function GetLastTrade(table: seq<TradeRow>, productId: Arg, db: DbCondition): (r: Reply<TradeView>)
    ensures !Present(productId) ==> r == Refused(400, MissingProduct)
    ensures Present(productId) && !db.Available? ==> r == ServerError
    ensures Present(productId) && db.Available? ==>
      (r == Refused(404, NoTradesFound) <==> forall i :: 0 <= i < |table| ==> table[i].productId != productId.value)
    ensures (Present(productId) && db.Available?
             && exists i :: 0 <= i < |table| && table[i].productId == productId.value) ==> r.Ok?
    ensures r.Ok? ==> Present(productId) && db.Available?
    ensures r.Refused? ==> r.status == 400 || r.status == 404
  {
    if !Present(productId) then Refused(400, MissingProduct)
    else
      match FetchRecentTrades(table, productId.value, 1, db)
      case Failure(_) => ServerError
      case Success(data) =>
        NoTradeOfProduct(table, productId.value);
        if data == [] then Refused(404, NoTradesFound) else Ok(data[0])
  }

  /** The product has no trade exactly when the newest-first list is empty. */
  lemma {:induction false} NoTradeOfProduct(table: seq<TradeRow>, productId: string)
    ensures NewestTrades(table, productId) == [] <==> forall i :: 0 <= i < |table| ==> table[i].productId != productId
  {
    var sel := Filter(table, OfProduct(productId));
    FilterMembers(table, OfProduct(productId));
    var all := NewestTrades(table, productId);
    assert |all| == |sel|;
    if sel != [] {
      assert sel[0] in sel;
    } else {
      forall i | 0 <= i < |table| ensures table[i].productId != productId {
        assert table[i] in table;
      }
    }
  }

  /** The head of the newest-first list is a trade of the product and none is newer. */
  lemma {:induction false} NewestHead(table: seq<TradeRow>, productId: string)
    requires NewestTrades(table, productId) != []
    ensures var t := NewestTrades(table, productId)[0];
      && (exists i :: 0 <= i < |table| && table[i].productId == productId && t == ViewOf(table[i]))
      && forall i :: 0 <= i < |table| && table[i].productId == productId ==> ViewOf(table[i]).time <= t.time
  {
    NewestTradesExact(table, productId);
    var all := NewestTrades(table, productId);
    assert all[0] in all;
    forall i | 0 <= i < |table| && table[i].productId == productId ensures ViewOf(table[i]).time <= all[0].time {
      var m :| 0 <= m < |all| && all[m] == ViewOf(table[i]);
      if m > 0 {
        assert NewestFirst(all[0]) <= NewestFirst(all[m]);
      }
    }
  }

  /** The last trade is a trade of the product and no trade of the product is newer. */
  lemma {:induction false} LastTradeIsNewest(table: seq<TradeRow>, productId: Arg, db: DbCondition)
    requires GetLastTrade(table, productId, db).Ok?
    ensures var t := GetLastTrade(table, productId, db).body;
      && (exists i :: 0 <= i < |table| && table[i].productId == productId.value && t == ViewOf(table[i]))
      && forall i :: 0 <= i < |table| && table[i].productId == productId.value ==> ViewOf(table[i]).time <= t.time
  {
    var all := NewestTrades(table, productId.value);
    assert GetLastTrade(table, productId, db).body == all[0];
    NewestHead(table, productId.value);
  }

  // --------------------------------------------------------- aggregated trades

  datatype SinceArgs = SinceArgs(productId: Arg, since: Arg)

  /** `aggregate(trades)`. */
  datatype Aggregate = Aggregate(totalSize: real, avgPrice: real, count: nat)

  datatype Aggregated = Aggregated(buys: Aggregate, sells: Aggregate)

  /** `sum(float(trade['size']) for trade in trades)`. */
  function TotalSize(trades: seq<TradeView>): real
    decreases |trades|
  {
    if trades == [] then 0.0 else TotalSize(trades[..|trades| - 1]) + trades[|trades| - 1].size
  }

  /** `sum(float(trade['price']) * float(trade['size']) for trade in trades)`. */
  function Turnover(trades: seq<TradeView>): real
    decreases |trades|
  {
    if trades == [] then 0.0
    else Turnover(trades[..|trades| - 1]) + trades[|trades| - 1].price * trades[|trades| - 1].size
  }

  /**
   * The nested `aggregate`: the number of trades, their total size, and the
   * size-weighted average price, 0 when the total size is not positive.
   */
  function AggregateOf(trades: seq<TradeView>): (a: Aggregate)
    ensures a.count == |trades| && a.totalSize == TotalSize(trades)
    ensures a.totalSize > 0.0 ==> a.avgPrice * a.totalSize == Turnover(trades)
    ensures a.totalSize <= 0.0 ==> a.avgPrice == 0.0
  {
    var total := TotalSize(trades);
    Aggregate(total, if total > 0.0 then Turnover(trades) / total else 0.0, |trades|)
  }

  /** The list comprehensions of lines 185-186. */
  function IsBuy(t: TradeView): bool {
    t.side == "BUY"
  }

  function IsSell(t: TradeView): bool {
    t.side == "SELL"
  }

  function IsOther(t: TradeView): bool {
    t.side != "BUY" && t.side != "SELL"
  }

  /** The answer for no trades, as the early return spells it out. */
  const NoTrades: Aggregated := Aggregated(Aggregate(0.0, 0.0, 0), Aggregate(0.0, 0.0, 0))

  /**
   * Lines 178-196: the early answer for no trades is the aggregate of two empty
   * sides, so in every case the answer aggregates the buys and the sells.
   */
  function AggregateTrades(trades: seq<TradeView>): (r: Aggregated)
    ensures r == Aggregated(AggregateOf(Filter(trades, IsBuy)), AggregateOf(Filter(trades, IsSell)))
  {
    if trades == [] then NoTrades
    else Aggregated(AggregateOf(Filter(trades, IsBuy)), AggregateOf(Filter(trades, IsSell)))
  }

  /** Every trade lands in exactly one of buys, sells and neither. */
  lemma {:induction false} SidesPartition(trades: seq<TradeView>)
    ensures multiset(Filter(trades, IsBuy)) + multiset(Filter(trades, IsSell)) + multiset(Filter(trades, IsOther))
            == multiset(trades)
  {
    var buys, sells, others := multiset(Filter(trades, IsBuy)), multiset(Filter(trades, IsSell)), multiset(Filter(trades, IsOther));
    FilterCounts(trades, IsBuy);
    FilterCounts(trades, IsSell);
    FilterCounts(trades, IsOther);
    forall x ensures (buys + sells + others)[x] == multiset(trades)[x] {
      assert !(IsBuy(x) && IsSell(x));
    }
  }

  /** With no side other than BUY and SELL the counts add up to all trades. */
  lemma {:induction false} CountsAddUp(trades: seq<TradeView>)
    requires forall i :: 0 <= i < |trades| ==> trades[i].side == "BUY" || trades[i].side == "SELL"
    ensures var r := AggregateTrades(trades); r.buys.count + r.sells.count == |trades|
  {
    SidesPartition(trades);
    FilterNone(trades, IsOther);
    assert |multiset(Filter(trades, IsBuy))| + |multiset(Filter(trades, IsSell))| == |multiset(trades)|;
  }

  /** Sizes that are not negative weigh prices in [lo, hi] to a turnover in [lo, hi] times the size. */
  lemma {:induction false} TurnoverBetween(trades: seq<TradeView>, lo: real, hi: real)
    requires forall i :: 0 <= i < |trades| ==> 0.0 <= trades[i].size && lo <= trades[i].price <= hi
    ensures TotalSize(trades) * lo <= Turnover(trades) <= TotalSize(trades) * hi
    decreases |trades|
  {
    if trades != [] {
      var n := |trades| - 1;
      var init := trades[..n];
      assert forall i :: 0 <= i < n ==> init[i] == trades[i];
      TurnoverBetween(init, lo, hi);
      var t := trades[n];
      WeighStep(TotalSize(init), Turnover(init), t.size, t.price, lo, hi);
    }
  }

  /** Adding one non-negative weight at a price in [lo, hi] keeps a weighted sum within bounds. */
  lemma {:induction false} WeighStep(total: real, sum: real, size: real, price: real, lo: real, hi: real)
    requires total * lo <= sum <= total * hi
    requires 0.0 <= size && lo <= price <= hi
    ensures (total + size) * lo <= sum + price * size <= (total + size) * hi
  {
    assert (price - lo) * size >= 0.0;
    assert (hi - price) * size >= 0.0;
  }

  /** An average `avg` of `n > 0` units with `n * avg == sum` inherits the bounds of `sum / n`. */
  lemma {:induction false} WeightedMeanBetween(avg: real, n: real, sum: real, lo: real, hi: real)
    requires n > 0.0 && avg * n == sum && n * lo <= sum <= n * hi
    ensures lo <= avg <= hi
  {
    assert (avg - lo) * n >= 0.0;
    assert (hi - avg) * n >= 0.0;
  }

  /** The size-weighted average lies between the lowest and the highest price. */
  lemma {:induction false} AvgPriceBetween(trades: seq<TradeView>, lo: real, hi: real)
    requires forall i :: 0 <= i < |trades| ==> 0.0 <= trades[i].size && lo <= trades[i].price <= hi
    requires TotalSize(trades) > 0.0
    ensures lo <= AggregateOf(trades).avgPrice <= hi
  {
    TurnoverBetween(trades, lo, hi);
    var a := AggregateOf(trades);
    WeightedMeanBetween(a.avgPrice, a.totalSize, Turnover(trades), lo, hi);
  }

  /**
   * `get_aggregated_trades` as evidently intended: 400 when an argument is
   * missing or the time cannot be read, and otherwise the aggregate of the
   * trades after it, no trades when the query fails.
   */
  function GetAggregatedTrades(table: seq<TradeRow>, args: SinceArgs, db: DbCondition, p: Parsers)
    : (r: Reply<Aggregated>)
    ensures !Present(args.productId) || !Present(args.since) ==> r == Refused(400, MissingSinceArgs)
    ensures Present(args.productId) && Present(args.since) && p.toDatetime(args.since.value).None? ==>
      r == Refused(400, InvalidSince)
    ensures r.Ok? <==> Present(args.productId) && Present(args.since) && p.toDatetime(args.since.value).Some?
    ensures r.Ok? ==>
      r.body == AggregateTrades(FetchTradesSince(table, args.productId.value, p.toDatetime(args.since.value).value, db))
  {
    if !Present(args.productId) || !Present(args.since) then Refused(400, MissingSinceArgs)
    else
      match p.toDatetime(args.since.value)
      case None => Refused(400, InvalidSince)
      case Some(since) => Ok(AggregateTrades(FetchTradesSince(table, args.productId.value, since, db)))
  }

  /**
   * `get_aggregated_trades` as written: when the server cannot be reached,
   * `fetch_trades_since` raises instead of answering `[]`, and so does the route.
   */
  function GetAggregatedTradesAsWritten(table: seq<TradeRow>, args: SinceArgs, db: DbCondition, p: Parsers)
    : (r: Reply<Aggregated>)
    ensures r.ServerError? <==>
      Present(args.productId) && Present(args.since) && p.toDatetime(args.since.value).Some? && db.ConnectFails?
    ensures !r.ServerError? ==> r == GetAggregatedTrades(table, args, db, p)
  {
    if !Present(args.productId) || !Present(args.since) then Refused(400, MissingSinceArgs)
    else
      match p.toDatetime(args.since.value)
      case None => Refused(400, InvalidSince)
      case Some(since) =>
        match FetchTradesSinceAsWritten(table, args.productId.value, since, db)
        case Failure(_) => ServerError
        case Success(trades) => Ok(AggregateTrades(trades))
  }

  /** With the server unreachable the intended route reports no trades, the written one fails. */
  lemma {:induction false} AggregatedUnreachableServer(table: seq<TradeRow>, args: SinceArgs, p: Parsers)
    requires Present(args.productId) && Present(args.since) && p.toDatetime(args.since.value).Some?
    ensures GetAggregatedTrades(table, args, ConnectFails, p) == Ok(NoTrades)
    ensures GetAggregatedTradesAsWritten(table, args, ConnectFails, p) == ServerError
  {
  }
}
