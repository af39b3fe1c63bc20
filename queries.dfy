/**
 * The read queries of the serving side (data_serving/db_utils.py), evaluated over
 * the two tables as in-memory sequences of rows. Whether the database can be
 * reached is an input; rows of equal time come out in table order, one of the
 * orders PostgreSQL may pick.
 */
module Queries {
  import opened Wrappers
  import opened Rows
  import opened Sequences

  /** What `SELECT time, price FROM ticker_data` yields per row. */
  datatype TickerPoint = TickerPoint(time: Instant, price: real)

  /** What `SELECT trade_id, price, size, side, time FROM trade_data` yields per row. */
  datatype TradeView = TradeView(tradeId: string, price: real, size: real, side: string, time: Instant)

  /** The state of the database server as seen by one query. */
  datatype DbCondition =
    | Available
    | ConnectFails    // `connect_to_db` raises
    | QueryFails      // `execute` raises

  /** The exceptions a query lets escape. */
  datatype QueryError =
    | ConnectError       // from `psycopg2.connect`
    | ExecuteError       // from `cursor.execute`: a bad parameter, LIMIT < 0, a server error
    | UnboundLocalError  // `conn.close()` in a `finally` whose `conn` was never bound

  function PointOf(r: TickerRow): TickerPoint {
    TickerPoint(r.time, r.price)
  }

  function ViewOf(r: TradeRow): TradeView {
    TradeView(r.tradeId, r.price, r.size, r.side, r.time)
  }

  /** Sort keys: `ORDER BY time ASC` and `ORDER BY time DESC`. */
  function PointTime(p: TickerPoint): int {
    p.time
  }

  function OldestFirst(t: TradeView): int {
    t.time
  }

  function NewestFirst(t: TradeView): int {
    -t.time
  }

  /** `product_id = %s AND time >= %s [AND time <= %s]`. */
  predicate TickerInRange(r: TickerRow, productId: string, start: Instant, end: Option<Instant>) {
    r.productId == productId && start <= r.time && (end.Some? ==> r.time <= end.value)
  }

  function TickerSelector(productId: string, start: Instant, end: Option<Instant>): TickerRow -> bool {
    (r: TickerRow) => TickerInRange(r, productId, start, end)
  }

  /** The selected ticker rows, projected, in table order. */
  function SelectedPoints(table: seq<TickerRow>, productId: string, start: Instant, end: Option<Instant>)
    : seq<TickerPoint>
  {
    Map(Filter(table, TickerSelector(productId, start, end)), PointOf)
  }

  /**
   * `fetch_ticker_data`: the points of the ticker rows of `productId` with
   * `start <= time` and, when an end is given, `time <= end`, ascending by time.
   * NaT as the start cannot be bound as a parameter; the server rejects it.
   */
  function FetchTickerData(table: seq<TickerRow>, productId: string, start: Stamp, end: Option<Instant>,
                           db: DbCondition): (r: Result<seq<TickerPoint>, QueryError>)
    ensures r.Success? <==> db.Available? && start.At?
    ensures db.ConnectFails? ==> r == Failure(ConnectError)
    ensures r.Success? ==>
      && SortedBy(r.value, PointTime)
      && multiset(r.value) == multiset(SelectedPoints(table, productId, start.instant, end))
  {
    if db.ConnectFails? then Failure(ConnectError)
    else if db.QueryFails? || start.NaT? then Failure(ExecuteError)
    else
      SortByOrders(SelectedPoints(table, productId, start.instant, end), PointTime);
      Success(SortBy(SelectedPoints(table, productId, start.instant, end), PointTime))
  }

  /** `[f(x) for x in s]` holds `f(s[i])` for each `i` and nothing else. */
  lemma {:induction false} MapMembers<A, B>(s: seq<A>, f: A -> B)
    ensures forall i :: 0 <= i < |s| ==> f(s[i]) in Map(s, f)
    ensures forall y :: y in Map(s, f) ==> exists i :: 0 <= i < |s| && y == f(s[i])
  {
    MapAt(s, f);
    var m := Map(s, f);
    forall i | 0 <= i < |s| ensures f(s[i]) in m {
      assert m[i] == f(s[i]);
    }
    forall y | y in m ensures exists i :: 0 <= i < |s| && y == f(s[i]) {
      var i :| 0 <= i < |m| && m[i] == y;
      assert y == f(s[i]);
    }
  }

  /** Two sequences with the same multiset have the same members. */
  lemma {:induction false} SameMembers<T>(a: seq<T>, b: seq<T>)
    requires multiset(a) == multiset(b)
    ensures forall x :: x in a <==> x in b
  {
    forall x ensures x in a <==> x in b {
      assert x in a <==> x in multiset(a);
      assert x in b <==> x in multiset(b);
    }
  }

  /**
   * The ticker query is exact: a row of the product inside the bounds (both
   * inclusive) has its point in the answer, and every point of the answer is
   * the point of such a row.
   */
  lemma {:induction false} FetchTickerDataExact(table: seq<TickerRow>, productId: string, start: Instant, end: Option<Instant>)
    ensures var r := FetchTickerData(table, productId, At(start), end, Available);
      && r.Success?
      && (forall i :: 0 <= i < |table| && TickerInRange(table[i], productId, start, end) ==>
            PointOf(table[i]) in r.value)
      && (forall p :: p in r.value ==>
            exists i :: 0 <= i < |table| && TickerInRange(table[i], productId, start, end) && p == PointOf(table[i]))
  {
    var sel := Filter(table, TickerSelector(productId, start, end));
    var pts := SelectedPoints(table, productId, start, end);
    var r := FetchTickerData(table, productId, At(start), end, Available).value;
    FilterMembers(table, TickerSelector(productId, start, end));
    MapMembers(sel, PointOf);
    SameMembers(r, pts);
    forall i | 0 <= i < |table| && TickerInRange(table[i], productId, start, end)
      ensures PointOf(table[i]) in r
    {
      assert table[i] in sel;
      var k :| 0 <= k < |sel| && sel[k] == table[i];
    }
    forall p | p in r
      ensures exists i :: 0 <= i < |table| && TickerInRange(table[i], productId, start, end) && p == PointOf(table[i])
    {
      var k :| 0 <= k < |sel| && p == PointOf(sel[k]);
      assert sel[k] in sel;
      var i :| 0 <= i < |table| && table[i] == sel[k];
    }
  }

  /** `product_id = %s` on the trade table. */
  function OfProduct(productId: string): TradeRow -> bool {
    (r: TradeRow) => r.productId == productId
  }

  /** The trades of one product, projected, newest first. */
  function NewestTrades(table: seq<TradeRow>, productId: string): seq<TradeView> {
    SortBy(Map(Filter(table, OfProduct(productId)), ViewOf), NewestFirst)
  }

  /**
   * The product's trade list is exact and newest first: every trade of the
   * product is in it, and everything in it is the view of such a trade.
   */
  lemma {:induction false} NewestTradesExact(table: seq<TradeRow>, productId: string)
    ensures forall i :: 0 <= i < |table| && table[i].productId == productId ==>
      ViewOf(table[i]) in NewestTrades(table, productId)
    ensures forall t :: t in NewestTrades(table, productId) ==>
      exists i :: 0 <= i < |table| && table[i].productId == productId && t == ViewOf(table[i])
    ensures SortedBy(NewestTrades(table, productId), NewestFirst)
  {
    var sel := Filter(table, OfProduct(productId));
    SortByOrders(Map(sel, ViewOf), NewestFirst);
    SameMembers(NewestTrades(table, productId), Map(sel, ViewOf));
    FilterMembers(table, OfProduct(productId));
    TradesOfProductListed(table, productId, sel);
    ListedTradesOfProduct(table, productId, sel);
  }

  lemma {:induction false} TradesOfProductListed(table: seq<TradeRow>, productId: string, sel: seq<TradeRow>)
    requires forall x :: x in sel <==> x in table && x.productId == productId
    ensures forall i :: 0 <= i < |table| && table[i].productId == productId ==> ViewOf(table[i]) in Map(sel, ViewOf)
  {
    MapMembers(sel, ViewOf);
    forall i | 0 <= i < |table| && table[i].productId == productId
      ensures ViewOf(table[i]) in Map(sel, ViewOf)
    {
      assert table[i] in sel;
      var k :| 0 <= k < |sel| && sel[k] == table[i];
    }
  }

  lemma {:induction false} ListedTradesOfProduct(table: seq<TradeRow>, productId: string, sel: seq<TradeRow>)
    requires forall x :: x in sel <==> x in table && x.productId == productId
    ensures forall t :: t in Map(sel, ViewOf) ==>
      exists i :: 0 <= i < |table| && table[i].productId == productId && t == ViewOf(table[i])
  {
    MapMembers(sel, ViewOf);
    forall t | t in Map(sel, ViewOf)
      ensures exists i :: 0 <= i < |table| && table[i].productId == productId && t == ViewOf(table[i])
    {
      var k :| 0 <= k < |sel| && t == ViewOf(sel[k]);
      assert sel[k] in sel;
      var i :| 0 <= i < |table| && table[i] == sel[k];
    }
  }

  /**
   * `fetch_recent_trades`: the trades of `productId`, newest first, cut to
   * `limit` rows; PostgreSQL refuses a negative LIMIT.
   */
  function FetchRecentTrades(table: seq<TradeRow>, productId: string, limit: int, db: DbCondition)
    : (r: Result<seq<TradeView>, QueryError>)
    ensures r.Success? <==> db.Available? && limit >= 0
    ensures db.ConnectFails? ==> r == Failure(ConnectError)
    ensures r.Success? ==>
      var all := Map(Filter(table, OfProduct(productId)), ViewOf);
      && |r.value| == (if limit < |all| then limit else |all|)
      && SortedBy(r.value, NewestFirst)
      && multiset(r.value) <= multiset(all)
  {
    if db.ConnectFails? then Failure(ConnectError)
    else if db.QueryFails? || limit < 0 then Failure(ExecuteError)
    else
      var all := NewestTrades(table, productId);
      var r := Take(all, limit);
      SortByOrders(Map(Filter(table, OfProduct(productId)), ViewOf), NewestFirst);
      assert all == r + all[|r|..];
      Success(r)
  }

  /**
   * The recent trades are the latest ones: no trade of the product that was cut
   * off by the limit is newer than any trade in the answer.
   */
  lemma {:induction false} RecentTradesAreLatest(table: seq<TradeRow>, productId: string, limit: nat)
    ensures var r := FetchRecentTrades(table, productId, limit, Available).value;
      forall t :: t in multiset(Map(Filter(table, OfProduct(productId)), ViewOf)) - multiset(r) ==>
        forall i :: 0 <= i < |r| ==> t.time <= r[i].time
  {
    var matching := Map(Filter(table, OfProduct(productId)), ViewOf);
    var all := NewestTrades(table, productId);
    SortByOrders(matching, NewestFirst);
    var r := Take(all, limit);
    assert r == FetchRecentTrades(table, productId, limit, Available).value;
    TakeRest(all, |r|);
    OlderAfterCut(all, |r|);
  }

  /** In a newest-first sequence nothing after position `n` is newer than anything before it. */
  lemma {:induction false} OlderAfterCut(all: seq<TradeView>, n: nat)
    requires SortedBy(all, NewestFirst) && n <= |all|
    ensures forall t :: t in multiset(all[n..]) ==> forall i :: 0 <= i < n ==> t.time <= all[i].time
  {
    forall t: TradeView | t in multiset(all[n..]) ensures forall i :: 0 <= i < n ==> t.time <= all[i].time {
      var j :| 0 <= j < |all[n..]| && all[n..][j] == t;
      forall i | 0 <= i < n ensures t.time <= all[i].time {
        assert NewestFirst(all[i]) <= NewestFirst(all[n + j]);
      }
    }
  }

  /** `product_id = %s AND time > %s`: the bound is exclusive. */
  function SinceSelector(productId: string, since: Instant): TradeRow -> bool {
    (r: TradeRow) => r.productId == productId && r.time > since
  }

  /** The trades of one product strictly after `since`, projected, oldest first. */
  function TradesAfter(table: seq<TradeRow>, productId: string, since: Instant): seq<TradeView> {
    SortBy(Map(Filter(table, SinceSelector(productId, since)), ViewOf), OldestFirst)
  }

  /**
   * `fetch_trades_since` as evidently intended: the trades of `productId`
   * strictly after `since`, ascending, and the empty list whenever the query
   * fails (NaT as the bound included).
   */
  function FetchTradesSince(table: seq<TradeRow>, productId: string, since: Stamp, db: DbCondition)
    : (r: seq<TradeView>)
    ensures !db.Available? || since.NaT? ==> r == []
    ensures db.Available? && since.At? ==>
      && SortedBy(r, OldestFirst)
      && multiset(r) == multiset(Map(Filter(table, SinceSelector(productId, since.instant)), ViewOf))
  {
    if !db.Available? || since.NaT? then []
    else
      SortByOrders(Map(Filter(table, SinceSelector(productId, since.instant)), ViewOf), OldestFirst);
      TradesAfter(table, productId, since.instant)
  }

  /**
   * `fetch_trades_since` as written: when `connect_to_db` raises, the except
   * clause's `return []` is overridden by the `finally` clause, whose
   * `conn.close()` finds `conn` unbound and raises UnboundLocalError.
   */
  function FetchTradesSinceAsWritten(table: seq<TradeRow>, productId: string, since: Stamp, db: DbCondition)
    : (r: Result<seq<TradeView>, QueryError>)
    ensures db.ConnectFails? <==> r.Failure?
    ensures r.Failure? ==> r.error == UnboundLocalError
    ensures r.Success? ==> r.value == FetchTradesSince(table, productId, since, db)
  {
    if db.ConnectFails? then Failure(UnboundLocalError)
    else Success(FetchTradesSince(table, productId, since, db))
  }

  /**
   * The two agree except when the server cannot be reached: there the intended
   * function answers `[]` and the code as written raises.
   */
  lemma {:induction false} TradesSinceUnreachableServer(table: seq<TradeRow>, productId: string, since: Stamp)
    ensures FetchTradesSince(table, productId, since, ConnectFails) == []
    ensures FetchTradesSinceAsWritten(table, productId, since, ConnectFails) == Failure(UnboundLocalError)
    ensures forall db: DbCondition :: !db.ConnectFails? ==>
      FetchTradesSinceAsWritten(table, productId, since, db) == Success(FetchTradesSince(table, productId, since, db))
  {
  }

  /** The bound is exclusive: a trade exactly at `since` is never returned. */
  lemma {:induction false} TradesSinceExcludesBound(table: seq<TradeRow>, productId: string, since: Instant)
    ensures forall t :: t in FetchTradesSince(table, productId, At(since), Available) ==>
      t.time > since && exists i :: 0 <= i < |table| && table[i].productId == productId && t == ViewOf(table[i])
  {
    var sel := Filter(table, SinceSelector(productId, since));
    var r := FetchTradesSince(table, productId, At(since), Available);
    FilterMembers(table, SinceSelector(productId, since));
    MapMembers(sel, ViewOf);
    SameMembers(r, Map(sel, ViewOf));
    forall t | t in r
      ensures t.time > since && exists i :: 0 <= i < |table| && table[i].productId == productId && t == ViewOf(table[i])
    {
      var k :| 0 <= k < |sel| && t == ViewOf(sel[k]);
      assert sel[k] in sel;
      var i :| 0 <= i < |table| && table[i] == sel[k];
    }
  }
}
