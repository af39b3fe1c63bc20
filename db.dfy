/**
 * The persistence layer of the ingestion process (data_acquisition/db.py):
 * the module-level connection pool, the two append-only tables, the daily and
 * hourly materialized views, and the guarded operations on them.
 */
module Db {
  import opened Wrappers
  import opened Rows
  import opened Sequences

  /** The two ways an operation on the store raises. */
  datatype StoreError =
    | PoolNotInitialized   // the RuntimeError of the `db_pool is None` guards
    | UndefinedTable       // PostgreSQL refuses: the schema has not been created yet

  // ---------------------------------------------------------------------------
  // Rollups: `SELECT product_id, date_trunc(unit, time), AVG, MIN, MAX ... GROUP BY`
  // ---------------------------------------------------------------------------

  /** The grouping key of a rollup row, unique by the view's unique index. */
  datatype RollupKey = RollupKey(productId: string, bin: Instant)

  /** The aggregates of one group. */
  datatype RollupRow = RollupRow(avgPrice: real, minPrice: real, maxPrice: real)

  /** A materialized view: one row per key, so a map. */
  type Rollup = map<RollupKey, RollupRow>

  /** The group a raw ticker row belongs to at the given granularity. */
  function KeyOf(r: TickerRow, unit: nat): RollupKey
    requires unit > 0
  {
    RollupKey(r.productId, Truncate(r.time, unit))
  }

  /** The `(product_id, bin)` pairs present in the raw table. */
  function GroupKeys(tickers: seq<TickerRow>, unit: nat): set<RollupKey>
    requires unit > 0
  {
    set r | r in tickers :: KeyOf(r, unit)
  }

  /** The raw prices of one group, in table order. */
  function GroupPrices(tickers: seq<TickerRow>, key: RollupKey, unit: nat): (prices: seq<real>)
    requires unit > 0
    ensures |prices| > 0 <==> key in GroupKeys(tickers, unit)
    decreases |tickers|
  {
    if tickers == [] then []
    else
      var init, last := tickers[..|tickers| - 1], tickers[|tickers| - 1];
      assert tickers == init + [last];
      assert GroupKeys(tickers, unit) == GroupKeys(init, unit) + {KeyOf(last, unit)};
      GroupPrices(init, key, unit) + if KeyOf(last, unit) == key then [last.price] else []
  }

  /** AVG, MIN and MAX of one non-empty group. */
  function Summarize(prices: seq<real>): (row: RollupRow)
    requires |prices| > 0
    ensures row.minPrice <= row.avgPrice <= row.maxPrice
  {
    MeanBetween(prices);
    RollupRow(Mean(prices), Min(prices), Max(prices))
  }

  /**
   * The contents of a rollup view recomputed from the raw ticker table: one row
   * per `(product_id, bin)` pair present, holding AVG, MIN and MAX over exactly
   * the raw prices of that group.
   */
  function RollupOf(tickers: seq<TickerRow>, unit: nat): (view: Rollup)
    requires unit > 0
    ensures view.Keys == GroupKeys(tickers, unit)
    ensures forall k :: k in view ==>
      var prices := GroupPrices(tickers, k, unit);
      && |prices| > 0
      && view[k].avgPrice == Mean(prices)
      && view[k].minPrice in prices && view[k].maxPrice in prices
      && (forall i :: 0 <= i < |prices| ==> view[k].minPrice <= prices[i] <= view[k].maxPrice)
    ensures forall k :: k in view ==> view[k].minPrice <= view[k].avgPrice <= view[k].maxPrice
    ensures forall k :: k in view ==> BinOfSomeRow(tickers, k, unit)
  {
    forall k | k in GroupKeys(tickers, unit) ensures BinOfSomeRow(tickers, k, unit) {
      var i :| 0 <= i < |tickers| && KeyOf(tickers[i], unit) == k;
    }
    map k | k in GroupKeys(tickers, unit) :: Summarize(GroupPrices(tickers, k, unit))
  }

  /**
   * The bin of `k` is aligned to the unit (a midnight, a whole hour) and holds
   * the time of some raw row of `k`'s product.
   */
  ghost predicate BinOfSomeRow(tickers: seq<TickerRow>, k: RollupKey, unit: nat)
    requires unit > 0
  {
    && k.bin % unit == 0
    && exists i :: 0 <= i < |tickers| && tickers[i].productId == k.productId && k.bin <= tickers[i].time < k.bin + unit
  }

  /** `daily_ticker_summary`: one row per product and calendar day that has ticks. */
  function DailySummary(tickers: seq<TickerRow>): (view: Rollup)
    ensures view.Keys == GroupKeys(tickers, MicrosPerDay)
    ensures forall k :: k in view ==> BinOfSomeRow(tickers, k, MicrosPerDay)
  {
    RollupOf(tickers, MicrosPerDay)
  }

  /** `hourly_ticker_summary`: one row per product and clock hour that has ticks. */
  function HourlySummary(tickers: seq<TickerRow>): (view: Rollup)
    ensures view.Keys == GroupKeys(tickers, MicrosPerHour)
    ensures forall k :: k in view ==> BinOfSomeRow(tickers, k, MicrosPerHour)
  {
    RollupOf(tickers, MicrosPerHour)
  }

  /**
   * Every raw row has its group in the rollup, and the group's bin is the
   * truncation of the row's time: bin <= time < bin + unit.
   */
  lemma {:induction false} RollupCoversEveryRow(tickers: seq<TickerRow>, unit: nat, i: nat)
    requires unit > 0 && i < |tickers|
    ensures var k := KeyOf(tickers[i], unit);
      && k in RollupOf(tickers, unit)
      && k.productId == tickers[i].productId
      && k.bin <= tickers[i].time < k.bin + unit
  {
    assert tickers[i] in tickers;
  }

  /**
   * Appending one raw row adds at most its own group to the view and leaves every
   * other group's row as it was.
   */
  lemma {:induction false} RollupAfterAppend(tickers: seq<TickerRow>, x: TickerRow, unit: nat)
    requires unit > 0
    ensures RollupOf(tickers + [x], unit).Keys == RollupOf(tickers, unit).Keys + {KeyOf(x, unit)}
    ensures forall k :: k in RollupOf(tickers, unit) && k != KeyOf(x, unit) ==>
      RollupOf(tickers + [x], unit)[k] == RollupOf(tickers, unit)[k]
  {
    GroupKeysAppend(tickers, x, unit);
    forall k | k in RollupOf(tickers, unit) && k != KeyOf(x, unit)
      ensures RollupOf(tickers + [x], unit)[k] == RollupOf(tickers, unit)[k]
    {
      GroupPricesAppend(tickers, x, k, unit);
    }
  }

  lemma {:induction false} GroupKeysAppend(tickers: seq<TickerRow>, x: TickerRow, unit: nat)
    requires unit > 0
    ensures GroupKeys(tickers + [x], unit) == GroupKeys(tickers, unit) + {KeyOf(x, unit)}
  {
    assert forall r :: r in tickers + [x] <==> r in tickers || r == x;
  }

  lemma {:induction false} GroupPricesAppend(tickers: seq<TickerRow>, x: TickerRow, k: RollupKey, unit: nat)
    requires unit > 0 && k != KeyOf(x, unit)
    ensures GroupPrices(tickers + [x], k, unit) == GroupPrices(tickers, k, unit)
  {
    var s := tickers + [x];
    assert s[..|s| - 1] == tickers;
  }

  // ---------------------------------------------------------------------------
  // The store: `db_pool` and the database it connects to
  // ---------------------------------------------------------------------------

  /**
   * The module-level state of db.py together with the database behind it. `pool`
   * is `db_pool` (the number of the pool object, or None); tables and views
   * outlive the pool. The views are snapshots: `refreshedUpTo` is the length the
   * ticker table had at the last refresh.
   */
  class Store {
    var pool: Option<nat>
    var poolsCreated: nat
    var schemaReady: bool
    var tickers: seq<TickerRow>
    var trades: seq<TradeRow>
    var daily: Rollup
    var hourly: Rollup
    ghost var refreshedUpTo: nat

    ghost predicate Valid()
      reads this
    {
      && refreshedUpTo <= |tickers|
      && daily == DailySummary(tickers[..refreshedUpTo])
      && hourly == HourlySummary(tickers[..refreshedUpTo])
      && (!schemaReady ==> tickers == [] && trades == [])
    }

    /** Inserts succeed exactly in this state. */
    predicate Ready()
      reads this`pool, this`schemaReady
    {
      pool.Some? && schemaReady
    }

    /** Both views reflect the whole ticker table. */
    ghost predicate ViewsCurrent()
      reads this
    {
      daily == DailySummary(tickers) && hourly == HourlySummary(tickers)
    }

    /** A process that has not connected yet, over a database without the schema. */
    constructor ()
      ensures Valid()
      ensures pool == None && poolsCreated == 0 && !schemaReady
      ensures tickers == [] && trades == []
    {
      pool, poolsCreated, schemaReady := None, 0, false;
      tickers, trades := [], [];
      daily, hourly := DailySummary([]), HourlySummary([]);
      refreshedUpTo := 0;
    }

    /** `init_db_pool`: creates a pool only when there is none. */
    method InitDbPool()
      requires Valid()
      modifies this`pool, this`poolsCreated
      ensures Valid()
      ensures pool.Some?
      ensures old(pool).Some? ==> pool == old(pool) && poolsCreated == old(poolsCreated)
      ensures old(pool).None? ==> pool == Some(old(poolsCreated)) && poolsCreated == old(poolsCreated) + 1
    {
      if pool.None? {
        pool := Some(poolsCreated);
        poolsCreated := poolsCreated + 1;
      }
    }

    /** `close_db_pool`: drops the pool if there is one; the database is untouched. */
    method CloseDbPool()
      requires Valid()
      modifies this`pool
      ensures Valid()
      ensures pool == None
    {
      if pool.Some? {
        pool := None;
      }
    }

    /**
     * `initialize_db`: creates the tables and the views if they do not exist; a
     * view created here is populated from the ticker table at once.
     */
    method InitializeDb() returns (r: Outcome<StoreError>)
      requires Valid()
      modifies this
      ensures Valid()
      ensures pool == old(pool) && poolsCreated == old(poolsCreated)
      ensures tickers == old(tickers) && trades == old(trades)
      ensures old(pool).None? ==> r == Fail(PoolNotInitialized) && unchanged(this)
      ensures old(pool).Some? ==> r == Pass && schemaReady
      ensures old(pool).Some? && old(schemaReady) ==> unchanged(this)
      ensures old(pool).Some? && !old(schemaReady) ==> ViewsCurrent()
    {
      if pool.None? {
        return Fail(PoolNotInitialized);
      }
      if !schemaReady {
        schemaReady := true;
        daily, hourly := DailySummary(tickers), HourlySummary(tickers);
        refreshedUpTo := |tickers|;
        assert tickers[..refreshedUpTo] == tickers;
      }
      return Pass;
    }

    /**
     * One iteration of `periodic_refresh`: both views are recomputed from the raw
     * table, so a second refresh with no insert in between changes nothing.
     */
    method PeriodicRefresh() returns (r: Outcome<StoreError>)
      requires Valid()
      modifies this
      ensures Valid()
      ensures pool == old(pool) && poolsCreated == old(poolsCreated) && schemaReady == old(schemaReady)
      ensures tickers == old(tickers) && trades == old(trades)
      ensures old(pool).None? ==> r == Fail(PoolNotInitialized) && unchanged(this)
      ensures old(pool).Some? && !old(schemaReady) ==> r == Fail(UndefinedTable) && unchanged(this)
      ensures old(Ready()) ==> r == Pass && ViewsCurrent()
      ensures old(ViewsCurrent()) ==> daily == old(daily) && hourly == old(hourly)
    {
      if pool.None? {
        return Fail(PoolNotInitialized);
      }
      if !schemaReady {
        return Fail(UndefinedTable);
      }
      daily, hourly := DailySummary(tickers), HourlySummary(tickers);
      refreshedUpTo := |tickers|;
      assert tickers[..refreshedUpTo] == tickers;
      return Pass;
    }

    /** `insert_ticker`: appends one row to `ticker_data`. */
    method InsertTicker(productId: string, time: Instant, price: real) returns (r: Outcome<StoreError>)
      requires Valid()
      modifies this`tickers
      ensures Valid()
      ensures r.Pass? <==> Ready()
      ensures pool.None? ==> r == Fail(PoolNotInitialized)
      ensures pool.Some? && !schemaReady ==> r == Fail(UndefinedTable)
      ensures r.Pass? ==> tickers == old(tickers) + [TickerRow(productId, time, price)]
      ensures r.Fail? ==> tickers == old(tickers)
    {
      if pool.None? {
        return Fail(PoolNotInitialized);
      }
      if !schemaReady {
        return Fail(UndefinedTable);
      }
      assert (tickers + [TickerRow(productId, time, price)])[..refreshedUpTo] == tickers[..refreshedUpTo];
      tickers := tickers + [TickerRow(productId, time, price)];
      return Pass;
    }

    /** `insert_trade`: appends one row to `trade_data`. */
    method InsertTrade(productId: string, time: Instant, tradeId: string,
                       price: real, size: real, side: string) returns (r: Outcome<StoreError>)
      requires Valid()
      modifies this`trades
      ensures Valid()
      ensures r.Pass? <==> Ready()
      ensures pool.None? ==> r == Fail(PoolNotInitialized)
      ensures pool.Some? && !schemaReady ==> r == Fail(UndefinedTable)
      ensures r.Pass? ==> trades == old(trades) + [TradeRow(productId, time, tradeId, price, size, side)]
      ensures r.Fail? ==> trades == old(trades)
    {
      if pool.None? {
        return Fail(PoolNotInitialized);
      }
      if !schemaReady {
        return Fail(UndefinedTable);
      }
      trades := trades + [TradeRow(productId, time, tradeId, price, size, side)];
      return Pass;
    }
  }
}
