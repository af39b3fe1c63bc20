# crypto-dash core in Dafny

A model of the two Python services of crypto-dash and proofs about it.

- **Ingestion** (`data_acquisition`): a WebSocket subscriber hands every Coinbase
  feed message to `process_message`. That function appends ticker rows or trade rows
  to PostgreSQL through the guarded operations of `db.py`: the connection pool, the
  schema with its daily and hourly materialized views, inserts, and view refresh.
- **Serving** (`data_serving`): a Flask API with four routes over the same tables.
  - `/api/ticker_data` returns ticker prices, averaged into ten-second bins by
    `bin_time_price_data` after `clean_timestamp` has normalised textual times.
  - `/api/recent_trades` returns the newest trades.
  - `/api/aggregated_trades` returns buy and sell sums since a time.
  - `/api/last_trade` returns the newest trade.

Modules, one per concern. Each file opens with a comment naming what it models.

| file | module | models |
|---|---|---|
| `wrappers.dfy` | Wrappers | `Option`, `Result`, and `Outcome` (an operation that passes or fails) |
| `rows.dfy` | Rows | table rows, instants in microseconds, NaT, `date_trunc` |
| `sequences.dfy` | Sequences | sums and means, filters, stable sort, map, a loop that stops at the first failure |
| `db.py` → `db.dfy` | Db | rollup views as functions of the raw table; `class Store` with the pool, the schema flag, the two tables and the two views as fields |
| `main.py` → `feed.dfy` | Feed | `process_message` as loops over events and entries, and `initialize_resources` |
| `db_utils.py` → `queries.dfy` | Queries | the three read queries over the tables |
| `api.py` → `timestamps.dfy` | Timestamps | `clean_timestamp` with both regular-expression tests |
| `api.py` → `binning.dfy` | Binning | `bin_time_price_data` and pandas' `resample(...).mean().dropna()` |
| `api.py` → `api.dfy` | Api | the four routes: argument checks, status codes and answers |

Conventions:
- Conditions outside the program are inputs:
  - the database server's state is a `DbCondition` (`Available`, `ConnectFails`, `QueryFails`);
  - the library parsers are function parameters that return `None` where Python raises: `pd.to_datetime`, `datetime.fromisoformat`, `float`, `int`, and PostgreSQL's reading of a TIMESTAMP parameter.
- A route's answer is a `Reply`: `Ok` (status 200), `Refused(status, message)` for the 400 and 404 JSON errors the route builds itself, or `ServerError` for any 500. A 500 is either an exception that escapes or the answer of `get_recent_trades`' own `except` clause (api.py:152-153), whose body text is left out.
- Binning follows pandas' defaults for `resample`:
  - bins are closed on the left and labelled by their left edge;
  - the grid starts at midnight of the day of the earliest time (`origin="start_day"`);
  - a point at `t` falls in `[b, b + w)` with `b = origin + ((t - origin) / w) * w`.

Behaviour of the code that the model keeps:
- `bin_time_price_data` raises on `iloc[0]` when given empty lists.
- The bin grid starts at midnight of the day of the earliest time.
- When an entry of a message raises, the rows inserted for the earlier entries stay in the tables.
- When an entry raises, the rest of the message is skipped: one `try` covers the whole message.

## Model

| member | source | states |
|---|---|---|
| Rows.Truncate | data_acquisition/db.py:65 | `date_trunc` to a fixed unit: the bin start is a multiple of the unit (a midnight, a whole hour), at or before `t`, and `t` lies less than one unit after it |
| Db.GroupPrices | data_acquisition/db.py:62-70 | a group has prices exactly when its `(product_id, bin)` key occurs in the raw table |
| Db.Summarize | data_acquisition/db.py:66-68 | for a non-empty group, MIN <= AVG <= MAX |
| Db.RollupOf | data_acquisition/db.py:61-86 | `daily_ticker_summary` (by day) and `hourly_ticker_summary` (by hour): the view has one row per key present in the raw table, no other rows; each row's AVG is the mean of exactly that group's prices; MIN and MAX are members of the group and bound every one of its prices; every key's bin is aligned to the unit and holds a row of its product |
| Db.DailySummary | data_acquisition/db.py:62-70 | `daily_ticker_summary`: one row per product and day that has ticks; every bin is a midnight and holds a tick of its product |
| Db.HourlySummary | data_acquisition/db.py:75-83 | `hourly_ticker_summary`: one row per product and hour that has ticks; every bin is a whole hour and holds a tick of its product |
| Db.RollupCoversEveryRow | data_acquisition/db.py:62-70 | every raw row has its group in the view; the group's bin holds the row's time |
| Db.RollupAfterAppend | data_acquisition/db.py:109-118 | appending a row adds at most its own key to the recomputed view; every other group's row is unchanged |
| Db.GroupKeysAppend | data_acquisition/db.py:109-118 | the keys after an append are the old keys plus the new row's key |
| Db.GroupPricesAppend | data_acquisition/db.py:109-118 | an appended row leaves the prices of every other group as they were |
| Db.Store.constructor | data_acquisition/db.py:17-18 | a fresh process: no pool, no schema, empty tables, and the store invariant holds |
| Db.Store.InitDbPool | data_acquisition/db.py:20-26 | afterwards a pool exists; an existing pool is kept; a new one is created only when there was none |
| Db.Store.CloseDbPool | data_acquisition/db.py:28-34 | afterwards there is no pool; the tables are untouched |
| Db.Store.InitializeDb | data_acquisition/db.py:89-96 | without a pool it fails with the RuntimeError and changes nothing; otherwise the schema exists; views created here reflect the whole table; a second call changes nothing |
| Db.Store.PeriodicRefresh | data_acquisition/db.py:98-106 | one iteration: it fails without a pool or without the schema and changes nothing; otherwise both views equal the rollups of the whole table; refreshing views that are already current changes nothing |
| Db.Store.InsertTicker | data_acquisition/db.py:109-118 | it succeeds exactly when the pool and the schema exist; then exactly one row is appended; without a pool it fails with the RuntimeError, without the schema with PostgreSQL's undefined-table error, and the table is unchanged |
| Db.Store.InsertTrade | data_acquisition/db.py:120-129 | the same for `trade_data` |
| Feed.TickerRowOf | data_acquisition/main.py:32-36 | definition, no contract: the arguments of one `insert_ticker` call, `None` when a key is missing or a parser raises |
| Feed.TradeRowOf | data_acquisition/main.py:40-47 | definition, no contract: the arguments of one `insert_trade` call, `None` when a key is missing or a parser raises |
| Feed.Emitted | data_acquisition/main.py:20-47 | definition, no contract: dispatch on `channel`, ticker rows for `ticker`, trade rows for `market_trades`, nothing for another channel or for `None`; its content is stated by TickerMessageRows and TradeMessageRows |
| Feed.RemoveZDropsOnlyZ | data_acquisition/main.py:34 | `replace("Z", "")` removes every `Z` and keeps every other character as often as it occurs |
| Feed.TickerEntriesAppend | data_acquisition/main.py:30-31 | the entries of two runs of events are the entries of the first followed by those of the second |
| Feed.TradeEntriesAppend | data_acquisition/main.py:38-39 | the same for trades |
| Feed.TickerMessageRows | data_acquisition/main.py:29-36 | a ticker message inserts, in order, one row per entry up to the first entry that raises; each row has the entry's product, the envelope's timestamp and the entry's price |
| Feed.TradeMessageRows | data_acquisition/main.py:37-47 | a market_trades message inserts one row per trade up to the first that raises; each row carries the trade's own fields and time |
| Feed.WellFormedTickerMessage | data_acquisition/main.py:29-36 | a ticker message inserts one row per entry exactly when every entry's arguments evaluate without raising |
| Feed.WellFormedTradeMessage | data_acquisition/main.py:37-47 | a market_trades message inserts one row per trade exactly when every trade's arguments evaluate without raising |
| Feed.TickerEventStep | data_acquisition/main.py:30-36 | one event's entries extend the output behind the earlier events; an entry of that event that fails ends the message's output there |
| Feed.TradeEventStep | data_acquisition/main.py:38-47 | the same for trades |
| Feed.InsertTickerEntries | data_acquisition/main.py:31-36 | the inner loop appends the conversions up to the first failure; it completes exactly when none fails; a store that refuses inserts is not changed |
| Feed.InsertTradeEntries | data_acquisition/main.py:39-47 | the same for trades |
| Feed.InsertTickerEvent | data_acquisition/main.py:30-36 | one pass of the outer loop keeps the loop invariant, or ends with the rows of the whole message |
| Feed.InsertTradeEvent | data_acquisition/main.py:38-47 | the same for trades |
| Feed.InsertTickerEvents | data_acquisition/main.py:29-36 | the ticker table grows by exactly the rows up to the message's first failing entry |
| Feed.InsertTradeEvents | data_acquisition/main.py:37-47 | the trade table grows by exactly the rows up to the first failing trade |
| Feed.ProcessMessage | data_acquisition/main.py:20-49 | both tables grow by exactly `Emitted(msg)`; a store that refuses inserts is unchanged; the exception is swallowed |
| Feed.InitializeResources | data_acquisition/main.py:15-18 | afterwards inserts succeed; the tables are unchanged; an existing pool is kept and no new one is created; a schema created here starts with current views; an existing schema keeps its views; on a store already initialised nothing changes |
| Queries.FetchTickerData | data_serving/db_utils.py:11-29 | success exactly on an available server with a real start time; a connection failure is ConnectError; the answer is ascending by time and holds exactly the selected rows |
| Queries.FetchTickerDataExact | data_serving/db_utils.py:13-22 | every row of the product within the inclusive bounds is in the answer, and everything in the answer comes from such a row |
| Queries.NewestTradesExact | data_serving/db_utils.py:34-39 | the trade list is newest first; it holds every trade of the product and only trades of the product |
| Queries.FetchRecentTrades | data_serving/db_utils.py:32-48 | success exactly on an available server with LIMIT >= 0; the length is `min(limit, number of trades of the product)`; newest first; a sub-multiset of the product's trades |
| Queries.RecentTradesAreLatest | data_serving/db_utils.py:34-40 | no trade cut off by the LIMIT is newer than any trade returned |
| Queries.OlderAfterCut | data_serving/db_utils.py:38-39 | in a newest-first list nothing after position `n` is newer than anything before it |
| Queries.FetchTradesSince | data_serving/db_utils.py:50-67 | the intended behaviour: `[]` when the query fails or the bound is NaT; otherwise ascending, holding exactly the product's trades strictly after the bound |
| Queries.FetchTradesSinceAsWritten | data_serving/db_utils.py:59-69 | it fails exactly when the connection fails, and the failure is UnboundLocalError; otherwise it answers as `FetchTradesSince` |
| Queries.TradesSinceUnreachableServer | data_serving/db_utils.py:59-69 | with the server unreachable the intended answer is `[]` and the written code raises; in every other condition the two agree |
| Queries.TradesSinceExcludesBound | data_serving/db_utils.py:54 | every trade returned is strictly after `since`, and every one is a trade of the product |
| Timestamps.FindGmtMatches | data_serving/api.py:29 | the backtracking search finds a position exactly when `.*\sGMT` can match there |
| Timestamps.HasGmtIsMatch | data_serving/api.py:29 | the executable test equals `re.match(r".*\sGMT", ts)` |
| Timestamps.LeadingSpaces | data_serving/api.py:30 | the count of leading whitespace characters: all of them blank, the next one not |
| Timestamps.TrailingSpaces | data_serving/api.py:30 | the same at the end |
| Timestamps.Strip | data_serving/api.py:30 | `strip()` removes only whitespace outside a slice; the result neither starts nor ends with whitespace; an all-blank string becomes empty |
| Timestamps.StripBounds | data_serving/api.py:30 | Strip's cut points leave only whitespace outside and stop at non-whitespace |
| Timestamps.ReplaceT | data_serving/api.py:28 | `replace("T", " ")`: same length, every `T` becomes a space, every other character is kept |
| Timestamps.CleanTimestamp | data_serving/api.py:26-31 | an ISO-prefixed string gets each `T` replaced; otherwise a `.*\sGMT` match loses four characters and is stripped; any other string is returned unchanged |
| Timestamps.IsoCleanedHasSpaceSeparator | data_serving/api.py:27-28 | a cleaned ISO string keeps its date and time digits, has a space as separator, and no longer passes the ISO test |
| Timestamps.GmtSuffixCleaned | data_serving/api.py:29-30 | a one-line date without surrounding whitespace, followed by ` GMT` and not ISO-prefixed, is cleaned back to that date |
| Timestamps.HttpDateCleaned | data_serving/api.py:29-30 | `"Mon, 01 Jan 2024 10:00:00 GMT"` becomes `"Mon, 01 Jan 2024 10:00:00"` |
| Binning.ParsedTimes | data_serving/api.py:84-88 | one stamp per row: datetimes are kept; strings are cleaned, then parsed, and NaT stands where parsing raises (`errors="coerce"`) |
| Binning.Points | data_serving/api.py:88-94 | the frame rows the resampling sees, at most one per input row |
| Binning.PointsAppend | data_serving/api.py:88-94 | rows contribute independently: the points of two runs of rows are the points of the first followed by those of the second, so repeated rows give repeated points |
| Binning.PointsOfOneRow | data_serving/api.py:88-94 | one row gives its own point, or none when its time is NaT |
| Binning.PointsMembers | data_serving/api.py:88-94 | a point is seen exactly when it is a row with a non-NaT time and its price |
| Binning.PointsWithoutNaT | data_serving/api.py:88-94 | without NaT every row is seen, in order |
| Binning.Earliest | data_serving/api.py:94 | the earliest time: a lower bound that is attained |
| Binning.Latest | data_serving/api.py:94 | an upper bound of all times |
| Binning.Origin | data_serving/api.py:94 | the grid origin is midnight of the earliest day: a multiple of a day, at or before every time, and within a day of one |
| Binning.BinLabel | data_serving/api.py:94 | the label is a grid point, a whole number of widths from the origin, and the time lies in the left-closed bin it starts |
| Binning.PricesInNonEmpty | data_serving/api.py:94 | a bin is non-empty exactly when some point falls in it |
| Binning.SumAndCount | data_serving/api.py:94 | the loop computes the sum and the number of one bin's prices |
| Binning.BinStep | data_serving/api.py:94 | handling one grid bin extends the progress invariant by that bin when it is non-empty, and by nothing when it is empty |
| Binning.WalkBins | data_serving/api.py:94 | walking the grid past the latest point establishes the progress invariant up to the end |
| Binning.Resample | data_serving/api.py:94 | the result is the binning of the points: ascending labels of the non-empty bins, each with the mean of its prices, and no point left out |
| Binning.BinTimePriceData | data_serving/api.py:80-100 | fails with the frame constructor's error exactly on different lengths, and at `iloc[0]` exactly on empty lists; otherwise it returns the binning of the non-NaT rows |
| Binning.AscendingUnique | data_serving/api.py:94 | strictly ascending sequences with the same elements are equal |
| Binning.BinningUnique | data_serving/api.py:94 | the binning of the points is unique, so `Resample` computes the only answer |
| Binning.SinglePoint | data_serving/api.py:94 | a single point gives one bin; its label holds the time and its mean is the point's price |
| Binning.TwoPointsOneBin | data_serving/api.py:94 | prices 10 and 20, five seconds apart from midnight, give the one bin `[0]` with mean `15` |
| Api.StartOf | data_serving/api.py:109-113 | definition, no contract: `pd.to_datetime(start_time)`, `None` when it raises, also for a missing argument |
| Api.EndOf | data_serving/db_utils.py:20-22 | definition, no contract: no bound for a falsy `end_time`, otherwise PostgreSQL's reading of it, unreadable when that raises |
| Api.TickerRows | data_serving/api.py:106-120 | 400 for an unreadable start, and 400 for a missing product after it; past both checks every other answer is a 500 (a NaT start, an unreadable end, a failing query); `Ok` exactly for a real start, a product, a reachable server and a readable end; `Ok` rows are ascending, exactly the selected rows, none before the start |
| Api.Relay | data_serving/api.py:113-118 | a failure stays a failure when passed on: never `Ok`; a refusal keeps its status and message; a 500 stays a 500 |
| Api.BinRows | data_serving/api.py:121-127 | the `>= start_time` filter keeps every row, and the binning sees one point per row |
| Api.RowsAsPoints | data_serving/api.py:121-126 | the time and price columns from the rows give back one point per row |
| Api.GetTickerData | data_serving/api.py:103-129 | intended: `Ok` exactly when `TickerRows` is; refusals are relayed; a 500 of `TickerRows` stays a 500; the body is the binning of the rows; no rows give empty lists |
| Api.GetTickerDataAsWritten | data_serving/api.py:120-127 | as written: no rows give a 500; refusals are relayed; a 500 of `TickerRows` stays a 500; otherwise the body is the binning of the rows |
| Api.EmptyTableHasNoRows | data_serving/api.py:120-122 | a valid request on a reachable server over an empty table gets no rows: the 500 of the written code is reachable |
| Api.LimitOf | data_serving/api.py:136 | definition, no contract: `int(limit)` with 10 for a missing argument, `None` when `int` raises |
| Api.GetRecentTrades | data_serving/api.py:132-153 | an unreadable limit escapes as 500 before the product check; a missing product is 400; past both checks every other answer is a 500 (a failing query, a negative LIMIT); `Ok` exactly for a product, a reachable server and limit >= 0; the re-sort and re-cut return the query's answer unchanged |
| Api.RecentTradesAnswer | data_serving/api.py:141-151 | an answer is newest first, of length `min(limit, trades)`, drawn from the product's trades, and no trade left out is newer than one kept |
| Api.GetLastTrade | data_serving/api.py:200-213 | 400 without a product; 500 when the query fails; on a reachable server 404 exactly when the product has no trade, and `Ok` when it has one |
| Api.NoTradeOfProduct | data_serving/api.py:208-211 | the trade list is empty exactly when no row has the product |
| Api.NewestHead | data_serving/api.py:208-213 | the head of the trade list is a trade of the product, and no trade of the product is newer |
| Api.LastTradeIsNewest | data_serving/api.py:208-213 | the answered trade is the product's newest trade |
| Api.AggregateOf | data_serving/api.py:188-191 | `count` is the number of trades and `total_size` their sizes; when the size is positive, `avg_price * total_size` is the turnover; otherwise the average is 0 |
| Api.AggregateTrades | data_serving/api.py:178-196 | the early answer for no trades equals the general one; the answer aggregates the BUY and the SELL filters |
| Api.SidesPartition | data_serving/api.py:185-186 | as multisets, buys + sells + other sides = all trades |
| Api.CountsAddUp | data_serving/api.py:185-194 | when every side is BUY or SELL, the two counts add up to the number of trades |
| Api.TurnoverBetween | data_serving/api.py:190 | with non-negative sizes and prices in `[lo, hi]`, the turnover lies between `lo` and `hi` times the total size |
| Api.AvgPriceBetween | data_serving/api.py:190 | the size-weighted average price lies between the lowest and the highest price |
| Api.GetAggregatedTrades | data_serving/api.py:158-198 | intended: 400 for a missing argument, and 400 for an unreadable `since`; `Ok` exactly otherwise; the body aggregates the trades after `since` (none when the query fails) |
| Api.GetAggregatedTradesAsWritten | data_serving/api.py:170-198 | as written: 500 exactly when the arguments are good and the server cannot be reached; otherwise it answers as `GetAggregatedTrades` |
| Api.AggregatedUnreachableServer | data_serving/api.py:176-182 | on an unreachable server the intended route answers zero aggregates and the written one a 500 |

## Left out

- The WebSocket client, subscription, `asyncio` scheduling and the hourly sleep of `periodic_refresh`. They are I/O and concurrency; `PeriodicRefresh` models one iteration of the loop.
- JSON decoding of feed messages (`json.loads` when the message is a string). A message is modelled already decoded, with `Option` for a key that may be missing. Text that is not JSON, and fields of the wrong JSON type, raise inside the `try` and are not modelled as inputs.
- Logging and `print` output, and the text of 500 error bodies.
- Api.TickerRows: the 400 body for an unreadable `start_time` is modelled as its fixed prefix `Invalid start_time format`. The `: {str(e)}` suffix that api.py:113 appends carries the parser's exception text, which the abstract parser does not model.
- The library parsers (`pd.to_datetime`, `datetime.fromisoformat`, `float`, `int`, PostgreSQL timestamp input) are parameters, not implementations.
- Time zones. `tz_localize(None)` is the identity on the naive instants of the model.
- `Decimal` and floating-point rounding. Prices and sizes are `real`, so sums and means are exact.
- `isoformat()` of the answered labels. The model answers the instants.
- `\d` and `\s`: `\d` is taken as the ASCII digits. `\s` and `strip()` are taken as the characters `str.isspace()` accepts.
- A time column that mixes datetimes and strings. The column is all one or all the other, decided by the first row as line 84 does.
- Binning.BinTimePriceData: `bin_size` is a whole number of seconds, the only form the API uses (`"10s"`). Other pandas frequency strings (month ends, business days) are not modelled.
- Binning.BinTimePriceData: an all-NaT time column is answered with no bins. pandas' behaviour on an index of only NaT is not modelled further.
- Ties in time order. Rows of equal time come out in table order, which is one of the orders PostgreSQL may return.
- The SERIAL `id` columns and the indexes. An id is a row's position; indexes change no answer.
- Connection pooling and transactions: each insert either appends one row or changes nothing.
- Db.Store.InsertTicker, Db.Store.InsertTrade: on a store with a pool and a schema an insert always succeeds. A database fault in `pool.acquire` or `execute` on a ready store is not modelled; in the source it would end the message at main.py:48.
- Binning.ParsedTimes: each string is parsed on its own. `pd.to_datetime` on a whole series infers one format from the first string and may turn rows in another format into NaT; that inference is not modelled.

## Findings

| source | as written | input that shows it | evidently intended | confidence | as-written member | corrected member |
|---|---|---|---|---|---|---|
| data_serving/db_utils.py:59-69 | when `connect_to_db()` raises, the `finally` clause calls `conn.close()` on an unbound `conn`, so UnboundLocalError escapes and overrides the `return []` | any call while the database is unreachable (`ConnectFails`); `/api/aggregated_trades` then answers 500 | the except clause's `[]`, so the route answers zero aggregates | not executed | Queries.FetchTradesSinceAsWritten, Api.GetAggregatedTradesAsWritten (shown by Queries.TradesSinceUnreachableServer, Api.AggregatedUnreachableServer) | Queries.FetchTradesSince, Api.GetAggregatedTrades |
| data_serving/api.py:120-127 | with no rows, `pd.DataFrame([])` has no `time` column, so `df['time']` raises KeyError and the route answers 500 | an empty ticker table, or no rows in the requested range, with a valid start time (Api.EmptyTableHasNoRows) | an empty series: `[]` with status 200 | not executed | Api.GetTickerDataAsWritten | Api.GetTickerData |
