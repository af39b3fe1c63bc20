/**
 * The feed dispatcher of the ingestion process (data_acquisition/main.py,
 * `process_message` and the start-up in `initialize_resources`). A message is
 * modelled as already decoded from JSON; a key that may be missing is an Option.
 */
module Feed {
  import opened Wrappers
  import opened Rows
  import opened Sequences
  import opened Db

  /** One element of an event's `tickers` list; `price` is the raw JSON value as text. */
  datatype TickerEntry = TickerEntry(productId: Option<string>, price: Option<string>)

  /** One element of an event's `trades` list. */
  datatype TradeEntry = TradeEntry(productId: Option<string>, time: Option<string>,
                                   tradeId: Option<string>, price: Option<string>,
                                   size: Option<string>, side: Option<string>)

  /** One element of the envelope's `events` list. */
  datatype Event = Event(tickers: Option<seq<TickerEntry>>, trades: Option<seq<TradeEntry>>)

  /** A decoded envelope: `channel`, envelope-level `timestamp` and `events`. */
  datatype Message = Message(channel: Option<string>, timestamp: Option<string>,
                             events: Option<seq<Event>>)

  /**
   * The library conversions the dispatcher calls: `datetime.fromisoformat` and
   * `float`, each None where Python raises.
   */
  datatype Decoders = Decoders(fromIsoFormat: string -> Option<Instant>, toFloat: string -> Option<real>)

  /** `d.get(key, [])`. */
  function OrEmpty<T>(o: Option<seq<T>>): seq<T> {
    if o.Some? then o.value else []
  }

  predicate NotZ(c: char) {
    c != 'Z'
  }

  /** `s.replace("Z", "")`. */
  function RemoveZ(s: string): string {
    Filter(s, NotZ)
  }

  /** Normalising a feed timestamp removes every `Z` and keeps every other character. */
  lemma {:induction false} RemoveZDropsOnlyZ(s: string)
    ensures 'Z' !in RemoveZ(s)
    ensures forall c :: c != 'Z' ==> multiset(RemoveZ(s))[c] == multiset(s)[c]
  {
    FilterCounts(s, NotZ);
    assert multiset(RemoveZ(s))['Z'] == 0;
  }

  /** A feed timestamp: `datetime.fromisoformat(raw.replace("Z", ""))`. */
  function FeedTime(raw: string, dec: Decoders): Option<Instant> {
    dec.fromIsoFormat(RemoveZ(raw))
  }

  /**
   * The arguments of one `insert_ticker` call, or None when evaluating them
   * raises (missing key, bad timestamp, bad price).
   */
  function TickerRowOf(e: TickerEntry, timestamp: Option<string>, dec: Decoders): Option<TickerRow> {
    if e.productId.Some? && timestamp.Some? && FeedTime(timestamp.value, dec).Some?
       && e.price.Some? && dec.toFloat(e.price.value).Some?
    then Some(TickerRow(e.productId.value, FeedTime(timestamp.value, dec).value, dec.toFloat(e.price.value).value))
    else None
  }

  /** The arguments of one `insert_trade` call, or None when evaluating them raises. */
  function TradeRowOf(e: TradeEntry, dec: Decoders): Option<TradeRow> {
    if e.productId.Some? && e.time.Some? && FeedTime(e.time.value, dec).Some? && e.tradeId.Some?
       && e.price.Some? && dec.toFloat(e.price.value).Some?
       && e.size.Some? && dec.toFloat(e.size.value).Some? && e.side.Some?
    then Some(TradeRow(e.productId.value, FeedTime(e.time.value, dec).value, e.tradeId.value,
                       dec.toFloat(e.price.value).value, dec.toFloat(e.size.value).value, e.side.value))
    else None
  }

  /** The ticker entries of all events, in event order then entry order. */
  function TickerEntries(events: seq<Event>): seq<TickerEntry>
    decreases |events|
  {
    if events == [] then []
    else TickerEntries(events[..|events| - 1]) + OrEmpty(events[|events| - 1].tickers)
  }

  /** The trade entries of all events, in event order then entry order. */
  function TradeEntries(events: seq<Event>): seq<TradeEntry>
    decreases |events|
  {
    if events == [] then []
    else TradeEntries(events[..|events| - 1]) + OrEmpty(events[|events| - 1].trades)
  }

  lemma {:induction false} TickerEntriesAppend(a: seq<Event>, b: seq<Event>)
    ensures TickerEntries(a + b) == TickerEntries(a) + TickerEntries(b)
    decreases |b|
  {
    if b != [] {
      assert (a + b)[..|a + b| - 1] == a + b[..|b| - 1];
      TickerEntriesAppend(a, b[..|b| - 1]);
    } else {
      assert a + b == a;
    }
  }

  lemma {:induction false} TradeEntriesAppend(a: seq<Event>, b: seq<Event>)
    ensures TradeEntries(a + b) == TradeEntries(a) + TradeEntries(b)
    decreases |b|
  {
    if b != [] {
      assert (a + b)[..|a + b| - 1] == a + b[..|b| - 1];
      TradeEntriesAppend(a, b[..|b| - 1]);
    } else {
      assert a + b == a;
    }
  }

  /** The evaluation of the `insert_ticker` arguments, as a function of the entry. */
  function TickerRowFn(timestamp: Option<string>, dec: Decoders): TickerEntry -> Option<TickerRow> {
    e => TickerRowOf(e, timestamp, dec)
  }

  /** The evaluation of the `insert_trade` arguments, as a function of the entry. */
  function TradeRowFn(dec: Decoders): TradeEntry -> Option<TradeRow> {
    e => TradeRowOf(e, dec)
  }

  /** The outcome of evaluating the `insert_ticker` arguments of each entry. */
  function TickerConversions(entries: seq<TickerEntry>, timestamp: Option<string>, dec: Decoders)
    : seq<Option<TickerRow>>
  {
    Map(entries, TickerRowFn(timestamp, dec))
  }

  /** The outcome of evaluating the `insert_trade` arguments of each entry. */
  function TradeConversions(entries: seq<TradeEntry>, dec: Decoders): seq<Option<TradeRow>> {
    Map(entries, TradeRowFn(dec))
  }

  /** What one message adds to each table when the store accepts inserts. */
  datatype Emission = Emission(tickers: seq<TickerRow>, trades: seq<TradeRow>)

  /**
   * Dispatch on `channel`: a `ticker` message yields ticker rows, a
   * `market_trades` message trade rows, each up to the first entry that raises;
   * None and every other channel yield nothing.
   */
  function Emitted(msg: Option<Message>, dec: Decoders): Emission {
    if msg.None? then Emission([], [])
    else
      var m := msg.value;
      if m.channel == Some("ticker") then
        Emission(UntilNone(TickerConversions(TickerEntries(OrEmpty(m.events)), m.timestamp, dec)), [])
      else if m.channel == Some("market_trades") then
        Emission([], UntilNone(TradeConversions(TradeEntries(OrEmpty(m.events)), dec)))
      else Emission([], [])
  }

  /**
   * A ticker message inserts, in event then entry order, one row per entry up to
   * the first entry that raises; every row carries the envelope's timestamp.
   */
  lemma {:induction false} TickerMessageRows(m: Message, dec: Decoders)
    requires m.channel == Some("ticker")
    ensures var entries, rows := TickerEntries(OrEmpty(m.events)), Emitted(Some(m), dec).tickers;
      && Emitted(Some(m), dec).trades == []
      && |rows| <= |entries|
      && (forall i :: 0 <= i < |rows| ==>
            && entries[i].productId == Some(rows[i].productId)
            && m.timestamp.Some? && FeedTime(m.timestamp.value, dec) == Some(rows[i].time)
            && entries[i].price.Some? && dec.toFloat(entries[i].price.value) == Some(rows[i].price))
      && (|rows| < |entries| ==> TickerRowOf(entries[|rows|], m.timestamp, dec).None?)
  {
    var entries := TickerEntries(OrEmpty(m.events));
    MapAt(entries, TickerRowFn(m.timestamp, dec));
    UntilNoneIsLongestPrefix(TickerConversions(entries, m.timestamp, dec));
  }

  /**
   * A market_trades message inserts one row per trade up to the first that raises;
   * each row carries that trade's own time.
   */
  lemma {:induction false} TradeMessageRows(m: Message, dec: Decoders)
    requires m.channel == Some("market_trades")
    ensures var entries, rows := TradeEntries(OrEmpty(m.events)), Emitted(Some(m), dec).trades;
      && Emitted(Some(m), dec).tickers == []
      && |rows| <= |entries|
      && (forall i :: 0 <= i < |rows| ==>
            && entries[i].productId == Some(rows[i].productId)
            && entries[i].time.Some? && FeedTime(entries[i].time.value, dec) == Some(rows[i].time)
            && entries[i].tradeId == Some(rows[i].tradeId)
            && entries[i].price.Some? && dec.toFloat(entries[i].price.value) == Some(rows[i].price)
            && entries[i].size.Some? && dec.toFloat(entries[i].size.value) == Some(rows[i].size)
            && entries[i].side == Some(rows[i].side))
      && (|rows| < |entries| ==> TradeRowOf(entries[|rows|], dec).None?)
  {
    var entries := TradeEntries(OrEmpty(m.events));
    MapAt(entries, TradeRowFn(dec));
    UntilNoneIsLongestPrefix(TradeConversions(entries, dec));
  }

  /**
   * A ticker message inserts one row per entry exactly when every entry's
   * arguments evaluate without raising.
   */
  lemma {:induction false} WellFormedTickerMessage(m: Message, dec: Decoders)
    requires m.channel == Some("ticker")
    ensures |Emitted(Some(m), dec).tickers| == |TickerEntries(OrEmpty(m.events))| <==>
      forall e :: e in TickerEntries(OrEmpty(m.events)) ==> TickerRowOf(e, m.timestamp, dec).Some?
  {
    var entries := TickerEntries(OrEmpty(m.events));
    var conversions := TickerConversions(entries, m.timestamp, dec);
    AllSomeIsEverySome(conversions);
    MapAt(entries, TickerRowFn(m.timestamp, dec));
    if forall i :: 0 <= i < |conversions| ==> conversions[i].Some? {
      forall e | e in entries ensures TickerRowOf(e, m.timestamp, dec).Some? {
        var i :| 0 <= i < |entries| && entries[i] == e;
        assert conversions[i].Some?;
      }
    } else {
      var i :| 0 <= i < |conversions| && conversions[i].None?;
      assert entries[i] in entries;
    }
  }

  /**
   * A market_trades message inserts one row per trade exactly when every
   * trade's arguments evaluate without raising.
   */
  lemma {:induction false} WellFormedTradeMessage(m: Message, dec: Decoders)
    requires m.channel == Some("market_trades")
    ensures |Emitted(Some(m), dec).trades| == |TradeEntries(OrEmpty(m.events))| <==>
      forall e :: e in TradeEntries(OrEmpty(m.events)) ==> TradeRowOf(e, dec).Some?
  {
    var entries := TradeEntries(OrEmpty(m.events));
    var conversions := TradeConversions(entries, dec);
    AllSomeIsEverySome(conversions);
    MapAt(entries, TradeRowFn(dec));
    if forall i :: 0 <= i < |conversions| ==> conversions[i].Some? {
      forall e | e in entries ensures TradeRowOf(e, dec).Some? {
        var i :| 0 <= i < |entries| && entries[i] == e;
        assert conversions[i].Some?;
      }
    } else {
      var i :| 0 <= i < |conversions| && conversions[i].None?;
      assert entries[i] in entries;
    }
  }

  /** The entries of events `..i+1` are those of events `..i` followed by those of event `i`. */
  lemma {:induction false} TickerConversionsStep(events: seq<Event>, i: nat, timestamp: Option<string>, dec: Decoders)
    requires i < |events|
    ensures TickerConversions(TickerEntries(events[..i + 1]), timestamp, dec)
      == TickerConversions(TickerEntries(events[..i]), timestamp, dec)
         + TickerConversions(OrEmpty(events[i].tickers), timestamp, dec)
  {
    var p := events[..i + 1];
    assert p[..|p| - 1] == events[..i];
    MapAppend(TickerEntries(events[..i]), OrEmpty(events[i].tickers), TickerRowFn(timestamp, dec));
  }

  /** All entries are those of events `..i+1` followed by those of the remaining events. */
  lemma {:induction false} TickerConversionsRest(events: seq<Event>, i: nat, timestamp: Option<string>, dec: Decoders)
    requires i < |events|
    ensures TickerConversions(TickerEntries(events), timestamp, dec)
      == TickerConversions(TickerEntries(events[..i + 1]), timestamp, dec)
         + TickerConversions(TickerEntries(events[i + 1..]), timestamp, dec)
  {
    TickerEntriesAppend(events[..i + 1], events[i + 1..]);
    assert events[..i + 1] + events[i + 1..] == events;
    MapAppend(TickerEntries(events[..i + 1]), TickerEntries(events[i + 1..]), TickerRowFn(timestamp, dec));
  }

  lemma {:induction false} TradeConversionsStep(events: seq<Event>, i: nat, dec: Decoders)
    requires i < |events|
    ensures TradeConversions(TradeEntries(events[..i + 1]), dec)
      == TradeConversions(TradeEntries(events[..i]), dec) + TradeConversions(OrEmpty(events[i].trades), dec)
  {
    var p := events[..i + 1];
    assert p[..|p| - 1] == events[..i];
    MapAppend(TradeEntries(events[..i]), OrEmpty(events[i].trades), TradeRowFn(dec));
  }

  lemma {:induction false} TradeConversionsRest(events: seq<Event>, i: nat, dec: Decoders)
    requires i < |events|
    ensures TradeConversions(TradeEntries(events), dec)
      == TradeConversions(TradeEntries(events[..i + 1]), dec) + TradeConversions(TradeEntries(events[i + 1..]), dec)
  {
    TradeEntriesAppend(events[..i + 1], events[i + 1..]);
    assert events[..i + 1] + events[i + 1..] == events;
    MapAppend(TradeEntries(events[..i + 1]), TradeEntries(events[i + 1..]), TradeRowFn(dec));
  }

  /** What one event of a ticker message contributes to the loop that stops at the first failure. */
  lemma {:induction false} TickerEventStep(events: seq<Event>, i: nat, timestamp: Option<string>, dec: Decoders)
    requires i < |events|
    requires AllSome(TickerConversions(TickerEntries(events[..i]), timestamp, dec))
    ensures var here := TickerConversions(OrEmpty(events[i].tickers), timestamp, dec);
      && UntilNone(TickerConversions(TickerEntries(events[..i + 1]), timestamp, dec))
         == UntilNone(TickerConversions(TickerEntries(events[..i]), timestamp, dec)) + UntilNone(here)
      && (AllSome(TickerConversions(TickerEntries(events[..i + 1]), timestamp, dec)) <==> AllSome(here))
      && (!AllSome(here) ==>
            UntilNone(TickerConversions(TickerEntries(events), timestamp, dec))
            == UntilNone(TickerConversions(TickerEntries(events[..i + 1]), timestamp, dec)))
  {
    TickerConversionsStep(events, i, timestamp, dec);
    TickerConversionsRest(events, i, timestamp, dec);
    UntilNoneBlock(TickerConversions(TickerEntries(events[..i]), timestamp, dec),
                   TickerConversions(OrEmpty(events[i].tickers), timestamp, dec),
                   TickerConversions(TickerEntries(events[i + 1..]), timestamp, dec));
  }

  /** What one event of a market_trades message contributes. */
  lemma {:induction false} TradeEventStep(events: seq<Event>, i: nat, dec: Decoders)
    requires i < |events|
    requires AllSome(TradeConversions(TradeEntries(events[..i]), dec))
    ensures var here := TradeConversions(OrEmpty(events[i].trades), dec);
      && UntilNone(TradeConversions(TradeEntries(events[..i + 1]), dec))
         == UntilNone(TradeConversions(TradeEntries(events[..i]), dec)) + UntilNone(here)
      && (AllSome(TradeConversions(TradeEntries(events[..i + 1]), dec)) <==> AllSome(here))
      && (!AllSome(here) ==>
            UntilNone(TradeConversions(TradeEntries(events), dec))
            == UntilNone(TradeConversions(TradeEntries(events[..i + 1]), dec)))
  {
    TradeConversionsStep(events, i, dec);
    TradeConversionsRest(events, i, dec);
    UntilNoneBlock(TradeConversions(TradeEntries(events[..i]), dec),
                   TradeConversions(OrEmpty(events[i].trades), dec),
                   TradeConversions(TradeEntries(events[i + 1..]), dec));
  }

  // ---------------------------------------------------------------------------
  // process_message
  // ---------------------------------------------------------------------------

  /**
   * The inner loop over one event's tickers. `completed` is false when an entry
   * or an insert raised, which ends the processing of the whole message.
   */
  method InsertTickerEntries(store: Store, entries: seq<TickerEntry>, timestamp: Option<string>, dec: Decoders)
    returns (completed: bool)
    requires store.Valid()
    modifies store`tickers
    ensures store.Valid()
    ensures store.Ready() ==>
      && store.tickers == old(store.tickers) + UntilNone(TickerConversions(entries, timestamp, dec))
      && (completed <==> AllSome(TickerConversions(entries, timestamp, dec)))
    ensures !store.Ready() ==> store.tickers == old(store.tickers) && (completed ==> entries == [])
  {
    ghost var conv := TickerConversions(entries, timestamp, dec);
    var j := 0;
    while j < |entries|
      invariant 0 <= j <= |entries|
      invariant store.Valid()
      invariant AllSome(conv[..j])
      invariant store.Ready() ==> store.tickers == old(store.tickers) + UntilNone(conv[..j])
      invariant !store.Ready() ==> store.tickers == old(store.tickers) && j == 0
    {
      UntilNoneStep(conv, j);
      var row := TickerRowOf(entries[j], timestamp, dec);
      MapAt(entries, TickerRowFn(timestamp, dec));
      assert conv[j] == row;
      if row.None? {
        // evaluating the arguments raised: the except clause ends the message
        return false;
      }
      var r := store.InsertTicker(row.value.productId, row.value.time, row.value.price);
      if r.Fail? {
        return false;
      }
      j := j + 1;
    }
    assert conv[..j] == conv;
    return true;
  }

  /** The inner loop over one event's trades. */
  method InsertTradeEntries(store: Store, entries: seq<TradeEntry>, dec: Decoders) returns (completed: bool)
    requires store.Valid()
    modifies store`trades
    ensures store.Valid()
    ensures store.Ready() ==>
      && store.trades == old(store.trades) + UntilNone(TradeConversions(entries, dec))
      && (completed <==> AllSome(TradeConversions(entries, dec)))
    ensures !store.Ready() ==> store.trades == old(store.trades) && (completed ==> entries == [])
  {
    ghost var conv := TradeConversions(entries, dec);
    var j := 0;
    while j < |entries|
      invariant 0 <= j <= |entries|
      invariant store.Valid()
      invariant AllSome(conv[..j])
      invariant store.Ready() ==> store.trades == old(store.trades) + UntilNone(conv[..j])
      invariant !store.Ready() ==> store.trades == old(store.trades) && j == 0
    {
      UntilNoneStep(conv, j);
      var row := TradeRowOf(entries[j], dec);
      MapAt(entries, TradeRowFn(dec));
      assert conv[j] == row;
      if row.None? {
        return false;
      }
      var t := row.value;
      assert TradeRow(t.productId, t.time, t.tradeId, t.price, t.size, t.side) == t;
      var r := store.InsertTrade(t.productId, t.time, t.tradeId, t.price, t.size, t.side);
      if r.Fail? {
        return false;
      }
      j := j + 1;
    }
    assert conv[..j] == conv;
    return true;
  }

  /**
   * One pass of the loop over the events of a ticker message: the rows of event
   * `i` go behind those of the events before it; when one of its entries raises,
   * the rows so far are all the message inserts.
   */
  method InsertTickerEvent(store: Store, events: seq<Event>, i: nat, timestamp: Option<string>, dec: Decoders,
                           ghost base: seq<TickerRow>)
    returns (completed: bool)
    requires i < |events| && store.Valid()
    requires AllSome(TickerConversions(TickerEntries(events[..i]), timestamp, dec))
    requires store.Ready() ==>
      store.tickers == base + UntilNone(TickerConversions(TickerEntries(events[..i]), timestamp, dec))
    requires !store.Ready() ==> store.tickers == base
    modifies store`tickers
    ensures store.Valid()
    ensures completed ==> AllSome(TickerConversions(TickerEntries(events[..i + 1]), timestamp, dec))
    ensures completed && store.Ready() ==>
      store.tickers == base + UntilNone(TickerConversions(TickerEntries(events[..i + 1]), timestamp, dec))
    ensures !completed && store.Ready() ==>
      store.tickers == base + UntilNone(TickerConversions(TickerEntries(events), timestamp, dec))
    ensures !store.Ready() ==> store.tickers == base
  {
    TickerEventStep(events, i, timestamp, dec);
    ghost var front := UntilNone(TickerConversions(TickerEntries(events[..i]), timestamp, dec));
    ghost var here := UntilNone(TickerConversions(OrEmpty(events[i].tickers), timestamp, dec));
    completed := InsertTickerEntries(store, OrEmpty(events[i].tickers), timestamp, dec);
    AppendAssoc(base, front, here);
  }

  /** The loop over the events of a ticker message. */
  method InsertTickerEvents(store: Store, events: seq<Event>, timestamp: Option<string>, dec: Decoders)
    requires store.Valid()
    modifies store`tickers
    ensures store.Valid()
    ensures store.Ready() ==>
      store.tickers == old(store.tickers) + UntilNone(TickerConversions(TickerEntries(events), timestamp, dec))
    ensures !store.Ready() ==> store.tickers == old(store.tickers)
  {
    var i := 0;
    while i < |events|
      invariant 0 <= i <= |events|
      invariant store.Valid()
      invariant AllSome(TickerConversions(TickerEntries(events[..i]), timestamp, dec))
      invariant store.Ready() ==>
        store.tickers == old(store.tickers) + UntilNone(TickerConversions(TickerEntries(events[..i]), timestamp, dec))
      invariant !store.Ready() ==> store.tickers == old(store.tickers)
    {
      var completed := InsertTickerEvent(store, events, i, timestamp, dec, old(store.tickers));
      if !completed {
        return;
      }
      i := i + 1;
    }
    assert events[..i] == events;
  }

  /** One pass of the loop over the events of a market_trades message. */
  method InsertTradeEvent(store: Store, events: seq<Event>, i: nat, dec: Decoders, ghost base: seq<TradeRow>)
    returns (completed: bool)
    requires i < |events| && store.Valid()
    requires AllSome(TradeConversions(TradeEntries(events[..i]), dec))
    requires store.Ready() ==> store.trades == base + UntilNone(TradeConversions(TradeEntries(events[..i]), dec))
    requires !store.Ready() ==> store.trades == base
    modifies store`trades
    ensures store.Valid()
    ensures completed ==> AllSome(TradeConversions(TradeEntries(events[..i + 1]), dec))
    ensures completed && store.Ready() ==>
      store.trades == base + UntilNone(TradeConversions(TradeEntries(events[..i + 1]), dec))
    ensures !completed && store.Ready() ==>
      store.trades == base + UntilNone(TradeConversions(TradeEntries(events), dec))
    ensures !store.Ready() ==> store.trades == base
  {
    TradeEventStep(events, i, dec);
    ghost var front := UntilNone(TradeConversions(TradeEntries(events[..i]), dec));
    ghost var here := UntilNone(TradeConversions(OrEmpty(events[i].trades), dec));
    completed := InsertTradeEntries(store, OrEmpty(events[i].trades), dec);
    AppendAssoc(base, front, here);
  }

  /** The loop over the events of a market_trades message. */
  method InsertTradeEvents(store: Store, events: seq<Event>, dec: Decoders)
    requires store.Valid()
    modifies store`trades
    ensures store.Valid()
    ensures store.Ready() ==>
      store.trades == old(store.trades) + UntilNone(TradeConversions(TradeEntries(events), dec))
    ensures !store.Ready() ==> store.trades == old(store.trades)
  {
    var i := 0;
    while i < |events|
      invariant 0 <= i <= |events|
      invariant store.Valid()
      invariant AllSome(TradeConversions(TradeEntries(events[..i]), dec))
      invariant store.Ready() ==>
        store.trades == old(store.trades) + UntilNone(TradeConversions(TradeEntries(events[..i]), dec))
      invariant !store.Ready() ==> store.trades == old(store.trades)
    {
      var completed := InsertTradeEvent(store, events, i, dec, old(store.trades));
      if !completed {
        return;
      }
      i := i + 1;
    }
    assert events[..i] == events;
  }

  /**
   * `process_message`: a ticker message appends the rows of its entries up to the
   * first one that raises, and likewise for a market_trades message; the except
   * clause swallows the error, so the rows inserted before it stay. When the
   * store refuses inserts the message changes nothing.
   */
  method ProcessMessage(store: Store, msg: Option<Message>, dec: Decoders)
    requires store.Valid()
    modifies store`tickers, store`trades
    ensures store.Valid()
    ensures store.Ready() ==>
      && store.tickers == old(store.tickers) + Emitted(msg, dec).tickers
      && store.trades == old(store.trades) + Emitted(msg, dec).trades
    ensures !store.Ready() ==> store.tickers == old(store.tickers) && store.trades == old(store.trades)
  {
    if msg.None? {
      return;
    }
    var m := msg.value;
    if m.channel == Some("ticker") {
      InsertTickerEvents(store, OrEmpty(m.events), m.timestamp, dec);
    } else if m.channel == Some("market_trades") {
      InsertTradeEvents(store, OrEmpty(m.events), dec);
    }
  }

  /**
   * `initialize_resources`: open the pool, then create the schema. Afterwards the
   * store accepts inserts; a schema created here starts with current views, an
   * existing schema keeps its views, and on a store already initialised nothing
   * changes.
   */
  method InitializeResources(store: Store) returns (r: Outcome<StoreError>)
    requires store.Valid()
    modifies store
    ensures store.Valid()
    ensures r == Pass && store.Ready()
    ensures store.tickers == old(store.tickers) && store.trades == old(store.trades)
    ensures old(store.pool).Some? ==> store.pool == old(store.pool)
    ensures !old(store.schemaReady) ==> store.ViewsCurrent()
    ensures old(store.pool).Some? ==> store.poolsCreated == old(store.poolsCreated)
    ensures old(store.schemaReady) ==> store.daily == old(store.daily) && store.hourly == old(store.hourly)
    ensures old(store.Ready()) ==> unchanged(store)
  {
    store.InitDbPool();
    r := store.InitializeDb();
  }
}
