/**
 * The REST controller's logic without the HTTP and JSON plumbing: what a
 * submitted order, a cancel, a quote, a book snapshot and the statistics
 * answer, and the bounded queue of recent trades it keeps.
 */
module Controllers {
  import opened JavaTypes
  import opened Wrappers
  import opened Orders
  import opened Queues
  import opened Indexes
  import opened Pools
  import opened PriceMaps
  import opened Trades
  import opened Matching
  import opened BookViews
  import opened Books
  import opened Engines

  /** `maxRecentTrades`: the recent-trades queue keeps at most this many trades. */
  const MAX_RECENT_TRADES: nat := 100

  datatype OrderStatus = Accepted | Matched

  /** A submitted order as decoded from its JSON body: the id and the side may be missing. */
  datatype OrderRequest = OrderRequest(orderId: Option<Long>, side: Option<string>, price: Long, quantity: Long)

  datatype OrderResponse = OrderResponse(orderId: Long, status: OrderStatus, tradesCount: int, remainingQuantity: Long)

  /** What `submitOrder` answers: the order response, or an HTTP status with its message. */
  datatype SubmitReply = Submitted(response: OrderResponse) | Rejected(code: int, message: string)

  /** What `cancelOrder` answers: cancelled (200), not found (404) or an unparsable id (400). */
  datatype CancelReply = Cancelled(orderId: Long) | NotFound | InvalidOrderId

  datatype Quote = Quote(bestBid: Option<Long>, bestAsk: Option<Long>, spread: Option<Long>)

  /** One line of the L2 snapshot: a price, the level's total quantity and its number of orders. */
  datatype PriceLevel = PriceLevel(price: Long, quantity: Long, orders: int)

  datatype Snapshot = Snapshot(bids: seq<PriceLevel>, asks: seq<PriceLevel>)

  datatype Stats = Stats(activeOrders: int, poolUtilization: int, poolCapacity: int, bidLevels: int, askLevels: int, totalTrades: int)

  const INVALID_SIDE: string := "Invalid side (must be BUY or SELL)"

  /** The message of the exception the pool throws. */
  function PoolMessage(e: PoolError): (m: string)
  {
    match e
    case Exhausted => "Order pool exhausted! Consider increasing POOL_SIZE."
    case NullOrder => "Cannot return null order to pool"
    case Overflow => "Pool overflow! Returning more objects than allocated."
  }

  /** Each failure has its own message, so the 400 reply tells which one happened. */
  lemma PoolMessageNames(e: PoolError)
    ensures PoolMessage(e) == "Order pool exhausted! Consider increasing POOL_SIZE." <==> e == Exhausted
    ensures PoolMessage(e) == "Cannot return null order to pool" <==> e == NullOrder
    ensures PoolMessage(e) == "Pool overflow! Returning more objects than allocated." <==> e == Overflow
  {
  }

  /** Side validation: exactly "BUY" is the buy code and exactly "SELL" the sell code; anything else is refused. */
  function SideCode(side: Option<string>): (r: Option<JByte>)
    ensures r == Some(BUY) <==> side == Some("BUY")
    ensures r == Some(SELL) <==> side == Some("SELL")
    ensures r.None? <==> side != Some("BUY") && side != Some("SELL")
  {
    if side == Some("BUY") then Some(BUY)
    else if side == Some("SELL") then Some(SELL)
    else None
  }

  /**
   * The response to an accepted order: matched when it traded, the number
   * of trades, and the requested quantity less the summed trade quantities
   * in 64-bit arithmetic.
   */
  function Respond(orderId: Long, quantity: Long, trades: seq<Trade>): (r: OrderResponse)
    ensures r.orderId == orderId && r.tradesCount == |trades|
    ensures r.status == Accepted <==> trades == []
    ensures r.remainingQuantity == Wrap64(quantity - TradedQuantity(trades))
  {
    Wrap64Sub(quantity, TradedQuantity(trades));
    OrderResponse(orderId, if trades == [] then Accepted else Matched, |trades|, Wrap64(quantity - Wrap64(TradedQuantity(trades))))
  }

  /** The reported remaining quantity is exactly what the engine left unfilled. */
  lemma RespondReportsRemainder(b: BookView, orderId: Long, side: JByte, price: Long, quantity: Long, now: Long)
    requires WellFormedBook(b)
    ensures var p := Process(b, orderId, side, price, quantity, now);
      var r := Respond(orderId, quantity, p.trades);
      && r.remainingQuantity == p.remaining
      && (r.status == Matched <==> p.trades != [])
  {
    var p := Process(b, orderId, side, price, quantity, now);
    if quantity >= 0 {
      ProcessConserves(b, orderId, side, price, quantity, now);
    } else {
      ProcessNothing(b, orderId, side, price, quantity, now);
    }
  }

  /** The recent-trades queue holds the latest `MAX_RECENT_TRADES` trades, oldest first. */
  function Window(s: seq<Trade>): (r: seq<Trade>)
    ensures |r| <= MAX_RECENT_TRADES && (|s| <= MAX_RECENT_TRADES ==> r == s)
    ensures |s| > MAX_RECENT_TRADES ==> |r| == MAX_RECENT_TRADES
    ensures forall i :: 0 <= i < |r| ==> r[i] == s[|s| - |r| + i]
  {
    if |s| <= MAX_RECENT_TRADES then s else s[|s| - MAX_RECENT_TRADES..]
  }

  /** Evicting the oldest trade of an overfull queue keeps the same window. */
  lemma WindowDrop(s: seq<Trade>)
    requires |s| > MAX_RECENT_TRADES
    ensures Window(s[1..]) == Window(s)
  {
  }

  /** Offering a trade to a trimmed queue and trimming again is trimming once. */
  lemma WindowOffer(a: seq<Trade>, t: Trade)
    ensures Window(Window(a) + [t]) == Window(a + [t])
  {
    if |a| > MAX_RECENT_TRADES {
      var s, k := a + [t], |a| - MAX_RECENT_TRADES;
      calc {
        Window(Window(a) + [t]);
      == { assert Window(a) + [t] == s[k..]; }
        Window(s[k..]);
      == { assert s[k..][1..] == s[k + 1..]; }
        s[k + 1..];
      }
    }
  }

  /** One more trade of a batch extends the history by that trade. */
  lemma HistoryGrows(start: seq<Trade>, trades: seq<Trade>, i: nat)
    requires i < |trades|
    ensures start + trades[..i + 1] == start + trades[..i] + [trades[i]]
  {
    assert trades[..i + 1] == trades[..i] + [trades[i]];
  }

  /** The spread is reported exactly when both sides have a best price. */
  function QuoteOf(bid: Option<Long>, ask: Option<Long>): (q: Quote)
    ensures q.bestBid == bid && q.bestAsk == ask
    ensures q.spread.Some? <==> bid.Some? && ask.Some?
    ensures q.spread.Some? ==> q.spread.value == Wrap64(ask.value - bid.value)
  {
    if bid.Some? && ask.Some? then Quote(bid, ask, Some(Wrap64(ask.value - bid.value))) else Quote(bid, ask, None)
  }

  /** On a book that is not crossed, a quote with non-negative bids has a positive spread with no wrap-around. */
  lemma QuoteSpreadPositive(b: BookView)
    requires WellFormedBook(b) && NotCrossed(b)
    ensures var q := QuoteOf(b.bids.First(), b.asks.First());
      q.spread.Some? && q.bestBid.value >= 0 ==> q.spread.value == q.bestAsk.value - q.bestBid.value > 0
  {
  }

  /** `getTotalQuantity` and `getSize` of one level. */
  function LevelOf(price: Long, queue: seq<Resting>): (l: PriceLevel)
    ensures l.price == price && l.orders == |queue|
    ensures (l.quantity - Total(queue)) % TWO_64 == 0
    ensures AllPositive(queue) && Total(queue) <= LONG_MAX ==> l.quantity == Total(queue) >= |queue|
  {
    var l := PriceLevel(price, Wrap64(Total(queue)), |queue|);
    if AllPositive(queue) then TotalPositive(queue); l else l
  }

  /** The snapshot lines of one side, in the side's iteration order. */
  function Depth(s: Side): (r: seq<PriceLevel>)
    requires s.Valid()
    ensures |r| == |s.keys|
  {
    seq(|s.keys|, i requires 0 <= i < |s.keys| => LevelOf(s.keys[i], s.entries[s.keys[i]]))
  }

  /**
   * Snapshot order: bid lines by strictly descending and ask lines by
   * strictly ascending price, each an open level with at least one order,
   * whose quantity is the level's positive total unless that total wraps.
   */
  lemma DepthOrdered(s: Side)
    requires WellFormed(s)
    ensures var r := Depth(s);
      && (forall i, j :: 0 <= i < j < |r| ==> Before(s.descending, r[i].price, r[j].price))
      && (forall i :: 0 <= i < |r| ==> r[i].price in s.entries && r[i].orders == |s.entries[r[i].price]| >= 1)
      && (forall i :: 0 <= i < |r| && Total(s.entries[r[i].price]) <= LONG_MAX ==> r[i].quantity == Total(s.entries[r[i].price]) > 0)
  {
    var r := Depth(s);
    SortedPairs(s.keys, s.descending);
    forall i | 0 <= i < |r|
      ensures r[i].price in s.entries && r[i].orders == |s.entries[r[i].price]| >= 1
      ensures Total(s.entries[r[i].price]) <= LONG_MAX ==> r[i].quantity == Total(s.entries[r[i].price]) > 0
    {
      assert r[i].price == s.keys[i] && s.keys[i] in s.entries;
      TotalPositive(s.entries[s.keys[i]]);
    }
  }

  class OrderBookController {
    const engine: MatchingEngine
    const book: OrderBook
    var recentTrades: seq<Trade>

    /** The controller serves the engine's book, which is valid, and keeps at most `MAX_RECENT_TRADES` trades. */
    ghost predicate Valid()
      reads this, engine, engine.book, engine.book.index, engine.book.index.entries.Values, engine.pool, engine.pool.pool
    {
      && book == engine.book
      && engine.Valid()
      && |recentTrades| <= MAX_RECENT_TRADES
    }

    /** `OrderBookController(engine)`: the engine's book and an empty trade queue. */
    constructor (engine: MatchingEngine)
      ensures this.engine == engine && book == engine.book && recentTrades == []
    {
      this.engine := engine;
      book := engine.book;
      recentTrades := [];
    }

    /**
     * The recording loop of `submitOrder`: each trade joins the back of
     * the queue, and the oldest are polled while it is over capacity.
     */
    method Record(trades: seq<Trade>)
      requires |recentTrades| <= MAX_RECENT_TRADES
      modifies this`recentTrades
      ensures recentTrades == Window(old(recentTrades) + trades)
    {
      ghost var start := recentTrades;
      for i := 0 to |trades|
        invariant recentTrades == Window(start + trades[..i])
      {
        WindowOffer(start + trades[..i], trades[i]);
        HistoryGrows(start, trades, i);
        recentTrades := recentTrades + [trades[i]];
        while |recentTrades| > MAX_RECENT_TRADES
          invariant Window(recentTrades) == Window(start + trades[..i + 1])
          decreases |recentTrades|
        {
          WindowDrop(recentTrades);
          recentTrades := recentTrades[1..];
        }
      }
      assert trades[..|trades|] == trades;
    }

    /**
     * `submitOrder`: a side other than "BUY" or "SELL" is refused with 400
     * before the engine is called; otherwise the order is processed under
     * the given id (or the clock reading), its trades are recorded, and the
     * response reports them. An exhausted pool surfaces as a 400 with the
     * pool's message and changes nothing.
     */
    method SubmitOrder(req: OrderRequest, clock: Long, now: Long) returns (reply: SubmitReply)
      requires Valid()
      modifies this`recentTrades, engine.book, engine.book.index, engine.pool, engine.pool.pool, engine.pool.All
      ensures Valid()
      ensures SideCode(req.side).None? || old(engine.pool.top) < 0 ==>
        && book.View() == old(book.View()) && recentTrades == old(recentTrades)
        && book.index.entries == old(book.index.entries) && engine.pool.Available == old(engine.pool.Available)
      ensures SideCode(req.side).None? ==> reply == Rejected(400, INVALID_SIDE)
      ensures SideCode(req.side).Some? && old(engine.pool.top) < 0 ==>
        reply == Rejected(400, "Invalid request: " + PoolMessage(Exhausted))
      ensures SideCode(req.side).Some? && old(engine.pool.top) >= 0 ==>
        var id := if req.orderId.Some? then req.orderId.value else clock;
        var p := Process(old(book.View()), id, SideCode(req.side).value, req.price, req.quantity, now);
        && reply == Submitted(Respond(id, req.quantity, p.trades))
        && book.View() == p.book
        && recentTrades == Window(old(recentTrades) + p.trades)
        && Settled(old(book.index.entries), old(engine.pool.Available)[..old(engine.pool.top)], old(engine.pool.Available)[old(engine.pool.top)],
                   id, SideCode(req.side).value, req.price, p, book.index.entries, engine.pool.Available)
    {
      var code := SideCode(req.side);
      if code.None? {
        return Rejected(400, INVALID_SIDE);
      }
      var orderId := if req.orderId.Some? then req.orderId.value else clock;
      var processed := engine.ProcessOrder(orderId, code.value, req.price, req.quantity, now);
      if processed.Err? {
        return Rejected(400, "Invalid request: " + PoolMessage(processed.error));
      }
      var trades := processed.value;
      Record(trades);
      reply := Submitted(Respond(orderId, req.quantity, trades));
    }

    /** `cancelOrder`: 400 for an id that does not parse, 404 for an unknown id, otherwise the engine's cancel. */
    method CancelOrder(orderId: Option<Long>) returns (reply: CancelReply)
      requires Valid()
      modifies engine.book, engine.book.index, engine.pool, engine.pool.pool, engine.pool.All
      ensures Valid() && recentTrades == old(recentTrades)
      ensures orderId.None? ==> reply == InvalidOrderId
      ensures orderId.Some? && orderId.value !in old(book.index.entries) ==> reply == NotFound
      ensures orderId.None? || orderId.value !in old(book.index.entries) ==>
        && book.View() == old(book.View())
        && book.index.entries == old(book.index.entries) && engine.pool.Available == old(engine.pool.Available)
      ensures orderId.Some? && orderId.value in old(book.index.entries) ==>
        && reply == Cancelled(orderId.value) && book.View() == old(engine.CancelView(orderId.value))
        && book.index.entries == old(book.index.entries) - {orderId.value}
        && engine.pool.Available == old(engine.pool.Available) + [old(book.index.entries)[orderId.value]]
    {
      if orderId.None? {
        return InvalidOrderId;
      }
      var cancelled := engine.CancelOrder(orderId.value);
      reply := if cancelled then Cancelled(orderId.value) else NotFound;
    }

    /** `getQuote`: the best bid and ask, and their spread when both exist. */
    method GetQuote() returns (q: Quote)
      requires Valid()
      ensures q == QuoteOf(book.bids.First(), book.asks.First())
    {
      var bid := book.GetBestBid();
      var ask := book.GetBestAsk();
      q := QuoteOf(bid, ask);
    }

    /** `getOrderBook`: one line per level of each side, in the side's iteration order. */
    method GetOrderBook() returns (s: Snapshot)
      requires Valid()
      ensures s == Snapshot(Depth(book.bids), Depth(book.asks))
    {
      var bids := Lines(book.bids);
      var asks := Lines(book.asks);
      s := Snapshot(bids, asks);
    }

    /** The `forEach` over one side of the book. */
    static method Lines(side: Side) returns (lines: seq<PriceLevel>)
      requires side.Valid()
      ensures lines == Depth(side)
    {
      lines := [];
      for i := 0 to |side.keys|
        invariant lines == Depth(side)[..i]
      {
        var price := side.keys[i];
        lines := lines + [LevelOf(price, side.entries[price])];
      }
    }

    /**
     * `getStats`: the indexed orders, the pool's borrowed and total orders,
     * the open levels per side and the recent trades held.
     */
    method GetStats() returns (s: Stats)
      requires Valid()
      ensures s.activeOrders == |book.index.entries|
      ensures s.poolCapacity == POOL_SIZE && s.poolUtilization == POOL_SIZE - |engine.pool.Available|
      ensures 0 <= s.activeOrders <= s.poolUtilization <= s.poolCapacity
      ensures s.bidLevels == |book.bids.keys| && s.askLevels == |book.asks.keys|
      ensures s.totalTrades == |recentTrades| <= MAX_RECENT_TRADES
    {
      ActiveWithinBorrowed(book.index.entries, engine.pool);
      var active := book.index.Size();
      var capacity := engine.pool.Capacity();
      var available := engine.pool.AvailableOrders();
      s := Stats(active, capacity - available, capacity, |book.bids.keys|, |book.asks.keys|, |recentTrades|);
    }
  }
}
