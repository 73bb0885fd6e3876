/**
 * Price-time-priority matching of one incoming order against the opposite
 * side of the book, stated on values.
 *
 * `FillLevel` and `MatchSide` follow the inner and outer loop of the engine
 * level by level. `Allocate` is an independent reference: it sees the side as
 * one queue of orders, best price first and oldest first within a price, and
 * fills from its front while the price crosses. `MatchSideAllocates` proves
 * the two agree, and the properties of matching are proved on `Allocate`.
 */
module Matching {
  import opened JavaTypes
  import opened Queues
  import opened PriceMaps
  import opened Trades

  /** One side of the book as values: price → FIFO queue. */
  type Side = PriceMap<seq<Resting>>

  /** What the engine keeps true of a side: sorted, no empty level, no empty order. */
  ghost predicate WellFormed(s: Side)
  {
    s.Valid() && forall p :: p in s.entries ==> s.entries[p] != [] && AllPositive(s.entries[p])
  }

  /** `pricesCross`: a buy crosses at or above the best ask, anything else at or below the best bid. */
  function PricesCross(side: JByte, orderPrice: Long, bestOpposite: Long): (r: bool)
    // The best opposite price ranks at or ahead of the order's own price in
    // the opposite side's iteration order (asks ascending for a buy, bids
    // descending for anything else).
    ensures r <==> bestOpposite == orderPrice || Before(side != BUY, bestOpposite, orderPrice)
  {
    if side == BUY then orderPrice >= bestOpposite else orderPrice <= bestOpposite
  }

  /** The side byte whose book an incoming order matches against. */
  function OppositeSide(side: JByte): (r: JByte)
    ensures r == BUY || r == SELL
    ensures r == BUY <==> side != BUY
  {
    if side == BUY then SELL else BUY
  }

  /**
   * `createTrade`: the incoming order takes exactly the role of its side and
   * the resting order the other; a side byte that is neither 'B' nor 'S'
   * names the resting order as both buyer and seller.
   */
  function CreateTrade(incomingId: Long, incomingSide: JByte, restingId: Long, price: Long, quantity: Long, now: Long): (t: Trade)
    ensures t.price == price && t.quantity == quantity && t.timestamp == now
    ensures incomingSide == BUY ==> t.buyOrderId == incomingId && t.sellOrderId == restingId
    ensures incomingSide == SELL ==> t.sellOrderId == incomingId && t.buyOrderId == restingId
    ensures incomingSide != BUY && incomingSide != SELL ==> t.buyOrderId == t.sellOrderId == restingId
  {
    var buyId := if incomingSide == BUY then incomingId else restingId;
    var sellId := if incomingSide == SELL then incomingId else restingId;
    Trade(buyId, sellId, price, quantity, now)
  }

  function Min(a: int, b: int): int { if a <= b then a else b }

  /** Concatenation regroups freely. */
  lemma AppendAssoc<T>(a: seq<T>, b: seq<T>, c: seq<T>)
    ensures a + (b + c) == (a + b) + c
  {
  }

  /** The incoming order as matching sees it. */
  datatype Incoming = Incoming(orderId: Long, side: JByte, price: Long)

  /** The queue after its front order traded `q`: gone when filled, else reduced in place. */
  function AfterFill(queue: seq<Resting>, q: Long): (r: seq<Resting>)
    requires queue != [] && 0 < q <= queue[0].quantity && AllPositive(queue)
    ensures AllPositive(r) && |r| <= |queue|
  {
    var left := queue[0].quantity - q;
    if left == 0 then queue[1..] else [queue[0].(quantity := left)] + queue[1..]
  }

  /** Every id the fill does not take out of the queue stays queued. */
  lemma HoldsAfterFill(queue: seq<Resting>, q: Long)
    requires queue != [] && 0 < q <= queue[0].quantity && AllPositive(queue)
    ensures forall id :: Holds(queue, id) && (id != queue[0].orderId || q < queue[0].quantity) ==> Holds(AfterFill(queue, q), id)
  {
    var r := AfterFill(queue, q);
    forall id | Holds(queue, id) && (id != queue[0].orderId || q < queue[0].quantity)
      ensures Holds(r, id)
    {
      var k :| 0 <= k < |queue| && queue[k].orderId == id;
      if q == queue[0].quantity {
        assert r[k - 1] == queue[k];
      } else if k > 0 {
        assert r[k] == queue[k];
      } else {
        assert r[0].orderId == id;
      }
    }
  }

  /** A level after fills: the trades, what is left of the queue and of the order, and the ids filled completely, oldest first. */
  datatype Fill = Fill(trades: seq<Trade>, queue: seq<Resting>, remaining: Long, filled: seq<Long>)

  /** What `f` fills is `done` and `gone` followed by what `g` fills. */
  ghost predicate FillBehind(f: Fill, done: seq<Trade>, gone: seq<Long>, g: Fill)
  {
    f.trades == done + g.trades && f.queue == g.queue && f.remaining == g.remaining && f.filled == gone + g.filled
  }

  /** The id the front order leaves the queue with when a trade of `q` fills it completely. */
  function FilledBy(queue: seq<Resting>, q: Long): seq<Long>
    requires queue != []
  {
    if q == queue[0].quantity then [queue[0].orderId] else []
  }

  /**
   * The inner loop: fills the incoming order against one level's queue,
   * oldest first, at the level's price. A fully filled order leaves the
   * queue; a partly filled one stays at the front with its rest.
   */
  function FillLevel(inc: Incoming, price: Long, queue: seq<Resting>, remaining: Long, now: Long): (r: Fill)
    requires AllPositive(queue)
    ensures AllPositive(r.queue) && |r.queue| <= |queue|
    ensures remaining > 0 ==> 0 <= r.remaining <= remaining
    ensures remaining > 0 && queue != [] ==> r.remaining < remaining
    ensures remaining > 0 ==> r.queue == [] || r.remaining == 0
    decreases if remaining > 0 then remaining else 0
  {
    if remaining <= 0 || queue == [] then Fill([], queue, remaining, [])
    else
      var q := Min(remaining, queue[0].quantity);
      var t := CreateTrade(inc.orderId, inc.side, queue[0].orderId, price, q, now);
      var rest := FillLevel(inc, price, AfterFill(queue, q), remaining - q, now);
      Fill([t] + rest.trades, rest.queue, rest.remaining, FilledBy(queue, q) + rest.filled)
  }

  /**
   * One round of the inner loop: once the front of the queue has traded,
   * the level's fill is that trade (and the front's id, when it was filled
   * completely) followed by the fill of what is left.
   */
  lemma FillLevelStep(inc: Incoming, price: Long, queue: seq<Resting>, remaining: Long, now: Long,
                      f: Fill, done: seq<Trade>, gone: seq<Long>, trade: Trade, queue': seq<Resting>, remaining': Long)
    requires remaining > 0 && queue != [] && AllPositive(queue)
    requires var q := Min(remaining, queue[0].quantity);
      && trade == CreateTrade(inc.orderId, inc.side, queue[0].orderId, price, q, now)
      && queue' == AfterFill(queue, q) && remaining' == remaining - q
    requires FillBehind(f, done, gone, FillLevel(inc, price, queue, remaining, now))
    ensures FillBehind(f, done + [trade], gone + FilledBy(queue, Min(remaining, queue[0].quantity)), FillLevel(inc, price, queue', remaining', now))
  {
    var g := FillLevel(inc, price, queue', remaining', now);
    var ids := FilledBy(queue, Min(remaining, queue[0].quantity));
    assert FillLevel(inc, price, queue, remaining, now) == Fill([trade] + g.trades, g.queue, g.remaining, ids + g.filled);
    AppendAssoc(done, [trade], g.trades);
    AppendAssoc(gone, ids, g.filled);
  }

  /** When the inner loop stops, what was filled so far is the whole fill of the level. */
  lemma FillBehindDone(f: Fill, done: seq<Trade>, gone: seq<Long>, inc: Incoming, price: Long, queue: seq<Resting>, remaining: Long, now: Long)
    requires AllPositive(queue) && (remaining <= 0 || queue == [])
    requires FillBehind(f, done, gone, FillLevel(inc, price, queue, remaining, now))
    ensures f == Fill(done, queue, remaining, gone)
  {
    assert done + [] == done && gone + [] == gone;
  }

  /** A level after fills: unmapped once its queue is empty, otherwise holding what is left. */
  function Refill(s: Side, price: Long, q: seq<Resting>): (r: Side)
    requires s.Valid()
    ensures r.Valid() && r.descending == s.descending
    ensures q == [] ==> r.entries == s.entries - {price}
    ensures q != [] ==> r.entries == s.entries[price := q]
  {
    if q == [] then s.Remove(price) else s.Put(price, q)
  }

  /** Refilling a level of a well-formed side with a queue of open orders keeps it well formed. */
  lemma RefillWellFormed(s: Side, price: Long, q: seq<Resting>)
    requires WellFormed(s) && AllPositive(q)
    ensures WellFormed(Refill(s, price, q))
  {
  }

  /** The outer loop's result: the trades, the side left, the remainder, and the ids filled completely, in fill order. */
  datatype Match = Match(trades: seq<Trade>, side: Side, remaining: Long, filled: seq<Long>)

  /**
   * The outer loop: takes the best level while quantity remains and the
   * price crosses, fills it, and drops it from the side once it is empty.
   */
  function MatchSide(inc: Incoming, side: Side, remaining: Long, now: Long): (r: Match)
    requires WellFormed(side)
    ensures WellFormed(r.side) && r.side.descending == side.descending
    ensures forall p :: p in r.side.entries ==> p in side.entries
    ensures remaining > 0 ==> 0 <= r.remaining <= remaining
    decreases |side.keys|, if remaining > 0 then remaining else 0
  {
    if remaining <= 0 || side.keys == [] then Match([], side, remaining, [])
    else
      var best := side.keys[0];
      if !PricesCross(inc.side, inc.price, best) then Match([], side, remaining, [])
      else
        var f := FillLevel(inc, best, side.entries[best], remaining, now);
        var next := Refill(side, best, f.queue);
        var rest := MatchSide(inc, next, f.remaining, now);
        Match(f.trades + rest.trades, rest.side, rest.remaining, f.filled + rest.filled)
  }

  /** The outer loop stops with nothing left, an empty side, or a best price that does not cross. */
  lemma MatchSideDone(inc: Incoming, side: Side, remaining: Long, now: Long)
    requires WellFormed(side)
    requires remaining <= 0 || side.keys == [] || !PricesCross(inc.side, inc.price, side.keys[0])
    ensures MatchSide(inc, side, remaining, now) == Match([], side, remaining, [])
  {
  }

  /** One round of the outer loop: fill the best level, refill it, then match what is left against the rest. */
  lemma MatchSideStep(inc: Incoming, side: Side, remaining: Long, now: Long, done: seq<Trade>, gone: seq<Long>)
    requires WellFormed(side) && remaining > 0 && side.keys != []
    requires PricesCross(inc.side, inc.price, side.keys[0])
    ensures var best := side.keys[0];
      var f := FillLevel(inc, best, side.entries[best], remaining, now);
      var m := MatchSide(inc, side, remaining, now);
      var n := MatchSide(inc, Refill(side, best, f.queue), f.remaining, now);
      && done + m.trades == (done + f.trades) + n.trades
      && gone + m.filled == (gone + f.filled) + n.filled
      && m.side == n.side && m.remaining == n.remaining
      && WellFormed(Refill(side, best, f.queue))
      && (|Refill(side, best, f.queue).keys| < |side.keys| || (|Refill(side, best, f.queue).keys| == |side.keys| && f.remaining == 0))
  {
    var best := side.keys[0];
    assert best in side.entries;
    var f := FillLevel(inc, best, side.entries[best], remaining, now);
    var next := Refill(side, best, f.queue);
    var n := MatchSide(inc, next, f.remaining, now);
    assert MatchSide(inc, side, remaining, now) == Match(f.trades + n.trades, n.side, n.remaining, f.filled + n.filled);
    AppendAssoc(done, f.trades, n.trades);
    AppendAssoc(gone, f.filled, n.filled);
    RefillWellFormed(side, best, f.queue);
    if f.queue == [] {
      assert next.keys == side.keys[1..];
    } else {
      assert next.keys == side.keys;
    }
  }

  /** An order of the side together with its level's price. */
  datatype Placed = Placed(price: Long, orderId: Long, quantity: Long)

  function Priced(price: Long, q: seq<Resting>): (r: seq<Placed>)
  {
    if q == [] then [] else [Placed(price, q[0].orderId, q[0].quantity)] + Priced(price, q[1..])
  }

  function FlattenKeys(keys: seq<Long>, entries: map<Long, seq<Resting>>): seq<Placed>
    requires forall k :: k in keys ==> k in entries
  {
    if keys == [] then [] else Priced(keys[0], entries[keys[0]]) + FlattenKeys(keys[1..], entries)
  }

  /** The side as one priority queue: levels in price order, each level oldest first. */
  function Flatten(s: Side): seq<Placed>
    requires s.Valid()
  {
    FlattenKeys(s.keys, s.entries)
  }

  predicate PlacedPositive(book: seq<Placed>)
  {
    forall i :: 0 <= i < |book| ==> book[i].quantity > 0
  }

  /** The priority queue after its front order traded `q`. */
  function AfterTrade(book: seq<Placed>, q: Long): (r: seq<Placed>)
    requires book != [] && 0 < q <= book[0].quantity && PlacedPositive(book)
    ensures PlacedPositive(r)
  {
    var left := book[0].quantity - q;
    if left == 0 then book[1..] else [book[0].(quantity := left)] + book[1..]
  }

  datatype Allocation = Allocation(trades: seq<Trade>, leftover: seq<Placed>, remaining: Long)

  /** The reference allocation: fill from the front of the priority queue while the price crosses. */
  function Allocate(inc: Incoming, book: seq<Placed>, remaining: Long, now: Long): (r: Allocation)
    requires PlacedPositive(book)
    decreases if remaining > 0 then remaining else 0
  {
    if remaining <= 0 || book == [] || !PricesCross(inc.side, inc.price, book[0].price) then
      Allocation([], book, remaining)
    else
      var q := Min(remaining, book[0].quantity);
      var t := CreateTrade(inc.orderId, inc.side, book[0].orderId, book[0].price, q, now);
      var rest := Allocate(inc, AfterTrade(book, q), remaining - q, now);
      Allocation([t] + rest.trades, rest.leftover, rest.remaining)
  }

  function TotalPlaced(book: seq<Placed>): int
  {
    if book == [] then 0 else book[0].quantity + TotalPlaced(book[1..])
  }

  // ---------------------------------------------------------------------
  // Properties of the reference allocation

  /** Conservation: traded quantity plus what remains is the incoming quantity. */
  lemma {:induction false} AllocateConserves(inc: Incoming, book: seq<Placed>, remaining: Long, now: Long)
    requires PlacedPositive(book) && remaining >= 0
    ensures var r := Allocate(inc, book, remaining, now);
      TradedQuantity(r.trades) + r.remaining == remaining && 0 <= r.remaining
    decreases remaining
  {
    if remaining > 0 && book != [] && PricesCross(inc.side, inc.price, book[0].price) {
      var q := Min(remaining, book[0].quantity);
      var next := AfterTrade(book, q);
      AllocateConserves(inc, next, remaining - q, now);
      var r := Allocate(inc, book, remaining, now);
      assert r.trades[1..] == Allocate(inc, next, remaining - q, now).trades;
    }
  }

  /** The resting side loses exactly the traded quantity. */
  lemma {:induction false} AllocateConservesBook(inc: Incoming, book: seq<Placed>, remaining: Long, now: Long)
    requires PlacedPositive(book)
    ensures var r := Allocate(inc, book, remaining, now);
      TotalPlaced(r.leftover) + TradedQuantity(r.trades) == TotalPlaced(book)
    decreases if remaining > 0 then remaining else 0
  {
    if remaining > 0 && book != [] && PricesCross(inc.side, inc.price, book[0].price) {
      var q := Min(remaining, book[0].quantity);
      var next := AfterTrade(book, q);
      AllocateConservesBook(inc, next, remaining - q, now);
      var r := Allocate(inc, book, remaining, now);
      assert r.trades[1..] == Allocate(inc, next, remaining - q, now).trades;
      if book[0].quantity != q {
        assert next[1..] == book[1..];
      }
    }
  }

  /** One step of the reference allocation, unfolded. */
  lemma AllocateStep(inc: Incoming, book: seq<Placed>, remaining: Long, now: Long)
    requires PlacedPositive(book)
    requires remaining > 0 && book != [] && PricesCross(inc.side, inc.price, book[0].price)
    ensures var q := Min(remaining, book[0].quantity);
      var r := Allocate(inc, book, remaining, now);
      var rest := Allocate(inc, AfterTrade(book, q), remaining - q, now);
      && r.trades == [CreateTrade(inc.orderId, inc.side, book[0].orderId, book[0].price, q, now)] + rest.trades
      && r.leftover == rest.leftover && r.remaining == rest.remaining
      && (q == book[0].quantity ==> AfterTrade(book, q) == book[1..])
      && (q < book[0].quantity ==> rest == Allocation([], AfterTrade(book, q), 0))
  {
  }

  /**
   * Priority: the i-th trade is against the i-th order of the priority
   * queue, at that order's price, for a positive quantity no larger than
   * that order's, and only while the price crosses.
   */
  lemma {:induction false} AllocatePriority(inc: Incoming, book: seq<Placed>, remaining: Long, now: Long)
    requires PlacedPositive(book)
    ensures var r := Allocate(inc, book, remaining, now);
      && |r.trades| <= |book|
      && forall i :: 0 <= i < |r.trades| ==>
            && 0 < r.trades[i].quantity <= book[i].quantity
            && PricesCross(inc.side, inc.price, book[i].price)
            && r.trades[i] == CreateTrade(inc.orderId, inc.side, book[i].orderId, book[i].price, r.trades[i].quantity, now)
    decreases if remaining > 0 then remaining else 0
  {
    if remaining > 0 && book != [] && PricesCross(inc.side, inc.price, book[0].price) {
      var q := Min(remaining, book[0].quantity);
      AllocateStep(inc, book, remaining, now);
      var next := AfterTrade(book, q);
      AllocatePriority(inc, next, remaining - q, now);
      var r := Allocate(inc, book, remaining, now);
      var rest := Allocate(inc, next, remaining - q, now);
      var t := CreateTrade(inc.orderId, inc.side, book[0].orderId, book[0].price, q, now);
      assert r.trades == [t] + rest.trades;
      if q == book[0].quantity {
        assert next == book[1..];
        forall i | 0 <= i < |r.trades|
          ensures && 0 < r.trades[i].quantity <= book[i].quantity
                  && PricesCross(inc.side, inc.price, book[i].price)
                  && r.trades[i] == CreateTrade(inc.orderId, inc.side, book[i].orderId, book[i].price, r.trades[i].quantity, now)
        {
          if i > 0 {
            assert r.trades[i] == rest.trades[i - 1] && book[i] == next[i - 1];
          }
        }
      } else {
        assert r.trades == [t];
      }
    }
  }

  /** Every trade but the last fills its resting order completely. */
  lemma {:induction false} AllocateFullFills(inc: Incoming, book: seq<Placed>, remaining: Long, now: Long)
    requires PlacedPositive(book)
    ensures var r := Allocate(inc, book, remaining, now);
      |r.trades| <= |book| && forall i :: 0 <= i < |r.trades| - 1 ==> r.trades[i].quantity == book[i].quantity
    decreases if remaining > 0 then remaining else 0
  {
    if remaining > 0 && book != [] && PricesCross(inc.side, inc.price, book[0].price) {
      var q := Min(remaining, book[0].quantity);
      AllocateStep(inc, book, remaining, now);
      var next := AfterTrade(book, q);
      AllocateFullFills(inc, next, remaining - q, now);
      var r := Allocate(inc, book, remaining, now);
      var rest := Allocate(inc, next, remaining - q, now);
      var t := CreateTrade(inc.orderId, inc.side, book[0].orderId, book[0].price, q, now);
      assert r.trades == [t] + rest.trades;
      if q == book[0].quantity {
        assert next == book[1..];
        forall i | 0 <= i < |r.trades| - 1
          ensures r.trades[i].quantity == book[i].quantity
        {
          if i > 0 {
            assert r.trades[i] == rest.trades[i - 1] && book[i] == next[i - 1];
          }
        }
      } else {
        assert r.trades == [t];
      }
    }
  }

  /**
   * `leftover` is the untouched tail of `book` behind the orders `trades`
   * reached, preceded by the rest of the last one when its fill was partial.
   */
  ghost predicate LeftBehind(book: seq<Placed>, trades: seq<Trade>, leftover: seq<Placed>)
  {
    var n := |trades|;
    && n <= |book|
    && (leftover == book[n..] ||
        (n > 0 && 0 < trades[n - 1].quantity < book[n - 1].quantity &&
         leftover == [book[n - 1].(quantity := book[n - 1].quantity - trades[n - 1].quantity)] + book[n..]))
  }

  /** Behind one more fully filled order at the front, the same tail is left. */
  lemma LeftBehindCons(head: Placed, tail: seq<Placed>, t: Trade, trades: seq<Trade>, leftover: seq<Placed>)
    requires LeftBehind(tail, trades, leftover)
    ensures LeftBehind([head] + tail, [t] + trades, leftover)
  {
    var book := [head] + tail;
    var m := |trades|;
    assert book[m + 1..] == tail[m..];
    if leftover != tail[m..] {
      assert ([t] + trades)[m] == trades[m - 1];
      assert book[m] == tail[m - 1];
    }
  }

  /**
   * What stays on the side is the untouched tail of the priority queue,
   * behind the rest of the last order when its fill was partial.
   */
  lemma {:induction false} AllocateLeftover(inc: Incoming, book: seq<Placed>, remaining: Long, now: Long)
    requires PlacedPositive(book)
    ensures var r := Allocate(inc, book, remaining, now);
      LeftBehind(book, r.trades, r.leftover)
    decreases if remaining > 0 then remaining else 0
  {
    if remaining > 0 && book != [] && PricesCross(inc.side, inc.price, book[0].price) {
      var q := Min(remaining, book[0].quantity);
      var t := CreateTrade(inc.orderId, inc.side, book[0].orderId, book[0].price, q, now);
      AllocateStep(inc, book, remaining, now);
      if q == book[0].quantity {
        var rest := Allocate(inc, book[1..], remaining - q, now);
        AllocateLeftover(inc, book[1..], remaining - q, now);
        assert book == [book[0]] + book[1..];
        LeftBehindCons(book[0], book[1..], t, rest.trades, rest.leftover);
      } else {
        assert [t] + [] == [t];
      }
    }
  }

  /** Quantity is left over only once the queue is used up or its front no longer crosses. */
  lemma {:induction false} AllocateStops(inc: Incoming, book: seq<Placed>, remaining: Long, now: Long)
    requires PlacedPositive(book)
    ensures var r := Allocate(inc, book, remaining, now);
      r.remaining > 0 ==> r.leftover == [] || !PricesCross(inc.side, inc.price, r.leftover[0].price)
    decreases if remaining > 0 then remaining else 0
  {
    if remaining > 0 && book != [] && PricesCross(inc.side, inc.price, book[0].price) {
      var q := Min(remaining, book[0].quantity);
      AllocateStep(inc, book, remaining, now);
      AllocateStops(inc, AfterTrade(book, q), remaining - q, now);
    }
  }

  /** Priced positive queues stay positive when a tail of other placed orders follows. */
  lemma {:induction false} PricedPositive(price: Long, queue: seq<Resting>, rest: seq<Placed>)
    requires AllPositive(queue) && PlacedPositive(rest)
    ensures PlacedPositive(Priced(price, queue) + rest)
    decreases |queue|
  {
    if queue != [] {
      PricedPositive(price, queue[1..], rest);
      var t := Priced(price, queue[1..]) + rest;
      assert Priced(price, queue) + rest == [Placed(price, queue[0].orderId, queue[0].quantity)] + t;
    }
  }

  /** Trading `q` off the front of a priority queue lowers or removes its first order. */
  lemma AfterTradeFront(head: Placed, tail: seq<Placed>, q: Long)
    requires 0 < q <= head.quantity && PlacedPositive([head] + tail)
    ensures AfterTrade([head] + tail, q) == if q == head.quantity then tail else [head.(quantity := head.quantity - q)] + tail
  {
    assert ([head] + tail)[1..] == tail;
  }

  /** Filling `q` at the front of a level lowers or removes its first priced order. */
  lemma AfterFillFront(price: Long, queue: seq<Resting>, rest: seq<Placed>, q: Long)
    requires queue != [] && 0 < q <= queue[0].quantity && AllPositive(queue)
    ensures var head := Placed(price, queue[0].orderId, queue[0].quantity);
      var tail := Priced(price, queue[1..]) + rest;
      && Priced(price, queue) + rest == [head] + tail
      && Priced(price, AfterFill(queue, q)) + rest
         == if q == queue[0].quantity then tail else [head.(quantity := queue[0].quantity - q)] + tail
  {
    if q < queue[0].quantity {
      var filled := [queue[0].(quantity := queue[0].quantity - q)] + queue[1..];
      assert filled[1..] == queue[1..];
    }
  }

  /** Trading at the front of a level is trading at the front of the side's priority queue. */
  lemma AfterFillPriced(price: Long, queue: seq<Resting>, rest: seq<Placed>, q: Long)
    requires queue != [] && 0 < q <= queue[0].quantity && AllPositive(queue) && PlacedPositive(rest)
    ensures PlacedPositive(Priced(price, queue) + rest)
    ensures (Priced(price, queue) + rest)[0] == Placed(price, queue[0].orderId, queue[0].quantity)
    ensures AfterTrade(Priced(price, queue) + rest, q) == Priced(price, AfterFill(queue, q)) + rest
  {
    PricedPositive(price, queue, rest);
    var head := Placed(price, queue[0].orderId, queue[0].quantity);
    var tail := Priced(price, queue[1..]) + rest;
    AfterFillFront(price, queue, rest, q);
    AfterTradeFront(head, tail, q);
    assert Priced(price, queue) + rest == [head] + tail;
    assert ([head] + tail)[0] == head;
    if q == queue[0].quantity {
      assert AfterTrade([head] + tail, q) == tail;
      assert Priced(price, AfterFill(queue, q)) + rest == tail;
    } else {
      assert AfterTrade([head] + tail, q) == [head.(quantity := queue[0].quantity - q)] + tail;
      assert Priced(price, AfterFill(queue, q)) + rest == [head.(quantity := queue[0].quantity - q)] + tail;
    }
  }

  /** One trade at the front of a crossing level is one step of the reference allocation. */
  lemma AllocateFront(inc: Incoming, price: Long, queue: seq<Resting>, rest: seq<Placed>, remaining: Long, now: Long)
    requires AllPositive(queue) && PlacedPositive(rest)
    requires PricesCross(inc.side, inc.price, price) && remaining > 0 && queue != []
    ensures PlacedPositive(Priced(price, queue) + rest)
    ensures var q := Min(remaining, queue[0].quantity);
      && PlacedPositive(Priced(price, AfterFill(queue, q)) + rest)
      && var a1 := Allocate(inc, Priced(price, AfterFill(queue, q)) + rest, remaining - q, now);
         Allocate(inc, Priced(price, queue) + rest, remaining, now)
         == Allocation([CreateTrade(inc.orderId, inc.side, queue[0].orderId, price, q, now)] + a1.trades, a1.leftover, a1.remaining)
  {
    var q := Min(remaining, queue[0].quantity);
    AfterFillPriced(price, queue, rest, q);
    PricedPositive(price, AfterFill(queue, q), rest);
  }

  /** Filling one crossing level is the first part of the reference allocation. */
  lemma {:induction false} FillLevelAllocates(inc: Incoming, price: Long, queue: seq<Resting>, rest: seq<Placed>, remaining: Long, now: Long)
    requires AllPositive(queue) && PlacedPositive(rest)
    requires PricesCross(inc.side, inc.price, price)
    ensures PlacedPositive(Priced(price, queue) + rest)
    ensures var f := FillLevel(inc, price, queue, remaining, now);
      && PlacedPositive(Priced(price, f.queue) + rest)
      && var a := Allocate(inc, Priced(price, queue) + rest, remaining, now);
         var a2 := Allocate(inc, Priced(price, f.queue) + rest, f.remaining, now);
         a == Allocation(f.trades + a2.trades, a2.leftover, a2.remaining)
    decreases if remaining > 0 then remaining else 0
  {
    PricedPositive(price, queue, rest);
    if remaining > 0 && queue != [] {
      var q := Min(remaining, queue[0].quantity);
      var next := AfterFill(queue, q);
      var t := CreateTrade(inc.orderId, inc.side, queue[0].orderId, price, q, now);
      var rf := FillLevel(inc, price, next, remaining - q, now);
      assert FillLevel(inc, price, queue, remaining, now) == Fill([t] + rf.trades, rf.queue, rf.remaining, FilledBy(queue, q) + rf.filled);
      AllocateFront(inc, price, queue, rest, remaining, now);
      FillLevelAllocates(inc, price, next, rest, remaining - q, now);
      var a2 := Allocate(inc, Priced(price, rf.queue) + rest, rf.remaining, now);
      AppendAssoc([t], rf.trades, a2.trades);
    } else {
      assert FillLevel(inc, price, queue, remaining, now) == Fill([], queue, remaining, []);
    }
  }

  lemma FlattenKeysFrame(keys: seq<Long>, e1: map<Long, seq<Resting>>, e2: map<Long, seq<Resting>>)
    requires forall k :: k in keys ==> k in e1 && k in e2 && e1[k] == e2[k]
    ensures FlattenKeys(keys, e1) == FlattenKeys(keys, e2)
  {
  }

  lemma {:induction false} FlattenPositive(keys: seq<Long>, entries: map<Long, seq<Resting>>)
    requires forall k :: k in keys ==> k in entries && AllPositive(entries[k])
    ensures PlacedPositive(FlattenKeys(keys, entries))
    decreases |keys|
  {
    if keys != [] {
      FlattenPositive(keys[1..], entries);
      PricedPositive(keys[0], entries[keys[0]], FlattenKeys(keys[1..], entries));
    }
  }

  /** A well-formed side's queue starts at its best price. */
  lemma FlattenHead(s: Side)
    requires WellFormed(s) && s.keys != []
    ensures Flatten(s) != [] && Flatten(s)[0].price == s.keys[0]
  {
    assert s.keys[0] in s.entries;
  }

  lemma FlattenCases(s: Side)
    requires WellFormed(s) && s.keys != []
    ensures var best := s.keys[0];
      && best in s.entries
      && Flatten(s) == Priced(best, s.entries[best]) + FlattenKeys(s.keys[1..], s.entries)
      && Flatten(s.Remove(best)) == FlattenKeys(s.keys[1..], s.entries)
      && forall q :: Flatten(s.Put(best, q)) == Priced(best, q) + FlattenKeys(s.keys[1..], s.entries)
  {
    var best := s.keys[0];
    assert best in s.entries;
    assert forall k :: k in s.keys[1..] ==> k != best by {
      SortedPairs(s.keys, s.descending);
      forall k | k in s.keys[1..] ensures k != best {
        var j :| 0 <= j < |s.keys[1..]| && s.keys[1..][j] == k;
        assert Before(s.descending, s.keys[0], s.keys[j + 1]);
      }
    }
    FlattenKeysFrame(s.keys[1..], s.entries, s.Remove(best).entries);
    forall q ensures Flatten(s.Put(best, q)) == Priced(best, q) + FlattenKeys(s.keys[1..], s.entries) {
      FlattenKeysFrame(s.keys[1..], s.entries, s.Put(best, q).entries);
    }
  }

  /**
   * The engine's loops compute the reference allocation: the same trades,
   * the same remainder, and the side left over is the leftover queue.
   */
  lemma {:induction false} MatchSideAllocates(inc: Incoming, side: Side, remaining: Long, now: Long)
    requires WellFormed(side)
    ensures PlacedPositive(Flatten(side))
    ensures var m := MatchSide(inc, side, remaining, now);
      var a := Allocate(inc, Flatten(side), remaining, now);
      m.trades == a.trades && m.remaining == a.remaining && Flatten(m.side) == a.leftover
    decreases |side.keys|, if remaining > 0 then remaining else 0
  {
    FlattenPositive(side.keys, side.entries);
    if remaining > 0 && side.keys != [] {
      var best := side.keys[0];
      FlattenHead(side);
      FlattenCases(side);
      if PricesCross(inc.side, inc.price, best) {
        var q := side.entries[best];
        var tail := FlattenKeys(side.keys[1..], side.entries);
        FlattenPositive(side.keys[1..], side.entries);
        var f := FillLevel(inc, best, q, remaining, now);
        var next := Refill(side, best, f.queue);
        FillLevelAllocates(inc, best, q, tail, remaining, now);
        RefillWellFormed(side, best, f.queue);
        MatchSideAllocates(inc, next, f.remaining, now);
        assert Flatten(next) == Priced(best, f.queue) + tail;
        if f.queue != [] {
          assert f.remaining == 0;
        }
      }
    }
  }
}
