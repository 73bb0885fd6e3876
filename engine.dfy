/**
 * The matching engine: price-time priority over the book. An incoming
 * order borrows a pooled order object, trades against the opposite side
 * best level first and oldest order first, and rests any remainder on its
 * own side. Every operation is proved to follow `BookViews.Process`,
 * `Matching.MatchSide` and `Matching.FillLevel`.
 */
module Engines {
  import opened JavaTypes
  import opened Wrappers
  import opened Orders
  import opened Queues
  import opened Indexes
  import opened Pools
  import opened PriceMaps
  import opened Trades
  import opened Matching
  import opened BookViews
  import opened Books

  /** Every indexed order is a borrowed pool order, and no two ids share one. */
  ghost predicate Borrowed(entries: map<Long, Order>, p: OrderPool)
    reads p
  {
    && (forall id :: id in entries ==> entries[id] in p.All && entries[id] !in p.Available)
    && (forall a, b :: a in entries && b in entries && a != b ==> entries[a] != entries[b])
  }

  /** A map that sends distinct keys to distinct orders has as many orders as keys. */
  lemma {:induction false} InjectiveCard(entries: map<Long, Order>)
    requires forall a, b :: a in entries && b in entries && a != b ==> entries[a] != entries[b]
    ensures |entries.Values| == |entries|
    decreases |entries|
  {
    if entries != map[] {
      var k :| k in entries;
      var rest := entries - {k};
      assert rest.Keys == entries.Keys - {k};
      InjectiveCard(rest);
      forall v | v in entries.Values
        ensures v in rest.Values + {entries[k]}
      {
        var j :| j in entries && entries[j] == v;
        if j != k {
          assert rest[j] == v;
        }
      }
      forall v | v in rest.Values
        ensures v in entries.Values && v != entries[k]
      {
        var j :| j in rest && rest[j] == v;
        assert entries[j] == v;
      }
      assert entries.Values == rest.Values + {entries[k]};
    } else {
      assert entries.Values == {};
    }
  }

  /** Taking a subset out of a set leaves the difference of their sizes. */
  lemma SubsetCard<T>(a: set<T>, b: set<T>)
    requires a <= b
    ensures |b - a| == |b| - |a|
  {
    assert b == a + (b - a);
  }

  /**
   * Every indexed order is a borrowed one: the index never holds more
   * orders than the pool has handed out.
   */
  lemma ActiveWithinBorrowed(entries: map<Long, Order>, p: OrderPool)
    requires p.Valid() && p.Sound() && Borrowed(entries, p)
    ensures |entries| <= POOL_SIZE - |p.Available|
  {
    InjectiveCard(entries);
    DistinctCard(p.Available);
    var pooled := set x | x in p.Available;
    var lent := p.All - pooled;
    forall v | v in entries.Values
      ensures v in lent
    {
      var j :| j in entries && entries[j] == v;
      assert v !in p.Available;
    }
    SubsetCard(pooled, p.All);
    SubsetCard(entries.Values, lent);
  }

  /** Requeueing a level so that every indexed id it held is still held keeps the index located. */
  lemma LocatesRequeue(entries: map<Long, Order>, b: BookView, side: JByte, price: Long, q: seq<Resting>, q': seq<Resting>)
    requires SideOf(b, side).Valid() && price in SideOf(b, side).entries
    requires Locates(entries, WithSide(b, side, SideOf(b, side).Put(price, q)))
    requires forall id :: id in entries && Holds(q, id) ==> Holds(q', id)
    ensures Locates(entries, WithSide(b, side, SideOf(b, side).Put(price, q')))
  {
    var s := SideOf(b, side);
    forall id | id in entries
      ensures Located(entries[id], id, WithSide(b, side, s.Put(price, q')))
    {
      assert Located(entries[id], id, WithSide(b, side, s.Put(price, q)));
    }
  }

  /** Refilling a level that holds every indexed id it held keeps the index located. */
  lemma LocatesRefill(entries: map<Long, Order>, b: BookView, side: JByte, price: Long, q: seq<Resting>)
    requires SideOf(b, side).Valid() && price in SideOf(b, side).entries
    requires Locates(entries, WithSide(b, side, SideOf(b, side).Put(price, q)))
    ensures Locates(entries, WithSide(b, side, Refill(SideOf(b, side), price, q)))
  {
    var s := SideOf(b, side);
    forall id | id in entries
      ensures Located(entries[id], id, WithSide(b, side, Refill(s, price, q)))
    {
      assert Located(entries[id], id, WithSide(b, side, s.Put(price, q)));
    }
  }

  /** Dropping ids from the index keeps the rest located. */
  lemma LocatesSub(entries: map<Long, Order>, id: Long, b: BookView)
    requires Locates(entries, b)
    ensures Locates(entries - {id}, b)
  {
    forall k | k in entries - {id}
      ensures Located((entries - {id})[k], k, b)
    {
      assert Located(entries[k], k, b);
    }
  }

  /** The index once each id of `ids` has left it, in turn. */
  function Unindexed(entries: map<Long, Order>, ids: seq<Long>): map<Long, Order>
    decreases |ids|
  {
    if ids == [] then entries else Unindexed(entries - {ids[0]}, ids[1..])
  }

  /** The orders handed back to the pool as each id of `ids` leaves the index, in turn: the one indexed under it, if any. */
  function Recycled(entries: map<Long, Order>, ids: seq<Long>): seq<Order>
    decreases |ids|
  {
    if ids == [] then []
    else (if ids[0] in entries then [entries[ids[0]]] else []) + Recycled(entries - {ids[0]}, ids[1..])
  }

  /** What is left of the index is every entry whose id is not among the removed ones, unchanged. */
  lemma {:induction false} UnindexedKeeps(entries: map<Long, Order>, ids: seq<Long>)
    ensures forall id :: id in Unindexed(entries, ids) <==> id in entries && id !in ids
    ensures forall id :: id in Unindexed(entries, ids) ==> Unindexed(entries, ids)[id] == entries[id]
    decreases |ids|
  {
    if ids != [] {
      UnindexedKeeps(entries - {ids[0]}, ids[1..]);
      forall id
        ensures id in ids <==> id == ids[0] || id in ids[1..]
      {
        assert ids == [ids[0]] + ids[1..];
      }
    }
  }

  /**
   * The pool gains as many orders as the index loses, and each of them
   * was indexed.
   */
  lemma {:induction false} RecycledCount(entries: map<Long, Order>, ids: seq<Long>)
    ensures |Recycled(entries, ids)| + |Unindexed(entries, ids)| == |entries|
    ensures forall i :: 0 <= i < |Recycled(entries, ids)| ==> Recycled(entries, ids)[i] in entries.Values
    decreases |ids|
  {
    if ids != [] {
      var rest := entries - {ids[0]};
      RecycledCount(rest, ids[1..]);
      assert rest.Keys == entries.Keys - {ids[0]};
      var r := Recycled(entries, ids);
      var t := Recycled(rest, ids[1..]);
      forall i | 0 <= i < |r|
        ensures r[i] in entries.Values
      {
        if ids[0] in entries && i == 0 {
          assert r[0] == entries[ids[0]];
        } else {
          var j := if ids[0] in entries then i - 1 else i;
          assert r[i] == t[j];
          var k :| k in rest && rest[k] == t[j];
          assert entries[k] == r[i];
        }
      }
    }
  }

  /** Removing two runs of ids is removing their concatenation. */
  lemma {:induction false} UnindexedAppend(entries: map<Long, Order>, a: seq<Long>, b: seq<Long>)
    ensures Unindexed(Unindexed(entries, a), b) == Unindexed(entries, a + b)
    ensures Recycled(entries, a) + Recycled(Unindexed(entries, a), b) == Recycled(entries, a + b)
    decreases |a|
  {
    if a == [] {
      assert a + b == b;
    } else {
      assert (a + b)[0] == a[0] && (a + b)[1..] == a[1..] + b;
      UnindexedAppend(entries - {a[0]}, a[1..], b);
      var x := if a[0] in entries then [entries[a[0]]] else [];
      AppendAssoc(x, Recycled(entries - {a[0]}, a[1..]), Recycled(Unindexed(entries, a), b));
    }
  }

  /** A pool that gained the orders of `a` and then those of `b` gained the orders of `a + b`. */
  lemma Regained(pooled: seq<Order>, entries: map<Long, Order>, a: seq<Long>, b: seq<Long>)
    ensures Unindexed(Unindexed(entries, a), b) == Unindexed(entries, a + b)
    ensures (pooled + Recycled(entries, a)) + Recycled(Unindexed(entries, a), b) == pooled + Recycled(entries, a + b)
  {
    UnindexedAppend(entries, a, b);
    AppendAssoc(pooled, Recycled(entries, a), Recycled(Unindexed(entries, a), b));
  }

  /**
   * The index `e` and the pooled orders `a` once an order was processed as
   * `p` under `orderId` with the order object `o`, from the index `e0` and
   * the pooled orders `a0` that were left after `o` was borrowed: every
   * fully filled resting order leaves the index and goes back to the pool;
   * a remainder rests under `orderId` as `o`, which carries the order's id,
   * side, price and remaining quantity, and without one `o` goes back too.
   */
  ghost predicate Settled(e0: map<Long, Order>, a0: seq<Order>, o: Order, orderId: Long, side: JByte, price: Long, p: Processed, e: map<Long, Order>, a: seq<Order>)
    reads o
  {
    var kept := Unindexed(e0, p.filled);
    var back := a0 + Recycled(e0, p.filled);
    && (p.remaining > 0 ==>
          && e == kept[orderId := o] && a == back
          && o.orderId == orderId && o.side == side && o.price == price && o.quantity == p.remaining)
    && (p.remaining <= 0 ==> e == kept && a == back + [o])
  }

  /**
   * After a settled order, its id is indexed exactly when part of it rests,
   * and every other id is indexed exactly when it was before and was not
   * filled completely.
   */
  lemma SettledIndex(e0: map<Long, Order>, a0: seq<Order>, o: Order, orderId: Long, side: JByte, price: Long, p: Processed, e: map<Long, Order>, a: seq<Order>)
    requires Settled(e0, a0, o, orderId, side, price, p, e, a)
    ensures orderId in e <==> p.remaining > 0 || (orderId in e0 && orderId !in p.filled)
    ensures p.remaining > 0 ==> e[orderId] == o && o.quantity == p.remaining
    ensures forall id :: id != orderId ==> (id in e <==> id in e0 && id !in p.filled)
    ensures |a| + |e| == |a0| + |e0| + (if p.remaining > 0 && (orderId !in e0 || orderId in p.filled) then 1 else 0) + (if p.remaining <= 0 then 1 else 0)
  {
    UnindexedKeeps(e0, p.filled);
    RecycledCount(e0, p.filled);
  }

  /** What `M` matches is `done` and `gone` followed by what `m` matches. */
  ghost predicate Behind(M: Match, done: seq<Trade>, gone: seq<Long>, m: Match)
  {
    M.trades == done + m.trades && M.filled == gone + m.filled && M.side == m.side && M.remaining == m.remaining
  }

  /**
   * The outer loop's bookkeeping: when what is left to match, `m`, is one
   * level's trades and filled ids followed by the rest `n`, the whole match
   * `M` splits after those trades and ids too.
   */
  lemma MatchAdvance(M: Match, done: seq<Trade>, gone: seq<Long>, m: Match, trades: seq<Trade>, ids: seq<Long>, n: Match)
    requires Behind(M, done, gone, m)
    requires m.trades == trades + n.trades && m.filled == ids + n.filled && m.side == n.side && m.remaining == n.remaining
    ensures Behind(M, done + trades, gone + ids, n)
  {
    AppendAssoc(done, trades, n.trades);
    AppendAssoc(gone, ids, n.filled);
  }
  /** When the outer loop stops, what was matched so far is the whole match. */
  lemma BehindDone(M: Match, done: seq<Trade>, gone: seq<Long>, inc: Incoming, side: Side, remaining: Long, now: Long)
    requires WellFormed(side)
    requires remaining <= 0 || side.keys == [] || !PricesCross(inc.side, inc.price, side.keys[0])
    requires Behind(M, done, gone, MatchSide(inc, side, remaining, now))
    ensures M == Match(done, side, remaining, gone)
  {
    MatchSideDone(inc, side, remaining, now);
    assert done + [] == done && gone + [] == gone;
  }


  /**
   * One pass of the outer loop on values: filling the best level of a
   * well-formed side and reading the side again is one round of `MatchSide`.
   */
  lemma BestLevel(inc: Incoming, V: BookView, opposite: JByte, price: Long, remaining0: Long, now: Long,
                  remaining: Long, trades: seq<Trade>, W: BookView)
    requires WellFormedBook(V) && remaining0 > 0
    requires var side := SideOf(V, opposite); side.keys != [] && price == side.keys[0]
    requires PricesCross(inc.side, inc.price, price)
    requires var side := SideOf(V, opposite);
      var f := FillLevel(inc, price, side.entries[price], remaining0, now);
      && trades == f.trades && remaining == f.remaining
      && W == WithSide(V, opposite, Refill(side, price, f.queue))
    ensures var side := SideOf(V, opposite);
      var next := SideOf(W, opposite);
      var m := MatchSide(inc, side, remaining0, now);
      var n := MatchSide(inc, next, remaining, now);
      var f := FillLevel(inc, price, side.entries[price], remaining0, now);
      && W == WithSide(V, opposite, next)
      && m.trades == trades + n.trades && m.side == n.side && m.remaining == n.remaining
      && m.filled == f.filled + n.filled
      && (|next.keys| < |side.keys| || (|next.keys| == |side.keys| && remaining == 0))
  {
    MatchSideStep(inc, SideOf(V, opposite), remaining0, now, [], []);
  }

  lemma WithSideTwice(b: BookView, side: JByte, s: Side, t: Side)
    ensures WithSide(WithSide(b, side, s), side, t) == WithSide(b, side, t)
  {
  }

  class MatchingEngine {
    const book: OrderBook
    const pool: OrderPool

    /** `MatchingEngine(book)`: the engine recycles orders through the book's pool. */
    constructor (book: OrderBook)
      ensures this.book == book && pool == book.pool
    {
      this.book := book;
      pool := book.pool;
    }

    /**
     * The book is valid and well formed for matching, the pool is sound,
     * and the index holds borrowed orders only, one per id.
     */
    ghost predicate Valid()
      reads this, book, book.index, book.index.entries.Values, pool, pool.pool
    {
      && pool == book.pool
      && book.Valid() && WellFormedBook(book.View())
      && pool.Valid() && pool.Sound()
      && Borrowed(book.index.entries, pool)
    }

    /** The incoming order is borrowed and not indexed. */
    ghost predicate Outside(order: Order)
      reads this, book, book.index, pool
    {
      order in pool.All && order !in pool.Available && order !in book.index.entries.Values
    }

    /** The pool is sound and the index holds borrowed orders only, one per id. */
    ghost predicate Pooled()
      reads this, book, book.index, pool, pool.pool
    {
      pool.Valid() && pool.Sound() && Borrowed(book.index.entries, pool)
    }

    /**
     * `returnOrder` of a borrowed order that is no longer indexed: the pool
     * takes it back, reset, and never overflows.
     */
    method Recycle(o: Order, ghost b: BookView)
      requires Pooled() && o in pool.All && o !in pool.Available && o !in book.index.entries.Values
      requires Locates(book.index.entries, b)
      modifies pool, pool.pool, o
      ensures Pooled() && Locates(book.index.entries, b)
      ensures pool.All == old(pool.All) && pool.Available == old(pool.Available) + [o]
    {
      ReturnFits(pool, o);
      var returned := pool.ReturnOrder(o);
      assert returned == Pass;
    }

    /**
     * The fully filled resting order with this id leaves the index and its
     * order object goes back to the pool.
     */
    method Retire(order: Order, id: Long, ghost b: BookView)
      requires Pooled() && Outside(order) && Locates(book.index.entries, b)
      modifies book.index, pool, pool.pool, pool.All - {order}
      ensures Pooled() && Outside(order) && Locates(book.index.entries, b)
      ensures book.index.entries == old(book.index.entries) - {id}
      ensures id in old(book.index.entries) ==> pool.Available == old(pool.Available) + [old(book.index.entries)[id]]
      ensures id !in old(book.index.entries) ==> pool.Available == old(pool.Available)
      ensures pool.All == old(pool.All)
    {
      LocatesSub(book.index.entries, id, b);
      var filled := book.index.Remove(id);
      if filled != null {
        assert filled !in book.index.entries.Values;
        Recycle(filled, b);
      }
    }

    /**
     * One round of the inner loop of `matchOrder`: trade with the oldest
     * order of the queue at the level's price; a fully filled order is
     * retired, a partly filled one stays at the front with its rest.
     */
    method FillFront(order: Order, ghost b: BookView, side: JByte, price: Long, queue: seq<Resting>, remaining: Long, now: Long)
      returns (trade: Trade, queue': seq<Resting>, remaining': Long)
      requires Pooled() && Outside(order) && AllPositive(queue) && queue != [] && remaining > 0
      requires SideOf(b, side).Valid() && price in SideOf(b, side).entries
      requires Locates(book.index.entries, WithSide(b, side, SideOf(b, side).Put(price, queue)))
      modifies book.index, pool, pool.pool, pool.All - {order}
      ensures Pooled() && Outside(order) && pool.All == old(pool.All)
      ensures var q := Min(remaining, queue[0].quantity);
        && trade == CreateTrade(order.orderId, order.side, queue[0].orderId, price, q, now)
        && queue' == AfterFill(queue, q) && remaining' == remaining - q
      ensures var filled := FilledBy(queue, Min(remaining, queue[0].quantity));
        && book.index.entries == Unindexed(old(book.index.entries), filled)
        && pool.Available == old(pool.Available) + Recycled(old(book.index.entries), filled)
      ensures Locates(book.index.entries, WithSide(b, side, SideOf(b, side).Put(price, queue')))
    {
      ghost var E := book.index.entries;
      var counterparty := queue[0];
      var matchQty := Min(remaining, counterparty.quantity);
      trade := CreateTrade(order.orderId, order.side, counterparty.orderId, price, matchQty, now);
      remaining' := remaining - matchQty;
      HoldsAfterFill(queue, matchQty);
      var left := counterparty.quantity - matchQty;
      if left == 0 {
        Retire(order, counterparty.orderId, WithSide(b, side, SideOf(b, side).Put(price, queue)));
        queue' := queue[1..];
        ghost var id: Long := counterparty.orderId;
        assert [id][1..] == [];
        assert Recycled(E, [id]) == (if id in E then [E[id]] else []) + Recycled(E - {id}, []);
      } else {
        queue' := [counterparty.(quantity := left)] + queue[1..];
      }
      LocatesRequeue(book.index.entries, b, side, price, queue, queue');
    }

    /**
     * The inner loop of `matchOrder` at one level of the opposite side of
     * `b`: fill against the queue oldest first at the level's price and
     * retire every fully filled order; what is left of the queue is returned.
     */
    method FillQueue(order: Order, ghost b: BookView, side: JByte, price: Long, queue0: seq<Resting>, remaining0: Long, now: Long)
      returns (remaining: Long, trades: seq<Trade>, queue: seq<Resting>)
      requires Pooled() && Outside(order) && AllPositive(queue0)
      requires SideOf(b, side).Valid() && price in SideOf(b, side).entries
      requires Locates(book.index.entries, WithSide(b, side, SideOf(b, side).Put(price, queue0)))
      modifies book.index, pool, pool.pool, pool.All - {order}
      ensures Pooled() && Outside(order) && pool.All == old(pool.All)
      ensures Locates(book.index.entries, WithSide(b, side, SideOf(b, side).Put(price, queue)))
      ensures var f := FillLevel(Incoming(order.orderId, order.side, order.price), price, queue0, remaining0, now);
        && trades == f.trades && remaining == f.remaining && queue == f.queue
        && book.index.entries == Unindexed(old(book.index.entries), f.filled)
        && pool.Available == old(pool.Available) + Recycled(old(book.index.entries), f.filled)
    {
      var inc := Incoming(order.orderId, order.side, order.price);
      ghost var F := FillLevel(inc, price, queue0, remaining0, now);
      ghost var E, A := book.index.entries, pool.Available;
      ghost var gone: seq<Long> := [];
      assert A + Recycled(E, gone) == A;
      remaining := remaining0;
      trades := [];
      queue := queue0;
      while remaining > 0 && queue != []
        invariant Pooled() && Outside(order) && pool.All == old(pool.All)
        invariant AllPositive(queue)
        invariant Locates(book.index.entries, WithSide(b, side, SideOf(b, side).Put(price, queue)))
        invariant FillBehind(F, trades, gone, FillLevel(inc, price, queue, remaining, now))
        invariant book.index.entries == Unindexed(E, gone) && pool.Available == A + Recycled(E, gone)
        decreases remaining
      {
        ghost var queue0, left0, done, ids := queue, remaining, trades, FilledBy(queue, Min(remaining, queue[0].quantity));
        var trade;
        trade, queue, remaining := FillFront(order, b, side, price, queue, remaining, now);
        Regained(A, E, gone, ids);
        FillLevelStep(inc, price, queue0, left0, now, F, done, gone, trade, queue, remaining);
        trades := trades + [trade];
        gone := gone + ids;
      }
      FillBehindDone(F, trades, gone, inc, price, queue, remaining, now);
      assert book.index.entries == Unindexed(E, F.filled);
      assert pool.Available == A + Recycled(E, F.filled);
    }

    /**
     * One level of `matchOrder`: fill against its queue, then unmap the
     * level if it is empty or store what is left of it.
     */
    method MatchLevel(order: Order, opposite: JByte, price: Long, remaining0: Long, now: Long) returns (remaining: Long, trades: seq<Trade>)
      requires Valid() && Outside(order)
      requires price in SideOf(book.View(), opposite).entries
      modifies book, book.index, pool, pool.pool, pool.All - {order}
      ensures Valid() && Outside(order) && pool.All == old(pool.All)
      ensures var s := SideOf(old(book.View()), opposite);
        var f := FillLevel(Incoming(order.orderId, order.side, order.price), price, s.entries[price], remaining0, now);
        && trades == f.trades && remaining == f.remaining
        && book.View() == WithSide(old(book.View()), opposite, Refill(s, price, f.queue))
        && book.index.entries == Unindexed(old(book.index.entries), f.filled)
        && pool.Available == old(pool.Available) + Recycled(old(book.index.entries), f.filled)
    {
      ghost var V := book.View();
      var s := book.GetSide(opposite);
      var queue := s.entries[price];
      assert s.Put(price, queue) == s;
      remaining, trades, queue := FillQueue(order, V, opposite, price, queue, remaining0, now);
      LocatesRefill(book.index.entries, V, opposite, price, queue);
      RefillWellFormed(s, price, queue);
      s := Refill(s, price, queue);
      ghost var nb := WithSide(V, opposite, s);
      assert WellFormedBook(nb);
      if opposite == BUY {
        book.bids := s;
      } else {
        book.asks := s;
      }
      assert book.View() == nb;
      assert Locates(book.index.entries, book.View());
      assert book.Shaped();
      assert Pooled();
      assert WellFormedBook(book.View());
    }

    /**
     * One pass of the outer loop of `matchOrder`, on the best level of the
     * opposite side when its price crosses: one round of `MatchSide`, so
     * that what is left to match is what the rest of `MatchSide` matches.
     * The opposite side is read again afterwards.
     */
    method MatchBest(order: Order, ghost inc: Incoming, opposite: JByte, price: Long, remaining0: Long, now: Long, ghost side: Side)
      returns (remaining: Long, trades: seq<Trade>, next: Side)
      requires Valid() && Outside(order) && remaining0 > 0
      requires inc == Incoming(order.orderId, order.side, order.price)
      requires side == SideOf(book.View(), opposite) && side.keys != [] && price == side.keys[0]
      requires PricesCross(order.side, order.price, price)
      modifies book, book.index, pool, pool.pool, pool.All - {order}
      ensures Valid() && Outside(order) && pool.All == old(pool.All)
      ensures next == SideOf(book.View(), opposite) && book.View() == WithSide(old(book.View()), opposite, next)
      ensures var m := MatchSide(inc, side, remaining0, now);
        var n := MatchSide(inc, next, remaining, now);
        var f := FillLevel(inc, price, side.entries[price], remaining0, now);
        && m.trades == trades + n.trades && m.side == n.side && m.remaining == n.remaining
        && m.filled == f.filled + n.filled
        && book.index.entries == Unindexed(old(book.index.entries), f.filled)
        && pool.Available == old(pool.Available) + Recycled(old(book.index.entries), f.filled)
        && (|next.keys| < |side.keys| || (|next.keys| == |side.keys| && remaining == 0))
    {
      ghost var V := book.View();
      remaining, trades := MatchLevel(order, opposite, price, remaining0, now);
      next := book.GetSide(opposite);
      BestLevel(inc, V, opposite, price, remaining0, now, remaining, trades, book.View());
    }

    /**
     * `matchOrder`: while quantity remains and the opposite side's best
     * price crosses the order's limit, fill that level; the trades, the
     * remainder and the opposite side are those of `MatchSide`.
     */
    method MatchOrder(order: Order, now: Long) returns (remaining: Long, trades: seq<Trade>)
      requires Valid() && Outside(order)
      modifies book, book.index, pool, pool.pool, pool.All - {order}
      ensures Valid() && Outside(order) && pool.All == old(pool.All)
      ensures var opposite := OppositeSide(order.side);
        var m := MatchSide(Incoming(order.orderId, order.side, order.price), SideOf(old(book.View()), opposite), order.quantity, now);
        && trades == m.trades && remaining == m.remaining
        && book.View() == WithSide(old(book.View()), opposite, m.side)
        && book.index.entries == Unindexed(old(book.index.entries), m.filled)
        && pool.Available == old(pool.Available) + Recycled(old(book.index.entries), m.filled)
    {
      var opposite := OppositeSide(order.side);
      var inc := Incoming(order.orderId, order.side, order.price);
      ghost var V := book.View();
      var side := book.GetSide(opposite);
      ghost var M := MatchSide(inc, side, order.quantity, now);
      ghost var quantity := order.quantity;
      ghost var E, A := book.index.entries, pool.Available;
      ghost var gone: seq<Long> := [];
      assert A + Recycled(E, gone) == A;
      remaining := order.quantity;
      trades := [];
      while remaining > 0 && side.keys != []
        invariant Valid() && Outside(order) && pool.All == old(pool.All)
        invariant inc == Incoming(order.orderId, order.side, order.price) && order.quantity == quantity
        invariant book.View() == WithSide(V, opposite, side)
        invariant Behind(M, trades, gone, MatchSide(inc, side, remaining, now))
        invariant book.index.entries == Unindexed(E, gone) && pool.Available == A + Recycled(E, gone)
        decreases |side.keys|, if remaining > 0 then remaining else 0
      {
        var bestPrice := side.keys[0];
        if !PricesCross(order.side, order.price, bestPrice) {
          break;
        }
        ghost var m := MatchSide(inc, side, remaining, now);
        ghost var ids := FillLevel(inc, bestPrice, side.entries[bestPrice], remaining, now).filled;
        Regained(A, E, gone, ids);
        var levelTrades, next;
        remaining, levelTrades, next := MatchBest(order, inc, opposite, bestPrice, remaining, now, side);
        MatchAdvance(M, trades, gone, m, levelTrades, ids, MatchSide(inc, next, remaining, now));
        gone := gone + ids;
        WithSideTwice(V, opposite, side, next);
        trades := trades + levelTrades;
        side := next;
      }
      BehindDone(M, trades, gone, inc, side, remaining, now);
      assert V == old(book.View()) && M == MatchSide(inc, SideOf(V, opposite), quantity, now);
    }

    /** The book once the indexed order under `id` has been cancelled. */
    ghost function CancelView(id: Long): (r: BookView)
      reads this, book, book.index, book.index.entries.Values, pool, pool.pool
      requires Valid() && id in book.index.entries
      ensures WellFormedBook(r)
    {
      var o := book.index.entries[id];
      assert Located(o, id, book.View());
      Cancel(book.View(), o.side, o.price, id)
    }

    /**
     * `processOrder`: borrow an order, match it against the opposite side,
     * then rest what remains on its own side or hand the order back. An
     * empty pool fails the call before anything changes.
     */
    method ProcessOrder(orderId: Long, side: JByte, price: Long, quantity: Long, now: Long) returns (r: Result<seq<Trade>, PoolError>)
      requires Valid()
      modifies book, book.index, pool, pool.pool, pool.All
      ensures Valid() && pool.All == old(pool.All)
      ensures old(pool.top) < 0 ==>
        && r == Err(Exhausted) && book.View() == old(book.View())
        && book.index.entries == old(book.index.entries) && pool.Available == old(pool.Available)
      ensures old(pool.top) >= 0 ==>
        var p := Process(old(book.View()), orderId, side, price, quantity, now);
        && r == Ok(p.trades) && book.View() == p.book
        && Settled(old(book.index.entries), old(pool.Available)[..old(pool.top)], old(pool.Available)[old(pool.top)],
                   orderId, side, price, p, book.index.entries, pool.Available)
    {
      var borrowed := pool.Borrow();
      if borrowed.Err? {
        return Err(borrowed.error);
      }
      var order := borrowed.value;
      assert order in old(pool.Available);
      assert order !in book.index.entries.Values;
      var trades := Place(order, orderId, side, price, quantity, now);
      return Ok(trades);
    }

    /**
     * The body of `processOrder` once an order is borrowed: fill it with the
     * incoming values, match it, then rest the remainder or hand it back.
     */
    method Place(order: Order, orderId: Long, side: JByte, price: Long, quantity: Long, now: Long) returns (trades: seq<Trade>)
      requires Valid() && Outside(order)
      modifies book, book.index, pool, pool.pool, pool.All
      ensures Valid() && pool.All == old(pool.All)
      ensures var p := Process(old(book.View()), orderId, side, price, quantity, now);
        && trades == p.trades && book.View() == p.book
        && Settled(old(book.index.entries), old(pool.Available), order, orderId, side, price, p, book.index.entries, pool.Available)
    {
      order.Init(orderId, side, price, quantity);
      var remaining;
      remaining, trades := MatchOrder(order, now);
      if remaining > 0 {
        Rest(order, remaining);
      } else {
        Recycle(order, book.View());
      }
    }

    /** The remainder of a matched order rests at the back of its level and is indexed. */
    method Rest(order: Order, remaining: Long)
      requires Valid() && Outside(order) && remaining > 0
      modifies book, book.index, order`quantity
      ensures Valid() && order.quantity == remaining
      ensures book.index.entries == old(book.index.entries)[order.orderId := order]
      ensures book.View() == WithSide(old(book.View()), order.side, AddResting(SideOf(old(book.View()), order.side), order.price, Resting(order.orderId, remaining)))
    {
      order.quantity := remaining;
      AddRestingWellFormed(SideOf(book.View(), order.side), order.price, Resting(order.orderId, remaining));
      book.AddOrder(order);
    }

    /**
     * `cancelOrder`: an indexed order leaves its level and the index and
     * goes back to the pool; an unknown id changes nothing.
     */
    method CancelOrder(id: Long) returns (cancelled: bool)
      requires Valid()
      modifies book, book.index, pool, pool.pool, pool.All
      ensures Valid() && pool.All == old(pool.All)
      ensures cancelled <==> id in old(book.index.entries)
      ensures !cancelled ==>
        && book.View() == old(book.View())
        && book.index.entries == old(book.index.entries) && pool.Available == old(pool.Available)
      ensures cancelled ==>
        && book.View() == old(CancelView(id))
        && book.index.entries == old(book.index.entries) - {id}
        && pool.Available == old(pool.Available) + [old(book.index.entries)[id]]
    {
      var order := book.FindOrder(id);
      if order == null {
        return false;
      }
      ghost var before := book.View();
      ghost var gone := Cancel(before, order.side, order.price, id);
      book.RemoveOrder(order);
      assert book.View() == gone;
      assert order !in book.index.entries.Values;
      Recycle(order, gone);
      assert book.Shaped() && Locates(book.index.entries, book.View());
      assert WellFormedBook(book.View());
      return true;
    }

    /**
     * `modifyOrder`: cancel, then process the new price and quantity under
     * the same id at the back of the queue. An unknown id trades nothing;
     * a cancelled order has just refilled the pool, so processing cannot fail.
     */
    method ModifyOrder(id: Long, side: JByte, price: Long, quantity: Long, now: Long) returns (r: Result<seq<Trade>, PoolError>)
      requires Valid()
      modifies book, book.index, pool, pool.pool, pool.All
      ensures Valid() && pool.All == old(pool.All)
      ensures id !in old(book.index.entries) ==>
        && r == Ok([]) && book.View() == old(book.View())
        && book.index.entries == old(book.index.entries) && pool.Available == old(pool.Available)
      ensures id in old(book.index.entries) ==>
        var p := Process(old(CancelView(id)), id, side, price, quantity, now);
        && r == Ok(p.trades) && book.View() == p.book
        && Settled(old(book.index.entries) - {id}, old(pool.Available), old(book.index.entries)[id],
                   id, side, price, p, book.index.entries, pool.Available)
    {
      ghost var A := pool.Available;
      ghost var o := if id in book.index.entries then book.index.entries[id] else null;
      var cancelled := CancelOrder(id);
      if !cancelled {
        return Ok([]);
      }
      assert pool.Available == A + [o] && pool.top == |A|;
      assert pool.Available[pool.top] == o && pool.Available[..pool.top] == A;
      r := ProcessOrder(id, side, price, quantity, now);
    }
  }
}
