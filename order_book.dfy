/**
 * The order book: two sorted maps from price to the queue resting there
 * (bids best-first by descending price, asks by ascending price), the id
 * index, and the pool the engine recycles orders through.
 *
 * Each concurrent skip-list map is a `PriceMap` value held in a field and
 * reassigned on update; each level is held as its queue of resting orders
 * (id and open quantity, oldest first), the value `OrderLevel.Queue` reads
 * off a linked level.
 */
module Books {
  import opened JavaTypes
  import opened Wrappers
  import opened Orders
  import opened Queues
  import opened Indexes
  import opened Pools
  import opened PriceMaps
  import opened Matching
  import opened BookViews

  /** The order carries the id and is queued under it at its price on its side. */
  ghost predicate Located(o: Order, id: Long, b: BookView)
    reads o
  {
    var s := SideOf(b, o.side);
    o.orderId == id && o.price in s.entries && Holds(s.entries[o.price], id)
  }

  /** Every entry of the index is located in the book. */
  ghost predicate Locates(entries: map<Long, Order>, b: BookView)
    reads entries.Values
  {
    forall id :: id in entries ==> Located(entries[id], id, b)
  }

  /** Resting one more order leaves every located entry located. */
  lemma LocatesAfterAdd(entries: map<Long, Order>, b: BookView, side: JByte, price: Long, r: Resting)
    requires Locates(entries, b) && SideOf(b, side).Valid()
    ensures Locates(entries, WithSide(b, side, AddResting(SideOf(b, side), price, r)))
  {
    var s := SideOf(b, side);
    var b' := WithSide(b, side, AddResting(s, price, r));
    forall id | id in entries
      ensures Located(entries[id], id, b')
    {
      var o := entries[id];
      assert Located(o, id, b);
      if (o.side == BUY) == (side == BUY) && o.price == price {
        HoldsAppend(QueueAt(s, price), r, id);
      }
    }
  }

  /** Taking out an order whose id is no longer indexed leaves every entry located. */
  lemma LocatesAfterRemove(entries: map<Long, Order>, b: BookView, side: JByte, price: Long, i: nat)
    requires Locates(entries, b)
    requires SideOf(b, side).Valid() && price in SideOf(b, side).entries && i < |SideOf(b, side).entries[price]|
    requires SideOf(b, side).entries[price][i].orderId !in entries
    ensures Locates(entries, WithSide(b, side, RemoveAt(SideOf(b, side), price, i)))
  {
    var s := SideOf(b, side);
    var b' := WithSide(b, side, RemoveAt(s, price, i));
    forall id | id in entries
      ensures Located(entries[id], id, b')
    {
      var o := entries[id];
      assert Located(o, id, b);
      if (o.side == BUY) == (side == BUY) && o.price == price {
        HoldsWithout(s.entries[price], i, id);
      }
    }
  }

  /** Indexing a located order keeps the index located. */
  lemma LocatesPut(entries: map<Long, Order>, b: BookView, o: Order)
    requires Locates(entries, b) && Located(o, o.orderId, b)
    ensures Locates(entries[o.orderId := o], b)
  {
  }

  class OrderBook {
    var bids: Side
    var asks: Side
    const index: OrderIndex
    const pool: OrderPool

    /** The book as values. */
    function View(): BookView
      reads this
    {
      BookView(bids, asks)
    }

    /** Bids are sorted by descending and asks by ascending price, and no level is empty. */
    ghost predicate Shaped()
      reads this
    {
      && bids.Valid() && bids.descending && asks.Valid() && !asks.descending
      && (forall p :: p in bids.entries ==> bids.entries[p] != [])
      && (forall p :: p in asks.entries ==> asks.entries[p] != [])
    }

    /** The sides are shaped and the index maps each id to an order queued under it. */
    ghost predicate Valid()
      reads this, index, index.entries.Values
    {
      Shaped() && Locates(index.entries, View())
    }

    /** `OrderBook(pool)`: empty bids ordered by descending price, empty asks by ascending price. */
    constructor (pool: OrderPool)
      ensures Valid() && this.pool == pool && fresh(index)
      ensures index.entries == map[]
      ensures View() == BookView(PriceMap(true, [], map[]), PriceMap(false, [], map[]))
    {
      bids := PriceMap(true, [], map[]);
      asks := PriceMap(false, [], map[]);
      index := new OrderIndex();
      this.pool := pool;
    }

    /** `getSide`: 'B' selects the bids, any other byte the asks; the bids are the one map sorted by descending price. */
    function GetSide(side: JByte): (m: Side)
      reads this, index, index.entries.Values
      requires Valid()
      ensures m == SideOf(View(), side)
      ensures m.Valid() && (m.descending <==> side == BUY)
    {
      if side == BUY then bids else asks
    }

    /** `getBestBid`: the highest bid price, or nothing when there are no bids. */
    method GetBestBid() returns (r: Option<Long>)
      requires Valid()
      ensures r.None? <==> bids.entries == map[]
      ensures r.Some? ==> r.value in bids.entries && forall p :: p in bids.entries ==> p <= r.value
    {
      r := if bids.keys == [] then None else Some(bids.keys[0]);
      var _ := bids.First();
    }

    /** `getBestAsk`: the lowest ask price, or nothing when there are no asks. */
    method GetBestAsk() returns (r: Option<Long>)
      requires Valid()
      ensures r.None? <==> asks.entries == map[]
      ensures r.Some? ==> r.value in asks.entries && forall p :: p in asks.entries ==> r.value <= p
    {
      r := if asks.keys == [] then None else Some(asks.keys[0]);
      var _ := asks.First();
    }

    /**
     * `addOrder`: the order joins the back of the queue at its price on its
     * side, the level being opened when none is mapped there; the index then
     * maps its id to it.
     */
    method AddOrder(o: Order)
      requires Valid()
      modifies this, index
      ensures Valid()
      ensures index.entries == old(index.entries)[o.orderId := o]
      ensures View() == WithSide(old(View()), o.side, AddResting(SideOf(old(View()), o.side), o.price, Resting(o.orderId, o.quantity)))
    {
      var side := GetSide(o.side);
      var level := if o.price in side.entries then side.entries[o.price] else [];
      ghost var r := Resting(o.orderId, o.quantity);
      ghost var b := WithSide(View(), o.side, AddResting(side, o.price, r));
      AddRestingKeeps(side, o.price, r);
      LocatesAfterAdd(index.entries, View(), o.side, o.price, r);
      HoldsAppend(level, r, o.orderId);
      LocatesPut(index.entries, b, o);
      side := side.Put(o.price, level + [Resting(o.orderId, o.quantity)]);
      if o.side == BUY {
        bids := side;
      } else {
        asks := side;
      }
      index.Put(o.orderId, o);
      assert View() == b;
    }

    /**
     * `removeOrder` of a resting order: it leaves its level, the level is
     * unmapped once empty, and its id leaves the index.
     */
    method RemoveOrder(o: Order)
      requires Valid() && o.orderId in index.entries && index.entries[o.orderId] == o
      modifies this, index
      ensures Valid()
      ensures index.entries == old(index.entries) - {o.orderId}
      ensures var s := SideOf(old(View()), o.side);
        && o.price in s.entries && Holds(s.entries[o.price], o.orderId)
        && View() == WithSide(old(View()), o.side, RemoveAt(s, o.price, Position(s.entries[o.price], o.orderId)))
    {
      var side := GetSide(o.side);
      assert Located(o, o.orderId, View());
      var i := Position(side.entries[o.price], o.orderId);
      var rest := index.entries - {o.orderId};
      ghost var b := WithSide(View(), o.side, RemoveAt(side, o.price, i));
      LocatesAfterRemove(rest, View(), o.side, o.price, i);
      RemoveAtKeeps(side, o.price, i);
      side := RemoveAt(side, o.price, i);
      if o.side == BUY {
        bids := side;
      } else {
        asks := side;
      }
      assert View() == b;
      assert Shaped();
      var _ := index.Remove(o.orderId);
      assert index.entries == rest;
      assert Locates(index.entries, b);
    }

    /** `findOrder`: the indexed order with this id, located in the book, or null. */
    method FindOrder(id: Long) returns (r: Order?)
      requires Valid()
      ensures id in index.entries ==> r == index.entries[id] && Located(r, id, View())
      ensures id !in index.entries ==> r == null
    {
      r := index.Get(id);
    }

    /** `isEmpty`: no level on either side; an empty book indexes nothing. */
    method IsEmpty() returns (b: bool)
      requires Valid()
      ensures b <==> bids.entries == map[] && asks.entries == map[]
      ensures b ==> index.entries == map[]
    {
      b := bids.keys == [] && asks.keys == [];
      if bids.keys != [] {
        assert bids.keys[0] in bids.entries;
      }
      if asks.keys != [] {
        assert asks.keys[0] in asks.entries;
      }
      forall id | id in index.entries
        ensures bids.entries != map[] || asks.entries != map[]
      {
        assert Located(index.entries[id], id, View());
      }
    }
  }
}
