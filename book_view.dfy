/**
 * The whole book as values, and what processing, resting and cancelling an
 * order do to it. The heap engine is proved to follow these functions.
 */
module BookViews {
  import opened JavaTypes
  import opened Queues
  import opened PriceMaps
  import opened Trades
  import opened Matching

  datatype BookView = BookView(bids: Side, asks: Side)

  /** Bids iterate by descending price, asks by ascending price, and both sides are well formed. */
  ghost predicate WellFormedBook(b: BookView)
  {
    WellFormed(b.bids) && b.bids.descending && WellFormed(b.asks) && !b.asks.descending
  }

  /** `getSide`: 'B' selects the bids and any other byte the asks. */
  function SideOf(b: BookView, side: JByte): Side
  {
    if side == BUY then b.bids else b.asks
  }

  /** On a well-formed book the ordering alone tells which side `getSide` took. */
  lemma SideOfOrdering(b: BookView, side: JByte)
    requires WellFormedBook(b)
    ensures var s := SideOf(b, side);
      && (s == b.bids || s == b.asks) && WellFormed(s)
      && (s.descending <==> side == BUY)
  {
  }

  function WithSide(b: BookView, side: JByte, s: Side): BookView
  {
    if side == BUY then b.(bids := s) else b.(asks := s)
  }

  /** The queue at `price`, empty when no level is open there. */
  function QueueAt(s: Side, price: Long): seq<Resting>
  {
    if price in s.entries then s.entries[price] else []
  }

  /** `addOrder` on values: the order joins the back of the queue at its price, opening the level if needed. */
  function AddResting(s: Side, price: Long, r: Resting): Side
    requires s.Valid()
  {
    s.Put(price, QueueAt(s, price) + [r])
  }

  /** Resting an order keeps the side sorted and changes only the queue at its price. */
  lemma AddRestingKeeps(s: Side, price: Long, r: Resting)
    requires s.Valid()
    ensures var t := AddResting(s, price, r);
      && t.Valid() && t.descending == s.descending
      && (forall p :: p in t.entries <==> p in s.entries || p == price)
      && t.entries[price] == QueueAt(s, price) + [r]
      && (forall p :: p in s.entries && p != price ==> t.entries[p] == s.entries[p])
  {
  }

  lemma AddRestingWellFormed(s: Side, price: Long, r: Resting)
    requires WellFormed(s) && r.quantity > 0
    ensures var t := AddResting(s, price, r);
      && WellFormed(t) && t.descending == s.descending
      && (forall p :: p in t.entries <==> p in s.entries || p == price)
      && t.entries[price] == QueueAt(s, price) + [r]
      && (forall p :: p in s.entries && p != price ==> t.entries[p] == s.entries[p])
  {
  }

  /** The trades, the new book, what was left of the order, and the resting ids it filled completely. */
  datatype Processed = Processed(trades: seq<Trade>, book: BookView, remaining: Long, filled: seq<Long>)

  /**
   * `processOrder` on values: match against the opposite side, then rest
   * any positive remainder on the order's own side at its price.
   */
  function Process(b: BookView, orderId: Long, side: JByte, price: Long, quantity: Long, now: Long): (r: Processed)
    requires WellFormedBook(b)
    ensures WellFormedBook(r.book)
  {
    var opposite := OppositeSide(side);
    var m := MatchSide(Incoming(orderId, side, price), SideOf(b, opposite), quantity, now);
    var matched := WithSide(b, opposite, m.side);
    if m.remaining > 0 then
      AddRestingWellFormed(SideOf(matched, side), price, Resting(orderId, m.remaining));
      Processed(m.trades, WithSide(matched, side, AddResting(SideOf(matched, side), price, Resting(orderId, m.remaining))), m.remaining, m.filled)
    else
      Processed(m.trades, matched, m.remaining, m.filled)
  }

  /** `removeOrder` on values: the order at position `i` of the level leaves it; an emptied level closes. */
  function RemoveAt(s: Side, price: Long, i: nat): Side
    requires s.Valid() && price in s.entries && i < |s.entries[price]|
  {
    Refill(s, price, s.entries[price][..i] + s.entries[price][i + 1..])
  }

  /** Removing one queued order keeps the side sorted, maps no empty level, and touches no other level. */
  lemma RemoveAtKeeps(s: Side, price: Long, i: nat)
    requires s.Valid() && price in s.entries && i < |s.entries[price]|
    ensures var t := RemoveAt(s, price, i);
      && t.Valid() && t.descending == s.descending
      && (forall p :: p in t.entries ==> p in s.entries && (p == price ==> t.entries[p] != []))
      && (forall p :: p in s.entries && p != price ==> p in t.entries && t.entries[p] == s.entries[p])
  {
  }

  /** Removing one queued order keeps the side well formed and touches no other level. */
  lemma RemoveAtWellFormed(s: Side, price: Long, i: nat)
    requires WellFormed(s) && price in s.entries && i < |s.entries[price]|
    ensures var t := RemoveAt(s, price, i);
      && WellFormed(t) && t.descending == s.descending
      && (forall p :: p in t.entries ==> p in s.entries)
      && (forall p :: p in s.entries && p != price ==> p in t.entries && t.entries[p] == s.entries[p])
      && (|s.entries[price]| == 1 <==> price !in t.entries)
      && (price in t.entries ==> t.entries[price] == s.entries[price][..i] + s.entries[price][i + 1..])
  {
    var q := s.entries[price][..i] + s.entries[price][i + 1..];
    assert |q| == |s.entries[price]| - 1;
    assert forall j :: 0 <= j < |q| ==> q[j] == s.entries[price][if j < i then j else j + 1];
  }

  /**
   * `cancelOrder` on values, for an order queued under `id` at `price` on
   * `side`: its entry leaves the level, and an emptied level closes.
   */
  function Cancel(b: BookView, side: JByte, price: Long, id: Long): (r: BookView)
    requires WellFormedBook(b) && price in SideOf(b, side).entries && Holds(SideOf(b, side).entries[price], id)
    ensures WellFormedBook(r)
  {
    var s := SideOf(b, side);
    RemoveAtWellFormed(s, price, Position(s.entries[price], id));
    WithSide(b, side, RemoveAt(s, price, Position(s.entries[price], id)))
  }

  /**
   * Cancelling takes exactly the first entry under the id out of its level:
   * the level loses that entry and its quantity, and every other level and
   * the other side stay as they were.
   */
  lemma CancelTakesOne(b: BookView, side: JByte, price: Long, id: Long)
    requires WellFormedBook(b) && price in SideOf(b, side).entries && Holds(SideOf(b, side).entries[price], id)
    ensures var s := SideOf(b, side);
      var q := s.entries[price];
      var i := Position(q, id);
      var t := SideOf(Cancel(b, side, price, id), side);
      && SideOf(Cancel(b, side, price, id), OppositeSide(side)) == SideOf(b, OppositeSide(side))
      && QueueAt(t, price) == q[..i] + q[i + 1..]
      && Total(QueueAt(t, price)) == Total(q) - q[i].quantity
      && (forall p :: p != price ==> QueueAt(t, p) == QueueAt(s, p))
  {
    var s := SideOf(b, side);
    var q := s.entries[price];
    var i := Position(q, id);
    var t := RemoveAt(s, price, i);
    RemoveAtWellFormed(s, price, i);
    TotalWithout(q, i);
    assert SideOf(Cancel(b, side, price, id), side) == t;
    assert QueueAt(t, price) == q[..i] + q[i + 1..];
    forall p | p != price
      ensures QueueAt(t, p) == QueueAt(s, p)
    {
    }
  }

  /** The book is not crossed: every bid is below every ask. */
  predicate NotCrossed(b: BookView)
  {
    b.bids.keys == [] || b.asks.keys == [] || b.bids.keys[0] < b.asks.keys[0]
  }

  /** The first key of a sorted side is its best price. */
  lemma FirstIsBest(s: Side, k: Long)
    requires s.Valid() && s.keys != [] && k in s.entries
    ensures k == s.keys[0] || Before(s.descending, s.keys[0], k)
  {
    var _ := s.First();
  }

  /** An incoming quantity that is zero or negative trades nothing and leaves the book as it was. */
  lemma ProcessNothing(b: BookView, orderId: Long, side: JByte, price: Long, quantity: Long, now: Long)
    requires WellFormedBook(b) && quantity <= 0
    ensures Process(b, orderId, side, price, quantity, now) == Processed([], b, quantity, [])
  {
  }

  /**
   * The trades of `processOrder` are the reference allocation against the
   * opposite side's priority queue, and that side keeps what is left of it.
   */
  lemma ProcessAllocates(b: BookView, orderId: Long, side: JByte, price: Long, quantity: Long, now: Long)
    requires WellFormedBook(b)
    ensures var opposite := SideOf(b, OppositeSide(side));
      var r := Process(b, orderId, side, price, quantity, now);
      && PlacedPositive(Flatten(opposite))
      && var a := Allocate(Incoming(orderId, side, price), Flatten(opposite), quantity, now);
         && r.trades == a.trades && r.remaining == a.remaining
         && Flatten(SideOf(r.book, OppositeSide(side))) == a.leftover
  {
    MatchSideAllocates(Incoming(orderId, side, price), SideOf(b, OppositeSide(side)), quantity, now);
  }

  /**
   * Conservation: traded quantity plus the remainder is the incoming
   * quantity, and a positive remainder rests at the back of the queue at the
   * order's price on its own side.
   */
  lemma ProcessConserves(b: BookView, orderId: Long, side: JByte, price: Long, quantity: Long, now: Long)
    requires WellFormedBook(b) && quantity >= 0
    ensures var r := Process(b, orderId, side, price, quantity, now);
      && TradedQuantity(r.trades) + r.remaining == quantity
      && 0 <= r.remaining <= quantity
      && (r.remaining > 0 ==>
            var own := SideOf(r.book, side);
            price in own.entries && own.entries[price] == QueueAt(SideOf(b, side), price) + [Resting(orderId, r.remaining)])
  {
    var opposite := SideOf(b, OppositeSide(side));
    MatchSideAllocates(Incoming(orderId, side, price), opposite, quantity, now);
    AllocateConserves(Incoming(orderId, side, price), Flatten(opposite), quantity, now);
    var m := MatchSide(Incoming(orderId, side, price), opposite, quantity, now);
    var matched := WithSide(b, OppositeSide(side), m.side);
    assert SideOf(matched, side) == SideOf(b, side);
    if m.remaining > 0 {
      AddRestingWellFormed(SideOf(matched, side), price, Resting(orderId, m.remaining));
    }
  }

  /** After matching, the opposite side is empty or its best price no longer crosses a resting remainder. */
  lemma ProcessStops(b: BookView, orderId: Long, side: JByte, price: Long, quantity: Long, now: Long)
    requires WellFormedBook(b)
    ensures var r := Process(b, orderId, side, price, quantity, now);
      var opposite := SideOf(r.book, OppositeSide(side));
      r.remaining > 0 ==> opposite.keys == [] || !PricesCross(side, price, opposite.keys[0])
  {
    var inc := Incoming(orderId, side, price);
    var opposite := SideOf(b, OppositeSide(side));
    MatchSideAllocates(inc, opposite, quantity, now);
    AllocateStops(inc, Flatten(opposite), quantity, now);
    var m := MatchSide(inc, opposite, quantity, now);
    if m.side.keys != [] {
      FlattenHead(m.side);
    }
    var r := Process(b, orderId, side, price, quantity, now);
    assert SideOf(r.book, OppositeSide(side)) == m.side;
  }

  /** Processing an order never leaves the book crossed. */
  lemma ProcessNotCrossed(b: BookView, orderId: Long, side: JByte, price: Long, quantity: Long, now: Long)
    requires WellFormedBook(b) && NotCrossed(b)
    ensures NotCrossed(Process(b, orderId, side, price, quantity, now).book)
  {
    var inc := Incoming(orderId, side, price);
    var opposite := SideOf(b, OppositeSide(side));
    var m := MatchSide(inc, opposite, quantity, now);
    var r := Process(b, orderId, side, price, quantity, now);
    ProcessStops(b, orderId, side, price, quantity, now);
    var own := SideOf(b, side);
    var own2 := SideOf(r.book, side);
    var opp2 := SideOf(r.book, OppositeSide(side));
    assert opp2 == m.side;
    if own2.keys != [] && opp2.keys != [] {
      var o := opp2.keys[0];
      assert o in opposite.entries;
      FirstIsBest(opposite, o);
      var w := own2.keys[0];
      if m.remaining > 0 {
        AddRestingWellFormed(own, price, Resting(orderId, m.remaining));
      }
      if w != price || m.remaining <= 0 {
        assert w in own.entries;
        FirstIsBest(own, w);
      }
    }
  }

  /** Cancelling an order never leaves the book crossed. */
  lemma CancelNotCrossed(b: BookView, side: JByte, price: Long, i: nat)
    requires WellFormedBook(b) && NotCrossed(b)
    requires price in SideOf(b, side).entries && i < |SideOf(b, side).entries[price]|
    ensures NotCrossed(WithSide(b, side, RemoveAt(SideOf(b, side), price, i)))
  {
    var s := SideOf(b, side);
    var t := RemoveAt(s, price, i);
    var b2 := WithSide(b, side, t);
    if b2.bids.keys != [] && b2.asks.keys != [] {
      assert t.keys[0] in t.entries;
      FirstIsBest(s, t.keys[0]);
    }
  }
}
