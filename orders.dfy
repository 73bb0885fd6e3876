/** The mutable, pooled order record and its intrusive list links. */
module Orders {
  import opened JavaTypes

  class Order {
    var orderId: Long
    var price: Long      // fixed point: 10500 is 105.00
    var quantity: Long
    var side: JByte      // 'B' or 'S'
    var next: Order?
    var prev: Order?

    /** A pool slot: every field zero or null. */
    constructor ()
      ensures orderId == 0 && price == 0 && quantity == 0 && side == 0
      ensures next == null && prev == null
    {
      orderId, price, quantity, side := 0, 0, 0, 0;
      next, prev := null, null;
    }

    /** `reset`: clears every field before the order goes back to the pool. */
    method Reset()
      modifies this
      ensures orderId == 0 && price == 0 && quantity == 0 && side == 0
      ensures next == null && prev == null
    {
      orderId := 0;
      price := 0;
      quantity := 0;
      side := 0;
      next := null;
      prev := null;
    }

    /** `init`: fills a borrowed order with the incoming values and unlinks it. */
    method Init(id: Long, s: JByte, p: Long, q: Long)
      modifies this
      ensures orderId == id && side == s && price == p && quantity == q
      ensures next == null && prev == null
    {
      orderId := id;
      side := s;
      price := p;
      quantity := q;
      next := null;
      prev := null;
    }
  }
}
