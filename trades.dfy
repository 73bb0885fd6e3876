/** Executed trades: immutable records of who bought from whom, at what price and size. */
module Trades {
  import opened JavaTypes

  /** Every field is final: a trade never changes once created. */
  datatype Trade = Trade(buyOrderId: Long, sellOrderId: Long, price: Long, quantity: Long, timestamp: Long)

  /** The summed quantity of a list of trades, without wrap-around. */
  function TradedQuantity(ts: seq<Trade>): int
  {
    if ts == [] then 0 else ts[0].quantity + TradedQuantity(ts[1..])
  }

  lemma {:induction false} TradedQuantityAppend(a: seq<Trade>, b: seq<Trade>)
    ensures TradedQuantity(a + b) == TradedQuantity(a) + TradedQuantity(b)
    decreases |a|
  {
    if a == [] {
      assert a + b == b;
    } else {
      assert (a + b)[1..] == a[1..] + b;
      TradedQuantityAppend(a[1..], b);
    }
  }
}
