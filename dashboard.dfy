/**
 * The integer side of the dashboard: the cumulative depth curve of each
 * side, the level tables, the truncation of tables, the backend-unavailable
 * test and the notice shown after a submit. Prices stay in fixed point; the
 * decimal display is not part of this model.
 */
module Dashboard {
  import opened JavaTypes
  import opened Wrappers
  import opened PriceMaps
  import opened Queues
  import opened Trades
  import opened Matching
  import opened Controllers

  /** The levels shown in the bid and ask tables. */
  const TABLE_LEVELS: nat := 15
  /** The trades shown in the recent-trades table. */
  const TABLE_TRADES: nat := 10

  /** The exact sum of the quantities of some snapshot lines. */
  function SumQuantities(levels: seq<PriceLevel>): int
  {
    if levels == [] then 0 else levels[0].quantity + SumQuantities(levels[1..])
  }

  /** `cumsum` over an int64 column from a running total `acc`: each step adds one quantity and wraps. */
  function RunningSums(acc: Long, levels: seq<PriceLevel>): (r: seq<Long>)
    ensures |r| == |levels|
    decreases |levels|
  {
    if levels == [] then []
    else
      var next := Wrap64(acc + levels[0].quantity);
      [next] + RunningSums(next, levels[1..])
  }

  /** The cumulative quantity series of one side of the depth chart. */
  function Cumulative(levels: seq<PriceLevel>): (r: seq<Long>)
    ensures |r| == |levels|
  {
    RunningSums(0, levels)
  }

  /** A prefix of `i + 1` lines sums to the first quantity plus the next `i`. */
  lemma PrefixSumCons(levels: seq<PriceLevel>, i: nat)
    requires i < |levels|
    ensures SumQuantities(levels[..i + 1]) == levels[0].quantity + SumQuantities(levels[1..][..i])
  {
    assert levels[..i + 1][1..] == levels[1..][..i];
  }

  /** One element of the running sums: element `i` is the wrapped sum of quantities `0..i`. */
  lemma {:induction false} RunningSumAt(acc: Long, levels: seq<PriceLevel>, i: nat)
    requires i < |levels|
    ensures RunningSums(acc, levels)[i] == Wrap64(acc + SumQuantities(levels[..i + 1]))
    decreases i
  {
    var next := Wrap64(acc + levels[0].quantity);
    assert RunningSums(acc, levels) == [next] + RunningSums(next, levels[1..]);
    PrefixSumCons(levels, i);
    if i == 0 {
      assert levels[1..][..0] == [];
    } else {
      var a, b := acc + levels[0].quantity, SumQuantities(levels[1..][..i]);
      assert acc + SumQuantities(levels[..i + 1]) == a + b;
      RunningSumAt(next, levels[1..], i - 1);
      assert RunningSums(acc, levels)[i] == Wrap64(Wrap64(a) + b);
      Wrap64Add(a, b);
    }
  }

  /** Element `i` of the running sums is the wrapped sum of quantities `0..i`. */
  lemma RunningSumsArePrefixSums(acc: Long, levels: seq<PriceLevel>)
    ensures var r := RunningSums(acc, levels);
      forall i :: 0 <= i < |r| ==> r[i] == Wrap64(acc + SumQuantities(levels[..i + 1]))
  {
    forall i | 0 <= i < |levels|
      ensures RunningSums(acc, levels)[i] == Wrap64(acc + SumQuantities(levels[..i + 1]))
    {
      RunningSumAt(acc, levels, i);
    }
  }

  /** A prefix of non-negative quantities sums to no more than the whole. */
  lemma {:induction false} SumPrefixBounded(levels: seq<PriceLevel>, n: nat)
    requires n <= |levels|
    requires forall i :: 0 <= i < |levels| ==> levels[i].quantity >= 0
    ensures 0 <= SumQuantities(levels[..n]) <= SumQuantities(levels)
    decreases |levels|
  {
    if levels != [] {
      if n == 0 {
        assert levels[..0] == [];
        SumPrefixBounded(levels[1..], 0);
        assert levels[1..][..0] == [];
      } else {
        assert levels[..n][1..] == levels[1..][..n - 1];
        SumPrefixBounded(levels[1..], n - 1);
      }
    }
  }

  /**
   * With non-negative quantities whose total fits a `long`, the curve is
   * the exact prefix sums: it never decreases and ends at the side's total.
   */
  lemma CumulativeRises(levels: seq<PriceLevel>)
    requires forall i :: 0 <= i < |levels| ==> levels[i].quantity >= 0
    requires SumQuantities(levels) <= LONG_MAX
    ensures var r := Cumulative(levels);
      && (forall i :: 0 <= i < |r| ==> r[i] == SumQuantities(levels[..i + 1]))
      && (forall i, j :: 0 <= i <= j < |r| ==> r[i] <= r[j])
      && (r != [] ==> r[|r| - 1] == SumQuantities(levels))
  {
    var r := Cumulative(levels);
    RunningSumsArePrefixSums(0, levels);
    assert r == RunningSums(0, levels);
    forall i | 0 <= i < |r|
      ensures r[i] == SumQuantities(levels[..i + 1])
    {
      SumPrefixBounded(levels, i + 1);
      assert r[i] == Wrap64(0 + SumQuantities(levels[..i + 1]));
    }
    forall i, j | 0 <= i <= j < |r|
      ensures r[i] <= r[j]
    {
      var upto := levels[..j + 1];
      assert upto[..i + 1] == levels[..i + 1];
      SumPrefixBounded(upto, i + 1);
    }
    if r != [] {
      assert levels[..|r|] == levels;
    }
  }

  /** One trace of the depth chart: fixed-point prices against cumulative quantity. */
  datatype Trace = Trace(name: string, prices: seq<Long>, cumulative: seq<Long>)

  function Prices(levels: seq<PriceLevel>): (r: seq<Long>)
    ensures |r| == |levels| && forall i :: 0 <= i < |r| ==> r[i] == levels[i].price
  {
    seq(|levels|, i requires 0 <= i < |levels| => levels[i].price)
  }

  /** `create_depth_chart`: a "Bids" trace when there are bids, then an "Asks" trace when there are asks. */
  function DepthChart(bids: seq<PriceLevel>, asks: seq<PriceLevel>): (r: seq<Trace>)
    ensures |r| == (if bids == [] then 0 else 1) + (if asks == [] then 0 else 1)
    ensures forall t :: t in r ==> |t.prices| == |t.cumulative|
    ensures bids != [] ==> r[0] == Trace("Bids", Prices(bids), Cumulative(bids))
    ensures asks != [] ==> r[|r| - 1] == Trace("Asks", Prices(asks), Cumulative(asks))
  {
    (if bids == [] then [] else [Trace("Bids", Prices(bids), Cumulative(bids))])
    + (if asks == [] then [] else [Trace("Asks", Prices(asks), Cumulative(asks))])
  }

  /** A row of a level table: price (fixed point), quantity and number of orders. */
  datatype Row = Row(price: Long, quantity: Long, orders: int)

  /** `create_order_book_table`: one row per level in input order, quantity and orders copied; no rows for no levels. */
  function Table(levels: seq<PriceLevel>): (r: seq<Row>)
    ensures |r| == |levels|
    ensures forall i :: 0 <= i < |r| ==> r[i] == Row(levels[i].price, levels[i].quantity, levels[i].orders)
  {
    seq(|levels|, i requires 0 <= i < |levels| => Row(levels[i].price, levels[i].quantity, levels[i].orders))
  }

  /** `head(n)`: the first `n` elements, or all of them when there are fewer. */
  function Head<T>(s: seq<T>, n: nat): (r: seq<T>)
    ensures |r| == if |s| <= n then |s| else n
    ensures forall i :: 0 <= i < |r| ==> r[i] == s[i]
  {
    if |s| <= n then s else s[..n]
  }

  /** `tail(n)`: the last `n` elements, or all of them when there are fewer. */
  function Tail<T>(s: seq<T>, n: nat): (r: seq<T>)
    ensures |r| == if |s| <= n then |s| else n
    ensures forall i :: 0 <= i < |r| ==> r[i] == s[|s| - |r| + i]
  {
    if |s| <= n then s else s[|s| - n..]
  }

  /** The last ten trades of the bounded recent-trades queue are the last ten trades executed. */
  lemma TailOfWindow(s: seq<Trade>)
    ensures Tail(Window(s), TABLE_TRADES) == Tail(s, TABLE_TRADES)
  {
    var w := Window(s);
    var a := Tail(w, TABLE_TRADES);
    var b := Tail(s, TABLE_TRADES);
    assert |a| == |b|;
    forall i | 0 <= i < |a|
      ensures a[i] == b[i]
    {
      assert a[i] == w[|w| - |a| + i];
    }
  }

  /**
   * The first fifteen lines of a side's snapshot are its fifteen best
   * levels: every shown price comes before every price left out.
   */
  lemma HeadIsBest(s: Side)
    requires s.Valid()
    ensures var lines := Depth(s);
      var shown := Head(Table(lines), TABLE_LEVELS);
      forall i, j :: 0 <= i < |shown| && |shown| <= j < |lines| ==> Before(s.descending, shown[i].price, lines[j].price)
  {
    SortedPairs(s.keys, s.descending);
  }

  /** A submit answer as the dashboard reads it from JSON: either field may be missing. */
  datatype SubmitResult = SubmitResult(status: Option<string>, tradesCount: Option<int>)

  function StatusName(s: OrderStatus): (n: string)
    ensures n == "ACCEPTED" <==> s == Accepted
    ensures n == "MATCHED" <==> s == Matched
    ensures n != "SUBMITTED"
  {
    match s
    case Accepted => "ACCEPTED"
    case Matched => "MATCHED"
  }

  /** The JSON object of a 200 answer to a submit, or nothing for a refusal. */
  function Received(reply: SubmitReply): (r: Option<SubmitResult>)
    ensures r.Some? <==> reply.Submitted?
  {
    match reply
    case Submitted(resp) => Some(SubmitResult(Some(StatusName(resp.status)), Some(resp.tradesCount)))
    case Rejected(_, _) => None
  }

  /** The status word of the success notice; "SUBMITTED" when the answer has none. */
  function ShownStatus(r: SubmitResult): (n: string)
    ensures r.status.Some? ==> n == r.status.value
    ensures r.status.None? ==> n == "SUBMITTED"
  {
    if r.status.Some? then r.status.value else "SUBMITTED"
  }

  /** The "trade(s) executed" notice: shown with the count when it is positive, a missing count reading as 0. */
  function TradesNotice(r: SubmitResult): (n: Option<int>)
    ensures n.Some? <==> r.tradesCount.Some? && r.tradesCount.value > 0
    ensures n.Some? ==> n == r.tradesCount
  {
    var count := if r.tradesCount.Some? then r.tradesCount.value else 0;
    if count > 0 then Some(count) else None
  }

  /** After a served submit, the notice appears exactly when the order traded, with the number of trades. */
  lemma NoticeIffTraded(orderId: Long, quantity: Long, trades: seq<Trade>)
    ensures var r := Received(Submitted(Respond(orderId, quantity, trades)));
      && r.Some?
      && (TradesNotice(r.value).Some? <==> trades != [])
      && (trades != [] ==> TradesNotice(r.value) == Some(|trades|) && ShownStatus(r.value) == "MATCHED")
      && (trades == [] ==> ShownStatus(r.value) == "ACCEPTED")
  {
  }

  /** What one render shows, or the unavailable notice. */
  datatype Page =
    | Unavailable
    | Shown(quote: Option<Quote>, depth: seq<Trace>, bidRows: seq<Row>, askRows: seq<Row>, stats: Option<Stats>, trades: seq<Trade>)

  /**
   * One render from the four fetches, each missing when the request
   * failed: unavailable exactly when quote, book and stats are all missing,
   * whatever the trades fetch returned; otherwise the chart and the first
   * fifteen levels of each side when the book arrived, and the last ten
   * trades.
   */
  function Render(quote: Option<Quote>, book: Option<Snapshot>, stats: Option<Stats>, trades: Option<seq<Trade>>): (p: Page)
    ensures p.Unavailable? <==> quote.None? && book.None? && stats.None?
    ensures p.Shown? && book.Some? ==>
      && p.depth == DepthChart(book.value.bids, book.value.asks)
      && p.bidRows == Head(Table(book.value.bids), TABLE_LEVELS)
      && p.askRows == Head(Table(book.value.asks), TABLE_LEVELS)
    ensures p.Shown? && book.None? ==> p.depth == [] && p.bidRows == [] && p.askRows == []
    ensures p.Shown? ==> p.trades == if trades.Some? then Tail(trades.value, TABLE_TRADES) else []
  {
    if quote.None? && book.None? && stats.None? then Unavailable
    else
      var depth := if book.Some? then DepthChart(book.value.bids, book.value.asks) else [];
      var bidRows := if book.Some? then Head(Table(book.value.bids), TABLE_LEVELS) else [];
      var askRows := if book.Some? then Head(Table(book.value.asks), TABLE_LEVELS) else [];
      var shownTrades := if trades.Some? then Tail(trades.value, TABLE_TRADES) else [];
      Shown(quote, depth, bidRows, askRows, stats, shownTrades)
  }
}
