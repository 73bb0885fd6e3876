# A verified model of a limit order book matching engine

The system is a central limit order book for a single instrument. Orders carry
a long id, a side byte (`'B'` or `'S'`), a fixed-point long price and a long
quantity. The book holds two sorted maps from price to a price level. Bids are
ordered best (highest) first and asks best (lowest) first. Each level is an
intrusive doubly linked FIFO queue threaded through the orders' own
`next`/`prev` links. An id index maps every resting order's id to its order.
All `Order` objects are allocated once, in a fixed pool of 100 000, and
recycled.

The matching engine takes an incoming order from the pool and matches it
against the opposite side, best price first and oldest order first. Every
trade executes at the resting level's price. It then rests the remainder, or
returns the order to the pool when nothing remains. Cancel removes an order
from its level and recycles it. Modify is a cancel followed by a fresh
submission, which loses time priority.

Around the engine sit three more pieces:
- a REST controller, which validates requests, keeps the 100 most recent
  trades and reports quotes, L2 depth and statistics;
- a 32-byte little-endian binary message format;
- a dashboard, whose integer parts are modelled: cumulative depth curves,
  truncated level tables, the backend-unavailable test and the post-submit
  notice.

## How the model is organised

- `java_types.dfy`: defines `Long` and `JByte` as subset types of `int`, with
  64-bit wrap-around written out (`Wrap64`). It also defines the
  `Option`/`Result`/`Outcome` wrappers.
- `orders.dfy`, `order_index.dfy`, `order_pool.dfy`, `levels.dfy`: heap
  classes that mirror the source objects.
  - `Order` is a class with mutable fields.
  - `OrderIndex` holds a `map` field.
  - `OrderPool` is an `array` stack with `top`.
  - `OrderLevel` is the linked queue. Its ghost `Contents` is tied to the
    links by `Valid()`.
- `price_map.dfy`: the concurrent skip-list map as a value `PriceMap`, which
  pairs a sorted key sequence with a map.
- `queues.dfy`, `matching.dfy`, `book_view.dfy`: the specification of
  matching as pure functions over the values of a book.
  - `FillLevel` fills one level.
  - `MatchSide` runs the whole `matchOrder` loop.
  - `Process` is `processOrder`.
  - `Cancel` is `cancelOrder`.
  - `Allocate` is an independent reference definition over the opposite side
    flattened into one priority-ordered sequence. The loop-shaped
    specification is proved equal to it (`MatchSideAllocates`).
- `order_book.dfy`, `engine.dfy`: the `OrderBook` and `MatchingEngine`
  classes. Their methods are proved against those functions. A `Valid()`
  invariant ties together three things:
  - the book's two sides;
  - the index, where every entry is located in its queue;
  - the pool, where every indexed order is borrowed from the pool.
- `message_type.dfy`, `binary_protocol.dfy`: the message kinds and the wire
  format, with a `ByteBuffer` class. `binary_protocol.dfy` also proves that
  decoding an encoded message gives it back.
- `controller.dfy`, `dashboard.dfy`: the controller as a class over the
  engine, and the dashboard's computations as functions.

The clock (`System.nanoTime`) becomes parameters. `now` is the timestamp
written into trades. `clock` is the id given to a request without one.

## Model

| member | source | states |
|---|---|---|
| Orders.Order.constructor | src/main/java/com/hft/clob/core/Order.java:20-28 | A new order has all numeric fields zero and no links. |
| Orders.Order.Reset | src/main/java/com/hft/clob/core/Order.java:34-41 | `reset` clears id, price, quantity and side to zero and both links to null. |
| Orders.Order.Init | src/main/java/com/hft/clob/core/Order.java:46-53 | `init` sets id, side, price and quantity to the arguments and clears both links. |
| Levels.Without | src/main/java/com/hft/clob/core/OrderLevel.java:75-96 | Taking position `i` out of a queue keeps every other element, in order, one shorter. |
| Levels.OrderLevel.constructor | src/main/java/com/hft/clob/core/OrderLevel.java:30-36 | A new level is a valid empty queue that is not marked removed. |
| Levels.OrderLevel.IsRemoved | src/main/java/com/hft/clob/core/OrderLevel.java:38-40 | Returns the removed flag. |
| Levels.OrderLevel.SetRemoved | src/main/java/com/hft/clob/core/OrderLevel.java:42-44 | Sets the removed flag and nothing else. |
| Levels.OrderLevel.AddLast | src/main/java/com/hft/clob/core/OrderLevel.java:49-68 | A new order is linked at the tail. The queue becomes the old queue plus that order. Its id/quantity view gains one entry at the back. The link invariant and size are kept. |
| Levels.OrderLevel.Remove | src/main/java/com/hft/clob/core/OrderLevel.java:75-96 | Unlinks a queued order from any position. The queue becomes the old queue without exactly that position, and the others keep their order. Size and links stay consistent. The removed order keeps its stale links. |
| Levels.OrderLevel.Peek | src/main/java/com/hft/clob/core/OrderLevel.java:101-108 | Returns the oldest order, or null for an empty level. |
| Levels.OrderLevel.PollFirst | src/main/java/com/hft/clob/core/OrderLevel.java:113-134 | An empty level returns null and is unchanged. Otherwise it returns the oldest order, the queue (and its id/quantity view) loses its front, and the new head has no predecessor. |
| Levels.OrderLevel.IsEmpty | src/main/java/com/hft/clob/core/OrderLevel.java:139-146 | True exactly when the queue is empty. |
| Levels.OrderLevel.GetSize | src/main/java/com/hft/clob/core/OrderLevel.java:151-158 | Returns the number of queued orders. |
| Levels.OrderLevel.GetTotalQuantity | src/main/java/com/hft/clob/core/OrderLevel.java:163-176 | The loop returns the sum of the queued quantities, wrapped to a long. |
| Levels.SnapshotWithout | src/main/java/com/hft/clob/core/OrderLevel.java:75-96 | The id/quantity view of a queue with one order unlinked is the old view without that position. |
| Levels.TotalQuantityCounts | src/main/java/com/hft/clob/core/OrderLevel.java:163-176 | A level of open orders totals at least one unit per queued order, and while the real total fits a long the level's total quantity is exactly that sum. |
| Pools.OrderPool.constructor | src/main/java/com/hft/clob/core/OrderPool.java:26-35 | The pool starts full: 100 000 distinct fresh orders on the stack. |
| Pools.OrderPool.Borrow | src/main/java/com/hft/clob/core/OrderPool.java:43-54 | An empty stack gives the exhausted error and nothing changes. Otherwise it pops the top order and shrinks the stack by one. |
| Pools.OrderPool.ReturnOrder | src/main/java/com/hft/clob/core/OrderPool.java:61-79 | Null gives the null-order error. A non-null order is always reset. A full stack then gives the overflow error with the stack unchanged. Otherwise the order is pushed. |
| Pools.OrderPool.AvailableOrders | src/main/java/com/hft/clob/core/OrderPool.java:86-93 | The number of pooled orders, between 0 and the pool size. |
| Pools.OrderPool.Capacity | src/main/java/com/hft/clob/core/OrderPool.java:100-102 | The length of the backing array. |
| Pools.ReturnFits | src/main/java/com/hft/clob/core/OrderPool.java:71-74 | Returning an order that was allocated by the pool and is currently lent out never overflows. |
| Pools.ReturnThenBorrow | src/main/java/com/hft/clob/core/OrderPool.java:43-79 | Returning an order and then borrowing gives that same order back, and the stack is as before (LIFO). |
| Indexes.OrderIndex.constructor | src/main/java/com/hft/clob/core/OrderIndex.java:15-18 | A new index is empty. |
| Indexes.OrderIndex.Put | src/main/java/com/hft/clob/core/OrderIndex.java:23-25 | Maps the id to the order and leaves every other id unchanged. |
| Indexes.OrderIndex.Get | src/main/java/com/hft/clob/core/OrderIndex.java:30-32 | The mapped order, or null for an unknown id. |
| Indexes.OrderIndex.Remove | src/main/java/com/hft/clob/core/OrderIndex.java:37-39 | Unmaps the id, leaving the rest. Returns the order it mapped, or null. |
| Indexes.OrderIndex.Contains | src/main/java/com/hft/clob/core/OrderIndex.java:44-46 | True exactly when the id is mapped. |
| Indexes.OrderIndex.Size | src/main/java/com/hft/clob/core/OrderIndex.java:51-53 | The number of mapped ids. |
| Indexes.OrderIndex.Clear | src/main/java/com/hft/clob/core/OrderIndex.java:58-60 | The index becomes empty. |
| PriceMaps.Insert | src/main/java/com/hft/clob/core/OrderBook.java:102-108 | Adding a new key to a sorted key list keeps it sorted, with exactly the old keys plus the new one. |
| PriceMaps.Delete | src/main/java/com/hft/clob/core/OrderBook.java:123-130 | Deleting a key keeps the list sorted, with exactly the old keys minus that one. It is a no-op when the key is absent. |
| PriceMaps.PriceMap.First | src/main/java/com/hft/clob/core/OrderBook.java:56-58 | `firstKey`: absent exactly when the map is empty. Otherwise a mapped key that comes before every other key in the map's order. |
| PriceMaps.PriceMap.Put | src/main/java/com/hft/clob/core/OrderBook.java:102-108 | The map gains or replaces one entry, stays sorted and keeps its order direction. |
| PriceMaps.PriceMap.Remove | src/main/java/com/hft/clob/engine/MatchingEngine.java:136-138 | The map loses one entry and stays sorted. Removing the first key drops exactly the head of the key list. |
| PriceMaps.SortedPairs | src/main/java/com/hft/clob/core/OrderBook.java:38-44 | In a sorted key list every key comes before every later key under the map's comparator, not only its neighbour. |
| Queues.Position | src/main/java/com/hft/clob/core/OrderBook.java:117-130 | The queue position of the order with an id is where that id is, and no earlier entry carries the id. |
| BookViews.FirstIsBest | src/main/java/com/hft/clob/core/OrderBook.java:38-44 | With bids sorted by descending and asks by ascending price, the first key is the best price of the side. |
| BookViews.AddRestingKeeps | src/main/java/com/hft/clob/core/OrderBook.java:96-112 | Resting an order maps its price, if it was not already mapped, to a queue extended at the back by that order. All other levels are untouched and the side stays sorted. |
| BookViews.AddRestingWellFormed | src/main/java/com/hft/clob/core/OrderBook.java:96-112 | Resting a positive quantity keeps every level non-empty and all resting quantities positive. |
| BookViews.RemoveAtKeeps | src/main/java/com/hft/clob/core/OrderBook.java:117-134 | Taking one order out of a level leaves other levels untouched. A level that would become empty is unmapped. |
| BookViews.RemoveAtWellFormed | src/main/java/com/hft/clob/core/OrderBook.java:117-134 | After the removal the level is unmapped exactly when it held one order. Otherwise it holds the old queue without that position. The side stays well formed. |
| Books.LocatesAfterAdd | src/main/java/com/hft/clob/core/OrderBook.java:102-108 | Adding an order to a level keeps every indexed order located in its queue. |
| Books.LocatesAfterRemove | src/main/java/com/hft/clob/core/OrderBook.java:123-133 | Removing an order whose id leaves the index keeps every other indexed order located. |
| Books.LocatesPut | src/main/java/com/hft/clob/core/OrderBook.java:111 | Indexing an order that is queued under its id keeps the index consistent. |
| Books.OrderBook.constructor | src/main/java/com/hft/clob/core/OrderBook.java:38-44 | The new book has empty bids ordered by descending price, empty asks ordered by ascending price, an empty fresh index and the given pool. |
| Books.OrderBook.GetSide | src/main/java/com/hft/clob/core/OrderBook.java:49-51 | `'B'` selects the bids (the descending map). Any other byte selects the asks. |
| BookViews.SideOfOrdering | src/main/java/com/hft/clob/core/OrderBook.java:49-51 | On a well-formed book `getSide` yields one of the two sides, well formed, and it is the descending one exactly for 'B'. |
| Books.OrderBook.GetBestBid | src/main/java/com/hft/clob/core/OrderBook.java:56-71 | Null exactly when there are no bids. Otherwise the highest bid price. |
| Books.OrderBook.GetBestAsk | src/main/java/com/hft/clob/core/OrderBook.java:76-91 | Null exactly when there are no asks. Otherwise the lowest ask price. |
| Books.OrderBook.AddOrder | src/main/java/com/hft/clob/core/OrderBook.java:96-112 | The order joins the back of its price level on its side, and the level is created if absent. The index maps its id to it. The book invariant is kept. |
| Books.OrderBook.RemoveOrder | src/main/java/com/hft/clob/core/OrderBook.java:117-134 | An indexed order is taken out of its level, and a level left empty is unmapped. Its id leaves the index. The book invariant is kept. |
| Books.OrderBook.FindOrder | src/main/java/com/hft/clob/core/OrderBook.java:139-141 | Returns the indexed order, which is queued under that id at its price on its side, or null. |
| Books.OrderBook.IsEmpty | src/main/java/com/hft/clob/core/OrderBook.java:174-176 | True exactly when both sides have no levels. An empty book indexes no order. |
| Matching.CreateTrade | src/main/java/com/hft/clob/engine/MatchingEngine.java:163-168 | A buy incoming order is the buyer and a sell is the seller, with the resting order as the other party. For any other side byte, both ids are the resting order's. Price, quantity and timestamp are as given. |
| Matching.PricesCross | src/main/java/com/hft/clob/engine/MatchingEngine.java:150-158 | An order crosses exactly when the best opposite price equals its price or comes before it in the opposite side's order: a buy against asks at or below it, anything else against bids at or above it. |
| Matching.OppositeSide | src/main/java/com/hft/clob/engine/MatchingEngine.java:73 | The result is always 'B' or 'S', and it is 'B' exactly when the order is not a buy. |
| Matching.AfterFill | src/main/java/com/hft/clob/engine/MatchingEngine.java:113-122 | Filling the front order keeps every resting quantity positive: a fully filled order leaves the queue. |
| Matching.HoldsAfterFill | src/main/java/com/hft/clob/engine/MatchingEngine.java:115-122 | Every id still resting after a fill was resting before, except the fully filled front order. |
| Matching.FillLevel | src/main/java/com/hft/clob/engine/MatchingEngine.java:99-123 | The inner loop never increases the remaining quantity, and lowers it whenever the level is not empty. It ends with the level empty or the incoming order filled, and quantities stay positive. |
| Matching.Refill | src/main/java/com/hft/clob/engine/MatchingEngine.java:125-138 | A level emptied by matching is unmapped. Otherwise it is replaced by its remaining queue. |
| Matching.RefillWellFormed | src/main/java/com/hft/clob/engine/MatchingEngine.java:125-138 | After a level is matched, the side keeps non-empty levels with positive quantities. |
| Matching.MatchSide | src/main/java/com/hft/clob/engine/MatchingEngine.java:72-142 | The outer loop never raises the remaining quantity, never adds a level and keeps the side well formed. |
| Matching.MatchSideDone | src/main/java/com/hft/clob/engine/MatchingEngine.java:79-91 | With nothing left to fill, an empty side or a best price that does not cross, nothing trades and the side is untouched. |
| Matching.MatchSideStep | src/main/java/com/hft/clob/engine/MatchingEngine.java:79-139 | One pass at a crossing best level produces that level's fills followed by the rest of the match. It either removes the level or fills the order. |
| Matching.AllocateConserves | src/main/java/com/hft/clob/engine/MatchingEngine.java:76-114 | Traded quantity plus the remaining quantity equals the incoming quantity, and the remainder is non-negative. |
| Matching.AllocateConservesBook | src/main/java/com/hft/clob/engine/MatchingEngine.java:113-115 | Quantity left on the book plus traded quantity equals the quantity the book held. |
| Matching.AllocatePriority | src/main/java/com/hft/clob/engine/MatchingEngine.java:79-110 | Trade `i` is against the `i`-th resting order in price-time priority. It is at that order's price, which crosses the incoming price, for a positive quantity no larger than what rested. |
| Matching.AllocateFullFills | src/main/java/com/hft/clob/engine/MatchingEngine.java:106-122 | Every trade but the last fills its resting order completely. |
| Matching.AllocateLeftover | src/main/java/com/hft/clob/engine/MatchingEngine.java:99-122 | The book left behind is the resting orders not reached. It is preceded, when the last trade was partial, by that order with its quantity reduced. |
| Matching.AllocateStops | src/main/java/com/hft/clob/engine/MatchingEngine.java:79-91 | If quantity remains, the opposite side is empty or its best price no longer crosses. |
| Matching.FillLevelAllocates | src/main/java/com/hft/clob/engine/MatchingEngine.java:99-123 | Filling one crossing level is the first part of allocating over that level followed by the rest of the book. |
| Matching.MatchSideAllocates | src/main/java/com/hft/clob/engine/MatchingEngine.java:72-142 | The level-by-level matching loop produces the same trades, remainder and leftover book as the flat price-time allocation. |
| BookViews.Process | src/main/java/com/hft/clob/engine/MatchingEngine.java:43-63 | Processing an order keeps the book well formed. |
| BookViews.ProcessNothing | src/main/java/com/hft/clob/engine/MatchingEngine.java:51-60 | A non-positive quantity trades nothing and rests nothing. |
| BookViews.ProcessAllocates | src/main/java/com/hft/clob/engine/MatchingEngine.java:43-142 | The trades and remainder of `processOrder` are the price-time allocation against the opposite side. The opposite side left behind is the allocation's leftover. |
| BookViews.ProcessConserves | src/main/java/com/hft/clob/engine/MatchingEngine.java:51-56 | Traded plus resting quantity equals the order's quantity. A positive remainder rests at the back of its own price level. |
| BookViews.ProcessStops | src/main/java/com/hft/clob/engine/MatchingEngine.java:79-91 | When part of the order rests, the opposite best price does not cross it. |
| BookViews.ProcessNotCrossed | src/main/java/com/hft/clob/engine/MatchingEngine.java:43-63 | Processing an order never leaves the book crossed (best bid at or above best ask). |
| BookViews.Cancel | src/main/java/com/hft/clob/engine/MatchingEngine.java:176-188 | Cancelling keeps the book well formed. |
| BookViews.CancelTakesOne | src/main/java/com/hft/clob/engine/MatchingEngine.java:176-188 | Cancel removes exactly the cancelled order's entry from its level, so the level total drops by its quantity. Every other level and the other side are unchanged. |
| BookViews.CancelNotCrossed | src/main/java/com/hft/clob/engine/MatchingEngine.java:176-188 | Cancelling never makes an uncrossed book crossed. |
| Engines.ActiveWithinBorrowed | src/main/java/com/hft/clob/api/OrderBookController.java:179-180 | The number of resting orders never exceeds the number of orders lent out by the pool. |
| Engines.MatchingEngine.constructor | src/main/java/com/hft/clob/engine/MatchingEngine.java:29-32 | The engine uses the book and the book's pool. |
| Engines.MatchingEngine.Recycle | src/main/java/com/hft/clob/engine/MatchingEngine.java:121 | Returning a lent-out order pushes it onto the pool and never overflows. |
| Engines.MatchingEngine.Retire | src/main/java/com/hft/clob/engine/MatchingEngine.java:119-121 | A fully filled resting order's id leaves the index. The order the index held under it goes back to the pool, appended to the available orders; an id not indexed changes neither. |
| Engines.MatchingEngine.FillFront | src/main/java/com/hft/clob/engine/MatchingEngine.java:100-122 | One fill against the front order trades the minimum of the two quantities at the level price, with the trade roles above. It reduces both quantities. A completely filled front order leaves the queue, its id leaves the index and its order returns to the pool; a partial fill changes neither. |
| Engines.MatchingEngine.FillQueue | src/main/java/com/hft/clob/engine/MatchingEngine.java:99-123 | The inner loop's trades, remaining quantity and level queue are exactly those of `FillLevel`. The index loses exactly the ids `FillLevel` filled completely, and the pool gains their orders in fill order. |
| Engines.MatchingEngine.MatchLevel | src/main/java/com/hft/clob/engine/MatchingEngine.java:93-138 | Matching one level leaves the book as `Refill` of that level, with the trades of `FillLevel`. The index loses the completely filled ids and the pool gains their orders. |
| Engines.MatchingEngine.MatchBest | src/main/java/com/hft/clob/engine/MatchingEngine.java:79-139 | One iteration of the outer loop is one step of `MatchSide`, and it shrinks the side or fills the order. The index and pool change by that level's completely filled orders. |
| Engines.MatchingEngine.MatchOrder | src/main/java/com/hft/clob/engine/MatchingEngine.java:72-142 | The trades, remaining quantity and new opposite side are exactly those of `MatchSide`. The index loses exactly the ids `MatchSide` filled completely and the pool gains their orders. The engine invariant is kept. |
| Engines.MatchingEngine.ProcessOrder | src/main/java/com/hft/clob/engine/MatchingEngine.java:43-63 | An exhausted pool raises the exhausted error with book, index and pool unchanged. Otherwise the trades and new book are exactly those of `Process`. Filled resting orders leave the index for the pool. A positive remainder is indexed under the order's id with its side, price and remaining quantity; with none, the borrowed order goes back to the pool (`Settled`). |
| Engines.MatchingEngine.Place | src/main/java/com/hft/clob/engine/MatchingEngine.java:48-60 | With a borrowed order in hand: the trades and new book are those of `Process`. Filled resting orders leave the index for the pool. A remainder rests indexed under the order's id with its side, price and remaining quantity; with none the order goes back to the pool last. |
| Engines.MatchingEngine.Rest | src/main/java/com/hft/clob/engine/MatchingEngine.java:53-56 | A positive remainder becomes the order's quantity, and the order is added to the back of its level and indexed. |
| Engines.MatchingEngine.CancelOrder | src/main/java/com/hft/clob/engine/MatchingEngine.java:176-188 | Returns true exactly when the id is indexed. Then the book becomes `Cancel` of it, the id leaves the index and the order goes back to the pool. Otherwise nothing changes. |
| Engines.MatchingEngine.CancelView | src/main/java/com/hft/clob/engine/MatchingEngine.java:176-188 | The book after cancelling an indexed id is well formed. |
| Engines.MatchingEngine.ModifyOrder | src/main/java/com/hft/clob/engine/MatchingEngine.java:199-209 | An unknown id gives no trades and no change to book, index or pool. Otherwise the result is `Process` of the new order against the book with the old one cancelled, so the order loses time priority. The cancelled order goes back to the pool and is borrowed again for the new one, and the index and pool settle as in `processOrder`. |
| Engines.SettledIndex | src/main/java/com/hft/clob/engine/MatchingEngine.java:51-61 | After `processOrder`, the order's id is indexed exactly when part of it rests (or it was indexed before and not filled), with the remaining quantity. Every other id is indexed exactly when it was and was not filled completely. Measured from the pool after the borrow, pool plus index grow by one, unless the order rests under an id that is still indexed and was not filled; then they stay the same. |
| MessageTypes.Search | src/main/java/com/hft/clob/protocol/MessageType.java:18-25 | The scan finds a kind whose code is the byte, and finds none exactly when no kind has it. |
| MessageTypes.FromByte | src/main/java/com/hft/clob/protocol/MessageType.java:18-25 | Succeeds exactly for 'A', 'C', 'M' and 'E', with the kind carrying that code. Any other byte is an invalid-message-type error naming it. |
| MessageTypes.CodeInjective | src/main/java/com/hft/clob/protocol/MessageType.java:7-10 | Distinct kinds have distinct codes. |
| MessageTypes.FromByteOfCode | src/main/java/com/hft/clob/protocol/MessageType.java:18-25 | Decoding a kind's own code gives that kind. |
| MessageTypes.MessageType.Code | src/main/java/com/hft/clob/protocol/MessageType.java:7-10 | Every kind's code is one of 'A', 'C', 'M' and 'E'. |
| BinaryProtocol.Signed8 | src/main/java/com/hft/clob/protocol/BinaryProtocol.java:58-59 | Reading a byte back as a Java byte inverts writing it. |
| BinaryProtocol.Signed8OfUnsigned8 | src/main/java/com/hft/clob/protocol/BinaryProtocol.java:58-59 | A Java byte written and read back is unchanged. |
| BinaryProtocol.LongBytes | src/main/java/com/hft/clob/protocol/BinaryProtocol.java:86-88 | A long is written as eight bytes. |
| BinaryProtocol.LongRoundTrip | src/main/java/com/hft/clob/protocol/BinaryProtocol.java:60-62 | A long written little-endian and read little-endian is unchanged. |
| BinaryProtocol.LongOf | src/main/java/com/hft/clob/protocol/BinaryProtocol.java:60-62 | Any eight bytes read as a long and written back in the same byte order give the same eight bytes. |
| BinaryProtocol.FromLittleEndianRoundTrip | src/main/java/com/hft/clob/protocol/BinaryProtocol.java:60-62 | Bytes read as an unsigned little-endian number and written back at the same width are unchanged. |
| BinaryProtocol.ByteBuffer.Allocate | src/main/java/com/hft/clob/protocol/BinaryProtocol.java:81 | `allocate(n)`: n zero bytes, position 0, limit n, big-endian order. |
| BinaryProtocol.ByteBuffer.SetOrder | src/main/java/com/hft/clob/protocol/BinaryProtocol.java:82 | Sets the byte order. |
| BinaryProtocol.ByteBuffer.Put | src/main/java/com/hft/clob/protocol/BinaryProtocol.java:84-85 | Writes one byte at the position and advances it by one. |
| BinaryProtocol.ByteBuffer.PutBytes | src/main/java/com/hft/clob/protocol/BinaryProtocol.java:91 | Writes the bytes at the position and advances it by their number. |
| BinaryProtocol.ByteBuffer.PutLong | src/main/java/com/hft/clob/protocol/BinaryProtocol.java:86-88 | Writes the eight bytes of a long in the buffer's order and advances by eight. |
| BinaryProtocol.ByteBuffer.Get | src/main/java/com/hft/clob/protocol/BinaryProtocol.java:58-59 | Reads the byte at the position as a Java byte and advances by one. |
| BinaryProtocol.ByteBuffer.GetLong | src/main/java/com/hft/clob/protocol/BinaryProtocol.java:60-62 | Reads eight bytes as a long in the buffer's order and advances by eight. |
| BinaryProtocol.ByteBuffer.SetPosition | src/main/java/com/hft/clob/protocol/BinaryProtocol.java:65 | Moves the position within the limit. |
| BinaryProtocol.ByteBuffer.Flip | src/main/java/com/hft/clob/protocol/BinaryProtocol.java:93 | The limit becomes the old position and the position becomes 0. |
| BinaryProtocol.Layout | src/main/java/com/hft/clob/protocol/BinaryProtocol.java:10-18 | A message occupies exactly 32 bytes. |
| BinaryProtocol.LayoutFields | src/main/java/com/hft/clob/protocol/BinaryProtocol.java:10-18 | Each field sits at its documented offset: type at 0, side at 1, id at 2-9, price at 10-17, quantity at 18-25 (little-endian), then six zero bytes. |
| BinaryProtocol.DecodeLayout | src/main/java/com/hft/clob/protocol/BinaryProtocol.java:48-95 | Decoding the bytes of an encoded message gives back the same message. |
| BinaryProtocol.MessageAt | src/main/java/com/hft/clob/protocol/BinaryProtocol.java:58-62 | The message read at an offset re-encodes to exactly the 26 header and field bytes found there. |
| BinaryProtocol.Decode | src/main/java/com/hft/clob/protocol/BinaryProtocol.java:48-68 | Fewer than 32 remaining bytes is a buffer-too-small error carrying the count, with the buffer untouched. Otherwise it reads the message at the position little-endian and advances by 32. |
| BinaryProtocol.Encode | src/main/java/com/hft/clob/protocol/BinaryProtocol.java:80-95 | A fresh 32-byte little-endian buffer holds exactly the message layout, flipped for reading from 0. |
| BinaryProtocol.EncodeWrites | src/main/java/com/hft/clob/protocol/BinaryProtocol.java:84-91 | The sequence of puts over a blank buffer writes exactly the message layout. |
| BinaryProtocol.EncodeAdd | src/main/java/com/hft/clob/protocol/BinaryProtocol.java:100-102 | The buffer holds an 'A' message with the given fields. |
| BinaryProtocol.EncodeCancel | src/main/java/com/hft/clob/protocol/BinaryProtocol.java:107-109 | The buffer holds a 'C' message with side byte 0, the id, and price and quantity 0. |
| BinaryProtocol.EncodeModify | src/main/java/com/hft/clob/protocol/BinaryProtocol.java:114-116 | The buffer holds an 'M' message with the new price and quantity. |
| Controllers.SideCode | src/main/java/com/hft/clob/api/OrderBookController.java:109-114 | "BUY" maps to 'B' and "SELL" to 'S'. A missing or any other side is refused. |
| Controllers.PoolMessageNames | src/main/java/com/hft/clob/core/OrderPool.java:47-73 | The exhausted, null-order and overflow failures each have their own message, so the message names the failure. |
| Controllers.Respond | src/main/java/com/hft/clob/api/OrderBookController.java:136-140 | The response echoes the id. Status is ACCEPTED exactly when nothing traded, otherwise MATCHED. The trade count is the number of trades. The remaining quantity is the request quantity minus the traded quantity, as long arithmetic. |
| Controllers.RespondReportsRemainder | src/main/java/com/hft/clob/api/OrderBookController.java:136-140 | The reported remainder equals the engine's actual remainder, and MATCHED means the order traded. |
| Controllers.Window | src/main/java/com/hft/clob/api/OrderBookController.java:128-133 | The recent-trades queue holds at most 100 trades, and they are the most recent ones in order. |
| Controllers.WindowDrop | src/main/java/com/hft/clob/api/OrderBookController.java:131-133 | Polling the oldest trade of an over-full history leaves the same window. |
| Controllers.WindowOffer | src/main/java/com/hft/clob/api/OrderBookController.java:121-134 | Offering one trade and trimming keeps exactly the window of the whole history. |
| Controllers.QuoteOf | src/main/java/com/hft/clob/api/OrderBookController.java:89-99 | The quote carries best bid and best ask. A spread is present exactly when both are, and it is ask minus bid as long arithmetic. |
| Controllers.QuoteSpreadPositive | src/main/java/com/hft/clob/api/OrderBookController.java:94-96 | On an uncrossed book with a non-negative best bid, the spread is the exact, positive difference. |
| Controllers.Depth | src/main/java/com/hft/clob/api/OrderBookController.java:73-81 | One depth line per level of the side. |
| Controllers.LevelOf | src/main/java/com/hft/clob/api/OrderBookController.java:75-80 | A depth line carries the level's price and its order count. Its quantity is the level total modulo 2^64, and exactly the total, at least one per order, when the orders are open and the total fits a long. |
| Controllers.DepthOrdered | src/main/java/com/hft/clob/api/OrderBookController.java:73-81 | Lines come in the side's price order, bids descending and asks ascending. Each line gives a level's price, its order count (at least one) and its total quantity (positive when it fits a long). |
| Controllers.OrderBookController.constructor | src/main/java/com/hft/clob/api/OrderBookController.java:23-28 | The controller uses the engine's book and starts with no recent trades. |
| Controllers.OrderBookController.Record | src/main/java/com/hft/clob/api/OrderBookController.java:121-134 | After the loop, the recent trades are the window of the old ones followed by the new trades. |
| Controllers.OrderBookController.SubmitOrder | src/main/java/com/hft/clob/api/OrderBookController.java:104-147 | A bad side gives 400 with the side message. An exhausted pool gives 400 with "Invalid request: " and the pool message. Neither changes the book, index, pool or recent trades. Otherwise the order is processed with the given or clock id, the response reports it, the trades are recorded, and index and pool settle as in `processOrder`. |
| Controllers.OrderBookController.CancelOrder | src/main/java/com/hft/clob/api/OrderBookController.java:152-165 | An unparsable id gives 400 and an unknown id gives 404, with book, index and pool unchanged in both. Otherwise the order is cancelled and the id echoed: the id leaves the index and its order goes back to the pool. |
| Controllers.OrderBookController.GetQuote | src/main/java/com/hft/clob/api/OrderBookController.java:89-99 | The quote of the book's current best bid and best ask. |
| Controllers.OrderBookController.GetOrderBook | src/main/java/com/hft/clob/api/OrderBookController.java:70-84 | The snapshot holds the depth lines of the bids and of the asks. |
| Controllers.OrderBookController.Lines | src/main/java/com/hft/clob/api/OrderBookController.java:74-81 | The loop over a side's levels produces exactly its depth lines. |
| Controllers.OrderBookController.GetStats | src/main/java/com/hft/clob/api/OrderBookController.java:177-187 | Reports: active orders = indexed orders; utilisation = capacity minus available; capacity 100 000; level counts per side; recent trades (at most 100). Active orders never exceed utilisation. |
| Dashboard.RunningSums | ui/streamlit_app.py:76 | `cumsum` produces one running total per line. |
| Dashboard.Cumulative | ui/streamlit_app.py:90 | The cumulative column has one value per level. |
| Dashboard.RunningSumsArePrefixSums | ui/streamlit_app.py:76 | Element `i` of `cumsum` is the int64-wrapped sum of quantities `0..i`. |
| Dashboard.CumulativeRises | ui/streamlit_app.py:73-90 | For non-negative quantities whose total fits, the curve is the exact prefix sums, never decreases, and ends at the side total. |
| Dashboard.Prices | ui/streamlit_app.py:75 | The x values are the levels' prices in order. |
| Dashboard.DepthChart | ui/streamlit_app.py:66-110 | A "Bids" trace exactly when there are bids and an "Asks" trace exactly when there are asks, each pairing prices with their cumulative quantities. |
| Dashboard.Table | ui/streamlit_app.py:112-122 | One row per level with its price, quantity and orders, and no rows for no levels. |
| Dashboard.Head | ui/streamlit_app.py:214 | `head(n)` is the first n rows, or all of them. |
| Dashboard.Tail | ui/streamlit_app.py:264 | `tail(n)` is the last n rows, or all of them. |
| Dashboard.TailOfWindow | ui/streamlit_app.py:258-264 | The ten trades shown are the last ten trades executed, whatever the server's 100-trade window dropped. |
| Dashboard.HeadIsBest | ui/streamlit_app.py:211-214 | The fifteen rows shown are the fifteen best price levels of the side. |
| Dashboard.Received | ui/streamlit_app.py:49-58 | The dashboard receives a result exactly when the submit succeeded. |
| Dashboard.TradesNotice | ui/streamlit_app.py:140-141 | The notice is shown exactly when the trade count is present and positive, with that count. |
| Dashboard.StatusName | ui/streamlit_app.py:139 | The status word is "ACCEPTED" exactly for an accepted order and "MATCHED" exactly for a matched one, never the fallback "SUBMITTED". |
| Dashboard.ShownStatus | ui/streamlit_app.py:139 | The notice shows the received status when there is one, otherwise "SUBMITTED". |
| Dashboard.NoticeIffTraded | ui/streamlit_app.py:136-141 | After a served submit, the trade notice appears exactly when the order traded, with the number of trades. The status shown is MATCHED, otherwise ACCEPTED. |
| Dashboard.Render | ui/streamlit_app.py:155-160 | The page is unavailable exactly when quote, book and stats all failed. Otherwise it shows the chart and the first 15 rows of each side when the book arrived, and the last 10 trades. |
| JavaTypes.Wrap64 | src/main/java/com/hft/clob/core/OrderLevel.java:169 | Long arithmetic: the result is congruent to the exact value modulo 2^64, and equal to it when it fits. |

## Left out

- Locks (the `ReentrantLock`, `StampedLock`, level locks and the optimistic
  read retry in `getBestBid`/`getBestAsk`) and all concurrency. Every
  operation is modelled as running alone, so `ConcurrentSkipListMap` and
  `ConcurrentLinkedQueue` are sequential maps and queues.
- Book levels inside `OrderBook`:
  - The book holds each level as the value queue of its resting ids and
    quantities, not as an `OrderLevel` object. `OrderLevel` and its linked
    list are modelled and proved as their own class (`Levels`).
  - The view that relates the two is `OrderLevel.Queue`. The book's
    add/remove is the value form of `addLast`/`remove`: compare
    `AddRestingKeeps` and `RemoveAtWellFormed` with `AddLast` and
    `Levels.SnapshotWithout`.
- In the engine, a partially filled resting order's quantity lives in its
  queue entry. The `Order` object in the index keeps its quantity and price
  fields. The price a trade executes at is the level's price, which is the
  resting order's `price` field.
- Levels are unmapped as soon as they empty, so no mapped level ever
  carries the removed flag. `addOrder`'s `isRemoved()` test never fires, and
  a new level is opened exactly when none is mapped. The flag itself is
  modelled in `OrderLevel`.
- Duplicate order ids: a level entry carries the id and open quantity, not
  the `Order` object. A fully filled resting order is therefore retired
  through the index: its id is unmapped, and the order the index held under
  that id goes back to the pool.
  - With distinct ids, that order is the filled order itself, as in the
    source.
  - When a later order reused the id, the source returns the filled object
    and the model returns the later one. The later order's entry stays in
    the book in both.
  - The pool can also end up one order short, as the next line says.
- Engines.MatchingEngine.Retire: returns nothing to the pool when the filled
  entry's id is no longer indexed, where the source always returns the filled
  order. This happens only with a reused id. For example, buy (id 5, 10 at
  100), then buy (id 5, 3 at 100), then sell 13 at 100: the source returns
  both orders to the pool, while the model returns the later one on the first
  fill and nothing on the second. The same happens when one of two entries
  sharing an id is cancelled and the other is then filled. Each such case
  leaves the model's pool one order short, so `GetStats` reports a higher
  utilisation and the pool is exhausted sooner than in the source. FillFront,
  FillQueue, MatchLevel, MatchBest, MatchOrder, Place, ProcessOrder,
  ModifyOrder and `Controllers.OrderBookController.SubmitOrder` inherit this
  through `Recycled`.
- BookViews.Cancel: with an id reused by two orders resting at one price on
  one side, it takes out the oldest entry carrying the id. The source unlinks
  the indexed `Order`, which is the most recent order put under the id. For
  example, buy (id 5, 10 at 100), then buy (id 5, 3 at 100), then cancel 5:
  the source leaves 10 resting and the model leaves 3. With distinct ids the
  two agree.
- Books.OrderBook.RemoveOrder: removes the oldest queue entry with the
  order's id at its price, so it differs from the source in the same
  reused-id case as `BookViews.Cancel`.
- Engines.MatchingEngine.CancelOrder: built on `Cancel`, so it shares the
  reused-id difference.
- Engines.MatchingEngine.ModifyOrder: cancels through `Cancel` first, so it
  shares the reused-id difference.
- Controllers.OrderBookController.CancelOrder: calls the engine's cancel, so
  it shares the reused-id difference.
- `System.nanoTime()` is replaced by parameters. Each engine call uses one
  timestamp `now` for all its trades, where the source reads the clock once
  per trade. A request without an id takes the `clock` argument.
- `Long.parseLong` of the path parameter is an `Option<Long>` argument.
  JSON (Gson), HTTP status plumbing, `start` (routes, CORS, the health
  endpoint), `getTrades` (which returns the recent trades as is) and the
  DTO classes' JSON shape are not modelled.
- Getters that only return fields (`getIndex`, `getPool`, `getBids`,
  `getAsks`, `getBook`) and the `toString` methods.
- `BinaryProtocol.Message` as a mutable object with public fields becomes a
  value.
- The market-data publisher package is not part of this model.
- The dashboard:
  - floating point (`format_price`, the `int(price * 100)` conversion, the
    spread in basis points, the pool-usage percentage);
  - widgets, styling, metrics and auto-refresh;
  - the HTTP fetches, which become `Option` arguments;
  - `DataFrame` handling beyond the integer columns.
- Levels.OrderLevel.Remove does not state the id/quantity view of the queue
  after the removal in its own contract. That view follows from its
  `Contents` postcondition by `Levels.SnapshotWithout`, because ids and
  quantities are outside what `remove` writes.
