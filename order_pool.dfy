/**
 * The order pool: every order object is allocated up front and recycled
 * through a fixed array used as a stack.
 */
module Pools {
  import opened JavaTypes
  import opened Wrappers
  import opened Orders

  const POOL_SIZE: nat := 100_000

  datatype PoolError =
    | Exhausted   // `borrow` on an empty pool
    | NullOrder   // `returnOrder(null)`
    | Overflow    // `returnOrder` on a full pool

  class OrderPool {
    const pool: array<Order?>
    var top: int
    /** The pooled orders, bottom of the stack first: `pool[0..top]`. */
    ghost var Available: seq<Order>
    /** Every order the constructor allocated. */
    ghost var All: set<Order>

    ghost predicate Valid()
      reads this, pool
    {
      && pool.Length == POOL_SIZE
      && -1 <= top < POOL_SIZE
      && |Available| == top + 1
      && (forall i :: 0 <= i < |Available| ==> pool[i] == Available[i])
    }

    /** No order is pooled twice and every pooled order is one of the allocated ones. */
    ghost predicate Sound()
      reads this
    {
      && |All| == POOL_SIZE
      && (forall i, j :: 0 <= i < j < |Available| ==> Available[i] != Available[j])
      && (forall i :: 0 <= i < |Available| ==> Available[i] in All)
    }

    /** Allocates `POOL_SIZE` orders and pushes each of them. */
    constructor ()
      ensures Valid() && Sound()
      ensures |Available| == POOL_SIZE
      ensures fresh(pool) && forall o :: o in All ==> fresh(o)
    {
      pool := new Order?[POOL_SIZE];
      top := -1;
      Available := [];
      All := {};
      new;
      var i := 0;
      while i < POOL_SIZE
        invariant 0 <= i <= POOL_SIZE && top == i - 1
        invariant Valid()
        invariant |All| == i
        invariant forall k, l :: 0 <= k < l < |Available| ==> Available[k] != Available[l]
        invariant forall k :: 0 <= k < |Available| ==> Available[k] in All
        invariant forall o :: o in All ==> fresh(o)
      {
        var o := new Order();
        top := top + 1;
        pool[top] := o;
        Available := Available + [o];
        All := All + {o};
        i := i + 1;
      }
    }

    /** `borrow`: pops the top order, or fails on an empty pool. */
    method Borrow() returns (r: Result<Order, PoolError>)
      requires Valid()
      modifies this`top, this`Available
      ensures Valid()
      ensures old(top) < 0 ==> r == Err(Exhausted) && top == old(top) && Available == old(Available)
      ensures old(top) >= 0 ==>
        && r == Ok(old(Available)[old(top)])
        && Available == old(Available)[..old(top)]
        && top == old(top) - 1
    {
      if top < 0 {
        return Err(Exhausted);
      }
      var o := pool[top];
      top := top - 1;
      Available := Available[..top + 1];
      return Ok(o);
    }

    /**
     * `returnOrder`: resets the order and pushes it. The reset happens
     * before the overflow test, so a refused order is reset all the same.
     */
    method ReturnOrder(o: Order?) returns (r: Outcome<PoolError>)
      requires Valid()
      modifies this`top, this`Available, pool, o
      ensures Valid()
      ensures o == null ==> r == Fail(NullOrder) && top == old(top) && Available == old(Available)
      ensures o != null ==>
        && o.orderId == 0 && o.price == 0 && o.quantity == 0 && o.side == 0
        && o.next == null && o.prev == null
      ensures o != null && old(top) >= POOL_SIZE - 1 ==>
        r == Fail(Overflow) && top == old(top) && Available == old(Available)
      ensures o != null && old(top) < POOL_SIZE - 1 ==>
        r == Pass && top == old(top) + 1 && Available == old(Available) + [o]
    {
      if o == null {
        return Fail(NullOrder);
      }
      o.Reset();
      if top >= POOL_SIZE - 1 {
        return Fail(Overflow);
      }
      top := top + 1;
      pool[top] := o;
      Available := Available + [o];
      return Pass;
    }

    /** `availableOrders`: how many orders are pooled. */
    method AvailableOrders() returns (n: int)
      requires Valid()
      ensures n == |Available| && 0 <= n <= POOL_SIZE
    {
      n := top + 1;
    }

    /** `capacity`: the size of the backing array. */
    method Capacity() returns (n: int)
      requires Valid()
      ensures n == pool.Length
    {
      n := POOL_SIZE;
    }
  }

  /** A sequence without repeats has as many distinct elements as positions. */
  lemma {:induction false} DistinctCard<T>(s: seq<T>)
    requires forall i, j :: 0 <= i < j < |s| ==> s[i] != s[j]
    ensures |set x | x in s| == |s|
    decreases |s|
  {
    if s != [] {
      var t := s[..|s| - 1];
      DistinctCard(t);
      assert (set x | x in s) == (set x | x in t) + {s[|s| - 1]};
      assert s[|s| - 1] !in (set x | x in t);
    } else {
      assert (set x | x in s) == {};
    }
  }

  /**
   * An allocated order that is not pooled has room to come back: the pool
   * cannot be full, so `returnOrder` of it never overflows.
   */
  lemma ReturnFits(p: OrderPool, o: Order)
    requires p.Valid() && p.Sound()
    requires o in p.All && o !in p.Available
    ensures p.top < POOL_SIZE - 1
  {
    DistinctCard(p.Available);
    var pooled := set x | x in p.Available;
    var rest := p.All - {o};
    assert pooled <= rest;
    assert rest == pooled + (rest - pooled);
    assert |rest| == |pooled| + |rest - pooled|;
  }

  /** LIFO reuse: the order handed back is the next one borrowed. */
  method ReturnThenBorrow(p: OrderPool, o: Order) returns (b: Result<Order, PoolError>)
    requires p.Valid() && p.top < POOL_SIZE - 1
    modifies p`top, p`Available, p.pool, o
    ensures b == Ok(o)
    ensures p.Available == old(p.Available)
  {
    var _ := p.ReturnOrder(o);
    b := p.Borrow();
  }
}
