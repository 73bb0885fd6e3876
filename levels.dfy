/**
 * One price level: an intrusive doubly linked FIFO queue of orders threaded
 * through the orders' own `next`/`prev` fields, with a separately kept size.
 */
module Levels {
  import opened JavaTypes
  import opened Orders
  import opened Queues

  /** The values of a sequence of orders, in the same order. */
  ghost function Snapshot(s: seq<Order>): (r: seq<Resting>)
    reads s`orderId, s`quantity
    ensures |r| == |s|
  {
    if s == [] then [] else Snapshot(s[..|s| - 1]) + [Resting(s[|s| - 1].orderId, s[|s| - 1].quantity)]
  }

  /** The queue with the order at position `i` taken out, the rest kept in order. */
  function Without<T>(s: seq<T>, i: nat): (r: seq<T>)
    requires i < |s|
    ensures |r| == |s| - 1
    ensures forall j :: 0 <= j < i ==> r[j] == s[j]
    ensures forall j :: i <= j < |r| ==> r[j] == s[j + 1]
  {
    s[..i] + s[i + 1..]
  }

  class OrderLevel {
    var head: Order?
    var tail: Order?
    var size: int
    var removed: bool
    /** The queued orders, oldest first. */
    ghost var Contents: seq<Order>

    /** The links spell out `Contents`, and `size` counts it. */
    ghost predicate Valid()
      reads this, Contents
    {
      && size == |Contents|
      && (Contents == [] ==> head == null && tail == null)
      && (Contents != [] ==> head == Contents[0] && tail == Contents[|Contents| - 1])
      && (Contents != [] ==> Contents[0].prev == null && Contents[|Contents| - 1].next == null)
      && (forall i, j :: 0 <= i < j < |Contents| ==> Contents[i] != Contents[j])
      && (forall i :: 0 < i < |Contents| ==> Contents[i].prev == Contents[i - 1])
      && (forall i :: 0 <= i < |Contents| - 1 ==> Contents[i].next == Contents[i + 1])
    }

    /** The queue as values: ids and open quantities, oldest first. */
    ghost function Queue(): seq<Resting>
      reads this`Contents, Contents`orderId, Contents`quantity
    {
      Snapshot(Contents)
    }

    constructor ()
      ensures Valid() && Contents == [] && !removed
    {
      head, tail, size, removed := null, null, 0, false;
      Contents := [];
    }

    method IsRemoved() returns (b: bool)
      ensures b == removed
    {
      b := removed;
    }

    method SetRemoved(flag: bool)
      modifies this`removed
      ensures removed == flag
    {
      removed := flag;
    }

    /** `addLast`: the order joins the back of the queue. */
    method AddLast(o: Order)
      requires Valid() && o !in Contents
      modifies this, o`next, o`prev, Contents`next
      ensures Valid()
      ensures Contents == old(Contents) + [o]
      ensures Queue() == old(Queue()) + [Resting(o.orderId, o.quantity)]
      ensures removed == old(removed)
    {
      ghost var C := Contents;
      ghost var N := C + [o];
      ghost var Q := Snapshot(N);
      assert Q == Snapshot(C) + [Resting(o.orderId, o.quantity)] by {
        assert N[..|C|] == C && N[|C|] == o;
      }
      if tail == null {
        head, tail := o, o;
        o.next := null;
        o.prev := null;
      } else {
        tail.next := o;
        o.prev := tail;
        o.next := null;
        tail := o;
      }
      size := size + 1;
      Contents := N;
      assert Valid() by {
        assert forall j :: 0 <= j < |C| ==> N[j] == C[j] && C[j] != o;
        assert forall i, j :: 0 <= i < j < |N| ==> N[i] != N[j];
        forall i | 0 < i < |N|
          ensures N[i].prev == N[i - 1]
        {
          if i < |C| {
            assert C[i].prev == old(C[i].prev);
          }
        }
        forall i | 0 <= i < |N| - 1
          ensures N[i].next == N[i + 1]
        {
          if i < |C| - 1 {
            assert C[i] != C[|C| - 1] && C[i].next == old(C[i].next);
          }
        }
      }
      assert Queue() == Q;
    }

    /**
     * `remove`: unlinks a queued order from anywhere in the queue. The
     * removed order keeps its own (now stale) links.
     */
    method Remove(o: Order) returns (ghost pos: nat)
      requires Valid() && o in Contents
      modifies this, Contents`next, Contents`prev
      ensures Valid()
      ensures pos < |old(Contents)| && old(Contents)[pos] == o
      ensures Contents == Without(old(Contents), pos)
      ensures o.next == old(o.next) && o.prev == old(o.prev)
      ensures removed == old(removed)
    {
      pos :| 0 <= pos < |Contents| && Contents[pos] == o;
      ghost var C := Contents;
      ghost var D := Without(C, pos);
      assert forall j :: 0 <= j < |C| && j != pos ==> C[j] != o;
      assert o.prev == (if pos == 0 then null else C[pos - 1]);
      assert o.next == (if pos == |C| - 1 then null else C[pos + 1]);
      if o.prev != null {
        o.prev.next := o.next;
      } else {
        head := o.next;
      }
      if o.next != null {
        o.next.prev := o.prev;
      } else {
        tail := o.prev;
      }
      size := size - 1;
      Contents := D;
      assert Valid();
    }

    /** `peek`: the oldest order, or null when the queue is empty. */
    method Peek() returns (r: Order?)
      requires Valid()
      ensures Contents == [] ==> r == null
      ensures Contents != [] ==> r == Contents[0]
    {
      r := head;
    }

    /**
     * `pollFirst`: takes the oldest order off the queue. The polled order
     * keeps its own (now stale) `next` link.
     */
    method PollFirst() returns (r: Order?)
      requires Valid()
      modifies this, Contents`prev
      ensures Valid()
      ensures old(Contents) == [] ==> r == null && Contents == [] && unchanged(this)
      ensures old(Contents) != [] ==> r == old(Contents)[0] && Contents == old(Contents)[1..] && Queue() == old(Queue())[1..]
      ensures r != null ==> r.next == old(r.next)
      ensures removed == old(removed)
    {
      if head == null {
        return null;
      }
      ghost var C := Contents;
      SnapshotTail(C);
      r := head;
      head := head.next;
      assert head == (if |C| == 1 then null else C[1]);
      if head != null {
        head.prev := null;
      } else {
        tail := null;
      }
      size := size - 1;
      Contents := C[1..];
    }

    /** `isEmpty`: true exactly when no order is queued. */
    method IsEmpty() returns (b: bool)
      requires Valid()
      ensures b <==> Contents == []
    {
      b := head == null;
    }

    /** `getSize`: the number of queued orders. */
    method GetSize() returns (n: int)
      requires Valid()
      ensures n == |Contents|
    {
      n := size;
    }

    /** `getTotalQuantity`: walks the links summing quantities in `long` arithmetic. */
    method GetTotalQuantity() returns (total: Long)
      requires Valid()
      ensures total == Wrap64(Total(Queue()))
    {
      total := 0;
      var current := head;
      ghost var i := 0;
      ghost var q := Queue();
      SnapshotAt(Contents);
      while current != null
        invariant 0 <= i <= |Contents|
        invariant current == (if i == |Contents| then null else Contents[i])
        invariant total == Wrap64(Total(q[..i]))
        decreases |Contents| - i
      {
        TotalPrefix(q, i);
        Wrap64Add(Total(q[..i]), current.quantity);
        total := Wrap64(total + current.quantity);
        current := current.next;
        i := i + 1;
      }
      assert q[..i] == q;
    }
  }

  /** Entry `i` of the snapshot is the id and quantity of order `i`. */
  lemma {:induction false} SnapshotAt(s: seq<Order>)
    ensures forall i :: 0 <= i < |s| ==> Snapshot(s)[i] == Resting(s[i].orderId, s[i].quantity)
  {
    if s != [] {
      SnapshotAt(s[..|s| - 1]);
    }
  }

  /** Taking an order out of the queue takes its value out of the snapshot. */
  lemma SnapshotWithout(s: seq<Order>, i: nat)
    requires i < |s|
    ensures Snapshot(Without(s, i)) == Without(Snapshot(s), i)
  {
    SnapshotAt(s);
    SnapshotAt(Without(s, i));
  }

  /** Polling the oldest order drops the first entry of the snapshot. */
  lemma SnapshotTail(s: seq<Order>)
    requires s != []
    ensures Snapshot(s[1..]) == Snapshot(s)[1..]
  {
    SnapshotAt(s);
    SnapshotAt(s[1..]);
  }

  /** Summing one more order of the queue. */
  lemma TotalPrefix(q: seq<Resting>, i: nat)
    requires i < |q|
    ensures Total(q[..i + 1]) == Total(q[..i]) + q[i].quantity
  {
    assert q[..i + 1][..i] == q[..i];
  }

  /**
   * A level of open orders holds at least one unit per queued order, and
   * `getTotalQuantity` reports its sum exactly while that fits in a `long`.
   */
  lemma {:induction false} TotalQuantityCounts(q: seq<Resting>)
    requires AllPositive(q) && Total(q) <= LONG_MAX
    ensures |q| <= Wrap64(Total(q)) == Total(q)
  {
    TotalPositive(q);
  }
}
