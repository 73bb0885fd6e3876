/** The value seen of a resting order: its id and open quantity, in queue position. */
module Queues {
  import opened JavaTypes

  datatype Resting = Resting(orderId: Long, quantity: Long)

  /** The open quantity of a queue, summed without wrap-around. */
  function Total(q: seq<Resting>): int
  {
    if q == [] then 0 else Total(q[..|q| - 1]) + q[|q| - 1].quantity
  }

  predicate AllPositive(q: seq<Resting>)
  {
    forall i :: 0 <= i < |q| ==> q[i].quantity > 0
  }

  lemma {:induction false} TotalAppend(a: seq<Resting>, b: seq<Resting>)
    ensures Total(a + b) == Total(a) + Total(b)
    decreases |b|
  {
    if b != [] {
      assert (a + b)[..|a + b| - 1] == a + b[..|b| - 1];
      assert (a + b)[|a + b| - 1] == b[|b| - 1];
      TotalAppend(a, b[..|b| - 1]);
    } else {
      assert a + b == a;
    }
  }

  lemma TotalCons(r: Resting, q: seq<Resting>)
    ensures Total([r] + q) == r.quantity + Total(q)
  {
    TotalAppend([r], q);
    assert [r][..0] == [];
  }

  lemma {:induction false} TotalPositive(q: seq<Resting>)
    requires AllPositive(q)
    ensures Total(q) >= |q|
    decreases |q|
  {
    if q != [] {
      TotalPositive(q[..|q| - 1]);
    }
  }

  /** Taking the entry at position `i` out of a queue takes its quantity off the total. */
  lemma TotalWithout(q: seq<Resting>, i: nat)
    requires i < |q|
    ensures Total(q[..i] + q[i + 1..]) == Total(q) - q[i].quantity
  {
    assert q == (q[..i] + [q[i]]) + q[i + 1..];
    TotalAppend(q[..i] + [q[i]], q[i + 1..]);
    TotalAppend(q[..i], [q[i]]);
    TotalAppend(q[..i], q[i + 1..]);
    TotalCons(q[i], []);
    assert [q[i]] + [] == [q[i]];
  }

  /** Whether an order with this id is queued. */
  predicate Holds(q: seq<Resting>, id: Long)
  {
    exists i :: 0 <= i < |q| && q[i].orderId == id
  }

  /** The position of the oldest queued order with this id. */
  function Position(q: seq<Resting>, id: Long): (i: nat)
    requires Holds(q, id)
    ensures i < |q| && q[i].orderId == id
    ensures forall j :: 0 <= j < i ==> q[j].orderId != id
    decreases |q|
  {
    if q[0].orderId == id then 0
    else
      assert exists i :: 0 <= i < |q[1..]| && q[1..][i].orderId == id by {
        var k :| 0 <= k < |q| && q[k].orderId == id;
        assert q[1..][k - 1] == q[k];
      }
      Position(q[1..], id) + 1
  }

  /** An id queued at another position than `i` is still queued once position `i` leaves. */
  lemma HoldsWithout(q: seq<Resting>, i: nat, id: Long)
    requires i < |q| && Holds(q, id) && q[i].orderId != id
    ensures Holds(q[..i] + q[i + 1..], id)
  {
    var k :| 0 <= k < |q| && q[k].orderId == id;
    var r := q[..i] + q[i + 1..];
    if k < i {
      assert r[k] == q[k];
    } else {
      assert r[k - 1] == q[k];
    }
  }

  /** Appending keeps every queued id queued. */
  lemma HoldsAppend(q: seq<Resting>, r: Resting, id: Long)
    requires Holds(q, id) || r.orderId == id
    ensures Holds(q + [r], id)
  {
    if r.orderId == id {
      assert (q + [r])[|q|] == r;
    } else {
      var k :| 0 <= k < |q| && q[k].orderId == id;
      assert (q + [r])[k] == q[k];
    }
  }
}
