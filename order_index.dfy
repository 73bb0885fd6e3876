/** The id → order hash map kept beside the book for constant-time lookup. */
module Indexes {
  import opened JavaTypes
  import opened Orders

  class OrderIndex {
    var entries: map<Long, Order>

    constructor ()
      ensures entries == map[]
    {
      entries := map[];
    }

    /** `put`: maps the id to the order, replacing any earlier entry for it. */
    method Put(id: Long, o: Order)
      modifies this
      ensures entries == old(entries)[id := o]
    {
      entries := entries[id := o];
    }

    /** `get`: the order mapped to the id, or null. */
    method Get(id: Long) returns (r: Order?)
      ensures id in entries ==> r == entries[id]
      ensures id !in entries ==> r == null
    {
      r := if id in entries then entries[id] else null;
    }

    /** `remove`: drops the id and hands back what it mapped to, or null. */
    method Remove(id: Long) returns (r: Order?)
      modifies this
      ensures entries == old(entries) - {id}
      ensures id in old(entries) ==> r == old(entries)[id]
      ensures id !in old(entries) ==> r == null
    {
      r := if id in entries then entries[id] else null;
      entries := entries - {id};
    }

    /** `contains`: whether the id is mapped. */
    method Contains(id: Long) returns (b: bool)
      ensures b <==> id in entries
    {
      b := id in entries;
    }

    /** `size`: the number of mapped ids. */
    method Size() returns (n: int)
      ensures n == |entries.Keys|
    {
      n := |entries|;
    }

    /** `clear`: forgets every id. */
    method Clear()
      modifies this
      ensures entries == map[] && |entries| == 0
    {
      entries := map[];
    }
  }
}
