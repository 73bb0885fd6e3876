/**
 * The fixed-width binary message format: 32 bytes, little-endian.
 *
 *   offset 0      type      byte
 *   offset 1      side      byte
 *   offset 2-9    orderId   long
 *   offset 10-17  price     long
 *   offset 18-25  quantity  long
 *   offset 26-31  padding   zero bytes
 */
module BinaryProtocol {
  import opened JavaTypes
  import opened Wrappers
  import opened MessageTypes

  const MESSAGE_SIZE: nat := 32

  /** One byte of buffer memory. */
  type Octet = x: int | 0 <= x < 256

  /** The memory byte that holds a Java byte (two's complement). */
  function Unsigned8(b: JByte): Octet { b % 256 }

  /** The Java byte read back from a memory byte. */
  function Signed8(u: Octet): (b: JByte)
    ensures Unsigned8(b) == u
  {
    if u >= 128 then u - 256 else u
  }

  lemma Signed8OfUnsigned8(b: JByte)
    ensures Signed8(Unsigned8(b)) == b
  {
  }

  function Pow256(n: nat): (r: nat)
    ensures r > 0
  {
    if n == 0 then 1 else 256 * Pow256(n - 1)
  }

  /** The `n` low-order bytes of `u`, least significant first. */
  function LittleEndian(u: nat, n: nat): (r: seq<Octet>)
    ensures |r| == n
  {
    if n == 0 then [] else [u % 256] + LittleEndian(u / 256, n - 1)
  }

  /** The unsigned value of a little-endian byte string. */
  function FromLittleEndian(bs: seq<Octet>): (r: nat)
    ensures r < Pow256(|bs|)
  {
    if bs == [] then 0 else bs[0] + 256 * FromLittleEndian(bs[1..])
  }

  lemma {:induction false} LittleEndianRoundTrip(u: nat, n: nat)
    requires u < Pow256(n)
    ensures FromLittleEndian(LittleEndian(u, n)) == u
  {
    if n > 0 {
      var bs := LittleEndian(u, n);
      assert bs[1..] == LittleEndian(u / 256, n - 1);
      LittleEndianRoundTrip(u / 256, n - 1);
    }
  }

  /** The bytes of `bs` read back from the value they spell, least significant first. */
  lemma {:induction false} FromLittleEndianRoundTrip(bs: seq<Octet>)
    ensures LittleEndian(FromLittleEndian(bs), |bs|) == bs
    decreases |bs|
  {
    if bs != [] {
      var u := FromLittleEndian(bs);
      assert u % 256 == bs[0] && u / 256 == FromLittleEndian(bs[1..]);
      FromLittleEndianRoundTrip(bs[1..]);
    }
  }

  /** `s` back to front: the byte order flip between little- and big-endian. */
  function Reverse(s: seq<Octet>): (r: seq<Octet>)
    ensures |r| == |s|
    ensures forall i :: 0 <= i < |s| ==> r[i] == s[|s| - 1 - i]
  {
    if s == [] then [] else Reverse(s[1..]) + [s[0]]
  }

  lemma ReverseReverse(s: seq<Octet>)
    ensures Reverse(Reverse(s)) == s
  {
  }

  /** The eight bytes `putLong(v)` writes, in the buffer's byte order. */
  function LongBytes(v: Long, littleEndian: bool): (r: seq<Octet>)
    ensures |r| == 8
  {
    var le := LittleEndian(v % TWO_64, 8);
    if littleEndian then le else Reverse(le)
  }

  /** The `long` that `getLong()` reads from eight bytes in the given byte order. */
  function LongOf(bs: seq<Octet>, littleEndian: bool): (v: Long)
    requires |bs| == 8
    ensures LongBytes(v, littleEndian) == bs
  {
    var ordered := if littleEndian then bs else Reverse(bs);
    var u := FromLittleEndian(ordered);
    assert Pow256(8) == TWO_64;
    var v := if u > LONG_MAX then u - TWO_64 else u;
    assert v % TWO_64 == u;
    FromLittleEndianRoundTrip(ordered);
    ReverseReverse(bs);
    v
  }

  lemma LongRoundTrip(v: Long)
    ensures LongOf(LongBytes(v, true), true) == v
  {
    assert Pow256(8) == TWO_64;
    LittleEndianRoundTrip(v % TWO_64, 8);
  }

  /** `bs` written over `data` from offset `p` on; the length is unchanged. */
  function Overwrite(data: seq<Octet>, p: nat, bs: seq<Octet>): (r: seq<Octet>)
    requires p + |bs| <= |data|
    ensures |r| == |data|
    ensures r[..p + |bs|] == data[..p] + bs && r[p + |bs|..] == data[p + |bs|..]
  {
    data[..p] + bs + data[p + |bs|..]
  }

  /** The memory bytes of a Java byte array. */
  function Octets(bs: seq<JByte>): (r: seq<Octet>)
    ensures |r| == |bs| && forall i :: 0 <= i < |bs| ==> r[i] == Unsigned8(bs[i])
  {
    if bs == [] then [] else Octets(bs[..|bs| - 1]) + [Unsigned8(bs[|bs| - 1])]
  }

  /** `java.nio.ByteBuffer`, reduced to what the codec uses: contents, position, limit and byte order. */
  class ByteBuffer {
    var data: seq<Octet>
    var position: nat
    var limit: nat
    var littleEndian: bool

    ghost predicate Valid()
      reads this
    {
      position <= limit <= |data|
    }

    function Remaining(): int
      reads this
    {
      limit - position
    }

    /** `ByteBuffer.allocate`: zero-filled, big-endian, position 0, limit = capacity. */
    constructor Allocate(capacity: nat)
      ensures Valid()
      ensures |data| == capacity && (forall i :: 0 <= i < capacity ==> data[i] == 0)
      ensures position == 0 && limit == capacity && !littleEndian
    {
      data := seq(capacity, _ => 0);
      position := 0;
      limit := capacity;
      littleEndian := false;
    }

    method SetOrder(little: bool)
      modifies this`littleEndian
      ensures littleEndian == little
    {
      littleEndian := little;
    }

    /** Relative `put(byte)`. */
    method Put(b: JByte)
      requires Valid() && Remaining() >= 1
      modifies this
      ensures Valid()
      ensures data == Overwrite(old(data), old(position), [Unsigned8(b)])
      ensures position == old(position) + 1
      ensures limit == old(limit) && littleEndian == old(littleEndian)
    {
      data := Overwrite(data, position, [Unsigned8(b)]);
      position := position + 1;
    }

    /** Relative `put(byte[])`. */
    method PutBytes(bs: seq<JByte>)
      requires Valid() && Remaining() >= |bs|
      modifies this
      ensures Valid()
      ensures data == Overwrite(old(data), old(position), Octets(bs))
      ensures position == old(position) + |bs|
      ensures limit == old(limit) && littleEndian == old(littleEndian)
    {
      var k := 0;
      while k < |bs|
        invariant 0 <= k <= |bs|
        invariant Valid() && position == old(position) + k
        invariant limit == old(limit) && littleEndian == old(littleEndian)
        invariant data == Overwrite(old(data), old(position), Octets(bs[..k]))
      {
        assert Octets(bs[..k + 1]) == Octets(bs[..k]) + [Unsigned8(bs[k])] by {
          assert bs[..k + 1][..k] == bs[..k];
        }
        Put(bs[k]);
        k := k + 1;
      }
      assert bs[..k] == bs;
    }

    /** Relative `putLong`: eight bytes in the current byte order. */
    method PutLong(v: Long)
      requires Valid() && Remaining() >= 8
      modifies this
      ensures Valid()
      ensures data == Overwrite(old(data), old(position), LongBytes(v, littleEndian))
      ensures position == old(position) + 8
      ensures limit == old(limit) && littleEndian == old(littleEndian)
    {
      data := Overwrite(data, position, LongBytes(v, littleEndian));
      position := position + 8;
    }

    /** Relative `get()`. */
    method Get() returns (b: JByte)
      requires Valid() && Remaining() >= 1
      modifies this`position
      ensures b == Signed8(data[old(position)])
      ensures position == old(position) + 1
    {
      b := Signed8(data[position]);
      position := position + 1;
    }

    /** Relative `getLong`: eight bytes in the current byte order. */
    method GetLong() returns (v: Long)
      requires Valid() && Remaining() >= 8
      modifies this`position
      ensures v == LongOf(data[old(position)..old(position) + 8], littleEndian)
      ensures position == old(position) + 8
    {
      v := LongOf(data[position..position + 8], littleEndian);
      position := position + 8;
    }

    /** `position(int)`. */
    method SetPosition(p: nat)
      requires p <= limit
      modifies this`position
      ensures position == p
    {
      position := p;
    }

    /** `flip()`: the written bytes become the readable ones. */
    method Flip()
      requires Valid()
      modifies this`position, this`limit
      ensures Valid()
      ensures limit == old(position) && position == 0
    {
      limit := position;
      position := 0;
    }
  }

  /** `BinaryProtocol.Message`: the five decoded fields. */
  datatype Message = Message(msgType: JByte, side: JByte, orderId: Long, price: Long, quantity: Long)

  /** The 32 bytes that encode a message: the layout table above. */
  function Layout(m: Message): (r: seq<Octet>)
    ensures |r| == MESSAGE_SIZE
  {
    [Unsigned8(m.msgType), Unsigned8(m.side)]
    + LongBytes(m.orderId, true) + LongBytes(m.price, true) + LongBytes(m.quantity, true)
    + [0, 0, 0, 0, 0, 0]
  }

  /** The message whose 32 bytes start at offset `p` of `data`. */
  function MessageAt(data: seq<Octet>, p: nat): (m: Message)
    requires p + MESSAGE_SIZE <= |data|
    ensures Layout(m)[..26] == data[p..p + 26]
  {
    var m := Message(Signed8(data[p]), Signed8(data[p + 1]),
                     LongOf(data[p + 2..p + 10], true),
                     LongOf(data[p + 10..p + 18], true),
                     LongOf(data[p + 18..p + 26], true));
    var head := [Unsigned8(m.msgType), Unsigned8(m.side)];
    var a, b, c := LongBytes(m.orderId, true), LongBytes(m.price, true), LongBytes(m.quantity, true);
    assert Layout(m) == head + a + b + c + [0, 0, 0, 0, 0, 0];
    FieldSlices(head, a, b, c, [0, 0, 0, 0, 0, 0]);
    SameFields(Layout(m), data, p);
    m
  }

  /** A byte string that agrees with the 26 bytes at `p` on the header and the three eight-byte fields starts with them. */
  lemma SameFields(x: seq<Octet>, data: seq<Octet>, p: nat)
    requires |x| >= 26 && p + 26 <= |data|
    requires x[0] == data[p] && x[1] == data[p + 1]
    requires x[2..10] == data[p + 2..p + 10] && x[10..18] == data[p + 10..p + 18] && x[18..26] == data[p + 18..p + 26]
    ensures x[..26] == data[p..p + 26]
  {
    forall i | 2 <= i < 26
      ensures x[i] == data[p + i]
    {
      if i < 10 {
        assert x[i] == x[2..10][i - 2];
      } else if i < 18 {
        assert x[i] == x[10..18][i - 10];
      } else {
        assert x[i] == x[18..26][i - 18];
      }
    }
  }

  /** Where the three eight-byte fields sit in a two-byte header, three fields and a six-byte tail. */
  lemma FieldSlices(head: seq<Octet>, a: seq<Octet>, b: seq<Octet>, c: seq<Octet>, tail: seq<Octet>)
    requires |head| == 2 && |a| == 8 && |b| == 8 && |c| == 8 && |tail| == 6
    ensures var bs := head + a + b + c + tail;
      bs[0] == head[0] && bs[1] == head[1] && bs[2..10] == a && bs[10..18] == b && bs[18..26] == c
  {
  }

  /** Decoding the layout of a message yields that message back. */
  lemma DecodeLayout(m: Message)
    ensures MessageAt(Layout(m), 0) == m
  {
    var head := [Unsigned8(m.msgType), Unsigned8(m.side)];
    var a, b, c := LongBytes(m.orderId, true), LongBytes(m.price, true), LongBytes(m.quantity, true);
    var bs := Layout(m);
    assert bs == head + a + b + c + [0, 0, 0, 0, 0, 0];
    FieldSlices(head, a, b, c, [0, 0, 0, 0, 0, 0]);
    LongRoundTrip(m.orderId);
    LongRoundTrip(m.price);
    LongRoundTrip(m.quantity);
    Signed8OfUnsigned8(m.msgType);
    Signed8OfUnsigned8(m.side);
  }

  /** The byte positions of each field in the layout. */
  lemma LayoutFields(m: Message)
    ensures Layout(m)[0] == Unsigned8(m.msgType) && Layout(m)[1] == Unsigned8(m.side)
    ensures Layout(m)[2..10] == LittleEndian(m.orderId % TWO_64, 8)
    ensures Layout(m)[10..18] == LittleEndian(m.price % TWO_64, 8)
    ensures Layout(m)[18..26] == LittleEndian(m.quantity % TWO_64, 8)
    ensures forall i :: 26 <= i < 32 ==> Layout(m)[i] == 0
  {
  }

  datatype ProtocolError = BufferTooSmall(remaining: int)

  /** `decode`: reads one message at the buffer's position, switching the buffer to little-endian. */
  method Decode(buffer: ByteBuffer) returns (r: Result<Message, ProtocolError>)
    requires buffer.Valid()
    modifies buffer
    ensures buffer.Valid()
    ensures old(buffer.Remaining()) < MESSAGE_SIZE ==>
      r == Err(BufferTooSmall(old(buffer.Remaining()))) && unchanged(buffer)
    ensures old(buffer.Remaining()) >= MESSAGE_SIZE ==>
      && r == Ok(MessageAt(old(buffer.data), old(buffer.position)))
      && buffer.position == old(buffer.position) + MESSAGE_SIZE
      && buffer.littleEndian
      && buffer.data == old(buffer.data) && buffer.limit == old(buffer.limit)
  {
    if buffer.Remaining() < MESSAGE_SIZE {
      return Err(BufferTooSmall(buffer.Remaining()));
    }
    buffer.SetOrder(true);
    var msgType := buffer.Get();
    var side := buffer.Get();
    var orderId := buffer.GetLong();
    var price := buffer.GetLong();
    var quantity := buffer.GetLong();
    buffer.SetPosition(buffer.position + 6);
    return Ok(Message(msgType, side, orderId, price, quantity));
  }

  /** `encode`: a fresh 32-byte buffer holding the message, flipped for reading. */
  method Encode(msgType: JByte, side: JByte, orderId: Long, price: Long, quantity: Long)
    returns (buffer: ByteBuffer)
    ensures fresh(buffer) && buffer.Valid()
    ensures buffer.data == Layout(Message(msgType, side, orderId, price, quantity))
    ensures buffer.position == 0 && buffer.limit == MESSAGE_SIZE && buffer.littleEndian
  {
    buffer := new ByteBuffer.Allocate(MESSAGE_SIZE);
    ghost var blank := buffer.data;
    buffer.SetOrder(true);
    buffer.Put(msgType);
    buffer.Put(side);
    buffer.PutLong(orderId);
    buffer.PutLong(price);
    buffer.PutLong(quantity);
    buffer.PutBytes([0, 0, 0, 0, 0, 0]);
    EncodeWrites(blank, msgType, side, orderId, price, quantity);
    buffer.Flip();
  }

  /** The six relative writes of `encode`, from offset 0 of a 32-byte buffer, lay out the message. */
  lemma EncodeWrites(blank: seq<Octet>, msgType: JByte, side: JByte, orderId: Long, price: Long, quantity: Long)
    requires |blank| == MESSAGE_SIZE
    ensures var d1 := Overwrite(blank, 0, [Unsigned8(msgType)]);
      var d2 := Overwrite(d1, 1, [Unsigned8(side)]);
      var d3 := Overwrite(d2, 2, LongBytes(orderId, true));
      var d4 := Overwrite(d3, 10, LongBytes(price, true));
      var d5 := Overwrite(d4, 18, LongBytes(quantity, true));
      Overwrite(d5, 26, Octets([0, 0, 0, 0, 0, 0])) == Layout(Message(msgType, side, orderId, price, quantity))
  {
    var d1 := Overwrite(blank, 0, [Unsigned8(msgType)]);
    assert d1[..1] == [Unsigned8(msgType)];
    var d2 := Overwrite(d1, 1, [Unsigned8(side)]);
    var written := [Unsigned8(msgType), Unsigned8(side)];
    assert d2[..2] == written;
    var d3 := Overwrite(d2, 2, LongBytes(orderId, true));
    written := written + LongBytes(orderId, true);
    assert d3[..10] == written;
    var d4 := Overwrite(d3, 10, LongBytes(price, true));
    written := written + LongBytes(price, true);
    assert d4[..18] == written;
    var d5 := Overwrite(d4, 18, LongBytes(quantity, true));
    written := written + LongBytes(quantity, true);
    assert d5[..26] == written;
    var d6 := Overwrite(d5, 26, Octets([0, 0, 0, 0, 0, 0]));
    assert Octets([0, 0, 0, 0, 0, 0]) == [0, 0, 0, 0, 0, 0];
    assert d6[..32] == Layout(Message(msgType, side, orderId, price, quantity));
    assert d6 == d6[..32];
  }

  /** `encodeAdd`. */
  method EncodeAdd(side: JByte, orderId: Long, price: Long, quantity: Long) returns (buffer: ByteBuffer)
    ensures fresh(buffer) && buffer.Valid()
    ensures buffer.data == Layout(Message(ADD.Code(), side, orderId, price, quantity))
    ensures buffer.position == 0 && buffer.limit == MESSAGE_SIZE && buffer.littleEndian
  {
    buffer := Encode(ADD.Code(), side, orderId, price, quantity);
  }

  /** `encodeCancel`: side, price and quantity are zero. */
  method EncodeCancel(orderId: Long) returns (buffer: ByteBuffer)
    ensures fresh(buffer) && buffer.Valid()
    ensures buffer.data == Layout(Message(CANCEL.Code(), 0, orderId, 0, 0))
    ensures buffer.position == 0 && buffer.limit == MESSAGE_SIZE && buffer.littleEndian
  {
    buffer := Encode(CANCEL.Code(), 0, orderId, 0, 0);
  }

  /** `encodeModify`. */
  method EncodeModify(side: JByte, orderId: Long, newPrice: Long, newQuantity: Long) returns (buffer: ByteBuffer)
    ensures fresh(buffer) && buffer.Valid()
    ensures buffer.data == Layout(Message(MODIFY.Code(), side, orderId, newPrice, newQuantity))
    ensures buffer.position == 0 && buffer.limit == MESSAGE_SIZE && buffer.littleEndian
  {
    buffer := Encode(MODIFY.Code(), side, orderId, newPrice, newQuantity);
  }
}
