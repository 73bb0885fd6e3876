/** Failure-compatible wrappers used in place of Java's null returns and exceptions. */
module Wrappers {
  datatype Option<+T> = None | Some(value: T)

  datatype Result<+T, +E> = Ok(value: T) | Err(error: E)

  datatype Outcome<+E> = Pass | Fail(error: E)
}

/** Java's fixed-width integer types and the two side bytes the engine compares against. */
module JavaTypes {
  const LONG_MIN: int := -0x8000_0000_0000_0000
  const LONG_MAX: int := 0x7FFF_FFFF_FFFF_FFFF
  const TWO_64: int := 0x1_0000_0000_0000_0000

  /** A Java `long`. */
  type Long = x: int | LONG_MIN <= x <= LONG_MAX

  /** A Java `byte` (signed). */
  type JByte = x: int | -128 <= x < 128

  /** The side byte of a buy order, 'B'. */
  const BUY: JByte := 66
  /** The side byte of a sell order, 'S'. */
  const SELL: JByte := 83

  /** Two's-complement wrap-around of Java `long` arithmetic. */
  function Wrap64(x: int): (r: Long)
    ensures (x - r) % TWO_64 == 0
    ensures LONG_MIN <= x <= LONG_MAX ==> r == x
  {
    var u := x % TWO_64;
    if u > LONG_MAX then u - TWO_64 else u
  }

  /** Wrapping is compatible with addition: a running `long` sum may wrap at every step. */
  lemma Wrap64Add(a: int, b: int)
    ensures Wrap64(Wrap64(a) + b) == Wrap64(a + b)
  {
    var k := (a - Wrap64(a)) / TWO_64;
    assert a - Wrap64(a) == k * TWO_64;
    ModShift(a + b, k);
  }

  /** Wrapping is compatible with subtraction: `a - sum` wraps the same whether or not the sum wrapped first. */
  lemma Wrap64Sub(a: int, b: int)
    ensures Wrap64(a - Wrap64(b)) == Wrap64(a - b)
  {
    var k := (b - Wrap64(b)) / TWO_64;
    assert b - Wrap64(b) == k * TWO_64;
    ModShift(a - b, -k);
  }

  lemma ModShift(x: int, k: int)
    ensures (x - k * TWO_64) % TWO_64 == x % TWO_64
  {
    var q := x / TWO_64;
    assert x == q * TWO_64 + x % TWO_64;
    assert x - k * TWO_64 == (q - k) * TWO_64 + x % TWO_64;
  }
}
