/** Java's 32-bit `int`: its range and the two's-complement wrap-around of its arithmetic. */
module JavaInt {

  const MODULUS: int := 0x1_0000_0000

  /** The values of a Java `int`. */
  type i32 = x: int | -0x8000_0000 <= x < 0x8000_0000

  /** The `int` that Java's arithmetic produces for the mathematical value `x`. */
  function Wrap(x: int): (r: i32)
    ensures (x - r) % MODULUS == 0
    ensures -0x8000_0000 <= x < 0x8000_0000 ==> r == x
  {
    (x + 0x8000_0000) % MODULUS - 0x8000_0000
  }

  /** Values that agree modulo 2^32 wrap to the same `int`. */
  lemma WrapCongruent(a: int, b: int)
    requires (a - b) % MODULUS == 0
    ensures Wrap(a) == Wrap(b)
  {
    var k := (a - b) / MODULUS;
    assert a == b + k * MODULUS;
    assert (a + 0x8000_0000) % MODULUS == (b + 0x8000_0000) % MODULUS;
  }

  /** Wrapping an intermediate sum does not change the final wrapped result. */
  lemma WrapInner(a: int, b: int)
    ensures Wrap(Wrap(a) + b) == Wrap(a + b)
    ensures Wrap(b + Wrap(a)) == Wrap(b + a)
  {
    WrapCongruent(Wrap(a) + b, a + b);
    WrapCongruent(b + Wrap(a), b + a);
  }
}
