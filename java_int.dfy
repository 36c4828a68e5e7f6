/** Java's 32-bit `int` and its wrap-around addition. */
module JavaInt {

  const MinInt: int := -0x8000_0000
  const MaxInt: int := 0x7fff_ffff
  const Modulus: int := 0x1_0000_0000

  type Int32 = x: int | -0x8000_0000 <= x <= 0x7fff_ffff

  predicate InRange(x: int) {
    MinInt <= x <= MaxInt
  }

  /** The Java `int` that an exact integer result is stored as (two's complement). */
  function Wrap(x: int): (r: Int32)
    ensures InRange(x) ==> r == x
    ensures (r - x) % Modulus == 0
  {
    (x - MinInt) % Modulus + MinInt
  }

  /** Adding to an already wrapped value gives the wrap of the exact sum. */
  lemma WrapAdd(a: int, b: int)
    ensures Wrap(Wrap(a) + b) == Wrap(a + b)
  {
  }
}
