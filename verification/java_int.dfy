/** Java's 32-bit two's-complement `int`, with its silent wrap-around made explicit. */
module JavaInt {

  const Half: int := 0x8000_0000
  const Modulus: int := 0x1_0000_0000

  newtype int32 = x: int | -0x8000_0000 <= x < 0x8000_0000

  /** True when `x` is representable as a Java `int` without wrapping. */
  predicate InRange(x: int) {
    -Half <= x < Half
  }

  /** The Java `int` that the exact integer `x` becomes: `x` reduced modulo 2^32 into [-2^31, 2^31). */
  function Wrap(x: int): (r: int32)
    ensures InRange(x) ==> r as int == x
    ensures (r as int - x) % Modulus == 0
  {
    var m := (x + Half) % Modulus;
    assert InRange(x) ==> m == x + Half;
    (m - Half) as int32
  }

  /** Java `a + b` on two `int`s. */
  function Add(a: int32, b: int32): (r: int32)
    ensures InRange(a as int + b as int) ==> r as int == a as int + b as int
    ensures (r as int - (a as int + b as int)) % Modulus == 0
  {
    Wrap(a as int + b as int)
  }

  /** Java `a - b` on two `int`s. */
  function Sub(a: int32, b: int32): (r: int32)
    ensures InRange(a as int - b as int) ==> r as int == a as int - b as int
    ensures (r as int - (a as int - b as int)) % Modulus == 0
  {
    Wrap(a as int - b as int)
  }

  /** `Wrap(x)` differs from `x` by a whole number of 2^32 steps. */
  lemma WrapOffset(x: int) returns (k: int)
    ensures Wrap(x) as int == x + Modulus * k
  {
    k := (Wrap(x) as int - x) / Modulus;
  }

  /** The only `int` congruent to `x` modulo 2^32 is `Wrap(x)`. */
  lemma WrapUnique(x: int, y: int32, k: int)
    requires y as int == x + Modulus * k
    ensures Wrap(x) == y
  {
    var j := WrapOffset(x);
    assert Wrap(x) as int - y as int == Modulus * (j - k);
  }
}
