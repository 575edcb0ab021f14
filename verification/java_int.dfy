/** Java's 32-bit `int`/`Integer` arithmetic. Only the two places where the
    modelled code does arithmetic on an `Integer` field need it: the
    tournaments-played counter and the membership-duration extension. */
module JavaInt {

  const INT_MIN: int := -0x8000_0000
  const INT_MAX: int := 0x7fff_ffff
  const MODULUS: int := 0x1_0000_0000

  /** The values a Java `int` can hold. */
  type Int32 = x: int | INT_MIN <= x <= INT_MAX

  /** Reduces a mathematical integer into the `int` range the way two's
      complement arithmetic does. */
  function Wrap(x: int): (r: Int32)
    ensures INT_MIN <= x <= INT_MAX ==> r == x
    ensures (x - r) % MODULUS == 0
  {
    var k := (x - INT_MIN) / MODULUS;
    assert x - ((x - INT_MIN) % MODULUS + INT_MIN) == k * MODULUS;
    (x - INT_MIN) % MODULUS + INT_MIN
  }

  /** Java's `a + b` on `int`: exact unless it overflows, in which case it
      wraps around by 2^32. */
  function Add(a: Int32, b: Int32): (r: Int32)
    ensures INT_MIN <= a + b <= INT_MAX ==> r == a + b
    ensures a + b > INT_MAX ==> r == a + b - MODULUS
    ensures a + b < INT_MIN ==> r == a + b + MODULUS
  {
    Wrap(a + b)
  }
}
