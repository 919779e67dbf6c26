/** C's integer widths and the few facts about products and quotients that several modules need. */
module Arithmetic {
  function Min(a: int, b: int): (m: int)
    ensures m <= a && m <= b && (m == a || m == b)
  {
    if a <= b then a else b
  }

  lemma MulMonotone(a: int, b: int, d: nat)
    requires a <= b
    ensures a * d <= b * d
  {}

  /** Quotient and remainder are unique. */
  lemma DivisionIs(n: nat, d: nat, q: nat, r: nat)
    requires r < d && n == q * d + r
    ensures n / d == q && n % d == r
  {
    var p := n / d;
    assert n == p * d + n % d;
    if p < q {
      MulMonotone(p + 1, q, d);
    } else if q < p {
      MulMonotone(q + 1, p, d);
    }
  }

  const U32: int := 0x1_0000_0000

  const WORD: int := 0x1_0000_0000_0000_0000

  /** C's conversions to 32-bit unsigned and int. */
  function ToUnsigned(x: int): (u: int)
    ensures 0 <= u < 0x1_0000_0000 && (x - u) % 0x1_0000_0000 == 0
    ensures 0 <= x < 0x1_0000_0000 ==> u == x
  {
    x % U32
  }

  function ToInt(x: int): (i: int)
    ensures -0x8000_0000 <= i < 0x8000_0000 && (x - i) % 0x1_0000_0000 == 0
    ensures -0x8000_0000 <= x < 0x8000_0000 ==> i == x
  {
    if ToUnsigned(x) < 0x8000_0000 then ToUnsigned(x) else ToUnsigned(x) - U32
  }
}
