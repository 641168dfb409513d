/** Powers of two and a little non-linear arithmetic, shared by the modules that compute. */
module Arithmetic {
  function Pow2(n: nat): (r: nat)
    ensures r >= 1
  {
    if n == 0 then 1 else 2 * Pow2(n - 1)
  }

  lemma {:induction false} Pow2Grows(a: nat, b: nat)
    requires a < b
    ensures 2 * Pow2(a) <= Pow2(b)
  {
    if b > a + 1 { Pow2Grows(a, b - 1); }
  }

  lemma Scales(x: int, a: int, b: int)
    requires x >= 0
    ensures a <= b ==> x * a <= x * b
  {
  }
}
