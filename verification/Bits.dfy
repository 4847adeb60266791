/** The 32-bit integer operators of JavaScript, written out over the integers. */
module Bits {
  const WORD := 0x1_0000_0000

  function Pow2(n: nat): (r: nat)
    ensures r >= 1
  {
    if n == 0 then 1 else 2 * Pow2(n - 1)
  }

  /** The 32 bits of a number. */
  function Word(x: int): (r: nat)
    ensures r < WORD
  {
    x % WORD
  }

  /** Bitwise or. */
  function Or(x: nat, y: nat): nat
    decreases x + y
  {
    if x == 0 then y
    else if y == 0 then x
    else 2 * Or(x / 2, y / 2) + (if x % 2 == 1 || y % 2 == 1 then 1 else 0)
  }

  /** `a << n` as 32 bits. */
  function Shl(x: int, n: nat): (r: nat)
    ensures r < WORD
  {
    Word(x * Pow2(n))
  }

  /** The signed reading of 32 bits. */
  function Signed(w: nat): int {
    if w < WORD / 2 then w else w - WORD
  }

  /** Or-ing into vacated low bits adds. */
  lemma {:induction false} OrIntoZeros(x: nat, y: nat, n: nat)
    requires y < Pow2(n)
    ensures Or(x * Pow2(n), y) == x * Pow2(n) + y
    decreases n
  {
    if n > 0 && x > 0 && y > 0 {
      var p := Pow2(n - 1);
      assert x * Pow2(n) == 2 * (x * p) by { assert Pow2(n) == 2 * p; }
      assert x * Pow2(n) > 0 by { assert x * p >= 1 * 1 by { MulPositive(x, p); } }
      OrIntoZeros(x, y / 2, n - 1);
    }
  }

  lemma MulPositive(a: nat, b: nat)
    requires a >= 1 && b >= 1
    ensures a * b >= 1
  {}
}
