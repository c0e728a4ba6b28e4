/** Bitwise AND on non-negative integers, and why masking with 2^k - 1
    keeps the remainder modulo 2^k. */
module Bits {

  function Pow2(k: nat): (p: nat)
    ensures p >= 1
  {
    if k == 0 then 1 else 2 * Pow2(k - 1)
  }

  /** `a & b`, bit by bit from the lowest bit. */
  function BitAnd(a: nat, b: nat): nat
  {
    if a == 0 || b == 0 then 0 else 2 * BitAnd(a / 2, b / 2) + (a % 2) * (b % 2)
  }

  /** The remainder is determined by any quotient/remainder decomposition. */
  lemma ModUnique(x: nat, d: nat, t: int, r: int)
    requires d >= 1 && 0 <= r < d && x == d * t + r
    ensures x % d == r
  {
    var k := x / d - t;
    assert d * k == r - x % d;
  }

  lemma HalfMod(x: nat, m: nat)
    requires m >= 1
    ensures x % (2 * m) == 2 * ((x / 2) % m) + x % 2
  {
    var q, b := x / 2, x % 2;
    var t, r := q / m, q % m;
    assert x == 2 * q + b;
    assert q == m * t + r;
    assert x == (2 * m) * t + (2 * r + b);
    ModUnique(x, 2 * m, t, 2 * r + b);
  }

  /** x & (2^k - 1) == x mod 2^k. */
  lemma {:induction false} LowBitsMask(x: nat, k: nat)
    ensures BitAnd(x, Pow2(k) - 1) == x % Pow2(k)
  {
    if k == 0 {
    } else if x == 0 {
    } else {
      var m := Pow2(k - 1);
      assert (2 * m - 1) / 2 == m - 1 && (2 * m - 1) % 2 == 1;
      LowBitsMask(x / 2, k - 1);
      HalfMod(x, m);
    }
  }

  lemma Pow2Of16()
    ensures Pow2(16) == 65536
  {
    assert Pow2(4) == 16;
    assert Pow2(8) == 256;
    assert Pow2(12) == 4096;
  }
}
