/** Division of natural numbers by a variable divisor. */
module Arithmetic {
  lemma Gap(a: int, b: int, d: nat)
    requires a < b
    ensures a * d + d <= b * d
  {
    assert b * d == a * d + d + (b - a - 1) * d;
    assert (b - a - 1) * d >= 0;
  }

  lemma SameQuotient(q: int, r: nat, k: int, s: nat, d: nat)
    requires r < d && s < d && q * d + r == k * d + s
    ensures q == k && r == s
  {
    if k < q {
      Gap(k, q, d);
    } else if q < k {
      Gap(q, k, d);
    }
  }

  lemma DivideUniquely(q: int, r: nat, d: nat)
    requires r < d
    ensures (q * d + r) / d == q && (q * d + r) % d == r
  {
    var n := q * d + r;
    SameQuotient(q, r, n / d, n % d, d);
  }

  lemma TakeOneOff(n: nat, d: nat)
    requires 0 < d <= n
    ensures n / d == (n - d) / d + 1 && n % d == (n - d) % d
  {
    var q, r := (n - d) / d, (n - d) % d;
    assert n == (q + 1) * d + r;
    DivideUniquely(q + 1, r, d);
  }
}

/** Unsigned words as numbers, with the bitwise operators bit by bit. */
module Bits {
  const TWO64 := 0x1_0000_0000_0000_0000

  type Word64 = w: nat | w < TWO64

  function Pow2(n: nat): (p: nat)
    ensures p > 0
  {
    if n == 0 then 1 else 2 * Pow2(n - 1)
  }

  lemma Pow2Of64()
    ensures Pow2(8) == 256 && Pow2(64) == TWO64
  {
    assert Pow2(8) == 256;
    assert Pow2(16) == 0x1_0000;
    assert Pow2(24) == 0x100_0000;
    assert Pow2(32) == 0x1_0000_0000;
    assert Pow2(40) == 0x100_0000_0000;
    assert Pow2(48) == 0x1_0000_0000_0000;
    assert Pow2(56) == 0x100_0000_0000_0000;
  }

  function XorBits(a: nat, b: nat): nat {
    if a == 0 && b == 0 then 0 else (a + b) % 2 + 2 * XorBits(a / 2, b / 2)
  }

  function AndNotBits(a: nat, b: nat): nat {
    if b == 0 then 0 else (if a % 2 == 0 then b % 2 else 0) + 2 * AndNotBits(a / 2, b / 2)
  }

  lemma XorFits(a: nat, b: nat, n: nat)
    requires a < Pow2(n) && b < Pow2(n)
    ensures XorBits(a, b) < Pow2(n)
  {
    if n > 0 && !(a == 0 && b == 0) {
      XorFits(a / 2, b / 2, n - 1);
    }
  }

  lemma AndNotFits(a: nat, b: nat, n: nat)
    requires b < Pow2(n)
    ensures AndNotBits(a, b) < Pow2(n)
  {
    if n > 0 && b != 0 {
      AndNotFits(a / 2, b / 2, n - 1);
    }
  }

  function Xor(a: Word64, b: Word64): Word64 {
    Pow2Of64();
    XorFits(a, b, 64);
    XorBits(a, b)
  }

  /** ~a & b. */
  function AndNot(a: Word64, b: Word64): Word64 {
    Pow2Of64();
    AndNotFits(a, b, 64);
    AndNotBits(a, b)
  }

  lemma Pow2Adds(m: nat, n: nat)
    ensures Pow2(m) * Pow2(n) == Pow2(m + n)
  {
    if m > 0 {
      Pow2Adds(m - 1, n);
      assert Pow2(m) * Pow2(n) == 2 * (Pow2(m - 1) * Pow2(n));
    }
  }

  lemma Times(a: nat, b: nat, c: nat)
    ensures a <= b ==> a * c <= b * c
  {
    if a <= b {
      assert b * c == a * c + (b - a) * c;
    }
  }

  lemma SwapFits(high: nat, low: nat, p: nat, q: nat)
    requires low < p && high * p + low < p * q
    ensures low * q + high < p * q
  {
    Times(high, q, p);
    Times(low, p - 1, q);
    Times(q, high, p);
    assert (p - 1) * q == p * q - q;
  }

  /** The low part of a moved up by q, the rest, a / p, put below it. */
  function Swap(a: nat, p: nat, q: nat): (r: nat)
    requires p > 0 && a < p * q
    ensures r < p * q
  {
    SwapFits(a / p, a % p, p, q);
    a % p * q + a / p
  }

  /** (a << n) | (a >> (64 - n)). */
  function Rot(a: Word64, n: nat): Word64 {
    if n < 64 then
      Pow2Of64();
      Pow2Adds(64 - n, n);
      Swap(a, Pow2(64 - n), Pow2(n))
    else
      a
  }
}
