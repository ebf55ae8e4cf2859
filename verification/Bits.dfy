/** Bit operations of C on unsigned values, as functions on natural numbers. */
module Bits {
  const WORD32: nat := 0x1_0000_0000   // unsigned 32-bit arithmetic is modulo this

  function Max(a: int, b: int): int { if a > b then a else b }

  /** The bitwise "and" of two unsigned values, one binary digit at a time. */
  function And(x: nat, y: nat): nat
    decreases x
  {
    if x == 0 || y == 0 then 0
    else 2 * And(x / 2, y / 2) + (if x % 2 == 1 && y % 2 == 1 then 1 else 0)
  }

  function Pow2(k: nat): (p: nat)
    ensures p > 0
  {
    if k == 0 then 1 else 2 * Pow2(k - 1)
  }

  /** The larger of two numbers. */
  lemma MaxIs(a: int, b: int)
    ensures Max(a, b) >= a && Max(a, b) >= b && (Max(a, b) == a || Max(a, b) == b)
  {
  }

  lemma Powers()
    ensures Pow2(0) == 1 && Pow2(1) == 2 && Pow2(2) == 4 && Pow2(3) == 8
    ensures Pow2(4) == 16 && Pow2(5) == 32 && Pow2(6) == 64 && Pow2(7) == 128 && Pow2(8) == 256
  {
    assert Pow2(3) == 8 && Pow2(6) == 8 * Pow2(3) && Pow2(8) == 4 * Pow2(6);
  }

  ghost predicate IsPow2(n: nat) { exists k: nat :: n == Pow2(k) }

  lemma AndOdd(x: nat, y: nat)
    ensures And(x, 2 * y + 1) == 2 * And(x / 2, y) + x % 2 && And(x, 0) == 0
  {
    var z := 2 * y + 1;
    assert z / 2 == y && z % 2 == 1;
  }

  /** Masking with 2^k - 1 takes the remainder modulo 2^k: `x & (csize - 1)`, `x & ring_mask`. */
  lemma {:induction false} MaskIsMod(x: nat, k: nat)
    ensures And(x, Pow2(k) - 1) == x % Pow2(k)
    decreases k
  {
    hide And;
    if k == 0 {
      AndOdd(x, 0);
    } else {
      var p := Pow2(k - 1);
      MaskIsMod(x / 2, k - 1);
      AndOdd(x, p - 1);
      HalfMod(x, p);
    }
  }

  /** x % 2p in terms of (x / 2) % p. */
  lemma HalfMod(x: nat, p: nat)
    requires p > 0
    ensures x % (2 * p) == 2 * ((x / 2) % p) + x % 2
  {
    var h := x / 2;
    var q, r := h / p, h % p;
    assert x == 2 * h + x % 2 && h == q * p + r;
    assert x == q * (2 * p) + (2 * r + x % 2);
    DivUnique(x, 2 * p, q, 2 * r + x % 2);
  }

  lemma MulMono(a: int, b: int, d: nat)
    requires a <= b
    ensures a * d <= b * d
  {
    assert (b - a) * d >= 0;
    assert b * d == a * d + (b - a) * d;
  }

  lemma DivMod(x: nat, d: nat)
    requires d > 0
    ensures x == x / d * d + x % d && 0 <= x % d < d && x / d >= 0
  {
  }

  /** Quotient and remainder are unique. */
  lemma DivUnique(x: int, d: nat, q: int, r: int)
    requires d > 0 && 0 <= r < d && x == q * d + r
    ensures x / d == q && x % d == r
  {
    var q' := x / d;
    assert x == q' * d + x % d;
    if q' < q {
      assert (q' + 1) * d == q' * d + d;
      MulMono(q' + 1, q, d);
    } else if q < q' {
      assert (q + 1) * d == q * d + d;
      MulMono(q + 1, q', d);
    }
  }

  /** The bitwise "exclusive or". */
  function Xor(x: nat, y: nat): nat
    decreases x + y
  {
    if x == 0 && y == 0 then 0
    else 2 * Xor(x / 2, y / 2) + (if x % 2 != y % 2 then 1 else 0)
  }

  /** Binary digit k of x. */
  predicate Bit(x: nat, k: nat)
    decreases k
  {
    if k == 0 then x % 2 == 1 else Bit(x / 2, k - 1)
  }

  /** Binary digit k is the remainder by two of the quotient by 2^k. */
  lemma {:induction false} BitIs(x: nat, k: nat)
    ensures Bit(x, k) <==> x / Pow2(k) % 2 == 1
    decreases k
  {
    if k > 0 {
      BitIs(x / 2, k - 1);
      HalfDiv(x, Pow2(k - 1));
    }
  }

  lemma HalfDiv(x: nat, p: nat)
    requires p > 0
    ensures x / (2 * p) == x / 2 / p
  {
    var h := x / 2;
    DivMod(h, p);
    DivUnique(x, 2 * p, h / p, 2 * (h % p) + x % 2);
  }

  /** The bitwise "and", digit by digit. */
  lemma {:induction false} AndDigit(x: nat, y: nat, k: nat)
    ensures Bit(And(x, y), k) <==> Bit(x, k) && Bit(y, k)
    decreases k
  {
    if x == 0 || y == 0 {
      ZeroBit(k);
    } else if k > 0 {
      AndDigit(x / 2, y / 2, k - 1);
      assert And(x, y) / 2 == And(x / 2, y / 2);
    }
  }

  lemma {:induction false} ZeroBit(k: nat)
    ensures !Bit(0, k)
    decreases k
  {
    if k > 0 { ZeroBit(k - 1); }
  }

  /** `x & (1 << k)` tells digit k. */
  lemma {:induction false} AndBit(x: nat, k: nat)
    ensures And(x, Pow2(k)) != 0 <==> Bit(x, k)
    decreases k
  {
    if x == 0 {
      ZeroBit(k);
    } else if k == 0 {
      assert And(x, 1) == 2 * And(x / 2, 0) + x % 2;
    } else {
      assert Pow2(k) / 2 == Pow2(k - 1) && Pow2(k) % 2 == 0;
      AndBit(x / 2, k - 1);
    }
  }

  /** `x ^ (1 << k)` changes digit k only. */
  lemma {:induction false} XorBit(x: nat, k: nat, j: nat)
    ensures Bit(Xor(x, Pow2(k)), j) <==> (Bit(x, j) != (j == k))
    decreases k + j
  {
    if k == 0 {
      XorZero(x / 2);
      assert Xor(x, 1) == 2 * (x / 2) + (1 - x % 2);
    } else {
      assert Pow2(k) / 2 == Pow2(k - 1) && Pow2(k) % 2 == 0;
      assert Xor(x, Pow2(k)) == 2 * Xor(x / 2, Pow2(k - 1)) + x % 2;
      if j > 0 { XorBit(x / 2, k - 1, j - 1); }
    }
  }

  lemma {:induction false} XorZero(x: nat)
    ensures Xor(x, 0) == x
    decreases x
  {
    if x > 0 { XorZero(x / 2); }
  }

  /** Digits below n stay below n. */
  lemma {:induction false} XorBound(x: nat, y: nat, n: nat)
    requires x < Pow2(n) && y < Pow2(n)
    ensures Xor(x, y) < Pow2(n)
    decreases n
  {
    if n > 0 && (x > 0 || y > 0) { XorBound(x / 2, y / 2, n - 1); }
  }
}
