/** Bitwise operators on natural numbers, and what each of them does to every bit.
    A machine word is a natural number below a power of two; shifts that would drop
    bits of a word are followed by an explicit `% Pow2(width)`. */
module Bits {

  function Pow2(n: nat): (r: nat)
    ensures r > 0
  {
    if n == 0 then 1 else 2 * Pow2(n - 1)
  }

  /** The `i`-th bit of `x`, counted from the least significant one. */
  predicate Bit(x: nat, i: nat) {
    if i == 0 then x % 2 == 1 else Bit(x / 2, i - 1)
  }

  function BoolToNat(b: bool): nat {
    if b then 1 else 0
  }

  /** `x >> k` */
  function Shr(x: nat, k: nat): nat {
    if k == 0 then x else Shr(x / 2, k - 1)
  }

  /** `x << k` on an unbounded integer */
  function Shl(x: nat, k: nat): (r: nat)
    ensures x > 0 ==> r > 0
  {
    if k == 0 then x else 2 * Shl(x, k - 1)
  }

  /** `x & y` */
  function And(x: nat, y: nat): nat {
    if x == 0 then 0 else (if x % 2 == 1 && y % 2 == 1 then 1 else 0) + 2 * And(x / 2, y / 2)
  }

  /** `x | y` */
  function Or(x: nat, y: nat): nat
    decreases x + y
  {
    if x == 0 then y else if y == 0 then x
    else (if x % 2 == 1 || y % 2 == 1 then 1 else 0) + 2 * Or(x / 2, y / 2)
  }

  // ---------------------------------------------------------------- products

  lemma ProductAssoc(a: int, b: int, c: int)
    ensures a * (b * c) == (a * b) * c
  {
  }

  lemma ProductOfSum(a: int, b: int, c: int)
    ensures (a + b) * c == a * c + b * c
  {
  }

  /** A factor two moves out of a product. */
  lemma ProductDouble(a: int, b: int)
    ensures a * (2 * b) == 2 * (a * b)
  {
  }

  lemma ProductNotNegative(a: nat, b: nat)
    ensures a * b >= 0
  {
  }

  lemma ProductsOrdered(x: nat, y: nat, c: nat)
    requires x <= y
    ensures x * c <= y * c
  {
    ProductOfSum(y - x, x, c);
    ProductNotNegative(y - x, c);
  }

  // ---------------------------------------------------------------- bits

  lemma {:induction false} BitZero(i: nat)
    ensures !Bit(0, i)
  {
    if i > 0 { BitZero(i - 1); }
  }

  lemma {:induction false} BitShr(x: nat, k: nat, i: nat)
    ensures Bit(Shr(x, k), i) == Bit(x, i + k)
    decreases k
  {
    if k > 0 { BitShr(x / 2, k - 1, i); }
  }

  lemma {:induction false} ShrShr(x: nat, a: nat, b: nat)
    ensures Shr(Shr(x, a), b) == Shr(x, a + b)
    decreases a
  {
    if a > 0 { ShrShr(x / 2, a - 1, b); }
  }

  lemma {:induction false} BitShl(x: nat, k: nat, i: nat)
    ensures Bit(Shl(x, k), i) == (i >= k && Bit(x, i - k))
    decreases k
  {
    if k > 0 && i > 0 {
      assert Shl(x, k) / 2 == Shl(x, k - 1);
      BitShl(x, k - 1, i - 1);
    }
  }

  lemma {:induction false} BitAnd(x: nat, y: nat, i: nat)
    ensures Bit(And(x, y), i) == (Bit(x, i) && Bit(y, i))
    decreases i
  {
    if x == 0 {
      BitZero(i);
    } else {
      if i > 0 { BitAnd(x / 2, y / 2, i - 1); }
    }
  }

  lemma {:induction false} BitOr(x: nat, y: nat, i: nat)
    ensures Bit(Or(x, y), i) == (Bit(x, i) || Bit(y, i))
    decreases i
  {
    if x == 0 || y == 0 {
      BitZero(i);
    } else if i > 0 {
      BitOr(x / 2, y / 2, i - 1);
    }
  }

  lemma {:induction false} BitOne(k: nat, i: nat)
    ensures Bit(Shl(1, k), i) == (i == k)
  {
    BitShl(1, k, i);
    if i > k { assert Bit(1, i - k) == Bit(0, i - k - 1); BitZero(i - k - 1); }
  }

  /** Two numbers with the same bits are equal. */
  lemma {:induction false} SameBits(x: nat, y: nat)
    requires forall i: nat :: Bit(x, i) == Bit(y, i)
    ensures x == y
    decreases x + y
  {
    assert Bit(x, 0) == Bit(y, 0);
    if x != 0 || y != 0 {
      forall i: nat ensures Bit(x / 2, i) == Bit(y / 2, i) {
        assert Bit(x, i + 1) == Bit(y, i + 1);
      }
      SameBits(x / 2, y / 2);
    }
  }

  /** `x` fits `n` bits exactly when no bit from `n` on is set. */
  lemma {:induction false} FitsHasNoHighBit(x: nat, n: nat, i: nat)
    requires x < Pow2(n) && i >= n
    ensures !Bit(x, i)
  {
    if n == 0 {
      BitZero(i);
    } else {
      FitsHasNoHighBit(x / 2, n - 1, i - 1);
    }
  }

  lemma {:induction false} NoHighBitFits(x: nat, n: nat)
    requires forall i: nat :: i >= n ==> !Bit(x, i)
    ensures x < Pow2(n)
  {
    if n == 0 {
      if x > 0 { HasBit(x); }
    } else {
      forall i: nat | i >= n - 1 ensures !Bit(x / 2, i) { assert Bit(x, i + 1) == Bit(x / 2, i); }
      NoHighBitFits(x / 2, n - 1);
    }
  }

  lemma {:induction false} HasBit(x: nat)
    requires x > 0
    ensures exists i: nat :: Bit(x, i)
  {
    if x % 2 == 1 {
      assert Bit(x, 0);
    } else {
      HasBit(x / 2);
      var i: nat :| Bit(x / 2, i);
      assert Bit(x, i + 1);
    }
  }

  lemma {:induction false} Pow2Add(a: nat, b: nat)
    ensures Pow2(a + b) == Pow2(a) * Pow2(b)
  {
    if a > 0 {
      Pow2Add(a - 1, b);
      ProductAssoc(2, Pow2(a - 1), Pow2(b));
    }
  }

  lemma Pow2Zero()
    ensures Pow2(0) == 1
  {
  }

  lemma Pow2Half(n: nat)
    requires n > 0
    ensures Pow2(n) == 2 * Pow2(n - 1)
  {
  }

  lemma Pow2Words()
    ensures Pow2(8) == 0x100 && Pow2(32) == 0x1_0000_0000 && Pow2(64) == 0x1_0000_0000_0000_0000
  {
    assert Pow2(4) == 16;
    Pow2Add(4, 4); Pow2Add(8, 8); Pow2Add(16, 16); Pow2Add(32, 32);
  }

  lemma {:induction false} Pow2Monotonic(a: nat, b: nat)
    requires a <= b
    ensures Pow2(a) <= Pow2(b)
  {
    if a < b { Pow2Monotonic(a, b - 1); }
  }

  lemma {:induction false} ShrDivides(x: nat, k: nat)
    ensures Shr(x, k) == x / Pow2(k)
  {
    if k > 0 {
      ShrDivides(x / 2, k - 1);
      DivDiv(x, 2, Pow2(k - 1));
    }
  }

  lemma {:induction false} ShlMultiplies(x: nat, k: nat)
    ensures Shl(x, k) == x * Pow2(k)
  {
    if k > 0 {
      ShlMultiplies(x, k - 1);
      ProductDouble(x, Pow2(k - 1));
    }
  }

  /** Dividing twice is dividing by the product. */
  lemma DivDiv(x: nat, a: nat, b: nat)
    requires a > 0 && b > 0
    ensures a * b > 0
    ensures x / a / b == x / (a * b)
  {
    var h, s := x / a, x % a;
    var q, r := h / b, h % b;
    DivMod(x, a);
    DivMod(h, b);
    ProductOfSum(q * b, r, a);
    ProductAssoc(q, b, a);
    ProductsOrdered(r, b - 1, a);
    ProductOfSum(b - 1, 1, a);
    ProductNotNegative(r, a);
    DivUnique(x, a * b, q, r * a + s);
  }

  lemma DivUnique(x: int, d: int, q: int, r: int)
    requires d > 0 && x == q * d + r && 0 <= r < d
    ensures x / d == q && x % d == r
  {
    DivMod(x, d);
    MultipleBelow(d, x / d - q, r - x % d);
  }

  lemma DivMod(x: int, d: int)
    requires d > 0
    ensures x == x / d * d + x % d && 0 <= x % d < d
  {
  }

  /** A multiple of `d` strictly between `-d` and `d` is zero. */
  lemma MultipleBelow(d: int, k: int, m: int)
    requires d > 0 && k * d == m && -d < m < d
    ensures k == 0
  {
    if k > 0 {
      TimesPositive(k, d);
    } else if k < 0 {
      TimesPositive(-k, d);
    }
  }

  lemma TimesPositive(k: int, d: int)
    requires k > 0 && d > 0
    ensures k * d >= d
  {
  }

  /** Masking with 2^n - 1 is taking the remainder. */
  lemma {:induction false} AndMask(x: nat, n: nat)
    ensures Pow2(n) > 0 && And(x, Pow2(n) - 1) == x % Pow2(n)
  {
    hide And, Pow2;
    if n == 0 {
      AndZero(x);
      Pow2Zero();
      DivUnique(x, 1, x, 0);
    } else if x == 0 {
      ZeroAnd(Pow2(n) - 1);
      DivUnique(0, Pow2(n), 0, 0);
    } else {
      Pow2Half(n);
      AndMask(x / 2, n - 1);
      AndOdd(x, Pow2(n - 1) - 1);
      HalveMod(x, Pow2(n - 1));
    }
  }

  lemma ZeroAnd(y: nat)
    ensures And(0, y) == 0
  {
  }

  /** Masking with an odd number keeps the low bit. */
  lemma AndOdd(x: nat, half: nat)
    requires x > 0
    ensures And(x, 2 * half + 1) == x % 2 + 2 * And(x / 2, half)
  {
    assert (2 * half + 1) / 2 == half;
  }

  lemma {:induction false} AndZero(x: nat)
    ensures And(x, 0) == 0
  {
    if x > 0 { AndZero(x / 2); }
  }

  lemma HalveMod(x: nat, d: nat)
    requires d > 0
    ensures x % (2 * d) == x % 2 + 2 * (x / 2 % d)
  {
    var h := x / 2;
    var q, r := h / d, h % d;
    DivMod(h, d);
    ProductDouble(q, d);
    DivUnique(x, 2 * d, q, 2 * r + x % 2);
  }
}
