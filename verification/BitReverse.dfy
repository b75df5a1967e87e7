/** Bit reversal by masks and shifts (`BR`), and the permutation it induces on a
    sequence of 2^k elements. */
module BitReverse {
  import opened Bits
  import opened Rings

  const WORD: nat := 0x1_0000_0000

  /** `BR(x, domainPow)`: the low 32 bits are reversed by five exchanges of neighbouring
      halves, bytes, nibbles, pairs and bits, then shifted down. */
  function Br(x: nat, domainPow: nat): nat
    requires x < WORD && domainPow <= 32
  {
    var x := Or(Shr(x, 16), Shl(x, 16));
    var x := Or(Shr(And(x, 0xFF00FF00), 8), Shl(And(x, 0x00FF00FF), 8));
    var x := Or(Shr(And(x, 0xF0F0F0F0), 4), Shl(And(x, 0x0F0F0F0F), 4));
    var x := Or(Shr(And(x, 0xCCCCCCCC), 2), Shl(And(x, 0x33333333), 2));
    Shr(Or(Shr(And(x, 0xAAAAAAAA), 1), Shl(And(x, 0x55555555), 1)), 32 - domainPow)
  }

  // ---------------------------------------------------------------- the masks

  lemma {:induction false} BitConcat(hi: nat, lo: nat, k: nat, i: nat)
    requires lo < Pow2(k)
    ensures Bit(hi * Pow2(k) + lo, i) == if i < k then Bit(lo, i) else Bit(hi, i - k)
    decreases i
  {
    if k > 0 {
      var x := hi * Pow2(k) + lo;
      assert x == 2 * (hi * Pow2(k - 1)) + lo;
      if i > 0 {
        assert x / 2 == hi * Pow2(k - 1) + lo / 2;
        BitConcat(hi, lo / 2, k - 1, i - 1);
      }
    }
  }

  function Word(b3: nat, b2: nat, b1: nat, b0: nat): nat {
    ((b3 * 256 + b2) * 256 + b1) * 256 + b0
  }

  lemma BitOfWord(b3: nat, b2: nat, b1: nat, b0: nat, i: nat)
    requires b3 < 256 && b2 < 256 && b1 < 256 && b0 < 256
    ensures Bit(Word(b3, b2, b1, b0), i) ==
            (i < 32 && Bit([b0, b1, b2, b3][i / 8], i % 8))
  {
    assert Pow2(8) == 256 by { Pow2Words(); }
    BitConcat((b3 * 256 + b2) * 256 + b1, b0, 8, i);
    if i >= 8 {
      BitConcat(b3 * 256 + b2, b1, 8, i - 8);
      if i >= 16 {
        BitConcat(b3, b2, 8, i - 16);
        if i >= 32 { FitsHasNoHighBit(b3, 8, i - 24); }
      }
    }
  }

  /** The bits of the bytes the masks are made of. */
  lemma BitsOfMaskBytes(i: nat)
    requires i < 8
    ensures Bit(0xFF, i) && !Bit(0x00, i)
    ensures Bit(0xF0, i) == (i / 4 == 1) && Bit(0x0F, i) == (i / 4 == 0)
    ensures Bit(0xCC, i) == (i / 2 % 2 == 1) && Bit(0x33, i) == (i / 2 % 2 == 0)
    ensures Bit(0xAA, i) == (i % 2 == 1) && Bit(0x55, i) == (i % 2 == 0)
  {
    BitZero(i);
    if i == 0 {} else if i == 1 {} else if i == 2 {} else if i == 3 {}
    else if i == 4 {} else if i == 5 {} else if i == 6 {} else {}
  }

  /** `m` has, below bit 32, exactly the bits of the odd (`one`) or even blocks of `h` bits. */
  ghost predicate IsMask(m: nat, h: nat, one: bool) {
    h > 0 && forall i: nat :: Bit(m, i) == (i < 32 && (i / h % 2 == 1) == one)
  }

  lemma Masks()
    ensures IsMask(0xFF00FF00, 8, true) && IsMask(0x00FF00FF, 8, false)
    ensures IsMask(0xF0F0F0F0, 4, true) && IsMask(0x0F0F0F0F, 4, false)
    ensures IsMask(0xCCCCCCCC, 2, true) && IsMask(0x33333333, 2, false)
    ensures IsMask(0xAAAAAAAA, 1, true) && IsMask(0x55555555, 1, false)
  {
    forall i: nat
      ensures Bit(0xFF00FF00, i) == (i < 32 && i / 8 % 2 == 1)
      ensures Bit(0x00FF00FF, i) == (i < 32 && i / 8 % 2 == 0)
      ensures Bit(0xF0F0F0F0, i) == (i < 32 && i / 4 % 2 == 1)
      ensures Bit(0x0F0F0F0F, i) == (i < 32 && i / 4 % 2 == 0)
      ensures Bit(0xCCCCCCCC, i) == (i < 32 && i / 2 % 2 == 1)
      ensures Bit(0x33333333, i) == (i < 32 && i / 2 % 2 == 0)
      ensures Bit(0xAAAAAAAA, i) == (i < 32 && i % 2 == 1)
      ensures Bit(0x55555555, i) == (i < 32 && i % 2 == 0)
    {
      MaskBits(i);
    }
    assert forall i: nat {:trigger Bit(0xAAAAAAAA, i)} {:trigger Bit(0x55555555, i)} :: i / 1 == i;
  }

  lemma MaskBits(i: nat)
    ensures Bit(0xFF00FF00, i) == (i < 32 && i / 8 % 2 == 1)
    ensures Bit(0x00FF00FF, i) == (i < 32 && i / 8 % 2 == 0)
    ensures Bit(0xF0F0F0F0, i) == (i < 32 && i / 4 % 2 == 1)
    ensures Bit(0x0F0F0F0F, i) == (i < 32 && i / 4 % 2 == 0)
    ensures Bit(0xCCCCCCCC, i) == (i < 32 && i / 2 % 2 == 1)
    ensures Bit(0x33333333, i) == (i < 32 && i / 2 % 2 == 0)
    ensures Bit(0xAAAAAAAA, i) == (i < 32 && i % 2 == 1)
    ensures Bit(0x55555555, i) == (i < 32 && i % 2 == 0)
  {
    hide Bit;
    BitsOfMaskBytes(i % 8);
    BytePatterns(i);
    BitOfWord(0xFF, 0x00, 0xFF, 0x00, i);
    BitOfWord(0x00, 0xFF, 0x00, 0xFF, i);
    BitOfWord(0xF0, 0xF0, 0xF0, 0xF0, i);
    BitOfWord(0x0F, 0x0F, 0x0F, 0x0F, i);
    BitOfWord(0xCC, 0xCC, 0xCC, 0xCC, i);
    BitOfWord(0x33, 0x33, 0x33, 0x33, i);
    BitOfWord(0xAA, 0xAA, 0xAA, 0xAA, i);
    BitOfWord(0x55, 0x55, 0x55, 0x55, i);
  }

  lemma BytePatterns(i: nat)
    ensures (i % 8 / 4 == 1) == (i / 4 % 2 == 1)
    ensures i % 8 / 2 % 2 == i / 2 % 2
    ensures i % 8 % 2 == i % 2
  {
    var q, r := i / 8, i % 8;
    DivUnique(i, 4, 2 * q + r / 4, r % 4);
    DivUnique(i, 2, 4 * q + r / 2, r % 2);
    DivUnique(2 * q + r / 4, 2, q, r / 4);
    DivUnique(4 * q + r / 2, 2, 2 * q + r / 4, r / 2 % 2);
  }

  // ---------------------------------------------------------------- the exchanges

  /** The index of the bit that an exchange of blocks of `h` bits moves to `i`. */
  function Flip(i: nat, h: nat): nat
    requires h > 0
  {
    if i / h % 2 == 0 then i + h else i - h
  }

  ghost predicate Exchanges(x: nat, y: nat, h: nat) {
    h > 0 && forall i: nat :: i < 32 ==> Bit(y, i) == Bit(x, Flip(i, h))
  }

  lemma ExchangeStep(x: nat, m0: nat, m1: nat, h: nat)
    requires h in {1, 2, 4, 8} && IsMask(m1, h, true) && IsMask(m0, h, false)
    ensures Exchanges(x, Or(Shr(And(x, m1), h), Shl(And(x, m0), h)), h)
    ensures forall i: nat :: i >= 32 ==> !Bit(Or(Shr(And(x, m1), h), Shl(And(x, m0), h)), i)
  {
    var up, down := Shl(And(x, m0), h), Shr(And(x, m1), h);
    forall i: nat
      ensures Bit(Or(down, up), i) == (i < 32 && Bit(x, Flip(i, h)))
    {
      ExchangeBit(x, m0, m1, h, i);
    }
  }

  lemma ExchangeBit(x: nat, m0: nat, m1: nat, h: nat, i: nat)
    requires h in {1, 2, 4, 8} && IsMask(m1, h, true) && IsMask(m0, h, false)
    ensures Bit(Or(Shr(And(x, m1), h), Shl(And(x, m0), h)), i) == (i < 32 && Bit(x, Flip(i, h)))
  {
    hide Bit, Shr, Shl, And, Or;
    BitOr(Shr(And(x, m1), h), Shl(And(x, m0), h), i);
    BitShr(And(x, m1), h, i);
    BitShl(And(x, m0), h, i);
    BitAnd(x, m1, i + h);
    if i >= h { BitAnd(x, m0, i - h); }
    NextBlock(i, h);
  }

  lemma NextBlock(i: nat, h: nat)
    requires h in {1, 2, 4, 8}
    ensures (i + h) / h % 2 == 1 - i / h % 2
    ensures i >= h ==> (i - h) / h % 2 == 1 - i / h % 2
    ensures i < h ==> i / h % 2 == 0
    ensures i < 32 && i / h % 2 == 0 ==> i + h < 32
    ensures 32 <= i < 32 + h ==> i / h % 2 == 0
  {
    BlockOf(i, h);
    Parity(i / h);
    BlockEdges(i, h);
  }

  lemma Parity(q: int)
    ensures (q + 1) % 2 == 1 - q % 2 && (q - 1) % 2 == 1 - q % 2
  {
  }

  /** Where the blocks of a word start and end. */
  lemma BlockEdges(i: nat, h: nat)
    requires h in {1, 2, 4, 8}
    ensures i < h ==> i / h % 2 == 0
    ensures i < 32 && i / h % 2 == 0 ==> i + h < 32
    ensures 32 <= i < 32 + h ==> i / h % 2 == 0
  {
    if h == 1 {} else if h == 2 {} else if h == 4 {} else {}
  }

  lemma BlockOf(i: nat, h: nat)
    requires h > 0
    ensures (i + h) / h == i / h + 1 && (i >= h ==> (i - h) / h == i / h - 1)
  {
    var q, r := i / h, i % h;
    DivMod(i, h);
    ProductOfSum(q, 1, h);
    DivUnique(i + h, h, q + 1, r);
    if i >= h {
      ProductOfSum(q, -1, h);
      DivUnique(i - h, h, q - 1, r);
    }
  }

  lemma FlipAll(i: nat)
    requires i < 32
    ensures Flip(i, 1) < 32
    ensures Flip(Flip(i, 1), 2) < 32
    ensures Flip(Flip(Flip(i, 1), 2), 4) < 32
    ensures Flip(Flip(Flip(Flip(i, 1), 2), 4), 8) < 32
    ensures var j := Flip(Flip(Flip(Flip(i, 1), 2), 4), 8);
            (if j < 16 then j + 16 else j - 16) == 31 - i
  {
    hide Flip;
    FlipLow(i);
    var b := Flip(Flip(i, 1), 2);
    DivUnique(b, 4, i / 4, 3 - i % 4);
    DivUnique(b, 16, i / 16, i % 16 / 4 * 4 + (3 - i % 4));
    assert i / 4 % 4 == i % 16 / 4;
    FlipHigh(b);
    Mirrored(i);
  }

  lemma Mirrored(i: nat)
    requires i < 32
    ensures var j := i / 16 * 16 + (3 - i / 4 % 4) * 4 + (3 - i % 4);
            (if j < 16 then j + 16 else j - 16) == 31 - i
  {
  }

  lemma FlipLow(i: nat)
    requires i < 32
    ensures Flip(i, 1) < 32
    ensures Flip(Flip(i, 1), 2) == i / 4 * 4 + (3 - i % 4)
  {
  }

  lemma FlipHigh(j: nat)
    requires j < 32
    ensures Flip(j, 4) < 32 && Flip(Flip(j, 4), 8) == j / 16 * 16 + (3 - j / 4 % 4) * 4 + j % 4
  {
  }

  /** `BR` reverses the low `domainPow` bits and clears the rest. */
  lemma BrReversesBits(x: nat, domainPow: nat, i: nat)
    requires x < Pow2(domainPow) && x < WORD && domainPow <= 32
    ensures Bit(Br(x, domainPow), i) == (i < domainPow && Bit(x, domainPow - 1 - i))
  {
    hide Bit, Shr, Shl, And, Or, Flip, Pow2;
    Masks();
    var x1 := Or(Shr(x, 16), Shl(x, 16));
    ExchangeStep(x1, 0x00FF00FF, 0xFF00FF00, 8);
    var x2 := Or(Shr(And(x1, 0xFF00FF00), 8), Shl(And(x1, 0x00FF00FF), 8));
    ExchangeStep(x2, 0x0F0F0F0F, 0xF0F0F0F0, 4);
    var x3 := Or(Shr(And(x2, 0xF0F0F0F0), 4), Shl(And(x2, 0x0F0F0F0F), 4));
    ExchangeStep(x3, 0x33333333, 0xCCCCCCCC, 2);
    var x4 := Or(Shr(And(x3, 0xCCCCCCCC), 2), Shl(And(x3, 0x33333333), 2));
    ExchangeStep(x4, 0x55555555, 0xAAAAAAAA, 1);
    var x5 := Or(Shr(And(x4, 0xAAAAAAAA), 1), Shl(And(x4, 0x55555555), 1));
    var p := i + (32 - domainPow);
    BitShr(x5, 32 - domainPow, i);
    assert Bit(Br(x, domainPow), i) == Bit(x5, p);
    if p < 32 {
      FlipAll(p);
      var j := Flip(Flip(Flip(Flip(p, 1), 2), 4), 8);
      assert Bit(x5, p) == Bit(x4, Flip(p, 1)) == Bit(x3, Flip(Flip(p, 1), 2));
      assert Bit(x5, p) == Bit(x1, j);
      HalvesSwap(x, j);
    }
  }

  lemma HalvesSwap(x: nat, j: nat)
    requires x < WORD && j < 32
    ensures Bit(Or(Shr(x, 16), Shl(x, 16)), j) == Bit(x, if j < 16 then j + 16 else j - 16)
  {
    hide Bit, Shr, Shl, Or, Pow2;
    BitOr(Shr(x, 16), Shl(x, 16), j);
    BitShr(x, 16, j);
    BitShl(x, 16, j);
    if j >= 16 {
      assert x < Pow2(32) by { Pow2Words(); }
      FitsHasNoHighBit(x, 32, j + 16);
    }
  }

  // ---------------------------------------------------------------- the permutation

  lemma BrFits(x: nat, k: nat)
    requires x < Pow2(k) && x < WORD && k <= 32
    ensures Br(x, k) < Pow2(k)
  {
    hide Br;
    forall i: nat | i >= k ensures !Bit(Br(x, k), i) { BrReversesBits(x, k, i); }
    NoHighBitFits(Br(x, k), k);
  }

  lemma FitsWord(x: nat, k: nat)
    requires x < Pow2(k) && k <= 32
    ensures x < WORD
  {
    Pow2Monotonic(k, 32);
    Pow2Words();
  }

  lemma BrInvolution(x: nat, k: nat)
    requires x < Pow2(k) && x < WORD && k <= 32
    ensures Br(x, k) < Pow2(k) && Br(x, k) < WORD && Br(Br(x, k), k) == x
  {
    hide Br, Bit;
    BrFits(x, k);
    var y := Br(x, k);
    FitsWord(y, k);
    forall i: nat ensures Bit(Br(y, k), i) == Bit(x, i) {
      BrReversesBits(y, k, i);
      if i < k {
        BrReversesBits(x, k, k - 1 - i);
      } else {
        FitsHasNoHighBit(x, k, i);
      }
    }
    SameBits(Br(y, k), x);
  }

  /** The recursion that bit reversal obeys: the top bit becomes the bottom bit. */
  lemma BrStep(x: nat, k: nat)
    requires 0 < k <= 32 && x < Pow2(k) && x < WORD
    ensures x < Pow2(k - 1) ==> Br(x, k) == 2 * Br(x, k - 1)
    ensures x >= Pow2(k - 1) ==> Br(x, k) == 2 * Br(x - Pow2(k - 1), k - 1) + 1
  {
    hide Br;
    var h := Pow2(k - 1);
    assert Pow2(k) == 2 * h;
    var top := x >= h;
    var low := if top then x - h else x;
    var y := 2 * Br(low, k - 1) + BoolToNat(top);
    forall i: nat ensures Bit(Br(x, k), i) == Bit(y, i) {
      BrReversesBits(x, k, i);
      assert x == BoolToNat(top) * h + low;
      if i < k { BitConcat(BoolToNat(top), low, k - 1, k - 1 - i); }
      if i > 0 {
        assert y / 2 == Br(low, k - 1);
        assert Bit(y, i) == Bit(Br(low, k - 1), i - 1);
        BrReversesBits(low, k - 1, i - 1);
      }
    }
    SameBits(Br(x, k), y);
  }

  /** The permutation, defined without indices: even places first, recursively. */
  function BitReversed<T>(a: seq<T>): (r: seq<T>)
    ensures |r| == |a|
    decreases |a|
  {
    if |a| < 2 then a
    else
      assert |Even(a)| < |a|;
      BitReversed(Even(a)) + BitReversed(Odd(a))
  }

  lemma {:induction false} BitReversedAt<T>(a: seq<T>, k: nat, p: nat)
    requires k <= 32 && |a| == Pow2(k) && p < |a| && p < WORD
    ensures Br(p, k) < |a| && BitReversed(a)[p] == a[Br(p, k)]
    decreases k
  {
    hide Br;
    BrFits(p, k);
    if k > 0 {
      var h := Pow2(k - 1);
      BrStep(p, k);
      if p < h { BitReversedAt(Even(a), k - 1, p); } else { BitReversedAt(Odd(a), k - 1, p - h); }
    }
  }
}
