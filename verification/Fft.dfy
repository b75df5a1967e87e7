/** The in-place radix-2 transform: construction of the root table, bit-reversal permutation,
    butterflies, and the inverse. */
module Ffts {
  import opened Bits
  import opened Groups
  import opened Rings
  import opened BitReverse
  import opened Dfts

  // ---------------------------------------------------------------- the field

  /** A field of odd prime order, with the inverse of two. */
  datatype PrimeField<!T> = PrimeField(ring: Ring<T>, order: nat, half: T)

  function FromNat<T>(F: PrimeField<T>, n: nat): T {
    Times(F.ring.Plus(), n, F.ring.one)
  }

  ghost predicate NoZeroDivisorAt<T>(R: Ring<T>, x: T, y: T) {
    R.mul(x, y) == R.zero ==> x == R.zero || y == R.zero
  }

  ghost predicate FermatAt<T>(F: PrimeField<T>, x: T)
    requires F.order > 0
  {
    x != F.ring.zero ==> Pow(F.ring, x, F.order - 1) == F.ring.one
  }

  /** `n` is not a square, by Euler's criterion. */
  predicate NonResidue<T(==)>(F: PrimeField<T>, n: nat) {
    Pow(F.ring, FromNat(F, n), F.order / 2) != F.ring.one
  }

  ghost predicate SomeNonResidue<T>(F: PrimeField<T>) {
    exists n: nat :: 2 <= n < F.order && NonResidue(F, n)
  }

  /** The facts about a prime field of odd order that the construction relies on. */
  ghost predicate IsPrimeField<T(!new)>(F: PrimeField<T>) {
    var R := F.ring;
    && Commutative(R)
    && F.order % 2 == 1 && F.order > 2
    && (forall x, y :: NoZeroDivisorAt(R, x, y))
    && (forall x :: FermatAt(F, x))
    && (forall n: nat :: 0 < n < F.order ==> FromNat(F, n) != R.zero)
    && SomeNonResidue(F)
    && R.add(F.half, F.half) == R.one
  }

  /** The only square roots of one are ±1. */
  lemma SquareRootOfOne<T(!new)>(R: Ring<T>, y: T)
    requires Commutative(R) && (forall x, y :: NoZeroDivisorAt(R, x, y))
    requires R.mul(y, y) == R.one && y != R.one
    ensures y == R.neg(R.one)
  {
    var G, d := R.Plus(), R.sub(y, R.one);
    Distributes(R, R.add(y, R.one), y, R.neg(R.one));
    Distributes(R, y, y, R.one);
    MulOne(R, y);
    MulNeg(R, R.add(y, R.one), R.one);
    MulOne(R, R.add(y, R.one));
    assert R.mul(R.add(y, R.one), d) == R.zero by {
      Comm(G, y, R.one);
      assert NegAt(G, R.add(y, R.one));
    }
    assert NoZeroDivisorAt(R, R.add(y, R.one), d);
    if d == R.zero {
      CancelNeg(G, y, R.one);
      AddZero(G, R.one);
      assert false;
    }
    Comm(G, y, R.one);
    UniqueNeg(G, R.one, y);
  }

  /** A non-residue raised to half the order minus one is minus one. */
  lemma EulerCriterion<T(!new)>(F: PrimeField<T>, n: nat)
    requires IsPrimeField(F) && 0 < n < F.order && NonResidue(F, n)
    ensures Pow(F.ring, FromNat(F, n), F.order / 2) == F.ring.neg(F.ring.one)
  {
    var R, x, e := F.ring, FromNat(F, n), F.order / 2;
    PowAdd(R, x, e, e);
    assert e + e == F.order - 1;
    assert FermatAt(F, x);
    SquareRootOfOne(R, Pow(R, x, e));
  }

  // ---------------------------------------------------------------- the constructor's searches

  /** `log2`, by repeated halving */
  method Log2(n: nat) returns (res: nat)
    requires n > 0
    ensures Pow2(res) <= n < Pow2(res + 1)
  {
    var m := n;
    res := 0;
    while m != 1
      invariant m > 0
      invariant m * Pow2(res) <= n < (m + 1) * Pow2(res)
      decreases m
    {
      HalvingStep(n, m, Pow2(res));
      m := m / 2;
      res := res + 1;
    }
  }

  ghost predicate FloorLog2(n: nat, k: nat) {
    Pow2(k) <= n < Pow2(k + 1)
  }

  lemma HalvingStep(n: nat, m: nat, p: nat)
    requires m * p <= n < (m + 1) * p
    ensures m / 2 * (2 * p) <= n < (m / 2 + 1) * (2 * p)
  {
    assert m / 2 * (2 * p) == (m / 2 * 2) * p <= m * p;
    assert (m / 2 + 1) * (2 * p) == (m / 2 * 2 + 2) * p >= (m + 1) * p;
  }

  lemma Log2Exact(k: nat, res: nat)
    requires Pow2(res) <= Pow2(k) < Pow2(res + 1)
    ensures res == k
  {
    if res < k {
      Pow2Monotonic(res + 1, k);
    } else if k < res {
      Pow2Monotonic(k + 1, res);
    }
  }

  /** Counting up from two, the first non-residue */
  method FindNonResidue<T(!new, ==)>(F: PrimeField<T>) returns (nqr: nat)
    requires IsPrimeField(F)
    ensures 2 <= nqr < F.order && NonResidue(F, nqr)
    ensures forall n: nat :: 2 <= n < nqr ==> !NonResidue(F, n)
  {
    ghost var known: nat :| 2 <= known < F.order && NonResidue(F, known);
    nqr := 2;
    while Pow(F.ring, FromNat(F, nqr), F.order / 2) == F.ring.one
      invariant 2 <= nqr <= known
      invariant forall n: nat :: 2 <= n < nqr ==> !NonResidue(F, n)
      decreases known - nqr
    {
      assert !NonResidue(F, nqr);
      nqr := nqr + 1;
    }
  }

  /** Powers of two are split off `order - 1`, the first one always, the others only as far as
      the domain needs. */
  method SplitOrder(order: nat, domainPow: nat) returns (s: nat, rest: nat)
    requires order > 2 && order % 2 == 1
    ensures s >= 1 && rest * Pow2(s) == order - 1
    ensures s <= domainPow || s == 1
    ensures s < domainPow <==> (order - 1) % Pow2(domainPow) != 0
  {
    s, rest := 1, order / 2;
    while rest % 2 == 0 && s < domainPow
      invariant s >= 1 && rest * Pow2(s) == order - 1
      invariant s <= domainPow || s == 1
      decreases rest
    {
      assert rest / 2 * (2 * Pow2(s)) == rest / 2 * 2 * Pow2(s);
      if rest == 0 { assert false; }
      rest, s := rest / 2, s + 1;
    }
    SplitDivides(order - 1, s, rest, domainPow);
  }

  lemma SplitDivides(n: nat, s: nat, rest: nat, d: nat)
    requires rest * Pow2(s) == n && s >= 1
    requires s <= d || s == 1
    requires !(rest % 2 == 0 && s < d)
    ensures s < d <==> n % Pow2(d) != 0
  {
    if s < d {
      Pow2Add(s, d - s);
      var p, half := Pow2(s), Pow2(d - s - 1);
      assert Pow2(d - s) == 2 * half;
      if n % Pow2(d) == 0 {
        EvenRest(n, rest, p, half);
        assert false;
      }
    } else if d == s {
      DivUnique(n, Pow2(d), rest, 0);
    } else {
      assert d == 0 && s == 1;
      DivUnique(n, 1, n, 0);
    }
  }

  lemma EvenRest(n: nat, rest: nat, p: nat, half: nat)
    requires p > 0 && half > 0 && n == rest * p && n % (p * (2 * half)) == 0
    ensures rest % 2 == 0
  {
    var t := n / (p * (2 * half));
    assert n == t * (p * (2 * half)) by { DivMod(n, p * (2 * half)); }
    Reassociate(t, p, half);
    DivUnique(n, p, 2 * (t * half), 0);
    DivUnique(n, p, rest, 0);
  }

  lemma Reassociate(t: nat, p: nat, half: nat)
    ensures t * (p * (2 * half)) == (2 * (t * half)) * p
  {
    assert p * (2 * half) == (2 * half) * p;
    assert t * ((2 * half) * p) == (t * (2 * half)) * p;
    assert t * (2 * half) == 2 * (t * half);
  }

  // ---------------------------------------------------------------- one stage of butterflies

  /** The first index of the i-th butterfly when blocks have 2·h entries */
  function Lo(i: nat, h: nat): nat
    requires h > 0
  {
    i / h * (2 * h) + i % h
  }

  lemma LoAt(c: nat, j: nat, h: nat)
    requires j < h
    ensures Lo(c * h + j, h) == c * (2 * h) + j
  {
    DivUnique(c * h + j, h, c, j);
  }

  /** Different butterflies touch different entries. */
  lemma LoDistinct(i: nat, j: nat, h: nat)
    requires h > 0 && i != j
    ensures Lo(i, h) != Lo(j, h) && Lo(i, h) + h != Lo(j, h) && Lo(j, h) + h != Lo(i, h)
  {
    LoSplit(i, h);
    LoSplit(j, h);
    assert i == i / h * h + i % h && j == j / h * h + j % h by { DivMod(i, h); DivMod(j, h); }
  }

  lemma LoSplit(i: nat, h: nat)
    requires h > 0
    ensures Lo(i, h) / (2 * h) == i / h == (Lo(i, h) + h) / (2 * h)
    ensures Lo(i, h) % (2 * h) == i % h && (Lo(i, h) + h) % (2 * h) == i % h + h
  {
    DivMod(i, h);
    DivUnique(Lo(i, h), 2 * h, i / h, i % h);
    DivUnique(Lo(i, h) + h, 2 * h, i / h, i % h + h);
  }

  /** m·c <= i exactly when m <= i / c */
  lemma MultipleBound(i: nat, c: nat, m: nat)
    requires c > 0
    ensures m * c <= i <==> m <= i / c
  {
    var q := i / c;
    assert i == q * c + i % c && i % c < c by { DivMod(i, c); }
    if m <= q {
      ProductsOrdered(m, q, c);
    } else {
      ProductsOrdered(q + 1, m, c);
      assert (q + 1) * c == q * c + c;
    }
  }

  lemma LoBound(i: nat, h: nat, k: nat)
    requires h > 0 && k > 0 && Pow2(k) % (2 * h) == 0 && i < Pow2(k - 1)
    ensures Lo(i, h) + h < Pow2(k)
  {
    var c := Pow2(k) / (2 * h);
    assert Pow2(k) == c * (2 * h) by { DivMod(Pow2(k), 2 * h); }
    HalfOfBlocks(c, h);
    hide Pow2;
    MultipleBound(i, h, c);
    ProductsOrdered(i / h + 1, c, 2 * h);
    NextBlock(i / h, h);
    DivMod(i, h);
  }

  lemma HalfOfBlocks(c: nat, h: nat)
    ensures c * (2 * h) == 2 * (c * h)
  {
  }

  lemma NextBlock(q: nat, h: nat)
    ensures (q + 1) * (2 * h) == q * (2 * h) + 2 * h
  {
  }

  /** Butterfly `i` has been applied to `b` in `c`. */
  ghost predicate Applied<T>(R: Ring<T>, c: seq<T>, b: seq<T>, h: nat, w: T, i: nat)
    requires h > 0 && |c| == |b|
  {
    var lo := Lo(i, h);
    && lo + h < |b|
    && c[lo] == R.add(R.mul(Pow(R, w, i % h), b[lo + h]), b[lo])
    && c[lo + h] == R.sub(b[lo], R.mul(Pow(R, w, i % h), b[lo + h]))
  }

  ghost predicate Untouched<T>(c: seq<T>, b: seq<T>, h: nat, i: nat)
    requires h > 0 && |c| == |b|
  {
    var lo := Lo(i, h);
    lo + h < |b| && c[lo] == b[lo] && c[lo + h] == b[lo + h]
  }

  ghost predicate PairState<T>(R: Ring<T>, c: seq<T>, b: seq<T>, h: nat, w: T, done: nat, i: nat)
    requires h > 0 && |c| == |b|
  {
    if i < done then Applied(R, c, b, h, w, i) else Untouched(c, b, h, i)
  }

  ghost predicate StageUpTo<T>(R: Ring<T>, c: seq<T>, b: seq<T>, h: nat, w: T, done: nat) {
    && h > 0 && |c| == |b|
    && forall i: nat :: i < |b| / 2 ==> PairState(R, c, b, h, w, done, i)
  }

  lemma StageStarts<T>(R: Ring<T>, b: seq<T>, h: nat, w: T, k: nat)
    requires |b| == Pow2(k) && k > 0 && h > 0 && Pow2(k) % (2 * h) == 0
    ensures StageUpTo(R, b, b, h, w, 0)
  {
    forall i: nat | i < |b| / 2 ensures PairState(R, b, b, h, w, 0, i) { LoBound(i, h, k); }
  }

  /** `c` with butterfly `i` applied */
  function AfterButterfly<T>(R: Ring<T>, c: seq<T>, h: nat, w: T, i: nat): (r: seq<T>)
    requires h > 0 && Lo(i, h) + h < |c|
    ensures |r| == |c|
  {
    var lo := Lo(i, h);
    var t := R.mul(Pow(R, w, i % h), c[lo + h]);
    c[lo := R.add(t, c[lo])][lo + h := R.sub(c[lo], t)]
  }

  lemma StageStep<T>(R: Ring<T>, c: seq<T>, b: seq<T>, h: nat, w: T, i: nat)
    requires StageUpTo(R, c, b, h, w, i) && i < |b| / 2
    ensures Lo(i, h) + h < |c|
    ensures StageUpTo(R, AfterButterfly(R, c, h, w, i), b, h, w, i + 1)
  {
    hide Lo, Applied, Untouched, AfterButterfly;
    assert Untouched(c, b, h, i) by { assert PairState(R, c, b, h, w, i, i); }
    UntouchedFits(c, b, h, i);
    var c' := AfterButterfly(R, c, h, w, i);
    var done := i + 1;
    forall j: nat | j < |b| / 2 ensures PairState(R, c', b, h, w, done, j) {
      assert PairState(R, c, b, h, w, i, j);
      if j == i {
        ButterflyApplies(R, c, b, h, w, i);
      } else {
        ButterflyKeepsOthers(R, c, b, h, w, i, j);
      }
    }
  }

  lemma UntouchedFits<T>(c: seq<T>, b: seq<T>, h: nat, i: nat)
    requires h > 0 && |c| == |b| && Untouched(c, b, h, i)
    ensures Lo(i, h) + h < |c|
  {
  }

  lemma ButterflyApplies<T>(R: Ring<T>, c: seq<T>, b: seq<T>, h: nat, w: T, i: nat)
    requires h > 0 && |c| == |b| && Untouched(c, b, h, i)
    ensures Applied(R, AfterButterfly(R, c, h, w, i), b, h, w, i)
  {
    hide Lo, Pow;
  }

  lemma ButterflyKeepsOthers<T>(R: Ring<T>, c: seq<T>, b: seq<T>, h: nat, w: T, i: nat, j: nat)
    requires h > 0 && |c| == |b| && i != j && Untouched(c, b, h, i)
    ensures Applied(R, c, b, h, w, j) ==> Applied(R, AfterButterfly(R, c, h, w, i), b, h, w, j)
    ensures Untouched(c, b, h, j) ==> Untouched(AfterButterfly(R, c, h, w, i), b, h, j)
  {
    hide Lo, Pow;
    LoDistinct(i, j, h);
  }

  /** The block of 2^s entries that starts at `at` holds the butterflies of that block of `b`. */
  ghost predicate BlockIs<T>(R: Ring<T>, c: seq<T>, b: seq<T>, s: nat, w: T, at: nat)
    requires |c| == |b| && at + Pow2(s) <= |b|
  {
    c[at..at + Pow2(s)] == Butterflies(R, b[at..at + Pow2(s)], s, w)
  }

  ghost predicate BlocksDone<T>(R: Ring<T>, c: seq<T>, b: seq<T>, s: nat, w: T) {
    && |c| == |b|
    && forall at: nat :: at % Pow2(s) == 0 && at + Pow2(s) <= |b| ==> BlockIs(R, c, b, s, w, at)
  }

  /** A whole stage doubles the blocks. */
  lemma StageDoublesBlocks<T(!new)>(R: Ring<T>, c: seq<T>, d: seq<T>, b: seq<T>, s: nat, w: T)
    requires s > 0 && |d| == |b| && |c| == |b|
    requires BlocksDone(R, c, b, s - 1, R.mul(w, w))
    requires StageUpTo(R, d, c, Pow2(s - 1), w, |c| / 2)
    ensures BlocksDone(R, d, b, s, w)
  {
    hide BlockIs;
    forall at: nat | at % Pow2(s) == 0 && at + Pow2(s) <= |b| ensures BlockIs(R, d, b, s, w, at) {
      var h := Pow2(s - 1);
      assert Pow2(s) == 2 * h;
      HalvesAligned(at, h);
      assert BlockIs(R, c, b, s - 1, R.mul(w, w), at);
      assert BlockIs(R, c, b, s - 1, R.mul(w, w), at + h);
      DoubleBlock(R, c, d, b, s, w, at);
    }
  }

  lemma HalvesAligned(at: nat, h: nat)
    requires h > 0 && at % (2 * h) == 0
    ensures at % h == 0 && (at + h) % h == 0
    ensures at == at / (2 * h) * (2 * h)
  {
    var c := at / (2 * h);
    assert at == c * (2 * h) by { DivMod(at, 2 * h); }
    assert c * (2 * h) == (2 * c) * h;
    DivUnique(at, h, 2 * c, 0);
    assert (2 * c + 1) * h == (2 * c) * h + h;
    DivUnique(at + h, h, 2 * c + 1, 0);
  }

  lemma DoubleBlock<T(!new)>(R: Ring<T>, c: seq<T>, d: seq<T>, b: seq<T>, s: nat, w: T, at: nat)
    requires s > 0 && |d| == |b| && |c| == |b| && at % Pow2(s) == 0 && at + Pow2(s) <= |b|
    requires BlockIs(R, c, b, s - 1, R.mul(w, w), at)
    requires BlockIs(R, c, b, s - 1, R.mul(w, w), at + Pow2(s - 1))
    requires StageUpTo(R, d, c, Pow2(s - 1), w, |c| / 2)
    ensures BlockIs(R, d, b, s, w, at)
  {
    hide Lo, Pow, Combine, StageUpTo, Pow2, Butterflies;
    var h := Pow2(s - 1);
    Pow2Half(s);
    ButterfliesOfHalves(R, b, s, w, at);
    CombinedBlock(R, c, d, h, w, at);
  }

  lemma ButterfliesOfHalves<T>(R: Ring<T>, b: seq<T>, s: nat, w: T, at: nat)
    requires s > 0 && at + Pow2(s) <= |b|
    ensures var h, v := Pow2(s - 1), R.mul(w, w);
      Pow2(s) == 2 * h &&
      Butterflies(R, b[at..at + Pow2(s)], s, w) ==
      Combine(R, Butterflies(R, b[at..at + h], s - 1, v), Butterflies(R, b[at + h..at + h + h], s - 1, v), w)
  {
    hide Combine;
    var h := Pow2(s - 1);
    var block := b[at..at + 2 * h];
    assert block[..h] == b[at..at + h] && block[h..] == b[at + h..at + h + h];
  }

  lemma CombinedBlock<T(!new)>(R: Ring<T>, c: seq<T>, d: seq<T>, h: nat, w: T, at: nat)
    requires h > 0 && at % (2 * h) == 0 && at + 2 * h <= |c| && StageUpTo(R, d, c, h, w, |c| / 2) && |d| == |c|
    ensures d[at..at + 2 * h] == Combine(R, c[at..at + h], c[at + h..at + h + h], w)
  {
    hide Lo, Pow, StageUpTo;
    var e, o := c[at..at + h], c[at + h..at + h + h];
    forall p | 0 <= p < 2 * h ensures d[at..at + 2 * h][p] == Combine(R, e, o, w)[p] {
      var j := if p < h then p else p - h;
      CombineAt(R, e, o, w, j);
      BlockEntry(R, c, d, h, w, at, j);
    }
  }

  lemma BlockEntry<T>(R: Ring<T>, c: seq<T>, d: seq<T>, h: nat, w: T, at: nat, j: nat)
    requires j < h && at % (2 * h) == 0 && at + 2 * h <= |c| && StageUpTo(R, d, c, h, w, |c| / 2)
    ensures d[at + j] == R.add(R.mul(Pow(R, w, j), c[at + h + j]), c[at + j])
    ensures d[at + h + j] == R.sub(c[at + j], R.mul(Pow(R, w, j), c[at + h + j]))
  {
    hide Lo, Pow;
    ButterflyOfBlock(at, h, j, |c|);
    var i := at / (2 * h) * h + j;
    assert PairState(R, d, c, h, w, |c| / 2, i);
  }

  lemma ButterflyOfBlock(at: nat, h: nat, j: nat, n: nat)
    requires j < h && at % (2 * h) == 0 && at + 2 * h <= n
    ensures var i := at / (2 * h) * h + j;
            i < n / 2 && Lo(i, h) == at + j && i % h == j
  {
    var c := at / (2 * h);
    HalvesAligned(at, h);
    assert c * (2 * h) == 2 * (c * h);
    LoAt(c, j, h);
    DivUnique(c * h + j, h, c, j);
  }

  // ---------------------------------------------------------------- the width of a stage

  /** `1 << stage` on a 32-bit signed integer, widened to 64 bits: at 31 the sign bit spreads. */
  function StageWidth(stage: nat): nat
    requires stage <= 31
  {
    if stage <= 30 then Shl(1, stage) else 0x1_0000_0000_0000_0000 - 0x8000_0000
  }

  /** The width is right up to stage 30; at stage 31 already the first butterfly would reach beyond every
      array that has that stage and whose indices have 32 bits. */
  lemma StageWidthExact(stage: nat)
    requires stage <= 31
    ensures StageWidth(stage) == Pow2(stage) <==> stage <= 30
    ensures stage == 31 ==> Shr(StageWidth(stage), 1) >= Pow2(32)
  {
    ShlMultiplies(1, stage);
    ShrDivides(StageWidth(stage), 1);
    Pow2Words();
    assert Pow2(32) == 2 * Pow2(31);
  }

  // ---------------------------------------------------------------- the class

  class Fft<T(!new, ==)> {
    const F: PrimeField<T>
    const s: nat
    const roots: array<T>
    const powTwoInv: array<T>

    ghost predicate Valid()
      reads this, roots, powTwoInv
    {
      && IsPrimeField(F)
      && s > 0 && roots.Length == Pow2(s) && powTwoInv.Length == s + 1 && roots != powTwoInv
      && HalfTurn(F.ring, roots[1], s)
      && (forall i :: 0 <= i < roots.Length ==> roots[i] == Pow(F.ring, roots[1], i))
      && (forall i :: 0 <= i <= s ==> powTwoInv[i] == Pow(F.ring, F.half, i))
    }

    /** The root of unity of order 2^k */
    ghost function Root(k: nat): T
      reads this, roots
      requires roots.Length > 1 && k <= s
    {
      Pow(F.ring, roots[1], Pow2(s - k))
    }

    static function Threads(n: nat): (r: set<nat>)
      ensures forall id: nat :: id in r <==> id < n
    {
      if n == 0 then {} else Threads(n - 1) + {n - 1}
    }

    /** The thread whose part of the root table entry `i` belongs to */
    static function Owner(i: nat, nRoots: nat, nThreads: nat): (t: nat)
      requires nThreads > 0
      ensures t < nThreads
    {
      var increment := nRoots / nThreads;
      if increment == 0 || i / increment >= nThreads then nThreads - 1 else i / increment
    }

    static lemma ChunkOfOwner(i: nat, nRoots: nat, nThreads: nat, id: nat)
      requires nThreads > 0 && i < nRoots && id < nThreads
      ensures var increment := nRoots / nThreads;
              Owner(i, nRoots, nThreads) == id <==>
              id * increment <= i && (id == nThreads - 1 || i < (id + 1) * increment)
    {
      ChunkOfSize(i, nRoots / nThreads, nThreads, id);
    }

    static lemma ChunkOfSize(i: nat, increment: nat, nThreads: nat, id: nat)
      requires id < nThreads
      ensures (if increment == 0 || i / increment >= nThreads then nThreads - 1 else i / increment) == id <==>
              id * increment <= i && (id == nThreads - 1 || i < (id + 1) * increment)
    {
      if increment > 0 {
        MultipleBound(i, increment, id);
        MultipleBound(i, increment, id + 1);
      }
    }

    constructor (F: PrimeField<T>, nqr: nat, s: nat, rest: nat, nThreads: nat)
      requires IsPrimeField(F) && 2 <= nqr < F.order && NonResidue(F, nqr)
      requires s > 0 && rest * Pow2(s) == F.order - 1 && nThreads > 0
      ensures Valid() && this.F == F && this.s == s
      ensures fresh(roots) && fresh(powTwoInv)
    {
      var R := F.ring;
      var nRoots := Pow2(s);
      this.F, this.s := F, s;
      roots := new T[nRoots](_ => R.zero);
      powTwoInv := new T[s + 1](_ => R.zero);
      new;
      hide IsPrimeField, Pow, FromNat, NonResidue, HalfTurn;
      var w := Pow(R, FromNat(F, nqr), rest);
      roots[0] := R.one;
      powTwoInv[0] := R.one;
      roots[1] := w;
      powTwoInv[1] := F.half;
      FieldIsRing();
      FillRoots(w, nThreads);
      PowOneTwo(R, w);
      assert roots[1] == w;
      RootIsHalfTurn(F, nqr, s, rest);
      LastRootCloses(R, w, s);
      assert R.mul(roots[nRoots - 1], roots[1]) == R.one;
      FillPowTwoInv();
      assert forall i :: 0 <= i < roots.Length ==> roots[i] == Pow(F.ring, roots[1], i);
    }

    method FillPowTwoInv()
      requires Commutative(F.ring) && powTwoInv.Length == s + 1 && s > 0
      requires powTwoInv[0] == F.ring.one && powTwoInv[1] == F.half
      modifies powTwoInv
      ensures forall i :: 0 <= i <= s ==> powTwoInv[i] == Pow(F.ring, F.half, i)
    {
      PowOneTwo(F.ring, F.half);
      for i := 2 to s + 1
        invariant forall j :: 0 <= j < i ==> powTwoInv[j] == Pow(F.ring, F.half, j)
      {
        powTwoInv[i] := F.ring.mul(powTwoInv[i - 1], powTwoInv[1]);
      }
    }

    static lemma LastRootCloses(R: Ring<T>, w: T, s: nat)
      requires Commutative(R) && s > 0 && HalfTurn(R, w, s)
      ensures R.mul(Pow(R, w, Pow2(s) - 1), w) == R.one
    {
      HalfTurnOfSquare(R, w, s);
    }

    static lemma RootIsHalfTurn(F: PrimeField<T>, nqr: nat, s: nat, rest: nat)
      requires IsPrimeField(F) && 2 <= nqr < F.order && NonResidue(F, nqr)
      requires s > 0 && rest * Pow2(s) == F.order - 1
      ensures HalfTurn(F.ring, Pow(F.ring, FromNat(F, nqr), rest), s)
    {
      hide Pow, FromNat, NonResidue;
      var h := Pow2(s - 1);
      EulerCriterion(F, nqr);
      assert F.order / 2 == rest * h by { assert rest * (2 * h) == 2 * (rest * h); }
      PowPow(F.ring, FromNat(F, nqr), rest, h);
    }

    /** The root table, filled by `nThreads` threads in any order: each one starts its part with an
        exponentiation and continues by multiplying. */
    method FillRoots(w: T, nThreads: nat)
      requires Commutative(F.ring) && nThreads > 0 && s > 0 && roots.Length == Pow2(s)
      requires roots[0] == F.ring.one && roots[1] == w
      modifies roots
      ensures forall i :: 0 <= i < roots.Length ==> roots[i] == Pow(F.ring, w, i)
    {
      var nRoots := roots.Length;
      var pending: set<nat> := Threads(nThreads);
      PowOneTwo(F.ring, w);
      assert forall i: nat :: i < nRoots ==> Owner(i, nRoots, nThreads) in pending;
      while pending != {}
        invariant forall id :: id in pending ==> id < nThreads
        invariant Filled(F.ring, roots[..], w, nThreads, pending, 0, 0)
        decreases |pending|
      {
        var id: nat :| id in pending;
        FillPart(w, nThreads, id, pending);
        pending := pending - {id};
      }
    }

    method FillPart(w: T, nThreads: nat, id: nat, ghost pending: set<nat>)
      requires Commutative(F.ring) && nThreads > 0 && s > 0 && roots.Length == Pow2(s)
      requires id < nThreads && id in pending
      requires Filled(F.ring, roots[..], w, nThreads, pending, 0, 0)
      modifies roots
      ensures Filled(F.ring, roots[..], w, nThreads, pending - {id}, 0, 0)
    {
      hide Owner, Commutative, Pow, Filled, StartOf, EndOf, Pow2;
      var nRoots := roots.Length;
      AtLeastTwo(s);
      FirstRoot(F.ring, roots[..], w, nThreads, pending, 0, 0);
      var start := StartOf(nRoots, nThreads, id);
      var end := EndOf(nRoots, nThreads, id);
      PartStart(F.ring, roots[..], w, nThreads, pending, start, end);
      if end > start {
        roots[start] := Pow(F.ring, roots[1], start);
      }
      for i := start + 1 to if end > start then end else start + 1
        invariant Filled(F.ring, roots[..], w, nThreads, pending, start, if i < end then i else end)
      {
        ghost var before := roots[..];
        FirstRoot(F.ring, before, w, nThreads, pending, start, i);
        roots[i] := F.ring.mul(roots[i - 1], roots[1]);
        PartStep(F.ring, before, roots[..], w, nThreads, pending, start, i);
      }
      PartDone(F.ring, roots[..], w, nThreads, pending, id, start, end);
    }

    /** The part of the table that thread `id` fills */
    static function StartOf(n: nat, threads: nat, id: nat): nat
      requires id < threads
    {
      PartsFit(n, threads, id);
      if id == 0 then 2 else id * (n / threads)
    }

    static function EndOf(n: nat, threads: nat, id: nat): (end: nat)
      requires id < threads
      ensures end <= n
    {
      PartsFit(n, threads, id);
      if id == threads - 1 then n else (id + 1) * (n / threads)
    }

    /** The entries 0 and 1, those of the finished threads and those from `start` to `i` are right. */
    static ghost predicate Filled(R: Ring<T>, rs: seq<T>, w: T, nThreads: nat, pending: set<nat>, start: nat, i: nat)
      requires nThreads > 0
    {
      forall j: nat ::
        (j < |rs| && (j < 2 || Owner(j, |rs|, nThreads) !in pending || start <= j < i) ==> rs[j] == Pow(R, w, j))
    }

    static lemma AtLeastTwo(s: nat)
      requires s > 0
      ensures Pow2(s) >= 2
    {
    }

    static lemma FirstRoot(R: Ring<T>, rs: seq<T>, w: T, nThreads: nat, pending: set<nat>, start: nat, i: nat)
      requires Commutative(R) && nThreads > 0 && |rs| >= 2 && Filled(R, rs, w, nThreads, pending, start, i)
      ensures rs[1] == w
    {
      PowOneTwo(R, w);
    }

    static lemma PartStart(R: Ring<T>, rs: seq<T>, w: T, nThreads: nat, pending: set<nat>, start: nat, end: nat)
      requires nThreads > 0 && Filled(R, rs, w, nThreads, pending, 0, 0) && end <= |rs|
      ensures start < end ==> Filled(R, rs[start := Pow(R, w, start)], w, nThreads, pending, start, start + 1)
      ensures start >= end ==> Filled(R, rs, w, nThreads, pending, start, end)
    {
      hide Owner, Pow;
    }

    static lemma PartStep(R: Ring<T>, rs: seq<T>, rs': seq<T>, w: T, nThreads: nat, pending: set<nat>, start: nat,
        i: nat)
      requires nThreads > 0 && start < i < |rs| && Filled(R, rs, w, nThreads, pending, start, i)
      requires rs' == rs[i := R.mul(rs[i - 1], w)]
      ensures Filled(R, rs', w, nThreads, pending, start, i + 1)
    {
      assert rs[i - 1] == Pow(R, w, i - 1);
      assert Pow(R, w, i) == R.mul(Pow(R, w, i - 1), w);
      hide Owner, Pow;
    }

    /** All entries of a thread lie in its part. */
    static lemma PartDone(R: Ring<T>, rs: seq<T>, w: T, nThreads: nat, pending: set<nat>, id: nat, start: nat, end: nat)
      requires nThreads > 0 && id < nThreads && Filled(R, rs, w, nThreads, pending, start, end)
      requires start == StartOf(|rs|, nThreads, id) && end == EndOf(|rs|, nThreads, id)
      ensures Filled(R, rs, w, nThreads, pending - {id}, 0, 0)
    {
      hide Owner, Pow;
      forall j: nat | j < |rs| && Owner(j, |rs|, nThreads) == id ensures j < 2 || start <= j < end {
        ChunkOfOwner(j, |rs|, nThreads, id);
        if id == 0 { assert id * (|rs| / nThreads) == 0; }
      }
    }

    static lemma PartsFit(n: nat, threads: nat, id: nat)
      requires id < threads
      ensures 0 <= id * (n / threads) && (id + 1) * (n / threads) <= n
    {
      DivMod(n, threads);
      ProductsOrdered(id + 1, threads, n / threads);
    }

    static lemma OddOrder(F: PrimeField<T>)
      requires IsPrimeField(F)
      ensures F.order > 2 && F.order % 2 == 1
    {
    }

    static lemma DomainTooBig(order: nat, n: nat, d: nat)
      requires FloorLog2(n, d) && order > 0
      ensures (order - 1) % Pow2(d) != 0 <==> exists k: nat :: FloorLog2(n, k) && (order - 1) % Pow2(k) != 0
    {
      forall k: nat | FloorLog2(n, k) ensures k == d {
        if k < d { Pow2Monotonic(k + 1, d); }
        if k > d { Pow2Monotonic(d + 1, k); }
      }
    }

    static lemma DomainFits(n: nat, d: nat, s: nat)
      requires FloorLog2(n, d) && d <= s
      ensures n < Pow2(s + 1)
    {
      Pow2Monotonic(d + 1, s + 1);
    }

    /** The whole constructor: the domain must fit the two-adic part of the field's order. */
    static method Create(F: PrimeField<T>, maxDomainSize: nat, nThreads: nat) returns (fft: Fft?<T>)
      requires IsPrimeField(F) && maxDomainSize > 0 && nThreads > 0
      ensures fft == null <==> exists k: nat :: FloorLog2(maxDomainSize, k) && (F.order - 1) % Pow2(k) != 0
      ensures fft != null ==> fft.Valid() && fft.F == F && fresh(fft) && fresh(fft.roots) && fresh(fft.powTwoInv)
      ensures fft != null ==> maxDomainSize < Pow2(fft.s + 1)
    {
      hide FloorLog2, Pow2, IsPrimeField, NonResidue;
      var domainPow := Log2(maxDomainSize);
      var nqr := FindNonResidue(F);
      OddOrder(F);
      var s, rest := SplitOrder(F.order, domainPow);
      DomainTooBig(F.order, maxDomainSize, domainPow);
      if s < domainPow {
        return null;
      }
      DomainFits(maxDomainSize, domainPow, s);
      fft := new Fft(F, nqr, s, rest, nThreads);
    }

    /** Entry `p` has been exchanged with its mirror exactly when both lie below `done`. */
    static ghost predicate ReversedUpTo(c: seq<T>, b: seq<T>, k: nat, done: nat)
      requires k <= 32 && |b| == Pow2(k) && |b| <= WORD
    {
      && |c| == |b|
      && forall p :: 0 <= p < |b| ==>
           Br(p, k) < |b| && c[p] == if p < done && Br(p, k) < done then b[Br(p, k)] else b[p]
    }

    method ReversePermutation(a: array<T>, ghost k: nat)
      requires a.Length == Pow2(k) && k <= 32
      modifies a
      ensures a[..] == BitReversed(old(a[..]))
    {
      hide Br;
      var n := a.Length;
      var domainPow := Log2(n);
      Log2Exact(k, domainPow);
      ghost var b := a[..];
      assert n <= WORD by { Pow2Monotonic(k, 32); Pow2Words(); }
      forall p: nat | p < n ensures Br(p, k) < n && Br(Br(p, k), k) == p { BrInvolution(p, k); }
      for i := 0 to n
        invariant ReversedUpTo(a[..], b, k, i)
      {
        var r := Br(i, domainPow);
        assert r < n && Br(r, k) == i;
        if i > r {
          a[i], a[r] := a[r], a[i];
        }
        assert forall p :: 0 <= p < n && Br(p, k) == i ==> p == r;
      }
      forall p | 0 <= p < n ensures a[p] == BitReversed(b)[p] { BitReversedAt(b, k, p); }
    }

    /** One stage: all butterflies of width 2^stage, in place */
    method Stage(a: array<T>, stage: nat, ghost k: nat)
      requires Valid() && a != roots && a != powTwoInv
      requires a.Length == Pow2(k) && k <= s && 1 <= stage <= k && k <= 30
      modifies a
      ensures StageUpTo(F.ring, a[..], old(a[..]), Pow2(stage - 1), Root(stage), a.Length / 2)
    {
      hide Lo, IsPrimeField, HalfTurn;
      var n := a.Length;
      var m := StageWidth(stage);
      var mdiv2 := Shr(m, 1);
      ShlMultiplies(1, stage);
      ShrDivides(m, 1);
      assert Pow2(1) == 2 && mdiv2 == Pow2(stage - 1);
      ghost var b := a[..];
      assert Pow2(k) % (2 * mdiv2) == 0 by {
        Pow2Add(k - stage, stage);
        DivUnique(Pow2(k), Pow2(stage), Pow2(k - stage), 0);
      }
      StageStarts(F.ring, b, mdiv2, Root(stage), k);
      hide StageUpTo, Shl, Shr, Pow2, StageWidth;
      for i := 0 to n / 2
        invariant StageUpTo(F.ring, a[..], b, mdiv2, Root(stage), i)
      {
        StageStep(F.ring, a[..], b, mdiv2, Root(stage), i);
        OneButterfly(a, stage, m, mdiv2, i);
      }
    }

    /** The `i`-th butterfly of a stage */
    method OneButterfly(a: array<T>, stage: nat, m: nat, mdiv2: nat, i: nat)
      requires Valid() && a != roots && a != powTwoInv
      requires 1 <= stage <= s && mdiv2 == Pow2(stage - 1) && m == 2 * mdiv2 && Lo(i, mdiv2) + mdiv2 < a.Length
      modifies a
      ensures a[..] == AfterButterfly(F.ring, old(a[..]), mdiv2, Root(stage), i)
    {
      hide Lo, IsPrimeField;
      var q := i / mdiv2 * m;
      var j := i % mdiv2;
      LoIs(i, mdiv2);
      var twiddle := TwiddleAt(stage, j);
      Butterfly(a, q + j, mdiv2, twiddle);
    }

    method TwiddleAt(stage: nat, j: nat) returns (t: T)
      requires Valid() && 1 <= stage <= s && j < Pow2(stage - 1)
      ensures t == Pow(F.ring, Root(stage), j)
    {
      Twiddle(stage, j);
      t := roots[Shl(j, s - stage)];
    }

    /** One butterfly in place */
    method Butterfly(a: array<T>, lo: nat, h: nat, twiddle: T)
      requires lo + h < a.Length && h > 0
      modifies a
      ensures var b := old(a[..]);
              var t := F.ring.mul(twiddle, b[lo + h]);
              a[..] == b[lo := F.ring.add(t, b[lo])][lo + h := F.ring.sub(b[lo], t)]
    {
      var t := F.ring.mul(twiddle, a[lo + h]);
      var u := a[lo];
      a[lo] := F.ring.add(t, u);
      a[lo + h] := F.ring.sub(u, t);
    }

    static lemma LoIs(i: nat, h: nat)
      requires h > 0
      ensures Lo(i, h) == i / h * (2 * h) + i % h
    {
    }

    /** `root(stage, j)` is the j-th power of the root of order 2^stage. */
    lemma Twiddle(stage: nat, j: nat)
      requires Valid() && 1 <= stage <= s && j < Pow2(stage - 1)
      ensures Shl(j, s - stage) < roots.Length
      ensures roots[Shl(j, s - stage)] == Pow(F.ring, Root(stage), j)
    {
      var p := Pow2(s - stage);
      ShlMultiplies(j, s - stage);
      Pow2Add(stage, s - stage);
      assert j * p < Pow2(stage) * p by { ProductsOrdered(j + 1, Pow2(stage), p); assert (j + 1) * p == j * p + p; }
      PowPow(F.ring, roots[1], p, j);
      assert p * j == j * p;
    }

    lemma RootSquared(k: nat)
      requires Valid() && 0 < k <= s
      ensures F.ring.mul(Root(k), Root(k)) == Root(k - 1)
    {
      PowAdd(F.ring, roots[1], Pow2(s - k), Pow2(s - k));
    }

    lemma RootIsPrimitive(k: nat)
      requires Valid() && k <= s
      ensures HalfTurn(F.ring, Root(k), k)
    {
      if k > 0 {
        PowPow(F.ring, roots[1], Pow2(s - k), Pow2(k - 1));
        Pow2Add(s - k, k - 1);
      }
    }

    /** The in-place transform computes the values of the polynomial at the powers of the root. */
    method FftInPlace(a: array<T>, ghost k: nat)
      requires Valid() && a != roots && a != powTwoInv
      requires a.Length == Pow2(k) && k <= s && k <= 30
      modifies a
      ensures Valid() && Root(k) == old(Root(k))
      ensures a[..] == Dft(F.ring, old(a[..]), Root(k))
    {
      hide IsPrimeField, HalfTurn, BlocksDone, StageUpTo, Butterflies, Dft;
      ghost var a0 := a[..];
      ReversePermutation(a, k);
      ghost var b := a[..];
      var domainPow := Log2(a.Length);
      Log2Exact(k, domainPow);
      FirstBlocks(F.ring, b, Root(0));
      for stage := 1 to domainPow + 1
        invariant Valid()
        invariant BlocksDone(F.ring, a[..], b, stage - 1, Root(stage - 1))
      {
        ghost var c := a[..];
        Stage(a, stage, k);
        RootSquared(stage);
        StageDoublesBlocks(F.ring, c, a[..], b, stage, Root(stage));
      }
      OneBlock(F.ring, a[..], b, k, Root(k));
      RootIsPrimitive(k);
      assert Commutative(F.ring) by { FieldIsRing(); }
      ButterfliesComputeDft(F.ring, a0, k, Root(k));
    }

    lemma FieldIsRing()
      requires IsPrimeField(F)
      ensures Commutative(F.ring)
    {
    }

    static lemma OneBlock(R: Ring<T>, c: seq<T>, b: seq<T>, k: nat, w: T)
      requires BlocksDone(R, c, b, k, w) && |b| == Pow2(k)
      ensures c == Butterflies(R, b, k, w)
    {
      hide Butterflies;
      assert BlockIs(R, c, b, k, w, 0) by { DivUnique(0, Pow2(k), 0, 0); }
      assert c[0..Pow2(k)] == c && b[0..Pow2(k)] == b;
    }

    static lemma FirstBlocks(R: Ring<T>, b: seq<T>, w: T)
      ensures BlocksDone(R, b, b, 0, w)
    {
    }

    /** The in-place inverse: transform, exchange entries i and n - i, scale by 1/n. */
    method IfftInPlace(a: array<T>, ghost k: nat)
      requires Valid() && a != roots && a != powTwoInv
      requires a.Length == Pow2(k) && k <= s && k <= 30
      modifies a
      ensures Valid() && Root(k) == old(Root(k))
      ensures a[..] == InverseDft(F.ring, old(a[..]), Root(k), Pow(F.ring, F.half, k))
    {
      hide HalfTurn, Eval;
      FftInPlace(a, k);
      var domainPow := Log2(a.Length);
      Log2Exact(k, domainPow);
      ReverseAndScale(F.ring, a, k, powTwoInv[domainPow]);
    }

    static method ReverseAndScale(R: Ring<T>, a: array<T>, ghost k: nat, scale: T)
      requires Commutative(R) && a.Length == Pow2(k) && (k == 0 ==> scale == R.one)
      modifies a
      ensures |a[..]| == |old(a[..])|
      ensures forall i :: 0 <= i < a.Length ==> a[i] == R.mul(old(a[..])[Opposite(i, a.Length)], scale)
    {
      hide Pow2, Scaled, Opposite, Commutative;
      ghost var b := a[..];
      var n := a.Length;
      var nDiv2 := n / 2;
      EvenLength(k);
      ScaledStart(R, b, scale);
      for i := 1 to if nDiv2 < 1 then 1 else nDiv2
        invariant Scaled(R, b, a[..], scale, i)
      {
        var r := n - i;
        ghost var c := a[..];
        ScaledStep(R, b, c, scale, i);
        var tmp := a[i];
        a[i] := R.mul(a[r], scale);
        a[r] := R.mul(tmp, scale);
      }
      ghost var c := a[..];
      a[0] := R.mul(a[0], scale);
      a[nDiv2] := R.mul(a[nDiv2], scale);
      ScaledDone(R, b, c, a[..], k, scale);
    }

    static lemma EvenLength(k: nat)
      ensures (Pow2(k) == 1 <==> k == 0) && (k > 0 ==> Pow2(k) == 2 * (Pow2(k) / 2))
    {
      hide Pow2;
      if k == 0 {
        Pow2Zero();
      } else {
        Pow2Half(k);
        DivUnique(Pow2(k), 2, Pow2(k - 1), 0);
      }
    }

    /** The entries with a partner below `i` are exchanged and scaled. */
    static ghost predicate Scaled(R: Ring<T>, b: seq<T>, c: seq<T>, scale: T, i: nat) {
      && |c| == |b| && i <= |b|
      && forall p {:trigger c[p]} :: 0 <= p < |b| ==>
           c[p] == if 0 < p < i || |b| - i < p then R.mul(b[|b| - p], scale) else b[p]
    }

    static lemma ScaledStart(R: Ring<T>, b: seq<T>, scale: T)
      requires b != []
      ensures Scaled(R, b, b, scale, 1)
    {
    }

    static lemma ScaledStep(R: Ring<T>, b: seq<T>, c: seq<T>, scale: T, i: nat)
      requires Scaled(R, b, c, scale, i) && 0 < i && 2 * i < |b|
      ensures var n := |b|; Scaled(R, b, c[i := R.mul(c[n - i], scale)][n - i := R.mul(c[i], scale)], scale, i + 1)
    {
      assert c[i] == b[i] && c[|b| - i] == b[|b| - i];
    }

    static lemma ScaledDone(R: Ring<T>, b: seq<T>, c: seq<T>, d: seq<T>, k: nat, scale: T)
      requires Commutative(R) && |b| == Pow2(k) && (k == 0 ==> scale == R.one)
      requires Scaled(R, b, c, scale, if |b| / 2 < 1 then 1 else |b| / 2)
      requires var first := c[0 := R.mul(c[0], scale)]; d == first[|b| / 2 := R.mul(first[|b| / 2], scale)]
      ensures |d| == |b| && forall i :: 0 <= i < |b| ==> d[i] == R.mul(b[Opposite(i, |b|)], scale)
    {
      var n := |b|;
      EvenLength(k);
      if n == 1 { MulOne(R, b[0]); }
      hide Pow2, Commutative;
      forall p | 0 <= p < n ensures d[p] == R.mul(b[Opposite(p, n)], scale) { OppositeIs(p, n); }
    }

    static lemma OppositeIs(p: nat, n: nat)
      requires p < n
      ensures Opposite(p, n) == if p == 0 then 0 else n - p
    {
      DivUnique(p, n, 0, p);
    }

    /** `ifft` after `fft` restores the array, */
    method RoundTrip(a: array<T>, ghost k: nat)
      requires Valid() && a != roots && a != powTwoInv
      requires a.Length == Pow2(k) && k <= s && k <= 30
      modifies a
      ensures a[..] == old(a[..])
    {
      FftInPlace(a, k);
      IfftInPlace(a, k);
      RootIsPrimitive(k);
      HalvesDivide(F.ring, F.half, k);
      InverseUndoesDft(F.ring, old(a[..]), k, Root(k), Pow(F.ring, F.half, k));
    }

    /** and `fft` after `ifft` does too. */
    method ReverseRoundTrip(a: array<T>, ghost k: nat)
      requires Valid() && a != roots && a != powTwoInv
      requires a.Length == Pow2(k) && k <= s && k <= 30
      modifies a
      ensures a[..] == old(a[..])
    {
      IfftInPlace(a, k);
      FftInPlace(a, k);
      RootIsPrimitive(k);
      HalvesDivide(F.ring, F.half, k);
      DftUndoesInverse(F.ring, old(a[..]), k, Root(k), Pow(F.ring, F.half, k));
    }
  }
}
