/** The discrete Fourier transform over a commutative ring, its decomposition into
    butterflies, and its inverse. */
module Dfts {
  import opened Bits
  import opened Groups
  import opened Rings
  import opened BitReverse

  /** The values of the polynomial `a` at the powers of `w`. */
  function Dft<T>(R: Ring<T>, a: seq<T>, w: T): seq<T> {
    seq(|a|, i requires 0 <= i < |a| => Eval(R, a, Pow(R, w, i)))
  }

  /** Σ a[j] · w^(i·j) over j < n */
  function PowerSum<T>(R: Ring<T>, a: seq<T>, w: T, i: nat, n: nat): T
    requires n <= |a|
  {
    if n == 0 then R.zero else R.add(PowerSum(R, a, w, i, n - 1), R.mul(a[n - 1], Pow(R, w, i * (n - 1))))
  }

  /** Entry `i` of the transform is Σ a[j] · w^(i·j). */
  lemma DftIsSum<T(!new)>(R: Ring<T>, a: seq<T>, w: T, i: nat)
    requires Commutative(R) && i < |a|
    ensures Dft(R, a, w)[i] == PowerSum(R, a, w, i, |a|)
  {
    EvalIsPowerSum(R, a, w, i, |a|);
    assert a[..|a|] == a;
  }

  lemma {:induction false} EvalIsPowerSum<T(!new)>(R: Ring<T>, a: seq<T>, w: T, i: nat, n: nat)
    requires Commutative(R) && n <= |a|
    ensures Eval(R, a[..n], Pow(R, w, i)) == PowerSum(R, a, w, i, n)
  {
    if n > 0 {
      var x, m := Pow(R, w, i), n - 1;
      EvalIsPowerSum(R, a, w, i, m);
      assert a[..n] == a[..m] + [a[m]];
      EvalAppend(R, a[..m], [a[m]], x);
      EvalOfOne(R, [a[m]], x);
      PowPow(R, w, i, m);
      MulComm(R, a[m], Pow(R, x, m));
    }
  }

  /** `w` is a primitive 2^k-th root of unity in the sense the transform needs. */
  ghost predicate HalfTurn<T>(R: Ring<T>, w: T, k: nat) {
    k > 0 ==> Pow(R, w, Pow2(k - 1)) == R.neg(R.one)
  }

  lemma HalfTurnOfSquare<T(!new)>(R: Ring<T>, w: T, k: nat)
    requires Commutative(R) && k > 0 && HalfTurn(R, w, k)
    ensures HalfTurn(R, R.mul(w, w), k - 1)
    ensures Pow(R, w, Pow2(k)) == R.one
  {
    PowOneTwo(R, w);
    if k > 1 { PowPow(R, w, 2, Pow2(k - 2)); }
    PowAdd(R, w, Pow2(k - 1), Pow2(k - 1));
    MinusOneSquared(R);
  }

  lemma MinusOneSquared<T(!new)>(R: Ring<T>)
    requires Commutative(R)
    ensures R.mul(R.neg(R.one), R.neg(R.one)) == R.one
    ensures forall x :: MinusOneAt(R, x)
  {
    forall x ensures MinusOneAt(R, x) {
      MulNeg(R, R.one, x);
      MulOne(R, x);
    }
    assert MinusOneAt(R, R.neg(R.one));
    NegNeg(R.Plus(), R.one);
  }

  ghost predicate MinusOneAt<T>(R: Ring<T>, x: T) {
    R.mul(R.neg(R.one), x) == R.neg(x)
  }

  // ---------------------------------------------------------------- butterflies

  function Sums<T>(R: Ring<T>, a: seq<T>, b: seq<T>): (r: seq<T>)
    requires |a| == |b|
    ensures |r| == |a|
  {
    seq(|a|, i requires 0 <= i < |a| => R.add(a[i], b[i]))
  }

  function Negs<T>(R: Ring<T>, a: seq<T>): (r: seq<T>)
    ensures |r| == |a|
  {
    seq(|a|, i requires 0 <= i < |a| => R.neg(a[i]))
  }

  /** Entry i multiplied by w^i */
  function Twisted<T>(R: Ring<T>, a: seq<T>, w: T): (r: seq<T>)
    ensures |r| == |a|
  {
    seq(|a|, i requires 0 <= i < |a| => R.mul(Pow(R, w, i), a[i]))
  }

  /** One level of butterflies: entry i and entry i + h are e[i] ± w^i · o[i]. */
  function Combine<T>(R: Ring<T>, e: seq<T>, o: seq<T>, w: T): (r: seq<T>)
    requires |e| == |o|
    ensures |r| == 2 * |e|
  {
    var t := Twisted(R, o, w);
    Sums(R, t, e) + Sums(R, e, Negs(R, t))
  }

  /** All levels of butterflies on a sequence of 2^k elements. */
  function Butterflies<T>(R: Ring<T>, b: seq<T>, k: nat, w: T): (r: seq<T>)
    requires |b| == Pow2(k)
    ensures |r| == |b|
  {
    if k == 0 then b
    else
      var h := Pow2(k - 1);
      Combine(R, Butterflies(R, b[..h], k - 1, R.mul(w, w)), Butterflies(R, b[h..], k - 1, R.mul(w, w)), w)
  }

  lemma CombineAt<T>(R: Ring<T>, e: seq<T>, o: seq<T>, w: T, j: nat)
    requires |e| == |o| && j < |e|
    ensures Combine(R, e, o, w)[j] == R.add(R.mul(Pow(R, w, j), o[j]), e[j])
    ensures Combine(R, e, o, w)[|e| + j] == R.sub(e[j], R.mul(Pow(R, w, j), o[j]))
  {
    hide Pow;
  }

  lemma DftAt<T>(R: Ring<T>, a: seq<T>, w: T, i: nat)
    requires i < |a|
    ensures |Dft(R, a, w)| == |a| && Dft(R, a, w)[i] == Eval(R, a, Pow(R, w, i))
  {
  }

  lemma DftLengths<T>(R: Ring<T>, a: seq<T>, k: nat, w: T)
    requires k > 0 && |a| == Pow2(k)
    ensures var h, v := Pow2(k - 1), R.mul(w, w);
      |a| == 2 * h && |Dft(R, a, w)| == |a| && |Dft(R, Even(a), v)| == |Dft(R, Odd(a), v)| == |Even(a)| == |Odd(a)| == h
  {
  }

  /** Even and odd coefficients, transformed with w², combine to the whole transform. */
  lemma CombineDft<T(!new)>(R: Ring<T>, a: seq<T>, k: nat, w: T)
    requires Commutative(R) && k > 0 && |a| == Pow2(k) && HalfTurn(R, w, k)
    ensures Combine(R, Dft(R, Even(a), R.mul(w, w)), Dft(R, Odd(a), R.mul(w, w)), w) == Dft(R, a, w)
  {
    hide Eval, Pow, HalfTurn, Commutative, Even, Odd, Pow2, Combine, Dft;
    var h, v := Pow2(k - 1), R.mul(w, w);
    DftLengths(R, a, k, w);
    var e, o := Dft(R, Even(a), v), Dft(R, Odd(a), v);
    forall i | 0 <= i < |a| ensures Combine(R, e, o, w)[i] == Dft(R, a, w)[i] {
      var j := if i < h then i else i - h;
      CombineAt(R, e, o, w, j);
      DftAt(R, Even(a), v, j);
      DftAt(R, Odd(a), v, j);
      DftAt(R, a, w, i);
      DftEntry(R, a, k, w, j);
    }
  }

  lemma DftEntry<T(!new)>(R: Ring<T>, a: seq<T>, k: nat, w: T, i: nat)
    requires Commutative(R) && k > 0 && |a| == Pow2(k) && HalfTurn(R, w, k) && i < Pow2(k - 1)
    ensures var v, p := R.mul(w, w), Pow(R, w, i);
            var e, o := Eval(R, Even(a), Pow(R, v, i)), Eval(R, Odd(a), Pow(R, v, i));
            && Eval(R, a, p) == R.add(R.mul(p, o), e)
            && Eval(R, a, Pow(R, w, i + Pow2(k - 1))) == R.sub(e, R.mul(p, o))
  {
    hide Eval;
    var h, v, p := Pow2(k - 1), R.mul(w, w), Pow(R, w, i);
    var e, o := Eval(R, Even(a), Pow(R, v, i)), Eval(R, Odd(a), Pow(R, v, i));
    PowOfProduct(R, w, w, i);
    EvalSplit(R, a, p);
    Comm(R.Plus(), e, R.mul(p, o));
    var q := Pow(R, w, i + h);
    assert q == R.neg(p) by {
      PowAdd(R, w, i, h);
      MinusOneSquared(R);
      MulComm(R, p, R.neg(R.one));
      assert MinusOneAt(R, p);
    }
    assert R.mul(q, q) == R.mul(p, p) by { SquareOfNeg(R, p); }
    EvalSplit(R, a, q);
    MulNeg(R, p, o);
  }

  lemma SquareOfNeg<T(!new)>(R: Ring<T>, p: T)
    requires Commutative(R)
    ensures R.mul(R.neg(p), R.neg(p)) == R.mul(p, p)
  {
    MulNeg(R, R.neg(p), p);
    MulNeg(R, p, p);
    NegNeg(R.Plus(), R.mul(p, p));
  }

  lemma DftOfOne<T(!new)>(R: Ring<T>, a: seq<T>, w: T, x: T)
    requires Commutative(R) && |a| == 1
    ensures Dft(R, a, w) == a && Eval(R, a, x) == a[0] == Times(R.Plus(), 1, a[0])
  {
    EvalOfOne(R, a, x);
    EvalOfOne(R, a, Pow(R, w, 0));
    TimesOne(R.Plus(), a[0]);
    assert Dft(R, a, w)[0] == a[0];
  }

  lemma EvalOfOne<T(!new)>(R: Ring<T>, a: seq<T>, x: T)
    requires Commutative(R) && |a| == 1
    ensures Eval(R, a, x) == a[0]
  {
    MulZero(R, x);
    AddZero(R.Plus(), a[0]);
    assert a[1..] == [];
  }

  /** Butterflies after bit reversal compute the transform. */
  lemma {:induction false} ButterfliesComputeDft<T(!new)>(R: Ring<T>, a: seq<T>, k: nat, w: T)
    requires Commutative(R) && |a| == Pow2(k) && HalfTurn(R, w, k)
    ensures Butterflies(R, BitReversed(a), k, w) == Dft(R, a, w)
    decreases k
  {
    if k == 0 {
      DftOfOne(R, a, w, w);
    } else {
      var h, b := Pow2(k - 1), BitReversed(a);
      HalfTurnOfSquare(R, w, k);
      ButterfliesComputeDft(R, Even(a), k - 1, R.mul(w, w));
      ButterfliesComputeDft(R, Odd(a), k - 1, R.mul(w, w));
      assert b[..h] == BitReversed(Even(a)) && b[h..] == BitReversed(Odd(a));
      CombineDft(R, a, k, w);
    }
  }

  // ---------------------------------------------------------------- the inverse

  /** `-m` modulo `n` */
  function Opposite(m: nat, n: nat): (r: nat)
    requires n > 0
    ensures r < n
  {
    if m % n == 0 then 0 else n - m % n
  }

  lemma OppositeOfDouble(m: nat, h: nat)
    requires h > 0
    ensures Opposite(2 * m, 2 * h) == 2 * Opposite(m, h)
    ensures Opposite(2 * m + 1, 2 * h) == 2 * Opposite(m + 1, h) + 1
  {
    var q, r := m / h, m % h;
    assert m == q * h + r by { DivMod(m, h); }
    assert 2 * (q * h) == q * (2 * h);
    DivUnique(2 * m, 2 * h, q, 2 * r);
    DivUnique(2 * m + 1, 2 * h, q, 2 * r + 1);
    if r + 1 < h {
      DivUnique(m + 1, h, q, r + 1);
    } else {
      assert (q + 1) * h == q * h + h;
      DivUnique(m + 1, h, q + 1, 0);
    }
  }

  lemma EvalTwisted<T(!new)>(R: Ring<T>, a: seq<T>, w: T, x: T)
    requires Commutative(R)
    ensures Eval(R, Twisted(R, a, w), x) == Eval(R, a, R.mul(w, x))
  {
    EvalScale(R, a, Twisted(R, a, w), w, 0, x);
    MulOne(R, Eval(R, a, R.mul(w, x)));
  }

  /** The butterflies of one level, evaluated at x: with x^h = 1 the odd part cancels,
      with x^h = -1 the even part does. */
  lemma EvalCombine<T(!new)>(R: Ring<T>, e: seq<T>, o: seq<T>, w: T, x: T)
    requires Commutative(R) && |e| == |o|
    ensures Pow(R, x, |e|) == R.one ==>
              Eval(R, Combine(R, e, o, w), x) == R.add(Eval(R, e, x), Eval(R, e, x))
    ensures Pow(R, x, |e|) == R.neg(R.one) ==>
              Eval(R, Combine(R, e, o, w), x) == R.add(Eval(R, o, R.mul(w, x)), Eval(R, o, R.mul(w, x)))
  {
    var G, t := R.Plus(), Twisted(R, o, w);
    var first, second := Sums(R, t, e), Sums(R, e, Negs(R, t));
    EvalAppend(R, first, second, x);
    EvalSum(R, t, e, first, x);
    EvalSum(R, e, Negs(R, t), second, x);
    EvalNeg(R, t, Negs(R, t), x);
    EvalTwisted(R, o, w, x);
    var E, O := Eval(R, e, x), Eval(R, o, R.mul(w, x));
    assert Eval(R, first, x) == R.add(O, E) && Eval(R, second, x) == R.add(E, R.neg(O));
    SumsCancel(R, E, O);
    MulOne(R, R.add(E, R.neg(O)));
    MinusOneSquared(R);
    assert MinusOneAt(R, R.add(E, R.neg(O)));
  }

  lemma SumsCancel<T(!new)>(R: Ring<T>, x: T, y: T)
    requires Commutative(R)
    ensures R.add(R.add(y, x), R.add(x, R.neg(y))) == R.add(x, x)
    ensures R.add(R.add(y, x), R.neg(R.add(x, R.neg(y)))) == R.add(y, y)
  {
    var G := R.Plus();
    Comm(G, y, x);
    Exchange(G, x, y, x, R.neg(y));
    assert NegAt(G, y) && NegAt(G, x);
    AddZero(G, R.add(x, x));
    NegSum(G, x, R.neg(y));
    NegNeg(G, y);
    Exchange(G, x, y, R.neg(x), y);
    AddZero(G, R.add(y, y));
  }

  /** Entry -m of a sequence of even length, found in its even or odd half. */
  lemma OppositeEntry<T>(a: seq<T>, h: nat, m: nat)
    requires h > 0 && |a| == 2 * h
    ensures m % 2 == 0 ==> a[Opposite(m, |a|)] == Even(a)[Opposite(m / 2, h)]
    ensures m % 2 == 1 ==> a[Opposite(m, |a|)] == Odd(a)[Opposite(m / 2 + 1, h)]
  {
    hide Opposite;
    OppositeOfDouble(m / 2, h);
    assert m == 2 * (m / 2) + m % 2;
  }

  /** Transforming twice multiplies by n and reverses the indices. */
  lemma {:induction false} DftTwice<T(!new)>(R: Ring<T>, a: seq<T>, k: nat, w: T, m: nat)
    requires Commutative(R) && |a| == Pow2(k) && HalfTurn(R, w, k)
    ensures Eval(R, Dft(R, a, w), Pow(R, w, m)) == Times(R.Plus(), |a|, a[Opposite(m, |a|)])
    decreases k
  {
    hide Eval, Dft, Opposite, HalfTurn, Times, Pow, Even, Odd;
    if k == 0 {
      DftOfOne(R, a, w, Pow(R, w, m));
      OppositeModOne(m);
    } else {
      var h, v := Pow2(k - 1), R.mul(w, w);
      var half, j := if m % 2 == 0 then Even(a) else Odd(a), m / 2 + m % 2;
      HalfTurnOfSquare(R, w, k);
      EvalOfDft(R, a, k, w, m);
      OppositeEntry(a, h, m);
      DftTwice(R, half, k - 1, v, j);
      TimesAdd(R.Plus(), h, h, half[Opposite(j, h)]);
      assert h + h == |a|;
      assert a[Opposite(m, |a|)] == half[Opposite(j, h)];
    }
  }

  lemma OppositeModOne(m: nat)
    ensures Opposite(m, 1) == 0
  {
    DivUnique(m, 1, m, 0);
  }

  /** The transform evaluated at w^m is twice the half transform evaluated at a power of w². */
  lemma EvalOfDft<T(!new)>(R: Ring<T>, a: seq<T>, k: nat, w: T, m: nat)
    requires Commutative(R) && k > 0 && |a| == Pow2(k) && HalfTurn(R, w, k)
    ensures var v := R.mul(w, w);
            var half := if m % 2 == 0
                        then Eval(R, Dft(R, Even(a), v), Pow(R, v, m / 2))
                        else Eval(R, Dft(R, Odd(a), v), Pow(R, v, m / 2 + 1));
            Eval(R, Dft(R, a, w), Pow(R, w, m)) == R.add(half, half)
  {
    var x, v := Pow(R, w, m), R.mul(w, w);
    assert |Dft(R, Even(a), v)| == |Dft(R, Odd(a), v)| == Pow2(k - 1);
    hide Eval, Commutative, HalfTurn, Combine, Dft, Even, Odd, Pow, Pow2;
    CombineDft(R, a, k, w);
    EvalCombine(R, Dft(R, Even(a), v), Dft(R, Odd(a), v), w, x);
    PowerOfHalfTurn(R, w, k, m);
    PowersOfSquare(R, w, m);
  }

  lemma PowersOfSquare<T(!new)>(R: Ring<T>, w: T, m: nat)
    requires Commutative(R)
    ensures m % 2 == 0 ==> Pow(R, w, m) == Pow(R, R.mul(w, w), m / 2)
    ensures m % 2 == 1 ==> R.mul(w, Pow(R, w, m)) == Pow(R, R.mul(w, w), m / 2 + 1)
  {
    PowOneTwo(R, w);
    MulComm(R, w, Pow(R, w, m));
    assert R.mul(Pow(R, w, m), w) == Pow(R, w, m + 1);
    hide Pow, Commutative;
    PowPow(R, w, 2, m / 2);
    PowPow(R, w, 2, m / 2 + 1);
  }

  /** (w^m)^(n/2) is 1 for even and -1 for odd m. */
  lemma PowerOfHalfTurn<T(!new)>(R: Ring<T>, w: T, k: nat, m: nat)
    requires Commutative(R) && k > 0 && HalfTurn(R, w, k)
    ensures Pow(R, Pow(R, w, m), Pow2(k - 1)) == if m % 2 == 0 then R.one else R.neg(R.one)
  {
    var h := Pow2(k - 1);
    PowPow(R, w, m, h);
    PowPow(R, w, h, m);
    assert m * h == h * m;
    PowerOfMinusOne(R, m);
  }

  lemma {:induction false} PowerOfMinusOne<T(!new)>(R: Ring<T>, m: nat)
    requires Commutative(R)
    ensures Pow(R, R.neg(R.one), m) == if m % 2 == 0 then R.one else R.neg(R.one)
  {
    if m > 0 {
      PowerOfMinusOne(R, m - 1);
      MinusOneSquared(R);
      MulOne(R, R.neg(R.one));
    }
  }

  /** The inverse transform: transform, reverse the indices, scale. */
  function InverseDft<T>(R: Ring<T>, a: seq<T>, w: T, scale: T): (r: seq<T>)
    ensures |r| == |a|
  {
    seq(|a|, i requires 0 <= i < |a| => R.mul(Dft(R, a, w)[Opposite(i, |a|)], scale))
  }

  /** `scale` is the inverse of `n` (added up from ones). */
  ghost predicate Divides<T(!new)>(R: Ring<T>, scale: T, n: nat) {
    forall x :: DividesAt(R, scale, n, x)
  }

  ghost predicate DividesAt<T>(R: Ring<T>, scale: T, n: nat, x: T) {
    R.mul(Times(R.Plus(), n, x), scale) == x
  }

  lemma OppositeTwice(i: nat, n: nat)
    requires i < n
    ensures Opposite(Opposite(i, n), n) == i
  {
    DivUnique(i, n, 0, i);
    if i > 0 { DivUnique(n - i, n, 0, n - i); } else { DivUnique(0, n, 0, 0); }
  }

  lemma InverseUndoesDft<T(!new)>(R: Ring<T>, a: seq<T>, k: nat, w: T, scale: T)
    requires Commutative(R) && |a| == Pow2(k) && HalfTurn(R, w, k) && Divides(R, scale, |a|)
    ensures InverseDft(R, Dft(R, a, w), w, scale) == a
  {
    hide Opposite, Eval, Pow;
    var A := Dft(R, a, w);
    forall i | 0 <= i < |a| ensures InverseDft(R, A, w, scale)[i] == a[i] {
      var m := Opposite(i, |a|);
      DftTwice(R, a, k, w, m);
      OppositeTwice(i, |a|);
      assert Dft(R, A, w)[m] == Times(R.Plus(), |a|, a[i]);
      assert DividesAt(R, scale, |a|, a[i]);
    }
  }

  /** Every entry multiplied by `c` */
  function Scaled<T>(R: Ring<T>, a: seq<T>, c: T): (r: seq<T>)
    ensures |r| == |a|
  {
    seq(|a|, i requires 0 <= i < |a| => R.mul(a[i], c))
  }

  lemma {:induction false} EvalScaled<T(!new)>(R: Ring<T>, a: seq<T>, c: T, x: T)
    requires Commutative(R)
    ensures Eval(R, Scaled(R, a, c), x) == R.mul(Eval(R, a, x), c)
  {
    if a == [] {
      MulZero(R, c);
    } else {
      EvalScaled(R, a[1..], c, x);
      assert Scaled(R, a, c)[1..] == Scaled(R, a[1..], c);
      Distributes(R, c, a[0], R.mul(x, Eval(R, a[1..], x)));
      MulAssoc(R, x, Eval(R, a[1..], x), c);
    }
  }

  lemma DftScaled<T(!new)>(R: Ring<T>, a: seq<T>, w: T, c: T)
    requires Commutative(R)
    ensures Dft(R, Scaled(R, a, c), w) == Scaled(R, Dft(R, a, w), c)
  {
    forall i | 0 <= i < |a|
      ensures Dft(R, Scaled(R, a, c), w)[i] == Scaled(R, Dft(R, a, w), c)[i]
    {
      EvalScaled(R, a, c, Pow(R, w, i));
    }
  }

  /** The inverse is the transform applied three times and scaled by 1/n twice:
      hence it also undoes the transform from the other side. */
  lemma DftUndoesInverse<T(!new)>(R: Ring<T>, a: seq<T>, k: nat, w: T, scale: T)
    requires Commutative(R) && |a| == Pow2(k) && HalfTurn(R, w, k) && Divides(R, scale, |a|)
    ensures Dft(R, InverseDft(R, a, w, scale), w) == a
  {
    var a1 := Dft(R, a, w);
    var a2 := Dft(R, a1, w);
    var a3 := Dft(R, a2, w);
    assert InverseDft(R, a, w, scale) == Scaled(R, Scaled(R, a3, scale), scale) by {
      InverseIsThreeTransforms(R, a, k, w, scale);
    }
    DftScaled(R, Scaled(R, a3, scale), w, scale);
    DftScaled(R, a3, w, scale);
    FourTransforms(R, a, k, w, scale);
  }

  lemma InverseIsThreeTransforms<T(!new)>(R: Ring<T>, a: seq<T>, k: nat, w: T, scale: T)
    requires Commutative(R) && |a| == Pow2(k) && HalfTurn(R, w, k) && Divides(R, scale, |a|)
    ensures InverseDft(R, a, w, scale)
         == Scaled(R, Scaled(R, Dft(R, Dft(R, Dft(R, a, w), w), w), scale), scale)
  {
    hide Opposite, Eval, Pow;
    var a1 := Dft(R, a, w);
    var a2 := Dft(R, a1, w);
    forall i | 0 <= i < |a|
      ensures InverseDft(R, a, w, scale)[i] == R.mul(R.mul(Dft(R, a2, w)[i], scale), scale)
    {
      DftTwice(R, a1, k, w, i);
      assert DividesAt(R, scale, |a|, a1[Opposite(i, |a|)]);
    }
  }

  lemma FourTransforms<T(!new)>(R: Ring<T>, a: seq<T>, k: nat, w: T, scale: T)
    requires Commutative(R) && |a| == Pow2(k) && HalfTurn(R, w, k) && Divides(R, scale, |a|)
    ensures Scaled(R, Scaled(R, Dft(R, Dft(R, Dft(R, Dft(R, a, w), w), w), w), scale), scale) == a
  {
    var a2 := Dft(R, Dft(R, a, w), w);
    var half := Dft(R, Dft(R, Scaled(R, a2, scale), w), w);
    DftScaled(R, a2, w, scale);
    DftScaled(R, Dft(R, a2, w), w, scale);
    assert half == Scaled(R, Dft(R, Dft(R, a2, w), w), scale);
    forall i | 0 <= i < |a| ensures R.mul(half[i], scale) == a[i] {
      hide Eval, Pow, Opposite;
      var s := Scaled(R, a2, scale);
      var m := Opposite(i, |a|);
      DftTwice(R, s, k, w, i);
      assert DividesAt(R, scale, |a|, s[m]);
      DftTwice(R, a, k, w, m);
      OppositeTwice(i, |a|);
      assert DividesAt(R, scale, |a|, a[i]);
    }
  }

  // ---------------------------------------------------------------- 1 / 2^k

  /** Powers of one half divide by powers of two. */
  lemma {:induction false} HalvesDivide<T(!new)>(R: Ring<T>, half: T, k: nat)
    requires Commutative(R) && R.add(half, half) == R.one
    ensures Divides(R, Pow(R, half, k), Pow2(k))
  {
    var G := R.Plus();
    if k == 0 {
      forall x ensures DividesAt(R, Pow(R, half, 0), 1, x) {
        TimesOne(G, x);
        MulOne(R, x);
      }
    } else {
      HalvesDivide(R, half, k - 1);
      var h, p := Pow2(k - 1), Pow(R, half, k - 1);
      forall x ensures DividesAt(R, Pow(R, half, k), Pow2(k), x) {
        var y := Times(G, h, x);
        TimesAdd(G, h, h, x);
        assert DividesAt(R, p, h, x);
        Distributes(R, R.mul(p, half), y, y);
        MulAssoc(R, y, p, half);
        Distributes(R, x, half, half);
        MulOne(R, x);
      }
    }
  }
}
