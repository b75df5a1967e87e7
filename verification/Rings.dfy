/** Commutative rings given by their operations and laws, powers, and polynomial evaluation. */
module Rings {
  import opened Groups

  datatype Ring<!T> = Ring(zero: T, one: T, add: (T, T) -> T, neg: T -> T, mul: (T, T) -> T) {
    function sub(x: T, y: T): T {
      add(x, neg(y))
    }

    function Plus(): Group<T> {
      Group(zero, add, neg)
    }
  }

  ghost predicate MulAssocAt<T>(R: Ring<T>, x: T, y: T, z: T) {
    R.mul(R.mul(x, y), z) == R.mul(x, R.mul(y, z))
  }

  ghost predicate MulCommAt<T>(R: Ring<T>, x: T, y: T) {
    R.mul(x, y) == R.mul(y, x)
  }

  ghost predicate OneAt<T>(R: Ring<T>, x: T) {
    R.mul(R.one, x) == x
  }

  ghost predicate DistributesAt<T>(R: Ring<T>, x: T, y: T, z: T) {
    R.mul(x, R.add(y, z)) == R.add(R.mul(x, y), R.mul(x, z))
  }

  ghost predicate Commutative<T(!new)>(R: Ring<T>) {
    && Abelian(R.Plus())
    && (forall x, y, z :: MulAssocAt(R, x, y, z))
    && (forall x, y :: MulCommAt(R, x, y))
    && (forall x :: OneAt(R, x))
    && (forall x, y, z :: DistributesAt(R, x, y, z))
  }

  lemma MulAssoc<T(!new)>(R: Ring<T>, x: T, y: T, z: T)
    requires Commutative(R)
    ensures R.mul(R.mul(x, y), z) == R.mul(x, R.mul(y, z))
  {
    assert MulAssocAt(R, x, y, z);
  }

  lemma MulComm<T(!new)>(R: Ring<T>, x: T, y: T)
    requires Commutative(R)
    ensures R.mul(x, y) == R.mul(y, x)
  {
    assert MulCommAt(R, x, y);
  }

  lemma MulOne<T(!new)>(R: Ring<T>, x: T)
    requires Commutative(R)
    ensures R.mul(R.one, x) == x && R.mul(x, R.one) == x
  {
    assert OneAt(R, x) && MulCommAt(R, x, R.one);
  }

  lemma Distributes<T(!new)>(R: Ring<T>, x: T, y: T, z: T)
    requires Commutative(R)
    ensures R.mul(x, R.add(y, z)) == R.add(R.mul(x, y), R.mul(x, z))
    ensures R.mul(R.add(y, z), x) == R.add(R.mul(y, x), R.mul(z, x))
  {
    assert DistributesAt(R, x, y, z);
    MulComm(R, x, R.add(y, z));
    MulComm(R, x, y);
    MulComm(R, x, z);
  }

  /** (x·y)·z == (x·z)·y */
  lemma MulSwapLast<T(!new)>(R: Ring<T>, x: T, y: T, z: T)
    requires Commutative(R)
    ensures R.mul(R.mul(x, y), z) == R.mul(R.mul(x, z), y)
  {
    MulAssoc(R, x, y, z);
    MulComm(R, y, z);
    MulAssoc(R, x, z, y);
  }

  /** (a·b)·(c·d) == (a·c)·(b·d) */
  lemma MulExchange<T(!new)>(R: Ring<T>, a: T, b: T, c: T, d: T)
    requires Commutative(R)
    ensures R.mul(R.mul(a, b), R.mul(c, d)) == R.mul(R.mul(a, c), R.mul(b, d))
  {
    MulAssoc(R, R.mul(a, b), c, d);
    MulSwapLast(R, a, b, c);
    MulAssoc(R, R.mul(a, c), b, d);
  }

  lemma MulZero<T(!new)>(R: Ring<T>, x: T)
    requires Commutative(R)
    ensures R.mul(x, R.zero) == R.zero && R.mul(R.zero, x) == R.zero
  {
    var G, y := R.Plus(), R.mul(x, R.zero);
    AddZero(G, R.zero);
    Distributes(R, x, R.zero, R.zero);
    CancelNeg(G, y, y);
    assert NegAt(G, y);
    MulComm(R, x, R.zero);
  }

  /** x·(-y) == -(x·y) */
  lemma MulNeg<T(!new)>(R: Ring<T>, x: T, y: T)
    requires Commutative(R)
    ensures R.mul(x, R.neg(y)) == R.neg(R.mul(x, y)) == R.mul(R.neg(x), y)
  {
    NegOfProduct(R, x, y);
    NegOfProduct(R, y, x);
    MulComm(R, x, y);
    MulComm(R, R.neg(x), y);
  }

  lemma NegOfProduct<T(!new)>(R: Ring<T>, x: T, y: T)
    requires Commutative(R)
    ensures R.mul(x, R.neg(y)) == R.neg(R.mul(x, y))
  {
    var G := R.Plus();
    assert NegAt(G, y);
    Distributes(R, x, y, R.neg(y));
    MulZero(R, x);
    UniqueNeg(G, R.mul(x, y), R.mul(x, R.neg(y)));
  }

  lemma UniqueNeg<T(!new)>(G: Group<T>, x: T, y: T)
    requires Abelian(G) && G.add(x, y) == G.zero
    ensures y == G.neg(x)
  {
    CancelNeg(G, y, x);
    Comm(G, x, y);
    AddZero(G, G.neg(x));
  }

  lemma NegNeg<T(!new)>(G: Group<T>, x: T)
    requires Abelian(G)
    ensures G.neg(G.neg(x)) == x
  {
    assert NegAt(G, x);
    Comm(G, x, G.neg(x));
    UniqueNeg(G, G.neg(x), x);
  }

  lemma NegZero<T(!new)>(G: Group<T>)
    requires Abelian(G)
    ensures G.neg(G.zero) == G.zero
  {
    AddZero(G, G.zero);
    UniqueNeg(G, G.zero, G.zero);
  }

  /** -(x + y) == -x + -y */
  lemma NegSum<T(!new)>(G: Group<T>, x: T, y: T)
    requires Abelian(G)
    ensures G.neg(G.add(x, y)) == G.add(G.neg(x), G.neg(y))
  {
    Exchange(G, x, y, G.neg(x), G.neg(y));
    assert NegAt(G, x) && NegAt(G, y);
    AddZero(G, G.zero);
    UniqueNeg(G, G.add(x, y), G.add(G.neg(x), G.neg(y)));
  }

  // ---------------------------------------------------------------- powers

  function Pow<T>(R: Ring<T>, x: T, n: nat): T {
    if n == 0 then R.one else R.mul(Pow(R, x, n - 1), x)
  }

  lemma {:induction false} PowAdd<T(!new)>(R: Ring<T>, x: T, m: nat, n: nat)
    requires Commutative(R)
    ensures Pow(R, x, m + n) == R.mul(Pow(R, x, m), Pow(R, x, n))
  {
    if n == 0 {
      MulOne(R, Pow(R, x, m));
    } else {
      PowAdd(R, x, m, n - 1);
      MulAssoc(R, Pow(R, x, m), Pow(R, x, n - 1), x);
    }
  }

  lemma {:induction false} PowPow<T(!new)>(R: Ring<T>, x: T, m: nat, n: nat)
    requires Commutative(R)
    ensures Pow(R, Pow(R, x, m), n) == Pow(R, x, m * n)
  {
    if n > 0 {
      PowPow(R, x, m, n - 1);
      PowAdd(R, x, m * (n - 1), m);
      assert m * n == m * (n - 1) + m;
    }
  }

  lemma {:induction false} PowOfProduct<T(!new)>(R: Ring<T>, x: T, y: T, n: nat)
    requires Commutative(R)
    ensures Pow(R, R.mul(x, y), n) == R.mul(Pow(R, x, n), Pow(R, y, n))
  {
    if n == 0 {
      MulOne(R, R.one);
    } else {
      PowOfProduct(R, x, y, n - 1);
      MulExchange(R, Pow(R, x, n - 1), Pow(R, y, n - 1), x, y);
    }
  }

  lemma {:induction false} PowOfOne<T(!new)>(R: Ring<T>, n: nat)
    requires Commutative(R)
    ensures Pow(R, R.one, n) == R.one
  {
    if n > 0 {
      PowOfOne(R, n - 1);
      MulOne(R, R.one);
    }
  }

  lemma PowOneTwo<T(!new)>(R: Ring<T>, x: T)
    requires Commutative(R)
    ensures Pow(R, x, 1) == x && Pow(R, x, 2) == R.mul(x, x)
  {
    MulOne(R, x);
    assert Pow(R, x, 1) == R.mul(Pow(R, x, 0), x);
    assert Pow(R, x, 2) == R.mul(Pow(R, x, 1), x);
  }

  // ---------------------------------------------------------------- polynomials

  /** Σ a[j] · x^j */
  function Eval<T>(R: Ring<T>, a: seq<T>, x: T): T {
    if a == [] then R.zero else R.add(a[0], R.mul(x, Eval(R, a[1..], x)))
  }

  function Even<T>(a: seq<T>): (r: seq<T>)
    ensures |r| == (|a| + 1) / 2
  {
    seq((|a| + 1) / 2, i requires 0 <= i < (|a| + 1) / 2 => a[2 * i])
  }

  function Odd<T>(a: seq<T>): (r: seq<T>)
    ensures |r| == |a| / 2
  {
    seq(|a| / 2, i requires 0 <= i < |a| / 2 => a[2 * i + 1])
  }

  /** a(x) == even(x²) + x · odd(x²) */
  lemma {:induction false} EvalSplit<T(!new)>(R: Ring<T>, a: seq<T>, x: T)
    requires Commutative(R)
    ensures Eval(R, a, x) == R.add(Eval(R, Even(a), R.mul(x, x)), R.mul(x, Eval(R, Odd(a), R.mul(x, x))))
  {
    var G, y := R.Plus(), R.mul(x, x);
    if a == [] {
      MulZero(R, x);
      AddZero(G, R.zero);
    } else {
      var b := a[1..];
      EvalSplit(R, b, x);
      assert Even(b) == Odd(a) && Odd(b) == Even(a)[1..];
      var e, o := Eval(R, Odd(b), y), Eval(R, Even(b), y);
      Distributes(R, x, o, R.mul(x, e));
      MulAssoc(R, x, x, e);
      Comm(G, R.mul(x, o), R.mul(y, e));
      Assoc(G, a[0], R.mul(y, e), R.mul(x, o));
      assert Eval(R, Even(a), y) == R.add(a[0], R.mul(y, e));
    }
  }

  lemma {:induction false} EvalAppend<T(!new)>(R: Ring<T>, a: seq<T>, b: seq<T>, x: T)
    requires Commutative(R)
    ensures Eval(R, a + b, x) == R.add(Eval(R, a, x), R.mul(Pow(R, x, |a|), Eval(R, b, x)))
  {
    var G := R.Plus();
    if a == [] {
      assert a + b == b;
      MulOne(R, Eval(R, b, x));
      AddZero(G, Eval(R, b, x));
    } else {
      assert (a + b)[1..] == a[1..] + b;
      EvalAppend(R, a[1..], b, x);
      var p, e := Pow(R, x, |a| - 1), Eval(R, b, x);
      Distributes(R, x, Eval(R, a[1..], x), R.mul(p, e));
      MulAssoc(R, x, p, e);
      MulComm(R, x, p);
      Assoc(G, a[0], R.mul(x, Eval(R, a[1..], x)), R.mul(Pow(R, x, |a|), e));
    }
  }

  /** Evaluation is additive. */
  lemma {:induction false} EvalSum<T(!new)>(R: Ring<T>, a: seq<T>, b: seq<T>, c: seq<T>, x: T)
    requires Commutative(R) && |a| == |b| == |c| && forall i :: 0 <= i < |a| ==> c[i] == R.add(a[i], b[i])
    ensures Eval(R, c, x) == R.add(Eval(R, a, x), Eval(R, b, x))
  {
    var G := R.Plus();
    if a == [] {
      AddZero(G, R.zero);
    } else {
      EvalSum(R, a[1..], b[1..], c[1..], x);
      Distributes(R, x, Eval(R, a[1..], x), Eval(R, b[1..], x));
      Exchange(G, a[0], b[0], R.mul(x, Eval(R, a[1..], x)), R.mul(x, Eval(R, b[1..], x)));
    }
  }

  lemma {:induction false} EvalNeg<T(!new)>(R: Ring<T>, a: seq<T>, b: seq<T>, x: T)
    requires Commutative(R) && |a| == |b| && forall i :: 0 <= i < |a| ==> b[i] == R.neg(a[i])
    ensures Eval(R, b, x) == R.neg(Eval(R, a, x))
  {
    var G := R.Plus();
    if a == [] {
      NegZero(G);
    } else {
      EvalNeg(R, a[1..], b[1..], x);
      MulNeg(R, x, Eval(R, a[1..], x));
      NegSum(G, a[0], R.mul(x, Eval(R, a[1..], x)));
    }
  }

  /** Scaling coefficient `i` by c^i is evaluating at c·x. */
  lemma {:induction false} EvalScale<T(!new)>(R: Ring<T>, a: seq<T>, b: seq<T>, c: T, k: nat, x: T)
    requires Commutative(R) && |a| == |b| && forall i :: 0 <= i < |a| ==> b[i] == R.mul(Pow(R, c, k + i), a[i])
    ensures Eval(R, b, x) == R.mul(Pow(R, c, k), Eval(R, a, R.mul(c, x)))
  {
    if a == [] {
      MulZero(R, Pow(R, c, k));
    } else {
      forall i | 0 <= i < |a| - 1 ensures b[1..][i] == R.mul(Pow(R, c, k + 1 + i), a[1..][i]) {
        assert b[i + 1] == R.mul(Pow(R, c, k + (i + 1)), a[i + 1]);
      }
      EvalScale(R, a[1..], b[1..], c, k + 1, x);
      var p, e := Pow(R, c, k), Eval(R, a[1..], R.mul(c, x));
      Distributes(R, p, a[0], R.mul(R.mul(c, x), e));
      MulAssoc(R, R.mul(p, c), x, e);
      MulComm(R, R.mul(p, c), x);
      MulAssoc(R, x, R.mul(p, c), e);
      MulAssoc(R, p, c, x);
      MulAssoc(R, p, R.mul(c, x), e);
    }
  }
}
