/** Points in the coordinates (X, Y, ZZ, ZZZ) with ZZ³ = ZZZ², which stand for (X/ZZ, Y/ZZZ), and the
    addition and doubling formulas on them. */
module XyzzPoints {
  import opened Rings
  import opened RingSolver
  import opened CurveLaws

  datatype Xyzz<T> = Xyzz(x: T, y: T, zz: T, zzz: T)

  ghost predicate Wellformed<T>(R: Ring<T>, p: Xyzz<T>) {
    Cube(R, p.zz) == R.mul(p.zzz, p.zzz)
  }

  function ValueOf<T(==)>(F: Field<T>, p: Xyzz<T>): Affine<T> {
    if p.zz == F.ring.zero then Infinity else Finite(F.ring.mul(p.x, F.inv(p.zz)), F.ring.mul(p.y, F.inv(p.zzz)))
  }

  /** In affine form (0, 0) stands for infinity. */
  function AffineValue<T(==)>(R: Ring<T>, x: T, y: T): Affine<T> {
    if x == R.zero && y == R.zero then Infinity else Finite(x, y)
  }

  /** ZZ and ZZZ are the square and the cube of ZZZ/ZZ. */
  lemma Scale<T(!new)>(F: Field<T>, zz: T, zzz: T)
    requires IsField(F) && zz != F.ring.zero && Cube(F.ring, zz) == F.ring.mul(zzz, zzz)
    ensures var R, w := F.ring, F.ring.mul(zzz, F.inv(zz));
            && w != R.zero && zzz != R.zero
            && R.mul(w, zz) == zzz && R.mul(w, w) == zz
  {
    var R, w := F.ring, F.ring.mul(zzz, F.inv(zz));
    Cancel(F, zzz, zz);
    MulExchange(R, w, w, zz, zz);
    var z2 := R.mul(zz, zz);
    if z2 == R.zero { NoZeroDivisors(F, zz, zz); }
    CancelRight(F, R.mul(w, w), zz, z2);
    if w == R.zero {
      MulZero(R, w);
      assert false;
    }
    if zzz == R.zero {
      NoZeroDivisors(F, w, zz);
      assert false;
    }
  }

  /** The coordinates of a finite point, written with its affine value */
  lemma Coordinates<T(!new)>(F: Field<T>, p: Xyzz<T>)
    requires IsField(F) && p.zz != F.ring.zero && Wellformed(F.ring, p)
    ensures var v := ValueOf(F, p);
            v.Finite? && p.x == F.ring.mul(v.x, p.zz) && p.y == F.ring.mul(v.y, p.zzz)
  {
    Scale(F, p.zz, p.zzz);
    Cancel(F, p.x, p.zz);
    Cancel(F, p.y, p.zzz);
  }

  lemma FinitePoint<T(!new)>(F: Field<T>, x: T, y: T, s: T)
    requires IsField(F) && s != F.ring.zero
    ensures var R := F.ring;
            var z2, z3 := R.mul(s, s), R.mul(s, R.mul(s, s));
            var p := Xyzz(R.mul(x, z2), R.mul(y, z3), z2, z3);
            Wellformed(R, p) && ValueOf(F, p) == Finite(x, y)
  {
    var R := F.ring;
    var z2, z3 := R.mul(s, s), R.mul(s, R.mul(s, s));
    if z2 == R.zero { NoZeroDivisors(F, s, s); }
    if z3 == R.zero { NoZeroDivisors(F, s, z2); }
    Cancel(F, x, z2);
    Cancel(F, y, z3);
    MulExchange(R, s, z2, s, z2);
  }

  // ---------------------------------------------------------------- powers of a product

  /** (x·w²)·p² == x·(w·p)² */
  lemma SquaresMeet<T(!new)>(R: Ring<T>, x: T, w: T, p: T)
    requires Commutative(R)
    ensures R.mul(R.mul(x, R.mul(w, w)), R.mul(p, p)) == R.mul(x, R.mul(R.mul(w, p), R.mul(w, p)))
    ensures R.mul(R.mul(w, w), R.mul(p, p)) == R.mul(R.mul(w, p), R.mul(w, p))
  {
    MulExchange(R, w, w, p, p);
    MulAssoc(R, x, R.mul(w, w), R.mul(p, p));
  }

  /** (y·w³)·p³ == y·(w·p)³ */
  lemma CubesMeet<T(!new)>(R: Ring<T>, y: T, w: T, p: T)
    requires Commutative(R)
    ensures R.mul(Cube(R, w), Cube(R, p)) == Cube(R, R.mul(w, p))
    ensures R.mul(R.mul(y, Cube(R, w)), Cube(R, p)) == R.mul(y, Cube(R, R.mul(w, p)))
  {
    MulExchange(R, w, R.mul(w, w), p, R.mul(p, p));
    MulExchange(R, w, w, p, p);
    MulAssoc(R, y, Cube(R, w), Cube(R, p));
  }

  /** (l·d)·w³ == l·(w·(d·w²)) */
  lemma SlopeScaled<T(!new)>(R: Ring<T>, l: T, d: T, w: T)
    requires Commutative(R)
    ensures R.mul(R.mul(l, d), Cube(R, w)) == R.mul(l, R.mul(w, R.mul(d, R.mul(w, w))))
  {
    var z := R.mul(w, w);
    MulAssoc(R, l, d, R.mul(w, z));
    MulAssoc(R, d, w, z);
    MulComm(R, d, w);
    MulAssoc(R, w, d, z);
  }

  // ---------------------------------------------------------------- the common end of both formulas

  /** X3 of a chord */
  lemma ThirdX<T(!new)>(R: Ring<T>, l: T, s: T, x1: T, x2: T)
    requires Commutative(R)
    ensures R.sub(R.sub(R.sub(R.mul(l, s), R.mul(R.sub(x2, x1), s)), R.mul(x1, s)), R.mul(x1, s))
         == R.mul(R.sub(R.sub(l, x1), x2), s)
  {
    hide Commutative, Norm;
    ThirdXNorm();
    var L, S, X, Y := Var(0), Var(1), Var(2), Var(3);
    ByRing(R, [l, s, x1, x2], Sub(Sub(Sub(Mul(L, S), Mul(Sub(Y, X), S)), Mul(X, S)), Mul(X, S)),
           Mul(Sub(Sub(L, X), Y), S));
  }

  lemma ThirdXNorm()
    ensures var L, S, X, Y := Var(0), Var(1), Var(2), Var(3);
            Norm(Sub(Sub(Sub(Mul(L, S), Mul(Sub(Y, X), S)), Mul(X, S)), Mul(X, S))) ==
            Norm(Mul(Sub(Sub(L, X), Y), S))
  {
  }

  /** X3 of a tangent */
  lemma TangentX<T(!new)>(R: Ring<T>, l: T, s: T, x: T)
    requires Commutative(R)
    ensures R.sub(R.sub(R.mul(l, s), R.mul(x, s)), R.mul(x, s)) == R.mul(R.sub(R.sub(l, x), x), s)
  {
    hide Commutative;
    var L, S, X := Var(0), Var(1), Var(2);
    ByRing(R, [l, s, x], Sub(Sub(Mul(L, S), Mul(X, S)), Mul(X, S)), Mul(Sub(Sub(L, X), X), S));
  }

  /** Y3 of both */
  lemma ThirdY<T(!new)>(R: Ring<T>, x: T, x3: T, l: T, s: T, z: T, y: T)
    requires Commutative(R)
    ensures R.sub(R.mul(R.sub(R.mul(x, z), R.mul(x3, z)), R.mul(l, s)), R.mul(y, R.mul(s, z)))
         == R.mul(R.sub(R.mul(l, R.sub(x, x3)), y), R.mul(s, z))
  {
    hide Commutative, Norm;
    ThirdYNorm();
    var X, W, L, S, Z, Y := Var(0), Var(1), Var(2), Var(3), Var(4), Var(5);
    ByRing(R, [x, x3, l, s, z, y], Sub(Mul(Sub(Mul(X, Z), Mul(W, Z)), Mul(L, S)), Mul(Y, Mul(S, Z))),
           Mul(Sub(Mul(L, Sub(X, W)), Y), Mul(S, Z)));
  }

  lemma ThirdYNorm()
    ensures var X, W, L, S, Z, Y := Var(0), Var(1), Var(2), Var(3), Var(4), Var(5);
            Norm(Sub(Mul(Sub(Mul(X, Z), Mul(W, Z)), Mul(L, S)), Mul(Y, Mul(S, Z)))) ==
            Norm(Mul(Sub(Mul(L, Sub(X, W)), Y), Mul(S, Z)))
  {
  }

  // ---------------------------------------------------------------- addition

  /** The addition formula, after the coordinates of both points have been brought to the common
      denominators `zz` and `zzz` */
  function ChordFormula<T>(R: Ring<T>, U1: T, S1: T, P: T, r: T, zz: T, zzz: T): Xyzz<T> {
    var PP := R.mul(P, P);
    var PPP := R.mul(P, PP);
    var Q := R.mul(U1, PP);
    var X3 := R.sub(R.sub(R.sub(R.mul(r, r), PPP), Q), Q);
    Xyzz(X3, R.sub(R.mul(R.sub(Q, X3), r), R.mul(S1, PPP)), R.mul(zz, PP), R.mul(zzz, PPP))
  }

  /** The two differences vanish exactly for equal points. */
  lemma DifferencesVanish<T(!new)>(F: Field<T>, x1: T, x2: T, z: T)
    requires IsField(F) && z != F.ring.zero
    ensures F.ring.sub(F.ring.mul(x2, z), F.ring.mul(x1, z)) == F.ring.mul(F.ring.sub(x2, x1), z)
    ensures F.ring.sub(F.ring.mul(x2, z), F.ring.mul(x1, z)) == F.ring.zero <==> x1 == x2
  {
    var R := F.ring;
    Distributes(R, z, x2, R.neg(x1));
    MulNeg(R, x1, z);
    SubZero(R, R.mul(x2, z), R.mul(x1, z));
    if R.mul(x2, z) == R.mul(x1, z) { CancelRight(F, x2, x1, z); }
  }

  /** For different points with a common denominator the formula gives the affine sum. */
  lemma ChordIsSum<T(!new)>(C: Params<T>, x1: T, y1: T, x2: T, y2: T, zz: T, zzz: T)
    requires IsField(C.F) && zz != C.F.ring.zero && Cube(C.F.ring, zz) == C.F.ring.mul(zzz, zzz)
    requires x1 != x2 || y1 != y2
    ensures var R := C.F.ring;
            var U1, S1 := R.mul(x1, zz), R.mul(y1, zzz);
            var p := ChordFormula(R, U1, S1, R.sub(R.mul(x2, zz), U1), R.sub(R.mul(y2, zzz), S1), zz, zzz);
            Wellformed(R, p) && ValueOf(C.F, p) == Sum(C, Finite(x1, y1), Finite(x2, y2))
  {
    var R := C.F.ring;
    Scale(C.F, zz, zzz);
    DifferencesVanish(C.F, x1, x2, zz);
    DifferencesVanish(C.F, y1, y2, zzz);
    if x1 == x2 {
      VerticalChord(C.F, R.mul(x1, zz), R.mul(y1, zzz), R.sub(R.mul(y2, zzz), R.mul(y1, zzz)), zz, zzz);
    } else {
      var w := R.mul(zzz, C.F.inv(zz));
      var d, lam := R.sub(x2, x1), ChordSlope(C.F, x1, y1, x2, y2);
      SubZero(R, x2, x1);
      Cancel(C.F, R.sub(y2, y1), d);
      SlantedChord(C.F, x1, y1, x2, lam, w);
    }
  }

  lemma VerticalChord<T(!new)>(F: Field<T>, U1: T, S1: T, r: T, zz: T, zzz: T)
    requires IsField(F)
    ensures var p := ChordFormula(F.ring, U1, S1, F.ring.zero, r, zz, zzz);
            Wellformed(F.ring, p) && ValueOf(F, p) == Infinity
  {
    MulZero(F.ring, F.ring.zero);
    MulZero(F.ring, zz);
    MulZero(F.ring, zzz);
  }

  /** With ZZ = w², ZZZ = w³ and slope lam, everything is a multiple of a power of s = w·P. */
  lemma SlantedChord<T(!new)>(F: Field<T>, x1: T, y1: T, x2: T, lam: T, w: T)
    requires IsField(F) && w != F.ring.zero && x1 != x2
    ensures var R := F.ring;
            var zz, zzz, d := R.mul(w, w), Cube(R, w), R.sub(x2, x1);
            var p := ChordFormula(R, R.mul(x1, zz), R.mul(y1, zzz), R.mul(d, zz), R.mul(R.mul(lam, d), zzz), zz, zzz);
            Wellformed(R, p) && ValueOf(F, p) == LinePoint(R, x1, y1, x2, lam)
  {
    var R := F.ring;
    var zz, zzz, d := R.mul(w, w), Cube(R, w), R.sub(x2, x1);
    var P := R.mul(d, zz);
    var s := R.mul(w, P);
    var ss := R.mul(s, s);
    NotZero(F, d, w, x1, x2);
    SlopeScaled(R, lam, d, w);
    SquaresMeet(R, x1, w, P);
    SquaresMeet(R, d, w, P);
    CubesMeet(R, y1, w, P);
    MulExchange(R, lam, s, lam, s);
    ThirdX(R, R.mul(lam, lam), ss, x1, x2);
    var q := LinePoint(R, x1, y1, x2, lam);
    ThirdY(R, x1, q.x, lam, s, ss, y1);
    FinitePoint(F, q.x, q.y, s);
  }

  lemma NotZero<T(!new)>(F: Field<T>, d: T, w: T, x1: T, x2: T)
    requires IsField(F) && w != F.ring.zero && x1 != x2 && d == F.ring.sub(x2, x1)
    ensures F.ring.mul(w, F.ring.mul(d, F.ring.mul(w, w))) != F.ring.zero
  {
    var R := F.ring;
    SubZero(R, x2, x1);
    if R.mul(w, R.mul(d, R.mul(w, w))) == R.zero {
      NoZeroDivisors(F, w, R.mul(d, R.mul(w, w)));
      NoZeroDivisors(F, d, R.mul(w, w));
      NoZeroDivisors(F, w, w);
    }
  }

  // ---------------------------------------------------------------- doubling

  /** The doubling formula; M is 3·X² + a·ZZ² */
  function TangentFormula<T>(R: Ring<T>, X: T, Y: T, M: T, zz: T, zzz: T): Xyzz<T> {
    var U := R.add(Y, Y);
    var V := R.mul(U, U);
    var W := R.mul(U, V);
    var S := R.mul(X, V);
    var X3 := R.sub(R.sub(R.mul(M, M), S), S);
    Xyzz(X3, R.sub(R.mul(M, R.sub(S, X3)), R.mul(W, Y)), R.mul(V, zz), R.mul(W, zzz))
  }

  function Numerator<T>(C: Params<T>, X: T, zz: T): T {
    var R := C.F.ring;
    R.add(R.add(R.mul(X, X), R.add(R.mul(X, X), R.mul(X, X))), R.mul(C.a, R.mul(zz, zz)))
  }

  /** 3·X² + a·ZZ² == (3·x² + a)·ZZ² */
  lemma NumeratorScaled<T(!new)>(C: Params<T>, x: T, zz: T)
    requires Commutative(C.F.ring)
    ensures Numerator(C, C.F.ring.mul(x, zz), zz) == C.F.ring.mul(SlopeNumerator(C, x), C.F.ring.mul(zz, zz))
  {
    var R := C.F.ring;
    MulExchange(R, x, zz, x, zz);
    SumScaled(R, R.mul(x, x), C.a, R.mul(zz, zz));
  }

  lemma SumScaled<T(!new)>(R: Ring<T>, q: T, a: T, z: T)
    requires Commutative(R)
    ensures R.add(R.add(R.mul(q, z), R.add(R.mul(q, z), R.mul(q, z))), R.mul(a, z))
         == R.mul(R.add(R.add(q, R.add(q, q)), a), z)
  {
    hide Commutative, Norm;
    SumNorm();
    var Q, A, Z := Var(0), Var(1), Var(2);
    ByRing(R, [q, a, z], Add(Add(Mul(Q, Z), Add(Mul(Q, Z), Mul(Q, Z))), Mul(A, Z)),
           Mul(Add(Add(Q, Add(Q, Q)), A), Z));
  }

  lemma SumNorm()
    ensures var Q, A, Z := Var(0), Var(1), Var(2);
            Norm(Add(Add(Mul(Q, Z), Add(Mul(Q, Z), Mul(Q, Z))), Mul(A, Z))) ==
            Norm(Mul(Add(Add(Q, Add(Q, Q)), A), Z))
  {
  }

  lemma TangentIsDouble<T(!new)>(C: Params<T>, x: T, y: T, zz: T, zzz: T)
    requires IsField(C.F) && zz != C.F.ring.zero && Cube(C.F.ring, zz) == C.F.ring.mul(zzz, zzz)
    ensures var R := C.F.ring;
            var X := R.mul(x, zz);
            var p := TangentFormula(R, X, R.mul(y, zzz), Numerator(C, X, zz), zz, zzz);
            Wellformed(R, p) && ValueOf(C.F, p) == Double(C, Finite(x, y))
  {
    var R := C.F.ring;
    var X, Y, u := R.mul(x, zz), R.mul(y, zzz), R.add(y, y);
    Scale(C.F, zz, zzz);
    Distributes(R, zzz, y, y);
    NumeratorScaled(C, x, zz);
    if u == R.zero {
      MulZero(R, zzz);
      FlatTangent(C.F, X, Y, Numerator(C, X, zz), zz, zzz);
    } else {
      var w, lam := R.mul(zzz, C.F.inv(zz)), TangentSlope(C, x, y);
      Cancel(C.F, SlopeNumerator(C, x), u);
      SlantedTangent(C.F, x, y, lam, w);
    }
  }

  lemma FlatTangent<T(!new)>(F: Field<T>, X: T, Y: T, M: T, zz: T, zzz: T)
    requires IsField(F) && F.ring.add(Y, Y) == F.ring.zero
    ensures var p := TangentFormula(F.ring, X, Y, M, zz, zzz);
            Wellformed(F.ring, p) && ValueOf(F, p) == Infinity
  {
    MulZero(F.ring, F.ring.zero);
    MulZero(F.ring, zz);
    MulZero(F.ring, zzz);
  }

  lemma SlantedTangent<T(!new)>(F: Field<T>, x: T, y: T, lam: T, w: T)
    requires IsField(F) && w != F.ring.zero && F.ring.add(y, y) != F.ring.zero
    ensures var R := F.ring;
            var zz, zzz := R.mul(w, w), Cube(R, w);
            var M := R.mul(R.mul(lam, R.add(y, y)), R.mul(zz, zz));
            var p := TangentFormula(R, R.mul(x, zz), R.mul(y, zzz), M, zz, zzz);
            Wellformed(R, p) && ValueOf(F, p) == LinePoint(R, x, y, x, lam)
  {
    var R := F.ring;
    var zz, zzz := R.mul(w, w), Cube(R, w);
    var u, Y := R.add(y, y), R.mul(y, zzz);
    var U := R.mul(u, zzz);
    var s := R.mul(w, U);
    var ss := R.mul(s, s);
    Distributes(R, zzz, y, y);
    TangentScale(F, lam, u, w);
    SquaresMeet(R, x, w, U);
    CubesMeet(R, y, w, U);
    MulComm(R, R.mul(U, U), zz);
    MulComm(R, Cube(R, U), zzz);
    MulComm(R, Cube(R, U), Y);
    MulExchange(R, lam, s, lam, s);
    TangentX(R, R.mul(lam, lam), ss, x);
    var q := LinePoint(R, x, y, x, lam);
    MulComm(R, R.mul(lam, s), R.sub(R.mul(x, ss), R.mul(q.x, ss)));
    ThirdY(R, x, q.x, lam, s, ss, y);
    FinitePoint(F, q.x, q.y, s);
  }

  /** (l·u)·w⁴ == l·(w·(u·w³)), and w·(u·w³) is not zero */
  lemma TangentScale<T(!new)>(F: Field<T>, l: T, u: T, w: T)
    requires IsField(F) && u != F.ring.zero && w != F.ring.zero
    ensures var R := F.ring;
            var zz, s := R.mul(w, w), R.mul(w, R.mul(u, Cube(R, w)));
            s != R.zero && R.mul(R.mul(l, u), R.mul(zz, zz)) == R.mul(l, s)
  {
    var R := F.ring;
    var zz, zzz := R.mul(w, w), Cube(R, w);
    MulAssoc(R, w, w, zz);
    MulAssoc(R, l, u, R.mul(zz, zz));
    MulAssoc(R, u, w, zzz);
    MulComm(R, u, w);
    MulAssoc(R, w, u, zzz);
    if R.mul(w, R.mul(u, zzz)) == R.zero {
      NoZeroDivisors(F, w, R.mul(u, zzz));
      NoZeroDivisors(F, u, zzz);
      NoZeroDivisors(F, w, zz);
      NoZeroDivisors(F, w, w);
    }
  }
}
