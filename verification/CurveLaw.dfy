/** The chord-and-tangent law on affine points of y² = x³ + a·x + b over a field, and points in the
    coordinates (X, Y, ZZ, ZZZ) that stand for X/ZZ and Y/ZZZ. */
module CurveLaws {
  import opened Groups
  import opened Rings
  import opened RingSolver

  datatype Field<!T> = Field(ring: Ring<T>, inv: T -> T)

  ghost predicate InverseAt<T>(F: Field<T>, x: T) {
    x != F.ring.zero ==> F.ring.mul(x, F.inv(x)) == F.ring.one
  }

  ghost predicate IsField<T(!new)>(F: Field<T>) {
    Commutative(F.ring) && F.ring.one != F.ring.zero && forall x :: InverseAt(F, x)
  }

  /** x·z/z == x */
  lemma Cancel<T(!new)>(F: Field<T>, x: T, z: T)
    requires IsField(F) && z != F.ring.zero
    ensures F.ring.mul(F.ring.mul(x, z), F.inv(z)) == x
    ensures F.ring.mul(F.ring.mul(x, F.inv(z)), z) == x
  {
    var R := F.ring;
    assert InverseAt(F, z);
    MulAssoc(R, x, z, F.inv(z));
    MulOne(R, x);
    MulSwapLast(R, x, z, F.inv(z));
  }

  lemma NoZeroDivisors<T(!new)>(F: Field<T>, x: T, y: T)
    requires IsField(F) && F.ring.mul(x, y) == F.ring.zero
    ensures x == F.ring.zero || y == F.ring.zero
  {
    if y != F.ring.zero {
      Cancel(F, x, y);
      MulZero(F.ring, F.inv(y));
    }
  }

  lemma CancelRight<T(!new)>(F: Field<T>, x: T, y: T, z: T)
    requires IsField(F) && z != F.ring.zero && F.ring.mul(x, z) == F.ring.mul(y, z)
    ensures x == y
  {
    Cancel(F, x, z);
    Cancel(F, y, z);
  }

  lemma SubZero<T(!new)>(R: Ring<T>, x: T, y: T)
    requires Commutative(R)
    ensures R.sub(x, y) == R.zero <==> x == y
  {
    CancelNeg(R.Plus(), x, y);
    AddZero(R.Plus(), y);
    assert NegAt(R.Plus(), y);
  }

  // ---------------------------------------------------------------- the affine law

  datatype Affine<T> = Infinity | Finite(x: T, y: T)

  datatype Params<!T> = Params(F: Field<T>, a: T, b: T)

  function Cube<T>(R: Ring<T>, x: T): T {
    R.mul(x, R.mul(x, x))
  }

  ghost predicate OnCurve<T>(C: Params<T>, p: Affine<T>) {
    p.Finite? ==> var R := C.F.ring;
                  R.mul(p.y, p.y) == R.add(R.add(Cube(R, p.x), R.mul(C.a, p.x)), C.b)
  }

  /** The third point, mirrored, of the line through (x1, y1) with slope lam that also passes x2 */
  function LinePoint<T>(R: Ring<T>, x1: T, y1: T, x2: T, lam: T): Affine<T> {
    var x3 := R.sub(R.sub(R.mul(lam, lam), x1), x2);
    Finite(x3, R.sub(R.mul(lam, R.sub(x1, x3)), y1))
  }

  function ChordSlope<T>(F: Field<T>, x1: T, y1: T, x2: T, y2: T): T {
    F.ring.mul(F.ring.sub(y2, y1), F.inv(F.ring.sub(x2, x1)))
  }

  function TangentSlope<T>(C: Params<T>, x: T, y: T): T {
    var R := C.F.ring;
    R.mul(SlopeNumerator(C, x), C.F.inv(R.add(y, y)))
  }

  /** 3·x² + a */
  function SlopeNumerator<T>(C: Params<T>, x: T): T {
    var R := C.F.ring;
    R.add(R.add(R.mul(x, x), R.add(R.mul(x, x), R.mul(x, x))), C.a)
  }

  function Double<T(==)>(C: Params<T>, p: Affine<T>): Affine<T> {
    if p.Infinity? || C.F.ring.add(p.y, p.y) == C.F.ring.zero then Infinity
    else LinePoint(C.F.ring, p.x, p.y, p.x, TangentSlope(C, p.x, p.y))
  }

  function Sum<T(==)>(C: Params<T>, p: Affine<T>, q: Affine<T>): Affine<T> {
    if p.Infinity? then q
    else if q.Infinity? then p
    else if p.x != q.x then LinePoint(C.F.ring, p.x, p.y, q.x, ChordSlope(C.F, p.x, p.y, q.x, q.y))
    else if p.y == q.y then Double(C, p)
    else Infinity
  }

  function Negated<T>(R: Ring<T>, p: Affine<T>): Affine<T> {
    if p.Infinity? then p else Finite(p.x, R.neg(p.y))
  }

  // ---------------------------------------------------------------- the law stays on the curve

  /** x³ + a·x + b - (lam·(x - x1) + y1)²: zero where the line meets the curve */
  function Gap<T>(C: Params<T>, x1: T, y1: T, lam: T, x: T): T {
    var R := C.F.ring;
    var y := R.add(R.mul(lam, R.sub(x, x1)), y1);
    R.sub(R.add(R.add(Cube(R, x), R.mul(C.a, x)), C.b), R.mul(y, y))
  }

  /** The gap divided by x - x1 */
  function Quotient<T>(C: Params<T>, x1: T, y1: T, lam: T, x: T): T {
    var R := C.F.ring;
    R.sub(R.add(R.add(R.mul(x, R.add(x, x1)), R.mul(x1, x1)), C.a),
          R.mul(lam, R.add(R.mul(lam, R.sub(x, x1)), R.add(y1, y1))))
  }

  /** gap(x) == gap(x1) + (x - x1) · quotient(x), where gap(x1) is the gap of (x1, y1) itself */
  lemma GapFactors<T(!new)>(C: Params<T>, x1: T, y1: T, lam: T, x: T)
    requires Commutative(C.F.ring)
    requires OnCurve(C, Finite(x1, y1))
    ensures Gap(C, x1, y1, lam, x) == C.F.ring.mul(C.F.ring.sub(x, x1), Quotient(C, x1, y1, lam, x))
  {
    var R := C.F.ring;
    var t := R.sub(x, x1);
    var u := R.mul(lam, t);
    var curve := R.add(R.add(Cube(R, x), R.mul(C.a, x)), C.b);
    var curve1 := R.add(R.add(Cube(R, x1), R.mul(C.a, x1)), C.b);
    CurveDifference(R, x, x1, C.a, C.b);
    SquareDifference(R, u, y1);
    Telescope(R, curve, curve1, R.mul(R.add(u, y1), R.add(u, y1)), R.mul(y1, y1));
    assert Gap(C, x1, y1, lam, x) == R.sub(R.sub(curve, curve1), R.mul(u, R.add(u, R.add(y1, y1))));
    Factor2(R, t, R.add(R.add(R.mul(x, R.add(x, x1)), R.mul(x1, x1)), C.a), lam, R.add(u, R.add(y1, y1)));
  }

  lemma CurveDifference<T(!new)>(R: Ring<T>, x: T, x1: T, a: T, b: T)
    requires Commutative(R)
    ensures R.sub(R.add(R.add(Cube(R, x), R.mul(a, x)), b), R.add(R.add(Cube(R, x1), R.mul(a, x1)), b))
         == R.mul(R.sub(x, x1), R.add(R.add(R.mul(x, R.add(x, x1)), R.mul(x1, x1)), a))
  {
    var t, k := R.sub(x, x1), R.add(R.mul(x, R.add(x, x1)), R.mul(x1, x1));
    Collect(R, Cube(R, x), Cube(R, x1), a, x, x1, b);
    CubeDifference(R, x, x1);
    Distributes(R, t, k, a);
    MulComm(R, a, t);
  }

  /** (c + a·x + b) - (d + a·y + b) == (c - d) + a·(x - y) */
  lemma Collect<T(!new)>(R: Ring<T>, c: T, d: T, a: T, x: T, y: T, b: T)
    requires Commutative(R)
    ensures R.sub(R.add(R.add(c, R.mul(a, x)), b), R.add(R.add(d, R.mul(a, y)), b))
         == R.add(R.sub(c, d), R.mul(a, R.sub(x, y)))
  {
    hide Commutative;
    var C, D, A, X, Y, B := Var(0), Var(1), Var(2), Var(3), Var(4), Var(5);
    ByRing(R, [c, d, a, x, y, b],
           Sub(Add(Add(C, Mul(A, X)), B), Add(Add(D, Mul(A, Y)), B)), Add(Sub(C, D), Mul(A, Sub(X, Y))));
  }

  lemma CubeDifference<T(!new)>(R: Ring<T>, x: T, y: T)
    requires Commutative(R)
    ensures R.sub(R.mul(x, R.mul(x, x)), R.mul(y, R.mul(y, y)))
         == R.mul(R.sub(x, y), R.add(R.mul(x, R.add(x, y)), R.mul(y, y)))
  {
    hide Commutative, Norm;
    CubeNorm();
    var X, Y := Var(0), Var(1);
    ByRing(R, [x, y], Sub(Mul(X, Mul(X, X)), Mul(Y, Mul(Y, Y))), Mul(Sub(X, Y), Add(Mul(X, Add(X, Y)), Mul(Y, Y))));
  }

  lemma CubeNorm()
    ensures var X, Y := Var(0), Var(1);
            Norm(Sub(Mul(X, Mul(X, X)), Mul(Y, Mul(Y, Y)))) ==
            Norm(Mul(Sub(X, Y), Add(Mul(X, Add(X, Y)), Mul(Y, Y))))
  {
  }

  /** (u + y)² - y² == u·(u + 2·y) */
  lemma SquareDifference<T(!new)>(R: Ring<T>, u: T, y: T)
    requires Commutative(R)
    ensures R.sub(R.mul(R.add(u, y), R.add(u, y)), R.mul(y, y)) == R.mul(u, R.add(u, R.add(y, y)))
  {
    hide Commutative;
    var U, Y := Var(0), Var(1);
    ByRing(R, [u, y], Sub(Mul(Add(U, Y), Add(U, Y)), Mul(Y, Y)), Mul(U, Add(U, Add(Y, Y))));
  }

  /** c - s == (c - d) - (s - d) */
  lemma Telescope<T(!new)>(R: Ring<T>, c: T, d: T, s: T, e: T)
    requires Commutative(R) && d == e
    ensures R.sub(c, s) == R.sub(R.sub(c, d), R.sub(s, e))
  {
    hide Commutative;
    var C, D, S := Var(0), Var(1), Var(2);
    ByRing(R, [c, d, s], Sub(C, S), Sub(Sub(C, D), Sub(S, D)));
  }

  /** t·p - (l·t)·q == t·(p - l·q) */
  lemma Factor2<T(!new)>(R: Ring<T>, t: T, p: T, l: T, q: T)
    requires Commutative(R)
    ensures R.sub(R.mul(t, p), R.mul(R.mul(l, t), q)) == R.mul(t, R.sub(p, R.mul(l, q)))
  {
    hide Commutative;
    var X, P, L, Q := Var(0), Var(1), Var(2), Var(3);
    ByRing(R, [t, p, l, q], Sub(Mul(X, P), Mul(Mul(L, X), Q)), Mul(X, Sub(P, Mul(L, Q))));
  }

  /** quotient(x3) == quotient(x2) when x3 == lam² - x1 - x2 */
  lemma QuotientAtThird<T(!new)>(C: Params<T>, x1: T, y1: T, lam: T, x2: T)
    requires Commutative(C.F.ring)
    ensures var x3 := LinePoint(C.F.ring, x1, y1, x2, lam).x;
            Quotient(C, x1, y1, lam, x3) == Quotient(C, x1, y1, lam, x2)
  {
    var R := C.F.ring;
    var x3 := LinePoint(R, x1, y1, x2, lam).x;
    var n := R.sub(R.add(R.add(x3, x2), x1), R.mul(lam, lam));
    ThirdRoot(R, x1, x2, R.mul(lam, lam));
    QuotientDifference(R, x1, y1, lam, x2, x3, C.a);
    MulZero(R, R.sub(x3, x2));
    SubZero(R, Quotient(C, x1, y1, lam, x3), Quotient(C, x1, y1, lam, x2));
  }

  lemma ThirdRoot<T(!new)>(R: Ring<T>, x1: T, x2: T, l: T)
    requires Commutative(R)
    ensures R.sub(R.add(R.add(R.sub(R.sub(l, x1), x2), x2), x1), l) == R.zero
  {
    assert NegAt(R.Plus(), l);
    hide Commutative;
    var X, Y, L := Var(0), Var(1), Var(2);
    ByRing(R, [x1, x2, l], Sub(Add(Add(Sub(Sub(L, X), Y), Y), X), L), Sub(L, L));
  }

  lemma QuotientDifference<T(!new)>(R: Ring<T>, x1: T, y1: T, lam: T, x2: T, x3: T, a: T)
    requires Commutative(R)
    ensures R.sub(R.sub(R.add(R.add(R.mul(x3, R.add(x3, x1)), R.mul(x1, x1)), a),
                        R.mul(lam, R.add(R.mul(lam, R.sub(x3, x1)), R.add(y1, y1)))),
                  R.sub(R.add(R.add(R.mul(x2, R.add(x2, x1)), R.mul(x1, x1)), a),
                        R.mul(lam, R.add(R.mul(lam, R.sub(x2, x1)), R.add(y1, y1)))))
         == R.mul(R.sub(x3, x2), R.sub(R.add(R.add(x3, x2), x1), R.mul(lam, lam)))
  {
    var p3, p2 := R.mul(x3, R.add(x3, x1)), R.mul(x2, R.add(x2, x1));
    var k, y := R.mul(x1, x1), R.add(y1, y1);
    DropCommon(R, p3, p2, k, a, R.mul(lam, R.add(R.mul(lam, R.sub(x3, x1)), y)),
               R.mul(lam, R.add(R.mul(lam, R.sub(x2, x1)), y)));
    SlopePart(R, lam, x3, x2, x1, y);
    SquarePart(R, x3, x2, x1, R.mul(lam, lam));
  }

  /** (p + k + a - r) - (q + k + a - s) == (p - q) - (r - s) */
  lemma DropCommon<T(!new)>(R: Ring<T>, p: T, q: T, k: T, a: T, r: T, s: T)
    requires Commutative(R)
    ensures R.sub(R.sub(R.add(R.add(p, k), a), r), R.sub(R.add(R.add(q, k), a), s)) == R.sub(R.sub(p, q), R.sub(r, s))
  {
    hide Commutative;
    var P, Q, K, A, U, V := Var(0), Var(1), Var(2), Var(3), Var(4), Var(5);
    ByRing(R, [p, q, k, a, r, s], Sub(Sub(Add(Add(P, K), A), U), Sub(Add(Add(Q, K), A), V)), Sub(Sub(P, Q), Sub(U, V)));
  }

  lemma SlopePart<T(!new)>(R: Ring<T>, lam: T, x3: T, x2: T, x1: T, y: T)
    requires Commutative(R)
    ensures R.sub(R.mul(lam, R.add(R.mul(lam, R.sub(x3, x1)), y)), R.mul(lam, R.add(R.mul(lam, R.sub(x2, x1)), y)))
         == R.mul(R.mul(lam, lam), R.sub(x3, x2))
  {
    SlopeDifference(R, lam, R.sub(x3, x1), R.sub(x2, x1), y);
    Regroup(R, x3, x2, x1);
  }

  lemma SlopeDifference<T(!new)>(R: Ring<T>, lam: T, u: T, v: T, y: T)
    requires Commutative(R)
    ensures R.sub(R.mul(lam, R.add(R.mul(lam, u), y)), R.mul(lam, R.add(R.mul(lam, v), y)))
         == R.mul(R.mul(lam, lam), R.sub(u, v))
  {
    hide Commutative, Norm;
    SlopeNorm();
    var L, U, V, Y := Var(0), Var(1), Var(2), Var(3);
    ByRing(R, [lam, u, v, y], Sub(Mul(L, Add(Mul(L, U), Y)), Mul(L, Add(Mul(L, V), Y))), Mul(Mul(L, L), Sub(U, V)));
  }

  lemma SlopeNorm()
    ensures var L, U, V, Y := Var(0), Var(1), Var(2), Var(3);
            Norm(Sub(Mul(L, Add(Mul(L, U), Y)), Mul(L, Add(Mul(L, V), Y)))) == Norm(Mul(Mul(L, L), Sub(U, V)))
  {
  }

  /** (x - z) - (y - z) == x - y */
  lemma Regroup<T(!new)>(R: Ring<T>, x: T, y: T, z: T)
    requires Commutative(R)
    ensures R.sub(R.sub(x, z), R.sub(y, z)) == R.sub(x, y)
  {
    hide Commutative;
    var X, Y, Z := Var(0), Var(1), Var(2);
    ByRing(R, [x, y, z], Sub(Sub(X, Z), Sub(Y, Z)), Sub(X, Y));
  }

  lemma SquarePart<T(!new)>(R: Ring<T>, x3: T, x2: T, x1: T, l: T)
    requires Commutative(R)
    ensures R.sub(R.sub(R.mul(x3, R.add(x3, x1)), R.mul(x2, R.add(x2, x1))), R.mul(l, R.sub(x3, x2)))
         == R.mul(R.sub(x3, x2), R.sub(R.add(R.add(x3, x2), x1), l))
  {
    hide Commutative, Norm;
    var t, k := R.sub(x3, x2), R.add(R.add(x3, x2), x1);
    SquareNorm();
    var X, Y, Z := Var(0), Var(1), Var(2);
    ByRing(R, [x3, x2, x1], Sub(Mul(X, Add(X, Z)), Mul(Y, Add(Y, Z))), Mul(Sub(X, Y), Add(Add(X, Y), Z)));
    Distributes(R, t, k, R.neg(l));
    MulNeg(R, t, l);
    MulComm(R, t, l);
  }

  lemma SquareNorm()
    ensures var X, Y, Z := Var(0), Var(1), Var(2);
            Norm(Sub(Mul(X, Add(X, Z)), Mul(Y, Add(Y, Z)))) == Norm(Mul(Sub(X, Y), Add(Add(X, Y), Z)))
  {
  }

  /** A line that meets the curve in (x1, y1), and once more at x2 (or is tangent there), meets it again
      in the mirror image of the third point. */
  lemma LineMeetsCurve<T(!new)>(C: Params<T>, x1: T, y1: T, lam: T, x2: T)
    requires Commutative(C.F.ring) && OnCurve(C, Finite(x1, y1))
    requires Quotient(C, x1, y1, lam, x2) == C.F.ring.zero
    ensures OnCurve(C, LinePoint(C.F.ring, x1, y1, x2, lam))
  {
    var R := C.F.ring;
    var p := LinePoint(R, x1, y1, x2, lam);
    QuotientAtThird(C, x1, y1, lam, x2);
    GapFactors(C, x1, y1, lam, p.x);
    MulZero(R, R.sub(p.x, x1));
    var y := R.add(R.mul(lam, R.sub(p.x, x1)), y1);
    SubZero(R, R.add(R.add(Cube(R, p.x), R.mul(C.a, p.x)), C.b), R.mul(y, y));
    MirrorSquare(R, lam, p.x, x1, y1);
  }

  lemma MirrorSquare<T(!new)>(R: Ring<T>, lam: T, x: T, x1: T, y1: T)
    requires Commutative(R)
    ensures var y, m := R.add(R.mul(lam, R.sub(x, x1)), y1), R.sub(R.mul(lam, R.sub(x1, x)), y1);
            R.mul(m, m) == R.mul(y, y)
  {
    var y := R.add(R.mul(lam, R.sub(x, x1)), y1);
    MulNeg(R, R.neg(y), y);
    MulNeg(R, y, y);
    NegNeg(R.Plus(), R.mul(y, y));
    hide Commutative;
    var L, X, Z, Y := Var(0), Var(1), Var(2), Var(3);
    ByRing(R, [lam, x, x1, y1], Sub(Mul(L, Sub(Z, X)), Y), Neg(Add(Mul(L, Sub(X, Z)), Y)));
  }

  lemma DoubleOnCurve<T(!new)>(C: Params<T>, p: Affine<T>)
    requires IsField(C.F) && OnCurve(C, p)
    ensures OnCurve(C, Double(C, p))
  {
    var R := C.F.ring;
    if p.Finite? && R.add(p.y, p.y) != R.zero {
      var lam := TangentSlope(C, p.x, p.y);
      Cancel(C.F, SlopeNumerator(C, p.x), R.add(p.y, p.y));
      TangentQuotient(C, p.x, p.y, lam);
      LineMeetsCurve(C, p.x, p.y, lam, p.x);
    }
  }

  lemma TangentQuotient<T(!new)>(C: Params<T>, x: T, y: T, lam: T)
    requires Commutative(C.F.ring) && C.F.ring.mul(lam, C.F.ring.add(y, y)) == SlopeNumerator(C, x)
    ensures Quotient(C, x, y, lam, x) == C.F.ring.zero
  {
    var R := C.F.ring;
    SubZero(R, SlopeNumerator(C, x), R.mul(lam, R.add(y, y)));
    hide Commutative, Norm;
    TangentNorm();
    var X, A, L, Y := Var(0), Var(1), Var(2), Var(3);
    ByRing(R, [x, C.a, lam, y],
           Sub(Add(Add(Mul(X, Add(X, X)), Mul(X, X)), A), Mul(L, Add(Mul(L, Sub(X, X)), Add(Y, Y)))),
           Sub(Add(Add(Mul(X, X), Add(Mul(X, X), Mul(X, X))), A), Mul(L, Add(Y, Y))));
  }

  lemma TangentNorm()
    ensures var X, A, L, Y := Var(0), Var(1), Var(2), Var(3);
            Norm(Sub(Add(Add(Mul(X, Add(X, X)), Mul(X, X)), A), Mul(L, Add(Mul(L, Sub(X, X)), Add(Y, Y))))) ==
            Norm(Sub(Add(Add(Mul(X, X), Add(Mul(X, X), Mul(X, X))), A), Mul(L, Add(Y, Y))))
  {
  }

  lemma SumOnCurve<T(!new)>(C: Params<T>, p: Affine<T>, q: Affine<T>)
    requires IsField(C.F) && OnCurve(C, p) && OnCurve(C, q)
    ensures OnCurve(C, Sum(C, p, q))
  {
    var R := C.F.ring;
    if p.Finite? && q.Finite? {
      if p.x != q.x {
        var lam := ChordSlope(C.F, p.x, p.y, q.x, q.y);
        var d := R.sub(q.x, p.x);
        SubZero(R, q.x, p.x);
        Cancel(C.F, R.sub(q.y, p.y), d);
        CancelNeg(R.Plus(), q.y, p.y);
        GapFactors(C, p.x, p.y, lam, q.x);
        SubZero(R, R.add(R.add(Cube(R, q.x), R.mul(C.a, q.x)), C.b), R.mul(q.y, q.y));
        NoZeroDivisors(C.F, d, Quotient(C, p.x, p.y, lam, q.x));
        LineMeetsCurve(C, p.x, p.y, lam, q.x);
      } else if p.y == q.y {
        DoubleOnCurve(C, p);
      }
    }
  }

  /** On a curve with b != 0 the point (0, 0), which stands for infinity in affine form, does not occur. */
  lemma OriginNotOnCurve<T(!new)>(C: Params<T>)
    requires IsField(C.F)
    ensures OnCurve(C, Finite(C.F.ring.zero, C.F.ring.zero)) <==> C.b == C.F.ring.zero
  {
    var R := C.F.ring;
    MulZero(R, R.zero);
    MulZero(R, C.a);
    AddZero(R.Plus(), R.zero);
    AddZero(R.Plus(), C.b);
  }
}
