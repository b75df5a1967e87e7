/** The curve object: operations that write their result, field by field, through a reference that may
    be one of the operands. */
module Curves {
  import opened Groups
  import opened Rings
  import opened CurveLaws
  import opened XyzzPoints

  class Point<T> {
    var x: T
    var y: T
    var zz: T
    var zzz: T

    function View(): Xyzz<T>
      reads this
    {
      Xyzz(x, y, zz, zzz)
    }

    constructor (x: T, y: T, zz: T, zzz: T)
      ensures View() == Xyzz(x, y, zz, zzz)
    {
      this.x, this.y, this.zz, this.zzz := x, y, zz, zzz;
    }
  }

  class PointAffine<T> {
    var x: T
    var y: T

    constructor (x: T, y: T)
      ensures this.x == x && this.y == y
    {
      this.x, this.y := x, y;
    }
  }

  datatype TypeOfA = AIsZero | AIsOne | AIsNegOne | AIsLong

  class Curve<T(!new, ==)> {
    const C: Params<T>
    const typeOfA: TypeOfA

    ghost predicate Valid() {
      && IsField(C.F)
      && (typeOfA == AIsZero <==> C.a == C.F.ring.zero)
      && (typeOfA == AIsOne ==> C.a == C.F.ring.one)
      && (typeOfA == AIsNegOne ==> C.a == C.F.ring.neg(C.F.ring.one))
    }

    /** `initCurve` */
    constructor (C: Params<T>)
      requires IsField(C.F)
      ensures Valid() && this.C == C
    {
      this.C := C;
      typeOfA := if C.a == C.F.ring.zero then AIsZero
                 else if C.a == C.F.ring.one then AIsOne
                 else if C.a == C.F.ring.neg(C.F.ring.one) then AIsNegOne
                 else AIsLong;
    }

    method MulByA(ab: T) returns (r: T)
      requires Valid()
      ensures r == C.F.ring.mul(C.a, ab)
    {
      var R := C.F.ring;
      MulZero(R, ab);
      MulOne(R, ab);
      MulNeg(R, R.one, ab);
      match typeOfA
      case AIsZero => r := R.zero;
      case AIsOne => r := ab;
      case AIsNegOne => r := R.neg(ab);
      case AIsLong => r := R.mul(C.a, ab);
    }

    predicate IsZero(p: Xyzz<T>) {
      p.zz == C.F.ring.zero
    }

    predicate IsZeroAffine(x: T, y: T) {
      x == C.F.ring.zero && y == C.F.ring.zero
    }

    /** The affine point a point stands for */
    function Value(p: Xyzz<T>): Affine<T> {
      ValueOf(C.F, p)
    }

    ghost predicate Ok(p: Xyzz<T>) {
      Wellformed(C.F.ring, p)
    }

    // -------------------------------------------------------------- copies and negatives

    method Copy(r: Point<T>, a: Point<T>)
      modifies r
      ensures r.View() == old(a.View())
    {
      r.x := a.x;
      r.y := a.y;
      r.zz := a.zz;
      r.zzz := a.zzz;
    }

    method CopyFromAffine(r: Point<T>, a: PointAffine<T>)
      requires Valid()
      modifies r
      ensures Ok(r.View()) && Value(r.View()) == AffineValue(C.F.ring, a.x, a.y)
    {
      var R := C.F.ring;
      MulZero(R, R.zero);
      if IsZeroAffine(a.x, a.y) {
        r.x := R.one;
        r.y := R.one;
        r.zz := R.zero;
        r.zzz := R.zero;
        return;
      }
      r.x := a.x;
      r.y := a.y;
      r.zz := R.one;
      r.zzz := R.one;
      UnitDenominators(C.F, a.x, a.y);
    }

    static lemma UnitDenominators(F: Field<T>, x: T, y: T)
      requires IsField(F)
      ensures Wellformed(F.ring, Xyzz(x, y, F.ring.one, F.ring.one))
      ensures ValueOf(F, Xyzz(x, y, F.ring.one, F.ring.one)) == Finite(x, y)
    {
      MulOne(F.ring, F.ring.one);
      MulOne(F.ring, x);
      MulOne(F.ring, y);
      Cancel(F, x, F.ring.one);
      Cancel(F, y, F.ring.one);
    }

    /** To affine form. (0, 0) is reserved for infinity, so a finite point there would be lost; on a curve
        with b != 0 there is none (OriginNotOnCurve). */
    method CopyToAffine(r: PointAffine<T>, a: Point<T>)
      requires Valid() && Ok(a.View())
      modifies r
      ensures AffineValue(C.F.ring, r.x, r.y) == Value(a.View())
         <==> Value(a.View()) != Finite(C.F.ring.zero, C.F.ring.zero)
    {
      var R := C.F.ring;
      if IsZero(a.View()) {
        r.x := R.zero;
        r.y := R.zero;
        return;
      }
      r.x := R.mul(a.x, C.F.inv(a.zz));
      r.y := R.mul(a.y, C.F.inv(a.zzz));
    }

    method NegPoint(r: Point<T>, a: Point<T>)
      requires Valid() && Ok(a.View())
      modifies r
      ensures Ok(r.View()) && Value(r.View()) == Negated(C.F.ring, Value(old(a.View())))
    {
      MulNeg(C.F.ring, a.y, C.F.inv(a.zzz));
      r.x := a.x;
      r.y := C.F.ring.neg(a.y);
      r.zz := a.zz;
      r.zzz := a.zzz;
    }

    method NegAffine(r: PointAffine<T>, a: PointAffine<T>)
      requires Valid()
      modifies r
      ensures AffineValue(C.F.ring, r.x, r.y) == Negated(C.F.ring, old(AffineValue(C.F.ring, a.x, a.y)))
    {
      var R := C.F.ring;
      NegZero(R.Plus());
      NegNeg(R.Plus(), a.y);
      r.x := a.x;
      r.y := R.neg(a.y);
    }

    /** The negative of an affine point, as a point: there is no test for infinity, and the result is right
        if and only if the point is not infinity. */
    method NegFromAffine(r: Point<T>, a: PointAffine<T>)
      requires Valid()
      modifies r
      ensures Ok(r.View())
      ensures Value(r.View()) == Negated(C.F.ring, AffineValue(C.F.ring, a.x, a.y)) <==> !IsZeroAffine(a.x, a.y)
    {
      var R := C.F.ring;
      r.x := a.x;
      r.y := R.neg(a.y);
      r.zz := R.one;
      r.zzz := R.one;
      UnitDenominators(C.F, a.x, R.neg(a.y));
    }

    // -------------------------------------------------------------- doubling

    method Dbl(p3: Point<T>, p1: Point<T>)
      requires Valid() && Ok(p1.View())
      modifies p3
      ensures Ok(p3.View()) && Value(p3.View()) == Double(C, Value(old(p1.View())))
    {
      if IsZero(p1.View()) {
        Copy(p3, p1);
        return;
      }
      ghost var a := p1.View();
      var R := C.F.ring;
      var U := R.add(p1.y, p1.y);
      var V := R.mul(U, U);
      var W := R.mul(U, V);
      var S := R.mul(p1.x, V);
      var M := R.mul(p1.x, p1.x);
      var tmp := R.add(M, M);
      M := R.add(M, tmp);
      if typeOfA != AIsZero {
        tmp := R.mul(p1.zz, p1.zz);
        tmp := MulByA(tmp);
        M := R.add(M, tmp);
      } else {
        MulZero(R, R.mul(p1.zz, p1.zz));
        AddZero(R.Plus(), M);
      }
      assert M == Numerator(C, a.x, a.zz);
      p3.x := R.mul(M, M);
      p3.x := R.sub(p3.x, S);
      p3.x := R.sub(p3.x, S);
      tmp := R.mul(W, p1.y);
      p3.y := R.sub(S, p3.x);
      p3.y := R.mul(M, p3.y);
      p3.y := R.sub(p3.y, tmp);
      p3.zz := R.mul(V, p1.zz);
      p3.zzz := R.mul(W, p1.zzz);
      assert p3.View() == TangentFormula(R, a.x, a.y, M, a.zz, a.zzz);
      DblIsDouble(C, a);
    }

    static lemma DblIsDouble(C: Params<T>, a: Xyzz<T>)
      requires IsField(C.F) && Wellformed(C.F.ring, a) && a.zz != C.F.ring.zero
      ensures var p := TangentFormula(C.F.ring, a.x, a.y, Numerator(C, a.x, a.zz), a.zz, a.zzz);
              Wellformed(C.F.ring, p) && ValueOf(C.F, p) == Double(C, ValueOf(C.F, a))
    {
      Coordinates(C.F, a);
      var v := ValueOf(C.F, a);
      TangentIsDouble(C, v.x, v.y, a.zz, a.zzz);
    }

    method DblAffine(p3: Point<T>, p1: PointAffine<T>)
      requires Valid()
      modifies p3
      ensures Ok(p3.View()) && Value(p3.View()) == Double(C, AffineValue(C.F.ring, p1.x, p1.y))
    {
      if IsZeroAffine(p1.x, p1.y) {
        CopyFromAffine(p3, p1);
        return;
      }
      var R := C.F.ring;
      var U := R.add(p1.y, p1.y);
      p3.zz := R.mul(U, U);
      p3.zzz := R.mul(U, p3.zz);
      var S := R.mul(p1.x, p3.zz);
      var M := R.mul(p1.x, p1.x);
      var tmp := R.add(M, M);
      M := R.add(tmp, M);
      M := R.add(M, C.a);
      p3.x := R.mul(M, M);
      p3.x := R.sub(p3.x, S);
      p3.x := R.sub(p3.x, S);
      tmp := R.mul(p3.zzz, p1.y);
      p3.y := R.sub(S, p3.x);
      p3.y := R.mul(M, p3.y);
      p3.y := R.sub(p3.y, tmp);
      AffineNumerator(C, p1.x);
      MulOne(R, p3.zz);
      MulOne(R, p3.zzz);
      assert p3.View() == TangentFormula(R, p1.x, p1.y, M, R.one, R.one);
      UnitDenominators(C.F, p1.x, p1.y);
      DblIsDouble(C, Xyzz(p1.x, p1.y, R.one, R.one));
    }

    static lemma AffineNumerator(C: Params<T>, x: T)
      requires Commutative(C.F.ring)
      ensures var R := C.F.ring;
              var q := R.mul(x, x);
              R.add(R.add(R.add(q, q), q), C.a) == Numerator(C, x, R.one)
    {
      var R := C.F.ring;
      var q := R.mul(x, x);
      Assoc(R.Plus(), q, q, q);
      MulOne(R, R.one);
      MulOne(R, C.a);
    }

    // -------------------------------------------------------------- addition

    /** Point plus point; the result may be written over either operand. */
    method Add(p3: Point<T>, p1: Point<T>, p2: Point<T>)
      requires Valid() && Ok(p1.View()) && Ok(p2.View())
      modifies p3
      ensures Ok(p3.View())
      ensures Value(p3.View()) == Sum(C, Value(old(p1.View())), Value(old(p2.View())))
    {
      if IsZero(p1.View()) {
        Copy(p3, p2);
        return;
      }
      if IsZero(p2.View()) {
        Copy(p3, p1);
        return;
      }
      ghost var a, b := p1.View(), p2.View();
      var R := C.F.ring;
      var U1 := R.mul(p1.x, p2.zz);
      var U2 := R.mul(p2.x, p1.zz);
      var S1 := R.mul(p1.y, p2.zzz);
      var S2 := R.mul(p2.y, p1.zzz);
      var P := R.sub(U2, U1);
      var r := R.sub(S2, S1);
      AddIsSum(C, a, b);
      if P == R.zero && r == R.zero {
        Dbl(p3, p1);
        return;
      }
      var PP := R.mul(P, P);
      var PPP := R.mul(P, PP);
      var Q := R.mul(U1, PP);
      p3.x := R.mul(r, r);
      p3.x := R.sub(p3.x, PPP);
      p3.x := R.sub(p3.x, Q);
      p3.x := R.sub(p3.x, Q);
      var tmp := R.mul(S1, PPP);
      p3.y := R.sub(Q, p3.x);
      p3.y := R.mul(p3.y, r);
      p3.y := R.sub(p3.y, tmp);
      p3.zz := R.mul(p1.zz, p2.zz);
      p3.zz := R.mul(p3.zz, PP);
      p3.zzz := R.mul(p1.zzz, p2.zzz);
      p3.zzz := R.mul(p3.zzz, PPP);
      assert p3.View() == ChordFormula(R, U1, S1, P, r, R.mul(a.zz, b.zz), R.mul(a.zzz, b.zzz));
    }

    /** Both differences vanish exactly for equal points; otherwise the formula gives the sum. */
    static lemma AddIsSum(C: Params<T>, a: Xyzz<T>, b: Xyzz<T>)
      requires IsField(C.F) && Wellformed(C.F.ring, a) && Wellformed(C.F.ring, b)
      requires a.zz != C.F.ring.zero && b.zz != C.F.ring.zero
      ensures var R := C.F.ring;
              var U1, S1 := R.mul(a.x, b.zz), R.mul(a.y, b.zzz);
              var P, r := R.sub(R.mul(b.x, a.zz), U1), R.sub(R.mul(b.y, a.zzz), S1);
              var p := ChordFormula(R, U1, S1, P, r, R.mul(a.zz, b.zz), R.mul(a.zzz, b.zzz));
              if P == R.zero && r == R.zero then ValueOf(C.F, a) == ValueOf(C.F, b)
              else Wellformed(R, p) && ValueOf(C.F, p) == Sum(C, ValueOf(C.F, a), ValueOf(C.F, b))
    {
      var R := C.F.ring;
      var v, w := ValueOf(C.F, a), ValueOf(C.F, b);
      var zz, zzz := R.mul(a.zz, b.zz), R.mul(a.zzz, b.zzz);
      Coordinates(C.F, a);
      Coordinates(C.F, b);
      CommonDenominators(C.F, a, b);
      MulAssoc(R, v.x, a.zz, b.zz);
      MulAssoc(R, v.y, a.zzz, b.zzz);
      MulSwapLast(R, w.x, b.zz, a.zz);
      MulSwapLast(R, w.y, b.zzz, a.zzz);
      MulAssoc(R, w.x, a.zz, b.zz);
      MulAssoc(R, w.y, a.zzz, b.zzz);
      DifferencesVanish(C.F, v.x, w.x, zz);
      DifferencesVanish(C.F, v.y, w.y, zzz);
      if v != w { ChordIsSum(C, v.x, v.y, w.x, w.y, zz, zzz); }
    }

    static lemma CommonDenominators(F: Field<T>, a: Xyzz<T>, b: Xyzz<T>)
      requires IsField(F) && Wellformed(F.ring, a) && Wellformed(F.ring, b)
      requires a.zz != F.ring.zero && b.zz != F.ring.zero
      ensures var zz, zzz := F.ring.mul(a.zz, b.zz), F.ring.mul(a.zzz, b.zzz);
              zz != F.ring.zero && zzz != F.ring.zero && Cube(F.ring, zz) == F.ring.mul(zzz, zzz)
    {
      var R := F.ring;
      var zz, zzz := R.mul(a.zz, b.zz), R.mul(a.zzz, b.zzz);
      if zz == R.zero { NoZeroDivisors(F, a.zz, b.zz); }
      MulExchange(R, a.zz, b.zz, a.zz, b.zz);
      MulExchange(R, a.zz, b.zz, R.mul(a.zz, a.zz), R.mul(b.zz, b.zz));
      MulExchange(R, a.zzz, b.zzz, a.zzz, b.zzz);
      Scale(F, zz, zzz);
    }

    /** Point plus affine point */
    method AddMixed(p3: Point<T>, p1: Point<T>, p2: PointAffine<T>)
      requires Valid() && Ok(p1.View())
      modifies p3
      ensures Ok(p3.View())
      ensures Value(p3.View()) == Sum(C, Value(old(p1.View())), AffineValue(C.F.ring, p2.x, p2.y))
    {
      if IsZero(p1.View()) {
        CopyFromAffine(p3, p2);
        return;
      }
      if IsZeroAffine(p2.x, p2.y) {
        Copy(p3, p1);
        return;
      }
      ghost var a := p1.View();
      var R := C.F.ring;
      var U2 := R.mul(p2.x, p1.zz);
      var S2 := R.mul(p2.y, p1.zzz);
      var P := R.sub(U2, p1.x);
      var r := R.sub(S2, p1.y);
      MixedIsSum(C, a, p2.x, p2.y);
      if P == R.zero && r == R.zero {
        DblAffine(p3, p2);
        return;
      }
      var PP := R.mul(P, P);
      var PPP := R.mul(P, PP);
      var Q := R.mul(p1.x, PP);
      p3.x := R.mul(r, r);
      p3.x := R.sub(p3.x, PPP);
      p3.x := R.sub(p3.x, Q);
      p3.x := R.sub(p3.x, Q);
      var tmp := R.mul(p1.y, PPP);
      p3.y := R.sub(Q, p3.x);
      p3.y := R.mul(p3.y, r);
      p3.y := R.sub(p3.y, tmp);
      p3.zz := R.mul(p1.zz, PP);
      p3.zzz := R.mul(p1.zzz, PPP);
      assert p3.View() == ChordFormula(R, a.x, a.y, P, r, a.zz, a.zzz);
    }

    static lemma MixedIsSum(C: Params<T>, a: Xyzz<T>, x: T, y: T)
      requires IsField(C.F) && Wellformed(C.F.ring, a) && a.zz != C.F.ring.zero
      ensures var R := C.F.ring;
              var P, r := R.sub(R.mul(x, a.zz), a.x), R.sub(R.mul(y, a.zzz), a.y);
              var p := ChordFormula(R, a.x, a.y, P, r, a.zz, a.zzz);
              if P == R.zero && r == R.zero then ValueOf(C.F, a) == Finite(x, y)
              else Wellformed(R, p) && ValueOf(C.F, p) == Sum(C, ValueOf(C.F, a), Finite(x, y))
    {
      var v := ValueOf(C.F, a);
      Coordinates(C.F, a);
      Scale(C.F, a.zz, a.zzz);
      DifferencesVanish(C.F, v.x, x, a.zz);
      DifferencesVanish(C.F, v.y, y, a.zzz);
      if v != Finite(x, y) { ChordIsSum(C, v.x, v.y, x, y, a.zz, a.zzz); }
    }

    /** Affine point plus affine point */
    method AddAffine(p3: Point<T>, p1: PointAffine<T>, p2: PointAffine<T>)
      requires Valid()
      modifies p3
      ensures Ok(p3.View())
      ensures Value(p3.View()) == Sum(C, AffineValue(C.F.ring, p1.x, p1.y), AffineValue(C.F.ring, p2.x, p2.y))
    {
      if IsZeroAffine(p1.x, p1.y) {
        CopyFromAffine(p3, p2);
        return;
      }
      if IsZeroAffine(p2.x, p2.y) {
        CopyFromAffine(p3, p1);
        return;
      }
      var R := C.F.ring;
      var P := R.sub(p2.x, p1.x);
      var r := R.sub(p2.y, p1.y);
      UnitDenominators(C.F, p1.x, p1.y);
      MulOne(R, p2.x);
      MulOne(R, p2.y);
      MixedIsSum(C, Xyzz(p1.x, p1.y, R.one, R.one), p2.x, p2.y);
      if P == R.zero && r == R.zero {
        DblAffine(p3, p2);
        return;
      }
      var PP := R.mul(P, P);
      var PPP := R.mul(P, PP);
      var Q := R.mul(p1.x, PP);
      p3.x := R.mul(r, r);
      p3.x := R.sub(p3.x, PPP);
      p3.x := R.sub(p3.x, Q);
      p3.x := R.sub(p3.x, Q);
      var tmp := R.mul(p1.y, PPP);
      p3.y := R.sub(Q, p3.x);
      p3.y := R.mul(p3.y, r);
      p3.y := R.sub(p3.y, tmp);
      p3.zz := PP;
      p3.zzz := PPP;
      MulOne(R, PP);
      MulOne(R, PPP);
      assert p3.View() == ChordFormula(R, p1.x, p1.y, P, r, R.one, R.one);
    }

    // -------------------------------------------------------------- equality

    /** `eq`: right except that a finite first point also equals an infinity written as (0, 0, 0, 0). */
    method Eq(p1: Point<T>, p2: Point<T>) returns (equal: bool)
      requires Valid() && Ok(p1.View()) && Ok(p2.View())
      ensures equal == (Value(p1.View()) == Value(p2.View())
                        || (!IsZero(p1.View()) && IsZero(p2.View()) && IsZeroAffine(p2.x, p2.y)))
    {
      if IsZero(p1.View()) {
        return IsZero(p2.View());
      }
      var R := C.F.ring;
      var U1 := R.mul(p1.x, p2.zz);
      var U2 := R.mul(p2.x, p1.zz);
      var S1 := R.mul(p1.y, p2.zzz);
      var S2 := R.mul(p2.y, p1.zzz);
      var P := R.sub(U2, U1);
      var r := R.sub(S2, S1);
      if IsZero(p2.View()) {
        EqInfinity(C.F, p1.View(), p2.View());
      } else {
        AddIsSum(C, p1.View(), p2.View());
        if Value(p1.View()) == Value(p2.View()) { EqFinite(C, p1.View(), p2.View()); }
      }
      return P == R.zero && r == R.zero;
    }

    static lemma EqInfinity(F: Field<T>, a: Xyzz<T>, b: Xyzz<T>)
      requires IsField(F) && Wellformed(F.ring, a) && Wellformed(F.ring, b)
      requires a.zz != F.ring.zero && b.zz == F.ring.zero
      ensures var R := F.ring;
              (R.sub(R.mul(b.x, a.zz), R.mul(a.x, b.zz)) == R.zero
                  && R.sub(R.mul(b.y, a.zzz), R.mul(a.y, b.zzz)) == R.zero)
              <==> (b.x == R.zero && b.y == R.zero)
    {
      var R := F.ring;
      Scale(F, a.zz, a.zzz);
      MulZero(R, R.zero);
      NoZeroDivisors(F, b.zzz, b.zzz);
      MulZero(R, a.x);
      MulZero(R, a.y);
      MulZero(R, a.zz);
      MulZero(R, a.zzz);
      SubZero(R, R.mul(b.x, a.zz), R.zero);
      SubZero(R, R.mul(b.y, a.zzz), R.zero);
      if R.mul(b.x, a.zz) == R.zero { NoZeroDivisors(F, b.x, a.zz); }
      if R.mul(b.y, a.zzz) == R.zero { NoZeroDivisors(F, b.y, a.zzz); }
    }

    static lemma EqFinite(C: Params<T>, a: Xyzz<T>, b: Xyzz<T>)
      requires IsField(C.F) && Wellformed(C.F.ring, a) && Wellformed(C.F.ring, b)
      requires a.zz != C.F.ring.zero && b.zz != C.F.ring.zero && ValueOf(C.F, a) == ValueOf(C.F, b)
      ensures C.F.ring.mul(b.x, a.zz) == C.F.ring.mul(a.x, b.zz)
      ensures C.F.ring.mul(b.y, a.zzz) == C.F.ring.mul(a.y, b.zzz)
      ensures C.F.ring.sub(C.F.ring.mul(b.x, a.zz), C.F.ring.mul(a.x, b.zz)) == C.F.ring.zero
      ensures C.F.ring.sub(C.F.ring.mul(b.y, a.zzz), C.F.ring.mul(a.y, b.zzz)) == C.F.ring.zero
    {
      var R := C.F.ring;
      var v := ValueOf(C.F, a);
      Coordinates(C.F, a);
      Coordinates(C.F, b);
      MulSwapLast(R, v.x, b.zz, a.zz);
      MulSwapLast(R, v.y, b.zzz, a.zzz);
      SubZero(R, R.mul(b.x, a.zz), R.mul(a.x, b.zz));
      SubZero(R, R.mul(b.y, a.zzz), R.mul(a.y, b.zzz));
    }
  }

  /** Every operation on points of the curve stays on it. */
  lemma AdditionStaysOnCurve<T(!new)>(C: Params<T>, a: Xyzz<T>, b: Xyzz<T>, c: Xyzz<T>)
    requires IsField(C.F) && OnCurve(C, ValueOf(C.F, a)) && OnCurve(C, ValueOf(C.F, b))
    requires ValueOf(C.F, c) == Sum(C, ValueOf(C.F, a), ValueOf(C.F, b))
    ensures OnCurve(C, ValueOf(C.F, c))
    ensures C.b != C.F.ring.zero ==> ValueOf(C.F, c) != Finite(C.F.ring.zero, C.F.ring.zero)
  {
    SumOnCurve(C, ValueOf(C.F, a), ValueOf(C.F, b));
    OriginNotOnCurve(C);
  }
}
