/** Deciding identities of commutative rings: expressions are brought to a normal form by a function
    that the verifier evaluates, and equal normal forms mean equal values in every ring. */
module RingSolver {
  import opened Groups
  import opened Rings

  datatype Expr = Var(n: nat) | Add(l: Expr, r: Expr) | Neg(e: Expr) | Mul(l: Expr, r: Expr)

  /** Products of variables, and sums of multiples of them */
  datatype Mono = Unit | Factor(v: nat, rest: Mono)
  datatype Poly = Nil | Term(c: int, m: Mono, rest: Poly)

  datatype Order = Less | Equal | Greater

  function Sub(l: Expr, r: Expr): Expr {
    Add(l, Neg(r))
  }

  function Compare(a: Mono, b: Mono): Order {
    match a
    case Unit => if b.Unit? then Equal else Less
    case Factor(v, r) =>
      if b.Unit? then Greater else if v < b.v then Less else if v > b.v then Greater else Compare(r, b.rest)
  }

  function MulMono(a: Mono, b: Mono): Mono
    decreases a, b
  {
    match a
    case Unit => b
    case Factor(v, r) =>
      if b.Unit? then a else if v <= b.v then Factor(v, MulMono(r, b)) else Factor(b.v, MulMono(a, b.rest))
  }

  function AddPoly(p: Poly, q: Poly): Poly
    decreases p, q
  {
    match p
    case Nil => q
    case Term(c, m, r) =>
      if q.Nil? then p
      else
        match Compare(m, q.m)
        case Less => Term(c, m, AddPoly(r, q))
        case Greater => Term(q.c, q.m, AddPoly(p, q.rest))
        case Equal =>
          if c + q.c == 0 then AddPoly(r, q.rest) else Term(c + q.c, m, AddPoly(r, q.rest))
  }

  function MulTerm(c: int, m: Mono, q: Poly): Poly {
    match q
    case Nil => Nil
    case Term(d, n, r) => AddPoly(Term(c * d, MulMono(m, n), Nil), MulTerm(c, m, r))
  }

  function MulPoly(p: Poly, q: Poly): Poly {
    match p
    case Nil => Nil
    case Term(c, m, r) => AddPoly(MulTerm(c, m, q), MulPoly(r, q))
  }

  function Norm(e: Expr): Poly {
    match e
    case Var(n) => Term(1, Factor(n, Unit), Nil)
    case Add(l, r) => AddPoly(Norm(l), Norm(r))
    case Neg(x) => MulTerm(-1, Unit, Norm(x))
    case Mul(l, r) => MulPoly(Norm(l), Norm(r))
  }

  // ---------------------------------------------------------------- values

  function At<T>(R: Ring<T>, env: seq<T>, v: nat): T {
    if v < |env| then env[v] else R.zero
  }

  function Value<T>(R: Ring<T>, env: seq<T>, e: Expr): T
    decreases e
  {
    match e
    case Var(n) => At(R, env, n)
    case Add(l, r) => R.add(Value(R, env, l), Value(R, env, r))
    case Neg(x) => R.neg(Value(R, env, x))
    case Mul(l, r) => R.mul(Value(R, env, l), Value(R, env, r))
  }

  function MonoValue<T>(R: Ring<T>, env: seq<T>, m: Mono): T {
    match m
    case Unit => R.one
    case Factor(v, r) => R.mul(At(R, env, v), MonoValue(R, env, r))
  }

  function PolyValue<T>(R: Ring<T>, env: seq<T>, p: Poly): T {
    match p
    case Nil => R.zero
    case Term(c, m, r) => R.add(Times(R.Plus(), c, MonoValue(R, env, m)), PolyValue(R, env, r))
  }

  // ---------------------------------------------------------------- soundness

  lemma {:induction false} CompareEqual(a: Mono, b: Mono)
    requires Compare(a, b) == Equal
    ensures a == b
  {
    if a.Factor? { CompareEqual(a.rest, b.rest); }
  }

  lemma {:induction false} MulMonoValue<T(!new)>(R: Ring<T>, env: seq<T>, a: Mono, b: Mono)
    requires Commutative(R)
    ensures MonoValue(R, env, MulMono(a, b)) == R.mul(MonoValue(R, env, a), MonoValue(R, env, b))
    decreases a, b
  {
    if a.Unit? {
      MulOne(R, MonoValue(R, env, b));
    } else if b.Unit? {
      MulOne(R, MonoValue(R, env, a));
    } else if a.v <= b.v {
      MulMonoValue(R, env, a.rest, b);
      MulAssoc(R, At(R, env, a.v), MonoValue(R, env, a.rest), MonoValue(R, env, b));
    } else {
      var x, y, z := At(R, env, b.v), MonoValue(R, env, a), MonoValue(R, env, b.rest);
      MulMonoValue(R, env, a, b.rest);
      MulAssoc(R, x, y, z);
      MulComm(R, x, y);
      MulAssoc(R, y, x, z);
    }
  }

  lemma {:induction false} AddPolyValue<T(!new)>(R: Ring<T>, env: seq<T>, p: Poly, q: Poly)
    requires Commutative(R)
    ensures PolyValue(R, env, AddPoly(p, q)) == R.add(PolyValue(R, env, p), PolyValue(R, env, q))
    decreases p, q
  {
    var G := R.Plus();
    if p.Nil? {
      AddZero(G, PolyValue(R, env, q));
    } else if q.Nil? {
      AddZero(G, PolyValue(R, env, p));
    } else {
      var x, xs := Times(G, p.c, MonoValue(R, env, p.m)), PolyValue(R, env, p.rest);
      var y, ys := Times(G, q.c, MonoValue(R, env, q.m)), PolyValue(R, env, q.rest);
      hide Times, MonoValue;
      match Compare(p.m, q.m)
      case Less =>
        AddPolyValue(R, env, p.rest, q);
        Assoc(G, x, xs, R.add(y, ys));
      case Greater =>
        AddPolyValue(R, env, p, q.rest);
        Assoc(G, y, R.add(x, xs), ys);
        Comm(G, y, R.add(x, xs));
        Assoc(G, R.add(x, xs), y, ys);
      case Equal =>
        CompareEqual(p.m, q.m);
        AddPolyValue(R, env, p.rest, q.rest);
        Exchange(G, x, xs, y, ys);
        TimesAdd(G, p.c, q.c, MonoValue(R, env, p.m));
        if p.c + q.c == 0 {
          TimesNone(G, MonoValue(R, env, p.m));
          AddZero(G, R.add(xs, ys));
        }
    }
  }

  /** (c·x)·y == c·(x·y) */
  lemma {:induction false} TimesMul<T(!new)>(R: Ring<T>, c: int, x: T, y: T)
    requires Commutative(R)
    ensures R.mul(Times(R.Plus(), c, x), y) == Times(R.Plus(), c, R.mul(x, y))
    decreases if c < 0 then -c else c
  {
    var G := R.Plus();
    if c == 0 {
      MulZero(R, y);
    } else if c > 0 {
      TimesMul(R, c - 1, x, y);
      Distributes(R, y, Times(G, c - 1, x), x);
    } else {
      TimesMul(R, c + 1, x, y);
      Distributes(R, y, Times(G, c + 1, x), R.neg(x));
      MulNeg(R, x, y);
    }
  }

  lemma {:induction false} TimesTimes<T(!new)>(G: Group<T>, c: int, d: int, x: T)
    requires Abelian(G)
    ensures Times(G, c, Times(G, d, x)) == Times(G, c * d, x)
    decreases if c < 0 then -c else c
  {
    if c > 0 {
      TimesTimes(G, c - 1, d, x);
      TimesAdd(G, (c - 1) * d, d, x);
      assert c * d == (c - 1) * d + d;
    } else if c < 0 {
      TimesTimes(G, c + 1, d, x);
      TimesAdd(G, (c + 1) * d, -d, x);
      TimesOfNeg(G, d, x);
      assert c * d == (c + 1) * d + -d;
    }
  }

  lemma TimesOfNeg<T(!new)>(G: Group<T>, d: int, x: T)
    requires Abelian(G)
    ensures Times(G, -d, x) == G.neg(Times(G, d, x))
  {
    TimesAdd(G, d, -d, x);
    UniqueNeg(G, Times(G, d, x), Times(G, -d, x));
  }

  lemma TermProduct<T(!new)>(R: Ring<T>, c: int, x: T, d: int, y: T)
    requires Commutative(R)
    ensures R.mul(Times(R.Plus(), c, x), Times(R.Plus(), d, y)) == Times(R.Plus(), c * d, R.mul(x, y))
  {
    var G := R.Plus();
    TimesMul(R, c, x, Times(G, d, y));
    MulComm(R, x, Times(G, d, y));
    TimesMul(R, d, y, x);
    MulComm(R, x, y);
    TimesTimes(G, c, d, R.mul(x, y));
  }

  lemma {:induction false} MulTermValue<T(!new)>(R: Ring<T>, env: seq<T>, c: int, m: Mono, q: Poly)
    requires Commutative(R)
    ensures PolyValue(R, env, MulTerm(c, m, q))
         == R.mul(Times(R.Plus(), c, MonoValue(R, env, m)), PolyValue(R, env, q))
    decreases q
  {
    var G, x := R.Plus(), Times(R.Plus(), c, MonoValue(R, env, m));
    if q.Nil? {
      MulZero(R, x);
    } else {
      hide Times;
      var one := Term(c * q.c, MulMono(m, q.m), Nil);
      MulTermValue(R, env, c, m, q.rest);
      AddPolyValue(R, env, one, MulTerm(c, m, q.rest));
      MulMonoValue(R, env, m, q.m);
      TermProduct(R, c, MonoValue(R, env, m), q.c, MonoValue(R, env, q.m));
      var y := Times(G, q.c, MonoValue(R, env, q.m));
      assert PolyValue(R, env, one) == R.add(R.mul(x, y), PolyValue(R, env, Nil));
      AddZero(G, R.mul(x, y));
      Distributes(R, x, y, PolyValue(R, env, q.rest));
    }
  }

  lemma {:induction false} MulPolyValue<T(!new)>(R: Ring<T>, env: seq<T>, p: Poly, q: Poly)
    requires Commutative(R)
    ensures PolyValue(R, env, MulPoly(p, q)) == R.mul(PolyValue(R, env, p), PolyValue(R, env, q))
    decreases p
  {
    if p.Nil? {
      MulZero(R, PolyValue(R, env, q));
    } else {
      MulPolyValue(R, env, p.rest, q);
      MulTermValue(R, env, p.c, p.m, q);
      AddPolyValue(R, env, MulTerm(p.c, p.m, q), MulPoly(p.rest, q));
      Distributes(R, PolyValue(R, env, q), Times(R.Plus(), p.c, MonoValue(R, env, p.m)), PolyValue(R, env, p.rest));
    }
  }

  lemma {:induction false} NormValue<T(!new)>(R: Ring<T>, env: seq<T>, e: Expr)
    requires Commutative(R)
    ensures PolyValue(R, env, Norm(e)) == Value(R, env, e)
    decreases e
  {
    var G := R.Plus();
    match e
    case Var(n) =>
      VarValue(R, env, n);
    case Add(l, r) =>
      NormValue(R, env, l);
      NormValue(R, env, r);
      AddPolyValue(R, env, Norm(l), Norm(r));
    case Neg(x) =>
      NormValue(R, env, x);
      MulTermValue(R, env, -1, Unit, Norm(x));
      TimesOne(G, R.one);
      MulNeg(R, R.one, Value(R, env, x));
      MulOne(R, Value(R, env, x));
    case Mul(l, r) =>
      NormValue(R, env, l);
      NormValue(R, env, r);
      MulPolyValue(R, env, Norm(l), Norm(r));
  }

  lemma VarValue<T(!new)>(R: Ring<T>, env: seq<T>, n: nat)
    requires Commutative(R)
    ensures PolyValue(R, env, Term(1, Factor(n, Unit), Nil)) == At(R, env, n)
  {
    var x := At(R, env, n);
    MulOne(R, x);
    TimesOne(R.Plus(), x);
    AddZero(R.Plus(), x);
    assert MonoValue(R, env, Factor(n, Unit)) == R.mul(x, MonoValue(R, env, Unit)) == x;
    assert PolyValue(R, env, Term(1, Factor(n, Unit), Nil))
        == R.add(Times(R.Plus(), 1, x), PolyValue(R, env, Nil));
  }

  /** Expressions with the same normal form have the same value. */
  lemma ByRing<T(!new)>(R: Ring<T>, env: seq<T>, l: Expr, r: Expr)
    requires Commutative(R) && Norm(l) == Norm(r)
    ensures Value(R, env, l) == Value(R, env, r)
  {
    NormValue(R, env, l);
    NormValue(R, env, r);
  }
}
