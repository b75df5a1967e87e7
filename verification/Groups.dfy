/** Abelian groups, given by their operations and laws, and multiples of their elements. */
module Groups {

  datatype Group<!T> = Group(zero: T, add: (T, T) -> T, neg: T -> T)

  // The laws, one instance at a time: a proof names the instances it uses.

  ghost predicate AssocAt<T>(G: Group<T>, x: T, y: T, z: T) {
    G.add(G.add(x, y), z) == G.add(x, G.add(y, z))
  }

  ghost predicate CommAt<T>(G: Group<T>, x: T, y: T) {
    G.add(x, y) == G.add(y, x)
  }

  ghost predicate ZeroAt<T>(G: Group<T>, x: T) {
    G.add(G.zero, x) == x
  }

  ghost predicate NegAt<T>(G: Group<T>, x: T) {
    G.add(x, G.neg(x)) == G.zero
  }

  ghost predicate Abelian<T(!new)>(G: Group<T>) {
    && (forall x, y, z :: AssocAt(G, x, y, z))
    && (forall x, y :: CommAt(G, x, y))
    && (forall x :: ZeroAt(G, x))
    && (forall x :: NegAt(G, x))
  }

  lemma AddZero<T(!new)>(G: Group<T>, x: T)
    requires Abelian(G)
    ensures G.add(G.zero, x) == x && G.add(x, G.zero) == x
  {
    assert ZeroAt(G, x) && CommAt(G, x, G.zero);
  }

  lemma Assoc<T(!new)>(G: Group<T>, x: T, y: T, z: T)
    requires Abelian(G)
    ensures G.add(G.add(x, y), z) == G.add(x, G.add(y, z))
  {
    assert AssocAt(G, x, y, z);
  }

  lemma Comm<T(!new)>(G: Group<T>, x: T, y: T)
    requires Abelian(G)
    ensures G.add(x, y) == G.add(y, x)
  {
    assert CommAt(G, x, y);
  }

  /** (x + y) + z == (x + z) + y */
  lemma SwapLast<T(!new)>(G: Group<T>, x: T, y: T, z: T)
    requires Abelian(G)
    ensures G.add(G.add(x, y), z) == G.add(G.add(x, z), y)
  {
    Assoc(G, x, y, z);
    Comm(G, y, z);
    Assoc(G, x, z, y);
  }

  /** (a + b) + (c + d) == (a + c) + (b + d) */
  lemma Exchange<T(!new)>(G: Group<T>, a: T, b: T, c: T, d: T)
    requires Abelian(G)
    ensures G.add(G.add(a, b), G.add(c, d)) == G.add(G.add(a, c), G.add(b, d))
  {
    Assoc(G, G.add(a, b), c, d);
    SwapLast(G, a, b, c);
    Assoc(G, G.add(a, c), b, d);
  }

  lemma CancelNeg<T(!new)>(G: Group<T>, x: T, y: T)
    requires Abelian(G)
    ensures G.add(G.add(x, y), G.neg(y)) == x
    ensures G.add(G.add(x, G.neg(y)), y) == x
  {
    Assoc(G, x, y, G.neg(y));
    assert NegAt(G, y);
    AddZero(G, x);
    SwapLast(G, x, G.neg(y), y);
  }

  /** `n` times `x`, for every integer `n`. */
  function Times<T>(G: Group<T>, n: int, x: T): T
    decreases if n < 0 then -n else n
  {
    if n == 0 then G.zero
    else if n > 0 then G.add(Times(G, n - 1, x), x)
    else G.add(Times(G, n + 1, x), G.neg(x))
  }

  lemma TimesNone<T>(G: Group<T>, x: T)
    ensures Times(G, 0, x) == G.zero
  {
  }

  lemma TimesNext<T(!new)>(G: Group<T>, n: int, x: T)
    requires Abelian(G)
    ensures Times(G, n + 1, x) == G.add(Times(G, n, x), x)
    ensures Times(G, n - 1, x) == G.add(Times(G, n, x), G.neg(x))
  {
    if n < 0 { CancelNeg(G, Times(G, n + 1, x), x); }
    if n > 0 { CancelNeg(G, Times(G, n - 1, x), x); }
  }

  lemma {:induction false} TimesAdd<T(!new)>(G: Group<T>, m: int, n: int, x: T)
    requires Abelian(G)
    ensures Times(G, m + n, x) == G.add(Times(G, m, x), Times(G, n, x))
    decreases if n < 0 then -n else n
  {
    if n == 0 {
      AddZero(G, Times(G, m, x));
    } else if n > 0 {
      TimesAdd(G, m, n - 1, x);
      TimesNext(G, m + n - 1, x);
      Assoc(G, Times(G, m, x), Times(G, n - 1, x), x);
    } else {
      TimesAdd(G, m, n + 1, x);
      TimesNext(G, m + n + 1, x);
      Assoc(G, Times(G, m, x), Times(G, n + 1, x), G.neg(x));
    }
  }

  lemma TimesOne<T(!new)>(G: Group<T>, x: T)
    requires Abelian(G)
    ensures Times(G, 1, x) == x && Times(G, -1, x) == G.neg(x)
  {
    AddZero(G, x);
    AddZero(G, G.neg(x));
    assert Times(G, 1, x) == G.add(Times(G, 0, x), x);
    assert Times(G, -1, x) == G.add(Times(G, 0, x), G.neg(x));
  }

  lemma {:induction false} TimesZero<T(!new)>(G: Group<T>, n: nat)
    requires Abelian(G)
    ensures Times(G, n, G.zero) == G.zero
  {
    if n > 0 {
      TimesZero(G, n - 1);
      AddZero(G, G.zero);
    }
  }

  /** n·(x + y) == n·x + n·y */
  lemma {:induction false} TimesOfSum<T(!new)>(G: Group<T>, n: nat, x: T, y: T)
    requires Abelian(G)
    ensures Times(G, n, G.add(x, y)) == G.add(Times(G, n, x), Times(G, n, y))
  {
    if n == 0 {
      AddZero(G, G.zero);
    } else {
      TimesOfSum(G, n - 1, x, y);
      Exchange(G, Times(G, n - 1, x), Times(G, n - 1, y), x, y);
    }
  }

  /** m·(n·x) == (m·n)·x */
  lemma {:induction false} TimesOfTimes<T(!new)>(G: Group<T>, m: nat, n: int, x: T)
    requires Abelian(G)
    ensures Times(G, m, Times(G, n, x)) == Times(G, m * n, x)
  {
    if m > 0 {
      TimesOfTimes(G, m - 1, n, x);
      TimesAdd(G, (m - 1) * n, n, x);
      assert m * n == (m - 1) * n + n;
    }
  }
}
