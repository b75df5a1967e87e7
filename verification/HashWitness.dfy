/** The collision-free hash assumed by the tree is no contradiction: one exists. */
module HashWitness {
  import opened SmtKeys
  import opened SmtTree

  function Triangle(n: nat): nat {
    if n == 0 then 0 else Triangle(n - 1) + n
  }

  lemma {:induction false} TriangleGrows(m: nat, n: nat)
    requires m < n
    ensures Triangle(m) + m < Triangle(n)
  {
    if m < n - 1 { TriangleGrows(m, n - 1); }
  }

  /** Cantor's pairing of two numbers. */
  function Pair(a: nat, b: nat): nat {
    Triangle(a + b) + b
  }

  lemma PairInjective(a: nat, b: nat, c: nat, d: nat)
    requires Pair(a, b) == Pair(c, d)
    ensures a == c && b == d
  {
    if a + b < c + d { TriangleGrows(a + b, c + d); }
    if c + d < a + b { TriangleGrows(c + d, a + b); }
  }

  function Triple(a: nat, b: nat, c: nat): nat {
    Pair(a, Pair(b, c))
  }

  lemma TripleInjective(a: nat, b: nat, c: nat, a': nat, b': nat, c': nat)
    requires Triple(a, b, c) == Triple(a', b', c')
    ensures a == a' && b == b' && c == c'
  {
    PairInjective(a, Pair(b, c), a', Pair(b', c'));
    PairInjective(b, c, b', c');
  }

  function PackRow(r: Row): Quad {
    Quad(1 + Triple(r.a.e0, r.a.e1, r.a.e2), Triple(r.a.e3, r.b.e0, r.b.e1),
         Triple(r.b.e2, r.b.e3, r.c.e0), Triple(r.c.e1, r.c.e2, r.c.e3))
  }

  lemma PackRowCollisionFree()
    ensures CollisionFree(PackRow)
  {
    forall u, v ensures NoCollision(PackRow, u, v) {
      if PackRow(u) == PackRow(v) {
        TripleInjective(u.a.e0, u.a.e1, u.a.e2, v.a.e0, v.a.e1, v.a.e2);
        TripleInjective(u.a.e3, u.b.e0, u.b.e1, v.a.e3, v.b.e0, v.b.e1);
        TripleInjective(u.b.e2, u.b.e3, u.c.e0, v.b.e2, v.b.e3, v.c.e0);
        TripleInjective(u.c.e1, u.c.e2, u.c.e3, v.c.e1, v.c.e2, v.c.e3);
      }
    }
  }
}
