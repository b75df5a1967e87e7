/** Field elements, 12-element database rows, 256-bit values and the key helpers of the
    sparse Merkle tree: `splitKey`, `joinKey`, `removeKeyBits`, `scalar2fea`, `fea2scalar`. */
module SmtKeys {
  import opened Bits

  /** The Goldilocks prime 2^64 - 2^32 + 1. */
  const PRIME: nat := 0xFFFF_FFFF_0000_0001

  /** Four field elements, each given by its canonical representative: a key or a hash. */
  datatype Quad = Quad(e0: nat, e1: nat, e2: nat, e3: nat) {
    function At(i: nat): nat
      requires i < 4
    {
      if i == 0 then e0 else if i == 1 then e1 else if i == 2 then e2 else e3
    }
  }

  const ZERO := Quad(0, 0, 0, 0)
  const ONE := Quad(1, 0, 0, 0)

  /** The 12 field elements stored under a hash: two groups of four and the capacity. */
  datatype Row = Row(a: Quad, b: Quad, c: Quad)

  predicate Canonical(q: Quad) {
    q.e0 < PRIME && q.e1 < PRIME && q.e2 < PRIME && q.e3 < PRIME
  }

  /** Storing a 64-bit word as a field element and reading it back reduces it once. */
  function FromU64(x: nat): nat {
    x % 0x1_0000_0000_0000_0000 % PRIME
  }

  lemma FromU64Canonical(x: nat)
    requires x < PRIME
    ensures FromU64(x) == x
  {
  }

  // ---------------------------------------------------------------- key bits

  /** Bit `i` of the path of `key`: the four elements take turns. */
  predicate KeyBit(key: Quad, i: nat) {
    Bit(key.At(i % 4), i / 4)
  }

  function KeyBits(key: Quad): (bits: seq<bool>)
    ensures |bits| == 256
  {
    seq(256, i requires 0 <= i < 256 => KeyBit(key, i))
  }

  method SplitKey(key: Quad) returns (result: array<bool>)
    ensures fresh(result) && result[..] == KeyBits(key)
  {
    result := new bool[256];
    var cont, i := 0, 0;
    while i < 64
      invariant 0 <= i <= 64 && cont == 4 * i
      invariant forall k :: 0 <= k < cont ==> result[k] == KeyBit(key, k)
    {
      result[cont] := Bit(key.e0, i);
      result[cont + 1] := Bit(key.e1, i);
      result[cont + 2] := Bit(key.e2, i);
      result[cont + 3] := Bit(key.e3, i);
      cont := cont + 4;
      i := i + 1;
    }
  }

  /** How many of the first `m` path bits come from element `j`. */
  function Taken(m: nat, j: nat): nat
    requires j < 4
  {
    (m + 3 - j) / 4
  }

  function RemoveKeyBits(key: Quad, nBits: nat): Quad {
    Quad(FromU64(Shr(key.e0, Taken(nBits, 0))), FromU64(Shr(key.e1, Taken(nBits, 1))),
         FromU64(Shr(key.e2, Taken(nBits, 2))), FromU64(Shr(key.e3, Taken(nBits, 3))))
  }

  function FromArray(a: array<nat>): Quad
    requires a.Length == 4
    reads a
  {
    Quad(a[0], a[1], a[2], a[3])
  }

  method RemoveKeyBitsLoop(key: Quad, nBits: nat) returns (rkey: Quad)
    ensures rkey == RemoveKeyBits(key, nBits)
  {
    var fullLevels := nBits / 4;
    var auxk := new nat[4](i requires 0 <= i < 4 => key.At(i));
    for i := 0 to 4
      invariant forall k :: 0 <= k < i ==> auxk[k] == Shr(key.At(k), Taken(nBits, k))
      invariant forall k :: i <= k < 4 ==> auxk[k] == key.At(k)
    {
      var n := fullLevels;
      if fullLevels * 4 + i < nBits { n := n + 1; }
      auxk[i] := Shr(auxk[i], n);
    }
    rkey := Quad(FromU64(auxk[0]), FromU64(auxk[1]), FromU64(auxk[2]), FromU64(auxk[3]));
  }

  /** The low bits of element `j` that the path `bits` spells out. */
  function PathBits(bits: seq<bool>, j: nat): nat
    requires j < 4
  {
    if bits == [] then 0
    else
      var m := |bits| - 1;
      var rest := PathBits(bits[..m], j);
      if m % 4 == j && bits[m] then Or(rest, Shl(1, Taken(m, j))) else rest
  }

  function JoinElement(bits: seq<bool>, r: nat, j: nat): nat
    requires j < 4
  {
    FromU64(Or(Shl(r, Taken(|bits|, j)), PathBits(bits, j)))
  }

  function JoinKey(bits: seq<bool>, rkey: Quad): Quad {
    Quad(JoinElement(bits, rkey.e0, 0), JoinElement(bits, rkey.e1, 1),
         JoinElement(bits, rkey.e2, 2), JoinElement(bits, rkey.e3, 3))
  }

  /** The first loop of `joinKey`: per element, how many bits were taken and which ones are set. */
  method AccumulatePath(bits: seq<bool>) returns (n: array<nat>, accs: array<nat>)
    ensures fresh(n) && fresh(accs) && n.Length == accs.Length == 4
    ensures forall k :: 0 <= k < 4 ==> n[k] == Taken(|bits|, k) && accs[k] == PathBits(bits, k)
  {
    n := new nat[4](i => 0);
    accs := new nat[4](i => 0);
    var i := 0;
    while i < |bits|
      invariant 0 <= i <= |bits|
      invariant forall k :: 0 <= k < 4 ==> n[k] == Taken(i, k) && accs[k] == PathBits(bits[..i], k)
    {
      PathBitsStep(bits, i);
      var e := i % 4;
      if bits[i] {
        accs[e] := Or(accs[e], Shl(1, n[e]));
      }
      n[e] := n[e] + 1;
      i := i + 1;
    }
    assert bits[..|bits|] == bits;
  }

  lemma PathBitsStep(bits: seq<bool>, i: nat)
    requires i < |bits|
    ensures forall j :: 0 <= j < 4 ==>
      && PathBits(bits[..i + 1], j) == (if i % 4 == j && bits[i] then Or(PathBits(bits[..i], j), Shl(1, Taken(i, j)))
                                        else PathBits(bits[..i], j))
      && Taken(i + 1, j) == Taken(i, j) + (if i % 4 == j then 1 else 0)
  {
    assert bits[..i + 1][..i] == bits[..i];
  }

  method JoinKeyLoop(bits: seq<bool>, rkey: Quad) returns (key: Quad)
    ensures key == JoinKey(bits, rkey)
  {
    var n, accs := AccumulatePath(bits);
    var auxk := new nat[4](i requires 0 <= i < 4 => rkey.At(i));
    for i := 0 to 4
      modifies auxk
      invariant forall k :: 0 <= k < i ==> auxk[k] == JoinElement(bits, rkey.At(k), k)
      invariant forall k :: i <= k < 4 ==> auxk[k] == rkey.At(k)
    {
      auxk[i] := FromU64(Or(Shl(auxk[i], n[i]), accs[i]));
    }
    key := FromArray(auxk);
  }

  lemma {:induction false} PathBitsBit(bits: seq<bool>, j: nat, i: nat)
    requires j < 4
    ensures Bit(PathBits(bits, j), i) == (4 * i + j < |bits| && bits[4 * i + j])
  {
    if bits == [] {
      BitZero(i);
    } else {
      var m := |bits| - 1;
      PathBitsBit(bits[..m], j, i);
      BitOr(PathBits(bits[..m], j), Shl(1, Taken(m, j)), i);
      BitOne(Taken(m, j), i);
    }
  }

  lemma ShrAtMost(x: nat, k: nat)
    ensures Shr(x, k) <= x
  {
  }

  /** Bit `i` of an element put together from its remaining bits and the path bits. */
  lemma JoinedBit(key: Quad, m: nat, j: nat, i: nat)
    requires m <= 256 && j < 4
    ensures Bit(Or(Shl(Shr(key.At(j), Taken(m, j)), Taken(m, j)), PathBits(KeyBits(key)[..m], j)), i) ==
      Bit(key.At(j), i)
  {
    hide Or, Shl, Shr, PathBits;
    var k, n, bits := key.At(j), Taken(m, j), KeyBits(key)[..m];
    BitOr(Shl(Shr(k, n), n), PathBits(bits, j), i);
    BitShl(Shr(k, n), n, i);
    if i >= n { BitShr(k, n, i - n); }
    PathBitsBit(bits, j, i);
    if 4 * i + j < m {
      assert bits[4 * i + j] == KeyBit(key, 4 * i + j);
    }
  }

  /** Element `j` of the round trip: shifting out the path bits and joining them back. */
  lemma JoinElementInverse(key: Quad, m: nat, j: nat)
    requires Canonical(key) && m <= 256 && j < 4
    ensures JoinElement(KeyBits(key)[..m], FromU64(Shr(key.At(j), Taken(m, j))), j) == key.At(j)
  {
    var k, n := key.At(j), Taken(m, j);
    var joined := Or(Shl(Shr(k, n), n), PathBits(KeyBits(key)[..m], j));
    assert joined == k by {
      forall i: nat ensures Bit(joined, i) == Bit(k, i) { JoinedBit(key, m, j, i); }
      SameBits(joined, k);
    }
    ShrAtMost(k, n);
    FromU64Canonical(Shr(k, n));
    FromU64Canonical(k);
  }

  /** `joinKey` undoes `removeKeyBits` at every level. */
  lemma JoinRemoveRoundTrip(key: Quad, m: nat)
    requires Canonical(key) && m <= 256
    ensures JoinKey(KeyBits(key)[..m], RemoveKeyBits(key, m)) == key
  {
    JoinElementInverse(key, m, 0);
    JoinElementInverse(key, m, 1);
    JoinElementInverse(key, m, 2);
    JoinElementInverse(key, m, 3);
  }

  /** The path prefix and the remaining key identify the key. */
  lemma RemainingKeyInjective(k1: Quad, k2: Quad, m: nat)
    requires Canonical(k1) && Canonical(k2) && m <= 256
    requires KeyBits(k1)[..m] == KeyBits(k2)[..m]
    requires RemoveKeyBits(k1, m) == RemoveKeyBits(k2, m)
    ensures k1 == k2
  {
    JoinRemoveRoundTrip(k1, m);
    JoinRemoveRoundTrip(k2, m);
  }

  lemma ShrAll(x: nat)
    requires x < PRIME
    ensures Shr(x, 64) == 0
  {
    Pow2Words();
    ShrDivides(x, 64);
  }

  /** `splitKey` is injective on canonical keys. */
  lemma SplitKeyInjective(k1: Quad, k2: Quad)
    requires Canonical(k1) && Canonical(k2) && KeyBits(k1) == KeyBits(k2)
    ensures k1 == k2
  {
    forall j | 0 <= j < 4 ensures Shr(k1.At(j), Taken(256, j)) == 0 == Shr(k2.At(j), Taken(256, j)) {
      ShrAll(k1.At(j));
      ShrAll(k2.At(j));
    }
    assert Shr(k1.At(0), Taken(256, 0)) == Shr(k2.At(0), Taken(256, 0));
    assert Shr(k1.At(1), Taken(256, 1)) == Shr(k2.At(1), Taken(256, 1));
    assert Shr(k1.At(2), Taken(256, 2)) == Shr(k2.At(2), Taken(256, 2));
    assert Shr(k1.At(3), Taken(256, 3)) == Shr(k2.At(3), Taken(256, 3));
    RemainingKeyInjective(k1, k2, 256);
  }

  /** Two different keys that agree below `m` differ at some level from `m` on and below 256, so
      the search for the first differing bit stays inside the 256 key bits. */
  lemma DifferingBitExists(k1: Quad, k2: Quad, m: nat)
    requires Canonical(k1) && Canonical(k2) && k1 != k2
    requires m <= 256 && KeyBits(k1)[..m] == KeyBits(k2)[..m]
    ensures exists i :: m <= i < 256 && KeyBits(k1)[i] != KeyBits(k2)[i]
  {
    if forall i :: m <= i < 256 ==> KeyBits(k1)[i] == KeyBits(k2)[i] {
      forall i | 0 <= i < 256 ensures KeyBits(k1)[i] == KeyBits(k2)[i] {
        if i < m { assert KeyBits(k1)[..m][i] == KeyBits(k2)[..m][i]; }
      }
      assert KeyBits(k1) == KeyBits(k2);
      SplitKeyInjective(k1, k2);
    }
  }

  // ---------------------------------------------------------------- 256-bit values

  const MASK32: nat := 0xFFFF_FFFF

  /** Number of 256-bit values. */
  const VALUE_LIMIT: nat := 0x1_0000_0000_0000_0000_0000_0000_0000_0000_0000_0000_0000_0000_0000_0000_0000_0000

  /** `scalar2fea`: eight 32-bit limbs, least significant first. */
  function Limb(scalar: nat, i: nat): nat {
    FromU64(And(Shr(scalar, 32 * i), MASK32))
  }

  /** The row under which a value is stored: eight limbs and capacity zero. */
  function ValueRow(scalar: nat): Row {
    Row(Quad(Limb(scalar, 0), Limb(scalar, 1), Limb(scalar, 2), Limb(scalar, 3)),
        Quad(Limb(scalar, 4), Limb(scalar, 5), Limb(scalar, 6), Limb(scalar, 7)), ZERO)
  }

  /** `fea2scalar` on elements below 2^32, as every value row has; its callers ignore the report of a
      larger one. */
  function RowValue(row: Row): nat {
    var h3 := Shl(row.b.e3, 32) + row.b.e2;
    var h2 := Shl(row.b.e1, 32) + row.b.e0;
    var h1 := Shl(row.a.e3, 32) + row.a.e2;
    var h0 := Shl(row.a.e1, 32) + row.a.e0;
    Shl(Shl(Shl(h3, 64) + h2, 64) + h1, 64) + h0
  }

  lemma LimbIs(v: nat, i: nat)
    ensures Limb(v, i) == Shr(v, 32 * i) % 0x1_0000_0000
  {
    Pow2Words();
    AndMask(Shr(v, 32 * i), 32);
    FromU64Canonical(And(Shr(v, 32 * i), MASK32));
  }

  lemma ShrStep(v: nat, i: nat)
    ensures Shr(v, 32 * i) == Shr(v, 32 * (i + 1)) * 0x1_0000_0000 + Limb(v, i)
  {
    LimbIs(v, i);
    ShrShr(v, 32 * i, 32);
    Pow2Words();
    ShrDivides(Shr(v, 32 * i), 32);
  }

  /** `fea2scalar` on eight limbs is the value in base 2^32. */
  lemma RowValueIs(r: Row)
    ensures RowValue(r) == r.a.e0 + 0x1_0000_0000 * (r.a.e1 + 0x1_0000_0000 * (r.a.e2 + 0x1_0000_0000 * (r.a.e3
      + 0x1_0000_0000 * (r.b.e0 + 0x1_0000_0000 * (r.b.e1 + 0x1_0000_0000 * (r.b.e2 + 0x1_0000_0000 * r.b.e3))))))
  {
    Pow2Words();
    hide Shl, Pow2;
    ShlMultiplies(r.b.e3, 32); ShlMultiplies(r.b.e1, 32);
    ShlMultiplies(r.a.e3, 32); ShlMultiplies(r.a.e1, 32);
    var h3 := Shl(r.b.e3, 32) + r.b.e2;
    var h2 := Shl(r.b.e1, 32) + r.b.e0;
    var h1 := Shl(r.a.e3, 32) + r.a.e2;
    ShlMultiplies(h3, 64);
    ShlMultiplies(Shl(h3, 64) + h2, 64);
    ShlMultiplies(Shl(Shl(h3, 64) + h2, 64) + h1, 64);
  }

  /** `fea2scalar` undoes `scalar2fea` on every 256-bit value. */
  lemma ValueRoundTrip(v: nat)
    requires v < VALUE_LIMIT
    ensures RowValue(ValueRow(v)) == v
  {
    RowValueIs(ValueRow(v));
    ShrStep(v, 0); ShrStep(v, 1); ShrStep(v, 2); ShrStep(v, 3);
    ShrStep(v, 4); ShrStep(v, 5); ShrStep(v, 6); ShrStep(v, 7);
    assert Shr(v, 0) == v;
    ShrTop(v);
  }

  lemma Pow256()
    ensures Pow2(256) == VALUE_LIMIT
  {
    Pow2Words();
    Pow2Add(64, 64);
    assert Pow2(128) == 0x1_0000_0000_0000_0000_0000_0000_0000_0000;
    Pow2Add(128, 128);
  }

  lemma ShrTop(v: nat)
    requires v < VALUE_LIMIT
    ensures Shr(v, 256) == 0
  {
    Pow256();
    ShrVanishes(v, 256);
  }

  lemma ShrVanishes(v: nat, n: nat)
    requires v < Pow2(n)
    ensures Shr(v, n) == 0
  {
    ShrDivides(v, n);
  }
}
