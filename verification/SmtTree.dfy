/** The sparse Merkle tree as a mathematical object: what a root hash stands for, the tree that
    setting one key must lead to, and why the root is a function of the key/value map alone. */
module SmtTree {
  import opened SmtKeys

  /** A subtree. A leaf carries its whole key; the stored row only keeps the bits below its level. */
  datatype Tree = Empty | Leaf(key: Quad, value: nat) | Node(left: Tree, right: Tree)

  type Hasher = Row -> Quad

  predicate NoCollision(H: Hasher, u: Row, v: Row) {
    H(u) == H(v) ==> u == v
  }

  predicate NotEmptyHash(H: Hasher, u: Row) {
    H(u) != ZERO
  }

  /** The hash is an idealised Poseidon: no two rows collide and no row hashes to the empty root. */
  ghost predicate CollisionFree(H: Hasher) {
    && (forall u, v :: NoCollision(H, u, v))
    && (forall u :: NotEmptyHash(H, u))
  }

  lemma NonEmptyHash(H: Hasher, t: Tree, level: nat)
    requires CollisionFree(H)
    ensures HashOf(H, t, level) == ZERO <==> t.Empty?
  {
    if !t.Empty? { assert NotEmptyHash(H, RowOf(H, t, level)); }
  }

  // ---------------------------------------------------------------- hashes

  function LeafRow(H: Hasher, key: Quad, value: nat, level: nat): Row {
    Row(RemoveKeyBits(key, level), H(ValueRow(value)), ONE)
  }

  function RowOf(H: Hasher, t: Tree, level: nat): Row
    requires !t.Empty?
    decreases t, 0
  {
    match t
    case Leaf(k, v) => LeafRow(H, k, v, level)
    case Node(l, r) => Row(HashOf(H, l, level + 1), HashOf(H, r, level + 1), ZERO)
  }

  /** The hash under which subtree `t`, hanging at depth `level`, is known to its parent. */
  function HashOf(H: Hasher, t: Tree, level: nat): Quad
    decreases t, 1
  {
    if t.Empty? then ZERO else H(RowOf(H, t, level))
  }

  /** Hashes of the leaf and intermediate rows of a subtree. */
  function NodeHashes(H: Hasher, t: Tree, level: nat): set<Quad> {
    match t
    case Empty => {}
    case Leaf(_, _) => {HashOf(H, t, level)}
    case Node(l, r) => {HashOf(H, t, level)} + NodeHashes(H, l, level + 1) + NodeHashes(H, r, level + 1)
  }

  /** How many leaf and intermediate rows a subtree has. */
  function NodeCount(t: Tree): nat {
    match t
    case Empty => 0
    case Leaf(_, _) => 1
    case Node(l, r) => 1 + NodeCount(l) + NodeCount(r)
  }

  /** Hashes of all rows needed to read the subtree: nodes, leaves and values. */
  function Reach(H: Hasher, t: Tree, level: nat): set<Quad> {
    match t
    case Empty => {}
    case Leaf(_, v) => {HashOf(H, t, level), H(ValueRow(v))}
    case Node(l, r) => {HashOf(H, t, level)} + Reach(H, l, level + 1) + Reach(H, r, level + 1)
  }

  /** Every row of a store is filed under its own hash. */
  ghost predicate Honest(H: Hasher, store: map<Quad, Row>) {
    forall h :: h in store ==> H(store[h]) == h
  }

  lemma HonestRow(H: Hasher, store: map<Quad, Row>, row: Row)
    requires CollisionFree(H) && Honest(H, store) && H(row) in store
    ensures store[H(row)] == row
  {
    assert H(store[H(row)]) == H(row);
    assert NoCollision(H, store[H(row)], row);
  }

  // ---------------------------------------------------------------- canonical trees

  predicate UnderPath(key: Quad, path: seq<bool>) {
    |path| <= 256 && KeyBits(key)[..|path|] == path
  }

  /** An intermediate node has at least two leaves below it. */
  predicate Branching(l: Tree, r: Tree) {
    l.Node? || r.Node? || (l.Leaf? && r.Leaf?)
  }

  predicate WellFormed(t: Tree, path: seq<bool>) {
    match t
    case Empty => true
    case Leaf(k, v) => Canonical(k) && UnderPath(k, path) && 0 < v < VALUE_LIMIT
    case Node(l, r) =>
      |path| < 256 && WellFormed(l, path + [false]) && WellFormed(r, path + [true]) && Branching(l, r)
  }

  function LeafCount(t: Tree): nat {
    match t
    case Empty => 0
    case Leaf(_, _) => 1
    case Node(l, r) => LeafCount(l) + LeafCount(r)
  }

  /** What `Branching` stands for: no intermediate node has fewer than two leaves below it. */
  lemma {:induction false} TwoLeavesBelow(t: Tree, path: seq<bool>)
    requires WellFormed(t, path)
    ensures t.Node? ==> LeafCount(t) >= 2
    ensures t.Empty? <==> LeafCount(t) == 0
  {
    if t.Node? {
      TwoLeavesBelow(t.left, path + [false]);
      TwoLeavesBelow(t.right, path + [true]);
    }
  }

  /** The key/value map a tree stands for. */
  function Entries(t: Tree): map<Quad, nat> {
    match t
    case Empty => map[]
    case Leaf(k, v) => map[k := v]
    case Node(l, r) => Entries(l) + Entries(r)
  }

  function Value(m: map<Quad, nat>, key: Quad): nat {
    if key in m then m[key] else 0
  }

  /** The specification of `set` on the map: value 0 removes the key. */
  function Updated(m: map<Quad, nat>, key: Quad, value: nat): map<Quad, nat> {
    if value == 0 then m - {key} else m[key := value]
  }

  lemma UpdatedUnion(m1: map<Quad, nat>, m2: map<Quad, nat>, key: Quad, value: nat)
    ensures key !in m1 ==> m1 + Updated(m2, key, value) == Updated(m1 + m2, key, value)
    ensures key !in m2 ==> Updated(m1, key, value) + m2 == Updated(m1 + m2, key, value)
  {
  }

  lemma UpdatesCommute(m: map<Quad, nat>, k1: Quad, v1: nat, k2: Quad, v2: nat)
    requires k1 != k2
    ensures Updated(Updated(m, k1, v1), k2, v2) == Updated(Updated(m, k2, v2), k1, v1)
  {
  }

  lemma UpdateBack(m: map<Quad, nat>, key: Quad, value: nat)
    requires key in m ==> m[key] > 0
    ensures Updated(Updated(m, key, value), key, Value(m, key)) == m
  {
  }

  lemma ExtendPath(key: Quad, path: seq<bool>, b: bool)
    requires |path| < 256
    ensures UnderPath(key, path + [b]) <==> UnderPath(key, path) && KeyBits(key)[|path|] == b
  {
    var bits := KeyBits(key);
    assert bits[..|path| + 1] == bits[..|path|] + [bits[|path|]];
    if UnderPath(key, path + [b]) {
      assert (path + [b])[..|path|] == path && bits[..|path| + 1][..|path|] == bits[..|path|];
      assert bits[..|path| + 1][|path|] == b;
    }
  }

  lemma {:induction false} EntriesUnderPath(t: Tree, path: seq<bool>)
    requires WellFormed(t, path)
    ensures forall k :: k in Entries(t) ==> Canonical(k) && UnderPath(k, path) && 0 < Entries(t)[k] < VALUE_LIMIT
    ensures Entries(t) == map[] <==> t.Empty?
  {
    if t.Node? {
      EntriesUnderPath(t.left, path + [false]);
      EntriesUnderPath(t.right, path + [true]);
      assert Entries(t).Keys == Entries(t.left).Keys + Entries(t.right).Keys;
      forall k | k in Entries(t) ensures UnderPath(k, path) {
        ExtendPath(k, path, false);
        ExtendPath(k, path, true);
      }
    }
  }

  /** The two halves of a node hold different keys, told apart by the next key bit. */
  lemma HalvesDisjoint(t: Tree, path: seq<bool>, k: Quad)
    requires t.Node? && WellFormed(t, path)
    ensures k in Entries(t.left) ==> !KeyBits(k)[|path|]
    ensures k in Entries(t.right) ==> KeyBits(k)[|path|]
  {
    EntriesUnderPath(t.left, path + [false]);
    EntriesUnderPath(t.right, path + [true]);
    ExtendPath(k, path, false);
    ExtendPath(k, path, true);
  }

  function Child(t: Tree, b: bool): Tree
    requires t.Node?
  {
    if b then t.right else t.left
  }

  function WithChild(t: Tree, b: bool, s: Tree): Tree
    requires t.Node?
  {
    if b then Node(t.left, s) else Node(s, t.right)
  }

  // ---------------------------------------------------------------- lookup and update

  /** What a walk down the key bits finds. */
  function Lookup(t: Tree, key: Quad, level: nat): nat {
    match t
    case Empty => 0
    case Leaf(k, v) => if k == key then v else 0
    case Node(l, r) => if level >= 256 then 0 else Lookup(if KeyBits(key)[level] then r else l, key, level + 1)
  }

  lemma {:induction false} LookupIsEntry(t: Tree, path: seq<bool>, key: Quad)
    requires WellFormed(t, path) && UnderPath(key, path)
    ensures Lookup(t, key, |path|) == Value(Entries(t), key)
  {
    if t.Node? {
      var b := KeyBits(key)[|path|];
      HalvesDisjoint(t, path, key);
      ExtendPath(key, path, b);
      LookupIsEntry(Child(t, b), path + [b], key);
    }
  }

  /** Two leaves under one parent chain: intermediate nodes down to the first bit that differs. */
  function Split(k1: Quad, v1: nat, k2: Quad, v2: nat, level: nat): Tree
    decreases 256 - level
  {
    if level >= 256 then Empty
    else
      var b1, b2 := KeyBits(k1)[level], KeyBits(k2)[level];
      if b1 == b2 then
        var s := Split(k1, v1, k2, v2, level + 1);
        if b1 then Node(Empty, s) else Node(s, Empty)
      else if b1 then Node(Leaf(k2, v2), Leaf(k1, v1))
      else Node(Leaf(k1, v1), Leaf(k2, v2))
  }

  function Collapse(l: Tree, r: Tree): Tree {
    if l.Empty? && r.Leaf? then r
    else if r.Empty? && l.Leaf? then l
    else Node(l, r)
  }

  /** The canonical tree after setting `key` to `value`; value 0 removes the key. */
  function Put(t: Tree, key: Quad, value: nat, level: nat): Tree {
    match t
    case Empty => if value == 0 then Empty else Leaf(key, value)
    case Leaf(k, v) =>
      if k == key then (if value == 0 then Empty else Leaf(key, value))
      else if value == 0 then t
      else Split(k, v, key, value, level)
    case Node(l, r) =>
      if level >= 256 then t
      else
        var b := KeyBits(key)[level];
        var l', r' := if b then l else Put(l, key, value, level + 1), if b then Put(r, key, value, level + 1) else r;
        if value == 0 then Collapse(l', r') else Node(l', r')
  }

  /** The keys really differ, so the chain ends in a node with two leaves. */
  lemma {:induction false} SplitCorrect(k1: Quad, v1: nat, k2: Quad, v2: nat, path: seq<bool>)
    requires Canonical(k1) && Canonical(k2) && k1 != k2 && UnderPath(k1, path) && UnderPath(k2, path)
    requires 0 < v1 < VALUE_LIMIT && 0 < v2 < VALUE_LIMIT
    ensures Split(k1, v1, k2, v2, |path|).Node?
    ensures WellFormed(Split(k1, v1, k2, v2, |path|), path)
    ensures Entries(Split(k1, v1, k2, v2, |path|)) == map[k1 := v1, k2 := v2]
    decreases 256 - |path|
  {
    DifferingBitExists(k1, k2, |path|);
    var b1, b2 := KeyBits(k1)[|path|], KeyBits(k2)[|path|];
    ExtendPath(k1, path, b1);
    ExtendPath(k2, path, b2);
    if b1 == b2 {
      SplitCorrect(k1, v1, k2, v2, path + [b1]);
    }
  }

  lemma RaiseLeaf(t: Tree, path: seq<bool>, b: bool)
    requires |path| < 256 && t.Leaf? && WellFormed(t, path + [b])
    ensures WellFormed(t, path)
  {
    ExtendPath(t.key, path, b);
  }

  /** Setting a key keeps the tree canonical. */
  lemma {:induction false} PutWellFormed(t: Tree, path: seq<bool>, key: Quad, value: nat)
    requires WellFormed(t, path) && Canonical(key) && UnderPath(key, path) && value < VALUE_LIMIT
    ensures WellFormed(Put(t, key, value, |path|), path)
    ensures value > 0 ==> !Put(t, key, value, |path|).Empty?
    ensures t.Node? ==> !Put(t, key, value, |path|).Empty?
    ensures t.Node? && value > 0 ==> Put(t, key, value, |path|).Node?
  {
    match t
    case Empty =>
    case Leaf(k, v) =>
      if k != key && value > 0 { SplitCorrect(k, v, key, value, path); }
    case Node(l, r) =>
      var b := KeyBits(key)[|path|];
      ExtendPath(key, path, b);
      PutWellFormed(Child(t, b), path + [b], key, value);
      var t' := WithChild(t, b, Put(Child(t, b), key, value, |path| + 1));
      if value == 0 {
        if t'.left.Empty? && t'.right.Leaf? { RaiseLeaf(t'.right, path, true); }
        if t'.right.Empty? && t'.left.Leaf? { RaiseLeaf(t'.left, path, false); }
      }
  }

  lemma CollapseEntries(l: Tree, r: Tree)
    ensures Entries(Collapse(l, r)) == Entries(l) + Entries(r)
  {
  }

  /** Setting a key updates exactly that key of the map. */
  lemma {:induction false} PutEntries(t: Tree, path: seq<bool>, key: Quad, value: nat)
    requires WellFormed(t, path) && Canonical(key) && UnderPath(key, path) && value < VALUE_LIMIT
    ensures Entries(Put(t, key, value, |path|)) == Updated(Entries(t), key, value)
  {
    match t
    case Empty =>
    case Leaf(k, v) =>
      if k != key && value > 0 { SplitCorrect(k, v, key, value, path); }
    case Node(l, r) =>
      var b := KeyBits(key)[|path|];
      HalvesDisjoint(t, path, key);
      ExtendPath(key, path, b);
      PutEntries(Child(t, b), path + [b], key, value);
      var t' := WithChild(t, b, Put(Child(t, b), key, value, |path| + 1));
      CollapseEntries(t'.left, t'.right);
      assert Entries(Put(t, key, value, |path|)) == Entries(t'.left) + Entries(t'.right);
      UpdatedUnion(Entries(l), Entries(r), key, value);
  }

  // ---------------------------------------------------------------- the root as a commitment

  /** Canonical trees with the same entries are the same tree. */
  lemma {:induction false} CanonicalUnique(t1: Tree, t2: Tree, path: seq<bool>)
    requires WellFormed(t1, path) && WellFormed(t2, path) && Entries(t1) == Entries(t2)
    ensures t1 == t2
  {
    EntriesUnderPath(t1, path);
    EntriesUnderPath(t2, path);
    if t1.Leaf? {
      LeafEntries(t1, t2, path);
    } else if t2.Leaf? {
      LeafEntries(t2, t1, path);
    } else if t1.Node? && t2.Node? {
      HalfEntries(t1, t2, path);
      CanonicalUnique(t1.left, t2.left, path + [false]);
      CanonicalUnique(t1.right, t2.right, path + [true]);
    }
  }

  lemma {:induction false} TwoEntries(t: Tree, path: seq<bool>)
    requires WellFormed(t, path) && t.Node?
    ensures exists k1, k2 :: k1 in Entries(t) && k2 in Entries(t) && k1 != k2
  {
    if t.left.Node? {
      TwoEntries(t.left, path + [false]);
      var k1, k2 :| k1 in Entries(t.left) && k2 in Entries(t.left) && k1 != k2;
      assert k1 in Entries(t) && k2 in Entries(t);
    } else if t.right.Node? {
      TwoEntries(t.right, path + [true]);
      var k1, k2 :| k1 in Entries(t.right) && k2 in Entries(t.right) && k1 != k2;
      assert k1 in Entries(t) && k2 in Entries(t);
    } else {
      HalvesDisjoint(t, path, t.left.key);
      HalvesDisjoint(t, path, t.right.key);
      assert t.left.key in Entries(t) && t.right.key in Entries(t);
    }
  }

  lemma LeafEntries(leaf: Tree, t: Tree, path: seq<bool>)
    requires leaf.Leaf? && WellFormed(t, path) && Entries(leaf) == Entries(t)
    ensures t == leaf
  {
    if t.Node? {
      TwoEntries(t, path);
    } else {
      assert leaf.key in Entries(leaf);
      assert leaf.key in Entries(t);
    }
  }

  lemma HalfEntries(t1: Tree, t2: Tree, path: seq<bool>)
    requires t1.Node? && t2.Node? && WellFormed(t1, path) && WellFormed(t2, path) && Entries(t1) == Entries(t2)
    ensures Entries(t1.left) == Entries(t2.left) && Entries(t1.right) == Entries(t2.right)
  {
    forall k ensures k in Entries(t1.left) <==> k in Entries(t2.left)
             ensures k in Entries(t1.left) ==> Entries(t1.left)[k] == Entries(t2.left)[k]
             ensures k in Entries(t1.right) <==> k in Entries(t2.right)
             ensures k in Entries(t1.right) ==> Entries(t1.right)[k] == Entries(t2.right)[k]
    {
      HalvesDisjoint(t1, path, k);
      HalvesDisjoint(t2, path, k);
      assert k in Entries(t1) <==> k in Entries(t2);
      assert k in Entries(t1) ==> Entries(t1)[k] == Entries(t2)[k];
    }
  }

  /** Canonical trees with the same hash are the same tree. */
  lemma {:induction false} HashUnique(H: Hasher, t1: Tree, t2: Tree, path: seq<bool>)
    requires CollisionFree(H) && WellFormed(t1, path) && WellFormed(t2, path)
    requires HashOf(H, t1, |path|) == HashOf(H, t2, |path|)
    ensures t1 == t2
  {
    NonEmptyHash(H, t1, |path|);
    NonEmptyHash(H, t2, |path|);
    if !t1.Empty? && !t2.Empty? {
      assert NoCollision(H, RowOf(H, t1, |path|), RowOf(H, t2, |path|));
      if t1.Leaf? {
        assert NoCollision(H, ValueRow(t1.value), ValueRow(t2.value));
        ValueRoundTrip(t1.value);
        ValueRoundTrip(t2.value);
        RemainingKeyInjective(t1.key, t2.key, |path|);
      } else {
        HashUnique(H, t1.left, t2.left, path + [false]);
        HashUnique(H, t1.right, t2.right, path + [true]);
      }
    }
  }

  /** The root is a function of the key/value map alone, and a binding commitment to it. */
  lemma RootIffSameMap(H: Hasher, t1: Tree, t2: Tree)
    requires CollisionFree(H) && WellFormed(t1, []) && WellFormed(t2, [])
    ensures HashOf(H, t1, 0) == HashOf(H, t2, 0) <==> Entries(t1) == Entries(t2)
  {
    if Entries(t1) == Entries(t2) { CanonicalUnique(t1, t2, []); }
    if HashOf(H, t1, 0) == HashOf(H, t2, 0) { HashUnique(H, t1, t2, []); }
  }

  /** Sets on different keys commute, down to the root. */
  lemma PutsCommute(t: Tree, k1: Quad, v1: nat, k2: Quad, v2: nat)
    requires WellFormed(t, []) && Canonical(k1) && Canonical(k2) && k1 != k2
    requires v1 < VALUE_LIMIT && v2 < VALUE_LIMIT
    ensures Put(Put(t, k1, v1, 0), k2, v2, 0) == Put(Put(t, k2, v2, 0), k1, v1, 0)
  {
    PutTwice(t, k1, v1, k2, v2);
    PutTwice(t, k2, v2, k1, v1);
    UpdatesCommute(Entries(t), k1, v1, k2, v2);
    CanonicalUnique(Put(Put(t, k1, v1, 0), k2, v2, 0), Put(Put(t, k2, v2, 0), k1, v1, 0), []);
  }

  lemma PutTwice(t: Tree, k1: Quad, v1: nat, k2: Quad, v2: nat)
    requires WellFormed(t, []) && Canonical(k1) && Canonical(k2) && v1 < VALUE_LIMIT && v2 < VALUE_LIMIT
    ensures WellFormed(Put(Put(t, k1, v1, 0), k2, v2, 0), [])
    ensures Entries(Put(Put(t, k1, v1, 0), k2, v2, 0)) == Updated(Updated(Entries(t), k1, v1), k2, v2)
  {
    var t1 := Put(t, k1, v1, 0);
    PutWellFormed(t, [], k1, v1);
    PutEntries(t, [], k1, v1);
    PutWellFormed(t1, [], k2, v2);
    PutEntries(t1, [], k2, v2);
  }

  /** Setting a key back to what it held restores the tree, whatever was set in between;
      in particular insert followed by delete does. */
  lemma PutBackRestores(t: Tree, key: Quad, value: nat)
    requires WellFormed(t, []) && Canonical(key) && value < VALUE_LIMIT
    ensures Put(Put(t, key, value, 0), key, Lookup(t, key, 0), 0) == t
  {
    LookupIsEntry(t, [], key);
    EntriesUnderPath(t, []);
    PutTwice(t, key, value, key, Lookup(t, key, 0));
    UpdateBack(Entries(t), key, value);
    CanonicalUnique(Put(Put(t, key, value, 0), key, Lookup(t, key, 0), 0), t, []);
  }
}
