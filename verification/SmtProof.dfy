/** The siblings that `get` and `set` return are Merkle proofs: hashed up from the end of the walk they
    give the root, and any rows that do so determine the value. */
module SmtProof {
  import opened Results
  import opened SmtKeys
  import opened SmtTree
  import opened SmtPath
  import opened Smts

  /** What a proof shows at the end of the walk: the leaf of the key, the leaf of another key, or
      nothing. */
  function Bottom(H: Hasher, key: Quad, value: nat, other: Option<(Quad, nat)>, n: nat): Quad {
    if value > 0 then HashOf(H, Leaf(key, value), n)
    else if other.Some? then HashOf(H, Leaf(other.value.0, other.value.1), n)
    else ZERO
  }

  /** The hash that the rows from `i` on give at level `i`. */
  function HashUp(H: Hasher, keys: seq<bool>, rows: seq<Row>, i: nat, bottom: Quad): Quad
    requires i <= |rows| <= |keys|
    decreases |rows| - i
  {
    if i == |rows| then bottom else H(WithSlot(rows[i], keys[i], HashUp(H, keys, rows, i + 1, bottom)))
  }

  /** A proof that `root` gives `key` the value; a leaf of another key must lie on the same path. */
  ghost predicate Proves(H: Hasher, root: Quad, key: Quad, value: nat, other: Option<(Quad, nat)>, rows: seq<Row>) {
    && |rows| <= 256 && (forall i :: 0 <= i < |rows| ==> rows[i].c == ZERO)
    && Canonical(key) && value < VALUE_LIMIT
    && (other.Some? ==>
         value == 0 && other.value.0 != key && Canonical(other.value.0) && 0 < other.value.1 < VALUE_LIMIT
         && KeyBits(other.value.0)[..|rows|] == KeyBits(key)[..|rows|])
    && HashUp(H, KeyBits(key), rows, 0, Bottom(H, key, value, other, |rows|)) == root
  }

  // ---------------------------------------------------------------- completeness

  /** The rows of the path hash up to the hash of the tree. */
  lemma {:induction false} PathHashesUp(H: Hasher, t: Tree, keys: seq<bool>, rows: seq<Row>, i: nat)
    requires PathRows(H, t, keys, rows, |rows|) && i <= |rows|
    ensures HashUp(H, keys, rows, i, HashOf(H, Down(t, keys, |rows|), |rows|)) == HashOf(H, Down(t, keys, i), i)
    decreases |rows| - i
  {
    if i < |rows| { PathHashesUp(H, t, keys, rows, i + 1); }
  }

  /** The siblings of a `set` hash the subtree it put in place up to the new root. */
  lemma SetSiblingsHashUp(H: Hasher, t: Tree, key: Quad, value: nat, siblings: seq<Row>)
    requires WellFormed(t, []) && OnPath(t, KeyBits(key), Depth(t, KeyBits(key), 0))
    requires |siblings| == CutDepth(t, key, value)
    requires PathRows(H, Put(t, key, value, 0), KeyBits(key), siblings, |siblings|)
    ensures HashUp(H, KeyBits(key), siblings, 0, HashOf(H, Replacement(t, key, value), |siblings|)) ==
      HashOf(H, Put(t, key, value, 0), 0)
  {
    hide KeyBits, Put, HashOf, PathRows, Replacement, CutDepth, WellFormed;
    var g, t' := |siblings|, Put(t, key, value, 0);
    PutIsClimb(t, key, value);
    DownClimb(t, KeyBits(key), g, g, Replacement(t, key, value));
    PathHashesUp(H, t', KeyBits(key), siblings, 0);
    assert Down(t', KeyBits(key), 0) == t';
  }

  /** What `get` returns is a proof of the value it returns. */
  lemma ResultProves(H: Hasher, root: Quad, t: Tree, key: Quad, r: GetResult)
    requires Represents(H, root, t) && Canonical(key) && r.value == Value(Entries(t), key) && Shows(H, t, key, r)
    ensures Proves(H, root, key, r.value, if r.isOld0 then None else Some((r.insKey, r.insValue)), r.siblings)
  {
    hide KeyBits, HashOf, Entries, WellFormed, Depth;
    var keys, n := KeyBits(key), |r.siblings|;
    EndIsBottom(H, root, t, key, r);
    PathHashesUp(H, t, keys, r.siblings, 0);
    IntermediateRows(H, t, keys, r.siblings);
  }

  lemma IntermediateRows(H: Hasher, t: Tree, keys: seq<bool>, rows: seq<Row>)
    requires PathRows(H, t, keys, rows, |rows|)
    ensures forall i :: 0 <= i < |rows| ==> rows[i].c == ZERO
    ensures Down(t, keys, 0) == t
  {
    forall i | 0 <= i < |rows| ensures rows[i].c == ZERO { assert Down(t, keys, i).Node?; }
  }

  /** The end of the walk is what the result says it is. */
  lemma EndIsBottom(H: Hasher, root: Quad, t: Tree, key: Quad, r: GetResult)
    requires Represents(H, root, t) && Canonical(key) && r.value == Value(Entries(t), key) && Shows(H, t, key, r)
    ensures var keys, n, e := KeyBits(key), |r.siblings|, End(t, KeyBits(key));
      && root == HashOf(H, t, 0) && e == Down(t, keys, n) && r.value < VALUE_LIMIT
      && HashOf(H, e, n) == Bottom(H, key, r.value, if r.isOld0 then None else Some((r.insKey, r.insValue)), n)
      && (!r.isOld0 ==>
           (r.value == 0 && Canonical(r.insKey) && 0 < r.insValue < VALUE_LIMIT && KeyBits(r.insKey)[..n] == keys[..n]
               && r.insKey != key))
  {
    hide KeyBits, PathRows;
    var keys, n := KeyBits(key), |r.siblings|;
    EndOfWalk(t, key);
    DownWellFormed(t, keys, n);
    LookupEnd(t, key, 0);
    LookupIsEntry(t, [], key) by { assert keys[..0] == []; }
  }

  /** A `get` with its proof, which anyone who knows the root alone can check. */
  method GetWithProof(smt: Smt, c: Target, root: Quad, key: Quad, ghost t: Tree) returns (zkr: ZkResult, r: GetResult)
    requires HonestStore(smt.H, smt.Now(), c) && Represents(smt.H, root, t) && Canonical(key)
    ensures zkr == ZKR_SUCCESS ==>
      Proves(smt.H, root, key, r.value, if r.isOld0 then None else Some((r.insKey, r.insValue)), r.siblings)
  {
    hide HonestStore, Represents, Canonical, Proves, Shows;
    zkr, r := smt.Get(c, root, key, t);
    if zkr == ZKR_SUCCESS { ResultProves(smt.H, root, t, key, r); }
  }

  // ---------------------------------------------------------------- soundness

  /** Rows that hash up to the hash of a canonical tree are the rows of its path. */
  lemma {:induction false} RowsAreThePath(H: Hasher, t: Tree, keys: seq<bool>, rows: seq<Row>, i: nat, bottom: Quad)
    requires CollisionFree(H) && i <= |rows| <= |keys| && forall k :: 0 <= k < |rows| ==> rows[k].c == ZERO
    requires HashUp(H, keys, rows, i, bottom) == HashOf(H, Down(t, keys, i), i) && OnPath(t, keys, i)
    ensures OnPath(t, keys, |rows|) && HashOf(H, Down(t, keys, |rows|), |rows|) == bottom
    decreases |rows| - i
  {
    if i < |rows| {
      var u, row := Down(t, keys, i), WithSlot(rows[i], keys[i], HashUp(H, keys, rows, i + 1, bottom));
      assert NotEmptyHash(H, row);
      assert NoCollision(H, row, RowOf(H, u, i));
      RowsAreThePath(H, t, keys, rows, i + 1, bottom);
    }
  }

  /** Any rows that hash up to the root determine the value of the key. */
  lemma ProofDeterminesValue(H: Hasher, root: Quad, t: Tree, key: Quad, value: nat, other: Option<(Quad, nat)>,
      rows: seq<Row>)
    requires Represents(H, root, t) && Proves(H, root, key, value, other, rows)
    ensures value == Value(Entries(t), key)
  {
    var keys, n := KeyBits(key), |rows|;
    var bottom := Bottom(H, key, value, other, n);
    assert Down(t, keys, 0) == t;
    RowsAreThePath(H, t, keys, rows, 0, bottom);
    DepthFrom(t, keys, n);
    DownWellFormed(t, keys, n);
    if value > 0 {
      SameLeaf(H, Down(t, keys, n), key, value, keys[..n]);
    } else if other.Some? {
      SameLeaf(H, Down(t, keys, n), other.value.0, other.value.1, keys[..n]);
    } else {
      NonEmptyHash(H, Down(t, keys, n), n);
    }
    LookupEnd(t, key, 0);
    LookupIsEntry(t, [], key) by { assert keys[..0] == []; }
  }

  /** A canonical subtree with the hash of a leaf is that leaf. */
  lemma SameLeaf(H: Hasher, u: Tree, key: Quad, value: nat, path: seq<bool>)
    requires CollisionFree(H) && WellFormed(u, path) && Canonical(key) && UnderPath(key, path)
    requires 0 < value < VALUE_LIMIT
    requires HashOf(H, u, |path|) == HashOf(H, Leaf(key, value), |path|)
    ensures u == Leaf(key, value)
  {
    HashUnique(H, u, Leaf(key, value), path);
  }
}
