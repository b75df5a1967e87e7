/** Walking down a tree along the bits of a key and climbing back up: the shape of the loops of
    `set`, the rows they save and the nodes they declare dead. */
module SmtPath {
  import opened SmtKeys
  import opened SmtTree

  /** The subtree after `i` steps along `bits`. */
  function Down(t: Tree, bits: seq<bool>, i: nat): Tree
    requires i <= |bits|
  {
    if i == 0 then t
    else
      var u := Down(t, bits, i - 1);
      if u.Node? then Child(u, bits[i - 1]) else Empty
  }

  /** The first `n` subtrees on the way are intermediate nodes. */
  predicate OnPath(t: Tree, bits: seq<bool>, n: nat)
    requires n <= |bits|
  {
    forall i :: 0 <= i < n ==> Down(t, bits, i).Node?
  }

  /** How many intermediate nodes the walk passes. */
  function Depth(t: Tree, bits: seq<bool>, level: nat): (d: nat)
    requires level <= |bits|
    ensures level <= d <= |bits|
  {
    if t.Node? && level < |bits| then Depth(Child(t, bits[level]), bits, level + 1) else level
  }

  /** Where the walk ends. */
  function End(t: Tree, bits: seq<bool>): Tree {
    Down(t, bits, Depth(t, bits, 0))
  }

  lemma {:induction false} DepthFrom(t: Tree, bits: seq<bool>, n: nat)
    requires n <= |bits| && OnPath(t, bits, n)
    ensures Depth(t, bits, 0) == Depth(Down(t, bits, n), bits, n)
  {
    if n > 0 { DepthFrom(t, bits, n - 1); }
  }

  lemma {:induction false} DownWellFormed(t: Tree, bits: seq<bool>, n: nat)
    requires n <= |bits| && OnPath(t, bits, n) && WellFormed(t, [])
    ensures WellFormed(Down(t, bits, n), bits[..n])
  {
    if n > 0 {
      DownWellFormed(t, bits, n - 1);
      assert bits[..n] == bits[..n - 1] + [bits[n - 1]];
    }
  }

  /** The walk ends at an empty subtree or a leaf, after at most 256 steps. */
  lemma EndOfWalk(t: Tree, key: Quad)
    requires WellFormed(t, [])
    ensures OnPath(t, KeyBits(key), Depth(t, KeyBits(key), 0)) && !End(t, KeyBits(key)).Node?
  {
    EndFrom(t, KeyBits(key), 0);
  }

  lemma {:induction false} EndFrom(t: Tree, bits: seq<bool>, n: nat)
    requires WellFormed(t, []) && |bits| == 256 && n <= 256 && OnPath(t, bits, n)
    ensures OnPath(t, bits, Depth(t, bits, 0)) && !End(t, bits).Node?
    decreases 256 - n
  {
    DepthFrom(t, bits, n);
    DownWellFormed(t, bits, n);
    if Down(t, bits, n).Node? { EndFrom(t, bits, n + 1); }
  }

  /** `t` seen from depth `j` after its subtree at depth `g` on the path became `s`. */
  function Climb(t: Tree, bits: seq<bool>, j: nat, g: nat, s: Tree): Tree
    requires j <= g <= |bits| && OnPath(t, bits, g)
    decreases g - j
  {
    if j == g then s else WithChild(Down(t, bits, j), bits[j], Climb(t, bits, j + 1, g, s))
  }

  lemma {:induction false} DownClimb(t: Tree, bits: seq<bool>, j: nat, g: nat, s: Tree)
    requires j <= g <= |bits| && OnPath(t, bits, g)
    ensures Down(Climb(t, bits, 0, g, s), bits, j) == Climb(t, bits, j, g, s)
  {
    if j > 0 { DownClimb(t, bits, j - 1, g, s); }
  }

  /** Below a leaf there is nothing. */
  lemma {:induction false} DownBelowLeaf(t: Tree, bits: seq<bool>, g: nat, n: nat)
    requires g < n <= |bits| && !Down(t, bits, g).Node?
    ensures Down(t, bits, n).Empty?
  {
    if g < n - 1 { DownBelowLeaf(t, bits, g, n - 1); }
  }

  // ---------------------------------------------------------------- climbing is putting

  /** The leaf and its only sibling under the last node of the walk. */
  function Sibling(t: Tree, bits: seq<bool>, n: nat): Tree
    requires 0 < n <= |bits| && OnPath(t, bits, n)
  {
    Child(Down(t, bits, n - 1), !bits[n - 1])
  }

  /** How far a lone leaf rises: past every node whose other side is empty. */
  function RaiseTo(t: Tree, bits: seq<bool>, n: nat): (m: nat)
    requires n <= |bits| && OnPath(t, bits, n)
    ensures m <= n
  {
    if n > 0 && Sibling(t, bits, n).Empty? then RaiseTo(t, bits, n - 1) else n
  }

  lemma {:induction false} PutClimbs(t: Tree, key: Quad, value: nat, j: nat, g: nat)
    requires j <= g <= 256 && OnPath(t, KeyBits(key), g)
    requires value > 0 || g == 0 || NoCollapse(t, KeyBits(key), g, Put(Down(t, KeyBits(key), g), key, value, g))
    ensures Put(Down(t, KeyBits(key), j), key, value, j) ==
            Climb(t, KeyBits(key), j, g, Put(Down(t, KeyBits(key), g), key, value, g))
    decreases g - j
  {
    if j < g {
      PutClimbs(t, key, value, j + 1, g);
      var s := Put(Down(t, KeyBits(key), g), key, value, g);
      if value == 0 && j + 1 < g {
        assert Climb(t, KeyBits(key), j + 1, g, s).Node?;
      }
    }
  }

  /** Putting `s` under the last node before depth `g` leaves nothing to collapse. */
  predicate NoCollapse(t: Tree, bits: seq<bool>, g: nat, s: Tree)
    requires 0 < g <= |bits| && OnPath(t, bits, g)
  {
    var u := WithChild(Down(t, bits, g - 1), bits[g - 1], s);
    Collapse(u.left, u.right) == u
  }

  /** Deleting a leaf whose sibling is a leaf: the sibling rises to `RaiseTo`. */
  lemma {:induction false} DeleteRaises(t: Tree, key: Quad, j: nat, g: nat)
    requires 0 < g <= 256 && OnPath(t, KeyBits(key), g)
    requires Put(Down(t, KeyBits(key), g), key, 0, g) == Empty && Sibling(t, KeyBits(key), g).Leaf?
    requires RaiseTo(t, KeyBits(key), g - 1) <= j < g
    ensures Put(Down(t, KeyBits(key), j), key, 0, j) == Sibling(t, KeyBits(key), g)
    decreases g - j
  {
    hide KeyBits, RaiseTo;
    if j < g - 1 {
      DeleteRaises(t, key, j + 1, g);
      RaisePassesEmpty(t, KeyBits(key), g - 1, j);
    }
  }

  lemma {:induction false} RaisePassesEmpty(t: Tree, bits: seq<bool>, n: nat, j: nat)
    requires n <= |bits| && OnPath(t, bits, n) && RaiseTo(t, bits, n) <= j < n
    ensures Sibling(t, bits, j + 1).Empty?
  {
    if j < n - 1 { RaisePassesEmpty(t, bits, n - 1, j); }
  }

  lemma {:induction false} RaiseStops(t: Tree, bits: seq<bool>, n: nat)
    requires n <= |bits| && OnPath(t, bits, n)
    ensures RaiseTo(t, bits, n) > 0 ==> !Sibling(t, bits, RaiseTo(t, bits, n)).Empty?
  {
    if n > 0 && Sibling(t, bits, n).Empty? { RaiseStops(t, bits, n - 1); }
  }

  // ---------------------------------------------------------------- the seven modes

  datatype SetMode = Update | InsertFound | InsertNotFound | DeleteFound | DeleteNotFound | DeleteLast | ZeroToZero

  function ModeOf(t: Tree, key: Quad, value: nat): SetMode
    requires OnPath(t, KeyBits(key), Depth(t, KeyBits(key), 0))
  {
    var bits := KeyBits(key);
    var n, e := Depth(t, bits, 0), End(t, bits);
    if value != 0 then
      if e.Leaf? then (if e.key == key then Update else InsertFound) else InsertNotFound
    else if e.Leaf? && e.key == key then
      if n == 0 then DeleteLast
      else if Sibling(t, bits, n).Leaf? then DeleteFound else DeleteNotFound
    else ZeroToZero
  }

  /** The depth at which the old tree is cut; everything above is rebuilt. */
  function CutDepth(t: Tree, key: Quad, value: nat): (g: nat)
    requires OnPath(t, KeyBits(key), Depth(t, KeyBits(key), 0))
    ensures g <= Depth(t, KeyBits(key), 0)
  {
    var n := Depth(t, KeyBits(key), 0);
    if ModeOf(t, key, value).DeleteFound? then RaiseTo(t, KeyBits(key), n - 1) else n
  }

  /** The subtree that takes its place. */
  function Replacement(t: Tree, key: Quad, value: nat): Tree
    requires OnPath(t, KeyBits(key), Depth(t, KeyBits(key), 0))
  {
    var n := Depth(t, KeyBits(key), 0);
    if ModeOf(t, key, value).DeleteFound? then Sibling(t, KeyBits(key), n)
    else Put(End(t, KeyBits(key)), key, value, n)
  }

  /** The rows that a mode hashes besides those of the path: the new leaves, the new value or the
      raised leaf's, and the nodes between two leaves that were split. */
  function ModeHashes(t: Tree, key: Quad, value: nat): nat
    requires OnPath(t, KeyBits(key), Depth(t, KeyBits(key), 0))
  {
    if value > 0 then NodeCount(Replacement(t, key, value)) + 1
    else if ModeOf(t, key, 0).DeleteFound? then NodeCount(Replacement(t, key, 0)) + 2
    else 0
  }

  /** In every mode the new tree is the old one with the replacement at the cut. */
  lemma PutIsClimb(t: Tree, key: Quad, value: nat)
    requires WellFormed(t, [])
    ensures OnPath(t, KeyBits(key), Depth(t, KeyBits(key), 0))
    ensures Put(t, key, value, 0) == Climb(t, KeyBits(key), 0, CutDepth(t, key, value), Replacement(t, key, value))
  {
    hide KeyBits;
    EndOfWalk(t, key);
    var bits := KeyBits(key);
    var n := Depth(t, bits, 0);
    DownWellFormed(t, bits, n);
    if n > 0 { DownWellFormed(t, bits, n - 1); }
    if ModeOf(t, key, value).DeleteFound? {
      var m := RaiseTo(t, bits, n - 1);
      RaiseStops(t, bits, n - 1);
      DeleteRaises(t, key, m, n);
      PutClimbs(t, key, value, 0, m);
    } else {
      PutClimbs(t, key, value, 0, n);
    }
  }

  // ---------------------------------------------------------------- saved rows and dead nodes

  /** Hashes of the first `g` nodes on the path. */
  function PathHashes(H: Hasher, t: Tree, bits: seq<bool>, g: nat): set<Quad>
    requires g <= |bits|
  {
    if g == 0 then {} else PathHashes(H, t, bits, g - 1) + {HashOf(H, Down(t, bits, g - 1), g - 1)}
  }

  /** Hashes of all rows a `set` saves. */
  function SetWrites(H: Hasher, t: Tree, key: Quad, value: nat): set<Quad>
    requires OnPath(t, KeyBits(key), Depth(t, KeyBits(key), 0))
  {
    var g := CutDepth(t, key, value);
    PathHashes(H, Put(t, key, value, 0), KeyBits(key), g)
    + (if ModeOf(t, key, value).ZeroToZero? then {} else NodeHashes(H, Replacement(t, key, value), g))
    + (if value > 0 then {H(ValueRow(value))} else {})
  }

  /** Old path nodes at depths `n` .. 1 whose place another node took, deepest first. */
  function Replaced(H: Hasher, t: Tree, t': Tree, bits: seq<bool>, n: nat): seq<Quad>
    requires n <= |bits|
  {
    if n == 0 then []
    else
      var was := HashOf(H, Down(t, bits, n), n);
      (if was != HashOf(H, Down(t', bits, n), n) && was != ZERO then [was] else []) + Replaced(H, t, t', bits, n - 1)
  }

  /** The nodes a `set` reports as dead: the leaf it changed or removed, then the path above. The
      root, a leaf pushed down by an insertion and a leaf pulled up by a deletion are not reported. */
  function SetDeletes(H: Hasher, t: Tree, key: Quad, value: nat): seq<Quad>
    requires OnPath(t, KeyBits(key), Depth(t, KeyBits(key), 0))
  {
    var bits, t', g := KeyBits(key), Put(t, key, value, 0), CutDepth(t, key, value);
    var n := Depth(t, bits, 0);
    match ModeOf(t, key, value)
    case DeleteFound => [HashOf(H, End(t, bits), n)] + Replaced(H, t, t', bits, if g == 0 then 0 else g - 1)
    case InsertFound => Replaced(H, t, t', bits, if g == 0 then 0 else g - 1)
    case _ => Replaced(H, t, t', bits, g)
  }

  /** Everything the new tree can reach below depth `j` was reachable before or has been saved. */
  lemma {:induction false} ClimbReach(H: Hasher, t: Tree, bits: seq<bool>, j: nat, g: nat, s: Tree, h: Quad)
    requires j <= g <= |bits| && OnPath(t, bits, g)
    requires h in Reach(H, Climb(t, bits, j, g, s), j)
    ensures h in Reach(H, Down(t, bits, j), j) || h in Reach(H, s, g)
         || h in PathHashes(H, Climb(t, bits, 0, g, s), bits, g)
    decreases g - j
  {
    if j < g {
      DownClimb(t, bits, j, g, s);
      if h == HashOf(H, Climb(t, bits, j, g, s), j) {
        InPathHashes(H, Climb(t, bits, 0, g, s), bits, g, j);
      } else if h in Reach(H, Climb(t, bits, j + 1, g, s), j + 1) {
        ClimbReach(H, t, bits, j + 1, g, s, h);
      }
    }
  }

  lemma {:induction false} InPathHashes(H: Hasher, t: Tree, bits: seq<bool>, g: nat, j: nat)
    requires j < g <= |bits|
    ensures HashOf(H, Down(t, bits, j), j) in PathHashes(H, t, bits, g)
  {
    if j < g - 1 { InPathHashes(H, t, bits, g - 1, j); }
  }

  lemma {:induction false} DownReach(H: Hasher, t: Tree, bits: seq<bool>, n: nat)
    requires n <= |bits| && OnPath(t, bits, n)
    ensures Reach(H, Down(t, bits, n), n) <= Reach(H, t, 0)
  {
    hide Reach;
    if n > 0 {
      DownReach(H, t, bits, n - 1);
      ChildReach(H, Down(t, bits, n - 1), bits[n - 1], n - 1);
    }
  }

  lemma ChildReach(H: Hasher, t: Tree, b: bool, level: nat)
    requires t.Node?
    ensures Reach(H, Child(t, b), level + 1) <= Reach(H, t, level) && HashOf(H, t, level) in Reach(H, t, level)
  {
    hide HashOf;
  }

  lemma {:induction false} SplitReach(H: Hasher, k1: Quad, v1: nat, k2: Quad, v2: nat, level: nat)
    ensures Reach(H, Split(k1, v1, k2, v2, level), level) <=
            NodeHashes(H, Split(k1, v1, k2, v2, level), level) + {H(ValueRow(v1)), H(ValueRow(v2))}
    decreases 256 - level
  {
    if level < 256 && KeyBits(k1)[level] == KeyBits(k2)[level] { SplitReach(H, k1, v1, k2, v2, level + 1); }
  }

  /** A `set` saves every row of the new tree that the old tree did not have. */
  lemma SetSavesNewRows(H: Hasher, t: Tree, key: Quad, value: nat)
    requires WellFormed(t, []) && Canonical(key)
    ensures OnPath(t, KeyBits(key), Depth(t, KeyBits(key), 0))
    ensures Reach(H, Put(t, key, value, 0), 0) <= Reach(H, t, 0) + SetWrites(H, t, key, value)
  {
    PutIsClimb(t, key, value);
    EndOfWalk(t, key);
    var bits := KeyBits(key);
    var n, g, s := Depth(t, bits, 0), CutDepth(t, key, value), Replacement(t, key, value);
    forall h | h in Reach(H, Put(t, key, value, 0), 0)
      ensures h in Reach(H, t, 0) || h in SetWrites(H, t, key, value)
    {
      ClimbReach(H, t, bits, 0, g, s, h);
      DownReach(H, t, bits, n);
      if h in Reach(H, s, g) { ReplacementReach(H, t, key, value, h); }
    }
  }

  lemma ReplacementReach(H: Hasher, t: Tree, key: Quad, value: nat, h: Quad)
    requires OnPath(t, KeyBits(key), Depth(t, KeyBits(key), 0)) && !End(t, KeyBits(key)).Node?
    requires h in Reach(H, Replacement(t, key, value), CutDepth(t, key, value))
    ensures h in Reach(H, t, 0) || h in SetWrites(H, t, key, value)
  {
    var bits := KeyBits(key);
    var n, e := Depth(t, bits, 0), End(t, bits);
    DownReach(H, t, bits, n);
    match ModeOf(t, key, value)
    case DeleteFound =>
      DownReach(H, t, bits, n - 1);
      assert Reach(H, Sibling(t, bits, n), n) <= Reach(H, Down(t, bits, n - 1), n - 1);
    case InsertFound =>
      SplitReach(H, e.key, e.value, key, value, n);
    case _ =>
  }

  /** Everything a walk for `key` has to read. */
  function WalkReads(H: Hasher, t: Tree, bits: seq<bool>): set<Quad> {
    PathHashes(H, t, bits, Depth(t, bits, 0)) + Reach(H, End(t, bits), Depth(t, bits, 0))
  }

  lemma {:induction false} WalkReadsReachable(H: Hasher, t: Tree, bits: seq<bool>)
    requires OnPath(t, bits, Depth(t, bits, 0))
    ensures WalkReads(H, t, bits) <= Reach(H, t, 0)
  {
    DownReach(H, t, bits, Depth(t, bits, 0));
    PathReachable(H, t, bits, Depth(t, bits, 0));
  }

  lemma {:induction false} PathReachable(H: Hasher, t: Tree, bits: seq<bool>, n: nat)
    requires n <= |bits| && OnPath(t, bits, n)
    ensures PathHashes(H, t, bits, n) <= Reach(H, t, 0)
  {
    hide Reach, HashOf;
    if n > 0 {
      PathReachable(H, t, bits, n - 1);
      DownReach(H, t, bits, n - 1);
      ChildReach(H, Down(t, bits, n - 1), bits[n - 1], n - 1);
    }
  }

  /** Looking a key up is looking at the end of its walk. */
  lemma {:induction false} LookupEnd(t: Tree, key: Quad, n: nat)
    requires n <= Depth(t, KeyBits(key), 0) && OnPath(t, KeyBits(key), Depth(t, KeyBits(key), 0))
    requires !End(t, KeyBits(key)).Node?
    ensures Lookup(Down(t, KeyBits(key), n), key, n) ==
            (if End(t, KeyBits(key)).Leaf? && End(t, KeyBits(key)).key == key then End(t, KeyBits(key)).value else 0)
    decreases Depth(t, KeyBits(key), 0) - n
  {
    if n < Depth(t, KeyBits(key), 0) { LookupEnd(t, key, n + 1); }
  }
}
