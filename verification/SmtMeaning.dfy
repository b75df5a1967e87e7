/** What `set` returns and stores, read off the key/value map: the mode, the displaced leaf, the number
    of rows, and the nodes saved and reported dead. */
module SmtMeaning {
  import opened Results
  import opened SmtKeys
  import opened SmtTree
  import opened SmtPath
  import opened SubStates
  import opened StateManagers
  import opened Smts

  // ---------------------------------------------------------------- keys that share path bits

  /** The two keys agree on their first `n` path bits. */
  predicate Shares(k: Quad, key: Quad, n: nat)
    requires n <= 256
  {
    KeyBits(k)[..n] == KeyBits(key)[..n]
  }

  /** The keys of the map that share `n` path bits with `key` */
  function Sharing(m: map<Quad, nat>, key: Quad, n: nat): set<Quad>
    requires n <= 256
  {
    set k | k in m && Shares(k, key, n)
  }

  /** At least two of them */
  predicate Crowded(m: map<Quad, nat>, key: Quad, n: nat)
    requires n <= 256
  {
    exists a, b :: a in Sharing(m, key, n) && b in Sharing(m, key, n) && a != b
  }

  lemma SharesNext(k: Quad, key: Quad, n: nat)
    requires n < 256
    ensures Shares(k, key, n + 1) <==> Shares(k, key, n) && KeyBits(k)[n] == KeyBits(key)[n]
  {
    var a, b := KeyBits(k), KeyBits(key);
    assert a[..n + 1] == a[..n] + [a[n]] && b[..n + 1] == b[..n] + [b[n]];
    if Shares(k, key, n + 1) {
      assert a[..n + 1][..n] == a[..n] && b[..n + 1][..n] == b[..n];
      assert a[..n + 1][n] == a[n] && b[..n + 1][n] == b[n];
    }
  }

  /** The subtree `n` steps down holds exactly the entries that share `n` bits with the key. */
  lemma {:induction false} DownEntries(t: Tree, key: Quad, n: nat, k: Quad)
    requires n <= 256 && WellFormed(t, []) && OnPath(t, KeyBits(key), n)
    ensures var u := Down(t, KeyBits(key), n);
      && (k in Entries(u) <==> k in Entries(t) && Shares(k, key, n))
      && (k in Entries(u) ==> Entries(u)[k] == Entries(t)[k])
  {
    hide KeyBits, WellFormed;
    if n > 0 {
      var bits := KeyBits(key);
      DownEntries(t, key, n - 1, k);
      DownWellFormed(t, bits, n - 1);
      HalvesDisjoint(Down(t, bits, n - 1), bits[..n - 1], k);
      SharesNext(k, key, n - 1);
    }
  }

  lemma DownSharing(t: Tree, key: Quad, n: nat)
    requires n <= 256 && WellFormed(t, []) && OnPath(t, KeyBits(key), n)
    ensures Entries(Down(t, KeyBits(key), n)).Keys == Sharing(Entries(t), key, n)
  {
    hide KeyBits, WellFormed, Entries, Shares, Down;
    forall k ensures k in Entries(Down(t, KeyBits(key), n)) <==> k in Sharing(Entries(t), key, n) {
      DownEntries(t, key, n, k);
    }
  }

  lemma {:induction false} SharingShrinks(m: map<Quad, nat>, key: Quad, i: nat, n: nat)
    requires i <= n <= 256
    ensures Sharing(m, key, n) <= Sharing(m, key, i)
  {
    if i < n {
      SharingShrinks(m, key, i, n - 1);
      forall k | k in Sharing(m, key, n) ensures k in Sharing(m, key, n - 1) { SharesNext(k, key, n - 1); }
    }
  }

  /** The walk goes on exactly as long as two keys share the bits walked so far. */
  lemma DepthIffCrowded(t: Tree, key: Quad, n: nat)
    requires WellFormed(t, []) && n <= 256
    ensures n < Depth(t, KeyBits(key), 0) <==> Crowded(Entries(t), key, n)
  {
    hide KeyBits, WellFormed;
    var bits := KeyBits(key);
    var depth := Depth(t, bits, 0);
    EndOfWalk(t, key);
    if n < depth {
      DownSharing(t, key, n);
      DownWellFormed(t, bits, n);
      TwoEntries(Down(t, bits, n), bits[..n]);
    } else {
      DownSharing(t, key, depth);
      SharingShrinks(Entries(t), key, depth, n);
    }
  }

  /** Where the walk ends, the one key that shares that many bits, or none. */
  lemma EndIsSharing(t: Tree, key: Quad)
    requires WellFormed(t, [])
    ensures var e, s := End(t, KeyBits(key)), Sharing(Entries(t), key, Depth(t, KeyBits(key), 0));
      && !e.Node?
      && (e.Empty? ==> s == {})
      && (e.Leaf? ==> s == {e.key} && e.key in Entries(t) && Entries(t)[e.key] == e.value)
  {
    hide KeyBits, WellFormed;
    EndOfWalk(t, key);
    var n := Depth(t, KeyBits(key), 0);
    DownSharing(t, key, n);
    var e := End(t, KeyBits(key));
    if e.Leaf? { DownEntries(t, key, n, e.key); }
  }

  lemma OwnKeyShares(m: map<Quad, nat>, key: Quad, n: nat)
    requires n <= 256
    ensures key in Sharing(m, key, n) <==> key in m
  {
    hide KeyBits;
  }

  /** The other keys below the last node of the walk to a leaf are those of its sibling. */
  lemma SiblingSharing(t: Tree, key: Quad)
    requires WellFormed(t, []) && End(t, KeyBits(key)).Leaf? && End(t, KeyBits(key)).key == key
    requires Depth(t, KeyBits(key), 0) > 0
    ensures OnPath(t, KeyBits(key), Depth(t, KeyBits(key), 0))
    ensures var n := Depth(t, KeyBits(key), 0);
      var u := Sibling(t, KeyBits(key), n);
      && Sharing(Entries(t), key, n - 1) - {key} == Entries(u).Keys
      && WellFormed(u, KeyBits(key)[..n - 1] + [!KeyBits(key)[n - 1]]) && !u.Empty?
      && forall k :: k in Entries(u) ==> k in Entries(t) && Entries(u)[k] == Entries(t)[k]
  {
    EndOfWalk(t, key);
    var bits := KeyBits(key);
    var n := Depth(t, bits, 0);
    var w := Down(t, bits, n - 1);
    DownWellFormed(t, bits, n - 1);
    DownSharing(t, key, n - 1);
    var u := Sibling(t, bits, n);
    assert Child(w, bits[n - 1]) == Leaf(key, End(t, bits).value);
    forall k ensures k in Entries(u) <==> k in Entries(w) && k != key
             ensures k in Entries(u) ==> Entries(u)[k] == Entries(w)[k]
    {
      HalvesDisjoint(w, bits[..n - 1], k);
      HalvesDisjoint(w, bits[..n - 1], key);
      assert key in Entries(Child(w, bits[n - 1]));
    }
    forall k | k in Entries(u) ensures k in Entries(t) && Entries(u)[k] == Entries(t)[k] {
      DownEntries(t, key, n - 1, k);
    }
  }

  /** A canonical subtree is a leaf exactly when it holds one key. */
  lemma LeafIffOneKey(t: Tree, path: seq<bool>)
    requires WellFormed(t, path)
    ensures t.Leaf? <==> |Entries(t).Keys| == 1
  {
    hide KeyBits, WellFormed;
    if t.Node? {
      TwoEntries(t, path);
      hide Entries;
      var a, b :| a in Entries(t) && b in Entries(t) && a != b;
      assert {a, b} <= Entries(t).Keys && |{a, b}| == 2;
      SubsetSize({a, b}, Entries(t).Keys);
    } else if t.Leaf? {
      assert Entries(t).Keys == {t.key};
    } else {
      assert Entries(t).Keys == {};
    }
  }

  lemma SubsetSize<T>(a: set<T>, b: set<T>)
    requires a <= b
    ensures |a| <= |b|
  {
    assert b == a + (b - a);
  }

  lemma DepthIs(t: Tree, key: Quad, n: nat)
    requires WellFormed(t, []) && n <= 256
    requires !Crowded(Entries(t), key, n) && forall i :: 0 <= i < n ==> Crowded(Entries(t), key, i)
    ensures Depth(t, KeyBits(key), 0) == n
    ensures OnPath(t, KeyBits(key), n)
  {
    hide Crowded, KeyBits, WellFormed, Entries, Depth;
    DepthIffCrowded(t, key, n);
    if n > 0 { DepthIffCrowded(t, key, n - 1); }
    EndOfWalk(t, key);
  }

  // ---------------------------------------------------------------- the mode

  /** The mode of a `set` that stores a value: whether the key is there, and whether another key stands
      where its path ends. */
  lemma InsertMode(t: Tree, key: Quad, value: nat)
    requires WellFormed(t, []) && value > 0
    ensures OnPath(t, KeyBits(key), Depth(t, KeyBits(key), 0))
    ensures var m, mode := Entries(t), ModeOf(t, key, value);
      && (key in m ==> mode.Update?)
      && (key !in m && Sharing(m, key, Depth(t, KeyBits(key), 0)) == {} ==> mode.InsertNotFound?)
      && (key !in m && Sharing(m, key, Depth(t, KeyBits(key), 0)) != {} ==> mode.InsertFound?)
  {
    hide KeyBits, WellFormed, Entries, Sharing, Depth;
    EndOfWalk(t, key);
    EndIsSharing(t, key);
    OwnKeyShares(Entries(t), key, Depth(t, KeyBits(key), 0));
  }

  /** The mode of a `set` that deletes */
  lemma DeleteMode(t: Tree, key: Quad)
    requires WellFormed(t, [])
    ensures OnPath(t, KeyBits(key), Depth(t, KeyBits(key), 0))
    ensures var m, mode, n := Entries(t), ModeOf(t, key, 0), Depth(t, KeyBits(key), 0);
      && (key !in m ==> mode.ZeroToZero?)
      && (key in m && n == 0 ==> mode.DeleteLast?)
      && (key in m && n > 0 ==> Sharing(m, key, n - 1) - {key} != {})
      && (key in m && n > 0 ==> mode == if |Sharing(m, key, n - 1) - {key}| == 1 then DeleteFound else DeleteNotFound)
  {
    hide KeyBits, WellFormed, Entries, Sharing, Depth;
    EndOfWalk(t, key);
    EndIsSharing(t, key);
    var n := Depth(t, KeyBits(key), 0);
    OwnKeyShares(Entries(t), key, n);
    if key in Entries(t) && n > 0 {
      SiblingSharing(t, key);
      var u := Sibling(t, KeyBits(key), n);
      LeafIffOneKey(u, KeyBits(key)[..n - 1] + [!KeyBits(key)[n - 1]]);
      EntriesUnderPath(u, KeyBits(key)[..n - 1] + [!KeyBits(key)[n - 1]]);
      NoKeys(Entries(u));
    }
  }

  lemma NoKeys(m: map<Quad, nat>)
    ensures m.Keys == {} ==> m == map[]
  {
  }

  /** Alone in the map */
  lemma AloneIff(t: Tree, key: Quad)
    requires WellFormed(t, []) && key in Entries(t)
    ensures Entries(t).Keys == {key} <==> Depth(t, KeyBits(key), 0) == 0
  {
    hide KeyBits, WellFormed, Depth;
    DepthIffCrowded(t, key, 0);
    forall k | k in Entries(t) ensures k in Sharing(Entries(t), key, 0) { NoBits(k, key); }
    NoBits(key, key);
  }

  lemma NoBits(k: Quad, key: Quad)
    ensures Shares(k, key, 0)
  {
  }

  /** The mode of `set`, from the map alone; `n` is how long two keys share the bits of the path. */
  lemma ModeFromMap(t: Tree, key: Quad, value: nat, n: nat)
    requires WellFormed(t, []) && n <= 256
    requires !Crowded(Entries(t), key, n) && forall i :: 0 <= i < n ==> Crowded(Entries(t), key, i)
    ensures OnPath(t, KeyBits(key), Depth(t, KeyBits(key), 0)) && Depth(t, KeyBits(key), 0) == n
    ensures var m, mode := Entries(t), ModeOf(t, key, value);
      && (mode.Update? <==> value > 0 && key in m)
      && (mode.InsertFound? <==> value > 0 && key !in m && Sharing(m, key, n) != {})
      && (mode.InsertNotFound? <==> value > 0 && key !in m && Sharing(m, key, n) == {})
      && (mode.ZeroToZero? <==> value == 0 && key !in m)
      && (mode.DeleteLast? <==> value == 0 && m.Keys == {key})
      && (mode.DeleteFound? <==> value == 0 && key in m && n > 0 && |Sharing(m, key, n - 1) - {key}| == 1)
      && (mode.DeleteNotFound? <==> value == 0 && key in m && n > 0 && |Sharing(m, key, n - 1) - {key}| > 1)
  {
    hide KeyBits, WellFormed, Entries, Sharing, Depth, Crowded, ModeOf;
    DepthIs(t, key, n);
    if value > 0 {
      InsertMode(t, key, value);
    } else {
      DeleteMode(t, key);
      if key in Entries(t) { AloneIff(t, key); }
    }
  }

  // ---------------------------------------------------------------- the other results

  /** The key walks `n` nodes: as long as two keys of the map share the bits walked so far. */
  ghost predicate Walks(m: map<Quad, nat>, key: Quad, n: nat) {
    n <= 256 && !Crowded(m, key, n) && forall i :: 0 <= i < n ==> Crowded(m, key, i)
  }

  lemma WalksDepth(t: Tree, key: Quad, n: nat)
    requires WellFormed(t, []) && Walks(Entries(t), key, n)
    ensures Depth(t, KeyBits(key), 0) == n && OnPath(t, KeyBits(key), n)
  {
    hide Crowded, KeyBits, WellFormed, Entries, Depth;
    DepthIs(t, key, n);
  }

  /** How deep the key's walk is once the subtree at depth `g` has become `s`. */
  lemma ClimbDepth(t: Tree, bits: seq<bool>, g: nat, s: Tree)
    requires g <= |bits| && OnPath(t, bits, g)
    ensures Depth(Climb(t, bits, 0, g, s), bits, 0) == Depth(s, bits, g)
    ensures Down(Climb(t, bits, 0, g, s), bits, g) == s
  {
    hide Depth;
    var t' := Climb(t, bits, 0, g, s);
    forall i | 0 <= i < g ensures Down(t', bits, i).Node? { DownClimb(t, bits, i, g, s); }
    DownClimb(t, bits, g, g, s);
    assert OnPath(t', bits, g);
    DepthFrom(t', bits, g);
  }

  /** The chain that tells two keys apart: a node for every level down to the first bit that differs, and
      the two leaves. */
  lemma {:induction false} SplitDepth(k1: Quad, v1: nat, k2: Quad, v2: nat, level: nat)
    requires Canonical(k1) && Canonical(k2) && k1 != k2 && level <= 256 && Shares(k1, k2, level)
    ensures var s, d := Split(k1, v1, k2, v2, level), Depth(Split(k1, v1, k2, v2, level), KeyBits(k2), level);
      d > level && NodeCount(s) == d - level + 2
    decreases 256 - level
  {
    hide KeyBits, Canonical;
    DifferingBitExists(k1, k2, level);
    SharesNext(k1, k2, level);
    if KeyBits(k1)[level] == KeyBits(k2)[level] { SplitDepth(k1, v1, k2, v2, level + 1); }
  }

  /** The rows returned reach down to where the old and the new walk both go. */
  lemma CutIsShorterWalk(t: Tree, key: Quad, value: nat)
    requires WellFormed(t, []) && Canonical(key)
    ensures OnPath(t, KeyBits(key), Depth(t, KeyBits(key), 0))
    ensures var n, n' := Depth(t, KeyBits(key), 0), Depth(Put(t, key, value, 0), KeyBits(key), 0);
      && CutDepth(t, key, value) == Min(n, n')
      && (ModeOf(t, key, value).InsertFound? ==> n' > n && NodeCount(Replacement(t, key, value)) == n' - n + 2)
      && (!ModeOf(t, key, value).InsertFound? && !ModeOf(t, key, value).DeleteFound? ==> n' == n)
  {
    hide KeyBits, WellFormed, Put, RaiseTo, Canonical;
    EndOfWalk(t, key);
    PutIsClimb(t, key, value);
    var bits := KeyBits(key);
    var n, g, s := Depth(t, bits, 0), CutDepth(t, key, value), Replacement(t, key, value);
    ClimbDepth(t, bits, g, s);
    match ModeOf(t, key, value)
    case InsertFound =>
      var e := End(t, bits);
      InsertFoundEnd(t, key);
      SplitDepth(e.key, e.value, key, value, n);
      assert s == Split(e.key, e.value, key, value, n) by { PutAtEnd(t, key, value); }
    case DeleteFound =>
    case _ => PutAtEnd(t, key, value);
  }

  /** What stands in the key's place keeps the bits of the walk. */
  lemma InsertFoundEnd(t: Tree, key: Quad)
    requires WellFormed(t, []) && End(t, KeyBits(key)).Leaf?
    ensures var e := End(t, KeyBits(key)); Canonical(e.key) && Shares(e.key, key, Depth(t, KeyBits(key), 0))
  {
    EndOfWalk(t, key);
    DownWellFormed(t, KeyBits(key), Depth(t, KeyBits(key), 0));
  }

  lemma PutAtEnd(t: Tree, key: Quad, value: nat)
    requires OnPath(t, KeyBits(key), Depth(t, KeyBits(key), 0)) && !End(t, KeyBits(key)).Node?
    requires !ModeOf(t, key, value).DeleteFound?
    ensures var s, n, e := Replacement(t, key, value), Depth(t, KeyBits(key), 0), End(t, KeyBits(key));
      && (ModeOf(t, key, value).InsertFound? ==> s == Split(e.key, e.value, key, value, n))
      && (!ModeOf(t, key, value).InsertFound? ==> !s.Node? && NodeCount(s) <= 1)
      && (value > 0 && !ModeOf(t, key, value).InsertFound? ==> s == Leaf(key, value))
  {
  }

  /** The leaf a `set` reports besides its own: the one key that shares the bits of the walk when the key
      itself is absent, the one other key below the last node when the deletion moves it up. */
  lemma DisplacedFromMap(t: Tree, key: Quad, value: nat)
    requires WellFormed(t, [])
    ensures OnPath(t, KeyBits(key), Depth(t, KeyBits(key), 0))
    ensures var m, n, d := Entries(t), Depth(t, KeyBits(key), 0), Displaced(t, key, value);
      && (d.Some? ==> d.value.0 in m && m[d.value.0] == d.value.1)
      && (key !in m ==> if d.Some? then Sharing(m, key, n) == {d.value.0} else Sharing(m, key, n) == {})
      && (key in m && d.Some? ==> value == 0 && n > 0 && Sharing(m, key, n - 1) == {key, d.value.0} && d.value.0 != key)
      && (key in m && value == 0 && n > 0 && |Sharing(m, key, n - 1) - {key}| == 1 ==> d.Some?)
  {
    hide KeyBits, WellFormed, Entries, Sharing, Depth;
    EndOfWalk(t, key);
    EndIsSharing(t, key);
    var n := Depth(t, KeyBits(key), 0);
    OwnKeyShares(Entries(t), key, n);
    if value == 0 { DeleteMode(t, key); }
    if ModeOf(t, key, value).DeleteFound? { MovedLeaf(t, key); }
  }

  lemma MovedLeaf(t: Tree, key: Quad)
    requires WellFormed(t, []) && OnPath(t, KeyBits(key), Depth(t, KeyBits(key), 0)) && ModeOf(t, key, 0).DeleteFound?
    ensures var m, n, u := Entries(t), Depth(t, KeyBits(key), 0), Replacement(t, key, 0);
      && n > 0 && u.Leaf? && u.key in m && m[u.key] == u.value && u.key != key
      && Sharing(m, key, n - 1) == {key, u.key}
  {
    hide KeyBits, WellFormed, Sharing, Depth;
    SiblingSharing(t, key);
    EndIsSharing(t, key);
    var m, n, u := Entries(t), Depth(t, KeyBits(key), 0), Replacement(t, key, 0);
    OwnKeyShares(m, key, n - 1);
    assert Entries(u).Keys == {u.key};
    var shared := Sharing(m, key, n - 1);
    assert shared == (shared - {key}) + {key};
  }

  /** What `set` returns, from the map before and the map after. The old walk passes `n` nodes, the new
      one `n'`: the rows returned are those both walks pass; the hashes counted are the nodes of the old
      walk, the rows returned, leaf and value of the old walk's end, and what the mode stores. */
  lemma ResultFromMap(t: Tree, key: Quad, value: nat, n: nat, n': nat)
    requires WellFormed(t, []) && Canonical(key) && value < VALUE_LIMIT
    requires Walks(Entries(t), key, n) && Walks(Updated(Entries(t), key, value), key, n')
    ensures OnPath(t, KeyBits(key), Depth(t, KeyBits(key), 0))
    ensures CutDepth(t, key, value) == Min(n, n')
    ensures var m, mode := Entries(t), ModeOf(t, key, value);
      SetHashes(t, key, value) == n + Min(n, n') + (if Sharing(m, key, n) != {} then 2 else 0) +
        (match mode
         case Update => 2
         case InsertNotFound => 2
         case InsertFound => n' - n + 3
         case DeleteFound => 3
         case _ => 0)
  {
    hide KeyBits, WellFormed, Put, RaiseTo, Canonical, Entries, Crowded, Sharing, Depth, OnPath, CutDepth;
    UpdatedTree(t, key, value);
    WalksDepth(t, key, n);
    WalksDepth(Put(t, key, value, 0), key, n');
    CutIsShorterWalk(t, key, value);
    EndOfWalk(t, key);
    EndIsSharing(t, key);
    HashesOfMode(t, key, value);
  }

  lemma UpdatedTree(t: Tree, key: Quad, value: nat)
    requires WellFormed(t, []) && Canonical(key) && value < VALUE_LIMIT
    ensures WellFormed(Put(t, key, value, 0), []) && Entries(Put(t, key, value, 0)) == Updated(Entries(t), key, value)
  {
    PutWellFormed(t, [], key, value);
    PutEntries(t, [], key, value);
  }

  lemma HashesOfMode(t: Tree, key: Quad, value: nat)
    requires OnPath(t, KeyBits(key), Depth(t, KeyBits(key), 0)) && !End(t, KeyBits(key)).Node?
    ensures ModeHashes(t, key, value) ==
      match ModeOf(t, key, value)
      case Update => 2
      case InsertNotFound => 2
      case InsertFound => NodeCount(Replacement(t, key, value)) + 1
      case DeleteFound => 3
      case _ => 0
  {
  }

  /** What `get` shows besides the value: it walks the same `n` nodes, and an absent key comes with the one
      key that shares their bits, if there is one. */
  lemma GetFromMap(H: Hasher, t: Tree, key: Quad, r: GetResult, n: nat)
    requires WellFormed(t, []) && Walks(Entries(t), key, n) && Shows(H, t, key, r)
    ensures var m := Entries(t); var s := Sharing(m, key, n);
      && |r.siblings| == n && r.proofHashCounter == n + (if s != {} then 2 else 0)
      && (r.isOld0 <==> key in m || s == {})
      && (!r.isOld0 ==> s == {r.insKey} && r.insKey in m && m[r.insKey] == r.insValue && r.insKey != key)
  {
    hide KeyBits, WellFormed, Entries, Crowded, Sharing, PathRows;
    WalksDepth(t, key, n);
    EndIsSharing(t, key);
    OwnKeyShares(Entries(t), key, n);
  }

  // ---------------------------------------------------------------- nodes saved and reported dead

  /** The value rows of a tree are those of its map. */
  lemma {:induction false} EntryReach(H: Hasher, t: Tree, path: seq<bool>, key: Quad)
    requires WellFormed(t, path) && key in Entries(t)
    ensures H(ValueRow(Entries(t)[key])) in Reach(H, t, |path|)
  {
    hide KeyBits, ValueRow, HashOf;
    if t.Node? {
      HalvesDisjoint(t, path, key);
      if key in Entries(t.right) {
        EntryReach(H, t.right, path + [true], key);
      } else {
        EntryReach(H, t.left, path + [false], key);
      }
    }
  }

  lemma {:induction false} NodesReachable(H: Hasher, t: Tree, level: nat)
    ensures NodeHashes(H, t, level) <= Reach(H, t, level)
  {
    hide HashOf;
    if t.Node? {
      NodesReachable(H, t.left, level + 1);
      NodesReachable(H, t.right, level + 1);
    }
  }

  /** A `set` saves rows of its new tree only. */
  lemma SetSavesOnlyNew(H: Hasher, t: Tree, key: Quad, value: nat)
    requires WellFormed(t, []) && Canonical(key) && value < VALUE_LIMIT
    ensures OnPath(t, KeyBits(key), Depth(t, KeyBits(key), 0))
    ensures SetWrites(H, t, key, value) <= Reach(H, Put(t, key, value, 0), 0)
  {
    hide KeyBits, WellFormed, Put, RaiseTo, Canonical, Entries, Reach, HashOf, ValueRow, Climb, ModeOf;
    EndOfWalk(t, key);
    PutIsClimb(t, key, value);
    UpdatedTree(t, key, value);
    var bits, t' := KeyBits(key), Put(t, key, value, 0);
    var g, s := CutDepth(t, key, value), Replacement(t, key, value);
    ClimbOnPath(t, bits, g, s);
    PathReachable(H, t', bits, g);
    DownReach(H, t', bits, g);
    NodesReachable(H, s, g);
    if value > 0 { EntryReach(H, t', [], key); }
  }

  lemma ClimbOnPath(t: Tree, bits: seq<bool>, g: nat, s: Tree)
    requires g <= |bits| && OnPath(t, bits, g)
    ensures OnPath(Climb(t, bits, 0, g, s), bits, g) && Down(Climb(t, bits, 0, g, s), bits, g) == s
  {
    forall i | 0 <= i < g ensures Down(Climb(t, bits, 0, g, s), bits, i).Node? { DownClimb(t, bits, i, g, s); }
    DownClimb(t, bits, g, g, s);
  }

  /** Depth `i` of the old path is looked at for dead nodes: all of it, except the leaf an insertion pushes
      down and the nodes a raised leaf passes. */
  predicate Reported(mode: SetMode, n: nat, n': nat, i: nat) {
    0 < i <= n && (mode.InsertFound? ==> i < n) && (mode.DeleteFound? ==> i < n' || i == n)
  }

  /** Exactly which nodes a `set` reports dead: those of the old path, below the root, in whose place the
      new path has another node or none. */
  lemma DeadExactly(H: Hasher, t: Tree, key: Quad, value: nat, d: Quad)
    requires CollisionFree(H) && WellFormed(t, []) && Canonical(key)
    ensures OnPath(t, KeyBits(key), Depth(t, KeyBits(key), 0))
    ensures var bits, t' := KeyBits(key), Put(t, key, value, 0);
      d in SetDeletes(H, t, key, value) <==> exists i ::
        && Reported(ModeOf(t, key, value), Depth(t, bits, 0), Depth(t', bits, 0), i)
        && i <= 256 && DiesAt(H, t, t', bits, i, d)
  {
    hide KeyBits, WellFormed, Put, Canonical, HashOf, Depth, Replaced, DiesAt, SetDeletes, CutDepth, ModeOf,
      Replacement;
    EndOfWalk(t, key);
    CutIsShorterWalk(t, key, value);
    var mode := ModeOf(t, key, value);
    var bits, t' := KeyBits(key), Put(t, key, value, 0);
    DeadParts(H, t, key, value);
    ReplacedExactly(H, t, t', bits, LastReplaced(mode, CutDepth(t, key, value)), d);
    if mode.DeleteFound? {
      assert value == 0 by { DeletesZero(t, key, value); }
      LeafDies(H, t, key);
    }
    var n, n', last := Depth(t, bits, 0), Depth(t', bits, 0), LastReplaced(mode, CutDepth(t, key, value));
    if i :| 0 < i <= last && DiesAt(H, t, t', bits, i, d) { assert Reported(mode, n, n', i); }
    if mode.DeleteFound? && d == HashOf(H, End(t, bits), n) { assert Reported(mode, n, n', n); }
    if i :| Reported(mode, n, n', i) && i <= 256 && DiesAt(H, t, t', bits, i, d) {
      assert i <= last || (mode.DeleteFound? && i == n);
      if i > last { EndDies(H, t, t', bits, d); }
    }
  }

  lemma DeletesZero(t: Tree, key: Quad, value: nat)
    requires OnPath(t, KeyBits(key), Depth(t, KeyBits(key), 0)) && ModeOf(t, key, value).DeleteFound?
    ensures value == 0
  {
  }

  lemma EndDies(H: Hasher, t: Tree, t': Tree, bits: seq<bool>, d: Quad)
    requires DiesAt(H, t, t', bits, Depth(t, bits, 0), d)
    ensures d == HashOf(H, End(t, bits), Depth(t, bits, 0))
  {
  }

  function LastReplaced(mode: SetMode, g: nat): nat {
    if (mode.InsertFound? || mode.DeleteFound?) && g > 0 then g - 1 else g
  }

  lemma DeadParts(H: Hasher, t: Tree, key: Quad, value: nat)
    requires OnPath(t, KeyBits(key), Depth(t, KeyBits(key), 0))
    ensures var bits, t', mode := KeyBits(key), Put(t, key, value, 0), ModeOf(t, key, value);
      SetDeletes(H, t, key, value) ==
        (if mode.DeleteFound? then [HashOf(H, End(t, bits), Depth(t, bits, 0))] else [])
          + Replaced(H, t, t', bits, LastReplaced(mode, CutDepth(t, key, value)))
  {
    hide KeyBits, Put, HashOf, Depth, ModeOf;
  }

  /** `d` is the old node at depth `i`, and the new node there is another. */
  predicate DiesAt(H: Hasher, t: Tree, t': Tree, bits: seq<bool>, i: nat, d: Quad)
    requires i <= |bits|
  {
    d == HashOf(H, Down(t, bits, i), i) && d != ZERO && d != HashOf(H, Down(t', bits, i), i)
  }

  lemma {:induction false} ReplacedExactly(H: Hasher, t: Tree, t': Tree, bits: seq<bool>, n: nat, d: Quad)
    requires n <= |bits|
    ensures d in Replaced(H, t, t', bits, n) <==> exists i :: 0 < i <= n && DiesAt(H, t, t', bits, i, d)
  {
    hide HashOf;
    if n > 0 {
      ReplacedExactly(H, t, t', bits, n - 1, d);
      assert d in Replaced(H, t, t', bits, n) <==> DiesAt(H, t, t', bits, n, d) || d in Replaced(H, t, t', bits, n - 1);
    }
  }

  lemma LeafDies(H: Hasher, t: Tree, key: Quad)
    requires CollisionFree(H) && WellFormed(t, []) && Canonical(key)
    requires OnPath(t, KeyBits(key), Depth(t, KeyBits(key), 0)) && ModeOf(t, key, 0).DeleteFound?
    ensures var n := Depth(t, KeyBits(key), 0);
      && CutDepth(t, key, 0) < n && Depth(Put(t, key, 0, 0), KeyBits(key), 0) == CutDepth(t, key, 0)
      && DiesAt(H, t, Put(t, key, 0, 0), KeyBits(key), n, HashOf(H, End(t, KeyBits(key)), n))
  {
    hide KeyBits, WellFormed, Put, Canonical;
    PutIsClimb(t, key, 0);
    var bits := KeyBits(key);
    var n, g, s := Depth(t, bits, 0), CutDepth(t, key, 0), Replacement(t, key, 0);
    ClimbDepth(t, bits, g, s);
    DownBelowLeaf(Put(t, key, 0, 0), bits, g, n);
    NonEmptyHash(H, End(t, bits), n);
    NonEmptyHash(H, Empty, n);
  }
}
