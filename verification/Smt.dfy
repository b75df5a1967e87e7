/** `Smt::get` and `Smt::set`: the loops over rows of the store, proved against the tree model. */
module Smts {
  import opened Results
  import opened SmtKeys
  import opened SmtTree
  import opened SmtPath
  import opened SubStates
  import opened StateManagers

  // ---------------------------------------------------------------- ghost views

  /** Everything a call of `set` can change. */
  datatype Snapshot = Snapshot(state: States, rows: map<Quad, Row>)

  /** Where a call writes. */
  datatype AnyTarget = Target(useStateManager: bool, uuid: string, tx: nat, p: nat)

  /** The persistence of a call is one of the three the source enumerates. */
  type Target = c: AnyTarget | c.p < PERSISTENCE_SIZE witness Target(false, "", 0, 0)

  /** Rows a call can read: the batch first, then the database. */
  function View(s: Snapshot, c: Target): map<Quad, Row> {
    if c.useStateManager then s.rows + Written(s.state, c.uuid) else s.rows
  }

  function Rec(s: Snapshot, c: Target): TxPersistenceState {
    Record(s.state, c.uuid, c.tx, c.p)
  }

  /** The last sub-state of `b` is that of `a` plus the rows hashed in `w` and the deletions `d`. */
  ghost predicate Recorded(H: Hasher, a: TxPersistenceState, b: TxPersistenceState, w: set<Quad>, d: seq<Quad>) {
    && |a.subState| > 0 && |b.subState| > 0
    && b == WithLast(a, Last(b))
    && Last(b) == Last(a).(dbWrite := Last(b).dbWrite, dbDelete := Last(a).dbDelete + d)
    && Last(b).dbWrite.Keys == Last(a).dbWrite.Keys + w
    && (Honest(H, Last(a).dbWrite) ==> Honest(H, Last(b).dbWrite))
  }

  /** From `s0` to `s1` exactly the rows hashed in `w` were saved and the nodes in `d` reported dead. */
  ghost predicate Saved(H: Hasher, c: Target, s0: Snapshot, s1: Snapshot, w: set<Quad>, d: seq<Quad>) {
    if c.useStateManager then
      && s1.rows == s0.rows
      && HasTx(s0.state, c.uuid, c.tx) && HasTx(s1.state, c.uuid, c.tx)
      && OthersUnchanged(s0.state, s1.state, c.uuid, c.tx, c.p)
      && Recorded(H, Rec(s0, c), Rec(s1, c), w, d)
      && Written(s1.state, c.uuid).Keys == Written(s0.state, c.uuid).Keys + w
      && (Honest(H, Written(s0.state, c.uuid)) ==> Honest(H, Written(s1.state, c.uuid)))
    else
      && s1.state == s0.state
      && s1.rows.Keys == s0.rows.Keys + (if c.p == PERSISTENCE_DATABASE then w else {})
      && (Honest(H, s0.rows) ==> Honest(H, s1.rows))
  }

  /** Nothing readable was lost, and what was added is filed under its hash. */
  ghost predicate Keeps(H: Hasher, c: Target, s0: Snapshot, s1: Snapshot) {
    if c.useStateManager then
      && s1.rows == s0.rows
      && Written(s0.state, c.uuid).Keys <= Written(s1.state, c.uuid).Keys
      && (Honest(H, Written(s0.state, c.uuid)) ==> Honest(H, Written(s1.state, c.uuid)))
    else
      && s1.state == s0.state
      && s0.rows.Keys <= s1.rows.Keys
      && (Honest(H, s0.rows) ==> Honest(H, s1.rows))
  }

  lemma KeepsTwice(H: Hasher, c: Target, s0: Snapshot, s1: Snapshot, s2: Snapshot)
    requires Keeps(H, c, s0, s1) && Keeps(H, c, s1, s2)
    ensures Keeps(H, c, s0, s2)
  {
  }

  lemma SavedKeeps(H: Hasher, c: Target, s0: Snapshot, s1: Snapshot, w: set<Quad>, d: seq<Quad>)
    requires Saved(H, c, s0, s1, w, d)
    ensures Keeps(H, c, s0, s1)
  {
    hide Honest, Recorded, OthersUnchanged;
  }

  lemma KeepsSame(H: Hasher, c: Target, s: Snapshot)
    ensures Keeps(H, c, s, s)
  {
  }

  lemma RowRecorded(H: Hasher, a: TxPersistenceState, row: Row)
    requires |a.subState| > 0
    ensures Recorded(H, a, AddWrite(a, H(row), row), {H(row)}, [])
    ensures |AddWrite(a, H(row), row).subState| == |a.subState|
  {
  }

  lemma RecordedTwice(H: Hasher, a: TxPersistenceState, b: TxPersistenceState, c: TxPersistenceState, w1: set<Quad>,
      d1: seq<Quad>, w2: set<Quad>, d2: seq<Quad>)
    requires Recorded(H, a, b, w1, d1) && Recorded(H, b, c, w2, d2)
    ensures Recorded(H, a, c, w1 + w2, d1 + d2)
  {
    assert Last(a).dbDelete + d1 + d2 == Last(a).dbDelete + (d1 + d2);
    assert WithLast(WithLast(a, Last(b)), Last(c)) == WithLast(a, Last(c));
  }

  lemma OthersUnchangedTwice(s0: States, s1: States, s2: States, uuid: string, tx: nat, p: nat)
    requires OthersUnchanged(s0, s1, uuid, tx, p) && OthersUnchanged(s1, s2, uuid, tx, p)
    ensures OthersUnchanged(s0, s2, uuid, tx, p)
  {
  }

  /** Two steps in a row save and report what each of them does. */
  lemma SavedTwice(H: Hasher, c: Target, s0: Snapshot, s1: Snapshot, s2: Snapshot, w1: set<Quad>, d1: seq<Quad>,
      w2: set<Quad>, d2: seq<Quad>, w: set<Quad>, d: seq<Quad>)
    requires Saved(H, c, s0, s1, w1, d1) && Saved(H, c, s1, s2, w2, d2)
    requires w == w1 + w2 && d == d1 + d2
    ensures Saved(H, c, s0, s2, w, d)
  {
    hide Recorded, OthersUnchanged, Honest, Record, HasTx;
    if c.useStateManager {
      RecordedTwice(H, Rec(s0, c), Rec(s1, c), Rec(s2, c), w1, d1, w2, d2);
      OthersUnchangedTwice(s0.state, s1.state, s2.state, c.uuid, c.tx, c.p);
    }
  }

  lemma SavedThenReported(H: Hasher, c: Target, s0: Snapshot, s1: Snapshot, s2: Snapshot, w: set<Quad>, node: Quad)
    requires Saved(H, c, s0, s1, w, []) && Saved(H, c, s1, s2, {}, [node])
    ensures Saved(H, c, s0, s2, w, [node])
  {
    hide Saved;
    SavedTwice(H, c, s0, s1, s2, w, [], {}, [node], w, [node]);
  }

  /** Without the state manager dead nodes are not reported. */
  lemma NothingReported(H: Hasher, c: Target, s0: Snapshot, s1: Snapshot, w: set<Quad>, d: seq<Quad>)
    requires !c.useStateManager && Saved(H, c, s0, s1, w, [])
    ensures Saved(H, c, s0, s1, w, d)
  {
  }

  // ---------------------------------------------------------------- rows

  /** The half of an intermediate row that a key bit selects. */
  function Slot(row: Row, b: bool): Quad {
    if b then row.b else row.a
  }

  function WithSlot(row: Row, b: bool, h: Quad): Row {
    if b then row.(b := h) else row.(a := h)
  }

  /** What replacing node `was` by node `now` reports dead. */
  function Dead(was: Quad, now: Quad): seq<Quad> {
    if was != now && was != ZERO then [was] else []
  }

  /** The row is a leaf row. */
  predicate IsLeafRow(row: Row) {
    row.c.e0 == 1
  }

  /** The leaf a walk ended at. */
  datatype Found = Found(key: Quad, rkey: Quad, value: nat, valueHash: Quad)

  ghost predicate FoundIs(H: Hasher, f: Option<Found>, e: Tree, n: nat) {
    && (f.Some? <==> e.Leaf?)
    && (f.Some? ==> f.value == Found(e.key, RemoveKeyBits(e.key, n), e.value, H(ValueRow(e.value))))
  }

  /** Every stored row is filed under its hash. */
  ghost predicate HonestStore(H: Hasher, s: Snapshot, c: Target) {
    CollisionFree(H) && Honest(H, s.rows) && Honest(H, Written(s.state, c.uuid))
  }

  /** `root` stands for the canonical tree `t`. */
  ghost predicate Represents(H: Hasher, root: Quad, t: Tree) {
    CollisionFree(H) && WellFormed(t, []) && root == HashOf(H, t, 0)
  }

  lemma RepresentsParts(H: Hasher, root: Quad, t: Tree)
    requires Represents(H, root, t)
    ensures CollisionFree(H) && WellFormed(t, []) && root == HashOf(H, t, 0)
  {
  }

  /** `rows` starts with the rows of the first `n` nodes on the path. */
  ghost predicate PathRows(H: Hasher, t: Tree, bits: seq<bool>, rows: seq<Row>, n: nat) {
    && n <= |rows| && n <= |bits| && OnPath(t, bits, n)
    && forall i :: 0 <= i < n ==> rows[i] == RowOf(H, Down(t, bits, i), i)
  }

  lemma PathRowsExtend(H: Hasher, t: Tree, bits: seq<bool>, rows: seq<Row>, n: nat)
    requires n < |rows| && n < |bits| && PathRows(H, t, bits, rows[..n], n)
    requires Down(t, bits, n).Node? && rows[n] == RowOf(H, Down(t, bits, n), n)
    ensures PathRows(H, t, bits, rows, n + 1)
    ensures bits[..n + 1] == bits[..n] + [bits[n]]
    ensures HashOf(H, Down(t, bits, n + 1), n + 1) == Slot(rows[n], bits[n])
    ensures PathHashes(H, t, bits, n + 1) == PathHashes(H, t, bits, n) + {HashOf(H, Down(t, bits, n), n)}
  {
    forall i | 0 <= i < n + 1 ensures rows[i] == RowOf(H, Down(t, bits, i), i) {
      if i < n { assert rows[i] == rows[..n][i]; }
    }
  }

  lemma PathRowsMore(H: Hasher, t: Tree, bits: seq<bool>, rows: seq<Row>, row: Row)
    requires PathRows(H, t, bits, rows, |rows|)
    ensures PathRows(H, t, bits, rows + [row], |rows|) && (rows + [row])[..|rows|] == rows
  {
  }

  lemma PathRowsStart(H: Hasher, t: Tree, bits: seq<bool>)
    ensures PathRows(H, t, bits, [], 0) && Down(t, bits, 0) == t && PathHashes(H, t, bits, 0) == {}
  {
  }

  lemma FirstPathRows(H: Hasher, t: Tree, bits: seq<bool>, rows: seq<Row>, n: nat)
    requires PathRows(H, t, bits, rows, n)
    ensures PathRows(H, t, bits, rows[..n], n)
  {
  }

  // ---------------------------------------------------------------- the rows of a climb

  /** Row `i` of the path once everything below it has been rebuilt. */
  function Rebuilt(H: Hasher, rows: seq<Row>, keys: seq<bool>, i: nat): Row
    requires i < |rows| <= |keys|
    decreases |rows| - i
  {
    if i == |rows| - 1 then rows[i] else WithSlot(rows[i], keys[i], H(Rebuilt(H, rows, keys, i + 1)))
  }

  /** Hashes of the rebuilt rows from level `i` on. */
  function RebuiltHashes(H: Hasher, rows: seq<Row>, keys: seq<bool>, i: nat): set<Quad>
    requires i <= |rows| <= |keys|
    decreases |rows| - i
  {
    if i == |rows| then {} else RebuiltHashes(H, rows, keys, i + 1) + {H(Rebuilt(H, rows, keys, i))}
  }

  /** The nodes replaced in the rows above the levels from `i` on, deepest first. */
  function RebuiltDead(H: Hasher, rows: seq<Row>, keys: seq<bool>, i: nat): seq<Quad>
    requires i <= |rows| <= |keys|
    decreases |rows| - i
  {
    if i == |rows| then []
    else RebuiltDead(H, rows, keys, i + 1)
         + (if i > 0 then Dead(Slot(rows[i - 1], keys[i - 1]), H(Rebuilt(H, rows, keys, i))) else [])
  }

  /** One level of the climb. */
  lemma ClimbUnfold(H: Hasher, rows: seq<Row>, keys: seq<bool>, i: nat)
    requires i < |rows| <= |keys|
    ensures RebuiltHashes(H, rows, keys, i) == RebuiltHashes(H, rows, keys, i + 1) + {H(Rebuilt(H, rows, keys, i))}
    ensures RebuiltDead(H, rows, keys, i) == RebuiltDead(H, rows, keys, i + 1)
      + (if i > 0 then Dead(Slot(rows[i - 1], keys[i - 1]), H(Rebuilt(H, rows, keys, i))) else [])
    ensures i == |rows| - 1 ==> Rebuilt(H, rows, keys, i) == rows[i]
    ensures i > 0 ==> Rebuilt(H, rows, keys, i - 1) == WithSlot(rows[i - 1], keys[i - 1], H(Rebuilt(H, rows, keys, i)))
  {
  }

  lemma ClimbStart(H: Hasher, rows: seq<Row>, keys: seq<bool>)
    requires |rows| <= |keys|
    ensures RebuiltHashes(H, rows, keys, |rows|) == {} && RebuiltDead(H, rows, keys, |rows|) == []
  {
  }

  /** The rows a climb from depth `g` starts with: those of the path, with `s` in the last slot. */
  ghost predicate CutRows(H: Hasher, t: Tree, keys: seq<bool>, rows: seq<Row>, s: Tree) {
    && |rows| <= |keys| && OnPath(t, keys, |rows|)
    && (forall i :: 0 <= i < |rows| - 1 ==> rows[i] == RowOf(H, Down(t, keys, i), i))
    && (rows != [] ==> rows[|rows| - 1] == RowOf(H, Climb(t, keys, |rows| - 1, |rows|, s), |rows| - 1))
  }

  lemma {:induction false} RebuiltIsClimb(H: Hasher, t: Tree, keys: seq<bool>, rows: seq<Row>, s: Tree, i: nat)
    requires CutRows(H, t, keys, rows, s) && i < |rows|
    ensures Rebuilt(H, rows, keys, i) == RowOf(H, Climb(t, keys, i, |rows|, s), i)
    decreases |rows| - i
  {
    if i < |rows| - 1 { RebuiltIsClimb(H, t, keys, rows, s, i + 1); }
  }

  /** What rebuilding row `i` adds to the saved rows. */
  lemma RebuiltHashesAt(H: Hasher, t: Tree, keys: seq<bool>, rows: seq<Row>, s: Tree, i: nat)
    requires CutRows(H, t, keys, rows, s) && i < |rows|
    ensures var t' := Climb(t, keys, 0, |rows|, s);
      RebuiltHashes(H, rows, keys, i) + PathHashes(H, t', keys, i) ==
          RebuiltHashes(H, rows, keys, i + 1) + PathHashes(H, t', keys, i + 1)
  {
    RebuiltIsClimb(H, t, keys, rows, s, i);
    DownClimb(t, keys, i, |rows|, s);
    hide Climb, Rebuilt, HashOf, RowOf, Down, Dead, CutRows;
  }

  /** What row `i` above the root adds to the reported nodes. */
  lemma RebuiltDeadAt(H: Hasher, t: Tree, keys: seq<bool>, rows: seq<Row>, s: Tree, i: nat)
    requires CutRows(H, t, keys, rows, s) && 0 < i < |rows|
    ensures var t' := Climb(t, keys, 0, |rows|, s);
      Replaced(H, t, t', keys, i) == Dead(Slot(rows[i - 1], keys[i - 1]), H(Rebuilt(H, rows, keys, i)))
          + Replaced(H, t, t', keys, i - 1)
  {
    RebuiltIsClimb(H, t, keys, rows, s, i);
    DownClimb(t, keys, i, |rows|, s);
  }

  lemma RebuiltDeadStep(H: Hasher, t: Tree, keys: seq<bool>, rows: seq<Row>, s: Tree, i: nat)
    requires CutRows(H, t, keys, rows, s) && i < |rows|
    ensures var t' := Climb(t, keys, 0, |rows|, s);
      RebuiltDead(H, rows, keys, i) + Replaced(H, t, t', keys, if i == 0 then 0 else i - 1)
      == RebuiltDead(H, rows, keys, i + 1) + Replaced(H, t, t', keys, i)
  {
    ClimbUnfold(H, rows, keys, i);
    hide Climb, Rebuilt, HashOf, RowOf, Down, Dead, RebuiltDead;
    if i > 0 {
      RebuiltDeadAt(H, t, keys, rows, s, i);
      hide Replaced, CutRows;
      var dead := Dead(Slot(rows[i - 1], keys[i - 1]), H(Rebuilt(H, rows, keys, i)));
      var rest := Replaced(H, t, Climb(t, keys, 0, |rows|, s), keys, i - 1);
      assert RebuiltDead(H, rows, keys, i + 1) + dead + rest == RebuiltDead(H, rows, keys, i + 1) + (dead + rest);
    }
  }

  /** What a climb saves and reports, in terms of the old and the new tree. */
  lemma {:induction false} ClimbMeaning(H: Hasher, t: Tree, keys: seq<bool>, rows: seq<Row>, s: Tree, i: nat)
    requires CutRows(H, t, keys, rows, s) && i <= |rows|
    ensures var t', g := Climb(t, keys, 0, |rows|, s), |rows|;
      && RebuiltHashes(H, rows, keys, i) + PathHashes(H, t', keys, i) == PathHashes(H, t', keys, g)
      && RebuiltDead(H, rows, keys, i) + Replaced(H, t, t', keys, if i == 0 then 0 else i - 1)
         == Replaced(H, t, t', keys, if g == 0 then 0 else g - 1)
    decreases |rows| - i
  {
    hide Climb, Rebuilt, HashOf, RowOf, Down, Dead, PathHashes, Replaced;
    if i < |rows| {
      hide RebuiltHashes, RebuiltDead;
      ClimbMeaning(H, t, keys, rows, s, i + 1);
      RebuiltHashesAt(H, t, keys, rows, s, i);
      RebuiltDeadStep(H, t, keys, rows, s, i);
    }
  }

  /** The rows of the path with a new subtree attached, ready for the climb. */
  lemma CutAttach(H: Hasher, t: Tree, keys: seq<bool>, siblings: seq<Row>, n: nat, s: Tree)
    requires PathRows(H, t, keys, siblings, n)
    ensures n == 0 ==> CutRows(H, t, keys, [], s) && siblings[..n] == []
    ensures n > 0 ==>
      && CutRows(H, t, keys, siblings[..n][n - 1 := WithSlot(siblings[n - 1], keys[n - 1], HashOf(H, s, n))], s)
      && Slot(siblings[n - 1], keys[n - 1]) == HashOf(H, Down(t, keys, n), n)
  {
    if n > 0 {
      assert Climb(t, keys, n - 1, n, s) == WithChild(Down(t, keys, n - 1), keys[n - 1], s);
    }
  }

  /** How many of the first `n` groups of a row are not zero. */
  function NonZero(row: Row, n: nat): nat {
    (if n > 0 && row.a != ZERO then 1 else 0) + (if n > 1 && row.b != ZERO then 1 else 0)
        + (if n > 2 && row.c != ZERO then 1 else 0)
  }

  function UniqueSibling(row: Row): Option<nat> {
    if NonZero(row, 3) != 1 then None
    else if row.a != ZERO then Some(0) else if row.b != ZERO then Some(1) else Some(2)
  }

  /** On the path, a row has one non-zero group exactly when the other side is empty. */
  lemma UniqueOnPath(H: Hasher, t: Tree, keys: seq<bool>, siblings: seq<Row>, m: nat)
    requires CollisionFree(H) && 0 < m <= |keys| && OnPath(t, keys, m) && m <= |siblings|
    requires siblings[m - 1] == RowOf(H, Down(t, keys, m - 1), m - 1) && !Down(t, keys, m).Empty?
    ensures UniqueSibling(siblings[m - 1]).Some? <==> Sibling(t, keys, m).Empty?
  {
    var u := Down(t, keys, m - 1);
    NonEmptyHash(H, u.left, m);
    NonEmptyHash(H, u.right, m);
  }

  /** What a deletion reads besides the walk: the sibling, and its value if it is a leaf. */
  function SiblingReads(H: Hasher, t: Tree, key: Quad): set<Quad>
    requires OnPath(t, KeyBits(key), Depth(t, KeyBits(key), 0))
  {
    var n := Depth(t, KeyBits(key), 0);
    if ModeOf(t, key, 0).DeleteFound? then Reach(H, Sibling(t, KeyBits(key), n), n)
    else if ModeOf(t, key, 0).DeleteNotFound? then {HashOf(H, Sibling(t, KeyBits(key), n), n)}
    else {}
  }

  /** Which deletion it is, and that a leaf below a node always has a sibling. */
  lemma DeleteCases(H: Hasher, t: Tree, key: Quad)
    requires WellFormed(t, []) && End(t, KeyBits(key)).Leaf? && End(t, KeyBits(key)).key == key
    ensures OnPath(t, KeyBits(key), Depth(t, KeyBits(key), 0))
    ensures var keys := KeyBits(key); var n := Depth(t, keys, 0);
      if n == 0 then
        ModeOf(t, key, 0).DeleteLast? && CutDepth(t, key, 0) == 0 && Replacement(t, key, 0) == Empty
            && SiblingReads(H, t, key) == {}
      else
        && !Sibling(t, keys, n).Empty? && WellFormed(Sibling(t, keys, n), keys[..n - 1] + [!keys[n - 1]])
        && (if Sibling(t, keys, n).Leaf? then ModeOf(t, key, 0).DeleteFound?
          && Replacement(t, key, 0) == Sibling(t, keys, n)
            else ModeOf(t, key, 0).DeleteNotFound? && Replacement(t, key, 0) == Empty && CutDepth(t, key, 0) == n)
        && SiblingReads(H, t, key) == {HashOf(H, Sibling(t, keys, n), n)}
             + (if Sibling(t, keys, n).Leaf? then {H(ValueRow(Sibling(t, keys, n).value))} else {})
  {
    var keys := KeyBits(key);
    var n := Depth(t, keys, 0);
    EndOfWalk(t, key);
    if n > 0 { DownWellFormed(t, keys, n - 1); }
  }

  lemma DeadLeaf(H: Hasher, t: Tree, keys: seq<bool>, n: nat)
    requires CollisionFree(H) && n <= |keys| && Down(t, keys, n).Leaf?
    ensures Dead(HashOf(H, Down(t, keys, n), n), ZERO) == [HashOf(H, Down(t, keys, n), n)]
    ensures HashOf(H, Empty, n) == ZERO && NodeHashes(H, Empty, n) == {}
  {
    NonEmptyHash(H, Down(t, keys, n), n);
  }

  /** The last row after the leaf's slot was cleared. */
  lemma PathRowAt(H: Hasher, t: Tree, keys: seq<bool>, siblings: seq<Row>, rows: seq<Row>, n: nat)
    requires CollisionFree(H) && PathRows(H, t, keys, siblings, n) && n > 0 && CutRows(H, t, keys, rows, Empty)
    requires |rows| == n
    requires !Sibling(t, keys, n).Empty?
    ensures UniqueSibling(rows[n - 1]) == Some(if keys[n - 1] then 0 else 1)
    ensures Slot(rows[n - 1], !keys[n - 1]) == HashOf(H, Sibling(t, keys, n), n)
  {
    var u := WithChild(Down(t, keys, n - 1), keys[n - 1], Empty);
    assert Climb(t, keys, n - 1, n, Empty) == u;
    assert rows[|rows| - 1] == RowOf(H, Climb(t, keys, |rows| - 1, |rows|, Empty), |rows| - 1);
    assert HashOf(H, Empty, n) == ZERO;
    NonEmptyHash(H, Sibling(t, keys, n), n);
  }

  lemma DeletedLeafIsThere(t: Tree, key: Quad)
    requires OnPath(t, KeyBits(key), Depth(t, KeyBits(key), 0)) && ModeOf(t, key, 0).DeleteFound?
    ensures !Down(t, KeyBits(key), Depth(t, KeyBits(key), 0)).Empty?
  {
  }

  /** The sibling leaf at the depth it rises to. */
  lemma RaisedLeaf(H: Hasher, t: Tree, key: Quad, leaf: Found)
    requires OnPath(t, KeyBits(key), Depth(t, KeyBits(key), 0)) && ModeOf(t, key, 0).DeleteFound?
    requires FoundIs(H, Some(leaf), Sibling(t, KeyBits(key), Depth(t, KeyBits(key), 0)), Depth(t, KeyBits(key), 0))
    ensures var n := Depth(t, KeyBits(key), 0);
      var m, s := RaiseTo(t, KeyBits(key), n - 1), Sibling(t, KeyBits(key), n);
      && CutDepth(t, key, 0) == m && Replacement(t, key, 0) == s
      && HashOf(H, s, m) == H(Row(RemoveKeyBits(leaf.key, m), leaf.valueHash, ONE))
      && NodeHashes(H, s, m) == {HashOf(H, s, m)}
  {
    hide KeyBits, RemoveKeyBits, ValueRow, OnPath, Depth, RaiseTo, Sibling, Down;
  }

  // ---------------------------------------------------------------- results of a set

  /** What else the result of a `get` shows: the rows of the walk, the hashes needed to check them, and
      the leaf of another key that the walk ended at. */
  ghost predicate Shows(H: Hasher, t: Tree, key: Quad, r: GetResult) {
    var e := End(t, KeyBits(key));
    && |r.siblings| == Depth(t, KeyBits(key), 0)
    && PathRows(H, t, KeyBits(key), r.siblings, |r.siblings|)
    && r.proofHashCounter == |r.siblings| + (if e.Leaf? then 2 else 0)
    && if e.Leaf? && e.key != key then !r.isOld0 && r.insKey == e.key && r.insValue == e.value
       else r.isOld0 && r.insKey == ZERO && r.insValue == 0
  }

  function Min(a: nat, b: nat): nat {
    if a < b then a else b
  }

  /** The rows hashed to check a `set`: the old path with its leaf and value, what the mode adds, and
      the new path. */
  function SetHashes(t: Tree, key: Quad, value: nat): nat
    requires OnPath(t, KeyBits(key), Depth(t, KeyBits(key), 0))
  {
    Depth(t, KeyBits(key), 0) + (if End(t, KeyBits(key)).Leaf? then 2 else 0) + ModeHashes(t, key, value)
        + CutDepth(t, key, value)
  }

  datatype GetResult = GetResult(value: nat, isOld0: bool, insKey: Quad, insValue: nat, siblings: seq<Row>,
      proofHashCounter: nat)

  datatype SetResult = SetResult(newRoot: Quad, mode: SetMode, oldValue: nat, inserted: Option<(Quad, nat)>,
                                 siblings: seq<Row>, proofHashCounter: nat)

  /** Every row a `set` has to read. */
  function SetReads(H: Hasher, t: Tree, key: Quad, value: nat): set<Quad>
    requires OnPath(t, KeyBits(key), Depth(t, KeyBits(key), 0))
  {
    WalkReads(H, t, KeyBits(key)) + (if value == 0 then SiblingReads(H, t, key) else {})
  }

  /** The record a `set` works in: a new sub-state if one may be opened. */
  function Opened(ps: TxPersistenceState, oldRoot: Quad): TxPersistenceState {
    if Ready(ps) then SubStates.Begin(ps, Root(oldRoot)) else ps
  }

  function Closed(ps: TxPersistenceState, newRoot: Quad): TxPersistenceState {
    if Open(ps) then Complete(ps, Root(newRoot)) else ps
  }

  /** The sub-state was opened and nothing else changed. */
  ghost predicate BeginsAt(c: Target, oldRoot: Quad, s0: Snapshot, s1: Snapshot) {
    if c.useStateManager then
      && s1.rows == s0.rows && HasTx(s1.state, c.uuid, c.tx)
      && OthersUnchanged(s0.state, s1.state, c.uuid, c.tx, c.p)
      && Written(s1.state, c.uuid) == Written(s0.state, c.uuid)
      && Rec(s1, c) == Opened(Rec(s0, c), oldRoot)
    else s1 == s0
  }

  /** The sub-state got its new root and nothing else changed. */
  ghost predicate EndsAt(c: Target, newRoot: Quad, s0: Snapshot, s1: Snapshot) {
    if c.useStateManager then
      && s1.rows == s0.rows
      && OthersUnchanged(s0.state, s1.state, c.uuid, c.tx, c.p)
      && Written(s1.state, c.uuid) == Written(s0.state, c.uuid)
      && Rec(s1, c) == Closed(Rec(s0, c), newRoot)
    else s1 == s0
  }

  /** The database's own state root: only a direct, persistent `set` that changes the root updates it. */
  function RootAfter(c: Target, oldRoot: Quad, newRoot: Quad, before: StateRoot): StateRoot {
    if !c.useStateManager && c.p == PERSISTENCE_DATABASE && newRoot != oldRoot then Root(newRoot) else before
  }

  /** The whole effect of a `set`: the rows hashed in `w` became readable, and with the state manager
      they and the deletions `d` are in the sub-state from the old to the new root. */
  ghost predicate SetRecorded(H: Hasher, c: Target, oldRoot: Quad, newRoot: Quad, s0: Snapshot, s1: Snapshot,
      w: set<Quad>, d: seq<Quad>) {
    && HonestStore(H, s1, c)
    && if c.useStateManager then
         && s1.rows == s0.rows
         && OthersUnchanged(s0.state, s1.state, c.uuid, c.tx, c.p)
         && Written(s1.state, c.uuid).Keys == Written(s0.state, c.uuid).Keys + w
         && exists ps :: Recorded(H, Opened(Rec(s0, c), oldRoot), ps, w, d) && Rec(s1, c) == Closed(ps, newRoot)
       else
         && s1.state == s0.state
         && s1.rows.Keys == s0.rows.Keys + (if c.p == PERSISTENCE_DATABASE then w else {})
  }

  lemma BeginKeepsView(H: Hasher, c: Target, oldRoot: Quad, s0: Snapshot, s1: Snapshot)
    requires BeginsAt(c, oldRoot, s0, s1) && HonestStore(H, s0, c)
    ensures HonestStore(H, s1, c) && View(s1, c) == View(s0, c) && Keeps(H, c, s0, s1)
  {
  }

  lemma EndKeeps(H: Hasher, c: Target, newRoot: Quad, s0: Snapshot, s1: Snapshot)
    requires EndsAt(c, newRoot, s0, s1)
    ensures Keeps(H, c, s0, s1)
  {
  }

  lemma Recording(H: Hasher, c: Target, oldRoot: Quad, newRoot: Quad, s0: Snapshot, s1: Snapshot, s2: Snapshot,
      s3: Snapshot, w: set<Quad>, d: seq<Quad>)
    requires HonestStore(H, s0, c)
    requires BeginsAt(c, oldRoot, s0, s1) && Saved(H, c, s1, s2, w, d) && EndsAt(c, newRoot, s2, s3)
    ensures SetRecorded(H, c, oldRoot, newRoot, s0, s3, w, d)
  {
    if c.useStateManager {
      OthersUnchangedTwice(s0.state, s1.state, s2.state, c.uuid, c.tx, c.p);
      OthersUnchangedTwice(s0.state, s2.state, s3.state, c.uuid, c.tx, c.p);
      assert Recorded(H, Opened(Rec(s0, c), oldRoot), Rec(s2, c), w, d);
    }
  }

  /** In the usual case, a sub-state may be opened, exactly one complete sub-state is appended. */
  lemma SubStateOfSet(H: Hasher, c: Target, oldRoot: Quad, newRoot: Quad, s0: Snapshot, s1: Snapshot, w: set<Quad>,
      d: seq<Quad>)
    requires SetRecorded(H, c, oldRoot, newRoot, s0, s1, w, d) && c.useStateManager && Ready(Rec(s0, c))
    ensures Ready(Rec(s1, c)) && |Rec(s1, c).subState| > 0
    ensures Rec(s1, c).subState == Rec(s0, c).subState + [Last(Rec(s1, c))]
    ensures Rec(s1, c).newStateRoot == Root(newRoot) && Rec(s1, c).currentSubState == |Rec(s0, c).subState|
    ensures Rec(s1, c).oldStateRoot == if |Rec(s0, c).subState| == 0 then Root(oldRoot) else Rec(s0, c).oldStateRoot
    ensures var s := Last(Rec(s1, c));
      && s.oldStateRoot == Root(oldRoot) && s.newStateRoot == Root(newRoot) && !s.bValid
      && s.previousSubState == Rec(s0, c).currentSubState
      && s.dbWrite.Keys == w && Honest(H, s.dbWrite) && s.dbDelete == d
  {
    hide Recorded, Opened, Closed, Honest;
    var ps :| Recorded(H, Opened(Rec(s0, c), oldRoot), ps, w, d) && Rec(s1, c) == Closed(ps, newRoot);
    ClosedRecord(H, Rec(s0, c), ps, oldRoot, newRoot, w, d);
  }

  /** A record that was opened, written to and closed has one more sub-state. */
  lemma ClosedRecord(H: Hasher, ps0: TxPersistenceState, ps: TxPersistenceState, oldRoot: Quad, newRoot: Quad,
      w: set<Quad>, d: seq<Quad>)
    requires Ready(ps0) && Recorded(H, Opened(ps0, oldRoot), ps, w, d)
    ensures var r := Closed(ps, newRoot);
      && Ready(r) && |r.subState| > 0 && r.subState == ps0.subState + [Last(r)]
      && r.newStateRoot == Root(newRoot) && r.currentSubState == |ps0.subState|
      && r.oldStateRoot == (if |ps0.subState| == 0 then Root(oldRoot) else ps0.oldStateRoot)
      && Last(r).oldStateRoot == Root(oldRoot) && Last(r).newStateRoot == Root(newRoot) && !Last(r).bValid
      && Last(r).previousSubState == ps0.currentSubState
      && Last(r).dbWrite.Keys == w && Honest(H, Last(r).dbWrite) && Last(r).dbDelete == d
  {
    var a := SubStates.Begin(ps0, Root(oldRoot));
    assert Honest(H, map[]);
    assert a.subState[..|a.subState| - 1] == ps0.subState;
    assert Last(a) == TxSubState(Root(oldRoot), NoRoot, ps0.currentSubState, false, map[], []);
    assert ps.subState == ps0.subState + [Last(ps)];
    assert ps.subState[..|ps.subState| - 1] == ps0.subState;
  }

  lemma PathRowsLength(H: Hasher, t: Tree, keys: seq<bool>, siblings: seq<Row>, n: nat)
    requires PathRows(H, t, keys, siblings, n)
    ensures n <= |siblings| && n <= |keys| && OnPath(t, keys, n)
  {
  }

  lemma CutRowsLength(H: Hasher, t: Tree, keys: seq<bool>, rows: seq<Row>, s: Tree)
    requires CutRows(H, t, keys, rows, s)
    ensures |rows| <= |keys| && OnPath(t, keys, |rows|)
  {
  }

  /** The rows after the climb are the path of the updated tree. */
  lemma RebuiltPath(H: Hasher, t: Tree, key: Quad, value: nat, rows: seq<Row>, siblings: seq<Row>)
    requires WellFormed(t, []) && OnPath(t, KeyBits(key), Depth(t, KeyBits(key), 0))
    requires CutRows(H, t, KeyBits(key), rows, Replacement(t, key, value)) && |rows| == CutDepth(t, key, value)
    requires |siblings| == |rows| && forall i :: 0 <= i < |rows| ==> siblings[i] == Rebuilt(H, rows, KeyBits(key), i)
    ensures PathRows(H, Put(t, key, value, 0), KeyBits(key), siblings, |siblings|)
  {
    hide WellFormed, KeyBits, HashOf, Put, Depth, CutDepth, Replacement;
    PutIsClimb(t, key, value);
    var keys, s := KeyBits(key), Replacement(t, key, value);
    forall i | 0 <= i < |rows|
      ensures Down(Put(t, key, value, 0), keys, i).Node?
      ensures siblings[i] == RowOf(H, Down(Put(t, key, value, 0), keys, i), i)
    {
      RebuiltIsClimb(H, t, keys, rows, s, i);
      DownClimb(t, keys, i, |rows|, s);
    }
  }

  /** The climb ends at the root of the updated tree. */
  lemma ClimbsToPut(H: Hasher, t: Tree, key: Quad, value: nat, keys: seq<bool>, rows: seq<Row>, top: Quad)
    requires WellFormed(t, []) && keys == KeyBits(key) && OnPath(t, keys, Depth(t, keys, 0))
    requires CutRows(H, t, keys, rows, Replacement(t, key, value)) && |rows| == CutDepth(t, key, value)
    requires rows == [] ==> top == HashOf(H, Replacement(t, key, value), 0)
    ensures Climb(t, keys, 0, |rows|, Replacement(t, key, value)) == Put(t, key, value, 0)
    ensures (if rows == [] then top else H(Rebuilt(H, rows, keys, 0))) == HashOf(H, Put(t, key, value, 0), 0)
    ensures var g, t' := |rows|, Put(t, key, value, 0);
      && RebuiltHashes(H, rows, keys, 0) == PathHashes(H, t', keys, g)
      && RebuiltDead(H, rows, keys, 0) == Replaced(H, t, t', keys, if g == 0 then 0 else g - 1)
  {
    PutIsClimb(t, key, value);
    ClimbMeaning(H, t, keys, rows, Replacement(t, key, value), 0);
    if rows != [] { RebuiltIsClimb(H, t, keys, rows, Replacement(t, key, value), 0); }
  }

  // ---------------------------------------------------------------- effects of a mode

  /** The rows saved before the climb. */
  function LeafWrites(H: Hasher, t: Tree, key: Quad, value: nat): set<Quad>
    requires OnPath(t, KeyBits(key), Depth(t, KeyBits(key), 0))
  {
    (if ModeOf(t, key, value).ZeroToZero? then {} else NodeHashes(H, Replacement(t, key, value),
        CutDepth(t, key, value)))
    + (if value > 0 then {H(ValueRow(value))} else {})
  }

  /** The nodes reported dead before the climb. */
  function LeafDeletes(H: Hasher, t: Tree, key: Quad, value: nat): seq<Quad>
    requires OnPath(t, KeyBits(key), Depth(t, KeyBits(key), 0))
  {
    var n := Depth(t, KeyBits(key), 0);
    var was := HashOf(H, End(t, KeyBits(key)), n);
    match ModeOf(t, key, value)
    case Update => if n > 0 then Dead(was, HashOf(H, Replacement(t, key, value), n)) else []
    case InsertNotFound => if n > 0 then Dead(was, HashOf(H, Replacement(t, key, value), n)) else []
    case InsertFound => []
    case DeleteFound => [was]
    case DeleteNotFound => [was]
    case DeleteLast => []
    case ZeroToZero => []
  }

  /** The leaf `set` reports as moved or met in place of the key. */
  function Displaced(t: Tree, key: Quad, value: nat): Option<(Quad, nat)>
    requires OnPath(t, KeyBits(key), Depth(t, KeyBits(key), 0))
  {
    var e := End(t, KeyBits(key));
    match ModeOf(t, key, value)
    case InsertFound => Some((e.key, e.value))
    case DeleteFound => Some((Replacement(t, key, value).key, Replacement(t, key, value).value))
    case ZeroToZero => if e.Leaf? then Some((e.key, e.value)) else None
    case _ => None
  }

  /** With the climb, this is all a `set` saves and reports. */
  lemma LeafAndClimb(H: Hasher, t: Tree, key: Quad, value: nat)
    requires CollisionFree(H) && WellFormed(t, []) && Canonical(key)
    ensures OnPath(t, KeyBits(key), Depth(t, KeyBits(key), 0))
    ensures var g, t' := CutDepth(t, key, value), Put(t, key, value, 0);
      && SetWrites(H, t, key, value) == LeafWrites(H, t, key, value) + PathHashes(H, t', KeyBits(key), g)
      && SetDeletes(H, t, key, value) ==
           LeafDeletes(H, t, key, value) + Replaced(H, t, t', KeyBits(key), if g == 0 then 0 else g - 1)
  {
    hide WellFormed, KeyBits, ValueRow, RowOf, Put, Climb, RaiseTo, NodeHashes, Down, Depth, End;
    PutIsClimb(t, key, value);
    EndOfWalk(t, key);
    var bits, t', g := KeyBits(key), Put(t, key, value, 0), CutDepth(t, key, value);
    DownClimb(t, bits, g, g, Replacement(t, key, value));
    assert Down(t', bits, g) == Replacement(t, key, value) by { ClimbNone(t, bits, g, Replacement(t, key, value)); }
    ReplacedStep(H, t, t', bits, g);
    LeafDead(H, t, key, value);
    EndIsDown(t, bits);
  }

  /** Unless a leaf was moved, what is reported before the climb is the node at the cut, if another took
      its place. */
  lemma LeafDead(H: Hasher, t: Tree, key: Quad, value: nat)
    requires CollisionFree(H) && WellFormed(t, []) && Canonical(key)
    requires OnPath(t, KeyBits(key), Depth(t, KeyBits(key), 0))
    ensures var n, mode := Depth(t, KeyBits(key), 0), ModeOf(t, key, value);
            !mode.DeleteFound? && !mode.InsertFound? ==>
              LeafDeletes(H, t, key, value) ==
              if n == 0 then [] else Dead(HashOf(H, End(t, KeyBits(key)), n), HashOf(H, Replacement(t, key, value), n))
  {
    hide WellFormed, KeyBits, ValueRow, RowOf, Climb, RaiseTo, NodeHashes, Down, Depth;
    var n := Depth(t, KeyBits(key), 0);
    EndOfWalk(t, key);
    if ModeOf(t, key, value).DeleteNotFound? { NonEmptyHash(H, End(t, KeyBits(key)), n); }
  }

  lemma ClimbNone(t: Tree, bits: seq<bool>, g: nat, s: Tree)
    requires g <= |bits| && OnPath(t, bits, g)
    ensures Climb(t, bits, g, g, s) == s
  {
  }

  lemma ReplacedStep(H: Hasher, t: Tree, t': Tree, bits: seq<bool>, g: nat)
    requires g <= |bits|
    ensures g > 0 ==>
              Replaced(H, t, t', bits, g) ==
              Dead(HashOf(H, Down(t, bits, g), g), HashOf(H, Down(t', bits, g), g)) + Replaced(H, t, t', bits, g - 1)
    ensures g == 0 ==> Replaced(H, t, t', bits, g) == []
  {
  }

  lemma EndIsDown(t: Tree, keys: seq<bool>)
    requires OnPath(t, keys, Depth(t, keys, 0))
    ensures End(t, keys) == Down(t, keys, Depth(t, keys, 0))
  {
  }

  lemma FoundUnderPath(t: Tree, keys: seq<bool>, n: nat)
    requires WellFormed(t, []) && n <= |keys| && OnPath(t, keys, n) && Down(t, keys, n).Leaf?
    ensures Canonical(Down(t, keys, n).key) && n <= 256 && KeyBits(Down(t, keys, n).key)[..n] == keys[..n]
  {
    DownWellFormed(t, keys, n);
  }

  /** What a non-zero value puts at the end of the walk. */
  lemma PutAtEnd(H: Hasher, t: Tree, key: Quad, value: nat)
    requires WellFormed(t, []) && value > 0
    ensures OnPath(t, KeyBits(key), Depth(t, KeyBits(key), 0))
    ensures var n, e := Depth(t, KeyBits(key), 0), End(t, KeyBits(key));
      && CutDepth(t, key, value) == n
      && Replacement(t, key, value) ==
           (if e.Leaf? && e.key != key then Split(e.key, e.value, key, value, n) else Leaf(key, value))
      && NodeHashes(H, Leaf(key, value), n) == {HashOf(H, Leaf(key, value), n)}
      && Dead(HashOf(H, Leaf(key, value), n), HashOf(H, Leaf(key, value), n)) == []
      && LeafWrites(H, t, key, value) ==
           (if e.Leaf? && e.key != key then NodeHashes(H, Split(e.key, e.value, key, value, n), n)
               + {H(ValueRow(value))}
            else {H(ValueRow(value)), HashOf(H, Leaf(key, value), n)})
      && ModeHashes(t, key, value) ==
           (if e.Leaf? && e.key != key then NodeCount(Split(e.key, e.value, key, value, n)) + 1 else 2)
      && LeafDeletes(H, t, key, value) ==
           (if (e.Leaf? && e.key != key) || n == 0 then [] else Dead(HashOf(H, e, n), HashOf(H, Leaf(key, value), n)))
  {
    EndOfWalk(t, key);
  }

  /** What happens before the climb when the value is zero. */
  lemma ZeroAtEnd(H: Hasher, t: Tree, key: Quad)
    requires WellFormed(t, [])
    ensures OnPath(t, KeyBits(key), Depth(t, KeyBits(key), 0))
    ensures var n, e := Depth(t, KeyBits(key), 0), End(t, KeyBits(key));
      if e.Leaf? && e.key == key then
        && LeafWrites(H, t, key, 0) == NodeHashes(H, Replacement(t, key, 0), CutDepth(t, key, 0))
        && LeafDeletes(H, t, key, 0) == (if n > 0 then [HashOf(H, e, n)] else [])
      else
        && ModeOf(t, key, 0).ZeroToZero? && CutDepth(t, key, 0) == n && Replacement(t, key, 0) == e
        && LeafWrites(H, t, key, 0) == {} && LeafDeletes(H, t, key, 0) == [] && SiblingReads(H, t, key) == {}
        && HashOf(H, Down(t, KeyBits(key), 0), 0) == HashOf(H, t, 0)
  {
    hide WellFormed, KeyBits, RowOf, ValueRow, RaiseTo, Depth;
    EndOfWalk(t, key);
  }

  /** Nothing changed: the rows of the path climb back to the same root. */
  lemma CutUnchanged(H: Hasher, t: Tree, keys: seq<bool>, siblings: seq<Row>, n: nat)
    requires PathRows(H, t, keys, siblings, n)
    ensures CutRows(H, t, keys, siblings[..n], Down(t, keys, n)) && |siblings[..n]| == n
  {
    hide Climb, HashOf, RowOf, Down;
    var rows := siblings[..n];
    if n > 0 { ClimbSame(t, keys, n); }
  }

  lemma ClimbSame(t: Tree, keys: seq<bool>, n: nat)
    requires 0 < n <= |keys| && OnPath(t, keys, n)
    ensures Climb(t, keys, n - 1, n, Down(t, keys, n)) == Down(t, keys, n - 1)
  {
    var u := Down(t, keys, n - 1);
    assert Down(t, keys, n) == Child(u, keys[n - 1]);
    assert WithChild(u, keys[n - 1], Child(u, keys[n - 1])) == u;
  }

  /** A leaf row built from its remaining key and the hash of its value. */
  function LeafHash(H: Hasher, rkey: Quad, value: nat): Quad {
    H(Row(rkey, H(ValueRow(value)), ONE))
  }

  /** Hash and nodes of the fork of two keys that differ at `level`. */
  lemma ForkIs(H: Hasher, k1: Quad, v1: nat, k2: Quad, v2: nat, level: nat)
    requires level < 256 && KeyBits(k1)[level] != KeyBits(k2)[level]
    ensures var s := Split(k1, v1, k2, v2, level);
      var h1, h2 := LeafHash(H, RemoveKeyBits(k1, level + 1), v1), LeafHash(H, RemoveKeyBits(k2, level + 1), v2);
      var fork := H(WithSlot(WithSlot(Row(ZERO, ZERO, ZERO), KeyBits(k2)[level], h2), KeyBits(k1)[level], h1));
      HashOf(H, s, level) == fork && NodeHashes(H, s, level) == {h1, h2, fork} && NodeCount(s) == 3
  {
    var l1, l2 := Leaf(k1, v1), Leaf(k2, v2);
    assert NodeCount(l1) == 1 == NodeCount(l2);
    assert HashOf(H, l1, level + 1) == LeafHash(H, RemoveKeyBits(k1, level + 1), v1);
    assert HashOf(H, l2, level + 1) == LeafHash(H, RemoveKeyBits(k2, level + 1), v2);
    assert NodeHashes(H, l1, level + 1) == {HashOf(H, l1, level + 1)};
    assert NodeHashes(H, l2, level + 1) == {HashOf(H, l2, level + 1)};
  }

  /** Hash and nodes of a chain link above the fork. */
  lemma LinkIs(H: Hasher, k1: Quad, v1: nat, k2: Quad, v2: nat, level: nat)
    requires level < 256 && KeyBits(k1)[level] == KeyBits(k2)[level]
    ensures var s, below := Split(k1, v1, k2, v2, level), Split(k1, v1, k2, v2, level + 1);
      var link := H(WithSlot(Row(ZERO, ZERO, ZERO), KeyBits(k2)[level], HashOf(H, below, level + 1)));
      && HashOf(H, s, level) == link && NodeHashes(H, s, level) == NodeHashes(H, below, level + 1) + {link}
      && NodeCount(s) == NodeCount(below) + 1
  {
    assert HashOf(H, Empty, level + 1) == ZERO && NodeHashes(H, Empty, level + 1) == {} && NodeCount(Empty) == 0;
  }

  class Smt {
    const H: Hasher
    const stateManager: StateManager
    const db: Database

    constructor (H: Hasher, stateManager: StateManager, db: Database)
      ensures this.H == H && this.stateManager == stateManager && this.db == db
    {
      this.H, this.stateManager, this.db := H, stateManager, db;
    }

    ghost function Now(): Snapshot
      reads stateManager, db
    {
      Snapshot(stateManager.state, db.rows)
    }

    /** A row of the batch or, failing that, of the database. */
    method ReadRow(c: Target, key: Quad) returns (r: Option<Row>)
      ensures r == if key in View(Now(), c) then Some(View(Now(), c)[key]) else None
    {
      r := None;
      if c.useStateManager {
        r := stateManager.Read(c.uuid, key);
      }
      if r.None? {
        r := db.Read(key);
      }
    }

    /** The context of one `set` call after its sub-state was opened. */
    ghost predicate Working(c: Target)
      reads stateManager, db
    {
      && stateManager.Valid()
      && (c.useStateManager ==> HasTx(stateManager.state, c.uuid, c.tx) && |Rec(Now(), c).subState| > 0)
    }

    /** The rows of a call go to the state manager or to a database that fails no call. */
    predicate Dependable(c: Target) {
      c.useStateManager || db.reliable
    }

    /** Store a row under its hash. */
    method HashSave(c: Target, row: Row) returns (zkr: ZkResult, hash: Quad)
      requires Working(c)
      modifies stateManager, db`rows
      ensures Working(c)
      ensures hash == H(row)
      ensures Dependable(c) ==> zkr == ZKR_SUCCESS
      ensures zkr == ZKR_SUCCESS ==> Saved(H, c, old(Now()), Now(), {hash}, [])
      ensures zkr != ZKR_SUCCESS ==> Now() == old(Now())
    {
      hash := H(row);
      if c.useStateManager {
        RowRecorded(H, Rec(Now(), c), row);
        hide Recorded, AddWrite;
        zkr := stateManager.Write(c.uuid, c.tx, hash, row, c.p);
      } else {
        zkr := db.Write(hash, row, c.p == PERSISTENCE_DATABASE);
      }
    }

    /** Report a dead node; the source ignores the outcome, which is success here. */
    method DeleteNode(c: Target, hash: Quad)
      requires Working(c) && c.useStateManager
      modifies stateManager
      ensures Working(c)
      ensures Saved(H, c, old(Now()), Now(), {}, [hash])
    {
      var zkr := stateManager.DeleteNode(c.uuid, c.tx, hash, c.p);
    }

    /** The walk shared by `get` and `set`: down from the root until an empty subtree or a leaf. */
    method Descend(c: Target, root: Quad, keys: seq<bool>, ghost t: Tree)
      returns (zkr: ZkResult, level: nat, siblings: seq<Row>, found: Option<Found>)
      requires HonestStore(H, Now(), c) && Represents(H, root, t) && |keys| == 256
      ensures zkr == ZKR_SUCCESS <==> WalkReads(H, t, keys) <= View(Now(), c).Keys
      ensures zkr == ZKR_SUCCESS ==>
        && level == Depth(t, keys, 0)
        && OnPath(t, keys, level) && !Down(t, keys, level).Node?
        && |siblings| == level + (if found.Some? then 1 else 0)
        && PathRows(H, t, keys, siblings, level)
        && FoundIs(H, found, End(t, keys), level)
    {
      hide WellFormed, RowOf, ValueRow, NodeHashes, HonestStore, CollisionFree, Depth, End, FoundIs, IsLeafRow,
        PathHashes, Reach, WalkReads, PathRows, HashOf, View, Slot, OnPath, Represents, Down;
      RepresentsParts(H, root, t);
      PathRowsStart(H, t, keys);
      ghost var view := View(Now(), c);
      var r := root;
      var accKey: seq<bool> := [];
      level, siblings, found := 0, [], None;
      while r != ZERO && found.None?
        invariant level <= 256 && accKey == keys[..level]
        invariant |siblings| == level + (if found.Some? then 1 else 0)
        invariant PathRows(H, t, keys, siblings, level)
        invariant r == HashOf(H, Down(t, keys, level), level)
        invariant found.Some? ==> FoundIs(H, found, Down(t, keys, level), level)
        invariant PathHashes(H, t, keys, level) <= view.Keys
        invariant found.Some? ==> Reach(H, Down(t, keys, level), level) <= view.Keys
        decreases 256 - level, if found.None? then 1 else 0
      {
        ghost var u := Down(t, keys, level);
        PathRowsLength(H, t, keys, siblings, level);
        DownWellFormed(t, keys, level);
        NonEmptyHash(H, u, level);
        WalkReadsAt(t, keys, level);
        var ok, row;
        ok, row, found := ReadLevel(c, r, accKey, u);
        if !ok { return ZKR_DB_KEY_NOT_FOUND, level, siblings, found; }
        FoundLeaf(found, u, level);
        PathRowsMore(H, t, keys, siblings, row);
        siblings := siblings + [row];
        if found.None? {
          PathRowsExtend(H, t, keys, siblings, level);
          r := Slot(row, keys[level]);
          accKey := accKey + [keys[level]];
          level := level + 1;
        }
      }
      NonEmptyHash(H, Down(t, keys, level), level);
      PathRowsLength(H, t, keys, siblings, level);
      WalkEnds(t, keys, level, found);
      zkr := ZKR_SUCCESS;
    }

    /** A walk that reached an empty subtree or read a leaf has read everything it must. */
    lemma WalkEnds(t: Tree, keys: seq<bool>, level: nat, found: Option<Found>)
      requires level <= |keys| && OnPath(t, keys, level)
      requires if found.Some? then FoundIs(H, found, Down(t, keys, level), level) else Down(t, keys, level).Empty?
      ensures level == Depth(t, keys, 0) && End(t, keys) == Down(t, keys, level) && !End(t, keys).Node?
      ensures FoundIs(H, found, End(t, keys), level)
      ensures WalkReads(H, t, keys) == PathHashes(H, t, keys, level) + Reach(H, Down(t, keys, level), level)
      ensures found.None? ==> Reach(H, Down(t, keys, level), level) == {}
    {
      DepthFrom(t, keys, level);
    }

    /** Read one level of the walk: the row of the subtree `u` and, if it is a leaf, its value. */
    method ReadLevel(c: Target, hash: Quad, accKey: seq<bool>, ghost u: Tree)
      returns (ok: bool, row: Row, found: Option<Found>)
      requires HonestStore(H, Now(), c) && !u.Empty? && hash == HashOf(H, u, |accKey|) && WellFormed(u, accKey)
      ensures ok <==> hash in View(Now(), c) && (u.Leaf? ==> H(ValueRow(u.value)) in View(Now(), c))
      ensures ok ==> row == RowOf(H, u, |accKey|) && FoundIs(H, found, u, |accKey|)
      ensures found.Some? ==> u.Leaf?
    {
      hide HonestStore, RowOf, ValueRow, WellFormed, View, FoundIs;
      ok, found := false, None;
      var r := ReadNode(c, hash, u, |accKey|);
      if r.None? { return false, Row(ZERO, ZERO, ZERO), None; }
      row := r.value;
      if IsLeafRow(row) {
        found := ReadLeaf(c, row, accKey, u);
        ok := found.Some?;
      } else {
        ok := true;
        NotFound(u, |accKey|);
      }
    }

    lemma NotFound(u: Tree, n: nat)
      requires !u.Leaf?
      ensures FoundIs(H, None, u, n)
    {
    }

    lemma FoundLeaf(found: Option<Found>, u: Tree, n: nat)
      requires FoundIs(H, found, u, n)
      ensures found.Some? <==> u.Leaf?
    {
    }

    /** Read the row of the subtree `u`. */
    method ReadNode(c: Target, hash: Quad, ghost u: Tree, ghost level: nat) returns (r: Option<Row>)
      requires HonestStore(H, Now(), c)
      requires !u.Empty? && hash == HashOf(H, u, level)
      ensures r == if hash in View(Now(), c) then Some(RowOf(H, u, level)) else None
      ensures IsLeafRow(RowOf(H, u, level)) <==> u.Leaf?
    {
      r := ReadRow(c, hash);
      if r.Some? { HonestRow(H, View(Now(), c), RowOf(H, u, level)); }
    }

    /** Read the value of the leaf stored in `row` and put its whole key together. */
    method ReadLeaf(c: Target, row: Row, accKey: seq<bool>, ghost u: Tree) returns (found: Option<Found>)
      requires HonestStore(H, Now(), c)
      requires u.Leaf? && WellFormed(u, accKey) && row == RowOf(H, u, |accKey|)
      ensures found.Some? <==> H(ValueRow(u.value)) in View(Now(), c)
      ensures found.Some? ==> FoundIs(H, found, u, |accKey|)
    {
      var valueRow := ReadRow(c, row.b);
      if valueRow.None? { return None; }
      HonestRow(H, View(Now(), c), ValueRow(u.value));
      ValueRoundTrip(u.value);
      JoinRemoveRoundTrip(u.key, |accKey|);
      var foundKey := JoinKeyLoop(accKey, row.a);
      found := Some(Found(foundKey, row.a, RowValue(valueRow.value), row.b));
    }

    /** What the walk must read includes the subtree it has reached. */
    lemma WalkReadsAt(t: Tree, bits: seq<bool>, n: nat)
      requires n <= |bits| && OnPath(t, bits, n) && !Down(t, bits, n).Empty?
      ensures n < |bits| || !Down(t, bits, n).Node? ==> HashOf(H, Down(t, bits, n), n) in WalkReads(H, t, bits)
      ensures var u := Down(t, bits, n); u.Leaf? ==>
        Reach(H, u, n) == {HashOf(H, u, n), H(ValueRow(u.value))} <= WalkReads(H, t, bits)
    {
      DepthFrom(t, bits, n);
      if Down(t, bits, n).Node? && n < |bits| {
        InPathHashes(H, t, bits, Depth(t, bits, 0), n);
      }
    }

    /** The value of a key, or 0; also the leaf found in its place, if any, and the rows of the walk. */
    method Get(c: Target, root: Quad, key: Quad, ghost t: Tree) returns (zkr: ZkResult, r: GetResult)
      requires HonestStore(H, Now(), c) && Represents(H, root, t) && Canonical(key)
      ensures zkr == ZKR_SUCCESS <==> WalkReads(H, t, KeyBits(key)) <= View(Now(), c).Keys
      ensures zkr == ZKR_SUCCESS ==> r.value == Value(Entries(t), key) && Shows(H, t, key, r)
    {
      hide RowOf, ValueRow, Reach, HonestStore, PathRows, WalkReads, RemoveKeyBits;
      var bits := SplitKey(key);
      var keys := bits[..];
      var value, isOld0, insKey, insValue := 0, true, ZERO, 0;
      var level, siblings, found;
      zkr, level, siblings, found := Descend(c, root, keys, t);
      r := GetResult(0, true, ZERO, 0, [], 0);
      if zkr != ZKR_SUCCESS { return; }
      LookupEnd(t, key, 0);
      LookupIsEntry(t, [], key);
      if found.Some? {
        if key == found.value.key {
          value := found.value.value;
        } else {
          insKey, insValue, isOld0 := found.value.key, found.value.value, false;
        }
      }
      FirstPathRows(H, t, keys, siblings, level);
      EndIsSound(H, root, t, keys);
      siblings := siblings[..level];
      var proofHashCounter := 0;
      if root != ZERO {
        proofHashCounter := |siblings|;
        if value != 0 || !isOld0 { proofHashCounter := proofHashCounter + 2; }
      }
      r := GetResult(value, isOld0, insKey, insValue, siblings, proofHashCounter);
    }

    /** A walk in an empty tree ends at once; a leaf it ends at has a value. */
    lemma EndIsSound(H: Hasher, root: Quad, t: Tree, bits: seq<bool>)
      requires Represents(H, root, t) && OnPath(t, bits, Depth(t, bits, 0))
      ensures root == ZERO ==> Depth(t, bits, 0) == 0 && End(t, bits).Empty?
      ensures End(t, bits).Leaf? ==> End(t, bits).value > 0
    {
      NonEmptyHash(H, t, 0);
      DownWellFormed(t, bits, Depth(t, bits, 0));
    }

    // -------------------------------------------------------------- set

    /** Save one level and put its hash into the row above, reporting the node it replaces there. */
    method SaveLevel(c: Target, row: Row, hasParent: bool, parent: Row, bit: bool, ghost s0: Snapshot,
        ghost w: set<Quad>, ghost d: seq<Quad>)
      returns (zkr: ZkResult, hash: Quad, parent': Row)
      requires Working(c) && Saved(H, c, s0, Now(), w, d)
      modifies stateManager, db`rows
      ensures Working(c)
      ensures Dependable(c) ==> zkr == ZKR_SUCCESS
      ensures hash == H(row) && (zkr == ZKR_SUCCESS && hasParent ==> parent' == WithSlot(parent, bit, hash))
      ensures zkr == ZKR_SUCCESS ==>
        Saved(H, c, s0, Now(), w + {hash}, d + (if hasParent then Dead(Slot(parent, bit), hash) else []))
      ensures zkr != ZKR_SUCCESS ==> Now() == old(Now())
    {
      parent' := parent;
      zkr, hash := HashSave(c, row);
      if zkr == ZKR_SUCCESS {
        ghost var dead := if hasParent then Dead(Slot(parent, bit), hash) else [];
        if hasParent {
          parent' := ReplaceSlot(c, parent, bit, hash, old(Now()), {hash});
        }
        SavedTwice(H, c, s0, old(Now()), Now(), w, d, {hash}, dead, w + {hash}, d + dead);
      }
    }

    /** Overwrite a slot of a row; a different node it held is reported dead. */
    method ReplaceSlot(c: Target, row: Row, bit: bool, hash: Quad, ghost s0: Snapshot, ghost w: set<Quad>)
      returns (row': Row)
      requires Working(c) && Saved(H, c, s0, Now(), w, [])
      modifies stateManager
      ensures Working(c) && row' == WithSlot(row, bit, hash)
      ensures Saved(H, c, s0, Now(), w, Dead(Slot(row, bit), hash))
    {
      var nodeToDelete := Slot(row, bit);
      row' := WithSlot(row, bit, hash);
      if !c.useStateManager { NothingReported(H, c, s0, Now(), w, Dead(nodeToDelete, hash)); }
      hide Saved, Working, Slot, WithSlot;
      if c.useStateManager && nodeToDelete != hash && nodeToDelete != ZERO {
        ghost var mid := Now();
        DeleteNode(c, nodeToDelete);
        SavedThenReported(H, c, s0, mid, Now(), w, nodeToDelete);
      }
    }

    /** Rebuild the path: save the row of every level, deepest first, and report the replaced nodes. */
    method ClimbLoop(c: Target, keys: seq<bool>, rows: seq<Row>, top: Quad)
      returns (zkr: ZkResult, newRoot: Quad, siblings: seq<Row>)
      requires Working(c) && |rows| <= |keys|
      modifies stateManager, db`rows
      ensures Working(c)
      ensures Dependable(c) ==> zkr == ZKR_SUCCESS
      ensures zkr == ZKR_SUCCESS ==>
        && newRoot == (if rows == [] then top else H(Rebuilt(H, rows, keys, 0)))
        && |siblings| == |rows| && (forall i :: 0 <= i < |rows| ==> siblings[i] == Rebuilt(H, rows, keys, i))
        && Saved(H, c, old(Now()), Now(), RebuiltHashes(H, rows, keys, 0), RebuiltDead(H, rows, keys, 0))
      ensures zkr != ZKR_SUCCESS ==> Keeps(H, c, old(Now()), Now())
    {
      hide Keeps;
      hide Saved, Working, Rebuilt, RebuiltHashes, RebuiltDead, Dead, Slot, WithSlot;
      newRoot, siblings := top, rows;
      zkr := ZKR_SUCCESS;
      NothingSaved(c);
      var level := |rows| - 1;
      ClimbStart(H, rows, keys);
      if level >= 0 { ClimbUnfold(H, rows, keys, level); }
      while level >= 0
        invariant -1 <= level < |rows| == |siblings| && Working(c) && zkr == ZKR_SUCCESS
        invariant forall i :: 0 <= i < |rows| ==>
          siblings[i] == if i < level then rows[i] else Rebuilt(H, rows, keys, i)
        invariant newRoot == if level + 1 == |rows| then top else H(Rebuilt(H, rows, keys, level + 1))
        invariant true == Saved(H, c, old(Now()), Now(), RebuiltHashes(H, rows, keys, level + 1),
          RebuiltDead(H, rows, keys, level + 1))
      {
        ClimbUnfold(H, rows, keys, level);
        SavedKeeps(H, c, old(Now()), Now(), RebuiltHashes(H, rows, keys, level + 1),
            RebuiltDead(H, rows, keys, level + 1));
        var hasParent := level > 0;
        var parent := if hasParent then siblings[level - 1] else siblings[level];
        var bit := hasParent && keys[level - 1];
        zkr, newRoot, parent := SaveLevel(c, siblings[level], hasParent, parent, bit, old(Now()),
          RebuiltHashes(H, rows, keys, level + 1), RebuiltDead(H, rows, keys, level + 1));
        if zkr != ZKR_SUCCESS { return; }
        if hasParent { siblings := siblings[level - 1 := parent]; }
        level := level - 1;
      }
    }

    lemma NothingSaved(c: Target)
      requires Working(c)
      ensures c.useStateManager ==> Saved(H, c, Now(), Now(), {}, [])
      ensures !c.useStateManager ==> forall d :: Saved(H, c, Now(), Now(), {}, d)
    {
      if c.useStateManager {
        var r := Rec(Now(), c);
        assert r == WithLast(r, Last(r));
      }
    }

    /** Store a value and the leaf that points to it. */
    method SaveLeaf(c: Target, rkey: Quad, value: nat) returns (zkr: ZkResult, leafHash: Quad)
      requires Working(c)
      modifies stateManager, db`rows
      ensures Working(c)
      ensures Dependable(c) ==> zkr == ZKR_SUCCESS
      ensures leafHash == LeafHash(H, rkey, value)
      ensures zkr == ZKR_SUCCESS ==> Saved(H, c, old(Now()), Now(), {H(ValueRow(value)), leafHash}, [])
      ensures zkr != ZKR_SUCCESS ==> Keeps(H, c, old(Now()), Now())
    {
      hide Keeps;
      var valueHash;
      zkr, valueHash := HashSave(c, ValueRow(value));
      leafHash := H(Row(rkey, valueHash, ONE));
      if zkr != ZKR_SUCCESS {
        KeepsSame(H, c, Now());
        return;
      }
      ghost var mid := Now();
      zkr, leafHash := HashSave(c, Row(rkey, valueHash, ONE));
      if zkr != ZKR_SUCCESS {
        SavedKeeps(H, c, old(Now()), mid, {valueHash}, []);
        return;
      }
      SavedTwice(H, c, old(Now()), mid, Now(), {valueHash}, [], {leafHash}, [], {valueHash, leafHash}, []);
    }

    /** Put the hash of a new subtree under the path: into the last row, or on top if there is none. */
    method Attach(c: Target, keys: seq<bool>, siblings: seq<Row>, n: nat, hash: Quad, report: bool, ghost t: Tree,
        ghost s: Tree, ghost s0: Snapshot, ghost w: set<Quad>)
      returns (rows: seq<Row>)
      requires Working(c) && Saved(H, c, s0, Now(), w, [])
      requires PathRows(H, t, keys, siblings, n) && hash == HashOf(H, s, n)
      modifies stateManager
      ensures Working(c)
      ensures CutRows(H, t, keys, rows, s) && |rows| == n
      ensures Saved(H, c, s0, Now(), w, if report && n > 0 then Dead(HashOf(H, Down(t, keys, n), n), hash) else [])
    {
      hide Saved, Working, CutRows, Climb, HashOf;
      CutAttach(H, t, keys, siblings, n, s);
      rows := siblings[..n];
      if n > 0 {
        var last := rows[n - 1];
        if report {
          last := ReplaceSlot(c, last, keys[n - 1], hash, s0, w);
        } else {
          last := WithSlot(last, keys[n - 1], hash);
        }
        rows := rows[n - 1 := last];
      }
    }

    /** Modes update and insertNotFound: a leaf where the walk ended. */
    method PutLeaf(c: Target, keys: seq<bool>, siblings: seq<Row>, n: nat, rkey: Quad, value: nat, report: bool,
        ghost t: Tree, ghost key: Quad)
      returns (zkr: ZkResult, rows: seq<Row>, top: Quad)
      requires Working(c) && PathRows(H, t, keys, siblings, n)
      requires rkey == RemoveKeyBits(key, n)
      modifies stateManager, db`rows
      ensures Working(c)
      ensures Dependable(c) ==> zkr == ZKR_SUCCESS
      ensures zkr == ZKR_SUCCESS ==>
        && CutRows(H, t, keys, rows, Leaf(key, value)) && |rows| == n
        && top == HashOf(H, Leaf(key, value), n)
        && Saved(H, c, old(Now()), Now(), {H(ValueRow(value)), top},
                 if report && n > 0 then Dead(HashOf(H, Down(t, keys, n), n), top) else [])
      ensures zkr != ZKR_SUCCESS ==> Keeps(H, c, old(Now()), Now())
    {
      hide Keeps;
      hide Saved, Working;
      rows := [];
      zkr, top := SaveLeaf(c, rkey, value);
      if zkr != ZKR_SUCCESS { return; }
      rows := Attach(c, keys, siblings, n, top, report, t, Leaf(key, value), old(Now()), {H(ValueRow(value)), top});
    }

    /** Mode insertFound: both leaves below the first bit in which the keys differ, and the chain of
        one-sided nodes from there up to where the walk ended. */
    method SplitLoop(c: Target, keys: seq<bool>, n: nat, key: Quad, value: nat, found: Found)
      returns (zkr: ZkResult, r2: Quad, hashes: nat)
      requires Working(c) && keys == KeyBits(key)
      requires Canonical(key) && Canonical(found.key) && key != found.key
      requires n <= 256 && KeyBits(found.key)[..n] == keys[..n]
      requires found.valueHash == H(ValueRow(found.value))
      modifies stateManager, db`rows
      ensures Working(c)
      ensures Dependable(c) ==> zkr == ZKR_SUCCESS
      ensures zkr == ZKR_SUCCESS ==>
        var s := Split(found.key, found.value, key, value, n);
        && r2 == HashOf(H, s, n) && hashes == NodeCount(s) + 1
        && Saved(H, c, old(Now()), Now(), NodeHashes(H, s, n) + {H(ValueRow(value))}, [])
      ensures zkr != ZKR_SUCCESS ==> Keeps(H, c, old(Now()), Now())
    {
      hide Keeps;
      hide Saved, Working, Split, NodeHashes, HashOf, KeyBits, RemoveKeyBits, ValueRow, NodeCount;
      r2, hashes := ZERO, 0;
      var foundBits := SplitKey(found.key);
      var foundKeys := foundBits[..];
      DifferingBitExists(found.key, key, n);
      var level2 := n;
      while keys[level2] == foundKeys[level2]
        invariant n <= level2 < 256
        invariant forall i :: n <= i < level2 ==> keys[i] == foundKeys[i]
        decreases 256 - level2
      {
        level2 := level2 + 1;
      }
      ghost var w;
      ghost var fork := level2;
      zkr, r2, w := SaveFork(c, level2, key, value, found);
      if zkr != ZKR_SUCCESS { return; }
      hashes := hashes + 4;
      while level2 > n
        invariant n <= level2 <= fork < 256 && Working(c) && zkr == ZKR_SUCCESS
        invariant r2 == HashOf(H, Split(found.key, found.value, key, value, level2), level2)
        invariant hashes == NodeCount(Split(found.key, found.value, key, value, level2)) + 1
        invariant w == NodeHashes(H, Split(found.key, found.value, key, value, level2), level2) + {H(ValueRow(value))}
        invariant Saved(H, c, old(Now()), Now(), w, [])
      {
        level2 := level2 - 1;
        LinkIs(H, found.key, found.value, key, value, level2);
        ghost var mid := Now();
        var node := WithSlot(Row(ZERO, ZERO, ZERO), keys[level2], r2);
        zkr, r2 := HashSave(c, node);
        if zkr != ZKR_SUCCESS {
          SavedKeeps(H, c, old(Now()), mid, w, []);
          return;
        }
        SavedTwice(H, c, old(Now()), mid, Now(), w, [], {r2}, [], w + {r2}, []);
        hashes := hashes + 1;
        w := w + {r2};
      }
    }

    /** The two leaves and the node that tells them apart. */
    method SaveFork(c: Target, level2: nat, key: Quad, value: nat, found: Found)
      returns (zkr: ZkResult, r2: Quad, ghost w: set<Quad>)
      requires Working(c) && level2 < 256 && KeyBits(key)[level2] != KeyBits(found.key)[level2]
      requires found.valueHash == H(ValueRow(found.value))
      modifies stateManager, db`rows
      ensures Working(c)
      ensures Dependable(c) ==> zkr == ZKR_SUCCESS
      ensures zkr == ZKR_SUCCESS ==>
        var s := Split(found.key, found.value, key, value, level2);
        && r2 == HashOf(H, s, level2) && NodeCount(s) == 3
        && w == NodeHashes(H, s, level2) + {H(ValueRow(value))}
        && Saved(H, c, old(Now()), Now(), w, [])
      ensures zkr != ZKR_SUCCESS ==> Keeps(H, c, old(Now()), Now())
    {
      hide Keeps;
      hide Saved, Working, Split, NodeHashes, HashOf, KeyBits, RemoveKeyBits, ValueRow;
      r2, w := ZERO, {};
      var oldKey := RemoveKeyBitsLoop(found.key, level2 + 1);
      var oldLeafHash;
      zkr, oldLeafHash := HashSave(c, Row(oldKey, found.valueHash, ONE));
      assert oldLeafHash == LeafHash(H, oldKey, found.value);
      if zkr != ZKR_SUCCESS {
        KeepsSame(H, c, Now());
        return;
      }
      ghost var s1 := Now();
      var newKey := RemoveKeyBitsLoop(key, level2 + 1);
      var newLeafHash;
      zkr, newLeafHash := SaveLeaf(c, newKey, value);
      if zkr != ZKR_SUCCESS {
        SavedKeeps(H, c, old(Now()), s1, {oldLeafHash}, []);
        KeepsTwice(H, c, old(Now()), s1, Now());
        return;
      }
      ghost var s2 := Now();
      w := {oldLeafHash, H(ValueRow(value)), newLeafHash};
      SavedTwice(H, c, old(Now()), s1, s2, {oldLeafHash}, [], {H(ValueRow(value)), newLeafHash}, [], w, []);
      var node := WithSlot(WithSlot(Row(ZERO, ZERO, ZERO), KeyBits(key)[level2], newLeafHash),
          KeyBits(found.key)[level2], oldLeafHash);
      zkr, r2 := HashSave(c, node);
      if zkr != ZKR_SUCCESS {
        SavedKeeps(H, c, old(Now()), s2, w, []);
        return;
      }
      SavedTwice(H, c, old(Now()), s2, Now(), w, [], {r2}, [], w + {r2}, []);
      w := w + {r2};
      ForkIs(H, found.key, found.value, key, value, level2);
    }

    /** The only non-zero group of a row: 0 or 1, or 2 for the capacity; None if not exactly one. */
    method GetUniqueSibling(row: Row) returns (r: Option<nat>)
      ensures r == UniqueSibling(row)
    {
      var groups := [row.a, row.b, row.c];
      var nFound, fnd := 0, 0;
      var i := 0;
      while i < 3
        invariant 0 <= i <= 3 && 0 <= fnd < 3
        invariant nFound == NonZero(row, i)
        invariant nFound == 1 ==> fnd < i && groups[fnd] != ZERO
      {
        if groups[i] != ZERO {
          nFound := nFound + 1;
          fnd := i;
        }
        i := i + 1;
      }
      r := if nFound == 1 then Some(fnd) else None;
    }

    /** How far the lone sibling rises: up past every row with a single non-zero group. */
    method RaiseLoop(keys: seq<bool>, siblings: seq<Row>, n: nat, ghost t: Tree) returns (m: nat)
      requires CollisionFree(H) && PathRows(H, t, keys, siblings, n)
      requires n > 0 && WellFormed(t, []) && |keys| == 256
      requires !Down(t, keys, n).Empty?
      ensures m == RaiseTo(t, keys, n - 1)
    {
      m := n - 1;
      var alone := true;
      while alone && m > 0
        invariant 0 <= m < n
        invariant alone ==> RaiseTo(t, keys, m) == RaiseTo(t, keys, n - 1)
        invariant !alone ==> m == RaiseTo(t, keys, n - 1)
        decreases m, alone
      {
        var unique := GetUniqueSibling(siblings[m - 1]);
        UniqueOnPath(H, t, keys, siblings, m);
        if unique.Some? {
          m := m - 1;
        } else {
          alone := false;
        }
      }
    }

    /** Reporting a dead node changes nothing readable. */
    lemma SameView(c: Target, s0: Snapshot, s1: Snapshot, d: seq<Quad>)
      requires Saved(H, c, s0, s1, {}, d) && HonestStore(H, s0, c)
      ensures HonestStore(H, s1, c) && View(s1, c).Keys == View(s0, c).Keys
    {
    }

    /** Mode deleteFound: store the sibling leaf at the depth it rises to. */
    method RaiseSibling(c: Target, keys: seq<bool>, siblings: seq<Row>, n: nat, leaf: Found, ghost t: Tree,
        ghost key: Quad, ghost s0: Snapshot)
      returns (zkr: ZkResult, rows: seq<Row>, top: Quad)
      requires Working(c) && CollisionFree(H) && WellFormed(t, []) && Canonical(key)
      requires keys == KeyBits(key) && n == Depth(t, keys, 0) && n > 0 && PathRows(H, t, keys, siblings, n)
      requires ModeOf(t, key, 0).DeleteFound? && FoundIs(H, Some(leaf), Sibling(t, keys, n), n)
      requires Saved(H, c, s0, Now(), {}, [HashOf(H, End(t, keys), n)])
      modifies stateManager, db`rows
      ensures Working(c)
      ensures Dependable(c) ==> zkr == ZKR_SUCCESS
      ensures zkr == ZKR_SUCCESS ==>
        && |rows| == CutDepth(t, key, 0)
        && CutRows(H, t, keys, rows, Replacement(t, key, 0))
        && top == HashOf(H, Replacement(t, key, 0), |rows|)
        && Saved(H, c, s0, Now(), NodeHashes(H, Replacement(t, key, 0), |rows|), [HashOf(H, End(t, keys), n)])
      ensures zkr != ZKR_SUCCESS ==> Keeps(H, c, s0, Now())
    {
      hide Keeps;
      hide Saved, Working, CutRows, HashOf, NodeHashes, ModeOf, CutDepth, Replacement, RaiseTo;
      rows := [];
      DeletedLeafIsThere(t, key);
      RaisedLeaf(H, t, key, leaf);
      var m := RaiseLoop(keys, siblings, n, t);
      var oldKey := RemoveKeyBitsLoop(leaf.key, m);
      ghost var s1 := Now();
      zkr, top := HashSave(c, Row(oldKey, leaf.valueHash, ONE));
      if zkr != ZKR_SUCCESS {
        SavedKeeps(H, c, s0, s1, {}, [HashOf(H, End(t, keys), n)]);
        return;
      }
      ghost var dead := [HashOf(H, End(t, keys), n)];
      rows := Attach(c, keys, siblings, m, top, false, t, Sibling(t, keys, n), s1, {top});
      SavedTwice(H, c, s0, s1, Now(), {}, dead, {top}, [], {top}, dead);
    }

    /** Modes deleteFound, deleteNotFound and deleteLast. */
    method DeleteLeaf(c: Target, keys: seq<bool>, siblings: seq<Row>, n: nat, ghost t: Tree, ghost key: Quad)
      returns (zkr: ZkResult, mode: SetMode, rows: seq<Row>, top: Quad, ins: Option<(Quad, nat)>, hashes: nat)
      requires Working(c) && HonestStore(H, Now(), c) && Represents(H, HashOf(H, t, 0), t)
      requires Canonical(key) && keys == KeyBits(key) && n == Depth(t, keys, 0)
      requires PathRows(H, t, keys, siblings, n) && End(t, keys).Leaf? && End(t, keys).key == key
      modifies stateManager, db`rows
      ensures Working(c)
      ensures zkr == ZKR_SUCCESS ==>
        && mode == ModeOf(t, key, 0)
        && |rows| == CutDepth(t, key, 0)
        && CutRows(H, t, keys, rows, Replacement(t, key, 0))
        && top == HashOf(H, Replacement(t, key, 0), |rows|)
        && Saved(H, c, old(Now()), Now(), NodeHashes(H, Replacement(t, key, 0), |rows|),
                 if n > 0 then [HashOf(H, End(t, keys), n)] else [])
        && SiblingReads(H, t, key) <= View(old(Now()), c).Keys
      ensures Dependable(c) && SiblingReads(H, t, key) <= View(old(Now()), c).Keys ==> zkr == ZKR_SUCCESS
      ensures zkr == ZKR_SUCCESS ==>
        ins == if mode.DeleteFound? then Some((Replacement(t, key, 0).key, Replacement(t, key, 0).value)) else None
      ensures zkr == ZKR_SUCCESS ==> hashes == if mode.DeleteFound? then 3 else 0
      ensures zkr != ZKR_SUCCESS ==> Keeps(H, c, old(Now()), Now())
    {
      hide Keeps;
      hide Saved, Working, HonestStore, View, CutRows, PathRows, HashOf, RowOf, NodeHashes, Reach, ModeOf, CutDepth,
        Replacement, RaiseTo;
      hide SiblingReads, UniqueSibling, IsLeafRow, ValueRow, WellFormed, KeyBits;
      mode, rows, top, ins, hashes := DeleteLast, [], ZERO, None, 0;
      NothingSaved(c);
      DeleteCases(H, t, key);
      DeadLeaf(H, t, keys, n);
      rows := Attach(c, keys, siblings, n, ZERO, true, t, Empty, old(Now()), {});
      if n == 0 {
        return ZKR_SUCCESS, DeleteLast, rows, ZERO, None, 0;
      }
      SameView(c, old(Now()), Now(), [HashOf(H, End(t, keys), n)]);
      SavedKeeps(H, c, old(Now()), Now(), {}, [HashOf(H, End(t, keys), n)]);
      PathRowAt(H, t, keys, siblings, rows, n);
      var unique := GetUniqueSibling(rows[n - 1]);
      ghost var sibling := Sibling(t, keys, n);
      mode := DeleteNotFound;
      if unique.Some? {
        var bit := unique.value == 1;
        assert bit == !keys[n - 1];
        var sibHash := Slot(rows[n - 1], bit);
        var sibRow := ReadNode(c, sibHash, sibling, n);
        if sibRow.None? { return ZKR_DB_KEY_NOT_FOUND, mode, rows, ZERO, None, 0; }
        if IsLeafRow(sibRow.value) {
          mode := DeleteFound;
          var leaf := ReadLeaf(c, sibRow.value, keys[..n - 1] + [bit], sibling);
          if leaf.None? { return ZKR_DB_KEY_NOT_FOUND, mode, rows, ZERO, None, 0; }
          hashes := hashes + 2;
          ins := Some((leaf.value.key, leaf.value.value));
          zkr, rows, top := RaiseSibling(c, keys, siblings, n, leaf.value, t, key, old(Now()));
          hashes := hashes + 1;
          return;
        }
      }
      zkr := ZKR_SUCCESS;
    }

    /** Where the mode-dependent part of `set` leaves things: what was saved and reported, the rows to
        climb over, and the result fields. */
    ghost predicate Applied(c: Target, t: Tree, key: Quad, value: nat, s0: Snapshot, s1: Snapshot, mode: SetMode,
        rows: seq<Row>, top: Quad, oldValue: nat, ins: Option<(Quad, nat)>, hashes: nat)
    {
      && OnPath(t, KeyBits(key), Depth(t, KeyBits(key), 0))
      && mode == ModeOf(t, key, value)
      && |rows| == CutDepth(t, key, value)
      && CutRows(H, t, KeyBits(key), rows, Replacement(t, key, value))
      && (rows == [] ==> top == HashOf(H, Replacement(t, key, value), 0))
      && Saved(H, c, s0, s1, LeafWrites(H, t, key, value), LeafDeletes(H, t, key, value))
      && oldValue == Lookup(t, key, 0)
      && ins == Displaced(t, key, value)
      && hashes == ModeHashes(t, key, value)
    }

    /** Mode insertFound: the split leaf is put under the path; the node it replaces is not reported. */
    method InsertFoundLeaf(c: Target, keys: seq<bool>, siblings: seq<Row>, n: nat, key: Quad, value: nat, found: Found,
        ghost t: Tree)
      returns (zkr: ZkResult, rows: seq<Row>, top: Quad, hashes: nat)
      requires Working(c) && keys == KeyBits(key) && PathRows(H, t, keys, siblings, n)
      requires Canonical(key) && Canonical(found.key) && key != found.key
      requires n <= 256 && KeyBits(found.key)[..n] == keys[..n] && found.valueHash == H(ValueRow(found.value))
      modifies stateManager, db`rows
      ensures Working(c)
      ensures Dependable(c) ==> zkr == ZKR_SUCCESS
      ensures zkr == ZKR_SUCCESS ==>
        var s := Split(found.key, found.value, key, value, n);
        && CutRows(H, t, keys, rows, s) && |rows| == n && top == HashOf(H, s, n) && hashes == NodeCount(s) + 1
        && Saved(H, c, old(Now()), Now(), NodeHashes(H, s, n) + {H(ValueRow(value))}, [])
      ensures zkr != ZKR_SUCCESS ==> Keeps(H, c, old(Now()), Now())
    {
      hide Keeps, Saved, Working, CutRows, PathRows, HashOf, NodeHashes, KeyBits, ValueRow, Split, NodeCount, Down;
      ghost var s := Split(found.key, found.value, key, value, n);
      rows := [];
      zkr, top, hashes := SplitLoop(c, keys, n, key, value, found);
      if zkr != ZKR_SUCCESS { return; }
      rows := Attach(c, keys, siblings, n, top, false, t, s, old(Now()), NodeHashes(H, s, n) + {H(ValueRow(value))});
    }

    /** The three modes for a value that is not zero */
    method ApplyValue(c: Target, keys: seq<bool>, siblings: seq<Row>, n: nat, key: Quad, value: nat,
        found: Option<Found>, ghost t: Tree)
      returns (zkr: ZkResult, mode: SetMode, rows: seq<Row>, top: Quad, oldValue: nat, ins: Option<(Quad, nat)>,
          hashes: nat)
      requires Working(c) && WellFormed(t, []) && CollisionFree(H) && 0 < value < VALUE_LIMIT
      requires Canonical(key) && keys == KeyBits(key) && n == Depth(t, keys, 0)
      requires PathRows(H, t, keys, siblings, n) && FoundIs(H, found, End(t, keys), n) && !End(t, keys).Node?
      requires n <= |siblings| && OnPath(t, keys, n)
      modifies stateManager, db`rows
      ensures Working(c)
      ensures Dependable(c) ==> zkr == ZKR_SUCCESS
      ensures zkr == ZKR_SUCCESS ==>
        Applied(c, t, key, value, old(Now()), Now(), mode, rows, top, oldValue, ins, hashes)
      ensures zkr != ZKR_SUCCESS ==> Keeps(H, c, old(Now()), Now())
    {
      hide Keeps;
      hide Saved, Working, View, CutRows, PathRows, HashOf, NodeHashes, Reach;
      hide WellFormed, KeyBits, ValueRow, RaiseTo, LeafWrites, LeafDeletes, CutDepth, Replacement, Dead, Split;
      EndIsDown(t, keys);
      LookupEnd(t, key, 0);
      oldValue, ins, hashes := 0, None, 0;
      PutAtEnd(H, t, key, value);
      if found.Some? {
        if key == found.value.key {
          mode := Update;
          oldValue := found.value.value;
          zkr, rows, top := PutLeaf(c, keys, siblings, n, found.value.rkey, value, oldValue != value, t, key);
          hashes := hashes + 2;
        } else {
          mode := InsertFound;
          FoundUnderPath(t, keys, n);
          zkr, rows, top, hashes := InsertFoundLeaf(c, keys, siblings, n, key, value, found.value, t);
          ins := Some((found.value.key, found.value.value));
        }
      } else {
        mode := InsertNotFound;
        var newKey := RemoveKeyBitsLoop(key, n);
        zkr, rows, top := PutLeaf(c, keys, siblings, n, newKey, value, true, t, key);
        hashes := hashes + 2;
      }
    }

    /** The four modes for zero */
    method ApplyZero(c: Target, keys: seq<bool>, siblings: seq<Row>, n: nat, key: Quad, found: Option<Found>,
        oldRoot: Quad, ghost t: Tree)
      returns (zkr: ZkResult, mode: SetMode, rows: seq<Row>, top: Quad, oldValue: nat, ins: Option<(Quad, nat)>,
          hashes: nat)
      requires Working(c) && HonestStore(H, Now(), c) && Represents(H, oldRoot, t)
      requires Canonical(key) && keys == KeyBits(key) && n == Depth(t, keys, 0)
      requires PathRows(H, t, keys, siblings, n) && FoundIs(H, found, End(t, keys), n) && !End(t, keys).Node?
      requires n <= |siblings| && OnPath(t, keys, n)
      modifies stateManager, db`rows
      ensures Working(c)
      ensures Dependable(c) ==> (zkr == ZKR_SUCCESS <==> SiblingReads(H, t, key) <= View(old(Now()), c).Keys)
      ensures zkr == ZKR_SUCCESS ==> Applied(c, t, key, 0, old(Now()), Now(), mode, rows, top, oldValue, ins, hashes)
      ensures zkr != ZKR_SUCCESS ==> Keeps(H, c, old(Now()), Now())
    {
      hide Keeps;
      hide Saved, Working, HonestStore, View, CutRows, PathRows, HashOf, NodeHashes, Reach, SiblingReads, Applied;
      hide WellFormed, KeyBits, ValueRow, RaiseTo, LeafWrites, LeafDeletes, CutDepth, Replacement, Dead, Split;
      hide ModeOf, Displaced, Lookup, Depth, End, OnPath;
      oldValue, ins, hashes := 0, None, 0;
      if found.Some? && key == found.value.key {
        oldValue := found.value.value;
        zkr, mode, rows, top, ins, hashes := DeleteLeaf(c, keys, siblings, n, t, key);
        if zkr == ZKR_SUCCESS { DeleteApplied(c, t, key, old(Now()), Now(), mode, rows, top, ins); }
      } else {
        mode := ZeroToZero;
        zkr := ZKR_SUCCESS;
        if found.Some? { ins := Some((found.value.key, found.value.value)); }
        rows := siblings[..n];
        top := oldRoot;
        NothingApplied(c, siblings, n, t, key, found);
      }
    }

    /** Deleting a leaf that is there */
    lemma DeleteApplied(c: Target, t: Tree, key: Quad, s0: Snapshot, s1: Snapshot, mode: SetMode, rows: seq<Row>,
        top: Quad, ins: Option<(Quad, nat)>)
      requires WellFormed(t, []) && OnPath(t, KeyBits(key), Depth(t, KeyBits(key), 0))
      requires End(t, KeyBits(key)).Leaf? && End(t, KeyBits(key)).key == key
      requires mode == ModeOf(t, key, 0) && |rows| == CutDepth(t, key, 0)
      requires CutRows(H, t, KeyBits(key), rows, Replacement(t, key, 0))
      requires top == HashOf(H, Replacement(t, key, 0), |rows|)
      requires Saved(H, c, s0, s1, NodeHashes(H, Replacement(t, key, 0), |rows|),
                     if Depth(t, KeyBits(key), 0) > 0 then [HashOf(H, End(t, KeyBits(key)), Depth(t, KeyBits(key), 0))]
                         else [])
      requires ins == if mode.DeleteFound? then Some((Replacement(t, key, 0).key, Replacement(t, key, 0).value))
        else None
      ensures Applied(c, t, key, 0, s0, s1, mode, rows, top, End(t, KeyBits(key)).value, ins,
        if mode.DeleteFound? then 3 else 0)
    {
      hide Saved, CutRows, HashOf, NodeHashes, WellFormed, KeyBits, LeafWrites, LeafDeletes, CutDepth, Replacement,
        Depth, End;
      ZeroAtEnd(H, t, key);
      LookupEnd(t, key, 0);
      DeleteHashes(t, key);
    }

    static lemma DeleteHashes(t: Tree, key: Quad)
      requires OnPath(t, KeyBits(key), Depth(t, KeyBits(key), 0))
      ensures ModeHashes(t, key, 0) == if ModeOf(t, key, 0).DeleteFound? then 3 else 0
    {
    }

    /** Nothing to delete */
    lemma NothingApplied(c: Target, siblings: seq<Row>, n: nat, t: Tree, key: Quad, found: Option<Found>)
      requires Working(c) && CollisionFree(H) && WellFormed(t, []) && Canonical(key)
      requires n == Depth(t, KeyBits(key), 0) && n <= |siblings| && OnPath(t, KeyBits(key), n)
      requires PathRows(H, t, KeyBits(key), siblings, n) && FoundIs(H, found, End(t, KeyBits(key)), n)
      requires !End(t, KeyBits(key)).Node? && !(found.Some? && found.value.key == key)
      ensures SiblingReads(H, t, key) == {}
      ensures Applied(c, t, key, 0, Now(), Now(), ZeroToZero, siblings[..n], HashOf(H, t, 0), 0,
                      if found.Some? then Some((found.value.key, found.value.value)) else None, 0)
    {
      hide Saved, Working, CutRows, PathRows, HashOf, NodeHashes, Reach, SiblingReads, WellFormed, KeyBits, ValueRow;
      hide LeafWrites, LeafDeletes, CutDepth, Replacement, Depth, End, RaiseTo, ModeHashes, Lookup, Down, OnPath;
      DeleteHashes(t, key);
      ZeroAtEnd(H, t, key);
      LookupEnd(t, key, 0);
      EndIsDown(t, KeyBits(key));
      NothingSaved(c);
      CutUnchanged(H, t, KeyBits(key), siblings, n);
      DownNothing(t, KeyBits(key));
    }

    static lemma DownNothing(t: Tree, bits: seq<bool>)
      ensures Down(t, bits, 0) == t
    {
    }

    /** The mode-dependent part of `set`: everything before the climb. */
    method ApplyMode(c: Target, keys: seq<bool>, siblings: seq<Row>, n: nat, key: Quad, value: nat,
        found: Option<Found>, oldRoot: Quad, ghost t: Tree)
      returns (zkr: ZkResult, mode: SetMode, rows: seq<Row>, top: Quad, oldValue: nat, ins: Option<(Quad, nat)>,
          hashes: nat)
      requires Working(c) && HonestStore(H, Now(), c) && Represents(H, oldRoot, t) && value < VALUE_LIMIT
      requires Canonical(key) && keys == KeyBits(key) && n == Depth(t, keys, 0)
      requires PathRows(H, t, keys, siblings, n) && FoundIs(H, found, End(t, keys), n) && !End(t, keys).Node?
      requires n <= |siblings| && OnPath(t, keys, n)
      modifies stateManager, db`rows
      ensures Working(c)
      ensures Dependable(c) ==>
        (zkr == ZKR_SUCCESS <==> (value == 0 ==> SiblingReads(H, t, key) <= View(old(Now()), c).Keys))
      ensures zkr == ZKR_SUCCESS ==>
        Applied(c, t, key, value, old(Now()), Now(), mode, rows, top, oldValue, ins, hashes)
      ensures zkr != ZKR_SUCCESS ==> Keeps(H, c, old(Now()), Now())
    {
      hide Keeps;
      hide Applied, Working, View, SiblingReads, PathRows, FoundIs, KeyBits, End, Depth, OnPath, Canonical;
      if value != 0 {
        zkr, mode, rows, top, oldValue, ins, hashes := ApplyValue(c, keys, siblings, n, key, value, found, t);
      } else {
        zkr, mode, rows, top, oldValue, ins, hashes := ApplyZero(c, keys, siblings, n, key, found, oldRoot, t);
      }
    }

    lemma WorkingIsValid(c: Target)
      requires Working(c)
      ensures stateManager.Valid()
    {
    }

    /** Open a sub-state; the source ignores the outcome. */
    method BeginSet(c: Target, oldRoot: Quad)
      requires stateManager.Valid()
      modifies stateManager
      ensures Working(c) && BeginsAt(c, oldRoot, old(Now()), Now())
      ensures stateManager.Valid()
    {
      if c.useStateManager {
        var zkr := stateManager.SetStateRoot(c.uuid, c.tx, Root(oldRoot), true, c.p);
      }
    }

    /** Give the sub-state its new root, or without a state manager the database its state root. */
    method EndSet(c: Target, oldRoot: Quad, newRoot: Quad) returns (zkr: ZkResult)
      requires Working(c)
      modifies stateManager, db`stateRoot
      ensures Working(c) && EndsAt(c, newRoot, old(Now()), Now())
      ensures stateManager.Valid()
      ensures Dependable(c) ==> zkr == ZKR_SUCCESS
      ensures zkr == ZKR_SUCCESS ==>
        db.stateRoot == RootAfter(c, oldRoot, newRoot, old(db.stateRoot))
    {
      zkr := ZKR_SUCCESS;
      if c.useStateManager {
        var ignored := stateManager.SetStateRoot(c.uuid, c.tx, Root(newRoot), false, c.p);
      } else if c.p == PERSISTENCE_DATABASE && oldRoot != newRoot {
        zkr := db.UpdateStateRoot(Root(newRoot));
      }
    }

    /** The climb and the new state root. */
    method FinishSet(c: Target, oldRoot: Quad, keys: seq<bool>, rows: seq<Row>, top: Quad, ghost s0: Snapshot,
        ghost s1: Snapshot, ghost w1: set<Quad>, ghost d1: seq<Quad>, ghost w: set<Quad>, ghost d: seq<Quad>)
      returns (zkr: ZkResult, newRoot: Quad, siblings: seq<Row>)
      requires Working(c) && |rows| <= |keys|
      requires HonestStore(H, s0, c) && BeginsAt(c, oldRoot, s0, s1) && Saved(H, c, s1, Now(), w1, d1)
      requires w == w1 + RebuiltHashes(H, rows, keys, 0) && d == d1 + RebuiltDead(H, rows, keys, 0)
      modifies stateManager, db
      ensures stateManager.Valid()
      ensures Dependable(c) ==> zkr == ZKR_SUCCESS
      ensures zkr == ZKR_SUCCESS ==>
        && newRoot == (if rows == [] then top else H(Rebuilt(H, rows, keys, 0)))
        && |siblings| == |rows| && (forall i :: 0 <= i < |rows| ==> siblings[i] == Rebuilt(H, rows, keys, i))
        && SetRecorded(H, c, oldRoot, newRoot, s0, Now(), w, d)
        && db.stateRoot == RootAfter(c, oldRoot, newRoot, old(db.stateRoot))
      ensures zkr != ZKR_SUCCESS ==> Keeps(H, c, s0, Now())
    {
      hide Keeps;
      hide Saved, HonestStore, BeginsAt, EndsAt, SetRecorded, Working, Rebuilt, RebuiltHashes, RebuiltDead;
      ghost var s2 := Now();
      SavedKeeps(H, c, s1, s2, w1, d1);
      BeginKeepsView(H, c, oldRoot, s0, s1);
      zkr, newRoot, siblings := ClimbLoop(c, keys, rows, top);
      WorkingIsValid(c);
      if zkr != ZKR_SUCCESS {
        KeepsTwice(H, c, s1, s2, Now());
        KeepsTwice(H, c, s0, s1, Now());
        return;
      }
      SavedTwice(H, c, s1, s2, Now(), w1, d1, RebuiltHashes(H, rows, keys, 0), RebuiltDead(H, rows, keys, 0), w, d);
      ghost var s3 := Now();
      zkr := EndSet(c, oldRoot, newRoot);
      EndKeeps(H, c, newRoot, s3, Now());
      SavedKeeps(H, c, s1, s3, w, d);
      KeepsTwice(H, c, s1, s3, Now());
      KeepsTwice(H, c, s0, s1, Now());
      Recording(H, c, oldRoot, newRoot, s0, s1, s3, Now(), w, d);
    }

    /** The hashes of the walk: its rows, and the value of a leaf it ended at. */
    method CountWalk(oldRoot: Quad, siblings: seq<Row>, level: nat, found: Option<Found>, ghost t: Tree,
        ghost keys: seq<bool>)
      returns (hashes: nat)
      requires Represents(H, oldRoot, t) && level == Depth(t, keys, 0) && OnPath(t, keys, level) && level <= |siblings|
      requires FoundIs(H, found, End(t, keys), level)
      ensures hashes == level + if End(t, keys).Leaf? then 2 else 0
    {
      hide WellFormed;
      EndIsSound(H, oldRoot, t, keys);
      hashes := 0;
      if oldRoot != ZERO {
        hashes := Min(|siblings|, level);
        if found.Some? && found.value.value != 0 { hashes := hashes + 2; }
      }
    }

    /** `set`: walk down, apply one of the seven modes, climb back up. */
    method Set(c: Target, oldRoot: Quad, key: Quad, value: nat, ghost t: Tree) returns (zkr: ZkResult, r: SetResult)
      requires stateManager.Valid() && HonestStore(H, Now(), c) && Represents(H, oldRoot, t)
      requires Canonical(key) && value < VALUE_LIMIT
      modifies stateManager, db
      ensures stateManager.Valid()
      // unless the database fails, it fails exactly when a row it needs is missing
      ensures OnPath(t, KeyBits(key), Depth(t, KeyBits(key), 0))
      ensures Dependable(c) ==> (zkr == ZKR_SUCCESS <==> SetReads(H, t, key, value) <= View(old(Now()), c).Keys)
      // the result
      ensures zkr == ZKR_SUCCESS ==>
        && r.newRoot == HashOf(H, Put(t, key, value, 0), 0)
        && r.mode == ModeOf(t, key, value)
        && r.oldValue == Value(Entries(t), key)
        && r.inserted == Displaced(t, key, value)
        && |r.siblings| == CutDepth(t, key, value)
        && PathRows(H, Put(t, key, value, 0), KeyBits(key), r.siblings, |r.siblings|)
        && r.proofHashCounter == SetHashes(t, key, value)
      // the store
      ensures zkr == ZKR_SUCCESS ==>
        SetRecorded(H, c, oldRoot, r.newRoot, old(Now()), Now(), SetWrites(H, t, key, value),
            SetDeletes(H, t, key, value))
      ensures zkr == ZKR_SUCCESS ==>
        db.stateRoot == RootAfter(c, oldRoot, r.newRoot, old(db.stateRoot))
      // a failed call
      ensures zkr != ZKR_SUCCESS ==> Keeps(H, c, old(Now()), Now())
    {
      hide Keeps;
      hide Saved, HonestStore, View, CutRows, PathRows, Rebuilt, RebuiltHashes, RebuiltDead, SetWrites, SetDeletes;
      hide LeafWrites, LeafDeletes, CutDepth, Replacement, ModeOf, Displaced, WellFormed, WalkReads, SiblingReads;
      hide BeginsAt, EndsAt, FoundIs, HashOf, Put, Climb, KeyBits, Working, SetRecorded, Depth, End, OnPath, PathHashes,
        Replaced, Entries, Lookup;
      hide ModeHashes, Reach;
      r := SetResult(oldRoot, ZeroToZero, 0, None, [], 0);
      EndOfWalk(t, key);
      LookupIsEntry(t, [], key) by { assert KeyBits(key)[..0] == []; }
      LeafAndClimb(H, t, key, value);
      ghost var s0 := Now();
      BeginSet(c, oldRoot);
      ghost var s1 := Now();
      BeginKeepsView(H, c, oldRoot, s0, s1);
      var bits := SplitKey(key);
      var keys := bits[..];
      var level, siblings, found;
      zkr, level, siblings, found := Descend(c, oldRoot, keys, t);
      assert WalkReads(H, t, keys) <= SetReads(H, t, key, value);
      if zkr != ZKR_SUCCESS { return; }
      PathRowsLength(H, t, keys, siblings, level);
      var proofHashCounter := CountWalk(oldRoot, siblings, level, found, t, keys);
      var mode, rows, top, oldValue, inserted, hashes;
      zkr, mode, rows, top, oldValue, inserted, hashes :=
          ApplyMode(c, keys, siblings, level, key, value, found, oldRoot, t);
      WorkingIsValid(c);
      if zkr != ZKR_SUCCESS {
        KeepsTwice(H, c, s0, s1, Now());
        return;
      }
      CutRowsLength(H, t, keys, rows, Replacement(t, key, value));
      ClimbsToPut(H, t, key, value, keys, rows, top);
      var newRoot;
      zkr, newRoot, siblings := FinishSet(c, oldRoot, keys, rows, top, s0, s1, LeafWrites(H, t, key, value),
          LeafDeletes(H, t, key, value),
        SetWrites(H, t, key, value), SetDeletes(H, t, key, value));
      if zkr != ZKR_SUCCESS { return; }
      RebuiltPath(H, t, key, value, rows, siblings);
      proofHashCounter := proofHashCounter + hashes + |rows|;
      r := SetResult(newRoot, mode, oldValue, inserted, siblings, proofHashCounter);
    }
  }
}
