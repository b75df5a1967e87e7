/** Whole runs: what a `set` means for every later `get`, and whether a purging flush can lose a node
    that the final root still reaches. */
module SmtRun {
  import opened Results
  import opened SmtKeys
  import opened SmtTree
  import opened SmtPath
  import opened SubStates
  import opened StateManagers
  import opened Smts

  // ---------------------------------------------------------------- set refines map update

  /** All rows of the tree can be read. */
  ghost predicate Readable(H: Hasher, s: Snapshot, c: Target, t: Tree) {
    Reach(H, t, 0) <= View(s, c).Keys
  }

  /** The rows a call saves can be read afterwards. */
  predicate KeepsRows(c: Target) {
    c.useStateManager || c.p == PERSISTENCE_DATABASE
  }

  /** `set` is map update: the new root stands for the updated map, every key included, is readable
      in full, and every tree that was readable before still is. */
  lemma SetRefinesMapUpdate(H: Hasher, c: Target, oldRoot: Quad, newRoot: Quad, s0: Snapshot, s1: Snapshot, t: Tree,
      key: Quad, value: nat)
    requires Represents(H, oldRoot, t) && Canonical(key) && value < VALUE_LIMIT && KeepsRows(c)
    requires OnPath(t, KeyBits(key), Depth(t, KeyBits(key), 0))
    requires newRoot == HashOf(H, Put(t, key, value, 0), 0)
    requires SetRecorded(H, c, oldRoot, newRoot, s0, s1, SetWrites(H, t, key, value), SetDeletes(H, t, key, value))
    ensures Represents(H, newRoot, Put(t, key, value, 0)) && HonestStore(H, s1, c)
    ensures forall k :: Value(Entries(Put(t, key, value, 0)), k) == if k == key then value else Value(Entries(t), k)
    ensures Readable(H, s0, c, t) ==> Readable(H, s1, c, Put(t, key, value, 0))
    ensures forall u :: Readable(H, s0, c, u) ==> Readable(H, s1, c, u)
  {
    hide Put, KeyBits, SetDeletes, SetWrites, HashOf, WellFormed, OnPath, Depth, Entries, Reach;
    assert WellFormed(t, []) by { RepresentsWellFormed(H, oldRoot, t); }
    assert UnderPath(key, []);
    PutWellFormed(t, [], key, value);
    PutEntries(t, [], key, value);
    EntriesUnderPath(t, []);
    SetSavesNewRows(H, t, key, value);
  }

  /** A readable tree can be walked for any key, so `get` succeeds on it. */
  lemma ReadableIsWalkable(H: Hasher, s: Snapshot, c: Target, t: Tree, key: Quad)
    requires WellFormed(t, []) && Readable(H, s, c, t)
    ensures WalkReads(H, t, KeyBits(key)) <= View(s, c).Keys
  {
    EndOfWalk(t, key);
    WalkReadsReachable(H, t, KeyBits(key));
  }

  /** A `set` followed by a `get` at the new root and one at the old root: the first finds the updated
      map, the second still finds the map as it was. */
  method SetThenGet(smt: Smt, c: Target, oldRoot: Quad, key: Quad, value: nat, k: Quad, ghost t: Tree)
    returns (zkr: ZkResult, root: Quad, now: nat, before: nat)
    requires smt.stateManager.Valid() && HonestStore(smt.H, smt.Now(), c) && Represents(smt.H, oldRoot, t)
    requires Canonical(key) && Canonical(k) && value < VALUE_LIMIT
    requires KeepsRows(c) && Readable(smt.H, smt.Now(), c, t)
    modifies smt.stateManager, smt.db
    ensures smt.Dependable(c) ==> zkr == ZKR_SUCCESS
    ensures zkr == ZKR_SUCCESS ==> now == (if k == key then value else Value(Entries(t), k))
    ensures zkr == ZKR_SUCCESS ==> before == Value(Entries(t), k)
    ensures zkr == ZKR_SUCCESS ==> Represents(smt.H, root, Put(t, key, value, 0))
    ensures zkr == ZKR_SUCCESS && (c.useStateManager || root == oldRoot) ==> smt.db.stateRoot == old(smt.db.stateRoot)
    ensures zkr == ZKR_SUCCESS && !c.useStateManager && root != oldRoot ==> smt.db.stateRoot == Root(root)
  {
    hide HonestStore, Represents, Readable, Canonical, SetRecorded, SetReads, WalkReads, Value, Entries, Put, OnPath,
      Depth, HashOf;
    root, now, before := ZERO, 0, 0;
    assert WellFormed(t, []) by { RepresentsWellFormed(smt.H, oldRoot, t); }
    ghost var s0, t' := smt.Now(), Put(t, key, value, 0);
    ReadableIsSettable(smt.H, s0, c, t, key, value);
    var r;
    zkr, r := smt.Set(c, oldRoot, key, value, t);
    if zkr != ZKR_SUCCESS { return; }
    SetRefinesMapUpdate(smt.H, c, oldRoot, r.newRoot, s0, smt.Now(), t, key, value);
    assert WellFormed(t', []) by { RepresentsWellFormed(smt.H, r.newRoot, t'); }
    ReadableIsWalkable(smt.H, smt.Now(), c, t', k);
    ReadableIsWalkable(smt.H, smt.Now(), c, t, k);
    root := r.newRoot;
    var code, found := smt.Get(c, r.newRoot, k, t');
    now := found.value;
    code, found := smt.Get(c, oldRoot, k, t);
    before := found.value;
  }

  lemma RepresentsWellFormed(H: Hasher, root: Quad, t: Tree)
    requires Represents(H, root, t)
    ensures WellFormed(t, [])
  {
  }

  // ---------------------------------------------------------------- steps of a transaction

  /** Sub-state `s` is what `set(key, value)` on tree `t` records. */
  ghost predicate SetStep(H: Hasher, s: TxSubState, t: Tree, key: Quad, value: nat) {
    && WellFormed(t, []) && Canonical(key) && value < VALUE_LIMIT
    && OnPath(t, KeyBits(key), Depth(t, KeyBits(key), 0))
    && s.oldStateRoot == Root(HashOf(H, t, 0))
    && s.newStateRoot == Root(HashOf(H, Put(t, key, value, 0), 0))
    && s.dbWrite.Keys == SetWrites(H, t, key, value) && Honest(H, s.dbWrite)
    && s.dbDelete == SetDeletes(H, t, key, value)
  }

  ghost predicate IsSetStep(H: Hasher, s: TxSubState) {
    exists t, key, value :: SetStep(H, s, t, key, value)
  }

  /** Every sub-state was recorded by some `set`. */
  ghost predicate AllSetSteps(H: Hasher, subs: seq<TxSubState>) {
    forall i :: 0 <= i < |subs| ==> IsSetStep(H, subs[i])
  }

  // ---------------------------------------------------------------- runs of set calls

  /** One `set` of a run: it starts from root number `from` of those the run has reached so far. */
  datatype Op = Op(from: nat, key: Quad, value: nat)

  predicate ValidOps(ops: seq<Op>) {
    forall i :: 0 <= i < |ops| ==> ops[i].from <= i && Canonical(ops[i].key) && ops[i].value < VALUE_LIMIT
  }

  /** The starting tree and the tree after each call. */
  function Trees(t0: Tree, ops: seq<Op>): (ts: seq<Tree>)
    requires ValidOps(ops)
    ensures |ts| == |ops| + 1
  {
    if ops == [] then [t0]
    else
      var n := |ops| - 1;
      var ts := Trees(t0, ops[..n]);
      ts + [Put(ts[ops[n].from], ops[n].key, ops[n].value, 0)]
  }

  /** The number below `i`; a first sub-state counts as its own predecessor. */
  function Before(i: nat): nat {
    if i == 0 then 0 else i - 1
  }

  /** The record of a run: one unmarked sub-state per call, opened on top of the one before it, from the
      root it started at to the one it led to; the record's own roots are those of the whole run. */
  ghost predicate RunRecord(H: Hasher, ps: TxPersistenceState, ts: seq<Tree>, ops: seq<Op>) {
    && ValidOps(ops) && |ts| == |ops| + 1 && |ps.subState| == |ops| && Ready(ps)
    && ps.currentSubState == Before(|ops|)
    && (forall i :: 0 <= i < |ops| ==>
      StepOf(H, ps.subState[i], ts[ops[i].from], ops[i]) && ps.subState[i].previousSubState == Before(i))
    && (ops != [] ==> ps.oldStateRoot == Root(HashOf(H, ts[0], 0)) && ps.newStateRoot == Root(HashOf(H, ts[|ops|], 0)))
  }

  ghost predicate StepOf(H: Hasher, s: TxSubState, t: Tree, op: Op) {
    !s.bValid && SetStep(H, s, t, op.key, op.value)
  }

  /** Every call of a run appends exactly one sub-state, its own. */
  lemma SetAddsStep(H: Hasher, c: Target, oldRoot: Quad, newRoot: Quad, s0: Snapshot, s1: Snapshot, ts: seq<Tree>,
      ops: seq<Op>, op: Op)
    requires c.useStateManager && RunRecord(H, Rec(s0, c), ts, ops)
    requires op.from <= |ops| && Canonical(op.key) && op.value < VALUE_LIMIT
    requires var t := ts[op.from];
      && Represents(H, oldRoot, t) && OnPath(t, KeyBits(op.key), Depth(t, KeyBits(op.key), 0))
      && newRoot == HashOf(H, Put(t, op.key, op.value, 0), 0)
      && SetRecorded(H, c, oldRoot, newRoot, s0, s1, SetWrites(H, t, op.key, op.value),
        SetDeletes(H, t, op.key, op.value))
    ensures RunRecord(H, Rec(s1, c), ts + [Put(ts[op.from], op.key, op.value, 0)], ops + [op])
  {
    hide SetWrites, SetDeletes, SetRecorded, SetStep, Put, KeyBits, OnPath, HashOf, Canonical;
    RepresentsRoot(H, oldRoot, ts[op.from]);
    hide Represents;
    RecordsStep(H, c, oldRoot, newRoot, s0, s1, ts[op.from], op.key, op.value);
    var before, subs, more := Rec(s0, c).subState, Rec(s1, c).subState, ops + [op];
    var ts' := ts + [Put(ts[op.from], op.key, op.value, 0)];
    forall i | 0 <= i < |more|
      ensures StepOf(H, subs[i], ts'[more[i].from], more[i]) && subs[i].previousSubState == Before(i)
    {
      if i < |ops| { assert subs[i] == before[i] && more[i] == ops[i] && ts'[more[i].from] == ts[ops[i].from]; }
    }
  }

  lemma RepresentsRoot(H: Hasher, root: Quad, t: Tree)
    requires Represents(H, root, t)
    ensures root == HashOf(H, t, 0)
  {
  }

  lemma RecordsStep(H: Hasher, c: Target, oldRoot: Quad, newRoot: Quad, s0: Snapshot, s1: Snapshot, t: Tree, key: Quad,
      value: nat)
    requires c.useStateManager && Ready(Rec(s0, c))
    requires Represents(H, oldRoot, t) && Canonical(key) && value < VALUE_LIMIT
    requires OnPath(t, KeyBits(key), Depth(t, KeyBits(key), 0))
    requires newRoot == HashOf(H, Put(t, key, value, 0), 0)
    requires SetRecorded(H, c, oldRoot, newRoot, s0, s1, SetWrites(H, t, key, value), SetDeletes(H, t, key, value))
    ensures Ready(Rec(s1, c)) && |Rec(s1, c).subState| > 0
    ensures Rec(s1, c).subState == Rec(s0, c).subState + [Last(Rec(s1, c))]
    ensures Rec(s1, c).currentSubState == |Rec(s0, c).subState|
    ensures Last(Rec(s1, c)).previousSubState == Rec(s0, c).currentSubState
    ensures Rec(s1, c).oldStateRoot == if |Rec(s0, c).subState| == 0 then Root(oldRoot) else Rec(s0, c).oldStateRoot
    ensures Rec(s1, c).newStateRoot == Root(newRoot)
    ensures SetStep(H, Last(Rec(s1, c)), t, key, value) && !Last(Rec(s1, c)).bValid
  {
    hide SetWrites, SetDeletes, SetRecorded, Put, HashOf, Honest, WellFormed, KeyBits, OnPath;
    SubStateOfSet(H, c, oldRoot, newRoot, s0, s1, SetWrites(H, t, key, value), SetDeletes(H, t, key, value));
  }

  /** A `set` on a tree that is readable in full finds every row it needs. */
  lemma ReadableIsSettable(H: Hasher, s: Snapshot, c: Target, t: Tree, key: Quad, value: nat)
    requires WellFormed(t, []) && Readable(H, s, c, t)
    ensures OnPath(t, KeyBits(key), Depth(t, KeyBits(key), 0))
    ensures SetReads(H, t, key, value) <= View(s, c).Keys
  {
    EndOfWalk(t, key);
    WalkReadsReachable(H, t, KeyBits(key));
    if value == 0 { SiblingReadsReachable(H, t, key); }
  }

  lemma SiblingReadsReachable(H: Hasher, t: Tree, key: Quad)
    requires WellFormed(t, []) && OnPath(t, KeyBits(key), Depth(t, KeyBits(key), 0))
    ensures SiblingReads(H, t, key) <= Reach(H, t, 0)
  {
    var bits := KeyBits(key);
    var n := Depth(t, bits, 0);
    if n > 0 && End(t, bits).Leaf? && End(t, bits).key == key {
      DeleteCases(H, t, key);
      DownReach(H, t, bits, n - 1);
      ChildReach(H, Down(t, bits, n - 1), !bits[n - 1], n - 1);
    }
  }

  /** A run of `set` calls of one transaction, each from the starting root or any root reached since.
      No call fails; every root stands for its tree, and every tree of the run can be read in full. */
  method Run(smt: Smt, c: Target, root0: Quad, ops: seq<Op>, ghost t0: Tree) returns (roots: seq<Quad>)
    requires smt.stateManager.Valid() && HonestStore(smt.H, smt.Now(), c) && Represents(smt.H, root0, t0)
    requires c.useStateManager && |Rec(smt.Now(), c).subState| == 0 && ValidOps(ops)
    requires Readable(smt.H, smt.Now(), c, t0)
    modifies smt.stateManager, smt.db
    ensures smt.stateManager.Valid() && HonestStore(smt.H, smt.Now(), c)
    ensures |roots| == |ops| + 1
    ensures forall i :: 0 <= i < |roots| ==>
      Represents(smt.H, roots[i], Trees(t0, ops)[i]) && Readable(smt.H, smt.Now(), c, Trees(t0, ops)[i])
    ensures RunRecord(smt.H, Rec(smt.Now(), c), Trees(t0, ops), ops)
    ensures smt.db.rows == old(smt.db.rows) && smt.db.stateRoot == old(smt.db.stateRoot)
    ensures OthersUnchanged(old(smt.stateManager.state), smt.stateManager.state, c.uuid, c.tx, c.p)
  {
    hide HonestStore, Represents, Readable, Canonical, SetRecorded, SetReads, Put, OnPath, Depth, HashOf, RunRecord,
      OthersUnchanged;
    roots := [root0];
    ghost var s0 := smt.Now();
    RecIsValid(smt.stateManager, c);
    StartOfRun(smt.H, Rec(s0, c), t0);
    OthersSame(s0.state, c.uuid, c.tx, c.p);
    assert ops[..0] == [];
    for i := 0 to |ops|
      invariant smt.stateManager.Valid() && HonestStore(smt.H, smt.Now(), c)
      invariant |roots| == i + 1 && ValidOps(ops[..i])
      invariant forall j :: 0 <= j <= i ==>
        Represents(smt.H, roots[j], Trees(t0, ops[..i])[j]) && Readable(smt.H, smt.Now(), c, Trees(t0, ops[..i])[j])
      invariant RunRecord(smt.H, Rec(smt.Now(), c), Trees(t0, ops[..i]), ops[..i])
      invariant smt.db.rows == s0.rows && smt.db.stateRoot == old(smt.db.stateRoot)
      invariant OthersUnchanged(s0.state, smt.stateManager.state, c.uuid, c.tx, c.p)
    {
      ghost var ts := Trees(t0, ops[..i]);
      TreesNext(t0, ops, i);
      var newRoot := RunStep(smt, c, roots[ops[i].from], ops[i], ts, ops[..i], s0);
      assert ops[..i + 1] == ops[..i] + [ops[i]];
      roots := roots + [newRoot];
    }
    assert ops[..|ops|] == ops;
  }

  /** One call of a run. */
  method RunStep(smt: Smt, c: Target, oldRoot: Quad, op: Op, ghost ts: seq<Tree>, ghost ops: seq<Op>,
      ghost s0: Snapshot)
    returns (newRoot: Quad)
    requires smt.stateManager.Valid() && HonestStore(smt.H, smt.Now(), c) && c.useStateManager
    requires RunRecord(smt.H, Rec(smt.Now(), c), ts, ops) && |ts| == |ops| + 1
    requires op.from <= |ops| && Canonical(op.key) && op.value < VALUE_LIMIT
    requires Represents(smt.H, oldRoot, ts[op.from]) && Readable(smt.H, smt.Now(), c, ts[op.from])
    requires smt.db.rows == s0.rows && OthersUnchanged(s0.state, smt.stateManager.state, c.uuid, c.tx, c.p)
    modifies smt.stateManager, smt.db
    ensures smt.stateManager.Valid() && HonestStore(smt.H, smt.Now(), c)
    ensures var t' := Put(ts[op.from], op.key, op.value, 0);
      && Represents(smt.H, newRoot, t') && Readable(smt.H, smt.Now(), c, t')
      && RunRecord(smt.H, Rec(smt.Now(), c), ts + [t'], ops + [op])
    ensures forall u :: Readable(smt.H, old(smt.Now()), c, u) ==> Readable(smt.H, smt.Now(), c, u)
    ensures smt.db.rows == s0.rows && smt.db.stateRoot == old(smt.db.stateRoot)
    ensures OthersUnchanged(s0.state, smt.stateManager.state, c.uuid, c.tx, c.p)
  {
    hide HonestStore, Represents, Readable, Canonical, SetReads, Put, OnPath, Depth, HashOf, RunRecord, OthersUnchanged,
      SetWrites, SetDeletes, View, Value, Entries, KeyBits;
    ghost var t, before := ts[op.from], smt.Now();
    assert WellFormed(t, []) by { RepresentsWellFormed(smt.H, oldRoot, t); }
    ReadableIsSettable(smt.H, before, c, t, op.key, op.value);
    var zkr, r := smt.Set(c, oldRoot, op.key, op.value, t);
    SetRefinesMapUpdate(smt.H, c, oldRoot, r.newRoot, before, smt.Now(), t, op.key, op.value);
    SetAddsStep(smt.H, c, oldRoot, r.newRoot, before, smt.Now(), ts, ops, op);
    OthersUnchangedTwice(s0.state, before.state, smt.Now().state, c.uuid, c.tx, c.p);
    newRoot := r.newRoot;
  }

  lemma TreesNext(t0: Tree, ops: seq<Op>, i: nat)
    requires ValidOps(ops) && i < |ops|
    ensures var ts := Trees(t0, ops[..i]); var op := ops[i];
      && op.from <= i && Canonical(op.key) && op.value < VALUE_LIMIT
      && Trees(t0, ops[..i + 1]) == ts + [Put(ts[op.from], op.key, op.value, 0)]
  {
    hide Put, Canonical;
    assert ops[..i + 1][..i] == ops[..i];
  }

  lemma StartOfRun(H: Hasher, ps: TxPersistenceState, t0: Tree)
    requires |ps.subState| == 0 && PersistenceValid(ps)
    ensures RunRecord(H, ps, Trees(t0, []), [])
  {
  }

  lemma RecIsValid(sm: StateManager, c: Target)
    requires sm.Valid()
    ensures PersistenceValid(Record(sm.state, c.uuid, c.tx, c.p))
  {
    if HasTx(sm.state, c.uuid, c.tx) { RecordValid(sm.state, c.uuid, c.tx, c.p); }
  }

  lemma OthersSame(s: States, uuid: string, tx: nat, p: nat)
    ensures OthersUnchanged(s, s, uuid, tx, p)
  {
  }
}
