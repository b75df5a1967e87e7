/** Whether a purging flush can lose a node that the final root still reaches: exactly when, for one
    transaction and for a batch, and for runs of `set` calls on the classes themselves. */
module SmtFlush {
  import opened Bits
  import opened Results
  import opened SmtKeys
  import opened SmtTree
  import opened SmtPath
  import opened SubStates
  import opened StateManagers
  import opened Smts
  import opened SmtMeaning
  import opened SmtRun
  import opened SmtWalk

  // ---------------------------------------------------------------- the exact condition

  /** A sub-state from `i` on wrote the key. */
  predicate WrittenFrom(subs: seq<TxSubState>, i: nat, key: Quad) {
    exists j :: i <= j < |subs| && key in subs[j].dbWrite
  }

  /** Every node in `live` that a sub-state reports dead was stored before, or is written by that
      sub-state or a later one. */
  ghost predicate DeletesHarmless(subs: seq<TxSubState>, live: set<Quad>, stored: set<Quad>) {
    forall i, d :: 0 <= i < |subs| && d in subs[i].dbDelete && d in live ==> d in stored || WrittenFrom(subs, i, d)
  }

  /** The last sub-state that wrote the key. */
  lemma {:induction false} LastWrite(subs: seq<TxSubState>, n: nat, key: Quad) returns (i: nat)
    requires n <= |subs| && exists j :: 0 <= j < n && key in subs[j].dbWrite
    ensures i < n && key in subs[i].dbWrite && forall j :: i < j < n ==> key !in subs[j].dbWrite
  {
    if key in subs[n - 1].dbWrite { return n - 1; }
    i := LastWrite(subs, n - 1, key);
  }

  /** A key is pushed iff it was written and every deletion of it has a write at or after it. */
  lemma PushedIff(subs: seq<TxSubState>, key: Quad)
    ensures Pushed(subs, key) <==>
            WrittenFrom(subs, 0, key) && forall i :: 0 <= i < |subs| && key in subs[i].dbDelete ==>
                WrittenFrom(subs, i, key)
  {
    if WrittenFrom(subs, 0, key) && forall i :: 0 <= i < |subs| && key in subs[i].dbDelete ==>
        WrittenFrom(subs, i, key) {
      var i := LastWrite(subs, |subs|, key);
      assert !DeletedAfter(subs, i, key);
    }
  }

  /** The tree before the last step: a node the result reaches was saved by the step or reached before. */
  lemma BeforeStep(H: Hasher, s: TxSubState, tn: Tree, h: Quad) returns (t: Tree)
    requires CollisionFree(H) && WellFormed(tn, []) && IsSetStep(H, s)
    requires s.newStateRoot == Root(HashOf(H, tn, 0)) && h in Reach(H, tn, 0)
    ensures WellFormed(t, []) && s.oldStateRoot == Root(HashOf(H, t, 0))
    ensures h in s.dbWrite || h in Reach(H, t, 0)
  {
    hide HashOf, KeyBits, SetDeletes, Put;
    var t', key, value :| SetStep(H, s, t', key, value);
    t := t';
    PutWellFormed(t, [], key, value);
    HashUnique(H, Put(t, key, value, 0), tn, []);
    SetSavesNewRows(H, t, key, value);
  }

  /** Every node of the last tree of a chain is in the first tree or was written on the way. */
  lemma {:induction false} ChainWritesNodes(H: Hasher, subs: seq<TxSubState>, t0: Tree, tn: Tree, h: Quad)
    requires CollisionFree(H) && WellFormed(t0, []) && WellFormed(tn, []) && AllSetSteps(H, subs)
    requires Leads(subs, Root(HashOf(H, t0, 0)), Root(HashOf(H, tn, 0))) && h in Reach(H, tn, 0)
    ensures h in Reach(H, t0, 0) || WrittenFrom(subs, 0, h)
  {
    if subs == [] {
      HashUnique(H, t0, tn, []);
    } else {
      hide HashOf, WellFormed, Reach, IsSetStep;
      var n := |subs| - 1;
      var t := BeforeStep(H, subs[n], tn, h);
      if h !in subs[n].dbWrite { ChainWritesNodes(H, subs[..n], t0, t, h); }
    }
  }

  lemma SurvivorsAreSteps(H: Hasher, ps: TxPersistenceState)
    requires Consistent(ps) && AllSetSteps(H, ps.subState)
    ensures AllSetSteps(H, FlushedFrom(ps, true))
  {
    forall i | 0 <= i < |FlushedFrom(ps, true)| ensures IsSetStep(H, FlushedFrom(ps, true)[i]) {
      var j := SurvivorIndex(ps, i);
      hide Consistent, FlushedFrom, SetStep;
      assert IsSetStep(H, ps.subState[j]);
      var t, key, value :| SetStep(H, ps.subState[j], t, key, value);
      MarkedStep(H, ps.subState[j], t, key, value);
    }
  }

  /** The record of a transaction that leads from `t0` to `tn` by `set` calls and was not flushed yet. */
  ghost predicate TxLeads(H: Hasher, ps: TxPersistenceState, t0: Tree, tn: Tree) {
    if |ps.subState| == 0 then t0 == tn
    else
      && AllSetSteps(H, ps.subState) && (forall i :: 0 <= i < |ps.subState| ==> !ps.subState[i].bValid)
      && ps.oldStateRoot == Root(HashOf(H, t0, 0)) && ps.newStateRoot == Root(HashOf(H, tn, 0))
  }

  /** Exactly when the first purging flush of a transaction loses no node the final root reaches. */
  lemma FlushKeepsLiveNodesIff(H: Hasher, ps: TxPersistenceState, pushed: map<Quad, Row>, t0: Tree, tn: Tree,
      stored: map<Quad, Row>)
    requires CollisionFree(H) && WellFormed(t0, []) && WellFormed(tn, []) && TxLeads(H, ps, t0, tn)
    requires Consistent(ps) && IsFlushed(ps, true, pushed) && Reach(H, t0, 0) <= stored.Keys
    ensures Reach(H, tn, 0) <= (pushed + stored).Keys <==>
      DeletesHarmless(FlushedFrom(ps, true), Reach(H, tn, 0), stored.Keys)
  {
    if |ps.subState| > 0 {
      SurvivingChainUnbroken(ps);
      SurvivorsAreSteps(H, ps);
      var subs := FlushedFrom(ps, true);
      hide Reach, HashOf, WellFormed, Consistent, FlushedFrom, IsFlushed, Leads, AllSetSteps, Pushed;
      forall h | h in Reach(H, tn, 0)
        ensures h in pushed || h in stored <==>
                h in stored || forall i :: 0 <= i < |subs| && h in subs[i].dbDelete ==> WrittenFrom(subs, i, h)
      {
        ChainWritesNodes(H, subs, t0, tn, h);
        FlushedExact(ps, pushed, h);
        PushedIff(subs, h);
      }
    }
  }

  /** A flush that does not purge loses nothing. */
  lemma FlushWithoutPurgeKeepsLiveNodes(H: Hasher, ps: TxPersistenceState, pushed: map<Quad, Row>, t0: Tree, tn: Tree,
      stored: map<Quad, Row>)
    requires CollisionFree(H) && WellFormed(t0, []) && WellFormed(tn, []) && TxLeads(H, ps, t0, tn)
    requires Consistent(ps) && IsFlushed(ps, false, pushed) && Reach(H, t0, 0) <= stored.Keys
    ensures Reach(H, tn, 0) <= (pushed + stored).Keys
  {
    if |ps.subState| > 0 {
      SurvivingChainUnbroken(ps);
      SurvivorsAreSteps(H, ps);
      var subs, all := FlushedFrom(ps, true), FlushedFrom(ps, false);
      assert subs == Survivors(all) && pushed == AllWrites(all);
      hide Reach, HashOf, WellFormed, Consistent, FlushedFrom, IsFlushed, Leads, AllSetSteps, Survivors, AllWrites,
        TxLeads;
      forall h | h in Reach(H, tn, 0) ensures h in pushed || h in stored {
        ChainWritesNodes(H, subs, t0, tn, h);
        AllWritesKeys(all, h);
        if h !in stored {
          var i :| 0 <= i < |subs| && h in subs[i].dbWrite;
          SurvivorsExactly(all, subs[i]);
        }
      }
    }
  }

  // ---------------------------------------------------------------- clean steps

  /** The step reports no node dead that its own result still reaches. */
  ghost predicate CleanStep(H: Hasher, s: TxSubState) {
    exists t, key, value :: SetStep(H, s, t, key, value)
      && forall d :: d in s.dbDelete ==> d !in Reach(H, Put(t, key, value, 0), 0)
  }

  lemma CleanResult(H: Hasher, s: TxSubState, tn: Tree, d: Quad)
    requires CollisionFree(H) && WellFormed(tn, []) && CleanStep(H, s)
    requires s.newStateRoot == Root(HashOf(H, tn, 0)) && d in s.dbDelete
    ensures d !in Reach(H, tn, 0)
  {
    hide HashOf, KeyBits, SetDeletes, Put;
    var t, key, value :| SetStep(H, s, t, key, value)
      && forall d :: d in s.dbDelete ==> d !in Reach(H, Put(t, key, value, 0), 0);
    PutWellFormed(t, [], key, value);
    HashUnique(H, Put(t, key, value, 0), tn, []);
  }

  /** Along a chain of clean steps a node that was reported dead and is live again was written again. */
  lemma {:induction false} CleanChainHarmless(H: Hasher, subs: seq<TxSubState>, from: StateRoot, tn: Tree, i: nat,
      d: Quad)
    requires CollisionFree(H) && WellFormed(tn, []) && Leads(subs, from, Root(HashOf(H, tn, 0)))
    requires forall k :: 0 <= k < |subs| ==> CleanStep(H, subs[k])
    requires i < |subs| && d in subs[i].dbDelete && d in Reach(H, tn, 0)
    ensures WrittenFrom(subs, i, d)
  {
    hide HashOf, WellFormed, Reach, CleanStep, IsSetStep;
    var n := |subs| - 1;
    if i == n {
      CleanResult(H, subs[n], tn, d);
    } else if d !in subs[n].dbWrite {
      CleanIsSetStep(H, subs[n]);
      var t := BeforeStep(H, subs[n], tn, d);
      CleanChainHarmless(H, subs[..n], from, t, i, d);
    }
  }

  lemma CleanIsSetStep(H: Hasher, s: TxSubState)
    requires CleanStep(H, s)
    ensures IsSetStep(H, s)
  {
    hide SetStep;
  }

  /** The flush loses nothing if no surviving step reported a node dead that its own result still
      reached. */
  lemma FlushKeepsLiveNodes(H: Hasher, ps: TxPersistenceState, pushed: map<Quad, Row>, t0: Tree, tn: Tree,
      stored: map<Quad, Row>)
    requires CollisionFree(H) && WellFormed(t0, []) && WellFormed(tn, []) && TxLeads(H, ps, t0, tn)
    requires Consistent(ps) && IsFlushed(ps, true, pushed) && Reach(H, t0, 0) <= stored.Keys
    requires forall i :: 0 <= i < |FlushedFrom(ps, true)| ==> CleanStep(H, FlushedFrom(ps, true)[i])
    ensures Reach(H, tn, 0) <= (pushed + stored).Keys
  {
    FlushKeepsLiveNodesIff(H, ps, pushed, t0, tn, stored);
    if |ps.subState| > 0 {
      SurvivingChainUnbroken(ps);
      var subs := FlushedFrom(ps, true);
      forall i, d | 0 <= i < |subs| && d in subs[i].dbDelete && d in Reach(H, tn, 0) ensures WrittenFrom(subs, i, d) {
        CleanChainHarmless(H, subs, ps.oldStateRoot, tn, i, d);
      }
    }
  }

  // ---------------------------------------------------------------- one position per hash

  /** The hash a tree has at a position. */
  function HashAt(H: Hasher, t: Tree, path: seq<bool>): Quad {
    HashOf(H, Down(t, path, |path|), |path|)
  }

  /** No node hash of `t` occurs in `t'` at another position or as the hash of a value. */
  ghost predicate OnePosition(H: Hasher, t: Tree, t': Tree) {
    forall p :: HashAt(H, t, p) != ZERO ==>
      && (forall q :: HashAt(H, t', q) == HashAt(H, t, p) ==> q == p)
      && (forall v :: H(ValueRow(v)) != HashAt(H, t, p))
  }

  lemma {:induction false} DownPrefix(t: Tree, bits: seq<bool>, more: seq<bool>, i: nat)
    requires i <= |bits|
    ensures Down(t, bits + more, i) == Down(t, bits, i)
  {
    if i > 0 { DownPrefix(t, bits, more, i - 1); }
  }

  lemma {:induction false} ReachHasPosition(H: Hasher, t: Tree, p: seq<bool>, h: Quad)
    requires h in Reach(H, Down(t, p, |p|), |p|)
    ensures (exists q :: h == HashAt(H, t, q)) || (exists v :: h == H(ValueRow(v)))
    decreases Down(t, p, |p|)
  {
    hide HashOf, ValueRow;
    var u := Down(t, p, |p|);
    if h == HashOf(H, u, |p|) {
      assert h == HashAt(H, t, p);
    } else if u.Leaf? {
      assert h == H(ValueRow(u.value));
    } else {
      DownPrefix(t, p, [false], |p|);
      DownPrefix(t, p, [true], |p|);
      if h in Reach(H, u.left, |p| + 1) {
        ReachHasPosition(H, t, p + [false], h);
      } else {
        ReachHasPosition(H, t, p + [true], h);
      }
    }
  }

  /** A node reported dead stood on the old path, and another node or none took its place. */
  lemma DeletedPosition(H: Hasher, t: Tree, key: Quad, value: nat, d: Quad)
    requires CollisionFree(H) && WellFormed(t, []) && Canonical(key)
    requires OnPath(t, KeyBits(key), Depth(t, KeyBits(key), 0)) && d in SetDeletes(H, t, key, value)
    ensures exists i ::
      && 0 < i <= 256 && d != ZERO && d == HashOf(H, Down(t, KeyBits(key), i), i)
      && d != HashOf(H, Down(Put(t, key, value, 0), KeyBits(key), i), i)
  {
    hide Put, KeyBits, SetDeletes, HashOf, WellFormed, OnPath, Depth, Canonical;
    DeadExactly(H, t, key, value, d);
  }

  /** If no hash occurs at two positions of the old and the new tree, the step is clean. */
  lemma OnePositionIsClean(H: Hasher, s: TxSubState, t: Tree, key: Quad, value: nat)
    requires CollisionFree(H) && SetStep(H, s, t, key, value)
    requires OnePosition(H, t, Put(t, key, value, 0))
    ensures CleanStep(H, s)
  {
    hide Put, KeyBits, SetDeletes, SetWrites, HashOf, Reach, WellFormed, ValueRow, OnPath, Depth;
    var t', bits := Put(t, key, value, 0), KeyBits(key);
    forall d | d in s.dbDelete ensures d !in Reach(H, t', 0) {
      DeletedPosition(H, t, key, value, d);
      var i :| 0 < i <= 256 && d == HashOf(H, Down(t, bits, i), i) && d != HashOf(H, Down(t', bits, i), i) && d != ZERO;
      var p := bits[..i];
      assert bits == p + bits[i..];
      DownPrefix(t, p, bits[i..], i);
      DownPrefix(t', p, bits[i..], i);
      assert d == HashAt(H, t, p) && d != HashAt(H, t', p);
      if d in Reach(H, t', 0) {
        ReachHasPosition(H, t', [], d);
      }
    }
  }

  lemma MarkedStep(H: Hasher, s: TxSubState, t: Tree, key: Quad, value: nat)
    requires SetStep(H, s, t, key, value)
    ensures SetStep(H, s.(bValid := true), t, key, value)
  {
  }

  /** A survivor is a recorded sub-state, marked. */
  lemma SurvivorIndex(ps: TxPersistenceState, i: nat) returns (j: nat)
    requires Consistent(ps) && i < |FlushedFrom(ps, true)|
    ensures j < |ps.subState| && FlushedFrom(ps, true)[i] == ps.subState[j].(bValid := true)
  {
    var marked := MarkChain(ps.subState, Chain(ps.subState, ps.currentSubState).value);
    var s := FlushedFrom(ps, true)[i];
    SurvivorsExactly(marked, s);
    j :| 0 <= j < |marked| && s == marked[j];
  }

  /** No step of the run meets a hash at two positions. */
  ghost predicate OnePositions(H: Hasher, ts: seq<Tree>, ops: seq<Op>)
    requires ValidOps(ops) && |ts| == |ops| + 1
  {
    forall i :: 0 <= i < |ops| ==> OnePosition(H, ts[ops[i].from], Put(ts[ops[i].from], ops[i].key, ops[i].value, 0))
  }

  lemma RunLeads(H: Hasher, ps: TxPersistenceState, t0: Tree, ops: seq<Op>)
    requires WellFormed(t0, []) && ValidOps(ops) && RunRecord(H, ps, Trees(t0, ops), ops)
    ensures WellFormed(Trees(t0, ops)[|ops|], []) && TxLeads(H, ps, t0, Trees(t0, ops)[|ops|])
  {
    TreesWellFormed(t0, ops, |ops|);
    hide SetStep;
    forall i | 0 <= i < |ps.subState| ensures !ps.subState[i].bValid && IsSetStep(H, ps.subState[i]) {
      assert StepOf(H, ps.subState[i], Trees(t0, ops)[ops[i].from], ops[i]);
    }
  }

  /** In a run of `set` calls in which no hash occurs at two positions, the flush loses no live node. */
  lemma FlushOfRunKeepsLiveNodes(H: Hasher, ps: TxPersistenceState, pushed: map<Quad, Row>, t0: Tree, ops: seq<Op>,
      stored: map<Quad, Row>)
    requires CollisionFree(H) && WellFormed(t0, []) && ValidOps(ops)
    requires RunRecord(H, ps, Trees(t0, ops), ops) && OnePositions(H, Trees(t0, ops), ops)
    requires Consistent(ps) && IsFlushed(ps, true, pushed) && Reach(H, t0, 0) <= stored.Keys
    ensures Reach(H, Trees(t0, ops)[|ops|], 0) <= (pushed + stored).Keys
  {
    RunLeads(H, ps, t0, ops);
    forall i | 0 <= i < |FlushedFrom(ps, true)| ensures CleanStep(H, FlushedFrom(ps, true)[i]) {
      var j := SurvivorIndex(ps, i);
      hide Put, Consistent, FlushedFrom, IsFlushed, OnePosition, CleanStep, SetStep, Trees;
      var op, t := ops[j], Trees(t0, ops)[ops[j].from];
      assert StepOf(H, ps.subState[j], t, op);
      MarkedStep(H, ps.subState[j], t, op.key, op.value);
      OnePositionIsClean(H, ps.subState[j].(bValid := true), t, op.key, op.value);
    }
    FlushKeepsLiveNodes(H, ps, pushed, t0, Trees(t0, ops)[|ops|], stored);
  }

  // ---------------------------------------------------------------- a batch of transactions

  /** Transaction after transaction, each from the tree the one before ended in. */
  ghost predicate BatchLeads(H: Hasher, txs: seq<TxState>, trees: seq<Tree>) {
    && |trees| == |txs| + 1
    && (forall t :: 0 <= t <= |txs| ==> WellFormed(trees[t], []))
    && (forall t :: 0 <= t < |txs| ==> TxLeads(H, txs[t][PERSISTENCE_DATABASE], trees[t], trees[t + 1]))
  }

  /** The rows the database has after the first `t` transactions of the batch. */
  function StoredAfter(pushes: seq<map<Quad, Row>>, t: nat, rows: map<Quad, Row>): map<Quad, Row>
    requires t <= |pushes|
  {
    Merged(pushes[..t], rows)
  }

  /** Transaction `t` loses nothing of its tree, given what was stored before it. */
  ghost predicate TxHarmless(H: Hasher, txs: seq<TxState>, trees: seq<Tree>, pushes: seq<map<Quad, Row>>,
      rows: map<Quad, Row>, t: nat)
    requires FlushAccepts(txs) && t < |txs| && |trees| == |txs| + 1 && |pushes| == |txs|
  {
    DeletesHarmless(FlushedFrom(txs[t][PERSISTENCE_DATABASE], true), Reach(H, trees[t + 1], 0),
        StoredAfter(pushes, t, rows).Keys)
  }

  /** After transaction `t` the database can serve its tree in full. */
  ghost predicate TreeStored(H: Hasher, trees: seq<Tree>, pushes: seq<map<Quad, Row>>, rows: map<Quad, Row>, t: nat)
    requires t < |trees| && t <= |pushes|
  {
    Reach(H, trees[t], 0) <= StoredAfter(pushes, t, rows).Keys
  }

  /** A purging flush of a batch stores the tree of every transaction in full iff no transaction does
      harm; in particular the tree of the last one is then stored. */
  lemma {:induction false} BatchKeepsLiveNodesIff(H: Hasher, txs: seq<TxState>, trees: seq<Tree>,
      pushes: seq<map<Quad, Row>>, rows: map<Quad, Row>, n: nat)
    requires CollisionFree(H) && BatchLeads(H, txs, trees) && FlushAccepts(txs) && ArePushes(txs, true, pushes)
    requires Reach(H, trees[0], 0) <= rows.Keys && n <= |txs|
    ensures (forall t :: 0 <= t <= n ==> TreeStored(H, trees, pushes, rows, t)) <==>
            (forall t :: 0 <= t < n ==> TxHarmless(H, txs, trees, pushes, rows, t))
  {
    hide TxHarmless, TxLeads, WellFormed, Consistent, IsFlushed, TreeStored;
    BatchStart(H, trees, pushes, rows);
    if n > 0 {
      BatchKeepsLiveNodesIff(H, txs, trees, pushes, rows, n - 1);
      if TreeStored(H, trees, pushes, rows, n - 1) { BatchStep(H, txs, trees, pushes, rows, n - 1); }
    }
  }

  /** So a batch of harmless transactions leaves the tree of its last one in the database. */
  lemma BatchKeepsLiveNodes(H: Hasher, txs: seq<TxState>, trees: seq<Tree>, pushes: seq<map<Quad, Row>>,
      rows: map<Quad, Row>)
    requires CollisionFree(H) && BatchLeads(H, txs, trees) && FlushAccepts(txs) && ArePushes(txs, true, pushes)
    requires Reach(H, trees[0], 0) <= rows.Keys
    requires forall t :: 0 <= t < |txs| ==> TxHarmless(H, txs, trees, pushes, rows, t)
    ensures Reach(H, trees[|txs|], 0) <= Merged(pushes, rows).Keys
  {
    hide TxHarmless, Merged, Reach, TxLeads, WellFormed, Consistent, IsFlushed;
    BatchKeepsLiveNodesIff(H, txs, trees, pushes, rows, |txs|);
    assert TreeStored(H, trees, pushes, rows, |txs|);
    assert pushes[..|txs|] == pushes;
  }

  lemma BatchStart(H: Hasher, trees: seq<Tree>, pushes: seq<map<Quad, Row>>, rows: map<Quad, Row>)
    requires trees != [] && Reach(H, trees[0], 0) <= rows.Keys
    ensures TreeStored(H, trees, pushes, rows, 0)
  {
    assert pushes[..0] == [];
  }

  lemma BatchStep(H: Hasher, txs: seq<TxState>, trees: seq<Tree>, pushes: seq<map<Quad, Row>>, rows: map<Quad, Row>,
      t: nat)
    requires CollisionFree(H) && BatchLeads(H, txs, trees) && FlushAccepts(txs) && ArePushes(txs, true, pushes)
    requires t < |txs| && TreeStored(H, trees, pushes, rows, t)
    ensures TreeStored(H, trees, pushes, rows, t + 1) <==> TxHarmless(H, txs, trees, pushes, rows, t)
  {
    hide Reach, WellFormed, IsFlushed, Consistent, FlushedFrom, DeletesHarmless, TxLeads;
    assert pushes[..t + 1][..t] == pushes[..t];
    FlushKeepsLiveNodesIff(H, txs[t][PERSISTENCE_DATABASE], pushes[t], trees[t], trees[t + 1],
        StoredAfter(pushes, t, rows));
  }

  // ---------------------------------------------------------------- what is pushed is honest

  lemma {:induction false} AllWritesHonest(H: Hasher, subs: seq<TxSubState>)
    requires forall i :: 0 <= i < |subs| ==> Honest(H, subs[i].dbWrite)
    ensures Honest(H, AllWrites(subs))
  {
    if subs != [] { AllWritesHonest(H, subs[..|subs| - 1]); }
  }

  lemma StepIsHonest(H: Hasher, s: TxSubState)
    requires IsSetStep(H, s)
    ensures Honest(H, s.dbWrite)
  {
  }

  /** A purging flush sends every row under its own hash. */
  lemma FlushedHonest(H: Hasher, ps: TxPersistenceState, pushed: map<Quad, Row>)
    requires Consistent(ps) && IsFlushed(ps, true, pushed) && AllSetSteps(H, ps.subState)
    ensures Honest(H, pushed)
  {
    SurvivorsAreSteps(H, ps);
    hide Consistent, FlushedFrom, IsSetStep;
    var kept := FlushedFrom(ps, true);
    var subs: seq<TxSubState> :| pushed == AllWrites(subs) && IsPruned(kept, subs);
    forall i | 0 <= i < |subs| ensures Honest(H, subs[i].dbWrite) { StepIsHonest(H, kept[i]); }
    AllWritesHonest(H, subs);
  }

  lemma {:induction false} MergedHonest(H: Hasher, pushes: seq<map<Quad, Row>>, rows: map<Quad, Row>)
    requires Honest(H, rows) && forall t :: 0 <= t < |pushes| ==> Honest(H, pushes[t])
    ensures Honest(H, Merged(pushes, rows))
  {
    if pushes != [] { MergedHonest(H, pushes[..|pushes| - 1], rows); }
  }

  // ---------------------------------------------------------------- runs on the classes

  /** What the database holds after a flush, row by row. */
  lemma {:induction false} MergedKeys(pushes: seq<map<Quad, Row>>, rows: map<Quad, Row>, h: Quad)
    ensures h in Merged(pushes, rows) <==> h in rows || exists t :: 0 <= t < |pushes| && h in pushes[t]
  {
    if pushes != [] {
      var n := |pushes| - 1;
      MergedKeys(pushes[..n], rows, h);
      if t :| 0 <= t < n && h in pushes[..n][t] { assert h in pushes[t]; }
      if t :| 0 <= t < |pushes| && h in pushes[t] && t < n { assert h in pushes[..n][t]; }
    }
  }

  /** A batch in which one transaction alone has a record for the database pushes that record. */
  lemma OnlyTxPushes(txs: seq<TxState>, tx: nat, pushes: seq<map<Quad, Row>>, rows: map<Quad, Row>)
    requires FlushAccepts(txs) && ArePushes(txs, true, pushes) && tx < |txs|
    requires forall t :: 0 <= t < |txs| && t != tx ==> |txs[t][PERSISTENCE_DATABASE].subState| == 0
    ensures Merged(pushes, rows).Keys == (pushes[tx] + rows).Keys
  {
    hide IsFlushed, Consistent, Merged;
    forall t | 0 <= t < |txs| && t != tx ensures pushes[t] == map[] {
      NothingFlushed(txs[t][PERSISTENCE_DATABASE], pushes[t]);
    }
    forall h ensures h in Merged(pushes, rows) <==> h in pushes[tx] || h in rows { MergedKeys(pushes, rows, h); }
  }

  lemma NothingFlushed(ps: TxPersistenceState, pushed: map<Quad, Row>)
    requires |ps.subState| == 0 && IsFlushed(ps, true, pushed)
    ensures pushed == map[]
  {
  }

  /** No record of the batch but the one of `c` has a sub-state. */
  ghost predicate OnlyRecord(state: States, c: Target) {
    forall t: nat, q: nat :: q < PERSISTENCE_SIZE && (t != c.tx || q != c.p) ==>
      Record(state, c.uuid, t, q) == EMPTY_PERSISTENCE
  }

  /** The transactions a flush to the root of a run keeps still have the record of the run, and the flush
      accepts them exactly when it accepts that record. */
  lemma RunIsRetained(state: States, c: Target, root: StateRoot, purgeTxs: bool, before: StateRoot)
    requires c.uuid in state && c.p == PERSISTENCE_DATABASE && |Record(state, c.uuid, c.tx, c.p).subState| > 0
    requires Record(state, c.uuid, c.tx, c.p).newStateRoot == root != NoRoot
    requires OnlyRecord(state, c)
    ensures var txs := Retained(state[c.uuid].txState, root, c.p, purgeTxs);
      && c.tx < |txs| && txs[c.tx][PERSISTENCE_DATABASE] == Record(state, c.uuid, c.tx, c.p)
      && (forall t :: 0 <= t < |txs| && t != c.tx ==> txs[t][PERSISTENCE_DATABASE] == EMPTY_PERSISTENCE)
      && Finished(txs) && FinalRoot(txs, before) == root
      && (FlushAccepts(txs) <==> Consistent(Record(state, c.uuid, c.tx, c.p)))
  {
    var all := state[c.uuid].txState;
    var txs := Retained(all, root, c.p, purgeTxs);
    forall t: nat | t < |all| && t != c.tx ensures all[t][PERSISTENCE_DATABASE] == EMPTY_PERSISTENCE {
      assert Record(state, c.uuid, t, c.p) == all[t][c.p];
    }
    FinalRootIs(txs, c.tx, before);
    OneRecordDecides(state, c, txs);
  }

  lemma OneRecordDecides(state: States, c: Target, txs: seq<TxState>)
    requires c.uuid in state && c.p == PERSISTENCE_DATABASE && OnlyRecord(state, c)
    requires c.tx < |txs| <= |state[c.uuid].txState| && txs == state[c.uuid].txState[..|txs|]
    ensures FlushAccepts(txs) <==> Consistent(Record(state, c.uuid, c.tx, c.p))
  {
    assert Consistent(EMPTY_PERSISTENCE);
    hide Consistent;
    assert txs[c.tx][PERSISTENCE_DATABASE] == Record(state, c.uuid, c.tx, c.p);
    forall t, q | 0 <= t < |txs| && 0 <= q < PERSISTENCE_SIZE && (t != c.tx || q != c.p)
      ensures txs[t][q] == EMPTY_PERSISTENCE
    {
      assert Record(state, c.uuid, t, q) == txs[t][q];
    }
  }

  lemma {:induction false} FinalRootIs(txs: seq<TxState>, tx: nat, before: StateRoot)
    requires tx < |txs| && |txs[tx][PERSISTENCE_DATABASE].subState| > 0
    requires forall t :: tx < t < |txs| ==> |txs[t][PERSISTENCE_DATABASE].subState| == 0
    ensures FinalRoot(txs, before) == txs[tx][PERSISTENCE_DATABASE].newStateRoot
  {
    if tx < |txs| - 1 { FinalRootIs(txs[..|txs| - 1], tx, before); }
  }

  /** A run of `set` calls in a batch of its own and a purging flush to its final root. Unless the
      database fails, the flush succeeds exactly when the walk over the trees of the run reaches its
      first call. The database then has the final root, and it can serve the final tree in full exactly
      when no harm was done; without hashes at two positions it always can. */
  method RunAndFlush(smt: Smt, c: Target, root0: Quad, ops: seq<Op>, ghost t0: Tree)
    returns (zkr: ZkResult, root: Quad, ghost ps: TxPersistenceState)
    requires smt.stateManager.Valid() && smt.stateManager.purge && c.useStateManager && c.p == PERSISTENCE_DATABASE
    requires c.uuid !in smt.stateManager.state && HonestStore(smt.H, smt.Now(), c) && Represents(smt.H, root0, t0)
    requires ops != [] && ValidOps(ops) && Reach(smt.H, t0, 0) <= smt.db.rows.Keys
    modifies smt.stateManager, smt.db
    ensures Represents(smt.H, root, Trees(t0, ops)[|ops|]) && RunRecord(smt.H, ps, Trees(t0, ops), ops)
    ensures zkr == ZKR_SUCCESS || zkr == ZKR_STATE_MANAGER || (zkr == ZKR_DB_ERROR && !smt.db.reliable)
    ensures zkr == ZKR_SUCCESS ==> WalksBack(Trees(t0, ops), ops, |ops| - 1)
    ensures zkr == ZKR_STATE_MANAGER ==> !WalksBack(Trees(t0, ops), ops, |ops| - 1)
    ensures zkr == ZKR_SUCCESS ==> Consistent(ps) && smt.db.stateRoot == Root(root)
    ensures zkr == ZKR_SUCCESS ==>
      var live := Reach(smt.H, Trees(t0, ops)[|ops|], 0);
      live <= smt.db.rows.Keys <==> DeletesHarmless(FlushedFrom(ps, true), live, old(smt.db.rows).Keys)
    ensures zkr == ZKR_SUCCESS && OnePositions(smt.H, Trees(t0, ops), ops) ==>
      Reach(smt.H, Trees(t0, ops)[|ops|], 0) <= smt.db.rows.Keys
    ensures zkr == ZKR_SUCCESS ==>
      exists pushed :: IsFlushed(ps, true, pushed) && smt.db.rows.Keys == (pushed + old(smt.db.rows)).Keys
    ensures zkr == ZKR_SUCCESS ==>
      c.uuid !in smt.stateManager.state && smt.stateManager.Valid() && HonestStore(smt.H, smt.Now(), c)
  {
    hide HonestStore, Represents, Readable, RunRecord, IsFlushed, FlushedFrom, Consistent, DeletesHarmless,
      OnePositions, Merged, Retained, Finished, FlushAccepts, ArePushes, FinalRoot, WellFormed, CollisionFree,
      OthersUnchanged, Reach, Trees, WalksBack;
    FreshBatch(smt.H, smt.Now(), c, root0, t0);
    ghost var s0 := smt.Now();
    var roots := Run(smt, c, root0, ops, t0);
    root := roots[|ops|];
    ps := Rec(smt.Now(), c);
    ghost var state := smt.stateManager.state;
    RunFinished(smt.H, s0.state, state, c, root, t0, ops, smt.stateManager.purgeTxs, smt.db.stateRoot);
    RunAcceptedIff(smt.H, ps, t0, ops);
    ghost var pushes;
    zkr, pushes := smt.stateManager.Flush(c.uuid, Root(root), c.p, smt.db);
    if zkr == ZKR_SUCCESS {
      var txs := Retained(state[c.uuid].txState, Root(root), c.p, smt.stateManager.purgeTxs);
      AfterFlush(smt.H, txs, c.tx, pushes, t0, ops, s0.rows);
      assert IsFlushed(ps, true, pushes[c.tx]) && smt.db.rows.Keys == (pushes[c.tx] + s0.rows).Keys;
      StillHonest(smt.H, s0, smt.Now(), c);
    }
  }

  lemma FreshBatch(H: Hasher, s: Snapshot, c: Target, root: Quad, t: Tree)
    requires c.useStateManager && c.uuid !in s.state && Reach(H, t, 0) <= s.rows.Keys && Represents(H, root, t)
    ensures Readable(H, s, c, t) && |Rec(s, c).subState| == 0 && CollisionFree(H) && WellFormed(t, [])
  {
  }

  /** Once its batch is forgotten, `c` reads from the database alone. */
  lemma StillHonest(H: Hasher, s0: Snapshot, s1: Snapshot, c: Target)
    requires CollisionFree(H) && c.uuid !in s1.state && (Honest(H, s0.rows) ==> Honest(H, s1.rows))
    requires HonestStore(H, s0, c)
    ensures HonestStore(H, s1, c)
  {
  }

  /** The state of a run before its flush. */
  lemma RunFinished(H: Hasher, s0: States, s1: States, c: Target, root: Quad, t0: Tree, ops: seq<Op>, purgeTxs: bool,
      before: StateRoot)
    requires c.p == PERSISTENCE_DATABASE && c.uuid !in s0 && OthersUnchanged(s0, s1, c.uuid, c.tx, c.p)
    requires ops != [] && ValidOps(ops) && RunRecord(H, Record(s1, c.uuid, c.tx, c.p), Trees(t0, ops), ops)
    requires Represents(H, root, Trees(t0, ops)[|ops|])
    ensures c.uuid in s1
    ensures var txs := Retained(s1[c.uuid].txState, Root(root), c.p, purgeTxs);
      && c.tx < |txs| && txs[c.tx][PERSISTENCE_DATABASE] == Record(s1, c.uuid, c.tx, c.p)
      && (forall t :: 0 <= t < |txs| && t != c.tx ==> txs[t][PERSISTENCE_DATABASE] == EMPTY_PERSISTENCE)
      && Finished(txs) && FinalRoot(txs, before) == Root(root)
      && (FlushAccepts(txs) <==> Consistent(Record(s1, c.uuid, c.tx, c.p)))
  {
    hide Retained, Finished, FinalRoot, SetStep, FlushAccepts, Consistent;
    forall t: nat, q: nat | q < PERSISTENCE_SIZE && (t != c.tx || q != c.p)
      ensures Record(s1, c.uuid, t, q) == EMPTY_PERSISTENCE
    {
      assert Record(s0, c.uuid, t, q) == EMPTY_PERSISTENCE;
    }
    RunIsRetained(s1, c, Root(root), purgeTxs, before);
  }

  /** What the flush of a run leaves in the database. */
  lemma AfterFlush(H: Hasher, txs: seq<TxState>, tx: nat, pushes: seq<map<Quad, Row>>, t0: Tree, ops: seq<Op>,
      rows: map<Quad, Row>)
    requires FlushAccepts(txs) && ArePushes(txs, true, pushes) && tx < |txs|
    requires forall t :: 0 <= t < |txs| && t != tx ==> txs[t][PERSISTENCE_DATABASE] == EMPTY_PERSISTENCE
    requires CollisionFree(H) && WellFormed(t0, []) && ValidOps(ops) && Reach(H, t0, 0) <= rows.Keys
    requires RunRecord(H, txs[tx][PERSISTENCE_DATABASE], Trees(t0, ops), ops)
    ensures |pushes| == |txs|
    ensures Consistent(txs[tx][PERSISTENCE_DATABASE]) && IsFlushed(txs[tx][PERSISTENCE_DATABASE], true, pushes[tx])
    ensures Merged(pushes, rows).Keys == (pushes[tx] + rows).Keys
    ensures var live := Reach(H, Trees(t0, ops)[|ops|], 0);
      && (live <= Merged(pushes, rows).Keys <==>
        DeletesHarmless(FlushedFrom(txs[tx][PERSISTENCE_DATABASE], true), live, rows.Keys))
      && (OnePositions(H, Trees(t0, ops), ops) ==> live <= Merged(pushes, rows).Keys)
    ensures Honest(H, rows) ==> Honest(H, Merged(pushes, rows))
  {
    var ps := txs[tx][PERSISTENCE_DATABASE];
    OnlyTxPushes(txs, tx, pushes, rows);
    RunLeads(H, ps, t0, ops);
    if Honest(H, rows) { PushesHonest(H, txs, tx, pushes, rows, t0, ops); }
    hide Reach, WellFormed, RunRecord, IsFlushed, Merged, DeletesHarmless, OnePositions, TxLeads, FlushedFrom, Trees,
      Honest;
    FlushKeepsLiveNodesIff(H, ps, pushes[tx], t0, Trees(t0, ops)[|ops|], rows);
    if OnePositions(H, Trees(t0, ops), ops) { FlushOfRunKeepsLiveNodes(H, ps, pushes[tx], t0, ops, rows); }
  }

  lemma PushesHonest(H: Hasher, txs: seq<TxState>, tx: nat, pushes: seq<map<Quad, Row>>, rows: map<Quad, Row>,
      t0: Tree, ops: seq<Op>)
    requires FlushAccepts(txs) && ArePushes(txs, true, pushes) && tx < |txs| && Honest(H, rows)
    requires forall t :: 0 <= t < |txs| && t != tx ==> txs[t][PERSISTENCE_DATABASE] == EMPTY_PERSISTENCE
    requires WellFormed(t0, []) && ValidOps(ops) && RunRecord(H, txs[tx][PERSISTENCE_DATABASE], Trees(t0, ops), ops)
    ensures Honest(H, Merged(pushes, rows))
  {
    RunLeads(H, txs[tx][PERSISTENCE_DATABASE], t0, ops);
    hide RunRecord, IsFlushed, Merged, Trees, Consistent, FlushedFrom, IsSetStep, Honest;
    forall t | 0 <= t < |pushes| ensures Honest(H, pushes[t]) {
      FlushedHonest(H, txs[t][PERSISTENCE_DATABASE], pushes[t]);
    }
    MergedHonest(H, pushes, rows);
  }

  // ---------------------------------------------------------------- a live node that is lost

  const KEY_A := Quad(2, 0, 0, 0)
  const KEY_B := Quad(3, 0, 0, 0)

  /** The two keys differ in their first bit only. */
  lemma ExampleKeys()
    ensures !KeyBits(KEY_A)[0] && KeyBits(KEY_B)[0]
    ensures RemoveKeyBits(KEY_A, 1) == RemoveKeyBits(KEY_B, 1) == Quad(1, 0, 0, 0)
    ensures RemoveKeyBits(KEY_A, 0) == KEY_A
  {
    assert !Bit(2, 0) && Bit(3, 0);
    assert Shr(2, 1) == Shr(1, 0) == 1 && Shr(3, 1) == 1 && Shr(0, 1) == 0;
  }

  function TreeA(): Tree { Leaf(KEY_A, 7) }
  function TreeAB(): Tree { Node(Leaf(KEY_A, 7), Leaf(KEY_B, 7)) }
  function TreeAB'(): Tree { Node(Leaf(KEY_A, 7), Leaf(KEY_B, 8)) }

  /** Three calls: set A to 7, set B to 7, set B to 8. */
  lemma ExampleTrees()
    ensures Put(Empty, KEY_A, 7, 0) == TreeA()
    ensures Put(TreeA(), KEY_B, 7, 0) == TreeAB()
    ensures Put(TreeAB(), KEY_B, 8, 0) == TreeAB'()
    ensures WellFormed(TreeAB(), []) && WellFormed(TreeAB'(), [])
  {
    ExampleKeys();
    assert Canonical(KEY_A) && Canonical(KEY_B);
    assert KeyBits(KEY_A)[..0] == [] && KeyBits(KEY_B)[..0] == [];
    PutWellFormed(Empty, [], KEY_A, 7);
    PutWellFormed(TreeA(), [], KEY_B, 7);
    PutWellFormed(TreeAB(), [], KEY_B, 8);
  }

  /** How the last call walks: one step down, to the leaf of B. */
  lemma ExampleWalk()
    ensures var t, bits := TreeAB(), KeyBits(KEY_B);
      && Down(t, bits, 1) == Leaf(KEY_B, 7) && Down(TreeAB'(), bits, 1) == Leaf(KEY_B, 8)
      && Depth(t, bits, 0) == 1 && OnPath(t, bits, 1)
      && ModeOf(t, KEY_B, 8).Update? && CutDepth(t, KEY_B, 8) == 1 && Replacement(t, KEY_B, 8) == Leaf(KEY_B, 8)
  {
    ExampleKeys();
    var t, bits := TreeAB(), KeyBits(KEY_B);
    assert Down(t, bits, 0) == t && Down(TreeAB'(), bits, 0) == TreeAB'();
    assert Depth(t, bits, 0) == Depth(Leaf(KEY_B, 7), bits, 1) == 1;
  }

  /** The leaves of A and B are stored as one row, unlike the other rows of the last call. */
  lemma ExampleHashes(H: Hasher)
    requires CollisionFree(H)
    ensures var h := HashOf(H, Leaf(KEY_A, 7), 1);
      && h == HashOf(H, Leaf(KEY_B, 7), 1) && h != ZERO
      && h != HashOf(H, Leaf(KEY_B, 8), 1) && h != HashOf(H, TreeAB'(), 0) && h != H(ValueRow(8))
  {
    ExampleKeys();
    ValueRoundTrip(7);
    ValueRoundTrip(8);
    assert NoCollision(H, ValueRow(7), ValueRow(8));
    assert NoCollision(H, RowOf(H, Leaf(KEY_A, 7), 1), RowOf(H, Leaf(KEY_B, 8), 1));
    assert NoCollision(H, RowOf(H, Leaf(KEY_A, 7), 1), RowOf(H, TreeAB'(), 0));
    assert NoCollision(H, RowOf(H, Leaf(KEY_A, 7), 1), ValueRow(8));
    NonEmptyHash(H, Leaf(KEY_A, 7), 1);
  }

  /** What the last call saves and reports. */
  lemma ExampleEffects(H: Hasher)
    requires CollisionFree(H)
    ensures OnPath(TreeAB(), KeyBits(KEY_B), Depth(TreeAB(), KeyBits(KEY_B), 0))
    ensures var h := HashOf(H, Leaf(KEY_A, 7), 1);
      && SetDeletes(H, TreeAB(), KEY_B, 8) == [h]
      && h !in SetWrites(H, TreeAB(), KEY_B, 8)
      && h in Reach(H, TreeAB'(), 0)
  {
    hide WellFormed, LeafCount, Lookup, RowOf, KeyBits, ValueRow, Put;
    ExampleTrees();
    ExampleWalk();
    ExampleHashes(H);
    hide ModeOf, CutDepth, Replacement, Depth, OnPath;
    var t, bits := TreeAB(), KeyBits(KEY_B);
    ExamplePath(H, TreeAB'(), bits);
    assert Replaced(H, t, TreeAB'(), bits, 0) == [];
  }

  lemma ExamplePath(H: Hasher, t: Tree, bits: seq<bool>)
    requires |bits| > 0
    ensures PathHashes(H, t, bits, 1) == {HashOf(H, t, 0)}
  {
    assert Down(t, bits, 0) == t;
    assert PathHashes(H, t, bits, 0) == {};
  }

  /** The three calls as a run: the first two from the empty tree on, the third from the second. */
  const EXAMPLE: seq<Op> := [Op(0, KEY_A, 7), Op(1, KEY_B, 7), Op(2, KEY_B, 8)]

  lemma ExampleRun()
    ensures ValidOps(EXAMPLE) && Trees(Empty, EXAMPLE) == [Empty, TreeA(), TreeAB(), TreeAB'()]
  {
    ExampleTrees();
    assert Canonical(KEY_A) && Canonical(KEY_B);
    assert EXAMPLE[..2][..1] == [Op(0, KEY_A, 7)] && EXAMPLE[..2] == [Op(0, KEY_A, 7), Op(1, KEY_B, 7)];
    assert Trees(Empty, []) == [Empty];
    assert Trees(Empty, EXAMPLE[..2][..1]) == [Empty, TreeA()];
    assert Trees(Empty, EXAMPLE[..2]) == [Empty, TreeA(), TreeAB()];
  }

  /** The flush accepts the three calls. */
  lemma ExampleAccepted(H: Hasher, ps: TxPersistenceState)
    requires CollisionFree(H) && RunRecord(H, ps, [Empty, TreeA(), TreeAB(), TreeAB'()], EXAMPLE)
    ensures WalksBack(Trees(Empty, EXAMPLE), EXAMPLE, 2) && Consistent(ps)
  {
    hide RunRecord, Consistent, WalksBack, WellFormed, CollisionFree, Trees, TreeA, TreeAB, TreeAB';
    ExampleRun();
    ExampleWalksBack();
    EmptyWellFormed();
    RunAcceptedIff(H, ps, Empty, EXAMPLE);
  }

  lemma EmptyWellFormed()
    ensures WellFormed(Empty, [])
  {
  }

  lemma ExampleWalksBack()
    ensures ValidOps(EXAMPLE) && WalksBack(Trees(Empty, EXAMPLE), EXAMPLE, 2)
  {
    ExampleRun();
    hide Trees;
    GoingOnWalksBack(Trees(Empty, EXAMPLE), EXAMPLE);
  }

  /** Without the condition the flush does lose a live node: it accepts the three calls, the leaves of A
      and B are one row, the update of B reports it dead, and A still needs it. */
  lemma SharedLeafIsLost(H: Hasher, ps: TxPersistenceState, pushed: map<Quad, Row>)
    requires CollisionFree(H) && RunRecord(H, ps, [Empty, TreeA(), TreeAB(), TreeAB'()], EXAMPLE)
    ensures Consistent(ps)
    ensures var h := HashOf(H, Leaf(KEY_A, 7), 1);
      h in Reach(H, TreeAB'(), 0) && (IsFlushed(ps, true, pushed) ==> h !in pushed)
  {
    ExampleAccepted(H, ps);
    ExampleEffects(H);
    if IsFlushed(ps, true, pushed) { LastDeleteIsNotPushed(H, ps, pushed); }
  }

  lemma LastDeleteIsNotPushed(H: Hasher, ps: TxPersistenceState, pushed: map<Quad, Row>)
    requires CollisionFree(H) && RunRecord(H, ps, [Empty, TreeA(), TreeAB(), TreeAB'()], EXAMPLE)
    requires Consistent(ps) && IsFlushed(ps, true, pushed)
    ensures HashOf(H, Leaf(KEY_A, 7), 1) !in pushed
  {
    hide Put, HashOf, KeyBits, OnPath, Depth, SetWrites, SetDeletes, Leads, Pushed, Down, WellFormed, Consistent,
      IsFlushed;
    ExampleEffects(H);
    var subs, h := FlushedFrom(ps, true), HashOf(H, Leaf(KEY_A, 7), 1);
    LastSurvivorIsLastCall(H, ps);
    assert StepOf(H, ps.subState[2], TreeAB(), EXAMPLE[2]);
    FlushedExact(ps, pushed, h);
    hide RunRecord, FlushedFrom, Reach, SetStep;
    NotPushedIfDeletedLast(subs, h);
  }

  lemma NotPushedIfDeletedLast(subs: seq<TxSubState>, key: Quad)
    requires |subs| > 0 && key in subs[|subs| - 1].dbDelete && key !in subs[|subs| - 1].dbWrite
    ensures !Pushed(subs, key)
  {
    PushedIff(subs, key);
  }

  /** No two roots of the example agree, so the chain ends with the last call. */
  lemma LastSurvivorIsLastCall(H: Hasher, ps: TxPersistenceState)
    requires CollisionFree(H) && RunRecord(H, ps, [Empty, TreeA(), TreeAB(), TreeAB'()], EXAMPLE) && Consistent(ps)
    ensures var subs := FlushedFrom(ps, true); |subs| > 0 && subs[|subs| - 1] == ps.subState[2].(bValid := true)
  {
    var ts := [Empty, TreeA(), TreeAB(), TreeAB'()];
    ExampleTrees();
    hide Put, HashOf, KeyBits, OnPath, Depth, SetWrites, SetDeletes, Down, FlushedFrom;
    forall i | 0 <= i < 3
      ensures ps.subState[i].newStateRoot == Root(HashOf(H, ts[i + 1], 0)) && !ps.subState[i].bValid
    {
      assert StepOf(H, ps.subState[i], ts[EXAMPLE[i].from], EXAMPLE[i]);
    }
    forall i | 0 <= i < 3 ensures HashOf(H, ts[i], 0) != HashOf(H, TreeAB'(), 0) {
      if HashOf(H, ts[i], 0) == HashOf(H, TreeAB'(), 0) { HashUnique(H, ts[i], TreeAB'(), []); }
    }
    assert ps.oldStateRoot == Root(HashOf(H, ts[0], 0)) && ps.newStateRoot == Root(HashOf(H, ts[3], 0));
    SurvivingChainUnbroken(ps);
    var subs := FlushedFrom(ps, true);
    assert Leads(subs, ps.oldStateRoot, ps.newStateRoot) by { FlushedFromSurvivors(ps); }
    assert forall i :: 0 <= i < 2 ==> ps.subState[i].newStateRoot != ps.newStateRoot;
    var j := SurvivorIndex(ps, |subs| - 1);
  }

  lemma FlushedFromSurvivors(ps: TxPersistenceState)
    requires Consistent(ps) && |ps.subState| > 0
    ensures FlushedFrom(ps, true) == Survivors(MarkChain(ps.subState, Chain(ps.subState, ps.currentSubState).value))
  {
  }

  /** The classes do lose it: a tree manager with an empty database runs the three calls and flushes, and
      only a failing database keeps the leaf of A from being lost, although the new state root needs it. */
  method LoseSharedLeaf(smt: Smt, c: Target) returns (zkr: ZkResult, root: Quad)
    requires smt.stateManager.Valid() && smt.stateManager.purge && c.useStateManager && c.p == PERSISTENCE_DATABASE
    requires CollisionFree(smt.H) && smt.stateManager.state == map[] && smt.db.rows == map[]
    modifies smt.stateManager, smt.db
    ensures zkr == ZKR_SUCCESS || (zkr == ZKR_DB_ERROR && !smt.db.reliable)
    ensures zkr == ZKR_SUCCESS ==>
      && smt.db.stateRoot == Root(root) && Represents(smt.H, root, TreeAB'())
      && HashOf(smt.H, Leaf(KEY_A, 7), 1) in Reach(smt.H, TreeAB'(), 0)
      && HashOf(smt.H, Leaf(KEY_A, 7), 1) !in smt.db.rows
      && c.uuid !in smt.stateManager.state && HonestStore(smt.H, smt.Now(), c)
  {
    ExampleRun();
    ExampleWalksBack();
    ghost var ps;
    zkr, root, ps := RunAndFlush(smt, c, ZERO, EXAMPLE, Empty);
    if zkr == ZKR_SUCCESS {
      ghost var pushed :| IsFlushed(ps, true, pushed) && smt.db.rows.Keys == (pushed + map[]).Keys;
      SharedLeafIsLost(smt.H, ps, pushed);
    }
  }

  /** From nothing: a purging state manager on a database that fails no call. The flush succeeds, the
      database has the final root, and looking A up under that root fails, although A is in its tree. */
  method LookUpLostKey(H: Hasher, purgeTxs: bool, tx: nat) returns (flushed: ZkResult, code: ZkResult, root: Quad)
    requires CollisionFree(H)
    ensures Represents(H, root, TreeAB'()) && Value(Entries(TreeAB'()), KEY_A) == 7
    ensures flushed == ZKR_SUCCESS && code != ZKR_SUCCESS
  {
    var sm := new StateManager(true, purgeTxs);
    var db := new Database(true);
    var smt := new Smt(H, sm, db);
    var c := Target(true, "batch", tx, PERSISTENCE_DATABASE);
    flushed, root := LoseSharedLeaf(smt, c);
    LostLeafIsRead(H);
    var found;
    code, found := smt.Get(c, root, KEY_A, TreeAB'());
  }

  /** A is in the final tree, and the walk to it reads its leaf. */
  lemma LostLeafIsRead(H: Hasher)
    ensures Canonical(KEY_A) && Value(Entries(TreeAB'()), KEY_A) == 7
    ensures HashOf(H, Leaf(KEY_A, 7), 1) in WalkReads(H, TreeAB'(), KeyBits(KEY_A))
  {
    ExampleKeys();
    LostWalk(KeyBits(KEY_A));
    LostValue();
    hide KeyBits, Depth, End, HashOf, Value, Entries, TreeAB', PathHashes;
  }

  lemma LostValue()
    ensures Canonical(KEY_A) && Value(Entries(TreeAB'()), KEY_A) == 7
  {
    hide KeyBits;
  }

  lemma LostWalk(bits: seq<bool>)
    requires |bits| == 256 && !bits[0]
    ensures Depth(TreeAB'(), bits, 0) == 1 && End(TreeAB'(), bits) == Leaf(KEY_A, 7)
  {
    var t := TreeAB'();
    assert Depth(t, bits, 0) == Depth(Leaf(KEY_A, 7), bits, 1) == 1;
    assert Down(t, bits, 0) == t;
  }

  // ---------------------------------------------------------------- a run that is rejected

  /** A is set to 7 twice from the empty tree, then the run goes on from there. */
  const REPEATED: seq<Op> := [Op(0, KEY_A, 7), Op(0, KEY_A, 7), Op(2, KEY_B, 7)]

  lemma RepeatedTrees()
    ensures ValidOps(REPEATED) && Trees(Empty, REPEATED) == [Empty, TreeA(), TreeA(), TreeAB()]
  {
    ExampleTrees();
    assert Canonical(KEY_A) && Canonical(KEY_B);
    assert REPEATED[..2][..1] == [Op(0, KEY_A, 7)] && REPEATED[..2] == [Op(0, KEY_A, 7), Op(0, KEY_A, 7)];
    assert Trees(Empty, []) == [Empty];
    assert Trees(Empty, REPEATED[..2][..1]) == [Empty, TreeA()];
    assert Trees(Empty, REPEATED[..2]) == [Empty, TreeA(), TreeA()];
  }

  /** The flush rejects the record although its sub-states 0 and 2 lead from the old root to the new one:
      it prefers sub-state 1, which started over. */
  lemma RepeatedCallIsRejected(H: Hasher, ps: TxPersistenceState)
    requires CollisionFree(H) && RunRecord(H, ps, [Empty, TreeA(), TreeA(), TreeAB()], REPEATED)
    ensures !Consistent(ps) && Linked(ps.subState, [0, 2])
    ensures ps.subState[0].oldStateRoot == ps.oldStateRoot && ps.subState[2].newStateRoot == ps.newStateRoot
  {
    hide Trees, Put, HashOf, KeyBits, SetStep, Chain, WalksBack, CollisionFree, Consistent, WellFormed;
    RepeatedTrees();
    RepeatedIsStuck();
    EmptyWellFormed();
    RunAcceptedIff(H, ps, Empty, REPEATED);
    RunRoots(H, ps, Empty, REPEATED);
    hide StepOf;
  }

  lemma RepeatedIsStuck()
    ensures ValidOps(REPEATED) && !WalksBack(Trees(Empty, REPEATED), REPEATED, 2)
  {
    RepeatedTrees();
    var ts := Trees(Empty, REPEATED);
    hide Trees;
    assert StartsOver(ts, REPEATED, 1);
    StartingOverIsStuck(ts, REPEATED, 1);
    assert CallBefore(ts, REPEATED, 2) == Some(1);
  }
}
