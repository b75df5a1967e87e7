/** Which runs of `set` calls a flush accepts: it walks back over the recorded roots from the last call,
    and the walk must reach the first one. */
module SmtWalk {
  import opened Results
  import opened SmtKeys
  import opened SmtTree
  import opened SmtPath
  import opened SubStates
  import opened SmtRun

  // ---------------------------------------------------------------- the walk over the trees

  /** The first of the calls below `n` that led to `t`. */
  function FirstLeadingTo(ts: seq<Tree>, n: nat, t: Tree): (r: Option<nat>)
    requires n < |ts|
    ensures r.Some? ==> r.value < n && ts[r.value + 1] == t
    ensures r.Some? ==> forall j :: 0 < j <= r.value ==> ts[j] != t
    ensures r.None? ==> forall j :: 0 < j <= n ==> ts[j] != t
  {
    if n == 0 then None
    else
      var r := FirstLeadingTo(ts, n - 1, t);
      if r.Some? then r else if ts[n] == t then Some(n - 1) else None
  }

  /** The call the walk goes to from call `cur`: the one just before it if that one led to the tree `cur`
      started from, otherwise the first that did. */
  function CallBefore(ts: seq<Tree>, ops: seq<Op>, cur: nat): (r: Option<nat>)
    requires ValidOps(ops) && |ts| == |ops| + 1 && 0 < cur < |ops|
    ensures r.Some? ==> r.value < cur && ts[r.value + 1] == ts[ops[cur].from]
    ensures r.None? <==> forall j :: 0 < j <= cur ==> ts[j] != ts[ops[cur].from]
  {
    var start := ts[ops[cur].from];
    if ts[cur] == start then Some(cur - 1) else FirstLeadingTo(ts, cur, start)
  }

  /** The walk from call `cur` ends at the first call. */
  predicate WalksBack(ts: seq<Tree>, ops: seq<Op>, cur: nat)
    requires ValidOps(ops) && |ts| == |ops| + 1 && cur < |ops|
  {
    cur == 0 ||
    (CallBefore(ts, ops, cur).Some? && WalksBack(ts, ops, CallBefore(ts, ops, cur).value))
  }

  /** Call `i` starts again from the starting tree although no call before it led back there. */
  predicate StartsOver(ts: seq<Tree>, ops: seq<Op>, i: nat)
    requires ValidOps(ops) && |ts| == |ops| + 1 && 0 < i < |ops|
  {
    ts[ops[i].from] == ts[0] && forall j :: 0 < j <= i ==> ts[j] != ts[0]
  }

  /** A call has no call to go back to exactly when it starts over. */
  lemma NoCallBeforeIff(ts: seq<Tree>, ops: seq<Op>, cur: nat)
    requires ValidOps(ops) && |ts| == |ops| + 1 && 0 < cur < |ops|
    ensures CallBefore(ts, ops, cur).None? <==> StartsOver(ts, ops, cur)
  {
    if CallBefore(ts, ops, cur).None? { assert ops[cur].from == 0; }
  }

  /** The walk is stuck at a call that starts over. */
  lemma StartingOverIsStuck(ts: seq<Tree>, ops: seq<Op>, cur: nat)
    requires ValidOps(ops) && |ts| == |ops| + 1 && 0 < cur < |ops| && StartsOver(ts, ops, cur)
    ensures !WalksBack(ts, ops, cur)
  {
    NoCallBeforeIff(ts, ops, cur);
  }

  /** Every call of a run walks back exactly when none starts over. */
  lemma AllWalkBackIff(ts: seq<Tree>, ops: seq<Op>)
    requires ValidOps(ops) && |ts| == |ops| + 1
    ensures (forall i :: 0 <= i < |ops| ==> WalksBack(ts, ops, i)) <==>
            (forall i :: 0 < i < |ops| ==> !StartsOver(ts, ops, i))
  {
    hide WalksBack, StartsOver;
    if i :| 0 < i < |ops| && StartsOver(ts, ops, i) {
      StartingOverIsStuck(ts, ops, i);
      assert !WalksBack(ts, ops, i);
    } else {
      forall i | 0 <= i < |ops| ensures WalksBack(ts, ops, i) { WalksBackUpTo(ts, ops, i); }
    }
  }

  lemma {:induction false} WalksBackUpTo(ts: seq<Tree>, ops: seq<Op>, cur: nat)
    requires ValidOps(ops) && |ts| == |ops| + 1 && cur < |ops|
    requires forall i :: 0 < i <= cur ==> !StartsOver(ts, ops, i)
    ensures WalksBack(ts, ops, cur)
  {
    if cur > 0 {
      NoCallBeforeIff(ts, ops, cur);
      WalksBackUpTo(ts, ops, CallBefore(ts, ops, cur).value);
    }
  }

  /** So a run is accepted if each later call goes on from a root that a call led to. */
  lemma GoingOnWalksBack(ts: seq<Tree>, ops: seq<Op>)
    requires ValidOps(ops) && |ts| == |ops| + 1 && ops != []
    requires forall i :: 0 < i < |ops| ==> ops[i].from > 0
    ensures WalksBack(ts, ops, |ops| - 1)
  {
    forall i | 0 < i < |ops| ensures !StartsOver(ts, ops, i) { assert ops[i].from > 0; }
    AllWalkBackIff(ts, ops);
  }

  // ---------------------------------------------------------------- the trees of a run

  lemma {:induction false} TreesWellFormed(t0: Tree, ops: seq<Op>, i: nat)
    requires WellFormed(t0, []) && ValidOps(ops) && i <= |ops|
    ensures WellFormed(Trees(t0, ops)[i], []) && Trees(t0, ops)[0] == t0
  {
    if ops != [] {
      var n := |ops| - 1;
      TreesWellFormed(t0, ops[..n], if i <= n then i else ops[n].from);
      if i > n { PutWellFormed(Trees(t0, ops[..n])[ops[n].from], [], ops[n].key, ops[n].value); }
    }
  }

  lemma {:induction false} TreesStep(t0: Tree, ops: seq<Op>, i: nat)
    requires ValidOps(ops) && i < |ops|
    ensures var ts := Trees(t0, ops); ts[i + 1] == Put(ts[ops[i].from], ops[i].key, ops[i].value, 0)
  {
    var n := |ops| - 1;
    if i < n { TreesStep(t0, ops[..n], i); }
  }

  // ---------------------------------------------------------------- the walk over the record

  function TreeRoot(H: Hasher, t: Tree): StateRoot {
    Root(HashOf(H, t, 0))
  }

  /** The roots of the sub-states are those of the trees the calls started from and led to. */
  ghost predicate RootsOf(H: Hasher, subs: seq<TxSubState>, ts: seq<Tree>, ops: seq<Op>)
    requires ValidOps(ops) && |ts| == |ops| + 1
  {
    && |subs| == |ops|
    && forall i :: 0 <= i < |ops| ==>
      && subs[i].oldStateRoot == TreeRoot(H, ts[ops[i].from]) && subs[i].newStateRoot == TreeRoot(H, ts[i + 1])
      && subs[i].previousSubState == Before(i)
  }

  /** Different trees have different roots. */
  ghost predicate RootsDiffer(H: Hasher, ts: seq<Tree>) {
    forall a, b :: 0 <= a < |ts| && 0 <= b < |ts| && TreeRoot(H, ts[a]) == TreeRoot(H, ts[b]) ==> ts[a] == ts[b]
  }

  lemma RunRoots(H: Hasher, ps: TxPersistenceState, t0: Tree, ops: seq<Op>)
    requires CollisionFree(H) && WellFormed(t0, []) && ValidOps(ops) && RunRecord(H, ps, Trees(t0, ops), ops)
    ensures RootsOf(H, ps.subState, Trees(t0, ops), ops) && RootsDiffer(H, Trees(t0, ops))
  {
    var ts := Trees(t0, ops);
    hide Put, WellFormed, HashOf, KeyBits, OnPath, Depth, Trees, CollisionFree;
    forall i | 0 <= i < |ops|
      ensures ps.subState[i].oldStateRoot == TreeRoot(H, ts[ops[i].from])
      ensures ps.subState[i].newStateRoot == TreeRoot(H, ts[i + 1])
    {
      assert StepOf(H, ps.subState[i], ts[ops[i].from], ops[i]);
      TreesStep(t0, ops, i);
    }
    forall a, b | 0 <= a < |ts| && 0 <= b < |ts| && TreeRoot(H, ts[a]) == TreeRoot(H, ts[b]) ensures ts[a] == ts[b] {
      TreesWellFormed(t0, ops, a);
      TreesWellFormed(t0, ops, b);
      HashUnique(H, ts[a], ts[b], []);
    }
  }

  lemma {:induction false} FirstEndingAtIs(H: Hasher, subs: seq<TxSubState>, ts: seq<Tree>, ops: seq<Op>, n: nat,
      a: nat)
    requires ValidOps(ops) && |ts| == |ops| + 1 && RootsOf(H, subs, ts, ops) && RootsDiffer(H, ts)
    requires n <= |ops| && a < |ts|
    ensures FirstEndingAt(subs, n, TreeRoot(H, ts[a])) == FirstLeadingTo(ts, n, ts[a])
  {
    hide TreeRoot;
    if n > 0 {
      FirstEndingAtIs(H, subs, ts, ops, n - 1, a);
      assert subs[n - 1].newStateRoot == TreeRoot(H, ts[n]);
      hide RootsOf;
      assert subs[n - 1].newStateRoot == TreeRoot(H, ts[a]) <==> ts[n] == ts[a];
      hide RootsDiffer;
    }
  }

  /** The flush finds its way back exactly where the calls do. */
  lemma {:induction false} ChainIff(H: Hasher, subs: seq<TxSubState>, ts: seq<Tree>, ops: seq<Op>, cur: nat)
    requires ValidOps(ops) && |ts| == |ops| + 1 && RootsOf(H, subs, ts, ops) && RootsDiffer(H, ts)
    requires cur < |ops| && Backward(subs)
    ensures Chain(subs, cur).Some? <==> WalksBack(ts, ops, cur)
  {
    hide TreeRoot;
    if cur > 0 {
      FirstEndingAtIs(H, subs, ts, ops, cur, ops[cur].from);
      assert Predecessor(subs, cur) == CallBefore(ts, ops, cur);
      if CallBefore(ts, ops, cur).Some? { ChainIff(H, subs, ts, ops, CallBefore(ts, ops, cur).value); }
    }
  }

  /** The flush accepts the record of a run exactly when the walk from its last call reaches the first. */
  lemma RunAcceptedIff(H: Hasher, ps: TxPersistenceState, t0: Tree, ops: seq<Op>)
    requires CollisionFree(H) && WellFormed(t0, []) && ValidOps(ops) && ops != []
    requires RunRecord(H, ps, Trees(t0, ops), ops)
    ensures Consistent(ps) <==> WalksBack(Trees(t0, ops), ops, |ops| - 1)
  {
    hide Put, WellFormed, HashOf, KeyBits, OnPath, Depth, Trees, CollisionFree, SetStep, Chain, WalksBack, RootsDiffer;
    RunRoots(H, ps, t0, ops);
    TreesWellFormed(t0, ops, 0);
    assert Backward(ps.subState);
    ChainIff(H, ps.subState, Trees(t0, ops), ops, |ops| - 1);
  }
}
