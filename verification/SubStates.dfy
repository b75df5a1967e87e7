/** The records the state manager keeps per transaction, and the specification of what a flush
    makes of them: which sub-states survive, and which of their rows are pushed. */
module SubStates {
  import opened Results
  import opened SmtKeys

  /** A state root as text; the empty string is `NoRoot`. */
  datatype StateRoot = NoRoot | Root(hash: Quad)

  const PERSISTENCE_CACHE: nat := 0
  const PERSISTENCE_DATABASE: nat := 1
  const PERSISTENCE_TEMPORARY: nat := 2
  const PERSISTENCE_SIZE: nat := 3

  /** One `set` operation: the root it started from, the root it led to, and its rows. */
  datatype TxSubState = TxSubState(
    oldStateRoot: StateRoot,
    newStateRoot: StateRoot,
    previousSubState: nat,
    bValid: bool,
    dbWrite: map<Quad, Row>,
    dbDelete: seq<Quad>)

  datatype TxPersistenceState = TxPersistenceState(
    oldStateRoot: StateRoot,
    newStateRoot: StateRoot,
    currentSubState: nat,
    subState: seq<TxSubState>)

  const EMPTY_PERSISTENCE := TxPersistenceState(NoRoot, NoRoot, 0, [])

  type TxState = s: seq<TxPersistenceState> | |s| == 3
    witness [EMPTY_PERSISTENCE, EMPTY_PERSISTENCE, EMPTY_PERSISTENCE]

  const EMPTY_TX: TxState := [EMPTY_PERSISTENCE, EMPTY_PERSISTENCE, EMPTY_PERSISTENCE]

  datatype BatchState = BatchState(
    oldStateRoot: StateRoot,
    currentStateRoot: StateRoot,
    currentTx: nat,
    txState: seq<TxState>,
    dbWrite: map<Quad, Row>)

  // ---------------------------------------------------------------- invariant

  /** Every sub-state but the first was opened on top of an earlier one. */
  predicate Backward(subs: seq<TxSubState>) {
    forall i :: 0 < i < |subs| ==> subs[i].previousSubState < i
  }

  predicate PersistenceValid(ps: TxPersistenceState) {
    && ps.currentSubState == (if |ps.subState| == 0 then 0 else |ps.subState| - 1)
    && Backward(ps.subState)
  }

  predicate TxValid(tx: TxState) {
    forall p :: 0 <= p < 3 ==> PersistenceValid(tx[p])
  }

  predicate BatchValid(b: BatchState) {
    forall tx :: 0 <= tx < |b.txState| ==> TxValid(b.txState[tx])
  }

  // ---------------------------------------------------------------- sub-state steps

  /** The last sub-state has its new root, so the next `set` may open another one. */
  predicate Ready(ps: TxPersistenceState) {
    |ps.subState| == 0 || ps.subState[|ps.subState| - 1].newStateRoot != NoRoot
  }

  /** A sub-state is open: it still waits for its new root. */
  predicate Open(ps: TxPersistenceState) {
    |ps.subState| > 0 && ps.subState[|ps.subState| - 1].newStateRoot == NoRoot
  }

  /** Opening a sub-state at `root`. */
  function Begin(ps: TxPersistenceState, root: StateRoot): TxPersistenceState {
    ps.(oldStateRoot := if |ps.subState| == 0 then root else ps.oldStateRoot,
        subState := ps.subState + [TxSubState(root, NoRoot, ps.currentSubState, false, map[], [])],
        currentSubState := |ps.subState|)
  }

  function Last(ps: TxPersistenceState): TxSubState
    requires |ps.subState| > 0
  {
    ps.subState[|ps.subState| - 1]
  }

  function WithLast(ps: TxPersistenceState, s: TxSubState): TxPersistenceState
    requires |ps.subState| > 0
  {
    ps.(subState := ps.subState[..|ps.subState| - 1] + [s])
  }

  /** Giving the open sub-state its new root. */
  function Complete(ps: TxPersistenceState, root: StateRoot): TxPersistenceState
    requires |ps.subState| > 0
  {
    WithLast(ps, Last(ps).(newStateRoot := root)).(newStateRoot := root)
  }

  /** Every sub-state but the last has its new root. */
  predicate ClosedButLast(ps: TxPersistenceState) {
    forall i :: 0 <= i < |ps.subState| - 1 ==> ps.subState[i].newStateRoot != NoRoot
  }

  /** Opening and completing alternate: only a record without an open sub-state can open one, then it
      cannot open another until that one has its new root, and so every sub-state but the last has one. */
  lemma SubStatesAlternate(ps: TxPersistenceState, root: StateRoot)
    requires ClosedButLast(ps) && PersistenceValid(ps)
    ensures Ready(ps) <==> forall i :: 0 <= i < |ps.subState| ==> ps.subState[i].newStateRoot != NoRoot
    ensures Open(ps) <==> !Ready(ps)
    ensures Ready(ps) ==>
      var r := Begin(ps, root);
      PersistenceValid(r) && ClosedButLast(r) && Open(r) && Last(r).oldStateRoot == root
    ensures Open(ps) && root != NoRoot ==>
      var r := Complete(ps, root);
      PersistenceValid(r) && ClosedButLast(r) && Ready(r) && Last(r).newStateRoot == root && r.newStateRoot == root
  {
    if |ps.subState| > 0 { assert ps.subState[|ps.subState| - 1] == Last(ps); }
  }

  // ---------------------------------------------------------------- backtracking

  /** The first of the sub-states below `n` that ended at `root`. */
  function FirstEndingAt(subs: seq<TxSubState>, n: nat, root: StateRoot): (r: Option<nat>)
    requires n <= |subs|
    ensures r.Some? ==> r.value < n && subs[r.value].newStateRoot == root
    ensures r.Some? ==> forall i :: 0 <= i < r.value ==> subs[i].newStateRoot != root
    ensures r.None? ==> forall i :: 0 <= i < n ==> subs[i].newStateRoot != root
  {
    if n == 0 then None
    else
      var r := FirstEndingAt(subs, n - 1, root);
      if r.Some? then r
      else if subs[n - 1].newStateRoot == root then Some(n - 1) else None
  }

  /** The sub-state that produced the root `subs[cur]` started from. */
  function Predecessor(subs: seq<TxSubState>, cur: nat): (r: Option<nat>)
    requires 0 < cur < |subs| && Backward(subs)
    ensures r.Some? ==> r.value < cur && subs[r.value].newStateRoot == subs[cur].oldStateRoot
    ensures r.None? <==> forall i :: 0 <= i < cur ==> subs[i].newStateRoot != subs[cur].oldStateRoot
  {
    var p := subs[cur].previousSubState;
    if subs[p].newStateRoot == subs[cur].oldStateRoot then Some(p)
    else FirstEndingAt(subs, cur, subs[cur].oldStateRoot)
  }

  /** The sub-states visited when walking back from `cur`, in increasing order. */
  function Chain(subs: seq<TxSubState>, cur: nat): Option<seq<nat>>
    requires cur < |subs| && Backward(subs)
  {
    if cur == 0 then Some([0])
    else
      var p := Predecessor(subs, cur);
      if p.None? then None
      else
        var c := Chain(subs, p.value);
        if c.None? then None else Some(c.value + [cur])
  }

  /** An unbroken walk: strictly increasing from sub-state 0, each starting where the one before ended. */
  predicate Linked(subs: seq<TxSubState>, chain: seq<nat>) {
    && |chain| > 0 && chain[0] == 0
    && (forall i :: 0 <= i < |chain| ==> chain[i] < |subs|)
    && (forall i, j :: 0 <= i < j < |chain| ==> chain[i] < chain[j])
    && (forall i :: 0 <= i < |chain| - 1 ==> subs[chain[i]].newStateRoot == subs[chain[i + 1]].oldStateRoot)
  }

  lemma {:induction false} ChainLinked(subs: seq<TxSubState>, cur: nat)
    requires cur < |subs| && Backward(subs) && Chain(subs, cur).Some?
    ensures Linked(subs, Chain(subs, cur).value)
    ensures Chain(subs, cur).value[|Chain(subs, cur).value| - 1] == cur
  {
    if cur > 0 { ChainLinked(subs, Predecessor(subs, cur).value); }
  }

  /** The checks a flush makes on one transaction before it touches the database. */
  predicate Consistent(ps: TxPersistenceState) {
    |ps.subState| == 0 ||
    (&& ps.currentSubState < |ps.subState| && Backward(ps.subState)
     && ps.subState[ps.currentSubState].newStateRoot == ps.newStateRoot
     && Chain(ps.subState, ps.currentSubState).Some?
     && ps.subState[0].oldStateRoot == ps.oldStateRoot)
  }

  // ---------------------------------------------------------------- purging

  function MarkChain(subs: seq<TxSubState>, chain: seq<nat>): (r: seq<TxSubState>)
    ensures |r| == |subs|
  {
    seq(|subs|, i requires 0 <= i < |subs| => subs[i].(bValid := subs[i].bValid || i in chain))
  }

  predicate Kept(s: TxSubState) {
    s.bValid && s.oldStateRoot != s.newStateRoot
  }

  /** The sub-states on the chain that changed the root, in order. */
  function Survivors(subs: seq<TxSubState>): seq<TxSubState> {
    if subs == [] then []
    else
      var s := subs[|subs| - 1];
      Survivors(subs[..|subs| - 1]) + (if Kept(s) then [s] else [])
  }

  /** Exactly the visited sub-states that changed the root survive. */
  lemma {:induction false} SurvivorsExactly(subs: seq<TxSubState>, s: TxSubState)
    ensures s in Survivors(subs) <==> s in subs && s.bValid && s.oldStateRoot != s.newStateRoot
  {
    if subs != [] {
      var n := |subs| - 1;
      SurvivorsExactly(subs[..n], s);
      assert subs == subs[..n] + [subs[n]];
    }
  }

  /** A key some sub-state after `i` deletes. */
  predicate DeletedAfter(subs: seq<TxSubState>, i: int, key: Quad) {
    exists j :: 0 <= j < |subs| && j > i && key in subs[j].dbDelete
  }

  /** `r` is `subs` with every row dropped that a later sub-state deletes. */
  ghost predicate IsPruned(subs: seq<TxSubState>, r: seq<TxSubState>) {
    && |r| == |subs|
    && forall i :: 0 <= i < |subs| ==>
      && r[i] == subs[i].(dbWrite := r[i].dbWrite, dbDelete := [])
      && (forall k :: k in r[i].dbWrite <==> k in subs[i].dbWrite && !DeletedAfter(subs, i, k))
      && (forall k :: k in r[i].dbWrite ==> r[i].dbWrite[k] == subs[i].dbWrite[k])
  }

  /** All rows of a sequence of sub-states; a row already present is not overwritten. */
  function AllWrites(subs: seq<TxSubState>): map<Quad, Row> {
    if subs == [] then map[]
    else subs[|subs| - 1].dbWrite + AllWrites(subs[..|subs| - 1])
  }

  /** `key` is pushed with value `v`: an undeleted write of a surviving sub-state. */
  ghost predicate Pushed(survivors: seq<TxSubState>, key: Quad) {
    exists i :: 0 <= i < |survivors| && key in survivors[i].dbWrite && !DeletedAfter(survivors, i, key)
  }

  lemma {:induction false} AllWritesKeys(subs: seq<TxSubState>, key: Quad)
    ensures key in AllWrites(subs) <==> exists i :: 0 <= i < |subs| && key in subs[i].dbWrite
    ensures key in AllWrites(subs) ==>
      exists i :: 0 <= i < |subs| && key in subs[i].dbWrite && AllWrites(subs)[key] == subs[i].dbWrite[key]
  {
    if subs != [] {
      var n := |subs| - 1;
      AllWritesKeys(subs[..n], key);
      assert key in AllWrites(subs) <==> key in subs[n].dbWrite || key in AllWrites(subs[..n]);
      if key in AllWrites(subs[..n]) {
        var i :| 0 <= i < n && key in subs[..n][i].dbWrite && AllWrites(subs[..n])[key] == subs[..n][i].dbWrite[key];
        assert subs[i] == subs[..n][i];
      }
      if i :| 0 <= i < |subs| && key in subs[i].dbWrite {
        if i < n { assert subs[..n][i] == subs[i]; }
      }
    }
  }

  /** Exact meaning of the purge: a key reaches the database from this transaction iff a surviving
      sub-state wrote it and no later surviving sub-state deletes it. */
  lemma PurgeExact(survivors: seq<TxSubState>, pruned: seq<TxSubState>, key: Quad)
    requires IsPruned(survivors, pruned)
    ensures key in AllWrites(pruned) <==> Pushed(survivors, key)
  {
    AllWritesKeys(pruned, key);
    if i :| 0 <= i < |pruned| && key in pruned[i].dbWrite {
      assert key in survivors[i].dbWrite && !DeletedAfter(survivors, i, key);
    }
    if i :| 0 <= i < |survivors| && key in survivors[i].dbWrite && !DeletedAfter(survivors, i, key) {
      assert key in pruned[i].dbWrite;
    }
  }

  // ---------------------------------------------------------------- the surviving chain

  /** `subs` leads from `from` to `to` without a gap. */
  predicate Leads(subs: seq<TxSubState>, from: StateRoot, to: StateRoot) {
    if subs == [] then from == to
    else
      var n := |subs| - 1;
      subs[n].newStateRoot == to && Leads(subs[..n], from, subs[n].oldStateRoot)
  }

  lemma LeadsExtend(subs: seq<TxSubState>, s: TxSubState, from: StateRoot)
    requires Leads(subs, from, s.oldStateRoot)
    ensures Leads(subs + [s], from, s.newStateRoot)
  {
    assert (subs + [s])[..|subs|] == subs;
  }

  /** Walking the chain only: the sub-states of `marked` up to `n` that the chain visits. */
  lemma {:induction false} SurvivorsLead(subs: seq<TxSubState>, chain: seq<nat>, n: nat, k: nat)
    requires Linked(subs, chain) && n <= |subs| && k <= |chain|
    requires forall i :: 0 <= i < |subs| ==> !subs[i].bValid
    requires forall i :: 0 <= i < k ==> chain[i] < n
    requires forall i :: k <= i < |chain| ==> chain[i] >= n
    requires k > 0
    ensures Leads(Survivors(MarkChain(subs, chain)[..n]), subs[0].oldStateRoot, subs[chain[k - 1]].newStateRoot)
    decreases n
  {
    var m := MarkChain(subs, chain);
    assert m[..n][..n - 1] == m[..n - 1] && m[..n][n - 1] == m[n - 1];
    if chain[k - 1] == n - 1 {
      assert m[n - 1].bValid;
      if k == 1 {
        assert n == 1;
        assert Survivors(m[..0]) == [];
      } else {
        SurvivorsLead(subs, chain, n - 1, k - 1);
        assert subs[chain[k - 2]].newStateRoot == subs[chain[k - 1]].oldStateRoot;
      }
      assert Leads(Survivors(m[..n - 1]), subs[0].oldStateRoot, m[n - 1].oldStateRoot);
      LeadsExtend(Survivors(m[..n - 1]), m[n - 1], subs[0].oldStateRoot);
      if Kept(m[n - 1]) {
        assert Survivors(m[..n]) == Survivors(m[..n - 1]) + [m[n - 1]];
      } else {
        assert Survivors(m[..n]) == Survivors(m[..n - 1]);
      }
    } else {
      assert (n - 1) !in chain;
      SurvivorsLead(subs, chain, n - 1, k);
      assert Survivors(m[..n]) == Survivors(m[..n - 1]);
    }
  }

  /** After a successful first purging flush, what survives leads from the transaction's old root
      to its new root without a gap, although root-preserving sub-states were dropped. */
  lemma SurvivingChainUnbroken(ps: TxPersistenceState)
    requires Consistent(ps) && |ps.subState| > 0
    requires forall i :: 0 <= i < |ps.subState| ==> !ps.subState[i].bValid
    ensures var chain := Chain(ps.subState, ps.currentSubState).value;
      Leads(Survivors(MarkChain(ps.subState, chain)), ps.oldStateRoot, ps.newStateRoot)
  {
    var chain := Chain(ps.subState, ps.currentSubState).value;
    ChainLinked(ps.subState, ps.currentSubState);
    var m := MarkChain(ps.subState, chain);
    assert m[..|m|] == m;
    SurvivorsLead(ps.subState, chain, |ps.subState|, |chain|);
  }

  // ---------------------------------------------------------------- writes and semi-flush

  /** The record a write goes to: a first sub-state is opened if there is none. */
  function ForWrite(ps: TxPersistenceState, root: StateRoot, isNewTx: bool): (r: TxPersistenceState)
    ensures |r.subState| > 0
  {
    if |ps.subState| == 0 then
      ps.(oldStateRoot := if isNewTx then root else ps.oldStateRoot,
          subState := [TxSubState(root, NoRoot, 0, false, map[], [])], currentSubState := 0)
    else ps
  }

  function AddWrite(ps: TxPersistenceState, key: Quad, value: Row): TxPersistenceState
    requires |ps.subState| > 0
  {
    WithLast(ps, Last(ps).(dbWrite := Last(ps).dbWrite[key := value]))
  }

  function AddDelete(ps: TxPersistenceState, key: Quad): TxPersistenceState
    requires |ps.subState| > 0
  {
    WithLast(ps, Last(ps).(dbDelete := Last(ps).dbDelete + [key]))
  }

  /** The first sub-state from `n` on that started at `root`, or the length. */
  function FirstStartingAt(subs: seq<TxSubState>, n: nat, root: StateRoot): (i: nat)
    requires n <= |subs|
    ensures n <= i <= |subs|
    ensures i < |subs| ==> subs[i].oldStateRoot == root
    ensures forall j :: n <= j < i ==> subs[j].oldStateRoot != root
    decreases |subs| - n
  {
    if n == |subs| || subs[n].oldStateRoot == root then n else FirstStartingAt(subs, n + 1, root)
  }

  /** Rewinding a record to `root` when the transaction turned out to end there. */
  function Rewound(ps: TxPersistenceState, root: StateRoot): TxPersistenceState {
    var i := FirstStartingAt(ps.subState, 0, root);
    if ps.newStateRoot == root then ps
    else if ps.oldStateRoot == root then ps.(subState := [], newStateRoot := root, currentSubState := 0)
    else if i < |ps.subState| then
      ps.(newStateRoot := root, currentSubState := if i == 0 then 0 else i - 1, subState := ps.subState[..i])
    else ps
  }

  /** Each sub-state started where the one before it ended, from the transaction's old root on. */
  predicate Linear(ps: TxPersistenceState) {
    && PersistenceValid(ps)
    && (|ps.subState| > 0 ==>
      ps.subState[0].oldStateRoot == ps.oldStateRoot && Last(ps).newStateRoot == ps.newStateRoot)
    && forall i :: 0 < i < |ps.subState| ==>
         ps.subState[i].oldStateRoot == ps.subState[i - 1].newStateRoot && ps.subState[i].previousSubState == i - 1
  }

  lemma {:induction false} LinearChain(subs: seq<TxSubState>, cur: nat)
    requires cur < |subs| && Backward(subs)
    requires forall i :: 0 < i < |subs| ==>
      subs[i].oldStateRoot == subs[i - 1].newStateRoot && subs[i].previousSubState == i - 1
    ensures Chain(subs, cur) == Some(seq(cur + 1, i => i))
  {
    if cur == 0 {
      assert seq(1, i => i) == [0];
    } else {
      LinearChain(subs, cur - 1);
      assert seq(cur + 1, i => i) == seq(cur, i => i) + [cur];
    }
  }

  /** Rewinding a linear history to any root it passed through leaves a linear history that a
      flush accepts, ending at that root. */
  lemma RewindKeepsLinear(ps: TxPersistenceState, root: StateRoot)
    requires Linear(ps)
    requires ps.newStateRoot == root || ps.oldStateRoot == root || FirstStartingAt(ps.subState, 0, root) < |ps.subState|
    ensures Linear(Rewound(ps, root)) && Consistent(Rewound(ps, root))
    ensures Rewound(ps, root).newStateRoot == root && Rewound(ps, root).oldStateRoot == ps.oldStateRoot
  {
    var r := Rewound(ps, root);
    if |r.subState| > 0 { LinearChain(r.subState, r.currentSubState); }
  }

  /** The linear record passed `root`: it started there or some sub-state led there. */
  predicate Passed(ps: TxPersistenceState, root: StateRoot) {
    ps.oldStateRoot == root || exists i :: 0 <= i < |ps.subState| && ps.subState[i].newStateRoot == root
  }

  /** What a rewind keeps of a linear record: everything when it ends at the root already; nothing when it
      started there; otherwise everything up to the sub-state that first led there. A root the record
      never passed changes nothing. */
  lemma RewindKeepsExactly(ps: TxPersistenceState, root: StateRoot)
    requires Linear(ps)
    ensures var r := Rewound(ps, root);
      && (ps.newStateRoot == root || !Passed(ps, root) ==> r == ps)
      && (ps.newStateRoot != root && ps.oldStateRoot == root ==> r.subState == [] && r.newStateRoot == root)
      && (ps.newStateRoot != root && ps.oldStateRoot != root && Passed(ps, root) ==>
        && r.subState != [] && r.subState <= ps.subState && |r.subState| < |ps.subState|
        && Last(r).newStateRoot == root && r.newStateRoot == root
        && r.currentSubState == |r.subState| - 1
        && forall i :: 0 <= i < |r.subState| - 1 ==> r.subState[i].newStateRoot != root)
      && r.oldStateRoot == ps.oldStateRoot
  {
    var i := FirstStartingAt(ps.subState, 0, root);
    if ps.newStateRoot != root && ps.oldStateRoot != root {
      if j :| 0 <= j < |ps.subState| && ps.subState[j].newStateRoot == root {
        assert ps.subState[j + 1].oldStateRoot == root;
      }
      if i < |ps.subState| {
        assert ps.subState[i - 1].newStateRoot == root;
        forall j | 0 <= j < i - 1 ensures ps.subState[j].newStateRoot != root {
          assert ps.subState[j + 1].oldStateRoot != root;
        }
      }
    }
  }

  /** A write opens a record that has no sub-state yet at the current root of the batch. Once it has its
      new root, a flush accepts the record if the write created the transaction too; otherwise the
      record's own old root was never set, and the flush accepts it only if that happens to agree. */
  lemma WriteOpensRecord(ps: TxPersistenceState, root: StateRoot, isNewTx: bool, key: Quad, value: Row, to: StateRoot)
    requires |ps.subState| == 0
    ensures var r := AddWrite(ForWrite(ps, root, isNewTx), key, value);
      && PersistenceValid(r) && |r.subState| == 1 && Open(r)
      && Last(r).oldStateRoot == root && Last(r).dbWrite == map[key := value] && Last(r).dbDelete == []
      && (Consistent(Complete(r, to)) <==> isNewTx || ps.oldStateRoot == root)
  {
  }

  // ---------------------------------------------------------------- survivors of a concatenation

  lemma {:induction false} SurvivorsAppend(a: seq<TxSubState>, b: seq<TxSubState>)
    ensures Survivors(a + b) == Survivors(a) + Survivors(b)
  {
    if b == [] {
      assert a + b == a;
    } else {
      var n := |b| - 1;
      SurvivorsAppend(a, b[..n]);
      assert (a + b)[..|a + b| - 1] == a + b[..n];
    }
  }

  /** Progress of the pruning loops: sub-states below `ss` are done, then `k` of its deletions,
      and the next of them in the sub-states below `pss`. */
  predicate DeletedSoFar(subs: seq<TxSubState>, i: int, ss: nat, k: nat, pss: nat, key: Quad) {
    || (exists j :: i < j < ss && 0 <= j < |subs| && key in subs[j].dbDelete)
    || (ss < |subs| && i < ss && k <= |subs[ss].dbDelete| && key in subs[ss].dbDelete[..k])
    || (ss < |subs| && i < pss && k < |subs[ss].dbDelete| && key == subs[ss].dbDelete[k])
  }

  ghost predicate PrunedSoFar(subs: seq<TxSubState>, r: seq<TxSubState>, ss: nat, k: nat, pss: nat) {
    && |r| == |subs|
    && forall i :: 0 <= i < |subs| ==>
      && r[i] == subs[i].(dbWrite := r[i].dbWrite, dbDelete := if i < ss then [] else subs[i].dbDelete)
      && (forall key :: key in r[i].dbWrite <==> key in subs[i].dbWrite && !DeletedSoFar(subs, i, ss, k, pss, key))
      && (forall key :: key in r[i].dbWrite ==> r[i].dbWrite[key] == subs[i].dbWrite[key])
  }

  // ---------------------------------------------------------------- flush

  /** The sub-states whose rows one record sends to the database. */
  function FlushedFrom(ps: TxPersistenceState, purge: bool): seq<TxSubState>
    requires Consistent(ps)
  {
    if |ps.subState| == 0 then []
    else
      var marked := MarkChain(ps.subState, Chain(ps.subState, ps.currentSubState).value);
      if purge then Survivors(marked) else marked
  }

  /** `r` holds the rows record `ps` pushes. */
  ghost predicate IsFlushed(ps: TxPersistenceState, purge: bool, r: map<Quad, Row>)
    requires Consistent(ps)
  {
    exists subs ::
      && r == AllWrites(subs)
      && if purge then IsPruned(FlushedFrom(ps, purge), subs) else subs == FlushedFrom(ps, purge)
  }

  /** The pushed rows are determined key by key. */
  lemma FlushedExact(ps: TxPersistenceState, r: map<Quad, Row>, key: Quad)
    requires Consistent(ps) && IsFlushed(ps, true, r)
    ensures key in r <==> Pushed(FlushedFrom(ps, true), key)
  {
    var subs :| r == AllWrites(subs) && IsPruned(FlushedFrom(ps, true), subs);
    PurgeExact(FlushedFrom(ps, true), subs, key);
  }
}
