/** The state manager: every `set` of a batch is recorded as a sub-state, and a flush pushes what
    survives of them to the database. */
module StateManagers {
  import opened Results
  import opened SmtKeys
  import opened SubStates

  /** The database as the state manager and the tree see it: rows it can serve, and the state root.
      A reliable one fails no call. */
  class Database {
    var rows: map<Quad, Row>
    var stateRoot: StateRoot
    const reliable: bool

    constructor (reliable: bool)
      ensures rows == map[] && stateRoot == NoRoot && this.reliable == reliable
    {
      rows, stateRoot := map[], NoRoot;
      this.reliable := reliable;
    }

    method Read(key: Quad) returns (r: Option<Row>)
      ensures r == if key in rows then Some(rows[key]) else None
    {
      r := if key in rows then Some(rows[key]) else None;
    }

    /** A row that is already there stays; only persistent rows go to the database. */
    method Write(key: Quad, value: Row, persistent: bool) returns (zkr: ZkResult)
      modifies this`rows
      ensures zkr == ZKR_SUCCESS || (zkr == ZKR_DB_ERROR && !reliable)
      ensures rows == if zkr == ZKR_SUCCESS && persistent then map[key := value] + old(rows) else old(rows)
    {
      var fails: bool := *;
      if fails && !reliable { return ZKR_DB_ERROR; }
      if persistent { rows := map[key := value] + rows; }
      zkr := ZKR_SUCCESS;
    }

    method UpdateStateRoot(root: StateRoot) returns (zkr: ZkResult)
      modifies this`stateRoot
      ensures zkr == ZKR_SUCCESS || (zkr == ZKR_DB_ERROR && !reliable)
      ensures stateRoot == if zkr == ZKR_SUCCESS then root else old(stateRoot)
    {
      var fails: bool := *;
      if fails && !reliable { return ZKR_DB_ERROR; }
      stateRoot := root;
      zkr := ZKR_SUCCESS;
    }

    /** Handing the queued rows to the sender; the rows served do not change. */
    method Flush() returns (zkr: ZkResult)
      ensures zkr == ZKR_SUCCESS || (zkr == ZKR_DB_ERROR && !reliable)
    {
      var fails: bool := *;
      zkr := if fails && !reliable then ZKR_DB_ERROR else ZKR_SUCCESS;
    }
  }

  // ---------------------------------------------------------------- views of the state

  type States = map<string, BatchState>

  predicate HasTx(state: States, uuid: string, tx: nat) {
    uuid in state && tx < |state[uuid].txState|
  }

  /** The record of one (batch, transaction, persistence); empty when there is none yet. */
  function Record(state: States, uuid: string, tx: nat, p: nat): TxPersistenceState
    requires p < PERSISTENCE_SIZE
  {
    if HasTx(state, uuid, tx) then state[uuid].txState[tx][p] else EMPTY_PERSISTENCE
  }

  /** The rows a batch can read back. */
  function Written(state: States, uuid: string): map<Quad, Row> {
    if uuid in state then state[uuid].dbWrite else map[]
  }

  ghost predicate StatesValid(state: States) {
    forall uuid :: uuid in state ==> BatchValid(state[uuid])
  }

  /** Nothing but the named record differs. */
  ghost predicate OthersUnchanged(s0: States, s1: States, uuid: string, tx: nat, p: nat) {
    && (forall u :: u != uuid ==> (u in s0 <==> u in s1))
    && (forall u :: u != uuid && u in s0 ==> s0[u] == s1[u])
    && (forall t: nat, q: nat :: q < PERSISTENCE_SIZE && (t != tx || q != p) ==>
      Record(s0, uuid, t, q) == Record(s1, uuid, t, q))
  }

  /** The batch was entered at `root`: its own roots and its current transaction. */
  ghost predicate Entered(s0: States, s1: States, uuid: string, tx: nat, root: StateRoot, isOld: bool) {
    if !isOld && uuid !in s0 then s1 == s0
    else
      && uuid in s1 && s1[uuid].currentStateRoot == root
      && s1[uuid].oldStateRoot == (if uuid in s0 then s0[uuid].oldStateRoot else root)
      && s1[uuid].currentTx == (if isOld && !HasTx(s0, uuid, tx) then tx else s0[uuid].currentTx)
  }

  /** The batch keeps its own roots and its current transaction. */
  predicate SameHeader(s0: States, s1: States, uuid: string) {
    && (uuid in s0 <==> uuid in s1)
    && (uuid in s0 ==>
      && s1[uuid].oldStateRoot == s0[uuid].oldStateRoot && s1[uuid].currentStateRoot == s0[uuid].currentStateRoot
      && s1[uuid].currentTx == s0[uuid].currentTx)
  }

  function WithRecord(b: BatchState, tx: nat, p: nat, ps: TxPersistenceState): BatchState
    requires tx < |b.txState| && p < PERSISTENCE_SIZE
  {
    b.(txState := b.txState[tx := b.txState[tx][p := ps]])
  }

  lemma WithRecordValid(b: BatchState, tx: nat, p: nat, ps: TxPersistenceState)
    requires tx < |b.txState| && p < PERSISTENCE_SIZE && BatchValid(b) && PersistenceValid(ps)
    ensures BatchValid(WithRecord(b, tx, p, ps))
  {
    var b' := WithRecord(b, tx, p, ps);
    forall t | 0 <= t < |b'.txState| ensures TxValid(b'.txState[t]) {
      assert TxValid(b.txState[t]);
    }
  }

  /** Replacing one record of the states. */
  lemma RecordReplaced(s: States, uuid: string, tx: nat, p: nat, ps: TxPersistenceState)
    requires StatesValid(s) && HasTx(s, uuid, tx) && p < PERSISTENCE_SIZE && PersistenceValid(ps)
    ensures var s' := s[uuid := WithRecord(s[uuid], tx, p, ps)];
      && StatesValid(s') && HasTx(s', uuid, tx) && Record(s', uuid, tx, p) == ps
      && OthersUnchanged(s, s', uuid, tx, p) && Written(s', uuid) == Written(s, uuid)
  {
    WithRecordValid(s[uuid], tx, p, ps);
  }

  lemma RecordValid(s: States, uuid: string, tx: nat, p: nat)
    requires StatesValid(s) && HasTx(s, uuid, tx) && p < PERSISTENCE_SIZE
    ensures PersistenceValid(s[uuid].txState[tx][p]) && Record(s, uuid, tx, p) == s[uuid].txState[tx][p]
  {
    assert TxValid(s[uuid].txState[tx]);
  }

  // ---------------------------------------------------------------- what a flush does

  /** The last transaction that ended at `root`, counted from 1; 0 if there is none. */
  function LastEndingAt(txs: seq<TxState>, n: nat, root: StateRoot): (r: nat)
    requires n <= |txs|
    ensures r <= n && (r > 0 ==> txs[r - 1][PERSISTENCE_DATABASE].newStateRoot == root)
    ensures forall i :: r <= i < n ==> txs[i][PERSISTENCE_DATABASE].newStateRoot != root
  {
    if n == 0 || txs[n - 1][PERSISTENCE_DATABASE].newStateRoot == root then n else LastEndingAt(txs, n - 1, root)
  }

  /** The transaction's record for the database ended at `root`. */
  predicate EndsAtRoot(tx: TxState, root: StateRoot) {
    tx[PERSISTENCE_DATABASE].newStateRoot == root
  }

  /** A flush to `root` drops the transactions after the last one that ended there. */
  predicate DropsLater(txs: seq<TxState>, root: StateRoot, p: nat, purgeTxs: bool) {
    purgeTxs && root != NoRoot && p == PERSISTENCE_DATABASE && exists i :: 0 <= i < |txs| && EndsAtRoot(txs[i], root)
  }

  /** `r` is what a flush to `root` keeps: everything up to the last transaction that ended there, or
      everything. */
  ghost predicate IsRetained(txs: seq<TxState>, root: StateRoot, p: nat, purgeTxs: bool, r: seq<TxState>) {
    && r <= txs
    && (DropsLater(txs, root, p, purgeTxs) ==>
      && r != [] && EndsAtRoot(r[|r| - 1], root)
      && forall i :: |r| <= i < |txs| ==> !EndsAtRoot(txs[i], root))
    && (!DropsLater(txs, root, p, purgeTxs) ==> r == txs)
  }

  /** The transactions a flush to `root` keeps. */
  function Retained(txs: seq<TxState>, root: StateRoot, p: nat, purgeTxs: bool): (r: seq<TxState>)
    ensures IsRetained(txs, root, p, purgeTxs, r)
  {
    var n := LastEndingAt(txs, |txs|, root);
    if purgeTxs && root != NoRoot && p == PERSISTENCE_DATABASE && n > 0 then txs[..n] else txs
  }

  predicate FlushAccepts(txs: seq<TxState>) {
    forall t :: 0 <= t < |txs| ==> Consistent(txs[t][PERSISTENCE_CACHE]) && Consistent(txs[t][PERSISTENCE_DATABASE])
  }

  /** No record is left waiting for its new root. */
  predicate Finished(txs: seq<TxState>) {
    forall t :: 0 <= t < |txs| && |txs[t][PERSISTENCE_DATABASE].subState| > 0 ==>
        txs[t][PERSISTENCE_DATABASE].newStateRoot != NoRoot
  }

  /** `pushes` lists what each transaction sends to the database. */
  ghost predicate ArePushes(txs: seq<TxState>, purge: bool, pushes: seq<map<Quad, Row>>)
    requires FlushAccepts(txs)
  {
    |pushes| == |txs| && forall t :: 0 <= t < |txs| ==> IsFlushed(txs[t][PERSISTENCE_DATABASE], purge, pushes[t])
  }

  /** All pushed rows on top of what the database has; a row already present stays. */
  function Merged(pushes: seq<map<Quad, Row>>, rows: map<Quad, Row>): map<Quad, Row> {
    if pushes == [] then rows else pushes[|pushes| - 1] + Merged(pushes[..|pushes| - 1], rows)
  }

  /** The state root the database is left with. */
  function FinalRoot(txs: seq<TxState>, before: StateRoot): StateRoot {
    if txs == [] then before
    else if |txs[|txs| - 1][PERSISTENCE_DATABASE].subState| > 0 then txs[|txs| - 1][PERSISTENCE_DATABASE].newStateRoot
    else FinalRoot(txs[..|txs| - 1], before)
  }

  /** No row was lost or overwritten. */
  predicate Grew(before: map<Quad, Row>, after: map<Quad, Row>) {
    before.Keys <= after.Keys && forall h :: h in before ==> after[h] == before[h]
  }

  /** How the flush of one record can end. */
  datatype RecordFlush = Flushed | Inconsistent | Failed | NoNewRoot

  class StateManager {
    var state: States
    const purge: bool
    const purgeTxs: bool

    constructor (purge: bool, purgeTxs: bool)
      ensures state == map[] && this.purge == purge && this.purgeTxs == purgeTxs
    {
      state := map[];
      this.purge, this.purgeTxs := purge, purgeTxs;
    }

    ghost predicate Valid()
      reads this
    {
      StatesValid(state)
    }

    /** `setOldStateRoot` and `setNewStateRoot` of the source call this with the flag set or clear. */
    method SetStateRoot(uuid: string, tx: nat, root: StateRoot, isOld: bool, p: nat) returns (zkr: ZkResult)
      requires Valid()
      modifies this
      ensures Valid()
      ensures p >= PERSISTENCE_SIZE ==> zkr != ZKR_SUCCESS && state == old(state)
      ensures p < PERSISTENCE_SIZE && isOld ==>
        && (zkr == ZKR_SUCCESS <==> Ready(old(Record(state, uuid, tx, p))))
        && Record(state, uuid, tx, p) == (if zkr == ZKR_SUCCESS then Begin(old(Record(state, uuid, tx, p)), root)
                                          else old(Record(state, uuid, tx, p)))
        && HasTx(state, uuid, tx)
      ensures p < PERSISTENCE_SIZE && !isOld ==>
        && (zkr == ZKR_SUCCESS <==> Open(old(Record(state, uuid, tx, p))))
        && Record(state, uuid, tx, p) == (if zkr == ZKR_SUCCESS then Complete(old(Record(state, uuid, tx, p)), root)
                                          else old(Record(state, uuid, tx, p)))
      ensures p < PERSISTENCE_SIZE ==> OthersUnchanged(old(state), state, uuid, tx, p)
      ensures p < PERSISTENCE_SIZE ==> Entered(old(state), state, uuid, tx, root, isOld)
      ensures Written(state, uuid) == old(Written(state, uuid))
    {
      if p >= PERSISTENCE_SIZE { return ZKR_STATE_MANAGER; }
      zkr := EnterTx(uuid, tx, root, isOld);
      if zkr != ZKR_SUCCESS { return; }
      var b := state[uuid];
      var ps: TxPersistenceState;
      RecordValid(state, uuid, tx, p);
      zkr, ps := NextRecord(b.txState[tx][p], root, isOld);
      if zkr != ZKR_SUCCESS { return; }
      RecordReplaced(state, uuid, tx, p, ps);
      state := state[uuid := WithRecord(b, tx, p, ps)];
    }

    /** Find or create the batch and the transaction; only an old state root may create them. */
    method EnterTx(uuid: string, tx: nat, root: StateRoot, isOld: bool) returns (zkr: ZkResult)
      requires Valid()
      modifies this
      ensures Valid()
      ensures zkr == ZKR_SUCCESS || zkr == ZKR_STATE_MANAGER
      ensures zkr == ZKR_SUCCESS <==> isOld || old(HasTx(state, uuid, tx))
      ensures zkr == ZKR_SUCCESS ==> HasTx(state, uuid, tx)
      ensures Entered(old(state), state, uuid, tx, root, isOld)
      ensures forall t: nat, q: nat :: q < PERSISTENCE_SIZE ==>
        Record(state, uuid, t, q) == Record(old(state), uuid, t, q)
      ensures forall u :: u != uuid ==> (u in state <==> u in old(state))
      ensures forall u :: u != uuid && u in old(state) ==> state[u] == old(state)[u]
      ensures Written(state, uuid) == old(Written(state, uuid))
    {
      if uuid !in state {
        if !isOld { return ZKR_STATE_MANAGER; }
        state := state[uuid := BatchState(root, NoRoot, 0, [], map[])];
      }
      var b := state[uuid].(currentStateRoot := root);
      assert BatchValid(state[uuid]);
      if tx >= |b.txState| {
        if !isOld {
          state := state[uuid := b];
          return ZKR_STATE_MANAGER;
        }
        b := b.(txState := b.txState + seq(tx - |b.txState| + 1, i => EMPTY_TX), currentTx := tx);
      }
      state := state[uuid := b];
      zkr := ZKR_SUCCESS;
    }

    /** The part of `setStateRoot` that works on one record. */
    static method NextRecord(ps: TxPersistenceState, root: StateRoot, isOld: bool)
      returns (zkr: ZkResult, r: TxPersistenceState)
      requires PersistenceValid(ps)
      ensures PersistenceValid(r)
      ensures isOld ==> (zkr == ZKR_SUCCESS <==> Ready(ps)) && r == if Ready(ps) then Begin(ps, root) else ps
      ensures !isOld ==> (zkr == ZKR_SUCCESS <==> Open(ps)) && r == if Open(ps) then Complete(ps, root) else ps
    {
      var size := |ps.subState|;
      r := ps;
      if isOld {
        if size == 0 {
          if ps.currentSubState != 0 { return ZKR_STATE_MANAGER, ps; }
          r := r.(oldStateRoot := root);
        } else {
          if ps.currentSubState >= size { return ZKR_STATE_MANAGER, ps; }
          if ps.subState[size - 1].newStateRoot == NoRoot { return ZKR_STATE_MANAGER, ps; }
        }
        var s := TxSubState(root, NoRoot, r.currentSubState, false, map[], []);
        r := r.(subState := r.subState + [s]);
        r := r.(currentSubState := |r.subState| - 1);
      } else {
        var cur := ps.currentSubState;
        if cur >= size { return ZKR_STATE_MANAGER, ps; }
        if ps.subState[cur].newStateRoot != NoRoot { return ZKR_STATE_MANAGER, ps; }
        r := r.(subState := r.subState[cur := r.subState[cur].(newStateRoot := root)]);
        r := r.(newStateRoot := root);
        assert r.subState == Complete(ps, root).subState;
      }
      zkr := ZKR_SUCCESS;
    }

    method Write(uuid: string, tx: nat, key: Quad, value: Row, p: nat) returns (zkr: ZkResult)
      requires Valid()
      modifies this
      ensures Valid()
      ensures zkr == ZKR_SUCCESS || zkr == ZKR_STATE_MANAGER
      ensures zkr == ZKR_SUCCESS <==> p < PERSISTENCE_SIZE && uuid in old(state) && tx <= |old(state)[uuid].txState|
      ensures zkr != ZKR_SUCCESS ==> state == old(state)
      ensures zkr == ZKR_SUCCESS ==>
        && Record(state, uuid, tx, p) == AddWrite(ForWrite(old(Record(state, uuid, tx, p)),
             old(state)[uuid].currentStateRoot, tx == |old(state)[uuid].txState|), key, value)
        && HasTx(state, uuid, tx)
        && OthersUnchanged(old(state), state, uuid, tx, p)
        && Written(state, uuid) == old(Written(state, uuid))[key := value] && SameHeader(old(state), state, uuid)
    {
      if p >= PERSISTENCE_SIZE { return ZKR_STATE_MANAGER; }
      if uuid !in state { return ZKR_STATE_MANAGER; }
      var b := state[uuid];
      if tx > |b.txState| { return ZKR_STATE_MANAGER; }
      assert BatchValid(b);
      if tx == |b.txState| {
        var aux: TxState := EMPTY_TX;
        aux := aux[p := aux[p].(oldStateRoot := b.currentStateRoot)];
        b := b.(txState := b.txState + [aux]);
      }
      assert BatchValid(b);
      var ps := b.txState[tx][p];
      assert TxValid(b.txState[tx]);
      ps := AddToRecord(ps, b.currentStateRoot, key, value);
      WithRecordValid(b, tx, p, ps);
      state := state[uuid := WithRecord(b, tx, p, ps).(dbWrite := b.dbWrite[key := value])];
      zkr := ZKR_SUCCESS;
    }

    /** The part of `write` that works on one record. */
    static method AddToRecord(ps: TxPersistenceState, root: StateRoot, key: Quad, value: Row)
      returns (r: TxPersistenceState)
      requires PersistenceValid(ps)
      ensures PersistenceValid(r) && r == AddWrite(ForWrite(ps, root, false), key, value)
    {
      r := ps;
      if |r.subState| == 0 {
        r := r.(subState := [TxSubState(root, NoRoot, 0, false, map[], [])], currentSubState := 0);
      }
      var cur := r.currentSubState;
      var s := r.subState[cur];
      r := r.(subState := r.subState[cur := s.(dbWrite := s.dbWrite[key := value])]);
      assert r.subState == r.subState[..cur] + [r.subState[cur]];
    }

    method DeleteNode(uuid: string, tx: nat, key: Quad, p: nat) returns (zkr: ZkResult)
      requires Valid()
      modifies this
      ensures Valid()
      ensures zkr == ZKR_SUCCESS <==> p < PERSISTENCE_SIZE && |old(Record(state, uuid, tx, p)).subState| > 0
      ensures zkr != ZKR_SUCCESS ==> state == old(state)
      ensures zkr == ZKR_SUCCESS ==>
        && Record(state, uuid, tx, p) == AddDelete(old(Record(state, uuid, tx, p)), key)
        && HasTx(state, uuid, tx)
        && OthersUnchanged(old(state), state, uuid, tx, p)
        && Written(state, uuid) == old(Written(state, uuid)) && SameHeader(old(state), state, uuid)
    {
      if p >= PERSISTENCE_SIZE { return ZKR_STATE_MANAGER; }
      if uuid !in state { return ZKR_STATE_MANAGER; }
      var b := state[uuid];
      if tx >= |b.txState| { return ZKR_STATE_MANAGER; }
      assert TxValid(b.txState[tx]);
      var ps := b.txState[tx][p];
      hide StatesValid, OthersUnchanged, Written;
      if |ps.subState| == 0 { return ZKR_STATE_MANAGER; }
      if ps.currentSubState >= |ps.subState| { return ZKR_STATE_MANAGER; }
      var cur := ps.currentSubState;
      var s := ps.subState[cur];
      ps := ps.(subState := ps.subState[cur := s.(dbDelete := s.dbDelete + [key])]);
      assert ps.subState == ps.subState[..cur] + [ps.subState[cur]];
      RecordReplaced(state, uuid, tx, p, ps);
      state := state[uuid := WithRecord(b, tx, p, ps)];
      zkr := ZKR_SUCCESS;
    }

    method Read(uuid: string, key: Quad) returns (r: Option<Row>)
      ensures r == if key in Written(state, uuid) then Some(Written(state, uuid)[key]) else None
    {
      if uuid !in state { return None; }
      var b := state[uuid];
      if key in b.dbWrite { return Some(b.dbWrite[key]); }
      r := None;
    }

    method SemiFlush(uuid: string, root: StateRoot, p: nat) returns (zkr: ZkResult)
      requires Valid()
      modifies this
      ensures Valid()
      ensures zkr == ZKR_SUCCESS <==>
        p < PERSISTENCE_SIZE && (uuid in old(state) ==> old(state)[uuid].currentTx < |old(state)[uuid].txState|)
      ensures zkr != ZKR_SUCCESS || uuid !in old(state) ==> state == old(state)
      ensures zkr == ZKR_SUCCESS && uuid in old(state) ==>
        var tx := old(state)[uuid].currentTx;
        && Record(state, uuid, tx, p) == (if purge then
          Rewound(old(Record(state, uuid, state[uuid].currentTx, p)), root)
                                          else old(Record(state, uuid, state[uuid].currentTx, p)))
        && OthersUnchanged(old(state), state, uuid, tx, p)
        && Written(state, uuid) == old(Written(state, uuid)) && SameHeader(old(state), state, uuid)
    {
      if p >= PERSISTENCE_SIZE { return ZKR_STATE_MANAGER; }
      if uuid !in state { return ZKR_SUCCESS; }
      var b := state[uuid];
      var tx := b.currentTx;
      if tx >= |b.txState| { return ZKR_STATE_MANAGER; }
      RecordValid(state, uuid, tx, p);
      hide StatesValid, OthersUnchanged, Record, PersistenceValid;
      var ps := b.txState[tx][p];
      if ps.newStateRoot == root {
      } else if ps.oldStateRoot == root {
        if purge {
          ps := ps.(subState := [], newStateRoot := root, currentSubState := 0);
        }
      } else if purge {
        ps := RewindLoop(ps, root);
      }
      EmptiedValid(b.txState[tx][p], root);
      RecordReplaced(state, uuid, tx, p, ps);
      state := state[uuid := WithRecord(b, tx, p, ps)];
      zkr := ZKR_SUCCESS;
    }

    static lemma EmptiedValid(ps: TxPersistenceState, root: StateRoot)
      ensures PersistenceValid(ps.(subState := [], newStateRoot := root, currentSubState := 0))
    {
    }

    /** Search for the first sub-state opened at `root` and drop it and everything after it. */
    static method RewindLoop(ps: TxPersistenceState, root: StateRoot) returns (r: TxPersistenceState)
      requires PersistenceValid(ps) && ps.newStateRoot != root && ps.oldStateRoot != root
      ensures PersistenceValid(r) && r == Rewound(ps, root)
    {
      r := ps;
      var size := |ps.subState|;
      var i := 0;
      while i < size && ps.subState[i].oldStateRoot != root
        invariant 0 <= i <= size
        invariant FirstStartingAt(ps.subState, 0, root) == FirstStartingAt(ps.subState, i, root)
      {
        i := i + 1;
      }
      if i < size {
        r := r.(newStateRoot := root, currentSubState := if i == 0 then 0 else i - 1);
        var j := i;
        while j < size
          invariant i <= j <= size
          invariant r == ps.(newStateRoot := root, currentSubState := if i == 0 then 0 else i - 1,
                             subState := ps.subState[..size - (j - i)])
        {
          r := r.(subState := r.subState[..|r.subState| - 1]);
          j := j + 1;
        }
      }
    }

    // -------------------------------------------------------------- flush

    /** Walk back from the current sub-state to the first one, marking what is visited. */
    static method MarkLoop(ps: TxPersistenceState) returns (ok: bool, r: seq<TxSubState>)
      requires |ps.subState| > 0 && ps.currentSubState < |ps.subState| && Backward(ps.subState)
      ensures ok <==> Chain(ps.subState, ps.currentSubState).Some? && ps.subState[0].oldStateRoot == ps.oldStateRoot
      ensures ok ==> r == MarkChain(ps.subState, Chain(ps.subState, ps.currentSubState).value)
      ensures |r| == |ps.subState| && forall i :: 0 <= i < |r| ==> r[i] == ps.subState[i].(bValid := r[i].bValid)
    {
      var subs := ps.subState;
      r := subs;
      var cur: nat := ps.currentSubState;
      ghost var tail: seq<nat> := [];
      while true
        invariant cur < |subs| && |r| == |subs|
        invariant forall i :: 0 <= i < |r| ==> r[i] == subs[i].(bValid := subs[i].bValid || i in tail)
        invariant Chain(subs, ps.currentSubState).Some? <==> Chain(subs, cur).Some?
        invariant Chain(subs, cur).Some? ==> Chain(subs, ps.currentSubState).value == Chain(subs, cur).value + tail
        decreases cur
      {
        ghost var was := tail;
        tail := [cur] + tail;
        r := r[cur := r[cur].(bValid := true)];
        if cur == 0 {
          if r[cur].oldStateRoot != ps.oldStateRoot { return false, r; }
          assert Chain(subs, ps.currentSubState).value == tail;
          return true, r;
        }
        var previous := FindPredecessor(r, cur);
        SamePredecessor(subs, r, cur);
        if previous.None? { return false, r; }
        ChainStep(subs, cur, was);
        cur := previous.value;
      }
    }

    /** The recorded predecessor if its root matches, otherwise a search from the first sub-state. */
    static method FindPredecessor(subs: seq<TxSubState>, cur: nat) returns (r: Option<nat>)
      requires 0 < cur < |subs| && Backward(subs)
      ensures r == Predecessor(subs, cur)
    {
      var previous := subs[cur].previousSubState;
      if subs[previous].newStateRoot == subs[cur].oldStateRoot { return Some(previous); }
      var i := 0;
      while i < cur && subs[i].newStateRoot != subs[cur].oldStateRoot
        invariant 0 <= i <= cur
        invariant forall j :: 0 <= j < i ==> subs[j].newStateRoot != subs[cur].oldStateRoot
      {
        i := i + 1;
      }
      r := if i == cur then None else Some(i);
    }

    /** Marking changes no root, so it does not change where a sub-state came from. */
    static lemma SamePredecessor(subs: seq<TxSubState>, marked: seq<TxSubState>, cur: nat)
      requires 0 < cur < |subs| == |marked| && Backward(subs)
      requires forall i :: 0 <= i < |subs| ==> marked[i] == subs[i].(bValid := marked[i].bValid)
      ensures Backward(marked) && Predecessor(marked, cur) == Predecessor(subs, cur)
    {
      assert subs[cur].oldStateRoot == marked[cur].oldStateRoot;
      forall i | 0 <= i < |subs| ensures marked[i].newStateRoot == subs[i].newStateRoot {}
    }

    static lemma ChainStep(subs: seq<TxSubState>, cur: nat, tail: seq<nat>)
      requires 0 < cur < |subs| && Backward(subs) && Predecessor(subs, cur).Some?
      ensures var p := Predecessor(subs, cur).value;
        && (Chain(subs, cur).Some? <==> Chain(subs, p).Some?)
        && (Chain(subs, p).Some? ==> Chain(subs, cur).value + tail == Chain(subs, p).value + ([cur] + tail))
    {
    }

    static lemma SurvivorsFrom(subs: seq<TxSubState>, i: nat)
      requires i < |subs|
      ensures Survivors(subs[i..]) == (if Kept(subs[i]) then [subs[i]] else []) + Survivors(subs[i + 1..])
    {
      assert subs[i..] == [subs[i]] + subs[i + 1..];
      SurvivorsAppend([subs[i]], subs[i + 1..]);
      assert [subs[i]][..0] == [];
    }

    /** Erase from the back every sub-state that is not on the chain or did not change the root. */
    static method EraseLoop(subs: seq<TxSubState>) returns (r: seq<TxSubState>)
      ensures r == Survivors(subs)
    {
      r := subs;
      var i := |subs| - 1;
      assert subs[..i + 1] + Survivors(subs[i + 1..]) == subs;
      hide Survivors;
      while i >= 0
        invariant -1 <= i < |subs|
        invariant r == subs[..i + 1] + Survivors(subs[i + 1..])
      {
        SurvivorsFrom(subs, i);
        assert r[i] == subs[i];
        if !r[i].bValid || r[i].oldStateRoot == r[i].newStateRoot {
          r := r[..i] + r[i + 1..];
        }
        i := i - 1;
      }
      assert subs[0..] == subs;
    }

    /** Drop from earlier sub-states every row that a later one deletes. */
    static method PruneLoop(subs: seq<TxSubState>) returns (r: seq<TxSubState>)
      ensures IsPruned(subs, r)
    {
      hide DeletedSoFar, IsPruned, PrunedSoFar;
      r := subs;
      PruneStart(subs);
      var ss := 0;
      while ss < |r|
        invariant 0 <= ss <= |subs| == |r| && PrunedSoFar(subs, r, ss, 0, 0)
      {
        PruneShape(subs, r, ss);
        var k := 0;
        while k < |r[ss].dbDelete|
          invariant |r| == |subs| && r[ss].dbDelete == subs[ss].dbDelete
          invariant 0 <= k <= |subs[ss].dbDelete| && PrunedSoFar(subs, r, ss, k, 0)
        {
          var pss := 0;
          while pss < ss
            invariant |r| == |subs| && r[ss].dbDelete == subs[ss].dbDelete
            invariant 0 <= pss <= ss && PrunedSoFar(subs, r, ss, k, pss)
          {
            var d := r[ss].dbDelete[k];
            ghost var was := r;
            r := r[pss := r[pss].(dbWrite := r[pss].dbWrite - {d})];
            PruneStep(subs, was, r, ss, k, pss);
            pss := pss + 1;
          }
          PruneKeyDone(subs, r, ss, k);
          k := k + 1;
        }
        PruneSubStateDone(subs, r, ss);
        r := r[ss := r[ss].(dbDelete := [])];
        ss := ss + 1;
      }
      PruneDone(subs, r);
    }

    static lemma PruneStart(subs: seq<TxSubState>)
      ensures PrunedSoFar(subs, subs, 0, 0, 0)
    {
    }

    static lemma PruneShape(subs: seq<TxSubState>, r: seq<TxSubState>, ss: nat)
      requires ss < |subs| && PrunedSoFar(subs, r, ss, 0, 0)
      ensures |r| == |subs| && r[ss].dbDelete == subs[ss].dbDelete
    {
    }

    static lemma PruneStep(subs: seq<TxSubState>, r: seq<TxSubState>, r': seq<TxSubState>, ss: nat, k: nat, pss: nat)
      requires ss < |subs| && PrunedSoFar(subs, r, ss, k, pss) && k < |subs[ss].dbDelete| && pss < ss
      requires r' == r[pss := r[pss].(dbWrite := r[pss].dbWrite - {subs[ss].dbDelete[k]})]
      ensures PrunedSoFar(subs, r', ss, k, pss + 1)
    {
      var d := subs[ss].dbDelete[k];
      forall i, key | 0 <= i < |subs|
        ensures DeletedSoFar(subs, i, ss, k, pss + 1, key) <==>
          DeletedSoFar(subs, i, ss, k, pss, key) || (i == pss && key == d)
      {
      }
    }

    static lemma PruneKeyDone(subs: seq<TxSubState>, r: seq<TxSubState>, ss: nat, k: nat)
      requires ss < |subs| && k < |subs[ss].dbDelete| && PrunedSoFar(subs, r, ss, k, ss)
      ensures PrunedSoFar(subs, r, ss, k + 1, 0)
    {
      assert subs[ss].dbDelete[..k + 1] == subs[ss].dbDelete[..k] + [subs[ss].dbDelete[k]];
      forall i, key | 0 <= i < |subs|
        ensures DeletedSoFar(subs, i, ss, k + 1, 0, key) <==> DeletedSoFar(subs, i, ss, k, ss, key)
      {
      }
    }

    static lemma PruneSubStateDone(subs: seq<TxSubState>, r: seq<TxSubState>, ss: nat)
      requires ss < |subs| && PrunedSoFar(subs, r, ss, |subs[ss].dbDelete|, 0)
      ensures PrunedSoFar(subs, r[ss := r[ss].(dbDelete := [])], ss + 1, 0, 0)
    {
      var deletes := subs[ss].dbDelete;
      assert deletes[..|deletes|] == deletes;
      forall i, key | 0 <= i < |subs|
        ensures DeletedSoFar(subs, i, ss + 1, 0, 0, key) <==> DeletedSoFar(subs, i, ss, |deletes|, 0, key)
      {
        if ss + 1 < |subs| { assert subs[ss + 1].dbDelete[..0] == []; }
      }
    }

    static lemma PruneDone(subs: seq<TxSubState>, r: seq<TxSubState>)
      requires PrunedSoFar(subs, r, |subs|, 0, 0)
      ensures IsPruned(subs, r)
    {
      forall i, key | 0 <= i < |subs|
        ensures DeletedSoFar(subs, i, |subs|, 0, 0, key) <==> DeletedAfter(subs, i, key)
      {
      }
    }

    /** Write the rows of one sub-state, in any order; stops at the first failure. */
    static method PushRows(db: Database, writes: map<Quad, Row>, persistent: bool) returns (zkr: ZkResult)
      modifies db`rows
      ensures zkr == ZKR_SUCCESS || (zkr == ZKR_DB_ERROR && !db.reliable)
      ensures zkr == ZKR_SUCCESS ==> db.rows == if persistent then writes + old(db.rows) else old(db.rows)
      ensures Grew(old(db.rows), db.rows)
    {
      var todo := writes.Keys;
      ghost var done: set<Quad> := {};
      while todo != {}
        invariant todo + done == writes.Keys && todo * done == {}
        invariant db.rows == if persistent then (map k | k in done :: writes[k]) + old(db.rows) else old(db.rows)
      {
        var key :| key in todo;
        zkr := db.Write(key, writes[key], persistent);
        if zkr != ZKR_SUCCESS { return; }
        todo, done := todo - {key}, done + {key};
      }
      assert (map k | k in done :: writes[k]) == writes;
      zkr := ZKR_SUCCESS;
    }

    static method PushSubStates(db: Database, subs: seq<TxSubState>, persistent: bool) returns (zkr: ZkResult)
      modifies db`rows
      ensures zkr == ZKR_SUCCESS || (zkr == ZKR_DB_ERROR && !db.reliable)
      ensures zkr == ZKR_SUCCESS ==> db.rows == if persistent then AllWrites(subs) + old(db.rows) else old(db.rows)
      ensures Grew(old(db.rows), db.rows)
    {
      assert subs[..0] == [] && AllWrites([]) == map[];
      hide AllWrites;
      for ss := 0 to |subs|
        invariant db.rows == if persistent then AllWrites(subs[..ss]) + old(db.rows) else old(db.rows)
      {
        zkr := PushRows(db, subs[ss].dbWrite, persistent);
        if zkr != ZKR_SUCCESS { return; }
        NextWrites(subs, ss, old(db.rows));
      }
      assert subs[..|subs|] == subs;
      zkr := ZKR_SUCCESS;
    }

    static lemma NextWrites(subs: seq<TxSubState>, ss: nat, rows: map<Quad, Row>)
      requires ss < |subs|
      ensures subs[ss].dbWrite + (AllWrites(subs[..ss]) + rows) == AllWrites(subs[..ss + 1]) + rows
    {
      assert subs[..ss + 1][..ss] == subs[..ss];
    }

    /** Purge one record and send its rows and its root to the database. */
    method FlushRecord(db: Database, ps: TxPersistenceState, p: nat)
      returns (r: RecordFlush, subs: seq<TxSubState>, ghost pushed: map<Quad, Row>)
      requires PersistenceValid(ps) && p < PERSISTENCE_TEMPORARY
      modifies db
      ensures r.Inconsistent? <==> !Consistent(ps)
      ensures r.Failed? ==> !db.reliable
      ensures Grew(old(db.rows), db.rows)
      ensures r.Inconsistent? ==> db.rows == old(db.rows) && db.stateRoot == old(db.stateRoot)
      ensures r.NoNewRoot? ==> p == PERSISTENCE_DATABASE && |ps.subState| > 0 && ps.newStateRoot == NoRoot
      ensures r.Flushed? && p == PERSISTENCE_CACHE ==> db.rows == old(db.rows) && db.stateRoot == old(db.stateRoot)
      ensures r.Flushed? && p == PERSISTENCE_DATABASE ==>
        && IsFlushed(ps, purge, pushed)
        && db.rows == pushed + old(db.rows)
        && db.stateRoot == (if |ps.subState| > 0 then ps.newStateRoot else old(db.stateRoot))
        && (|ps.subState| > 0 ==> ps.newStateRoot != NoRoot)
    {
      subs := ps.subState;
      pushed := map[];
      if |ps.subState| == 0 {
        assert AllWrites([]) == map[] && IsPruned([], []);
        return Flushed, subs, pushed;
      }
      if ps.subState[ps.currentSubState].newStateRoot != ps.newStateRoot { return Inconsistent, subs, pushed; }
      var ok;
      ok, subs := MarkLoop(ps);
      if !ok { return Inconsistent, subs, pushed; }
      if purge {
        subs := EraseLoop(subs);
        assert subs == FlushedFrom(ps, purge);
        subs := PruneLoop(subs);
      }
      pushed := AllWrites(subs);
      assert IsFlushed(ps, purge, pushed);
      var zkr := PushSubStates(db, subs, p == PERSISTENCE_DATABASE);
      if zkr != ZKR_SUCCESS { return Failed, subs, pushed; }
      if p == PERSISTENCE_DATABASE {
        if ps.newStateRoot == NoRoot { return NoNewRoot, subs, pushed; }
        zkr := db.UpdateStateRoot(ps.newStateRoot);
        if zkr != ZKR_SUCCESS { return Failed, subs, pushed; }
      }
      r := Flushed;
    }

    /** Push everything a batch recorded and forget the batch. */
    method Flush(uuid: string, root: StateRoot, p: nat, db: Database)
      returns (zkr: ZkResult, ghost pushes: seq<map<Quad, Row>>)
      requires Valid()
      modifies this, db
      ensures forall u :: u != uuid ==> (u in state <==> u in old(state))
      ensures forall u :: u != uuid && u in old(state) ==> state[u] == old(state)[u]
      ensures uuid !in old(state) ==>
        state == old(state) && db.rows == old(db.rows) && db.stateRoot == old(db.stateRoot)
      ensures zkr == ZKR_SUCCESS ==> uuid !in state
      ensures uuid !in state ==> Valid()
      ensures Grew(old(db.rows), db.rows)
      ensures uuid !in old(state) ==> zkr == ZKR_SUCCESS || (zkr == ZKR_DB_ERROR && !db.reliable)
      ensures uuid in old(state) ==>
        var txs := Retained(old(state)[uuid].txState, root, p, purgeTxs);
        Finished(txs) ==>
          && (zkr == ZKR_SUCCESS || zkr == ZKR_STATE_MANAGER || (zkr == ZKR_DB_ERROR && !db.reliable))
          && (zkr == ZKR_SUCCESS ==> FlushAccepts(txs))
          && (zkr == ZKR_STATE_MANAGER ==> !FlushAccepts(txs))
          && (uuid in state <==> zkr == ZKR_STATE_MANAGER)
      ensures zkr == ZKR_SUCCESS && uuid in old(state) ==>
        var txs := Retained(old(state)[uuid].txState, root, p, purgeTxs);
        Finished(txs) ==>
          && FlushAccepts(txs)
          && ArePushes(txs, purge, pushes)
          && db.rows == Merged(pushes, old(db.rows))
          && db.stateRoot == FinalRoot(txs, old(db.stateRoot))
      ensures zkr == ZKR_SUCCESS && uuid in old(state) ==>
        var all := old(state)[uuid].txState;
        var txs := Retained(all, root, p, purgeTxs);
        DropsLater(all, root, p, purgeTxs) && Finished(txs) && |txs[|txs| - 1][PERSISTENCE_DATABASE].subState| > 0 ==>
          db.stateRoot == root
    {
      pushes := [];
      if uuid !in state {
        zkr := db.Flush();
        return;
      }
      var b := state[uuid];
      hide IsRetained, DropsLater, Retained, FlushAccepts, Finished, FinalRoot, ArePushes, Merged, Grew;
      var txs := PurgeTxs(b.txState, root, p);
      RetainedValid(b, root, p, purgeTxs);
      RetainedRoot(b.txState, root, p, purgeTxs, db.stateRoot);
      var r;
      r, txs, pushes := FlushTxs(db, txs);
      if r != Flushed {
        zkr := GiveUp(uuid, b.(txState := txs), r);
        return;
      }
      zkr := db.Flush();
      state := state - {uuid};
    }

    static lemma RetainedValid(b: BatchState, root: StateRoot, p: nat, purgeTxs: bool)
      requires BatchValid(b)
      ensures forall t :: 0 <= t < |Retained(b.txState, root, p, purgeTxs)| ==>
        TxValid(Retained(b.txState, root, p, purgeTxs)[t])
    {
      hide DropsLater;
    }

    /** When later transactions are dropped and the last one kept has sub-states, it sets the state root. */
    static lemma RetainedRoot(txs: seq<TxState>, root: StateRoot, p: nat, purgeTxs: bool, before: StateRoot)
      ensures DropsLater(txs, root, p, purgeTxs) ==>
        var r := Retained(txs, root, p, purgeTxs);
        r != [] && (|r[|r| - 1][PERSISTENCE_DATABASE].subState| > 0 ==> FinalRoot(r, before) == root)
    {
    }

    /** All records of the retained transactions, in order; stops at the first that cannot be flushed. */
    method FlushTxs(db: Database, txs: seq<TxState>)
      returns (r: RecordFlush, rest: seq<TxState>, ghost pushes: seq<map<Quad, Row>>)
      requires forall t :: 0 <= t < |txs| ==> TxValid(txs[t])
      modifies db
      ensures r.Flushed? ==>
        && FlushAccepts(txs)
        && ArePushes(txs, purge, pushes)
        && db.rows == Merged(pushes, old(db.rows))
        && db.stateRoot == FinalRoot(txs, old(db.stateRoot))
      ensures r.Inconsistent? ==> !FlushAccepts(txs)
      ensures r.NoNewRoot? ==> !Finished(txs)
      ensures r.Failed? ==> !db.reliable
      ensures Grew(old(db.rows), db.rows)
    {
      rest, pushes := txs, [];
      var tx := 0;
      hide FlushAccepts, ArePushes, Merged, FinalRoot, IsFlushed, Consistent, Finished, Grew, PersistenceValid;
      ghost var rows0, root0 := db.rows, db.stateRoot;
      NoPushes(txs, purge, rows0, root0);
      while tx < |txs|
        invariant 0 <= tx <= |txs| && |rest| == |txs|
        invariant FlushAccepts(txs[..tx]) && ArePushes(txs[..tx], purge, pushes)
        invariant Grew(rows0, db.rows)
        invariant db.rows == Merged(pushes, rows0) && db.stateRoot == FinalRoot(txs[..tx], root0)
      {
        ghost var before := db.rows;
        var left;
        ghost var pushed;
        r, left, pushed := FlushTx(db, txs[tx]);
        GrewTwice(rows0, before, db.rows);
        rest := rest[tx := left];
        if r != Flushed {
          if r.Inconsistent? { NotAccepted(txs, tx); }
          if r.NoNewRoot? { NotFinished(txs, tx); }
          return;
        }
        ArePushesExtend(txs, tx, purge, pushes, pushed);
        MergedNext(txs, tx, pushes, pushed, rows0, root0);
        pushes := pushes + [pushed];
        tx := tx + 1;
      }
      assert txs[..|txs|] == txs;
      r := Flushed;
    }

    /** The records of one transaction; the temporary one is dropped. */
    method FlushTx(db: Database, tx: TxState) returns (r: RecordFlush, rest: TxState, ghost pushed: map<Quad, Row>)
      requires TxValid(tx)
      modifies db
      ensures Grew(old(db.rows), db.rows)
      ensures r.Flushed? ==>
        && Consistent(tx[PERSISTENCE_CACHE]) && Consistent(tx[PERSISTENCE_DATABASE])
        && IsFlushed(tx[PERSISTENCE_DATABASE], purge, pushed)
        && db.rows == pushed + old(db.rows)
        && db.stateRoot == if |tx[PERSISTENCE_DATABASE].subState| > 0 then tx[PERSISTENCE_DATABASE].newStateRoot
                           else old(db.stateRoot)
      ensures r.Inconsistent? ==> !Consistent(tx[PERSISTENCE_CACHE]) || !Consistent(tx[PERSISTENCE_DATABASE])
      ensures r.NoNewRoot? ==>
        |tx[PERSISTENCE_DATABASE].subState| > 0 && tx[PERSISTENCE_DATABASE].newStateRoot == NoRoot
      ensures r.Failed? ==> !db.reliable
    {
      hide IsFlushed, Consistent, PersistenceValid;
      rest := tx;
      var subs;
      r, subs, pushed := FlushRecord(db, tx[PERSISTENCE_CACHE], PERSISTENCE_CACHE);
      rest := rest[PERSISTENCE_CACHE := tx[PERSISTENCE_CACHE].(subState := subs)];
      if r != Flushed { return; }
      r, subs, pushed := FlushRecord(db, tx[PERSISTENCE_DATABASE], PERSISTENCE_DATABASE);
      rest := rest[PERSISTENCE_DATABASE := tx[PERSISTENCE_DATABASE].(subState := subs)];
      if r != Flushed { return; }
      rest := rest[PERSISTENCE_TEMPORARY := tx[PERSISTENCE_TEMPORARY].(subState := [], currentSubState := 0)];
    }

    static lemma NoPushes(txs: seq<TxState>, purge: bool, rows: map<Quad, Row>, root: StateRoot)
      ensures FlushAccepts(txs[..0]) && ArePushes(txs[..0], purge, [])
      ensures rows == Merged([], rows) && root == FinalRoot(txs[..0], root) && Grew(rows, rows)
    {
    }

    static lemma GrewTwice(a: map<Quad, Row>, b: map<Quad, Row>, c: map<Quad, Row>)
      requires Grew(a, b) && Grew(b, c)
      ensures Grew(a, c)
    {
    }

    static lemma NotFinished(txs: seq<TxState>, tx: nat)
      requires tx < |txs| && |txs[tx][PERSISTENCE_DATABASE].subState| > 0
      requires txs[tx][PERSISTENCE_DATABASE].newStateRoot == NoRoot
      ensures !Finished(txs)
    {
    }

    static lemma NotAccepted(txs: seq<TxState>, tx: nat)
      requires tx < |txs|
      requires !Consistent(txs[tx][PERSISTENCE_CACHE]) || !Consistent(txs[tx][PERSISTENCE_DATABASE])
      ensures !FlushAccepts(txs)
    {
      hide Consistent;
    }

    static lemma MergedNext(txs: seq<TxState>, tx: nat, pushes: seq<map<Quad, Row>>, pushed: map<Quad, Row>,
        rows: map<Quad, Row>, root: StateRoot)
      requires tx < |txs|
      ensures Merged(pushes + [pushed], rows) == pushed + Merged(pushes, rows)
      ensures var ps := txs[tx][PERSISTENCE_DATABASE];
        FinalRoot(txs[..tx + 1], root) == if |ps.subState| > 0 then ps.newStateRoot else FinalRoot(txs[..tx], root)
    {
      assert (pushes + [pushed])[..|pushes|] == pushes;
      assert txs[..tx + 1][..tx] == txs[..tx];
    }

    static lemma ArePushesExtend(txs: seq<TxState>, tx: nat, purge: bool, pushes: seq<map<Quad, Row>>,
        pushed: map<Quad, Row>)
      requires tx < |txs| && FlushAccepts(txs[..tx]) && ArePushes(txs[..tx], purge, pushes)
      requires Consistent(txs[tx][PERSISTENCE_CACHE]) && Consistent(txs[tx][PERSISTENCE_DATABASE])
      requires IsFlushed(txs[tx][PERSISTENCE_DATABASE], purge, pushed)
      ensures FlushAccepts(txs[..tx + 1]) && ArePushes(txs[..tx + 1], purge, pushes + [pushed])
    {
      hide IsFlushed, Consistent;
      assert forall t :: 0 <= t < tx ==> txs[..tx + 1][t] == txs[..tx][t];
    }

    /** Early exits of `flush`: an inconsistent record keeps the batch, the others drop it. For a record
        that never got its new root the source returns whatever code its last call left. */
    method GiveUp(uuid: string, b: BatchState, r: RecordFlush) returns (zkr: ZkResult)
      requires r != Flushed
      modifies this
      ensures zkr == ZKR_SUCCESS ==> r.NoNewRoot?
      ensures r.Inconsistent? ==> zkr == ZKR_STATE_MANAGER
      ensures r.Failed? ==> zkr == ZKR_DB_ERROR
      ensures state == if r.Inconsistent? then old(state)[uuid := b] else old(state) - {uuid}
    {
      if r.Inconsistent? {
        state := state[uuid := b];
        return ZKR_STATE_MANAGER;
      }
      state := state - {uuid};
      zkr := ZKR_DB_ERROR;
      if r.NoNewRoot? { zkr := *; }
    }

    /** Drop the transactions after the last one that ended at the final root. */
    method PurgeTxs(txs: seq<TxState>, root: StateRoot, p: nat) returns (r: seq<TxState>)
      ensures r == Retained(txs, root, p, purgeTxs) && IsRetained(txs, root, p, purgeTxs, r)
    {
      r := txs;
      if purgeTxs && root != NoRoot && p == PERSISTENCE_DATABASE {
        var tx := |txs| - 1;
        while tx >= 0 && txs[tx][PERSISTENCE_DATABASE].newStateRoot != root
          invariant -1 <= tx < |txs|
          invariant LastEndingAt(txs, |txs|, root) == LastEndingAt(txs, tx + 1, root)
        {
          tx := tx - 1;
        }
        if tx >= 0 {
          while |r| > tx + 1
            invariant tx + 1 <= |r| <= |txs| && r == txs[..|r|]
          {
            r := r[..|r| - 1];
          }
        }
      }
    }
  }

  /** Opening a transaction, writing to it and rewinding it to where it started, in a batch of its own: with
      the purge the record is empty again, and yet the batch still reads the row. */
  method WriteAndRewind(sm: StateManager, uuid: string, tx: nat, root: StateRoot, key: Quad, value: Row, p: nat)
    returns (zkr: ZkResult, r: Option<Row>)
    requires sm.Valid() && uuid !in sm.state && p < PERSISTENCE_SIZE && root != NoRoot
    modifies sm
    ensures sm.Valid() && zkr == ZKR_SUCCESS && r == Some(value)
    ensures var ps := Record(sm.state, uuid, tx, p);
      && ps.oldStateRoot == root
      && (sm.purge ==> ps.subState == [] && ps.newStateRoot == root)
      && (!sm.purge ==> |ps.subState| == 1 && Open(ps) && Last(ps).oldStateRoot == root && key in Last(ps).dbWrite)
  {
    zkr := sm.SetStateRoot(uuid, tx, root, true, p);
    ghost var first := Begin(EMPTY_PERSISTENCE, root);
    assert Record(sm.state, uuid, tx, p) == first && sm.state[uuid].currentTx == tx;
    zkr := sm.Write(uuid, tx, key, value, p);
    assert Record(sm.state, uuid, tx, p) == AddWrite(first, key, value);
    zkr := sm.SemiFlush(uuid, root, p);
    r := sm.Read(uuid, key);
  }

  /** A write to another record of the same transaction opens that record at the same root. */
  method WriteElsewhere(sm: StateManager, uuid: string, tx: nat, root: StateRoot, key: Quad, value: Row, p: nat, q: nat)
    returns (zkr: ZkResult)
    requires sm.Valid() && uuid !in sm.state && p < PERSISTENCE_SIZE && q < PERSISTENCE_SIZE && p != q
    modifies sm
    ensures sm.Valid() && zkr == ZKR_SUCCESS
    ensures var ps := Record(sm.state, uuid, tx, q);
      |ps.subState| == 1 && Open(ps) && Last(ps).oldStateRoot == root && Last(ps).dbWrite == map[key := value]
  {
    zkr := sm.SetStateRoot(uuid, tx, root, true, p);
    assert Record(sm.state, uuid, tx, q) == EMPTY_PERSISTENCE;
    zkr := sm.Write(uuid, tx, key, value, q);
  }
}
