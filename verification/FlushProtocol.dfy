/** The asynchronous write protocol as a state machine: three buffers, the flush ids, the sender
    thread, and the database. Every action is one critical section of the code, or one step of the
    sender outside the lock; a run is any interleaving of them. */
module FlushProtocol {
  import opened Results

  // ---------------------------------------------------------------- state

  /** Rows of one table: those accepted by a flush or semi-flush, and those still in the in-tray. */
  datatype Table = Table(accepted: map<string, string>, intray: map<string, string>)

  const EMPTY_TABLE := Table(map[], map[])

  /** One transaction of a multi-query. */
  datatype Query = Query(nodes: map<string, string>, program: map<string, string>, root: string,
                         size: nat, full: bool, sent: bool)

  datatype Buffer = Buffer(nodes: Table, program: Table, root: string, queries: seq<Query>, stored: bool) {
    predicate IsEmpty() {
      nodes == EMPTY_TABLE && program == EMPTY_TABLE && root == ""
    }
  }

  const EMPTY_BUFFER := Buffer(EMPTY_TABLE, EMPTY_TABLE, "", [], false)

  datatype Db = Db(nodes: map<string, string>, program: map<string, string>, root: string)

  /** Where the sender thread is: waiting for work, entering `sendData`, executing queries, done with
      them, or with the stored flush id already confirmed. */
  datatype Phase = Waiting | Entering | Sending | Sent | Confirmed

  /** What had been written when a flush was requested */
  datatype Mark = Mark(nodes: set<string>, program: set<string>, roots: nat)

  /** What was written so far; how many of the state roots were handed to the sender, and how many of
      them reached the database; and a mark per flush. Only the proofs look at it. */
  datatype History = History(nodes: set<string>, program: set<string>, roots: seq<string>,
                             captured: nat, durable: nat, marks: seq<Mark>)

  datatype State = State(last: nat, stored: nat, storing: nat,
                         pendingIx: nat, storingIx: nat, syncIx: nat,
                         buffers: seq<Buffer>, db: Db, phase: Phase, hist: History) {
    predicate Indexed() {
      |buffers| == 3 && pendingIx < 3 && storingIx < 3 && syncIx < 3
    }

    function Pending(): Buffer
      requires Indexed()
    {
      buffers[pendingIx]
    }

    function Storing(): Buffer
      requires Indexed()
    {
      buffers[storingIx]
    }

    /** A buffer is on its way to the database. */
    predicate InFlight()
      requires Indexed()
    {
      phase != Waiting || Storing().queries != []
    }
  }

  function Initial(db: Db): State {
    State(0, 0, 0, 0, 2, 2, [EMPTY_BUFFER, EMPTY_BUFFER, EMPTY_BUFFER], db, Waiting, History({}, {}, [], 0, 0, []))
  }

  // ---------------------------------------------------------------- actions

  /** `merge` keeps what is there already. */
  function Accept(t: Table): Table {
    Table(t.intray + t.accepted, map[])
  }

  function AcceptIntray(b: Buffer): Buffer {
    b.(program := Accept(b.program), nodes := Accept(b.nodes))
  }

  /** Rows are inserted unless present; the state root is updated. */
  function Apply(db: Db, q: Query): Db {
    Db(q.nodes + db.nodes, q.program + db.program, if q.root == "" then db.root else q.root)
  }

  datatype Action =
    | WriteNode(key: string, value: string)
    | WriteProgram(key: string, value: string)
    | WriteRoot(root: string)
    | SemiFlush
    | Flush
    | Wake
    | Enter(queries: seq<Query>)
    | Execute(i: nat)
    | Fail(i: nat, applied: bool)
    | Finish
    | Confirm
    | Advance

  /** The queries hold exactly the accepted rows and the state root of the buffer. */
  ghost predicate Covers(queries: seq<Query>, b: Buffer) {
    && (forall q :: q in queries ==> RowsOf(q.nodes, b.nodes.accepted) && RowsOf(q.program, b.program.accepted))
    && (forall q :: q in queries ==> q.root == "" || q.root == b.root)
    && (forall k :: k in b.nodes.accepted ==> NodeQueued(queries, k))
    && (forall k :: k in b.program.accepted ==> ProgramQueued(queries, k))
    && (b.root != "" ==> RootQueued(queries))
  }

  ghost predicate RowsOf(rows: map<string, string>, all: map<string, string>) {
    forall k :: k in rows ==> k in all && all[k] == rows[k]
  }

  ghost predicate NodeQueued(queries: seq<Query>, k: string) {
    exists q :: q in queries && k in q.nodes
  }

  ghost predicate ProgramQueued(queries: seq<Query>, k: string) {
    exists q :: q in queries && k in q.program
  }

  ghost predicate RootQueued(queries: seq<Query>) {
    exists q :: q in queries && q.root != ""
  }

  ghost predicate Unsent(queries: seq<Query>) {
    forall q :: q in queries ==> !q.sent
  }

  /** When an action can happen. Writers and flushes always can; the sender follows its program. */
  ghost predicate Enabled(s: State, a: Action)
    requires s.Indexed()
  {
    match a
    case WriteNode(_, _) => true
    case WriteProgram(_, _) => true
    case WriteRoot(r) => r != ""
    case SemiFlush => true
    case Flush => true
    case Wake => s.phase == Waiting
    case Enter(queries) => s.phase == Entering && Covers(queries, s.Storing()) && Unsent(queries)
    case Execute(i) => s.phase == Sending && i < |s.Storing().queries| && !s.Storing().queries[i].sent
    case Fail(i, _) => s.phase == Sending && i < |s.Storing().queries| && !s.Storing().queries[i].sent
    case Finish => s.phase == Sending && forall q :: q in s.Storing().queries ==> q.sent
    case Confirm => s.phase == Sent
    case Advance => s.phase == Confirmed
  }

  function Next3(i: nat): nat {
    (i + 1) % 3
  }

  function SetPending(s: State, b: Buffer): State
    requires s.Indexed()
  {
    s.(buffers := s.buffers[s.pendingIx := b])
  }

  function SetStoring(s: State, b: Buffer): State
    requires s.Indexed()
  {
    s.(buffers := s.buffers[s.storingIx := b])
  }

  function AfterWriteNode(s: State, k: string, v: string): State
    requires s.Indexed()
  {
    var b := s.Pending();
    SetPending(s, b.(nodes := b.nodes.(intray := b.nodes.intray[k := v])))
    .(hist := s.hist.(nodes := s.hist.nodes + {k}))
  }

  function AfterWriteProgram(s: State, k: string, v: string): State
    requires s.Indexed()
  {
    var b := s.Pending();
    SetPending(s, b.(program := b.program.(intray := b.program.intray[k := v])))
    .(hist := s.hist.(program := s.hist.program + {k}))
  }

  function AfterWriteRoot(s: State, root: string): State
    requires s.Indexed()
  {
    SetPending(s, s.Pending().(root := root)).(hist := s.hist.(roots := s.hist.roots + [root]))
  }

  function AfterSemiFlush(s: State): State
    requires s.Indexed()
  {
    SetPending(s, AcceptIntray(s.Pending()))
  }

  function AfterFlush(s: State): State
    requires s.Indexed()
  {
    var h := s.hist;
    AfterSemiFlush(s).(last := s.last + 1,
                       hist := h.(marks := h.marks + [Mark(h.nodes, h.program, |h.roots|)]))
  }

  /** The sender's turn under the lock: resume after an error, do nothing but confirm when nothing was
      written, or switch the buffers. */
  function AfterWake(s: State): State
    requires s.Indexed()
  {
    if s.Storing().queries != [] then s.(phase := Entering)
    else if s.Pending().IsEmpty() then s.(stored := s.last)
    else
      var t := AfterSwitch(s);
      if t.Storing().IsEmpty() then t.(stored := t.storing, syncIx := Next3(t.syncIx)) else t.(phase := Entering)
  }

  function AfterSwitch(s: State): (t: State)
    requires s.Indexed()
    ensures t.Indexed()
  {
    var buffers := s.buffers[s.pendingIx := AcceptIntray(s.Pending())];
    var pendingIx := Next3(s.pendingIx);
    s.(buffers := buffers[pendingIx := EMPTY_BUFFER], storingIx := Next3(s.storingIx), pendingIx := pendingIx,
       storing := s.last, hist := s.hist.(captured := |s.hist.roots|))
  }

  /** Entry of `sendData`: the queries are built unless a previous attempt left some. */
  function AfterEnter(s: State, queries: seq<Query>): State
    requires s.Indexed()
  {
    var b := s.Storing();
    if b.IsEmpty() || b.stored then s.(phase := Confirmed)
    else if b.queries != [] then s.(phase := Sending)
    else if queries == [] then SetStoring(s, b.(stored := true)).(phase := Sent)
    else SetStoring(s, b.(queries := queries)).(phase := Sending)
  }

  function Executed(s: State, q: Query): State {
    s.(db := Apply(s.db, q),
       hist := s.hist.(durable := if q.root == "" then s.hist.durable else s.hist.captured))
  }

  function AfterExecute(s: State, i: nat): State
    requires s.Indexed() && i < |s.Storing().queries|
  {
    var b := s.Storing();
    var q := b.queries[i];
    SetStoring(Executed(s, q), b.(queries := b.queries[i := q.(sent := true)]))
  }

  /** A query fails; whether the database applied it is unknown. */
  function AfterFail(s: State, i: nat, applied: bool): State
    requires s.Indexed() && i < |s.Storing().queries|
  {
    (if applied then Executed(s, s.Storing().queries[i]) else s).(phase := Waiting)
  }

  function AfterFinish(s: State): State
    requires s.Indexed()
  {
    SetStoring(s, s.Storing().(queries := [], stored := true)).(phase := Sent)
  }

  function AfterConfirm(s: State): State {
    s.(stored := s.storing, phase := Confirmed)
  }

  function AfterAdvance(s: State): State {
    s.(stored := s.storing, syncIx := Next3(s.syncIx), phase := Waiting)
  }

  ghost function Step(s: State, a: Action): State
    requires s.Indexed() && Enabled(s, a)
  {
    match a
    case WriteNode(k, v) => AfterWriteNode(s, k, v)
    case WriteProgram(k, v) => AfterWriteProgram(s, k, v)
    case WriteRoot(r) => AfterWriteRoot(s, r)
    case SemiFlush => AfterSemiFlush(s)
    case Flush => AfterFlush(s)
    case Wake => AfterWake(s)
    case Enter(queries) => AfterEnter(s, queries)
    case Execute(i) => AfterExecute(s, i)
    case Fail(i, applied) => AfterFail(s, i, applied)
    case Finish => AfterFinish(s)
    case Confirm => AfterConfirm(s)
    case Advance => AfterAdvance(s)
  }

  /** `t` is reached from `s` by the actions. */
  ghost predicate Run(s: State, actions: seq<Action>, t: State)
    decreases |actions|
  {
    if actions == [] then s == t
    else s.Indexed() && Enabled(s, actions[0]) && Run(Step(s, actions[0]), actions[1..], t)
  }

  // ---------------------------------------------------------------- invariant

  /** The index discipline */
  ghost predicate Indices(s: State) {
    && s.Indexed()
    && s.pendingIx == Next3(s.storingIx)
    && s.syncIx == (if s.InFlight() then (s.storingIx + 2) % 3 else s.storingIx)
  }

  ghost predicate Ids(s: State)
    requires s.Indexed()
  {
    && s.stored <= s.last && s.storing <= s.last && |s.hist.marks| == s.last
    && (s.InFlight() ==> s.stored <= s.storing)
  }

  ghost predicate BuffersOk(s: State)
    requires s.Indexed()
  {
    && s.Pending().queries == [] && !s.Pending().stored
    && s.Storing().nodes.intray == map[] && s.Storing().program.intray == map[]
    && (s.phase in {Entering, Sending} || s.Storing().queries != [] ==> !s.Storing().stored && !s.Storing().IsEmpty())
    && (s.phase == Sending ==> s.Storing().queries != [])
    && (s.phase in {Sent, Confirmed} ==> s.Storing().queries == [])
  }

  /** Rows of queries that were sent are in the database, and so is the root. */
  ghost predicate SentIsStored(s: State, q: Query) {
    q.sent ==>
      && q.nodes.Keys <= s.db.nodes.Keys && q.program.Keys <= s.db.program.Keys
      && (q.root != "" ==> s.hist.durable == s.hist.captured)
  }

  ghost predicate QueriesOk(s: State)
    requires s.Indexed()
  {
    s.Storing().queries != [] ==>
      && Covers(s.Storing().queries, s.Storing())
      && forall q :: q in s.Storing().queries ==> SentIsStored(s, q)
  }

  /** The buffer last handed to the sender is in the database. */
  ghost predicate Stored(s: State)
    requires s.Indexed()
  {
    && s.Storing().nodes.accepted.Keys <= s.db.nodes.Keys
    && s.Storing().program.accepted.Keys <= s.db.program.Keys
    && s.hist.durable == s.hist.captured
  }

  ghost predicate StoredWhenDone(s: State)
    requires s.Indexed()
  {
    !s.InFlight() || s.phase in {Sent, Confirmed} ==> Stored(s)
  }

  /** Every state root written is in the database, superseded, or still in a buffer. */
  ghost predicate RootsOk(s: State)
    requires s.Indexed()
  {
    var h := s.hist;
    && h.durable <= h.captured <= |h.roots|
    && (h.durable > 0 ==> s.db.root == h.roots[h.durable - 1])
    && (s.Storing().root == "" ==> s.InFlight() ==> h.durable == h.captured)
    && (s.Storing().root != "" && s.InFlight() ==> h.captured > 0 && s.Storing().root == h.roots[h.captured - 1])
    && (if s.Pending().root == "" then h.captured == |h.roots|
        else |h.roots| > 0 && s.Pending().root == h.roots[|h.roots| - 1])
  }

  function Held(t: Table): set<string> {
    t.accepted.Keys + t.intray.Keys
  }

  /** Every row written is in the database or in a buffer that will reach it; buffers hold nothing else. */
  ghost predicate Kept(s: State)
    requires s.Indexed()
  {
    && s.hist.nodes <= s.db.nodes.Keys + s.Storing().nodes.accepted.Keys + Held(s.Pending().nodes)
    && s.hist.program <= s.db.program.Keys + s.Storing().program.accepted.Keys + Held(s.Pending().program)
    && s.Storing().nodes.accepted.Keys + Held(s.Pending().nodes) <= s.hist.nodes
    && s.Storing().program.accepted.Keys + Held(s.Pending().program) <= s.hist.program
  }

  /** What a flush waits for */
  ghost predicate MarkStored(s: State, m: Mark) {
    m.nodes <= s.db.nodes.Keys && m.program <= s.db.program.Keys && m.roots <= s.hist.durable
  }

  ghost predicate MarkHandedOver(s: State, m: Mark)
    requires s.Indexed()
  {
    && m.nodes <= s.db.nodes.Keys + s.Storing().nodes.accepted.Keys
    && m.program <= s.db.program.Keys + s.Storing().program.accepted.Keys
    && m.roots <= s.hist.captured
  }

  ghost predicate MarkWritten(s: State, m: Mark) {
    m.nodes <= s.hist.nodes && m.program <= s.hist.program && m.roots <= |s.hist.roots|
  }

  ghost predicate MarksOk(s: State)
    requires s.Indexed()
  {
    && (forall m :: m in s.hist.marks ==> MarkWritten(s, m))
    && (forall f :: 0 <= f < |s.hist.marks| && f < s.stored ==> MarkStored(s, s.hist.marks[f]))
    && (s.InFlight() ==> forall f :: 0 <= f < |s.hist.marks| && f < s.storing ==> MarkHandedOver(s, s.hist.marks[f]))
  }

  ghost predicate Inv(s: State) {
    && Indices(s)
    && Ids(s)
    && BuffersOk(s)
    && QueriesOk(s)
    && StoredWhenDone(s)
    && RootsOk(s)
    && Kept(s)
    && MarksOk(s)
  }

  lemma InitialInv(db: Db)
    ensures Inv(Initial(db))
  {
  }

  lemma WritersKeepInv(s: State, a: Action)
    requires Inv(s) && Enabled(s, a) && (a.WriteNode? || a.WriteProgram? || a.WriteRoot?)
    ensures Inv(Step(s, a))
  {
    hide Covers, SentIsStored, QueriesOk, MarksOk, Kept;
    var t := Step(s, a);
    assert t.Storing() == s.Storing() && t.InFlight() == s.InFlight();
    QueriesMonotone(s, t);
    MarksMonotone(s, t);
    WritersKeepRows(s, a);
  }

  lemma WritersKeepRows(s: State, a: Action)
    requires Indices(s) && Kept(s) && Enabled(s, a) && (a.WriteNode? || a.WriteProgram? || a.WriteRoot?)
    ensures Step(s, a).Indexed() && Kept(Step(s, a))
  {
    assert Step(s, a).Storing() == s.Storing();
  }

  lemma SemiFlushKeepsInv(s: State)
    requires Inv(s)
    ensures Inv(AfterSemiFlush(s))
  {
    hide Covers, SentIsStored, QueriesOk, MarksOk, Kept;
    var t := AfterSemiFlush(s);
    assert t.Storing() == s.Storing() && t.InFlight() == s.InFlight();
    QueriesMonotone(s, t);
    MarksMonotone(s, t);
    SemiFlushKeepsRows(s);
  }

  lemma SemiFlushKeepsRows(s: State)
    requires Indices(s) && Kept(s)
    ensures AfterSemiFlush(s).Indexed() && Kept(AfterSemiFlush(s))
  {
    AcceptKeepsRows(s.Pending());
    assert AfterSemiFlush(s).Storing() == s.Storing();
  }

  lemma FlushKeepsInv(s: State)
    requires Inv(s)
    ensures Inv(AfterFlush(s))
  {
    SemiFlushKeepsInv(s);
    CountFlushKeepsInv(AfterSemiFlush(s));
    hide Inv;
  }

  lemma CountFlushKeepsInv(s: State)
    requires Inv(s)
    ensures var h := s.hist;
            Inv(s.(last := s.last + 1, hist := h.(marks := h.marks + [Mark(h.nodes, h.program, |h.roots|)])))
  {
    hide Covers, SentIsStored, QueriesOk, MarksOk, Kept;
    var h := s.hist;
    var t := s.(last := s.last + 1, hist := h.(marks := h.marks + [Mark(h.nodes, h.program, |h.roots|)]));
    QueriesMonotone(s, t);
    MarksMonotone(s, t);
    KeptMonotone(s, t);
  }

  /** Marks stay satisfied while the database grows and the sender keeps its buffer. */
  lemma MarksMonotone(s: State, t: State)
    requires s.Indexed() && t.Indexed() && Ids(s) && MarksOk(s)
    requires s.hist.marks <= t.hist.marks && s.stored == t.stored && s.storing == t.storing
    requires s.db.nodes.Keys <= t.db.nodes.Keys && s.db.program.Keys <= t.db.program.Keys
    requires t.Storing().nodes == s.Storing().nodes && t.Storing().program == s.Storing().program
    requires s.hist.durable <= t.hist.durable && s.hist.captured == t.hist.captured
    requires s.hist.nodes <= t.hist.nodes && s.hist.program <= t.hist.program && |s.hist.roots| <= |t.hist.roots|
    requires t.InFlight() ==> s.InFlight()
    requires forall m :: m in t.hist.marks && m !in s.hist.marks ==> MarkWritten(t, m)
    ensures MarksOk(t)
  {
    forall m | m in t.hist.marks ensures MarkWritten(t, m) {
      if m in s.hist.marks { assert MarkWritten(s, m); }
    }
    forall f | 0 <= f < |t.hist.marks| && f < t.stored ensures MarkStored(t, t.hist.marks[f]) {
      assert MarkStored(s, s.hist.marks[f]);
    }
    if t.InFlight() {
      forall f | 0 <= f < |t.hist.marks| && f < t.storing ensures MarkHandedOver(t, t.hist.marks[f]) {
        assert MarkHandedOver(s, s.hist.marks[f]);
      }
    }
  }

  /** The queries stay right while the storing buffer is left alone and the database grows. */
  lemma QueriesMonotone(s: State, t: State)
    requires s.Indexed() && t.Indexed() && QueriesOk(s)
    requires t.Storing() == s.Storing()
    requires s.db.nodes.Keys <= t.db.nodes.Keys && s.db.program.Keys <= t.db.program.Keys
    requires s.hist.durable == s.hist.captured ==> t.hist.durable == t.hist.captured
    ensures QueriesOk(t)
  {
    hide Covers;
    forall q | q in t.Storing().queries ensures SentIsStored(t, q) { assert SentIsStored(s, q); }
  }

  lemma WakeKeepsInv(s: State)
    requires Inv(s) && s.phase == Waiting
    ensures Inv(AfterWake(s))
  {
    var t := AfterWake(s);
    if s.Storing().queries != [] {
      ResumeKeepsInv(s);
    } else if s.Pending().IsEmpty() {
      IdleKeepsMarks(s);
      QueriesMonotone(s, t);
      hide Covers, SentIsStored, QueriesOk, MarksOk, Kept;
      assert Kept(t) by { KeptMonotone(s, t); }
    } else {
      SwitchKeepsInv(s);
    }
  }

  lemma ResumeKeepsInv(s: State)
    requires Inv(s) && s.phase == Waiting && s.Storing().queries != []
    ensures Inv(s.(phase := Entering))
  {
    hide Covers, SentIsStored, QueriesOk, MarksOk, Kept;
    var t := s.(phase := Entering);
    QueriesMonotone(s, t);
    MarksMonotone(s, t);
    KeptMonotone(s, t);
  }

  lemma KeptMonotone(s: State, t: State)
    requires s.Indexed() && t.Indexed() && Kept(s)
    requires s.db.nodes.Keys <= t.db.nodes.Keys && s.db.program.Keys <= t.db.program.Keys
    requires t.Storing().nodes == s.Storing().nodes && t.Storing().program == s.Storing().program
    requires t.Pending() == s.Pending()
    requires s.hist.nodes == t.hist.nodes && s.hist.program == t.hist.program
    ensures Kept(t)
  {
  }

  lemma IdleKeepsMarks(s: State)
    requires Inv(s) && s.phase == Waiting && s.Storing().queries == [] && s.Pending().IsEmpty()
    ensures MarksOk(s.(stored := s.last))
  {
    hide QueriesOk;
    var t := s.(stored := s.last);
    forall f | 0 <= f < |t.hist.marks| ensures MarkStored(t, t.hist.marks[f]) {
      assert MarkWritten(s, s.hist.marks[f]);
    }
  }

  lemma SwitchKeepsInv(s: State)
    requires Inv(s) && s.phase == Waiting && s.Storing().queries == [] && !s.Pending().IsEmpty()
    ensures Inv(AfterWake(s))
  {
    hide Covers, SentIsStored, MarksOk, Kept, RootsOk, QueriesOk;
    SwitchKeepsRows(s);
    SwitchKeepsMarks(s);
    SwitchKeepsRoots(s);
    AcceptKeepsRows(s.Pending());
    var t := AfterSwitch(s);
    assert t.Storing() == AcceptIntray(s.Pending()) && t.Pending() == EMPTY_BUFFER;
    assert AfterWake(s) == t.(phase := Entering);
    NoQueries(t.(phase := Entering));
  }

  lemma NoQueries(s: State)
    requires s.Indexed() && s.Storing().queries == []
    ensures QueriesOk(s)
  {
  }

  lemma SwitchKeepsRoots(s: State)
    requires Indices(s) && RootsOk(s) && StoredWhenDone(s) && s.phase == Waiting && s.Storing().queries == []
    ensures RootsOk(AfterSwitch(s).(phase := Entering))
  {
    var t := AfterSwitch(s);
    assert t.Storing() == AcceptIntray(s.Pending()) && t.Pending() == EMPTY_BUFFER;
  }

  lemma SwitchKeepsRows(s: State)
    requires Indices(s) && Kept(s) && StoredWhenDone(s) && s.phase == Waiting && s.Storing().queries == []
    ensures Kept(AfterSwitch(s).(phase := Entering))
  {
    var t := AfterSwitch(s);
    assert t.Storing() == AcceptIntray(s.Pending()) && t.Pending() == EMPTY_BUFFER;
    AcceptKeepsRows(s.Pending());
  }

  lemma SwitchKeepsMarks(s: State)
    requires Indices(s) && Ids(s) && Kept(s) && StoredWhenDone(s) && MarksOk(s) && s.phase == Waiting
    requires s.Storing().queries == []
    ensures MarksOk(AfterSwitch(s).(phase := Entering))
  {
    var u := AfterSwitch(s).(phase := Entering);
    assert u.Storing() == AcceptIntray(s.Pending());
    AcceptKeepsRows(s.Pending());
    forall m | m in u.hist.marks ensures MarkHandedOver(u, m) && MarkWritten(u, m) {
      assert MarkWritten(s, m);
    }
    forall f | 0 <= f < |u.hist.marks| && f < u.stored ensures MarkStored(u, u.hist.marks[f]) {
      assert MarkStored(s, s.hist.marks[f]);
    }
  }

  lemma AcceptKeepsRows(b: Buffer)
    ensures AcceptIntray(b).nodes.accepted.Keys == Held(b.nodes)
    ensures AcceptIntray(b).program.accepted.Keys == Held(b.program)
    ensures !b.IsEmpty() ==> !AcceptIntray(b).IsEmpty()
  {
    TableNotEmpty(b.nodes);
    TableNotEmpty(b.program);
  }

  lemma TableNotEmpty(t: Table)
    ensures t == EMPTY_TABLE <==> Accept(t) == EMPTY_TABLE
  {
    if t.accepted != map[] {
      var k :| k in t.accepted;
      assert k in Accept(t).accepted;
    }
    if t.intray != map[] {
      var k :| k in t.intray;
      assert k in Accept(t).accepted;
    }
  }

  lemma EnterKeepsInv(s: State, queries: seq<Query>)
    requires Inv(s) && Enabled(s, Enter(queries))
    ensures Inv(AfterEnter(s, queries))
  {
    hide Covers, SentIsStored, QueriesOk, MarksOk, Kept;
    var b, t := s.Storing(), AfterEnter(s, queries);
    if queries == [] { NothingQueued(b); }
    MarksMonotone(s, t);
    KeptMonotone(s, t);
    EnterKeepsQueries(s, queries);
  }

  lemma EnterKeepsQueries(s: State, queries: seq<Query>)
    requires Inv(s) && Enabled(s, Enter(queries))
    ensures QueriesOk(AfterEnter(s, queries))
  {
    hide MarksOk, Kept, Covers, RootsOk;
    var b, t := s.Storing(), AfterEnter(s, queries);
    if b.queries != [] {
      QueriesMonotone(s, t);
    } else {
      SameRowsSameCover(queries, b, t.Storing());
      forall q | q in queries ensures SentIsStored(t, q) {}
    }
  }

  lemma SameRowsSameCover(queries: seq<Query>, b: Buffer, c: Buffer)
    requires Covers(queries, b) && b.nodes == c.nodes && b.program == c.program && b.root == c.root
    ensures Covers(queries, c)
  {
  }

  /** Without queries there is nothing to send. */
  lemma NothingQueued(b: Buffer)
    requires Covers([], b) && b.nodes.intray == map[] && b.program.intray == map[]
    ensures b.IsEmpty()
  {
    assert forall k :: !NodeQueued([], k) && !ProgramQueued([], k);
    assert !RootQueued([]);
  }

  /** The database after a query of the storing buffer */
  lemma ExecutedKeepsInv(s: State, q: Query)
    requires Inv(s) && q in s.Storing().queries
    ensures Inv(Executed(s, q))
    ensures SentIsStored(Executed(s, q), q.(sent := true))
  {
    hide Covers, QueriesOk, MarksOk, Kept;
    var t := Executed(s, q);
    QueryRoot(s, q);
    MarksMonotone(s, t);
    KeptMonotone(s, t);
    QueriesMonotone(s, t);
  }

  lemma QueryRoot(s: State, q: Query)
    requires s.Indexed() && QueriesOk(s) && q in s.Storing().queries
    ensures q.root == "" || q.root == s.Storing().root
  {
  }

  lemma MarkSentKeepsInv(s: State, i: nat)
    requires Inv(s) && s.phase == Sending && i < |s.Storing().queries|
    requires SentIsStored(s, s.Storing().queries[i].(sent := true))
    ensures Inv(SetStoring(s, s.Storing().(queries := s.Storing().queries[i := s.Storing().queries[i].(sent := true)])))
  {
    hide Covers, SentIsStored, QueriesOk, MarksOk, Kept;
    var b := s.Storing();
    var queries := b.queries[i := b.queries[i].(sent := true)];
    var t := SetStoring(s, b.(queries := queries));
    MarkSentKeepsQueries(s, i);
    MarksMonotone(s, t);
    KeptMonotone(s, t);
    assert queries != [];
  }

  lemma MarkSentKeepsQueries(s: State, i: nat)
    requires s.Indexed() && QueriesOk(s) && i < |s.Storing().queries|
    requires SentIsStored(s, s.Storing().queries[i].(sent := true))
    ensures QueriesOk(SetStoring(s, s.Storing().(queries :=
      s.Storing().queries[i := s.Storing().queries[i].(sent := true)])))
  {
    hide NodeQueued, ProgramQueued, RootQueued, RowsOf;
    var b := s.Storing();
    var q := b.queries[i].(sent := true);
    var queries := b.queries[i := q];
    var t := SetStoring(s, b.(queries := queries));
    assert t.Storing() == b.(queries := queries);
    ReplaceKeepsQueued(b.queries, i, q);
    assert b.queries[i] in b.queries;
    forall p | p in queries
      ensures SentIsStored(t, p)
      ensures RowsOf(p.nodes, b.nodes.accepted) && RowsOf(p.program, b.program.accepted)
      ensures p.root == "" || p.root == b.root
    {
      if p != q {
        assert p in b.queries;
        assert SentIsStored(s, p);
      } else {
        assert SentIsStored(s, q);
      }
    }
  }

  lemma ReplaceKeepsQueued(queries: seq<Query>, i: nat, q: Query)
    requires i < |queries| && q.nodes == queries[i].nodes && q.program == queries[i].program
    requires q.root == queries[i].root
    ensures forall k :: NodeQueued(queries, k) ==> NodeQueued(queries[i := q], k)
    ensures forall k :: ProgramQueued(queries, k) ==> ProgramQueued(queries[i := q], k)
    ensures RootQueued(queries) ==> RootQueued(queries[i := q])
  {
    var after := queries[i := q];
    assert after[i] in after;
    forall p | p in queries ensures p in after || p == queries[i] {
      var j :| 0 <= j < |queries| && queries[j] == p;
      if j != i { assert after[j] == p; }
    }
  }

  lemma FinishKeepsInv(s: State)
    requires Inv(s) && Enabled(s, Finish)
    ensures Inv(AfterFinish(s))
  {
    hide Covers, SentIsStored, MarksOk, Kept;
    var t := AfterFinish(s);
    AllSentIsStored(s);
    MarksMonotone(s, t);
    KeptMonotone(s, t);
  }

  lemma AllSentIsStored(s: State)
    requires s.Indexed() && QueriesOk(s) && s.Storing().queries != []
      && (forall q :: q in s.Storing().queries ==> q.sent)
    requires RootsOk(s) && s.InFlight()
    ensures Stored(s)
  {
    var b := s.Storing();
    forall k | k in b.nodes.accepted ensures k in s.db.nodes {
      assert NodeQueued(b.queries, k);
      var q :| q in b.queries && k in q.nodes;
      assert SentIsStored(s, q);
    }
    forall k | k in b.program.accepted ensures k in s.db.program {
      assert ProgramQueued(b.queries, k);
      var q :| q in b.queries && k in q.program;
      assert SentIsStored(s, q);
    }
    if b.root != "" {
      assert RootQueued(b.queries);
      var q :| q in b.queries && q.root != "";
      assert SentIsStored(s, q);
    }
  }

  lemma ConfirmKeepsInv(s: State, t: State)
    requires Inv(s) && s.phase in {Sent, Confirmed} && t in {AfterConfirm(s), AfterAdvance(s)}
    ensures Inv(t)
  {
    hide Covers, SentIsStored, MarksOk, Kept;
    ConfirmKeepsMarks(s, t);
    KeptMonotone(s, t);
  }

  lemma ConfirmKeepsMarks(s: State, t: State)
    requires s.Indexed() && Ids(s) && StoredWhenDone(s) && MarksOk(s)
    requires s.phase in {Sent, Confirmed} && t in {AfterConfirm(s), AfterAdvance(s)}
    ensures t.Indexed() && MarksOk(t)
  {
    forall m | m in t.hist.marks ensures MarkWritten(t, m) { assert MarkWritten(s, m); }
    forall f | 0 <= f < |t.hist.marks| && f < s.storing
      ensures MarkStored(t, t.hist.marks[f]) && MarkHandedOver(t, t.hist.marks[f])
    {
      assert MarkHandedOver(s, s.hist.marks[f]);
    }
  }

  lemma StepKeepsInv(s: State, a: Action)
    requires Inv(s) && Enabled(s, a)
    ensures Inv(Step(s, a))
  {
    if a.Execute? {
      ExecuteKeepsInv(s, a.i);
    } else if a.Fail? {
      FailKeepsInv(s, a.i, a.applied);
    } else {
      InvIsIndexed(s);
      hide Inv, AfterWriteNode, AfterWriteProgram, AfterWriteRoot, AfterSemiFlush, AfterFlush, AfterWake, AfterEnter,
        AfterFinish, AfterConfirm, AfterAdvance;
      match a
      case WriteNode(_, _) => WritersKeepInv(s, a);
      case WriteProgram(_, _) => WritersKeepInv(s, a);
      case WriteRoot(_) => WritersKeepInv(s, a);
      case SemiFlush => SemiFlushKeepsInv(s);
      case Flush => FlushKeepsInv(s);
      case Wake => WakeKeepsInv(s);
      case Enter(queries) => EnterKeepsInv(s, queries);
      case Finish => FinishKeepsInv(s);
      case Confirm => ConfirmKeepsInv(s, Step(s, a));
      case Advance => ConfirmKeepsInv(s, Step(s, a));
    }
  }

  lemma InvIsIndexed(s: State)
    requires Inv(s)
    ensures s.Indexed()
  {
  }

  lemma ExecuteKeepsInv(s: State, i: nat)
    requires Inv(s) && Enabled(s, Execute(i))
    ensures Inv(AfterExecute(s, i))
  {
    var q := s.Storing().queries[i];
    ExecutedKeepsInv(s, q);
    MarkSentKeepsInv(Executed(s, q), i);
    hide Inv;
  }

  lemma FailKeepsInv(s: State, i: nat, applied: bool)
    requires Inv(s) && Enabled(s, Fail(i, applied))
    ensures Inv(AfterFail(s, i, applied))
  {
    if applied { ExecutedKeepsInv(s, s.Storing().queries[i]); }
    var u := if applied then Executed(s, s.Storing().queries[i]) else s;
    GiveUpKeepsInv(u);
    hide Inv;
  }

  lemma GiveUpKeepsInv(s: State)
    requires Inv(s) && s.phase == Sending
    ensures Inv(s.(phase := Waiting))
  {
    hide Covers, SentIsStored, QueriesOk, MarksOk, Kept;
    var t := s.(phase := Waiting);
    QueriesMonotone(s, t);
    MarksMonotone(s, t);
    KeptMonotone(s, t);
  }

  lemma {:induction false} RunKeepsInv(s: State, actions: seq<Action>, t: State)
    requires Inv(s) && Run(s, actions, t)
    ensures Inv(t)
    decreases |actions|
  {
    if actions != [] {
      StepKeepsInv(s, actions[0]);
      RunKeepsInv(Step(s, actions[0]), actions[1..], t);
    }
  }

  // ---------------------------------------------------------------- what the protocol guarantees

  /** The stored flush id never decreases, and never exceeds the last one. */
  lemma StoredIdMonotone(s: State, a: Action)
    requires Inv(s) && Enabled(s, a)
    ensures s.stored <= Step(s, a).stored <= Step(s, a).last && s.last <= Step(s, a).last
  {
    StepKeepsInv(s, a);
    StoredAfterStep(s, a);
    IdsOf(s);
    IdsOf(Step(s, a));
    hide Step, Inv, Enabled;
  }

  lemma IdsOf(s: State)
    requires Inv(s)
    ensures s.Indexed() && s.stored <= s.last && s.storing <= s.last && (s.InFlight() ==> s.stored <= s.storing)
  {
    hide Covers, SentIsStored, QueriesOk, MarksOk, Kept, RootsOk, BuffersOk, StoredWhenDone;
  }

  /** Where the stored flush id comes from */
  lemma StoredAfterStep(s: State, a: Action)
    requires s.Indexed() && Enabled(s, a)
    ensures s.last <= Step(s, a).last
    ensures Step(s, a).stored == s.stored || Step(s, a).stored == s.last
      || (s.InFlight() && Step(s, a).stored == s.storing)
  {
    hide AcceptIntray, Apply, Covers;
  }

  lemma {:induction false} StoredIdMonotoneInRuns(s: State, actions: seq<Action>, t: State)
    requires Inv(s) && Run(s, actions, t)
    ensures s.stored <= t.stored <= t.last
    decreases |actions|
  {
    hide Covers, SentIsStored, QueriesOk, MarksOk, Kept, RootsOk;
    if actions != [] {
      StepKeepsInv(s, actions[0]);
      StoredIdMonotone(s, actions[0]);
      StoredIdMonotoneInRuns(Step(s, actions[0]), actions[1..], t);
    }
  }

  /** Histories only grow: what was written stays written, and the mark of a flush is fixed. */
  ghost predicate Extends(h: History, g: History) {
    h.nodes <= g.nodes && h.program <= g.program && h.roots <= g.roots && h.marks <= g.marks
  }

  lemma {:induction false} RunExtendsHistory(s: State, actions: seq<Action>, t: State)
    requires Inv(s) && Run(s, actions, t)
    ensures Extends(s.hist, t.hist)
    decreases |actions|
  {
    if actions != [] {
      StepKeepsInv(s, actions[0]);
      StepExtendsHistory(s, actions[0]);
      RunExtendsHistory(Step(s, actions[0]), actions[1..], t);
    }
  }

  lemma StepExtendsHistory(s: State, a: Action)
    requires s.Indexed() && Enabled(s, a)
    ensures Extends(s.hist, Step(s, a).hist)
  {
  }

  /** Once flush number `f` is reported as stored, at whatever later time, everything written before it
      is in the database: every node, every program, and the last state root or a later one. */
  lemma FlushIsDurable(db: Db, before: seq<Action>, s: State, after: seq<Action>, t: State)
    requires Run(Initial(db), before, s) && Run(s, [Flush] + after, t)
    requires t.stored >= s.last + 1
    ensures s.hist.nodes <= t.db.nodes.Keys && s.hist.program <= t.db.program.Keys
    ensures |s.hist.roots| > 0 ==>
              exists i :: |s.hist.roots| - 1 <= i < |t.hist.roots| && t.db.root == t.hist.roots[i]
  {
    hide Inv, AfterFlush, Initial;
    InitialInv(db);
    RunKeepsInv(Initial(db), before, s);
    FlushKeepsInv(s);
    FirstAction(s, Flush, after, t);
    RunKeepsInv(AfterFlush(s), after, t);
    RunExtendsHistory(AfterFlush(s), after, t);
    FlushLeavesMark(s, t);
    hide Run;
    assert t.stored >= s.last + 1;
    MarkedDataIsStored(t, s.last);
  }

  lemma FirstAction(s: State, a: Action, rest: seq<Action>, t: State)
    requires Run(s, [a] + rest, t)
    ensures s.Indexed() && Enabled(s, a) && Run(Step(s, a), rest, t)
  {
    assert ([a] + rest)[1..] == rest;
  }

  lemma FlushLeavesMark(s: State, t: State)
    requires Inv(s) && Extends(AfterFlush(s).hist, t.hist)
    ensures |t.hist.marks| > s.last && t.hist.marks[s.last] == Mark(s.hist.nodes, s.hist.program, |s.hist.roots|)
  {
    hide Covers, SentIsStored, QueriesOk, MarksOk, Kept, RootsOk;
    assert AfterFlush(s).hist.marks[s.last] == Mark(s.hist.nodes, s.hist.program, |s.hist.roots|);
  }

  lemma MarkedDataIsStored(t: State, i: nat)
    requires Inv(t) && i < |t.hist.marks| && i < t.stored
    ensures var m := t.hist.marks[i];
            && m.nodes <= t.db.nodes.Keys && m.program <= t.db.program.Keys
            && (m.roots > 0 ==> exists i :: m.roots - 1 <= i < |t.hist.roots| && t.db.root == t.hist.roots[i])
  {
    hide Covers, SentIsStored, QueriesOk, Kept;
    assert MarkStored(t, t.hist.marks[i]);
    if t.hist.durable > 0 { assert t.db.root == t.hist.roots[t.hist.durable - 1]; }
  }

  /** Rows of the database are never removed or overwritten. */
  lemma DatabaseOnlyGrows(s: State, a: Action)
    requires s.Indexed() && Enabled(s, a)
    ensures forall k :: k in s.db.nodes ==> k in Step(s, a).db.nodes && Step(s, a).db.nodes[k] == s.db.nodes[k]
    ensures forall k :: k in s.db.program ==> k in Step(s, a).db.program && Step(s, a).db.program[k] == s.db.program[k]
  {
  }

  /** Writers and flushes touch only the pending buffer, which is neither the one being sent nor the one
      read for synchronization; the sender touches the pending one only when it switches. */
  lemma WritersTouchOnlyPending(s: State, a: Action)
    requires Inv(s) && Enabled(s, a)
    ensures s.pendingIx != s.storingIx && s.pendingIx != s.syncIx
    ensures a.WriteNode? || a.WriteProgram? || a.WriteRoot? || a.SemiFlush? || a.Flush? ==>
              && Step(s, a).Indexed()
              && Step(s, a).buffers[s.storingIx] == s.buffers[s.storingIx]
              && Step(s, a).buffers[s.syncIx] == s.buffers[s.syncIx]
    ensures a.Enter? || a.Execute? || a.Fail? || a.Finish? || a.Confirm? || a.Advance? ==>
              && Step(s, a).Indexed()
              && Step(s, a).buffers[s.pendingIx] == s.buffers[s.pendingIx]
  {
    hide Covers, SentIsStored, QueriesOk, MarksOk, Kept, RootsOk;
  }

  /** The buffer that is read for synchronization after a send is the one that was sent. */
  lemma SynchronizedBufferWasSent(s: State)
    requires Inv(s) && s.phase == Confirmed
    ensures var t := AfterAdvance(s);
            && t.syncIx == t.storingIx
            && t.buffers[t.syncIx].nodes.accepted.Keys <= t.db.nodes.Keys
            && t.buffers[t.syncIx].program.accepted.Keys <= t.db.program.Keys
  {
    hide Covers, SentIsStored, QueriesOk, MarksOk, Kept, RootsOk;
  }

  // ---------------------------------------------------------------- reading your writes

  /** A row of a buffer, unless its length shows that it is malformed. */
  function Lookup(rows: map<string, string>, key: string, unit: nat): Option<string>
    requires unit > 0
  {
    if key in rows && |rows[key]| % unit == 0 then Some(rows[key]) else None
  }

  function OrElse<T>(x: Option<T>, y: Option<T>): Option<T> {
    if x.Some? then x else y
  }

  /** `findProgram`: the pending buffer, its in-tray, then the storing buffer. */
  function FindProgram(s: State, key: string): Option<string>
    requires s.Indexed()
  {
    OrElse(Lookup(s.Pending().program.accepted, key, 2),
           OrElse(Lookup(s.Pending().program.intray, key, 2),
                  Lookup(s.Storing().program.accepted, key, 2)))
  }

  /** `findNode`: the storing buffer is searched only while the flush ids differ. */
  function FindNode(s: State, key: string): Option<string>
    requires s.Indexed()
  {
    OrElse(Lookup(s.Pending().nodes.accepted, key, 16),
           OrElse(Lookup(s.Pending().nodes.intray, key, 16),
                  if s.storing != s.stored then Lookup(s.Storing().nodes.accepted, key, 16) else None))
  }

  /** Keys are hashes: each one stands for one value, of a well-formed length. */
  ghost predicate AddressedRows(rows: map<string, string>, content: string -> string, unit: nat) {
    unit > 0 && forall k :: k in rows ==> rows[k] == content(k) && |rows[k]| % unit == 0
  }

  ghost predicate AddressedTable(t: Table, content: string -> string, unit: nat) {
    AddressedRows(t.accepted, content, unit) && AddressedRows(t.intray, content, unit)
  }

  ghost predicate AddressedQuery(q: Query, nodes: string -> string, program: string -> string) {
    AddressedRows(q.nodes, nodes, 16) && AddressedRows(q.program, program, 2)
  }

  ghost predicate AddressedBuffer(b: Buffer, nodes: string -> string, program: string -> string) {
    && AddressedTable(b.nodes, nodes, 16) && AddressedTable(b.program, program, 2)
    && forall q :: q in b.queries ==> AddressedQuery(q, nodes, program)
  }

  ghost predicate Addressed(s: State, nodes: string -> string, program: string -> string) {
    && AddressedRows(s.db.nodes, nodes, 16) && AddressedRows(s.db.program, program, 2)
    && forall b :: b in s.buffers ==> AddressedBuffer(b, nodes, program)
  }

  ghost predicate WritesContent(a: Action, nodes: string -> string, program: string -> string) {
    && (a.WriteNode? ==> a.value == nodes(a.key) && |a.value| % 16 == 0)
    && (a.WriteProgram? ==> a.value == program(a.key) && |a.value| % 2 == 0)
  }

  lemma SetKeepsAddressed(s: State, b: Buffer, nodes: string -> string, program: string -> string)
    requires s.Indexed() && Addressed(s, nodes, program) && AddressedBuffer(b, nodes, program)
    ensures Addressed(SetPending(s, b), nodes, program) && Addressed(SetStoring(s, b), nodes, program)
  {
    hide AddressedBuffer, AddressedRows;
  }

  lemma AcceptKeepsAddressed(b: Buffer, nodes: string -> string, program: string -> string)
    requires AddressedBuffer(b, nodes, program)
    ensures AddressedBuffer(AcceptIntray(b), nodes, program)
  {
  }

  lemma ApplyKeepsAddressed(s: State, q: Query, nodes: string -> string, program: string -> string)
    requires Addressed(s, nodes, program) && AddressedQuery(q, nodes, program)
    ensures Addressed(Executed(s, q), nodes, program)
  {
    hide AddressedBuffer;
  }

  lemma QueriesAreAddressed(b: Buffer, queries: seq<Query>, nodes: string -> string, program: string -> string)
    requires AddressedBuffer(b, nodes, program) && Covers(queries, b)
    ensures AddressedBuffer(b.(queries := queries), nodes, program)
  {
    forall q | q in queries ensures AddressedQuery(q, nodes, program) {
      assert RowsOf(q.nodes, b.nodes.accepted) && RowsOf(q.program, b.program.accepted);
    }
  }

  lemma SentKeepsAddressed(b: Buffer, i: nat, nodes: string -> string, program: string -> string)
    requires AddressedBuffer(b, nodes, program) && i < |b.queries|
    ensures AddressedBuffer(b.(queries := b.queries[i := b.queries[i].(sent := true)]), nodes, program)
  {
    assert AddressedQuery(b.queries[i], nodes, program);
  }

  lemma SwitchKeepsAddressed(s: State, nodes: string -> string, program: string -> string)
    requires s.Indexed() && Addressed(s, nodes, program)
    ensures Addressed(AfterWake(s), nodes, program)
  {
    AcceptKeepsAddressed(s.Pending(), nodes, program);
    var t := SetPending(s, AcceptIntray(s.Pending()));
    SetKeepsAddressed(s, AcceptIntray(s.Pending()), nodes, program);
    var u := t.(pendingIx := Next3(t.pendingIx));
    assert AddressedBuffer(EMPTY_BUFFER, nodes, program);
    SetKeepsAddressed(u, EMPTY_BUFFER, nodes, program);
    hide AddressedBuffer, AddressedRows;
    assert SetPending(u, EMPTY_BUFFER).buffers == AfterSwitch(s).buffers;
  }

  lemma StepKeepsAddressed(s: State, a: Action, nodes: string -> string, program: string -> string)
    requires s.Indexed() && Enabled(s, a) && Addressed(s, nodes, program) && WritesContent(a, nodes, program)
    ensures Addressed(Step(s, a), nodes, program)
  {
    var p, b := s.Pending(), s.Storing();
    assert AddressedBuffer(p, nodes, program) && AddressedBuffer(b, nodes, program);
    match a
    case WriteNode(k, v) =>
      SetKeepsAddressed(s, p.(nodes := p.nodes.(intray := p.nodes.intray[k := v])), nodes, program);
    case WriteProgram(k, v) =>
      SetKeepsAddressed(s, p.(program := p.program.(intray := p.program.intray[k := v])), nodes, program);
    case WriteRoot(r) => SetKeepsAddressed(s, p.(root := r), nodes, program);
    case SemiFlush =>
      AcceptKeepsAddressed(p, nodes, program);
      SetKeepsAddressed(s, AcceptIntray(p), nodes, program);
    case Flush =>
      AcceptKeepsAddressed(p, nodes, program);
      SetKeepsAddressed(s, AcceptIntray(p), nodes, program);
    case Wake => SwitchKeepsAddressed(s, nodes, program);
    case Enter(queries) =>
      QueriesAreAddressed(b, queries, nodes, program);
      SetKeepsAddressed(s, b.(queries := queries), nodes, program);
      SetKeepsAddressed(s, b.(stored := true), nodes, program);
    case Execute(i) =>
      assert AddressedQuery(b.queries[i], nodes, program);
      ApplyKeepsAddressed(s, b.queries[i], nodes, program);
      SentKeepsAddressed(b, i, nodes, program);
      SetKeepsAddressed(Executed(s, b.queries[i]), b.(queries := b.queries[i := b.queries[i].(sent := true)]), nodes,
          program);
    case Fail(i, applied) =>
      assert AddressedQuery(b.queries[i], nodes, program);
      ApplyKeepsAddressed(s, b.queries[i], nodes, program);
    case Finish => SetKeepsAddressed(s, b.(queries := [], stored := true), nodes, program);
    case Confirm =>
    case Advance =>
  }

  lemma {:induction false} RunKeepsAddressed(s: State, actions: seq<Action>, t: State, nodes: string -> string,
      program: string -> string)
    requires Inv(s) && Run(s, actions, t) && Addressed(s, nodes, program)
    requires forall a :: a in actions ==> WritesContent(a, nodes, program)
    ensures Inv(t) && Addressed(t, nodes, program)
    decreases |actions|
  {
    hide Inv, Addressed;
    if actions != [] {
      StepKeepsInv(s, actions[0]);
      StepKeepsAddressed(s, actions[0], nodes, program);
      RunKeepsAddressed(Step(s, actions[0]), actions[1..], t, nodes, program);
    }
  }

  /** Whatever the interleaving, a program that was written is found in the buffers, with its value, or
      is in the database already. */
  lemma ProgramsAreFound(s: State, key: string, nodes: string -> string, program: string -> string)
    requires Inv(s) && Addressed(s, nodes, program) && key in s.hist.program
    ensures FindProgram(s, key) == Some(program(key))
         || (FindProgram(s, key) == None && key in s.db.program && s.db.program[key] == program(key))
  {
    hide MarksOk, RootsOk, SentIsStored, StoredWhenDone, Ids, QueriesOk;
    assert AddressedBuffer(s.Pending(), nodes, program) && AddressedBuffer(s.Storing(), nodes, program);
  }

  ghost predicate NodeVisible(s: State, key: string, nodes: string -> string)
    requires s.Indexed()
  {
    || FindNode(s, key) == Some(nodes(key))
    || (FindNode(s, key) == None && key in s.db.nodes && s.db.nodes[key] == nodes(key))
  }

  /** For nodes this holds exactly as far as the guard on the flush ids is right: every written node is
      visible if and only if the ids differ or nothing in the storing buffer is still missing from the
      database and the pending buffer. */
  lemma NodesAreFoundIff(s: State, nodes: string -> string, program: string -> string)
    requires Inv(s) && Addressed(s, nodes, program)
    ensures (forall key :: key in s.hist.nodes ==> NodeVisible(s, key, nodes))
        <==> (s.storing != s.stored
              || s.Storing().nodes.accepted.Keys <= s.db.nodes.Keys + Held(s.Pending().nodes))
  {
    hide MarksOk, RootsOk, SentIsStored, StoredWhenDone, Ids, QueriesOk;
    assert AddressedBuffer(s.Pending(), nodes, program) && AddressedBuffer(s.Storing(), nodes, program);
    if s.storing == s.stored {
      forall key | key in s.Storing().nodes.accepted.Keys && NodeVisible(s, key, nodes)
        ensures key in s.db.nodes.Keys + Held(s.Pending().nodes)
      {
      }
    }
  }

  /** In particular whenever no send is in progress. */
  lemma NodesAreFoundWhenIdle(s: State, key: string, nodes: string -> string, program: string -> string)
    requires Inv(s) && Addressed(s, nodes, program) && key in s.hist.nodes && !s.InFlight()
    ensures NodeVisible(s, key, nodes)
  {
    hide MarksOk, RootsOk, SentIsStored, Ids, QueriesOk;
    assert AddressedBuffer(s.Pending(), nodes, program) && AddressedBuffer(s.Storing(), nodes, program);
  }

  /** When the ids can agree during a send: a wake-up that switches the buffers and starts to send
      leaves them equal iff no flush was outstanding. */
  lemma SwitchLeavesIdsEqualIff(s: State)
    requires Inv(s) && Enabled(s, Wake) && s.Storing().queries == [] && !s.Pending().IsEmpty()
    ensures var t := AfterWake(s); t.phase == Entering && (t.storing == t.stored <==> s.stored == s.last)
  {
    hide BuffersOk, MarksOk, RootsOk, StoredWhenDone, Ids, QueriesOk, Kept;
    assert AcceptIntray(s.Pending()) == AfterSwitch(s).Storing();
  }

  /** From then on only the confirmation moves them: writers, flushes and the queries do not. */
  lemma IdsStayDuringSend(s: State, a: Action)
    requires s.Indexed() && Enabled(s, a) && !(a.Wake? || a.Confirm? || a.Advance?)
    ensures Step(s, a).storing == s.storing && Step(s, a).stored == s.stored
  {
  }

  /** The guard can be wrong: when the sender times out and switches a node that no flush has accepted
      yet, the ids agree, and the node is nowhere to be found until it reaches the database. */
  lemma UnflushedNodeIsInvisible(key: string, value: string)
    ensures var run := [WriteNode(key, value), Wake];
            exists t :: && Run(Initial(Db(map[], map[], "")), run, t) && t.Indexed()
                        && key in t.hist.nodes && FindNode(t, key) == None && key !in t.db.nodes
  {
    var s := Initial(Db(map[], map[], ""));
    var u := AfterWriteNode(s, key, value);
    assert key in u.Pending().nodes.intray;
    var t := AfterWake(u);
    assert AfterSwitch(u).Storing().nodes.accepted == map[key := value];
    assert t == AfterSwitch(u).(phase := Entering);
    var run := [WriteNode(key, value), Wake];
    assert run[1..] == [Wake] && run[1..][1..] == [];
    assert Run(t, [], t);
    assert Run(u, [Wake], t);
    assert Run(s, run, t);
  }
}
