/** The classes behind the asynchronous write protocol. Each method is one critical section, or one
    step of the sender thread outside the lock, and is proved to be the corresponding action. */
module MultiWrites {
  import opened FlushProgress
  import opened FlushProtocol
  import opened Results

  class MultiWriteData {
    var program: map<string, string>
    var programIntray: map<string, string>
    var nodes: map<string, string>
    var nodesIntray: map<string, string>
    var nodesStateRoot: string
    var multiQuery: seq<Query>
    var stored: bool

    ghost function Value(): Buffer
      reads this
    {
      Buffer(Table(nodes, nodesIntray), Table(program, programIntray), nodesStateRoot, multiQuery, stored)
    }

    constructor ()
      ensures Value() == EMPTY_BUFFER
    {
      program, programIntray, nodes, nodesIntray := map[], map[], map[], map[];
      nodesStateRoot, multiQuery, stored := "", [], false;
    }

    method Reset()
      modifies this
      ensures Value() == EMPTY_BUFFER
    {
      program, programIntray, nodes, nodesIntray := map[], map[], map[], map[];
      nodesStateRoot, multiQuery, stored := "", [], false;
    }

    predicate IsEmpty()
      reads this
      ensures IsEmpty() == Value().IsEmpty()
    {
      |nodes| == 0 && |nodesIntray| == 0 && |program| == 0 && |programIntray| == 0 && |nodesStateRoot| == 0
    }

    method AcceptIntray()
      modifies this
      ensures Value() == FlushProtocol.AcceptIntray(old(Value()))
    {
      if programIntray != map[] {
        program := programIntray + program;
        programIntray := map[];
      } else {
        MergeNothing(program);
      }
      if nodesIntray != map[] {
        nodes := nodesIntray + nodes;
        nodesIntray := map[];
      } else {
        MergeNothing(nodes);
      }
    }
  }

  lemma MergeNothing(m: map<string, string>)
    ensures map[] + m == m
  {
  }

  // ---------------------------------------------------------------- building the queries

  datatype Row = Row(key: string, value: string)

  const TRAILER := 31

  /** Characters that one row adds to a query */
  function Width(row: Row): nat {
    |row.key| + |row.value| + 19
  }

  function AddRow(q: Query, row: Row, bProgram: bool): Query {
    if bProgram then q.(program := q.program[row.key := row.value])
    else q.(nodes := q.nodes[row.key := row.value])
  }

  /** A query takes a row even when that makes it full, so a row that fills a query by itself is
      never passed. */
  ghost predicate Fits(rows: seq<Row>, header: nat, limit: nat) {
    forall r :: r in rows ==> header + Width(r) < limit
  }

  ghost predicate Queued(queries: seq<Query>, row: Row, bProgram: bool) {
    if bProgram then ProgramQueued(queries, row.key) else NodeQueued(queries, row.key)
  }

  /** Queries not sent yet, with rows of these tables only and no state root */
  ghost predicate Fresh(queries: seq<Query>, nodes: map<string, string>, program: map<string, string>) {
    forall q :: q in queries ==> !q.sent && q.root == "" && RowsOf(q.nodes, nodes) && RowsOf(q.program, program)
  }

  /** Later queries hold at least the rows of earlier ones. */
  ghost predicate Grows(before: seq<Query>, after: seq<Query>) {
    && |before| <= |after|
    && forall i :: 0 <= i < |before| ==>
         before[i].nodes.Keys <= after[i].nodes.Keys && before[i].program.Keys <= after[i].program.Keys
  }

  lemma GrowsKeepsQueued(before: seq<Query>, after: seq<Query>)
    requires Grows(before, after)
    ensures forall k :: NodeQueued(before, k) ==> NodeQueued(after, k)
    ensures forall k :: ProgramQueued(before, k) ==> ProgramQueued(after, k)
  {
    forall k | NodeQueued(before, k) ensures NodeQueued(after, k) {
      var q :| q in before && k in q.nodes;
      var i :| 0 <= i < |before| && before[i] == q;
      assert after[i] in after && k in after[i].nodes;
    }
    forall k | ProgramQueued(before, k) ensures ProgramQueued(after, k) {
      var q :| q in before && k in q.program;
      var i :| 0 <= i < |before| && before[i] == q;
      assert after[i] in after && k in after[i].program;
    }
  }

  ghost predicate RowsFrom(rows: seq<Row>, table: map<string, string>) {
    forall r :: r in rows ==> r.key in table && table[r.key] == r.value
  }

  function Last(queries: seq<Query>): Query
    requires queries != []
  {
    queries[|queries| - 1]
  }

  predicate NeedsQuery(queries: seq<Query>) {
    queries == [] || Last(queries).full
  }

  const NEW_QUERY := Query(map[], map[], "", 0, false, false)

  /** Characters that the rows from `from` on and below `to` add, separators included */
  function Text(rows: seq<Row>, from: nat, to: nat): nat
    requires from <= to <= |rows|
  {
    if to == from then 0 else Text(rows, from, to - 1) + Width(rows[to - 1]) + (if to - 1 == from then 0 else 2)
  }

  /** One INSERT: rows are appended to the last query until it is full, and it is full exactly when their
      text reaches the limit; a row that fills it is taken again by the next one. */
  method FillQuery(queries: seq<Query>, rows: seq<Row>, from: nat, bProgram: bool, header: nat, limit: nat,
      ghost nodes: map<string, string>, ghost program: map<string, string>)
    returns (r: seq<Query>, it: nat)
    requires from < |rows| && queries != [] && Fresh(queries, nodes, program)
    requires RowsFrom(rows, if bProgram then program else nodes)
    ensures Fresh(r, nodes, program) && Grows(queries, r)
    ensures |r| == |queries| && r[..|r| - 1] == queries[..|r| - 1]
    ensures from <= it <= |rows|
    ensures forall j :: from <= j < it ==> Queued(r, rows[j], bProgram)
    ensures it == from <==> Last(queries).size + header + Width(rows[from]) >= limit
    ensures it == from ==> Last(r).full
    ensures forall j :: from < j <= it ==> Last(queries).size + header + Text(rows, from, j) < limit
    ensures it < |rows| ==> Last(r).full && Last(queries).size + header + Text(rows, from, it + 1) >= limit
    ensures it == |rows| ==> Last(r).full == Last(queries).full
    ensures Last(r).size ==
            Last(queries).size + header + Text(rows, from, if it < |rows| then it + 1 else it) + TRAILER
  {
    hide Fresh, Grows, Queued, RowsOf, Width, RowsFrom, Extends, HoldsRows;
    var q := Last(queries);
    LastIsFresh(queries, nodes, program);
    NoRowsHeld(TableOf(q, bProgram), rows, from);
    q := q.(size := q.size + header);
    it := from;
    var firstValue, full := true, false;
    ghost var start, base := Last(queries), q.size;
    while it < |rows| && !full
      invariant from <= it <= |rows| && !q.sent && q.root == ""
      invariant Extends(start, q.nodes, q.program, nodes, program)
      invariant HoldsRows(TableOf(q, bProgram), rows, from, it)
      invariant forall j :: from < j <= it ==> base + Text(rows, from, j) < limit
      invariant firstValue <==> it == from && !full
      invariant !full ==> q.full == start.full && q.size == base + Text(rows, from, it)
      invariant full ==> it < |rows| && q.full && limit <= q.size == base + Text(rows, from, it + 1)
      decreases |rows| - it, !full
    {
      if !firstValue {
        q := q.(size := q.size + 2);
      }
      AddRowExtends(start, q, rows, from, it, bProgram, nodes, program);
      q := AddRow(q, rows[it], bProgram);
      q := q.(size := q.size + Width(rows[it]));
      if q.size >= limit {
        q := q.(full := true);
        full := true;
      } else {
        it := it + 1;
      }
      firstValue := false;
    }
    q := q.(size := q.size + TRAILER);
    r := queries[|queries| - 1 := q];
    FilledLast(queries, q, rows, from, it, bProgram, nodes, program);
    FirstText(rows, from);
  }

  function TableOf(q: Query, bProgram: bool): map<string, string> {
    if bProgram then q.program else q.nodes
  }

  /** These rows of a query include those of `start` and come from the tables only. */
  ghost predicate Extends(start: Query, someNodes: map<string, string>, somePrograms: map<string, string>,
      nodes: map<string, string>, program: map<string, string>) {
    && RowsOf(someNodes, nodes) && RowsOf(somePrograms, program)
    && start.nodes.Keys <= someNodes.Keys && start.program.Keys <= somePrograms.Keys
  }

  ghost predicate HoldsRows(table: map<string, string>, rows: seq<Row>, from: nat, to: nat)
    requires from <= to <= |rows|
  {
    forall j :: from <= j < to ==> rows[j].key in table
  }

  lemma NoRowsHeld(table: map<string, string>, rows: seq<Row>, from: nat)
    requires from <= |rows|
    ensures HoldsRows(table, rows, from, from)
  {
  }

  lemma LastIsFresh(queries: seq<Query>, nodes: map<string, string>, program: map<string, string>)
    requires queries != [] && Fresh(queries, nodes, program)
    ensures var q := Last(queries); !q.sent && q.root == "" && Extends(q, q.nodes, q.program, nodes, program)
  {
    assert Last(queries) in queries;
  }

  lemma AddRowExtends(start: Query, q: Query, rows: seq<Row>, from: nat, it: nat, bProgram: bool,
      nodes: map<string, string>, program: map<string, string>)
    requires from <= it < |rows| && RowsFrom(rows, if bProgram then program else nodes)
    requires Extends(start, q.nodes, q.program, nodes, program) && HoldsRows(TableOf(q, bProgram), rows, from, it)
    ensures var r := AddRow(q, rows[it], bProgram);
      && Extends(start, r.nodes, r.program, nodes, program)
      && HoldsRows(TableOf(r, bProgram), rows, from, it) && HoldsRows(TableOf(r, bProgram), rows, from, it + 1)
  {
    assert rows[it] in rows;
  }

  lemma FilledLast(queries: seq<Query>, q: Query, rows: seq<Row>, from: nat, it: nat, bProgram: bool,
      nodes: map<string, string>, program: map<string, string>)
    requires queries != [] && Fresh(queries, nodes, program) && from <= it <= |rows| && !q.sent && q.root == ""
    requires Extends(Last(queries), q.nodes, q.program, nodes, program)
    requires HoldsRows(TableOf(q, bProgram), rows, from, it)
    ensures var r := queries[|queries| - 1 := q];
      Fresh(r, nodes, program) && Grows(queries, r) && forall j :: from <= j < it ==> Queued(r, rows[j], bProgram)
  {
    var r := queries[|queries| - 1 := q];
    assert r[|queries| - 1] in r;
    forall p | p in r ensures p == q || p in queries {}
  }

  lemma FirstText(rows: seq<Row>, from: nat)
    requires from < |rows|
    ensures Text(rows, from, from + 1) == Width(rows[from])
  {
    assert Text(rows, from, from) == 0;
  }

  /** Every query but the last is full. */
  predicate Packed(queries: seq<Query>) {
    forall i :: 0 <= i < |queries| - 1 ==> queries[i].full
  }

  lemma PackedOn(queries: seq<Query>, r: seq<Query>)
    requires Packed(queries)
    ensures NeedsQuery(queries) ==> Packed(queries + [NEW_QUERY])
    ensures queries != [] && |r| == |queries| && r[..|r| - 1] == queries[..|r| - 1] ==> Packed(r)
  {
    if queries != [] && |r| == |queries| && r[..|r| - 1] == queries[..|r| - 1] {
      forall i | 0 <= i < |r| - 1 ensures r[i].full { assert r[..|r| - 1][i] == queries[..|r| - 1][i]; }
    }
  }

  method PackRows(queries: seq<Query>, rows: seq<Row>, bProgram: bool, header: nat, limit: nat,
      ghost nodes: map<string, string>, ghost program: map<string, string>)
    returns (r: seq<Query>)
    requires Fresh(queries, nodes, program)
    requires RowsFrom(rows, if bProgram then program else nodes) && Fits(rows, header, limit)
    ensures Fresh(r, nodes, program) && Grows(queries, r)
    ensures Packed(queries) ==> Packed(r)
    ensures forall j :: 0 <= j < |rows| ==> Queued(r, rows[j], bProgram)
  {
    hide Fresh, NodeQueued, ProgramQueued, Fits, RowsFrom, Width, Text, Grows, Packed;
    r := queries;
    var it := 0;
    GrowsThrough(queries, queries, queries);
    while it < |rows|
      invariant 0 <= it <= |rows|
      invariant Fresh(r, nodes, program) && Grows(queries, r) && (Packed(queries) ==> Packed(r))
      invariant forall j :: 0 <= j < it ==> Queued(r, rows[j], bProgram)
      decreases |rows| - it, !NeedsQuery(r)
    {
      ghost var before := r;
      if Packed(r) { PackedOn(r, r); }
      if NeedsQuery(r) {
        AppendKeepsFresh(r, nodes, program);
        r := r + [NEW_QUERY];
      }
      var from := it;
      RowFits(rows, from, header, limit);
      ghost var mid := r;
      r, it := FillQuery(r, rows, from, bProgram, header, limit, nodes, program);
      if Packed(mid) { PackedOn(mid, r); }
      GrowsThrough(before, mid, r);
      GrowsOn(queries, before, r);
      GrowsKeepsQueued(before, r);
    }
  }

  /** A row that does not fit a query of its own is never passed: the loop of `PackRows` is still at it
      after any number of rounds. */
  method NeverPasses(queries: seq<Query>, rows: seq<Row>, from: nat, bProgram: bool, header: nat, limit: nat,
      rounds: nat, ghost nodes: map<string, string>, ghost program: map<string, string>)
    returns (r: seq<Query>, it: nat)
    requires Fresh(queries, nodes, program) && RowsFrom(rows, if bProgram then program else nodes)
    requires from < |rows| && header + Width(rows[from]) >= limit
    ensures it == from && (rounds > 0 ==> NeedsQuery(r))
  {
    hide Fresh, RowsFrom, Width, Grows;
    r, it := queries, from;
    for round := 0 to rounds
      invariant it == from && Fresh(r, nodes, program) && (round > 0 ==> NeedsQuery(r))
    {
      if NeedsQuery(r) {
        AppendKeepsFresh(r, nodes, program);
        r := r + [NEW_QUERY];
      }
      r, it := FillQuery(r, rows, it, bProgram, header, limit, nodes, program);
      assert it == from;
    }
  }

  lemma GrowsThrough(before: seq<Query>, mid: seq<Query>, after: seq<Query>)
    requires before <= mid && (Grows(mid, after) || mid == after)
    ensures Grows(before, after)
  {
  }

  lemma GrowsOn(a: seq<Query>, b: seq<Query>, c: seq<Query>)
    requires Grows(a, b) && Grows(b, c)
    ensures Grows(a, c)
  {
  }

  lemma RowFits(rows: seq<Row>, from: nat, header: nat, limit: nat)
    requires from < |rows| && Fits(rows, header, limit)
    ensures header + Width(rows[from]) < limit
  {
    assert rows[from] in rows;
  }

  lemma AppendKeepsFresh(r: seq<Query>, nodes: map<string, string>, program: map<string, string>)
    requires Fresh(r, nodes, program)
    ensures Fresh(r + [NEW_QUERY], nodes, program)
  {
  }

  /** Some enumeration of a table */
  method Enumerate(table: map<string, string>) returns (rows: seq<Row>)
    ensures RowsFrom(rows, table)
    ensures forall k :: k in table ==> Row(k, table[k]) in rows
  {
    var rest := table.Keys;
    rows := [];
    while rest != {}
      invariant rest <= table.Keys && RowsFrom(rows, table)
      invariant forall k :: k in table ==> k in rest || Row(k, table[k]) in rows
      decreases |rest|
    {
      var k :| k in rest;
      rest := rest - {k};
      rows := rows + [Row(k, table[k])];
    }
  }

  ghost predicate TableFits(table: map<string, string>, header: nat, limit: nat) {
    forall k :: k in table ==> header + Width(Row(k, table[k])) < limit
  }

  /** The first part of `sendData`: nodes, then programs, then the state root. */
  method BuildQueries(data: MultiWriteData, nodesHeader: nat, programHeader: nat, rootText: nat, limit: nat)
    returns (queries: seq<Query>)
    requires TableFits(data.nodes, nodesHeader, limit) && TableFits(data.program, programHeader, limit)
    ensures Covers(queries, data.Value()) && Unsent(queries) && Packed(queries)
  {
    var nodes := Enumerate(data.nodes);
    queries := PackRows([], nodes, false, nodesHeader, limit, data.nodes, data.program);
    forall k | k in data.nodes ensures NodeQueued(queries, k) { assert Queued(queries, Row(k, data.nodes[k]), false); }
    ghost var before := queries;
    var program := Enumerate(data.program);
    queries := PackRows(queries, program, true, programHeader, limit, data.nodes, data.program);
    GrowsKeepsQueued(before, queries);
    forall k | k in data.program
      ensures ProgramQueued(queries, k)
    {
      assert Queued(queries, Row(k, data.program[k]), true);
    }
    if |data.nodesStateRoot| > 0 {
      queries := AddRoot(queries, data.nodesStateRoot, rootText, data.nodes, data.program);
    }
  }

  method AddRoot(queries: seq<Query>, root: string, rootText: nat, ghost nodes: map<string, string>,
      ghost program: map<string, string>) returns (r: seq<Query>)
    requires Fresh(queries, nodes, program) && root != ""
    ensures Unsent(r) && RootQueued(r) && (Packed(queries) ==> Packed(r))
    ensures forall q :: q in r ==>
      RowsOf(q.nodes, nodes) && RowsOf(q.program, program) && (q.root == "" || q.root == root)
    ensures forall k :: NodeQueued(queries, k) ==> NodeQueued(r, k)
    ensures forall k :: ProgramQueued(queries, k) ==> ProgramQueued(r, k)
  {
    r := queries;
    if NeedsQuery(r) {
      r := r + [NEW_QUERY];
    }
    var last := |r| - 1;
    var q := r[last];
    assert q in r;
    r := r[last := q.(root := root, size := q.size + rootText, full := true)];
    assert r[last] in r;
    assert Grows(queries, r);
    GrowsKeepsQueued(queries, r);
  }

  // ---------------------------------------------------------------- the database object

  class Database {
    var lastFlushId: nat
    var storedFlushId: nat
    var storingFlushId: nat
    var pendingToFlushDataIndex: nat
    var storingDataIndex: nat
    var synchronizingDataIndex: nat
    const data: seq<MultiWriteData>
    var remote: Db
    var phase: Phase
    ghost var hist: History

    ghost predicate Valid()
      reads this
    {
      && |data| == 3 && data[0] != data[1] && data[0] != data[2] && data[1] != data[2]
      && pendingToFlushDataIndex < 3 && storingDataIndex < 3 && synchronizingDataIndex < 3
    }

    ghost function View(): State
      reads this, data
      requires Valid()
    {
      FlushProtocol.State.State(lastFlushId, storedFlushId, storingFlushId,
                  pendingToFlushDataIndex, storingDataIndex, synchronizingDataIndex,
                  [data[0].Value(), data[1].Value(), data[2].Value()], remote, phase, hist)
    }

    constructor (remote: Db)
      ensures Valid() && fresh(data) && View() == Initial(remote)
    {
      var d0 := new MultiWriteData();
      var d1 := new MultiWriteData();
      var d2 := new MultiWriteData();
      lastFlushId, storedFlushId, storingFlushId := 0, 0, 0;
      pendingToFlushDataIndex, storingDataIndex, synchronizingDataIndex := 0, 2, 2;
      data := [d0, d1, d2];
      this.remote, phase := remote, Waiting;
      hist := History({}, {}, [], 0, 0, []);
    }

    /** `writeRemote` in multi-write mode */
    method WriteRemote(bProgram: bool, key: string, value: string)
      requires Valid()
      modifies this, data
      ensures Valid()
      ensures View() == if bProgram then AfterWriteProgram(old(View()), key, value)
                         else AfterWriteNode(old(View()), key, value)
    {
      var d := data[pendingToFlushDataIndex];
      if bProgram {
        d.programIntray := d.programIntray[key := value];
        hist := hist.(program := hist.program + {key});
      } else {
        d.nodesIntray := d.nodesIntray[key := value];
        hist := hist.(nodes := hist.nodes + {key});
      }
    }

    method UpdateStateRoot(valueString: string)
      requires Valid() && valueString != ""
      modifies this, data
      ensures Valid() && View() == AfterWriteRoot(old(View()), valueString)
    {
      data[pendingToFlushDataIndex].nodesStateRoot := valueString;
      hist := hist.(roots := hist.roots + [valueString]);
    }

    method SemiFlush()
      requires Valid()
      modifies this, data
      ensures Valid() && View() == AfterSemiFlush(old(View()))
    {
      data[pendingToFlushDataIndex].AcceptIntray();
    }

    method Flush() returns (thisBatch: nat, lastSentBatch: nat)
      requires Valid()
      modifies this, data
      ensures Valid() && View() == AfterFlush(old(View()))
      ensures thisBatch == old(View()).last + 1 && lastSentBatch == old(View()).stored
    {
      data[pendingToFlushDataIndex].AcceptIntray();
      lastFlushId := lastFlushId + 1;
      thisBatch := lastFlushId;
      lastSentBatch := storedFlushId;
      hist := hist.(marks := hist.marks + [Mark(hist.nodes, hist.program, |hist.roots|)]);
    }

    method FindProgram(key: string) returns (bResult: bool, value: string)
      requires Valid()
      ensures FlushProtocol.FindProgram(View(), key) == if bResult then Some(value) else None
    {
      bResult, value := false, "";
      var pending, storing := data[pendingToFlushDataIndex], data[storingDataIndex];
      if key in pending.program && |pending.program[key]| % 2 == 0 {
        bResult, value := true, pending.program[key];
      }
      if !bResult && key in pending.programIntray && |pending.programIntray[key]| % 2 == 0 {
        bResult, value := true, pending.programIntray[key];
      }
      if !bResult && key in storing.program && |storing.program[key]| % 2 == 0 {
        bResult, value := true, storing.program[key];
      }
    }

    method FindNode(key: string) returns (bResult: bool, value: string)
      requires Valid()
      ensures FlushProtocol.FindNode(View(), key) == if bResult then Some(value) else None
    {
      bResult, value := false, "";
      var pending, storing := data[pendingToFlushDataIndex], data[storingDataIndex];
      if key in pending.nodes && |pending.nodes[key]| % 16 == 0 {
        bResult, value := true, pending.nodes[key];
      }
      if !bResult && key in pending.nodesIntray && |pending.nodesIntray[key]| % 16 == 0 {
        bResult, value := true, pending.nodesIntray[key];
      }
      if storingFlushId != storedFlushId {
        if !bResult && key in storing.nodes && |storing.nodes[key]| % 16 == 0 {
          bResult, value := true, storing.nodes[key];
        }
      }
    }

    lemma StoringQueries()
      requires Valid()
      ensures View().Storing().queries == data[storingDataIndex].multiQuery
    {
    }

    /** The sender's turn under the lock; `send` says whether `sendData` is called next. */
    method SenderTurn() returns (send: bool)
      requires Valid() && phase == Waiting
      modifies this, data
      ensures Valid() && View() == AfterWake(old(View()))
      ensures phase == if send then Entering else Waiting
    {
      hide AfterSwitch, MultiWriteData.Value;
      StoringQueries();
      send := true;
      if data[storingDataIndex].multiQuery != [] {
        phase := Entering;
      } else if data[pendingToFlushDataIndex].IsEmpty() {
        storedFlushId := lastFlushId;
        send := false;
      } else {
        SwitchBuffers();
        if data[storingDataIndex].IsEmpty() {
          storedFlushId := storingFlushId;
          synchronizingDataIndex := (synchronizingDataIndex + 1) % 3;
          send := false;
        } else {
          phase := Entering;
        }
      }
    }

    /** The intray of the pending buffer goes into its main tables. */
    method AcceptPending()
      requires Valid()
      modifies data[pendingToFlushDataIndex]
      ensures var s := old(View());
        View() == s.(buffers := s.buffers[s.pendingIx := FlushProtocol.AcceptIntray(s.Pending())])
    {
      hide AcceptIntray;
      data[pendingToFlushDataIndex].AcceptIntray();
    }

    method SwitchBuffers()
      requires Valid()
      modifies this, data
      ensures Valid() && View() == AfterSwitch(old(View())) && phase == old(phase)
    {
      hide AcceptIntray, MultiWriteData.Value;
      AcceptPending();
      storingDataIndex := (storingDataIndex + 1) % 3;
      pendingToFlushDataIndex := (pendingToFlushDataIndex + 1) % 3;
      data[pendingToFlushDataIndex].Reset();
      storingFlushId := lastFlushId;
      hist := hist.(captured := |hist.roots|);
    }

    /** Entry of `sendData`, outside the lock */
    method EnterSendData(nodesHeader: nat, programHeader: nat, rootText: nat, limit: nat)
      returns (ghost queries: seq<Query>)
      requires Valid() && phase == Entering
      requires BuffersFit(View(), nodesHeader, programHeader, limit)
      modifies this, data[storingDataIndex]
      ensures Valid() && Enabled(old(View()), Enter(queries)) && View() == AfterEnter(old(View()), queries)
      ensures phase in {Confirmed, Sent, Sending}
    {
      hide Covers, Unsent, TableFits, BuffersFit, AfterEnter;
      StoringFits(View(), nodesHeader, programHeader, limit);
      assert data[storingDataIndex].Value() == View().Storing();
      var built := BuildQueries(data[storingDataIndex], nodesHeader, programHeader, rootText, limit);
      queries := built;
      StartSending(built);
    }

    method StartSending(built: seq<Query>)
      requires Valid() && phase == Entering
      modifies this, data[storingDataIndex]
      ensures Valid() && View() == AfterEnter(old(View()), built)
      ensures phase in {Confirmed, Sent, Sending}
    {
      var d := data[storingDataIndex];
      ghost var v := View();
      assert d.Value() == v.Storing();
      EnterCases(v, built);
      hide AfterEnter, Buffer.IsEmpty;
      var empty := d.IsEmpty();
      hide MultiWriteData.IsEmpty;
      if empty || d.stored {
        phase := Confirmed;
      } else if d.multiQuery != [] {
        phase := Sending;
      } else {
        if built == [] {
          d.stored := true;
          phase := Sent;
        } else {
          d.multiQuery := built;
          phase := Sending;
        }
        assert d.Value() == v.Storing().(queries := built, stored := built == []);
        hide MultiWriteData.Value;
        assert View().buffers == v.buffers[v.storingIx := d.Value()] by {
          if storingDataIndex == 0 {} else if storingDataIndex == 1 {} else {}
        }
      }
    }

    method MarkSent(i: nat)
      requires Valid() && i < |data[storingDataIndex].multiQuery|
      modifies data[storingDataIndex]
      ensures var s := old(View()); var b := s.Storing();
              View() == SetStoring(s, b.(queries := b.queries[i := b.queries[i].(sent := true)]))
    {
      var d := data[storingDataIndex];
      d.multiQuery := d.multiQuery[i := d.multiQuery[i].(sent := true)];
    }

    /** One transaction of `sendData`. It can fail, before or after the database committed it. */
    method ExecuteQuery(i: nat) returns (ok: bool, ghost applied: bool)
      requires Valid() && phase == Sending && i < |data[storingDataIndex].multiQuery|
      requires !data[storingDataIndex].multiQuery[i].sent
      modifies this, data[storingDataIndex]
      ensures Valid()
      ensures View() == if ok then AfterExecute(old(View()), i) else AfterFail(old(View()), i, applied)
      ensures phase == if ok then Sending else Waiting
    {
      var q := data[storingDataIndex].multiQuery[i];
      assert View().Storing().queries == data[storingDataIndex].multiQuery;
      hide MultiWriteData.Value, Apply;
      ok := *;
      var committed: bool := *;
      applied := committed;
      if ok || committed {
        remote := Apply(remote, q);
        if q.root != "" { hist := hist.(durable := hist.captured); }
      }
      if ok {
        MarkSent(i);
      } else {
        phase := Waiting;
      }
    }

    method FinishSend()
      requires Valid() && phase == Sending
      modifies this, data[storingDataIndex]
      ensures Valid() && View() == AfterFinish(old(View())) && phase == Sent
    {
      var d := data[storingDataIndex];
      d.multiQuery := [];
      d.stored := true;
      phase := Sent;
    }

    /** The lock at the end of `sendData` */
    method ConfirmStored()
      requires Valid() && phase == Sent
      modifies this
      ensures Valid() && View() == AfterConfirm(old(View())) && phase == Confirmed
    {
      storedFlushId := storingFlushId;
      phase := Confirmed;
    }

    /** The lock of the sender thread after a successful send */
    method AdvanceSynchronizing()
      requires Valid() && phase == Confirmed
      modifies this
      ensures Valid() && View() == AfterAdvance(old(View())) && phase == Waiting
    {
      storedFlushId := storingFlushId;
      synchronizingDataIndex := (synchronizingDataIndex + 1) % 3;
      phase := Waiting;
    }

    /** One query, as a step of the protocol */
    method TryQuery(i: nat) returns (ok: bool, ghost a: Action)
      requires Valid() && phase == Sending && i < |data[storingDataIndex].multiQuery|
      requires !data[storingDataIndex].multiQuery[i].sent
      modifies this, data[storingDataIndex]
      ensures Valid() && CanStep(old(View()), a, View())
      ensures phase == if ok then Sending else Waiting
      ensures lastFlushId == old(lastFlushId) && if ok then Uninterrupted(a) else a.Fail?
      ensures ok ==>
                && storingDataIndex == old(storingDataIndex)
                && var d := data[storingDataIndex];
                   && |d.multiQuery| == |old(d.multiQuery)| && d.multiQuery[i].sent
                   && forall j :: 0 <= j < |d.multiQuery| && j != i ==> d.multiQuery[j] == old(d.multiQuery)[j]
    {
      ghost var before, applied := View(), false;
      assert before.Storing() == data[storingDataIndex].Value();
      CanExecute(before, i);
      hide CanStep, AfterExecute, AfterFail;
      ok, applied := ExecuteQuery(i);
      a := if ok then Execute(i) else Fail(i, applied);
      if ok {
        ExecuteKeepsOthers(before, i);
        assert View().Storing() == data[storingDataIndex].Value();
      }
    }

    /** All unsent queries in order, until one fails */
    method SendQueries() returns (ok: bool, ghost actions: seq<Action>)
      requires Valid() && phase == Sending
      modifies this, data[storingDataIndex]
      ensures Valid() && Run(old(View()), actions, View())
      ensures phase == if ok then Sent else Waiting
      ensures lastFlushId == old(lastFlushId)
      ensures if ok then forall a :: a in actions ==> Uninterrupted(a)
              else actions != [] && actions[|actions| - 1].Fail?
    {
      hide AfterExecute, AfterFail, AfterFinish, CanStep, Enabled;
      var d := data[storingDataIndex];
      actions := [];
      ghost var s0 := View();
      assert Run(s0, actions, View());
      hide Run;
      var i := 0;
      while i < |d.multiQuery|
        invariant Valid() && phase == Sending && data[storingDataIndex] == d
        invariant i <= |d.multiQuery| && (forall j :: 0 <= j < i ==> d.multiQuery[j].sent)
        invariant Run(s0, actions, View()) && lastFlushId == old(lastFlushId)
        invariant forall a :: a in actions ==> Uninterrupted(a)
        decreases |d.multiQuery| - i
      {
        if !d.multiQuery[i].sent {
          ghost var before, a := View(), Finish;
          ok, a := TryQuery(i);
          RunAppend(s0, actions, before, a, View());
          actions := actions + [a];
          if !ok { return; }
        }
        i := i + 1;
      }
      ghost var before := View();
      CanFinish(before);
      FinishSend();
      RunAppend(s0, actions, before, Finish, View());
      actions := actions + [Finish];
      ok := true;
    }

    /** `sendData` and what the sender thread does after it succeeded */
    method SendAndAdvance(nodesHeader: nat, programHeader: nat, rootText: nat, limit: nat)
      returns (ok: bool, ghost actions: seq<Action>)
      requires Valid() && phase == Entering
      requires BuffersFit(View(), nodesHeader, programHeader, limit)
      modifies this, data
      ensures Valid() && phase == Waiting && Run(old(View()), actions, View())
      ensures lastFlushId == old(lastFlushId)
      ensures if ok then forall a :: a in actions ==> Uninterrupted(a)
              else actions != [] && actions[|actions| - 1].Fail?
    {
      hide AfterEnter, AfterFinish, AfterConfirm, AfterAdvance, AfterWake, Run, BuffersFit, Covers, Unsent, CanStep;
      hide MultiWriteData.Value, Uninterrupted;
      SenderIsUninterrupted();
      ghost var s0 := View();
      RunNothing(s0);
      ghost var before, queries, sending := s0, [], [];
      CanFollow(before);
      ok := true;
      queries := EnterSendData(nodesHeader, programHeader, rootText, limit);
      RunAppend(s0, [], before, Enter(queries), View());
      actions := [] + [Enter(queries)];
      if phase == Sending {
        before := View();
        ok, sending := SendQueries();
        RunConcat(s0, actions, before, sending, View());
        actions := actions + sending;
        if !ok { return; }
      }
      if phase == Sent {
        before := View();
        CanFollow(before);
        ConfirmStored();
        RunAppend(s0, actions, before, Confirm, View());
        actions := actions + [Confirm];
      }
      before := View();
      CanFollow(before);
      AdvanceSynchronizing();
      RunAppend(s0, actions, before, Advance, View());
      actions := actions + [Advance];
    }

    /** One round of the sender thread, without interference. It fails only when a query does, and otherwise
        confirms the flush it resumes, or every flush so far. */
    method SenderRound(nodesHeader: nat, programHeader: nat, rootText: nat, limit: nat)
      returns (ok: bool, ghost actions: seq<Action>)
      requires Valid() && phase == Waiting
      requires BuffersFit(View(), nodesHeader, programHeader, limit)
      modifies this, data
      ensures Valid() && phase == Waiting && Run(old(View()), actions, View())
      ensures lastFlushId == old(lastFlushId)
      ensures ok && old(View()).Storing().queries == [] ==> storedFlushId == old(lastFlushId)
      ensures ok && old(View()).Storing().queries != [] ==> storedFlushId == old(storingFlushId)
      ensures ok ==> Round(old(View()), actions, View())
      ensures !ok ==> actions != [] && actions[|actions| - 1].Fail?
    {
      hide AfterWake, Run, BuffersFit, CanStep;
      WakeKeepsFit(View(), nodesHeader, programHeader, limit);
      ghost var s0, sending := View(), [];
      RunNothing(s0);
      CanFollow(s0);
      var send := SenderTurn();
      RunAppend(s0, [], s0, Wake, View());
      actions := [] + [Wake];
      ok := true;
      if send {
        ghost var before := View();
        ok, sending := SendAndAdvance(nodesHeader, programHeader, rootText, limit);
        RunConcat(s0, actions, before, sending, View());
        actions := actions + sending;
        if !ok { return; }
      }
      RoundConfirms(s0, actions, View());
    }
  }

  lemma SenderIsUninterrupted()
    ensures Uninterrupted(Confirm) && Uninterrupted(Advance) && forall queries :: Uninterrupted(Enter(queries))
  {
  }

  lemma EnterCases(s: State, queries: seq<Query>)
    requires s.Indexed()
    ensures var b := s.Storing();
            AfterEnter(s, queries) ==
            if b.IsEmpty() || b.stored then s.(phase := Confirmed)
            else if b.queries != [] then s.(phase := Sending)
            else s.(buffers := s.buffers[s.storingIx := b.(queries := queries, stored := queries == [])],
                    phase := if queries == [] then Sent else Sending)
  {
  }

  ghost predicate CanStep(s: State, a: Action, t: State) {
    s.Indexed() && Enabled(s, a) && t == Step(s, a)
  }

  lemma CanExecute(s: State, i: nat)
    requires s.Indexed() && s.phase == Sending && i < |s.Storing().queries| && !s.Storing().queries[i].sent
    ensures CanStep(s, Execute(i), AfterExecute(s, i))
    ensures forall applied :: CanStep(s, Fail(i, applied), AfterFail(s, i, applied))
    ensures AfterExecute(s, i).last == s.last && forall applied :: AfterFail(s, i, applied).last == s.last
  {
  }

  lemma CanFinish(s: State)
    requires s.Indexed() && s.phase == Sending && forall q :: q in s.Storing().queries ==> q.sent
    ensures CanStep(s, Finish, AfterFinish(s)) && AfterFinish(s).last == s.last
  {
  }

  lemma CanFollow(s: State)
    requires s.Indexed()
    ensures AfterWake(s).last == AfterConfirm(s).last == AfterAdvance(s).last == s.last
    ensures forall queries :: AfterEnter(s, queries).last == s.last
    ensures s.phase == Waiting ==> CanStep(s, Wake, AfterWake(s))
    ensures s.phase == Sent ==> CanStep(s, Confirm, AfterConfirm(s))
    ensures s.phase == Confirmed ==> CanStep(s, Advance, AfterAdvance(s))
    ensures forall queries :: Enabled(s, Enter(queries)) ==> CanStep(s, Enter(queries), AfterEnter(s, queries))
  {
  }

  /** Every row, once accepted, is short enough for a query of its own. */
  ghost predicate BuffersFit(s: State, nodesHeader: nat, programHeader: nat, limit: nat) {
    forall b :: b in s.buffers ==> BufferFits(b, nodesHeader, programHeader, limit)
  }

  ghost predicate BufferFits(b: Buffer, nodesHeader: nat, programHeader: nat, limit: nat) {
    TableFits(Accept(b.nodes).accepted, nodesHeader, limit)
        && TableFits(Accept(b.program).accepted, programHeader, limit)
  }

  lemma StoringFits(s: State, nodesHeader: nat, programHeader: nat, limit: nat)
    requires s.Indexed() && BuffersFit(s, nodesHeader, programHeader, limit)
    ensures TableFits(s.Storing().nodes.accepted, nodesHeader, limit)
    ensures TableFits(s.Storing().program.accepted, programHeader, limit)
  {
    var b := s.Storing();
    assert BufferFits(b, nodesHeader, programHeader, limit);
    AcceptedStays(b.nodes);
    AcceptedStays(b.program);
  }

  lemma AcceptedStays(t: Table)
    ensures forall k :: k in t.accepted ==> k in Accept(t).accepted && Accept(t).accepted[k] == t.accepted[k]
  {
  }

  lemma WakeKeepsFit(s: State, nodesHeader: nat, programHeader: nat, limit: nat)
    requires s.Indexed() && BuffersFit(s, nodesHeader, programHeader, limit)
    ensures BuffersFit(AfterWake(s), nodesHeader, programHeader, limit)
  {
    hide TableFits;
    var b := AcceptIntray(s.Pending());
    assert BufferFits(s.Pending(), nodesHeader, programHeader, limit);
    MergeNothing(b.nodes.accepted);
    MergeNothing(b.program.accepted);
    assert Accept(b.nodes).accepted == b.nodes.accepted && Accept(b.program).accepted == b.program.accepted;
    assert BufferFits(b, nodesHeader, programHeader, limit);
    EmptyFits(nodesHeader, programHeader, limit);
    hide BufferFits;
    var t := AfterSwitch(s);
    assert forall c :: c in t.buffers ==> c in s.buffers || c == b || c == EMPTY_BUFFER;
  }

  lemma EmptyFits(nodesHeader: nat, programHeader: nat, limit: nat)
    ensures BufferFits(EMPTY_BUFFER, nodesHeader, programHeader, limit)
  {
  }

  lemma RunNothing(s: State)
    ensures Run(s, [], s)
  {
  }

  lemma ExecuteKeepsOthers(s: State, i: nat)
    requires s.Indexed() && i < |s.Storing().queries|
    ensures var t := AfterExecute(s, i);
            && t.Indexed() && t.phase == s.phase && t.storingIx == s.storingIx
            && |t.Storing().queries| == |s.Storing().queries| && t.Storing().queries[i].sent
            && forall j :: 0 <= j < |s.Storing().queries| && j != i ==> t.Storing().queries[j] == s.Storing().queries[j]
  {
  }

  lemma {:induction false} RunAppend(s: State, actions: seq<Action>, t: State, a: Action, u: State)
    requires Run(s, actions, t) && CanStep(t, a, u)
    ensures Run(s, actions + [a], u)
    decreases |actions|
  {
    if actions == [] {
      assert (actions + [a])[1..] == [];
    } else {
      assert (actions + [a])[1..] == actions[1..] + [a];
      RunAppend(Step(s, actions[0]), actions[1..], t, a, u);
    }
  }

  lemma {:induction false} RunConcat(s: State, first: seq<Action>, t: State, second: seq<Action>, u: State)
    requires Run(s, first, t) && Run(t, second, u)
    ensures Run(s, first + second, u)
    decreases |first|
  {
    if first == [] {
      assert first + second == second;
    } else {
      assert (first + second)[1..] == first[1..] + second;
      RunConcat(Step(s, first[0]), first[1..], t, second, u);
    }
  }
}
