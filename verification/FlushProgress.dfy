/** Progress of the write protocol: which flush ids a round of the sender confirms, whatever the writers do
    meanwhile, and that it can always complete a round. */
module FlushProgress {
  import opened FlushProtocol
  import opened Results

  // ---------------------------------------------------------------- what a round confirms

  /** The flush id a round is to confirm: the one of the buffer it resumes, or the last one. */
  function Promised(s: State): nat
    requires s.Indexed()
  {
    if s.Storing().queries != [] then s.storing else s.last
  }

  /** Neither a failed query nor the start of another round */
  predicate Uninterrupted(a: Action) {
    !a.Wake? && !a.Fail?
  }

  /** A round of the sender without a failed query, with any actions of writers in between */
  ghost predicate Round(s: State, actions: seq<Action>, t: State) {
    && s.Indexed() && s.phase == Waiting && t.Indexed() && t.phase == Waiting
    && Run(s, actions, t) && actions != [] && actions[0].Wake?
    && forall i :: 0 < i < |actions| ==> Uninterrupted(actions[i])
  }

  /** On the way to confirming `id`: it is confirmed when the sender waits again, and the one being stored
      until then. */
  ghost predicate Confirming(s: State, id: nat) {
    s.Indexed() && if s.phase == Waiting then s.stored == id else s.storing == id
  }

  lemma WakeConfirming(s: State)
    requires s.Indexed() && Enabled(s, Wake)
    ensures Confirming(Step(s, Wake), Promised(s)) && Step(s, Wake).last == s.last
  {
    hide AcceptIntray;
  }

  lemma StepConfirming(s: State, a: Action, id: nat)
    requires CanHappen(s, a) && Uninterrupted(a) && Confirming(s, id)
    ensures Confirming(Step(s, a), id) && s.last <= Step(s, a).last
  {
    hide Covers, Apply, AcceptIntray;
  }

  ghost predicate CanHappen(s: State, a: Action) {
    s.Indexed() && Enabled(s, a)
  }

  lemma {:induction false} RunConfirming(s: State, actions: seq<Action>, t: State, id: nat)
    requires Confirming(s, id) && Run(s, actions, t)
    requires forall i :: 0 <= i < |actions| ==> Uninterrupted(actions[i])
    ensures Confirming(t, id) && s.last <= t.last
    decreases |actions|
  {
    hide Confirming, Step, Enabled;
    if actions != [] {
      StepConfirming(s, actions[0], id);
      RunConfirming(Step(s, actions[0]), actions[1..], t, id);
    }
  }

  /** A round without a failed query confirms the id it resumes, or every flush requested before it. */
  lemma RoundConfirms(s: State, actions: seq<Action>, t: State)
    requires Round(s, actions, t)
    ensures t.stored == Promised(s) && s.last <= t.last
  {
    hide Step, Enabled;
    WakeConfirming(s);
    RunConfirming(Step(s, Wake), actions[1..], t, Promised(s));
  }

  /** Nothing is left to resume when the sender waits. */
  ghost predicate Drained(s: State) {
    s.Indexed() && (s.phase == Waiting ==> s.Storing().queries == [])
  }

  lemma WakeDrains(s: State)
    requires Inv(s) && Enabled(s, Wake)
    ensures Drained(Step(s, Wake))
  {
    hide Covers, SentIsStored, QueriesOk, MarksOk, Kept, RootsOk, StoredWhenDone;
  }

  lemma StepDrains(s: State, a: Action)
    requires Inv(s) && Enabled(s, a) && Uninterrupted(a) && Drained(s)
    ensures Drained(Step(s, a))
  {
    hide Covers, SentIsStored, QueriesOk, MarksOk, Kept, RootsOk, StoredWhenDone, Apply, Accept;
  }

  lemma {:induction false} RunDrains(s: State, actions: seq<Action>, t: State)
    requires Inv(s) && Drained(s) && Run(s, actions, t)
    requires forall i :: 0 <= i < |actions| ==> Uninterrupted(actions[i])
    ensures Inv(t) && Drained(t)
    decreases |actions|
  {
    hide Inv, Drained, Step, Enabled;
    if actions != [] {
      InvIsIndexed(s);
      StepKeepsInv(s, actions[0]);
      StepDrains(s, actions[0]);
      RunDrains(Step(s, actions[0]), actions[1..], t);
    }
  }

  /** Such a round leaves nothing to resume. */
  lemma RoundDrains(s: State, actions: seq<Action>, t: State)
    requires Inv(s) && Round(s, actions, t)
    ensures Inv(t) && t.Storing().queries == []
  {
    hide Inv, Step, Enabled;
    StepKeepsInv(s, Wake);
    WakeDrains(s);
    RunDrains(Step(s, Wake), actions[1..], t);
  }

  /** So two such rounds confirm every flush requested before the second, however the first one began. */
  lemma TwoRoundsConfirm(s: State, first: seq<Action>, t: State, second: seq<Action>, u: State)
    requires Inv(s) && Round(s, first, t) && Round(t, second, u)
    ensures u.stored == t.last && s.last <= t.last
  {
    hide Inv, Run;
    RoundConfirms(s, first, t);
    RoundDrains(s, first, t);
    RoundConfirms(t, second, u);
  }

  // ---------------------------------------------------------------- a round can always be completed

  lemma Extend(s: State, a: Action, rest: seq<Action>, t: State)
    requires s.Indexed() && Enabled(s, a) && Run(Step(s, a), rest, t)
    ensures Run(s, [a] + rest, t)
  {
    hide Step, Enabled;
    assert ([a] + rest)[1..] == rest;
  }

  /** All rows of a buffer in one transaction */
  function Whole(b: Buffer): Query {
    Query(b.nodes.accepted, b.program.accepted, b.root, 0, false, false)
  }

  lemma WholeCovers(b: Buffer)
    ensures Covers([Whole(b)], b) && Unsent([Whole(b)])
  {
    var q := Whole(b);
    assert q in [q];
  }

  lemma FromConfirmed(s: State) returns (actions: seq<Action>, t: State)
    requires s.Indexed() && s.phase == Confirmed
    ensures Run(s, actions, t) && t.Indexed() && t.phase == Waiting
    ensures forall a :: a in actions ==> Uninterrupted(a)
  {
    t := AfterAdvance(s);
    assert Run(t, [], t);
    actions := [Advance] + [];
    Extend(s, Advance, [], t);
  }

  lemma FromSent(s: State) returns (actions: seq<Action>, t: State)
    requires s.Indexed() && s.phase == Sent
    ensures Run(s, actions, t) && t.Indexed() && t.phase == Waiting
    ensures forall a :: a in actions ==> Uninterrupted(a)
  {
    actions, t := FromConfirmed(AfterConfirm(s));
    Extend(s, Confirm, actions, t);
    actions := [Confirm] + actions;
  }

  lemma {:induction false} FromSending(s: State, i: nat) returns (actions: seq<Action>, t: State)
    requires s.Indexed() && s.phase == Sending && i <= |s.Storing().queries|
    requires forall j :: 0 <= j < i ==> s.Storing().queries[j].sent
    ensures Run(s, actions, t) && t.Indexed() && t.phase == Waiting
    ensures forall a :: a in actions ==> Uninterrupted(a)
    decreases |s.Storing().queries| - i
  {
    hide Apply, Run;
    if i == |s.Storing().queries| {
      actions, t := FromSent(AfterFinish(s));
      Extend(s, Finish, actions, t);
      actions := [Finish] + actions;
    } else if s.Storing().queries[i].sent {
      actions, t := FromSending(s, i + 1);
    } else {
      actions, t := FromSending(AfterExecute(s, i), i + 1);
      Extend(s, Execute(i), actions, t);
      actions := [Execute(i)] + actions;
    }
  }

  lemma FromEntering(s: State) returns (actions: seq<Action>, t: State)
    requires s.Indexed() && s.phase == Entering
    ensures Run(s, actions, t) && t.Indexed() && t.phase == Waiting
    ensures forall a :: a in actions ==> Uninterrupted(a)
  {
    var queries := [Whole(s.Storing())];
    WholeCovers(s.Storing());
    hide Covers, Unsent, Run;
    var u := AfterEnter(s, queries);
    if u.phase == Confirmed {
      actions, t := FromConfirmed(u);
    } else if u.phase == Sent {
      actions, t := FromSent(u);
    } else {
      actions, t := FromSending(u, 0);
    }
    Extend(s, Enter(queries), actions, t);
    actions := [Enter(queries)] + actions;
  }

  /** From every reachable state in which the sender waits, it can complete a round; two of them confirm
      every flush. */
  lemma RoundExists(s: State) returns (actions: seq<Action>, t: State)
    requires Inv(s) && s.phase == Waiting
    ensures Round(s, actions, t) && Inv(t)
  {
    hide Inv, AfterSwitch, AfterWake, Run, Enabled, Step;
    InvIsIndexed(s);
    CanWake(s);
    StepKeepsInv(s, Wake);
    var u := AfterWake(s);
    if u.phase == Waiting {
      actions, t := [], u;
      assert Run(u, [], u) by { NothingRun(u); }
    } else {
      actions, t := FromEntering(u);
    }
    Extend(s, Wake, actions, t);
    actions := [Wake] + actions;
    RunKeepsInv(s, actions, t);
  }

  lemma CanWake(s: State)
    requires s.Indexed() && s.phase == Waiting
    ensures Enabled(s, Wake) && Step(s, Wake) == AfterWake(s) && AfterWake(s).Indexed()
    ensures AfterWake(s).phase in {Waiting, Entering}
  {
  }

  lemma NothingRun(s: State)
    ensures Run(s, [], s)
  {
  }

  lemma EveryFlushCanBeConfirmed(s: State) returns (first: seq<Action>, t: State, second: seq<Action>, u: State)
    requires Inv(s) && s.phase == Waiting
    ensures Round(s, first, t) && Round(t, second, u) && u.stored >= s.last
  {
    hide Inv, Run;
    first, t := RoundExists(s);
    second, u := RoundExists(t);
    TwoRoundsConfirm(s, first, t, second, u);
  }

  // ---------------------------------------------------------------- semi-flushes

  /** A semi-flush empties the in-tray and loses no row; a row accepted before keeps its value. */
  lemma SemiFlushAccepts(s: State, key: string)
    requires s.Indexed()
    ensures var t := Step(s, SemiFlush); var b, c := s.Pending(), t.Pending();
      && t.Indexed() && c.nodes.intray == map[] && c.program.intray == map[]
      && c.nodes.accepted.Keys == Held(b.nodes) && c.program.accepted.Keys == Held(b.program)
      && (key in b.nodes.accepted ==> c.nodes.accepted[key] == b.nodes.accepted[key])
      && (key in b.nodes.intray && key !in b.nodes.accepted ==> c.nodes.accepted[key] == b.nodes.intray[key])
      && (key in b.program.accepted ==> c.program.accepted[key] == b.program.accepted[key])
      && (key in b.program.intray && key !in b.program.accepted ==> c.program.accepted[key] == b.program.intray[key])
  {
  }

  /** It changes no lookup, unless a malformed row of the key was accepted before. */
  lemma SemiFlushKeepsLookups(s: State, key: string)
    requires s.Indexed() && s.storingIx != s.pendingIx
    ensures var t, b := Step(s, SemiFlush), s.Pending();
      && t.Indexed()
      && ((key in b.nodes.accepted ==> |b.nodes.accepted[key]| % 16 == 0) ==> FindNode(t, key) == FindNode(s, key))
      && ((key in b.program.accepted ==> |b.program.accepted[key]| % 2 == 0) ==>
        FindProgram(t, key) == FindProgram(s, key))
  {
    SemiFlushAccepts(s, key);
  }
}
