/** The bounded gate scheduler. */
module GateScheduler {
  import opened Wrappers
  import opened Gates
  import opened CycleDetection

  // A run is the sequence of calls the scheduler makes: a gate starts, a gate settles, a
  // gate is skipped. Which running gate settles next is the outside world's choice.

  datatype Status = Passed | Failed | Skipped
  datatype GateState = Pending | Running | Settled(status: Status)
  type States = map<string, GateState>

  /** `failedDeps` is the diagnostic of a skipped gate and empty for an executed one. */
  datatype GateResult = GateResult(gate: Gate, status: Status, failedDeps: seq<string>)

  /** What the outside process of each gate reports, however long it takes. */
  type Executor = Gate -> Status

  datatype Event = Start(gate: Gate) | Settle(gate: Gate) | Skip(gate: Gate)

  datatype State = State(states: States, running: seq<Gate>, results: map<string, GateResult>)

  // ----- readiness

  predicate GatePassed(states: States, id: string) {
    id in states && states[id] == Settled(Passed)
  }

  predicate GateSettled(states: States, id: string) {
    id in states && states[id].Settled?
  }

  predicate GateFailed(states: States, id: string) {
    id in states && states[id].Settled? && states[id].status != Passed
  }

  predicate IsPending(states: States, id: string) {
    id in states && states[id] == Pending
  }

  predicate PredecessorsReady(gate: Gate, states: States) {
    && (forall id | id in gate.needs :: GatePassed(states, id))
    && (forall id | id in gate.after :: GateSettled(states, id))
  }

  predicate Ready(gate: Gate, states: States) {
    IsPending(states, gate.id) && PredecessorsReady(gate, states)
  }

  predicate Blocked(gate: Gate, states: States) {
    exists id | id in gate.needs :: GateFailed(states, id)
  }

  function FirstReady(gates: seq<Gate>, states: States): (ready: Option<Gate>)
    ensures ready.None? ==> forall g :: g in gates ==> !Ready(g, states)
    ensures ready.Some? ==> ready.value in gates && Ready(ready.value, states)
  {
    if gates == [] then None
    else if Ready(gates[0], states) then Some(gates[0])
    else FirstReady(gates[1..], states)
  }

  function PendingGates(gates: seq<Gate>, states: States): (pending: seq<Gate>)
    ensures forall g :: g in pending <==> g in gates && IsPending(states, g.id)
  {
    if gates == [] then []
    else (if IsPending(states, gates[0].id) then [gates[0]] else []) + PendingGates(gates[1..], states)
  }

  function FirstBlocked(pending: seq<Gate>, states: States): (blocked: Option<Gate>)
    ensures blocked.None? ==> forall g :: g in pending ==> !Blocked(g, states)
    ensures blocked.Some? ==> blocked.value in pending && Blocked(blocked.value, states)
  {
    if pending == [] then None
    else if Blocked(pending[0], states) then Some(pending[0])
    else FirstBlocked(pending[1..], states)
  }

  function FailedNeeds(needs: seq<string>, states: States): (failed: seq<string>)
    ensures forall id :: id in failed <==> id in needs && GateFailed(states, id)
  {
    if needs == [] then []
    else (if GateFailed(states, needs[0]) then [needs[0]] else []) + FailedNeeds(needs[1..], states)
  }

  // ----- the step system

  function Initial(gates: seq<Gate>): State {
    State(map id | id in Ids(gates) :: Pending, [], map[])
  }

  function Without(running: seq<Gate>, gate: Gate): (rest: seq<Gate>)
    ensures gate !in running ==> rest == running
    ensures gate in running ==> |rest| == |running| - 1
  {
    if running == [] then []
    else if running[0] == gate then running[1..]
    else [running[0]] + Without(running[1..], gate)
  }

  predicate Enabled(gates: seq<Gate>, maxActive: int, s: State, e: Event) {
    match e
    case Start(g) => |s.running| < maxActive && FirstReady(gates, s.states) == Some(g)
    case Settle(g) => g in s.running && (|s.running| >= maxActive || FirstReady(gates, s.states).None?)
    case Skip(g) =>
      && s.running == []
      && FirstReady(gates, s.states).None?
      && FirstBlocked(PendingGates(gates, s.states), s.states) == Some(g)
  }

  function Apply(execute: Executor, s: State, e: Event): State {
    match e
    case Start(g) => State(s.states[g.id := Running], s.running + [g], s.results)
    case Settle(g) =>
      State(s.states[g.id := Settled(execute(g))], Without(s.running, g),
            s.results[g.id := GateResult(g, execute(g), [])])
    case Skip(g) =>
      State(s.states[g.id := Settled(Skipped)], s.running,
            s.results[g.id := GateResult(g, Skipped, FailedNeeds(g.needs, s.states))])
  }

  function StateAfter(gates: seq<Gate>, execute: Executor, trace: seq<Event>): State {
    if trace == [] then Initial(gates)
    else Apply(execute, StateAfter(gates, execute, trace[..|trace| - 1]), trace[|trace| - 1])
  }

  /** The runs the scheduler can make with `maxActive` workers. */
  ghost predicate Legal(gates: seq<Gate>, maxActive: int, execute: Executor, trace: seq<Event>) {
    trace == [] ||
    var earlier := trace[..|trace| - 1];
    Legal(gates, maxActive, execute, earlier)
    && Enabled(gates, maxActive, StateAfter(gates, execute, earlier), trace[|trace| - 1])
  }

  ghost predicate AllSettled(gates: seq<Gate>, s: State) {
    forall g :: g in gates ==> GateSettled(s.states, g.id)
  }

  ghost predicate CompleteRun(gates: seq<Gate>, maxActive: int, execute: Executor, trace: seq<Event>) {
    Legal(gates, maxActive, execute, trace) && AllSettled(gates, StateAfter(gates, execute, trace))
  }

  lemma LegalPrefix(gates: seq<Gate>, maxActive: int, execute: Executor, trace: seq<Event>, n: nat)
    requires Legal(gates, maxActive, execute, trace) && n <= |trace|
    ensures Legal(gates, maxActive, execute, trace[..n])
  {
    if n == |trace| {
      assert trace[..n] == trace;
    } else {
      LegalPrefix(gates, maxActive, execute, trace[..|trace| - 1], n);
      assert trace[..|trace| - 1][..n] == trace[..n];
    }
  }

  /** Extending a prefix by one event of the run applies that event. */
  lemma StepOfTrace(gates: seq<Gate>, maxActive: int, execute: Executor, trace: seq<Event>, n: nat)
    requires Legal(gates, maxActive, execute, trace) && n < |trace|
    ensures Legal(gates, maxActive, execute, trace[..n]) && Legal(gates, maxActive, execute, trace[..n + 1])
    ensures Enabled(gates, maxActive, StateAfter(gates, execute, trace[..n]), trace[n])
    ensures StateAfter(gates, execute, trace[..n + 1])
        == Apply(execute, StateAfter(gates, execute, trace[..n]), trace[n])
  {
    hide Enabled, Apply;
    LegalPrefix(gates, maxActive, execute, trace, n);
    LegalPrefix(gates, maxActive, execute, trace, n + 1);
    assert trace[..n + 1][..n] == trace[..n];
    assert trace[..n + 1][n] == trace[n];
  }

  lemma ExtendRun(gates: seq<Gate>, maxActive: int, execute: Executor, trace: seq<Event>, e: Event)
    requires Legal(gates, maxActive, execute, trace)
    requires Enabled(gates, maxActive, StateAfter(gates, execute, trace), e)
    ensures Legal(gates, maxActive, execute, trace + [e])
    ensures StateAfter(gates, execute, trace + [e]) == Apply(execute, StateAfter(gates, execute, trace), e)
  {
    hide Enabled, Apply;
    assert (trace + [e])[..|trace|] == trace && (trace + [e])[|trace|] == e;
  }

  // ----- what every state of every run keeps

  /** A settled gate either executed after its predecessors allowed it, or was
      skipped because of the needs its diagnostic names. */
  ghost predicate Justified(execute: Executor, g: Gate, states: States, r: GateResult) {
    && GateSettled(states, g.id) && states[g.id].status == r.status
    && r.gate == g
    && (if r.failedDeps == [] then r.status == execute(g) && PredecessorsReady(g, states)
        else r.status == Skipped && forall d :: d in r.failedDeps ==> d in g.needs && GateFailed(states, d))
  }

  /** States, running gates and results agree. */
  ghost predicate Tracks(gates: seq<Gate>, maxActive: int, s: State) {
    && s.states.Keys == Ids(gates)
    && |s.running| <= maxActive
    && Distinct(s.running)
    && (forall g :: g in s.running <==> g in gates && s.states[g.id] == Running)
    && (forall g :: g in s.running ==> PredecessorsReady(g, s.states))
    && (forall id :: id in s.results <==> GateSettled(s.states, id))
  }

  ghost predicate AllJustified(gates: seq<Gate>, execute: Executor, s: State) {
    forall g :: g in gates && g.id in s.results ==> Justified(execute, g, s.states, s.results[g.id])
  }

  ghost predicate Inv(gates: seq<Gate>, maxActive: int, execute: Executor, s: State) {
    Tracks(gates, maxActive, s) && AllJustified(gates, execute, s)
  }

  lemma {:induction false} WithoutMembers(running: seq<Gate>, gate: Gate)
    requires Distinct(running)
    ensures Distinct(Without(running, gate))
    ensures forall g :: g in Without(running, gate) <==> g in running && g != gate
  {
    if running != [] {
      var rest := running[1..];
      assert running == [running[0]] + rest;
      assert running[0] !in rest;
      WithoutMembers(rest, gate);
    }
  }

  lemma SameGate(gates: seq<Gate>, g: Gate, h: Gate)
    requires DistinctIds(gates) && g in gates && h in gates && g.id == h.id
    ensures g == h
  {
    ByIdOfDistinct(gates, g);
    ByIdOfDistinct(gates, h);
  }

  /** Settling or starting a gate that has not settled disturbs no earlier verdict. */
  lemma VerdictsAreStable(states: States, id: string, next: GateState, g: Gate)
    requires !GateSettled(states, id)
    ensures PredecessorsReady(g, states) ==> PredecessorsReady(g, states[id := next])
    ensures forall d :: GateFailed(states, d) ==> GateFailed(states[id := next], d)
  {
  }

  /** Moving one unsettled gate on keeps what is recorded about the others. */
  lemma OthersStayJustified(gates: seq<Gate>, maxActive: int, execute: Executor, s: State, gate: Gate, next: GateState)
    requires DistinctIds(gates) && Inv(gates, maxActive, execute, s)
    requires gate in gates && !GateSettled(s.states, gate.id)
    ensures forall g :: g in gates && g.id in s.results ==>
        g.id != gate.id && Justified(execute, g, s.states[gate.id := next], s.results[g.id])
    ensures forall g :: g in s.running ==> PredecessorsReady(g, s.states[gate.id := next])
    ensures forall g :: g in gates && g.id == gate.id ==> g == gate
  {
    forall g | g in gates
      ensures g.id in s.results ==> g.id != gate.id && Justified(execute, g, s.states[gate.id := next], s.results[g.id])
      ensures g in s.running ==> PredecessorsReady(g, s.states[gate.id := next])
      ensures g.id == gate.id ==> g == gate
    {
      VerdictsAreStable(s.states, gate.id, next, g);
      if g.id == gate.id { SameGate(gates, g, gate); }
    }
  }

  lemma StartKeepsInv(gates: seq<Gate>, maxActive: int, execute: Executor, s: State, gate: Gate)
    requires DistinctIds(gates) && Inv(gates, maxActive, execute, s) && Enabled(gates, maxActive, s, Start(gate))
    ensures Inv(gates, maxActive, execute, Apply(execute, s, Start(gate)))
  {
    OthersStayJustified(gates, maxActive, execute, s, gate, Running);
    VerdictsAreStable(s.states, gate.id, Running, gate);
    assert gate !in s.running;
  }

  lemma SettleKeepsTrack(gates: seq<Gate>, maxActive: int, execute: Executor, s: State, gate: Gate)
    requires DistinctIds(gates) && Tracks(gates, maxActive, s) && gate in s.running
    requires forall g :: g in s.running ==> PredecessorsReady(g, s.states[gate.id := Settled(execute(gate))])
    ensures Tracks(gates, maxActive, Apply(execute, s, Settle(gate)))
  {
    WithoutMembers(s.running, gate);
    hide Without, PredecessorsReady;
    var s' := Apply(execute, s, Settle(gate));
    forall g ensures g in s'.running <==> g in gates && s'.states[g.id] == Running {
      if g in gates && g.id == gate.id { SameGate(gates, g, gate); }
    }
    assert forall id :: id in s'.results <==> GateSettled(s'.states, id);
  }

  lemma SettleKeepsJustified(gates: seq<Gate>, maxActive: int, execute: Executor, s: State, gate: Gate)
    requires DistinctIds(gates) && Inv(gates, maxActive, execute, s) && gate in s.running
    ensures AllJustified(gates, execute, Apply(execute, s, Settle(gate)))
  {
    OthersStayJustified(gates, maxActive, execute, s, gate, Settled(execute(gate)));
    VerdictsAreStable(s.states, gate.id, Settled(execute(gate)), gate);
    hide Inv;
    var s' := Apply(execute, s, Settle(gate));
    forall g | g in gates && g.id in s'.results ensures Justified(execute, g, s'.states, s'.results[g.id]) {
      if g.id != gate.id { assert g.id in s.results; }
    }
  }

  lemma SettleKeepsInv(gates: seq<Gate>, maxActive: int, execute: Executor, s: State, gate: Gate)
    requires DistinctIds(gates) && Inv(gates, maxActive, execute, s) && Enabled(gates, maxActive, s, Settle(gate))
    ensures Inv(gates, maxActive, execute, Apply(execute, s, Settle(gate)))
  {
    OthersStayJustified(gates, maxActive, execute, s, gate, Settled(execute(gate)));
    SettleKeepsTrack(gates, maxActive, execute, s, gate);
    SettleKeepsJustified(gates, maxActive, execute, s, gate);
  }

  /** The diagnostic names exactly the needs that have failed or been skipped by then. */
  lemma SkipIsJustified(execute: Executor, states: States, gate: Gate)
    requires IsPending(states, gate.id) && Blocked(gate, states)
    ensures var skipped := GateResult(gate, Skipped, FailedNeeds(gate.needs, states));
            && Justified(execute, gate, states[gate.id := Settled(Skipped)], skipped)
            && (forall d :: d in skipped.failedDeps <==> d in gate.needs && GateFailed(states, d))
  {
    VerdictsAreStable(states, gate.id, Settled(Skipped), gate);
    var d :| d in gate.needs && GateFailed(states, d);
    assert d in FailedNeeds(gate.needs, states);
  }

  lemma SkipEnabled(gates: seq<Gate>, maxActive: int, s: State, gate: Gate)
    requires Enabled(gates, maxActive, s, Skip(gate))
    ensures gate in gates && IsPending(s.states, gate.id) && Blocked(gate, s.states) && s.running == []
  {
  }

  lemma SkipKeepsJustified(gates: seq<Gate>, maxActive: int, execute: Executor, s: State, gate: Gate)
    requires DistinctIds(gates) && Inv(gates, maxActive, execute, s)
    requires gate in gates && IsPending(s.states, gate.id) && Blocked(gate, s.states)
    ensures AllJustified(gates, execute, Apply(execute, s, Skip(gate)))
  {
    OthersStayJustified(gates, maxActive, execute, s, gate, Settled(Skipped));
    SkipIsJustified(execute, s.states, gate);
    hide Inv, Justified, Blocked, FailedNeeds;
    var s' := Apply(execute, s, Skip(gate));
    forall g | g in gates && g.id in s'.results ensures Justified(execute, g, s'.states, s'.results[g.id]) {
      if g.id != gate.id { assert g.id in s.results; }
    }
  }

  lemma SkipKeepsTrack(gates: seq<Gate>, maxActive: int, execute: Executor, s: State, gate: Gate)
    requires Tracks(gates, maxActive, s) && gate in gates && IsPending(s.states, gate.id) && s.running == []
    ensures Tracks(gates, maxActive, Apply(execute, s, Skip(gate)))
  {
    var s' := Apply(execute, s, Skip(gate));
    assert forall id :: id in s'.results <==> GateSettled(s'.states, id);
  }

  lemma SkipKeepsInv(gates: seq<Gate>, maxActive: int, execute: Executor, s: State, gate: Gate)
    requires DistinctIds(gates) && Inv(gates, maxActive, execute, s) && Enabled(gates, maxActive, s, Skip(gate))
    ensures Inv(gates, maxActive, execute, Apply(execute, s, Skip(gate)))
  {
    SkipEnabled(gates, maxActive, s, gate);
    SkipKeepsTrack(gates, maxActive, execute, s, gate);
    SkipKeepsJustified(gates, maxActive, execute, s, gate);
  }

  lemma StepKeepsInv(gates: seq<Gate>, maxActive: int, execute: Executor, s: State, e: Event)
    requires DistinctIds(gates) && Inv(gates, maxActive, execute, s) && Enabled(gates, maxActive, s, e)
    ensures Inv(gates, maxActive, execute, Apply(execute, s, e))
    ensures e.gate in gates && !GateSettled(s.states, e.gate.id)
  {
    match e
    case Start(gate) => StartKeepsInv(gates, maxActive, execute, s, gate);
    case Settle(gate) => SettleKeepsInv(gates, maxActive, execute, s, gate);
    case Skip(gate) => SkipKeepsInv(gates, maxActive, execute, s, gate);
  }

  lemma RunKeepsInv(gates: seq<Gate>, maxActive: int, execute: Executor, trace: seq<Event>)
    requires DistinctIds(gates) && maxActive >= 1 && Legal(gates, maxActive, execute, trace)
    ensures Inv(gates, maxActive, execute, StateAfter(gates, execute, trace))
  {
    if trace != [] {
      RunKeepsInv(gates, maxActive, execute, trace[..|trace| - 1]);
      StepKeepsInv(gates, maxActive, execute, StateAfter(gates, execute, trace[..|trace| - 1]), trace[|trace| - 1]);
    }
  }

  // ----- progress: no stall

  /** In a dependency order the earliest unsettled gate has only settled predecessors. */
  lemma EarliestUnsettled(gates: seq<Gate>, states: States, order: seq<string>, id: string) returns (g: Gate)
    requires DistinctIds(gates) && KnownPredecessors(gates) && CompleteOrder(ById(gates), order)
    requires id in Ids(gates) && !GateSettled(states, id)
    ensures g in gates && !GateSettled(states, g.id)
    ensures forall p :: p in Predecessors(g) ==> GateSettled(states, p)
  {
    ByIdMembers(gates);
    var i :| 0 <= i < |order| && order[i] == id;
    var k := 0;
    while k < i && GateSettled(states, order[k])
      invariant 0 <= k <= i
      invariant forall j :: 0 <= j < k ==> GateSettled(states, order[j])
    {
      k := k + 1;
    }
    g := ById(gates)[order[k]];
    forall p | p in Predecessors(g) ensures GateSettled(states, p) {
      assert p in ById(gates);
      assert p in order[..k];
      var j :| 0 <= j < k && order[j] == p;
      assert GateSettled(states, order[j]);
    }
  }

  /** A quiescent unfinished state of a validated graph has a blocked gate: the
      scheduler's stall error is unreachable. */
  lemma NeverStalls(gates: seq<Gate>, maxActive: int, execute: Executor, s: State, order: seq<string>)
    requires DistinctIds(gates) && KnownPredecessors(gates) && CompleteOrder(ById(gates), order)
    requires Inv(gates, maxActive, execute, s)
    requires s.running == [] && FirstReady(gates, s.states).None? && PendingGates(gates, s.states) != []
    ensures FirstBlocked(PendingGates(gates, s.states), s.states).Some?
  {
    var pending := PendingGates(gates, s.states)[0];
    assert pending in PendingGates(gates, s.states);
    var g := EarliestUnsettled(gates, s.states, order, pending.id);
    assert g.id in s.states && s.states[g.id] != Running by { assert g !in s.running; }
    assert g in PendingGates(gates, s.states);
    assert !Ready(g, s.states);
    assert forall id :: id in g.needs ==> id in Predecessors(g);
    assert forall id :: id in g.after ==> id in Predecessors(g);
    assert Blocked(g, s.states);
  }

  /** An unfinished state that can start nothing and runs nothing is one `NeverStalls` covers. */
  lemma UnfinishedHasPending(gates: seq<Gate>, maxActive: int, execute: Executor, s: State)
    requires Inv(gates, maxActive, execute, s) && s.running == []
    ensures PendingGates(gates, s.states) == [] <==> AllSettled(gates, s)
  {
    forall g | g in gates ensures GateSettled(s.states, g.id) || g in PendingGates(gates, s.states) {
      assert g !in s.running;
    }
    if PendingGates(gates, s.states) != [] {
      assert PendingGates(gates, s.states)[0] in PendingGates(gates, s.states);
    }
  }

  /** Nothing runs and nothing can start: either every gate has its result, or some
      pending gate is blocked. */
  lemma Quiescence(gates: seq<Gate>, maxActive: int, execute: Executor, trace: seq<Event>)
    requires ValidGraph(gates) && maxActive >= 1 && Legal(gates, maxActive, execute, trace)
    requires StateAfter(gates, execute, trace).running == []
    requires FirstReady(gates, StateAfter(gates, execute, trace).states).None?
    ensures var s := StateAfter(gates, execute, trace);
            var pending := PendingGates(gates, s.states);
            if pending == [] then AllSettled(gates, s) && forall g :: g in gates ==> g.id in s.results
            else FirstBlocked(pending, s.states).Some?
  {
    var s := StateAfter(gates, execute, trace);
    RunKeepsInv(gates, maxActive, execute, trace);
    UnfinishedHasPending(gates, maxActive, execute, s);
    if PendingGates(gates, s.states) != [] {
      AcyclicIffOrdered(ById(gates));
      var order :| CompleteOrder(ById(gates), order);
      NeverStalls(gates, maxActive, execute, s, order);
    }
  }

  function NextEvent(gates: seq<Gate>, maxActive: int, s: State): (e: Option<Event>)
    ensures e.Some? ==> Enabled(gates, maxActive, s, e.value)
  {
    var ready := FirstReady(gates, s.states);
    if |s.running| < maxActive && ready.Some? then Some(Start(ready.value))
    else if s.running != [] then Some(Settle(s.running[0]))
    else if ready.Some? then None
    else var blocked := FirstBlocked(PendingGates(gates, s.states), s.states);
    if blocked.Some? then Some(Skip(blocked.value)) else None
  }

  /** Every unfinished state of every run can move on. */
  lemma Progress(gates: seq<Gate>, maxActive: int, execute: Executor, trace: seq<Event>)
    requires ValidGraph(gates) && maxActive >= 1 && Legal(gates, maxActive, execute, trace)
    requires !AllSettled(gates, StateAfter(gates, execute, trace))
    ensures exists e :: Enabled(gates, maxActive, StateAfter(gates, execute, trace), e)
  {
    var s := StateAfter(gates, execute, trace);
    RunKeepsInv(gates, maxActive, execute, trace);
    if s.running == [] && FirstReady(gates, s.states).None? {
      Quiescence(gates, maxActive, execute, trace);
      UnfinishedHasPending(gates, maxActive, execute, s);
    }
    var e := NextEvent(gates, maxActive, s).value;
    assert Enabled(gates, maxActive, s, e);
  }

  // ----- termination

  /** Calls still owed: two for a pending gate, one for a running gate. */
  function Owed(gates: seq<Gate>, states: States): nat {
    if gates == [] then 0 else
    (if GateSettled(states, gates[0].id) then 0 else if IsPending(states, gates[0].id) then 2 else 1)
    + Owed(gates[1..], states)
  }

  lemma {:induction false} OwedOfOthers(gates: seq<Gate>, states: States, id: string, next: GateState)
    requires forall g :: g in gates ==> g.id != id
    ensures Owed(gates, states[id := next]) == Owed(gates, states)
  {
    if gates != [] {
      assert gates[0] in gates;
      OwedOfOthers(gates[1..], states, id, next);
    }
  }

  lemma {:induction false} OwedDrops(gates: seq<Gate>, states: States, g: Gate, next: GateState)
    requires DistinctIds(gates) && g in gates && g.id in states && !GateSettled(states, g.id)
    requires next.Settled? || (next == Running && states[g.id] == Pending)
    ensures Owed(gates, states[g.id := next]) < Owed(gates, states)
  {
    if gates[0] == g {
      OwedOfOthers(gates[1..], states, g.id, next);
    } else {
      var i :| 0 < i < |gates| && gates[i] == g;
      assert gates[0].id != g.id;
      assert DistinctIds(gates[1..]);
      OwedDrops(gates[1..], states, g, next);
    }
  }

  lemma OwedInitially(gates: seq<Gate>, states: States)
    requires forall g :: g in gates ==> IsPending(states, g.id)
    ensures Owed(gates, states) == 2 * |gates|
  {
  }

  /** Every run is short: at most two calls a gate. */
  lemma RunsAreBounded(gates: seq<Gate>, maxActive: int, execute: Executor, trace: seq<Event>)
    requires DistinctIds(gates) && maxActive >= 1 && Legal(gates, maxActive, execute, trace)
    ensures |trace| + Owed(gates, StateAfter(gates, execute, trace).states) <= 2 * |gates|
  {
    if trace == [] {
      OwedInitially(gates, Initial(gates).states);
    } else {
      var earlier := trace[..|trace| - 1];
      var s, e := StateAfter(gates, execute, earlier), trace[|trace| - 1];
      RunsAreBounded(gates, maxActive, execute, earlier);
      RunKeepsInv(gates, maxActive, execute, earlier);
      StepKeepsInv(gates, maxActive, execute, s, e);
      OwedDrops(gates, s.states, e.gate, Apply(execute, s, e).states[e.gate.id]);
    }
  }

  // ----- safety, as an observer of the calls sees it

  lemma SettledNamesItsCall(gates: seq<Gate>, maxActive: int, execute: Executor, trace: seq<Event>, id: string)
    requires Legal(gates, maxActive, execute, trace)
    requires GateSettled(StateAfter(gates, execute, trace).states, id)
    ensures exists k :: 0 <= k < |trace| && trace[k].gate.id == id && !trace[k].Start?
                     && (GatePassed(StateAfter(gates, execute, trace).states, id) ==>
                        trace[k].Settle? && execute(trace[k].gate) == Passed)
  {
    assert trace != [];
    var last := |trace| - 1;
    var e := trace[last];
    var s := StateAfter(gates, execute, trace[..last]);
    if e.gate.id != id {
      SettledNamesItsCall(gates, maxActive, execute, trace[..last], id);
      var k :| 0 <= k < last && trace[..last][k].gate.id == id && !trace[..last][k].Start?
            && (GatePassed(s.states, id) ==> trace[..last][k].Settle? && execute(trace[..last][k].gate) == Passed);
      assert trace[k] == trace[..last][k];
    }
  }

  /** When a gate starts, fewer than `maxActive` gates run, every gate it needs has
      already settled as passed, and every gate it runs after has settled. */
  lemma StartsAreSafe(gates: seq<Gate>, maxActive: int, execute: Executor, trace: seq<Event>, n: nat)
    requires Legal(gates, maxActive, execute, trace)
    requires n < |trace| && trace[n].Start?
    ensures |StateAfter(gates, execute, trace[..n]).running| < maxActive
    ensures forall p :: p in trace[n].gate.needs ==>
              exists k :: 0 <= k < n && trace[k].Settle? && trace[k].gate.id == p && execute(trace[k].gate) == Passed
    ensures forall p :: p in trace[n].gate.after ==>
              exists k :: 0 <= k < n && trace[k].gate.id == p && !trace[k].Start?
  {
    StepOfTrace(gates, maxActive, execute, trace, n);
    var s := StateAfter(gates, execute, trace[..n]);
    forall p | GateSettled(s.states, p)
      ensures exists k :: 0 <= k < n && trace[k].gate.id == p && !trace[k].Start?
                       && (GatePassed(s.states, p) ==> trace[k].Settle? && execute(trace[k].gate) == Passed)
    {
      SettledNamesItsCall(gates, maxActive, execute, trace[..n], p);
      var k :| 0 <= k < n && trace[..n][k].gate.id == p && !trace[..n][k].Start?
            && (GatePassed(s.states, p) ==> trace[..n][k].Settle? && execute(trace[..n][k].gate) == Passed);
      assert trace[k] == trace[..n][k];
    }
  }

  lemma {:induction false} StartedIsNotPending(gates: seq<Gate>, execute: Executor, trace: seq<Event>, k: nat)
    requires k < |trace|
    ensures !IsPending(StateAfter(gates, execute, trace).states, trace[k].gate.id)
  {
    var last := |trace| - 1;
    if k < last {
      StartedIsNotPending(gates, execute, trace[..last], k);
    }
  }

  /** No gate is ever executed twice. */
  lemma StartsAtMostOnce(gates: seq<Gate>, maxActive: int, execute: Executor, trace: seq<Event>, j: nat, k: nat)
    requires Legal(gates, maxActive, execute, trace)
    requires j < k < |trace| && trace[j].Start? && trace[k].Start?
    ensures trace[j].gate.id != trace[k].gate.id
  {
    StepOfTrace(gates, maxActive, execute, trace, k);
    assert trace[..k][j] == trace[j];
    StartedIsNotPending(gates, execute, trace[..k], j);
  }

  // ----- which gate comes next

  /** Everything the gate waits for is there. */
  ghost predicate CanStart(gate: Gate, states: States) {
    && IsPending(states, gate.id)
    && (forall d :: d in gate.needs ==> d in states && states[d] == Settled(Passed))
    && (forall d :: d in gate.after ==> d in states && states[d].Settled?)
  }

  /** Some need of the gate has failed or been skipped. */
  ghost predicate MustSkip(gate: Gate, states: States) {
    && IsPending(states, gate.id)
    && exists d :: d in gate.needs && d in states && (states[d] == Settled(Failed) || states[d] == Settled(Skipped))
  }

  lemma MustSkipIsBlocked(gate: Gate, states: States)
    ensures MustSkip(gate, states) <==> IsPending(states, gate.id) && Blocked(gate, states)
  {
  }

  lemma CanStartIsReady(gate: Gate, states: States)
    ensures CanStart(gate, states) <==> Ready(gate, states)
  {
  }

  lemma {:induction false} FirstReadyIsFirst(gates: seq<Gate>, states: States) returns (p: nat)
    requires FirstReady(gates, states).Some?
    ensures p < |gates| && gates[p] == FirstReady(gates, states).value && CanStart(gates[p], states)
    ensures forall q :: 0 <= q < p ==> !CanStart(gates[q], states)
  {
    hide CanStart, Ready;
    CanStartIsReady(gates[0], states);
    if Ready(gates[0], states) { return 0; }
    var rest := FirstReadyIsFirst(gates[1..], states);
    p := rest + 1;
    forall q | 0 <= q < p ensures !CanStart(gates[q], states) {
      assert q > 0 ==> gates[q] == gates[1..][q - 1];
    }
  }

  lemma {:induction false} FirstBlockedIsFirst(gates: seq<Gate>, states: States) returns (p: nat)
    requires FirstBlocked(PendingGates(gates, states), states).Some?
    ensures p < |gates| && gates[p] == FirstBlocked(PendingGates(gates, states), states).value
    ensures MustSkip(gates[p], states) && forall q :: 0 <= q < p ==> !MustSkip(gates[q], states)
  {
    hide MustSkip, Blocked, IsPending;
    MustSkipIsBlocked(gates[0], states);
    var pending := PendingGates(gates[1..], states);
    if IsPending(states, gates[0].id) {
      assert PendingGates(gates, states) == [gates[0]] + pending;
      assert ([gates[0]] + pending)[1..] == pending;
    } else {
      assert PendingGates(gates, states) == [] + pending == pending;
    }
    if IsPending(states, gates[0].id) && Blocked(gates[0], states) { return 0; }
    var rest := FirstBlockedIsFirst(gates[1..], states);
    p := rest + 1;
    forall q | 0 <= q < p ensures !MustSkip(gates[q], states) {
      assert q > 0 ==> gates[q] == gates[1..][q - 1];
    }
  }

  /** Of the gates that can start, the first listed starts. */
  lemma StartsAreFirst(gates: seq<Gate>, maxActive: int, execute: Executor, trace: seq<Event>, n: nat)
    requires Legal(gates, maxActive, execute, trace) && n < |trace| && trace[n].Start?
    ensures var states := StateAfter(gates, execute, trace[..n]).states;
            exists p :: 0 <= p < |gates| && gates[p] == trace[n].gate && CanStart(gates[p], states)
                     && forall q :: 0 <= q < p ==> !CanStart(gates[q], states)
  {
    StepOfTrace(gates, maxActive, execute, trace, n);
    var p := FirstReadyIsFirst(gates, StateAfter(gates, execute, trace[..n]).states);
  }

  /** A gate is skipped only when nothing runs and nothing can start; and then it is the
      first listed of those with a failed or skipped need. */
  lemma SkipsAreFirst(gates: seq<Gate>, maxActive: int, execute: Executor, trace: seq<Event>, n: nat)
    requires Legal(gates, maxActive, execute, trace) && n < |trace| && trace[n].Skip?
    ensures var s := StateAfter(gates, execute, trace[..n]);
            && s.running == [] && (forall g :: g in gates ==> !CanStart(g, s.states))
            && exists p :: 0 <= p < |gates| && gates[p] == trace[n].gate && MustSkip(gates[p], s.states)
                        && forall q :: 0 <= q < p ==> !MustSkip(gates[q], s.states)
  {
    StepOfTrace(gates, maxActive, execute, trace, n);
    var states := StateAfter(gates, execute, trace[..n]).states;
    var p := FirstBlockedIsFirst(gates, states);
    assert forall g :: g in gates ==> !Ready(g, states);
  }

  /** The scheduler waits for a gate only when no more may run or nothing can start. */
  lemma WaitsAreForced(gates: seq<Gate>, maxActive: int, execute: Executor, trace: seq<Event>, n: nat)
    requires Legal(gates, maxActive, execute, trace) && n < |trace| && trace[n].Settle?
    ensures var s := StateAfter(gates, execute, trace[..n]);
            && trace[n].gate in s.running
            && (|s.running| >= maxActive || forall g :: g in gates ==> !CanStart(g, s.states))
  {
    StepOfTrace(gates, maxActive, execute, trace, n);
    var s := StateAfter(gates, execute, trace[..n]);
    if |s.running| < maxActive { assert forall g :: g in gates ==> !Ready(g, s.states); }
  }

  /** `failed` are the needs at these positions, which are those from `from` on that have
      failed or been skipped. */
  ghost predicate NamedAt(needs: seq<string>, from: nat, positions: seq<nat>, failed: seq<string>, states: States) {
    && |failed| == |positions|
    && (forall i :: 0 <= i < |positions| ==> from <= positions[i] < |needs| && failed[i] == needs[positions[i]])
    && (forall i, j :: 0 <= i < j < |positions| ==> positions[i] < positions[j])
    && (forall k :: from <= k < |needs| ==>
          (k in positions <==>
           needs[k] in states && (states[needs[k]] == Settled(Failed) || states[needs[k]] == Settled(Skipped))))
  }

  lemma {:induction false} FailedNeedsInOrder(needs: seq<string>, from: nat, states: States)
    returns (positions: seq<nat>)
    requires from <= |needs|
    ensures NamedAt(needs, from, positions, FailedNeeds(needs[from..], states), states)
    decreases |needs| - from
  {
    positions := [];
    if from < |needs| {
      positions := FailedNeedsInOrder(needs, from + 1, states);
      assert needs[from..][0] == needs[from] && needs[from..][1..] == needs[from + 1..];
      if GateFailed(states, needs[from]) {
        NamedEarlier(needs, from, positions, FailedNeeds(needs[from + 1..], states), states);
        positions := [from] + positions;
      }
    }
  }

  lemma NamedEarlier(needs: seq<string>, from: nat, positions: seq<nat>, failed: seq<string>, states: States)
    requires NamedAt(needs, from + 1, positions, failed, states) && from < |needs| && GateFailed(states, needs[from])
    ensures NamedAt(needs, from, [from] + positions, [needs[from]] + failed, states)
  {
    assert forall k :: k in [from] + positions <==> k == from || k in positions;
  }

  /** A gate that has its result keeps it. */
  lemma ResultStays(gates: seq<Gate>, maxActive: int, execute: Executor, trace: seq<Event>, n: nat, id: string)
    requires DistinctIds(gates) && maxActive >= 1 && Legal(gates, maxActive, execute, trace) && n <= |trace|
    requires id in StateAfter(gates, execute, trace[..n]).results
    ensures id in StateAfter(gates, execute, trace).results
    ensures StateAfter(gates, execute, trace).results[id] == StateAfter(gates, execute, trace[..n]).results[id]
  {
    if n == |trace| {
      assert trace[..n] == trace;
    } else {
      var earlier := trace[..|trace| - 1];
      assert earlier[..n] == trace[..n];
      ResultStays(gates, maxActive, execute, earlier, n, id);
      RunKeepsInv(gates, maxActive, execute, earlier);
      StepKeepsInv(gates, maxActive, execute, StateAfter(gates, execute, earlier), trace[|trace| - 1]);
    }
  }

  /** The result of a skipped gate names the needs that had failed or been skipped when it
      was skipped, in the order of the needs and as often as there; nothing later changes it. */
  lemma SkipNamesNeeds(gates: seq<Gate>, maxActive: int, execute: Executor, trace: seq<Event>, n: nat)
    requires DistinctIds(gates) && maxActive >= 1 && Legal(gates, maxActive, execute, trace)
    requires n < |trace| && trace[n].Skip?
    ensures var gate, results := trace[n].gate, StateAfter(gates, execute, trace).results;
            && gate.id in results && results[gate.id].gate == gate && results[gate.id].status == Skipped
            && exists positions :: NamedAt(gate.needs, 0, positions, results[gate.id].failedDeps,
                                     StateAfter(gates, execute, trace[..n]).states)
  {
    StepOfTrace(gates, maxActive, execute, trace, n);
    var gate := trace[n].gate;
    ResultStays(gates, maxActive, execute, trace, n + 1, gate.id);
    var positions := FailedNeedsInOrder(gate.needs, 0, StateAfter(gates, execute, trace[..n]).states);
    assert gate.needs[0..] == gate.needs;
  }

  /** The result of an executed gate is what its process reported. */
  lemma SettleNamesOutcome(gates: seq<Gate>, maxActive: int, execute: Executor, trace: seq<Event>, n: nat)
    requires DistinctIds(gates) && maxActive >= 1 && Legal(gates, maxActive, execute, trace)
    requires n < |trace| && trace[n].Settle?
    ensures var gate, results := trace[n].gate, StateAfter(gates, execute, trace).results;
            gate.id in results && results[gate.id] == GateResult(gate, execute(gate), [])
  {
    StepOfTrace(gates, maxActive, execute, trace, n);
    ResultStays(gates, maxActive, execute, trace, n + 1, trace[n].gate.id);
  }

  // ----- the scheduler loop

  datatype RunError = InvalidGraph(error: GraphError) | InvalidConcurrency(maxActive: int)
  datatype RunResult = Completed(results: seq<GateResult>) | Rejected(error: RunError)

  /** The scheduling loop: start while there is room, else skip, else wait for one gate. */
  method Schedule(gates: seq<Gate>, maxActive: int, execute: Executor)
    returns (results: map<string, GateResult>, trace: seq<Event>)
    requires ValidGraph(gates) && maxActive >= 1
    ensures CompleteRun(gates, maxActive, execute, trace)
    ensures results == StateAfter(gates, execute, trace).results
    ensures forall g :: g in gates ==> g.id in results
  {
    var states: States := map id | id in Ids(gates) :: Pending;
    results := map[];
    var running: seq<Gate> := [];
    trace := [];

    while true
      invariant Legal(gates, maxActive, execute, trace)
      invariant StateAfter(gates, execute, trace) == State(states, running, results)
      decreases 2 * |gates| - |trace|
    {
      ghost var before := |trace|;
      RunsAreBounded(gates, maxActive, execute, trace);
      var madeProgress := false;
      while |running| < maxActive
        invariant Legal(gates, maxActive, execute, trace)
        invariant StateAfter(gates, execute, trace) == State(states, running, results)
        invariant if madeProgress then |trace| > before && running != [] else |trace| == before
        decreases maxActive - |running|
      {
        var ready := FirstReady(gates, states);
        if ready.None? { break; }
        ExtendRun(gates, maxActive, execute, trace, Start(ready.value));
        trace := trace + [Start(ready.value)];
        states := states[ready.value.id := Running];
        running := running + [ready.value];
        madeProgress := true;
      }

      if |running| == 0 {
        Quiescence(gates, maxActive, execute, trace);
        var pending := PendingGates(gates, states);
        if |pending| == 0 { break; }
        var gate := FirstBlocked(pending, states).value;
        ExtendRun(gates, maxActive, execute, trace, Skip(gate));
        trace := trace + [Skip(gate)];
        results := results[gate.id := GateResult(gate, Skipped, FailedNeeds(gate.needs, states))];
        states := states[gate.id := Settled(Skipped)];
        continue;
      }

      if !madeProgress {
        var k :| 0 <= k < |running|;  // the first promise to settle
        var gate := running[k];
        ExtendRun(gates, maxActive, execute, trace, Settle(gate));
        trace := trace + [Settle(gate)];
        running := Without(running, gate);
        states := states[gate.id := Settled(execute(gate))];
        results := results[gate.id := GateResult(gate, execute(gate), [])];
      }
    }
  }

  /** Run one aggregate. The only rejections are those before the first start: the
      stall and missing-result errors of the source have no reachable counterpart. */
  method RunGates(gates: seq<Gate>, maxActive: int, execute: Executor)
    returns (result: RunResult, trace: seq<Event>)
    ensures result.Completed? <==> ValidGraph(gates) && 1 <= maxActive <= MAX_SAFE_INTEGER
    ensures result.Rejected? ==> trace == []
    ensures result.Rejected? && result.error.InvalidGraph? ==> Explains(gates, result.error.error)
    ensures result.Rejected? && result.error.InvalidConcurrency? ==>
        ValidGraph(gates) && result.error.maxActive == maxActive
    ensures result.Completed? ==> CompleteRun(gates, maxActive, execute, trace)
    ensures result.Completed? ==> InInputOrder(gates, StateAfter(gates, execute, trace).results, result.results)
  {
    var invalid := ValidateGateGraph(gates);
    if invalid.Some? { return Rejected(InvalidGraph(invalid.value)), []; }
    if maxActive > MAX_SAFE_INTEGER || maxActive < 1 { return Rejected(InvalidConcurrency(maxActive)), []; }

    var results;
    results, trace := Schedule(gates, maxActive, execute);
    var ordered: seq<GateResult> := [];
    for k := 0 to |gates|
      invariant |ordered| == k
      invariant forall j :: 0 <= j < k ==> gates[j].id in results && ordered[j] == results[gates[j].id]
    {
      ordered := ordered + [results[gates[k].id]];
    }
    return Completed(ordered), trace;
  }

  ghost predicate InInputOrder(gates: seq<Gate>, results: map<string, GateResult>, ordered: seq<GateResult>) {
    |ordered| == |gates| && forall k :: 0 <= k < |gates| ==>
      gates[k].id in results && ordered[k] == results[gates[k].id]
  }
}
