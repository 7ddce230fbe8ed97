/** All schedules report the same. */
module ScheduleIndependence {
  import opened Wrappers
  import opened Gates
  import opened CycleDetection
  import opened GateScheduler

  // The reference is a scheduler without concurrency: run the first ready gate to its end,
  // and skip the first blocked gate when none is ready.

  datatype Ledger = Ledger(states: States, results: map<string, GateResult>)

  function Executed(execute: Executor, l: Ledger, g: Gate): Ledger {
    Ledger(l.states[g.id := Settled(execute(g))], l.results[g.id := GateResult(g, execute(g), [])])
  }

  function SkippedOver(l: Ledger, g: Gate): Ledger {
    Ledger(l.states[g.id := Settled(Skipped)],
      l.results[g.id := GateResult(g, Skipped, FailedNeeds(g.needs, l.states))])
  }

  ghost function PendingIds(states: States): set<string> {
    set id | id in states && states[id] == Pending
  }

  lemma SettlingShrinksPending(states: States, id: string, status: Status)
    requires IsPending(states, id)
    ensures PendingIds(states[id := Settled(status)]) < PendingIds(states)
  {
    assert id in PendingIds(states) && id !in PendingIds(states[id := Settled(status)]);
  }

  ghost function Sequential(gates: seq<Gate>, execute: Executor, l: Ledger): Ledger
    decreases PendingIds(l.states)
  {
    var ready := FirstReady(gates, l.states);
    var blocked := FirstBlocked(PendingGates(gates, l.states), l.states);
    if ready.Some? then
      SettlingShrinksPending(l.states, ready.value.id, execute(ready.value));
      Sequential(gates, execute, Executed(execute, l, ready.value))
    else if blocked.Some? then
      SettlingShrinksPending(l.states, blocked.value.id, Skipped);
      Sequential(gates, execute, SkippedOver(l, blocked.value))
    else l
  }

  /** Another gate finishing never withdraws readiness. */
  lemma ReadinessPersists(execute: Executor, l: Ledger, f: Gate, g: Gate)
    requires Ready(f, l.states) && Ready(g, l.states) && f.id != g.id
    ensures Ready(g, Executed(execute, l, f).states)
  {
  }

  lemma ExecutionsCommute(execute: Executor, l: Ledger, f: Gate, g: Gate)
    requires f.id != g.id
    ensures Executed(execute, Executed(execute, l, f), g) == Executed(execute, Executed(execute, l, g), f)
  {
    var fg, gf := Executed(execute, Executed(execute, l, f), g), Executed(execute, Executed(execute, l, g), f);
    assert fg.states == gf.states && fg.results == gf.results;
  }

  lemma FirstReadyRuns(gates: seq<Gate>, execute: Executor, l: Ledger, f: Gate)
    requires FirstReady(gates, l.states) == Some(f)
    ensures Sequential(gates, execute, l) == Sequential(gates, execute, Executed(execute, l, f))
  {
  }

  /** A ready gate may run early: the reference ends in the same ledger. */
  lemma {:induction false} RunningEarlyChangesNothing(gates: seq<Gate>, execute: Executor, l: Ledger, g: Gate)
    requires DistinctIds(gates) && g in gates && Ready(g, l.states)
    ensures Sequential(gates, execute, Executed(execute, l, g)) == Sequential(gates, execute, l)
    decreases PendingIds(l.states)
  {
    var f := FirstReady(gates, l.states).value;
    FirstReadyRuns(gates, execute, l, f);
    if f.id == g.id {
      SameGate(gates, f, g);
    } else {
      ReadinessPersists(execute, l, f, g);
      ReadinessPersists(execute, l, g, f);
      SettlingShrinksPending(l.states, f.id, execute(f));
      SettlingShrinksPending(l.states, g.id, execute(g));
      ExecutionsCommute(execute, l, f, g);
      RunningEarlyChangesNothing(gates, execute, Executed(execute, l, f), g);
      RunningEarlyChangesNothing(gates, execute, Executed(execute, l, g), f);
    }
  }

  /** A scheduler state seen with every running gate already finished. */
  ghost function Ahead(byId: map<string, Gate>, execute: Executor, s: State): Ledger {
    Ledger(map id | id in s.states ::
             if s.states[id] == Running && id in byId then Settled(execute(byId[id])) else s.states[id],
           s.results + map id | id in byId && id in s.states && s.states[id] == Running ::
             GateResult(byId[id], execute(byId[id]), []))
  }

  lemma AheadOfQuiescent(byId: map<string, Gate>, execute: Executor, s: State)
    requires forall id :: id in s.states ==> s.states[id] != Running
    ensures Ahead(byId, execute, s) == Ledger(s.states, s.results)
  {
  }

  lemma NothingRuns(gates: seq<Gate>, maxActive: int, execute: Executor, s: State)
    requires Inv(gates, maxActive, execute, s) && s.running == []
    ensures forall id :: id in s.states ==> s.states[id] != Running
  {
    forall id | id in s.states ensures s.states[id] != Running {
      var g :| g in gates && g.id == id;
      assert g !in s.running;
    }
  }

  lemma StartIsEarlyExecution(byId: map<string, Gate>, execute: Executor, s: State, g: Gate)
    requires g.id in byId && byId[g.id] == g && IsPending(s.states, g.id) && g.id !in s.results
    ensures Ahead(byId, execute, Apply(execute, s, Start(g))) == Executed(execute, Ahead(byId, execute, s), g)
  {
    var next, early := Ahead(byId, execute, Apply(execute, s, Start(g))), Executed(execute, Ahead(byId, execute, s), g);
    assert next.states == early.states;
    assert next.results == early.results;
  }

  lemma ReadyAhead(byId: map<string, Gate>, execute: Executor, s: State, g: Gate)
    requires Ready(g, s.states)
    ensures Ready(g, Ahead(byId, execute, s).states)
  {
  }

  lemma SettleIsInvisible(byId: map<string, Gate>, execute: Executor, s: State, g: Gate)
    requires g.id in byId && byId[g.id] == g && g.id in s.states && s.states[g.id] == Running && g.id !in s.results
    ensures Ahead(byId, execute, Apply(execute, s, Settle(g))) == Ahead(byId, execute, s)
  {
    var next, now := Ahead(byId, execute, Apply(execute, s, Settle(g))), Ahead(byId, execute, s);
    assert next.states == now.states;
    assert next.results == now.results;
  }

  /** What the state knows about the gate of the next event. */
  ghost predicate Movable(byId: map<string, Gate>, s: State, e: Event) {
    && e.gate.id in byId && byId[e.gate.id] == e.gate && e.gate.id in s.states && e.gate.id !in s.results
    && (e.Settle? ==> s.states[e.gate.id] == Running)
    && (e.Skip? ==> forall id :: id in s.states ==> s.states[id] != Running)
  }

  lemma EnabledIsMovable(gates: seq<Gate>, maxActive: int, execute: Executor, s: State, e: Event)
    requires DistinctIds(gates) && Inv(gates, maxActive, execute, s) && Enabled(gates, maxActive, s, e)
    ensures Movable(ById(gates), s, e) && e.gate in gates
  {
    assert e.gate in gates;
    ByIdOfDistinct(gates, e.gate);
    if e.Skip? { NothingRuns(gates, maxActive, execute, s); }
  }

  /** One scheduler step is an early reference step, or invisible to the reference. */
  lemma StepKeepsReference(gates: seq<Gate>, maxActive: int, execute: Executor, s: State, e: Event)
    requires DistinctIds(gates) && e.gate in gates && Enabled(gates, maxActive, s, e)
    requires Movable(ById(gates), s, e)
    ensures Sequential(gates, execute, Ahead(ById(gates), execute, Apply(execute, s, e)))
         == Sequential(gates, execute, Ahead(ById(gates), execute, s))
  {
    var g, byId := e.gate, ById(gates);
    match e
    case Start(_) =>
      StartIsEarlyExecution(byId, execute, s, g);
      ReadyAhead(byId, execute, s, g);
      RunningEarlyChangesNothing(gates, execute, Ahead(byId, execute, s), g);
    case Settle(_) =>
      SettleIsInvisible(byId, execute, s, g);
    case Skip(_) =>
      AheadOfQuiescent(byId, execute, s);
      AheadOfQuiescent(byId, execute, Apply(execute, s, e));
  }

  ghost function Reference(gates: seq<Gate>, execute: Executor): Ledger {
    Sequential(gates, execute, Ledger(Initial(gates).states, map[]))
  }

  lemma {:induction false} RunTracksReference(gates: seq<Gate>, maxActive: int, execute: Executor, trace: seq<Event>)
    requires DistinctIds(gates) && maxActive >= 1 && Legal(gates, maxActive, execute, trace)
    ensures Sequential(gates, execute, Ahead(ById(gates), execute, StateAfter(gates, execute, trace)))
        == Reference(gates, execute)
  {
    if trace == [] {
      AheadOfQuiescent(ById(gates), execute, Initial(gates));
    } else {
      var earlier := trace[..|trace| - 1];
      RunKeepsInv(gates, maxActive, execute, earlier);
      RunTracksReference(gates, maxActive, execute, earlier);
      EnabledIsMovable(gates, maxActive, execute, StateAfter(gates, execute, earlier), trace[|trace| - 1]);
      StepKeepsReference(gates, maxActive, execute, StateAfter(gates, execute, earlier), trace[|trace| - 1]);
    }
  }

  lemma SettledNeedsNothing(gates: seq<Gate>, states: States)
    requires forall g :: g in gates ==> GateSettled(states, g.id)
    ensures FirstReady(gates, states).None? && FirstBlocked(PendingGates(gates, states), states).None?
  {
  }

  /** Whatever the worker count and the settlement order, a complete run ends with
      the results of the reference, skip diagnostics included. */
  lemma CompleteRunsMatchReference(gates: seq<Gate>, maxActive: int, execute: Executor, trace: seq<Event>)
    requires DistinctIds(gates) && maxActive >= 1 && CompleteRun(gates, maxActive, execute, trace)
    ensures var s := StateAfter(gates, execute, trace);
            Reference(gates, execute) == Ledger(s.states, s.results)
  {
    var s := StateAfter(gates, execute, trace);
    RunTracksReference(gates, maxActive, execute, trace);
    SettledNeedsNothing(gates, s.states);
    assert forall id :: id in s.states ==> s.states[id] != Running by {
      RunKeepsInv(gates, maxActive, execute, trace);
      forall id | id in s.states ensures s.states[id] != Running {
        var g :| g in gates && g.id == id;
        assert GateSettled(s.states, g.id);
      }
    }
    AheadOfQuiescent(ById(gates), execute, s);
  }

  /** Two complete runs agree on every result, for any two worker counts. */
  lemma ScheduleIndependent(gates: seq<Gate>, execute: Executor,
                            workers1: int, trace1: seq<Event>, workers2: int, trace2: seq<Event>)
    requires DistinctIds(gates) && workers1 >= 1 && workers2 >= 1
    requires CompleteRun(gates, workers1, execute, trace1) && CompleteRun(gates, workers2, execute, trace2)
    ensures StateAfter(gates, execute, trace1).results == StateAfter(gates, execute, trace2).results
    ensures StateAfter(gates, execute, trace1).states == StateAfter(gates, execute, trace2).states
  {
    CompleteRunsMatchReference(gates, workers1, execute, trace1);
    CompleteRunsMatchReference(gates, workers2, execute, trace2);
  }

  // ----- what the status of a gate is

  ghost predicate NeedsPassed(g: Gate, states: States) {
    forall id :: id in g.needs ==> GatePassed(states, id)
  }

  /** A gate is skipped exactly when some needed gate did not pass; otherwise its own
      outcome stands. */
  lemma FinalStatus(gates: seq<Gate>, maxActive: int, execute: Executor, trace: seq<Event>, g: Gate)
    requires DistinctIds(gates) && maxActive >= 1 && CompleteRun(gates, maxActive, execute, trace) && g in gates
    ensures var states := StateAfter(gates, execute, trace).states;
            g.id in states && states[g.id] == Settled(if NeedsPassed(g, states) then execute(g) else Skipped)
  {
    var s := StateAfter(gates, execute, trace);
    RunKeepsInv(gates, maxActive, execute, trace);
    assert GateSettled(s.states, g.id);
    var r := s.results[g.id];
    assert Justified(execute, g, s.states, r);
    if r.failedDeps != [] { assert r.failedDeps[0] in r.failedDeps; }
  }

  /** The same gates up to their `after` lists, with the same outcomes. */
  ghost predicate SameButAfter(gates1: seq<Gate>, execute1: Executor, gates2: seq<Gate>, execute2: Executor) {
    |gates1| == |gates2| &&
    forall k :: 0 <= k < |gates1| ==>
      gates1[k].id == gates2[k].id && gates1[k].needs == gates2[k].needs && execute1(gates1[k]) == execute2(gates2[k])
  }

  /** Every gate has the status `FinalStatus` gives it. */
  ghost predicate Decided(gates: seq<Gate>, execute: Executor, states: States) {
    forall g :: g in gates ==>
      g.id in states && states[g.id] == Settled(if NeedsPassed(g, states) then execute(g) else Skipped)
  }

  lemma EarlierPosition(gates: seq<Gate>, order: seq<string>, n: nat, p: string) returns (j: nat)
    requires CompleteOrder(ById(gates), order) && KnownPredecessors(gates) && n < |order|
    requires p in ById(gates)[order[n]].needs
    ensures j < n && order[j] == p
  {
    ByIdMembers(gates);
    var g := ById(gates)[order[n]];
    assert g in gates && p in Predecessors(g) && p in Ids(gates);
    assert p in order[..n];
    j :| 0 <= j < n && order[j] == p;
  }

  lemma SameVerdict(g1: Gate, states1: States, g2: Gate, states2: States)
    requires g1.needs == g2.needs
    requires forall p :: p in g1.needs ==> GatePassed(states1, p) == GatePassed(states2, p)
    ensures NeedsPassed(g1, states1) == NeedsPassed(g2, states2)
  {
  }

  lemma {:induction false} SameStatusInOrder(gates1: seq<Gate>, execute1: Executor, states1: States,
                                             gates2: seq<Gate>, execute2: Executor, states2: States,
                                             order: seq<string>, n: nat)
    requires CompleteOrder(ById(gates1), order) && KnownPredecessors(gates1) && n < |order|
    requires SameButAfter(gates1, execute1, gates2, execute2)
    requires Decided(gates1, execute1, states1) && Decided(gates2, execute2, states2)
    ensures order[n] in states1 && order[n] in states2 && states1[order[n]] == states2[order[n]]
    decreases n
  {
    ByIdMembers(gates1);
    var g1 := ById(gates1)[order[n]];
    var k :| 0 <= k < |gates1| && gates1[k] == g1;
    var g2 := gates2[k];
    assert g1 in gates1 && g2 in gates2;
    forall p | p in g1.needs ensures GatePassed(states1, p) == GatePassed(states2, p) {
      var j := EarlierPosition(gates1, order, n, p);
      SameStatusInOrder(gates1, execute1, states1, gates2, execute2, states2, order, j);
    }
    SameVerdict(g1, states1, g2, states2);
  }

  lemma CompleteRunsDecide(gates: seq<Gate>, maxActive: int, execute: Executor, trace: seq<Event>)
    requires DistinctIds(gates) && maxActive >= 1 && CompleteRun(gates, maxActive, execute, trace)
    ensures Decided(gates, execute, StateAfter(gates, execute, trace).states)
    ensures StateAfter(gates, execute, trace).states.Keys == Ids(gates)
  {
    RunKeepsInv(gates, maxActive, execute, trace);
    forall g | g in gates { FinalStatus(gates, maxActive, execute, trace, g); }
  }

  lemma SameIds(gates1: seq<Gate>, execute1: Executor, gates2: seq<Gate>, execute2: Executor)
    requires SameButAfter(gates1, execute1, gates2, execute2)
    ensures Ids(gates1) == Ids(gates2)
  {
    forall id | id in Ids(gates1) ensures id in Ids(gates2) {
      var k :| 0 <= k < |gates1| && gates1[k].id == id;
      assert gates2[k] in gates2;
    }
    forall id | id in Ids(gates2) ensures id in Ids(gates1) {
      var k :| 0 <= k < |gates2| && gates2[k].id == id;
      assert gates1[k] in gates1;
    }
  }

  /** `after` edges order the work and never change a status. */
  lemma AfterEdgesNeverDecide(gates1: seq<Gate>, execute1: Executor, workers1: int, trace1: seq<Event>,
                              gates2: seq<Gate>, execute2: Executor, workers2: int, trace2: seq<Event>)
    requires ValidGraph(gates1) && ValidGraph(gates2) && SameButAfter(gates1, execute1, gates2, execute2)
    requires workers1 >= 1 && CompleteRun(gates1, workers1, execute1, trace1)
    requires workers2 >= 1 && CompleteRun(gates2, workers2, execute2, trace2)
    ensures StateAfter(gates1, execute1, trace1).states == StateAfter(gates2, execute2, trace2).states
  {
    var states1, states2 := StateAfter(gates1, execute1, trace1).states, StateAfter(gates2, execute2, trace2).states;
    CompleteRunsDecide(gates1, workers1, execute1, trace1);
    CompleteRunsDecide(gates2, workers2, execute2, trace2);
    SameIds(gates1, execute1, gates2, execute2);
    ByIdMembers(gates1);
    AcyclicIffOrdered(ById(gates1));
    var order :| CompleteOrder(ById(gates1), order);
    forall id | id in states1 ensures states1[id] == states2[id] {
      var n :| 0 <= n < |order| && order[n] == id;
      SameStatusInOrder(gates1, execute1, states1, gates2, execute2, states2, order, n);
    }
  }

  // ----- what an aggregate answers

  /** Failed and skipped gates count, unless they may fail. */
  function ExitStatus(results: seq<GateResult>): int {
    if exists r :: r in results && !r.gate.allowFailure && (r.status == Failed || r.status == Skipped) then 1 else 0
  }

  /** Each gate of the chain needs the next. */
  ghost predicate NeedChain(byId: map<string, Gate>, chain: seq<string>) {
    && chain != [] && (forall i :: 0 <= i < |chain| ==> chain[i] in byId)
    && forall i :: 0 <= i < |chain| - 1 ==> chain[i + 1] in byId[chain[i]].needs
  }

  /** What a chain of needs leads to reports that it passed. */
  ghost predicate EndPasses(byId: map<string, Gate>, execute: Executor, chain: seq<string>)
    requires NeedChain(byId, chain)
  {
    execute(byId[chain[|chain| - 1]]) == Passed
  }

  lemma {:induction false} PassedDownTheChain(gates: seq<Gate>, execute: Executor, states: States, chain: seq<string>)
    requires DistinctIds(gates) && Decided(gates, execute, states) && NeedChain(ById(gates), chain)
    requires GatePassed(states, chain[0])
    ensures EndPasses(ById(gates), execute, chain)
  {
    ByIdMembers(gates);
    var g := ById(gates)[chain[0]];
    assert g in gates && NeedsPassed(g, states);
    if |chain| > 1 {
      assert chain[1] in g.needs;
      var rest := chain[1..];
      forall i | 0 <= i < |rest| - 1 ensures rest[i + 1] in ById(gates)[rest[i]].needs {
        assert chain[(i + 1) + 1] in ById(gates)[chain[i + 1]].needs;
      }
      PassedDownTheChain(gates, execute, states, rest);
    }
  }

  lemma {:induction false} FailureDownTheChain(gates: seq<Gate>, execute: Executor, states: States, order: seq<string>,
        n: nat) returns (chain: seq<string>)
    requires CompleteOrder(ById(gates), order) && KnownPredecessors(gates) && n < |order|
    requires Decided(gates, execute, states) && !GatePassed(states, order[n])
    ensures NeedChain(ById(gates), chain) && chain[0] == order[n] && !EndPasses(ById(gates), execute, chain)
    decreases n
  {
    ByIdMembers(gates);
    var g := ById(gates)[order[n]];
    assert g in gates;
    chain := [order[n]];
    if execute(g) == Passed {
      var p :| p in g.needs && !GatePassed(states, p);
      var j := EarlierPosition(gates, order, n, p);
      var rest := FailureDownTheChain(gates, execute, states, order, j);
      chain := [order[n]] + rest;
      forall i | 0 <= i < |chain| - 1 ensures chain[i + 1] in ById(gates)[chain[i]].needs {
        if i > 0 { assert rest[(i - 1) + 1] in ById(gates)[rest[i - 1]].needs; }
      }
    }
  }

  /** The chain starts at a gate that may not fail. */
  ghost predicate IsBinding(byId: map<string, Gate>, chain: seq<string>) {
    NeedChain(byId, chain) && !byId[chain[0]].allowFailure
  }

  /** The results as the aggregate reports them. */
  ghost predicate Reported(gates: seq<Gate>, states: States, results: seq<GateResult>) {
    |results| == |gates| && forall k :: 0 <= k < |gates| ==>
      results[k].gate == gates[k] && GateSettled(states, gates[k].id) && states[gates[k].id].status == results[k].status
  }

  lemma ResultsReported(gates: seq<Gate>, maxActive: int, execute: Executor, trace: seq<Event>,
        results: seq<GateResult>)
    requires DistinctIds(gates) && maxActive >= 1 && CompleteRun(gates, maxActive, execute, trace)
    requires InInputOrder(gates, StateAfter(gates, execute, trace).results, results)
    ensures Reported(gates, StateAfter(gates, execute, trace).states, results)
  {
    RunKeepsInv(gates, maxActive, execute, trace);
    var s := StateAfter(gates, execute, trace);
    forall k | 0 <= k < |gates| ensures Justified(execute, gates[k], s.states, results[k]) {
      assert gates[k] in gates;
    }
  }

  lemma PassingAggregate(gates: seq<Gate>, execute: Executor, states: States, results: seq<GateResult>,
        chain: seq<string>)
    requires DistinctIds(gates) && Decided(gates, execute, states) && Reported(gates, states, results)
    requires ExitStatus(results) == 0 && IsBinding(ById(gates), chain)
    ensures EndPasses(ById(gates), execute, chain)
  {
    ByIdMembers(gates);
    var g := ById(gates)[chain[0]];
    var k :| 0 <= k < |gates| && gates[k] == g;
    assert results[k] in results;
    PassedDownTheChain(gates, execute, states, chain);
  }

  lemma FailingAggregate(gates: seq<Gate>, execute: Executor, states: States, results: seq<GateResult>)
    returns (chain: seq<string>)
    requires ValidGraph(gates) && Decided(gates, execute, states) && Reported(gates, states, results)
    requires ExitStatus(results) != 0
    ensures IsBinding(ById(gates), chain) && !EndPasses(ById(gates), execute, chain)
  {
    var r :| r in results && !r.gate.allowFailure && (r.status == Failed || r.status == Skipped);
    ByIdOfDistinct(gates, r.gate);
    AcyclicIffOrdered(ById(gates));
    hide Acyclic;
    var order :| CompleteOrder(ById(gates), order);
    assert r.gate.id in order;
    var n :| 0 <= n < |order| && order[n] == r.gate.id;
    chain := FailureDownTheChain(gates, execute, states, order, n);
  }

  /** An aggregate answers 0 exactly when every chain of needs from a gate that may not fail
      ends in a gate that reports it passed, whatever the order of the run. */
  lemma ExitStatusIff(gates: seq<Gate>, maxActive: int, execute: Executor, trace: seq<Event>,
        results: seq<GateResult>)
    requires ValidGraph(gates) && maxActive >= 1 && CompleteRun(gates, maxActive, execute, trace)
    requires InInputOrder(gates, StateAfter(gates, execute, trace).results, results)
    ensures ExitStatus(results) == 0 <==>
            forall chain | IsBinding(ById(gates), chain) :: EndPasses(ById(gates), execute, chain)
  {
    var states := StateAfter(gates, execute, trace).states;
    ResultsReported(gates, maxActive, execute, trace, results);
    CompleteRunsDecide(gates, maxActive, execute, trace);
    if ExitStatus(results) == 0 {
      forall chain | IsBinding(ById(gates), chain) ensures EndPasses(ById(gates), execute, chain) {
        PassingAggregate(gates, execute, states, results, chain);
      }
    } else {
      var chain := FailingAggregate(gates, execute, states, results);
    }
  }
}
