/** The scheduler against the clock. */
module WorkBound {
  import opened Gates
  import opened GateScheduler

  // Gates take the time they take, the scheduler itself takes none, and the first running
  // gate to finish settles first. With m workers, total work W and a dependency chain of
  // length C, a run in which every gate passes finishes at T with m*T <= W + (m-1)*C.

  type Durations = Gate -> real

  /** The clock, the finishing time of each started gate, and the time so far during
      which some worker was free. */
  datatype Timing = Timing(clock: real, finish: map<string, real>, slack: real)

  function Tick(maxActive: int, dur: Durations, s: State, c: Timing, e: Event, t: real): Timing {
    Timing(t,
           if e.Start? then c.finish[e.gate.id := t + dur(e.gate)] else c.finish,
           if |s.running| < maxActive then c.slack + (t - c.clock) else c.slack)
  }

  /** Starting and skipping are instantaneous; the earliest running gate settles. */
  ghost predicate HappensAt(s: State, c: Timing, e: Event, t: real) {
    if e.Settle? then
      && e.gate.id in c.finish && t == c.finish[e.gate.id]
      && forall r :: r in s.running ==> r.id in c.finish && t <= c.finish[r.id]
    else t == c.clock
  }

  function TimingAfter(gates: seq<Gate>, maxActive: int, execute: Executor, dur: Durations,
                       trace: seq<Event>, times: seq<real>): Timing
    requires |times| == |trace|
  {
    if trace == [] then Timing(0.0, map[], 0.0) else
    var n := |trace| - 1;
    Tick(maxActive, dur, StateAfter(gates, execute, trace[..n]),
         TimingAfter(gates, maxActive, execute, dur, trace[..n], times[..n]), trace[n], times[n])
  }

  /** A legal run together with the instants of its calls. */
  ghost predicate TimedRun(gates: seq<Gate>, maxActive: int, execute: Executor, dur: Durations,
                           trace: seq<Event>, times: seq<real>)
    decreases |trace|
  {
    |times| == |trace| &&
    (trace == [] ||
     var n := |trace| - 1;
     var s := StateAfter(gates, execute, trace[..n]);
     && TimedRun(gates, maxActive, execute, dur, trace[..n], times[..n])
     && Enabled(gates, maxActive, s, trace[n])
     && HappensAt(s, TimingAfter(gates, maxActive, execute, dur, trace[..n], times[..n]), trace[n], times[n]))
  }

  lemma TimedRunIsLegal(gates: seq<Gate>, maxActive: int, execute: Executor, dur: Durations,
                        trace: seq<Event>, times: seq<real>)
    requires TimedRun(gates, maxActive, execute, dur, trace, times)
    ensures Legal(gates, maxActive, execute, trace)
  {
    if trace != [] {
      var n := |trace| - 1;
      TimedRunIsLegal(gates, maxActive, execute, dur, trace[..n], times[..n]);
    }
  }

  // ----- chains

  ghost predicate IsChain(gates: seq<Gate>, chain: seq<Gate>) {
    && (forall g :: g in chain ==> g in gates)
    && forall i :: 0 <= i < |chain| - 1 ==> chain[i].id in Predecessors(chain[i + 1])
  }

  function Work(gates: seq<Gate>, dur: Durations): real {
    if gates == [] then 0.0 else Work(gates[..|gates| - 1], dur) + dur(gates[|gates| - 1])
  }

  /** Some chain of at least this length ends in `g`. */
  ghost predicate ChainTo(gates: seq<Gate>, dur: Durations, g: Gate, w: real) {
    exists chain :: IsChain(gates, chain) && chain != [] && chain[|chain| - 1] == g && w <= Work(chain, dur)
  }

  lemma ChainOfOne(gates: seq<Gate>, dur: Durations, g: Gate)
    requires g in gates
    ensures ChainTo(gates, dur, g, dur(g))
  {
    var chain := [g];
    assert chain[..0] == [];
    assert Work(chain[..0], dur) == 0.0;
    assert Work(chain, dur) == dur(g);
    assert IsChain(gates, chain) && chain[|chain| - 1] == g;
  }

  lemma ChainGrows(gates: seq<Gate>, dur: Durations, p: Gate, g: Gate, w: real)
    requires ChainTo(gates, dur, p, w) && g in gates && p.id in Predecessors(g)
    ensures ChainTo(gates, dur, g, w + dur(g))
  {
    var chain :| IsChain(gates, chain) && chain != [] && chain[|chain| - 1] == p && w <= Work(chain, dur);
    var longer := chain + [g];
    assert longer[..|chain|] == chain;
    assert Work(longer, dur) == Work(chain, dur) + dur(g);
    assert IsChain(gates, longer) && longer[|longer| - 1] == g;
  }

  // ----- bookkeeping sums

  /** Work of the gates that have started. */
  function Begun(gates: seq<Gate>, states: States, dur: Durations): real {
    if gates == [] then 0.0 else
    var n := |gates| - 1;
    Begun(gates[..n], states, dur) + (if IsPending(states, gates[n].id) then 0.0 else dur(gates[n]))
  }

  lemma BegunDependsOnPending(gates: seq<Gate>, states: States, states': States, dur: Durations)
    requires forall g :: g in gates ==> IsPending(states, g.id) == IsPending(states', g.id)
    ensures Begun(gates, states, dur) == Begun(gates, states', dur)
  {
  }

  lemma {:induction false} BegunGrows(gates: seq<Gate>, states: States, dur: Durations, g: Gate)
    requires DistinctIds(gates) && g in gates && IsPending(states, g.id)
    ensures Begun(gates, states[g.id := Running], dur) == Begun(gates, states, dur) + dur(g)
  {
    var n := |gates| - 1;
    if gates[n] == g {
      BegunDependsOnPending(gates[..n], states, states[g.id := Running], dur);
    } else {
      var i :| 0 <= i < n && gates[i] == g;
      assert gates[i].id != gates[n].id;
      BegunGrows(gates[..n], states, dur, g);
    }
  }

  lemma AllBegun(gates: seq<Gate>, states: States, dur: Durations)
    requires forall g :: g in gates ==> !IsPending(states, g.id)
    ensures Begun(gates, states, dur) == Work(gates, dur)
  {
  }

  lemma NoneBegun(gates: seq<Gate>, states: States, dur: Durations)
    requires forall g :: g in gates ==> IsPending(states, g.id)
    ensures Begun(gates, states, dur) == 0.0
  {
  }

  ghost predicate Scheduled(running: seq<Gate>, finish: map<string, real>) {
    forall r :: r in running ==> r.id in finish
  }

  /** Work the running gates still owe at time `t`. */
  ghost function Owing(running: seq<Gate>, finish: map<string, real>, t: real): real
    requires Scheduled(running, finish)
  {
    if running == [] then 0.0 else (finish[running[0].id] - t) + Owing(running[1..], finish, t)
  }

  lemma OwingLater(running: seq<Gate>, finish: map<string, real>, t: real, u: real)
    requires Scheduled(running, finish)
    ensures Owing(running, finish, u) == Owing(running, finish, t) - |running| as real * (u - t)
  {
    if running != [] {
      OwingLater(running[1..], finish, t, u);
      var k, d := |running[1..]| as real, u - t;
      assert |running| as real == k + 1.0;
      assert (k + 1.0) * d == k * d + d;
    }
  }

  lemma OwingWithout(running: seq<Gate>, finish: map<string, real>, t: real, g: Gate)
    requires Scheduled(running, finish) && g in running && g.id in finish
    ensures Scheduled(Without(running, g), finish)
    ensures Owing(Without(running, g), finish, t) == Owing(running, finish, t) - (finish[g.id] - t)
  {
    if running[0] != g {
      OwingWithout(running[1..], finish, t, g);
      assert Without(running, g)[1..] == Without(running[1..], g);
    }
  }

  lemma {:induction false} OwingWith(running: seq<Gate>, finish: map<string, real>, t: real, g: Gate, f: real)
    requires Scheduled(running, finish) && forall r :: r in running ==> r.id != g.id
    ensures Scheduled(running + [g], finish[g.id := f])
    ensures Owing(running + [g], finish[g.id := f], t) == Owing(running, finish, t) + (f - t)
  {
    if running == [] {
      assert ([] + [g])[1..] == [];
    } else {
      assert (running + [g])[1..] == running[1..] + [g];
      OwingWith(running[1..], finish, t, g, f);
    }
  }

  // ----- the invariant of timed runs

  ghost predicate PredecessorsSettled(g: Gate, states: States) {
    forall p :: p in Predecessors(g) ==> GateSettled(states, p)
  }

  /** Some chain is as long as the slack accumulated so far. */
  ghost predicate SlackCovered(gates: seq<Gate>, dur: Durations, slack: real) {
    exists chain :: IsChain(gates, chain) && slack <= Work(chain, dur)
  }

  /** Each running gate ends a chain covering the slack so far and the time it still
      needs; each pending gate that could start ends one covering its whole duration. */
  ghost predicate ChainsCover(gates: seq<Gate>, dur: Durations, s: State, c: Timing) {
    && Scheduled(s.running, c.finish)
    && (forall r :: r in s.running ==>
       c.finish[r.id] >= c.clock && ChainTo(gates, dur, r, c.slack + (c.finish[r.id] - c.clock)))
    && (forall g :: g in gates && IsPending(s.states, g.id) && PredecessorsSettled(g, s.states) ==>
       ChainTo(gates, dur, g, c.slack + dur(g)))
    && SlackCovered(gates, dur, c.slack)
  }

  /** Workers were either doing begun work or contributing to the slack. */
  ghost predicate Accounted(gates: seq<Gate>, maxActive: int, dur: Durations, s: State, c: Timing) {
    && Scheduled(s.running, c.finish)
    && maxActive as real * c.clock <= Begun(gates, s.states, dur) - Owing(s.running, c.finish, c.clock)
       + (maxActive as real - 1.0) * c.slack
  }

  ghost predicate AllPass(gates: seq<Gate>, execute: Executor) {
    forall g :: g in gates ==> execute(g) == Passed
  }

  lemma ChainToLess(gates: seq<Gate>, dur: Durations, g: Gate, w: real, v: real)
    requires ChainTo(gates, dur, g, w) && v <= w
    ensures ChainTo(gates, dur, g, v)
  {
    var chain :| IsChain(gates, chain) && chain != [] && chain[|chain| - 1] == g && w <= Work(chain, dur);
    assert v <= Work(chain, dur);
  }

  lemma ChainToCovers(gates: seq<Gate>, dur: Durations, g: Gate, w: real)
    requires ChainTo(gates, dur, g, w)
    ensures SlackCovered(gates, dur, w)
  {
    var chain :| IsChain(gates, chain) && chain != [] && chain[|chain| - 1] == g && w <= Work(chain, dur);
    assert IsChain(gates, chain) && w <= Work(chain, dur);
  }

  ghost predicate NoFailure(states: States) {
    forall id :: !GateFailed(states, id)
  }

  lemma StepNeverFails(gates: seq<Gate>, maxActive: int, execute: Executor, s: State, e: Event)
    requires AllPass(gates, execute) && e.gate in gates
    requires NoFailure(s.states) && Enabled(gates, maxActive, s, e)
    ensures !e.Skip? && NoFailure(Apply(execute, s, e).states)
  {
    forall id ensures !GateFailed(Apply(execute, s, e).states, id) {
      assert !GateFailed(s.states, id);
    }
  }

  /** When every gate passes, nothing is ever skipped and settled means passed. */
  lemma {:induction false} NothingFails(gates: seq<Gate>, maxActive: int, execute: Executor, trace: seq<Event>)
    requires DistinctIds(gates) && maxActive >= 1 && Legal(gates, maxActive, execute, trace) && AllPass(gates, execute)
    ensures NoFailure(StateAfter(gates, execute, trace).states)
    ensures forall k :: 0 <= k < |trace| ==> !trace[k].Skip?
  {
    if trace != [] {
      var n := |trace| - 1;
      NothingFails(gates, maxActive, execute, trace[..n]);
      EventMovesItsGate(gates, maxActive, execute, trace);
      StepNeverFails(gates, maxActive, execute, StateAfter(gates, execute, trace[..n]), trace[n]);
    }
  }

  /** What the state before the last call knows about its gate. */
  ghost predicate Moves(gates: seq<Gate>, maxActive: int, s: State, e: Event) {
    && e.gate in gates
    && Distinct(s.running)
    && |s.running| <= maxActive
    && (e.Start? ==> IsPending(s.states, e.gate.id) && forall r :: r in s.running ==> r.id != e.gate.id)
    && (e.Settle? ==> e.gate.id in s.states && s.states[e.gate.id] == Running)
  }

  lemma EventMovesItsGate(gates: seq<Gate>, maxActive: int, execute: Executor, trace: seq<Event>)
    requires DistinctIds(gates) && maxActive >= 1 && Legal(gates, maxActive, execute, trace) && trace != []
    ensures Moves(gates, maxActive, StateAfter(gates, execute, trace[..|trace| - 1]), trace[|trace| - 1])
  {
    RunKeepsInv(gates, maxActive, execute, trace[..|trace| - 1]);
  }

  lemma NonemptyHasMember(running: seq<Gate>)
    ensures running != [] ==> exists r :: r in running
  {
    if running != [] { assert running[0] in running; }
  }

  lemma AllSettledRunsNothing(gates: seq<Gate>, maxActive: int, execute: Executor, s: State)
    requires Inv(gates, maxActive, execute, s) && AllSettled(gates, s)
    ensures s.running == []
  {
    NonemptyHasMember(s.running);
  }

  lemma SettledIsReady(g: Gate, states: States)
    requires NoFailure(states)
    requires PredecessorsSettled(g, states)
    ensures PredecessorsReady(g, states)
  {
    forall id | id in g.needs ensures GatePassed(states, id) {
      assert id in Predecessors(g) && !GateFailed(states, id);
    }
    forall id | id in g.after ensures GateSettled(states, id) { assert id in Predecessors(g); }
  }

  lemma ReadyIsSettled(g: Gate, states: States)
    requires PredecessorsReady(g, states)
    ensures PredecessorsSettled(g, states)
  {
  }

  // ----- starting a gate

  lemma StartKeepsChains(gates: seq<Gate>, maxActive: int, execute: Executor, dur: Durations, s: State, c: Timing,
        g: Gate)
    requires forall h :: h in gates ==> dur(h) >= 0.0
    requires ChainsCover(gates, dur, s, c) && Ready(g, s.states) && Moves(gates, maxActive, s, Start(g))
    ensures ChainsCover(gates, dur, Apply(execute, s, Start(g)), Tick(maxActive, dur, s, c, Start(g), c.clock))
  {
    hide ChainTo, SlackCovered, GateSettled;
    var s', c' := Apply(execute, s, Start(g)), Tick(maxActive, dur, s, c, Start(g), c.clock);
    assert c'.slack == c.slack;
    ReadyIsSettled(g, s.states);
    forall r | r in s'.running
      ensures r.id in c'.finish && c'.finish[r.id] >= c'.clock
          && ChainTo(gates, dur, r, c'.slack + (c'.finish[r.id] - c'.clock))
    {
      if r != g { assert r in s.running && r.id != g.id; }
    }
    forall h | h in gates && IsPending(s'.states, h.id) && PredecessorsSettled(h, s'.states)
      ensures ChainTo(gates, dur, h, c'.slack + dur(h))
    {
      StartSettlesNothing(s.states, g.id, h);
    }
  }

  lemma StartSettlesNothing(states: States, id: string, h: Gate)
    requires PredecessorsSettled(h, states[id := Running])
    ensures PredecessorsSettled(h, states)
  {
    assert forall p | GateSettled(states[id := Running], p) :: GateSettled(states, p);
  }

  lemma StartKeepsAccount(gates: seq<Gate>, maxActive: int, execute: Executor, dur: Durations, s: State, c: Timing,
        g: Gate)
    requires DistinctIds(gates)
    requires Accounted(gates, maxActive, dur, s, c) && Moves(gates, maxActive, s, Start(g))
    ensures Accounted(gates, maxActive, dur, Apply(execute, s, Start(g)), Tick(maxActive, dur, s, c, Start(g), c.clock))
  {
    hide Owing, Begun;
    var s', c' := Apply(execute, s, Start(g)), Tick(maxActive, dur, s, c, Start(g), c.clock);
    OwingWith(s.running, c.finish, c.clock, g, c.clock + dur(g));
    BegunGrows(gates, s.states, dur, g);
    assert c'.slack == c.slack;
    assert Owing(s'.running, c'.finish, c'.clock) == Owing(s.running, c.finish, c.clock) + dur(g);
    assert Begun(gates, s'.states, dur) == Begun(gates, s.states, dur) + dur(g);
  }

  // ----- waiting for a gate and settling it

  /** Waiting happens with every worker busy or nothing ready to start. */
  lemma ReadyWhileWaiting(gates: seq<Gate>, maxActive: int, s: State, g: Gate, h: Gate)
    requires NoFailure(s.states) && Enabled(gates, maxActive, s, Settle(g))
    requires h in gates && IsPending(s.states, h.id) && PredecessorsSettled(h, s.states)
    ensures |s.running| >= maxActive
  {
    SettledIsReady(h, s.states);
    assert Ready(h, s.states);
  }

  lemma WaitKeepsChains(gates: seq<Gate>, maxActive: int, dur: Durations, s: State, c: Timing, g: Gate, t: real)
    requires NoFailure(s.states)
    requires ChainsCover(gates, dur, s, c) && Enabled(gates, maxActive, s, Settle(g)) && HappensAt(s, c, Settle(g), t)
    ensures ChainsCover(gates, dur, s, Tick(maxActive, dur, s, c, Settle(g), t))
  {
    hide ChainTo, SlackCovered, PredecessorsSettled, NoFailure;
    var c' := Tick(maxActive, dur, s, c, Settle(g), t);
    forall r | r in s.running
      ensures c'.finish[r.id] >= t && ChainTo(gates, dur, r, c'.slack + (c'.finish[r.id] - t))
    {
      ChainToLess(gates, dur, r, c.slack + (c.finish[r.id] - c.clock), c'.slack + (c'.finish[r.id] - t));
    }
    forall h | h in gates && IsPending(s.states, h.id) && PredecessorsSettled(h, s.states)
      ensures ChainTo(gates, dur, h, c'.slack + dur(h))
    {
      ReadyWhileWaiting(gates, maxActive, s, g, h);
    }
    ChainToCovers(gates, dur, g, c'.slack + (c'.finish[g.id] - t));
  }

  lemma SettleKeepsChains(gates: seq<Gate>, maxActive: int, execute: Executor, dur: Durations, s: State, c: Timing,
        g: Gate)
    requires Moves(gates, maxActive, s, Settle(g))
    requires ChainsCover(gates, dur, s, c) && g in s.running && c.finish[g.id] == c.clock
    ensures ChainsCover(gates, dur, Apply(execute, s, Settle(g)), c)
  {
    var s' := Apply(execute, s, Settle(g));
    WithoutMembers(s.running, g);
    forall h | h in gates && IsPending(s'.states, h.id) && PredecessorsSettled(h, s'.states)
      ensures ChainTo(gates, dur, h, c.slack + dur(h))
    {
      if g.id in Predecessors(h) {
        ChainGrows(gates, dur, g, h, c.slack + (c.finish[g.id] - c.clock));
      } else {
        assert PredecessorsSettled(h, s.states);
      }
    }
  }

  /** Time passes from `clock` to `t` with `k` of `m` workers busy. */
  lemma WaitingArithmetic(m: real, k: real, clock: real, t: real, begun: real, owing: real, slack: real, slack': real)
    requires m >= 1.0 && 1.0 <= k <= m && clock <= t
    requires m * clock <= begun - owing + (m - 1.0) * slack
    requires slack' == if k < m then slack + (t - clock) else slack
    ensures m * t <= begun - (owing - k * (t - clock)) + (m - 1.0) * slack'
  {
    var d := t - clock;
    assert m * t == m * clock + m * d;
    if k < m {
      assert (m - 1.0) * slack' == (m - 1.0) * slack + m * d - d;
      assert (k - 1.0) * d >= 0.0;
      assert k * d == (k - 1.0) * d + d;
    }
  }

  /** While time passes, each worker either works or adds to the slack. */
  lemma WaitKeepsAccount(gates: seq<Gate>, maxActive: int, dur: Durations, s: State, c: Timing, g: Gate, t: real)
    requires Accounted(gates, maxActive, dur, s, c) && 1 <= |s.running| <= maxActive && c.clock <= t
    ensures Accounted(gates, maxActive, dur, s, Tick(maxActive, dur, s, c, Settle(g), t))
  {
    var m, k := maxActive as real, |s.running| as real;
    var slack' := Tick(maxActive, dur, s, c, Settle(g), t).slack;
    var owing := Owing(s.running, c.finish, c.clock);
    OwingLater(s.running, c.finish, c.clock, t);
    WaitingArithmetic(m, k, c.clock, t, Begun(gates, s.states, dur), owing, c.slack, slack');
    assert Owing(s.running, c.finish, t) == owing - k * (t - c.clock);
  }

  lemma SettleKeepsAccount(gates: seq<Gate>, maxActive: int, execute: Executor, dur: Durations, s: State, c: Timing,
        g: Gate)
    requires Moves(gates, maxActive, s, Settle(g))
    requires Accounted(gates, maxActive, dur, s, c) && g in s.running && c.finish[g.id] == c.clock
    ensures Accounted(gates, maxActive, dur, Apply(execute, s, Settle(g)), c)
  {
    OwingWithout(s.running, c.finish, c.clock, g);
    forall h | h in gates ensures IsPending(s.states, h.id) == IsPending(Apply(execute, s, Settle(g)).states, h.id) {
    }
    BegunDependsOnPending(gates, s.states, Apply(execute, s, Settle(g)).states, dur);
  }

  lemma TimedStepKeeps(gates: seq<Gate>, maxActive: int, execute: Executor, dur: Durations, s: State, c: Timing,
        e: Event, t: real)
    requires DistinctIds(gates) && NoFailure(s.states) && !e.Skip?
    requires forall h :: h in gates ==> dur(h) >= 0.0
    requires Moves(gates, maxActive, s, e) && Enabled(gates, maxActive, s, e) && HappensAt(s, c, e, t)
    requires ChainsCover(gates, dur, s, c) && Accounted(gates, maxActive, dur, s, c)
    ensures ChainsCover(gates, dur, Apply(execute, s, e), Tick(maxActive, dur, s, c, e, t))
    ensures Accounted(gates, maxActive, dur, Apply(execute, s, e), Tick(maxActive, dur, s, c, e, t))
  {
    if e.Start? {
      StartKeepsChains(gates, maxActive, execute, dur, s, c, e.gate);
      StartKeepsAccount(gates, maxActive, execute, dur, s, c, e.gate);
    } else {
      var waited := Tick(maxActive, dur, s, c, e, t);
      WaitKeepsChains(gates, maxActive, dur, s, c, e.gate, t);
      WaitKeepsAccount(gates, maxActive, dur, s, c, e.gate, t);
      SettleKeepsChains(gates, maxActive, execute, dur, s, waited, e.gate);
      SettleKeepsAccount(gates, maxActive, execute, dur, s, waited, e.gate);
    }
  }

  lemma InitiallyCovered(gates: seq<Gate>, maxActive: int, dur: Durations)
    ensures ChainsCover(gates, dur, Initial(gates), Timing(0.0, map[], 0.0))
    ensures Accounted(gates, maxActive, dur, Initial(gates), Timing(0.0, map[], 0.0))
  {
    forall g | g in gates ensures ChainTo(gates, dur, g, 0.0 + dur(g)) { ChainOfOne(gates, dur, g); }
    assert IsChain(gates, []) && Work([], dur) == 0.0;
    NoneBegun(gates, Initial(gates).states, dur);
  }

  lemma {:induction false} TimedRunKeeps(gates: seq<Gate>, maxActive: int, execute: Executor, dur: Durations,
                                         trace: seq<Event>, times: seq<real>)
    requires DistinctIds(gates) && maxActive >= 1 && AllPass(gates, execute)
    requires forall h :: h in gates ==> dur(h) >= 0.0
    requires TimedRun(gates, maxActive, execute, dur, trace, times)
    ensures ChainsCover(gates, dur, StateAfter(gates, execute, trace),
        TimingAfter(gates, maxActive, execute, dur, trace, times))
    ensures Accounted(gates, maxActive, dur, StateAfter(gates, execute, trace),
        TimingAfter(gates, maxActive, execute, dur, trace, times))
  {
    TimedRunIsLegal(gates, maxActive, execute, dur, trace, times);
    if trace == [] {
      InitiallyCovered(gates, maxActive, dur);
    } else {
      var n := |trace| - 1;
      TimedRunKeeps(gates, maxActive, execute, dur, trace[..n], times[..n]);
      NothingFails(gates, maxActive, execute, trace[..n]);
      NothingFails(gates, maxActive, execute, trace);
      EventMovesItsGate(gates, maxActive, execute, trace);
      TimedStepKeeps(gates, maxActive, execute, dur, StateAfter(gates, execute, trace[..n]),
                     TimingAfter(gates, maxActive, execute, dur, trace[..n], times[..n]), trace[n], times[n]);
    }
  }

  /** m*T <= W + (m-1)*C for the work C along one dependency chain. */
  ghost predicate WithinBound(gates: seq<Gate>, maxActive: int, dur: Durations, chain: seq<Gate>, finished: real) {
    Bounded(maxActive as real, finished, Work(gates, dur), Work(chain, dur))
  }

  predicate Bounded(m: real, finished: real, work: real, chain: real) {
    m * finished <= work + (m - 1.0) * chain
  }

  /** The bound: a complete run in which every gate passes finishes within it. */
  lemma GreedyBound(gates: seq<Gate>, maxActive: int, execute: Executor, dur: Durations,
                    trace: seq<Event>, times: seq<real>)
    requires DistinctIds(gates) && maxActive >= 1 && AllPass(gates, execute)
    requires forall h :: h in gates ==> dur(h) >= 0.0
    requires TimedRun(gates, maxActive, execute, dur, trace, times)
    requires AllSettled(gates, StateAfter(gates, execute, trace))
    ensures exists chain :: IsChain(gates, chain)
              && WithinBound(gates, maxActive, dur, chain,
                 TimingAfter(gates, maxActive, execute, dur, trace, times).clock)
  {
    var s, c := StateAfter(gates, execute, trace), TimingAfter(gates, maxActive, execute, dur, trace, times);
    TimedRunIsLegal(gates, maxActive, execute, dur, trace, times);
    TimedRunKeeps(gates, maxActive, execute, dur, trace, times);
    RunKeepsInv(gates, maxActive, execute, trace);
    AllSettledRunsNothing(gates, maxActive, execute, s);
    FinishedAccount(gates, maxActive, dur, s, c);
  }

  /** Once all gates have settled, all work is done. */
  lemma SettledBound(gates: seq<Gate>, maxActive: int, dur: Durations, s: State, c: Timing, chain: seq<Gate>)
    requires maxActive >= 1 && s.running == [] && AllSettled(gates, s) && Accounted(gates, maxActive, dur, s, c)
    requires c.slack <= Work(chain, dur)
    ensures WithinBound(gates, maxActive, dur, chain, c.clock)
  {
    AllBegun(gates, s.states, dur);
    var owing := Owing(s.running, c.finish, c.clock);
    assert owing == 0.0;
    hide Work, Owing, AllSettled, Begun, Bounded;
    BoundArithmetic(maxActive as real, c.clock, Begun(gates, s.states, dur), owing, c.slack, Work(chain, dur));
  }

  lemma FinishedAccount(gates: seq<Gate>, maxActive: int, dur: Durations, s: State, c: Timing)
    requires maxActive >= 1 && s.running == [] && AllSettled(gates, s)
    requires Accounted(gates, maxActive, dur, s, c) && SlackCovered(gates, dur, c.slack)
    ensures exists chain :: IsChain(gates, chain) && WithinBound(gates, maxActive, dur, chain, c.clock)
  {
    hide Accounted, AllSettled, Work, IsChain, WithinBound;
    var chain :| IsChain(gates, chain) && c.slack <= Work(chain, dur);
    SettledBound(gates, maxActive, dur, s, c, chain);
  }

  lemma BoundArithmetic(m: real, clock: real, begun: real, owing: real, slack: real, chain: real)
    requires m >= 1.0 && slack <= chain && m * clock <= begun - owing + (m - 1.0) * slack && owing == 0.0
    ensures Bounded(m, clock, begun, chain)
  {
    assert (m - 1.0) * (chain - slack) >= 0.0;
  }

  /** Timed runs never get stuck: an unfinished one has a next call and its instant. */
  lemma TimedProgress(gates: seq<Gate>, maxActive: int, execute: Executor, dur: Durations,
                      trace: seq<Event>, times: seq<real>)
    requires ValidGraph(gates) && maxActive >= 1
    requires TimedRun(gates, maxActive, execute, dur, trace, times)
    requires !AllSettled(gates, StateAfter(gates, execute, trace))
    ensures exists e, t :: TimedRun(gates, maxActive, execute, dur, trace + [e], times + [t])
  {
    var s, c := StateAfter(gates, execute, trace), TimingAfter(gates, maxActive, execute, dur, trace, times);
    TimedRunIsLegal(gates, maxActive, execute, dur, trace, times);
    RunKeepsInv(gates, maxActive, execute, trace);
    StartedHaveFinish(gates, maxActive, execute, dur, trace, times);
    Progress(gates, maxActive, execute, trace);
    var e :| Enabled(gates, maxActive, s, e);
    var t := c.clock;
    if e.Settle? {
      var g := Earliest(s.running, c.finish);
      e, t := Settle(g), c.finish[g.id];
    }
    assert (trace + [e])[..|trace|] == trace && (times + [t])[..|trace|] == times;
    assert TimedRun(gates, maxActive, execute, dur, trace + [e], times + [t]);
  }

  lemma Earliest(running: seq<Gate>, finish: map<string, real>) returns (g: Gate)
    requires running != [] && Scheduled(running, finish)
    ensures g in running && forall r :: r in running ==> finish[g.id] <= finish[r.id]
  {
    g := running[0];
    if |running| > 1 {
      var h := Earliest(running[1..], finish);
      if finish[h.id] < finish[g.id] { g := h; }
    }
  }

  lemma StartedHaveFinish(gates: seq<Gate>, maxActive: int, execute: Executor, dur: Durations,
                          trace: seq<Event>, times: seq<real>)
    requires TimedRun(gates, maxActive, execute, dur, trace, times)
    ensures Scheduled(StateAfter(gates, execute, trace).running,
        TimingAfter(gates, maxActive, execute, dur, trace, times).finish)
  {
    if trace != [] {
      var n := |trace| - 1;
      var s := StateAfter(gates, execute, trace[..n]);
      StartedHaveFinish(gates, maxActive, execute, dur, trace[..n], times[..n]);
      if trace[n].Settle? {
        WithoutKeepsOnlyMembers(s.running, trace[n].gate);
      }
    }
  }

  lemma WithoutKeepsOnlyMembers(running: seq<Gate>, gate: Gate)
    ensures forall g :: g in Without(running, gate) ==> g in running
  {
  }
}
