/** The worker pool of the publication lint: asynchronous workers that share one
    counter, under every interleaving. */
module WorkerPool {
  import opened Wrappers

  // ----- how many workers

  datatype Concurrency = Workers(count: nat) | Rejected

  predicate IsDigit(c: char) {
    '0' <= c <= '9'
  }

  function DecimalValue(s: string): nat
    requires forall c :: c in s ==> IsDigit(c)
  {
    if s == "" then 0
    else
      assert s[|s| - 1] in s && IsDigit(s[|s| - 1]);
      10 * DecimalValue(s[..|s| - 1]) + (s[|s| - 1] as int - '0' as int)
  }

  /** A number written as JavaScript writes it back. */
  predicate IsCanonical(s: string) {
    s != "" && (forall c | c in s :: IsDigit(c)) && (s[0] == '0' ==> |s| == 1)
  }

  /** A positive integer that a number holds exactly. */
  predicate IsSetting(s: string) {
    IsCanonical(s) && 1 <= DecimalValue(s) <= MAX_SAFE_INTEGER
  }

  /** How a number is written. */
  function Decimal(n: nat): string {
    (if n < 10 then "" else Decimal(n / 10)) + [Digit(n % 10)]
  }

  function Digit(d: nat): (c: char)
    requires d < 10
    ensures IsDigit(c) && c as int - '0' as int == d
  {
    ('0' as int + d) as char
  }

  lemma DigitOf(c: char)
    requires IsDigit(c)
    ensures Digit(c as int - '0' as int) == c
  {
  }

  lemma ValueGrows(init: string, last: char)
    requires (forall c :: c in init ==> IsDigit(c)) && IsDigit(last)
    ensures (forall c :: c in init + [last] ==> IsDigit(c))
    ensures DecimalValue(init + [last]) == 10 * DecimalValue(init) + (last as int - '0' as int)
  {
    assert (init + [last])[..|init|] == init && (init + [last])[|init|] == last;
  }

  lemma DecimalGrows(n: nat, d: nat)
    requires n > 0 && d < 10
    ensures Decimal(10 * n + d) == Decimal(n) + [Digit(d)]
  {
    assert (10 * n + d) / 10 == n && (10 * n + d) % 10 == d;
  }

  lemma {:induction false} WrittenIsCanonical(n: nat)
    ensures IsCanonical(Decimal(n)) && DecimalValue(Decimal(n)) == n
    ensures n > 0 ==> Decimal(n)[0] != '0'
  {
    hide IsDigit, DecimalValue;
    var init, last := if n < 10 then "" else Decimal(n / 10), Digit(n % 10);
    if n < 10 {
      NoDigits();
    } else {
      WrittenIsCanonical(n / 10);
      assert (init + [last])[0] == init[0];
    }
    ValueGrows(init, last);
  }

  lemma NoDigits()
    ensures DecimalValue("") == 0
  {
  }

  lemma {:induction false} CanonicalIsWritten(s: string)
    requires IsCanonical(s)
    ensures s == Decimal(DecimalValue(s)) && (s[0] != '0' ==> DecimalValue(s) > 0)
    decreases |s|
  {
    var init, last := s[..|s| - 1], s[|s| - 1];
    assert s == init + [last] && last in s;
    DigitOf(last);
    ValueGrows(init, last);
    hide IsDigit, DecimalValue, Decimal;
    var d := last as int - '0' as int;
    if init == "" {
      NoDigits();
      OneDigit(d);
    } else {
      assert init[0] == s[0] && s[0] != '0';
      CanonicalIsWritten(init);
      DecimalGrows(DecimalValue(init), d);
    }
  }

  lemma OneDigit(d: nat)
    requires d < 10
    ensures Decimal(d) == [Digit(d)] && (Digit(d) != '0' ==> d > 0)
  {
  }

  /** A setting is accepted exactly when it is how some positive safe integer is written, and
      stands for that. */
  lemma SettingIff(s: string)
    ensures IsSetting(s) <==> exists n: nat :: 1 <= n <= MAX_SAFE_INTEGER && s == Decimal(n)
    ensures forall n: nat :: s == Decimal(n) ==> IsCanonical(s) && DecimalValue(s) == n
  {
    if IsCanonical(s) { CanonicalIsWritten(s); }
    forall n: nat | s == Decimal(n) ensures IsCanonical(s) && DecimalValue(s) == n { WrittenIsCanonical(n); }
  }

  /** `configured` is the environment variable, `available` the parallelism of the machine. */
  function PublintConcurrency(total: nat, configured: Option<string>, available: nat): (c: Concurrency)
    requires available > 0
    ensures c.Workers? ==> c.count <= total && (total > 0 ==> c.count > 0)
    ensures c.Workers? && total > 0 ==>
              var limit := if configured.Some? && IsSetting(configured.value) then DecimalValue(configured.value)
                else available;
              c.count <= limit && (c.count < limit ==> c.count == total)
    ensures c.Rejected? <==> total > 0 && configured.Some? && configured.value != "" && !IsSetting(configured.value)
  {
    if total == 0 then Workers(0)
    else if configured.Some? && configured.value != "" then
      if IsSetting(configured.value) then Workers(Min(total, DecimalValue(configured.value))) else Rejected
    else Workers(Min(total, available))
  }

  function Min(a: nat, b: nat): nat {
    if a < b then a else b
  }

  // ----- the steps

  /** At the head of its loop, awaiting the lint of one target, or returned. */
  datatype Worker = Looping | Linting(index: nat) | Returned

  datatype State = State(next: nat, workers: seq<Worker>, results: map<nat, string>)

  function Initial(concurrency: nat): State {
    State(0, seq(concurrency, _ => Looping), map[])
  }

  predicate Enabled(s: State, w: nat) {
    w < |s.workers| && !s.workers[w].Returned?
  }

  /** What one worker does next: take the counter and begin a target or return, or
      store the result it awaited. `outcomes` are what the lints will yield. */
  function Step(s: State, w: nat, outcomes: seq<string>): State
    requires Enabled(s, w)
    requires s.workers[w].Linting? ==> s.workers[w].index < |outcomes|
  {
    match s.workers[w]
    case Looping =>
      State(s.next + 1, s.workers[w := if s.next < |outcomes| then Linting(s.next) else Returned], s.results)
    case Linting(index) => State(s.next, s.workers[w := Looping], s.results[index := outcomes[index]])
    case Returned => s
  }

  /** The worker begins this target with its next step. */
  predicate Begins(s: State, w: nat, index: nat, total: nat)
    requires Enabled(s, w)
  {
    s.workers[w].Looping? && s.next == index < total
  }

  // ----- what every step keeps

  ghost predicate InFlight(s: State, index: nat) {
    exists w :: 0 <= w < |s.workers| && s.workers[w] == Linting(index)
  }

  /** Each target below the counter is in flight at one worker, or done with its own
      result; a worker returns only past the last target. */
  ghost predicate Inv(s: State, outcomes: seq<string>) {
    && (forall w :: 0 <= w < |s.workers| && s.workers[w].Linting? ==>
       s.workers[w].index < |outcomes| && s.workers[w].index < s.next)
    && (forall v, w :: 0 <= v < w < |s.workers| && s.workers[v].Linting? ==> s.workers[v] != s.workers[w])
    && (forall i :: i in s.results ==> i < |outcomes| && i < s.next && s.results[i] == outcomes[i])
    && (forall i :: i in s.results ==> !InFlight(s, i))
    && (forall i: nat :: i < s.next && i < |outcomes| ==> i in s.results || InFlight(s, i))
    && ((exists w :: 0 <= w < |s.workers| && s.workers[w] == Returned) ==> s.next >= |outcomes|)
  }

  lemma InitialInv(concurrency: nat, outcomes: seq<string>)
    ensures Inv(Initial(concurrency), outcomes)
  {
  }

  lemma FlightAfter(s: State, w: nat, worker: Worker, i: nat)
    requires w < |s.workers|
    ensures var now := s.(workers := s.workers[w := worker]);
            && (worker == Linting(i) ==> InFlight(now, i))
            && (worker != Linting(i) && s.workers[w] != Linting(i) ==> (InFlight(now, i) <==> InFlight(s, i)))
  {
    var now := s.(workers := s.workers[w := worker]);
    assert now.workers[w] == worker;
    if InFlight(s, i) && s.workers[w] != Linting(i) {
      var v :| 0 <= v < |s.workers| && s.workers[v] == Linting(i);
      assert now.workers[v] == Linting(i);
    }
    if InFlight(now, i) && worker != Linting(i) {
      var v :| 0 <= v < |now.workers| && now.workers[v] == Linting(i);
      assert s.workers[v] == Linting(i);
    }
  }

  lemma BeginInv(s: State, w: nat, outcomes: seq<string>)
    requires Inv(s, outcomes) && Enabled(s, w) && s.workers[w].Looping?
    ensures Inv(Step(s, w, outcomes), outcomes)
  {
    var now := Step(s, w, outcomes);
    forall i: nat ensures
      && (now.workers[w] == Linting(i) ==> InFlight(now, i))
      && (now.workers[w] != Linting(i) ==> (InFlight(now, i) <==> InFlight(s, i)))
    {
      FlightAfter(s, w, now.workers[w], i);
    }
    forall i | i in now.results ensures !InFlight(now, i) { assert i < s.next; }
  }

  lemma StoreInv(s: State, w: nat, outcomes: seq<string>)
    requires Inv(s, outcomes) && Enabled(s, w) && s.workers[w].Linting?
    ensures Inv(Step(s, w, outcomes), outcomes)
  {
    var now, mine := Step(s, w, outcomes), s.workers[w].index;
    forall i: nat | i != mine ensures InFlight(now, i) <==> InFlight(s, i) { FlightAfter(s, w, Looping, i); }
    forall v | 0 <= v < |now.workers| ensures now.workers[v] != Linting(mine) {
      assert v < w ==> s.workers[v] != s.workers[w];
      assert w < v ==> s.workers[w] != s.workers[v];
    }
    assert s.workers[w] == Linting(mine);
    assert InFlight(s, mine);
  }

  // ----- whole runs

  /** A run names the worker of each step. */
  ghost predicate Legal(concurrency: nat, outcomes: seq<string>, run: seq<nat>)
    decreases |run|
  {
    run == [] ||
    var before := run[..|run| - 1];
    && Legal(concurrency, outcomes, before)
    && Enabled(After(concurrency, outcomes, before), run[|run| - 1])
  }

  ghost function After(concurrency: nat, outcomes: seq<string>, run: seq<nat>): State
    decreases |run|
  {
    if run == [] then Initial(concurrency)
    else
      var s, w := After(concurrency, outcomes, run[..|run| - 1]), run[|run| - 1];
      if Enabled(s, w) && (s.workers[w].Linting? ==> s.workers[w].index < |outcomes|) then Step(s, w, outcomes) else s
  }

  lemma RunsKeepInv(concurrency: nat, outcomes: seq<string>, run: seq<nat>)
    requires Legal(concurrency, outcomes, run)
    ensures Inv(After(concurrency, outcomes, run), outcomes)
        && |After(concurrency, outcomes, run).workers| == concurrency
    decreases |run|
  {
    if run == [] {
      InitialInv(concurrency, outcomes);
    } else {
      var before, w := run[..|run| - 1], run[|run| - 1];
      RunsKeepInv(concurrency, outcomes, before);
      var s := After(concurrency, outcomes, before);
      if s.workers[w].Looping? { BeginInv(s, w, outcomes); } else { StoreInv(s, w, outcomes); }
    }
  }

  /** How often a target is begun in the course of a run. */
  ghost function Lints(concurrency: nat, outcomes: seq<string>, run: seq<nat>, index: nat): nat
    requires Legal(concurrency, outcomes, run)
    decreases |run|
  {
    if run == [] then 0
    else
      var before := run[..|run| - 1];
      Lints(concurrency, outcomes, before, index)
      + if Begins(After(concurrency, outcomes, before), run[|run| - 1], index, |outcomes|) then 1 else 0
  }

  /** A target has been begun once when the counter has passed it, and never before. */
  lemma {:induction false} LintsOfCounter(concurrency: nat, outcomes: seq<string>, run: seq<nat>, index: nat)
    requires Legal(concurrency, outcomes, run) && index < |outcomes|
    ensures Lints(concurrency, outcomes, run, index) == if index < After(concurrency, outcomes, run).next then 1 else 0
    decreases |run|
  {
    if run != [] {
      LintsOfCounter(concurrency, outcomes, run[..|run| - 1], index);
      RunsKeepInv(concurrency, outcomes, run[..|run| - 1]);
    }
  }

  ghost predicate AllReturned(s: State) {
    forall w :: 0 <= w < |s.workers| ==> s.workers[w] == Returned
  }

  /** Once every worker has returned, each target has been linted exactly once and has
      its own result; the missing-result error is out of reach. */
  lemma EveryTargetOnce(concurrency: nat, outcomes: seq<string>, run: seq<nat>)
    requires Legal(concurrency, outcomes, run) && AllReturned(After(concurrency, outcomes, run))
    requires concurrency > 0 || outcomes == []
    ensures forall i: nat :: i < |outcomes| ==>
              && Lints(concurrency, outcomes, run, i) == 1
              && i in After(concurrency, outcomes, run).results
                 && After(concurrency, outcomes, run).results[i] == outcomes[i]
  {
    var s := After(concurrency, outcomes, run);
    RunsKeepInv(concurrency, outcomes, run);
    assert concurrency > 0 ==> s.workers[0] == Returned;
    forall i: nat | i < |outcomes|
      ensures Lints(concurrency, outcomes, run, i) == 1 && i in s.results && s.results[i] == outcomes[i]
    {
      LintsOfCounter(concurrency, outcomes, run, i);
      assert i < s.next;
    }
  }

  // ----- every run ends

  ghost function Pending(worker: Worker): nat {
    match worker case Looping => 1 case Linting(_) => 2 case Returned => 0
  }

  ghost function PendingSteps(workers: seq<Worker>): nat {
    if workers == [] then 0 else Pending(workers[0]) + PendingSteps(workers[1..])
  }

  /** Two steps a target not begun, and what the workers are in the middle of. */
  ghost function StepsLeft(s: State, total: nat): nat {
    2 * (if s.next < total then total - s.next else 0) + PendingSteps(s.workers)
  }

  lemma {:induction false} PendingUpdate(workers: seq<Worker>, w: nat, worker: Worker)
    requires w < |workers|
    ensures PendingSteps(workers[w := worker]) == PendingSteps(workers) - Pending(workers[w]) + Pending(worker)
  {
    var now := workers[w := worker];
    if w == 0 {
      assert now[1..] == workers[1..];
    } else {
      assert now[1..] == workers[1..][w - 1 := worker];
      PendingUpdate(workers[1..], w - 1, worker);
    }
  }

  lemma StepUsesOne(s: State, w: nat, outcomes: seq<string>)
    requires Inv(s, outcomes) && Enabled(s, w)
    ensures StepsLeft(Step(s, w, outcomes), |outcomes|) == StepsLeft(s, |outcomes|) - 1
  {
    PendingUpdate(s.workers, w, Step(s, w, outcomes).workers[w]);
  }

  lemma {:induction false} PendingInitially(concurrency: nat)
    ensures PendingSteps(seq(concurrency, _ => Looping)) == concurrency
  {
    if concurrency > 0 {
      PendingInitially(concurrency - 1);
      assert seq(concurrency, _ => Looping)[1..] == seq(concurrency - 1, _ => Looping);
    }
  }

  lemma {:induction false} NonePending(workers: seq<Worker>)
    ensures PendingSteps(workers) == 0 <==> forall w :: 0 <= w < |workers| ==> workers[w] == Returned
  {
    if workers != [] {
      NonePending(workers[1..]);
      assert forall w :: 0 < w < |workers| ==> workers[w] == workers[1..][w - 1];
      if forall w :: 0 <= w < |workers| ==> workers[w] == Returned {
        assert forall w :: 0 <= w < |workers| - 1 ==> workers[1..][w] == workers[w + 1];
      }
    }
  }

  /** Whatever the interleaving, two steps a target and one a worker make a whole run. */
  lemma {:induction false} RunLength(concurrency: nat, outcomes: seq<string>, run: seq<nat>)
    requires Legal(concurrency, outcomes, run)
    ensures |run| + StepsLeft(After(concurrency, outcomes, run), |outcomes|) == 2 * |outcomes| + concurrency
    decreases |run|
  {
    if run == [] {
      PendingInitially(concurrency);
    } else {
      var before := run[..|run| - 1];
      RunLength(concurrency, outcomes, before);
      RunsKeepInv(concurrency, outcomes, before);
      StepUsesOne(After(concurrency, outcomes, before), run[|run| - 1], outcomes);
    }
  }

  /** A run is over exactly when it has that length. */
  lemma RunIsOver(concurrency: nat, outcomes: seq<string>, run: seq<nat>)
    requires Legal(concurrency, outcomes, run) && (concurrency > 0 || outcomes == [])
    ensures AllReturned(After(concurrency, outcomes, run)) <==> |run| == 2 * |outcomes| + concurrency
  {
    var s := After(concurrency, outcomes, run);
    RunsKeepInv(concurrency, outcomes, run);
    RunLength(concurrency, outcomes, run);
    NonePending(s.workers);
    assert concurrency > 0 && AllReturned(s) ==> s.workers[0] == Returned;
  }

  // ----- the pool

  datatype Report = Results(results: seq<string>) | MissingResult(index: nat)

  /** Run the workers to the end, in any order that completions may take. */
  method RunAll(outcomes: seq<string>, concurrency: nat) returns (report: Report, ghost run: seq<nat>)
    ensures Legal(concurrency, outcomes, run) && AllReturned(After(concurrency, outcomes, run))
    ensures concurrency > 0 || outcomes == [] ==> report == Results(outcomes)
    ensures concurrency == 0 && outcomes != [] ==> report == MissingResult(0)
  {
    hide Inv, StepsLeft, Lints;
    var s := Initial(concurrency);
    run := [];
    InitialInv(concurrency, outcomes);
    while exists w :: 0 <= w < |s.workers| && s.workers[w] != Returned
      invariant Legal(concurrency, outcomes, run) && s == After(concurrency, outcomes, run) && Inv(s, outcomes)
      decreases StepsLeft(s, |outcomes|)
    {
      var w :| 0 <= w < |s.workers| && s.workers[w] != Returned;
      if s.workers[w].Linting? { AwaitedTarget(s, w, outcomes); }
      StepUsesOne(s, w, outcomes);
      RunGrows(concurrency, outcomes, run, w);
      RunsKeepInv(concurrency, outcomes, run + [w]);
      run := run + [w];
      s := Step(s, w, outcomes);
    }
    RunsKeepInv(concurrency, outcomes, run);
    var results := [];
    if concurrency > 0 || outcomes == [] {
      EveryTargetOnce(concurrency, outcomes, run);
    } else {
      NothingRuns(outcomes, run);
    }
    for i := 0 to |outcomes|
      invariant results == outcomes[..i]
      invariant concurrency == 0 ==> i == 0
    {
      if i !in s.results { return MissingResult(i), run; }
      results := results + [s.results[i]];
    }
    return Results(results), run;
  }

  lemma AwaitedTarget(s: State, w: nat, outcomes: seq<string>)
    requires Inv(s, outcomes) && w < |s.workers| && s.workers[w].Linting?
    ensures s.workers[w].index < |outcomes|
  {
  }

  lemma RunGrows(concurrency: nat, outcomes: seq<string>, run: seq<nat>, w: nat)
    requires Legal(concurrency, outcomes, run) && Enabled(After(concurrency, outcomes, run), w)
    requires Inv(After(concurrency, outcomes, run), outcomes)
    ensures Legal(concurrency, outcomes, run + [w])
    ensures After(concurrency, outcomes, run + [w]) == Step(After(concurrency, outcomes, run), w, outcomes)
  {
    assert (run + [w])[..|run|] == run;
  }

  lemma NothingRuns(outcomes: seq<string>, run: seq<nat>)
    requires Legal(0, outcomes, run)
    ensures After(0, outcomes, run).results == map[]
  {
    if run != [] {
      NothingRuns(outcomes, run[..|run| - 1]);
      RunsKeepInv(0, outcomes, run[..|run| - 1]);
    }
  }
}
