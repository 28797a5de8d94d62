/** When kt_pipeline ends: with two steps or more every run is bounded, with one step no run ends. */
module PipelineEnds {
  import opened Options
  import opened Pipeline

  // ----- what is left to do

  /** The returns worker x has before it, if step 0 takes no further item. */
  function Left(n: nat, x: Worker): nat
    requires x.phase == Exited || x.step < n
  {
    if x.phase == Exited then 0 else if x.step == 0 then 1 else n - x.step + 1
  }

  /** What a worker may do between two returns, and k sections for every return. */
  function Cost(n: nat, k: nat, x: Worker): nat
    requires x.phase == Exited || x.step < n
  {
    k * Left(n, x) + if x.phase == Testing then 2 else if x.phase == Exited then 0 else 1
  }

  ghost predicate StepsOk(n: nat, ws: seq<Worker>) {
    forall i :: 0 <= i < |ws| ==> ws[i].phase == Exited || ws[i].step < n
  }

  function CostAll(n: nat, k: nat, ws: seq<Worker>): nat
    requires forall i :: 0 <= i < |ws| ==> ws[i].phase == Exited || ws[i].step < n
  {
    if ws == [] then 0 else Cost(n, k, ws[0]) + CostAll(n, k, ws[1..])
  }

  lemma {:induction false} CostStore(n: nat, k: nat, ws: seq<Worker>, w: nat, y: Worker)
    requires StepsOk(n, ws) && w < |ws| && (y.phase == Exited || y.step < n)
    ensures StepsOk(n, ws[w := y]) && CostAll(n, k, ws[w := y]) == CostAll(n, k, ws) - Cost(n, k, ws[w]) + Cost(n, k, y)
    decreases |ws|
  {
    hide Cost;
    if w == 0 {
      assert ws[w := y][1..] == ws[1..];
    } else {
      assert ws[w := y][1..] == ws[1..][w - 1 := y];
      CostStore(n, k, ws[1..], w - 1, y);
    }
  }

  lemma {:induction false} CostWake(n: nat, k: nat, ws: seq<Worker>)
    requires StepsOk(n, ws)
    ensures StepsOk(n, WakeAll(ws)) && CostAll(n, k, WakeAll(ws)) <= CostAll(n, k, ws) + |ws|
    decreases |ws|
  {
    if ws != [] {
      assert WakeAll(ws)[1..] == WakeAll(ws[1..]);
      CostWake(n, k, ws[1..]);
    }
  }

  /** Sections that are paid for by one return: its own, two of its worker, and one of every worker it wakes. */
  function PerReturn(s: State): nat {
    |s.workers| + 2
  }

  /** The sections left, if step 0 takes no further item and nobody wakes up without cause. */
  function Budget(s: State, n: nat): nat
    requires forall i :: 0 <= i < |s.workers| ==> s.workers[i].phase == Exited || s.workers[i].step < n
  {
    CostAll(n, PerReturn(s), s.workers)
  }

  /** How many items step 0 has handed on. */
  function Items(s: State): nat
    requires |s.passed| > 0
  {
    |s.passed[0]|
  }

  lemma OrderedSteps(s: State, n: nat)
    requires Ordered(s, n)
    ensures StepsOk(n, s.workers) && |s.passed| == n > 0
  {
  }

  lemma StepIs(n: nat, step: nat, alive: bool)
    requires step < n
    ensures StepAfter(n, step, alive) == if step == n - 1 then 0 else if alive then step + 1 else n
  {
    if step == n - 1 {
      assert n % n == 0;
    } else {
      assert (step + 1) % n == step + 1;
    }
  }

  /** Every return but one with a new item takes one off. */
  lemma LeftAfter(n: nat, x: Worker, y: Worker, alive: bool)
    requires n >= 2 && x.phase == Working && x.step < n
    requires y.step == StepAfter(n, x.step, alive) && y.phase == if y.step < n then Testing else Exited
    ensures Left(n, y) + 1 <= Left(n, x) + if x.step == 0 && alive then n else 0
  {
    StepIs(n, x.step, alive);
  }

  lemma ReturnCost(n: nat, k: nat, x: Worker, y: Worker, alive: bool)
    requires n >= 2 && x.phase == Working && x.step < n
    requires y.step == StepAfter(n, x.step, alive) && y.phase == if y.step < n then Testing else Exited
    ensures Cost(n, k, y) + k <= Cost(n, k, x) + 1 + if x.step == 0 && alive then k * n else 0
  {
    LeftAfter(n, x, y, alive);
    hide Left, StepAfter;
    Scaled(k, Left(n, y), Left(n, x), if x.step == 0 && alive then n else 0);
  }

  lemma Scaled(k: nat, a: nat, b: nat, c: nat)
    requires a + 1 <= b + c
    ensures k * a + k <= k * b + k * c
  {
    var d := b + c - (a + 1);
    assert k * (b + c) == k * (a + 1 + d);
    assert k * (a + 1 + d) == k * a + k + k * d;
    assert k * (b + c) == k * b + k * c;
  }

  /** Whether a section hands an item of step 0 on. */
  predicate Feeds(s: State, e: Event)
    requires e.w < |s.workers|
  {
    e.Return? && s.workers[e.w].step == 0 && e.alive
  }

  lemma ItemsAfter(s: State, n: nat, e: Event)
    requires n >= 2 && Enabled(s, e) && |s.passed| == n
    ensures |Next(s, e).passed| == n && Items(Next(s, e)) == Items(s) + if Feeds(s, e) then 1 else 0
    ensures |Next(s, e).workers| == |s.workers|
  {
    if e.Return? { StepIs(n, s.workers[e.w].step, e.alive); }
    hide Blocked;
  }

  lemma ReturnSpends(s: State, n: nat, k: nat, w: nat, alive: bool)
    requires n >= 2 && Enabled(s, Return(w, alive)) && |s.entered| == n && StepsOk(n, s.workers)
    ensures var ws := Finish(s, w, alive).workers;
      StepsOk(n, ws) && CostAll(n, k, ws) + k <= CostAll(n, k, s.workers) + 1 + |s.workers| + if Feeds(s, Return(w, alive)) then k * n else 0
  {
    var x, t := s.workers[w], StepAfter(n, s.workers[w].step, alive);
    var y := Worker(if t == 0 then s.next else x.index, t, if t < n then Testing else Exited);
    hide Cost, CostAll, StepAfter;
    StepIs(n, x.step, alive);
    CostStore(n, k, s.workers, w, y);
    CostWake(n, k, s.workers[w := y]);
    ReturnCost(n, k, x, y, alive);
    assert Finish(s, w, alive).workers == WakeAll(s.workers[w := y]);
  }

  /** A test, and an idle awakening. */
  lemma OtherSpends(s: State, n: nat, k: nat, e: Event)
    requires Enabled(s, e) && !e.Return? && |s.entered| == n && StepsOk(n, s.workers)
    ensures var ws := Next(s, e).workers;
      StepsOk(n, ws) && CostAll(n, k, ws) + 1 <= CostAll(n, k, s.workers) + if e.Spurious? then 2 else 0
  {
    hide CostAll, Blocked;
    CostStore(n, k, s.workers, e.w, Next(s, e).workers[e.w]);
  }

  /** Every section but an idle awakening spends from the budget; an item that step 0 hands on adds to it. */
  lemma NextSpends(s: State, n: nat, e: Event)
    requires Ordered(s, n) && n >= 2 && Enabled(s, e)
    ensures Ordered(Next(s, e), n) && StepsOk(n, s.workers) && StepsOk(n, Next(s, e).workers) && |s.passed| == |Next(s, e).passed| == n
    ensures PerReturn(Next(s, e)) == PerReturn(s) && Items(Next(s, e)) == Items(s) + if Feeds(s, e) then 1 else 0
    ensures Budget(Next(s, e), n) + 1
      <= Budget(s, n) + (if e.Spurious? then 2 else 0) + if Feeds(s, e) then PerReturn(s) * n else 0
  {
    NextOrdered(s, n, e);
    OrderedSteps(s, n);
    OrderedSteps(Next(s, e), n);
    hide Ordered, CostAll, Finish, Blocked;
    ItemsAfter(s, n, e);
    if e.Return? {
      ReturnSpends(s, n, PerReturn(s), e.w, e.alive);
    } else {
      OtherSpends(s, n, PerReturn(s), e);
    }
  }

  // ----- whole runs

  function Awakenings(es: seq<Event>): nat {
    if es == [] then 0 else (if es[0].Spurious? then 1 else 0) + Awakenings(es[1..])
  }

  /** What n steps of each of i items pay for. */
  function Paid(perReturn: nat, n: nat, i: int): int {
    perReturn * n * i
  }

  lemma PaidOne(perReturn: nat, n: nat, i: int)
    ensures Paid(perReturn, n, i + 1) == Paid(perReturn, n, i) + perReturn * n
    ensures Paid(perReturn, n, 0) == 0
  {
  }

  lemma {:induction false} RunSpends(s: State, n: nat, es: seq<Event>)
    requires Ordered(s, n) && n >= 2 && RunFrom(s, es).Some?
    ensures var s' := RunFrom(s, es).value;
      && StepsOk(n, s.workers) && StepsOk(n, s'.workers) && |s.passed| == |s'.passed| == n && Items(s) <= Items(s')
      && |es| + Budget(s', n) <= Budget(s, n) + 2 * Awakenings(es) + Paid(PerReturn(s), n, Items(s') - Items(s))
    decreases |es|
  {
    hide Budget, Ordered, Next, Enabled, PerReturn, Items, Feeds, Paid;
    OrderedSteps(s, n);
    PaidOne(PerReturn(s), n, 0);
    if es != [] {
      NextSpends(s, n, es[0]);
      RunSpends(Next(s, es[0]), n, es[1..]);
      PaidOne(PerReturn(s), n, Items(RunFrom(s, es).value) - Items(Next(s, es[0])));
    }
  }

  lemma {:induction false} StartCost(n: nat, k: nat, ws: seq<Worker>)
    requires n >= 1 && forall i :: 0 <= i < |ws| ==> ws[i].step == 0 && ws[i].phase == Testing
    ensures CostAll(n, k, ws) == |ws| * (k + 2)
  {
    if ws != [] {
      StartCost(n, k, ws[1..]);
      assert |ws| * (k + 2) == (k + 2) + (|ws| - 1) * (k + 2);
    }
  }

  /** In every interleaving of two steps or more: when step 0 has handed on so many items, and so many sleepers
      have woken up without cause, no more than that many sections have been run. */
  lemma RunsEnd(nWorkers: nat, nSteps: nat, es: seq<Event>)
    requires nWorkers >= 1 && nSteps >= 2 && RunFrom(Init(nWorkers, nSteps), es).Some?
    ensures var s := RunFrom(Init(nWorkers, nSteps), es).value;
      |s.passed| == nSteps && |es| <= nWorkers * (nWorkers + 4) + 2 * Awakenings(es) + (nWorkers + 2) * nSteps * |s.passed[0]|
  {
    InitOrdered(nWorkers, nSteps);
    var s := Init(nWorkers, nSteps);
    StartCost(nSteps, nWorkers + 2, s.workers);
    RunSpends(s, nSteps, es);
    hide Ordered, RunFrom, CostAll;
  }

  ghost predicate Done(s: State) {
    forall w :: 0 <= w < |s.workers| ==> s.workers[w].phase == Exited
  }

  /** The state of a run from the start. */
  ghost predicate Reached(nWorkers: nat, nSteps: nat, es: seq<Event>, s: State) {
    RunFrom(Init(nWorkers, nSteps), es) == Some(s)
  }

  /** Of the states reached, those where no section is due but idle awakenings are those where all workers have
      exited. */
  lemma StuckIsDone(nWorkers: nat, nSteps: nat, es: seq<Event>, s: State)
    requires nWorkers >= 1 && nSteps >= 1 && Reached(nWorkers, nSteps, es, s)
    ensures (forall e :: Enabled(s, e) ==> e.Spurious?) <==> Done(s)
  {
    InitOrdered(nWorkers, nSteps);
    RunOrdered(Init(nWorkers, nSteps), nSteps, es);
    if !Done(s) {
      var w := FirstExists(s, |s.workers|);
      FirstCanMove(s, nSteps, w);
      if s.workers[w].phase == Working { assert Enabled(s, Return(w, false)); }
    }
  }

  /** From any state, with two steps or more: sections after which all workers have exited. */
  lemma CanFinish(s: State, n: nat) returns (es: seq<Event>)
    requires Ordered(s, n) && n >= 2
    ensures RunFrom(s, es).Some? && Done(RunFrom(s, es).value)
    decreases (OrderedSteps(s, n); Budget(s, n))
  {
    if Done(s) {
      es := [];
    } else {
      var w := FirstExists(s, |s.workers|);
      FirstCanMove(s, n, w);
      var e := if s.workers[w].phase == Testing then Test(w) else Return(w, false);
      NextSpends(s, n, e);
      var rest := CanFinish(Next(s, e), n);
      es := [e] + rest;
      assert es[1..] == rest;
    }
  }

  ghost predicate CanEnd(s: State) {
    exists es :: RunFrom(s, es).Some? && Done(RunFrom(s, es).value)
  }

  lemma SingleStepCannot(nWorkers: nat, es: seq<Event>)
    requires nWorkers >= 1 && RunFrom(Init(nWorkers, 1), es).Some?
    ensures var s := RunFrom(Init(nWorkers, 1), es).value;
      !Done(s) && forall w :: 0 <= w < |s.workers| ==> s.workers[w].phase != Exited
  {
    var s0 := Init(nWorkers, 1);
    InitOrdered(nWorkers, 1);
    RunOrdered(s0, 1, es);
    SingleStepNeverEnds(s0, es);
    assert RunFrom(s0, es).value.workers[0].phase != Exited;
  }

  /** The pipeline can end, some worker can, and it can end from wherever it has got to, each exactly when it has two
      steps or more. */
  lemma EndsExactly(nWorkers: nat, nSteps: nat)
    requires nWorkers >= 1 && nSteps >= 1
    ensures CanEnd(Init(nWorkers, nSteps)) <==> nSteps >= 2
    ensures (exists es, s, w :: Reached(nWorkers, nSteps, es, s) && 0 <= w < |s.workers| && s.workers[w].phase == Exited) <==> nSteps >= 2
    ensures (forall es, s :: Reached(nWorkers, nSteps, es, s) ==> CanEnd(s)) <==> nSteps >= 2
  {
    var s0 := Init(nWorkers, nSteps);
    InitOrdered(nWorkers, nSteps);
    assert Reached(nWorkers, nSteps, [], s0);
    if nSteps == 1 {
      forall es | RunFrom(s0, es).Some?
        ensures var s := RunFrom(s0, es).value; !Done(s) && forall w :: 0 <= w < |s.workers| ==> s.workers[w].phase != Exited
      {
        SingleStepCannot(nWorkers, es);
      }
    } else {
      forall es, s | Reached(nWorkers, nSteps, es, s)
        ensures CanEnd(s)
      {
        RunOrdered(s0, nSteps, es);
        var more := CanFinish(s, nSteps);
      }
      var es := CanFinish(s0, nSteps);
      var s := RunFrom(s0, es).value;
      RunOrdered(s0, nSteps, es);
      assert Reached(nWorkers, nSteps, es, s) && s.workers[0].phase == Exited;
    }
  }
}
