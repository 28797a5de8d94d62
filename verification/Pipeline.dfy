/** kt_pipeline: workers carry one item each through the steps. Interleavings are sequences of atomic sections. */
module Pipeline {
  // A mutex guards the worker table; a worker sleeps while another one with a smaller index has not got past
  // its step. Each atomic section below is what one worker does between taking and releasing the mutex, or
  // the call of the step function between two of them.

  import opened Options

  /** Testing: about to take the mutex and test. Asleep: in the condition wait. Working: inside the
      user function. Exited: step == n_steps, the thread is done. */
  datatype Phase = Testing | Asleep | Working | Exited

  datatype Worker = Worker(index: nat, step: nat, phase: Phase)

  /** entered[t] and passed[t] record, in order, which items entered step t and which left it with data
      for the next step. */
  datatype State = State(workers: seq<Worker>, next: nat, entered: seq<seq<nat>>, passed: seq<seq<nat>>)

  // ----- the atomic sections

  function Init(nWorkers: nat, nSteps: nat): State {
    State(seq(nWorkers, i requires 0 <= i < nWorkers => Worker(i, 0, Testing)), nWorkers, seq(nSteps, _ => []), seq(nSteps, _ => []))
  }

  /** The test of worker w against worker i. */
  predicate Blocks(workers: seq<Worker>, i: nat, w: nat)
    requires i < |workers| && w < |workers|
  {
    i != w && workers[i].step <= workers[w].step && workers[i].index < workers[w].index
  }

  predicate Blocked(workers: seq<Worker>, w: nat)
    requires w < |workers|
  {
    exists i :: 0 <= i < |workers| && Blocks(workers, i, w)
  }

  /** Where a worker goes after its function returned; alive says the result was not NULL. */
  function StepAfter(nSteps: nat, step: nat, alive: bool): nat
    requires step < nSteps
  {
    if step == nSteps - 1 || alive then (step + 1) % nSteps else nSteps
  }

  function Enter(s: State, w: nat): State
    requires w < |s.workers| && s.workers[w].step < |s.entered|
  {
    var x := s.workers[w];
    s.(workers := s.workers[w := x.(phase := Working)], entered := s.entered[x.step := s.entered[x.step] + [x.index]])
  }

  function Sleep(s: State, w: nat): State
    requires w < |s.workers|
  {
    s.(workers := s.workers[w := s.workers[w].(phase := Asleep)])
  }

  function Wake(x: Worker): Worker {
    if x.phase == Asleep then x.(phase := Testing) else x
  }

  function WakeAll(workers: seq<Worker>): (r: seq<Worker>)
    ensures |r| == |workers|
    ensures forall i :: 0 <= i < |r| ==> r[i] == Wake(workers[i])
  {
    seq(|workers|, i requires 0 <= i < |workers| => Wake(workers[i]))
  }

  /** The closing section: next step, a fresh index when a new item starts, and the broadcast. */
  function Finish(s: State, w: nat, alive: bool): State
    requires w < |s.workers| && s.workers[w].step < |s.entered| == |s.passed|
  {
    var n := |s.entered|;
    var x := s.workers[w];
    var t := StepAfter(n, x.step, alive);
    var y := Worker(if t == 0 then s.next else x.index, t, if t < n then Testing else Exited);
    State(WakeAll(s.workers[w := y]), if t == 0 then s.next + 1 else s.next, s.entered,
          if t == x.step + 1 < n then s.passed[x.step := s.passed[x.step] + [x.index]] else s.passed)
  }

  datatype Event = Test(w: nat) | Return(w: nat, alive: bool) | Spurious(w: nat)

  predicate Enabled(s: State, e: Event) {
    && e.w < |s.workers|
    && |s.entered| == |s.passed|
    && s.workers[e.w].step < |s.entered|
    && match e {
      case Test(w) => s.workers[w].phase == Testing
      case Return(w, _) => s.workers[w].phase == Working
      case Spurious(w) => s.workers[w].phase == Asleep
    }
  }

  function Next(s: State, e: Event): State
    requires Enabled(s, e)
  {
    match e {
      case Test(w) => if Blocked(s.workers, w) then Sleep(s, w) else Enter(s, w)
      case Return(w, alive) => Finish(s, w, alive)
      case Spurious(w) => s.(workers := s.workers[w := s.workers[w].(phase := Testing)])
    }
  }

  /** The state after a run of events, if each of them was enabled when its turn came. */
  function RunFrom(s: State, es: seq<Event>): Option<State>
    decreases |es|
  {
    if es == [] then Some(s)
    else if Enabled(s, es[0]) then RunFrom(Next(s, es[0]), es[1..])
    else None
  }

  // ----- the invariant

  ghost predicate Increasing(q: seq<nat>) {
    forall i, j :: 0 <= i < j < |q| ==> q[i] < q[j]
  }

  ghost predicate Above(q: seq<nat>, x: nat) {
    forall y :: y in q ==> y < x
  }

  /** Worker w still has step t ahead of it for its present item. */
  predicate Awaits(x: Worker, t: nat) {
    x.step < t || (x.step == t && x.phase != Working && x.phase != Exited)
  }

  ghost predicate WorkersOk(s: State, n: nat) {
    && |s.workers| >= 1 && n >= 1
    && (forall i :: 0 <= i < |s.workers| ==> s.workers[i].index < s.next && (if s.workers[i].phase == Exited then s.workers[i].step == n else s.workers[i].step < n))
    && (forall i, j :: 0 <= i < j < |s.workers| ==> s.workers[i].index != s.workers[j].index)
  }

  ghost predicate PhasesOk(s: State) {
    && (forall w :: 0 <= w < |s.workers| && s.workers[w].phase == Working ==> !Blocked(s.workers, w))
    && (forall w :: 0 <= w < |s.workers| && s.workers[w].phase == Asleep ==> Blocked(s.workers, w))
  }

  /** Items enter step t in increasing order, and whoever still has to enter it comes later. */
  ghost predicate EntryOk(s: State, t: nat)
    requires t < |s.entered|
  {
    && Increasing(s.entered[t])
    && Above(s.entered[t], s.next)
    && forall w :: 0 <= w < |s.workers| && Awaits(s.workers[w], t) ==> Above(s.entered[t], s.workers[w].index)
  }

  ghost predicate Inv(s: State, n: nat) {
    && |s.entered| == n && |s.passed| == n
    && WorkersOk(s, n)
    && PhasesOk(s)
    && forall t :: 0 <= t < n ==> EntryOk(s, t)
  }

  lemma InitInv(nWorkers: nat, nSteps: nat)
    requires nWorkers >= 1 && nSteps >= 1
    ensures Inv(Init(nWorkers, nSteps), nSteps)
  {
  }

  lemma Appended(q: seq<nat>, x: nat)
    requires Increasing(q) && Above(q, x)
    ensures Increasing(q + [x]) && forall y :: y > x ==> Above(q + [x], y)
  {
    assert forall i :: 0 <= i < |q| ==> q[i] in q;
  }

  lemma NotBlockedByLater(s: State, n: nat, w: nat, v: nat)
    requires WorkersOk(s, n) && w < |s.workers| && v < |s.workers| && v != w
    requires !Blocked(s.workers, w) && s.workers[v].step <= s.workers[w].step
    ensures s.workers[w].index < s.workers[v].index
  {
    assert !Blocks(s.workers, v, w);
  }

  lemma EnterInv(s: State, n: nat, w: nat)
    requires Inv(s, n) && w < |s.workers| && s.workers[w].phase == Testing && !Blocked(s.workers, w)
    ensures Inv(Enter(s, w), n)
  {
    var s', x := Enter(s, w), s.workers[w];
    SameBlocking(s.workers, s'.workers);
    forall t | 0 <= t < n
      ensures EntryOk(s', t)
    {
      assert EntryOk(s, t);
      if t == x.step {
        Appended(s.entered[t], x.index);
        forall v | 0 <= v < |s'.workers| && Awaits(s'.workers[v], t)
          ensures Above(s'.entered[t], s'.workers[v].index)
        {
          NotBlockedByLater(s, n, w, v);
        }
      }
    }
  }

  /** Changing phases alone changes no blocking. */
  lemma SameBlocking(a: seq<Worker>, b: seq<Worker>)
    requires |a| == |b| && forall i :: 0 <= i < |a| ==> a[i].index == b[i].index && a[i].step == b[i].step
    ensures forall w :: 0 <= w < |a| ==> (Blocked(a, w) <==> Blocked(b, w))
  {
    forall w | 0 <= w < |a|
      ensures Blocked(a, w) <==> Blocked(b, w)
    {
      if Blocked(a, w) {
        var i :| 0 <= i < |a| && Blocks(a, i, w);
        assert Blocks(b, i, w);
      }
      if Blocked(b, w) {
        var i :| 0 <= i < |b| && Blocks(b, i, w);
        assert Blocks(a, i, w);
      }
    }
  }

  lemma PhaseInv(s: State, n: nat, w: nat, p: Phase)
    requires Inv(s, n) && w < |s.workers| && s.workers[w].phase in {Testing, Asleep}
    requires p == Testing || (p == Asleep && Blocked(s.workers, w))
    ensures Inv(s.(workers := s.workers[w := s.workers[w].(phase := p)]), n)
  {
    var s' := s.(workers := s.workers[w := s.workers[w].(phase := p)]);
    SameBlocking(s.workers, s'.workers);
    forall t | 0 <= t < n
      ensures EntryOk(s', t)
    {
      assert EntryOk(s, t);
    }
  }

  lemma FinishInv(s: State, n: nat, w: nat, alive: bool)
    requires Inv(s, n) && w < |s.workers| && s.workers[w].phase == Working
    ensures Inv(Finish(s, w, alive), n)
  {
    var s' := Finish(s, w, alive);
    FinishWorkers(s, n, w, alive);
    FinishPhases(s, n, w, alive);
    forall t | 0 <= t < n
      ensures EntryOk(s', t)
    {
      FinishEntry(s, n, w, alive, t);
    }
  }

  lemma FinishWorkers(s: State, n: nat, w: nat, alive: bool)
    requires Inv(s, n) && w < |s.workers| && s.workers[w].phase == Working
    ensures WorkersOk(Finish(s, w, alive), n)
  {
  }

  /** A worker that moves on to a later step, or to a fresh item, blocks nobody it did not block. */
  lemma FinishPhases(s: State, n: nat, w: nat, alive: bool)
    requires Inv(s, n) && w < |s.workers| && s.workers[w].phase == Working
    ensures PhasesOk(Finish(s, w, alive))
  {
    var s' := Finish(s, w, alive);
    forall v | 0 <= v < |s'.workers| && s'.workers[v].phase == Working
      ensures !Blocked(s'.workers, v)
    {
      assert !Blocked(s.workers, v);
      forall i | 0 <= i < |s'.workers|
        ensures !Blocks(s'.workers, i, v)
      {
        assert !Blocks(s.workers, i, v);
      }
    }
  }

  lemma FinishEntry(s: State, n: nat, w: nat, alive: bool, t: nat)
    requires Inv(s, n) && w < |s.workers| && s.workers[w].phase == Working && t < n
    ensures EntryOk(Finish(s, w, alive), t)
  {
    var s' := Finish(s, w, alive);
    assert EntryOk(s, t);
    forall v | 0 <= v < |s'.workers| && Awaits(s'.workers[v], t)
      ensures Above(s'.entered[t], s'.workers[v].index)
    {
      if v != w {
        assert Awaits(s.workers[v], t);
      }
    }
  }

  // ----- order between steps

  ghost predicate WaitsAt(s: State, x: nat, t: nat) {
    exists w :: 0 <= w < |s.workers| && s.workers[w] in {Worker(x, t, Testing), Worker(x, t, Asleep)}
  }

  /** Items leave step t in the order they entered it, and what left step t with data is either inside
      step t + 1, past it, or waiting for it. */
  ghost predicate OrderOk(s: State, n: nat, t: nat)
    requires t < n == |s.entered| == |s.passed|
  {
    && Increasing(s.passed[t])
    && (forall x :: x in s.passed[t] ==> x in s.entered[t])
    && (forall w :: 0 <= w < |s.workers| && s.workers[w].step == t && s.workers[w].phase == Working ==>
          s.entered[t] != [] && s.entered[t][|s.entered[t]| - 1] == s.workers[w].index)
    && (forall w :: 0 <= w < |s.workers| && s.workers[w].step <= t ==> s.workers[w].index !in s.passed[t])
    && (t + 1 < n ==> forall x: nat :: x in s.passed[t] <==> x in s.entered[t + 1] || WaitsAt(s, x, t + 1))
    && (t == 0 ==> forall x: nat :: x < s.next <==> x in s.entered[0] || WaitsAt(s, x, 0))
  }

  ghost predicate Ordered(s: State, n: nat) {
    Inv(s, n) && forall t :: 0 <= t < n ==> OrderOk(s, n, t)
  }

  lemma InitOrdered(nWorkers: nat, nSteps: nat)
    requires nWorkers >= 1 && nSteps >= 1
    ensures Ordered(Init(nWorkers, nSteps), nSteps)
  {
    InitInv(nWorkers, nSteps);
    var s := Init(nWorkers, nSteps);
    forall x: nat
      ensures x < s.next <==> WaitsAt(s, x, 0)
    {
      if x < s.next { assert s.workers[x] == Worker(x, 0, Testing); }
    }
  }

  lemma WaitingUnchanged(s: State, s': State, w: nat, x: nat, t: nat)
    requires |s'.workers| == |s.workers| && w < |s.workers|
    requires forall i :: 0 <= i < |s.workers| && i != w ==> s'.workers[i] == s.workers[i] || s'.workers[i] == Wake(s.workers[i])
    requires s.workers[w] !in {Worker(x, t, Testing), Worker(x, t, Asleep)}
    requires s'.workers[w] !in {Worker(x, t, Testing), Worker(x, t, Asleep)}
    ensures WaitsAt(s', x, t) <==> WaitsAt(s, x, t)
  {
  }

  lemma EnterOrder(s: State, n: nat, w: nat, t: nat)
    requires Ordered(s, n) && w < |s.workers| && s.workers[w].phase == Testing && !Blocked(s.workers, w) && t < n
    ensures OrderOk(Enter(s, w), n, t)
  {
    var s', y := Enter(s, w), s.workers[w];
    EnterInv(s, n, w);
    assert EntryOk(s, y.step) && OrderOk(s, n, t);
    EnterWaits(s, n, w);
    forall v | 0 <= v < |s'.workers| && s'.workers[v].step == t && s'.workers[v].phase == Working
      ensures s'.entered[t] != [] && s'.entered[t][|s'.entered[t]| - 1] == s'.workers[v].index
    {
      if v != w && t == y.step {
        NotBlockedByLater(s, n, w, v);
        NotBlockedByLater(s, n, v, w);
      }
    }
  }

  lemma EnterWaits(s: State, n: nat, w: nat)
    requires Inv(s, n) && w < |s.workers| && s.workers[w].phase == Testing
    ensures forall x: nat, t: nat :: WaitsAt(s, x, t) <==> WaitsAt(Enter(s, w), x, t) || (x == s.workers[w].index && t == s.workers[w].step)
  {
    var s', y := Enter(s, w), s.workers[w];
    forall x: nat, t: nat
      ensures WaitsAt(s, x, t) <==> WaitsAt(s', x, t) || (x == y.index && t == y.step)
    {
      if x == y.index && t == y.step {
        assert s.workers[w] == Worker(x, t, Testing);
      } else {
        WaitingUnchanged(s, s', w, x, t);
      }
    }
  }

  lemma PhaseOrder(s: State, n: nat, w: nat, p: Phase, t: nat)
    requires Ordered(s, n) && w < |s.workers| && s.workers[w].phase in {Testing, Asleep} && p in {Testing, Asleep} && t < n
    ensures OrderOk(s.(workers := s.workers[w := s.workers[w].(phase := p)]), n, t)
  {
    var s', y := s.(workers := s.workers[w := s.workers[w].(phase := p)]), s.workers[w];
    assert OrderOk(s, n, t);
    forall x: nat, u: nat
      ensures WaitsAt(s, x, u) <==> WaitsAt(s', x, u)
    {
      if x == y.index && u == y.step {
        assert s.workers[w] in {Worker(x, u, Testing), Worker(x, u, Asleep)};
        assert s'.workers[w] in {Worker(x, u, Testing), Worker(x, u, Asleep)};
      } else {
        WaitingUnchanged(s, s', w, x, u);
      }
    }
  }

  lemma FinishWaits(s: State, n: nat, w: nat, alive: bool)
    requires Inv(s, n) && w < |s.workers| && s.workers[w].phase == Working
    ensures var y := Finish(s, w, alive).workers[w];
            forall x: nat, t: nat :: t < n ==> (WaitsAt(Finish(s, w, alive), x, t) <==> WaitsAt(s, x, t) || (x == y.index && t == y.step))
  {
    var s' := Finish(s, w, alive);
    var y := s'.workers[w];
    forall x: nat, t: nat | t < n
      ensures WaitsAt(s', x, t) <==> WaitsAt(s, x, t) || (x == y.index && t == y.step)
    {
      if x == y.index && t == y.step {
        assert s'.workers[w] == Worker(x, t, Testing);
      } else {
        WaitingUnchanged(s, s', w, x, t);
      }
    }
  }

  lemma FinishOrder(s: State, n: nat, w: nat, alive: bool, t: nat)
    requires Ordered(s, n) && w < |s.workers| && s.workers[w].phase == Working && t < n
    ensures OrderOk(Finish(s, w, alive), n, t)
  {
    FinishPassed(s, n, w, alive, t);
    FinishQueues(s, n, w, alive, t);
    assert OrderOk(s, n, t);
    hide Increasing, WaitsAt, Above;
  }

  lemma FinishQueues(s: State, n: nat, w: nat, alive: bool, t: nat)
    requires Ordered(s, n) && w < |s.workers| && s.workers[w].phase == Working && t < n
    ensures var s' := Finish(s, w, alive);
      && (t + 1 < n ==> forall x: nat :: x in s'.passed[t] <==> x in s'.entered[t + 1] || WaitsAt(s', x, t + 1))
      && (t == 0 ==> forall x: nat :: x < s'.next <==> x in s'.entered[0] || WaitsAt(s', x, 0))
  {
    hide Ordered, OrderOk, EntryOk, Increasing, WaitsAt, Above, PhasesOk, WakeAll;
    OrderedInv(s, n);
    FinishWaits(s, n, w, alive);
    QueuesMeet(s, n, t);
  }

  lemma FinishPassed(s: State, n: nat, w: nat, alive: bool, t: nat)
    requires Ordered(s, n) && w < |s.workers| && s.workers[w].phase == Working && t < n
    ensures var s' := Finish(s, w, alive);
      && Increasing(s'.passed[t])
      && (forall x :: x in s'.passed[t] ==> x in s'.entered[t])
      && (forall v :: 0 <= v < |s'.workers| && s'.workers[v].step <= t ==> s'.workers[v].index !in s'.passed[t])
  {
    hide Ordered, OrderOk, EntryOk, Increasing, Above, PhasesOk, Awaits;
    assert Inv(s, n) by { OrderedInv(s, n); }
    QueueBefore(s, n, t);
    if t == s.workers[w].step { QueueAfter(s, n, w); }
  }

  lemma OrderedInv(s: State, n: nat)
    requires Ordered(s, n)
    ensures Inv(s, n)
  {
  }

  lemma QueuesMeet(s: State, n: nat, t: nat)
    requires Ordered(s, n) && t < n
    ensures |s.entered| == |s.passed| == n
    ensures t + 1 < n ==> forall x: nat :: x in s.passed[t] <==> x in s.entered[t + 1] || WaitsAt(s, x, t + 1)
    ensures t == 0 ==> forall x: nat :: x < s.next <==> x in s.entered[0] || WaitsAt(s, x, 0)
  {
    assert OrderOk(s, n, t);
    hide WaitsAt;
  }

  lemma QueueBefore(s: State, n: nat, t: nat)
    requires Ordered(s, n) && t < n
    ensures |s.entered| == |s.passed| == n
    ensures Increasing(s.passed[t]) && forall x :: x in s.passed[t] ==> x in s.entered[t] && x < s.next
    ensures forall v :: 0 <= v < |s.workers| && s.workers[v].step <= t ==> s.workers[v].index !in s.passed[t]
  {
    assert OrderOk(s, n, t) && EntryOk(s, t);
  }

  lemma QueueAfter(s: State, n: nat, w: nat)
    requires Ordered(s, n) && w < |s.workers| && s.workers[w].phase == Working
    ensures |s.entered| == |s.passed| == n && s.workers[w].step < n
    ensures var x := s.workers[w]; x.index in s.entered[x.step] && Increasing(s.passed[x.step] + [x.index])
  {
    var x := s.workers[w];
    var t := x.step;
    assert OrderOk(s, n, t) && EntryOk(s, t);
    LastIsMax(s.entered[t]);
    Appended(s.passed[t], x.index);
  }

  lemma LastIsMax(q: seq<nat>)
    requires Increasing(q) && q != []
    ensures forall y :: y in q ==> y <= q[|q| - 1]
  {
  }

  // ----- every interleaving

  lemma NextOrdered(s: State, n: nat, e: Event)
    requires Ordered(s, n) && Enabled(s, e)
    ensures Ordered(Next(s, e), n)
  {
    var s' := Next(s, e);
    match e {
      case Test(w) =>
        if Blocked(s.workers, w) {
          PhaseInv(s, n, w, Asleep);
          forall t | 0 <= t < n ensures OrderOk(s', n, t) { PhaseOrder(s, n, w, Asleep, t); }
        } else {
          EnterInv(s, n, w);
          forall t | 0 <= t < n ensures OrderOk(s', n, t) { EnterOrder(s, n, w, t); }
        }
      case Return(w, alive) =>
        FinishInv(s, n, w, alive);
        forall t | 0 <= t < n ensures OrderOk(s', n, t) { FinishOrder(s, n, w, alive, t); }
      case Spurious(w) =>
        PhaseInv(s, n, w, Testing);
        forall t | 0 <= t < n ensures OrderOk(s', n, t) { PhaseOrder(s, n, w, Testing, t); }
    }
  }

  lemma {:induction false} RunOrdered(s: State, n: nat, es: seq<Event>)
    requires Ordered(s, n) && RunFrom(s, es).Some?
    ensures Ordered(RunFrom(s, es).value, n)
    decreases |es|
  {
    if es != [] {
      NextOrdered(s, n, es[0]);
      RunOrdered(Next(s, es[0]), n, es[1..]);
    }
  }

  /** Two increasing lists, the second holding the first and otherwise only larger numbers. */
  lemma {:induction false} SortedPrefix(a: seq<nat>, b: seq<nat>)
    requires Increasing(a) && Increasing(b)
    requires forall x :: x in a ==> x in b
    requires forall x :: x in b && x !in a ==> Above(a, x)
    ensures a <= b
  {
    if a != [] {
      var k := |a| - 1;
      var a' := a[..k];
      assert forall x :: x in a <==> x in a' || x == a[k];
      assert a' <= b by {
        SortedPrefix(a', b);
      }
      assert forall j :: 0 <= j < k ==> b[j] == a[j];
      assert a[k] in a && a[k] in b;
      var i :| 0 <= i < |b| && b[i] == a[k];
      assert i >= k;
      assert b[k] in b && b[k] !in a';
      assert b[k] <= b[i];
    }
  }

  /** In every interleaving no two workers are inside the same step, the items that have entered step 0
      are exactly 0, 1, 2, ... in that order, and the items that have entered step t + 1 are an initial
      part of those that left step t with data, in the same order. */
  lemma PipelineOrder(nWorkers: nat, nSteps: nat, es: seq<Event>)
    requires nWorkers >= 1 && nSteps >= 1 && RunFrom(Init(nWorkers, nSteps), es).Some?
    ensures var s := RunFrom(Init(nWorkers, nSteps), es).value;
      && |s.entered| == |s.passed| == nSteps
      && (forall v, w :: 0 <= v < w < |s.workers| && s.workers[v].phase == Working == s.workers[w].phase ==> s.workers[v].step != s.workers[w].step)
      && (forall t :: 0 <= t < nSteps ==> Increasing(s.entered[t]))
      && (forall i :: 0 <= i < |s.entered[0]| ==> s.entered[0][i] == i)
      && (forall t :: 0 <= t < nSteps - 1 ==> s.entered[t + 1] <= s.passed[t])
      && (forall t, x :: 0 <= t < nSteps && x in s.passed[t] ==> x in s.entered[t])
  {
    InitOrdered(nWorkers, nSteps);
    RunOrdered(Init(nWorkers, nSteps), nSteps, es);
    var s := RunFrom(Init(nWorkers, nSteps), es).value;
    ExclusiveSteps(s, nSteps);
    FirstStepComplete(s, nSteps);
    forall t | 0 <= t < nSteps
      ensures t < nSteps - 1 ==> s.entered[t + 1] <= s.passed[t]
      ensures Increasing(s.entered[t])
      ensures forall x :: x in s.passed[t] ==> x in s.entered[t]
    {
      assert EntryOk(s, t) && OrderOk(s, nSteps, t);
      if t < nSteps - 1 { NextStepPrefix(s, nSteps, t); }
    }
  }

  lemma ExclusiveSteps(s: State, n: nat)
    requires Inv(s, n)
    ensures forall v, w :: 0 <= v < w < |s.workers| && s.workers[v].phase == Working == s.workers[w].phase ==> s.workers[v].step != s.workers[w].step
  {
    forall v, w | 0 <= v < w < |s.workers| && s.workers[v].phase == Working == s.workers[w].phase && s.workers[v].step == s.workers[w].step
      ensures false
    {
      NotBlockedByLater(s, n, v, w);
      NotBlockedByLater(s, n, w, v);
    }
  }

  lemma NextStepPrefix(s: State, n: nat, t: nat)
    requires Ordered(s, n) && t < n - 1
    ensures s.entered[t + 1] <= s.passed[t]
  {
    assert OrderOk(s, n, t) && EntryOk(s, t + 1);
    SortedPrefix(s.entered[t + 1], s.passed[t]);
  }

  lemma FirstStepComplete(s: State, n: nat)
    requires Ordered(s, n)
    ensures forall i :: 0 <= i < |s.entered[0]| ==> s.entered[0][i] == i
  {
    assert OrderOk(s, n, 0) && EntryOk(s, 0);
    var b: seq<nat> := seq(s.next, i => i);
    forall x | x in b && x !in s.entered[0]
      ensures Above(s.entered[0], x)
    {
      assert WaitsAt(s, x, 0);
    }
    forall x | x in s.entered[0]
      ensures x in b
    {
      assert b[x] == x;
    }
    SortedPrefix(s.entered[0], b);
  }

  /** The unfinished worker with the smallest index. */
  ghost predicate IsFirst(s: State, w: nat) {
    && w < |s.workers| && s.workers[w].phase != Exited
    && forall v :: 0 <= v < |s.workers| && s.workers[v].phase != Exited ==> s.workers[w].index <= s.workers[v].index
  }

  lemma FirstCanMove(s: State, n: nat, w: nat)
    requires Ordered(s, n) && IsFirst(s, w)
    ensures !Blocked(s.workers, w) && s.workers[w].phase in {Testing, Working}
    ensures s.workers[w].phase == Testing ==> Enabled(s, Test(w)) && Next(s, Test(w)).workers[w].phase == Working
  {
    forall i | 0 <= i < |s.workers|
      ensures !Blocks(s.workers, i, w)
    {
      assert s.workers[i].phase == Exited ==> s.workers[i].step == n;
    }
  }

  /** In every interleaving the first unfinished worker is not asleep and would not be put to sleep: it
      is inside its step, or free to enter it. So no run ends with unfinished workers all waiting. */
  lemma NoDeadlock(nWorkers: nat, nSteps: nat, es: seq<Event>, w: nat)
    requires nWorkers >= 1 && nSteps >= 1 && RunFrom(Init(nWorkers, nSteps), es).Some?
    requires IsFirst(RunFrom(Init(nWorkers, nSteps), es).value, w)
    ensures var s := RunFrom(Init(nWorkers, nSteps), es).value;
      && !Blocked(s.workers, w)
      && s.workers[w].phase in {Testing, Working}
      && (s.workers[w].phase == Testing ==> Enabled(s, Test(w)) && Next(s, Test(w)).workers[w].phase == Working)
  {
    InitOrdered(nWorkers, nSteps);
    RunOrdered(Init(nWorkers, nSteps), nSteps, es);
    FirstCanMove(RunFrom(Init(nWorkers, nSteps), es).value, nSteps, w);
  }

  /** While somebody is unfinished there is a first one. */
  lemma {:induction false} FirstExists(s: State, k: nat) returns (w: nat)
    requires k <= |s.workers| && exists v :: 0 <= v < k && s.workers[v].phase != Exited
    ensures w < k && s.workers[w].phase != Exited
    ensures forall v :: 0 <= v < k && s.workers[v].phase != Exited ==> s.workers[w].index <= s.workers[v].index
  {
    if exists v :: 0 <= v < k - 1 && s.workers[v].phase != Exited {
      w := FirstExists(s, k - 1);
      if s.workers[k - 1].phase != Exited && s.workers[k - 1].index < s.workers[w].index { w := k - 1; }
    } else {
      w := k - 1;
    }
  }

  /** With a single step the pipeline never ends: the step counter wraps to 0 whatever the function
      returns, so no worker exits in any run. */
  lemma {:induction false} SingleStepNeverEnds(s: State, es: seq<Event>)
    requires Ordered(s, 1) && RunFrom(s, es).Some?
    requires forall w :: 0 <= w < |s.workers| ==> s.workers[w].phase != Exited
    ensures forall w :: 0 <= w < |RunFrom(s, es).value.workers| ==> RunFrom(s, es).value.workers[w].phase != Exited
    decreases |es|
  {
    if es != [] {
      NextOrdered(s, 1, es[0]);
      SingleStepNeverEnds(Next(s, es[0]), es[1..]);
    }
  }

  // ----- the sections as the worker threads run them, under the mutex

  class Shared {
    const nSteps: nat
    const workers: array<Worker>
    var index: nat
    ghost var entered: seq<seq<nat>>
    ghost var passed: seq<seq<nat>>

    ghost function View(): State
      reads this, workers
    {
      State(workers[..], index, entered, passed)
    }

    ghost predicate Valid()
      reads this, workers
    {
      |entered| == |passed| == nSteps
    }

    constructor (nWorkers: nat, nSteps: nat)
      ensures Valid() && View() == Init(nWorkers, nSteps) && fresh(workers) && this.nSteps == nSteps
    {
      this.nSteps := nSteps;
      workers := new Worker[nWorkers](i requires 0 <= i => Worker(i, 0, Testing));
      index := nWorkers;
      entered := seq(nSteps, _ => []);
      passed := seq(nSteps, _ => []);
    }

    /** The opening section: looks for a worker that blocks w, and sleeps or starts. */
    method TestSection(w: nat) returns (start: bool)
      requires Valid() && Enabled(View(), Test(w))
      modifies this`entered, workers
      ensures Valid() && View() == Next(old(View()), Test(w))
      ensures start <==> workers[w].phase == Working
    {
      var i := 0;
      while i < workers.Length
        invariant 0 <= i <= workers.Length
        invariant forall k :: 0 <= k < i ==> !Blocks(workers[..], k, w)
      {
        if i != w && workers[i].step <= workers[w].step && workers[i].index < workers[w].index {
          assert Blocks(workers[..], i, w);
          break;
        }
        i := i + 1;
      }
      start := i == workers.Length;
      ghost var ws := workers[..];
      if start {
        entered := entered[ws[w].step := entered[ws[w].step] + [ws[w].index]];
      }
      workers[w] := workers[w].(phase := if start then Working else Asleep);
      assert workers[..] == ws[w := ws[w].(phase := if start then Working else Asleep)];
    }

    /** The closing section: next step, fresh index, broadcast. */
    method ReturnSection(w: nat, alive: bool)
      requires Valid() && Enabled(View(), Return(w, alive))
      modifies this`index, this`passed, workers
      ensures Valid() && View() == Next(old(View()), Return(w, alive))
    {
      var x := workers[w];
      var t := if x.step == nSteps - 1 || alive then (x.step + 1) % nSteps else nSteps;
      if t == x.step + 1 && t < nSteps {
        passed := passed[x.step := passed[x.step] + [x.index]];
      }
      if t == 0 {
        workers[w] := Worker(index, t, Testing);
        index := index + 1;
      } else {
        workers[w] := Worker(x.index, t, if t < nSteps then Testing else Exited);
      }
      ghost var ws := workers[..];
      for i := 0 to workers.Length
        modifies workers
        invariant forall k :: 0 <= k < workers.Length ==> workers[k] == if k < i then Wake(ws[k]) else ws[k]
      {
        workers[i] := Wake(workers[i]);
      }
      assert workers[..] == WakeAll(ws);
    }
  }
}
