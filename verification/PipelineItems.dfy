/** What happens to each item: read off the sections of a run, which item leaves which step, with data or without, and where it goes. */
module PipelineItems {
  import opened Options
  import opened Pipeline
  import opened PipelineEnds

  // ----- reading a run

  /** The items whose function returned data at step t, in the order of the returns. */
  ghost function Handed(s: State, es: seq<Event>, t: nat): seq<nat>
    decreases |es|
  {
    if es == [] || !Enabled(s, es[0]) then []
    else
      var x := s.workers[es[0].w];
      (if es[0].Return? && es[0].alive && x.step == t then [x.index] else []) + Handed(Next(s, es[0]), es[1..], t)
  }

  /** Those whose function returned at step t at all. */
  ghost function Returned(s: State, es: seq<Event>, t: nat): seq<nat>
    decreases |es|
  {
    if es == [] || !Enabled(s, es[0]) then []
    else
      var x := s.workers[es[0].w];
      (if es[0].Return? && x.step == t then [x.index] else []) + Returned(Next(s, es[0]), es[1..], t)
  }

  /** Every return from step t had data. */
  ghost predicate AlwaysData(s: State, es: seq<Event>, t: nat)
    decreases |es|
  {
    es == [] || !Enabled(s, es[0])
    || ((es[0].Return? && s.workers[es[0].w].step == t ==> es[0].alive) && AlwaysData(Next(s, es[0]), es[1..], t))
  }

  lemma {:induction false} AllHanded(s: State, es: seq<Event>, t: nat)
    requires AlwaysData(s, es, t)
    ensures Handed(s, es, t) == Returned(s, es, t)
    decreases |es|
  {
    if es != [] && Enabled(s, es[0]) { AllHanded(Next(s, es[0]), es[1..], t); }
  }

  // ----- one section

  /** In a reached state: a return with data before the last step takes the same item to the next step, one without
      ends the worker there, and one from the last step starts the next new item, whatever it returned. Nothing else
      happens to the other workers but that sleepers wake up. */
  lemma ReturnMoves(nWorkers: nat, nSteps: nat, es: seq<Event>, s: State, w: nat, alive: bool)
    requires nWorkers >= 1 && nSteps >= 1 && Reached(nWorkers, nSteps, es, s)
    requires w < |s.workers| && s.workers[w].phase == Working
    ensures Enabled(s, Return(w, alive))
    ensures var s', x := Next(s, Return(w, alive)), s.workers[w];
      && |s'.workers| == |s.workers| && s'.entered == s.entered
      && (x.step < nSteps - 1 && alive ==> s'.workers[w] == Worker(x.index, x.step + 1, Testing) && s'.next == s.next)
      && (x.step < nSteps - 1 && !alive ==> s'.workers[w] == Worker(x.index, nSteps, Exited) && s'.next == s.next)
      && (x.step == nSteps - 1 ==> s'.workers[w] == Worker(s.next, 0, Testing) && s'.next == s.next + 1)
      && (forall v :: 0 <= v < |s.workers| && v != w ==>
            s'.workers[v] == Worker(s.workers[v].index, s.workers[v].step, if s.workers[v].phase == Asleep then Testing else s.workers[v].phase))
  {
    InitOrdered(nWorkers, nSteps);
    RunOrdered(Init(nWorkers, nSteps), nSteps, es);
    ReturnFrom(s, nSteps, w, alive);
  }

  lemma ReturnFrom(s: State, n: nat, w: nat, alive: bool)
    requires Ordered(s, n) && w < |s.workers| && s.workers[w].phase == Working
    ensures Enabled(s, Return(w, alive)) && s.workers[w].step < n
    ensures var s', x := Next(s, Return(w, alive)), s.workers[w];
      && |s'.workers| == |s.workers| && s'.entered == s.entered
      && (x.step < n - 1 && alive ==> s'.workers[w] == Worker(x.index, x.step + 1, Testing) && s'.next == s.next)
      && (x.step < n - 1 && !alive ==> s'.workers[w] == Worker(x.index, n, Exited) && s'.next == s.next)
      && (x.step == n - 1 ==> s'.workers[w] == Worker(s.next, 0, Testing) && s'.next == s.next + 1)
      && (forall v :: 0 <= v < |s.workers| && v != w ==>
            s'.workers[v] == Worker(s.workers[v].index, s.workers[v].step, if s.workers[v].phase == Asleep then Testing else s.workers[v].phase))
      && |s'.passed| == |s.passed| == n
      && forall t :: 0 <= t < n ==> s'.passed[t] == s.passed[t] + if alive && t == x.step < n - 1 then [x.index] else []
  {
    hide Ordered, OrderOk, EntryOk, PhasesOk;
    OrderedInv(s, n);
    StepIs(n, s.workers[w].step, alive);
  }

  /** In a reached state: a test starts the worker if and only if every other worker with a smaller index has got past
      its step; otherwise the worker sleeps. */
  lemma TestStarts(nWorkers: nat, nSteps: nat, es: seq<Event>, s: State, w: nat)
    requires nWorkers >= 1 && nSteps >= 1 && Reached(nWorkers, nSteps, es, s)
    requires w < |s.workers| && s.workers[w].phase == Testing
    ensures Enabled(s, Test(w))
    ensures var s', x := Next(s, Test(w)), s.workers[w];
      && (s'.workers[w] == Worker(x.index, x.step, Working) <==>
            forall v :: 0 <= v < |s.workers| && s.workers[v].index < x.index ==> s.workers[v].step > x.step)
      && (s'.workers[w] == Worker(x.index, x.step, Asleep) <==>
            exists v :: 0 <= v < |s.workers| && s.workers[v].index < x.index && s.workers[v].step <= x.step)
      && s'.workers == s.workers[w := s'.workers[w]] && s'.next == s.next && s'.passed == s.passed
  {
    InitOrdered(nWorkers, nSteps);
    RunOrdered(Init(nWorkers, nSteps), nSteps, es);
    OrderedInv(s, nSteps);
    hide Ordered, Inv;
    if Blocked(s.workers, w) {
      var i :| 0 <= i < |s.workers| && Blocks(s.workers, i, w);
    } else {
      forall v | 0 <= v < |s.workers| && s.workers[v].index < s.workers[w].index
        ensures s.workers[v].step > s.workers[w].step
      {
        assert !Blocks(s.workers, v, w);
      }
    }
  }

  lemma OtherFrom(s: State, n: nat, e: Event)
    requires Ordered(s, n) && Enabled(s, e) && !e.Return?
    ensures var s', x := Next(s, e), s.workers[e.w];
      && |s'.workers| == |s.workers| && s'.passed == s.passed && |s.passed| == |s.entered| == n == |s'.entered|
      && (s'.workers[e.w].phase == Working ==> s'.workers[e.w] == x.(phase := Working) && s'.entered == s.entered[x.step := s.entered[x.step] + [x.index]])
      && (s'.workers[e.w].phase != Working ==> s'.entered == s.entered)
      && x.phase != Working && forall v :: 0 <= v < |s.workers| && v != e.w ==> s'.workers[v] == s.workers[v]
  {
    OrderedInv(s, n);
    hide Ordered, Inv, Blocked;
  }

  // ----- whole runs

  lemma {:induction false} RunHands(s: State, n: nat, es: seq<Event>, t: nat)
    requires Ordered(s, n) && RunFrom(s, es).Some? && t < n
    ensures var s' := RunFrom(s, es).value;
      |s.passed| == |s'.passed| == n && s'.passed[t] == s.passed[t] + if t < n - 1 then Handed(s, es, t) else []
    decreases |es|
  {
    hide Ordered, Next, StepsOk;
    OrderedSteps(s, n);
    if es == [] {
      assert s.passed[t] + [] == s.passed[t];
    } else {
      var now := if es[0].Return? && es[0].alive && s.workers[es[0].w].step == t then [s.workers[es[0].w].index] else [];
      var rest := Handed(Next(s, es[0]), es[1..], t);
      NextOrdered(s, n, es[0]);
      OneHands(s, n, es[0], t);
      RunHands(Next(s, es[0]), n, es[1..], t);
      assert Handed(s, es, t) == now + rest;
      assert s.passed[t] + now + rest == s.passed[t] + (now + rest);
    }
  }

  lemma OneHands(s: State, n: nat, e: Event, t: nat)
    requires Ordered(s, n) && Enabled(s, e) && t < n
    ensures |s.passed| == |Next(s, e).passed| == n
    ensures Next(s, e).passed[t] == s.passed[t] + if t < n - 1 && e.Return? && e.alive && s.workers[e.w].step == t then [s.workers[e.w].index] else []
  {
    hide Ordered, Next;
    match e {
      case Return(w, alive) => ReturnFrom(s, n, w, alive);
      case _ => OtherFrom(s, n, e);
    }
  }

  /** r are the items that have left step t; the items that entered it are these and the one inside, if there is one. */
  ghost predicate Accounts(s: State, t: nat, r: seq<nat>) {
    && t < |s.entered|
    && (forall w :: 0 <= w < |s.workers| && s.workers[w].phase == Working && s.workers[w].step == t ==> s.entered[t] == r + [s.workers[w].index])
    && ((forall w :: 0 <= w < |s.workers| && s.workers[w].phase == Working ==> s.workers[w].step != t) ==> s.entered[t] == r)
  }

  lemma OneAccounts(s: State, n: nat, e: Event, t: nat, r: seq<nat>)
    requires Ordered(s, n) && Enabled(s, e) && t < n && Accounts(s, t, r)
    ensures Accounts(Next(s, e), t, r + if e.Return? && s.workers[e.w].step == t then [s.workers[e.w].index] else [])
  {
    OrderedInv(s, n);
    ExclusiveSteps(s, n);
    NextOrdered(s, n, e);
    OrderedInv(Next(s, e), n);
    ExclusiveSteps(Next(s, e), n);
    hide Ordered, Inv, Next;
    if e.Return? {
      ReturnFrom(s, n, e.w, e.alive);
      ReturnAccounts(s, Next(s, e), e.w, t, r);
    } else {
      OtherFrom(s, n, e);
      assert r + [] == r;
    }
  }

  lemma ReturnAccounts(s: State, s': State, w: nat, t: nat, r: seq<nat>)
    requires Accounts(s, t, r) && w < |s.workers| == |s'.workers| && s.workers[w].phase == Working
    requires s'.entered == s.entered && s'.workers[w].phase != Working
    requires forall v :: 0 <= v < |s.workers| && v != w ==>
      s'.workers[v].step == s.workers[v].step && s'.workers[v].index == s.workers[v].index && (s'.workers[v].phase == Working <==> s.workers[v].phase == Working)
    requires forall v, u :: 0 <= v < u < |s.workers| && s.workers[v].phase == Working == s.workers[u].phase ==> s.workers[v].step != s.workers[u].step
    ensures Accounts(s', t, r + if s.workers[w].step == t then [s.workers[w].index] else [])
  {
    assert r + [] == r;
  }

  lemma {:induction false} RunAccounts(s: State, n: nat, es: seq<Event>, t: nat, r: seq<nat>)
    requires Ordered(s, n) && RunFrom(s, es).Some? && t < n && Accounts(s, t, r)
    ensures Accounts(RunFrom(s, es).value, t, r + Returned(s, es, t))
    decreases |es|
  {
    hide Ordered, Next, Accounts;
    if es == [] {
      assert r + [] == r;
    } else {
      var now := if es[0].Return? && s.workers[es[0].w].step == t then [s.workers[es[0].w].index] else [];
      NextOrdered(s, n, es[0]);
      OneAccounts(s, n, es[0], t, r);
      RunAccounts(Next(s, es[0]), n, es[1..], t, r + now);
      assert r + now + Returned(Next(s, es[0]), es[1..], t) == r + (now + Returned(Next(s, es[0]), es[1..], t));
    }
  }

  /** In every interleaving: step t has handed on exactly the items whose function returned data there, if it is not the
      last, in the order of the returns; and the items that entered it are those whose function returned there and the
      one whose function still runs, if there is one. */
  lemma EveryItemAccounted(nWorkers: nat, nSteps: nat, es: seq<Event>, s: State, t: nat)
    requires nWorkers >= 1 && nSteps >= 1 && Reached(nWorkers, nSteps, es, s) && t < nSteps
    ensures var s0 := Init(nWorkers, nSteps);
      && |s.passed| == |s.entered| == nSteps
      && s.passed[t] == (if t < nSteps - 1 then Handed(s0, es, t) else [])
      && (forall w :: 0 <= w < |s.workers| && s.workers[w].phase == Working && s.workers[w].step == t ==>
            s.entered[t] == Returned(s0, es, t) + [s.workers[w].index])
      && ((forall w :: 0 <= w < |s.workers| && s.workers[w].phase == Working ==> s.workers[w].step != t) ==>
            s.entered[t] == Returned(s0, es, t))
  {
    var s0 := Init(nWorkers, nSteps);
    InitOrdered(nWorkers, nSteps);
    RunOrdered(s0, nSteps, es);
    OrderedInv(s, nSteps);
    RunHands(s0, nSteps, es, t);
    assert Accounts(s0, t, []);
    RunAccounts(s0, nSteps, es, t, []);
    assert [] + Handed(s0, es, t) == Handed(s0, es, t) && [] + Returned(s0, es, t) == Returned(s0, es, t);
  }

  lemma DoneMeets(s: State, n: nat, t: nat)
    requires Ordered(s, n) && Done(s) && t < n - 1
    ensures |s.entered| == |s.passed| == n && s.entered[t + 1] == s.passed[t]
  {
    QueuesMeet(s, n, t);
    QueueBefore(s, n, t);
    NextStepPrefix(s, n, t);
    OrderedInv(s, n);
    assert EntryOk(s, t + 1);
    forall x | x in s.passed[t]
      ensures x in s.entered[t + 1]
    {
      assert !WaitsAt(s, x, t + 1);
    }
    hide Ordered, Inv, Done;
    SortedPrefix(s.passed[t], s.entered[t + 1]);
  }

  /** When all workers have exited, every item that a step before the last has handed on has entered the next one, and
      only those. */
  lemma HandedEnters(nWorkers: nat, nSteps: nat, es: seq<Event>, s: State, t: nat)
    requires nWorkers >= 1 && t + 1 < nSteps && Reached(nWorkers, nSteps, es, s) && Done(s)
    ensures |s.entered| == nSteps && s.entered[t + 1] == Handed(Init(nWorkers, nSteps), es, t)
  {
    InitOrdered(nWorkers, nSteps);
    RunOrdered(Init(nWorkers, nSteps), nSteps, es);
    DoneMeets(s, nSteps, t);
    EveryItemAccounted(nWorkers, nSteps, es, s, t);
  }

  /** So if no function but those of the first and the last step ever returned NULL, every item that the first step has
      handed on has gone through all further steps. */
  lemma {:induction false} ItemsComeThrough(nWorkers: nat, nSteps: nat, es: seq<Event>, s: State, t: nat)
    requires nWorkers >= 1 && 1 <= t < nSteps && Reached(nWorkers, nSteps, es, s) && Done(s)
    requires forall u :: 0 < u < nSteps - 1 ==> AlwaysData(Init(nWorkers, nSteps), es, u)
    ensures |s.entered| == nSteps && s.entered[t] == Handed(Init(nWorkers, nSteps), es, 0)
    decreases t
  {
    HandedEnters(nWorkers, nSteps, es, s, t - 1);
    if t > 1 {
      ItemsComeThrough(nWorkers, nSteps, es, s, t - 1);
      EveryItemAccounted(nWorkers, nSteps, es, s, t - 1);
      AllHanded(Init(nWorkers, nSteps), es, t - 1);
    }
  }
}
