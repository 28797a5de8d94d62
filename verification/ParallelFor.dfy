/** kt_for: own counters and stealing. Every load, fetch-and-add and call of the user function is one step. */
module ParallelFor {
  // Thread w takes the indices w, w + T, w + 2T, ... from its own counter, then steals from the counter that
  // looked smallest in an unsynchronised scan, which loads a counter once to compare and once to remember it.

  import opened Options

  /** What a thread does next. Scan(i, min, minI) is inside steal_work, about to compare with counter i; Reload(i)
      has found it smaller, and is about to load it once more to remember it. */
  datatype Pc = Own | Run(k: nat, stolen: bool) | Scan(i: nat, min: int, minI: int) | Reload(i: nat) | Take(minI: int) | Exited

  /** counters[w] is the field i of worker w; calls is the order in which the user function was called. */
  datatype State = State(counters: seq<nat>, pcs: seq<Pc>, calls: seq<nat>)

  const LONG_MAX: int := 0x7fff_ffff_ffff_ffff

  function Init(T: nat): State {
    State(seq(T, i requires 0 <= i < T => i), seq(T, _ => Own), [])
  }

  /** One atomic step of thread w, over n indices. */
  function Next(s: State, n: nat, w: nat): (r: State)
    requires Enabled(s, w)
    ensures |r.pcs| == |s.pcs|
  {
    var T := |s.pcs|;
    match s.pcs[w] {
      case Own =>
        var k := s.counters[w];
        State(s.counters[w := k + T], s.pcs[w := if k >= n then Scan(0, LONG_MAX, -1) else Run(k, false)], s.calls)
      case Run(k, stolen) =>
        State(s.counters, s.pcs[w := if stolen then Scan(0, LONG_MAX, -1) else Own], s.calls + [k])
      case Scan(i, min, minI) =>
        if i < T then
          State(s.counters, s.pcs[w := if min > s.counters[i] then Reload(i) else Scan(i + 1, min, minI)], s.calls)
        else
          State(s.counters, s.pcs[w := Take(minI)], s.calls)
      case Reload(i) =>
        State(s.counters, s.pcs[w := Scan(i + 1, s.counters[i], i)], s.calls)
      case Take(minI) =>
        var k := s.counters[minI];
        State(s.counters[minI := k + T], s.pcs[w := if k >= n then Exited else Run(k, true)], s.calls)
    }
  }

  /** Thread w can move; a steal from a counter that does not exist would be out of bounds. */
  predicate Enabled(s: State, w: nat) {
    && |s.counters| == |s.pcs| && w < |s.pcs|
    && s.pcs[w] != Exited
    && (s.pcs[w].Take? ==> 0 <= s.pcs[w].minI < |s.pcs|)
    && (s.pcs[w].Reload? ==> s.pcs[w].i < |s.pcs|)
  }

  /** The state after the threads ws moved in that order, if each could when its turn came. */
  function RunFrom(s: State, n: nat, ws: seq<nat>): (r: Option<State>)
    ensures r.Some? ==> |r.value.pcs| == |s.pcs|
    decreases |ws|
  {
    if ws == [] then Some(s)
    else if Enabled(s, ws[0]) then RunFrom(Next(s, n, ws[0]), n, ws[1..])
    else None
  }

  // ----- which counter hands out which index

  /** The worker whose counter passes j: the remainder of j modulo the number of threads. */
  function Owner(j: nat, T: nat): (w: nat)
    requires T > 0
    ensures w < T
    decreases j
  {
    if j < T then j else Owner(j - T, T)
  }

  /** Between two values of one counter no index has the same owner. */
  lemma {:induction false} OwnerGap(k: nat, j: nat, T: nat)
    requires T > 0 && k < j < k + T
    ensures Owner(j, T) != Owner(k, T)
    decreases k
  {
    if k >= T {
      OwnerGap(k - T, j - T, T);
    }
  }

  // ----- the invariant

  ghost predicate CountersOk(s: State) {
    && |s.counters| == |s.pcs| >= 1
    && forall m :: 0 <= m < |s.pcs| ==> Owner(s.counters[m], |s.pcs|) == m
  }

  /** Index j has been handed out. */
  predicate Claimed(s: State, j: nat)
    requires |s.counters| == |s.pcs| >= 1
  {
    j < s.counters[Owner(j, |s.pcs|)]
  }

  ghost predicate Holds(s: State, j: nat) {
    exists w :: 0 <= w < |s.pcs| && s.pcs[w].Run? && s.pcs[w].k == j
  }

  ghost predicate Distinct(q: seq<nat>) {
    forall a, b :: 0 <= a < b < |q| ==> q[a] != q[b]
  }

  /** The indices handed out are exactly the ones called plus the ones held, each once. */
  ghost predicate WorkOk(s: State, n: nat) {
    && CountersOk(s)
    && Distinct(s.calls)
    && (forall j :: j in s.calls ==> j < n && Claimed(s, j))
    && (forall w :: 0 <= w < |s.pcs| && s.pcs[w].Run? ==> s.pcs[w].k < n && Claimed(s, s.pcs[w].k) && s.pcs[w].k !in s.calls)
    && (forall v, w :: 0 <= v < w < |s.pcs| && s.pcs[v].Run? && s.pcs[w].Run? ==> s.pcs[v].k != s.pcs[w].k)
    && (forall j: nat :: j < n && Claimed(s, j) ==> j in s.calls || Holds(s, j))
  }

  /** A thread that has left its own loop leaves an exhausted counter behind. */
  ghost predicate OwnDone(s: State, n: nat) {
    |s.counters| == |s.pcs| &&
    forall w :: 0 <= w < |s.pcs| && (s.pcs[w].Scan? || s.pcs[w].Reload? || s.pcs[w].Take? || s.pcs[w].Exited? || (s.pcs[w].Run? && s.pcs[w].stolen)) ==> s.counters[w] >= n
  }

  /** Fetches that came back empty-handed: at most two a thread. */
  function Misses(pcs: seq<Pc>): nat {
    if pcs == [] then 0
    else Misses(pcs[..|pcs| - 1]) + MissesOf(pcs[|pcs| - 1])
  }

  function MissesOf(p: Pc): (r: nat)
    ensures r <= 2
  {
    if p == Own || (p.Run? && !p.stolen) then 0 else if p == Exited then 2 else 1
  }

  lemma {:induction false} MissesStore(pcs: seq<Pc>, w: nat, p: Pc)
    requires w < |pcs|
    ensures Misses(pcs[w := p]) == Misses(pcs) - MissesOf(pcs[w]) + MissesOf(p)
    ensures Misses(pcs) <= 2 * |pcs|
  {
    var k := |pcs| - 1;
    MissesBound(pcs);
    if w == k {
      assert pcs[w := p][..k] == pcs[..k];
    } else {
      assert pcs[w := p][..k] == pcs[..k][w := p];
      MissesStore(pcs[..k], w, p);
    }
  }

  lemma {:induction false} MissesBound(pcs: seq<Pc>)
    ensures Misses(pcs) <= 2 * |pcs|
  {
    if pcs != [] { MissesBound(pcs[..|pcs| - 1]); }
  }

  /** Counters stay within one stride of n for every empty-handed fetch. */
  ghost predicate Bounded(s: State, n: nat) {
    forall m :: 0 <= m < |s.counters| ==> s.counters[m] <= Limit(n, |s.pcs|, Misses(s.pcs))
  }

  function Limit(n: nat, T: nat, misses: nat): nat {
    n + T * (1 + misses)
  }

  ghost predicate ScanOk(s: State, w: nat)
    requires w < |s.pcs|
  {
    match s.pcs[w]
    case Scan(i, min, minI) => i <= |s.pcs| && (i == 0 ==> min == LONG_MAX) && (i > 0 ==> 0 <= minI < |s.pcs|)
    case Reload(i) => i < |s.pcs|
    case Take(minI) => 0 <= minI < |s.pcs|
    case _ => true
  }

  ghost predicate ScansOk(s: State) {
    forall w :: 0 <= w < |s.pcs| ==> ScanOk(s, w)
  }

  /** Room below LONG_MAX for every counter value the loop can produce. */
  predicate FitsLong(n: nat, T: nat) {
    Limit(n, T, 2 * T) < LONG_MAX
  }

  ghost predicate Inv(s: State, n: nat) {
    WorkOk(s, n) && OwnDone(s, n) && Bounded(s, n) && ScansOk(s) && FitsLong(n, |s.pcs|)
  }

  lemma InitInv(n: nat, T: nat)
    requires T >= 1 && FitsLong(n, T)
    ensures Inv(Init(T), n)
  {
    var s := Init(T);
    LimitGrows(n, T, Misses(s.pcs), Misses(s.pcs));
    hide Limit;
  }

  // ----- one fetch-and-add

  /** A fetch-and-add on counter m hands out exactly the index it returns. */
  lemma FetchClaims(s: State, s': State, m: nat)
    requires CountersOk(s) && m < |s.pcs| && |s'.pcs| == |s.pcs|
    requires s'.counters == s.counters[m := s.counters[m] + |s.pcs|]
    ensures CountersOk(s')
    ensures !Claimed(s, s.counters[m])
    ensures forall j: nat :: Claimed(s', j) <==> Claimed(s, j) || j == s.counters[m]
  {
    var T, k := |s.pcs|, s.counters[m];
    assert Owner(k + T, T) == Owner(k, T);
    forall j: nat
      ensures Claimed(s', j) <==> Claimed(s, j) || j == k
    {
      if Owner(j, T) == m && k < j < k + T {
        OwnerGap(k, j, T);
      }
    }
  }

  /** Thread w fetches from counter m. */
  lemma FetchWork(s: State, n: nat, w: nat, m: nat, p: Pc)
    requires WorkOk(s, n) && w < |s.pcs| && m < |s.pcs| && !s.pcs[w].Run?
    requires if s.counters[m] < n then p.Run? && p.k == s.counters[m] else !p.Run?
    ensures WorkOk(State(s.counters[m := s.counters[m] + |s.pcs|], s.pcs[w := p], s.calls), n)
  {
    var s' := State(s.counters[m := s.counters[m] + |s.pcs|], s.pcs[w := p], s.calls);
    FetchClaims(s, s', m);
    forall j: nat | j < n && Claimed(s', j)
      ensures j in s'.calls || Holds(s', j)
    {
      if j == s.counters[m] {
        assert s'.pcs[w].Run? && s'.pcs[w].k == j;
      } else if j !in s.calls {
        var v :| 0 <= v < |s.pcs| && s.pcs[v].Run? && s.pcs[v].k == j;
        assert s'.pcs[v] == s.pcs[v];
      }
    }
  }

  lemma CallWork(s: State, n: nat, w: nat, p: Pc)
    requires WorkOk(s, n) && w < |s.pcs| && s.pcs[w].Run? && !p.Run?
    ensures WorkOk(State(s.counters, s.pcs[w := p], s.calls + [s.pcs[w].k]), n)
  {
    var k := s.pcs[w].k;
    var s' := State(s.counters, s.pcs[w := p], s.calls + [k]);
    assert k in s'.calls;
    forall j: nat | j < n && Claimed(s', j)
      ensures j in s'.calls || Holds(s', j)
    {
      assert Claimed(s, j);
      if j !in s.calls && j != k {
        var v :| 0 <= v < |s.pcs| && s.pcs[v].Run? && s.pcs[v].k == j;
        assert s'.pcs[v] == s.pcs[v];
      }
    }
  }

  lemma ScanWork(s: State, n: nat, w: nat, p: Pc)
    requires WorkOk(s, n) && w < |s.pcs| && !s.pcs[w].Run? && !p.Run?
    ensures WorkOk(State(s.counters, s.pcs[w := p], s.calls), n)
  {
    var s' := State(s.counters, s.pcs[w := p], s.calls);
    forall j: nat | j < n && Claimed(s', j)
      ensures j in s'.calls || Holds(s', j)
    {
      assert Claimed(s, j);
      if j !in s.calls {
        var v :| 0 <= v < |s.pcs| && s.pcs[v].Run? && s.pcs[v].k == j;
        assert s'.pcs[v] == s.pcs[v];
      }
    }
  }

  lemma NextWork(s: State, n: nat, w: nat)
    requires Inv(s, n) && Enabled(s, w)
    ensures WorkOk(Next(s, n, w), n)
  {
    hide WorkOk, OwnDone, Bounded, ScansOk, FitsLong;
    var p := Next(s, n, w).pcs[w];
    match s.pcs[w] {
      case Own => FetchWork(s, n, w, w, p);
      case Run(k, stolen) => CallWork(s, n, w, p);
      case Scan(i, min, minI) => ScanWork(s, n, w, p);
      case Reload(i) => ScanWork(s, n, w, p);
      case Take(minI) => FetchWork(s, n, w, minI, p);
    }
  }

  lemma NextBounded(s: State, n: nat, w: nat)
    requires Inv(s, n) && Enabled(s, w)
    ensures Bounded(Next(s, n, w), n)
  {
    hide WorkOk, OwnDone, ScansOk, FitsLong, Limit;
    var s' := Next(s, n, w);
    MissesStore(s.pcs, w, s'.pcs[w]);
    LimitGrows(n, |s.pcs|, Misses(s.pcs), Misses(s'.pcs));
    hide Misses;
  }

  lemma LimitGrows(n: nat, T: nat, a: nat, b: nat)
    requires a <= b
    ensures Limit(n, T, a) <= Limit(n, T, b) && n + T <= Limit(n, T, b)
    ensures a < b ==> Limit(n, T, a) + T <= Limit(n, T, b)
  {
    StrideGrows(T, a, b);
  }

  lemma StrideGrows(T: nat, a: nat, b: nat)
    requires a <= b
    ensures T * (1 + a) <= T * (1 + b) && T <= T * (1 + b)
    ensures a < b ==> T * (1 + a) + T <= T * (1 + b)
  {
    Times(T, 1 + a, 1 + b);
    Times(T, 1, 1 + b);
    if a < b {
      Times(T, 2 + a, 1 + b);
      OneStride(T, 1 + a);
    }
  }

  lemma Times(T: nat, a: nat, b: nat)
    requires a <= b
    ensures T * a <= T * b
  {
  }

  lemma OneStride(T: nat, k: nat)
    ensures T * (k + 1) == T * k + T
  {
  }

  /** The racy scan always finds a counter below LONG_MAX. */
  lemma CounterFits(s: State, n: nat, m: nat)
    requires Inv(s, n) && m < |s.counters|
    ensures s.counters[m] < LONG_MAX
  {
    hide WorkOk, OwnDone, ScansOk, Limit;
    MissesBound(s.pcs);
    LimitGrows(n, |s.pcs|, Misses(s.pcs), 2 * |s.pcs|);
  }

  lemma NextOwnDone(s: State, n: nat, w: nat)
    requires Inv(s, n) && Enabled(s, w)
    ensures OwnDone(Next(s, n, w), n)
  {
    hide WorkOk, Bounded, ScansOk, FitsLong;
  }

  lemma NextScans(s: State, n: nat, w: nat)
    requires Inv(s, n) && Enabled(s, w)
    ensures ScansOk(Next(s, n, w))
  {
    hide Inv, Next, ScanOk;
    forall v | 0 <= v < |s.pcs|
      ensures ScanOk(Next(s, n, w), v)
    {
      NextScan(s, n, w, v);
    }
  }

  lemma NextScan(s: State, n: nat, w: nat, v: nat)
    requires Inv(s, n) && Enabled(s, w) && v < |s.pcs|
    ensures ScanOk(Next(s, n, w), v)
  {
    hide WorkOk, OwnDone, Bounded, FitsLong, LONG_MAX;
    CountersFit(s, n);
    assert ScanOk(s, v) && ScanOk(s, w);
  }

  lemma CountersFit(s: State, n: nat)
    requires Inv(s, n)
    ensures forall m :: 0 <= m < |s.counters| ==> s.counters[m] < LONG_MAX
  {
    forall m | 0 <= m < |s.counters|
      ensures s.counters[m] < LONG_MAX
    {
      CounterFits(s, n, m);
    }
  }

  lemma NextInv(s: State, n: nat, w: nat)
    requires Inv(s, n) && Enabled(s, w)
    ensures Inv(Next(s, n, w), n)
  {
    NextWork(s, n, w);
    NextBounded(s, n, w);
    NextOwnDone(s, n, w);
    NextScans(s, n, w);
    hide WorkOk, Bounded, OwnDone, ScansOk;
  }

  lemma {:induction false} RunInv(s: State, n: nat, ws: seq<nat>)
    requires Inv(s, n) && RunFrom(s, n, ws).Some?
    ensures Inv(RunFrom(s, n, ws).value, n)
    decreases |ws|
  {
    if ws != [] {
      NextInv(s, n, ws[0]);
      RunInv(Next(s, n, ws[0]), n, ws[1..]);
    }
  }

  // ----- every interleaving

  /** In every interleaving each index below n is passed to the user function at most once, and nothing
      else ever is; once all threads have exited each one has been, exactly once. */
  lemma CallsExactlyOnce(n: nat, T: nat, ws: seq<nat>)
    requires T >= 1 && FitsLong(n, T) && RunFrom(Init(T), n, ws).Some?
    ensures var s := RunFrom(Init(T), n, ws).value;
      && Distinct(s.calls)
      && (forall j :: j in s.calls ==> j < n)
      && ((forall w :: 0 <= w < T ==> s.pcs[w] == Exited) ==> |s.calls| == n && forall j: nat :: j < n ==> j in s.calls)
  {
    InitInv(n, T);
    RunInv(Init(T), n, ws);
    var s := RunFrom(Init(T), n, ws).value;
    if forall w :: 0 <= w < T ==> s.pcs[w] == Exited {
      forall j: nat | j < n
        ensures j in s.calls
      {
        assert s.pcs[Owner(j, T)] == Exited;
        assert Claimed(s, j);
      }
      DistinctCover(s.calls, n);
    }
  }

  lemma {:induction false} DistinctCover(q: seq<nat>, n: nat)
    requires Distinct(q) && (forall j :: j in q ==> j < n) && (forall j: nat :: j < n ==> j in q)
    ensures |q| == n
    decreases n
  {
    assert |q| > 0 ==> q[0] in q;
    if n > 0 {
      assert n - 1 in q;
      var i :| 0 <= i < |q| && q[i] == n - 1;
      var r := q[..i] + q[i + 1..];
      forall j: nat | j < n - 1
        ensures j in r
      {
        assert j in q;
        var k :| 0 <= k < |q| && q[k] == j;
        assert r[if k < i then k else k - 1] == j;
      }
      forall k | 0 <= k < |r|
        ensures r[k] < n - 1
      {
        assert r[k] in q && r[k] == q[if k < i then k else k + 1];
      }
      DistinctCover(r, n - 1);
    }
  }

  /** No step of any interleaving is stuck or out of bounds: a thread that has not exited can move. */
  lemma ThreadsCanMove(n: nat, T: nat, ws: seq<nat>, w: nat)
    requires T >= 1 && FitsLong(n, T) && RunFrom(Init(T), n, ws).Some? && w < T
    requires RunFrom(Init(T), n, ws).value.pcs[w] != Exited
    ensures Enabled(RunFrom(Init(T), n, ws).value, w)
  {
    hide Inv, RunFrom, Enabled;
    InitInv(n, T);
    RunInv(Init(T), n, ws);
    InvEnabled(RunFrom(Init(T), n, ws).value, n, w);
  }

  lemma InvEnabled(s: State, n: nat, w: nat)
    requires Inv(s, n) && w < |s.pcs| && s.pcs[w] != Exited
    ensures Enabled(s, w)
  {
    hide WorkOk, Bounded, FitsLong;
    assert ScanOk(s, w);
  }

  // ----- which counter a thread steals from

  /** m is the first of the smallest counters below i. */
  ghost predicate LeastBelow(counters: seq<nat>, i: nat, m: int) {
    && 0 <= m < i <= |counters|
    && (forall j :: 0 <= j < i ==> counters[m] <= counters[j]) && (forall j :: 0 <= j < m ==> counters[m] < counters[j])
  }

  lemma {:induction false} ScanFinds(s: State, n: nat, w: nat, i: nat, min: int, minI: int) returns (ws: seq<nat>, m: nat)
    requires |s.counters| == |s.pcs| && w < |s.pcs| && s.pcs[w] == Scan(i, min, minI) && i <= |s.pcs|
    requires forall j :: 0 <= j < |s.pcs| ==> s.counters[j] < LONG_MAX
    requires if i == 0 then min == LONG_MAX else LeastBelow(s.counters, i, minI) && min == s.counters[minI]
    ensures (forall k :: 0 <= k < |ws| ==> ws[k] == w) && LeastBelow(s.counters, |s.counters|, m)
    ensures RunFrom(s, n, ws) == Some(State(s.counters, s.pcs[w := Take(m)], s.calls))
    decreases |s.pcs| - i
  {
    hide RunFrom, LONG_MAX;
    var next := Next(s, n, w);
    if i == |s.pcs| {
      m, ws := minI, [w] + [];
      RunMore(s, n, w, []);
      RunNone(next, n);
    } else if min > s.counters[i] {
      var last := Next(next, n, w);
      assert last.pcs == s.pcs[w := Scan(i + 1, s.counters[i], i)];
      ws, m := ScanFinds(last, n, w, i + 1, s.counters[i], i);
      RunMore(next, n, w, ws);
      RunMore(s, n, w, [w] + ws);
      ws := [w] + ([w] + ws);
      assert last.pcs[w := Take(m)] == s.pcs[w := Take(m)];
    } else {
      ws, m := ScanFinds(next, n, w, i + 1, min, minI);
      RunMore(s, n, w, ws);
      ws := [w] + ws;
      assert next.pcs[w := Take(m)] == s.pcs[w := Take(m)];
    }
  }

  lemma RunMore(s: State, n: nat, w: nat, ws: seq<nat>)
    requires Enabled(s, w)
    ensures RunFrom(s, n, [w] + ws) == RunFrom(Next(s, n, w), n, ws)
  {
    hide Enabled, Next;
    assert ([w] + ws)[1..] == ws;
  }

  lemma RunNone(s: State, n: nat)
    ensures RunFrom(s, n, []) == Some(s)
  {
  }

  /** A thread whose scan the others leave alone steals from the first of the smallest counters. */
  lemma StealsLeast(n: nat, T: nat, before: seq<nat>, w: nat) returns (ws: seq<nat>, m: nat)
    requires T >= 1 && FitsLong(n, T) && RunFrom(Init(T), n, before).Some? && w < T
    requires RunFrom(Init(T), n, before).value.pcs[w] == Scan(0, LONG_MAX, -1)
    ensures forall k :: 0 <= k < |ws| ==> ws[k] == w
    ensures var s := RunFrom(Init(T), n, before).value;
      && RunFrom(s, n, ws) == Some(State(s.counters, s.pcs[w := Take(m)], s.calls))
      && m < |s.counters| == T && forall j :: 0 <= j < T ==> s.counters[m] <= s.counters[j] && (j < m ==> s.counters[m] < s.counters[j])
  {
    hide Inv, RunFrom, LONG_MAX;
    var s := RunFrom(Init(T), n, before).value;
    InitInv(n, T);
    RunInv(Init(T), n, before);
    CountersFit(s, n);
    InvCounters(s, n);
    ws, m := ScanFinds(s, n, w, 0, LONG_MAX, -1);
  }

  lemma InvCounters(s: State, n: nat)
    requires Inv(s, n)
    ensures |s.counters| == |s.pcs|
  {
    hide Distinct;
  }

  // ----- every interleaving ends

  /** Indices not yet handed out, counted counter by counter. */
  function Left(counters: seq<nat>, n: nat): nat {
    if counters == [] then 0
    else Left(counters[..|counters| - 1], n) + LeftOf(counters[|counters| - 1], n)
  }

  function LeftOf(c: nat, n: nat): nat {
    if c < n then n - c else 0
  }

  lemma {:induction false} LeftStore(counters: seq<nat>, n: nat, m: nat, c: nat)
    requires m < |counters|
    ensures Left(counters[m := c], n) == Left(counters, n) - LeftOf(counters[m], n) + LeftOf(c, n)
  {
    var k := |counters| - 1;
    if m == k {
      assert counters[m := c][..k] == counters[..k];
    } else {
      assert counters[m := c][..k] == counters[..k][m := c];
      LeftStore(counters[..k], n, m, c);
    }
  }

  /** Steps a thread can still make without being handed another index. */
  function StepsOf(p: Pc, T: nat): nat {
    match p
    case Own => 2 * T + 3
    case Run(_, stolen) => if stolen then 2 * T + 3 else 2 * T + 4
    case Scan(i, _, _) => if i <= T then 2 * (T - i) + 2 else 2
    case Reload(i) => if i <= T then 2 * (T - i) + 1 else 1
    case Take(_) => 1
    case Exited => 0
  }

  function Steps(pcs: seq<Pc>, T: nat): nat {
    if pcs == [] then 0
    else Steps(pcs[..|pcs| - 1], T) + StepsOf(pcs[|pcs| - 1], T)
  }

  lemma {:induction false} StepsStore(pcs: seq<Pc>, T: nat, w: nat, p: Pc)
    requires w < |pcs|
    ensures Steps(pcs[w := p], T) == Steps(pcs, T) - StepsOf(pcs[w], T) + StepsOf(p, T)
  {
    var k := |pcs| - 1;
    if w == k {
      assert pcs[w := p][..k] == pcs[..k];
    } else {
      assert pcs[w := p][..k] == pcs[..k][w := p];
      StepsStore(pcs[..k], T, w, p);
    }
  }

  /** Steps the whole loop can still make, whoever is scheduled. */
  function Budget(s: State, n: nat): nat {
    Left(s.counters, n) * (2 * |s.pcs| + 4) + Steps(s.pcs, |s.pcs|)
  }

  lemma NextSpendsBudget(s: State, n: nat, w: nat)
    requires Inv(s, n) && Enabled(s, w)
    ensures Budget(Next(s, n, w), n) < Budget(s, n)
  {
    hide WorkOk, OwnDone, Bounded, FitsLong, ScansOk, Steps, Left;
    var s' := Next(s, n, w);
    var T := |s.pcs|;
    StepsStore(s.pcs, T, w, s'.pcs[w]);
    if s.pcs[w].Own? || s.pcs[w].Take? {
      var m := if s.pcs[w].Own? then w else s.pcs[w].minI;
      LeftStore(s.counters, n, m, s.counters[m] + T);
      FetchSpends(Left(s.counters, n), Left(s'.counters, n), T, Steps(s.pcs, T), Steps(s'.pcs, T));
    } else {
      SameLeft(Left(s.counters, n), T, Steps(s.pcs, T), Steps(s'.pcs, T));
    }
  }

  lemma FetchSpends(a: nat, a': nat, T: nat, b: nat, b': nat)
    requires (a' < a && b' <= b + 2 * T + 3) || (a' == a && b' < b)
    ensures a' * (2 * T + 4) + b' < a * (2 * T + 4) + b
  {
    if a' < a {
      Scaled(a', a, 2 * T + 4);
    } else {
      assert a' == a;
    }
  }

  lemma SameLeft(a: nat, T: nat, b: nat, b': nat)
    requires b' < b
    ensures a * (2 * T + 4) + b' < a * (2 * T + 4) + b
  {
  }

  lemma Scaled(a: nat, b: nat, c: nat)
    requires a < b
    ensures a * c + c <= b * c
  {
    assert b * c == a * c + (b - a) * c;
    assert (b - a) * c == c + (b - a - 1) * c;
  }

  /** No interleaving goes on for ever: every run is at most Budget steps long. */
  lemma {:induction false} RunsEnd(s: State, n: nat, ws: seq<nat>)
    requires Inv(s, n) && RunFrom(s, n, ws).Some?
    ensures |ws| + Budget(RunFrom(s, n, ws).value, n) <= Budget(s, n)
    decreases |ws|
  {
    if ws != [] {
      NextSpendsBudget(s, n, ws[0]);
      NextInv(s, n, ws[0]);
      RunsEnd(Next(s, n, ws[0]), n, ws[1..]);
    }
  }
}
