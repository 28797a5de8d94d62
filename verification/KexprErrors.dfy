/** Which texts the parser refuses, and with which error, for every list of tokens. */
module KexprErrors {
  import opened KexprGrammar
  import opened KexprParser
  import opened KexprOperands

  // ----- the reference: brackets and counts, without any stack of operators

  /** The parentheses that are open, with a mark at those of calls, or the first fault. */
  datatype Brackets = Open(calls: seq<bool>) | Fault(error: Error)

  function BracketsOf(ts: seq<Token>): Brackets {
    if ts == [] then Open([])
    else
      var n := |ts| - 1;
      var b := BracketsOf(ts[..n]);
      if b.Fault? then b
      else Bracket(b.calls, n > 0 && ts[n - 1].FuncName?, ts[n])
  }

  /** One more token; call says that it stands behind a function name. */
  function Bracket(calls: seq<bool>, call: bool, t: Token): Brackets {
    match t
    case LP => Open(calls + [call])
    case RP => if calls == [] then Fault(UnmatchedRight) else Open(calls[..|calls| - 1])
    case Comma => if calls == [] || !calls[|calls| - 1] then Fault(FunctionSyntax) else Open(calls)
    case _ => Open(calls)
  }

  /** The last token that is not a parenthesis or a comma is a value. */
  predicate AfterValue(ts: seq<Token>) {
    ts != [] && var t := ts[|ts| - 1]; if t.LP? || t.RP? || t.Comma? then AfterValue(ts[..|ts| - 1]) else t.Atom?
  }

  /** Values less commas and operators with two operands; a sign is one of these behind a value. */
  function Surplus(ts: seq<Token>): int {
    if ts == [] then 0 else Surplus(ts[..|ts| - 1]) + Worth(ts[|ts| - 1], AfterValue(ts[..|ts| - 1]))
  }

  function Worth(t: Token, afterValue: bool): int {
    match t
    case Atom(_) => 1
    case Comma => -1
    case Plus | Minus => if afterValue then -1 else 0
    case Sym(op) => if op in {Pos, Neg, Bnot, Lnot} then 0 else -1
    case _ => 0
  }

  /** A name is one of a function if and only if a left parenthesis follows. */
  predicate Called(ts: seq<Token>) {
    forall i :: 0 <= i < |ts| && ts[i].FuncName? ==> i + 1 < |ts| && ts[i + 1].LP?
  }

  // ----- the stack of operators beside it

  /** The parentheses on the stack, with a mark at those on top of a function. */
  function Marks(ops: seq<Entry>): seq<bool> {
    if ops == [] then []
    else
      var n := |ops| - 1;
      Marks(ops[..n]) + if ops[n].Paren? then [n > 0 && ops[n - 1].FunE?] else []
  }

  /** Every function has its parenthesis on top of it, except one that has just been read. */
  predicate Nested(ops: seq<Entry>, name: bool) {
    && (forall i :: 0 <= i < |ops| - 1 && ops[i].FunE? ==> ops[i + 1].Paren?)
    && (name <==> ops != [] && ops[|ops| - 1].FunE?)
  }

  /** The state has these parentheses open, and this surplus of values. */
  predicate Tracks(s: State, calls: seq<bool>, n: int, last: bool, name: bool) {
    Marks(s.ops) == calls && Balance(s.out) - Owed(s.ops) == n && s.last == last && Nested(s.ops, name)
  }

  lemma MarksPush(ops: seq<Entry>, x: Entry)
    ensures Marks(ops + [x]) == Marks(ops) + if x.Paren? then [ops != [] && ops[|ops| - 1].FunE?] else []
  {
    assert (ops + [x])[..|ops|] == ops;
  }

  lemma MarksPop(ops: seq<Entry>)
    requires ops != []
    ensures var n := |ops| - 1; Marks(ops) == Marks(ops[..n]) + if ops[n].Paren? then [n > 0 && ops[n - 1].FunE?] else []
    ensures Owed(ops) == Owed(ops[..|ops| - 1]) + OwedFor(ops[|ops| - 1])
  {
  }

  lemma PopTracks(s: State, calls: seq<bool>, n: int, last: bool)
    requires Tracks(s, calls, n, last, false) && s.ops != [] && !s.ops[|s.ops| - 1].Paren?
    ensures Tracks(State(s.out + [ElemOf(s.ops[|s.ops| - 1])], s.ops[..|s.ops| - 1], s.last), calls, n, last, false)
  {
    hide Marks, Balance, Owed;
    MarksPop(s.ops);
    OutputPush(s.out, ElemOf(s.ops[|s.ops| - 1]));
  }

  lemma {:induction false} FlushTracks(s: State, calls: seq<bool>, n: int, last: bool)
    requires Tracks(s, calls, n, last, false)
    ensures Tracks(Flush(s), calls, n, last, false)
    ensures var ops := Flush(s).ops; ops == [] || ops[|ops| - 1].Paren?
    decreases |s.ops|
  {
    hide Tracks;
    if s.ops != [] && !s.ops[|s.ops| - 1].Paren? {
      PopTracks(s, calls, n, last);
      FlushTracks(State(s.out + [ElemOf(s.ops[|s.ops| - 1])], s.ops[..|s.ops| - 1], s.last), calls, n, last);
    }
  }

  lemma {:induction false} YieldTracks(s: State, op: Op, calls: seq<bool>, n: int, last: bool)
    requires Tracks(s, calls, n, last, false)
    ensures Tracks(Yield(s, op), calls, n, last, false)
    decreases |s.ops|
  {
    hide Tracks, Stays;
    if s.ops != [] && s.ops[|s.ops| - 1].OpE? && !Stays(op, s.ops[|s.ops| - 1].op) {
      PopTracks(s, calls, n, last);
      YieldTracks(State(s.out + [ElemOf(s.ops[|s.ops| - 1])], s.ops[..|s.ops| - 1], s.last), op, calls, n, last);
    }
  }

  /** Flushed down to a parenthesis, the stack shows whether one is open and whether it is that of a call. */
  lemma TopMark(u: State, calls: seq<bool>, n: int, last: bool)
    requires Tracks(u, calls, n, last, false) && (u.ops == [] || u.ops[|u.ops| - 1].Paren?)
    ensures calls == [] <==> u.ops == []
    ensures calls != [] ==> (calls[|calls| - 1] <==> |u.ops| >= 2 && u.ops[|u.ops| - 2].FunE?)
    ensures u.ops != [] ==> Marks(u.ops[..|u.ops| - 1]) == calls[..|calls| - 1]
  {
  }

  /** The token is taken, or refused, as the parentheses say. */
  ghost predicate Agrees(t: Token, r: Result<State>, b: Brackets, n: int, last: bool) {
    match b
    case Fault(e) => r == Failure(e)
    case Open(calls) =>
      r.Success? && Tracks(r.value, calls, n + Worth(t, last), if t.LP? || t.RP? || t.Comma? then last else t.Atom?, t.FuncName?)
  }

  lemma LeftAgrees(s: State, calls: seq<bool>, n: int, last: bool, name: bool)
    requires Tracks(s, calls, n, last, name)
    ensures Agrees(LP, Step(LP, s), Bracket(calls, name, LP), n, last)
  {
    hide Marks, Owed, Balance;
    MarksPush(s.ops, Paren);
    OwedPush(s.ops, Paren);
  }

  lemma AtomAgrees(v: nat, s: State, calls: seq<bool>, n: int, last: bool)
    requires Tracks(s, calls, n, last, false)
    ensures Agrees(Atom(v), Step(Atom(v), s), Bracket(calls, false, Atom(v)), n, last)
  {
    hide Marks, Owed, Balance;
    OutputPush(s.out, Val(v));
  }

  lemma NameAgrees(f: nat, s: State, calls: seq<bool>, n: int, last: bool)
    requires Tracks(s, calls, n, last, false)
    ensures Agrees(FuncName(f), Step(FuncName(f), s), Bracket(calls, false, FuncName(f)), n, last)
  {
    hide Marks, Owed, Balance;
    MarksPush(s.ops, FunE(f, 1));
    OwedPush(s.ops, FunE(f, 1));
  }

  lemma RightAgrees(s: State, calls: seq<bool>, n: int, last: bool)
    requires Tracks(s, calls, n, last, false)
    ensures Agrees(RP, Step(RP, s), Bracket(calls, false, RP), n, last)
  {
    hide Tracks, Flush;
    FlushTracks(s, calls, n, last);
    var u := Flush(s);
    TopMark(u, calls, n, last);
    if calls != [] {
      var v := u.(ops := u.ops[..|u.ops| - 1]);
      CloseTracks(u, calls, n, last);
      if v.ops != [] && v.ops[|v.ops| - 1].FunE? {
        CallTracks(v, calls[..|calls| - 1], n, last);
        assert v.ops[..|v.ops| - 1] == u.ops[..|u.ops| - 2];
      }
    }
  }

  lemma CloseTracks(u: State, calls: seq<bool>, n: int, last: bool)
    requires Tracks(u, calls, n, last, false) && u.ops != [] && u.ops[|u.ops| - 1].Paren? && calls != []
    ensures var v := u.(ops := u.ops[..|u.ops| - 1]);
      Tracks(v, calls[..|calls| - 1], n, last, v.ops != [] && v.ops[|v.ops| - 1].FunE?)
  {
    hide Balance;
    TopMark(u, calls, n, last);
    hide Marks, Owed;
    MarksPop(u.ops);
  }

  /** A function goes to the output with its parenthesis. */
  lemma CallTracks(v: State, calls: seq<bool>, n: int, last: bool)
    requires Tracks(v, calls, n, last, true)
    ensures Tracks(State(v.out + [ElemOf(v.ops[|v.ops| - 1])], v.ops[..|v.ops| - 1], v.last), calls, n, last, false)
  {
    hide Marks, Owed, Balance;
    MarksPop(v.ops);
    OutputPush(v.out, ElemOf(v.ops[|v.ops| - 1]));
  }

  lemma CommaAgrees(s: State, calls: seq<bool>, n: int, last: bool)
    requires Tracks(s, calls, n, last, false)
    ensures Agrees(Comma, Step(Comma, s), Bracket(calls, false, Comma), n, last)
  {
    hide Tracks, Flush;
    FlushTracks(s, calls, n, last);
    var u := Flush(s);
    TopMark(u, calls, n, last);
    if calls != [] && calls[|calls| - 1] {
      CommaTracks(u, calls, n, last);
    }
  }

  lemma CommaTracks(u: State, calls: seq<bool>, n: int, last: bool)
    requires Tracks(u, calls, n, last, false) && |u.ops| >= 2 && u.ops[|u.ops| - 1].Paren? && u.ops[|u.ops| - 2].FunE?
    ensures var k := |u.ops| - 2; Tracks(u.(ops := u.ops[k := FunE(u.ops[k].f, u.ops[k].nArgs + 1)]), calls, n - 1, last, false)
  {
    hide Balance, Marks, Owed;
    var k := |u.ops| - 2;
    ArgumentMarks(u.ops[..k], u.ops[k], FunE(u.ops[k].f, u.ops[k].nArgs + 1));
    assert u.ops == u.ops[..k] + [u.ops[k]] + [Paren];
    assert u.ops[k := FunE(u.ops[k].f, u.ops[k].nArgs + 1)] == u.ops[..k] + [FunE(u.ops[k].f, u.ops[k].nArgs + 1)] + [Paren];
  }

  lemma ArgumentMarks(ops: seq<Entry>, x: Entry, y: Entry)
    requires x.FunE? && y == FunE(x.f, x.nArgs + 1)
    ensures Marks(ops + [y] + [Paren]) == Marks(ops + [x] + [Paren]) && Owed(ops + [y] + [Paren]) == Owed(ops + [x] + [Paren]) + 1
  {
    hide Marks, Owed;
    MarksPush(ops, x);
    MarksPush(ops, y);
    MarksPush(ops + [x], Paren);
    MarksPush(ops + [y], Paren);
    OwedPush(ops, x);
    OwedPush(ops, y);
    OwedPush(ops + [x], Paren);
    OwedPush(ops + [y], Paren);
  }

  lemma OperatorAgrees(t: Token, s: State, calls: seq<bool>, n: int, last: bool)
    requires Tracks(s, calls, n, last, false) && (t.Plus? || t.Minus? || t.Sym?)
    ensures Agrees(t, Step(t, s), Bracket(calls, false, t), n, last)
  {
    hide Marks, Owed, Balance, Yield;
    var op := ReadOp(t, s.last);
    YieldTracks(s, op, calls, n, last);
    MarksPush(Yield(s, op).ops, OpE(op));
    OwedPush(Yield(s, op).ops, OpE(op));
  }

  lemma StepAgrees(t: Token, s: State, calls: seq<bool>, n: int, last: bool, name: bool)
    requires Tracks(s, calls, n, last, name) && (name ==> t.LP?)
    ensures Agrees(t, Step(t, s), Bracket(calls, name, t), n, last)
  {
    hide Tracks, Agrees, Step, Bracket;
    match t {
      case LP => LeftAgrees(s, calls, n, last, name);
      case RP => RightAgrees(s, calls, n, last);
      case Comma => CommaAgrees(s, calls, n, last);
      case Atom(v) => AtomAgrees(v, s, calls, n, last);
      case FuncName(f) => NameAgrees(f, s, calls, n, last);
      case _ => OperatorAgrees(t, s, calls, n, last);
    }
  }

  // ----- whole texts

  /** What becomes of a text with these brackets and this surplus. */
  ghost predicate Judged(r: Result<seq<Elem>>, b: Brackets, n: int) {
    match b
    case Fault(e) => r == Failure(e)
    case Open(calls) =>
      if calls != [] then r == Failure(UnmatchedLeft) else if n != 1 then r == Failure(ArgumentCount) else r.Success?
  }

  lemma FinishJudged(s: State, calls: seq<bool>, n: int, last: bool)
    requires Tracks(s, calls, n, last, false)
    ensures Judged(Finish(s), Open(calls), n)
  {
    hide Flush;
    FlushTracks(s, calls, n, last);
    hide Balance;
    TopMark(Flush(s), calls, n, last);
  }

  lemma {:induction false} FaultStays(ts: seq<Token>, k: nat)
    requires k <= |ts| && BracketsOf(ts[..k]).Fault?
    ensures BracketsOf(ts) == BracketsOf(ts[..k])
    decreases |ts|
  {
    if k < |ts| {
      assert ts[..|ts| - 1][..k] == ts[..k];
      FaultStays(ts[..|ts| - 1], k);
    } else {
      assert ts[..k] == ts;
    }
  }

  /** What is known once the first k tokens are read. */
  ghost predicate TracksAt(ts: seq<Token>, k: nat, s: State) {
    k <= |ts| && BracketsOf(ts[..k]).Open?
    && Tracks(s, BracketsOf(ts[..k]).calls, Surplus(ts[..k]), AfterValue(ts[..k]), k > 0 && ts[k - 1].FuncName?)
  }

  lemma OneMore(ts: seq<Token>, k: nat)
    requires k < |ts| && BracketsOf(ts[..k]).Open?
    ensures BracketsOf(ts[..k + 1]) == Bracket(BracketsOf(ts[..k]).calls, k > 0 && ts[k - 1].FuncName?, ts[k])
    ensures Surplus(ts[..k + 1]) == Surplus(ts[..k]) + Worth(ts[k], AfterValue(ts[..k]))
    ensures AfterValue(ts[..k + 1]) == if ts[k].LP? || ts[k].RP? || ts[k].Comma? then AfterValue(ts[..k]) else ts[k].Atom?
  {
    hide Bracket, Worth;
    assert ts[..k + 1][..k] == ts[..k];
  }

  lemma {:induction false} RunJudged(ts: seq<Token>, k: nat, s: State)
    requires Called(ts) && TracksAt(ts, k, s)
    ensures Judged(Run(ts[k..], s), BracketsOf(ts), Surplus(ts))
    decreases |ts| - k
  {
    hide Tracks, BracketsOf, Surplus, AfterValue, Step, Finish, Bracket, Worth, Judged;
    if k == |ts| {
      assert ts[..k] == ts && ts[k..] == [];
      FinishJudged(s, BracketsOf(ts).calls, Surplus(ts), AfterValue(ts));
    } else {
      assert ts[k..][0] == ts[k] && ts[k..][1..] == ts[k + 1..];
      StepAgrees(ts[k], s, BracketsOf(ts[..k]).calls, Surplus(ts[..k]), AfterValue(ts[..k]), k > 0 && ts[k - 1].FuncName?);
      OneMore(ts, k);
      if BracketsOf(ts[..k + 1]).Fault? {
        FaultStays(ts, k + 1);
        FaultJudged(Step(ts[k], s), BracketsOf(ts), Surplus(ts), Run(ts[k..], s));
      } else {
        RunJudged(ts, k + 1, Step(ts[k], s).value);
      }
    }
  }

  lemma FaultJudged(r: Result<State>, b: Brackets, n: int, all: Result<seq<Elem>>)
    requires b.Fault? && r == Failure(b.error) && all == Failure(b.error)
    ensures Judged(all, b, n)
  {
  }

  /** On every list of tokens: the first right parenthesis without a left one and the first comma outside of a call are
      refused; otherwise a parenthesis left open is; otherwise the text is accepted if and only if it has one value more
      than commas and operators with two operands. */
  lemma RefusesExactly(ts: seq<Token>)
    requires Called(ts)
    ensures match BracketsOf(ts)
      case Fault(e) => Parse(ts) == Failure(e)
      case Open(calls) => match Parse(ts) {
        case Failure(e) => if calls != [] then e == UnmatchedLeft else e == ArgumentCount && Surplus(ts) != 1
        case Success(code) => calls == [] && Surplus(ts) == 1
      }
  {
    hide Run, Surplus;
    assert ts[..0] == [] && ts[0..] == ts;
    NothingTracks(ts);
    RunJudged(ts, 0, State([], [], false));
  }

  lemma NothingTracks(ts: seq<Token>)
    ensures TracksAt(ts, 0, State([], [], false))
  {
  }

  /** Token k closes a parenthesis where none is open, or is a comma. */
  predicate FaultAt(ts: seq<Token>, k: nat, e: Error) {
    && k < |ts| && (e == UnmatchedRight || e == FunctionSyntax)
    && (e == UnmatchedRight ==> ts[k] == RP && multiset(ts[..k])[LP] == multiset(ts[..k])[RP])
    && (e == FunctionSyntax ==> ts[k] == Comma)
  }

  /** Without a fault, as many parentheses are open as there are more left ones than right ones; a fault is a right one
      too many or a comma. */
  lemma {:induction false} FaultsAre(ts: seq<Token>)
    ensures var b := BracketsOf(ts);
      if b.Open? then |b.calls| + multiset(ts)[RP] == multiset(ts)[LP] else exists k: nat :: FaultAt(ts, k, b.error)
    decreases |ts|
  {
    if ts != [] {
      var n := |ts| - 1;
      assert ts == ts[..n] + [ts[n]];
      FaultsAre(ts[..n]);
      if BracketsOf(ts[..n]).Fault? {
        var e := BracketsOf(ts[..n]).error;
        var k: nat :| FaultAt(ts[..n], k, e);
        assert ts[..n][..k] == ts[..k];
        assert FaultAt(ts, k, e);
      } else {
        var b := BracketsOf(ts);
        if b.Fault? { assert FaultAt(ts, n, b.error); }
      }
    }
  }
}
