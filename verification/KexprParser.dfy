/** The shunting-yard parser ke_parse_core at token level: what it does with every token list, and what the
    operator stack looks like while a rendered expression is read. Step is one pass of its loop; ParseCore
    is the loop itself. */
module KexprParser {
  import opened KexprGrammar

  /** Entries of the operator stack; the top is the last element. */
  datatype Entry = Paren | FunE(f: nat, nArgs: nat) | OpE(op: Op)

  datatype Error = UnmatchedRight | UnmatchedLeft | FunctionSyntax | ArgumentCount

  datatype Result<T> = Success(value: T) | Failure(error: Error)

  datatype State = State(out: seq<Elem>, ops: seq<Entry>, last: bool)

  function ElemOf(x: Entry): Elem
    requires !x.Paren?
  {
    match x
    case FunE(f, n) => Fun(f, n)
    case OpE(op) => Oper(op)
  }

  /** Moves entries to the output down to the innermost left parenthesis. */
  function Flush(s: State): State
    decreases |s.ops|
  {
    if s.ops != [] && !s.ops[|s.ops| - 1].Paren? then
      Flush(State(s.out + [ElemOf(s.ops[|s.ops| - 1])], s.ops[..|s.ops| - 1], s.last))
    else s
  }

  /** The new operator op leaves the operator top on the stack. */
  predicate Stays(op: Op, top: Op) {
    if Right(op) then Prec(op) <= Prec(top) else Prec(op) < Prec(top)
  }

  /** Moves operators to the output that bind at least as tightly as the new operator op. */
  function Yield(s: State, op: Op): State
    decreases |s.ops|
  {
    if s.ops != [] && s.ops[|s.ops| - 1].OpE? && !Stays(op, s.ops[|s.ops| - 1].op) then
      Yield(State(s.out + [ElemOf(s.ops[|s.ops| - 1])], s.ops[..|s.ops| - 1], s.last), op)
    else s
  }

  /** One round of the parsing loop. */
  function Step(t: Token, s: State): Result<State> {
    match t
    case LP => Success(s.(ops := s.ops + [Paren]))
    case RP =>
      var u := Flush(s);
      var n := |u.ops|;
      if n == 0 then Failure(UnmatchedRight)
      else if n > 1 && u.ops[n - 2].FunE? then Success(State(u.out + [ElemOf(u.ops[n - 2])], u.ops[..n - 2], u.last))
      else Success(u.(ops := u.ops[..n - 1]))
    case Comma =>
      var u := Flush(s);
      var n := |u.ops|;
      if n < 2 || !u.ops[n - 2].FunE? then Failure(FunctionSyntax)
      else Success(u.(ops := u.ops[n - 2 := FunE(u.ops[n - 2].f, u.ops[n - 2].nArgs + 1)]))
    case Atom(v) => Success(State(s.out + [Val(v)], s.ops, true))
    case FuncName(f) => Success(State(s.out, s.ops + [FunE(f, 1)], false))
    case _ =>
      var op := ReadOp(t, s.last);
      var u := Yield(s, op);
      Success(State(u.out, u.ops + [OpE(op)], false))
  }

  /** Values left on an evaluation stack by the code, counting only. */
  function Balance(code: seq<Elem>): int {
    if code == [] then 0 else Balance(code[..|code| - 1]) + BalanceOf(code[|code| - 1])
  }

  function BalanceOf(x: Elem): int {
    match x
    case Val(_) => 1
    case Fun(_, n) => 1 - n
    case Oper(op) => if Unary(op) then 0 else -1
  }

  /** What happens at the end of the text. */
  function Finish(s: State): Result<seq<Elem>> {
    var u := Flush(s);
    if u.ops != [] then Failure(UnmatchedLeft)
    else if Balance(u.out) != 1 then Failure(ArgumentCount)
    else Success(u.out)
  }

  function Run(ts: seq<Token>, s: State): Result<seq<Elem>> {
    if ts == [] then Finish(s)
    else match Step(ts[0], s)
      case Failure(e) => Failure(e)
      case Success(u) => Run(ts[1..], u)
  }

  function Parse(ts: seq<Token>): Result<seq<Elem>> {
    Run(ts, State([], [], false))
  }

  // ----- the parser itself

  /** ke_parse_core on a token list. */
  method ParseCore(ts: seq<Token>) returns (r: Result<seq<Elem>>)
    ensures r == Parse(ts)
  {
    hide Flush, Yield, ReadOp, Balance;
    var out: seq<Elem>, op: seq<Entry>, lastIsVal := [], [], false;
    var p := 0;
    while p < |ts|
      invariant 0 <= p <= |ts|
      invariant Parse(ts) == Run(ts[p..], State(out, op, lastIsVal))
    {
      assert ts[p..][0] == ts[p] && ts[p..][1..] == ts[p + 1..];
      match ts[p] {
        case LP =>
          op := op + [Paren];
        case RP =>
          out, op := MoveToParen(out, op, lastIsVal);
          if |op| == 0 {
            return Failure(UnmatchedRight);
          }
          ghost var all := op;
          op := op[..|op| - 1];
          if |op| > 0 && op[|op| - 1].FunE? {
            out, op := out + [ElemOf(op[|op| - 1])], op[..|op| - 1];
            assert op == all[..|all| - 2];
          }
        case Comma =>
          out, op := MoveToParen(out, op, lastIsVal);
          if |op| < 2 || !op[|op| - 2].FunE? {
            return Failure(FunctionSyntax);
          }
          op := op[|op| - 2 := FunE(op[|op| - 2].f, op[|op| - 2].nArgs + 1)];
        case Atom(v) =>
          out, lastIsVal := out + [Val(v)], true;
        case FuncName(f) =>
          op, lastIsVal := op + [FunE(f, 1)], false;
        case _ =>
          var o := ReadOp(ts[p], lastIsVal);
          out, op := MoveTighter(out, op, lastIsVal, o);
          op, lastIsVal := op + [OpE(o)], false;
      }
      p := p + 1;
    }
    out, op := MoveToParen(out, op, lastIsVal);
    if |op| > 0 {
      return Failure(UnmatchedLeft);
    }
    var n := CountValues(out);
    r := if n != 1 then Failure(ArgumentCount) else Success(out);
  }

  method MoveToParen(out0: seq<Elem>, op0: seq<Entry>, ghost last: bool) returns (out: seq<Elem>, op: seq<Entry>)
    ensures Flush(State(out0, op0, last)) == State(out, op, last)
  {
    out, op := out0, op0;
    while |op| > 0 && !op[|op| - 1].Paren?
      invariant Flush(State(out0, op0, last)) == Flush(State(out, op, last))
      decreases |op|
    {
      out, op := out + [ElemOf(op[|op| - 1])], op[..|op| - 1];
    }
  }

  method MoveTighter(out0: seq<Elem>, op0: seq<Entry>, ghost last: bool, o: Op) returns (out: seq<Elem>, op: seq<Entry>)
    ensures Yield(State(out0, op0, last), o) == State(out, op, last)
  {
    out, op := out0, op0;
    while |op| > 0 && op[|op| - 1].OpE?
      invariant Yield(State(out0, op0, last), o) == Yield(State(out, op, last), o)
      decreases |op|
    {
      var pre := Prec(op[|op| - 1].op);
      if (Right(o) && Prec(o) <= pre) || (!Right(o) && Prec(o) < pre) {
        break;
      }
      out, op := out + [ElemOf(op[|op| - 1])], op[..|op| - 1];
    }
  }

  method CountValues(out: seq<Elem>) returns (n: int)
    ensures n == Balance(out)
  {
    n := 0;
    for i := 0 to |out|
      invariant n == Balance(out[..i])
    {
      assert out[..i + 1][..i] == out[..i];
      n := match out[i] case Val(_) => n + 1 case Fun(_, k) => n - (k - 1) case Oper(op) => if Unary(op) then n else n - 1;
    }
    assert out[..|out|] == out;
  }

  // ----- what the parser has done once it has read an expression

  /** Output made while reading e, and operators of e still on the stack. */
  function Done(e: Expr): seq<Elem> {
    match e
    case Un(_, x) => Done(x)
    case Bin(_, l, r) => Postfix(l) + Done(r)
    case _ => Postfix(e)
  }

  function Pending(e: Expr): seq<Op> {
    match e
    case Un(op, x) => [op] + Pending(x)
    case Bin(op, _, r) => [op] + Pending(r)
    case _ => []
  }

  /** Stack entries of pending operators, and the output they turn into, top first. */
  function Entries(p: seq<Op>): (r: seq<Entry>)
    ensures |r| == |p| && forall i :: 0 <= i < |r| ==> r[i] == OpE(p[i])
  {
    seq(|p|, i requires 0 <= i < |p| => OpE(p[i]))
  }

  function Reversed(p: seq<Op>): seq<Elem> {
    if p == [] then [] else Reversed(p[1..]) + [Oper(p[0])]
  }

  lemma {:induction false} DonePlusPending(e: Expr)
    ensures Done(e) + Reversed(Pending(e)) == Postfix(e)
  {
    match e {
      case Un(op, x) =>
        DonePlusPending(x);
        assert ([op] + Pending(x))[1..] == Pending(x);
      case Bin(op, l, r) =>
        DonePlusPending(r);
        assert ([op] + Pending(r))[1..] == Pending(r);
      case _ =>
        assert Reversed([]) == [];
    }
  }

  lemma {:induction false} PendingTight(e: Expr)
    requires Grouped(e)
    ensures forall i :: 0 <= i < |Pending(e)| ==> Prec(Pending(e)[i]) <= Level(e)
  {
    match e {
      case Un(op, x) => PendingTight(x);
      case Bin(op, l, r) => PendingTight(r);
      case _ =>
    }
  }

  lemma ReversedFirst(p: seq<Op>)
    requires p != []
    ensures Reversed(p) == Reversed(p[1..]) + [Oper(p[0])]
  {
  }

  lemma ReversedNothing()
    ensures Reversed([]) == []
  {
  }

  lemma ReversedLast(p: seq<Op>)
    requires p != []
    ensures Reversed(p) == [Oper(p[|p| - 1])] + Reversed(p[..|p| - 1])
  {
    hide Reversed;
    var q := p[..|p| - 1];
    ReversedFirst(p);
    if |p| > 1 {
      ReversedFirst(q);
      ReversedLast(p[1..]);
      assert p[1..][..|p| - 2] == q[1..];
    } else {
      assert p[1..] == [] && q == [];
      ReversedNothing();
    }
  }

  /** Flushing pending operators. */
  lemma {:induction false} FlushPending(out: seq<Elem>, ops: seq<Entry>, p: seq<Op>, last: bool)
    ensures Flush(State(out, ops + Entries(p), last)) == Flush(State(out + Reversed(p), ops, last))
    decreases |p|
  {
    if p == [] {
      assert ops + Entries(p) == ops && out + Reversed(p) == out;
    } else {
      var k := |p| - 1;
      var all := ops + Entries(p);
      assert all[|all| - 1] == OpE(p[k]) && all[..|all| - 1] == ops + Entries(p[..k]);
      ReversedLast(p);
      FlushPending(out + [Oper(p[k])], ops, p[..k], last);
      assert out + [Oper(p[k])] + Reversed(p[..k]) == out + Reversed(p);
    }
  }

  /** The operator stack lets an expression of level lv stay together: no operator of that level would
      move what is below it to the output. */
  predicate Fits(lv: nat, ops: seq<Entry>) {
    ops != [] && ops[|ops| - 1].OpE? ==>
      lv < Prec(ops[|ops| - 1].op) || (lv == Prec(ops[|ops| - 1].op) && lv <= 2)
  }

  lemma YieldNothing(out: seq<Elem>, ops: seq<Entry>, last: bool, op: Op)
    requires Fits(Prec(op), ops)
    ensures Yield(State(out, ops, last), op) == State(out, ops, last)
  {
  }

  /** A new operator moves the pending operators of its left operand to the output and nothing else. */
  lemma {:induction false} YieldPending(out: seq<Elem>, ops: seq<Entry>, p: seq<Op>, last: bool, op: Op)
    requires forall i :: 0 <= i < |p| ==> !Stays(op, p[i])
    requires Fits(Prec(op), ops)
    ensures Yield(State(out, ops + Entries(p), last), op) == State(out + Reversed(p), ops, last)
    decreases |p|
  {
    hide Stays, Prec, Fits, Yield;
    if p == [] {
      YieldNothing(out, ops, last, op);
      assert ops + Entries(p) == ops && out + Reversed(p) == out;
    } else {
      var k := |p| - 1;
      YieldOne(out, ops, p, last, op);
      ReversedLast(p);
      YieldPending(out + [Oper(p[k])], ops, p[..k], last, op);
      assert out + [Oper(p[k])] + Reversed(p[..k]) == out + Reversed(p);
    }
  }

  lemma YieldOne(out: seq<Elem>, ops: seq<Entry>, p: seq<Op>, last: bool, op: Op)
    requires p != [] && !Stays(op, p[|p| - 1])
    ensures var k := |p| - 1;
      Yield(State(out, ops + Entries(p), last), op) == Yield(State(out + [Oper(p[k])], ops + Entries(p[..k]), last), op)
  {
    var k := |p| - 1;
    var all := ops + Entries(p);
    assert all[|all| - 1] == OpE(p[k]) && all[..|all| - 1] == ops + Entries(p[..k]);
    hide Stays, Prec;
  }
}
