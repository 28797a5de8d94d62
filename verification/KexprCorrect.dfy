/** The parser yields an expression's postfix code exactly when no argument after a comma begins with a sign. */
module KexprCorrect {
  import opened KexprGrammar
  import opened KexprParser

  predicate NoFunctionOnTop(ops: seq<Entry>) {
    ops == [] || !ops[|ops| - 1].FunE?
  }

  lemma RunOne(t: Token, ts: seq<Token>, s: State)
    requires Step(t, s).Success?
    ensures Run([t] + ts, s) == Run(ts, Step(t, s).value)
  {
    assert ([t] + ts)[1..] == ts;
  }

  /** A closing parenthesis after an expression. */
  lemma CloseGroup(e: Expr, out: seq<Elem>, ops: seq<Entry>, ts: seq<Token>)
    requires NoFunctionOnTop(ops)
    ensures Run([RP] + ts, State(out + Done(e), ops + [Paren] + Entries(Pending(e)), true)) == Run(ts, State(out + Postfix(e), ops, true))
  {
    var s := State(out + Done(e), ops + [Paren] + Entries(Pending(e)), true);
    FlushExpr(e, out, ops + [Paren]);
    assert (ops + [Paren])[..|ops|] == ops;
    RunOne(RP, ts, s);
  }

  lemma FlushExpr(e: Expr, out: seq<Elem>, ops: seq<Entry>)
    ensures Flush(State(out + Done(e), ops + Entries(Pending(e)), true)) == Flush(State(out + Postfix(e), ops, true))
  {
    FlushPending(out + Done(e), ops, Pending(e), true);
    DonePlusPending(e);
    assert out + Done(e) + Reversed(Pending(e)) == out + Postfix(e);
  }

  /** A closing parenthesis after the last argument of a call. */
  lemma CloseCall(e: Expr, out: seq<Elem>, ops: seq<Entry>, f: nat, k: nat, ts: seq<Token>)
    ensures Run([RP] + ts, State(out + Done(e), ops + [FunE(f, k), Paren] + Entries(Pending(e)), true))
         == Run(ts, State(out + Postfix(e) + [Fun(f, k)], ops, true))
  {
    hide Done, Pending, Postfix, Entries, Flush, Run;
    var inner := ops + [FunE(f, k), Paren];
    FlushExpr(e, out, inner);
    FlushAtParen(State(out + Postfix(e), inner, true));
    assert inner[..|inner| - 2] == ops && inner[|inner| - 2] == FunE(f, k);
    RunOne(RP, ts, State(out + Done(e), inner + Entries(Pending(e)), true));
  }

  lemma FlushAtParen(s: State)
    requires s.ops != [] && s.ops[|s.ops| - 1].Paren?
    ensures Flush(s) == s
  {
  }

  /** A comma after an argument. */
  lemma NextArgument(e: Expr, out: seq<Elem>, ops: seq<Entry>, f: nat, k: nat, ts: seq<Token>)
    ensures Run([Comma] + ts, State(out + Done(e), ops + [FunE(f, k), Paren] + Entries(Pending(e)), true))
         == Run(ts, State(out + Postfix(e), ops + [FunE(f, k + 1), Paren], true))
  {
    hide Done, Pending, Postfix, Entries, Flush, Run;
    var inner := ops + [FunE(f, k), Paren];
    FlushExpr(e, out, inner);
    FlushAtParen(State(out + Postfix(e), inner, true));
    var n := |inner|;
    assert inner[n - 2] == FunE(f, k) && inner[n - 2 := FunE(f, k + 1)] == ops + [FunE(f, k + 1), Paren];
    RunOne(Comma, ts, State(out + Done(e), inner + Entries(Pending(e)), true));
  }

  /** A prefix operator. */
  lemma PrefixOperator(op: Op, out: seq<Elem>, ops: seq<Entry>, last: bool, ts: seq<Token>)
    requires Unary(op) && Fits(1, ops) && (last ==> !Signed(op))
    ensures Run([TokenOf(op)] + ts, State(out, ops, last)) == Run(ts, State(out, ops + [OpE(op)], false))
  {
    YieldNothing(out, ops, last, op);
    assert ReadOp(TokenOf(op), last) == op;
    hide Yield;
    RunOne(TokenOf(op), ts, State(out, ops, last));
  }

  /** An infix operator after its left operand. */
  lemma InfixOperator(op: Op, l: Expr, out: seq<Elem>, ops: seq<Entry>, ts: seq<Token>)
    requires !Unary(op) && Grouped(l) && Fits(Prec(op), ops)
    requires if Right(op) then Level(l) < Prec(op) else Level(l) <= Prec(op)
    ensures Run([TokenOf(op)] + ts, State(out + Done(l), ops + Entries(Pending(l)), true))
         == Run(ts, State(out + Postfix(l), ops + [OpE(op)], false))
  {
    YieldLeft(op, l, out, ops);
    OperatorStep(op, State(out + Done(l), ops + Entries(Pending(l)), true));
    hide Yield, Done, Pending, Postfix, Step, Prec, Fits, Grouped, Level;
    RunOne(TokenOf(op), ts, State(out + Done(l), ops + Entries(Pending(l)), true));
  }

  lemma YieldLeft(op: Op, l: Expr, out: seq<Elem>, ops: seq<Entry>)
    requires !Unary(op) && Grouped(l) && Fits(Prec(op), ops)
    requires if Right(op) then Level(l) < Prec(op) else Level(l) <= Prec(op)
    ensures Yield(State(out + Done(l), ops + Entries(Pending(l)), true), op) == State(out + Postfix(l), ops, true)
  {
    hide Yield, Done, Pending, Postfix, Reversed, Grouped, Level, Fits;
    PendingTight(l);
    DonePlusPending(l);
    assert out + Done(l) + Reversed(Pending(l)) == out + Postfix(l);
    YieldPending(out + Done(l), ops, Pending(l), true, op);
  }

  /** A binary operator after a value. */
  lemma OperatorStep(op: Op, s: State)
    requires !Unary(op) && s.last
    ensures var u := Yield(s, op); Step(TokenOf(op), s) == Success(State(u.out, u.ops + [OpE(op)], false))
  {
    assert ReadOp(TokenOf(op), true) == op;
    hide Yield;
  }

  lemma EntriesFirst(op: Op, p: seq<Op>, ops: seq<Entry>)
    ensures ops + [OpE(op)] + Entries(p) == ops + Entries([op] + p)
  {
  }

  lemma FitsInside(op: Op, lv: nat, ops: seq<Entry>)
    requires if Right(op) then lv <= Prec(op) else lv < Prec(op)
    ensures Fits(lv, ops + [OpE(op)])
  {
  }

  lemma FitsTighter(lv: nat, p: nat, ops: seq<Entry>)
    requires Fits(p, ops) && lv <= p
    ensures Fits(lv, ops)
  {
  }

  /** Reading a rendered expression from any state it fits into. */
  lemma {:induction false} ParseExpr(e: Expr, out: seq<Elem>, ops: seq<Entry>, last: bool, ts: seq<Token>)
    requires Grouped(e) && CommaSafe(e) && Fits(Level(e), ops) && NoFunctionOnTop(ops)
    requires last ==> !SignFirst(e)
    ensures Run(Render(e) + ts, State(out, ops, last)) == Run(ts, State(out + Done(e), ops + Entries(Pending(e)), true))
    decreases e, 1
  {
    hide Run, Step, Flush, Yield, Fits, Prec, Right;
    match e {
      case Lit(v) => ParseLit(v, out, ops, last, ts);
      case Group(x) => ParseGroup(x, out, ops, last, ts);
      case Call(f, args) => ParseCall(f, args, out, ops, last, ts);
      case Un(op, x) =>
        UnaryRight(op);
        FitsInside(op, Level(x), ops);
        assert Render(e) + ts == [TokenOf(op)] + (Render(x) + ts);
        PrefixOperator(op, out, ops, last, Render(x) + ts);
        ParseExpr(x, out, ops + [OpE(op)], false, ts);
        EntriesFirst(op, Pending(x), ops);
      case Bin(op, l, r) => ParseBin(op, l, r, out, ops, last, ts);
    }
  }

  lemma UnaryRight(op: Op)
    requires Unary(op)
    ensures Right(op) && Prec(op) == 1
  {
  }

  lemma ParseLit(v: nat, out: seq<Elem>, ops: seq<Entry>, last: bool, ts: seq<Token>)
    ensures Run(Render(Lit(v)) + ts, State(out, ops, last)) == Run(ts, State(out + Done(Lit(v)), ops + Entries(Pending(Lit(v))), true))
  {
    RunOne(Atom(v), ts, State(out, ops, last));
    assert ops + Entries([]) == ops;
  }

  lemma {:induction false} ParseGroup(x: Expr, out: seq<Elem>, ops: seq<Entry>, last: bool, ts: seq<Token>)
    requires Grouped(x) && CommaSafe(x) && NoFunctionOnTop(ops) && (last ==> !SignFirst(x))
    ensures Run(Render(Group(x)) + ts, State(out, ops, last))
         == Run(ts, State(out + Done(Group(x)), ops + Entries(Pending(Group(x))), true))
    decreases Group(x), 0
  {
    var body := Render(x) + ([RP] + ts);
    assert Render(Group(x)) + ts == [LP] + body;
    RunOne(LP, body, State(out, ops, last));
    ParseExpr(x, out, ops + [Paren], last, [RP] + ts);
    CloseGroup(x, out, ops, ts);
    assert ops + Entries([]) == ops;
  }

  lemma {:induction false} ParseCall(f: nat, args: Args, out: seq<Elem>, ops: seq<Entry>, last: bool, ts: seq<Token>)
    requires GroupedArgs(args) && CommaSafeArgs(args, false)
    ensures Run(Render(Call(f, args)) + ts, State(out, ops, last))
         == Run(ts, State(out + Done(Call(f, args)), ops + Entries(Pending(Call(f, args))), true))
    decreases Call(f, args), 0
  {
    var body := RenderArgs(args) + ([RP] + ts);
    assert Render(Call(f, args)) + ts == [FuncName(f)] + ([LP] + body);
    RunOne(FuncName(f), [LP] + body, State(out, ops, last));
    RunOne(LP, body, State(out, ops + [FunE(f, 1)], false));
    assert ops + [FunE(f, 1)] + [Paren] == ops + [FunE(f, 1), Paren];
    ParseArgs(args, out, ops, f, 1, false, false, ts);
    assert out + PostfixArgs(args) + [Fun(f, ArgCount(args))] == out + Done(Call(f, args));
    assert ops + Entries([]) == ops;
  }

  lemma {:induction false} ParseArgs(a: Args, out: seq<Elem>, ops: seq<Entry>, f: nat, k: nat, last: bool, later: bool, ts: seq<Token>)
    requires GroupedArgs(a) && CommaSafeArgs(a, later) && (last ==> later)
    ensures Run(RenderArgs(a) + ([RP] + ts), State(out, ops + [FunE(f, k), Paren], last))
         == Run(ts, State(out + PostfixArgs(a) + [Fun(f, k + ArgCount(a) - 1)], ops, true))
    decreases a, 0
  {
    hide Run, Step, Flush, Yield, Prec;
    var x := a.first;
    var inner := ops + [FunE(f, k), Paren];
    match a {
      case One(_) =>
        ParseExpr(x, out, inner, last, [RP] + ts);
        CloseCall(x, out, ops, f, k, ts);
      case More(_, rest) =>
        var tail := RenderArgs(rest) + ([RP] + ts);
        assert RenderArgs(a) + ([RP] + ts) == Render(x) + ([Comma] + tail);
        ParseExpr(x, out, inner, last, [Comma] + tail);
        NextArgument(x, out, ops, f, k, tail);
        ParseArgs(rest, out + Postfix(x), ops, f, k + 1, true, true, ts);
        assert out + Postfix(x) + PostfixArgs(rest) == out + PostfixArgs(a);
    }
  }

  lemma {:induction false} ParseLeft(op: Op, l: Expr, out: seq<Elem>, ops: seq<Entry>, last: bool, ts: seq<Token>)
    requires !Unary(op) && Grouped(l) && CommaSafe(l) && Fits(Prec(op), ops) && NoFunctionOnTop(ops)
    requires if Right(op) then Level(l) < Prec(op) else Level(l) <= Prec(op)
    requires last ==> !SignFirst(l)
    ensures Run(Render(l) + ([TokenOf(op)] + ts), State(out, ops, last)) == Run(ts, State(out + Postfix(l), ops + [OpE(op)], false))
    decreases l, 2
  {
    FitsTighter(Level(l), Prec(op), ops);
    hide Run, Fits, Render, Postfix, Prec, Level, SignFirst, CommaSafe;
    ParseExpr(l, out, ops, last, [TokenOf(op)] + ts);
    InfixOperator(op, l, out, ops, ts);
  }

  lemma {:induction false} ParseBin(op: Op, l: Expr, r: Expr, out: seq<Elem>, ops: seq<Entry>, last: bool, ts: seq<Token>)
    requires Grouped(Bin(op, l, r)) && CommaSafe(l) && CommaSafe(r) && Fits(Prec(op), ops) && NoFunctionOnTop(ops)
    requires last ==> !SignFirst(l)
    ensures Run(Render(Bin(op, l, r)) + ts, State(out, ops, last))
         == Run(ts, State(out + Done(Bin(op, l, r)), ops + Entries(Pending(Bin(op, l, r))), true))
    decreases Bin(op, l, r), 0
  {
    RenderBin(op, l, r, ts);
    FitsInside(op, Level(r), ops);
    hide Run, Fits, Render, Postfix, Prec, Level, SignFirst, CommaSafe;
    ParseLeft(op, l, out, ops, last, Render(r) + ts);
    ParseExpr(r, out + Postfix(l), ops + [OpE(op)], false, ts);
    EntriesFirst(op, Pending(r), ops);
    assert out + Postfix(l) + Done(r) == out + Done(Bin(op, l, r));
  }

  lemma RenderBin(op: Op, l: Expr, r: Expr, ts: seq<Token>)
    ensures Render(Bin(op, l, r)) + ts == Render(l) + ([TokenOf(op)] + (Render(r) + ts))
  {
  }

  // ----- the argument check at the end

  lemma {:induction false} BalanceAppend(a: seq<Elem>, b: seq<Elem>)
    ensures Balance(a + b) == Balance(a) + Balance(b)
  {
    if b == [] {
      assert a + b == a;
    } else {
      var k := |b| - 1;
      assert (a + b)[..|a + b| - 1] == a + b[..k];
      BalanceAppend(a, b[..k]);
    }
  }

  lemma {:induction false} BalanceOne(x: Elem)
    ensures Balance([x]) == BalanceOf(x)
  {
    assert [x][..0] == [];
  }

  /** Postfix code of an expression leaves one value. */
  lemma {:induction false} PostfixBalance(e: Expr)
    requires Grouped(e)
    ensures Balance(Postfix(e)) == 1
  {
    hide Balance;
    match e {
      case Lit(v) => BalanceOne(Val(v));
      case Group(x) => PostfixBalance(x);
      case Call(f, args) =>
        PostfixArgsBalance(args);
        BalanceAppend(PostfixArgs(args), [Fun(f, ArgCount(args))]);
        BalanceOne(Fun(f, ArgCount(args)));
      case Un(op, x) =>
        PostfixBalance(x);
        BalanceAppend(Postfix(x), [Oper(op)]);
        BalanceOne(Oper(op));
      case Bin(op, l, r) =>
        PostfixBalance(l);
        PostfixBalance(r);
        BalanceAppend(Postfix(l), Postfix(r));
        BalanceAppend(Postfix(l) + Postfix(r), [Oper(op)]);
        BalanceOne(Oper(op));
    }
  }

  lemma {:induction false} PostfixArgsBalance(a: Args)
    requires GroupedArgs(a)
    ensures Balance(PostfixArgs(a)) == ArgCount(a)
  {
    PostfixBalance(a.first);
    if a.More? {
      PostfixArgsBalance(a.rest);
      BalanceAppend(Postfix(a.first), PostfixArgs(a.rest));
    }
  }

  lemma ParseRendered(e: Expr)
    requires Grouped(e) && CommaSafe(e)
    ensures Parse(Render(e)) == Success(Postfix(e))
  {
    hide Render, Done, Pending, Postfix, Balance, Grouped, CommaSafe, Step, Entries;
    ParseExpr(e, [], [], false, []);
    assert Render(e) + [] == Render(e) && [] + Done(e) == Done(e) && [] + Entries(Pending(e)) == Entries(Pending(e));
    FlushExpr(e, [], []);
    assert [] + Postfix(e) == Postfix(e);
    PostfixBalance(e);
  }

  // ----- signs read as the wrong operator

  function SignElems(code: seq<Elem>): nat {
    if code == [] then 0
    else SignElems(code[..|code| - 1]) + (if code[|code| - 1].Oper? && Signed(code[|code| - 1].op) then 1 else 0)
  }

  function SignEntries(ops: seq<Entry>): nat {
    if ops == [] then 0
    else SignEntries(ops[..|ops| - 1]) + (if ops[|ops| - 1].OpE? && Signed(ops[|ops| - 1].op) then 1 else 0)
  }

  /** Tokens + and - that are read as signs, starting after a value or not. */
  function SignTokens(ts: seq<Token>, last: bool): nat {
    if ts == [] then 0
    else match ts[0]
      case Atom(_) => SignTokens(ts[1..], true)
      case LP | RP | Comma => SignTokens(ts[1..], last)
      case FuncName(_) => SignTokens(ts[1..], false)
      case Plus | Minus => (if last then 0 else 1) + SignTokens(ts[1..], false)
      case Sym(op) => (if Signed(op) then 1 else 0) + SignTokens(ts[1..], false)
  }

  lemma SignElemsPush(code: seq<Elem>, x: Elem)
    ensures SignElems(code + [x]) == SignElems(code) + if x.Oper? && Signed(x.op) then 1 else 0
  {
    assert (code + [x])[..|code|] == code;
  }

  lemma SignEntriesPop(ops: seq<Entry>)
    requires ops != []
    ensures SignEntries(ops) == SignEntries(ops[..|ops| - 1]) + if ops[|ops| - 1].OpE? && Signed(ops[|ops| - 1].op) then 1 else 0
  {
  }

  lemma SignEntriesPush(ops: seq<Entry>, x: Entry)
    ensures SignEntries(ops + [x]) == SignEntries(ops) + if x.OpE? && Signed(x.op) then 1 else 0
  {
    assert (ops + [x])[..|ops|] == ops;
  }

  function SignsIn(s: State): nat {
    SignElems(s.out) + SignEntries(s.ops)
  }

  lemma {:induction false} FlushSigns(s: State)
    ensures SignsIn(Flush(s)) == SignsIn(s)
    ensures Flush(s).last == s.last && (Flush(s).ops != [] ==> Flush(s).ops[|Flush(s).ops| - 1].Paren?)
    decreases |s.ops|
  {
    if s.ops != [] && !s.ops[|s.ops| - 1].Paren? {
      var x := s.ops[|s.ops| - 1];
      SignElemsPush(s.out, ElemOf(x));
      FlushSigns(State(s.out + [ElemOf(x)], s.ops[..|s.ops| - 1], s.last));
    }
  }

  lemma {:induction false} YieldSigns(s: State, op: Op)
    ensures SignsIn(Yield(s, op)) == SignsIn(s) && Yield(s, op).last == s.last
    decreases |s.ops|
  {
    hide Stays, Prec;
    if s.ops != [] && s.ops[|s.ops| - 1].OpE? && !Stays(op, s.ops[|s.ops| - 1].op) {
      var x := s.ops[|s.ops| - 1];
      var t := State(s.out + [ElemOf(x)], s.ops[..|s.ops| - 1], s.last);
      assert Yield(s, op) == Yield(t, op);
      SignElemsPush(s.out, ElemOf(x));
      assert SignsIn(t) == SignsIn(s);
      hide Yield, SignEntries, SignElems, SignsIn;
      YieldSigns(t, op);
    }
  }

  lemma StepSigns(t: Token, s: State)
    requires Step(t, s).Success?
    ensures SignsIn(Step(t, s).value) == SignsIn(s) + (if (t.Plus? || t.Minus? || t.Sym?) && Signed(ReadOp(t, s.last)) then 1 else 0)
    ensures Step(t, s).value.last == if t.Atom? then true else if t.LP? || t.RP? || t.Comma? then s.last else false
  {
    hide Flush, SignEntries, SignElems;
    FlushSigns(s);
    var u := Flush(s);
    var n := |u.ops|;
    match t {
      case LP => SignEntriesPush(s.ops, Paren);
      case RP =>
        SignEntriesPop(u.ops);
        if n > 1 && u.ops[n - 2].FunE? {
          SignEntriesPop(u.ops[..n - 1]);
          assert u.ops[..n - 1][..n - 2] == u.ops[..n - 2];
          SignElemsPush(u.out, ElemOf(u.ops[n - 2]));
        }
      case Comma => CommaSigns(u.ops);
      case Atom(v) => SignElemsPush(s.out, Val(v));
      case FuncName(f) => SignEntriesPush(s.ops, FunE(f, 1));
      case _ =>
        YieldSigns(s, ReadOp(t, s.last));
        SignEntriesPush(Yield(s, ReadOp(t, s.last)).ops, OpE(ReadOp(t, s.last)));
    }
  }

  lemma CommaSigns(ops: seq<Entry>)
    requires |ops| >= 2 && ops[|ops| - 2].FunE?
    ensures SignEntries(ops[|ops| - 2 := FunE(ops[|ops| - 2].f, ops[|ops| - 2].nArgs + 1)]) == SignEntries(ops)
  {
    var n := |ops|;
    var x := FunE(ops[n - 2].f, ops[n - 2].nArgs + 1);
    assert ops[n - 2 := x][..n - 1] == ops[..n - 2] + [x] && ops[..n - 1] == ops[..n - 2] + [ops[n - 2]];
    SignEntriesPush(ops[..n - 2], x);
    SignEntriesPush(ops[..n - 2], ops[n - 2]);
  }

  /** The parser neither makes nor loses signs: those in its output are the tokens it read as signs. */
  lemma {:induction false} RunSigns(ts: seq<Token>, s: State)
    requires Run(ts, s).Success?
    ensures SignElems(Run(ts, s).value) == SignsIn(s) + SignTokens(ts, s.last)
    decreases |ts|
  {
    if ts == [] {
      FlushSigns(s);
    } else {
      StepSigns(ts[0], s);
      hide Step, SignElems, SignEntries;
      RunSigns(ts[1..], Step(ts[0], s).value);
    }
  }

  /** Signs of e that would be read as binary operators, when e is read after a value or not. */
  function Misread(e: Expr, last: bool): nat {
    match e
    case Lit(_) => 0
    case Group(x) => Misread(x, last)
    case Call(_, args) => MisreadArgs(args, false)
    case Un(op, x) => (if Signed(op) && last then 1 else 0) + Misread(x, false)
    case Bin(_, l, r) => Misread(l, last) + Misread(r, false)
  }

  function MisreadArgs(a: Args, last: bool): nat {
    Misread(a.first, last) + (if a.More? then MisreadArgs(a.rest, true) else 0)
  }

  lemma {:induction false} MisreadNothing(e: Expr, last: bool)
    ensures Misread(e, last) == 0 <==> CommaSafe(e) && (last ==> !SignFirst(e))
  {
    match e {
      case Lit(v) =>
      case Group(x) => MisreadNothing(x, last);
      case Call(f, args) => MisreadNothingArgs(args, false);
      case Un(op, x) => MisreadNothing(x, false);
      case Bin(op, l, r) =>
        MisreadNothing(l, last);
        MisreadNothing(r, false);
    }
  }

  lemma {:induction false} MisreadNothingArgs(a: Args, last: bool)
    ensures MisreadArgs(a, last) == 0 <==> CommaSafeArgs(a, last)
  {
    MisreadNothing(a.first, last);
    if a.More? { MisreadNothingArgs(a.rest, true); }
  }

  lemma {:induction false} SignElemsAppend(a: seq<Elem>, b: seq<Elem>)
    ensures SignElems(a + b) == SignElems(a) + SignElems(b)
  {
    if b == [] {
      assert a + b == a;
    } else {
      var k := |b| - 1;
      assert (a + b)[..|a + b| - 1] == a + b[..k];
      SignElemsAppend(a, b[..k]);
    }
  }

  lemma SignElemsOne(x: Elem)
    ensures SignElems([x]) == if x.Oper? && Signed(x.op) then 1 else 0
  {
    SignElemsPush([], x);
    assert [] + [x] == [x];
  }

  lemma SignTokensCons(t: Token, ts: seq<Token>, last: bool)
    ensures SignTokens([t] + ts, last) ==
      match t
      case Atom(_) => SignTokens(ts, true)
      case LP | RP | Comma => SignTokens(ts, last)
      case FuncName(_) => SignTokens(ts, false)
      case Plus | Minus => (if last then 0 else 1) + SignTokens(ts, false)
      case Sym(op) => (if Signed(op) then 1 else 0) + SignTokens(ts, false)
  {
    assert ([t] + ts)[1..] == ts;
  }

  /** Reading the rendering of e, the parser takes all its signs for signs except the misread ones. */
  lemma {:induction false} RenderedSigns(e: Expr, last: bool, ts: seq<Token>)
    requires Grouped(e)
    ensures SignTokens(Render(e) + ts, last) + Misread(e, last) == SignElems(Postfix(e)) + SignTokens(ts, true)
    decreases e, 1
  {
    hide SignTokens, SignElems;
    match e {
      case Lit(v) =>
        SignTokensCons(Atom(v), ts, last);
        SignElemsOne(Val(v));
      case Group(x) =>
        assert Render(e) + ts == [LP] + (Render(x) + ([RP] + ts));
        SignTokensCons(LP, Render(x) + ([RP] + ts), last);
        RenderedSigns(x, last, [RP] + ts);
        SignTokensCons(RP, ts, true);
      case Call(f, args) =>
        var body := RenderArgs(args) + ([RP] + ts);
        assert Render(e) + ts == [FuncName(f)] + ([LP] + body);
        SignTokensCons(FuncName(f), [LP] + body, last);
        SignTokensCons(LP, body, false);
        RenderedSignsArgs(args, false, [RP] + ts);
        SignTokensCons(RP, ts, true);
        SignElemsPush(PostfixArgs(args), Fun(f, ArgCount(args)));
      case Un(op, x) =>
        assert Render(e) + ts == [TokenOf(op)] + (Render(x) + ts);
        SignTokensCons(TokenOf(op), Render(x) + ts, last);
        RenderedSigns(x, false, ts);
        SignElemsPush(Postfix(x), Oper(op));
      case Bin(op, l, r) =>
        RenderedSignsBin(op, l, r, last, ts);
    }
  }

  lemma {:induction false} RenderedSignsBin(op: Op, l: Expr, r: Expr, last: bool, ts: seq<Token>)
    requires Grouped(Bin(op, l, r))
    ensures var e := Bin(op, l, r);
      SignTokens(Render(e) + ts, last) + Misread(e, last) == SignElems(Postfix(e)) + SignTokens(ts, true)
    decreases Bin(op, l, r), 0
  {
    hide SignTokens, SignElems;
    var tail := [TokenOf(op)] + (Render(r) + ts);
    assert Render(Bin(op, l, r)) + ts == Render(l) + tail;
    RenderedSigns(l, last, tail);
    SignTokensCons(TokenOf(op), Render(r) + ts, true);
    RenderedSigns(r, false, ts);
    SignElemsAppend(Postfix(l), Postfix(r));
    SignElemsPush(Postfix(l) + Postfix(r), Oper(op));
  }

  lemma {:induction false} RenderedSignsArgs(a: Args, last: bool, ts: seq<Token>)
    requires GroupedArgs(a)
    ensures SignTokens(RenderArgs(a) + ts, last) + MisreadArgs(a, last) == SignElems(PostfixArgs(a)) + SignTokens(ts, true)
    decreases a, 0
  {
    hide SignTokens, SignElems;
    match a {
      case One(x) => RenderedSigns(x, last, ts);
      case More(x, rest) =>
        var tail := [Comma] + (RenderArgs(rest) + ts);
        assert RenderArgs(a) + ts == Render(x) + tail;
        RenderedSigns(x, last, tail);
        SignTokensCons(Comma, RenderArgs(rest) + ts, true);
        RenderedSignsArgs(rest, true, ts);
        SignElemsAppend(Postfix(x), PostfixArgs(rest));
    }
  }

  // ----- the theorems

  /** A rendered expression, with any parentheses that respect precedence and associativity, parses to
      its postfix code if and only if no argument after a comma begins with a sign. */
  lemma ParsesExactly(e: Expr)
    requires Grouped(e)
    ensures Parse(Render(e)) == Success(Postfix(e)) <==> CommaSafe(e)
  {
    if CommaSafe(e) {
      ParseRendered(e);
    } else {
      MisreadNothing(e, false);
      RenderedSigns(e, false, []);
      assert Render(e) + [] == Render(e);
      if Parse(Render(e)).Success? {
        RunSigns(Render(e), State([], [], false));
      }
    }
  }

  /** Every expression tree has an infix text that parses back to it, unless some argument after a comma
      begins with a sign. */
  lemma TreesParse(e: Expr)
    requires Bare(e)
    ensures Grouped(Parenthesise(e))
    ensures Parse(Render(Parenthesise(e))) == Success(Postfix(e)) <==> CommaSafe(e)
  {
    ParenthesiseKeeps(e);
    ParsesExactly(Parenthesise(e));
  }

  /** f(1, (-2)): the comma branch leaves last_is_val set, so the sign is read as a subtraction even
      behind a parenthesis. */
  lemma SignAfterComma()
    ensures var e := Call(0, More(Lit(1), One(Group(Un(Neg, Lit(2))))));
      Grouped(e) && Parse(Render(e)) != Success(Postfix(e))
  {
    var e := Call(0, More(Lit(1), One(Group(Un(Neg, Lit(2))))));
    ParsesExactly(e);
    assert !CommaSafeArgs(One(Group(Un(Neg, Lit(2)))), true);
  }
}
