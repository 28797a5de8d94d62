/** Exactly when the evaluator runs out of operands on accepted code, and that alternating texts never make it. */
module KexprOperands {
  import opened Options
  import opened KexprGrammar
  import opened KexprParser
  import opened KexprCorrect
  import opened KexprEval

  // ----- on the code

  /** What must be left on the stack behind x: a value, if x is not a function that is only skipped. */
  function Left<V>(m: Meaning<V>, x: Elem): nat {
    if x.Fun? && !Bound(m, x.f, x.nArgs) then 0 else 1
  }

  /** The count that the parser takes at its end, started at d, does not fall too low behind any element. */
  predicate Sustains<V>(m: Meaning<V>, code: seq<Elem>, d: int) {
    code != [] ==> Sustains(m, code[..|code| - 1], d) && d + Balance(code) >= Left(m, code[|code| - 1])
  }

  /** Every function has an argument. */
  predicate Arities(code: seq<Elem>) {
    forall i :: 0 <= i < |code| && code[i].Fun? ==> code[i].nArgs >= 1
  }

  lemma OneDepth<V>(m: Meaning<V>, x: Elem, st: seq<V>)
    requires x.Fun? ==> x.nArgs >= 1
    ensures Exec1(m, x, st).Some? <==> |st| + BalanceOf(x) >= Left(m, x)
    ensures Exec1(m, x, st).Some? ==> |Exec1(m, x, st).value| == |st| + BalanceOf(x)
  {
  }

  /** The code runs exactly when the count never falls too low, and leaves as many values as the count says. */
  lemma {:induction false} ExecDepth<V>(m: Meaning<V>, code: seq<Elem>, st: seq<V>)
    requires Arities(code)
    ensures Exec(m, code, st).Some? <==> Sustains(m, code, |st|)
    ensures Exec(m, code, st).Some? ==> |Exec(m, code, st).value| == |st| + Balance(code)
    decreases |code|
  {
    hide Exec1, Left, BalanceOf;
    if code != [] {
      var k := |code| - 1;
      assert code == code[..k] + [code[k]];
      ExecAppend(m, code[..k], [code[k]], st);
      ExecDepth(m, code[..k], st);
      if Exec(m, code[..k], st).Some? {
        var next := Exec(m, code[..k], st).value;
        ExecOne(m, code[k], next);
        OneDepth(m, code[k], next);
      }
    }
  }

  // ----- on the tokens

  /** Token t may come where an operand is due, or where one has just been read (after). */
  predicate Follows(t: Token, last: bool, after: bool) {
    match t
    case LP | Atom(_) | FuncName(_) => !after
    case RP | Comma => after
    case _ => after != Unary(ReadOp(t, last))
  }

  function LastAfter(t: Token, last: bool): bool {
    if t.LP? || t.RP? || t.Comma? then last else t.Atom?
  }

  /** Operands and binary operators alternate, as far as the parser tells signs apart. */
  predicate Alternates(ts: seq<Token>, last: bool, after: bool) {
    if ts == [] then after
    else Follows(ts[0], last, after) && Alternates(ts[1..], LastAfter(ts[0], last), ts[0].Atom? || ts[0].RP?)
  }

  /** The values that the entries on the operator stack will take off. */
  function Owed(ops: seq<Entry>): int {
    if ops == [] then 0 else Owed(ops[..|ops| - 1]) + OwedFor(ops[|ops| - 1])
  }

  function OwedFor(x: Entry): int {
    match x
    case Paren => 0
    case FunE(_, n) => n - 1
    case OpE(op) => if Unary(op) then 0 else 1
  }

  predicate Entered(ops: seq<Entry>) {
    forall i :: 0 <= i < |ops| && ops[i].FunE? ==> ops[i].nArgs >= 1
  }

  /** Behind every element of the code there is a value on the stack. */
  predicate Steady(code: seq<Elem>) {
    code != [] ==> Steady(code[..|code| - 1]) && Balance(code) >= 1
  }

  /** Every function has an argument and, in an alternating text, the output has left what the operators on the stack
      still need, and one value more after an operand. */
  predicate Sound(s: State, alternating: bool, after: bool) {
    && Arities(s.out) && Entered(s.ops)
    && (alternating ==> Steady(s.out) && Balance(s.out) == Owed(s.ops) + if after then 1 else 0)
  }

  lemma OutputPush(code: seq<Elem>, x: Elem)
    ensures Balance(code + [x]) == Balance(code) + BalanceOf(x)
    ensures Steady(code + [x]) <==> Steady(code) && Balance(code + [x]) >= 1
    ensures Arities(code + [x]) <==> Arities(code) && (x.Fun? ==> x.nArgs >= 1)
  {
    assert (code + [x])[..|code|] == code;
    if Arities(code + [x]) {
      assert forall i :: 0 <= i < |code| ==> code[i] == (code + [x])[i];
      assert (code + [x])[|code|] == x;
    }
  }

  lemma OwedPush(ops: seq<Entry>, x: Entry)
    ensures Owed(ops + [x]) == Owed(ops) + OwedFor(x)
    ensures Entered(ops + [x]) <==> Entered(ops) && (x.FunE? ==> x.nArgs >= 1)
  {
    assert (ops + [x])[..|ops|] == ops;
    if Entered(ops + [x]) {
      assert forall i :: 0 <= i < |ops| ==> ops[i] == (ops + [x])[i];
      assert (ops + [x])[|ops|] == x;
    }
  }

  lemma {:induction false} OwedNotNegative(ops: seq<Entry>)
    requires Entered(ops)
    ensures Owed(ops) >= 0
  {
    if ops != [] { OwedNotNegative(ops[..|ops| - 1]); }
  }

  /** The operator stack without its top. */
  lemma OwedPop(ops: seq<Entry>)
    requires ops != [] && Entered(ops)
    ensures Entered(ops[..|ops| - 1]) && Owed(ops) == Owed(ops[..|ops| - 1]) + OwedFor(ops[|ops| - 1])
    ensures Owed(ops[..|ops| - 1]) >= 0 && (ops[|ops| - 1].FunE? ==> ops[|ops| - 1].nArgs >= 1)
  {
    hide Owed, Entered;
    var k := |ops| - 1;
    assert ops == ops[..k] + [ops[k]];
    OwedPush(ops[..k], ops[k]);
    OwedNotNegative(ops[..k]);
  }

  lemma PopSound(s: State, alternating: bool, after: bool)
    requires Sound(s, alternating, after) && (alternating ==> after)
    requires s.ops != [] && !s.ops[|s.ops| - 1].Paren?
    ensures Sound(State(s.out + [ElemOf(s.ops[|s.ops| - 1])], s.ops[..|s.ops| - 1], s.last), alternating, after)
  {
    hide Balance, Steady, Arities, Owed, Entered;
    OwedPop(s.ops);
    OutputPush(s.out, ElemOf(s.ops[|s.ops| - 1]));
  }

  lemma {:induction false} FlushSound(s: State, alternating: bool, after: bool)
    requires Sound(s, alternating, after) && (alternating ==> after)
    ensures Sound(Flush(s), alternating, after) && Flush(s).last == s.last
    ensures Flush(s).ops != [] ==> Flush(s).ops[|Flush(s).ops| - 1].Paren?
    decreases |s.ops|
  {
    hide Sound;
    if s.ops != [] && !s.ops[|s.ops| - 1].Paren? {
      PopSound(s, alternating, after);
      FlushSound(State(s.out + [ElemOf(s.ops[|s.ops| - 1])], s.ops[..|s.ops| - 1], s.last), alternating, after);
    }
  }

  lemma {:induction false} YieldSound(s: State, op: Op, alternating: bool, after: bool)
    requires Sound(s, alternating, after) && (alternating ==> after || Unary(op))
    ensures Sound(Yield(s, op), alternating, after) && Yield(s, op).last == s.last
    decreases |s.ops|
  {
    hide Sound;
    if !Unary(op) && s.ops != [] && s.ops[|s.ops| - 1].OpE? && !Stays(op, s.ops[|s.ops| - 1].op) {
      PopSound(s, alternating, after);
      YieldSound(State(s.out + [ElemOf(s.ops[|s.ops| - 1])], s.ops[..|s.ops| - 1], s.last), op, alternating, after);
    }
  }

  lemma PushSound(s: State, x: Entry, alternating: bool, after: bool, last: bool)
    requires Sound(s, alternating, after) && (x.FunE? ==> x.nArgs >= 1)
    requires alternating ==> OwedFor(x) == if after then 1 else 0
    ensures Sound(State(s.out, s.ops + [x], last), alternating, false)
  {
    hide Balance, Steady, Arities, Owed, Entered;
    OwedPush(s.ops, x);
  }

  lemma RightSound(s: State, alternating: bool, after: bool)
    requires Sound(s, alternating, after) && (alternating ==> after) && Step(RP, s).Success?
    ensures Sound(Step(RP, s).value, alternating, true) && Step(RP, s).value.last == s.last
  {
    hide Sound, Flush;
    FlushSound(s, alternating, after);
    var u := Flush(s);
    var v := u.(ops := u.ops[..|u.ops| - 1]);
    ParenSound(u, alternating, after);
    if v.ops != [] && v.ops[|v.ops| - 1].FunE? {
      PopSound(v, alternating, true);
      assert v.ops[..|v.ops| - 1] == u.ops[..|u.ops| - 2];
    }
  }

  lemma ParenSound(u: State, alternating: bool, after: bool)
    requires Sound(u, alternating, after) && (alternating ==> after) && u.ops != [] && u.ops[|u.ops| - 1].Paren?
    ensures Sound(u.(ops := u.ops[..|u.ops| - 1]), alternating, true)
  {
    hide Balance, Steady, Arities, Owed, Entered;
    OwedPop(u.ops);
  }

  lemma CommaSound(s: State, alternating: bool, after: bool)
    requires Sound(s, alternating, after) && (alternating ==> after) && Step(Comma, s).Success?
    ensures Sound(Step(Comma, s).value, alternating, false) && Step(Comma, s).value.last == s.last
  {
    hide Flush, Balance, Steady, Arities, Owed, Entered;
    FlushSound(s, alternating, after);
    OneMoreArgument(Flush(s).ops);
  }

  lemma OneMoreArgument(ops: seq<Entry>)
    requires |ops| >= 2 && ops[|ops| - 2].FunE? && ops[|ops| - 1].Paren? && Entered(ops)
    ensures var more := ops[|ops| - 2 := FunE(ops[|ops| - 2].f, ops[|ops| - 2].nArgs + 1)];
      Entered(more) && Owed(more) == Owed(ops) + 1
  {
    hide Owed, Entered;
    var k := |ops| - 2;
    var x := FunE(ops[k].f, ops[k].nArgs + 1);
    assert ops == ops[..k] + [ops[k]] + [Paren] && ops[k := x] == ops[..k] + [x] + [Paren];
    OwedPush(ops[..k] + [ops[k]], Paren);
    OwedPush(ops[..k], ops[k]);
    OwedPush(ops[..k] + [x], Paren);
    OwedPush(ops[..k], x);
  }

  lemma AtomSound(s: State, v: nat, alternating: bool, after: bool)
    requires Sound(s, alternating, after) && (alternating ==> !after)
    ensures Sound(State(s.out + [Val(v)], s.ops, true), alternating, true)
  {
    hide Balance, Steady, Arities, Owed, Entered;
    OutputPush(s.out, Val(v));
    OwedNotNegative(s.ops);
  }

  /** One pass of the parsing loop. */
  lemma StepSound(t: Token, s: State, alternating: bool, after: bool)
    requires Sound(s, alternating, after) && (alternating ==> Follows(t, s.last, after)) && Step(t, s).Success?
    ensures Sound(Step(t, s).value, alternating, t.Atom? || t.RP?) && Step(t, s).value.last == LastAfter(t, s.last)
  {
    hide Sound, Flush, Yield, ReadOp;
    match t {
      case LP => PushSound(s, Paren, alternating, after, s.last);
      case RP => RightSound(s, alternating, after);
      case Comma => CommaSound(s, alternating, after);
      case Atom(v) => AtomSound(s, v, alternating, after);
      case FuncName(f) => PushSound(s, FunE(f, 1), alternating, after, false);
      case _ =>
        var op := ReadOp(t, s.last);
        YieldSound(s, op, alternating, after);
        PushSound(Yield(s, op), OpE(op), alternating, after, false);
    }
  }

  lemma StartSound(alternating: bool)
    ensures Sound(State([], [], false), alternating, false)
  {
  }

  lemma {:induction false} RunSound(ts: seq<Token>, s: State, alternating: bool, after: bool)
    requires Sound(s, alternating, after) && (alternating ==> Alternates(ts, s.last, after)) && Run(ts, s).Success?
    ensures Arities(Run(ts, s).value) && Balance(Run(ts, s).value) == 1 && (alternating ==> Steady(Run(ts, s).value))
    decreases |ts|
  {
    if ts == [] {
      FlushSound(s, alternating, after);
    } else {
      hide Sound, Step, Finish, Arities, Balance, Steady, Follows, LastAfter;
      StepSound(ts[0], s, alternating, after);
      RunSound(ts[1..], Step(ts[0], s).value, alternating, ts[0].Atom? || ts[0].RP?);
    }
  }

  // ----- what the evaluator makes of it

  /** On code that the parser accepts, for every meaning: the evaluator has an operand wherever it takes one if and only
      if the parser's final count, taken along the code, never falls below 1, or below 0 behind a function without an
      implementation. Then exactly one value is left. */
  lemma RunsDryExactly<V>(m: Meaning<V>, ts: seq<Token>)
    requires Parse(ts).Success?
    ensures var code := Parse(ts).value;
      && (Exec(m, code, []).Some? <==> Sustains(m, code, 0))
      && (Exec(m, code, []).Some? ==> |Exec(m, code, []).value| == 1)
  {
    hide Sustains, Run, Balance, Sound, Alternates, Steady;
    StartSound(false);
    RunSound(ts, State([], [], false), false, false);
    ExecDepth(m, Parse(ts).value, []);
  }

  lemma {:induction false} SteadySustains<V>(m: Meaning<V>, code: seq<Elem>)
    requires Steady(code)
    ensures Sustains(m, code, 0)
  {
    hide Balance;
    if code != [] { SteadySustains(m, code[..|code| - 1]); }
  }

  /** It never runs out on a text in which operands and binary operators alternate. */
  lemma AlternatingHasOperands<V>(m: Meaning<V>, ts: seq<Token>)
    requires Parse(ts).Success? && Alternates(ts, false, false)
    ensures Exec(m, Parse(ts).value, []).Some?
  {
    hide Sustains, Run, Balance, Sound, Alternates, Steady;
    StartSound(true);
    RunSound(ts, State([], [], false), true, false);
    SteadySustains(m, Parse(ts).value);
    RunsDryExactly(m, ts);
  }

  /** The text of a tree alternates if and only if no argument after a comma begins with a sign. */
  lemma RenderedAlternates(e: Expr)
    requires Grouped(e)
    ensures Alternates(Render(e), false, false) <==> CommaSafe(e)
  {
    hide Alternates;
    RenderAlternates(e, false, []);
    MisreadNothing(e, false);
    assert Render(e) + [] == Render(e);
    NothingMore(true);
  }

  lemma NothingMore(last: bool)
    ensures Alternates([], last, true)
  {
  }

  lemma AlternatesCons(t: Token, ts: seq<Token>, last: bool, after: bool)
    ensures Alternates([t] + ts, last, after) <==> Follows(t, last, after) && Alternates(ts, LastAfter(t, last), t.Atom? || t.RP?)
  {
    assert ([t] + ts)[1..] == ts;
  }

  lemma {:induction false} RenderAlternates(e: Expr, last: bool, ts: seq<Token>)
    requires Grouped(e)
    ensures Alternates(Render(e) + ts, last, false) <==> Misread(e, last) == 0 && Alternates(ts, true, true)
    decreases e, 1
  {
    hide Alternates;
    match e {
      case Lit(v) =>
        AlternatesCons(Atom(v), ts, last, false);
      case Group(x) =>
        assert Render(e) + ts == [LP] + (Render(x) + ([RP] + ts));
        AlternatesCons(LP, Render(x) + ([RP] + ts), last, false);
        RenderAlternates(x, last, [RP] + ts);
        AlternatesCons(RP, ts, true, true);
      case Call(f, args) =>
        var body := RenderArgs(args) + ([RP] + ts);
        assert Render(e) + ts == [FuncName(f)] + ([LP] + body);
        AlternatesCons(FuncName(f), [LP] + body, last, false);
        AlternatesCons(LP, body, false, false);
        RenderAlternatesArgs(args, false, [RP] + ts);
        AlternatesCons(RP, ts, true, true);
      case Un(op, x) =>
        assert Render(e) + ts == [TokenOf(op)] + (Render(x) + ts);
        AlternatesCons(TokenOf(op), Render(x) + ts, last, false);
        RenderAlternates(x, false, ts);
      case Bin(op, l, r) =>
        RenderAlternatesBin(op, l, r, last, ts);
    }
  }

  lemma {:induction false} RenderAlternatesBin(op: Op, l: Expr, r: Expr, last: bool, ts: seq<Token>)
    requires Grouped(Bin(op, l, r))
    ensures var e := Bin(op, l, r);
      Alternates(Render(e) + ts, last, false) <==> Misread(e, last) == 0 && Alternates(ts, true, true)
    decreases Bin(op, l, r), 0
  {
    hide Alternates;
    var tail := [TokenOf(op)] + (Render(r) + ts);
    assert Render(Bin(op, l, r)) + ts == Render(l) + tail;
    RenderAlternates(l, last, tail);
    AlternatesCons(TokenOf(op), Render(r) + ts, true, true);
    RenderAlternates(r, false, ts);
  }

  lemma {:induction false} RenderAlternatesArgs(a: Args, last: bool, ts: seq<Token>)
    requires GroupedArgs(a)
    ensures Alternates(RenderArgs(a) + ts, last, false) <==> MisreadArgs(a, last) == 0 && Alternates(ts, true, true)
    decreases a, 0
  {
    hide Alternates;
    match a {
      case One(x) => RenderAlternates(x, last, ts);
      case More(x, rest) =>
        var tail := [Comma] + (RenderArgs(rest) + ts);
        assert RenderArgs(a) + ts == Render(x) + tail;
        RenderAlternates(x, last, tail);
        AlternatesCons(Comma, RenderArgs(rest) + ts, true, true);
        RenderAlternatesArgs(rest, true, ts);
    }
  }

  lemma ReadsGroup(out: seq<Elem>, v: nat, ts: seq<Token>)
    ensures Run([LP, Atom(v), RP] + ts, State(out, [OpE(Div)], true)) == Run(ts, State(out + [Val(v)], [OpE(Div)], true))
  {
    hide Run;
    var s := State(out + [Val(v)], [OpE(Div), Paren], true);
    assert [LP, Atom(v), RP] + ts == [LP] + ([Atom(v)] + ([RP] + ts));
    assert [OpE(Div)] + [Paren] == [OpE(Div), Paren] && s.ops[..1] == [OpE(Div)];
    RunOne(LP, [Atom(v)] + ([RP] + ts), State(out, [OpE(Div)], true));
    RunOne(Atom(v), [RP] + ts, State(out, s.ops, true));
    RunOne(RP, ts, s);
  }

  lemma ReadsFirst(op: Op, ts: seq<Token>)
    ensures Run([Sym(op)] + ts, State([], [], false)) == Run(ts, State([], [OpE(op)], false))
  {
    hide Run;
    assert [] + [OpE(op)] == [OpE(op)];
    RunOne(Sym(op), ts, State([], [], false));
  }

  lemma ReadsLooser(top: Op, op: Op, ts: seq<Token>)
    requires !Stays(op, top)
    ensures Run([Sym(op)] + ts, State([], [OpE(top)], false)) == Run(ts, State([Oper(top)], [OpE(op)], false))
  {
    hide Run, Stays;
    assert [] + [OpE(op)] == [OpE(op)] && [] + [Oper(top)] == [Oper(top)];
    assert Yield(State([], [OpE(top)], false), op) == Yield(State([Oper(top)], [], false), op);
    RunOne(Sym(op), ts, State([], [OpE(top)], false));
  }

  lemma ReadsTwoOperators(ts: seq<Token>)
    ensures Run([Sym(Mul), Sym(Div), Atom(1)] + ts, State([], [], false)) == Run(ts, State([Oper(Mul), Val(1)], [OpE(Div)], true))
  {
    hide Run;
    assert [Sym(Mul), Sym(Div), Atom(1)] + ts == [Sym(Mul)] + ([Sym(Div)] + ([Atom(1)] + ts));
    assert [Oper(Mul)] + [Val(1)] == [Oper(Mul), Val(1)];
    ReadsFirst(Mul, [Sym(Div)] + ([Atom(1)] + ts));
    ReadsLooser(Mul, Div, [Atom(1)] + ts);
    RunOne(Atom(1), ts, State([Oper(Mul)], [OpE(Div)], false));
  }

  lemma EndsWithOperator(out: seq<Elem>, op: Op)
    ensures Run([], State(out, [OpE(op)], true)) == if Balance(out + [Oper(op)]) == 1 then Success(out + [Oper(op)]) else Failure(ArgumentCount)
  {
    assert Flush(State(out, [OpE(op)], true)) == Flush(State(out + [Oper(op)], [], true));
  }

  /** A text that the parser accepts and that runs dry at its first operator. */
  lemma RunsDryAtOnce<V>(m: Meaning<V>) returns (ts: seq<Token>)
    ensures ts == [Sym(Mul), Sym(Div), Atom(1), LP, Atom(2), RP, LP, Atom(3), RP]
    ensures Parse(ts) == Success([Oper(Mul), Val(1), Val(2), Val(3), Oper(Div)])
    ensures Exec(m, Parse(ts).value, []) == None
  {
    hide Run, Balance;
    var end := [LP, Atom(3), RP];
    ts := [Sym(Mul), Sym(Div), Atom(1)] + ([LP, Atom(2), RP] + end);
    ReadsTwoOperators([LP, Atom(2), RP] + end);
    ReadsGroup([Oper(Mul), Val(1)], 2, end);
    assert end + [] == end;
    ReadsGroup([Oper(Mul), Val(1)] + [Val(2)], 3, []);
    var out := [Oper(Mul), Val(1), Val(2), Val(3)];
    assert [Oper(Mul), Val(1)] + [Val(2)] + [Val(3)] == out;
    EndsWithOperator(out, Div);
    CountsOne();
    assert out + [Oper(Div)] == [Oper(Mul), Val(1), Val(2), Val(3), Oper(Div)];
  }

  lemma CountsOne()
    ensures Balance([Oper(Mul), Val(1), Val(2), Val(3)] + [Oper(Div)]) == 1
  {
    OutputPush([], Oper(Mul));
    OutputPush([Oper(Mul)], Val(1));
    OutputPush([Oper(Mul), Val(1)], Val(2));
    OutputPush([Oper(Mul), Val(1), Val(2)], Val(3));
    OutputPush([Oper(Mul), Val(1), Val(2), Val(3)], Oper(Div));
    assert [] + [Oper(Mul)] == [Oper(Mul)] && [Oper(Mul)] + [Val(1)] == [Oper(Mul), Val(1)];
    assert [Oper(Mul), Val(1)] + [Val(2)] == [Oper(Mul), Val(1), Val(2)];
    assert [Oper(Mul), Val(1), Val(2)] + [Val(3)] == [Oper(Mul), Val(1), Val(2), Val(3)];
  }
}
