/** What the operator table holds, row by row: which of two operators is applied first, for every pair of them. */
module KexprTable {
  import opened Options
  import opened KexprGrammar
  import opened KexprParser
  import opened KexprCorrect
  import opened KexprEval

  lemma RowIs(op: Op) returns (i: nat)
    requires op !in {Pos, Neg, Bnot, Lnot}
    ensures var rows := [{Pow}, {Mul, Div, IDiv, Mod}, {Add, Sub}, {Lsh, Rsh}, {Lt, Le, Gt, Ge}, {Eq, Ne}, {Band}, {Bxor}, {Bor}, {Land}, {Lor}];
      i < |rows| && op in rows[i]
    ensures !Unary(op) && Prec(op) == i + 2 && (Right(op) <==> op == Pow) && (i == 0 <==> op == Pow)
    ensures TokenOf(op) == if op == Add then Plus else if op == Sub then Minus else Sym(op)
  {
    i := Prec(op) - 2;
  }

  /** The tree that the row numbers i and j of p and q call for. */
  function PairTree(p: Op, q: Op, i: nat, j: nat, a: nat, b: nat, c: nat): Expr {
    if i < j || (i == j && p != Pow) then Bin(q, Bin(p, Lit(a), Lit(b)), Lit(c)) else Bin(p, Lit(a), Bin(q, Lit(b), Lit(c)))
  }

  lemma OneOperator(op: Op, x: nat, y: nat)
    requires !Unary(op)
    ensures var e := Bin(op, Lit(x), Lit(y));
      && Bare(e) && Grouped(e) && CommaSafe(e) && Level(e) == Prec(op)
      && Render(e) == [Atom(x), TokenOf(op), Atom(y)] && Postfix(e) == [Val(x), Val(y), Oper(op)]
      && Parenthesise(e) == e
  {
    hide Prec, Right, Unary, TokenOf;
    assert Level(Lit(x)) == Level(Lit(y)) == 0;
  }

  lemma PairParses(p: Op, q: Op, i: nat, j: nat, a: nat, b: nat, c: nat)
    requires !Unary(p) && !Unary(q) && Prec(p) == i + 2 && Prec(q) == j + 2
    requires (Right(p) <==> i == 0) && (Right(q) <==> j == 0) && (p == Pow <==> i == 0)
    ensures var e := PairTree(p, q, i, j, a, b, c);
      && Grouped(e) && CommaSafe(e) && Render(e) == [Atom(a), TokenOf(p), Atom(b), TokenOf(q), Atom(c)]
      && Postfix(e) == (if i < j || (i == j && p != Pow) then [Val(a), Val(b), Oper(p), Val(c), Oper(q)]
        else [Val(a), Val(b), Val(c), Oper(q), Oper(p)])
      && Parse(Render(e)) == Success(Postfix(e))
  {
    hide Parse, Prec, Right, Unary, TokenOf;
    OneOperator(p, a, b);
    OneOperator(q, b, c);
    ParseRendered(PairTree(p, q, i, j, a, b, c));
  }

  /** Two binary operators between three values. The table has one row of operators for each strength, the tightest
      first; the operator of the earlier row is applied first, and of two in one row the left one, or the right one if
      they are powers. */
  lemma PairsByTable(p: Op, q: Op, a: nat, b: nat, c: nat) returns (i: nat, j: nat)
    requires p !in {Pos, Neg, Bnot, Lnot} && q !in {Pos, Neg, Bnot, Lnot}
    ensures var rows := [{Pow}, {Mul, Div, IDiv, Mod}, {Add, Sub}, {Lsh, Rsh}, {Lt, Le, Gt, Ge}, {Eq, Ne}, {Band}, {Bxor}, {Bor}, {Land}, {Lor}];
      i < |rows| && j < |rows| && p in rows[i] && q in rows[j]
    ensures var token := (o: Op) => if o == Add then Plus else if o == Sub then Minus else Sym(o);
      Parse([Atom(a), token(p), Atom(b), token(q), Atom(c)])
      == Success(if i < j || (i == j && p != Pow) then [Val(a), Val(b), Oper(p), Val(c), Oper(q)] else [Val(a), Val(b), Val(c), Oper(q), Oper(p)])
  {
    hide Parse, Prec, Right, Unary, TokenOf, PairTree;
    i := RowIs(p);
    j := RowIs(q);
    PairParses(p, q, i, j, a, b, c);
  }

  lemma PairValue<V>(m: Meaning<V>, p: Op, q: Op, i: nat, j: nat, a: nat, b: nat, c: nat)
    ensures var x, y, z := m.atom(a), m.atom(b), m.atom(c);
      Value(m, PairTree(p, q, i, j, a, b, c)) == if i < j || (i == j && p != Pow) then m.op2(q, m.op2(p, x, y), z) else m.op2(p, x, m.op2(q, y, z))
  {
    assert Value(m, Bin(p, Lit(a), Lit(b))) == m.op2(p, m.atom(a), m.atom(b));
    assert Value(m, Bin(q, Lit(b), Lit(c))) == m.op2(q, m.atom(b), m.atom(c));
  }

  lemma PairRuns<V>(m: Meaning<V>, p: Op, q: Op, i: nat, j: nat, a: nat, b: nat, c: nat)
    requires Grouped(PairTree(p, q, i, j, a, b, c))
    ensures var x, y, z := m.atom(a), m.atom(b), m.atom(c);
      Exec(m, Postfix(PairTree(p, q, i, j, a, b, c)), [])
      == Some([if i < j || (i == j && p != Pow) then m.op2(q, m.op2(p, x, y), z) else m.op2(p, x, m.op2(q, y, z))])
  {
    hide Exec, Grouped, Value, PairTree, Postfix;
    var e := PairTree(p, q, i, j, a, b, c);
    PostfixPushesValue(m, e, []);
    PairValue(m, p, q, i, j, a, b, c);
    assert [] + [Value(m, e)] == [Value(m, e)];
  }

  /** So the value is that of the operators applied in this order. */
  lemma PairsEvaluate<V>(m: Meaning<V>, p: Op, q: Op, a: nat, b: nat, c: nat) returns (i: nat, j: nat)
    requires p !in {Pos, Neg, Bnot, Lnot} && q !in {Pos, Neg, Bnot, Lnot}
    ensures var rows := [{Pow}, {Mul, Div, IDiv, Mod}, {Add, Sub}, {Lsh, Rsh}, {Lt, Le, Gt, Ge}, {Eq, Ne}, {Band}, {Bxor}, {Bor}, {Land}, {Lor}];
      i < |rows| && j < |rows| && p in rows[i] && q in rows[j]
    ensures var token := (o: Op) => if o == Add then Plus else if o == Sub then Minus else Sym(o);
      var code, x, y, z := Parse([Atom(a), token(p), Atom(b), token(q), Atom(c)]), m.atom(a), m.atom(b), m.atom(c);
      code.Success? && Exec(m, code.value, [])
      == Some([if i < j || (i == j && p != Pow) then m.op2(q, m.op2(p, x, y), z) else m.op2(p, x, m.op2(q, y, z))])
  {
    hide *;
    i := RowIs(p);
    j := RowIs(q);
    PairParses(p, q, i, j, a, b, c);
    PairRuns(m, p, q, i, j, a, b, c);
  }

  lemma OneUnary(u: Op, x: nat)
    requires u in {Pos, Neg, Bnot, Lnot}
    ensures var e := Un(u, Lit(x));
      && Grouped(e) && CommaSafe(e) && Level(e) == 1 && Render(e) == [TokenOf(u), Atom(x)] && Postfix(e) == [Val(x), Oper(u)]
    ensures Unary(u) && TokenOf(u) == if u == Pos then Plus else if u == Neg then Minus else Sym(u)
  {
    assert Level(Lit(x)) == 0;
  }

  lemma TextParses(e: Expr, text: seq<Token>, code: seq<Elem>)
    requires Grouped(e) && CommaSafe(e) && Render(e) == text && Postfix(e) == code
    ensures Parse(text) == Success(code)
  {
    ParseRendered(e);
  }

  /** A unary operator is applied before a binary one on either side, and the inner of two first. */
  lemma UnaryByTable(u: Op, v: Op, q: Op, a: nat, b: nat)
    requires u in {Pos, Neg, Bnot, Lnot} && v in {Pos, Neg, Bnot, Lnot} && q !in {Pos, Neg, Bnot, Lnot}
    ensures var token := (o: Op) => if o in {Pos, Add} then Plus else if o in {Neg, Sub} then Minus else Sym(o);
      && Parse([token(u), Atom(a), token(q), Atom(b)]) == Success([Val(a), Oper(u), Val(b), Oper(q)])
      && Parse([Atom(a), token(q), token(u), Atom(b)]) == Success([Val(a), Val(b), Oper(u), Oper(q)])
      && Parse([token(u), token(v), Atom(a)]) == Success([Val(a), Oper(v), Oper(u)])
  {
    hide Parse, Prec, Right, Unary, TokenOf;
    var j := RowIs(q);
    OneUnary(u, a);
    OneUnary(u, b);
    OneUnary(v, a);
    TextParses(Bin(q, Un(u, Lit(a)), Lit(b)), [TokenOf(u), Atom(a), TokenOf(q), Atom(b)], [Val(a), Oper(u), Val(b), Oper(q)]);
    TextParses(Bin(q, Lit(a), Un(u, Lit(b))), [Atom(a), TokenOf(q), TokenOf(u), Atom(b)], [Val(a), Val(b), Oper(u), Oper(q)]);
    TextParses(Un(u, Un(v, Lit(a))), [TokenOf(u), TokenOf(v), Atom(a)], [Val(a), Oper(v), Oper(u)]);
  }

  /** The parentheses that a tree of two binary operators gets: around the one that is applied first, where it would not
      be. */
  lemma ParenthesesByTable(p: Op, q: Op, x: nat, y: nat, z: nat) returns (i: nat, j: nat)
    requires p !in {Pos, Neg, Bnot, Lnot} && q !in {Pos, Neg, Bnot, Lnot}
    ensures var rows := [{Pow}, {Mul, Div, IDiv, Mod}, {Add, Sub}, {Lsh, Rsh}, {Lt, Le, Gt, Ge}, {Eq, Ne}, {Band}, {Bxor}, {Bor}, {Land}, {Lor}];
      i < |rows| && j < |rows| && p in rows[i] && q in rows[j]
    ensures Bare(Bin(p, Lit(x), Lit(y))) && Bare(Bin(q, Lit(y), Lit(z)))
    ensures var inner := Bin(p, Lit(x), Lit(y));
      Parenthesise(Bin(q, inner, Lit(z))) == Bin(q, if i < j || (i == j && p != Pow) then inner else Group(inner), Lit(z))
    ensures var inner := Bin(q, Lit(y), Lit(z));
      Parenthesise(Bin(p, Lit(x), inner)) == Bin(p, Lit(x), if i < j || (i == j && p != Pow) then Group(inner) else inner)
  {
    hide Prec, Right, Unary;
    i := RowIs(p);
    j := RowIs(q);
    OneOperator(p, x, y);
    OneOperator(q, y, z);
  }

  lemma TextRuns<V>(m: Meaning<V>, e: Expr, text: seq<Token>, v: V)
    requires Grouped(e) && CommaSafe(e) && Render(e) == text && Value(m, e) == v
    ensures Parse(text).Success? && Exec(m, Parse(text).value, []) == Some([v])
  {
    hide Exec, Value, Parse;
    ParseRendered(e);
    PostfixPushesValue(m, e, []);
    assert [] + [v] == [v];
  }

  lemma LastArgument<V>(m: Meaning<V>, v: nat)
    ensures var args := One(Lit(v));
      && GroupedArgs(args) && CommaSafeArgs(args, true) && CommaSafeArgs(args, false)
      && RenderArgs(args) == [Atom(v)] && Values(m, args) == [m.atom(v)]
  {
    assert Render(Lit(v)) == [Atom(v)] && !SignFirst(Lit(v)) && CommaSafe(Lit(v)) && Value(m, Lit(v)) == m.atom(v) && Grouped(Lit(v));
  }

  lemma MoreArguments<V>(m: Meaning<V>, v: nat, rest: Args)
    requires GroupedArgs(rest) && CommaSafeArgs(rest, true)
    ensures var args := More(Lit(v), rest);
      && GroupedArgs(args) && CommaSafeArgs(args, true) && CommaSafeArgs(args, false)
      && RenderArgs(args) == [Atom(v), Comma] + RenderArgs(rest) && Values(m, args) == [m.atom(v)] + Values(m, rest)
  {
    assert Render(Lit(v)) == [Atom(v)] && !SignFirst(Lit(v)) && CommaSafe(Lit(v)) && Value(m, Lit(v)) == m.atom(v) && Grouped(Lit(v));
    assert [Atom(v)] + [Comma] + RenderArgs(rest) == [Atom(v), Comma] + RenderArgs(rest);
  }

  lemma CallRuns<V>(m: Meaning<V>, f: nat, args: Args, inner: seq<Token>, text: seq<Token>, vs: seq<V>)
    requires GroupedArgs(args) && CommaSafeArgs(args, false) && RenderArgs(args) == inner && Values(m, args) == vs && vs != []
    requires text == [FuncName(f), LP] + inner + [RP]
    ensures Parse(text).Success? && Exec(m, Parse(text).value, [])
      == Some([if |vs| == 2 && m.defined(f, 2) then m.fun2(f, vs[0], vs[1]) else if |vs| == 1 && m.defined(f, 1) then m.fun1(f, vs[0]) else vs[0]])
  {
    hide Exec, Parse, RenderArgs, GroupedArgs, CommaSafeArgs, Values;
    TextRuns(m, Call(f, args), text, Value(m, Call(f, args)));
  }

  /** Calls of one, two and three arguments: a function with an implementation for that many is applied to them in their
      order; otherwise the first argument is the value. */
  lemma CallsEvaluate<V>(m: Meaning<V>, f: nat, a: nat, b: nat, c: nat)
    ensures var one, two, three := Parse([FuncName(f), LP, Atom(a), RP]), Parse([FuncName(f), LP, Atom(a), Comma, Atom(b), RP]),
        Parse([FuncName(f), LP, Atom(a), Comma, Atom(b), Comma, Atom(c), RP]);
      && one.Success? && two.Success? && three.Success?
      && Exec(m, one.value, []) == Some([if m.defined(f, 1) then m.fun1(f, m.atom(a)) else m.atom(a)])
      && Exec(m, two.value, []) == Some([if m.defined(f, 2) then m.fun2(f, m.atom(a), m.atom(b)) else m.atom(a)])
      && Exec(m, three.value, []) == Some([m.atom(a)])
  {
    hide *;
    var x, y, z := m.atom(a), m.atom(b), m.atom(c);
    LastArgument(m, a);
    LastArgument(m, b);
    LastArgument(m, c);
    MoreArguments(m, a, One(Lit(b)));
    MoreArguments(m, b, One(Lit(c)));
    MoreArguments(m, a, More(Lit(b), One(Lit(c))));
    CallRuns(m, f, One(Lit(a)), [Atom(a)], [FuncName(f), LP, Atom(a), RP], [x]);
    CallRuns(m, f, More(Lit(a), One(Lit(b))), [Atom(a), Comma, Atom(b)], [FuncName(f), LP, Atom(a), Comma, Atom(b), RP], [x, y]);
    CallRuns(m, f, More(Lit(a), More(Lit(b), One(Lit(c)))), [Atom(a), Comma, Atom(b), Comma, Atom(c)],
      [FuncName(f), LP, Atom(a), Comma, Atom(b), Comma, Atom(c), RP], [x, y, z]);
  }
}
