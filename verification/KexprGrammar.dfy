/** Infix expressions as kexpr reads them: the operator table, tokens, expression trees, their infix rendering
    and their postfix form. A rendering puts parentheses where the operator table asks for them and may put
    them anywhere else. */
module KexprGrammar {

  datatype Op = Pos | Neg | Bnot | Lnot | Pow | Mul | Div | IDiv | Mod | Add | Sub | Lsh | Rsh
              | Lt | Le | Gt | Ge | Eq | Ne | Band | Bxor | Bor | Land | Lor

  /** Binding strength in ke_op: the smaller the tighter. */
  function Prec(op: Op): (p: nat)
    ensures 1 <= p <= 12
  {
    match op
    case Pos | Neg | Bnot | Lnot => 1
    case Pow => 2
    case Mul | Div | IDiv | Mod => 3
    case Add | Sub => 4
    case Lsh | Rsh => 5
    case Lt | Le | Gt | Ge => 6
    case Eq | Ne => 7
    case Band => 8
    case Bxor => 9
    case Bor => 10
    case Land => 11
    case Lor => 12
  }

  /** The low bit of ke_op: unary operators and ** associate to the right. */
  predicate Right(op: Op) {
    op.Pos? || op.Neg? || op.Bnot? || op.Lnot? || op.Pow?
  }

  predicate Unary(op: Op) {
    op.Pos? || op.Neg? || op.Bnot? || op.Lnot?
  }

  predicate Signed(op: Op) {
    op.Pos? || op.Neg?
  }

  /** Tokens of the expression text. Plus and Minus are not yet told apart into unary and binary; every
      other operator has a token of its own. Atoms and functions are known by number. */
  datatype Token = LP | RP | Comma | Atom(v: nat) | FuncName(f: nat) | Plus | Minus | Sym(op: Op)

  /** ke_read_token for + and -: unary unless the last output-able token was a value. */
  function ReadOp(t: Token, lastIsVal: bool): Op
    requires t.Plus? || t.Minus? || t.Sym?
  {
    match t
    case Plus => if lastIsVal then Add else Pos
    case Minus => if lastIsVal then Sub else Neg
    case Sym(op) => op
  }

  function TokenOf(op: Op): (t: Token)
    ensures t.Plus? || t.Minus? || t.Sym?
  {
    match op
    case Pos | Add => Plus
    case Neg | Sub => Minus
    case _ => Sym(op)
  }

  /** Expressions with their parentheses; a call has at least one argument. */
  datatype Expr = Lit(v: nat) | Group(e: Expr) | Call(f: nat, args: Args) | Un(op: Op, e: Expr) | Bin(op: Op, l: Expr, r: Expr)
  datatype Args = One(first: Expr) | More(first: Expr, rest: Args)

  function Render(e: Expr): seq<Token> {
    match e
    case Lit(v) => [Atom(v)]
    case Group(x) => [LP] + Render(x) + [RP]
    case Call(f, args) => [FuncName(f), LP] + RenderArgs(args) + [RP]
    case Un(op, x) => [TokenOf(op)] + Render(x)
    case Bin(op, l, r) => Render(l) + [TokenOf(op)] + Render(r)
  }

  function RenderArgs(a: Args): seq<Token> {
    match a
    case One(x) => Render(x)
    case More(x, rest) => Render(x) + [Comma] + RenderArgs(rest)
  }

  function ArgCount(a: Args): (n: nat)
    ensures n >= 1
  {
    match a
    case One(_) => 1
    case More(_, rest) => 1 + ArgCount(rest)
  }

  /** One element of the postfix code. */
  datatype Elem = Val(v: nat) | Fun(f: nat, nArgs: nat) | Oper(op: Op)

  /** Operands before their operator, arguments before their function. */
  function Postfix(e: Expr): seq<Elem> {
    match e
    case Lit(v) => [Val(v)]
    case Group(x) => Postfix(x)
    case Call(f, args) => PostfixArgs(args) + [Fun(f, ArgCount(args))]
    case Un(op, x) => Postfix(x) + [Oper(op)]
    case Bin(op, l, r) => Postfix(l) + Postfix(r) + [Oper(op)]
  }

  function PostfixArgs(a: Args): seq<Elem> {
    match a
    case One(x) => Postfix(x)
    case More(x, rest) => Postfix(x) + PostfixArgs(rest)
  }

  /** How loosely the outermost operator binds; 0 for values, calls and parenthesised expressions. */
  function Level(e: Expr): nat {
    match e
    case Lit(_) | Group(_) | Call(_, _) => 0
    case Un(_, _) => 1
    case Bin(op, _, _) => Prec(op)
  }

  /** The parentheses that precedence and associativity call for are there. */
  predicate Grouped(e: Expr) {
    match e
    case Lit(_) => true
    case Group(x) => Grouped(x)
    case Call(_, args) => GroupedArgs(args)
    case Un(op, x) => Unary(op) && Grouped(x) && Level(x) <= 1
    case Bin(op, l, r) =>
      && !Unary(op) && Grouped(l) && Grouped(r)
      && (if Right(op) then Level(l) < Prec(op) && Level(r) <= Prec(op) else Level(l) <= Prec(op) && Level(r) < Prec(op))
  }

  predicate GroupedArgs(a: Args) {
    match a
    case One(x) => Grouped(x)
    case More(x, rest) => Grouped(x) && GroupedArgs(rest)
  }

  /** The first token that is not a left parenthesis is a sign. */
  predicate SignFirst(e: Expr) {
    match e
    case Lit(_) | Call(_, _) => false
    case Group(x) => SignFirst(x)
    case Un(op, _) => Signed(op)
    case Bin(_, l, _) => SignFirst(l)
  }

  /** No argument after a comma begins with a sign, not even inside parentheses. */
  predicate CommaSafe(e: Expr) {
    match e
    case Lit(_) => true
    case Group(x) => CommaSafe(x)
    case Call(_, args) => CommaSafeArgs(args, false)
    case Un(_, x) => CommaSafe(x)
    case Bin(_, l, r) => CommaSafe(l) && CommaSafe(r)
  }

  predicate CommaSafeArgs(a: Args, later: bool) {
    && CommaSafe(a.first)
    && (later ==> !SignFirst(a.first))
    && (a.More? ==> CommaSafeArgs(a.rest, true))
  }

  // ----- trees without parentheses, and parentheses put where they are needed

  predicate Bare(e: Expr) {
    match e
    case Lit(_) => true
    case Group(_) => false
    case Call(_, args) => BareArgs(args)
    case Un(op, x) => Unary(op) && Bare(x)
    case Bin(op, l, r) => !Unary(op) && Bare(l) && Bare(r)
  }

  predicate BareArgs(a: Args) {
    Bare(a.first) && (a.More? ==> BareArgs(a.rest))
  }

  function GroupIf(needed: bool, e: Expr): Expr {
    if needed then Group(e) else e
  }

  /** The tree with parentheses exactly around operands that bind too loosely. */
  function Parenthesise(e: Expr): Expr
    requires Bare(e)
  {
    match e
    case Lit(v) => e
    case Call(f, args) => Call(f, ParenthesiseArgs(args))
    case Un(op, x) => Un(op, GroupIf(Level(x) > 1, Parenthesise(x)))
    case Bin(op, l, r) =>
      var p := Prec(op);
      if Right(op) then Bin(op, GroupIf(Level(l) >= p, Parenthesise(l)), GroupIf(Level(r) > p, Parenthesise(r)))
      else Bin(op, GroupIf(Level(l) > p, Parenthesise(l)), GroupIf(Level(r) >= p, Parenthesise(r)))
  }

  function ParenthesiseArgs(a: Args): Args
    requires BareArgs(a)
  {
    match a
    case One(x) => One(Parenthesise(x))
    case More(x, rest) => More(Parenthesise(x), ParenthesiseArgs(rest))
  }

  /** Every tree has a properly parenthesised form with the same postfix code and the same signs. */
  lemma {:induction false} ParenthesiseKeeps(e: Expr)
    requires Bare(e)
    ensures Grouped(Parenthesise(e)) && Level(Parenthesise(e)) == Level(e)
    ensures Postfix(Parenthesise(e)) == Postfix(e)
    ensures SignFirst(Parenthesise(e)) == SignFirst(e) && CommaSafe(Parenthesise(e)) == CommaSafe(e)
  {
    match e {
      case Lit(v) =>
      case Call(f, args) => ParenthesiseArgsKeeps(args, false);
      case Un(op, x) => ParenthesiseKeeps(x);
      case Bin(op, l, r) =>
        ParenthesiseKeeps(l);
        ParenthesiseKeeps(r);
    }
  }

  lemma {:induction false} ParenthesiseArgsKeeps(a: Args, later: bool)
    requires BareArgs(a)
    ensures GroupedArgs(ParenthesiseArgs(a)) && ArgCount(ParenthesiseArgs(a)) == ArgCount(a)
    ensures PostfixArgs(ParenthesiseArgs(a)) == PostfixArgs(a)
    ensures CommaSafeArgs(ParenthesiseArgs(a), later) == CommaSafeArgs(a, later)
  {
    ParenthesiseKeeps(a.first);
    if a.More? {
      ParenthesiseArgsKeeps(a.rest, true);
    }
  }
}
