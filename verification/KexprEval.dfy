/** The evaluator ke_eval: on an expression's postfix code it returns the value, whatever the operators mean. */
module KexprEval {
  import opened Options
  import opened KexprGrammar
  import opened KexprParser
  import opened KexprCorrect

  /** The meaning of atoms, operators and functions. `defined` says which functions have an
      implementation bound for which argument count. */
  datatype Meaning<!V> = Meaning(
    atom: nat -> V,
    op1: (Op, V) -> V,
    op2: (Op, V, V) -> V,
    fun1: (nat, V) -> V,
    fun2: (nat, V, V) -> V,
    defined: (nat, nat) -> bool
  )

  /** The value of an expression tree. A function without an implementation, or with more than two
      arguments, yields its first argument. */
  function Value<V>(m: Meaning<V>, e: Expr): V {
    match e
    case Lit(v) => m.atom(v)
    case Group(x) => Value(m, x)
    case Call(f, args) =>
      var vs := Values(m, args);
      if |vs| == 2 && m.defined(f, 2) then m.fun2(f, vs[0], vs[1])
      else if |vs| == 1 && m.defined(f, 1) then m.fun1(f, vs[0])
      else vs[0]
    case Un(op, x) => m.op1(op, Value(m, x))
    case Bin(op, l, r) => m.op2(op, Value(m, l), Value(m, r))
  }

  function Values<V>(m: Meaning<V>, a: Args): (vs: seq<V>)
    ensures |vs| == ArgCount(a)
  {
    match a
    case One(x) => [Value(m, x)]
    case More(x, rest) => [Value(m, x)] + Values(m, rest)
  }

  /** ke_eval has an implementation to call. */
  predicate Bound<V>(m: Meaning<V>, f: nat, k: nat) {
    1 <= k <= 2 && m.defined(f, k)
  }

  /** With n values on the stack, no slot below its bottom is used. A function without an implementation only
      drops all its arguments but the first. */
  predicate CanRun<V>(m: Meaning<V>, x: Elem, n: nat) {
    match x
    case Val(_) => true
    case Oper(op) => n >= if Unary(op) then 1 else 2
    case Fun(f, k) => k >= 1 && n >= if Bound(m, f, k) then k else k - 1
  }

  /** One element of the code on an evaluation stack, or nothing when operands are missing. */
  function Exec1<V>(m: Meaning<V>, x: Elem, st: seq<V>): Option<seq<V>> {
    var n := |st|;
    if !CanRun(m, x, n) then None
    else match x
      case Val(v) => Some(st + [m.atom(v)])
      case Oper(op) =>
        if Unary(op) then Some(st[..n - 1] + [m.op1(op, st[n - 1])])
        else Some(st[..n - 2] + [m.op2(op, st[n - 2], st[n - 1])])
      case Fun(f, k) =>
        if k == 2 && m.defined(f, 2) then Some(st[..n - 2] + [m.fun2(f, st[n - 2], st[n - 1])])
        else if k == 1 && m.defined(f, 1) then Some(st[..n - 1] + [m.fun1(f, st[n - 1])])
        else Some(st[..n - k + 1])
  }

  function Exec<V>(m: Meaning<V>, code: seq<Elem>, st: seq<V>): Option<seq<V>> {
    if code == [] then Some(st)
    else match Exec1(m, code[0], st)
      case None => None
      case Some(next) => Exec(m, code[1..], next)
  }

  lemma {:induction false} ExecAppend<V>(m: Meaning<V>, a: seq<Elem>, b: seq<Elem>, st: seq<V>)
    ensures Exec(m, a + b, st) == match Exec(m, a, st) case None => None case Some(next) => Exec(m, b, next)
    decreases |a|
  {
    if a == [] {
      assert a + b == b;
    } else {
      assert (a + b)[1..] == a[1..] + b;
      match Exec1(m, a[0], st) {
        case None =>
        case Some(next) => ExecAppend(m, a[1..], b, next);
      }
    }
  }

  lemma ExecOne<V>(m: Meaning<V>, x: Elem, st: seq<V>)
    ensures Exec(m, [x], st) == Exec1(m, x, st)
  {
    assert [x][1..] == [];
  }

  /** The code of an expression pushes exactly the expression's value. */
  lemma {:induction false} PostfixPushesValue<V>(m: Meaning<V>, e: Expr, st: seq<V>)
    requires Grouped(e)
    ensures Exec(m, Postfix(e), st) == Some(st + [Value(m, e)])
    decreases e, 1
  {
    match e {
      case Lit(v) => ExecOne(m, Val(v), st);
      case Group(x) => PostfixPushesValue(m, x, st);
      case Call(f, args) => CallPushesValue(m, f, args, st);
      case Un(op, x) =>
        PostfixPushesValue(m, x, st);
        ExecAppend(m, Postfix(x), [Oper(op)], st);
        ExecOne(m, Oper(op), st + [Value(m, x)]);
      case Bin(op, l, r) => BinPushesValue(m, op, l, r, st);
    }
  }

  lemma {:induction false} BinPushesValue<V>(m: Meaning<V>, op: Op, l: Expr, r: Expr, st: seq<V>)
    requires Grouped(Bin(op, l, r))
    ensures Exec(m, Postfix(Bin(op, l, r)), st) == Some(st + [m.op2(op, Value(m, l), Value(m, r))])
    decreases Bin(op, l, r), 0
  {
    hide Exec, Value;
    var a, b := Value(m, l), Value(m, r);
    PostfixPushesValue(m, l, st);
    PostfixPushesValue(m, r, st + [a]);
    ExecAppend(m, Postfix(l), Postfix(r), st);
    ExecAppend(m, Postfix(l) + Postfix(r), [Oper(op)], st);
    var top := st + [a] + [b];
    ExecOne(m, Oper(op), top);
    TopTwo(st, a, b);
  }

  lemma TopTwo<V>(st: seq<V>, a: V, b: V)
    ensures var top := st + [a] + [b]; |top| == |st| + 2 && top[..|top| - 2] == st && top[|top| - 2] == a && top[|top| - 1] == b
  {
  }

  lemma {:induction false} CallPushesValue<V>(m: Meaning<V>, f: nat, args: Args, st: seq<V>)
    requires GroupedArgs(args)
    ensures Exec(m, Postfix(Call(f, args)), st) == Some(st + [Value(m, Call(f, args))])
    decreases Call(f, args), 0
  {
    var vs, k := Values(m, args), ArgCount(args);
    ArgsPushValues(m, args, st);
    ExecAppend(m, PostfixArgs(args), [Fun(f, k)], st);
    var top := st + vs;
    ExecOne(m, Fun(f, k), top);
    assert top[..|top| - k] == st && top[..|top| - k + 1] == st + [vs[0]];
  }

  lemma {:induction false} ArgsPushValues<V>(m: Meaning<V>, a: Args, st: seq<V>)
    requires GroupedArgs(a)
    ensures Exec(m, PostfixArgs(a), st) == Some(st + Values(m, a))
    decreases a, 0
  {
    hide Exec, Exec1, Value;
    PostfixPushesValue(m, a.first, st);
    if a.More? {
      var v := Value(m, a.first);
      ArgsPushValues(m, a.rest, st + [v]);
      ExecAppend(m, Postfix(a.first), PostfixArgs(a.rest), st);
      assert st + [v] + Values(m, a.rest) == st + ([v] + Values(m, a.rest));
    }
  }

  /** One round of the loop in ke_eval. */
  method Apply<V>(m: Meaning<V>, x: Elem, stack: array<V>, top0: nat) returns (top: nat)
    requires CanRun(m, x, top0) && top0 < stack.Length
    modifies stack
    ensures top <= top0 + 1 && stack[..top] == Exec1(m, x, old(stack[..top0])).value
  {
    top := top0;
    match x {
      case Val(v) =>
        stack[top] := m.atom(v);
        top := top + 1;
      case Oper(op) =>
        if Unary(op) {
          stack[top - 1] := m.op1(op, stack[top - 1]);
        } else {
          top := top - 1;
          stack[top - 1] := m.op2(op, stack[top - 1], stack[top]);
        }
      case Fun(f, n) =>
        if n == 2 && m.defined(f, 2) {
          top := top - 1;
          stack[top - 1] := m.fun2(f, stack[top - 1], stack[top]);
        } else if n == 1 && m.defined(f, 1) {
          stack[top - 1] := m.fun1(f, stack[top - 1]);
        } else {
          top := top - (n - 1);
        }
    }
  }

  /** ke_eval with the stack as an array of |code| slots. The source does not test whether there are operands, and
      uses slots below the stack when there are none; here that yields nothing. */
  method Eval<V(0)>(m: Meaning<V>, code: seq<Elem>) returns (r: Option<V>)
    ensures var st := Exec(m, code, []);
      r == if st.Some? && st.value != [] then Some(st.value[0]) else None
  {
    hide Exec1;
    var stack := new V[|code|];
    var top := 0;
    assert code[0..] == code;
    for i := 0 to |code|
      invariant 0 <= top <= i
      invariant Exec(m, code, []) == Exec(m, code[i..], stack[..top])
    {
      assert code[i..][0] == code[i] && code[i..][1..] == code[i + 1..];
      RunsOrNot(m, code[i], stack[..top]);
      if !CanRun(m, code[i], top) {
        return None;
      }
      top := Apply(m, code[i], stack, top);
    }
    r := if top > 0 then Some(stack[0]) else None;
  }

  lemma RunsOrNot<V>(m: Meaning<V>, x: Elem, st: seq<V>)
    ensures Exec1(m, x, st).Some? <==> CanRun(m, x, |st|)
  {
  }

  /** Text to value: what the parser makes of a rendered expression evaluates to the expression's value,
      with one value on the stack at the end. */
  lemma ParsedEvaluates<V>(m: Meaning<V>, e: Expr)
    requires Grouped(e) && CommaSafe(e)
    ensures Parse(Render(e)).Success? && Exec(m, Parse(Render(e)).value, []) == Some([Value(m, e)])
  {
    ParseRendered(e);
    PostfixPushesValue(m, e, []);
    assert [] + [Value(m, e)] == [Value(m, e)];
  }
}
