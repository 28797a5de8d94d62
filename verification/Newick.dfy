/** Trees in New Hampshire format: the node table, printing, and parsing with an explicit stack. Reading and
    printing of numbers is abstract. Step is one pass of the parser's loop and Scan the text after a node;
    the methods are the loops themselves. */
module Newick {
  import opened Options

  /** One entry of the node table; parent is -1 at a root, d is None where the distance is not set. */
  datatype Node<D> = Node(parent: int, child: seq<int>, name: string, d: Option<D>)

  /** How distances are printed, and how a string is read as a distance: value and number of characters used. */
  datatype Numerals<!D> = Numerals(show: D -> string, read: string -> (D, nat))

  ghost predicate Sane<D(!new)>(nums: Numerals<D>) {
    forall s :: nums.read(s).1 <= |s|
  }

  predicate Ends(rest: string) {
    rest == "" || rest[0] == ',' || rest[0] == ')'
  }

  /** What is printed as a distance is read back, if the text ends there. */
  ghost predicate RoundTrips<D(!new)>(nums: Numerals<D>) {
    Sane(nums) && forall d, rest :: Ends(rest) ==> nums.read(nums.show(d) + rest) == (d, |nums.show(d)|)
  }

  /** Printable and not a space, as isgraph says in the C locale. */
  predicate IsGraph(c: char) {
    '!' <= c <= '~'
  }

  // ----- the text after a node: its name, comments and distance

  /** The first closing bracket from p on, or the end. */
  function Closing(s: string, p: nat): (q: nat)
    requires p <= |s|
    ensures p <= q <= |s| && (q < |s| ==> s[q] == ']')
    decreases |s| - p
  {
    if p == |s| || s[p] == ']' then p else Closing(s, p + 1)
  }

  datatype Scanned<D> = Scanned(p: nat, nend: nat, d: Option<D>, error: bool)

  /** Reads on at p; nend is where the name ended, or -1. */
  function Scan<D(!new)>(nums: Numerals<D>, s: string, p: nat, nend: int, d: Option<D>): (r: Scanned<D>)
    requires p <= |s| && -1 <= nend <= p && Sane(nums)
    ensures p <= r.p <= |s| && (if nend < 0 then p else nend) <= r.nend <= r.p
    ensures p < |s| && s[p] != ',' && s[p] != ')' ==> p < r.p
    decreases |s| - p
  {
    var here := if nend < 0 then p else nend;
    if p == |s| || s[p] == ',' || s[p] == ')' then Scanned(p, here, d, false)
    else if s[p] == '[' then
      var q := Closing(s, p + 1);
      if q == |s| then Scanned(q, here, d, true) else Scan(nums, s, q + 1, here, d)
    else if s[p] == ':' then
      var v := nums.read(s[p + 1..]);
      Scan(nums, s, p + 1 + v.1, here, Some(v.0))
    else if !IsGraph(s[p]) then Scan(nums, s, p + 1, here, d)
    else Scan(nums, s, p + 1, nend, d)
  }

  // ----- parsing

  /** The parser's variables. stack holds node indices, and -1 for an open parenthesis. */
  datatype State<D> = State(p: nat, nodes: seq<Node<D>>, stack: seq<int>, error: bool)

  function SkipBlanks(s: string, p: nat): (q: nat)
    requires p <= |s|
    ensures p <= q <= |s| && (q < |s| ==> IsGraph(s[q]))
    decreases |s| - p
  {
    if p < |s| && !IsGraph(s[p]) then SkipBlanks(s, p + 1) else p
  }

  /** The place of the innermost open parenthesis, or -1. */
  function LastOpen(stack: seq<int>): (i: int)
    ensures -1 <= i < |stack| && (i >= 0 ==> stack[i] < 0)
    ensures forall j :: i < j < |stack| ==> stack[j] >= 0
  {
    if stack == [] then -1
    else if stack[|stack| - 1] < 0 then |stack| - 1
    else LastOpen(stack[..|stack| - 1])
  }

  /** The nodes named by the stack exist. */
  ghost predicate Known<D>(nodes: seq<Node<D>>, stack: seq<int>) {
    forall j :: 0 <= j < |stack| ==> stack[j] < |nodes|
  }

  /** The parent of each of the nodes r, which are numbered from base on, set to x. */
  function SetParents<D>(nodes: seq<Node<D>>, base: int, r: seq<int>, x: int): (q: seq<Node<D>>)
    requires forall j :: 0 <= j < |r| ==> base <= r[j] < base + |nodes|
    ensures |q| == |nodes|
    decreases |r|
  {
    if r == [] then nodes
    else
      var l := r[|r| - 1] - base;
      SetParents(nodes[l := nodes[l].(parent := x)], base, r[..|r| - 1], x)
  }

  /** One pass of the loop, at a character that is not blank. None: a closing parenthesis without an open one. */
  function Step<D(!new)>(nums: Numerals<D>, s: string, st: State<D>): (r: Option<State<D>>)
    requires Sane(nums) && st.p < |s| && IsGraph(s[st.p]) && Known(st.nodes, st.stack)
    ensures r.Some? ==> st.p < r.value.p <= |s| && Known(r.value.nodes, r.value.stack)
  {
    var State(p, nodes, stack, error) := st;
    if s[p] == ',' then Some(State(p + 1, nodes, stack, error))
    else if s[p] == '(' then Some(State(p + 1, nodes, stack + [-1], error))
    else if s[p] == ')' then
      var i := LastOpen(stack);
      if i < 0 then None
      else
        var r := Scan(nums, s, p + 1, -1, None);
        var x := |nodes|;
        var kids := stack[i + 1..];
        var node := Node(-1, kids, s[p + 1..r.nend], r.d);
        Some(State(r.p, SetParents(nodes + [node], 0, kids, x), stack[..i] + [x], error || r.error))
    else
      var r := Scan(nums, s, p, -1, None);
      Some(State(r.p, nodes + [Node(-1, [], s[p..r.nend], r.d)], stack + [|nodes|], error || r.error))
  }

  /** The whole loop. */
  function Run<D(!new)>(nums: Numerals<D>, s: string, st: State<D>): Option<State<D>>
    requires Sane(nums) && st.p <= |s| && Known(st.nodes, st.stack)
    decreases |s| - st.p
  {
    var p := SkipBlanks(s, st.p);
    if p == |s| then Some(st.(p := p))
    else
      match Step(nums, s, st.(p := p))
      case None => None
      case Some(next) => Run(nums, s, next)
  }

  datatype Parsed<D> = Parsed(nodes: seq<Node<D>>, error: bool)

  function Parse<D(!new)>(nums: Numerals<D>, s: string): Option<Parsed<D>>
    requires Sane(nums)
  {
    match Run(nums, s, State(0, [], [], false))
    case None => None
    case Some(st) => Some(Parsed(st.nodes, st.error))
  }

  // ----- the parser's loops

  method FindClosing(s: string, p0: nat) returns (p: nat)
    requires p0 <= |s|
    ensures p == Closing(s, p0)
  {
    p := p0;
    while p < |s| && s[p] != ']'
      invariant p0 <= p <= |s| && Closing(s, p) == Closing(s, p0)
    {
      p := p + 1;
    }
  }

  method SkipToGraph(s: string, p0: nat) returns (p: nat)
    requires p0 <= |s|
    ensures p == SkipBlanks(s, p0)
  {
    p := p0;
    while p < |s| && !IsGraph(s[p])
      invariant p0 <= p <= |s| && SkipBlanks(s, p) == SkipBlanks(s, p0)
    {
      p := p + 1;
    }
  }

  /** What one pass of the scan does: the next position, the end of the name, the distance. None: an open bracket. */
  function Pass<D(!new)>(nums: Numerals<D>, s: string, p: nat, nend: int, d: Option<D>): (r: Option<(nat, int, Option<D>)>)
    requires p < |s| && -1 <= nend <= p && Sane(nums)
    ensures r.Some? ==> p < r.value.0 <= |s| && -1 <= r.value.1 < r.value.0
    ensures r.Some? && nend >= 0 ==> r.value.1 == nend
    ensures r.Some? && r.value.1 >= 0 && nend < 0 ==> r.value.1 == p
  {
    var here := if nend < 0 then p else nend;
    if s[p] == '[' then
      var q := Closing(s, p + 1);
      if q == |s| then None else Some((q + 1, here, d))
    else if s[p] == ':' then
      var v := nums.read(s[p + 1..]);
      Some((p + 1 + v.1, here, Some(v.0)))
    else if !IsGraph(s[p]) then Some((p + 1, here, d))
    else Some((p + 1, nend, d))
  }

  lemma ScanPass<D(!new)>(nums: Numerals<D>, s: string, p: nat, nend: int, d: Option<D>)
    requires p < |s| && s[p] != ',' && s[p] != ')' && -1 <= nend <= p && Sane(nums)
    ensures match Pass(nums, s, p, nend, d)
            case None => Scan(nums, s, p, nend, d) == Scanned(|s|, if nend < 0 then p else nend, d, true)
            case Some(n) => Scan(nums, s, p, nend, d) == Scan(nums, s, n.0, n.1, n.2)
  {
  }

  lemma ScanStops<D(!new)>(nums: Numerals<D>, s: string, p: nat, nend: int, d: Option<D>)
    requires p <= |s| && (p == |s| || s[p] == ',' || s[p] == ')') && -1 <= nend <= p && Sane(nums)
    ensures Scan(nums, s, p, nend, d) == Scanned(p, if nend < 0 then p else nend, d, false)
  {
  }

  /** The scan in add_node: where it stops, the name, the distance, and whether a bracket was left open. */
  method AddNode<D(!new)>(nums: Numerals<D>, s: string, p0: nat) returns (p: nat, name: string, d: Option<D>, error: bool)
    requires Sane(nums) && p0 <= |s|
    ensures var r := Scan(nums, s, p0, -1, None);
      p == r.p && name == s[p0..r.nend] && d == r.d && error == r.error
  {
    hide Scan, Closing;
    p, d, error := p0, None, false;
    var nend := -1;
    while p < |s| && s[p] != ',' && s[p] != ')'
      invariant p0 <= p <= |s| && -1 <= nend <= p && (nend < 0 || p0 <= nend)
      invariant Scan(nums, s, p, nend, d) == Scan(nums, s, p0, -1, None)
      decreases |s| - p
    {
      ScanPass(nums, s, p, nend, d);
      if s[p] == '[' {
        if nend < 0 { nend := p; }
        p := FindClosing(s, p + 1);
        if p == |s| {
          return p, s[p0..nend], d, true;
        }
      } else if s[p] == ':' {
        if nend < 0 { nend := p; }
        var v := nums.read(s[p + 1..]);
        d := Some(v.0);
        p := p + 1 + v.1;
        p := p - 1;
      } else if !IsGraph(s[p]) {
        if nend < 0 { nend := p; }
      }
      p := p + 1;
    }
    ScanStops(nums, s, p, nend, d);
    if nend < 0 { nend := p; }
    name := s[p0..nend];
  }

  /** Sets the parent of the nodes above the open parenthesis, from the top of the stack down. */
  method LinkKids<D>(nodes0: seq<Node<D>>, stack: seq<int>, i: nat, x: nat) returns (nodes: seq<Node<D>>)
    requires i <= |stack| && forall j :: i <= j < |stack| ==> 0 <= stack[j] < |nodes0|
    ensures nodes == SetParents(nodes0, 0, stack[i..], x)
  {
    nodes := nodes0;
    var j := |stack|;
    assert stack[i..j] == stack[i..];
    while j > i
      invariant i <= j <= |stack| && |nodes| == |nodes0|
      invariant SetParents(nodes, 0, stack[i..j], x) == SetParents(nodes0, 0, stack[i..], x)
    {
      j := j - 1;
      assert stack[i..j + 1][..j - i] == stack[i..j] && stack[i..j + 1][j - i] == stack[j];
      nodes := nodes[stack[j] := nodes[stack[j]].(parent := x)];
    }
  }

  /** The search down the stack for the open parenthesis. */
  method FindOpen(stack: seq<int>) returns (i: int)
    ensures i == LastOpen(stack)
  {
    i := |stack| - 1;
    assert stack[..i + 1] == stack;
    while i >= 0 && stack[i] >= 0
      invariant -1 <= i < |stack| && LastOpen(stack[..i + 1]) == LastOpen(stack)
    {
      assert stack[..i + 1][..i] == stack[..i];
      i := i - 1;
    }
  }

  /** The case of a closing parenthesis. */
  method Close<D(!new)>(nums: Numerals<D>, s: string, p0: nat, nodes0: seq<Node<D>>, stack0: seq<int>, error0: bool)
      returns (ok: bool, p: nat, nodes: seq<Node<D>>, stack: seq<int>, error: bool)
    requires Sane(nums) && p0 < |s| && s[p0] == ')' && Known(nodes0, stack0)
    ensures Step(nums, s, State(p0, nodes0, stack0, error0)) == if ok then Some(State(p, nodes, stack, error)) else None
  {
    hide Scan, SetParents, LastOpen, Sane;
    p, nodes, stack, error := p0, nodes0, stack0, error0;
    var i := FindOpen(stack);
    if i < 0 {
      return false, p, nodes, stack, error;
    }
    var x := |nodes|;
    var name, d, e;
    p, name, d, e := AddNode(nums, s, p + 1);
    nodes := nodes + [Node(-1, stack[i + 1..], name, d)];
    nodes := LinkKids(nodes, stack, i + 1, x);
    ok, stack, error := true, stack[..i] + [x], error || e;
  }

  /** The body of the loop, at a character that is not blank. */
  method TakeStep<D(!new)>(nums: Numerals<D>, s: string, p0: nat, nodes0: seq<Node<D>>, stack0: seq<int>, error0: bool)
      returns (ok: bool, p: nat, nodes: seq<Node<D>>, stack: seq<int>, error: bool)
    requires Sane(nums) && p0 < |s| && IsGraph(s[p0]) && Known(nodes0, stack0)
    ensures Step(nums, s, State(p0, nodes0, stack0, error0)) == if ok then Some(State(p, nodes, stack, error)) else None
  {
    hide Scan, SetParents, LastOpen;
    ok, p, nodes, stack, error := true, p0, nodes0, stack0, error0;
    if s[p] == ',' {
      p := p + 1;
    } else if s[p] == '(' {
      stack, p := stack + [-1], p + 1;
    } else if s[p] == ')' {
      ok, p, nodes, stack, error := Close(nums, s, p, nodes, stack, error);
    } else {
      stack := stack + [|nodes|];
      var name, d, e;
      p, name, d, e := AddNode(nums, s, p);
      nodes, error := nodes + [Node(-1, [], name, d)], error || e;
    }
  }

  /** kn_parse. False where the code would go below the bottom of its stack. */
  method ParseNhx<D(!new)>(nums: Numerals<D>, s: string) returns (ok: bool, nodes: seq<Node<D>>, error: bool)
    requires Sane(nums)
    ensures ok <==> Parse(nums, s).Some?
    ensures ok ==> Parse(nums, s) == Some(Parsed(nodes, error))
  {
    var p, stack: seq<int> := 0, [];
    ok, nodes, error := true, [], false;
    ghost var whole := Run(nums, s, State(0, [], [], false));
    hide Scan, SetParents, SkipBlanks, LastOpen, Step, Run;
    while p < |s|
      invariant p <= |s| && Known(nodes, stack) && Run(nums, s, State(p, nodes, stack, error)) == whole
      decreases |s| - p
    {
      RunStep(nums, s, State(p, nodes, stack, error));
      p := SkipToGraph(s, p);
      if p == |s| {
        break;
      }
      ok, p, nodes, stack, error := TakeStep(nums, s, p, nodes, stack, error);
      if !ok {
        return;
      }
    }
    RunEnds(nums, s, State(p, nodes, stack, error));
  }

  lemma RunStep<D(!new)>(nums: Numerals<D>, s: string, st: State<D>)
    requires Sane(nums) && st.p <= |s| && Known(st.nodes, st.stack)
    ensures var p := SkipBlanks(s, st.p);
      Run(nums, s, st) == if p == |s| then Some(st.(p := p))
        else match Step(nums, s, st.(p := p)) case None => None case Some(next) => Run(nums, s, next)
  {
  }

  lemma RunEnds<D(!new)>(nums: Numerals<D>, s: string, st: State<D>)
    requires Sane(nums) && st.p == |s| && Known(st.nodes, st.stack)
    ensures Run(nums, s, st) == Some(st)
  {
  }
}
