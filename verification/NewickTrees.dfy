/** Trees as values, their node tables and their printed form, and the passes of the parser's loop over such a
    text: what is scanned off after a node, and what a leaf, a parenthesis and a comma do to the table and
    the stack. */
module NewickTrees {
  import opened Options
  import opened Newick

  /** A tree as a value. */
  datatype Tree<D> = Tree(name: string, d: Option<D>, kids: seq<Tree<D>>)

  // ----- the node table of a tree: every node after its kids

  function Size<D>(t: Tree<D>): nat
    decreases t, 0
  {
    SizeAll(t.kids) + 1
  }

  function SizeAll<D>(s: seq<Tree<D>>): nat
    decreases s, 1
  {
    if s == [] then 0 else Size(s[0]) + SizeAll(s[1..])
  }

  /** The numbers of the roots of several trees stored one after the other from base on. */
  function Roots<D>(s: seq<Tree<D>>, base: nat): (r: seq<int>)
    ensures |r| == |s| && forall j :: 0 <= j < |r| ==> base <= r[j] < base + SizeAll(s)
  {
    if s == [] then [] else [base + Size(s[0]) - 1] + Roots(s[1..], base + Size(s[0]))
  }

  function Table<D>(t: Tree<D>, base: nat): (r: seq<Node<D>>)
    ensures |r| == Size(t)
    decreases t, 0
  {
    var roots := Roots(t.kids, base);
    SetParents(TableAll(t.kids, base), base, roots, base + SizeAll(t.kids)) + [Node(-1, roots, t.name, t.d)]
  }

  function TableAll<D>(s: seq<Tree<D>>, base: nat): (r: seq<Node<D>>)
    ensures |r| == SizeAll(s)
    decreases s, 1
  {
    if s == [] then [] else Table(s[0], base) + TableAll(s[1..], base + Size(s[0]))
  }

  // ----- printing

  function ShowDistance<D>(nums: Numerals<D>, d: Option<D>): string {
    match d
    case None => ""
    case Some(v) => ":" + nums.show(v)
  }

  function Show<D>(nums: Numerals<D>, t: Tree<D>): string
    decreases t, 0
  {
    (if t.kids == [] then "" else "(" + ShowAll(nums, t.kids) + ")") + t.name + ShowDistance(nums, t.d)
  }

  function ShowAll<D>(nums: Numerals<D>, s: seq<Tree<D>>): string
    decreases s, 1
  {
    if s == [] then "" else Show(nums, s[0]) + (if |s| == 1 then "" else "," + ShowAll(nums, s[1..]))
  }

  /** Kids come before their parents. */
  ghost predicate Ordered<D>(nodes: seq<Node<D>>) {
    forall i, j :: 0 <= i < |nodes| && 0 <= j < |nodes[i].child| ==> 0 <= nodes[i].child[j] < i
  }

  /** format_node_recur: prints node i of a table. */
  function Format<D>(nums: Numerals<D>, nodes: seq<Node<D>>, i: nat): string
    requires Ordered(nodes) && i < |nodes|
    decreases i, 1, 0
  {
    var n := nodes[i];
    (if n.child == [] then "" else "(" + FormatAll(nums, nodes, i, n.child) + ")") + n.name + ShowDistance(nums, n.d)
  }

  function FormatAll<D>(nums: Numerals<D>, nodes: seq<Node<D>>, i: nat, child: seq<int>): string
    requires Ordered(nodes) && i < |nodes| && forall j :: 0 <= j < |child| ==> 0 <= child[j] < i
    decreases i, 0, |child|
  {
    if child == [] then ""
    else Format(nums, nodes, child[0]) + (if |child| == 1 then "" else "," + FormatAll(nums, nodes, i, child[1..]))
  }

  // ----- which names survive

  /** Nothing in the name ends it, and nothing in it is taken for a comment or a distance. */
  predicate CleanName(name: string) {
    forall i :: 0 <= i < |name| ==> IsGraph(name[i]) && name[i] != ',' && name[i] != ')' && name[i] != '[' && name[i] != ':'
  }

  /** A leaf must print something, and not begin like an inner node. */
  predicate Clean<D>(t: Tree<D>)
    decreases t, 0
  {
    && CleanName(t.name) && AllClean(t.kids)
    && (t.kids == [] ==> if t.name == "" then t.d.Some? else t.name[0] != '(')
  }

  predicate AllClean<D>(s: seq<Tree<D>>)
    decreases s, 1
  {
    s == [] || (Clean(s[0]) && AllClean(s[1..]))
  }

  // ----- linking kids

  lemma {:induction false} SetParentsFrame<D>(a: seq<Node<D>>, m: seq<Node<D>>, b: seq<Node<D>>, r: seq<int>, x: int)
    requires forall j :: 0 <= j < |r| ==> |a| <= r[j] < |a| + |m|
    ensures SetParents(a + m + b, 0, r, x) == a + SetParents(m, |a|, r, x) + b
    decreases |r|
  {
    if r != [] {
      var l := r[|r| - 1];
      var m' := m[l - |a| := m[l - |a|].(parent := x)];
      assert (a + m + b)[l := (a + m + b)[l].(parent := x)] == a + m' + b;
      SetParentsFrame(a, m', b, r[..|r| - 1], x);
    }
  }

  // ----- the text after a node

  /** A clean name and a distance are scanned off. */
  lemma {:induction false} ScanClean<D(!new)>(nums: Numerals<D>, s: string, p: nat, name: string, d: Option<D>, rest: string)
    requires RoundTrips(nums) && p <= |s| && s[p..] == name + ShowDistance(nums, d) + rest && CleanName(name) && Ends(rest)
    ensures var q := p + |name|; Scan(nums, s, p, -1, None) == Scanned(q + |ShowDistance(nums, d)|, q, d, false)
    decreases |name|
  {
    hide Scan, Sane, RoundTrips, ShowDistance, Ends;
    Trips(nums);
    if name == "" {
      ScanDistance(nums, s, p, d, rest);
    } else {
      assert s[p] == s[p..][0] == name[0];
      assert s[p + 1..] == s[p..][1..] == name[1..] + ShowDistance(nums, d) + rest;
      ScanPass(nums, s, p, -1, None);
      ScanClean(nums, s, p + 1, name[1..], d, rest);
    }
  }

  lemma BehindText(s: string, p: nat, text: string, rest: string)
    requires p <= |s| && s[p..] == text + rest
    ensures p + |text| == |s| - |rest| && (rest == "" || s[p + |text|] == rest[0])
  {
    assert rest == "" || s[p..][|text|] == rest[0];
  }

  lemma BehindColon(s: string, p: nat, rest: string)
    requires p <= |s| && s[p..] == ":" + rest
    ensures p < |s| && s[p] == ':' && s[p + 1..] == rest
  {
    assert s[p] == s[p..][0];
    assert s[p + 1..] == s[p..][1..];
  }

  lemma ScanDistance<D(!new)>(nums: Numerals<D>, s: string, p: nat, d: Option<D>, rest: string)
    requires RoundTrips(nums) && p <= |s| && s[p..] == ShowDistance(nums, d) + rest && Ends(rest)
    ensures Scan(nums, s, p, -1, None) == Scanned(p + |ShowDistance(nums, d)|, p, d, false)
  {
    hide Scan, Sane, RoundTrips;
    Trips(nums);
    BehindText(s, p, ShowDistance(nums, d), rest);
    var q := p + |ShowDistance(nums, d)|;
    if d.Some? {
      BehindColon(s, p, nums.show(d.value) + rest);
      ReadBack(nums, d.value, rest);
      ScanPass(nums, s, p, -1, None);
      ScanStops(nums, s, q, p, d);
    } else {
      ScanStops(nums, s, q, -1, d);
    }
  }

  // ----- parsing what was printed

  /** From a the loop gets to b. */
  ghost predicate Reaches<D(!new)>(nums: Numerals<D>, s: string, a: State<D>, b: State<D>) {
    && Sane(nums) && a.p <= |s| && b.p <= |s| && Known(a.nodes, a.stack) && Known(b.nodes, b.stack)
    && Run(nums, s, a) == Run(nums, s, b)
  }

  lemma ReachesOn<D(!new)>(nums: Numerals<D>, s: string, a: State<D>, b: State<D>, c: State<D>)
    requires Reaches(nums, s, a, b) && Reaches(nums, s, b, c)
    ensures Reaches(nums, s, a, c)
  {
  }

  lemma ReachesKnown<D(!new)>(nums: Numerals<D>, s: string, a: State<D>, b: State<D>)
    requires Reaches(nums, s, a, b)
    ensures b.p <= |s| && Known(b.nodes, b.stack)
  {
  }

  /** A character that is not blank is where the next step is made. */
  lemma RunTo<D(!new)>(nums: Numerals<D>, s: string, st: State<D>, next: State<D>)
    requires Sane(nums) && st.p < |s| && IsGraph(s[st.p]) && Known(st.nodes, st.stack) && Step(nums, s, st) == Some(next)
    ensures Reaches(nums, s, st, next)
  {
    hide Step;
    RunStep(nums, s, st);
  }

  function Opened<D>(st: State<D>): State<D> {
    st.(p := st.p + 1, stack := st.stack + [-1])
  }

  lemma HeadOf(s: string, p: nat, a: string, rest: string)
    requires p <= |s| && s[p..] == a + rest
    ensures p + |a| <= |s| && s[p + |a|..] == rest && s[p..p + |a|] == a
    ensures a != "" ==> p < |s| && s[p] == a[0]
    ensures rest != "" ==> p + |a| < |s| && s[p + |a|] == rest[0]
  {
    assert |s[p..]| == |a| + |rest|;
    assert s[p + |a|..] == s[p..][|a|..];
    assert s[p..p + |a|] == s[p..][..|a|];
    if a != "" { assert s[p] == s[p..][0]; }
    if rest != "" { assert s[p + |a|] == s[p..][|a|]; }
  }

  lemma SliceStart(s: string, p: nat, a: string, b: string)
    requires p + |a + b| <= |s| && s[p..p + |a + b|] == a + b
    ensures s[p..p + |a|] == a
  {
    assert s[p..p + |a|] == s[p..p + |a + b|][..|a|];
  }

  /** The text after a node, as the parser takes it off. */
  lemma ScanText<D(!new)>(nums: Numerals<D>, s: string, p: nat, name: string, d: Option<D>, rest: string)
    requires RoundTrips(nums) && p <= |s| && s[p..] == name + ShowDistance(nums, d) + rest && CleanName(name) && Ends(rest)
    ensures var q := p + |name|; Scan(nums, s, p, -1, None) == Scanned(q + |ShowDistance(nums, d)|, q, d, false)
    ensures p + |name| <= |s| && s[p..p + |name|] == name
  {
    hide Scan, RoundTrips, Ends, CleanName;
    ScanClean(nums, s, p, name, d, rest);
    HeadOf(s, p, name + ShowDistance(nums, d), rest);
    SliceStart(s, p, name, ShowDistance(nums, d));
  }

  lemma StepLeaf<D(!new)>(nums: Numerals<D>, s: string, st: State<D>, r: Scanned<D>, name: string, next: State<D>)
    requires Sane(nums) && st.p < |s| && Known(st.nodes, st.stack)
    requires IsGraph(s[st.p]) && s[st.p] != ',' && s[st.p] != ')' && s[st.p] != '('
    requires r == Scan(nums, s, st.p, -1, None) && s[st.p..r.nend] == name && !r.error
    requires next.p == r.p && next.nodes == st.nodes + [Node(-1, [], name, r.d)] && next.stack == st.stack + [|st.nodes|]
    requires next.error == st.error
    ensures Step(nums, s, st) == Some(next)
  {
    hide Scan, Sane;
  }

  /** The step at a closing parenthesis, with the place of the open one and the kids above it given. */
  lemma StepAt<D(!new)>(nums: Numerals<D>, s: string, st: State<D>, r: Scanned<D>, i: int, kids: seq<int>, node: Node<D>)
    requires Sane(nums) && st.p < |s| && s[st.p] == ')' && Known(st.nodes, st.stack)
    requires i == LastOpen(st.stack) && 0 <= i < |st.stack| && kids == st.stack[i + 1..]
    requires r == Scan(nums, s, st.p + 1, -1, None) && node == Node(-1, kids, s[st.p + 1..r.nend], r.d)
    requires forall j :: 0 <= j < |kids| ==> 0 <= kids[j] < |st.nodes|
    ensures var got := Step(nums, s, st);
      && got.Some? && got.value.p == r.p && got.value.nodes == SetParents(st.nodes + [node], 0, kids, |st.nodes|)
      && got.value.stack == st.stack[..i] + [|st.nodes|] && got.value.error == (st.error || r.error)
  {
    hide Scan, Sane, SetParents, LastOpen;
  }

  lemma StepClose<D(!new)>(nums: Numerals<D>, s: string, st: State<D>, r: Scanned<D>, name: string, below: seq<int>, kids: seq<int>,
      node: Node<D>, next: State<D>)
    requires Sane(nums) && st.p < |s| && s[st.p] == ')' && Known(st.nodes, st.stack)
    requires st.stack == below + [-1] + kids && forall j :: 0 <= j < |kids| ==> 0 <= kids[j] < |st.nodes|
    requires r == Scan(nums, s, st.p + 1, -1, None) && s[st.p + 1..r.nend] == name && !r.error
    requires node == Node(-1, kids, name, r.d) && next.nodes == SetParents(st.nodes + [node], 0, kids, |st.nodes|)
    requires next.p == r.p && next.stack == below + [|st.nodes|] && next.error == st.error
    ensures Step(nums, s, st) == Some(next)
  {
    hide *;
    OpenBelow(below, kids);
    TopOf(below, kids);
    StepAt(nums, s, st, r, |below|, kids, node);
  }

  lemma TopOf(below: seq<int>, kids: seq<int>)
    ensures var st := below + [-1] + kids; st[..|below|] == below && st[|below| + 1..] == kids
  {
  }

  /** The table so far, with the kids of a new node linked to it. */
  lemma CloseTable<D>(nodes: seq<Node<D>>, t: Tree<D>, mid: seq<Node<D>>, roots: seq<int>, node: Node<D>, x: int)
    requires mid == TableAll(t.kids, |nodes|) && roots == Roots(t.kids, |nodes|) && node == Node(-1, roots, t.name, t.d)
    requires x == |nodes| + |mid|
    ensures |mid| == SizeAll(t.kids) && forall j :: 0 <= j < |roots| ==> |nodes| <= roots[j] < |nodes| + |mid|
    ensures SetParents(nodes + mid + [node], 0, roots, x) == nodes + Table(t, |nodes|)
  {
    hide *;
    TableUnfolds(t, |nodes|, mid, roots, node);
    SetParentsFrame(nodes, mid, [node], roots, x);
    Sandwich(nodes, SetParents(mid, |nodes|, roots, x), [node], Table(t, |nodes|), SetParents(nodes + mid + [node], 0, roots, x));
  }

  lemma Sandwich<T>(a: seq<T>, b: seq<T>, c: seq<T>, bc: seq<T>, abc: seq<T>)
    requires bc == b + c && abc == a + b + c
    ensures abc == a + bc
  {
  }

  lemma TableUnfolds<D>(t: Tree<D>, base: nat, mid: seq<Node<D>>, roots: seq<int>, node: Node<D>)
    requires mid == TableAll(t.kids, base) && roots == Roots(t.kids, base) && node == Node(-1, roots, t.name, t.d)
    ensures |mid| == SizeAll(t.kids) && forall j :: 0 <= j < |roots| ==> base <= roots[j] < base + |mid|
    ensures Table(t, base) == SetParents(mid, base, roots, base + |mid|) + [node]
  {
    hide SetParents, TableAll, SizeAll, Roots;
  }

  lemma TablesUnfold<D>(ts: seq<Tree<D>>, base: nat)
    requires ts != []
    ensures TableAll(ts, base) == Table(ts[0], base) + TableAll(ts[1..], base + Size(ts[0]))
  {
    hide Table, Size;
  }

  lemma RootsUnfold<D>(ts: seq<Tree<D>>, base: nat)
    requires ts != []
    ensures Roots(ts, base) == [base + Size(ts[0]) - 1] + Roots(ts[1..], base + Size(ts[0]))
  {
    hide Size, SizeAll;
  }

  lemma Assoc<T>(a: seq<T>, b: seq<T>, c: seq<T>)
    ensures a + b + c == a + (b + c)
  {
  }

  lemma Trips<D(!new)>(nums: Numerals<D>)
    requires RoundTrips(nums)
    ensures Sane(nums)
  {
  }

  lemma ReadBack<D(!new)>(nums: Numerals<D>, d: D, rest: string)
    requires RoundTrips(nums) && Ends(rest)
    ensures nums.read(nums.show(d) + rest) == (d, |nums.show(d)|)
  {
  }

  lemma LeafTable<D>(nodes: seq<Node<D>>, t: Tree<D>)
    requires t.kids == []
    ensures nodes + Table(t, |nodes|) == nodes + [Node(-1, [], t.name, t.d)]
  {
    assert Table(t, |nodes|) == [Node(-1, [], t.name, t.d)];
  }

  lemma Parenthesis(c: char)
    requires c == ')'
    ensures IsGraph(c)
  {
  }

  /** Where the parts of the text of an inner node are. */
  lemma InnerAt<D>(nums: Numerals<D>, s: string, p: nat, t: Tree<D>, rest: string)
    requires p <= |s| && s[p..] == Show(nums, t) + rest && t.kids != []
    ensures var all, tail := ShowAll(nums, t.kids), t.name + ShowDistance(nums, t.d); var after, q := ")" + tail + rest, p + 1 + |all|;
      && q < |s| && s[p] == '(' && s[p + 1..] == all + after && Ends(after) && s[q] == ')' && s[q + 1..] == tail + rest
      && p + |Show(nums, t)| == q + 1 + |tail| <= |s|
  {
    hide Show, ShowAll, ShowDistance, Ends;
    var all, tail := ShowAll(nums, t.kids), t.name + ShowDistance(nums, t.d);
    InnerShows(nums, t, rest);
    var after := ")" + tail + rest;
    HeadOf(s, p, "(", all + after);
    HeadOf(s, p + 1, all, after);
    HeadOf(s, p + 1 + |all|, ")", tail + rest);
    HeadOf(s, p, Show(nums, t), rest);
  }

  lemma InnerShows<D>(nums: Numerals<D>, t: Tree<D>, rest: string)
    requires t.kids != []
    ensures var all, tail := ShowAll(nums, t.kids), t.name + ShowDistance(nums, t.d); var after := ")" + tail + rest;
      && Show(nums, t) + rest == "(" + (all + after) && |Show(nums, t)| == 2 + |all| + |tail|
      && after == ")" + (tail + rest) && Ends(after) && after[0] == ')'
  {
    hide ShowAll, ShowDistance;
    var all, tail := ShowAll(nums, t.kids), t.name + ShowDistance(nums, t.d);
    assert Show(nums, t) == "(" + all + ")" + tail;
    assert ")" + tail + rest == ")" + (tail + rest);
    assert Show(nums, t) + rest == "(" + (all + (")" + tail + rest));
  }

  lemma RunOpen<D(!new)>(nums: Numerals<D>, s: string, st: State<D>)
    requires RoundTrips(nums) && st.p < |s| && s[st.p] == '(' && Known(st.nodes, st.stack)
    ensures Opened(st).p == st.p + 1 && Known(Opened(st).nodes, Opened(st).stack) && Reaches(nums, s, st, Opened(st))
  {
    RunTo(nums, s, st, Opened(st));
  }

  lemma RunComma<D(!new)>(nums: Numerals<D>, s: string, st: State<D>, next: State<D>)
    requires RoundTrips(nums) && st.p < |s| && s[st.p] == ',' && Known(st.nodes, st.stack) && next == st.(p := st.p + 1)
    ensures Reaches(nums, s, st, next)
  {
    RunTo(nums, s, st, next);
  }

  lemma ListShows<D>(nums: Numerals<D>, ts: seq<Tree<D>>, rest: string)
    requires ts != []
    ensures |ts| == 1 ==> ShowAll(nums, ts) == Show(nums, ts[0])
    ensures |ts| > 1 ==> var more := ShowAll(nums, ts[1..]) + rest;
      && ShowAll(nums, ts) + rest == Show(nums, ts[0]) + ("," + more) && Ends("," + more) && ("," + more)[0] == ','
      && |ShowAll(nums, ts)| == |Show(nums, ts[0])| + 1 + |ShowAll(nums, ts[1..])|
  {
    hide Show;
    var one, many := Show(nums, ts[0]), ShowAll(nums, ts[1..]);
    if |ts| > 1 {
      assert ShowAll(nums, ts) == one + ("," + many);
      assert one + ("," + many) + rest == one + ("," + (many + rest));
    }
  }

  /** The tables of the first tree and of the others, and their roots. */
  lemma ListTable<D>(nodes: seq<Node<D>>, stack: seq<int>, ts: seq<Tree<D>>, b: nat, next: nat)
    requires ts != [] && b == |nodes| && next == b + Size(ts[0])
    ensures nodes + TableAll(ts, b) == nodes + Table(ts[0], b) + TableAll(ts[1..], next)
    ensures stack + Roots(ts, b) == stack + [next - 1] + Roots(ts[1..], next)
  {
    hide Table, Size, TableAll, Roots, SizeAll;
    TablesUnfold(ts, b);
    RootsUnfold(ts, b);
    Assoc(nodes, Table(ts[0], b), TableAll(ts[1..], next));
    Assoc(stack, [next - 1], Roots(ts[1..], next));
  }

  lemma OneRoot<D>(ts: seq<Tree<D>>, base: nat)
    requires |ts| == 1
    ensures TableAll(ts, base) == Table(ts[0], base)
    ensures Roots(ts, base) == [base + Size(ts[0]) - 1]
  {
    hide Table, Size;
    TablesUnfold(ts, base);
    RootsUnfold(ts, base);
  }

  lemma OpenBelow(stack: seq<int>, roots: seq<int>)
    requires forall j :: 0 <= j < |roots| ==> roots[j] >= 0
    ensures LastOpen(stack + [-1] + roots) == |stack|
    decreases |roots|
  {
    var st := stack + [-1] + roots;
    if roots != [] {
      assert st[..|st| - 1] == stack + [-1] + roots[..|roots| - 1];
      OpenBelow(stack, roots[..|roots| - 1]);
    }
  }
}
