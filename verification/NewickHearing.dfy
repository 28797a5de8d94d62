/** What the parser makes of the printed form of any tree with clean names. It hears the names of the nodes in
    order, but takes parentheses in front of a leaf's name for themselves, and does not hear a leaf of which
    nothing else is printed; and no name that it makes is ever unclean. */
module NewickHearing {
  import opened Options
  import opened Newick
  import opened NewickTrees
  import opened NewickRoundTrip

  // ----- names

  function Names<D>(nodes: seq<Node<D>>): (r: seq<string>)
    ensures |r| == |nodes|
  {
    seq(|nodes|, i requires 0 <= i < |nodes| => nodes[i].name)
  }

  ghost predicate CleanNames(names: seq<string>) {
    forall i :: 0 <= i < |names| ==> CleanName(names[i])
  }

  lemma NamesKept<D>(nodes: seq<Node<D>>, base: int, r: seq<int>, x: int)
    requires forall j :: 0 <= j < |r| ==> base <= r[j] < base + |nodes|
    ensures Names(SetParents(nodes, base, r, x)) == Names(nodes)
  {
    LinkingKeeps(nodes, base, r, x);
    forall j | 0 <= j < |nodes| ensures SetParents(nodes, base, r, x)[j].name == nodes[j].name {
      assert Same(SetParents(nodes, base, r, x)[j], nodes[j]);
    }
  }

  lemma NamesAppend<D>(a: seq<Node<D>>, b: seq<Node<D>>)
    ensures Names(a + b) == Names(a) + Names(b)
  {
  }

  // ----- no parsed name is unclean

  lemma {:induction false} ScannedName<D(!new)>(nums: Numerals<D>, s: string, p0: nat, p: nat, nend: int, d: Option<D>)
    requires Sane(nums) && p0 <= p <= |s| && -1 <= nend <= p && (nend < 0 || p0 <= nend)
    requires CleanName(s[p0..if nend < 0 then p else nend])
    ensures p0 <= Scan(nums, s, p, nend, d).nend && CleanName(s[p0..Scan(nums, s, p, nend, d).nend])
    decreases |s| - p
  {
    hide Scan, Closing, CleanName;
    if p == |s| || s[p] == ',' || s[p] == ')' {
      ScanStops(nums, s, p, nend, d);
    } else {
      ScanPass(nums, s, p, nend, d);
      PassName(nums, s, p0, p, nend, d);
      var next := Pass(nums, s, p, nend, d);
      if next.Some? {
        ScannedName(nums, s, p0, next.value.0, next.value.1, next.value.2);
      }
    }
  }

  lemma PassName<D(!new)>(nums: Numerals<D>, s: string, p0: nat, p: nat, nend: int, d: Option<D>)
    requires Sane(nums) && p0 <= p < |s| && -1 <= nend <= p && (nend < 0 || p0 <= nend) && s[p] != ',' && s[p] != ')'
    requires CleanName(s[p0..if nend < 0 then p else nend])
    ensures var r := Pass(nums, s, p, nend, d); r.Some? ==>
      (r.value.1 < 0 || p0 <= r.value.1) && CleanName(s[p0..if r.value.1 < 0 then r.value.0 else r.value.1])
  {
    hide Closing;
    if nend < 0 { assert s[p0..p + 1] == s[p0..p] + [s[p]]; }
  }

  lemma StepNames<D(!new)>(nums: Numerals<D>, s: string, st: State<D>)
    requires Sane(nums) && st.p < |s| && IsGraph(s[st.p]) && Known(st.nodes, st.stack) && CleanNames(Names(st.nodes))
    ensures var next := Step(nums, s, st); next.Some? ==> CleanNames(Names(next.value.nodes))
  {
    hide Scan, CleanName, Names, SetParents, LastOpen, Sane;
    var State(p, nodes, stack, error) := st;
    if s[p] == ')' {
      var i := LastOpen(stack);
      if i >= 0 {
        NewName(nums, s, p + 1);
        var r := Scan(nums, s, p + 1, -1, None);
        var kids, node := stack[i + 1..], Node(-1, stack[i + 1..], s[p + 1..r.nend], r.d);
        NamesKept(nodes + [node], 0, kids, |nodes|);
        OneMoreName(nodes, node);
      }
    } else if s[p] != ',' && s[p] != '(' {
      NewName(nums, s, p);
      var r := Scan(nums, s, p, -1, None);
      OneMoreName(nodes, Node(-1, [], s[p..r.nend], r.d));
    }
  }

  lemma NewName<D(!new)>(nums: Numerals<D>, s: string, p: nat)
    requires Sane(nums) && p <= |s|
    ensures p <= Scan(nums, s, p, -1, None).nend && CleanName(s[p..Scan(nums, s, p, -1, None).nend])
  {
    hide Scan;
    assert s[p..p] == "";
    ScannedName(nums, s, p, p, -1, None);
  }

  lemma OneMoreName<D>(nodes: seq<Node<D>>, node: Node<D>)
    requires CleanNames(Names(nodes)) && CleanName(node.name)
    ensures CleanNames(Names(nodes + [node]))
  {
    hide CleanName;
    NamesAppend(nodes, [node]);
    assert Names([node]) == [node.name];
  }

  lemma {:induction false} RunNames<D(!new)>(nums: Numerals<D>, s: string, st: State<D>)
    requires Sane(nums) && st.p <= |s| && Known(st.nodes, st.stack) && CleanNames(Names(st.nodes))
    ensures var end := Run(nums, s, st); end.Some? ==> CleanNames(Names(end.value.nodes))
    decreases |s| - st.p
  {
    hide Step, CleanNames, SkipBlanks, Names;
    RunStep(nums, s, st);
    var p := SkipBlanks(s, st.p);
    if p < |s| {
      StepNames(nums, s, st.(p := p));
      var next := Step(nums, s, st.(p := p));
      if next.Some? { RunNames(nums, s, next.value); }
    }
  }

  // ----- the names that a printed tree is heard to have

  /** The names of a tree, every node after its kids. */
  function AllNames<D>(t: Tree<D>): (r: seq<string>)
    ensures |r| == Size(t)
    decreases t, 0
  {
    NamesOfAll(t.kids) + [t.name]
  }

  function NamesOfAll<D>(ts: seq<Tree<D>>): (r: seq<string>)
    ensures |r| == SizeAll(ts)
    decreases ts, 1
  {
    if ts == [] then [] else AllNames(ts[0]) + NamesOfAll(ts[1..])
  }

  lemma {:induction false} TableNames<D>(t: Tree<D>, base: nat)
    ensures Names(Table(t, base)) == AllNames(t)
    decreases t, 0
  {
    hide TableAll, Roots, Table, SetParents, Names;
    var mid, kids := TableAll(t.kids, base), Roots(t.kids, base);
    var node := Node(-1, kids, t.name, t.d);
    TableUnfolds(t, base, mid, kids, node);
    TablesNames(t.kids, base);
    NamesKept(mid, base, kids, base + |mid|);
    NamesAppend(SetParents(mid, base, kids, base + |mid|), [node]);
    OneName(node);
  }

  lemma OneName<D>(node: Node<D>)
    ensures Names([node]) == [node.name]
  {
  }

  lemma {:induction false} TablesNames<D>(ts: seq<Tree<D>>, base: nat)
    ensures Names(TableAll(ts, base)) == NamesOfAll(ts)
    decreases ts, 1
  {
    hide Table, Size, Names, AllNames;
    if ts == [] {
      NoNames<D>();
    } else {
      TablesUnfold(ts, base);
      TableNames(ts[0], base);
      TablesNames(ts[1..], base + Size(ts[0]));
      hide TableAll;
      NamesAppend(Table(ts[0], base), TableAll(ts[1..], base + Size(ts[0])));
    }
  }

  lemma NoNames<D>()
    ensures Names<D>([]) == []
  {
  }

  /** All names are clean, whatever the leaves print. */
  predicate NamesClean<D>(t: Tree<D>)
    decreases t, 0
  {
    CleanName(t.name) && NamesAllClean(t.kids)
  }

  predicate NamesAllClean<D>(ts: seq<Tree<D>>)
    decreases ts, 1
  {
    ts == [] || (NamesClean(ts[0]) && NamesAllClean(ts[1..]))
  }

  lemma {:induction false} NamesCleanIs<D>(t: Tree<D>)
    requires CleanNames(AllNames(t))
    ensures NamesClean(t)
    decreases t, 0
  {
    hide CleanName;
    var a := NamesOfAll(t.kids);
    assert AllNames(t) == a + [t.name];
    assert AllNames(t)[|a|] == t.name;
    CleanParts(a, [t.name]);
    NamesAllCleanIs(t.kids);
  }

  lemma {:induction false} NamesAllCleanIs<D>(ts: seq<Tree<D>>)
    requires CleanNames(NamesOfAll(ts))
    ensures NamesAllClean(ts)
    decreases ts, 1
  {
    if ts != [] {
      CleanParts(AllNames(ts[0]), NamesOfAll(ts[1..]));
      NamesCleanIs(ts[0]);
      NamesAllCleanIs(ts[1..]);
    }
  }

  lemma CleanParts(a: seq<string>, b: seq<string>)
    requires CleanNames(a + b)
    ensures CleanNames(a) && CleanNames(b)
  {
    hide CleanName;
    forall i | 0 <= i < |a| ensures CleanName(a[i]) { assert (a + b)[i] == a[i]; }
    forall i | 0 <= i < |b| ensures CleanName(b[i]) { assert (a + b)[|a| + i] == b[i]; }
  }

  /** Opening parentheses at the start of a leaf's name are taken for themselves. */
  function Stripped(name: string): string {
    if name != "" && name[0] == '(' then Stripped(name[1..]) else name
  }

  /** What is heard of a leaf: nothing, if nothing but parentheses is printed. */
  function HeardLeaf<D>(name: string, d: Option<D>): (r: seq<string>)
    ensures |r| <= 1
  {
    if Stripped(name) == "" && d.None? then [] else [Stripped(name)]
  }

  function Heard<D>(t: Tree<D>): (r: seq<string>)
    ensures |r| <= Size(t)
    decreases t, 0
  {
    if t.kids == [] then HeardLeaf(t.name, t.d) else HeardAll(t.kids) + [t.name]
  }

  function HeardAll<D>(ts: seq<Tree<D>>): (r: seq<string>)
    ensures |r| <= SizeAll(ts)
    decreases ts, 1
  {
    if ts == [] then [] else Heard(ts[0]) + HeardAll(ts[1..])
  }

  lemma {:induction false} StrippedSame(name: string)
    requires Stripped(name) == name && name != ""
    ensures name[0] != '('
  {
    if name[0] == '(' { StrippedShorter(name[1..]); }
  }

  lemma {:induction false} StrippedShorter(name: string)
    ensures |Stripped(name)| <= |name|
  {
    if name != "" && name[0] == '(' { StrippedShorter(name[1..]); }
  }

  /** A tree whose names are all heard as they are is clean. */
  lemma {:induction false} HeardIsClean<D>(t: Tree<D>)
    requires NamesClean(t) && Heard(t) == AllNames(t)
    ensures Clean(t)
    decreases t, 0
  {
    hide CleanName, Stripped;
    if t.kids == [] {
      assert AllNames(t) == [t.name];
      if t.name != "" { StrippedSame(t.name); } else { assert Stripped("") == "" by { StrippedShorter(""); } }
    } else {
      LastAlike(HeardAll(t.kids), NamesOfAll(t.kids), t.name);
      HeardAllIsClean(t.kids);
    }
  }

  lemma LastAlike(a: seq<string>, b: seq<string>, x: string)
    requires a + [x] == b + [x]
    ensures a == b
  {
    assert a == (a + [x])[..|a + [x]| - 1] && b == (b + [x])[..|b + [x]| - 1];
  }

  lemma {:induction false} HeardAllIsClean<D>(ts: seq<Tree<D>>)
    requires NamesAllClean(ts) && HeardAll(ts) == NamesOfAll(ts)
    ensures AllClean(ts)
    decreases ts, 1
  {
    hide NamesClean, Clean, Heard, AllNames;
    if ts != [] {
      var a, b, a', b' := Heard(ts[0]), AllNames(ts[0]), HeardAll(ts[1..]), NamesOfAll(ts[1..]);
      assert |a| <= |b| && |a'| <= |b'| && a + a' == b + b';
      assert |a + a'| == |b + b'|;
      assert a == (a + a')[..|a|] && b == (b + b')[..|b|];
      assert a' == (a + a')[|a|..] && b' == (b + b')[|b|..];
      HeardIsClean(ts[0]);
      HeardAllIsClean(ts[1..]);
    }
  }

  // ----- parsing a printed tree with clean names

  /** From a the loop gets to b, with these names added and nothing on the stack of a lost. */
  ghost predicate Hears<D(!new)>(nums: Numerals<D>, s: string, a: State<D>, b: State<D>, names: seq<string>) {
    Reaches(nums, s, a, b) && Names(b.nodes) == Names(a.nodes) + names && a.stack <= b.stack
  }

  lemma HearsOn<D(!new)>(nums: Numerals<D>, s: string, a: State<D>, b: State<D>, c: State<D>, x: seq<string>, y: seq<string>)
    requires Hears(nums, s, a, b, x) && Hears(nums, s, b, c, y)
    ensures Hears(nums, s, a, c, x + y)
  {
    hide Reaches, Names;
    ReachesOn(nums, s, a, b, c);
    Assoc(Names(a.nodes), x, y);
  }

  lemma HearsNothing<D(!new)>(nums: Numerals<D>, s: string, a: State<D>, b: State<D>)
    requires Reaches(nums, s, a, b) && b.nodes == a.nodes && a.stack <= b.stack
    ensures Hears(nums, s, a, b, [])
  {
    hide Reaches, Names;
  }

  lemma Stays<D(!new)>(nums: Numerals<D>, s: string, a: State<D>)
    requires Sane(nums) && a.p <= |s| && Known(a.nodes, a.stack)
    ensures Reaches(nums, s, a, a)
  {
  }

  /** What is printed of a leaf. */
  lemma {:induction false} HearLeaf<D(!new)>(nums: Numerals<D>, s: string, st: State<D>, name: string, d: Option<D>, rest: string)
      returns (next: State<D>)
    requires RoundTrips(nums) && st.p <= |s| && s[st.p..] == name + ShowDistance(nums, d) + rest && Ends(rest) && CleanName(name)
    requires Known(st.nodes, st.stack)
    ensures Hears(nums, s, st, next, HeardLeaf(name, d)) && next.p == st.p + |name + ShowDistance(nums, d)| && next.p <= |s|
    decreases |name|
  {
    hide Scan, Step, Run, Ends, RoundTrips, Known, Reaches, Hears, Names, ShowDistance;
    Trips(nums);
    if name != "" && name[0] == '(' {
      assert name == "(" + name[1..];
      assert name + ShowDistance(nums, d) + rest == "(" + (name[1..] + ShowDistance(nums, d) + rest);
      HeadOf(s, st.p, "(", name[1..] + ShowDistance(nums, d) + rest);
      RunOpen(nums, s, st);
      OpenedIs(st);
      HearsNothing(nums, s, st, Opened(st));
      next := HearLeaf(nums, s, Opened(st), name[1..], d, rest);
      HearsOn(nums, s, st, Opened(st), next, [], HeardLeaf(name[1..], d));
      assert [] + HeardLeaf(name[1..], d) == HeardLeaf(name, d);
    } else if name == "" && d.None? {
      next := st;
      NoDistance(nums, d);
      Stays(nums, s, st);
      HearsNothing(nums, s, st, st);
    } else {
      next := HearName(nums, s, st, name, d, rest);
    }
  }

  lemma OpenedIs<D>(st: State<D>)
    ensures Opened(st).nodes == st.nodes && st.stack <= Opened(st).stack && Opened(st).p == st.p + 1
  {
  }

  lemma NoDistance<D>(nums: Numerals<D>, d: Option<D>)
    ensures d.None? ==> ShowDistance(nums, d) == ""
    ensures d.Some? ==> ShowDistance(nums, d) != "" && ShowDistance(nums, d)[0] == ':'
  {
  }

  lemma HearName<D(!new)>(nums: Numerals<D>, s: string, st: State<D>, name: string, d: Option<D>, rest: string) returns (next: State<D>)
    requires RoundTrips(nums) && st.p <= |s| && s[st.p..] == name + ShowDistance(nums, d) + rest && Ends(rest) && CleanName(name)
    requires Known(st.nodes, st.stack) && (if name == "" then d.Some? else name[0] != '(')
    ensures Hears(nums, s, st, next, HeardLeaf(name, d)) && next.p == st.p + |name + ShowDistance(nums, d)| && next.p <= |s|
  {
    FirstOfLeaf(nums, name, d);
    hide Scan, Step, Run, Ends, RoundTrips, Known, Reaches, Names, ShowDistance, CleanName;
    Trips(nums);
    HeadOf(s, st.p, name + ShowDistance(nums, d), rest);
    ScanText(nums, s, st.p, name, d, rest);
    var r := Scan(nums, s, st.p, -1, None);
    var node := Node(-1, [], name, r.d);
    next := State(r.p, st.nodes + [node], st.stack + [|st.nodes|], st.error);
    StepLeaf(nums, s, st, r, name, next);
    RunTo(nums, s, st, next);
    ReachesKnown(nums, s, st, next);
    NamesAppend(st.nodes, [node]);
    OneName(node);
    assert Stripped(name) == name;
  }

  lemma FirstOfLeaf<D>(nums: Numerals<D>, name: string, d: Option<D>)
    requires CleanName(name) && (if name == "" then d.Some? else name[0] != '(')
    ensures var text := name + ShowDistance(nums, d);
      text != "" && IsGraph(text[0]) && text[0] != ',' && text[0] != ')' && text[0] != '('
  {
  }

  lemma LastOpenAbove(stack: seq<int>, below: seq<int>)
    requires below + [-1] <= stack
    ensures |below| <= LastOpen(stack) < |stack| && below <= stack[..LastOpen(stack)]
  {
    assert stack[|below|] == -1;
  }

  lemma KidsKnown<D>(nodes: seq<Node<D>>, stack: seq<int>)
    requires Known(nodes, stack)
    ensures forall j :: LastOpen(stack) < j < |stack| ==> 0 <= stack[j] < |nodes|
  {
  }

  /** The step at a closing parenthesis that name and distance follow. */
  lemma CloseStep<D(!new)>(nums: Numerals<D>, s: string, st: State<D>, name: string, d: Option<D>, rest: string, i: int, kids: seq<int>)
      returns (next: State<D>)
    requires RoundTrips(nums) && st.p < |s| && s[st.p] == ')' && s[st.p + 1..] == name + ShowDistance(nums, d) + rest
    requires Ends(rest) && CleanName(name) && Known(st.nodes, st.stack)
    requires i == LastOpen(st.stack) && 0 <= i && kids == st.stack[i + 1..] && forall j :: 0 <= j < |kids| ==> 0 <= kids[j] < |st.nodes|
    ensures Step(nums, s, st) == Some(next) && next.p == st.p + 1 + |name + ShowDistance(nums, d)|
    ensures next.nodes == SetParents(st.nodes + [Node(-1, kids, name, d)], 0, kids, |st.nodes|) && next.stack == st.stack[..i] + [|st.nodes|]
  {
    hide Scan, Step, Ends, RoundTrips, Known, ShowDistance, CleanName, LastOpen, SetParents;
    Trips(nums);
    ScanText(nums, s, st.p + 1, name, d, rest);
    StepAt(nums, s, st, Scan(nums, s, st.p + 1, -1, None), i, kids, Node(-1, kids, name, d));
    next := Step(nums, s, st).value;
  }

  /** The closing parenthesis after what has been heard of the kids. */
  lemma HearClose<D(!new)>(nums: Numerals<D>, s: string, st: State<D>, name: string, d: Option<D>, rest: string, below: seq<int>)
      returns (next: State<D>)
    requires RoundTrips(nums) && st.p < |s| && s[st.p] == ')' && s[st.p + 1..] == name + ShowDistance(nums, d) + rest
    requires Ends(rest) && CleanName(name) && Known(st.nodes, st.stack) && below + [-1] <= st.stack
    ensures Reaches(nums, s, st, next) && Names(next.nodes) == Names(st.nodes) + [name] && below <= next.stack
    ensures next.p == st.p + 1 + |name + ShowDistance(nums, d)| && next.p <= |s|
  {
    hide Scan, Step, Run, Ends, RoundTrips, Known, Reaches, Names, ShowDistance, CleanName, LastOpen, SetParents;
    LastOpenAbove(st.stack, below);
    KidsKnown(st.nodes, st.stack);
    var i := LastOpen(st.stack);
    var kids := st.stack[i + 1..];
    var node := Node(-1, kids, name, d);
    next := CloseStep(nums, s, st, name, d, rest, i, kids);
    Trips(nums);
    Parenthesis(s[st.p]);
    RunTo(nums, s, st, next);
    ReachesKnown(nums, s, st, next);
    NamesKept(st.nodes + [node], 0, kids, |st.nodes|);
    NamesAppend(st.nodes, [node]);
    OneName(node);
  }

  lemma {:induction false} HearTree<D(!new)>(nums: Numerals<D>, s: string, st: State<D>, t: Tree<D>, rest: string) returns (next: State<D>)
    requires RoundTrips(nums) && st.p <= |s| && s[st.p..] == Show(nums, t) + rest && Ends(rest) && NamesClean(t)
    requires Known(st.nodes, st.stack)
    ensures Hears(nums, s, st, next, Heard(t)) && next.p == st.p + |Show(nums, t)| && next.p <= |s|
    decreases t, 0
  {
    hide Scan, Step, Run, Ends, RoundTrips, Known, Reaches, Hears, Names, ShowDistance, CleanName, Show, ShowAll;
    if t.kids == [] {
      LeafText(nums, t);
      next := HearLeaf(nums, s, st, t.name, t.d, rest);
    } else {
      var all, tail := ShowAll(nums, t.kids), t.name + ShowDistance(nums, t.d);
      InnerAt(nums, s, st.p, t, rest);
      RunOpen(nums, s, st);
      OpenedIs(st);
      HearsNothing(nums, s, st, Opened(st));
      var mid := HearAll(nums, s, Opened(st), t.kids, ")" + tail + rest);
      HearsKnown(nums, s, Opened(st), mid, HeardAll(t.kids));
      next := HearClose(nums, s, mid, t.name, t.d, rest, st.stack);
      HearsInner(nums, s, st, mid, next, HeardAll(t.kids), t.name);
    }
  }

  lemma LeafText<D>(nums: Numerals<D>, t: Tree<D>)
    requires t.kids == []
    ensures Show(nums, t) == t.name + ShowDistance(nums, t.d)
  {
    assert "" + t.name == t.name;
  }

  lemma HearsKnown<D(!new)>(nums: Numerals<D>, s: string, a: State<D>, b: State<D>, names: seq<string>)
    requires Hears(nums, s, a, b, names)
    ensures Known(b.nodes, b.stack) && b.p <= |s| && a.stack <= b.stack
  {
  }

  lemma HearsInner<D(!new)>(nums: Numerals<D>, s: string, st: State<D>, mid: State<D>, next: State<D>, names: seq<string>, name: string)
    requires Hears(nums, s, st, Opened(st), []) && Hears(nums, s, Opened(st), mid, names)
    requires Reaches(nums, s, mid, next) && Names(next.nodes) == Names(mid.nodes) + [name] && st.stack <= next.stack
    ensures Hears(nums, s, st, next, names + [name])
  {
    hide Reaches, Names;
    ReachesOn(nums, s, st, Opened(st), mid);
    ReachesOn(nums, s, st, mid, next);
    Assoc(Names(st.nodes), names, [name]);
  }

  lemma {:induction false} HearAll<D(!new)>(nums: Numerals<D>, s: string, st: State<D>, ts: seq<Tree<D>>, rest: string) returns (next: State<D>)
    requires RoundTrips(nums) && st.p <= |s| && s[st.p..] == ShowAll(nums, ts) + rest && Ends(rest) && NamesAllClean(ts) && ts != []
    requires Known(st.nodes, st.stack)
    ensures Hears(nums, s, st, next, HeardAll(ts)) && next.p == st.p + |ShowAll(nums, ts)| && next.p <= |s|
    decreases ts, 1
  {
    hide Scan, Step, Run, Ends, RoundTrips, Known, Reaches, Hears, Names, ShowDistance, NamesClean, Show, ShowAll, Heard;
    ListShows(nums, ts, rest);
    if |ts| == 1 {
      next := HearTree(nums, s, st, ts[0], rest);
      assert HeardAll(ts) == Heard(ts[0]) by { assert ts[1..] == [] && Heard(ts[0]) + [] == Heard(ts[0]); }
    } else {
      var more := ShowAll(nums, ts[1..]) + rest;
      var a := HearTree(nums, s, st, ts[0], "," + more);
      HearsKnown(nums, s, st, a, Heard(ts[0]));
      HeadOf(s, st.p, Show(nums, ts[0]), "," + more);
      HeadOf(s, a.p, ",", more);
      var b := a.(p := a.p + 1);
      RunComma(nums, s, a, b);
      HearsNothing(nums, s, a, b);
      HearsOn(nums, s, st, a, b, Heard(ts[0]), []);
      assert Heard(ts[0]) + [] == Heard(ts[0]);
      next := HearAll(nums, s, b, ts[1..], rest);
      HearsOn(nums, s, st, b, next, Heard(ts[0]), HeardAll(ts[1..]));
    }
  }
}
