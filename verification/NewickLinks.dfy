/** Parents and kids of a parsed table name each other, whatever the text is. */
module NewickLinks {
  import opened Options
  import opened Newick
  import opened NewickTrees

  /** The kids of a node are before it, in ascending order, and name it as their parent; a node that names a parent is
      among its kids. */
  ghost predicate Linked<D>(nodes: seq<Node<D>>) {
    && (forall i, j :: 0 <= i < |nodes| && 0 <= j < |nodes[i].child| ==> 0 <= nodes[i].child[j] < i && nodes[nodes[i].child[j]].parent == i)
    && (forall i, a, b :: 0 <= i < |nodes| && 0 <= a < b < |nodes[i].child| ==> nodes[i].child[a] < nodes[i].child[b])
    && (forall k :: 0 <= k < |nodes| ==> nodes[k].parent == -1 || (k < nodes[k].parent < |nodes| && k in nodes[nodes[k].parent].child))
  }

  /** The stack holds the nodes without a parent, in ascending order, and open parentheses. */
  ghost predicate HoldsRoots<D>(nodes: seq<Node<D>>, stack: seq<int>) {
    && (forall j :: 0 <= j < |stack| ==> stack[j] == -1 || (0 <= stack[j] < |nodes| && nodes[stack[j]].parent == -1))
    && (forall a, b :: 0 <= a < b < |stack| && stack[b] >= 0 ==> stack[a] < stack[b])
    && (forall k :: 0 <= k < |nodes| && nodes[k].parent == -1 ==> k in stack)
  }

  lemma {:induction false} SetParentsIs<D>(nodes: seq<Node<D>>, r: seq<int>, x: int)
    requires forall j :: 0 <= j < |r| ==> 0 <= r[j] < |nodes|
    ensures forall k :: 0 <= k < |nodes| ==> SetParents(nodes, 0, r, x)[k] == if k in r then nodes[k].(parent := x) else nodes[k]
    decreases |r|
  {
    if r != [] {
      var l, less := r[|r| - 1], r[..|r| - 1];
      assert r == less + [l];
      SetParentsIs(nodes[l := nodes[l].(parent := x)], less, x);
    }
  }

  /** The table with a new node over the nodes kids. */
  ghost predicate Joined<D>(nodes: seq<Node<D>>, kids: seq<int>, after: seq<Node<D>>) {
    && |after| == |nodes| + 1 && after[|nodes|].parent == -1 && after[|nodes|].child == kids
    && forall k :: 0 <= k < |nodes| ==> after[k] == if k in kids then nodes[k].(parent := |nodes|) else nodes[k]
  }

  ghost predicate FreeKids<D>(nodes: seq<Node<D>>, kids: seq<int>) {
    && (forall j :: 0 <= j < |kids| ==> 0 <= kids[j] < |nodes| && nodes[kids[j]].parent == -1)
    && (forall a, b :: 0 <= a < b < |kids| ==> kids[a] < kids[b])
  }

  lemma JoinedIsLinked<D>(nodes: seq<Node<D>>, kids: seq<int>, after: seq<Node<D>>)
    requires Linked(nodes) && FreeKids(nodes, kids) && Joined(nodes, kids, after)
    ensures Linked(after)
  {
    var x := |nodes|;
    forall i, j | 0 <= i < |after| && 0 <= j < |after[i].child|
      ensures 0 <= after[i].child[j] < i && after[after[i].child[j]].parent == i {
      if i < x { assert after[i].child == nodes[i].child && nodes[i].child[j] !in kids; }
    }
    forall k | 0 <= k < |after|
      ensures after[k].parent == -1 || (k < after[k].parent < |after| && k in after[after[k].parent].child) {
      if k < x && k !in kids { assert after[k] == nodes[k]; }
    }
  }

  lemma JoinedHoldsRoots<D>(nodes: seq<Node<D>>, stack: seq<int>, i: nat, kids: seq<int>, after: seq<Node<D>>)
    requires HoldsRoots(nodes, stack) && i < |stack| && stack[i] == -1 && kids == stack[i + 1..] && Joined(nodes, kids, after)
    ensures HoldsRoots(after, stack[..i] + [|nodes|])
  {
    hide HoldsRoots;
    var now := stack[..i] + [|nodes|];
    forall j | 0 <= j < |now| ensures now[j] == -1 || (0 <= now[j] < |after| && after[now[j]].parent == -1) {
      if j < i { BelowStays(nodes, stack, i, kids, after, j); }
    }
    forall a, b | 0 <= a < b < |now| && now[b] >= 0 ensures now[a] < now[b] {
      StackAscends(nodes, stack, a, b);
    }
    forall k | 0 <= k < |after| && after[k].parent == -1 ensures k in now {
      if k == |nodes| { assert now[i] == k; } else { RootStays(nodes, stack, i, kids, after, k); }
    }
    HoldsRootsIf(after, now);
  }

  lemma HoldsRootsIf<D>(nodes: seq<Node<D>>, stack: seq<int>)
    requires forall j :: 0 <= j < |stack| ==> stack[j] == -1 || (0 <= stack[j] < |nodes| && nodes[stack[j]].parent == -1)
    requires forall a, b :: 0 <= a < b < |stack| && stack[b] >= 0 ==> stack[a] < stack[b]
    requires forall k :: 0 <= k < |nodes| && nodes[k].parent == -1 ==> k in stack
    ensures HoldsRoots(nodes, stack)
  {
  }

  lemma BelowStays<D>(nodes: seq<Node<D>>, stack: seq<int>, i: nat, kids: seq<int>, after: seq<Node<D>>, j: nat)
    requires HoldsRoots(nodes, stack) && j < i < |stack| && stack[i] == -1 && kids == stack[i + 1..] && Joined(nodes, kids, after)
    ensures stack[j] == -1 || (0 <= stack[j] < |nodes| && after[stack[j]].parent == -1)
  {
    if stack[j] in kids {
      var b :| 0 <= b < |kids| && kids[b] == stack[j];
      assert stack[i + 1 + b] == kids[b];
    }
  }

  lemma StackAscends<D>(nodes: seq<Node<D>>, stack: seq<int>, a: nat, b: nat)
    requires HoldsRoots(nodes, stack) && a < |stack|
    ensures stack[a] < |nodes|
    ensures a < b < |stack| && stack[b] >= 0 ==> stack[a] < stack[b]
  {
  }

  lemma RootStays<D>(nodes: seq<Node<D>>, stack: seq<int>, i: nat, kids: seq<int>, after: seq<Node<D>>, k: nat)
    requires HoldsRoots(nodes, stack) && i < |stack| && stack[i] == -1 && kids == stack[i + 1..] && Joined(nodes, kids, after)
    requires k < |nodes| && after[k].parent == -1
    ensures k in stack[..i]
  {
    assert k in stack && k !in kids;
    var a :| 0 <= a < |stack| && stack[a] == k;
    assert stack[..i][a] == k;
  }

  lemma TopIsFree<D>(nodes: seq<Node<D>>, stack: seq<int>, i: nat)
    requires HoldsRoots(nodes, stack) && i < |stack| && forall j :: i < j < |stack| ==> stack[j] >= 0
    ensures FreeKids(nodes, stack[i + 1..])
  {
  }

  /** A new root. */
  lemma LeafJoins<D>(nodes: seq<Node<D>>, stack: seq<int>, node: Node<D>)
    requires Linked(nodes) && HoldsRoots(nodes, stack) && node.parent == -1 && node.child == []
    ensures Linked(nodes + [node]) && HoldsRoots(nodes + [node], stack + [|nodes|])
  {
    JoinedIsLinked(nodes, [], nodes + [node]);
    var after, now := nodes + [node], stack + [|nodes|];
    forall k | 0 <= k < |after| && after[k].parent == -1 ensures k in now {
      if k == |nodes| { assert now[|stack|] == k; } else { assert nodes[k].parent == -1 && k in stack; }
    }
  }

  /** A node is made over the roots above the innermost open parenthesis. */
  lemma CloseJoins<D>(nodes: seq<Node<D>>, stack: seq<int>, i: nat, kids: seq<int>, node: Node<D>, after: seq<Node<D>>)
    requires Linked(nodes) && HoldsRoots(nodes, stack) && i < |stack| && i == LastOpen(stack) && kids == stack[i + 1..]
    requires node.parent == -1 && node.child == kids && forall j :: 0 <= j < |kids| ==> 0 <= kids[j] < |nodes|
    requires after == SetParents(nodes + [node], 0, kids, |nodes|)
    ensures Linked(after) && HoldsRoots(after, stack[..i] + [|nodes|])
  {
    hide Linked, SetParents, HoldsRoots, FreeKids;
    OpenIsThere(nodes, stack, i);
    TopIsFree(nodes, stack, i);
    SetParentsIs(nodes + [node], kids, |nodes|);
    JoinedIsLinked(nodes, kids, after);
    JoinedHoldsRoots(nodes, stack, i, kids, after);
  }

  lemma OpenIsThere<D>(nodes: seq<Node<D>>, stack: seq<int>, i: nat)
    requires HoldsRoots(nodes, stack) && i < |stack| && i == LastOpen(stack)
    ensures stack[i] == -1
  {
  }

  lemma StepLinks<D(!new)>(nums: Numerals<D>, s: string, st: State<D>, next: State<D>)
    requires Sane(nums) && st.p < |s| && IsGraph(s[st.p]) && Known(st.nodes, st.stack) && Step(nums, s, st) == Some(next)
    requires Linked(st.nodes) && HoldsRoots(st.nodes, st.stack)
    ensures Linked(next.nodes) && HoldsRoots(next.nodes, next.stack)
  {
    hide Linked, HoldsRoots, Scan, SetParents, Sane, LastOpen;
    if s[st.p] == ')' {
      CloseLinks(nums, s, st, next);
    } else if s[st.p] == '(' {
      OpenLinks(st.nodes, st.stack);
    } else if s[st.p] != ',' {
      LeafJoins(st.nodes, st.stack, next.nodes[|st.nodes|]);
    }
  }

  lemma OpenLinks<D>(nodes: seq<Node<D>>, stack: seq<int>)
    requires HoldsRoots(nodes, stack)
    ensures HoldsRoots(nodes, stack + [-1])
  {
    forall k | 0 <= k < |nodes| && nodes[k].parent == -1 ensures k in stack + [-1] {
      assert k in stack;
    }
  }

  lemma CloseLinks<D(!new)>(nums: Numerals<D>, s: string, st: State<D>, next: State<D>)
    requires Sane(nums) && st.p < |s| && s[st.p] == ')' && Known(st.nodes, st.stack) && Step(nums, s, st) == Some(next)
    requires Linked(st.nodes) && HoldsRoots(st.nodes, st.stack)
    ensures Linked(next.nodes) && HoldsRoots(next.nodes, next.stack)
  {
    hide *;
    StepFindsOpen(nums, s, st);
    var i := LastOpen(st.stack);
    var kids := st.stack[i + 1..];
    AboveOpen(st.nodes, st.stack, i, kids);
    var r := Scan(nums, s, st.p + 1, -1, None);
    var node := Node(-1, kids, s[st.p + 1..r.nend], r.d);
    StepAt(nums, s, st, r, i, kids, node);
    CloseJoins(st.nodes, st.stack, i, kids, node, next.nodes);
  }

  lemma StepFindsOpen<D(!new)>(nums: Numerals<D>, s: string, st: State<D>)
    requires Sane(nums) && st.p < |s| && s[st.p] == ')' && Known(st.nodes, st.stack) && Step(nums, s, st).Some?
    ensures LastOpen(st.stack) >= 0
  {
    hide Scan, SetParents, LastOpen, Sane;
  }

  lemma AboveOpen<D>(nodes: seq<Node<D>>, stack: seq<int>, i: nat, kids: seq<int>)
    requires Known(nodes, stack) && i < |stack| && i == LastOpen(stack) && kids == stack[i + 1..]
    ensures forall j :: 0 <= j < |kids| ==> 0 <= kids[j] < |nodes|
  {
    hide LastOpen;
  }

  lemma {:induction false} RunLinks<D(!new)>(nums: Numerals<D>, s: string, st: State<D>, end: State<D>)
    requires Sane(nums) && st.p <= |s| && Known(st.nodes, st.stack) && Run(nums, s, st) == Some(end)
    requires Linked(st.nodes) && HoldsRoots(st.nodes, st.stack)
    ensures Linked(end.nodes)
    decreases |s| - st.p
  {
    hide Run, Step, Linked, HoldsRoots;
    RunStep(nums, s, st);
    var p := SkipBlanks(s, st.p);
    if p < |s| {
      var next := Step(nums, s, st.(p := p)).value;
      StepLinks(nums, s, st.(p := p), next);
      RunLinks(nums, s, next, end);
    }
  }

  /** On every text, parents and kids of the table name each other. */
  lemma ParsedIsLinked<D(!new)>(nums: Numerals<D>, s: string)
    requires Sane(nums)
    ensures Parse(nums, s).Some? ==> Linked(Parse(nums, s).value.nodes)
  {
    hide Run;
    var start: State<D> := State(0, [], [], false);
    var end := Run(nums, s, start);
    if end.Some? { RunLinks(nums, s, start, end.value); }
  }
}
