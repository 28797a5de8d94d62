/** Printing a tree and parsing it back gives the same node table. */
module NewickRoundTrip {
  import opened Options
  import opened Newick
  import opened NewickTrees
  import opened NewickComments

  // ----- printing a table

  /** The two nodes print the same: the parent is not looked at. */
  predicate Same<D(==)>(a: Node<D>, b: Node<D>) {
    a.child == b.child && a.name == b.name && a.d == b.d
  }

  ghost predicate Holds<D>(nodes: seq<Node<D>>, at: nat, part: seq<Node<D>>) {
    at + |part| <= |nodes| && forall j :: 0 <= j < |part| ==> Same(nodes[at + j], part[j])
  }

  lemma {:induction false} LinkingKeeps<D>(nodes: seq<Node<D>>, base: int, r: seq<int>, x: int)
    requires forall j :: 0 <= j < |r| ==> base <= r[j] < base + |nodes|
    ensures forall j :: 0 <= j < |nodes| ==> Same(SetParents(nodes, base, r, x)[j], nodes[j])
    decreases |r|
  {
    if r != [] {
      var l := r[|r| - 1] - base;
      LinkingKeeps(nodes[l := nodes[l].(parent := x)], base, r[..|r| - 1], x);
    }
  }

  /** The parts of a table found in a larger one. */
  lemma HoldsParts<D>(nodes: seq<Node<D>>, at: nat, a: seq<Node<D>>, b: seq<Node<D>>)
    requires Holds(nodes, at, a + b)
    ensures Holds(nodes, at, a) && Holds(nodes, at + |a|, b)
  {
    forall j | 0 <= j < |a| ensures Same(nodes[at + j], a[j]) {
      assert (a + b)[j] == a[j];
    }
    forall j | 0 <= j < |b| ensures Same(nodes[at + |a| + j], b[j]) {
      assert (a + b)[|a| + j] == b[j];
      assert Same(nodes[at + (|a| + j)], (a + b)[|a| + j]);
    }
  }

  /** The kids' tables and the node itself, found in a larger table. */
  lemma HoldsTree<D>(nodes: seq<Node<D>>, t: Tree<D>, base: nat)
    requires Holds(nodes, base, Table(t, base))
    ensures Holds(nodes, base, TableAll(t.kids, base)) && base + SizeAll(t.kids) < |nodes|
    ensures Same(nodes[base + SizeAll(t.kids)], Node(-1, Roots(t.kids, base), t.name, t.d))
  {
    hide TableAll, SizeAll, Roots, Table, SetParents;
    var mid, kids := TableAll(t.kids, base), Roots(t.kids, base);
    var node := Node(-1, kids, t.name, t.d);
    TableUnfolds(t, base, mid, kids, node);
    HoldsParts(nodes, base, SetParents(mid, base, kids, base + |mid|), [node]);
    LinkingKeeps(mid, base, kids, base + |mid|);
    assert Same(nodes[base + |mid| + 0], [node][0]);
  }

  /** Printing a tree's table prints the tree. */
  lemma {:induction false} FormatIs<D>(nums: Numerals<D>, nodes: seq<Node<D>>, t: Tree<D>, base: nat)
    requires Ordered(nodes) && Holds(nodes, base, Table(t, base))
    ensures base + Size(t) <= |nodes| && Format(nums, nodes, base + Size(t) - 1) == Show(nums, t)
    decreases t, 0
  {
    hide TableAll, Roots, Table, ShowDistance, Holds, ShowAll, FormatAll;
    HoldsTree(nodes, t, base);
    FormatAllIs(nums, nodes, t.kids, base, base + SizeAll(t.kids));
  }

  lemma {:induction false} FormatAllIs<D>(nums: Numerals<D>, nodes: seq<Node<D>>, ts: seq<Tree<D>>, base: nat, i: nat)
    requires Ordered(nodes) && Holds(nodes, base, TableAll(ts, base)) && base + SizeAll(ts) <= i < |nodes|
    ensures FormatAll(nums, nodes, i, Roots(ts, base)) == ShowAll(nums, ts)
    decreases ts, 1
  {
    hide TableAll, Table, Holds, Show, Format;
    if ts != [] {
      TablesUnfold(ts, base);
      HoldsParts(nodes, base, Table(ts[0], base), TableAll(ts[1..], base + Size(ts[0])));
      FormatIs(nums, nodes, ts[0], base);
      FormatAllIs(nums, nodes, ts[1..], base + Size(ts[0]), i);
      assert Roots(ts, base)[1..] == Roots(ts[1..], base + Size(ts[0]));
    }
  }

  // ----- kids before parents

  ghost predicate OrderedFrom<D>(nodes: seq<Node<D>>, base: nat, at: nat) {
    forall i, j :: 0 <= i < |nodes| && 0 <= j < |nodes[i].child| ==> base <= nodes[i].child[j] < at + i
  }

  lemma {:induction false} TableOrdered<D>(t: Tree<D>, base: nat)
    ensures OrderedFrom(Table(t, base), base, base)
    decreases t, 0
  {
    hide TableAll, Roots, Table, SizeAll, SetParents;
    var mid, kids := TableAll(t.kids, base), Roots(t.kids, base);
    TableUnfolds(t, base, mid, kids, Node(-1, kids, t.name, t.d));
    TablesOrdered(t.kids, base);
    LinkingKeeps(mid, base, kids, base + |mid|);
  }

  lemma {:induction false} TablesOrdered<D>(ts: seq<Tree<D>>, base: nat)
    ensures OrderedFrom(TableAll(ts, base), base, base)
    decreases ts, 1
  {
    hide Table, Size;
    if ts != [] {
      TablesUnfold(ts, base);
      hide TableAll;
      TableOrdered(ts[0], base);
      TablesOrdered(ts[1..], base + Size(ts[0]));
    }
  }

  // ----- the round trip

  /** The postorder table of a tree prints as the tree, and that text parses, without an error, to the same table. */
  lemma RoundTrip<D(!new)>(nums: Numerals<D>, t: Tree<D>)
    requires RoundTrips(nums) && Clean(t)
    ensures var nodes := Table(t, 0);
      && Ordered(nodes) && Sane(nums)
      && Format(nums, nodes, |nodes| - 1) == Show(nums, t)
      && Parse(nums, Format(nums, nodes, |nodes| - 1)) == Some(Parsed(nodes, false))
  {
    hide *;
    var nodes := Table(t, 0);
    TableIsOrdered(t, nodes);
    FormatTable(nums, t, nodes);
    ParseShown(nums, t, nodes);
  }

  lemma TableIsOrdered<D>(t: Tree<D>, nodes: seq<Node<D>>)
    requires nodes == Table(t, 0)
    ensures Ordered(nodes) && |nodes| == Size(t)
  {
    hide Table;
    TableOrdered(t, 0);
  }

  lemma FormatTable<D>(nums: Numerals<D>, t: Tree<D>, nodes: seq<Node<D>>)
    requires nodes == Table(t, 0) && Ordered(nodes)
    ensures |nodes| > 0 && Format(nums, nodes, |nodes| - 1) == Show(nums, t)
  {
    hide Table, Show, Format;
    FormatIs(nums, nodes, t, 0);
  }

  /** The tree with nothing behind its names but their distances. */
  function Plain<D>(t: Tree<D>): Noted<D>
    decreases t, 0
  {
    Noted("", t.name, if t.d.Some? then [Distance(t.d.value)] else [], PlainAll(t.kids))
  }

  function PlainAll<D>(ts: seq<Tree<D>>): (ns: seq<Noted<D>>)
    ensures |ns| == |ts|
    decreases ts, 1
  {
    if ts == [] then [] else [Plain(ts[0])] + PlainAll(ts[1..])
  }

  lemma PlainTail<D>(nums: Numerals<D>, t: Tree<D>)
    ensures Tail(nums, Plain(t)) == t.name + ShowDistance(nums, t.d) && LastDistance(Plain(t).bits) == t.d
  {
    hide PlainAll;
    if t.d.Some? {
      var bits := [Distance(t.d.value)];
      assert BitsText(nums, bits) == BitText(nums, bits[0]) + BitsText(nums, bits[1..]) == ":" + nums.show(t.d.value);
    }
  }

  lemma {:induction false} PlainShows<D>(nums: Numerals<D>, t: Tree<D>)
    ensures ShowNoted(nums, Plain(t)) == Show(nums, t) && Bare(Plain(t)) == t
    decreases t, 0
  {
    hide Tail, LastDistance, ShowDistance, PlainAll, ShowAllNoted, ShowAll;
    PlainTail(nums, t);
    PlainsShow(nums, t.kids);
    var front := if t.kids == [] then "" else "(" + ShowAll(nums, t.kids) + ")";
    assert Show(nums, t) == front + t.name + ShowDistance(nums, t.d) == front + (t.name + ShowDistance(nums, t.d));
    assert "" + Body(nums, Plain(t)) == Body(nums, Plain(t));
  }

  lemma {:induction false} PlainsShow<D>(nums: Numerals<D>, ts: seq<Tree<D>>)
    ensures ShowAllNoted(nums, PlainAll(ts)) == ShowAll(nums, ts) && BareAll(PlainAll(ts)) == ts
    decreases ts, 1
  {
    hide Plain, Bare, ShowNoted, Show;
    if ts != [] {
      PlainShows(nums, ts[0]);
      PlainsShow(nums, ts[1..]);
      assert PlainAll(ts)[1..] == PlainAll(ts[1..]);
    }
  }

  lemma PlainBits<D(!new)>(nums: Numerals<D>, t: Tree<D>)
    requires RoundTrips(nums)
    ensures BitsOk(nums, Plain(t).bits)
  {
    hide PlainAll, RoundTrips, Ends, Sane;
    var bits := Plain(t).bits;
    forall i | 0 <= i < |bits| ensures BitOk(nums, bits[i], BitsText(nums, bits[i + 1..])) {
      forall rest | Ends(rest) ensures nums.read(nums.show(bits[0].d) + ("" + rest)) == (bits[0].d, |nums.show(bits[0].d)|) {
        assert "" + rest == rest;
        ReadBack(nums, bits[0].d, rest);
      }
    }
  }

  lemma {:induction false} PlainLegible<D(!new)>(nums: Numerals<D>, t: Tree<D>)
    requires RoundTrips(nums) && Clean(t)
    ensures Legible(nums, Plain(t))
    decreases t, 0
  {
    hide BitsOk, RoundTrips, PlainAll, AllLegible, AllClean;
    PlainBits(nums, t);
    PlainsLegible(nums, t.kids);
  }

  lemma {:induction false} PlainsLegible<D(!new)>(nums: Numerals<D>, ts: seq<Tree<D>>)
    requires RoundTrips(nums) && AllClean(ts)
    ensures AllLegible(nums, PlainAll(ts))
    decreases ts, 1
  {
    hide Legible, Clean, RoundTrips, Plain;
    if ts != [] {
      PlainLegible(nums, ts[0]);
      PlainsLegible(nums, ts[1..]);
      assert PlainAll(ts)[1..] == PlainAll(ts[1..]);
    }
  }

  lemma ParseShown<D(!new)>(nums: Numerals<D>, t: Tree<D>, nodes: seq<Node<D>>)
    requires RoundTrips(nums) && Clean(t) && nodes == Table(t, 0)
    ensures Sane(nums) && Parse(nums, Show(nums, t)) == Some(Parsed(nodes, false))
  {
    hide *;
    PlainShows(nums, t);
    PlainLegible(nums, t);
    ParsesWithComments(nums, Plain(t));
  }
}
