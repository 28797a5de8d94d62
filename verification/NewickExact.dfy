/** Which trees come back from their printed form: exactly those with clean names and leaves that read as leaves. */
module NewickExact {
  import opened Options
  import opened Newick
  import opened NewickTrees
  import opened NewickRoundTrip
  import opened NewickHearing

  /** The table of a tree prints as the tree; parsing that gives the table again exactly when the tree is clean. */
  lemma RoundTripsExactly<D(!new)>(nums: Numerals<D>, t: Tree<D>)
    requires RoundTrips(nums)
    ensures var nodes := Table(t, 0);
      && Ordered(nodes) && Sane(nums) && Format(nums, nodes, |nodes| - 1) == Show(nums, t)
      && (Parse(nums, Format(nums, nodes, |nodes| - 1)) == Some(Parsed(nodes, false)) <==> Clean(t))
  {
    hide *;
    var nodes := Table(t, 0);
    Trips(nums);
    TableIsOrdered(t, nodes);
    FormatTable(nums, t, nodes);
    if Clean(t) {
      ParseShown(nums, t, nodes);
    } else if Parse(nums, Show(nums, t)) == Some(Parsed(nodes, false)) {
      OnlyClean(nums, t);
    }
  }

  lemma OnlyClean<D(!new)>(nums: Numerals<D>, t: Tree<D>)
    requires RoundTrips(nums) && Sane(nums) && Parse(nums, Show(nums, t)) == Some(Parsed(Table(t, 0), false))
    ensures Clean(t)
  {
    hide Table, Show, Run, Step, Clean, NamesClean, Heard, AllNames, RoundTrips, Hears, Names, Format;
    var s, none: seq<Node<D>> := Show(nums, t), [];
    var start := State(0, none, [], false);
    NoNames<D>();
    RunNames(nums, s, start);
    TableNames(t, 0);
    NamesCleanIs(t);
    assert s + "" == s && s[0..] == s;
    var end := HearTree(nums, s, start, t, "");
    HearsEnd(nums, s, start, end, Heard(t));
    HeardIsClean(t);
  }

  /** At the end of the text the parser has heard these names. */
  lemma HearsEnd<D(!new)>(nums: Numerals<D>, s: string, a: State<D>, b: State<D>, names: seq<string>)
    requires Hears(nums, s, a, b, names) && b.p == |s| && a.nodes == []
    ensures Sane(nums) && a.p <= |s| && Known(a.nodes, a.stack) && Run(nums, s, a) == Some(b) && Names(b.nodes) == names
  {
    hide Run;
    RunEnds(nums, s, b);
    assert [] + names == names;
  }
}
