/** Texts with comments, blanks and leftovers: what stands behind names and distances, and what becomes of it. */
module NewickComments {
  import opened Options
  import opened Newick
  import opened NewickTrees

  /** What may stand behind a name: a comment, a blank, a distance, or any other character. */
  datatype Bit<D> = Comment(text: string) | Blank(c: char) | Distance(d: D) | Other(c: char)

  /** A tree, with the blanks in front of every node and the text behind its name. */
  datatype Noted<D> = Noted(lead: string, name: string, bits: seq<Bit<D>>, kids: seq<Noted<D>>)

  function LastDistance<D>(bits: seq<Bit<D>>): Option<D> {
    if bits == [] then None
    else if bits[|bits| - 1].Distance? then Some(bits[|bits| - 1].d)
    else LastDistance(bits[..|bits| - 1])
  }

  /** The tree alone: the last distance counts, and everything else behind a name is dropped. */
  function Bare<D>(n: Noted<D>): Tree<D>
    decreases n, 0
  {
    Tree(n.name, LastDistance(n.bits), BareAll(n.kids))
  }

  function BareAll<D>(ns: seq<Noted<D>>): (ts: seq<Tree<D>>)
    ensures |ts| == |ns|
    decreases ns, 1
  {
    if ns == [] then [] else [Bare(ns[0])] + BareAll(ns[1..])
  }

  // ----- the text

  function BitText<D>(nums: Numerals<D>, b: Bit<D>): (text: string)
    ensures text != ""
  {
    match b
    case Comment(text) => "[" + (text + "]")
    case Distance(d) => ":" + nums.show(d)
    case Blank(c) => [c]
    case Other(c) => [c]
  }

  function BitsText<D>(nums: Numerals<D>, bits: seq<Bit<D>>): string {
    if bits == [] then "" else BitText(nums, bits[0]) + BitsText(nums, bits[1..])
  }

  function Tail<D>(nums: Numerals<D>, n: Noted<D>): string {
    n.name + BitsText(nums, n.bits)
  }

  function Body<D>(nums: Numerals<D>, n: Noted<D>): string
    decreases n, 0
  {
    (if n.kids == [] then "" else "(" + ShowAllNoted(nums, n.kids) + ")") + Tail(nums, n)
  }

  function ShowNoted<D>(nums: Numerals<D>, n: Noted<D>): string
    decreases n, 1
  {
    n.lead + Body(nums, n)
  }

  function ShowAllNoted<D>(nums: Numerals<D>, ns: seq<Noted<D>>): string
    decreases ns, 2
  {
    if ns == [] then "" else ShowNoted(nums, ns[0]) + (if |ns| == 1 then "" else "," + ShowAllNoted(nums, ns[1..]))
  }

  // ----- which texts are meant

  /** The bit is what it says: a comment does not hold the bracket that ends it, and what is printed as a distance is
      read back in front of the text after it. */
  ghost predicate BitOk<D(!new)>(nums: Numerals<D>, b: Bit<D>, after: string) {
    match b
    case Comment(text) => ']' !in text
    case Distance(d) => forall rest :: Ends(rest) ==> nums.read(nums.show(d) + (after + rest)) == (d, |nums.show(d)|)
    case Blank(c) => !IsGraph(c)
    case Other(c) => IsGraph(c) && c != ',' && c != ')' && c != '[' && c != ':'
  }

  ghost predicate BitsOk<D(!new)>(nums: Numerals<D>, bits: seq<Bit<D>>) {
    forall i :: 0 <= i < |bits| ==> BitOk(nums, bits[i], BitsText(nums, bits[i + 1..]))
  }

  predicate Blanks(text: string) {
    forall i :: 0 <= i < |text| ==> !IsGraph(text[i])
  }

  /** Names are clean, the text behind them does not go on with the name, and a leaf begins like a leaf. */
  ghost predicate Legible<D(!new)>(nums: Numerals<D>, n: Noted<D>)
    decreases n, 0
  {
    && Blanks(n.lead) && CleanName(n.name) && BitsOk(nums, n.bits) && (n.bits != [] ==> !n.bits[0].Other?)
    && (n.kids == [] ==> if n.name == "" then n.bits != [] && !n.bits[0].Blank? else n.name[0] != '(')
    && AllLegible(nums, n.kids)
  }

  ghost predicate AllLegible<D(!new)>(nums: Numerals<D>, ns: seq<Noted<D>>)
    decreases ns, 1
  {
    ns == [] || (Legible(nums, ns[0]) && AllLegible(nums, ns[1..]))
  }

  // ----- the text after a node

  /** From p on the text is this. */
  ghost predicate At(s: string, p: nat, text: string) {
    p <= |s| && s[p..] == text
  }

  lemma {:induction false} ClosingIs(s: string, p: nat, c: string, rest: string)
    requires p <= |s| && s[p..] == c + ("]" + rest) && ']' !in c
    ensures Closing(s, p) == p + |c| < |s| && s[p + |c| + 1..] == rest
    decreases |c|
  {
    HeadOf(s, p, c, "]" + rest);
    if c == "" {
      assert s[p..] == "]" + rest;
      assert s[p + 1..] == s[p..][1..];
    } else {
      assert s[p] == c[0] && c[0] in c;
      assert s[p + 1..] == s[p..][1..] == c[1..] + ("]" + rest);
      ClosingIs(s, p + 1, c[1..], rest);
    }
  }

  /** The name has ended at q, or may still end there. */
  predicate EndsAt(nend: int, q: nat, p: nat) {
    q <= p && (nend == q || (nend == -1 && p == q))
  }

  /** The distance known behind a bit. */
  function Knowing<D>(d: Option<D>, b: Bit<D>): Option<D> {
    if b.Distance? then Some(b.d) else d
  }

  lemma ScanComment<D(!new)>(nums: Numerals<D>, s: string, p: nat, q: nat, nend: int, d: Option<D>, c: string, rest: string)
    requires Sane(nums) && At(s, p, "[" + (c + "]") + rest) && ']' !in c && EndsAt(nend, q, p)
    ensures var p' := p + |c| + 2; At(s, p', rest) && EndsAt(q, q, p') && Scan(nums, s, p, nend, d) == Scan(nums, s, p', q, d)
  {
    hide Scan, Sane;
    assert "[" + (c + "]") + rest == "[" + (c + ("]" + rest));
    HeadOf(s, p, "[", c + ("]" + rest));
    ClosingIs(s, p + 1, c, rest);
    ScanPass(nums, s, p, nend, d);
  }

  lemma ScanNumber<D(!new)>(nums: Numerals<D>, s: string, p: nat, q: nat, nend: int, d: Option<D>, v: D, rest: string)
    requires Sane(nums) && At(s, p, ":" + nums.show(v) + rest) && EndsAt(nend, q, p)
    requires nums.read(nums.show(v) + rest) == (v, |nums.show(v)|)
    ensures var p' := p + 1 + |nums.show(v)|; At(s, p', rest) && EndsAt(q, q, p') && Scan(nums, s, p, nend, d) == Scan(nums, s, p', q, Some(v))
  {
    hide Scan, Sane;
    assert ":" + nums.show(v) + rest == ":" + (nums.show(v) + rest);
    BehindColon(s, p, nums.show(v) + rest);
    HeadOf(s, p + 1, nums.show(v), rest);
    ScanPass(nums, s, p, nend, d);
  }

  /** A single character; one that is not blank is passed over without a trace once the name has ended. */
  lemma ScanSingle<D(!new)>(nums: Numerals<D>, s: string, p: nat, q: nat, nend: int, d: Option<D>, c: char, rest: string)
    requires Sane(nums) && At(s, p, [c] + rest) && EndsAt(nend, q, p) && c != ',' && c != ')' && c != '[' && c != ':'
    requires IsGraph(c) ==> nend == q
    ensures At(s, p + 1, rest) && EndsAt(q, q, p + 1) && Scan(nums, s, p, nend, d) == Scan(nums, s, p + 1, q, d)
  {
    hide Scan, Sane;
    HeadOf(s, p, [c], rest);
    ScanPass(nums, s, p, nend, d);
  }

  lemma ScanBit<D(!new)>(nums: Numerals<D>, s: string, p: nat, q: nat, nend: int, d: Option<D>, b: Bit<D>, after: string, rest: string)
    requires Sane(nums) && At(s, p, BitText(nums, b) + (after + rest)) && BitOk(nums, b, after) && Ends(rest) && EndsAt(nend, q, p)
    requires b.Other? ==> nend == q
    ensures var p', d' := p + |BitText(nums, b)|, Knowing(d, b);
      At(s, p', after + rest) && EndsAt(q, q, p') && Scan(nums, s, p, nend, d) == Scan(nums, s, p', q, d')
  {
    hide Scan, Sane, Ends, At, EndsAt;
    match b
    case Comment(text) => ScanComment(nums, s, p, q, nend, d, text, after + rest);
    case Distance(v) => ScanNumber(nums, s, p, q, nend, d, v, after + rest);
    case Blank(c) => ScanSingle(nums, s, p, q, nend, d, c, after + rest);
    case Other(c) => ScanSingle(nums, s, p, q, nend, d, c, after + rest);
  }

  /** The last of several distances behind d. */
  function LastOr<D>(d: Option<D>, bits: seq<Bit<D>>): Option<D> {
    if LastDistance(bits).Some? then LastDistance(bits) else d
  }

  lemma {:induction false} LastOrStep<D>(d: Option<D>, bits: seq<Bit<D>>)
    requires bits != []
    ensures LastOr(d, bits) == LastOr(Knowing(d, bits[0]), bits[1..])
    decreases |bits|
  {
    if |bits| > 1 {
      assert bits[1..][..|bits| - 2] == bits[..|bits| - 1][1..];
      LastOrStep(d, bits[..|bits| - 1]);
    }
  }

  lemma BitsUnfold<D(!new)>(nums: Numerals<D>, bits: seq<Bit<D>>, rest: string)
    requires bits != [] && BitsOk(nums, bits)
    ensures BitsText(nums, bits) + rest == BitText(nums, bits[0]) + (BitsText(nums, bits[1..]) + rest)
    ensures |BitsText(nums, bits)| == |BitText(nums, bits[0])| + |BitsText(nums, bits[1..])|
    ensures BitOk(nums, bits[0], BitsText(nums, bits[1..])) && BitsOk(nums, bits[1..])
  {
    hide BitOk, BitText;
    forall i | 0 <= i < |bits[1..]| ensures BitOk(nums, bits[1..][i], BitsText(nums, bits[1..][i + 1..])) {
      assert bits[1..][i + 1..] == bits[i + 2..];
      assert BitOk(nums, bits[i + 1], BitsText(nums, bits[i + 2..]));
    }
  }

  lemma ScanEnd<D(!new)>(nums: Numerals<D>, s: string, p: nat, q: nat, nend: int, d: Option<D>, rest: string)
    requires Sane(nums) && At(s, p, rest) && Ends(rest) && EndsAt(nend, q, p)
    ensures p <= |s| && -1 <= nend <= p && Scan(nums, s, p, nend, d) == Scanned(p, q, d, false)
  {
    hide Scan, Sane;
    if rest != "" { assert s[p] == s[p..][0]; }
    ScanStops(nums, s, p, nend, d);
  }

  lemma NoBits<D>(nums: Numerals<D>, d: Option<D>, rest: string)
    ensures BitsText(nums, []) == "" && "" + rest == rest && LastOr(d, []) == d
  {
  }

  lemma Inside(s: string, p: nat, q: nat, nend: int, text: string)
    requires At(s, p, text) && EndsAt(nend, q, p)
    ensures p <= |s| && -1 <= nend <= p
  {
  }

  /** The text behind a name is taken off, and the last distance in it counts. */
  lemma {:induction false} ScanBits<D(!new)>(nums: Numerals<D>, s: string, p: nat, q: nat, nend: int, d: Option<D>, bits: seq<Bit<D>>, rest: string)
    requires Sane(nums) && At(s, p, BitsText(nums, bits) + rest) && BitsOk(nums, bits) && Ends(rest) && EndsAt(nend, q, p)
    requires bits != [] && bits[0].Other? ==> nend == q
    ensures p <= |s| && -1 <= nend <= p
    ensures Scan(nums, s, p, nend, d) == Scanned(p + |BitsText(nums, bits)|, q, LastOr(d, bits), false)
    decreases |bits|
  {
    hide *;
    Inside(s, p, q, nend, BitsText(nums, bits) + rest);
    if bits == [] {
      NoBits(nums, d, rest);
      ScanEnd(nums, s, p, q, nend, d, rest);
    } else {
      var b, more := bits[0], bits[1..];
      BitsUnfold(nums, bits, rest);
      LastOrStep(d, bits);
      ScanBit(nums, s, p, q, nend, d, b, BitsText(nums, more), rest);
      ScanBits(nums, s, p + |BitText(nums, b)|, q, q, Knowing(d, b), more, rest);
    }
  }

  lemma {:induction false} ScanName<D(!new)>(nums: Numerals<D>, s: string, p: nat, name: string, rest: string)
    requires Sane(nums) && At(s, p, name + rest) && CleanName(name)
    ensures var q := p + |name|; p <= q <= |s| && s[p..q] == name && At(s, q, rest) && Scan(nums, s, p, -1, None) == Scan(nums, s, q, -1, None)
    decreases |name|
  {
    hide Scan, Sane;
    HeadOf(s, p, name, rest);
    if name != "" {
      assert s[p + 1..] == s[p..][1..] == name[1..] + rest;
      ScanPass(nums, s, p, -1, None);
      ScanName(nums, s, p + 1, name[1..], rest);
    }
  }

  lemma NameOpen<D>(q: nat, bits: seq<Bit<D>>)
    ensures EndsAt(-1, q, q) && LastOr(None, bits) == LastDistance(bits)
  {
  }

  lemma TailParts<D>(nums: Numerals<D>, n: Noted<D>, rest: string)
    ensures Tail(nums, n) + rest == n.name + (BitsText(nums, n.bits) + rest) && |Tail(nums, n)| == |n.name| + |BitsText(nums, n.bits)|
  {
    hide BitsText;
    var text := BitsText(nums, n.bits);
    assert (n.name + text) + rest == n.name + (text + rest);
  }

  /** The text after a node, as the parser takes it off. */
  lemma ScanTail<D(!new)>(nums: Numerals<D>, s: string, p: nat, n: Noted<D>, rest: string)
    requires RoundTrips(nums) && p <= |s| && s[p..] == Tail(nums, n) + rest && Ends(rest)
    requires CleanName(n.name) && BitsOk(nums, n.bits) && (n.bits != [] ==> !n.bits[0].Other?)
    ensures Sane(nums)
    ensures var q := p + |n.name|;
      Scan(nums, s, p, -1, None) == Scanned(p + |Tail(nums, n)|, q, LastDistance(n.bits), false) && q <= |s| && s[p..q] == n.name
  {
    hide *;
    var q, after := p + |n.name|, BitsText(nums, n.bits) + rest;
    Trips(nums);
    TailParts(nums, n, rest);
    IsAt(s, p, n.name + after);
    ScanName(nums, s, p, n.name, after);
    NameOpen(q, n.bits);
    ScanBits(nums, s, q, q, -1, None, n.bits, rest);
  }

  // ----- the text of a tree

  /** The state after a tree has been read up to p: its table is added, and its root pushed. */
  function After<D>(st: State<D>, p: nat, t: Tree<D>): State<D> {
    State(p, st.nodes + Table(t, |st.nodes|), st.stack + [|st.nodes| + Size(t) - 1], st.error)
  }

  function AfterAll<D>(st: State<D>, p: nat, ts: seq<Tree<D>>): State<D> {
    State(p, st.nodes + TableAll(ts, |st.nodes|), st.stack + Roots(ts, |st.nodes|), st.error)
  }

  lemma LegibleParts<D(!new)>(nums: Numerals<D>, n: Noted<D>)
    requires Legible(nums, n)
    ensures Blanks(n.lead) && CleanName(n.name) && BitsOk(nums, n.bits) && (n.bits != [] ==> !n.bits[0].Other?)
    ensures AllLegible(nums, n.kids)
  {
    hide Blanks, CleanName, BitsOk;
  }

  lemma IsAt(s: string, p: nat, text: string)
    requires p <= |s| && s[p..] == text
    ensures At(s, p, text)
  {
  }

  /** Blanks in front of a node are skipped. */
  lemma {:induction false} SkipsBlanks(s: string, p: nat, lead: string, rest: string)
    requires p <= |s| && s[p..] == lead + rest && Blanks(lead) && rest != "" && IsGraph(rest[0])
    ensures SkipBlanks(s, p) == p + |lead| < |s| && s[p + |lead|..] == rest
    decreases |lead|
  {
    HeadOf(s, p, lead, rest);
    if lead != "" {
      assert s[p + 1..] == s[p..][1..] == lead[1..] + rest;
      SkipsBlanks(s, p + 1, lead[1..], rest);
    }
  }

  lemma RunBlanks<D(!new)>(nums: Numerals<D>, s: string, st: State<D>, lead: string, rest: string)
    requires Sane(nums) && st.p <= |s| && s[st.p..] == lead + rest && Blanks(lead) && rest != "" && IsGraph(rest[0])
    requires Known(st.nodes, st.stack)
    ensures var b := st.(p := st.p + |lead|); b.p <= |s| && s[b.p..] == rest && Reaches(nums, s, st, b)
  {
    hide *;
    var b := st.(p := st.p + |lead|);
    SkipsBlanks(s, st.p, lead, rest);
    NoBlanks(rest);
    SkipsBlanks(s, b.p, "", rest);
    SameRun(nums, s, st, b);
  }

  lemma NoBlanks(rest: string)
    ensures Blanks("") && "" + rest == rest
  {
  }

  /** What comes next is the same from both. */
  lemma SameRun<D(!new)>(nums: Numerals<D>, s: string, st: State<D>, b: State<D>)
    requires Sane(nums) && st.p <= |s| && b == st.(p := b.p) && b.p <= |s| && SkipBlanks(s, st.p) == SkipBlanks(s, b.p)
    requires Known(st.nodes, st.stack)
    ensures Reaches(nums, s, st, b)
  {
    hide Step, Run, Sane, Known, SkipBlanks;
    RunStep(nums, s, st);
    RunStep(nums, s, b);
  }

  /** What a node prints begins with a character that is not blank; a leaf does not begin like an inner node. */
  lemma BodyBegins<D(!new)>(nums: Numerals<D>, n: Noted<D>)
    requires Legible(nums, n)
    ensures var text := Body(nums, n);
      && text != "" && IsGraph(text[0])
      && (n.kids == [] ==> text == Tail(nums, n) && text[0] != ',' && text[0] != ')' && text[0] != '(')
  {
    hide AllLegible, BitText, ShowAllNoted;
    var tail := Tail(nums, n);
    if n.kids == [] {
      assert Body(nums, n) == tail by { assert "" + tail == tail; }
      if n.name == "" {
        assert BitOk(nums, n.bits[0], BitsText(nums, n.bits[1..]));
        BitBegins(nums, n.bits[0], BitsText(nums, n.bits[1..]));
      }
    }
  }

  lemma BitBegins<D(!new)>(nums: Numerals<D>, b: Bit<D>, after: string)
    requires !b.Blank? && !b.Other?
    ensures var c := (BitText(nums, b) + after)[0]; c == '[' || c == ':'
  {
  }

  /** A leaf. */
  lemma RunLeaf<D(!new)>(nums: Numerals<D>, s: string, st: State<D>, n: Noted<D>, rest: string)
    requires RoundTrips(nums) && st.p <= |s| && s[st.p..] == Body(nums, n) + rest && Ends(rest) && Legible(nums, n) && n.kids == []
    requires Known(st.nodes, st.stack)
    ensures Reaches(nums, s, st, After(st, st.p + |Body(nums, n)|, Bare(n)))
  {
    hide *;
    BodyBegins(nums, n);
    LegibleParts(nums, n);
    ScanTail(nums, s, st.p, n, rest);
    HeadOf(s, st.p, Body(nums, n), rest);
    var p, next := st.p + |Body(nums, n)|, After(st, st.p + |Body(nums, n)|, Bare(n));
    AfterLeaf(st, p, n, next);
    var r := Scan(nums, s, st.p, -1, None);
    StepLeaf(nums, s, st, r, n.name, next);
    RunTo(nums, s, st, next);
  }

  lemma AfterLeaf<D>(st: State<D>, p: nat, n: Noted<D>, a: State<D>)
    requires n.kids == [] && a == After(st, p, Bare(n))
    ensures a.p == p && a.nodes == st.nodes + [Node(-1, [], n.name, LastDistance(n.bits))]
    ensures a.stack == st.stack + [|st.nodes|] && a.error == st.error
  {
    LeafTable(st.nodes, Bare(n));
    hide Table;
  }

  /** The closing parenthesis of an inner node, with its kids on top of the stack. */
  lemma StepOverClose<D(!new)>(nums: Numerals<D>, s: string, st: State<D>, n: Noted<D>, rest: string, below: seq<int>,
      kids: seq<int>, node: Node<D>, next: State<D>)
    requires RoundTrips(nums) && st.p < |s| && s[st.p] == ')' && Ends(rest) && Legible(nums, n)
    requires s[st.p + 1..] == Tail(nums, n) + rest && Known(st.nodes, st.stack)
    requires st.stack == below + [-1] + kids && forall j :: 0 <= j < |kids| ==> 0 <= kids[j] < |st.nodes|
    requires node == Node(-1, kids, n.name, LastDistance(n.bits)) && next.nodes == SetParents(st.nodes + [node], 0, kids, |st.nodes|)
    requires next.p == st.p + 1 + |Tail(nums, n)| && next.stack == below + [|st.nodes|] && next.error == st.error
    ensures Sane(nums) && Step(nums, s, st) == Some(next)
  {
    hide *;
    LegibleParts(nums, n);
    ScanTail(nums, s, st.p + 1, n, rest);
    var r := Scan(nums, s, st.p + 1, -1, None);
    StepClose(nums, s, st, r, n.name, below, kids, node, next);
  }

  /** The states before and after the closing parenthesis of n. */
  lemma AfterInner<D>(st: State<D>, m: nat, p: nat, n: Noted<D>, mid: State<D>, next: State<D>, kids: seq<int>, node: Node<D>)
    requires mid == AfterAll(Opened(st), m, BareAll(n.kids)) && next == After(st, p, Bare(n))
    requires kids == Roots(BareAll(n.kids), |st.nodes|) && node == Node(-1, kids, n.name, LastDistance(n.bits))
    ensures mid.p == m && mid.stack == st.stack + [-1] + kids && mid.error == next.error == st.error
    ensures forall j :: 0 <= j < |kids| ==> 0 <= kids[j] < |mid.nodes|
    ensures next.nodes == SetParents(mid.nodes + [node], 0, kids, |mid.nodes|)
    ensures next.p == p && next.stack == st.stack + [|mid.nodes|]
  {
    hide SetParents, Table, TableAll, Roots, BareAll, LastDistance;
    CloseTable(st.nodes, Bare(n), TableAll(BareAll(n.kids), |st.nodes|), kids, node, |mid.nodes|);
  }

  /** The text of a tree, or of several trees with commas between them, leaves its table and its roots. */
  lemma {:induction false} RunTree<D(!new)>(nums: Numerals<D>, s: string, st: State<D>, n: Noted<D>, rest: string)
    requires RoundTrips(nums) && st.p <= |s| && s[st.p..] == ShowNoted(nums, n) + rest && Ends(rest) && Legible(nums, n)
    requires Known(st.nodes, st.stack)
    ensures Reaches(nums, s, st, After(st, st.p + |ShowNoted(nums, n)|, Bare(n)))
    decreases n, 1
  {
    hide *;
    LeadShows(nums, n, rest);
    LegibleParts(nums, n);
    BodyBegins(nums, n);
    Trips(nums);
    var b := st.(p := st.p + |n.lead|);
    RunBlanks(nums, s, st, n.lead, Body(nums, n) + rest);
    RunBody(nums, s, b, n, rest);
    AfterMoves(st, b, b.p + |Body(nums, n)|, Bare(n));
    ReachesOn(nums, s, st, b, After(st, st.p + |ShowNoted(nums, n)|, Bare(n)));
  }

  lemma LeadShows<D>(nums: Numerals<D>, n: Noted<D>, rest: string)
    ensures ShowNoted(nums, n) + rest == n.lead + (Body(nums, n) + rest) && |ShowNoted(nums, n)| == |n.lead| + |Body(nums, n)|
  {
    hide Body;
  }

  lemma AfterMoves<D>(st: State<D>, b: State<D>, p: nat, t: Tree<D>)
    requires b == st.(p := b.p)
    ensures After(b, p, t) == After(st, p, t)
  {
  }

  lemma {:induction false} RunBody<D(!new)>(nums: Numerals<D>, s: string, st: State<D>, n: Noted<D>, rest: string)
    requires RoundTrips(nums) && st.p <= |s| && s[st.p..] == Body(nums, n) + rest && Ends(rest) && Legible(nums, n)
    requires Known(st.nodes, st.stack)
    ensures Reaches(nums, s, st, After(st, st.p + |Body(nums, n)|, Bare(n)))
    decreases n, 0
  {
    hide *;
    if n.kids == [] {
      RunLeaf(nums, s, st, n, rest);
    } else {
      InnerAtNoted(nums, s, st.p, n, rest);
      RunOpen(nums, s, st);
      LegibleParts(nums, n);
      RunAll(nums, s, Opened(st), n.kids, ")" + (Tail(nums, n) + rest));
      RunClose(nums, s, st, n, rest);
    }
  }

  lemma RunClose<D(!new)>(nums: Numerals<D>, s: string, st: State<D>, n: Noted<D>, rest: string)
    requires RoundTrips(nums) && st.p <= |s| && s[st.p..] == Body(nums, n) + rest && Ends(rest) && Legible(nums, n) && n.kids != []
    requires Reaches(nums, s, st, Opened(st))
    requires Reaches(nums, s, Opened(st), AfterAll(Opened(st), st.p + 1 + |ShowAllNoted(nums, n.kids)|, BareAll(n.kids)))
    ensures Reaches(nums, s, st, After(st, st.p + |Body(nums, n)|, Bare(n)))
  {
    hide *;
    InnerAtNoted(nums, s, st.p, n, rest);
    var m, p, kids := st.p + 1 + |ShowAllNoted(nums, n.kids)|, st.p + |Body(nums, n)|, Roots(BareAll(n.kids), |st.nodes|);
    var mid, next := AfterAll(Opened(st), m, BareAll(n.kids)), After(st, p, Bare(n));
    var node := Node(-1, kids, n.name, LastDistance(n.bits));
    AfterInner(st, m, p, n, mid, next, kids, node);
    ReachesKnown(nums, s, Opened(st), mid);
    StepOverClose(nums, s, mid, n, rest, st.stack, kids, node, next);
    Parenthesis(s[mid.p]);
    RunTo(nums, s, mid, next);
    ReachesOn(nums, s, st, Opened(st), mid);
    ReachesOn(nums, s, st, mid, next);
  }

  /** Where the parts of the text of an inner node are. */
  lemma InnerAtNoted<D>(nums: Numerals<D>, s: string, p: nat, n: Noted<D>, rest: string)
    requires p <= |s| && s[p..] == Body(nums, n) + rest && n.kids != []
    ensures var all, tail := ShowAllNoted(nums, n.kids), Tail(nums, n); var after, q := ")" + (tail + rest), p + 1 + |all|;
      && q < |s| && s[p] == '(' && s[p + 1..] == all + after && Ends(after) && s[q] == ')' && s[q + 1..] == tail + rest
      && p + |Body(nums, n)| == q + 1 + |tail| <= |s|
  {
    hide *;
    var all, tail := ShowAllNoted(nums, n.kids), Tail(nums, n);
    var after := ")" + (tail + rest);
    BodyShows(nums, n, rest);
    HeadOf(s, p, "(", all + after);
    HeadOf(s, p + 1, all, after);
    HeadOf(s, p + 1 + |all|, ")", tail + rest);
    HeadOf(s, p, Body(nums, n), rest);
  }

  lemma BodyShows<D>(nums: Numerals<D>, n: Noted<D>, rest: string)
    requires n.kids != []
    ensures var all, tail := ShowAllNoted(nums, n.kids), Tail(nums, n); var after := ")" + (tail + rest);
      && Body(nums, n) + rest == "(" + (all + after) && |Body(nums, n)| == 2 + |all| + |tail|
      && Ends(after) && after[0] == ')'
  {
    hide ShowAllNoted, Tail;
    var all, tail := ShowAllNoted(nums, n.kids), Tail(nums, n);
    assert Body(nums, n) == "(" + all + ")" + tail;
    assert Body(nums, n) + rest == "(" + (all + (")" + (tail + rest)));
  }

  lemma {:induction false} RunAll<D(!new)>(nums: Numerals<D>, s: string, st: State<D>, ns: seq<Noted<D>>, rest: string)
    requires RoundTrips(nums) && st.p <= |s| && s[st.p..] == ShowAllNoted(nums, ns) + rest && Ends(rest) && AllLegible(nums, ns) && ns != []
    requires Known(st.nodes, st.stack)
    ensures Reaches(nums, s, st, AfterAll(st, st.p + |ShowAllNoted(nums, ns)|, BareAll(ns)))
    decreases ns, 2
  {
    hide *;
    NotedListShows(nums, ns, rest);
    AllLegibleParts(nums, ns);
    var end := st.p + |ShowAllNoted(nums, ns)|;
    if |ns| == 1 {
      AfterOne(st, end, ns);
      RunTree(nums, s, st, ns[0], rest);
    } else {
      var more := ShowAllNoted(nums, ns[1..]) + rest;
      var p := st.p + |ShowNoted(nums, ns[0])|;
      var a := After(st, p, Bare(ns[0]));
      var b := a.(p := p + 1);
      AfterList(st, p, end, ns, a, b);
      RunTree(nums, s, st, ns[0], "," + more);
      ReachesKnown(nums, s, st, a);
      HeadOf(s, st.p, ShowNoted(nums, ns[0]), "," + more);
      HeadOf(s, a.p, ",", more);
      RunComma(nums, s, a, b);
      RunAll(nums, s, b, ns[1..], rest);
      ReachesOn(nums, s, st, a, b);
      ReachesOn(nums, s, st, b, AfterAll(st, end, BareAll(ns)));
    }
  }

  lemma AllLegibleParts<D(!new)>(nums: Numerals<D>, ns: seq<Noted<D>>)
    requires AllLegible(nums, ns) && ns != []
    ensures Legible(nums, ns[0]) && AllLegible(nums, ns[1..])
  {
    hide Legible;
  }

  lemma BareAllParts<D>(ns: seq<Noted<D>>)
    requires ns != []
    ensures var ts := BareAll(ns); |ts| == |ns| && ts[0] == Bare(ns[0]) && ts[1..] == BareAll(ns[1..])
  {
    hide Bare;
  }

  lemma AfterOne<D>(st: State<D>, p: nat, ns: seq<Noted<D>>)
    requires |ns| == 1
    ensures AfterAll(st, p, BareAll(ns)) == After(st, p, Bare(ns[0]))
  {
    hide Table, Size, TableAll, Roots, SizeAll, Bare, BareAll;
    BareAllParts(ns);
    OneRoot(BareAll(ns), |st.nodes|);
  }

  lemma AfterList<D>(st: State<D>, p: nat, end: nat, ns: seq<Noted<D>>, a: State<D>, b: State<D>)
    requires |ns| > 1 && a == After(st, p, Bare(ns[0])) && b == a.(p := b.p)
    ensures AfterAll(b, end, BareAll(ns[1..])) == AfterAll(st, end, BareAll(ns)) && a.p == p
  {
    hide *;
    BareAllParts(ns);
    AfterParts(st, p, Bare(ns[0]), a);
    AfterTrees(st, end, BareAll(ns), b);
  }

  lemma AfterParts<D>(st: State<D>, p: nat, t: Tree<D>, a: State<D>)
    requires a == After(st, p, t)
    ensures a.p == p && a.error == st.error
    ensures a.nodes == st.nodes + Table(t, |st.nodes|) && a.stack == st.stack + [|st.nodes| + Size(t) - 1]
  {
    hide Table, Size;
  }

  lemma AfterTrees<D>(st: State<D>, end: nat, ts: seq<Tree<D>>, b: State<D>)
    requires ts != [] && b.nodes == st.nodes + Table(ts[0], |st.nodes|) && b.stack == st.stack + [|st.nodes| + Size(ts[0]) - 1]
    requires b.error == st.error
    ensures AfterAll(b, end, ts[1..]) == AfterAll(st, end, ts)
  {
    hide Table, TableAll, Roots, Size, SizeAll;
    ListTable(st.nodes, st.stack, ts, |st.nodes|, |st.nodes| + Size(ts[0]));
  }

  lemma NotedListShows<D>(nums: Numerals<D>, ns: seq<Noted<D>>, rest: string)
    requires ns != []
    ensures |ns| == 1 ==> ShowAllNoted(nums, ns) == ShowNoted(nums, ns[0])
    ensures |ns| > 1 ==> var more := ShowAllNoted(nums, ns[1..]) + rest;
      && ShowAllNoted(nums, ns) + rest == ShowNoted(nums, ns[0]) + ("," + more) && Ends("," + more) && ("," + more)[0] == ','
      && |ShowAllNoted(nums, ns)| == |ShowNoted(nums, ns[0])| + 1 + |ShowAllNoted(nums, ns[1..])|
  {
    hide ShowNoted;
    var one, many := ShowNoted(nums, ns[0]), ShowAllNoted(nums, ns[1..]);
    if |ns| > 1 {
      assert ShowAllNoted(nums, ns) == one + ("," + many);
      assert one + ("," + many) + rest == one + ("," + (many + rest));
    }
  }

  /** The text of a tree, with comments, blanks and leftovers, parses without an error to the table of the bare tree. */
  lemma ParsesWithComments<D(!new)>(nums: Numerals<D>, n: Noted<D>)
    requires RoundTrips(nums) && Legible(nums, n)
    ensures Sane(nums) && Parse(nums, ShowNoted(nums, n)) == Some(Parsed(Table(Bare(n), 0), false))
  {
    hide Table, ShowNoted, Legible, Run, RoundTrips, Bare, Size;
    var s, none: seq<Node<D>> := ShowNoted(nums, n), [];
    assert s + "" == s && s[0..] == s;
    var start := State(0, none, [], false);
    RunTree(nums, s, start, n, "");
    assert none + Table(Bare(n), 0) == Table(Bare(n), 0);
    Trips(nums);
    RunEnds(nums, s, After(start, |s|, Bare(n)));
  }

  /** Number formats that end at a comma, a closing parenthesis, an open bracket, a colon, a blank or the end. */
  ghost predicate StopsWell<D(!new)>(nums: Numerals<D>) {
    forall d, rest :: Ends(rest) || rest[0] == '[' || rest[0] == ':' || !IsGraph(rest[0])
      ==> nums.read(nums.show(d) + rest) == (d, |nums.show(d)|)
  }

  /** With such a format the bits are what they say if no other character stands directly behind a distance. */
  lemma StopsWellBits<D(!new)>(nums: Numerals<D>, bits: seq<Bit<D>>)
    requires StopsWell(nums)
    requires forall i :: 0 <= i < |bits| ==>
      match bits[i]
      case Distance(_) => i + 1 == |bits| || !bits[i + 1].Other?
      case _ => BitOk(nums, bits[i], "")
    ensures BitsOk(nums, bits)
  {
    hide StopsWell;
    forall i | 0 <= i < |bits| ensures BitOk(nums, bits[i], BitsText(nums, bits[i + 1..])) {
      var more := bits[i + 1..];
      if bits[i].Distance? {
        assert more != [] ==> more[0] == bits[i + 1];
        assert more != [] && !more[0].Distance? ==> BitOk(nums, more[0], "");
        StopsWellBit(nums, bits[i].d, more);
      }
    }
  }

  lemma StopsWellBit<D(!new)>(nums: Numerals<D>, d: D, more: seq<Bit<D>>)
    requires StopsWell(nums) && (more != [] ==> !more[0].Other? && (more[0].Distance? || BitOk(nums, more[0], "")))
    ensures BitOk(nums, Distance(d), BitsText(nums, more))
  {
    var after := BitsText(nums, more);
    forall rest | Ends(rest) ensures nums.read(nums.show(d) + (after + rest)) == (d, |nums.show(d)|) {
      if more == [] {
        assert after + rest == rest;
      } else {
        hide BitsText, BitText;
        FirstBit(nums, more, rest);
      }
    }
  }

  lemma FirstBit<D(!new)>(nums: Numerals<D>, more: seq<Bit<D>>, rest: string)
    requires more != [] && !more[0].Other? && (more[0].Distance? || BitOk(nums, more[0], ""))
    ensures var text := BitsText(nums, more) + rest; text != "" && (text[0] == '[' || text[0] == ':' || !IsGraph(text[0]))
  {
    assert BitsText(nums, more) == BitText(nums, more[0]) + BitsText(nums, more[1..]);
  }

  // ----- brackets left open

  /** Some bracket from p on is never closed. */
  ghost predicate LeftOpen(s: string, p: nat) {
    exists i :: p <= i < |s| && s[i] == '[' && NoneCloses(s, i)
  }

  ghost predicate NoneCloses(s: string, i: nat) {
    forall j :: i <= j < |s| ==> s[j] != ']'
  }

  /** Reading a number takes no open bracket. */
  ghost predicate LeavesBrackets<D(!new)>(nums: Numerals<D>) {
    Sane(nums) && forall u :: '[' !in u[..nums.read(u).1]
  }

  lemma NoBracketBetween(s: string, p: nat, q: nat)
    requires p <= q <= |s| && '[' !in s[p..q]
    ensures LeftOpen(s, p) <==> LeftOpen(s, q)
  {
    hide NoneCloses;
    if LeftOpen(s, p) {
      var i :| p <= i < |s| && s[i] == '[' && NoneCloses(s, i);
      assert q <= i;
    }
  }

  lemma {:induction false} ClosingIsFirst(s: string, p: nat)
    requires p <= |s|
    ensures forall j :: p <= j < Closing(s, p) ==> s[j] != ']'
    decreases |s| - p
  {
    if p < |s| && s[p] != ']' { ClosingIsFirst(s, p + 1); }
  }

  lemma CommentBetween(s: string, p: nat)
    requires p < |s| && s[p] == '['
    ensures var q := Closing(s, p + 1); LeftOpen(s, p) <==> q == |s| || LeftOpen(s, q + 1)
  {
    var q := Closing(s, p + 1);
    ClosingIsFirst(s, p + 1);
    hide Closing;
    if q == |s| {
      assert NoneCloses(s, p);
    } else if LeftOpen(s, p) {
      var i :| p <= i < |s| && s[i] == '[' && NoneCloses(s, i);
      assert q < i;
    }
  }

  lemma {:induction false} ScanLeaves<D(!new)>(nums: Numerals<D>, s: string, p: nat, nend: int, d: Option<D>)
    requires LeavesBrackets(nums) && p <= |s| && -1 <= nend <= p
    ensures var r := Scan(nums, s, p, nend, d); (LeftOpen(s, p) <==> r.error || LeftOpen(s, r.p)) && (r.error ==> r.p == |s|)
    decreases |s| - p
  {
    hide LeftOpen, Scan, Closing;
    if p == |s| || s[p] == ',' || s[p] == ')' {
      ScanStops(nums, s, p, nend, d);
    } else {
      ScanPass(nums, s, p, nend, d);
      if s[p] == '[' {
        CommentBetween(s, p);
      } else if s[p] == ':' {
        NumberBetween(nums, s, p);
      } else {
        NoBracketBetween(s, p, p + 1);
      }
      var n := Pass(nums, s, p, nend, d);
      if n.Some? { ScanLeaves(nums, s, n.value.0, n.value.1, n.value.2); }
    }
  }

  lemma NumberBetween<D(!new)>(nums: Numerals<D>, s: string, p: nat)
    requires LeavesBrackets(nums) && p < |s| && s[p] == ':'
    ensures var q := p + 1 + nums.read(s[p + 1..]).1; q <= |s| && (LeftOpen(s, p) <==> LeftOpen(s, q))
  {
    hide LeftOpen;
    var u := s[p + 1..];
    var k := nums.read(u).1;
    assert '[' !in u[..k];
    assert s[p + 1..p + 1 + k] == u[..k];
    NoBracketBetween(s, p + 1, p + 1 + k);
    NoBracketBetween(s, p, p + 1);
  }

  lemma StepLeaves<D(!new)>(nums: Numerals<D>, s: string, st: State<D>, next: State<D>)
    requires LeavesBrackets(nums) && st.p < |s| && IsGraph(s[st.p]) && Known(st.nodes, st.stack) && Step(nums, s, st) == Some(next)
    ensures next.p <= |s| && (st.error || LeftOpen(s, st.p) <==> next.error || LeftOpen(s, next.p))
  {
    hide LeftOpen, Scan, SetParents, LastOpen;
    if s[st.p] == ')' {
      NoBracketBetween(s, st.p, st.p + 1);
      ScanLeaves(nums, s, st.p + 1, -1, None);
    } else if s[st.p] == ',' || s[st.p] == '(' {
      NoBracketBetween(s, st.p, st.p + 1);
    } else {
      ScanLeaves(nums, s, st.p, -1, None);
    }
  }

  lemma {:induction false} SkipLeaves(s: string, p: nat)
    requires p <= |s|
    ensures LeftOpen(s, p) <==> LeftOpen(s, SkipBlanks(s, p))
    decreases |s| - p
  {
    hide LeftOpen;
    if p < |s| && !IsGraph(s[p]) {
      NoBracketBetween(s, p, p + 1);
      SkipLeaves(s, p + 1);
    }
  }

  lemma {:induction false} RunLeaves<D(!new)>(nums: Numerals<D>, s: string, st: State<D>, end: State<D>)
    requires LeavesBrackets(nums) && st.p <= |s| && Known(st.nodes, st.stack) && Run(nums, s, st) == Some(end)
    ensures end.error <==> st.error || LeftOpen(s, st.p)
    decreases |s| - st.p
  {
    hide LeftOpen, Run, Step;
    SkipLeaves(s, st.p);
    RunStep(nums, s, st);
    var p := SkipBlanks(s, st.p);
    if p == |s| {
      NoneBehind(s);
    } else {
      var next := Step(nums, s, st.(p := p)).value;
      StepLeaves(nums, s, st.(p := p), next);
      RunLeaves(nums, s, next, end);
    }
  }

  lemma NoneBehind(s: string)
    ensures !LeftOpen(s, |s|)
  {
  }

  /** On every text, the error flag says whether some bracket has no closing bracket behind it. */
  lemma ErrorExactly<D(!new)>(nums: Numerals<D>, s: string)
    requires LeavesBrackets(nums)
    ensures Sane(nums)
    ensures var r := Parse(nums, s); r.Some? ==> (r.value.error <==> exists i :: 0 <= i < |s| && s[i] == '[' && ']' !in s[i..])
  {
    var r := Run(nums, s, State(0, [], [], false));
    hide Run;
    if r.Some? {
      RunLeaves(nums, s, State(0, [], [], false), r.value);
      OpenIs(s);
    }
  }

  lemma OpenIs(s: string)
    ensures LeftOpen(s, 0) <==> exists i :: 0 <= i < |s| && s[i] == '[' && ']' !in s[i..]
  {
    if LeftOpen(s, 0) {
      var i :| 0 <= i < |s| && s[i] == '[' && NoneCloses(s, i);
      assert ']' !in s[i..];
    }
    if i :| 0 <= i < |s| && s[i] == '[' && ']' !in s[i..] {
      forall j | i <= j < |s| ensures s[j] != ']' { assert s[j] == s[i..][j - i]; }
      assert NoneCloses(s, i);
    }
  }
}
