/** Where the blocks of the allocator lie. Addresses and sizes are in units of one block header. */
module KallocLayout {

  datatype Block = Block(addr: int, size: nat)

  function End(b: Block): int {
    b.addr + b.size
  }

  function Total(s: seq<Block>): nat {
    if s == [] then 0 else s[0].size + Total(s[1..])
  }

  predicate Disjoint(a: Block, b: Block) {
    End(a) <= b.addr || End(b) <= a.addr
  }

  ghost predicate AllDisjoint(s: seq<Block>) {
    forall i, j :: 0 <= i < j < |s| ==> Disjoint(s[i], s[j])
  }

  /** In address order, and no two blocks touch. */
  ghost predicate Apart(s: seq<Block>) {
    forall i, j :: 0 <= i < j < |s| ==> End(s[i]) < s[j].addr
  }

  /** b lies in the part of some core after its header. */
  ghost predicate Inside(b: Block, cores: seq<Block>) {
    exists j :: 0 <= j < |cores| && cores[j].addr < b.addr && End(b) <= End(cores[j])
  }

  ghost predicate Covered(s: seq<Block>, x: int) {
    exists i :: 0 <= i < |s| && s[i].addr <= x < End(s[i])
  }

  /** x is a unit of some core other than its header. */
  ghost predicate InBody(cores: seq<Block>, x: int) {
    exists j :: 0 <= j < |cores| && cores[j].addr < x < End(cores[j])
  }

  // ----- the four parts of the layout

  /** Cores do not overlap, and the zero-sized base block touches none. */
  ghost predicate CoresApart(base: int, cores: seq<Block>) {
    && AllDisjoint(cores)
    && forall j :: 0 <= j < |cores| ==> 0 < cores[j].addr && 0 < cores[j].size && !(cores[j].addr <= base <= End(cores[j]))
  }

  /** The free blocks, the base among them. */
  ghost predicate FreeList(base: int, free: seq<Block>, cores: seq<Block>) {
    && Apart(free) && Block(base, 0) in free
    && forall i :: 0 <= i < |free| ==> free[i] == Block(base, 0) || (0 < free[i].size && Inside(free[i], cores))
  }

  ghost predicate UsedBlocks(used: seq<Block>, cores: seq<Block>) {
    && AllDisjoint(used)
    && forall i :: 0 <= i < |used| ==> 0 < used[i].size && Inside(used[i], cores)
  }

  ghost predicate FreeNotUsed(free: seq<Block>, used: seq<Block>) {
    forall i, j :: 0 <= i < |free| && 0 <= j < |used| ==> Disjoint(free[i], used[j])
  }

  /** Every unit of a core but its header is in a free or an allocated block. */
  ghost predicate Filled(free: seq<Block>, used: seq<Block>, cores: seq<Block>) {
    forall x :: InBody(cores, x) ==> Covered(free, x) || Covered(used, x)
  }

  ghost predicate Layout(base: int, free: seq<Block>, used: seq<Block>, cores: seq<Block>) {
    && 0 < base
    && CoresApart(base, cores) && FreeList(base, free, cores) && UsedBlocks(used, cores)
    && FreeNotUsed(free, used) && Filled(free, used, cores)
    && Total(free) + Total(used) + |cores| == Total(cores)
  }

  // ----- totals

  lemma {:induction false} TotalAppend(a: seq<Block>, b: seq<Block>)
    ensures Total(a + b) == Total(a) + Total(b)
  {
    if a == [] {
      assert a + b == b;
    } else {
      TotalAppend(a[1..], b);
      assert (a + b)[1..] == a[1..] + b;
    }
  }

  /** The number of blocks that are not zero-sized. */
  function NonEmpty(s: seq<Block>): nat {
    if s == [] then 0 else Counts(s[0].size) + NonEmpty(s[1..])
  }

  function Counts(size: nat): nat {
    if size != 0 then 1 else 0
  }

  lemma CountsIs(size: nat)
    ensures Counts(size) == if size == 0 then 0 else 1
  {
  }

  lemma {:induction false} NonEmptyAppend(a: seq<Block>, b: seq<Block>)
    ensures NonEmpty(a + b) == NonEmpty(a) + NonEmpty(b)
  {
    if a == [] {
      assert a + b == b;
    } else {
      NonEmptyAppend(a[1..], b);
      assert (a + b)[1..] == a[1..] + b;
    }
  }

  /** The size of the largest block. */
  function Largest(s: seq<Block>): nat {
    if s == [] then 0 else if Largest(s[1..]) < s[0].size then s[0].size else Largest(s[1..])
  }

  lemma {:induction false} LargestIs(s: seq<Block>)
    ensures forall i :: 0 <= i < |s| ==> s[i].size <= Largest(s)
    ensures s != [] ==> exists i :: 0 <= i < |s| && s[i].size == Largest(s)
    decreases |s|
  {
    if s != [] {
      LargestIs(s[1..]);
      assert forall i :: 0 < i < |s| ==> s[i] == s[1..][i - 1];
      if Largest(s[1..]) < s[0].size {
        assert s[0].size == Largest(s);
      } else if |s| > 1 {
        var i :| 0 <= i < |s[1..]| && s[1..][i].size == Largest(s[1..]);
        assert s[i + 1].size == Largest(s);
      }
    }
  }

  lemma {:induction false} NonEmptyAll(s: seq<Block>)
    requires forall i :: 0 <= i < |s| ==> 0 < s[i].size
    ensures NonEmpty(s) == |s|
    decreases |s|
  {
    if s != [] {
      assert forall i :: 0 <= i < |s[1..]| ==> s[1..][i] == s[i + 1];
      NonEmptyAll(s[1..]);
    }
  }

  lemma NonEmptyButOne(free: seq<Block>, i: nat)
    requires i < |free| && free[i].size == 0 && forall j :: 0 <= j < |free| && j != i ==> 0 < free[j].size
    ensures NonEmpty(free) == |free| - 1
  {
    hide NonEmpty;
    var a, b := free[..i], free[i + 1..];
    assert free == a + ([free[i]] + b);
    NonEmptyAppend(a, [free[i]] + b);
    NonEmptyAppend([free[i]], b);
    NonEmptyOne(free[i]);
    NonEmptyAll(a);
    NonEmptyAll(b);
  }

  lemma OneBase(base: int, free: seq<Block>, cores: seq<Block>, i: nat, j: nat)
    requires FreeList(base, free, cores) && i < |free| && j < |free| && free[i] == Block(base, 0) && j != i
    ensures 0 < free[j].size
  {
    hide Inside;
    if j < i { assert End(free[j]) < free[i].addr; } else { assert End(free[i]) < free[j].addr; }
  }

  /** All free blocks but the base have units. */
  lemma NonEmptyIs(base: int, free: seq<Block>, cores: seq<Block>)
    requires FreeList(base, free, cores)
    ensures NonEmpty(free) == |free| - 1
  {
    var i :| 0 <= i < |free| && free[i] == Block(base, 0);
    forall j | 0 <= j < |free| && j != i
      ensures 0 < free[j].size
    {
      OneBase(base, free, cores, i, j);
    }
    NonEmptyButOne(free, i);
  }

  lemma NonEmptyOne(b: Block)
    ensures NonEmpty([b]) == if b.size == 0 then 0 else 1
  {
    assert [b][1..] == [];
  }

  lemma TotalSplit(s: seq<Block>, i: nat)
    requires i < |s|
    ensures Total(s) == Total(s[..i]) + s[i].size + Total(s[i + 1..])
  {
    assert s == s[..i] + ([s[i]] + s[i + 1..]);
    TotalAppend(s[..i], [s[i]] + s[i + 1..]);
    TotalAppend([s[i]], s[i + 1..]);
    assert Total([s[i]]) == s[i].size;
  }

  lemma TotalJoin(a: seq<Block>, b: Block, c: seq<Block>)
    ensures Total(a + [b] + c) == Total(a) + b.size + Total(c)
  {
    TotalAppend(a + [b], c);
    TotalAppend(a, [b]);
    assert Total([b]) == b.size;
  }

  // ----- releasing a block

  /** How many blocks of the list lie before address a. */
  function PlaceFor(free: seq<Block>, a: int): (k: nat)
    ensures k <= |free|
  {
    if free == [] || a <= free[0].addr then 0 else 1 + PlaceFor(free[1..], a)
  }

  lemma {:induction false} PlaceSplits(free: seq<Block>, a: int)
    requires Apart(free)
    ensures var k := PlaceFor(free, a);
      && (forall i :: 0 <= i < k ==> free[i].addr < a)
      && (forall i :: k <= i < |free| ==> a <= free[i].addr)
  {
    if free != [] && a > free[0].addr {
      PlaceSplits(free[1..], a);
      forall i | 0 <= i < |free|
        ensures i < PlaceFor(free, a) ==> free[i].addr < a
        ensures PlaceFor(free, a) <= i ==> a <= free[i].addr
      {
        if i > 0 { assert free[i] == free[1..][i - 1]; }
      }
    }
  }

  predicate TouchesNext(free: seq<Block>, b: Block) {
    var k := PlaceFor(free, b.addr);
    k < |free| && End(b) == free[k].addr
  }

  predicate TouchesPrevious(free: seq<Block>, b: Block) {
    var k := PlaceFor(free, b.addr);
    k > 0 && End(free[k - 1]) == b.addr
  }

  /** The block b with what it touches after it. */
  function WithNext(free: seq<Block>, b: Block): Block {
    if TouchesNext(free, b) then Block(b.addr, b.size + free[PlaceFor(free, b.addr)].size) else b
  }

  /** The free blocks once b is free, merged with the neighbours it touches. */
  function Released(free: seq<Block>, b: Block): seq<Block> {
    var k := PlaceFor(free, b.addr);
    var m := WithNext(free, b);
    var after := if TouchesNext(free, b) then free[k + 1..] else free[k..];
    if TouchesPrevious(free, b) then free[..k - 1] + [Block(free[k - 1].addr, free[k - 1].size + m.size)] + after
    else free[..k] + [m] + after
  }

  /** b may be released: it overlaps no free block. */
  ghost predicate Releasable(free: seq<Block>, b: Block) {
    Apart(free) && 0 < b.size && forall i :: 0 <= i < |free| ==> Disjoint(free[i], b) && free[i].addr != b.addr
  }

  lemma TotalPrefix(s: seq<Block>, k: nat)
    requires 0 < k <= |s|
    ensures Total(s[..k]) == Total(s[..k - 1]) + s[k - 1].size
  {
    assert s[..k] == s[..k - 1] + [s[k - 1]] + [];
    TotalJoin(s[..k - 1], s[k - 1], []);
  }

  lemma ReleasedTotal(free: seq<Block>, b: Block)
    ensures Total(Released(free, b)) == Total(free) + b.size
  {
    var k := PlaceFor(free, b.addr);
    var m := WithNext(free, b);
    var after := if TouchesNext(free, b) then free[k + 1..] else free[k..];
    assert free == free[..k] + free[k..];
    TotalAppend(free[..k], free[k..]);
    assert Total(free[k..]) + b.size == m.size + Total(after) by {
      if TouchesNext(free, b) { assert free[k..][1..] == free[k + 1..]; }
    }
    if TouchesPrevious(free, b) {
      TotalPrefix(free, k);
      TotalJoin(free[..k - 1], Block(free[k - 1].addr, free[k - 1].size + m.size), after);
    } else {
      TotalJoin(free[..k], m, after);
    }
  }

  /** Where the released block ends up, and the place of the first block after it in the old list. */
  function At(free: seq<Block>, b: Block): int {
    if TouchesPrevious(free, b) then PlaceFor(free, b.addr) - 1 else PlaceFor(free, b.addr)
  }

  function Rest(free: seq<Block>, b: Block): int {
    if TouchesNext(free, b) then PlaceFor(free, b.addr) + 1 else PlaceFor(free, b.addr)
  }

  lemma ReleasedParts(free: seq<Block>, b: Block)
    requires Releasable(free, b)
    ensures var r, at, rest := Released(free, b), At(free, b), Rest(free, b);
      && 0 <= at <= rest <= |free| && |r| == at + 1 + |free| - rest
      && r[..at] == free[..at] && r[at + 1..] == free[rest..]
      && r[at].addr == (if TouchesPrevious(free, b) then free[at].addr else b.addr)
      && End(r[at]) == (if TouchesNext(free, b) then End(free[rest - 1]) else End(b))
  {
  }

  /** What is left out of the list between the two parts is what the block was merged with. */
  lemma MergedAway(free: seq<Block>, b: Block, i: int)
    requires Releasable(free, b) && At(free, b) <= i < Rest(free, b) && i < |free|
    ensures i >= 0 && ((TouchesPrevious(free, b) && i == At(free, b)) || (TouchesNext(free, b) && i == Rest(free, b) - 1))
  {
  }

  /** A block before b ends before it, and touches it only if it is the one merged with b. */
  lemma Neighbours(free: seq<Block>, b: Block, i: int)
    requires Releasable(free, b) && 0 <= i < |free|
    ensures i < PlaceFor(free, b.addr) ==> End(free[i]) <= b.addr && (End(free[i]) == b.addr <==> TouchesPrevious(free, b) && i == At(free, b))
    ensures i >= PlaceFor(free, b.addr) ==> End(b) <= free[i].addr && (End(b) == free[i].addr <==> TouchesNext(free, b) && i == Rest(free, b) - 1)
  {
    PlaceSplits(free, b.addr);
  }

  lemma SamePart(r: seq<Block>, free: seq<Block>, at: nat, rest: nat, i: nat)
    requires at < |r| && rest <= |free| && at <= |free| && r[..at] == free[..at] && r[at + 1..] == free[rest..] && i < |r|
    ensures i < at ==> i < |free| && r[i] == free[i]
    ensures i > at ==> i - at - 1 + rest < |free| && r[i] == free[i - at - 1 + rest]
  {
    if i < at { assert r[i] == r[..at][i]; }
    if i > at { assert r[i] == r[at + 1..][i - at - 1]; }
  }

  /** The other blocks are as they were. */
  lemma ReleasedOther(free: seq<Block>, b: Block, i: int)
    requires Releasable(free, b) && 0 <= i < |Released(free, b)| && i != At(free, b)
    ensures var at, rest := At(free, b), Rest(free, b);
      && (i < at ==> i < |free| && i < PlaceFor(free, b.addr) && Released(free, b)[i] == free[i])
      && (i > at ==> 0 <= i - at - 1 + rest < |free| && Released(free, b)[i] == free[i - at - 1 + rest] && PlaceFor(free, b.addr) <= i - at - 1 + rest)
  {
    hide Released, Releasable, PlaceFor, TouchesNext, TouchesPrevious;
    ReleasedParts(free, b);
    SamePart(Released(free, b), free, At(free, b), Rest(free, b), i);
  }

  /** The block that b has become ends before what follows and begins after what precedes it. */
  lemma ReleasedClear(free: seq<Block>, b: Block, i: int)
    requires Releasable(free, b) && 0 <= i < |free|
    ensures var r, at, rest := Released(free, b), At(free, b), Rest(free, b);
      && 0 <= at < |r|
      && (i < at ==> End(free[i]) < r[at].addr)
      && (i >= rest ==> End(r[at]) < free[i].addr)
  {
    ReleasedParts(free, b);
    Neighbours(free, b, i);
    hide Released, PlaceFor;
  }

  /** The blocks stay apart. */
  lemma ReleasedApart(free: seq<Block>, b: Block)
    requires Releasable(free, b)
    ensures Apart(Released(free, b))
  {
    hide Released, PlaceFor, At, Rest, Releasable;
    var r, at, rest := Released(free, b), At(free, b), Rest(free, b);
    ReleasedParts(free, b);
    assert Apart(free) by { ReleasableApart(free, b); }
    forall i, j | 0 <= i < j < |r|
      ensures End(r[i]) < r[j].addr
    {
      if i != at { ReleasedOther(free, b, i); }
      if j != at { ReleasedOther(free, b, j); }
      if j == at { ReleasedClear(free, b, i); }
      if i == at { ReleasedClear(free, b, j - at - 1 + rest); }
    }
  }

  lemma ReleasableApart(free: seq<Block>, b: Block)
    requires Releasable(free, b)
    ensures Apart(free)
  {
  }

  /** Nothing that was covered is lost, and b is covered. */
  lemma ReleasedCovers(free: seq<Block>, b: Block, x: int)
    requires Releasable(free, b) && (Covered(free, x) || b.addr <= x < End(b))
    ensures Covered(Released(free, b), x)
  {
    hide Released, PlaceFor, At, Rest, Releasable, TouchesNext, TouchesPrevious;
    ReleasedParts(free, b);
    Around(free, b);
    var r, at, rest := Released(free, b), At(free, b), Rest(free, b);
    if b.addr <= x < End(b) {
      assert r[at].addr <= x < End(r[at]);
    } else {
      var i :| 0 <= i < |free| && free[i].addr <= x < End(free[i]);
      if i < at {
        ReleasedOther(free, b, i);
        assert r[i].addr <= x < End(r[i]);
      } else if i >= rest {
        ReleasedOther(free, b, i - rest + at + 1);
        assert r[i - rest + at + 1].addr <= x < End(r[i - rest + at + 1]);
      } else {
        MergedAway(free, b, i);
        assert r[at].addr <= x < End(r[at]);
      }
    }
  }

  /** The block that b has become reaches around b and what it was merged with. */
  lemma Around(free: seq<Block>, b: Block)
    requires Releasable(free, b)
    ensures var r, at, rest := Released(free, b), At(free, b), Rest(free, b);
      && 0 <= at < |r| && rest <= |free| && r[at].addr <= b.addr && End(b) <= End(r[at])
      && (TouchesPrevious(free, b) ==> at < |free| && r[at].addr == free[at].addr && End(free[at]) <= End(r[at]))
      && (TouchesNext(free, b) ==> 0 < rest && r[at].addr <= free[rest - 1].addr && End(r[at]) == End(free[rest - 1]))
  {
  }
}
