/** The allocator's layout changes: a block becomes free, a core is added, part of a free block is handed out. */
module KallocSteps {
  import opened KallocLayout

  // ----- a block becomes free

  function Without(s: seq<Block>, j: nat): seq<Block>
    requires j < |s|
  {
    s[..j] + s[j + 1..]
  }

  lemma WithoutIs(s: seq<Block>, j: nat)
    requires j < |s|
    ensures |Without(s, j)| == |s| - 1 && Total(s) == Total(Without(s, j)) + s[j].size
    ensures forall i :: 0 <= i < |s| - 1 ==> Without(s, j)[i] == s[if i < j then i else i + 1]
  {
    TotalSplit(s, j);
    TotalAppend(s[..j], s[j + 1..]);
  }

  lemma TwoCores(base: int, cores: seq<Block>, i: nat, j: nat)
    requires CoresApart(base, cores) && i < |cores| && j < |cores|
    ensures i == j || Disjoint(cores[i], cores[j])
  {
    if i > j { assert Disjoint(cores[j], cores[i]); }
  }

  /** Two blocks that touch lie in the same core, and so does their union. */
  lemma TouchInside(a: Block, b: Block, base: int, cores: seq<Block>)
    requires CoresApart(base, cores) && Inside(a, cores) && Inside(b, cores) && End(a) == b.addr
    ensures Inside(Block(a.addr, a.size + b.size), cores)
  {
    var i :| 0 <= i < |cores| && cores[i].addr < a.addr && End(a) <= End(cores[i]);
    var j :| 0 <= j < |cores| && cores[j].addr < b.addr && End(b) <= End(cores[j]);
    TwoCores(base, cores, i, j);
    assert i == j;
    assert End(Block(a.addr, a.size + b.size)) <= End(cores[i]);
  }

  /** The base block touches nothing inside a core. */
  lemma BaseTouchesNothing(b: Block, base: int, cores: seq<Block>)
    requires CoresApart(base, cores) && Inside(b, cores)
    ensures !(b.addr <= base <= End(b))
  {
  }

  lemma CanRelease(base: int, free: seq<Block>, used: seq<Block>, cores: seq<Block>, j: nat)
    requires Layout(base, free, used, cores) && j < |used|
    ensures Releasable(free, used[j])
  {
    forall i | 0 <= i < |free|
      ensures Disjoint(free[i], used[j]) && free[i].addr != used[j].addr
    {
      if free[i] == Block(base, 0) { BaseTouchesNothing(used[j], base, cores); }
    }
  }

  lemma ReleasedIsFreeList(base: int, free: seq<Block>, used: seq<Block>, cores: seq<Block>, j: nat)
    requires Layout(base, free, used, cores) && j < |used|
    ensures FreeList(base, Released(free, used[j]), cores)
  {
    var b := used[j];
    CanRelease(base, free, used, cores, j);
    ReleasedApart(free, b);
    MergedInside(base, free, used, cores, j);
    BaseStays(base, free, used, cores, j);
    ReleasedParts(free, b);
    var r, at := Released(free, b), At(free, b);
    assert FreeList(base, free, cores) && CoresApart(base, cores);
    hide Released, Releasable, At, Rest, Layout, TouchesNext, TouchesPrevious, PlaceFor, Inside, Apart;
    forall i | 0 <= i < |r|
      ensures r[i] == Block(base, 0) || (0 < r[i].size && Inside(r[i], cores))
    {
      if i != at { ReleasedOther(free, b, i); }
    }
  }

  /** What b becomes is still inside one core. */
  lemma MergedInside(base: int, free: seq<Block>, used: seq<Block>, cores: seq<Block>, j: nat)
    requires Layout(base, free, used, cores) && j < |used|
    ensures var r, at := Released(free, used[j]), At(free, used[j]);
      0 <= at < |r| && 0 < r[at].size && Inside(r[at], cores)
  {
    hide PlaceFor, Covered, Total, Inside, CoresApart, FreeNotUsed, Filled, Apart, AllDisjoint;
    var b := used[j];
    var k := PlaceFor(free, b.addr);
    assert Inside(b, cores) && 0 < b.size;
    var m := WithNext(free, b);
    if TouchesNext(free, b) {
      if free[k] == Block(base, 0) { BaseTouchesNothing(b, base, cores); }
      TouchInside(b, free[k], base, cores);
    }
    assert Inside(m, cores);
    if TouchesPrevious(free, b) {
      if free[k - 1] == Block(base, 0) { BaseTouchesNothing(b, base, cores); }
      TouchInside(free[k - 1], m, base, cores);
    }
  }

  lemma NotMerged(free: seq<Block>, b: Block, i: nat, base: int)
    requires Releasable(free, b) && i < |free| && free[i] == Block(base, 0) && !(b.addr <= base <= End(b))
    ensures !(At(free, b) <= i < Rest(free, b))
  {
  }

  lemma BaseStays(base: int, free: seq<Block>, used: seq<Block>, cores: seq<Block>, j: nat)
    requires Layout(base, free, used, cores) && j < |used|
    ensures Block(base, 0) in Released(free, used[j])
  {
    var b := used[j];
    CanRelease(base, free, used, cores, j);
    BaseTouchesNothing(b, base, cores);
    var i :| 0 <= i < |free| && free[i] == Block(base, 0);
    NotMerged(free, b, i, base);
    hide Layout, Released, At, Rest, Releasable, PlaceFor, TouchesNext, TouchesPrevious;
    ReleasedParts(free, b);
    var r, at, rest := Released(free, b), At(free, b), Rest(free, b);
    if i < at {
      assert r[..at][i] == free[..at][i];
    } else {
      assert r[at + 1..][i - rest] == free[rest..][i - rest];
    }
  }

  /** What is disjoint from two blocks that touch, and not empty, is disjoint from their union. */
  lemma DisjointUnion(a: Block, b: Block, c: Block)
    requires End(a) == b.addr && Disjoint(a, c) && Disjoint(b, c) && 0 < c.size
    ensures Disjoint(Block(a.addr, a.size + b.size), c)
  {
  }

  lemma ReleasedNotUsed(base: int, free: seq<Block>, used: seq<Block>, cores: seq<Block>, j: nat)
    requires Layout(base, free, used, cores) && j < |used|
    ensures FreeNotUsed(Released(free, used[j]), Without(used, j))
  {
    assert FreeNotUsed(free, used);
    hide Layout, Releasable, Released, At, Rest, PlaceFor, Without, Disjoint;
    var b, rest := used[j], Without(used, j);
    CanRelease(base, free, used, cores, j);
    WithoutIs(used, j);
    var r, at := Released(free, b), At(free, b);
    forall i, l | 0 <= i < |r| && 0 <= l < |rest|
      ensures Disjoint(r[i], rest[l])
    {
      var l' := if l < j then l else l + 1;
      if i == at {
        MergedDisjoint(base, free, used, cores, j, l');
      } else {
        ReleasedOther(free, b, i);
      }
    }
  }

  lemma MergedDisjoint(base: int, free: seq<Block>, used: seq<Block>, cores: seq<Block>, j: nat, l: nat)
    requires Layout(base, free, used, cores) && j < |used| && l < |used| && j != l
    ensures var r, at := Released(free, used[j]), At(free, used[j]);
      0 <= at < |r| && Disjoint(r[at], used[l])
  {
    hide PlaceFor, Covered, Total, Inside;
    var b, c := used[j], used[l];
    var k := PlaceFor(free, b.addr);
    assert Disjoint(b, c) by { if j < l { assert Disjoint(used[j], used[l]); } else { assert Disjoint(used[l], used[j]); } }
    if TouchesNext(free, b) {
      assert Disjoint(free[k], c);
      DisjointUnion(b, free[k], c);
    }
    var m := WithNext(free, b);
    assert Disjoint(m, c);
    if TouchesPrevious(free, b) {
      assert Disjoint(free[k - 1], c);
      DisjointUnion(free[k - 1], m, c);
    }
  }

  lemma ReleasedFilled(free: seq<Block>, used: seq<Block>, cores: seq<Block>, j: nat)
    requires j < |used| && Filled(free, used, cores) && Releasable(free, used[j])
    ensures Filled(Released(free, used[j]), Without(used, j), cores)
  {
    var b, rest, r := used[j], Without(used, j), Released(free, used[j]);
    WithoutIs(used, j);
    hide Released, Without, Releasable;
    forall x | InBody(cores, x)
      ensures Covered(r, x) || Covered(rest, x)
    {
      if Covered(free, x) || b.addr <= x < End(b) {
        ReleasedCovers(free, b, x);
      } else {
        var i :| 0 <= i < |used| && used[i].addr <= x < End(used[i]);
        assert rest[if i < j then i else i - 1] == used[i];
      }
    }
  }

  lemma WithoutUsed(used: seq<Block>, cores: seq<Block>, j: nat)
    requires j < |used| && UsedBlocks(used, cores)
    ensures UsedBlocks(Without(used, j), cores)
  {
    WithoutIs(used, j);
    var rest := Without(used, j);
    hide Without, Inside;
    forall i, l | 0 <= i < l < |rest|
      ensures Disjoint(rest[i], rest[l])
    {
      assert Disjoint(used[if i < j then i else i + 1], used[if l < j then l else l + 1]);
    }
  }

  /** Releasing an allocated block keeps the layout. */
  lemma LayoutReleased(base: int, free: seq<Block>, used: seq<Block>, cores: seq<Block>, j: nat)
    requires Layout(base, free, used, cores) && j < |used|
    ensures Layout(base, Released(free, used[j]), Without(used, j), cores)
  {
    ReleasedIsFreeList(base, free, used, cores, j);
    ReleasedNotUsed(base, free, used, cores, j);
    ReleasedTotal(free, used[j]);
    WithoutIs(used, j);
    CanRelease(base, free, used, cores, j);
    ReleasedFilled(free, used, cores, j);
    WithoutUsed(used, cores, j);
    hide Released, Without, FreeList, FreeNotUsed, CoresApart, Releasable, Filled, UsedBlocks;
  }

  // ----- a core is added

  /** The core at c of n units, and its part after the header. */
  ghost predicate NewCore(base: int, cores: seq<Block>, c: Block) {
    && 0 < c.addr && 1 < c.size && !(c.addr <= base <= End(c))
    && forall i :: 0 <= i < |cores| ==> Disjoint(cores[i], c)
  }

  function Body(c: Block): Block
    requires 0 < c.size
  {
    Block(c.addr + 1, c.size - 1)
  }

  lemma InsideMore(b: Block, cores: seq<Block>, c: Block)
    requires Inside(b, cores)
    ensures Inside(b, [c] + cores)
  {
    var i :| 0 <= i < |cores| && cores[i].addr < b.addr && End(b) <= End(cores[i]);
    assert ([c] + cores)[i + 1] == cores[i];
  }

  lemma OutsideNew(base: int, b: Block, cores: seq<Block>, c: Block)
    requires NewCore(base, cores, c) && (b == Block(base, 0) || Inside(b, cores))
    ensures Disjoint(b, Body(c))
  {
  }

  /** A new core counts as header and one allocated block, about to be released. */
  lemma LayoutExtended(base: int, free: seq<Block>, used: seq<Block>, cores: seq<Block>, c: Block)
    requires Layout(base, free, used, cores) && NewCore(base, cores, c)
    ensures Layout(base, free, used + [Body(c)], [c] + cores)
  {
    var used', cores' := used + [Body(c)], [c] + cores;
    ExtendedCores(base, cores, c);
    ExtendedFree(base, free, cores, c);
    ExtendedUsed(base, used, cores, c);
    ExtendedApart(base, free, used, cores, c);
    ExtendedFilled(free, used, cores, c);
    TotalJoin(used, Body(c), []);
    assert used + [Body(c)] + [] == used';
    assert cores'[1..] == cores;
    hide CoresApart, FreeList, UsedBlocks, FreeNotUsed, Filled;
  }

  lemma ExtendedCores(base: int, cores: seq<Block>, c: Block)
    requires CoresApart(base, cores) && NewCore(base, cores, c)
    ensures CoresApart(base, [c] + cores)
  {
    var cores' := [c] + cores;
    forall i, j | 0 <= i < j < |cores'|
      ensures Disjoint(cores'[i], cores'[j])
    {
      assert cores'[j] == cores[j - 1];
      if i > 0 { assert Disjoint(cores[i - 1], cores[j - 1]); }
    }
  }

  lemma ExtendedFree(base: int, free: seq<Block>, cores: seq<Block>, c: Block)
    requires FreeList(base, free, cores)
    ensures FreeList(base, free, [c] + cores)
  {
    forall i | 0 <= i < |free| && free[i] != Block(base, 0)
      ensures Inside(free[i], [c] + cores)
    {
      InsideMore(free[i], cores, c);
    }
  }

  lemma ExtendedUsed(base: int, used: seq<Block>, cores: seq<Block>, c: Block)
    requires UsedBlocks(used, cores) && NewCore(base, cores, c)
    ensures UsedBlocks(used + [Body(c)], [c] + cores)
  {
    var used' := used + [Body(c)];
    assert ([c] + cores)[0] == c;
    forall i | 0 <= i < |used'|
      ensures 0 < used'[i].size && Inside(used'[i], [c] + cores)
    {
      if i < |used| { InsideMore(used[i], cores, c); }
    }
    forall i, j | 0 <= i < j < |used'|
      ensures Disjoint(used'[i], used'[j])
    {
      if j == |used| { OutsideNew(base, used[i], cores, c); } else { assert Disjoint(used[i], used[j]); }
    }
  }

  lemma ExtendedApart(base: int, free: seq<Block>, used: seq<Block>, cores: seq<Block>, c: Block)
    requires FreeNotUsed(free, used) && FreeList(base, free, cores) && NewCore(base, cores, c)
    ensures FreeNotUsed(free, used + [Body(c)])
  {
    forall i, j | 0 <= i < |free| && 0 <= j < |used + [Body(c)]|
      ensures Disjoint(free[i], (used + [Body(c)])[j])
    {
      if j == |used| { OutsideNew(base, free[i], cores, c); } else { assert Disjoint(free[i], used[j]); }
    }
  }

  lemma ExtendedFilled(free: seq<Block>, used: seq<Block>, cores: seq<Block>, c: Block)
    requires Filled(free, used, cores) && 0 < c.size
    ensures Filled(free, used + [Body(c)], [c] + cores)
  {
    var used', cores' := used + [Body(c)], [c] + cores;
    forall x | InBody(cores', x)
      ensures Covered(free, x) || Covered(used', x)
    {
      var j :| 0 <= j < |cores'| && cores'[j].addr < x < End(cores'[j]);
      if j == 0 {
        assert used'[|used|].addr <= x < End(used'[|used|]);
      } else {
        assert cores'[j] == cores[j - 1];
        if !Covered(free, x) {
          var i :| 0 <= i < |used| && used[i].addr <= x < End(used[i]);
          assert used'[i] == used[i];
        }
      }
    }
  }

  // ----- part of a free block is handed out

  /** The end of the free block i, n units of it. */
  function Piece(free: seq<Block>, i: nat, n: nat): Block
    requires i < |free| && n <= free[i].size
  {
    Block(free[i].addr + free[i].size - n, n)
  }

  /** The free blocks without that piece. */
  function Taken(free: seq<Block>, i: nat, n: nat): seq<Block>
    requires i < |free| && n <= free[i].size
  {
    if free[i].size == n then Without(free, i) else free[i := Block(free[i].addr, free[i].size - n)]
  }

  /** Each block that is left is part of one that was there, and lies clear of the piece. */
  lemma TakenFrom(free: seq<Block>, i: nat, n: nat, k: nat)
    requires Apart(free) && i < |free| && 0 < n <= free[i].size && k < |Taken(free, i, n)|
    ensures var k' := if free[i].size == n && k >= i then k + 1 else k;
      && k' < |free| && Taken(free, i, n)[k].addr == free[k'].addr && End(Taken(free, i, n)[k]) <= End(free[k'])
      && (k' != i ==> Taken(free, i, n)[k] == free[k'])
      && (k' == i ==> 0 < Taken(free, i, n)[k].size && End(Taken(free, i, n)[k]) == Piece(free, i, n).addr)
      && Disjoint(Taken(free, i, n)[k], Piece(free, i, n))
  {
    if free[i].size == n { WithoutIs(free, i); }
  }

  lemma TakenIsFreeList(base: int, free: seq<Block>, cores: seq<Block>, i: nat, n: nat)
    requires FreeList(base, free, cores) && i < |free| && 0 < n <= free[i].size
    ensures FreeList(base, Taken(free, i, n), cores) && Inside(Piece(free, i, n), cores)
  {
    var t := Taken(free, i, n);
    assert free[i] != Block(base, 0);
    InsidePart(free[i], Piece(free, i, n), cores);
    forall k | 0 <= k < |t|
      ensures t[k] == Block(base, 0) || (0 < t[k].size && Inside(t[k], cores))
    {
      TakenFrom(free, i, n, k);
      var k' := if free[i].size == n && k >= i then k + 1 else k;
      if k' == i { InsidePart(free[i], t[k], cores); }
    }
    forall k, l | 0 <= k < l < |t|
      ensures End(t[k]) < t[l].addr
    {
      TakenFrom(free, i, n, k);
      TakenFrom(free, i, n, l);
    }
    var k :| 0 <= k < |free| && free[k] == Block(base, 0);
    TakenKeeps(free, i, n, k);
  }

  lemma TakenKeeps(free: seq<Block>, i: nat, n: nat, k: nat)
    requires i < |free| && n <= free[i].size && k < |free| && k != i
    ensures free[k] in Taken(free, i, n)
  {
    if free[i].size == n {
      WithoutIs(free, i);
      assert Without(free, i)[if k < i then k else k - 1] == free[k];
    } else {
      assert Taken(free, i, n)[k] == free[k];
    }
  }

  lemma InsidePart(b: Block, p: Block, cores: seq<Block>)
    requires Inside(b, cores) && b.addr <= p.addr && End(p) <= End(b)
    ensures Inside(p, cores)
  {
    var i :| 0 <= i < |cores| && cores[i].addr < b.addr && End(b) <= End(cores[i]);
    assert cores[i].addr < p.addr && End(p) <= End(cores[i]);
  }

  lemma TakenTotal(free: seq<Block>, i: nat, n: nat)
    requires i < |free| && n <= free[i].size
    ensures Total(Taken(free, i, n)) + n == Total(free)
  {
    if free[i].size == n {
      WithoutIs(free, i);
    } else {
      var t := Taken(free, i, n);
      TotalSplit(free, i);
      TotalSplit(t, i);
      assert t[..i] == free[..i] && t[i + 1..] == free[i + 1..];
    }
  }

  /** Handing out part of a free block keeps the layout. */
  lemma LayoutTaken(base: int, free: seq<Block>, used: seq<Block>, cores: seq<Block>, i: nat, n: nat)
    requires Layout(base, free, used, cores) && i < |free| && 0 < n <= free[i].size
    ensures Layout(base, Taken(free, i, n), used + [Piece(free, i, n)], cores)
  {
    var used' := used + [Piece(free, i, n)];
    TakenIsFreeList(base, free, cores, i, n);
    TakenTotal(free, i, n);
    TakenUsed(free, used, cores, i, n);
    TakenApart(free, used, i, n);
    TakenFilled(free, used, cores, i, n);
    TotalJoin(used, Piece(free, i, n), []);
    assert used + [Piece(free, i, n)] + [] == used';
    hide CoresApart, FreeList, UsedBlocks, FreeNotUsed, Filled, Taken, Piece;
  }

  lemma TakenUsed(free: seq<Block>, used: seq<Block>, cores: seq<Block>, i: nat, n: nat)
    requires UsedBlocks(used, cores) && FreeNotUsed(free, used) && i < |free| && 0 < n <= free[i].size
    requires Inside(Piece(free, i, n), cores)
    ensures UsedBlocks(used + [Piece(free, i, n)], cores)
  {
    var used' := used + [Piece(free, i, n)];
    hide Inside;
    forall k, l | 0 <= k < l < |used'|
      ensures Disjoint(used'[k], used'[l])
    {
      if l == |used| { assert Disjoint(free[i], used[k]); } else { assert Disjoint(used[k], used[l]); }
    }
  }

  lemma TakenApart(free: seq<Block>, used: seq<Block>, i: nat, n: nat)
    requires Apart(free) && FreeNotUsed(free, used) && i < |free| && 0 < n <= free[i].size
    ensures FreeNotUsed(Taken(free, i, n), used + [Piece(free, i, n)])
  {
    var t, used' := Taken(free, i, n), used + [Piece(free, i, n)];
    forall k, l | 0 <= k < |t| && 0 <= l < |used'|
      ensures Disjoint(t[k], used'[l])
    {
      TakenFrom(free, i, n, k);
      hide Taken;
      var k' := if free[i].size == n && k >= i then k + 1 else k;
      if l < |used| { assert Disjoint(free[k'], used[l]); }
    }
  }

  lemma TakenFilled(free: seq<Block>, used: seq<Block>, cores: seq<Block>, i: nat, n: nat)
    requires Filled(free, used, cores) && i < |free| && 0 < n <= free[i].size
    ensures Filled(Taken(free, i, n), used + [Piece(free, i, n)], cores)
  {
    var t, used' := Taken(free, i, n), used + [Piece(free, i, n)];
    forall x | InBody(cores, x)
      ensures Covered(t, x) || Covered(used', x)
    {
      if Covered(free, x) {
        var k :| 0 <= k < |free| && free[k].addr <= x < End(free[k]);
        if k != i {
          TakenKeeps(free, i, n, k);
        } else if x < Piece(free, i, n).addr {
          assert t[i].addr <= x < End(t[i]);
        } else {
          assert used'[|used|].addr <= x < End(used'[|used|]);
        }
      } else {
        var k :| 0 <= k < |used| && used[k].addr <= x < End(used[k]);
        assert used'[k] == used[k];
      }
    }
  }

  // ----- the beginning

  lemma LayoutStarts(base: int)
    requires 0 < base
    ensures Layout(base, [Block(base, 0)], [], [])
  {
    var free := [Block(base, 0)];
    assert free[1..] == [] && Total(free) == 0;
    assert free[0] == Block(base, 0);
  }
}
