/** The allocator: first fit in a circular list of free blocks, from where the last search ended; blocks that
    touch are merged when one is released. The headers of the blocks are fields indexed by address; the
    sequences of free blocks, used blocks and cores exist only for the proof. */
module Kalloc {
  import opened KallocLayout
  import opened KallocSteps
  import opened KallocHeaders

  /** MIN_CORE_SIZE: cores are multiples of this many units. */
  const MIN_CORE := 0x80000

  /** The values of a size_t. */
  const WORDS := 0x1_0000_0000_0000_0000

  /** The units a request takes: its bytes, the size field before them, rounded up, and one more. The sum is one of
      size_t. */
  function Units(bytes: nat): (n: nat)
    ensures n >= 1
  {
    (bytes + 8 + 16 - 1) % WORDS / 16 + 1
  }

  /** They hold the bytes and the size field exactly when that sum does not wrap around; then all but one of them are
      as few as can. */
  lemma UnitsSufficeExactly(bytes: nat)
    requires bytes < WORDS
    ensures 16 * Units(bytes) >= bytes + 8 <==> bytes + 23 < WORDS
    ensures bytes + 23 < WORDS ==> 16 * (Units(bytes) - 2) < bytes + 8 <= 16 * (Units(bytes) - 1)
  {
    if bytes + 23 >= WORDS {
      assert (bytes + 23) % WORDS == bytes + 23 - WORDS;
    }
  }

  /** The size of a core fetched for a request of n units. */
  function CoreUnits(n: nat): (nu: nat)
    ensures nu >= n + 1
  {
    (n + 1 + (MIN_CORE - 1)) / MIN_CORE * MIN_CORE
  }

  /** It is the least multiple of 0x80000 units with room for n units and a header. */
  lemma CoreUnitsLeast(n: nat)
    ensures CoreUnits(n) % 0x8_0000 == 0 && n + 1 <= CoreUnits(n) < n + 1 + 0x8_0000
  {
  }

  /** Every core is such a multiple. */
  ghost predicate WholeCores(cores: seq<Block>) {
    forall i :: 0 <= i < |cores| ==> cores[i].size % 0x8_0000 == 0
  }

  lemma MoreWholeCores(cores: seq<Block>, q: int, n: nat)
    requires WholeCores(cores)
    ensures WholeCores([Block(q, CoreUnits(n))] + cores)
  {
    CoreUnitsLeast(n);
    hide CoreUnits;
    var more := [Block(q, CoreUnits(n))] + cores;
    assert forall i :: 0 < i < |more| ==> more[i] == cores[i - 1];
  }

  lemma {:induction false} WholeTotals(cores: seq<Block>)
    requires WholeCores(cores)
    ensures 16 * Total(cores) % 0x80_0000 == 0 && 16 * Largest(cores) % 0x80_0000 == 0
    decreases |cores|
  {
    if cores != [] {
      assert cores[0].size % 0x8_0000 == 0;
      assert forall i :: 0 <= i < |cores[1..]| ==> cores[1..][i] == cores[i + 1];
      WholeTotals(cores[1..]);
    }
  }

  /** The bytes asked of malloc for it. The product is one of size_t. */
  function CoreBytes(n: nat): nat {
    CoreUnits(n) * 16 % WORDS
  }

  /** They are those of the core exactly when that product does not wrap around, which it does, to nothing or to the
      bytes of a smallest core, for the last requests before the sum in Units wraps around. */
  lemma CoreBytesSufficeExactly(bytes: nat)
    requires bytes < WORDS
    ensures CoreBytes(Units(bytes)) == 16 * CoreUnits(Units(bytes)) <==> bytes < WORDS - 16 * MIN_CORE - 39 || bytes + 23 >= WORDS
    ensures CoreBytes(Units(bytes)) != 16 * CoreUnits(Units(bytes)) ==> CoreBytes(Units(bytes)) in {0, 16 * MIN_CORE}
  {
    hide Units, CoreUnits;
    UnitsAre(bytes);
    CoreUnitsAre(Units(bytes));
  }

  lemma UnitsAre(bytes: nat)
    requires bytes < WORDS
    ensures var n := Units(bytes);
      if bytes + 23 < WORDS then 16 * (n - 1) <= bytes + 23 < 16 * n else n <= 2
  {
    if bytes + 23 >= WORDS { assert (bytes + 23) % WORDS == bytes + 23 - WORDS; }
  }

  lemma CoreUnitsAre(n: nat)
    requires 16 * n <= WORDS
    ensures var most := WORDS / 16;
      if n + 1 <= most - MIN_CORE then CoreUnits(n) <= most - MIN_CORE
      else CoreUnits(n) == if n < most then most else most + MIN_CORE
  {
  }

  /** So a request has the room it asks for, also in a new core, exactly up to this size. */
  lemma RequestFitsExactly(bytes: nat)
    requires bytes < WORDS
    ensures 16 * Units(bytes) >= bytes + 8 && CoreBytes(Units(bytes)) == 16 * CoreUnits(Units(bytes))
      <==> bytes < WORDS - 16 * MIN_CORE - 39
  {
    hide Units, CoreBytes;
    UnitsSufficeExactly(bytes);
    CoreBytesSufficeExactly(bytes);
  }

  lemma SizeKnown(ptr: map<int, int>, size: map<int, nat>, coreHead: int, free: seq<Block>, used: seq<Block>, cores: seq<Block>, j: nat)
    requires Headers(ptr, size, coreHead, free, used, cores) && j < |used|
    ensures used[j].addr in size && size[used[j].addr] == used[j].size
  {
  }

  /** What Valid asks of loopHead and base. */
  lemma AtHead(base: int, ptr: map<int, int>, size: map<int, nat>, coreHead: int, free: seq<Block>, used: seq<Block>, cores: seq<Block>, a: int, i: int)
    requires Layout(base, free, used, cores) && Headers(ptr, size, coreHead, free, used, cores)
    requires 0 <= i < |free| && a == free[i].addr
    ensures OnList(a, free) && a > 0 && 0 < base && base in size && size[base] == 0
  {
    OnListIsNotNull(base, free, used, cores, a);
    BaseHeader(base, size, free, used, cores);
  }

  class Kmem {
    /** The address of the zero-sized block kept in the allocator itself. */
    const base: int
    var loopHead: int
    var coreHead: int
    /** The two fields of the header at each address. */
    var size: map<int, nat>
    var ptr: map<int, int>
    ghost var free: seq<Block>
    ghost var used: seq<Block>
    ghost var cores: seq<Block>

    ghost predicate Valid()
      reads this
    {
      && 0 < base && base in size && size[base] == 0
      && (if loopHead == 0 then free == [] && used == [] && cores == [] && coreHead == 0
          else Layout(base, free, used, cores) && Headers(ptr, size, coreHead, free, used, cores) && OnList(loopHead, free))
      && WholeCores(cores)
    }

    constructor (base: int)
      requires 0 < base
      ensures Valid() && free == [] && used == [] && cores == [] && this.base == base
    {
      this.base := base;
      loopHead, coreHead := 0, 0;
      size, ptr := map[base := 0], map[base := 0];
      free, used, cores := [], [], [];
    }

    /** Walks the list to the free block behind p. */
    method FindPlace(p: int, ghost b: Block) returns (q: int)
      requires Headers(ptr, size, coreHead, free, used, cores) && OnList(loopHead, free)
      requires Releasable(free, b) && p == b.addr && p in size && size[p] == b.size
      ensures Behind(ptr, size, free, b, q)
    {
      q := loopHead;
      ghost var i :| 0 <= i < |free| && loopHead == free[i].addr;
      ghost var t := Pred(PlaceFor(free, p), |free|);
      hide Releasable, PlaceFor;
      StopsBehind(ptr, free, b, i);
      while !(p > q && p < ptr[q])
        invariant 0 <= i < |free| && q == free[i].addr && q in ptr && (Stops(ptr, q, p) <==> i == t)
        decreases Ahead(i, t, |free|)
      {
        if q >= ptr[q] && (p > q || p < ptr[q]) {
          break;
        }
        AheadStep(i, t, |free|);
        StopsBehind(ptr, free, b, i);
        StopsBehind(ptr, free, b, Succ(i, |free|));
        q := ptr[q];
        i := Succ(i, |free|);
      }
    }

    /** Puts the block p back into the list behind q; true if the blocks overlap. */
    method LinkIn(p: int, q: int) returns (panicked: bool)
      requires Seen(ptr, size, p, q)
      modifies this`size, this`ptr, this`loopHead
      ensures !panicked && Seen(old(ptr), old(size), p, q)
      ensures ptr == PtrAfter(old(ptr), old(size), p, q) && size == SizeAfter(old(ptr), old(size), p, q)
      ensures loopHead == if q + old(size)[q] == p then q else p
    {
      panicked := false;
      var next := ptr[q];
      if p + size[p] == next {
        size := size[p := size[p] + size[next]];
        ptr := ptr[p := ptr[next]];
      } else if p + size[p] > next && next >= p {
        return true;
      } else {
        ptr := ptr[p := next];
      }
      panicked := LinkBehind(p, q);
    }

    /** The second half: p is joined to q or linked behind it. */
    method LinkBehind(p: int, q: int) returns (panicked: bool)
      requires p in size && q in size && p in ptr && q != p && !(q + size[q] > p >= q)
      modifies this`size, this`ptr, this`loopHead
      ensures !panicked
      ensures ptr == old(ptr)[q := if q + old(size)[q] == p then old(ptr)[p] else p]
      ensures size == if q + old(size)[q] == p then old(size)[q := old(size)[q] + old(size)[p]] else old(size)
      ensures loopHead == if q + old(size)[q] == p then q else p
    {
      panicked := false;
      if q + size[q] == p {
        size := size[q := size[q] + size[p]];
        ptr := ptr[q := ptr[p]];
        loopHead := q;
      } else if q + size[q] > p && p >= q {
        return true;
      } else {
        loopHead := p;
        ptr := ptr[q := p];
      }
    }

    /** The list with the block p linked into it. */
    method Relink(p: int, ghost j: nat) returns (panicked: bool)
      requires Layout(base, free, used, cores) && Headers(ptr, size, coreHead, free, used, cores) && OnList(loopHead, free)
      requires j < |used| && p == used[j].addr
      modifies this`size, this`ptr, this`loopHead
      ensures !panicked && Headers(ptr, size, coreHead, Released(free, used[j]), Without(used, j), cores)
      ensures 0 <= At(free, used[j]) < |Released(free, used[j])| && loopHead == Released(free, used[j])[At(free, used[j])].addr
    {
      hide Released, Without, Layout, Releasable, Behind, At, PtrAfter, SizeAfter, Headers, OnList;
      CanRelease(base, free, used, cores, j);
      SizeKnown(ptr, size, coreHead, free, used, cores, j);
      var q := FindPlace(p, used[j]);
      ReleaseHeaders(base, ptr, size, coreHead, free, used, cores, j, q);
      hide Seen;
      panicked := LinkIn(p, q);
    }

    /** kfree: an allocated block joins the free blocks, merged with those it touches, and no panic is reached. */
    method Free(p: int, ghost j: nat) returns (panicked: bool)
      requires Valid() && (p == 0 || (j < |used| && p == used[j].addr))
      modifies this`size, this`ptr, this`loopHead, this`free, this`used
      ensures !panicked && Valid()
      ensures p == 0 ==> free == old(free) && used == old(used)
      ensures p != 0 ==>
        && free == Released(old(free), old(used)[j]) && used == Without(old(used), j)
        && 0 <= At(old(free), old(used)[j]) < |free| && loopHead == free[At(old(free), old(used)[j])].addr
    {
      if p == 0 {
        return false;
      }
      panicked := Release(p, j);
    }

    method Release(p: int, ghost j: nat) returns (panicked: bool)
      requires Running() && j < |used| && p == used[j].addr
      modifies this`size, this`ptr, this`loopHead, this`free, this`used
      ensures !panicked && Valid() && loopHead != 0
      ensures free == Released(old(free), old(used)[j]) && used == Without(old(used), j)
      ensures 0 <= At(old(free), old(used)[j]) < |free| && loopHead == free[At(old(free), old(used)[j])].addr
    {
      hide Released, Without, Layout, At, Headers, OnList, WholeCores;
      LayoutReleased(base, free, used, cores, j);
      panicked := Relink(p, j);
      ghost var at := At(free, used[j]);
      free, used := Released(free, used[j]), Without(used, j);
      AtHead(base, ptr, size, coreHead, free, used, cores, loopHead, at);
    }

    /** The list is set up: it holds the base block at least. */
    ghost predicate Running()
      reads this
    {
      && Layout(base, free, used, cores) && Headers(ptr, size, coreHead, free, used, cores) && OnList(loopHead, free)
      && WholeCores(cores)
    }

    lemma RunningIsValid()
      requires Running()
      ensures Valid() && loopHead > 0
    {
      OnListIsNotNull(base, free, used, cores, loopHead);
      BaseHeader(base, size, free, used, cores);
    }

    /** The first request sets up the list. */
    method Start()
      requires Valid()
      modifies this`loopHead, this`ptr, this`free
      ensures Running() && used == old(used)
      ensures if old(loopHead) == 0 then free == [Block(base, 0)] && loopHead == base else free == old(free) && loopHead == old(loopHead)
    {
      if loopHead == 0 {
        loopHead := base;
        ptr := ptr[base := base];
        free := [Block(base, 0)];
        assert free[0].addr == base;
        LayoutStarts(base);
      }
    }

    /** Takes n units from the block p at place i, behind q: the whole block or its end. */
    method Take(p: int, q: int, n: nat, ghost i: nat) returns (a: int)
      requires Running() && i < |free| && 0 < n <= free[i].size && p == free[i].addr && q == free[Pred(i, |free|)].addr
      modifies this`size, this`ptr, this`loopHead, this`free, this`used
      ensures Running() && a == Piece(old(free), i, n).addr
      ensures free == Taken(old(free), i, n) && used == old(used) + [Block(a, n)] && loopHead == q
    {
      hide Layout, Linked, Stored, Chained, OnList;
      LayoutTaken(base, free, used, cores, i, n);
      AtPlace(base, ptr, size, coreHead, free, used, cores, i);
      if size[p] == n {
        WholeHeaders(base, ptr, size, coreHead, free, used, cores, i);
        assert Piece(free, i, n) == free[i];
        hide Headers;
        ptr := ptr[q := ptr[p]];
        a := p;
      } else {
        PartHeaders(base, ptr, size, coreHead, free, used, cores, i, n);
        hide Headers;
        size := size[p := size[p] - n];
        a := p + size[p];
        size := size[a := n];
      }
      loopHead := q;
      free, used := Taken(free, i, n), used + [Piece(free, i, n)];
    }

    /** morecore: chains in the core that the system gave at address q and releases its body. */
    method MoreCore(n: nat, q: int)
      requires Running() && NewCore(base, cores, Block(q, CoreUnits(n)))
      modifies this`size, this`ptr, this`loopHead, this`coreHead, this`free, this`used, this`cores
      ensures Running() && cores == [Block(q, CoreUnits(n))] + old(cores) && used == old(used)
      ensures Grown(old(free), Block(q, CoreUnits(n)), free, loopHead)
    {
      hide Layout, Headers, OnList, NewCore, Released, At, CoreUnits, WholeCores;
      MoreWholeCores(cores, q, n);
      var nu := CoreUnits(n);
      ghost var c := Block(q, nu);
      CoreHeaders(base, ptr, size, coreHead, free, used, cores, c);
      LayoutExtended(base, free, used, cores, c);
      ptr := ptr[q := coreHead];
      size := size[q := nu];
      coreHead := q;
      size := size[q + 1 := nu - 1];
      used, cores := used + [Body(c)], [c] + cores;
      CanRelease(base, free, used, cores, |used| - 1);
      Around(free, used[|used| - 1]);
      var panicked := Release(q + 1, |used| - 1);
    }

    /** The search for n units. A core is fetched only when every free block is too small, and once. */
    method Search(n: nat, room: int) returns (a: int, ghost grew: bool, ghost core: Block)
      requires Running() && 0 < n && NewCore(base, cores, Block(room, CoreUnits(n)))
      modifies this
      ensures Running() && core == Block(room, CoreUnits(n)) && used == old(used) + [Block(a, n)]
      ensures cores == if grew then [core] + old(cores) else old(cores)
      ensures grew ==> AllBelow(old(free), n) && TakenFromCore(old(free), core, n, a, free, loopHead)
      ensures !grew ==> TakenFirst(old(free), old(loopHead), n, a, free, loopHead)
    {
      hide Layout, Headers, OnList, NewCore, Passed, WholeCores, AllBelow, Grown, TakenFirst, TakenFromCore, Piece, Taken, CoreUnits;
      core, grew := Block(room, CoreUnits(n)), false;
      var q := loopHead;
      ghost var h := SomewhereOnList(loopHead, free);
      AtPlace(base, ptr, size, coreHead, free, used, cores, h);
      PassedStart(free, h, n);
      ghost var i := Succ(h, |free|);
      var p := ptr[q];
      while true
        invariant Running() && 0 <= h < |free| && loopHead == free[h].addr && 0 <= i < |free|
        invariant p == free[i].addr && q == free[Pred(i, |free|)].addr && used == old(used)
        invariant cores == if grew then [core] + old(cores) else old(cores)
        invariant !grew ==> free == old(free) && loopHead == old(loopHead) && NewCore(base, cores, core) && Passed(free, h, i, n)
        invariant grew ==> AllBelow(old(free), n) && Grown(old(free), core, free, loopHead) && free[h].size >= n
        decreases !grew, Ahead(i, h, |free|)
      {
        AtPlace(base, ptr, size, coreHead, free, used, cores, i);
        if size[p] >= n {
          AtPlace(base, ptr, size, coreHead, free, used, cores, h);
          if grew { GrownAlone(old(free), core, free, h, i, n); } else { FirstFits(free, h, i, n); }
          a := Take(p, q, n, i);
          return;
        }
        if p == loopHead {
          PassedAll(free, h, n);
          MoreCore(n, room);
          grew := true;
          p := loopHead;
          h := SomewhereOnList(loopHead, free);
          i := h;
          AtPlace(base, ptr, size, coreHead, free, used, cores, i);
          GrownHasRoom(old(free), core, free, h, n);
        } else {
          AheadStep(i, h, |free|);
          if !grew { PassedStep(free, h, i, n); }
        }
        q, p := p, ptr[p];
        i := Succ(i, |free|);
      }
    }

    /** kmalloc. room is where the system would place a new core. */
    method Malloc(bytes: nat, room: int) returns (a: int)
      requires Valid() && bytes < WORDS && (bytes > 0 ==> NewCore(base, cores, Block(room, CoreUnits(Units(bytes)))))
      modifies this
      ensures Valid()
      ensures bytes == 0 ==> a == 0 && free == old(free) && used == old(used) && cores == old(cores)
      ensures bytes > 0 ==> used == old(used) + [Block(a, Units(bytes))]
      ensures bytes > 0 ==>
        var n, core := Units(bytes), Block(room, CoreUnits(Units(bytes)));
        var blocks, start := if old(loopHead) == 0 then [Block(base, 0)] else old(free), if old(loopHead) == 0 then base else old(loopHead);
        if AllBelow(blocks, n) then cores == [core] + old(cores) && TakenFromCore(blocks, core, n, a, free, loopHead)
        else cores == old(cores) && TakenFirst(blocks, start, n, a, free, loopHead)
    {
      if bytes == 0 {
        return 0;
      }
      hide Units, CoreUnits, Layout, Headers, OnList, NewCore, WholeCores, AllBelow, TakenFirst, TakenFromCore;
      Start();
      ghost var grew, core;
      ghost var blocks, start := free, loopHead;
      a, grew, core := Search(Units(bytes), room);
      if !grew { FirstIsNotBelow(blocks, start, Units(bytes), a, free, loopHead); }
      RunningIsValid();
    }

    /** km_stat, in bytes. */
    method Stat() returns (available: nat, nBlocks: nat, nCores: nat, capacity: nat, largest: nat, panicked: bool)
      requires Valid()
      ensures !panicked
      ensures available == 16 * Total(free) && nBlocks == NonEmpty(free)
      ensures free != [] ==> nBlocks == |free| - 1
      ensures nCores == |cores| && capacity == 16 * Total(cores) && largest == 16 * Largest(cores)
      ensures available + 16 * Total(used) + 16 * nCores == capacity
      ensures capacity % 0x80_0000 == 0 && largest % 0x80_0000 == 0
      ensures forall i :: 0 <= i < |cores| ==> 16 * cores[i].size <= largest
      ensures cores != [] ==> exists i :: 0 <= i < |cores| && 16 * cores[i].size == largest
    {
      available, nBlocks, nCores, capacity, largest, panicked := 0, 0, 0, 0, 0, false;
      if loopHead == 0 {
        return;
      }
      hide Total, NonEmpty, Largest, WholeCores, Headers, FreeList;
      WholeTotals(cores);
      LargestIs(cores);
      NonEmptyIs(base, free, cores);
      available, nBlocks, panicked := StatFree();
      nCores, capacity, largest := StatCores();
    }

    /** The first loop: once round the free blocks. */
    method StatFree() returns (available: nat, nBlocks: nat, panicked: bool)
      requires Running()
      ensures !panicked && available == 16 * Total(free) && nBlocks == NonEmpty(free)
    {
      hide Layout, Headers, Total, NonEmpty, OnList, Counted;
      available, nBlocks, panicked := 0, 0, false;
      ghost var h := SomewhereOnList(loopHead, free);
      ghost var j: nat := 0;
      CountedStart(base, free, used, cores, h);
      var p := loopHead;
      while true
        invariant j <= |free| && Counted(free, h, j, p, available, nBlocks)
        decreases |free| - j
      {
        CountedStep(base, ptr, size, coreHead, free, used, cores, h, j, p, available, nBlocks);
        available := available + size[p] * 16;
        if size[p] != 0 {
          nBlocks := nBlocks + 1;
        }
        if ptr[p] > p && p + size[p] > ptr[p] {
          return available, nBlocks, true;
        }
        if ptr[p] == loopHead {
          return;
        }
        p := ptr[p];
        j := j + 1;
      }
    }

    /** The second loop: along the chain of cores. */
    method StatCores() returns (nCores: nat, capacity: nat, largest: nat)
      requires Running()
      ensures nCores == |cores| && capacity == 16 * Total(cores) && largest == 16 * Largest(cores)
    {
      nCores, capacity, largest := 0, 0, 0;
      var p := coreHead;
      assert cores[0..] == cores;
      while p != 0
        invariant nCores <= |cores| && Chained(ptr, p, cores[nCores..])
        invariant capacity + 16 * Total(cores[nCores..]) == 16 * Total(cores)
        invariant 16 * Largest(cores) == Greater(largest, 16 * Largest(cores[nCores..]))
        decreases |cores| - nCores
      {
        var bytes := size[p] * 16;
        assert cores[nCores..][0] == cores[nCores] && cores[nCores..][1..] == cores[nCores + 1..];
        nCores := nCores + 1;
        capacity := capacity + bytes;
        largest := Greater(largest, bytes);
        p := ptr[p];
      }
    }
  }

  function Greater(a: nat, b: nat): nat {
    if a > b then a else b
  }
}
