/** The headers of the blocks: a circular list of free blocks in address order, and what linking a released
    block into it does. Addresses are counted in units of one header; 0 is the null pointer. The lemmas show
    that the few pointer and size stores of the code leave exactly the list of the new layout. */
module KallocHeaders {
  import opened KallocLayout
  import opened KallocSteps

  // ----- the circular list

  function Succ(i: nat, n: nat): nat {
    if i + 1 < n then i + 1 else 0
  }

  function Pred(i: nat, n: nat): int {
    if i > 0 then i - 1 else n - 1
  }

  /** Every block's pointer leads to the next block, and the last one's to the first. */
  ghost predicate Linked(ptr: map<int, int>, free: seq<Block>) {
    forall i :: 0 <= i < |free| ==> free[i].addr in ptr && ptr[free[i].addr] == free[Succ(i, |free|)].addr
  }

  lemma LinkAt(ptr: map<int, int>, free: seq<Block>, i: nat)
    requires Linked(ptr, free) && i < |free|
    ensures free[i].addr in ptr && ptr[free[i].addr] == free[Succ(i, |free|)].addr
  {
  }

  /** Every block's header holds its size. */
  ghost predicate Stored(size: map<int, nat>, s: seq<Block>) {
    forall i :: 0 <= i < |s| ==> s[i].addr in size && size[s[i].addr] == s[i].size
  }

  /** The chain of cores. */
  ghost predicate Chained(ptr: map<int, int>, head: int, cores: seq<Block>)
    decreases |cores|
  {
    if cores == [] then head == 0
    else head == cores[0].addr && head in ptr && Chained(ptr, ptr[head], cores[1..])
  }

  lemma {:induction false} ChainedFrame(ptr: map<int, int>, ptr': map<int, int>, head: int, cores: seq<Block>)
    requires Chained(ptr, head, cores)
    requires forall i :: 0 <= i < |cores| && cores[i].addr in ptr ==> cores[i].addr in ptr' && ptr'[cores[i].addr] == ptr[cores[i].addr]
    ensures Chained(ptr', head, cores)
    decreases |cores|
  {
    if cores != [] { ChainedFrame(ptr, ptr', ptr[head], cores[1..]); }
  }

  // ----- addresses do not coincide

  lemma NotACore(b: Block, base: int, cores: seq<Block>, j: nat)
    requires CoresApart(base, cores) && j < |cores| && (b == Block(base, 0) || (0 < b.size && Inside(b, cores)))
    ensures b.addr != cores[j].addr
  {
    if b != Block(base, 0) {
      var i :| 0 <= i < |cores| && cores[i].addr < b.addr && End(b) <= End(cores[i]);
      TwoCores(base, cores, i, j);
    }
  }

  /** No two headers are at the same address. */
  lemma HeadersDiffer(base: int, free: seq<Block>, used: seq<Block>, cores: seq<Block>)
    requires Layout(base, free, used, cores)
    ensures forall i, j :: 0 <= i < |free| && 0 <= j < |used| ==> free[i].addr != used[j].addr
    ensures forall i, j :: 0 <= i < |free| && 0 <= j < |cores| ==> free[i].addr != cores[j].addr
    ensures forall i, j :: 0 <= i < |used| && 0 <= j < |cores| ==> used[i].addr != cores[j].addr
    ensures forall i, j :: 0 <= i < |used| && 0 <= j < |used| && i != j ==> used[i].addr != used[j].addr
    ensures forall i, j :: 0 <= i < |cores| && 0 <= j < |cores| && i != j ==> cores[i].addr != cores[j].addr
  {
    forall i, j | 0 <= i < |free| && 0 <= j < |used|
      ensures free[i].addr != used[j].addr
    {
      CanRelease(base, free, used, cores, j);
    }
    forall i, j | 0 <= i < |free| && 0 <= j < |cores|
      ensures free[i].addr != cores[j].addr
    {
      NotACore(free[i], base, cores, j);
    }
    forall i, j | 0 <= i < |used| && 0 <= j < |cores|
      ensures used[i].addr != cores[j].addr
    {
      NotACore(used[i], base, cores, j);
    }
    forall i, j | 0 <= i < |used| && 0 <= j < |used| && i != j
      ensures used[i].addr != used[j].addr
    {
      if i < j { assert Disjoint(used[i], used[j]); } else { assert Disjoint(used[j], used[i]); }
    }
    forall i, j | 0 <= i < |cores| && 0 <= j < |cores| && i != j
      ensures cores[i].addr != cores[j].addr
    {
      TwoCores(base, cores, i, j);
    }
  }

  // ----- what releasing does to the headers

  /** What the code finds in the headers. */
  ghost predicate Seen(ptr: map<int, int>, size: map<int, nat>, p: int, q: int) {
    && p in size && q in size && q in ptr && ptr[q] in size && ptr[q] in ptr
    && q != p && ptr[q] != p
    && !(p + size[p] > ptr[q] >= p) && !(q + size[q] > p >= q)
  }

  function PtrAfter(ptr: map<int, int>, size: map<int, nat>, p: int, q: int): map<int, int>
    requires p in size && q in size && q in ptr && ptr[q] in size && ptr[q] in ptr
  {
    var next := ptr[q];
    var ptr1 := ptr[p := if p + size[p] == next then ptr[next] else next];
    if q + size[q] == p then ptr1[q := ptr1[p]] else ptr1[q := p]
  }

  function SizeAfter(ptr: map<int, int>, size: map<int, nat>, p: int, q: int): map<int, nat>
    requires p in size && q in size && q in ptr && ptr[q] in size && ptr[q] in ptr
  {
    var next := ptr[q];
    var size1 := if p + size[p] == next then size[p := size[p] + size[next]] else size;
    if q + size[q] == p then size1[q := size1[q] + size1[p]] else size1
  }

  /** The block before b in the circular list, seen through the headers. */
  ghost predicate Behind(ptr: map<int, int>, size: map<int, nat>, free: seq<Block>, b: Block, q: int) {
    && Releasable(free, b) && Linked(ptr, free) && Stored(size, free) && b.addr in size && size[b.addr] == b.size
    && free != [] && var k := PlaceFor(free, b.addr); 0 <= Pred(k, |free|) < |free| && q == free[Pred(k, |free|)].addr
  }

  /** What the code finds behind and before the block. */
  lemma BehindSees(ptr: map<int, int>, size: map<int, nat>, free: seq<Block>, b: Block, q: int)
    requires Behind(ptr, size, free, b, q)
    ensures var k, n := PlaceFor(free, b.addr), |free|;
      && q in size && q in ptr && ptr[q] in size && ptr[q] in ptr
      && ptr[q] == free[if k < n then k else 0].addr
      && (b.addr + b.size == ptr[q] <==> TouchesNext(free, b))
      && (q + size[q] == b.addr <==> TouchesPrevious(free, b))
      && !(b.addr + b.size > ptr[q] >= b.addr) && !(q + size[q] > b.addr >= q)
      && q != b.addr && ptr[q] != b.addr
  {
    var k, n := PlaceFor(free, b.addr), |free|;
    PlaceSplits(free, b.addr);
    var i, j := Pred(k, n), if k < n then k else 0;
    assert Succ(i, n) == j;
    Neighbours(free, b, i);
    Neighbours(free, b, j);
    assert free[i].addr in ptr && free[j].addr in ptr;
  }

  lemma BehindSeen(ptr: map<int, int>, size: map<int, nat>, free: seq<Block>, b: Block, q: int)
    requires Behind(ptr, size, free, b, q)
    ensures Seen(ptr, size, b.addr, q)
    ensures q + size[q] == b.addr <==> TouchesPrevious(free, b)
  {
    BehindSees(ptr, size, free, b, q);
  }

  // The release in three steps: the block is put in its place, then merged with the next, then with the previous.

  function PutIn(free: seq<Block>, k: nat, b: Block): seq<Block>
    requires k <= |free|
  {
    free[..k] + [b] + free[k..]
  }

  function Merge(s: seq<Block>, i: nat): seq<Block>
    requires i + 1 < |s|
  {
    s[..i] + [Block(s[i].addr, s[i].size + s[i + 1].size)] + s[i + 2..]
  }

  lemma MergeMiddle(a: seq<Block>, x: Block, y: Block, c: seq<Block>)
    ensures |a| + 1 < |a + [x] + [y] + c|
    ensures Merge(a + [x] + [y] + c, |a|) == a + [Block(x.addr, x.size + y.size)] + c
  {
    var s := a + [x] + [y] + c;
    assert s[..|a|] == a && s[|a| + 2..] == c;
  }

  lemma NextStep(free: seq<Block>, k: nat, b: Block)
    requires k < |free|
    ensures k + 1 < |PutIn(free, k, b)|
    ensures Merge(PutIn(free, k, b), k) == free[..k] + [Block(b.addr, b.size + free[k].size)] + free[k + 1..]
  {
    assert PutIn(free, k, b) == free[..k] + [b] + [free[k]] + free[k + 1..];
    MergeMiddle(free[..k], b, free[k], free[k + 1..]);
  }

  lemma PreviousStep(free: seq<Block>, k: nat, m: Block, after: seq<Block>)
    requires 0 < k <= |free|
    ensures k < |free[..k] + [m] + after|
    ensures Merge(free[..k] + [m] + after, k - 1) == free[..k - 1] + [Block(free[k - 1].addr, free[k - 1].size + m.size)] + after
  {
    assert free[..k] == free[..k - 1] + [free[k - 1]];
    MergeMiddle(free[..k - 1], free[k - 1], m, after);
  }

  /** The list after the first two steps. */
  function Joined(free: seq<Block>, b: Block): seq<Block> {
    var k := PlaceFor(free, b.addr);
    if TouchesNext(free, b) then NextStep(free, k, b); Merge(PutIn(free, k, b), k) else PutIn(free, k, b)
  }

  lemma JoinedIs(free: seq<Block>, b: Block)
    ensures var k := PlaceFor(free, b.addr);
      Joined(free, b) == free[..k] + [WithNext(free, b)] + (if TouchesNext(free, b) then free[k + 1..] else free[k..])
  {
    if TouchesNext(free, b) { NextStep(free, PlaceFor(free, b.addr), b); }
  }

  lemma TouchesAt(free: seq<Block>, b: Block)
    ensures var k := PlaceFor(free, b.addr); (TouchesNext(free, b) ==> k < |free|) && (TouchesPrevious(free, b) ==> 0 < k)
  {
    hide PlaceFor;
  }

  lemma ReleasedInSteps(free: seq<Block>, b: Block)
    ensures var k := PlaceFor(free, b.addr);
      && (TouchesPrevious(free, b) ==> 0 < k < |Joined(free, b)|)
      && Released(free, b) == if TouchesPrevious(free, b) then Merge(Joined(free, b), k - 1) else Joined(free, b)
  {
    hide Merge, PlaceFor, Joined, WithNext, TouchesNext, TouchesPrevious;
    var k := PlaceFor(free, b.addr);
    TouchesAt(free, b);
    var after := if TouchesNext(free, b) then free[k + 1..] else free[k..];
    JoinedIs(free, b);
    if TouchesPrevious(free, b) { PreviousStep(free, k, WithNext(free, b), after); }
  }

  /** No two headers of the list are at the same address. */
  ghost predicate Distinct(s: seq<Block>) {
    forall i, j :: 0 <= i < j < |s| ==> s[i].addr != s[j].addr
  }

  lemma PutInAt(free: seq<Block>, k: nat, b: Block, i: nat)
    requires k <= |free| && i <= |free|
    ensures |PutIn(free, k, b)| == |free| + 1 && PutIn(free, k, b)[i] == if i < k then free[i] else if i == k then b else free[i - 1]
  {
  }

  lemma PutInLinked(ptr: map<int, int>, free: seq<Block>, k: nat, b: Block)
    requires Linked(ptr, free) && Distinct(free) && free != [] && k <= |free|
    requires forall i :: 0 <= i < |free| ==> free[i].addr != b.addr
    ensures var q, next := free[Pred(k, |free|)].addr, free[if k < |free| then k else 0].addr;
      q in ptr && ptr[q] == next && Linked(ptr[b.addr := next][q := b.addr], PutIn(free, k, b))
  {
    var q, next := free[Pred(k, |free|)].addr, free[if k < |free| then k else 0].addr;
    var ptr', s := ptr[b.addr := next][q := b.addr], PutIn(free, k, b);
    assert Succ(Pred(k, |free|), |free|) == if k < |free| then k else 0;
    PutInAt(free, k, b, 0);
    hide PutIn;
    forall i | 0 <= i < |s|
      ensures s[i].addr in ptr' && ptr'[s[i].addr] == s[Succ(i, |s|)].addr
    {
      PutInLink(ptr, free, k, b, i);
    }
  }

  lemma PutInLink(ptr: map<int, int>, free: seq<Block>, k: nat, b: Block, i: nat)
    requires Linked(ptr, free) && Distinct(free) && free != [] && k <= |free| && i <= |free|
    requires forall i :: 0 <= i < |free| ==> free[i].addr != b.addr
    ensures var q, next := free[Pred(k, |free|)].addr, free[if k < |free| then k else 0].addr;
      var ptr', s := ptr[b.addr := next][q := b.addr], PutIn(free, k, b);
      |s| == |free| + 1 && s[i].addr in ptr' && ptr'[s[i].addr] == s[Succ(i, |s|)].addr
  {
    hide Linked, Distinct, PutIn;
    var n := |free|;
    PutInAt(free, k, b, i);
    PutInAt(free, k, b, Succ(i, n + 1));
    assert free[Pred(k, n)].addr != b.addr;
    if i != k && i != Pred(k, n + 1) { OldLink(ptr, free, k, i); }
  }

  /** Links elsewhere in the list skip no place. */
  lemma OldLink(ptr: map<int, int>, free: seq<Block>, k: nat, i: nat)
    requires Linked(ptr, free) && Distinct(free) && free != [] && k <= |free| && i <= |free|
    requires i != k && i != Pred(k, |free| + 1)
    ensures var n := |free|; var i' := if i < k then i else i - 1;
      && i' < n && free[i'].addr in ptr && free[i'].addr != free[Pred(k, n)].addr
      && var j := Succ(i, n + 1); j != k && ptr[free[i'].addr] == free[if j < k then j else j - 1].addr
  {
    hide Linked, Distinct;
    var n := |free|;
    var i', j := if i < k then i else i - 1, Succ(i, n + 1);
    TwoHeaders(free, i', Pred(k, n));
    LinkAt(ptr, free, i');
    assert Succ(i', n) == if j < k then j else j - 1;
  }

  lemma TwoHeaders(s: seq<Block>, i: nat, j: nat)
    requires Distinct(s) && i < |s| && j < |s|
    ensures s[i].addr == s[j].addr <==> i == j
  {
  }

  lemma PutInDistinct(free: seq<Block>, k: nat, b: Block)
    requires Distinct(free) && k <= |free|
    requires forall i :: 0 <= i < |free| ==> free[i].addr != b.addr
    ensures Distinct(PutIn(free, k, b))
  {
    var s := PutIn(free, k, b);
    forall i, j | 0 <= i < j < |s|
      ensures s[i].addr != s[j].addr
    {
      PutInAt(free, k, b, i);
      PutInAt(free, k, b, j);
    }
  }

  lemma MergeAt(s: seq<Block>, i: nat, j: nat)
    requires i + 1 < |s| && j < |s| - 1
    ensures |Merge(s, i)| == |s| - 1 && Merge(s, i)[j].addr == s[if j <= i then j else j + 1].addr
    ensures j == i || Merge(s, i)[j] == s[if j <= i then j else j + 1]
  {
  }

  lemma MergeLinked(ptr: map<int, int>, s: seq<Block>, i: nat)
    requires Linked(ptr, s) && Distinct(s) && i + 1 < |s|
    ensures s[i + 1].addr in ptr && Linked(ptr[s[i].addr := ptr[s[i + 1].addr]], Merge(s, i))
  {
    var r, ptr' := Merge(s, i), ptr[s[i].addr := ptr[s[i + 1].addr]];
    MergeAt(s, i, 0);
    hide Merge;
    forall j | 0 <= j < |r|
      ensures r[j].addr in ptr' && ptr'[r[j].addr] == r[Succ(j, |r|)].addr
    {
      MergeLink(ptr, s, i, j);
    }
  }

  lemma MergeLink(ptr: map<int, int>, s: seq<Block>, i: nat, j: nat)
    requires Linked(ptr, s) && Distinct(s) && i + 1 < |s| && j < |s| - 1
    ensures var r, ptr' := Merge(s, i), ptr[s[i].addr := ptr[s[i + 1].addr]];
      |r| == |s| - 1 && r[j].addr in ptr' && ptr'[r[j].addr] == r[Succ(j, |r|)].addr
  {
    hide Merge, Linked, Distinct;
    MergeAt(s, i, j);
    MergeAt(s, i, Succ(j, |s| - 1));
    var j' := if j < i then j else j + 1;
    LinkAt(ptr, s, i);
    LinkAt(ptr, s, j');
    TwoHeaders(s, j', i);
  }

  lemma MergeDistinct(s: seq<Block>, i: nat)
    requires Distinct(s) && i + 1 < |s|
    ensures Distinct(Merge(s, i))
  {
    var r := Merge(s, i);
    MergeAt(s, i, 0);
    forall j, l | 0 <= j < l < |r|
      ensures r[j].addr != r[l].addr
    {
      MergeAt(s, i, j);
      MergeAt(s, i, l);
    }
  }

  lemma PutInStored(size: map<int, nat>, free: seq<Block>, k: nat, b: Block)
    requires Stored(size, free) && k <= |free| && b.addr in size && size[b.addr] == b.size
    ensures Stored(size, PutIn(free, k, b))
  {
  }

  lemma MergeStored(size: map<int, nat>, s: seq<Block>, i: nat)
    requires Stored(size, s) && Distinct(s) && i + 1 < |s|
    ensures s[i].addr in size && s[i + 1].addr in size
    ensures Stored(size[s[i].addr := size[s[i].addr] + size[s[i + 1].addr]], Merge(s, i))
  {
    var r := Merge(s, i);
    assert forall j :: 0 <= j < |r| && j != i ==> r[j] == s[if j < i then j else j + 1];
  }

  lemma JoinedPlaces(free: seq<Block>, b: Block)
    ensures var k := PlaceFor(free, b.addr);
      && k < |Joined(free, b)| && Joined(free, b)[k].addr == b.addr
      && (k > 0 ==> Joined(free, b)[k - 1] == free[k - 1])
      && k < |PutIn(free, k, b)| && PutIn(free, k, b)[k] == b
      && (TouchesNext(free, b) ==> k + 1 < |PutIn(free, k, b)| && PutIn(free, k, b)[k + 1] == free[k])
  {
    JoinedIs(free, b);
  }

  lemma BehindDistinct(ptr: map<int, int>, size: map<int, nat>, free: seq<Block>, b: Block, q: int)
    requires Behind(ptr, size, free, b, q)
    ensures Distinct(free) && (forall i :: 0 <= i < |free| ==> free[i].addr != b.addr)
    ensures Linked(ptr, free) && Stored(size, free) && b.addr in size && size[b.addr] == b.size && free != []
    ensures q == free[Pred(PlaceFor(free, b.addr), |free|)].addr
    ensures |free| > 1 ==> ptr[q] != q
  {
    BehindSees(ptr, size, free, b, q);
  }

  /** The list as it is linked after the first two steps. */
  lemma JoinedLinks(ptr: map<int, int>, size: map<int, nat>, free: seq<Block>, b: Block, q: int)
    requires Behind(ptr, size, free, b, q) && (|free| == 1 ==> !TouchesNext(free, b))
    ensures q in size && q in ptr && ptr[q] in size && ptr[q] in ptr
    ensures var p, next := b.addr, ptr[q];
      Linked(ptr[p := if TouchesNext(free, b) then ptr[next] else next][q := p], Joined(free, b)) && Distinct(Joined(free, b))
  {
    hide Behind, PutIn, Merge, Linked, Stored, Distinct, PlaceFor, TouchesNext, Releasable;
    BehindSees(ptr, size, free, b, q);
    BehindDistinct(ptr, size, free, b, q);
    JoinedPlaces(free, b);
    var p, next, k := b.addr, ptr[q], PlaceFor(free, b.addr);
    PutInLinked(ptr, free, k, b);
    PutInDistinct(free, k, b);
    if TouchesNext(free, b) {
      var ptr1 := ptr[p := next][q := p];
      assert next == PutIn(free, k, b)[k + 1].addr by { NextIs(ptr, size, free, b, q); }
      MergeLinked(ptr1, PutIn(free, k, b), k);
      MergeDistinct(PutIn(free, k, b), k);
      UpdateTwice(ptr, p, next, ptr[next], q, p);
    }
  }

  lemma UpdateTwice(m: map<int, int>, p: int, x: int, y: int, q: int, z: int)
    requires p != q
    ensures m[p := x][q := z][p := y] == m[p := y][q := z]
    ensures m[p := x][q := z][q := y] == m[p := x][q := y]
  {
  }

  lemma NextIs(ptr: map<int, int>, size: map<int, nat>, free: seq<Block>, b: Block, q: int)
    requires Behind(ptr, size, free, b, q) && TouchesNext(free, b)
    ensures q in ptr && ptr[q] == PutIn(free, PlaceFor(free, b.addr), b)[PlaceFor(free, b.addr) + 1].addr
    ensures |free| > 1 ==> ptr[q] != q
  {
    BehindSees(ptr, size, free, b, q);
    JoinedPlaces(free, b);
  }

  /** The sizes after the first two steps. */
  lemma JoinedSizes(ptr: map<int, int>, size: map<int, nat>, free: seq<Block>, b: Block, q: int)
    requires Behind(ptr, size, free, b, q)
    ensures q in size && q in ptr && ptr[q] in size && ptr[q] in ptr
    ensures var p, next := b.addr, ptr[q];
      Stored(if TouchesNext(free, b) then size[p := size[p] + size[next]] else size, Joined(free, b)) && Distinct(Joined(free, b))
  {
    hide Behind, PutIn, Merge, Linked, Stored, Distinct, PlaceFor, TouchesNext, Releasable;
    BehindSees(ptr, size, free, b, q);
    BehindDistinct(ptr, size, free, b, q);
    JoinedPlaces(free, b);
    var k := PlaceFor(free, b.addr);
    PutInDistinct(free, k, b);
    PutInStored(size, free, k, b);
    if TouchesNext(free, b) {
      NextIs(ptr, size, free, b, q);
      MergeStored(size, PutIn(free, k, b), k);
      MergeDistinct(PutIn(free, k, b), k);
    }
  }

  lemma PreviousIs(ptr: map<int, int>, size: map<int, nat>, free: seq<Block>, b: Block, q: int)
    requires Behind(ptr, size, free, b, q) && TouchesPrevious(free, b)
    ensures var k := PlaceFor(free, b.addr);
      && 0 < k < |Joined(free, b)| && q == Joined(free, b)[k - 1].addr && b.addr == Joined(free, b)[k].addr && q != b.addr
  {
    BehindSees(ptr, size, free, b, q);
    JoinedPlaces(free, b);
  }

  /** After the block is linked in, the headers are those of the released list. */
  lemma LinksAfter(ptr: map<int, int>, size: map<int, nat>, free: seq<Block>, b: Block, q: int)
    requires Behind(ptr, size, free, b, q) && (|free| == 1 ==> !TouchesNext(free, b))
    ensures q in size && q in ptr && ptr[q] in size && ptr[q] in ptr
    ensures Linked(PtrAfter(ptr, size, b.addr, q), Released(free, b))
  {
    hide Behind, PutIn, Merge, Linked, Stored, Distinct, PlaceFor, TouchesNext, TouchesPrevious, Releasable, Released, Joined;
    BehindSees(ptr, size, free, b, q);
    BehindDistinct(ptr, size, free, b, q);
    ReleasedInSteps(free, b);
    JoinedLinks(ptr, size, free, b, q);
    if TouchesPrevious(free, b) {
      var p, next := b.addr, ptr[q];
      var x := if TouchesNext(free, b) then ptr[next] else next;
      PreviousIs(ptr, size, free, b, q);
      MergeLinked(ptr[p := x][q := p], Joined(free, b), PlaceFor(free, b.addr) - 1);
      UpdateTwice(ptr, p, x, x, q, p);
    }
  }

  lemma SizesAfter(ptr: map<int, int>, size: map<int, nat>, free: seq<Block>, b: Block, q: int)
    requires Behind(ptr, size, free, b, q)
    ensures q in size && q in ptr && ptr[q] in size && ptr[q] in ptr
    ensures Stored(SizeAfter(ptr, size, b.addr, q), Released(free, b))
  {
    hide Behind, PutIn, Merge, Linked, Stored, Distinct, PlaceFor, TouchesNext, TouchesPrevious, Releasable, Released, Joined;
    BehindSees(ptr, size, free, b, q);
    BehindDistinct(ptr, size, free, b, q);
    ReleasedInSteps(free, b);
    JoinedSizes(ptr, size, free, b, q);
    if TouchesPrevious(free, b) {
      var size2 := if TouchesNext(free, b) then size[b.addr := size[b.addr] + size[ptr[q]]] else size;
      PreviousIs(ptr, size, free, b, q);
      MergeStored(size2, Joined(free, b), PlaceFor(free, b.addr) - 1);
    }
  }

  // ----- finding the place

  /** The steps from place i to place t in a circle of n. */
  function Ahead(i: nat, t: nat, n: nat): int {
    if i <= t then t - i else t - i + n
  }

  lemma AheadStep(i: nat, t: nat, n: nat)
    requires i < n && t < n && i != t
    ensures Succ(i, n) < n && 0 <= Ahead(Succ(i, n), t, n) == Ahead(i, t, n) - 1
  {
  }

  /** The test of the search: true between two neighbours in order, or at the wrap of the circle. */
  predicate Stops(ptr: map<int, int>, q: int, p: int)
    requires q in ptr
  {
    (p > q && p < ptr[q]) || (q >= ptr[q] && (p > q || p < ptr[q]))
  }

  /** It is true at exactly one block, the one behind the place of b. */
  lemma StopsBehind(ptr: map<int, int>, free: seq<Block>, b: Block, i: nat)
    requires Releasable(free, b) && Linked(ptr, free) && i < |free|
    ensures free[i].addr in ptr && ptr[free[i].addr] == free[Succ(i, |free|)].addr
    ensures Stops(ptr, free[i].addr, b.addr) <==> i == Pred(PlaceFor(free, b.addr), |free|)
  {
    PlaceSplits(free, b.addr);
    var j := Succ(i, |free|);
    assert i < j ==> free[i].addr < free[j].addr;
    assert j < i ==> free[j].addr < free[i].addr;
  }

  // ----- other headers

  /** Only the headers at p and q are written. */
  lemma HeadersElsewhere(ptr: map<int, int>, size: map<int, nat>, p: int, q: int, s: seq<Block>)
    requires p in size && q in size && q in ptr && ptr[q] in size && ptr[q] in ptr
    requires forall i :: 0 <= i < |s| ==> s[i].addr != p && s[i].addr != q
    ensures Stored(size, s) ==> Stored(SizeAfter(ptr, size, p, q), s)
    ensures forall head :: Chained(ptr, head, s) ==> Chained(PtrAfter(ptr, size, p, q), head, s)
  {
    var ptr' := PtrAfter(ptr, size, p, q);
    forall head | Chained(ptr, head, s)
      ensures Chained(ptr', head, s)
    {
      ChainedFrame(ptr, ptr', head, s);
    }
  }

  // ----- all headers together

  /** The headers in memory are those of the blocks. */
  ghost predicate Headers(ptr: map<int, int>, size: map<int, nat>, coreHead: int, free: seq<Block>, used: seq<Block>, cores: seq<Block>) {
    && Linked(ptr, free) && Stored(size, free) && Stored(size, used) && Stored(size, cores)
    && Chained(ptr, coreHead, cores)
  }

  /** a is the address of a block of the list. */
  ghost predicate OnList(a: int, free: seq<Block>) {
    exists i :: 0 <= i < |free| && a == free[i].addr
  }

  lemma BehindOnList(ptr: map<int, int>, size: map<int, nat>, free: seq<Block>, b: Block, q: int)
    requires Behind(ptr, size, free, b, q)
    ensures OnList(q, free)
  {
  }

  lemma StoredWithout(size: map<int, nat>, s: seq<Block>, j: nat)
    requires Stored(size, s) && j < |s|
    ensures Stored(size, Without(s, j))
  {
    WithoutIs(s, j);
  }

  lemma OthersApart(base: int, free: seq<Block>, used: seq<Block>, cores: seq<Block>, j: nat, q: int)
    requires Layout(base, free, used, cores) && j < |used| && OnList(q, free)
    ensures var p, s := used[j].addr, Without(used, j);
      && (forall i :: 0 <= i < |s| ==> s[i].addr != p && s[i].addr != q)
      && (forall i :: 0 <= i < |cores| ==> cores[i].addr != p && cores[i].addr != q)
  {
    HeadersDiffer(base, free, used, cores);
    WithoutIs(used, j);
  }

  /** Releasing an allocated block leaves headers that are those of the new blocks. */
  lemma ReleaseHeaders(base: int, ptr: map<int, int>, size: map<int, nat>, coreHead: int,
                       free: seq<Block>, used: seq<Block>, cores: seq<Block>, j: nat, q: int)
    requires Layout(base, free, used, cores) && Headers(ptr, size, coreHead, free, used, cores)
    requires j < |used| && Behind(ptr, size, free, used[j], q)
    ensures var p := used[j].addr;
      && Seen(ptr, size, p, q)
      && Headers(PtrAfter(ptr, size, p, q), SizeAfter(ptr, size, p, q), coreHead, Released(free, used[j]), Without(used, j), cores)
    ensures var r, at := Released(free, used[j]), At(free, used[j]);
      0 <= at < |r| && r[at].addr == if q + size[q] == used[j].addr then q else used[j].addr
  {
    var b := used[j];
    BehindSeen(ptr, size, free, b, q);
    BehindOnList(ptr, size, free, b, q);
    NotOnlyBase(base, free, used, cores, j);
    OthersApart(base, free, used, cores, j, q);
    StoredWithout(size, used, j);
    MergedAddress(ptr, size, free, b, q);
    hide Layout, Linked, Stored, Chained, Behind, PtrAfter, SizeAfter, Released, Without, At, OnList, TouchesNext, TouchesPrevious;
    LinksAfter(ptr, size, free, b, q);
    SizesAfter(ptr, size, free, b, q);
    HeadersElsewhere(ptr, size, b.addr, q, Without(used, j));
    HeadersElsewhere(ptr, size, b.addr, q, cores);
  }

  lemma MergedAddress(ptr: map<int, int>, size: map<int, nat>, free: seq<Block>, b: Block, q: int)
    requires Behind(ptr, size, free, b, q)
    ensures q in size
    ensures var r, at := Released(free, b), At(free, b);
      0 <= at < |r| && r[at].addr == if q + size[q] == b.addr then q else b.addr
  {
    BehindSeen(ptr, size, free, b, q);
    ReleasedParts(free, b);
  }

  /** If the base block is the only one in the list, nothing touches it. */
  lemma NotOnlyBase(base: int, free: seq<Block>, used: seq<Block>, cores: seq<Block>, j: nat)
    requires Layout(base, free, used, cores) && j < |used|
    ensures |free| == 1 ==> !TouchesNext(free, used[j])
  {
    BaseTouchesNothing(used[j], base, cores);
  }

  lemma BaseHeader(base: int, size: map<int, nat>, free: seq<Block>, used: seq<Block>, cores: seq<Block>)
    requires Layout(base, free, used, cores) && Stored(size, free)
    ensures base in size && size[base] == 0
  {
    var i :| 0 <= i < |free| && free[i] == Block(base, 0);
    assert free[i].addr == base;
  }

  /** No free block is at address 0. */
  lemma OnListIsNotNull(base: int, free: seq<Block>, used: seq<Block>, cores: seq<Block>, a: int)
    requires Layout(base, free, used, cores) && OnList(a, free)
    ensures a > 0
  {
    var i :| 0 <= i < |free| && a == free[i].addr;
    if free[i] != Block(base, 0) {
      var j :| 0 <= j < |cores| && cores[j].addr < free[i].addr && End(free[i]) <= End(cores[j]);
    }
  }

  // ----- handing out a block

  lemma FreeDistinct(base: int, free: seq<Block>, cores: seq<Block>)
    requires FreeList(base, free, cores)
    ensures Distinct(free)
  {
  }

  /** A block that can serve a request is not the base block, so it is not alone in the list. */
  lemma NotAlone(base: int, free: seq<Block>, cores: seq<Block>, i: nat)
    requires FreeList(base, free, cores) && i < |free| && 0 < free[i].size
    ensures |free| > 1 && free[Pred(i, |free|)].addr != free[i].addr
  {
    var k :| 0 <= k < |free| && free[k] == Block(base, 0);
    assert k != i;
    FreeDistinct(base, free, cores);
    var j := Pred(i, |free|);
    assert j != i;
  }

  lemma WithoutLinked(ptr: map<int, int>, s: seq<Block>, i: nat)
    requires Linked(ptr, s) && Distinct(s) && i < |s| && |s| > 1
    ensures s[i].addr in ptr && Linked(ptr[s[Pred(i, |s|)].addr := ptr[s[i].addr]], Without(s, i))
  {
    hide Without, Distinct;
    WithoutIs(s, i);
    LinkAt(ptr, s, i);
    var r, ptr' := Without(s, i), ptr[s[Pred(i, |s|)].addr := ptr[s[i].addr]];
    forall j | 0 <= j < |r|
      ensures r[j].addr in ptr' && ptr'[r[j].addr] == r[Succ(j, |r|)].addr
    {
      WithoutLink(ptr, s, i, j);
    }
  }

  lemma WithoutLink(ptr: map<int, int>, s: seq<Block>, i: nat, j: nat)
    requires Linked(ptr, s) && Distinct(s) && i < |s| && j < |s| - 1
    ensures s[i].addr in ptr
    ensures var j', ptr' := if j < i then j else j + 1, ptr[s[Pred(i, |s|)].addr := ptr[s[i].addr]];
      var l := Succ(j, |s| - 1);
      s[j'].addr in ptr' && ptr'[s[j'].addr] == s[if l < i then l else l + 1].addr
  {
    hide Linked, Distinct;
    var j' := if j < i then j else j + 1;
    LinkAt(ptr, s, i);
    LinkAt(ptr, s, j');
    TwoHeaders(s, j', Pred(i, |s|));
  }

  lemma LayoutFree(base: int, free: seq<Block>, used: seq<Block>, cores: seq<Block>)
    requires Layout(base, free, used, cores)
    ensures FreeList(base, free, cores) && Distinct(free)
  {
    FreeDistinct(base, free, cores);
  }

  lemma StoredAppend(size: map<int, nat>, s: seq<Block>, b: Block)
    requires Stored(size, s) && b.addr in size && size[b.addr] == b.size
    ensures Stored(size, s + [b])
  {
  }

  lemma ChainElsewhere(base: int, ptr: map<int, int>, head: int, free: seq<Block>, used: seq<Block>, cores: seq<Block>, j: nat, x: int)
    requires Layout(base, free, used, cores) && Chained(ptr, head, cores) && j < |free|
    ensures Chained(ptr[free[j].addr := x], head, cores)
  {
    HeadersDiffer(base, free, used, cores);
    hide Layout;
    ChainedFrame(ptr, ptr[free[j].addr := x], head, cores);
  }

  lemma WithoutOnList(free: seq<Block>, i: nat, j: nat)
    requires i < |free| && j < |free| && i != j
    ensures OnList(free[j].addr, Without(free, i))
  {
    WithoutIs(free, i);
    assert Without(free, i)[if j < i then j else j - 1] == free[j];
  }

  /** The headers when a block is handed out whole. */
  lemma WholeHeaders(base: int, ptr: map<int, int>, size: map<int, nat>, coreHead: int,
                     free: seq<Block>, used: seq<Block>, cores: seq<Block>, i: nat)
    requires i < |free| && 0 < free[i].size
    requires Layout(base, free, used, cores) && Headers(ptr, size, coreHead, free, used, cores)
    ensures free[i].addr in ptr && 0 <= Pred(i, |free|) < |free|
    ensures var q := free[Pred(i, |free|)].addr;
      Headers(ptr[q := ptr[free[i].addr]], size, coreHead, Without(free, i), used + [free[i]], cores)
      && OnList(q, Without(free, i))
  {
    LayoutFree(base, free, used, cores);
    NotAlone(base, free, cores, i);
    assert free[i].addr in ptr && free[i].addr in size && size[free[i].addr] == free[i].size;
    hide Layout, FreeList, Linked, Stored, Chained, Distinct, OnList, Without;
    var j := Pred(i, |free|);
    assert j != i;
    WithoutLinked(ptr, free, i);
    StoredWithout(size, free, i);
    StoredAppend(size, used, free[i]);
    ChainElsewhere(base, ptr, coreHead, free, used, cores, j, ptr[free[i].addr]);
    WithoutOnList(free, i, j);
  }

  /** Two sizes written. */
  function TwoSizes(size: map<int, nat>, p: int, x: nat, a: int, y: nat): map<int, nat> {
    size[p := x][a := y]
  }

  lemma StoredElsewhere(size: map<int, nat>, s: seq<Block>, p: int, x: nat, a: int, y: nat)
    requires Stored(size, s) && forall i :: 0 <= i < |s| ==> s[i].addr != p && s[i].addr != a
    ensures Stored(TwoSizes(size, p, x, a, y), s)
  {
  }

  lemma PieceElsewhere(base: int, free: seq<Block>, used: seq<Block>, cores: seq<Block>, i: nat, n: nat)
    requires i < |free| && 0 < n < free[i].size
    requires Layout(base, free, used, cores)
    ensures var p, a := free[i].addr, Piece(free, i, n).addr;
      && (forall j :: 0 <= j < |used| ==> used[j].addr != p && used[j].addr != a)
      && (forall j :: 0 <= j < |cores| ==> cores[j].addr != p && cores[j].addr != a)
      && (forall j :: 0 <= j < |free| ==> free[j].addr != a)
  {
    LayoutTaken(base, free, used, cores, i, n);
    var t, used' := Taken(free, i, n), used + [Piece(free, i, n)];
    HeadersDiffer(base, free, used, cores);
    HeadersDiffer(base, t, used', cores);
    hide Layout;
    assert used'[|used|] == Piece(free, i, n);
    forall j | 0 <= j < |free|
      ensures free[j].addr != Piece(free, i, n).addr
    {
      assert t[j].addr == free[j].addr;
    }
    forall j | 0 <= j < |used|
      ensures used[j].addr != Piece(free, i, n).addr
    {
      assert used'[j] == used[j];
    }
  }

  lemma StoredPart(size: map<int, nat>, free: seq<Block>, i: nat, n: nat)
    requires i < |free| && 0 < n < free[i].size && Stored(size, free) && Distinct(free)
    requires forall j :: 0 <= j < |free| ==> free[j].addr != Piece(free, i, n).addr
    ensures Stored(TwoSizes(size, free[i].addr, free[i].size - n, Piece(free, i, n).addr, n), Taken(free, i, n))
  {
  }

  lemma LinkedPart(ptr: map<int, int>, free: seq<Block>, i: nat, n: nat)
    requires i < |free| && 0 < n < free[i].size && Linked(ptr, free)
    ensures Linked(ptr, Taken(free, i, n))
  {
    var t := Taken(free, i, n);
    assert forall j :: 0 <= j < |free| ==> t[j].addr == free[j].addr;
  }

  /** The headers when the end of a block is handed out. */
  lemma PartHeaders(base: int, ptr: map<int, int>, size: map<int, nat>, coreHead: int,
                    free: seq<Block>, used: seq<Block>, cores: seq<Block>, i: nat, n: nat)
    requires i < |free| && 0 < n < free[i].size
    requires Layout(base, free, used, cores) && Headers(ptr, size, coreHead, free, used, cores)
    ensures 0 <= Pred(i, |free|) < |free|
    ensures var p, a, q := free[i].addr, Piece(free, i, n).addr, free[Pred(i, |free|)].addr;
      Headers(ptr, TwoSizes(size, p, free[i].size - n, a, n), coreHead, Taken(free, i, n), used + [Piece(free, i, n)], cores)
      && OnList(q, Taken(free, i, n))
  {
    hide Layout, FreeList, Linked, Stored, Chained, Distinct, OnList, Taken;
    LayoutFree(base, free, used, cores);
    PieceElsewhere(base, free, used, cores, i, n);
    var p, b := free[i].addr, Piece(free, i, n);
    StoredPart(size, free, i, n);
    LinkedPart(ptr, free, i, n);
    StoredElsewhere(size, used, p, free[i].size - n, b.addr, n);
    StoredElsewhere(size, cores, p, free[i].size - n, b.addr, n);
    StoredAppend(TwoSizes(size, p, free[i].size - n, b.addr, n), used, b);
    TakenOnList(free, i, n, Pred(i, |free|));
  }

  lemma TakenOnList(free: seq<Block>, i: nat, n: nat, j: nat)
    requires i < |free| && 0 < n < free[i].size && j < |free|
    ensures OnList(free[j].addr, Taken(free, i, n))
  {
    assert Taken(free, i, n)[j].addr == free[j].addr;
  }

  // ----- a new core

  lemma NewElsewhere(base: int, free: seq<Block>, used: seq<Block>, cores: seq<Block>, c: Block)
    requires Layout(base, free, used, cores) && NewCore(base, cores, c)
    ensures forall j :: 0 <= j < |free| ==> free[j].addr != c.addr && free[j].addr != Body(c).addr
    ensures forall j :: 0 <= j < |used| ==> used[j].addr != c.addr && used[j].addr != Body(c).addr
    ensures forall j :: 0 <= j < |cores| ==> cores[j].addr != c.addr && cores[j].addr != Body(c).addr
  {
    LayoutExtended(base, free, used, cores, c);
    var used', cores' := used + [Body(c)], [c] + cores;
    HeadersDiffer(base, free, used', cores');
    hide Layout, NewCore;
    assert used'[|used|] == Body(c) && cores'[0] == c;
    assert forall j :: 0 <= j < |used| ==> used'[j] == used[j];
    forall j | 0 <= j < |cores|
      ensures cores[j].addr != c.addr && cores[j].addr != Body(c).addr
    {
      assert cores'[j + 1] == cores[j];
    }
  }

  lemma LinkedElsewhere(ptr: map<int, int>, free: seq<Block>, a: int, x: int)
    requires Linked(ptr, free) && forall j :: 0 <= j < |free| ==> free[j].addr != a
    ensures Linked(ptr[a := x], free)
  {
  }

  lemma StoredFront(size: map<int, nat>, s: seq<Block>, b: Block)
    requires Stored(size, s) && b.addr in size && size[b.addr] == b.size
    ensures Stored(size, [b] + s)
  {
  }

  lemma ChainedFront(ptr: map<int, int>, head: int, cores: seq<Block>, c: Block)
    requires Chained(ptr, head, cores) && forall j :: 0 <= j < |cores| ==> cores[j].addr != c.addr
    ensures Chained(ptr[c.addr := head], c.addr, [c] + cores)
  {
    ChainedFrame(ptr, ptr[c.addr := head], head, cores);
    assert ([c] + cores)[1..] == cores;
  }

  /** The headers when a core is chained in and its body marked as an allocated block. */
  lemma CoreHeaders(base: int, ptr: map<int, int>, size: map<int, nat>, coreHead: int,
                    free: seq<Block>, used: seq<Block>, cores: seq<Block>, c: Block)
    requires NewCore(base, cores, c)
    requires Layout(base, free, used, cores) && Headers(ptr, size, coreHead, free, used, cores)
    ensures Headers(ptr[c.addr := coreHead], TwoSizes(size, c.addr, c.size, c.addr + 1, c.size - 1), c.addr,
                    free, used + [Body(c)], [c] + cores)
  {
    hide Layout, Linked, Stored, Chained;
    NewElsewhere(base, free, used, cores, c);
    hide NewCore;
    var size' := TwoSizes(size, c.addr, c.size, c.addr + 1, c.size - 1);
    LinkedElsewhere(ptr, free, c.addr, coreHead);
    StoredElsewhere(size, free, c.addr, c.size, c.addr + 1, c.size - 1);
    StoredElsewhere(size, used, c.addr, c.size, c.addr + 1, c.size - 1);
    StoredElsewhere(size, cores, c.addr, c.size, c.addr + 1, c.size - 1);
    StoredAppend(size', used, Body(c));
    StoredFront(size', cores, c);
    ChainedFront(ptr, coreHead, cores, c);
  }

  // ----- searching for a block that is large enough

  /** The search from behind place h, now at place i, has passed only blocks that are too small. */
  ghost predicate Passed(free: seq<Block>, h: nat, i: nat, n: nat) {
    forall m :: 0 <= m < |free| && Ahead(m, h, |free|) > Ahead(i, h, |free|) ==> free[m].size < n
  }

  ghost predicate AllBelow(free: seq<Block>, n: nat) {
    forall m :: 0 <= m < |free| ==> free[m].size < n
  }

  lemma PassedStart(free: seq<Block>, h: nat, n: nat)
    requires h < |free|
    ensures Succ(h, |free|) < |free| && Passed(free, h, Succ(h, |free|), n)
  {
  }

  lemma PassedStep(free: seq<Block>, h: nat, i: nat, n: nat)
    requires h < |free| && i < |free| && i != h && Passed(free, h, i, n) && free[i].size < n
    ensures Succ(i, |free|) < |free| && Passed(free, h, Succ(i, |free|), n)
  {
    AheadStep(i, h, |free|);
  }

  lemma PassedAll(free: seq<Block>, h: nat, n: nat)
    requires h < |free| && Passed(free, h, h, n) && free[h].size < n
    ensures AllBelow(free, n)
  {
  }

  /** The free blocks once round, from the one behind place h. */
  function Circle(free: seq<Block>, h: nat): seq<Block>
    requires h < |free|
  {
    free[h + 1..] + free[..h + 1]
  }

  /** Block i, number k of the circle from behind h, is the first of at least n units. */
  ghost predicate FirstFit(free: seq<Block>, h: nat, k: nat, i: nat, n: nat) {
    && h < |free| && k < |free| && i < |free| && Circle(free, h)[k] == free[i]
    && n <= free[i].size && forall j :: 0 <= j < k ==> Circle(free, h)[j].size < n
  }

  /** The last n units of the first block that is large enough, from behind the address start on, are handed out at a,
      after is what is left of the free blocks, and the list now starts at the block before. */
  ghost predicate TakenFirst(free: seq<Block>, start: int, n: nat, a: int, after: seq<Block>, head: int) {
    exists h: nat, k: nat, i: nat :: FirstFit(free, h, k, i, n)
      && free[h].addr == start && head == (if k == 0 then start else Circle(free, h)[k - 1].addr)
      && a == End(free[i]) - n && after == if free[i].size == n then Without(free, i) else free[i := Block(free[i].addr, free[i].size - n)]
  }

  lemma FirstIsNotBelow(free: seq<Block>, start: int, n: nat, a: int, after: seq<Block>, head: int)
    requires TakenFirst(free, start, n, a, after, head)
    ensures !AllBelow(free, n)
  {
  }

  lemma FirstFits(free: seq<Block>, h: nat, i: nat, n: nat)
    requires h < |free| && i < |free| && Passed(free, h, i, n) && n <= free[i].size
    ensures TakenFirst(free, free[h].addr, n, Piece(free, i, n).addr, Taken(free, i, n), free[Pred(i, |free|)].addr)
  {
    var k := if h < i then i - h - 1 else i - h - 1 + |free|;
    var c := Circle(free, h);
    assert c[k] == free[i];
    forall j | 0 <= j < k
      ensures c[j].size < n
    {
      var m := if h + 1 + j < |free| then h + 1 + j else h + 1 + j - |free|;
      assert c[j] == free[m] && Ahead(m, h, |free|) > Ahead(i, h, |free|);
    }
    assert FirstFit(free, h, k, i, n);
    assert k > 0 ==> c[k - 1] == free[Pred(i, |free|)];
  }

  /** The body of the new core has been released, and the list now starts at the block that holds it. */
  ghost predicate Grown(free: seq<Block>, core: Block, after: seq<Block>, head: int) {
    && 1 < core.size && Releasable(free, Body(core)) && after == Released(free, Body(core))
    && 0 <= At(free, Body(core)) < |after| && head == after[At(free, Body(core))].addr
  }

  /** The last n units of that block are handed out at a, after is what is left of the free blocks, and the list now
      starts at the block before. */
  ghost predicate TakenFromCore(free: seq<Block>, core: Block, n: nat, a: int, after: seq<Block>, head: int) {
    && 1 < core.size
    && var r, i := Released(free, Body(core)), At(free, Body(core));
       && 0 <= i < |r| && r[i].addr <= core.addr + 1 && End(core) <= End(r[i]) && n <= r[i].size
       && a == End(r[i]) - n && after == (if r[i].size == n then Without(r, i) else r[i := Block(r[i].addr, r[i].size - n)])
       && head == r[Pred(i, |r|)].addr
  }

  lemma GrownHasRoom(free: seq<Block>, core: Block, after: seq<Block>, h: nat, n: nat)
    requires h < |after| && Grown(free, core, after, after[h].addr) && n < core.size
    requires forall j :: 0 <= j < |after| && after[j].addr == after[h].addr ==> j == h
    ensures after[h].size >= n
  {
    hide Releasable, Released, At;
    Around(free, Body(core));
  }

  lemma GrownAlone(free: seq<Block>, core: Block, after: seq<Block>, h: nat, i: nat, n: nat)
    requires h < |after| && i < |after| && Grown(free, core, after, after[h].addr) && AllBelow(free, n) && n <= after[i].size
    requires forall j :: 0 <= j < |after| && after[j].addr == after[h].addr ==> j == h
    ensures TakenFromCore(free, core, n, Piece(after, i, n).addr, Taken(after, i, n), after[Pred(i, |after|)].addr)
  {
    hide Releasable, Released, At;
    Around(free, Body(core));
    if i != h { ReleasedOther(free, Body(core), i); }
  }

  /** What is found at a place of the list. */
  lemma AtPlace(base: int, ptr: map<int, int>, size: map<int, nat>, coreHead: int,
                free: seq<Block>, used: seq<Block>, cores: seq<Block>, i: nat)
    requires Layout(base, free, used, cores) && Headers(ptr, size, coreHead, free, used, cores) && i < |free|
    ensures free[i].addr in ptr && free[i].addr in size && size[free[i].addr] == free[i].size
    ensures Succ(i, |free|) < |free| && ptr[free[i].addr] == free[Succ(i, |free|)].addr && Pred(Succ(i, |free|), |free|) == i
    ensures forall j :: 0 <= j < |free| && free[j].addr == free[i].addr ==> j == i
  {
    FreeDistinct(base, free, cores);
  }

  lemma SomewhereOnList(a: int, free: seq<Block>) returns (i: nat)
    requires OnList(a, free)
    ensures i < |free| && a == free[i].addr
  {
    i :| 0 <= i < |free| && a == free[i].addr;
  }

  // ----- going round the list once

  /** The blocks in the order of a walk from place h. */
  function Round(free: seq<Block>, h: nat): seq<Block>
    requires h < |free|
  {
    free[h..] + free[..h]
  }

  lemma RoundTotals(free: seq<Block>, h: nat)
    requires h < |free|
    ensures Total(Round(free, h)) == Total(free) && NonEmpty(Round(free, h)) == NonEmpty(free)
  {
    assert free == free[..h] + free[h..];
    TotalAppend(free[..h], free[h..]);
    TotalAppend(free[h..], free[..h]);
    NonEmptyAppend(free[..h], free[h..]);
    NonEmptyAppend(free[h..], free[..h]);
  }

  lemma TotalsStep(s: seq<Block>, j: nat)
    requires j < |s|
    ensures Total(s[j..]) == s[j].size + Total(s[j + 1..])
    ensures NonEmpty(s[j..]) == Counts(s[j].size) + NonEmpty(s[j + 1..])
    ensures j + 1 == |s| ==> Total(s[j + 1..]) == 0 && NonEmpty(s[j + 1..]) == 0
  {
    assert s[j..][1..] == s[j + 1..];
  }

  lemma RoundAt(free: seq<Block>, h: nat, j: nat)
    requires h < |free| && j < |free|
    ensures |Round(free, h)| == |free| && Round(free, h)[j] == free[if h + j < |free| then h + j else h + j - |free|]
  {
  }

  lemma LinkOrder(ptr: map<int, int>, size: map<int, nat>, free: seq<Block>, i: nat, h: nat)
    requires Linked(ptr, free) && Stored(size, free) && Apart(free) && i < |free| && h < |free|
    ensures var p := free[i].addr;
      && p in ptr && p in size && size[p] == free[i].size && ptr[p] == free[Succ(i, |free|)].addr
      && (ptr[p] == free[h].addr <==> Succ(i, |free|) == h)
      && !(ptr[p] > p && p + size[p] > ptr[p])
  {
    var l := Succ(i, |free|);
    assert l < h ==> free[l].addr < free[h].addr;
    assert h < l ==> free[h].addr < free[l].addr;
    assert i < l ==> End(free[i]) < free[l].addr;
    assert l < i ==> free[l].addr < free[i].addr;
  }

  lemma RoundStep(ptr: map<int, int>, size: map<int, nat>, free: seq<Block>, h: nat, j: nat)
    requires Linked(ptr, free) && Stored(size, free) && Apart(free) && h < |free| && j < |free|
    ensures |Round(free, h)| == |free|
    ensures var r := Round(free, h); var p := r[j].addr;
      && p in ptr && p in size && size[p] == r[j].size
      && ptr[p] == (if j + 1 < |r| then r[j + 1] else r[0]).addr
      && (ptr[p] == free[h].addr <==> j + 1 == |r|)
      && !(ptr[p] > p && p + size[p] > ptr[p])
  {
    hide Round, Linked, Stored, Apart;
    RoundAt(free, h, j);
    RoundAt(free, h, 0);
    if j + 1 < |free| { RoundAt(free, h, j + 1); }
    LinkOrder(ptr, size, free, if h + j < |free| then h + j else h + j - |free|, h);
  }

  /** Once round the free blocks from h on: p is the j-th, and the blocks before it have these bytes and this number
      of non-empty ones. */
  ghost predicate Counted(free: seq<Block>, h: nat, j: nat, p: int, bytes: int, blocks: int) {
    && h < |free| == |Round(free, h)| && j < |free|
    && var r := Round(free, h);
       && p == r[j].addr && bytes + 16 * Total(r[j..]) == 16 * Total(free) && blocks + NonEmpty(r[j..]) == NonEmpty(free)
  }

  lemma CountedStart(base: int, free: seq<Block>, used: seq<Block>, cores: seq<Block>, h: nat)
    requires Layout(base, free, used, cores) && h < |free|
    ensures Counted(free, h, 0, free[h].addr, 0, 0)
  {
    hide Layout, Total, NonEmpty, Round;
    RoundAt(free, h, 0);
    RoundTotals(free, h);
    assert Round(free, h)[0..] == Round(free, h);
  }

  /** One pass of the first loop of km_stat. */
  lemma CountedStep(base: int, ptr: map<int, int>, size: map<int, nat>, coreHead: int,
                    free: seq<Block>, used: seq<Block>, cores: seq<Block>, h: nat, j: nat, p: int, bytes: int, blocks: int)
    requires Layout(base, free, used, cores) && Headers(ptr, size, coreHead, free, used, cores) && Counted(free, h, j, p, bytes, blocks)
    ensures j < |free| && h < |free| && p in ptr && p in size && !(ptr[p] > p && p + size[p] > ptr[p])
    ensures var bytes', blocks' := bytes + size[p] * 16, if size[p] != 0 then blocks + 1 else blocks;
      if ptr[p] == free[h].addr then bytes' == 16 * Total(free) && blocks' == NonEmpty(free)
      else Counted(free, h, j + 1, ptr[p], bytes', blocks')
  {
    hide Layout, Linked, Stored, Chained, Round, Total, NonEmpty, Counts;
    LayoutFree(base, free, used, cores);
    RoundStep(ptr, size, free, h, j);
    TotalsStep(Round(free, h), j);
    CountsIs(size[p]);
  }
}
