/** The two-bit bucket flags of khash: sixteen buckets to a 32-bit word, bit 1 of a lane for "empty" and bit 0
    for "deleted". Everything above this module sees a bucket as a Status; the lemmas show that the
    bit operations of the macros change the status of one bucket and of no other. */
module KhashFlags {

  /** What a lane says about its bucket. The lane value 3 is never produced by the table. */
  datatype Status = Empty | Deleted | Live

  /** Number of flag words of a table with m buckets. */
  function FSize(m: nat): nat {
    if m < 16 then 1 else m / 16
  }

  /** Bit offset of bucket i inside its word: twice the low four bits of i. */
  function Lane(i: nat): (s: bv6)
    ensures s < 32 && s & 1 == 0
  {
    Offset(i % 16)
  }

  function Offset(r: nat): (s: bv6)
    ensures s < 32 && s & 1 == 0
  {
    if r == 0 then 0 else (Offset(r - 1) + 2) & 30
  }

  lemma OffsetTable()
    ensures Offset(0) == 0 && Offset(1) == 2 && Offset(2) == 4 && Offset(3) == 6
    ensures Offset(4) == 8 && Offset(5) == 10 && Offset(6) == 12 && Offset(7) == 14
    ensures Offset(8) == 16 && Offset(9) == 18 && Offset(10) == 20 && Offset(11) == 22
    ensures Offset(12) == 24 && Offset(13) == 26 && Offset(14) == 28 && Offset(15) == 30
  {
  }

  lemma LaneInjective(i: nat, j: nat)
    requires i / 16 == j / 16 && i != j
    ensures Lane(i) != Lane(j)
  {
    OffsetTable();
    assert i % 16 != j % 16;
  }

  function Bits(flags: seq<bv32>, i: nat): bv32
    requires i / 16 < |flags|
  {
    LaneOf(flags[i / 16], i)
  }

  function LaneOf(w: bv32, i: nat): (b: bv32)
    ensures b & 3 == b
  {
    Get(w, Lane(i))
  }

  function Get(w: bv32, a: bv6): (b: bv32)
    requires a < 32
    ensures b & 3 == b
  {
    (w >> a) & 3
  }

  /** True when the flag words cover n buckets and no lane holds the unused value 3. */
  ghost predicate WellFormed(flags: seq<bv32>, n: nat) {
    && n <= 16 * |flags|
    && forall i: nat {:trigger Bits(flags, i)} :: i < n ==> Bits(flags, i) != 3
  }

  function IsEmpty(flags: seq<bv32>, i: nat): bool
    requires i / 16 < |flags|
  {
    (flags[i / 16] >> Lane(i)) & 2 != 0
  }

  function IsDel(flags: seq<bv32>, i: nat): bool
    requires i / 16 < |flags|
  {
    (flags[i / 16] >> Lane(i)) & 1 != 0
  }

  function IsEither(flags: seq<bv32>, i: nat): bool
    requires i / 16 < |flags|
  {
    (flags[i / 16] >> Lane(i)) & 3 != 0
  }

  function Decode(b: bv32): Status {
    if b & 2 != 0 then Empty else if b & 1 != 0 then Deleted else Live
  }

  /** The statuses of the first n buckets. */
  ghost function Statuses(flags: seq<bv32>, n: nat): (st: seq<Status>)
    requires WellFormed(flags, n)
    ensures |st| == n
    ensures forall i: nat :: i < n ==> st[i] == Decode(Bits(flags, i))
  {
    seq(n, i requires 0 <= i < n => Decode(Bits(flags, i)))
  }

  /** The three flag tests read exactly the decoded status. */
  lemma TestsReadStatus(flags: seq<bv32>, n: nat, i: nat)
    requires WellFormed(flags, n) && i < n
    ensures IsEmpty(flags, i) <==> Statuses(flags, n)[i] == Empty
    ensures IsDel(flags, i) <==> Statuses(flags, n)[i] == Deleted
    ensures !IsEither(flags, i) <==> Statuses(flags, n)[i] == Live
  {
    LaneTests(flags[i / 16], Lane(i));
    assert Bits(flags, i) != 3;
  }

  lemma LaneTests(w: bv32, a: bv6)
    requires a < 32
    ensures ((w >> a) & 3) & 2 == (w >> a) & 2
    ensures ((w >> a) & 3) & 1 == (w >> a) & 1
    ensures (w >> a) & 3 == 0 <==> (w >> a) & 2 == 0 && (w >> a) & 1 == 0
    ensures (w >> a) & 2 != 0 && (w >> a) & 1 != 0 ==> (w >> a) & 3 == 3
  {
  }

  /** The flag tests of the probing loops: __ac_isempty, __ac_isdel and __ac_iseither. */
  method Test(flags: array<bv32>, ghost n: nat, i: nat) returns (empty: bool, del: bool)
    requires WellFormed(flags[..], n) && i < n
    ensures empty <==> Statuses(flags[..], n)[i] == Empty
    ensures del <==> Statuses(flags[..], n)[i] == Deleted
  {
    TestsReadStatus(flags[..], n, i);
    empty := IsEmpty(flags[..], i);
    del := IsDel(flags[..], i);
  }

  method TestEither(flags: array<bv32>, ghost n: nat, i: nat) returns (either: bool)
    requires WellFormed(flags[..], n) && i < n
    ensures !either <==> Statuses(flags[..], n)[i] == Live
  {
    TestsReadStatus(flags[..], n, i);
    either := IsEither(flags[..], i);
  }

  // ----- effect of one masked store on its own lane and on the other lanes of the word

  function SetDelAt(w: bv32, a: bv6): bv32 requires a < 32 { w | ((1 as bv32) << a) }

  function SetDelWord(w: bv32, i: nat): bv32 { SetDelAt(w, Lane(i)) }

  function ClearEmptyAt(w: bv32, a: bv6): bv32 requires a < 32 { w & !((2 as bv32) << a) }

  function ClearEmptyWord(w: bv32, i: nat): bv32 { ClearEmptyAt(w, Lane(i)) }

  function ClearBothAt(w: bv32, a: bv6): bv32 requires a < 32 { w & !((3 as bv32) << a) }

  function ClearBothWord(w: bv32, i: nat): bv32 { ClearBothAt(w, Lane(i)) }

  lemma SetDelOwn(w: bv32, a: bv6)
    requires a < 32 && a & 1 == 0
    ensures Get(SetDelAt(w, a), a) == Get(w, a) | 1
  {
  }

  lemma SetDelOther(w: bv32, a: bv6, b: bv6)
    requires a < 32 && b < 32 && a & 1 == 0 && b & 1 == 0
    ensures a != b ==> Get(SetDelAt(w, a), b) == Get(w, b)
  {
  }

  lemma ClearEmptyOwn(w: bv32, a: bv6)
    requires a < 32 && a & 1 == 0
    ensures Get(ClearEmptyAt(w, a), a) == Get(w, a) & 1
  {
  }

  lemma ClearEmptyOther(w: bv32, a: bv6, b: bv6)
    requires a < 32 && b < 32 && a & 1 == 0 && b & 1 == 0
    ensures a != b ==> Get(ClearEmptyAt(w, a), b) == Get(w, b)
  {
  }

  lemma ClearBothOwn(w: bv32, a: bv6)
    requires a < 32 && a & 1 == 0
    ensures Get(ClearBothAt(w, a), a) == 0
  {
  }

  lemma ClearBothOther(w: bv32, a: bv6, b: bv6)
    requires a < 32 && b < 32 && a & 1 == 0 && b & 1 == 0
    ensures a != b ==> Get(ClearBothAt(w, a), b) == Get(w, b)
  {
  }

  lemma SetDelLanes(w: bv32, i: nat, j: nat)
    requires i / 16 == j / 16
    ensures LaneOf(SetDelWord(w, i), j) == if i == j then LaneOf(w, i) | 1 else LaneOf(w, j)
  {
    if i == j {
      SetDelOwn(w, Lane(i));
    } else {
      LaneInjective(i, j);
      SetDelOther(w, Lane(i), Lane(j));
    }
  }

  lemma ClearEmptyLanes(w: bv32, i: nat, j: nat)
    requires i / 16 == j / 16
    ensures LaneOf(ClearEmptyWord(w, i), j) == if i == j then LaneOf(w, i) & 1 else LaneOf(w, j)
  {
    if i == j {
      ClearEmptyOwn(w, Lane(i));
    } else {
      LaneInjective(i, j);
      ClearEmptyOther(w, Lane(i), Lane(j));
    }
  }

  lemma ClearBothLanes(w: bv32, i: nat, j: nat)
    requires i / 16 == j / 16
    ensures LaneOf(ClearBothWord(w, i), j) == if i == j then 0 else LaneOf(w, j)
  {
    if i == j {
      ClearBothOwn(w, Lane(i));
    } else {
      LaneInjective(i, j);
      ClearBothOther(w, Lane(i), Lane(j));
    }
  }

  /** A store into one word that rewrites the lane of bucket i and leaves the other lanes alone
      changes the status of bucket i and no other. */
  lemma StoreLane(flags: seq<bv32>, n: nat, i: nat, w: bv32)
    requires WellFormed(flags, n) && i < n
    requires LaneOf(w, i) != 3
    requires forall j: nat {:trigger LaneOf(w, j)} :: j / 16 == i / 16 && j != i ==> LaneOf(w, j) == LaneOf(flags[i / 16], j)
    ensures WellFormed(flags[i / 16 := w], n)
    ensures Statuses(flags[i / 16 := w], n) == Statuses(flags, n)[i := Decode(LaneOf(w, i))]
  {
    var g := flags[i / 16 := w];
    forall j: nat | j < n
      ensures Bits(g, j) == if j == i then LaneOf(w, i) else Bits(flags, j)
    {
      assert j / 16 == i / 16 && j != i ==> LaneOf(w, j) == LaneOf(flags[i / 16], j);
    }
  }

  /** Marks a live bucket deleted: __ac_set_isdel_true. */
  method SetDel(flags: array<bv32>, ghost n: nat, i: nat)
    requires WellFormed(flags[..], n) && i < n
    requires Statuses(flags[..], n)[i] == Live
    modifies flags
    ensures WellFormed(flags[..], n)
    ensures Statuses(flags[..], n) == old(Statuses(flags[..], n))[i := Deleted]
  {
    ghost var f := flags[..];
    flags[i / 16] := SetDelWord(flags[i / 16], i);
    assert flags[..] == f[i / 16 := SetDelWord(f[i / 16], i)];
    SetDelStore(f, n, i);
  }

  lemma SetDelStore(f: seq<bv32>, n: nat, i: nat)
    requires WellFormed(f, n) && i < n && Statuses(f, n)[i] == Live
    ensures WellFormed(f[i / 16 := SetDelWord(f[i / 16], i)], n)
    ensures Statuses(f[i / 16 := SetDelWord(f[i / 16], i)], n) == Statuses(f, n)[i := Deleted]
  {
    var w := SetDelWord(f[i / 16], i);
    forall j: nat | j / 16 == i / 16
      ensures LaneOf(w, j) == if i == j then LaneOf(f[i / 16], i) | 1 else LaneOf(f[i / 16], j)
    {
      SetDelLanes(f[i / 16], i, j);
    }
    LaneValues(LaneOf(f[i / 16], i));
    StoreLane(f, n, i, w);
  }

  /** Marks an empty bucket occupied: __ac_set_isempty_false. */
  method ClearEmpty(flags: array<bv32>, ghost n: nat, i: nat)
    requires WellFormed(flags[..], n) && i < n
    requires Statuses(flags[..], n)[i] == Empty
    modifies flags
    ensures WellFormed(flags[..], n)
    ensures Statuses(flags[..], n) == old(Statuses(flags[..], n))[i := Live]
  {
    ghost var f := flags[..];
    flags[i / 16] := ClearEmptyWord(flags[i / 16], i);
    assert flags[..] == f[i / 16 := ClearEmptyWord(f[i / 16], i)];
    ClearEmptyStore(f, n, i);
  }

  lemma ClearEmptyStore(f: seq<bv32>, n: nat, i: nat)
    requires WellFormed(f, n) && i < n && Statuses(f, n)[i] == Empty
    ensures WellFormed(f[i / 16 := ClearEmptyWord(f[i / 16], i)], n)
    ensures Statuses(f[i / 16 := ClearEmptyWord(f[i / 16], i)], n) == Statuses(f, n)[i := Live]
  {
    var w := ClearEmptyWord(f[i / 16], i);
    forall j: nat | j / 16 == i / 16
      ensures LaneOf(w, j) == if i == j then LaneOf(f[i / 16], i) & 1 else LaneOf(f[i / 16], j)
    {
      ClearEmptyLanes(f[i / 16], i, j);
    }
    LaneValues(LaneOf(f[i / 16], i));
    StoreLane(f, n, i, w);
  }

  /** Marks a bucket live whatever it was: __ac_set_isboth_false. */
  method ClearBoth(flags: array<bv32>, ghost n: nat, i: nat)
    requires WellFormed(flags[..], n) && i < n
    modifies flags
    ensures WellFormed(flags[..], n)
    ensures Statuses(flags[..], n) == old(Statuses(flags[..], n))[i := Live]
  {
    ghost var f := flags[..];
    flags[i / 16] := ClearBothWord(flags[i / 16], i);
    assert flags[..] == f[i / 16 := ClearBothWord(f[i / 16], i)];
    ClearBothStore(f, n, i);
  }

  lemma ClearBothStore(f: seq<bv32>, n: nat, i: nat)
    requires WellFormed(f, n) && i < n
    ensures WellFormed(f[i / 16 := ClearBothWord(f[i / 16], i)], n)
    ensures Statuses(f[i / 16 := ClearBothWord(f[i / 16], i)], n) == Statuses(f, n)[i := Live]
  {
    var w := ClearBothWord(f[i / 16], i);
    forall j: nat | j / 16 == i / 16
      ensures LaneOf(w, j) == if i == j then 0 else LaneOf(f[i / 16], j)
    {
      ClearBothLanes(f[i / 16], i, j);
    }
    StoreLane(f, n, i, w);
  }

  /** A lane value is one of 0, 1, 2, 3. */
  lemma LaneValues(b: bv32)
    requires b & 3 == b
    ensures b != 3 && b & 2 != 0 ==> b == 2 && b & 1 == 0
    ensures b != 3 && b & 2 == 0 && b & 1 == 0 ==> b == 0 && (b | 1) & 1 != 0
    ensures (b | 1) & 2 == b & 2
  {
  }

  /** Words filled with 0xaaaaaaaa describe an all-empty table. */
  lemma FreshFlags(flags: seq<bv32>, n: nat)
    requires n <= 16 * |flags|
    requires forall k :: 0 <= k < |flags| ==> flags[k] == 0xaaaa_aaaa
    ensures WellFormed(flags, n)
    ensures forall i: nat :: i < n ==> Statuses(flags, n)[i] == Empty
  {
    forall i: nat | i < n
      ensures i / 16 < |flags| && Bits(flags, i) == 2
    {
      AllEmptyWord(Lane(i));
    }
  }

  lemma AllEmptyWord(a: bv6)
    requires a < 32 && a & 1 == 0
    ensures ((0xaaaa_aaaa as bv32) >> a) & 3 == 2
  {
  }
}
