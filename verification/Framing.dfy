/** Framing: what handleRemoteData hands on, how handleLocalData cuts its input, and the two put together. */
module Framing {
  import opened Wire

  // ----- the receiving loop as a function of the buffered bytes

  /** Packets handed on, bytes left in the buffer, and whether a header was accepted whose 32-bit size
      wrapped around. */
  datatype Drained = Drained(packets: seq<Packet>, rest: seq<Byte>, fault: bool)

  function Drain(le: bool, b: seq<Byte>): Drained
    decreases |b|
  {
    var r := NextPacket(le, b);
    if r == 0 then Drained([], b, false)
    else if r < 0 then Drain(le, b[1..])
    else
      var h := ParseHeader(le, b);
      if r != HEADER + h.length then Drained([], b, true)
      else
        var d := Drain(le, b[r..]);
        Drained([Packet(h.kind, h.source, b[HEADER..r])] + d.packets, d.rest, d.fault)
  }

  /** More bytes behind a decided front do not change the decision. */
  lemma FrontDecides(le: bool, a: seq<Byte>, b: seq<Byte>)
    requires NextPacket(le, a) != 0
    ensures HEADER <= |a| && NextPacket(le, a) <= |a|
    ensures NextPacket(le, a + b) == NextPacket(le, a)
    ensures ParseHeader(le, a + b) == ParseHeader(le, a)
  {
    assert (a + b)[3..7] == a[3..7] && (a + b)[7..11] == a[7..11];
  }

  /** How a stream is cut into reads makes no difference: draining what is left over together with the
      next bytes continues exactly where draining everything at once would be. */
  lemma {:induction false} DrainAppend(le: bool, a: seq<Byte>, b: seq<Byte>)
    requires !Drain(le, a + b).fault
    ensures !Drain(le, a).fault && !Drain(le, Drain(le, a).rest + b).fault
    ensures Drain(le, a + b).packets == Drain(le, a).packets + Drain(le, Drain(le, a).rest + b).packets
    ensures Drain(le, a + b).rest == Drain(le, Drain(le, a).rest + b).rest
    decreases |a|
  {
    hide NextPacket, ParseHeader;
    var r := NextPacket(le, a);
    if r != 0 {
      FrontDecides(le, a, b);
      if r < 0 {
        assert (a + b)[1..] == a[1..] + b;
        DrainAppend(le, a[1..], b);
      } else {
        var h := ParseHeader(le, a);
        assert r == HEADER + h.length;
        assert (a + b)[r..] == a[r..] + b && (a + b)[HEADER..r] == a[HEADER..r];
        DrainAppend(le, a[r..], b);
      }
    }
  }

  /** Nothing is dropped or invented: what is left is a suffix of what was there. */
  lemma {:induction false} DrainRestSuffix(le: bool, b: seq<Byte>)
    ensures |Drain(le, b).rest| <= |b| && Drain(le, b).rest == b[|b| - |Drain(le, b).rest|..]
    ensures Drain(le, b).fault || NextPacket(le, Drain(le, b).rest) == 0
    decreases |b|
  {
    var r := NextPacket(le, b);
    if r < 0 {
      DrainRestSuffix(le, b[1..]);
    } else if r > 0 && r == HEADER + ParseHeader(le, b).length {
      DrainRestSuffix(le, b[r..]);
    }
  }

  // ----- streams of emitted packets

  ghost predicate AllEncodable(ps: seq<Packet>) {
    forall i :: 0 <= i < |ps| ==> Encodable(ps[i])
  }

  function EncodeAll(le: bool, ps: seq<Packet>): seq<Byte>
    requires forall i :: 0 <= i < |ps| ==> Encodable(ps[i])
  {
    if ps == [] then [] else Encode(le, ps[0]) + EncodeAll(le, ps[1..])
  }

  lemma EncodedFront(le: bool, p: Packet, rest: seq<Byte>)
    requires Encodable(p)
    ensures NextPacket(le, Encode(le, p) + rest) == HEADER + |p.payload|
    ensures var d := Drain(le, rest); Drain(le, Encode(le, p) + rest) == Drained([p] + d.packets, d.rest, d.fault)
  {
    hide GetU32, PutU32;
    HeaderOfEncoded(le, p, rest);
  }

  lemma {:induction false} DrainEncoded(le: bool, ps: seq<Packet>)
    requires AllEncodable(ps)
    ensures Drain(le, EncodeAll(le, ps)) == Drained(ps, [], false)
  {
    if ps != [] {
      EncodedFront(le, ps[0], EncodeAll(le, ps[1..]));
      DrainEncoded(le, ps[1..]);
    }
  }

  // ----- noise

  /** No magic byte is followed by a version byte. */
  ghost predicate Quiet(g: seq<Byte>) {
    forall i {:trigger g[i]} :: 0 <= i && i + 1 < |g| ==> !(g[i] == MAGIC && g[i + 1] == VERSION)
  }

  /** Quiet noise in front of packets is dropped byte by byte. */
  lemma {:induction false} DrainAfterGarbage(le: bool, g: seq<Byte>, ps: seq<Packet>)
    requires AllEncodable(ps) && ps != [] && Quiet(g)
    ensures Drain(le, g + EncodeAll(le, ps)) == Drained(ps, [], false)
    decreases |g|
  {
    var e := EncodeAll(le, ps);
    if g == [] {
      assert g + e == e;
      DrainEncoded(le, ps);
    } else {
      var b := g + e;
      assert b[1..] == g[1..] + e;
      assert e[0] == MAGIC && !(b[0] == MAGIC && b[1] == VERSION);
      DrainAfterGarbage(le, g[1..], ps);
    }
  }

  /** Bytes that yield no packet are not all used up. */
  lemma {:induction false} NothingLeavesRest(le: bool, b: seq<Byte>)
    requires b != [] && Drain(le, b).packets == [] && !Drain(le, b).fault
    ensures Drain(le, b).rest != []
    decreases |b|
  {
    if NextPacket(le, b) < 0 {
      NothingLeavesRest(le, b[1..]);
    }
  }

  /** Where a pair is in front and one packet uses up everything, that packet is as long as everything. */
  lemma OneUsesAll(le: bool, b: seq<Byte>)
    requires |b| >= 2 && b[0] == MAGIC && b[1] == VERSION
    requires var d := Drain(le, b); |d.packets| == 1 && d.rest == [] && !d.fault
    ensures HEADER + |Drain(le, b).packets[0].payload| == |b|
  {
    var r := NextPacket(le, b);
    assert 0 <= r <= |b|;
    hide NextPacket, ParseHeader;
    if r > 0 && b[r..] != [] {
      NothingLeavesRest(le, b[r..]);
    }
  }

  /** A pair in front is taken for a header, and one packet as long as the one sent would leave bytes over. */
  lemma PairDerails(le: bool, g: seq<Byte>, p: Packet)
    requires Encodable(p) && |g| >= 2 && g[0] == MAGIC && g[1] == VERSION
    ensures Drain(le, g + Encode(le, p)) != Drained([p], [], false)
  {
    hide Drain, Encode;
    if Drain(le, g + Encode(le, p)) == Drained([p], [], false) {
      OneUsesAll(le, g + Encode(le, p));
    }
  }

  /** Noise in front of a packet does no harm exactly when it is quiet. */
  lemma {:induction false} QuietExactly(le: bool, g: seq<Byte>, p: Packet)
    requires Encodable(p)
    ensures Drain(le, g + Encode(le, p)) == Drained([p], [], false) <==> Quiet(g)
    decreases |g|
  {
    if Quiet(g) {
      OnePacket(le, p);
      DrainAfterGarbage(le, g, [p]);
    } else if g[0] == MAGIC && g[1] == VERSION {
      PairDerails(le, g, p);
    } else {
      var b := g + Encode(le, p);
      assert b[1..] == g[1..] + Encode(le, p);
      assert !Quiet(g[1..]) by {
        var i :| 0 <= i && i + 1 < |g| && g[i] == MAGIC && g[i + 1] == VERSION;
        assert g[1..][i - 1] == MAGIC && g[1..][i] == VERSION;
      }
      QuietExactly(le, g[1..], p);
    }
  }

  lemma OnePacket(le: bool, p: Packet)
    requires Encodable(p)
    ensures EncodeAll(le, [p]) == Encode(le, p)
  {
    assert [p][1..] == [];
    assert EncodeAll(le, [p]) == Encode(le, p) + EncodeAll(le, []);
  }

  /** Noise does no harm to any packets sent behind it exactly when it is quiet. */
  lemma NoiseIsHarmlessExactly(le: bool, g: seq<Byte>)
    ensures (forall ps :: AllEncodable(ps) && ps != [] ==> Drain(le, g + EncodeAll(le, ps)) == Drained(ps, [], false)) <==> Quiet(g)
  {
    if Quiet(g) {
      forall ps | AllEncodable(ps) && ps != []
        ensures Drain(le, g + EncodeAll(le, ps)) == Drained(ps, [], false)
      {
        DrainAfterGarbage(le, g, ps);
      }
    } else {
      var p := Packet(DATA, 0, []);
      OnePacket(le, p);
      QuietExactly(le, g, p);
      assert AllEncodable([p]);
    }
  }

  // ----- reads of arbitrary size

  function Concat(chunks: seq<seq<Byte>>): seq<Byte> {
    if chunks == [] then [] else chunks[0] + Concat(chunks[1..])
  }

  /** The receiving loop run after each read, starting from a buffer holding b. */
  function Receive(le: bool, b: seq<Byte>, chunks: seq<seq<Byte>>): Drained
    decreases |chunks|
  {
    if chunks == [] then Drained([], b, false)
    else
      var d := Drain(le, b + chunks[0]);
      if d.fault then d
      else
        var e := Receive(le, d.rest, chunks[1..]);
        Drained(d.packets + e.packets, e.rest, e.fault)
  }

  lemma {:induction false} ReceiveIsDrain(le: bool, b: seq<Byte>, chunks: seq<seq<Byte>>)
    requires !Drain(le, b + Concat(chunks)).fault
    requires NextPacket(le, b) == 0
    ensures Receive(le, b, chunks) == Drain(le, b + Concat(chunks))
    decreases |chunks|
  {
    if chunks == [] {
      assert b + Concat(chunks) == b;
    } else {
      var a := b + chunks[0];
      assert b + Concat(chunks) == a + Concat(chunks[1..]);
      DrainAppend(le, a, Concat(chunks[1..]));
      DrainRestSuffix(le, a);
      ReceiveIsDrain(le, Drain(le, a).rest, chunks[1..]);
    }
  }

  /** Packets put on the wire, optionally after quiet noise, come out of the
      receiving loop exactly once, complete and in order, however the bytes are cut into reads. */
  lemma DeliveredInOrder(le: bool, g: seq<Byte>, ps: seq<Packet>, chunks: seq<seq<Byte>>)
    requires AllEncodable(ps) && ps != [] && Quiet(g)
    requires Concat(chunks) == g + EncodeAll(le, ps)
    ensures Receive(le, [], chunks) == Drained(ps, [], false)
  {
    DrainAfterGarbage(le, g, ps);
    assert [] + Concat(chunks) == Concat(chunks);
    ReceiveIsDrain(le, [], chunks);
  }

  /** At every moment before that, the packets handed on are an initial part of the ones sent, and the
      bytes left over hold no complete packet. */
  lemma DeliveredSoFar(le: bool, g: seq<Byte>, ps: seq<Packet>, chunks: seq<seq<Byte>>, later: seq<Byte>)
    requires AllEncodable(ps) && ps != [] && Quiet(g)
    requires Concat(chunks) + later == g + EncodeAll(le, ps)
    ensures !Receive(le, [], chunks).fault && Receive(le, [], chunks).packets <= ps
    ensures NextPacket(le, Receive(le, [], chunks).rest) == 0
  {
    DrainAfterGarbage(le, g, ps);
    var a := Concat(chunks);
    DrainAppend(le, a, later);
    DrainRestSuffix(le, a);
    assert [] + a == a;
    ReceiveIsDrain(le, [], chunks);
  }

  /** What other noise can do: here eleven noise bytes that read as a header swallow the whole packet sent behind
      them. */
  lemma NoiseCanSwallow()
    ensures var noise := [MAGIC, VERSION, 0, 0, 0, 0, 0, 0, 0, 0, 12];
      var p := Packet(DATA, 0, [7]);
      Drain(false, noise + Encode(false, p)) == Drained([Packet(0, 0, Encode(false, p))], [], false)
  {
    var noise: seq<Byte> := [MAGIC, VERSION, 0, 0, 0, 0, 0, 0, 0, 0, 12];
    var p := Packet(DATA, 0, [7]);
    var w := Packet(0, 0, Encode(false, p));
    assert Bytes32(0) == [0, 0, 0, 0] && Bytes32(12) == [0, 0, 0, 12];
    assert Encode(false, w) == noise + Encode(false, p);
    EncodedFront(false, w, []);
    assert Encode(false, w) + [] == Encode(false, w);
  }

  // ----- headers whose size wraps around

  /** A header in front whose length and the 11 header bytes do not fit 32 bits, and do not add up to 0 there. */
  predicate Wraps(le: bool, b: seq<Byte>) {
    HEADER <= |b| && b[0] == MAGIC && b[1] == VERSION && ParseHeader(le, b).length >= 0xFFFF_FFF6
  }

  /** The front is taken for a packet of another size than the one that is copied out if and only if it is such a
      header. */
  lemma FrontFaultsExactly(le: bool, b: seq<Byte>)
    ensures Wraps(le, b) <==> NextPacket(le, b) > 0 && NextPacket(le, b) != HEADER + ParseHeader(le, b).length
  {
    hide GetU32;
    if HEADER <= |b| { SizeWraps(ParseHeader(le, b).length); }
  }

  lemma SizeWraps(length: U32)
    ensures PacketSize(length) == if length >= 0xFFFF_FFF5 then HEADER + length - 0x1_0000_0000 else HEADER + length
  {
  }

  /** The loop comes to such a header if and only if one is in front of what is left when it stops. */
  lemma {:induction false} FaultsExactly(le: bool, b: seq<Byte>)
    ensures Drain(le, b).fault <==> Wraps(le, Drain(le, b).rest)
    decreases |b|
  {
    hide NextPacket, ParseHeader, Wraps;
    FrontFaultsExactly(le, b);
    var r := NextPacket(le, b);
    if r != 0 {
      FrontDecides(le, b, []);
      if r < 0 {
        FaultsExactly(le, b[1..]);
      } else if r == HEADER + ParseHeader(le, b).length {
        FaultsExactly(le, b[r..]);
      }
    }
  }

  // ----- room in the receive buffer

  /** A header that announces a packet, of the size as it is computed in 32 bits, is waited for. It is waited for
      in vain, whatever bytes follow, exactly when that size is above the capacity, or 0. */
  lemma StallsExactly(le: bool, b: seq<Byte>, capacity: nat)
    requires HEADER <= |b| <= capacity && NextPacket(le, b) == 0
    ensures var size := PacketSize(ParseHeader(le, b).length);
      (forall later :: |b + later| <= capacity ==> NextPacket(le, b + later) == 0) <==> size > capacity || size == 0
  {
    var size := PacketSize(ParseHeader(le, b).length);
    forall later
      ensures ParseHeader(le, b + later) == ParseHeader(le, b)
      ensures NextPacket(le, b + later) == if size <= |b + later| then size else 0
    {
      assert (b + later)[3..7] == b[3..7] && (b + later)[7..11] == b[7..11];
    }
    if 0 < size <= capacity {
      var later: seq<Byte> := seq(capacity - |b|, _ => 0);
      assert NextPacket(le, b + later) == size;
    }
  }

  /** While packets of at most `capacity` bytes arrive, the buffer is never full after the loop. */
  lemma NeverFull(le: bool, g: seq<Byte>, ps: seq<Packet>, chunks: seq<seq<Byte>>, later: seq<Byte>, capacity: nat)
    requires AllEncodable(ps) && ps != [] && HEADER <= capacity
    requires forall i :: 0 <= i < |ps| ==> HEADER + |ps[i].payload| <= capacity
    requires Quiet(g)
    requires Concat(chunks) + later == g + EncodeAll(le, ps)
    ensures |Receive(le, [], chunks).rest| < capacity
  {
    DeliveredSoFar(le, g, ps, chunks, later);
    var a := Concat(chunks);
    assert [] + a == a;
    DrainAfterGarbage(le, g, ps);
    DrainAppend(le, a, later);
    ReceiveIsDrain(le, [], chunks);
    var d := Drain(le, a);
    var n := |d.packets|;
    assert Drain(le, d.rest + later).packets == ps[n..];
    if |d.rest| >= HEADER {
      UndecidedFront(le, d.rest, later);
      assert Drain(le, d.rest + later).packets[0] == ps[n];
    }
  }

  /** An undecided front that later bytes complete is the front of the packet then handed on. */
  lemma UndecidedFront(le: bool, r: seq<Byte>, later: seq<Byte>)
    requires NextPacket(le, r) == 0 && |r| >= HEADER
    requires var d := Drain(le, r + later); !d.fault && d.rest == []
    ensures var d := Drain(le, r + later); d.packets != [] && |r| < HEADER + |d.packets[0].payload|
  {
    assert (r + later)[3..7] == r[3..7] && (r + later)[7..11] == r[7..11];
    assert ParseHeader(le, r + later) == ParseHeader(le, r);
  }

  // ----- cutting local input at delimiters

  datatype Cut = Cut(payloads: seq<seq<Byte>>, rest: seq<Byte>)

  /** The scan of handleLocalData with the cursor at c. */
  function Scan(delimiter: Byte, b: seq<Byte>, c: nat): Cut
    decreases |b| - c
  {
    if c >= |b| then Cut([], b)
    else if b[c] == delimiter then
      var t := Scan(delimiter, b[c..], 1);
      Cut(if c == 0 then t.payloads else [b[..c]] + t.payloads, t.rest)
    else Scan(delimiter, b, c + 1)
  }

  /** A byte string that holds the delimiter at most as its first byte. */
  ghost predicate LeadOnly(delimiter: Byte, p: seq<Byte>) {
    forall i :: 1 <= i < |p| ==> p[i] != delimiter
  }

  ghost predicate Clear(delimiter: Byte, b: seq<Byte>, c: nat) {
    forall i :: 1 <= i < c && i < |b| ==> b[i] != delimiter
  }

  lemma ConcatFirst(p: seq<Byte>, ps: seq<seq<Byte>>, rest: seq<Byte>)
    ensures Concat([p] + ps) + rest == p + (Concat(ps) + rest)
  {
    assert ([p] + ps)[1..] == ps;
  }

  lemma {:induction false} ScanKeepsBytes(delimiter: Byte, b: seq<Byte>, c: nat)
    requires c <= |b|
    ensures Concat(Scan(delimiter, b, c).payloads) + Scan(delimiter, b, c).rest == b
    decreases |b| - c
  {
    if c < |b| {
      if b[c] == delimiter {
        ScanKeepsBytes(delimiter, b[c..], 1);
        var t := Scan(delimiter, b[c..], 1);
        assert b == b[..c] + b[c..];
        if c > 0 {
          ConcatFirst(b[..c], t.payloads, t.rest);
        }
      } else {
        ScanKeepsBytes(delimiter, b, c + 1);
      }
    }
  }

  lemma {:induction false} ScanShapes(delimiter: Byte, b: seq<Byte>, c: nat)
    requires c <= |b| && Clear(delimiter, b, c)
    ensures var s := Scan(delimiter, b, c);
      && (forall i :: 0 <= i < |s.payloads| ==> s.payloads[i] != [] && LeadOnly(delimiter, s.payloads[i]))
      && LeadOnly(delimiter, s.rest) && (b != [] ==> s.rest != [])
    decreases |b| - c
  {
    if c < |b| {
      if b[c] == delimiter {
        ScanShapes(delimiter, b[c..], 1);
      } else {
        ScanShapes(delimiter, b, c + 1);
      }
    }
  }

  /** From the cursor on, every cut is made in front of a delimiter. */
  lemma {:induction false} ScanLeads(delimiter: Byte, b: seq<Byte>, c: nat)
    requires 1 <= c && b != []
    ensures var s := Scan(delimiter, b, c);
      if s.payloads == [] then s.rest == b
      else
        && s.payloads[0] != [] && s.payloads[0][0] == b[0] && s.rest != [] && s.rest[0] == delimiter
        && forall i :: 0 < i < |s.payloads| ==> s.payloads[i] != [] && s.payloads[i][0] == delimiter
    decreases |b| - c
  {
    if c >= |b| {
    } else if b[c] == delimiter {
      ScanLeads(delimiter, b[c..], 1);
    } else {
      ScanLeads(delimiter, b, c + 1);
    }
  }

  /** Cutting loses nothing, and every payload is a non-empty piece that starts at a delimiter, or is the first and
      starts at the start of the input, and runs up to the next delimiter. */
  lemma ScanCuts(delimiter: Byte, b: seq<Byte>)
    ensures var s := Scan(delimiter, b, 0);
      && Concat(s.payloads) + s.rest == b
      && (forall i :: 0 <= i < |s.payloads| ==> s.payloads[i] != [] && LeadOnly(delimiter, s.payloads[i]))
      && (forall i :: 0 < i < |s.payloads| ==> s.payloads[i][0] == delimiter)
      && LeadOnly(delimiter, s.rest) && (b != [] ==> s.rest != []) && (s.payloads != [] ==> s.rest[0] == delimiter)
  {
    ScanKeepsBytes(delimiter, b, 0);
    ScanShapes(delimiter, b, 0);
    if b != [] {
      ScanFromOne(delimiter, b);
      ScanLeads(delimiter, b, 1);
    }
  }

  lemma ScanFromOne(delimiter: Byte, b: seq<Byte>)
    requires b != []
    ensures Scan(delimiter, b, 0) == Scan(delimiter, b, 1)
  {
    assert b[0..] == b;
  }

  /** The cursor passes bytes that are not the delimiter, and a delimiter at the front, for nothing. */
  lemma {:induction false} ScanSkips(delimiter: Byte, b: seq<Byte>, c: nat)
    requires c <= |b| && Clear(delimiter, b, c)
    ensures Scan(delimiter, b, 0) == Scan(delimiter, b, c)
    decreases c
  {
    if c == 1 {
      assert b[0..] == b;
    } else if c > 1 {
      ScanSkips(delimiter, b, c - 1);
      assert b[c - 1] != delimiter;
    }
  }

  /** Reads may cut the input anywhere: scanning what was left over again, with the next bytes behind it,
      cuts exactly where scanning everything at once would. */
  lemma {:induction false} ScanAppend(delimiter: Byte, a: seq<Byte>, b: seq<Byte>, c: nat)
    requires c <= |a| && Clear(delimiter, a, c) && (c == 0 || |a| > 0)
    ensures var s, t := Scan(delimiter, a, c), Scan(delimiter, Scan(delimiter, a, c).rest + b, 0);
            Scan(delimiter, a + b, c) == Cut(s.payloads + t.payloads, t.rest)
    decreases |a| - c
  {
    if c >= |a| {
      ScanSkips(delimiter, a + b, c);
    } else if a[c] == delimiter {
      assert (a + b)[c..] == a[c..] + b && (a + b)[..c] == a[..c];
      ScanAppend(delimiter, a[c..], b, 1);
    } else {
      ScanAppend(delimiter, a, b, c + 1);
    }
  }

  /** handleLocalData after each read, starting from a buffer holding b. */
  function Split(delimiter: Byte, b: seq<Byte>, chunks: seq<seq<Byte>>): Cut
    decreases |chunks|
  {
    if chunks == [] then Cut([], b)
    else
      var s := Scan(delimiter, b + chunks[0], 0);
      var t := Split(delimiter, s.rest, chunks[1..]);
      Cut(s.payloads + t.payloads, t.rest)
  }

  lemma {:induction false} SplitIsScan(delimiter: Byte, b: seq<Byte>, chunks: seq<seq<Byte>>)
    requires LeadOnly(delimiter, b)
    ensures Split(delimiter, b, chunks) == Scan(delimiter, b + Concat(chunks), 0)
    decreases |chunks|
  {
    if chunks == [] {
      assert b + Concat(chunks) == b;
      ScanSkips(delimiter, b, |b|);
    } else {
      var a := b + chunks[0];
      assert b + Concat(chunks) == a + Concat(chunks[1..]);
      ScanCuts(delimiter, a);
      ScanAppend(delimiter, a, Concat(chunks[1..]), 0);
      SplitIsScan(delimiter, Scan(delimiter, a, 0).rest, chunks[1..]);
    }
  }

  // ----- from local input to remote output

  function DataPackets(source: U32, payloads: seq<seq<Byte>>): (ps: seq<Packet>)
    ensures |ps| == |payloads|
    ensures forall i :: 0 <= i < |ps| ==> ps[i] == Packet(DATA, source, payloads[i])
  {
    seq(|payloads|, i requires 0 <= i < |payloads| => Packet(DATA, source, payloads[i]))
  }

  function Payloads(ps: seq<Packet>): (r: seq<seq<Byte>>)
    ensures |r| == |ps| && forall i :: 0 <= i < |r| ==> r[i] == ps[i].payload
  {
    seq(|ps|, i requires 0 <= i < |ps| => ps[i].payload)
  }

  lemma {:induction false} PieceSizes(pieces: seq<seq<Byte>>, i: nat)
    requires i < |pieces|
    ensures |pieces[i]| <= |Concat(pieces)|
  {
    if i > 0 { PieceSizes(pieces[1..], i - 1); }
  }

  /** Local input read in any pieces, cut, sent as data packets, received in any other pieces: the
      payloads handed on at the far end, followed by what the near end still buffers, are the input. */
  lemma EndToEnd(le: bool, delimiter: Byte, source: U32, input: seq<seq<Byte>>, wire: seq<seq<Byte>>)
    requires |Concat(input)| + HEADER < 0x1_0000_0000
    requires var ps := DataPackets(source, Split(delimiter, [], input).payloads);
      AllEncodable(ps) ==> Concat(wire) == EncodeAll(le, ps)
    ensures var s, r := Split(delimiter, [], input), Receive(le, [], wire);
      && AllEncodable(DataPackets(source, s.payloads))
      && r == Drained(DataPackets(source, s.payloads), [], false)
      && |r.packets| == |s.payloads| && (forall i :: 0 <= i < |r.packets| ==> r.packets[i] == Packet(0x10, source, s.payloads[i]))
      && Concat(Payloads(r.packets)) + s.rest == Concat(input)
  {
    hide Split, Scan, Receive, Drain, Encode, EncodeAll;
    var s := Split(delimiter, [], input);
    var ps := DataPackets(source, s.payloads);
    SplitIsScan(delimiter, [], input);
    assert [] + Concat(input) == Concat(input);
    ScanCuts(delimiter, Concat(input));
    forall i | 0 <= i < |ps|
      ensures Encodable(ps[i])
    {
      PieceSizes(s.payloads, i);
    }
    DrainEncoded(le, ps);
    assert [] + Concat(wire) == Concat(wire);
    ReceiveIsDrain(le, [], wire);
    assert Payloads(ps) == s.payloads;
  }
}
