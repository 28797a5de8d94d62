/** The integer codecs of packet.c and the packet header. `le` says whether the host is little-endian. */
module Wire {

  type Byte = b: nat | b < 0x100 witness 0
  type U32 = x: nat | x < 0x1_0000_0000 witness 0

  const MAGIC: Byte := 0x55
  const VERSION: Byte := 2
  const DATA: Byte := 0x10
  const HEADER: nat := 11
  const COMMAND_SOURCE: U32 := 0xFFFF_FFFF

  // ----- integers

  function Swap32(x: U32): U32 {
    Quad(x % 0x100, x / 0x100 % 0x100, x / 0x1_0000 % 0x100, x / 0x100_0000)
  }

  /** htonl, which is also ntohl. */
  function NetOrder(le: bool, x: U32): U32 {
    if le then Swap32(x) else x
  }

  /** The four bytes of x, highest first. */
  function Bytes32(x: U32): (r: seq<Byte>)
    ensures |r| == 4
  {
    [x / 0x100_0000, x / 0x1_0000 % 0x100, x / 0x100 % 0x100, x % 0x100]
  }

  /** packet_write_u32 puts out the bytes of htonl(x), highest first. */
  function PutU32(le: bool, x: U32): (r: seq<Byte>)
    ensures |r| == 4
  {
    Bytes32(NetOrder(le, x))
  }

  function Quad(a: nat, b: nat, c: nat, d: nat): U32
    requires a < 0x100 && b < 0x100 && c < 0x100 && d < 0x100
  {
    a * 0x100_0000 + b * 0x1_0000 + c * 0x100 + d
  }

  function Join32(b: seq<Byte>): U32
    requires |b| == 4
  {
    Quad(b[0], b[1], b[2], b[3])
  }

  /** packet_read_u32 joins four bytes, highest first, and applies ntohl. */
  function GetU32(le: bool, b: seq<Byte>): U32
    requires |b| == 4
  {
    NetOrder(le, Join32(b))
  }

  lemma SwapTwice(x: U32)
    ensures Swap32(Swap32(x)) == x
  {
    SwapBytes(x);
    JoinBytes(x);
    SwapBytes(Swap32(x));
    JoinBytes(Swap32(Swap32(x)));
  }

  lemma SwapBytes(x: U32)
    ensures var b := Bytes32(x); Bytes32(Swap32(x)) == [b[3], b[2], b[1], b[0]]
  {
    var b := Bytes32(x);
    BytesOfJoin([b[3], b[2], b[1], b[0]]);
  }

  lemma JoinBytes(x: U32)
    ensures Join32(Bytes32(x)) == x
  {
    var y := x / 0x100;
    assert x / 0x1_0000 == y / 0x100;
    var z := y / 0x100;
    assert x / 0x100_0000 == z / 0x100;
  }

  lemma BytesOfQuad(a: nat, b: nat, c: nat, d: nat)
    requires a < 0x100 && b < 0x100 && c < 0x100 && d < 0x100
    ensures Bytes32(Quad(a, b, c, d)) == [a, b, c, d]
  {
    var x := Quad(a, b, c, d);
    assert x / 0x100 == a * 0x1_0000 + b * 0x100 + c;
    assert x / 0x1_0000 == a * 0x100 + b;
    assert x / 0x100_0000 == a;
  }

  lemma BytesOfJoin(b: seq<Byte>)
    requires |b| == 4
    ensures Bytes32(Join32(b)) == b
  {
    BytesOfQuad(b[0], b[1], b[2], b[3]);
  }

  /** Reading undoes writing on a host of either byte order. */
  lemma U32RoundTrip(le: bool, x: U32)
    ensures GetU32(le, PutU32(le, x)) == x
  {
    JoinBytes(NetOrder(le, x));
    SwapTwice(x);
  }

  /** Writing undoes reading, so no two byte strings stand for one number. */
  lemma U32RoundTripBytes(le: bool, b: seq<Byte>)
    requires |b| == 4
    ensures PutU32(le, GetU32(le, b)) == b
  {
    BytesOfJoin(b);
    SwapTwice(Join32(b));
  }

  /** htonl and the shifts cancel: a little-endian host sends the lowest byte first, a big-endian host
      the highest. */
  lemma WireOrderIsHostOrder(x: U32)
    ensures PutU32(true, x) == [x % 0x100, x / 0x100 % 0x100, x / 0x1_0000 % 0x100, x / 0x100_0000]
    ensures PutU32(false, x) == [x / 0x100_0000, x / 0x1_0000 % 0x100, x / 0x100 % 0x100, x % 0x100]
    ensures GetU32(false, PutU32(true, x)) == Swap32(x)
  {
    SwapBytes(x);
    JoinBytes(Swap32(x));
  }

  /** Reading with byte order b what was written with byte order a gives the number back exactly when the orders
      are the same or the bytes read the same from both ends. */
  lemma HostsAgreeExactly(a: bool, b: bool, x: U32)
    ensures GetU32(b, PutU32(a, x)) == x <==>
      a == b || (x % 0x100 == x / 0x100_0000 && x / 0x100 % 0x100 == x / 0x1_0000 % 0x100)
  {
    JoinBytes(NetOrder(a, x));
    SwapTwice(x);
    SwapBytes(x);
    JoinBytes(x);
    if a != b && x % 0x100 == x / 0x100_0000 && x / 0x100 % 0x100 == x / 0x1_0000 % 0x100 {
      assert Bytes32(Swap32(x)) == Bytes32(x);
      JoinBytes(Swap32(x));
    }
  }

  // ----- packets

  datatype Packet = Packet(kind: Byte, source: U32, payload: seq<Byte>)

  datatype Header = Header(magic: Byte, version: Byte, kind: Byte, source: U32, length: U32)

  /** The packet fits a 32-bit length field together with its header. */
  predicate Encodable(p: Packet) {
    |p.payload| + HEADER < 0x1_0000_0000
  }

  function Encode(le: bool, p: Packet): (r: seq<Byte>)
    requires Encodable(p)
    ensures |r| == HEADER + |p.payload|
  {
    [MAGIC, VERSION, p.kind] + PutU32(le, p.source) + PutU32(le, |p.payload|) + p.payload
  }

  function ParseHeader(le: bool, b: seq<Byte>): Header
    requires |b| >= HEADER
  {
    Header(b[0], b[1], b[2], GetU32(le, b[3..7]), GetU32(le, b[7..11]))
  }

  /** 11 + length, as the 32-bit sum it is in the source. */
  function PacketSize(length: U32): nat {
    (HEADER + length) % 0x1_0000_0000
  }

  /** gnw_nextPacket: size of the packet at the front, 0 for "need more bytes", -1 and -2 for a wrong
      magic or version byte. The size is computed in 32 bits. */
  function NextPacket(le: bool, b: seq<Byte>): int {
    if |b| < HEADER then 0
    else if b[0] != MAGIC then -1
    else
      var h := ParseHeader(le, b);
      if h.version != VERSION then -2
      else
        var total := PacketSize(h.length);
        if total <= |b| then total else 0
  }

  /** The header of an encoded packet, whatever follows it. */
  lemma HeaderOfEncoded(le: bool, p: Packet, rest: seq<Byte>)
    requires Encodable(p)
    ensures ParseHeader(le, Encode(le, p) + rest) == Header(MAGIC, VERSION, p.kind, p.source, |p.payload|)
    ensures (Encode(le, p) + rest)[HEADER..HEADER + |p.payload|] == p.payload
    ensures (Encode(le, p) + rest)[HEADER + |p.payload|..] == rest
  {
    var e := Encode(le, p) + rest;
    assert e[3..7] == PutU32(le, p.source);
    assert e[7..11] == PutU32(le, |p.payload|);
    U32RoundTrip(le, p.source);
    U32RoundTrip(le, |p.payload|);
  }

  lemma Layout(k: Byte, x: seq<Byte>, y: seq<Byte>, payload: seq<Byte>)
    requires |x| == |y| == 4
    ensures [MAGIC, VERSION, k] + x + y + payload == [0x55, 2, k, x[0], x[1], x[2], x[3], y[0], y[1], y[2], y[3]] + payload
  {
    assert [MAGIC, VERSION, k] + x + y == [0x55, 2, k, x[0], x[1], x[2], x[3], y[0], y[1], y[2], y[3]];
  }

  /** The bytes of a packet: from a little-endian host the lowest byte of a number first, from a big-endian host the
      highest. */
  lemma EncodedBytes(le: bool, p: Packet, x: seq<Byte>, y: seq<Byte>)
    requires Encodable(p) && x == LowFirst(p.source) && y == LowFirst(|p.payload|)
    ensures Encode(le, p) == (if le then [0x55, 2, p.kind, x[0], x[1], x[2], x[3], y[0], y[1], y[2], y[3]]
      else [0x55, 2, p.kind, x[3], x[2], x[1], x[0], y[3], y[2], y[1], y[0]]) + p.payload
    ensures p.kind == DATA ==> Encode(le, p)[2] == 0x10
    ensures p.source == COMMAND_SOURCE ==> Encode(le, p)[3..7] == [0xff, 0xff, 0xff, 0xff]
  {
    WireOrderIsHostOrder(p.source);
    WireOrderIsHostOrder(|p.payload|);
    CommandSource(p.source);
    hide PutU32, LowFirst;
    Layout(p.kind, PutU32(le, p.source), PutU32(le, |p.payload|), p.payload);
  }

  lemma CommandSource(x: U32)
    ensures x == COMMAND_SOURCE ==> LowFirst(x) == [0xff, 0xff, 0xff, 0xff]
  {
  }

  function LowFirst(x: U32): (r: seq<Byte>)
    ensures |r| == 4
  {
    [x % 0x100, x / 0x100 % 0x100, x / 0x1_0000 % 0x100, x / 0x100_0000]
  }

  lemma ReadsQuad(b: seq<Byte>)
    requires |b| == 4
    ensures GetU32(true, b) == Quad(b[3], b[2], b[1], b[0]) && GetU32(false, b) == Quad(b[0], b[1], b[2], b[3])
  {
    BytesOfQuad(b[0], b[1], b[2], b[3]);
    hide Quad;
  }

  /** What is made of the bytes in front: which of them are read, and as which number. */
  lemma FrontBytes(le: bool, b: seq<Byte>)
    requires |b| >= 11
    ensures var source, length := if le then Quad(b[6], b[5], b[4], b[3]) else Quad(b[3], b[4], b[5], b[6]),
        if le then Quad(b[10], b[9], b[8], b[7]) else Quad(b[7], b[8], b[9], b[10]);
      && ParseHeader(le, b) == Header(b[0], b[1], b[2], source, length)
      && NextPacket(le, b) == if b[0] != 0x55 then -1 else if b[1] != 2 then -2
        else if (11 + length) % 0x1_0000_0000 <= |b| then (11 + length) % 0x1_0000_0000 else 0
  {
    ReadsQuad(b[3..7]);
    ReadsQuad(b[7..11]);
    hide GetU32, Quad;
  }

  // ----- the writers and readers at work in a buffer

  method WriteU8(buffer: array<Byte>, at: nat, data: Byte) returns (next: nat)
    requires at < buffer.Length
    modifies buffer
    ensures next == at + 1 && buffer[..] == old(buffer[..])[at := data]
  {
    buffer[at] := data;
    next := at + 1;
  }

  method WriteU32(le: bool, buffer: array<Byte>, at: nat, data: U32) returns (next: nat)
    requires at + 4 <= buffer.Length
    modifies buffer
    ensures next == at + 4
    ensures buffer[..at] == old(buffer[..at]) && buffer[at..at + 4] == PutU32(le, data) && buffer[at + 4..] == old(buffer[at + 4..])
  {
    var d := NetOrder(le, data);
    buffer[at] := d / 0x100_0000;
    buffer[at + 1] := d / 0x1_0000 % 0x100;
    buffer[at + 2] := d / 0x100 % 0x100;
    buffer[at + 3] := d % 0x100;
    next := at + 4;
  }

  method ReadU32(le: bool, buffer: array<Byte>, at: nat) returns (data: U32, next: nat)
    requires at + 4 <= buffer.Length
    ensures next == at + 4 && data == GetU32(le, buffer[at..at + 4])
  {
    var d := Quad(buffer[at], buffer[at + 1], buffer[at + 2], buffer[at + 3]);
    data := NetOrder(le, d);
    next := at + 4;
  }

  /** gnw_parse_header. */
  method ReadHeader(le: bool, buffer: array<Byte>) returns (h: Header, next: nat)
    requires buffer.Length >= HEADER
    ensures next == HEADER && h == ParseHeader(le, buffer[..])
  {
    var source, length;
    source, next := ReadU32(le, buffer, 3);
    length, next := ReadU32(le, buffer, next);
    h := Header(buffer[0], buffer[1], buffer[2], source, length);
    assert buffer[..][3..7] == buffer[3..7] && buffer[..][7..11] == buffer[7..11];
  }

  /** packet_shift without an output block: drops the first `length` of `size` bytes. */
  method Shift(buffer: array<Byte>, size: nat, length: nat)
    requires length <= size <= buffer.Length
    modifies buffer
    ensures buffer[..size - length] == old(buffer[length..size])
    ensures buffer[size - length..] == old(buffer[size - length..])
  {
    var i := 0;
    while i < size - length
      invariant 0 <= i <= size - length
      invariant forall k :: 0 <= k < i ==> buffer[k] == old(buffer[length + k])
      invariant forall k :: i <= k < buffer.Length ==> buffer[k] == old(buffer[k])
    {
      buffer[i] := buffer[i + length];
      i := i + 1;
    }
  }
}
