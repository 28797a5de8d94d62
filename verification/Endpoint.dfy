/** The buffers and links of a GraphWrap endpoint: the code of the emitters, of handleRemoteData and of
    handleLocalData, changing their buffers in place. Each method is specified by the functions on the
    buffered bytes in the module Framing. */
module Endpoint {
  import opened Wire
  import opened Framing

  /** The bytes that went out when write returned that many, or -1. */
  function Out(s: seq<Byte>, written: int): seq<Byte>
    requires -1 <= written <= |s|
  {
    if written < 0 then [] else s[..written]
  }

  lemma AllOut(s: seq<Byte>)
    ensures Out(s, |s|) == s
  {
  }

  /** The values of a uint64_t. */
  const WORDS: nat := 0x1_0000_0000_0000_0000

  /** A connection to the router: the bytes written to it so far, and the statistics. */
  class Link {
    const le: bool
    ghost var sent: seq<Byte>
    var bytesWritten: nat
    var dataPackets: nat
    var commandPackets: nat

    constructor (le: bool)
      ensures sent == [] && bytesWritten == dataPackets == commandPackets == 0 && this.le == le
    {
      this.le := le;
      sent, bytesWritten, dataPackets, commandPackets := [], 0, 0, 0;
    }

    /** gnw_emitPacket. written is what write returned: how many bytes the descriptor took, or -1. */
    method EmitPacket(packet: array<Byte>, written: int)
      requires -1 <= written <= packet.Length
      modifies this`sent, this`bytesWritten
      ensures sent == old(sent) + Out(packet[..], written) && bytesWritten == (old(bytesWritten) + written) % WORDS
    {
      sent := sent + Out(packet[..], written);
      bytesWritten := (bytesWritten + written) % WORDS;
    }

    /** Lays out header and payload through a moving write position. */
    method Build(kind: Byte, source: U32, buffer: array<Byte>, length: nat) returns (packet: array<Byte>)
      requires length <= buffer.Length && length + HEADER < 0x1_0000_0000
      ensures fresh(packet) && packet[..] == Encode(le, Packet(kind, source, buffer[..length]))
    {
      packet := new Byte[length + HEADER](_ => 0);
      var ptr := WriteU8(packet, 0, MAGIC);
      ptr := WriteU8(packet, ptr, VERSION);
      ptr := WriteU8(packet, ptr, kind);
      assert packet[..3] == [MAGIC, VERSION, kind];
      ptr := WriteU32(le, packet, ptr, source);
      ghost var front := packet[..7];
      assert front == [MAGIC, VERSION, kind] + PutU32(le, source);
      ptr := WriteU32(le, packet, ptr, length);
      assert packet[..11] == front + PutU32(le, length);
      for i := 0 to length
        invariant packet[..11] == front + PutU32(le, length)
        invariant packet[11..11 + i] == buffer[..i]
      {
        packet[ptr + i] := buffer[i];
      }
      assert packet[..] == packet[..11] + packet[11..11 + length];
    }

    /** gnw_emitDataPacket: empty payloads are refused. */
    method EmitData(source: U32, buffer: array<Byte>, length: nat, written: int)
      requires length <= buffer.Length && length + HEADER < 0x1_0000_0000 && -1 <= written <= length + HEADER
      modifies this
      ensures commandPackets == old(commandPackets)
      ensures length == 0 ==> sent == old(sent) && dataPackets == old(dataPackets) && bytesWritten == old(bytesWritten)
      ensures length > 0 ==>
        && sent == old(sent) + Out(Encode(le, Packet(DATA, source, buffer[..length])), written)
        && dataPackets == old(dataPackets) + 1 && bytesWritten == (old(bytesWritten) + written) % WORDS
    {
      if length == 0 {
        return;
      }
      dataPackets := dataPackets + 1;
      var packet := Build(DATA, source, buffer, length);
      EmitPacket(packet, written);
    }

    /** gnw_emitCommandPacket: the source field is all ones, and empty payloads are sent. */
    method EmitCommand(kind: Byte, buffer: array<Byte>, length: nat, written: int)
      requires length <= buffer.Length && length + HEADER < 0x1_0000_0000 && -1 <= written <= length + HEADER
      modifies this
      ensures sent == old(sent) + Out(Encode(le, Packet(kind, COMMAND_SOURCE, buffer[..length])), written)
      ensures bytesWritten == (old(bytesWritten) + written) % WORDS
      ensures commandPackets == old(commandPackets) + 1 && dataPackets == old(dataPackets)
    {
      commandPackets := commandPackets + 1;
      var packet := Build(kind, COMMAND_SOURCE, buffer, length);
      EmitPacket(packet, written);
    }
  }

  /** A local_buffer_t: mtu * 20 bytes, of which the first `tail` are in use. */
  class Buffer {
    const mtu: nat
    const data: array<Byte>
    var tail: nat

    ghost predicate Valid()
      reads this, data
    {
      data.Length == mtu * 20 && tail <= data.Length
    }

    ghost function Held(): seq<Byte>
      reads this, data
      requires Valid()
    {
      data[..tail]
    }

    constructor (mtu: nat)
      ensures Valid() && Held() == [] && fresh(data) && this.mtu == mtu
    {
      this.mtu := mtu;
      data := new Byte[mtu * 20](_ => 0);
      tail := 0;
    }

    /** read(2): appends bytes that fit behind the tail. */
    method Fill(chunk: seq<Byte>)
      requires Valid() && tail + |chunk| <= data.Length
      modifies this`tail, data
      ensures Valid() && Held() == old(Held()) + chunk
    {
      for i := 0 to |chunk|
        invariant tail == old(tail)
        invariant data[..tail + i] == old(data[..tail]) + chunk[..i]
      {
        data[tail + i] := chunk[i];
      }
      tail := tail + |chunk|;
    }

    /** Drops the first k bytes in place. */
    method Drop(k: nat)
      requires Valid() && k <= tail
      modifies this`tail, data
      ensures Valid() && Held() == old(Held())[k..] && tail == old(tail) - k
    {
      Shift(data, data.Length, k);
      tail := tail - k;
      assert data[..tail] == data[..data.Length - k][..tail];
    }

    /** gnw_nextPacket on the bytes in use. */
    method Ready(le: bool) returns (r: int)
      requires Valid()
      ensures r == NextPacket(le, Held())
    {
      hide PacketSize;
      if tail < HEADER {
        return 0;
      }
      if data[0] != MAGIC {
        return -1;
      }
      var h, _ := ReadHeader(le, data);
      SameHeader(le, data[..], tail);
      if h.version != VERSION {
        return -2;
      }
      var total := PacketSize(h.length);
      if total <= tail {
        return total;
      }
      return 0;
    }

    /** handleRemoteData after a successful read: parses, resynchronises and hands packets on. At a header whose size
        wraps around the loop stops with a fault. */
    method HandleRemote(le: bool, chunk: seq<Byte>) returns (packets: seq<Packet>, fault: bool)
      requires Valid() && tail + |chunk| <= data.Length
      modifies this`tail, data
      ensures Valid()
      ensures Drain(le, old(Held()) + chunk) == Drained(packets, Held(), fault)
    {
      hide Drain, NextPacket, ParseHeader;
      Fill(chunk);
      ghost var all := Drain(le, Held());
      StartDraining(le, Held());
      packets, fault := [], false;
      var readyBytes := Ready(le);
      while readyBytes != 0
        invariant Valid() && readyBytes == NextPacket(le, Held())
        invariant Draining(le, all, packets, Held())
        decreases tail
      {
        if readyBytes < 0 {
          DrainDrop(le, all, packets, Held());
          Drop(1);
        } else {
          DrainPacket(le, all, packets, Held());
          var header, ptr := ReadHeader(le, data);
          SameHeader(le, data[..], tail);
          if readyBytes != HEADER + header.length {
            return packets, true;
          }
          var payload := data[ptr..ptr + header.length];
          assert payload == Held()[HEADER..HEADER + header.length];
          Drop(HEADER + header.length);
          packets := packets + [Packet(header.kind, header.source, payload)];
        }
        readyBytes := Ready(le);
      }
      StopDraining(le, all, packets, Held());
    }

    /** handleLocalData after a successful read that leaves the buffer less than nearly full: sends what
        lies in front of each delimiter. */
    method HandleLocal(link: Link, source: U32, delimiter: Byte, chunk: seq<Byte>)
      requires Valid() && tail + |chunk| + mtu <= data.Length && data.Length + HEADER < 0x1_0000_0000
      requires link as object != this
      modifies this`tail, data, link
      ensures Valid()
      ensures Held() == Scan(delimiter, old(Held()) + chunk, 0).rest
      ensures var ps := DataPackets(source, Scan(delimiter, old(Held()) + chunk, 0).payloads);
              AllEncodable(ps) && link.sent == old(link.sent) + EncodeAll(link.le, ps)
    {
      hide Scan, EncodeAll, Encode, Scanning, Out;
      Fill(chunk);
      ghost var all := Scan(delimiter, Held(), 0);
      StartScanning(delimiter, Held());
      NothingSent(link.le, link.sent, source);
      ghost var done: seq<seq<Byte>> := [];
      var cursor := 0;
      while cursor < tail
        invariant Valid() && cursor <= tail
        invariant Scanning(delimiter, all, done, Held(), cursor)
        invariant Sent(link.le, old(link.sent), link.sent, source, done)
        decreases tail - cursor
      {
        ScanOnce(delimiter, all, done, Held(), cursor);
        if data[cursor] == delimiter {
          label L:
          link.EmitData(source, data, cursor, cursor + HEADER);
          if cursor > 0 {
            assert data[..cursor] == Held()[..cursor];
            AllOut(Encode(link.le, Packet(DATA, source, data[..cursor])));
            SentOneMore(link.le, old(link.sent), old@L(link.sent), source, done, data[..cursor]);
            done := done + [data[..cursor]];
          }
          Drop(cursor);
          cursor := 0;
        }
        cursor := cursor + 1;
      }
      StopScanning(delimiter, all, done, Held(), cursor);
    }
  }

  /** The receiving loop has handed on `packets` and still holds b. */
  ghost predicate Draining(le: bool, all: Drained, packets: seq<Packet>, b: seq<Byte>) {
    var d := Drain(le, b); all == Drained(packets + d.packets, d.rest, d.fault)
  }

  lemma StartDraining(le: bool, b: seq<Byte>)
    ensures Draining(le, Drain(le, b), [], b)
  {
  }

  lemma DrainDrop(le: bool, all: Drained, packets: seq<Packet>, b: seq<Byte>)
    requires Draining(le, all, packets, b) && NextPacket(le, b) < 0
    ensures |b| >= HEADER && Draining(le, all, packets, b[1..])
  {
  }

  lemma DrainPacket(le: bool, all: Drained, packets: seq<Packet>, b: seq<Byte>)
    requires Draining(le, all, packets, b) && NextPacket(le, b) > 0
    ensures HEADER <= |b|
    ensures var h := ParseHeader(le, b); var r := HEADER + h.length;
      if NextPacket(le, b) == r then r <= |b| && Draining(le, all, packets + [Packet(h.kind, h.source, b[HEADER..r])], b[r..])
      else all == Drained(packets, b, true)
  {
    hide Drain, NextPacket, ParseHeader;
    DrainTake(le, b);
  }

  lemma DrainTake(le: bool, b: seq<Byte>)
    requires NextPacket(le, b) > 0
    ensures HEADER <= |b|
    ensures var h := ParseHeader(le, b); var r := HEADER + h.length;
      if NextPacket(le, b) == r then
        r <= |b| && var d := Drain(le, b[r..]);
        Drain(le, b) == Drained([Packet(h.kind, h.source, b[HEADER..r])] + d.packets, d.rest, d.fault)
      else Drain(le, b) == Drained([], b, true)
  {
  }

  lemma StopDraining(le: bool, all: Drained, packets: seq<Packet>, b: seq<Byte>)
    requires Draining(le, all, packets, b) && NextPacket(le, b) == 0
    ensures all == Drained(packets, b, false)
  {
  }

  /** The scan stands at c of the held bytes b and has cut off `done`. */
  ghost predicate Scanning(delimiter: Byte, all: Cut, done: seq<seq<Byte>>, b: seq<Byte>, c: nat) {
    var s := Scan(delimiter, b, c); all == Cut(done + s.payloads, s.rest)
  }

  lemma StartScanning(delimiter: Byte, b: seq<Byte>)
    ensures Scanning(delimiter, Scan(delimiter, b, 0), [], b, 0)
  {
  }

  lemma ScanOnce(delimiter: Byte, all: Cut, done: seq<seq<Byte>>, b: seq<Byte>, c: nat)
    requires Scanning(delimiter, all, done, b, c) && c < |b|
    ensures b[c] != delimiter ==> Scanning(delimiter, all, done, b, c + 1)
    ensures b[c] == delimiter ==> Scanning(delimiter, all, if c == 0 then done else done + [b[..c]], b[c..], 1)
  {
  }

  lemma StopScanning(delimiter: Byte, all: Cut, done: seq<seq<Byte>>, b: seq<Byte>, c: nat)
    requires Scanning(delimiter, all, done, b, c) && c >= |b|
    ensures all == Cut(done, b)
  {
  }

  /** The link went from `before` to `now` by the data packets of `done`. */
  ghost predicate Sent(le: bool, before: seq<Byte>, now: seq<Byte>, source: U32, done: seq<seq<Byte>>) {
    var ps := DataPackets(source, done);
    AllEncodable(ps) && now == before + EncodeAll(le, ps)
  }

  lemma NothingSent(le: bool, before: seq<Byte>, source: U32)
    ensures Sent(le, before, before, source, [])
  {
  }

  lemma SentOneMore(le: bool, before: seq<Byte>, now: seq<Byte>, source: U32, done: seq<seq<Byte>>, p: seq<Byte>)
    requires Sent(le, before, now, source, done) && |p| + HEADER < 0x1_0000_0000
    ensures Sent(le, before, now + Encode(le, Packet(DATA, source, p)), source, done + [p])
  {
    EncodeOneMore(le, source, done, p);
  }

  /** The header lies within the first eleven bytes. */
  lemma SameHeader(le: bool, b: seq<Byte>, n: nat)
    requires HEADER <= n <= |b|
    ensures ParseHeader(le, b[..n]) == ParseHeader(le, b)
  {
    assert b[..n][3..7] == b[3..7] && b[..n][7..11] == b[7..11];
  }

  lemma EncodeOneMore(le: bool, source: U32, payloads: seq<seq<Byte>>, p: seq<Byte>)
    requires AllEncodable(DataPackets(source, payloads)) && |p| + HEADER < 0x1_0000_0000
    ensures AllEncodable(DataPackets(source, payloads + [p]))
    ensures EncodeAll(le, DataPackets(source, payloads + [p])) == EncodeAll(le, DataPackets(source, payloads)) + Encode(le, Packet(DATA, source, p))
  {
    assert DataPackets(source, payloads + [p]) == DataPackets(source, payloads) + [Packet(DATA, source, p)];
    EncodeAllAppend(le, DataPackets(source, payloads), Packet(DATA, source, p));
  }

  lemma {:induction false} EncodeAllAppend(le: bool, ps: seq<Packet>, p: Packet)
    requires AllEncodable(ps) && Encodable(p)
    ensures AllEncodable(ps + [p]) && EncodeAll(le, ps + [p]) == EncodeAll(le, ps) + Encode(le, p)
  {
    hide Encode;
    if ps == [] {
      assert ps + [p] == [p] && [p][1..] == [];
      EncodeOne(le, p);
    } else {
      assert (ps + [p])[1..] == ps[1..] + [p];
      EncodeAllAppend(le, ps[1..], p);
    }
  }

  lemma EncodeOne(le: bool, p: Packet)
    requires Encodable(p)
    ensures EncodeAll(le, [p]) == Encode(le, p)
  {
    assert EncodeAll(le, [p][1..]) == [];
    hide Encode;
  }
}
