/**
 nrf/nrf_driver.c: the same fragmentation over radio packets of at most 25 bytes, with the last 20
 bytes of the payload carried by the final packet.
 */
module NrfDriver {
  import opened Bytes
  import opened Crc
  import opened Reassembly

  const MAX_PL_LEN: nat := 25

  const MOTE_PACKET_FILL_RX_BUFFER: Byte := 3
  const MOTE_PACKET_FILL_RX_BUFFER_LONG: Byte := 4
  const MOTE_PACKET_PROCESS_RX_BUFFER: Byte := 5
  const MOTE_PACKET_PROCESS_SHORT_BUFFER: Byte := 6

  type Packet = seq<Byte>

  // ----- the packets of one payload -----

  /** The packet that carries a fragment: offsets up to 255 take one byte. */
  function PiecePacket(c: Chunk): Packet {
    if c.offset <= 255 then [MOTE_PACKET_FILL_RX_BUFFER, ToByte(c.offset)] + c.bytes
    else [MOTE_PACKET_FILL_RX_BUFFER_LONG, ToByte(c.offset / 256 % 256), ToByte(c.offset % 256)] + c.bytes
  }

  function Packets(cs: seq<Chunk>): (fs: seq<Packet>)
    ensures |fs| == |cs| && forall i :: 0 <= i < |cs| ==> fs[i] == PiecePacket(cs[i])
  {
    seq(|cs|, i requires 0 <= i < |cs| => PiecePacket(cs[i]))
  }

  /** What the fragments carry: all but the last 20 bytes. */
  function Front(p: seq<Byte>): (q: seq<Byte>)
    requires |p| >= 20
    ensures |q| == |p| - 20
  {
    p[..|p| - 20]
  }

  function ProcessPacket(p: seq<Byte>): (f: Packet)
    requires |p| >= 20
    ensures |f| == MAX_PL_LEN
  {
    [MOTE_PACKET_PROCESS_RX_BUFFER, ToByte(|p| / 256 % 256), ToByte(|p| % 256),
     HighByte(Checksum(p)), LowByteOf(Checksum(p))] + p[|p| - 20..]
  }

  /** All packets that nrf_driver_send_buffer transmits. */
  function SentPackets(p: seq<Byte>): seq<Packet> {
    if |p| < MAX_PL_LEN then [[MOTE_PACKET_PROCESS_SHORT_BUFFER] + p]
    else Packets(Pieces(Front(p), 23, 22)) + [ProcessPacket(p)]
  }

  /** No packet exceeds the radio's limit. */
  lemma PacketSize(p: seq<Byte>)
    ensures forall f :: f in SentPackets(p) ==> |f| <= 25
  {
    if |p| >= MAX_PL_LEN {
      hide Pieces, ProcessPacket;
      var cs := Pieces(Front(p), 23, 22);
      forall f | f in Packets(cs) ensures |f| <= MAX_PL_LEN {
        var i :| 0 <= i < |cs| && Packets(cs)[i] == f;
        PieceSize(Front(p), 23, 22, cs[i]);
      }
    }
  }

  /** The bytes of a packet that carries a fragment: type, offset, then payload. */
  lemma PieceLayout(c: Chunk)
    requires c.offset < 0x10000
    ensures var f := PiecePacket(c);
      && (c.offset <= 255 ==> |f| >= 2 && f[0] == 3 && FromByte(f[1]) == c.offset && f[2..] == c.bytes)
      && (c.offset > 255 ==>
            && |f| >= 3 && f[0] == 4 && f[3..] == c.bytes
            && FromByte(f[1]) == c.offset / 256 && FromByte(f[2]) == c.offset % 256)
  {
    hide ToByte, FromByte;
    SplitNumber(c.offset);
    ByteRoundTrip(c.offset % 256);
    ByteRoundTrip(c.offset / 256 % 256);
    assert c.offset <= 255 ==> c.offset % 256 == c.offset;
  }

  /** Packet k of the first loop carries the 23 bytes at 23 * k; there are twelve of them at most. */
  lemma FillPacketAt(p: seq<Byte>, k: nat)
    requires 25 <= |p| < 0x10000 && k < 12 && 23 * k < |p| - 20
    ensures var fs := SentPackets(p);
      && k < |fs| - 1 && |fs[k]| >= 2 && fs[k][0] == 3 && FromByte(fs[k][1]) == 23 * k
      && fs[k][2..] == p[23 * k..if 23 * k + 23 <= |p| - 20 then 23 * k + 23 else |p| - 20]
  {
    hide Pieces, PiecePacket, ProcessPacket, FromByte;
    var o, e := 23 * k, if 23 * k + 23 <= |p| - 20 then 23 * k + 23 else |p| - 20;
    FillPieceAt(Front(p), 23, 22, 12, k, o);
    PieceLayout(Pieces(Front(p), 23, 22)[k]);
    PrefixSlice(p, |p| - 20, o, e);
  }

  /** Packet k of the second loop carries the 22 bytes at 276 + 22 * k. */
  lemma LongPacketAt(p: seq<Byte>, k: nat)
    requires 25 <= |p| < 0x10000 && 276 + 22 * k < |p| - 20
    ensures var fs, o := SentPackets(p), 276 + 22 * k;
      && 12 + k < |fs| - 1 && |fs[12 + k]| >= 3 && fs[12 + k][0] == 4
      && FromByte(fs[12 + k][1]) == o / 256 && FromByte(fs[12 + k][2]) == o % 256
      && fs[12 + k][3..] == p[o..if o + 22 <= |p| - 20 then o + 22 else |p| - 20]
  {
    hide Pieces, PiecePacket, ProcessPacket, FromByte;
    var o := 276 + 22 * k;
    var e := if o + 22 <= |p| - 20 then o + 22 else |p| - 20;
    LongPieceAt(Front(p), 23, 22, 12, k, o);
    PieceLayout(Pieces(Front(p), 23, 22)[12 + k]);
    PrefixSlice(p, |p| - 20, o, e);
  }

  /** How many packets a payload takes. */
  lemma PacketCount(p: seq<Byte>)
    ensures |SentPackets(p)| ==
            if |p| <= 24 then 1
            else if |p| <= 296 then (|p| - 20 + 22) / 23 + 1
            else 12 + (|p| - 296 + 21) / 22 + 1
  {
    hide Pieces, PiecePacket, ProcessPacket;
    if 25 <= |p| <= 296 {
      var n := (|p| - 20 + 22) / 23;
      FillPieceAt(Front(p), 23, 22, 12, n - 1, 23 * (n - 1));
      if n < 12 {
        FillPieceAt(Front(p), 23, 22, 12, n, 23 * n);
      } else {
        LongPieceAt(Front(p), 23, 22, 12, 0, 276);
      }
    } else if |p| > 296 {
      var n := (|p| - 296 + 21) / 22;
      LongPieceAt(Front(p), 23, 22, 12, n - 1, 276 + 22 * (n - 1));
      LongPieceAt(Front(p), 23, 22, 12, n, 276 + 22 * n);
    }
  }

  /** The packet of a short payload, and the final packet of a longer one. */
  lemma SentLayout(p: seq<Byte>)
    ensures var fs := SentPackets(p);
      && (|p| <= 24 ==> fs == [[6] + p])
      && (25 <= |p| < 0x10000 ==>
            var f := fs[|fs| - 1];
            && |f| == 25 && f[0] == 5 && FromByte(f[1]) == |p| / 256 && FromByte(f[2]) == |p| % 256
            && f[3] == (Checksum(p) >> 8) as Byte && f[4] == (Checksum(p) & 0xFF) as Byte
            && f[5..] == p[|p| - 20..])
  {
    hide Pieces, PiecePacket, FromByte, ToByte, Checksum;
    if 25 <= |p| < 0x10000 {
      SplitNumber(|p|);
      ByteRoundTrip(|p| / 256 % 256);
      ByteRoundTrip(|p| % 256);
    }
  }

  // ----- the receiver -----

  /** The packet has the bytes its type needs. */
  predicate Complete(f: Packet) {
    && 1 <= |f|
    && (f[0] == MOTE_PACKET_FILL_RX_BUFFER ==> 2 <= |f|)
    && (f[0] == MOTE_PACKET_FILL_RX_BUFFER_LONG ==> 3 <= |f|)
    && (f[0] == MOTE_PACKET_PROCESS_RX_BUFFER ==> 5 <= |f|)
  }

  /** What the packet means; payloads go to commands_process_packet only. */
  function Decode(f: Packet): Message {
    if !Complete(f) then Ignored
    else if f[0] == MOTE_PACKET_FILL_RX_BUFFER then Fill(Chunk(FromByte(f[1]), f[2..]))
    else if f[0] == MOTE_PACKET_FILL_RX_BUFFER_LONG then Fill(Chunk(FromByte(f[1]) * 256 + FromByte(f[2]), f[3..]))
    else if f[0] == MOTE_PACKET_PROCESS_RX_BUFFER then
      Process(false, FromByte(f[1]) * 256 + FromByte(f[2]), JoinBytes(f[3], f[4]), f[5..])
    else if f[0] == MOTE_PACKET_PROCESS_SHORT_BUFFER then Short(false, f[1..])
    else Ignored
  }

  function Decoded(fs: seq<Packet>): (ms: seq<Message>)
    ensures |ms| == |fs| && forall i :: 0 <= i < |fs| ==> ms[i] == Decode(fs[i])
  {
    seq(|fs|, i requires 0 <= i < |fs| => Decode(fs[i]))
  }

  lemma DecodePiece(c: Chunk)
    requires c.offset < 0x10000
    ensures Decode(PiecePacket(c)) == Fill(c)
  {
    hide ToByte, FromByte;
    if c.offset <= 255 {
      ByteRoundTrip(c.offset);
    } else {
      TwoBytes(c.offset);
    }
    assert PiecePacket(c)[if c.offset <= 255 then 2 else 3..] == c.bytes;
  }

  lemma DecodeProcess(p: seq<Byte>)
    requires 20 <= |p| < 0x10000
    ensures Decode(ProcessPacket(p)) == Process(false, |p|, Checksum(p), p[|p| - 20..])
  {
    hide ToByte, FromByte, Checksum, HighByte, LowByteOf, JoinBytes;
    TwoBytes(|p|);
    JoinHalves(Checksum(p));
    assert ProcessPacket(p)[5..] == p[|p| - 20..];
  }

  /** Packets that are, as a set, those of the pieces mean, as a set, the pieces. */
  lemma DecodePieces(q: seq<Byte>, received: seq<Packet>)
    requires |q| <= RX_BUFFER_SIZE
    requires forall f :: f in received <==> f in Packets(Pieces(q, 23, 22))
    ensures forall m :: m in Decoded(received) <==> m in Fills(Pieces(q, 23, 22))
  {
    hide Decode, PiecePacket, Pieces;
    var cs := Pieces(q, 23, 22);
    forall i | 0 <= i < |cs| ensures Decode(Packets(cs)[i]) == Fill(cs[i]) {
      PieceSize(q, 23, 22, cs[i]);
      DecodePiece(cs[i]);
    }
    DecodeSet(cs, Packets(cs), received, Decoded(received), Decode);
  }

  /**
   Reassembly: whatever the receive buffer holds, if the fragments of a payload of 25 to 1024 bytes
   arrive in any order and any number of times each (at least once), and then the process packet,
   exactly that payload is handed over, exactly once.
   */
  lemma NrfReassembly(p: seq<Byte>, buf: seq<Byte>, received: seq<Packet>)
    requires |buf| == RX_BUFFER_SIZE && MAX_PL_LEN <= |p| <= RX_BUFFER_SIZE
    requires forall f :: f in received <==> f in Packets(Pieces(Front(p), 23, 22))
    ensures var ms := Decoded(received + [ProcessPacket(p)]);
      AllFit(ms) && AllHandedOver(buf, ms) == [Delivery(false, p)]
  {
    hide Decode, Pieces, ProcessPacket, Checksum, AllHandedOver, AllFit;
    DecodePieces(Front(p), received);
    PiecesTile(Front(p), 23, 22);
    AnyOrder(buf, Pieces(Front(p), 23, 22), Decoded(received), p, |p| - 20, false);
    DecodeProcess(p);
    assert Decoded(received + [ProcessPacket(p)]) ==
           Decoded(received) + [Process(false, |p|, Checksum(p), p[|p| - 20..])];
  }

  /** A payload of up to 24 bytes travels in one packet. */
  lemma NrfShort(p: seq<Byte>, buf: seq<Byte>)
    requires |buf| == RX_BUFFER_SIZE && |p| < MAX_PL_LEN
    ensures var ms := Decoded(SentPackets(p)); AllFit(ms) && AllHandedOver(buf, ms) == [Delivery(false, p)]
  {
    var f := SentPackets(p)[0];
    assert f[1..] == p;
    var ms := Decoded([f]);
    assert ms == [Short(false, p)] && ms[1..] == [];
  }

  // ----- the code -----

  lemma PacketsCons(c: Chunk, cs: seq<Chunk>)
    ensures Packets([c] + cs) == [PiecePacket(c)] + Packets(cs)
    ensures Packets([]) == []
  {
    hide PiecePacket;
  }

  lemma FillPacket(packets: seq<Packet>, q: seq<Byte>, i: nat, sendLen: nat)
    requires i < |q| && i <= 255 && sendLen == if i + 23 > |q| then |q| - i else 23
    ensures packets + Packets(FillChunks(q, i, 23)) ==
            packets + [PiecePacket(Chunk(i, q[i..i + sendLen]))] + Packets(FillChunks(q, i + 23, 23))
  {
    hide PiecePacket, Packets, FillChunks;
    FillStep(q, i, 23);
    PieceOf(q, i, sendLen, 23);
    PacketsCons(Chunk(i, q[i..i + sendLen]), FillChunks(q, i + 23, 23));
  }

  lemma LongPacket(packets: seq<Packet>, q: seq<Byte>, i: nat, sendLen: nat)
    requires i < |q| && sendLen == if i + 22 > |q| then |q| - i else 22
    ensures packets + Packets(LongChunks(q, i, 22)) ==
            packets + [PiecePacket(Chunk(i, q[i..i + sendLen]))] + Packets(LongChunks(q, i + 22, 22))
  {
    hide PiecePacket, Packets, LongChunks;
    LongStep(q, i, 22);
    PieceOf(q, i, sendLen, 22);
    PacketsCons(Chunk(i, q[i..i + sendLen]), LongChunks(q, i + 22, 22));
  }

  /** One iteration of the first loop. */
  method SendFill(data: array<Byte>, i: nat, sendLen: nat, sendBuffer: array<Byte>) returns (packet: Packet)
    requires i <= 255 && sendLen <= MAX_PL_LEN - 2 && i + sendLen <= data.Length
    requires sendBuffer.Length == MAX_PL_LEN && sendBuffer != data
    modifies sendBuffer
    ensures packet == PiecePacket(Chunk(i, data[i..i + sendLen]))
  {
    hide ToByte;
    sendBuffer[0], sendBuffer[1] := MOTE_PACKET_FILL_RX_BUFFER, ToByte(i);
    assert sendBuffer[..2] == [MOTE_PACKET_FILL_RX_BUFFER, ToByte(i)];
    Memcpy(sendBuffer, 2, data, i, sendLen);
    packet := sendBuffer[..sendLen + 2];
  }

  /** One iteration of the second loop. */
  method SendLong(data: array<Byte>, i: nat, sendLen: nat, sendBuffer: array<Byte>) returns (packet: Packet)
    requires i > 255 && sendLen <= MAX_PL_LEN - 3 && i + sendLen <= data.Length
    requires sendBuffer.Length == MAX_PL_LEN && sendBuffer != data
    modifies sendBuffer
    ensures packet == PiecePacket(Chunk(i, data[i..i + sendLen]))
  {
    hide ToByte;
    sendBuffer[0] := MOTE_PACKET_FILL_RX_BUFFER_LONG;
    sendBuffer[1], sendBuffer[2] := ToByte(i / 256 % 256), ToByte(i % 256);
    assert sendBuffer[..3] == [MOTE_PACKET_FILL_RX_BUFFER_LONG, ToByte(i / 256 % 256), ToByte(i % 256)];
    Memcpy(sendBuffer, 3, data, i, sendLen);
    packet := sendBuffer[..sendLen + 3];
  }

  /** The first loop of nrf_driver_send_buffer. */
  method SendFills(data: array<Byte>, len2: nat, sendBuffer: array<Byte>)
    returns (packets: seq<Packet>, endA: nat)
    requires len2 <= data.Length && sendBuffer.Length == MAX_PL_LEN && sendBuffer != data
    modifies sendBuffer
    ensures packets == Packets(FillChunks(data[..len2], 0, 23)) && endA == EndA(len2, 0, 23)
  {
    hide FillChunks, EndA, Min, PiecePacket, Packets;
    ghost var q := data[..len2];
    packets := [];
    endA := 0;
    var i := 0;
    while i < len2
      invariant i == endA && data[..len2] == q
      invariant packets + Packets(FillChunks(q, i, 23)) == Packets(FillChunks(q, 0, 23))
      invariant EndA(len2, i, 23) == EndA(len2, 0, 23)
      decreases len2 - i
    {
      FillStep(q, i, 23);
      if i > 255 {
        break;
      }
      endA := i + (MAX_PL_LEN - 2);
      var sendLen := MAX_PL_LEN - 2;
      if i + (MAX_PL_LEN - 2) > len2 {
        sendLen := len2 - i;
      }
      SliceOf(data, q, i, i + sendLen);
      FillPacket(packets, q, i, sendLen);
      var packet := SendFill(data, i, sendLen, sendBuffer);
      packets := packets + [packet];
      i := i + (MAX_PL_LEN - 2);
    }
    FillStep(q, i, 23);
    PacketsCons(Chunk(0, []), []);
  }

  /** The second loop of nrf_driver_send_buffer. */
  method SendLongs(data: array<Byte>, len2: nat, endA: nat, sendBuffer: array<Byte>)
    returns (packets: seq<Packet>)
    requires len2 <= data.Length && sendBuffer.Length == MAX_PL_LEN && sendBuffer != data
    requires endA >= len2 || endA > 255
    modifies sendBuffer
    ensures packets == Packets(LongChunks(data[..len2], endA, 22))
  {
    hide LongChunks, Min, PiecePacket, Packets;
    ghost var q := data[..len2];
    packets := [];
    var i := endA;
    while i < len2
      invariant i >= endA && data[..len2] == q
      invariant packets + Packets(LongChunks(q, i, 22)) == Packets(LongChunks(q, endA, 22))
      decreases len2 - i
    {
      var sendLen := MAX_PL_LEN - 3;
      if i + (MAX_PL_LEN - 3) > len2 {
        sendLen := len2 - i;
      }
      SliceOf(data, q, i, i + sendLen);
      LongPacket(packets, q, i, sendLen);
      var packet := SendLong(data, i, sendLen, sendBuffer);
      packets := packets + [packet];
      i := i + (MAX_PL_LEN - 3);
    }
    LongStep(q, i, 22);
    PacketsCons(Chunk(0, []), []);
  }

  /** The end of nrf_driver_send_buffer: the packet with length, CRC and the last bytes. */
  method SendProcess(data: array<Byte>, len: nat, sendBuffer: array<Byte>) returns (packet: Packet)
    requires MAX_PL_LEN <= len <= data.Length && sendBuffer.Length == MAX_PL_LEN && sendBuffer != data
    modifies sendBuffer
    ensures packet == ProcessPacket(data[..len])
  {
    hide ToByte, Checksum, HighByte, LowByteOf;
    ghost var p := data[..len];
    var len2 := len - (MAX_PL_LEN - 5);
    sendBuffer[0] := MOTE_PACKET_PROCESS_RX_BUFFER;
    sendBuffer[1], sendBuffer[2] := ToByte(len / 256 % 256), ToByte(len % 256);
    var crc := Crc16(data, len);
    sendBuffer[3], sendBuffer[4] := HighByte(crc), LowByteOf(crc);
    assert sendBuffer[..5] == [MOTE_PACKET_PROCESS_RX_BUFFER, ToByte(len / 256 % 256), ToByte(len % 256),
                               HighByte(crc), LowByteOf(crc)];
    Memcpy(sendBuffer, 5, data, len2, len - len2);
    SliceOf(data, p, len2, len);
    packet := sendBuffer[..5 + len - len2];
  }

  /** nrf_driver_send_buffer; returns the packets in the order in which they are transmitted. */
  method SendBuffer(data: array<Byte>, len: nat) returns (packets: seq<Packet>)
    requires len <= data.Length
    ensures packets == SentPackets(data[..len])
    ensures len <= 24 ==> packets == [[6] + data[..len]]
    ensures 25 <= len < 0x10000 ==>
      var f := packets[|packets| - 1];
      && |f| == 25 && f[0] == 5 && FromByte(f[1]) == len / 256 && FromByte(f[2]) == len % 256
      && f[3] == (Checksum(data[..len]) >> 8) as Byte && f[4] == (Checksum(data[..len]) & 0xFF) as Byte
      && f[5..] == data[len - 20..len]
  {
    hide FillChunks, LongChunks, EndA, PiecePacket, ProcessPacket;
    ghost var p := data[..len];
    var sendBuffer := new Byte[MAX_PL_LEN](i => 0);
    if len <= MAX_PL_LEN - 1 {
      sendBuffer[0] := MOTE_PACKET_PROCESS_SHORT_BUFFER;
      assert sendBuffer[..1] == [MOTE_PACKET_PROCESS_SHORT_BUFFER];
      Memcpy(sendBuffer, 1, data, 0, len);
      SliceOf(data, p, 0, len);
      packets := [sendBuffer[..1 + len]];
    } else {
      var len2 := len - (MAX_PL_LEN - 5);
      assert data[..len2] == Front(p);
      var endA;
      packets, endA := SendFills(data, len2, sendBuffer);
      var rest := SendLongs(data, len2, endA, sendBuffer);
      var last := SendProcess(data, len, sendBuffer);
      packets := packets + rest + [last];
      SliceOf(data, p, len - 20, len);
    }
    SentLayout(p);
    hide SentPackets, FromByte, Checksum;
  }

  /** The receive side of rx_thread, for the packets that carry payloads. */
  class Receiver {
    const rxBuffer: array<Byte>
    var deliveries: seq<Delivery>

    constructor ()
      ensures rxBuffer.Length == RX_BUFFER_SIZE && fresh(rxBuffer) && deliveries == []
    {
      rxBuffer := new Byte[RX_BUFFER_SIZE](i => 0);
      deliveries := [];
    }

    method ProcessRxPacket(buf: Packet)
      requires rxBuffer.Length == RX_BUFFER_SIZE && Complete(buf) && Fits(Decode(buf))
      modifies this, rxBuffer
      ensures rxBuffer[..] == NextBuffer(old(rxBuffer[..]), Decode(buf))
      ensures deliveries == old(deliveries) + HandedOver(old(rxBuffer[..]), Decode(buf))
      ensures buf[0] !in {3, 4, 5, 6} ==> rxBuffer[..] == old(rxBuffer[..]) && deliveries == old(deliveries)
      ensures buf[0] == 5 ==>
        var len := FromByte(buf[1]) * 256 + FromByte(buf[2]);
        deliveries == old(deliveries) +
          if len <= 1024 && Checksum(rxBuffer[..len]) == JoinBytes(buf[3], buf[4])
          then [Delivery(false, rxBuffer[..len])] else []
      ensures buf[0] == 6 ==>
        rxBuffer[..] == old(rxBuffer[..]) && deliveries == old(deliveries) + [Delivery(false, buf[1..])]
    {
      hide FromByte, Checksum, JoinBytes;
      if buf[0] == MOTE_PACKET_FILL_RX_BUFFER {
        CopyIn(rxBuffer, FromByte(buf[1]), buf[2..]);
      } else if buf[0] == MOTE_PACKET_FILL_RX_BUFFER_LONG {
        var rxbufInd := FromByte(buf[1]) * 256 + FromByte(buf[2]);
        if rxbufInd < RX_BUFFER_SIZE {
          CopyIn(rxBuffer, rxbufInd, buf[3..]);
        }
      } else if buf[0] == MOTE_PACKET_PROCESS_RX_BUFFER {
        var rxbufLen := FromByte(buf[1]) * 256 + FromByte(buf[2]);
        if rxbufLen > RX_BUFFER_SIZE {
          return;
        }
        var crcHigh, crcLow := buf[3], buf[4];
        CopyIn(rxBuffer, rxbufLen - (|buf| - 5), buf[5..]);
        assert rxBuffer[..][..rxbufLen] == rxBuffer[..rxbufLen];
        var crc := Crc16(rxBuffer, rxbufLen);
        if crc == JoinBytes(crcHigh, crcLow) {
          deliveries := deliveries + [Delivery(false, rxBuffer[..rxbufLen])];
        }
      } else if buf[0] == MOTE_PACKET_PROCESS_SHORT_BUFFER {
        deliveries := deliveries + [Delivery(false, buf[1..])];
      }
    }

    /** A whole run of packets. */
    method ReceiveAll(packets: seq<Packet>)
      requires rxBuffer.Length == RX_BUFFER_SIZE && AllFit(Decoded(packets))
      requires forall f <- packets :: Complete(f)
      modifies this, rxBuffer
      ensures rxBuffer[..] == Buffers(old(rxBuffer[..]), Decoded(packets))
      ensures deliveries == old(deliveries) + AllHandedOver(old(rxBuffer[..]), Decoded(packets))
    {
      hide Decode, Buffers, AllHandedOver, NextBuffer, HandedOver, AllFit, Fits, Complete;
      ghost var ms := Decoded(packets);
      assert ms[0..] == ms;
      var i := 0;
      while i < |packets|
        invariant 0 <= i <= |packets| && AllFit(ms[i..])
        invariant Buffers(rxBuffer[..], ms[i..]) == Buffers(old(rxBuffer[..]), ms)
        invariant deliveries + AllHandedOver(rxBuffer[..], ms[i..]) ==
                  old(deliveries) + AllHandedOver(old(rxBuffer[..]), ms)
      {
        RunOne(rxBuffer[..], ms, i);
        assert packets[i] in packets;
        ProcessRxPacket(packets[i]);
        i := i + 1;
      }
      assert ms[i..] == [];
      RunNothing(rxBuffer[..]);
    }
  }

  /**
   A payload over the link: the packets that nrf_driver_send_buffer transmits go through the receiver, with
   the fragments in any order and any number of times each (at least once), and the process packet after
   them. Whatever the receiver has seen before, exactly the payload is handed over, exactly once.
   */
  method Transfer(to: Receiver, data: array<Byte>, len: nat, order: seq<nat>)
    requires to.rxBuffer.Length == RX_BUFFER_SIZE && len <= data.Length && len <= RX_BUFFER_SIZE
    requires Covers(order, if len < MAX_PL_LEN then 0 else |Pieces(Front(data[..len]), 23, 22)|)
    modifies to, to.rxBuffer
    ensures to.deliveries == old(to.deliveries) + [Delivery(false, old(data[..len]))]
  {
    hide Decode, Pieces, AllHandedOver, AllFit, PiecePacket, ProcessPacket, Complete;
    ghost var p, buf := data[..len], to.rxBuffer[..];
    var packets := SendBuffer(data, len);
    if len < MAX_PL_LEN {
      NrfShort(p, buf);
      ShortComplete(packets[0]);
    } else {
      var n := |packets| - 1;
      ghost var sent := Packets(Pieces(Front(p), 23, 22));
      assert packets[..n] == sent && packets[n] == ProcessPacket(p);
      ArrivedSet(sent, order);
      NrfReassembly(p, buf, Arrived(sent, order));
      PiecesComplete(p);
      packets := Arrived(packets[..n], order) + [packets[n]];
    }
    to.ReceiveAll(packets);
  }

  lemma ShortComplete(f: Packet)
    requires f != [] && f[0] == MOTE_PACKET_PROCESS_SHORT_BUFFER
    ensures Complete(f)
  {
  }

  lemma PiecesComplete(p: seq<Byte>)
    requires |p| >= 20
    ensures forall f <- Packets(Pieces(Front(p), 23, 22)) :: Complete(f)
    ensures Complete(ProcessPacket(p))
  {
    hide Pieces;
  }
}
