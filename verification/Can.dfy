/**
 comm_can.c: splitting a payload into CAN frames with a one-byte or a two-byte offset, and putting
 it back together in the receive buffer.
 */
module Can {
  import opened Bytes
  import opened Crc
  import opened Reassembly

  datatype Command = FillRxBuffer | FillRxBufferLong | ProcessRxBuffer | ProcessShortBuffer | OtherCommand

  /** An extended frame: the low byte of the identifier, the command above it, and the data bytes. */
  datatype Frame = Frame(id: Byte, cmd: Command, data: seq<Byte>)

  function BoolByte(b: bool): Byte {
    if b then 1 else 0
  }

  // ----- the frames of one payload -----

  /** The frame that carries a fragment: offsets up to 255 take one byte. */
  function PieceFrame(id: Byte, c: Chunk): Frame {
    if c.offset <= 255 then Frame(id, FillRxBuffer, [ToByte(c.offset)] + c.bytes)
    else Frame(id, FillRxBufferLong, [ToByte(c.offset / 256 % 256), ToByte(c.offset % 256)] + c.bytes)
  }

  function Frames(id: Byte, cs: seq<Chunk>): (fs: seq<Frame>)
    ensures |fs| == |cs| && forall i :: 0 <= i < |cs| ==> fs[i] == PieceFrame(id, cs[i])
  {
    seq(|cs|, i requires 0 <= i < |cs| => PieceFrame(id, cs[i]))
  }

  function ProcessFrame(id: Byte, own: Byte, p: seq<Byte>, send: bool): Frame {
    Frame(id, ProcessRxBuffer,
          [own, BoolByte(send), ToByte(|p| / 256 % 256), ToByte(|p| % 256),
           HighByte(Checksum(p)), LowByteOf(Checksum(p))])
  }

  /** All frames that comm_can_send_buffer transmits. */
  function SentFrames(id: Byte, own: Byte, p: seq<Byte>, send: bool): seq<Frame> {
    if |p| <= 6 then [Frame(id, ProcessShortBuffer, [own, BoolByte(send)] + p)]
    else Frames(id, Pieces(p, 7, 6)) + [ProcessFrame(id, own, p, send)]
  }

  /** The bytes of a frame that carries a fragment: offset, then payload, in at most eight bytes. */
  lemma PieceLayout(id: Byte, c: Chunk)
    requires c.offset < 0x10000
    ensures var f := PieceFrame(id, c);
      && f.id == id
      && (c.offset <= 255 ==>
            f.cmd == FillRxBuffer && f.data != [] && FromByte(f.data[0]) == c.offset && f.data[1..] == c.bytes)
      && (c.offset > 255 ==>
            && f.cmd == FillRxBufferLong && |f.data| >= 2 && f.data[2..] == c.bytes
            && FromByte(f.data[0]) == c.offset / 256 && FromByte(f.data[1]) == c.offset % 256)
  {
    hide ToByte, FromByte;
    SplitNumber(c.offset);
    ByteRoundTrip(c.offset % 256);
    ByteRoundTrip(c.offset / 256 % 256);
    assert c.offset <= 255 ==> c.offset % 256 == c.offset;
  }

  /** Frame k of the first loop carries the seven bytes at 7 * k; there are 37 of them at most. */
  lemma FillFrameAt(id: Byte, own: Byte, p: seq<Byte>, send: bool, k: nat)
    requires 6 < |p| < 0x10000 && k < 37 && 7 * k < |p|
    ensures var fs := SentFrames(id, own, p, send);
      && k < |fs| - 1 && fs[k].id == id && fs[k].cmd == FillRxBuffer
      && fs[k].data != [] && FromByte(fs[k].data[0]) == 7 * k
      && fs[k].data[1..] == p[7 * k..if 7 * k + 7 <= |p| then 7 * k + 7 else |p|]
  {
    hide Pieces, PieceFrame, ProcessFrame, FromByte;
    FillPieceAt(p, 7, 6, 37, k, 7 * k);
    PieceLayout(id, Pieces(p, 7, 6)[k]);
  }

  /** Frame k of the second loop carries the six bytes at 259 + 6 * k. */
  lemma LongFrameAt(id: Byte, own: Byte, p: seq<Byte>, send: bool, k: nat)
    requires 6 < |p| < 0x10000 && 259 + 6 * k < |p|
    ensures var fs, o := SentFrames(id, own, p, send), 259 + 6 * k;
      && 37 + k < |fs| - 1 && fs[37 + k].id == id && fs[37 + k].cmd == FillRxBufferLong
      && |fs[37 + k].data| >= 2 && FromByte(fs[37 + k].data[0]) == o / 256 && FromByte(fs[37 + k].data[1]) == o % 256
      && fs[37 + k].data[2..] == p[o..if o + 6 <= |p| then o + 6 else |p|]
  {
    hide Pieces, PieceFrame, ProcessFrame, FromByte;
    LongPieceAt(p, 7, 6, 37, k, 259 + 6 * k);
    PieceLayout(id, Pieces(p, 7, 6)[37 + k]);
  }

  /** How many frames a payload takes. */
  lemma FrameCount(id: Byte, own: Byte, p: seq<Byte>, send: bool)
    ensures |SentFrames(id, own, p, send)| ==
            if |p| <= 6 then 1 else if |p| <= 259 then (|p| + 6) / 7 + 1 else 37 + (|p| - 259 + 5) / 6 + 1
  {
    hide Pieces, PieceFrame, ProcessFrame;
    if 6 < |p| <= 259 {
      var n := (|p| + 6) / 7;
      FillPieceAt(p, 7, 6, 37, n - 1, 7 * (n - 1));
      if n < 37 {
        FillPieceAt(p, 7, 6, 37, n, 7 * n);
      } else {
        LongPieceAt(p, 7, 6, 37, 0, 259);
      }
    } else if |p| > 259 {
      var n := (|p| - 259 + 5) / 6;
      LongPieceAt(p, 7, 6, 37, n - 1, 259 + 6 * (n - 1));
      LongPieceAt(p, 7, 6, 37, n, 259 + 6 * n);
    }
  }

  /** The bytes of the final frame: sender, flag, length and CRC, each high byte first. */
  lemma ProcessLayout(id: Byte, own: Byte, p: seq<Byte>, send: bool)
    requires |p| < 0x10000
    ensures var f := ProcessFrame(id, own, p, send);
      && f.id == id && f.cmd == ProcessRxBuffer && |f.data| == 6
      && f.data[0] == own && f.data[1] == (if send then 1 else 0)
      && FromByte(f.data[2]) == |p| / 256 && FromByte(f.data[3]) == |p| % 256
      && f.data[4] == (Checksum(p) >> 8) as Byte && f.data[5] == (Checksum(p) & 0xFF) as Byte
  {
    hide ToByte, FromByte, Checksum;
    SplitNumber(|p|);
    ByteRoundTrip(|p| / 256 % 256);
    ByteRoundTrip(|p| % 256);
  }

  /** Every frame goes to the controller that the payload is for; the last one says who sends it. */
  lemma SentLayout(id: Byte, own: Byte, p: seq<Byte>, send: bool)
    ensures var fs := SentFrames(id, own, p, send);
      && (forall f :: f in fs ==> f.id == id)
      && (|p| <= 6 ==> fs == [Frame(id, ProcessShortBuffer, [own, if send then 1 else 0] + p)])
      && (6 < |p| < 0x10000 ==>
            var f := fs[|fs| - 1];
            && f.id == id && f.cmd == ProcessRxBuffer && |f.data| == 6
            && f.data[0] == own && f.data[1] == (if send then 1 else 0)
            && FromByte(f.data[2]) == |p| / 256 && FromByte(f.data[3]) == |p| % 256
            && f.data[4] == (Checksum(p) >> 8) as Byte && f.data[5] == (Checksum(p) & 0xFF) as Byte)
  {
    hide Pieces, FromByte, ToByte, Checksum;
    if 6 < |p| < 0x10000 {
      ProcessLayout(id, own, p, send);
    }
  }

  // ----- the receiver -----

  predicate Addressed(own: Byte, f: Frame) {
    f.id == 255 || f.id == own
  }

  /** The frame has the bytes its command needs. */
  predicate Complete(f: Frame) {
    match f.cmd
    case FillRxBuffer => 1 <= |f.data|
    case FillRxBufferLong => 2 <= |f.data|
    case ProcessRxBuffer => 6 <= |f.data|
    case ProcessShortBuffer => 2 <= |f.data|
    case OtherCommand => true
  }

  /** What the frame means to the controller with identifier own. */
  function Decode(own: Byte, f: Frame): Message {
    if !Addressed(own, f) || !Complete(f) then Ignored
    else match f.cmd
      case FillRxBuffer => Fill(Chunk(FromByte(f.data[0]), f.data[1..]))
      case FillRxBufferLong => Fill(Chunk(FromByte(f.data[0]) * 256 + FromByte(f.data[1]), f.data[2..]))
      case ProcessRxBuffer =>
        Process(f.data[1] != 0, FromByte(f.data[2]) * 256 + FromByte(f.data[3]), JoinBytes(f.data[4], f.data[5]), [])
      case ProcessShortBuffer => Short(f.data[1] != 0, f.data[2..])
      case OtherCommand => Ignored
  }

  function Decoded(own: Byte, fs: seq<Frame>): (ms: seq<Message>)
    ensures |ms| == |fs| && forall i :: 0 <= i < |fs| ==> ms[i] == Decode(own, fs[i])
  {
    seq(|fs|, i requires 0 <= i < |fs| => Decode(own, fs[i]))
  }

  lemma DecodePiece(own: Byte, id: Byte, c: Chunk)
    requires id in {own, 255} && c.offset < 0x10000
    ensures Decode(own, PieceFrame(id, c)) == Fill(c)
  {
    hide ToByte, FromByte;
    if c.offset <= 255 {
      ByteRoundTrip(c.offset);
    } else {
      TwoBytes(c.offset);
    }
    assert PieceFrame(id, c).data[if c.offset <= 255 then 1 else 2..] == c.bytes;
  }

  lemma DecodeProcess(own: Byte, sender: Byte, id: Byte, p: seq<Byte>, send: bool)
    requires id in {own, 255} && |p| < 0x10000
    ensures Decode(own, ProcessFrame(id, sender, p, send)) == Process(send, |p|, Checksum(p), [])
  {
    hide ToByte, FromByte, Checksum, HighByte, LowByteOf, JoinBytes;
    TwoBytes(|p|);
    JoinHalves(Checksum(p));
  }

  /** Frames that are, as a set, those of the pieces mean, as a set, the pieces. */
  lemma DecodePieces(own: Byte, id: Byte, p: seq<Byte>, received: seq<Frame>)
    requires id in {own, 255} && |p| <= RX_BUFFER_SIZE
    requires forall f :: f in received <==> f in Frames(id, Pieces(p, 7, 6))
    ensures forall m :: m in Decoded(own, received) <==> m in Fills(Pieces(p, 7, 6))
  {
    hide Decode, PieceFrame, Pieces;
    var cs := Pieces(p, 7, 6);
    forall i | 0 <= i < |cs| ensures Decode(own, Frames(id, cs)[i]) == Fill(cs[i]) {
      PieceSize(p, 7, 6, cs[i]);
      DecodePiece(own, id, cs[i]);
    }
    DecodeSet(cs, Frames(id, cs), received, Decoded(own, received), f => Decode(own, f));
  }

  /**
   Reassembly: whatever the receive buffer holds, if the fragments of a payload arrive in any order
   and any number of times each (at least once), and then the process frame, exactly that payload is
   handed over, exactly once.
   */
  lemma CanReassembly(own: Byte, sender: Byte, id: Byte, p: seq<Byte>, send: bool, buf: seq<Byte>, received: seq<Frame>)
    requires |buf| == RX_BUFFER_SIZE && 6 < |p| <= RX_BUFFER_SIZE && id in {own, 255}
    requires forall f :: f in received <==> f in Frames(id, Pieces(p, 7, 6))
    ensures var ms := Decoded(own, received + [ProcessFrame(id, sender, p, send)]);
      AllFit(ms) && AllHandedOver(buf, ms) == [Delivery(send, p)]
  {
    hide Decode, Pieces, ProcessFrame, Checksum, AllHandedOver, AllFit;
    DecodePieces(own, id, p, received);
    PiecesTile(p, 7, 6);
    assert p[..|p|] == p && p[|p|..] == [];
    AnyOrder(buf, Pieces(p, 7, 6), Decoded(own, received), p, |p|, send);
    DecodeProcess(own, sender, id, p, send);
    assert Decoded(own, received + [ProcessFrame(id, sender, p, send)]) ==
           Decoded(own, received) + [Process(send, |p|, Checksum(p), [])];
  }

  /** A payload of up to six bytes travels in one frame. */
  lemma CanShort(own: Byte, sender: Byte, id: Byte, p: seq<Byte>, send: bool, buf: seq<Byte>)
    requires |buf| == RX_BUFFER_SIZE && |p| <= 6 && id in {own, 255}
    ensures var ms := Decoded(own, SentFrames(id, sender, p, send));
      AllFit(ms) && AllHandedOver(buf, ms) == [Delivery(send, p)]
  {
    var f := SentFrames(id, sender, p, send)[0];
    assert f.data[2..] == p;
    var ms := Decoded(own, [f]);
    assert ms == [Short(send, p)] && ms[1..] == [];
  }

  // ----- the code -----

  lemma FramesCons(id: Byte, c: Chunk, cs: seq<Chunk>)
    ensures Frames(id, [c] + cs) == [PieceFrame(id, c)] + Frames(id, cs)
    ensures Frames(id, []) == []
  {
    hide PieceFrame;
  }

  lemma FillFrame(id: Byte, frames: seq<Frame>, p: seq<Byte>, i: nat, sendLen: nat)
    requires i < |p| && i <= 255 && sendLen == if i + 7 > |p| then |p| - i else 7
    ensures frames + Frames(id, FillChunks(p, i, 7)) ==
            frames + [PieceFrame(id, Chunk(i, p[i..i + sendLen]))] + Frames(id, FillChunks(p, i + 7, 7))
  {
    hide PieceFrame, Frames, FillChunks;
    FillStep(p, i, 7);
    PieceOf(p, i, sendLen, 7);
    FramesCons(id, Chunk(i, p[i..i + sendLen]), FillChunks(p, i + 7, 7));
  }

  lemma LongFrame(id: Byte, frames: seq<Frame>, p: seq<Byte>, i: nat, sendLen: nat)
    requires i < |p| && sendLen == if i + 6 > |p| then |p| - i else 6
    ensures frames + Frames(id, LongChunks(p, i, 6)) ==
            frames + [PieceFrame(id, Chunk(i, p[i..i + sendLen]))] + Frames(id, LongChunks(p, i + 6, 6))
  {
    hide PieceFrame, Frames, LongChunks;
    LongStep(p, i, 6);
    PieceOf(p, i, sendLen, 6);
    FramesCons(id, Chunk(i, p[i..i + sendLen]), LongChunks(p, i + 6, 6));
  }

  /** One iteration of the first loop. */
  method SendFill(id: Byte, data: array<Byte>, i: nat, sendLen: nat, sendBuffer: array<Byte>) returns (frame: Frame)
    requires i <= 255 && sendLen <= 7 && i + sendLen <= data.Length && sendBuffer.Length == 8 && sendBuffer != data
    modifies sendBuffer
    ensures frame == PieceFrame(id, Chunk(i, data[i..i + sendLen]))
  {
    hide ToByte;
    sendBuffer[0] := ToByte(i);
    assert sendBuffer[..1] == [ToByte(i)];
    Memcpy(sendBuffer, 1, data, i, sendLen);
    frame := Frame(id, FillRxBuffer, sendBuffer[..sendLen + 1]);
  }

  /** One iteration of the second loop. */
  method SendLong(id: Byte, data: array<Byte>, i: nat, sendLen: nat, sendBuffer: array<Byte>) returns (frame: Frame)
    requires i > 255 && sendLen <= 6 && i + sendLen <= data.Length && sendBuffer.Length == 8 && sendBuffer != data
    modifies sendBuffer
    ensures frame == PieceFrame(id, Chunk(i, data[i..i + sendLen]))
  {
    hide ToByte;
    sendBuffer[0], sendBuffer[1] := ToByte(i / 256 % 256), ToByte(i % 256);
    assert sendBuffer[..2] == [ToByte(i / 256 % 256), ToByte(i % 256)];
    Memcpy(sendBuffer, 2, data, i, sendLen);
    frame := Frame(id, FillRxBufferLong, sendBuffer[..sendLen + 2]);
  }

  /** The first loop of comm_can_send_buffer. */
  method SendFills(id: Byte, data: array<Byte>, len: nat, sendBuffer: array<Byte>)
    returns (frames: seq<Frame>, endA: nat)
    requires len <= data.Length && sendBuffer.Length == 8 && sendBuffer != data
    modifies sendBuffer
    ensures frames == Frames(id, FillChunks(data[..len], 0, 7)) && endA == EndA(len, 0, 7)
  {
    hide FillChunks, EndA, Min, PieceFrame, Frames;
    ghost var p := data[..len];
    frames := [];
    endA := 0;
    var i := 0;
    while i < len
      invariant i == endA && data[..len] == p
      invariant frames + Frames(id, FillChunks(p, i, 7)) == Frames(id, FillChunks(p, 0, 7))
      invariant EndA(len, i, 7) == EndA(len, 0, 7)
      decreases len - i
    {
      FillStep(p, i, 7);
      if i > 255 {
        break;
      }
      endA := i + 7;
      var sendLen := 7;
      if i + 7 > len {
        sendLen := len - i;
      }
      SliceOf(data, p, i, i + sendLen);
      FillFrame(id, frames, p, i, sendLen);
      var frame := SendFill(id, data, i, sendLen, sendBuffer);
      frames := frames + [frame];
      i := i + 7;
    }
    FillStep(p, i, 7);
    FramesCons(id, Chunk(0, []), []);
  }

  /** The second loop of comm_can_send_buffer. */
  method SendLongs(id: Byte, data: array<Byte>, len: nat, endA: nat, sendBuffer: array<Byte>)
    returns (frames: seq<Frame>)
    requires len <= data.Length && sendBuffer.Length == 8 && sendBuffer != data && (endA >= len || endA > 255)
    modifies sendBuffer
    ensures frames == Frames(id, LongChunks(data[..len], endA, 6))
  {
    hide LongChunks, Min, PieceFrame, Frames;
    ghost var p := data[..len];
    frames := [];
    var i := endA;
    while i < len
      invariant i >= endA && data[..len] == p
      invariant frames + Frames(id, LongChunks(p, i, 6)) == Frames(id, LongChunks(p, endA, 6))
      decreases len - i
    {
      var sendLen := 6;
      if i + 6 > len {
        sendLen := len - i;
      }
      SliceOf(data, p, i, i + sendLen);
      LongFrame(id, frames, p, i, sendLen);
      var frame := SendLong(id, data, i, sendLen, sendBuffer);
      frames := frames + [frame];
      i := i + 6;
    }
    LongStep(p, i, 6);
    FramesCons(id, Chunk(0, []), []);
  }

  /** The end of comm_can_send_buffer: the frame that has the receiver process the payload. */
  method SendProcess(id: Byte, own: Byte, data: array<Byte>, len: nat, send: bool, sendBuffer: array<Byte>)
    returns (frame: Frame)
    requires len <= data.Length && sendBuffer.Length == 8 && sendBuffer != data
    modifies sendBuffer
    ensures frame == ProcessFrame(id, own, data[..len], send)
  {
    hide ToByte, Checksum, HighByte, LowByteOf;
    sendBuffer[0], sendBuffer[1] := own, BoolByte(send);
    sendBuffer[2], sendBuffer[3] := ToByte(len / 256 % 256), ToByte(len % 256);
    var crc := Crc16(data, len);
    sendBuffer[4], sendBuffer[5] := HighByte(crc), LowByteOf(crc);
    frame := Frame(id, ProcessRxBuffer, sendBuffer[..6]);
  }

  /** comm_can_send_buffer; returns the frames in the order in which they are transmitted. */
  method SendBuffer(controllerId: Byte, own: Byte, data: array<Byte>, len: nat, send: bool)
    returns (frames: seq<Frame>)
    requires len <= data.Length
    ensures frames == SentFrames(controllerId, own, data[..len], send)
    ensures forall f :: f in frames ==> f.id == controllerId
    ensures len <= 6 ==>
      frames == [Frame(controllerId, ProcessShortBuffer, [own, if send then 1 else 0] + data[..len])]
    ensures 6 < len < 0x10000 ==>
      var f := frames[|frames| - 1];
      && f.id == controllerId && f.cmd == ProcessRxBuffer && |f.data| == 6
      && f.data[0] == own && f.data[1] == (if send then 1 else 0)
      && FromByte(f.data[2]) == len / 256 && FromByte(f.data[3]) == len % 256
      && f.data[4] == (Checksum(data[..len]) >> 8) as Byte && f.data[5] == (Checksum(data[..len]) & 0xFF) as Byte
  {
    hide FillChunks, LongChunks, EndA, PieceFrame, ProcessFrame;
    ghost var p := data[..len];
    var sendBuffer := new Byte[8](i => 0);
    if len <= 6 {
      sendBuffer[0], sendBuffer[1] := own, BoolByte(send);
      assert sendBuffer[..2] == [own, BoolByte(send)];
      Memcpy(sendBuffer, 2, data, 0, len);
      SliceOf(data, p, 0, len);
      frames := [Frame(controllerId, ProcessShortBuffer, sendBuffer[..2 + len])];
    } else {
      var endA;
      frames, endA := SendFills(controllerId, data, len, sendBuffer);
      var rest := SendLongs(controllerId, data, len, endA, sendBuffer);
      var last := SendProcess(controllerId, own, data, len, send, sendBuffer);
      frames := frames + rest + [last];
    }
    SentLayout(controllerId, own, p, send);
    hide SentFrames;
  }

  /** The frame ends a payload; its first byte says who sent it. */
  predicate Final(f: Frame) {
    f.cmd in {ProcessShortBuffer, ProcessRxBuffer} && 2 <= |f.data|
  }

  /** The receive side of cancom_process_thread, for the commands that carry payloads. */
  class Receiver {
    const controllerId: Byte
    const rxBuffer: array<Byte>
    var rxBufferLastId: Byte
    var deliveries: seq<Delivery>

    constructor (controllerId: Byte)
      ensures this.controllerId == controllerId && rxBuffer.Length == RX_BUFFER_SIZE && fresh(rxBuffer)
      ensures deliveries == []
    {
      this.controllerId := controllerId;
      rxBuffer := new Byte[RX_BUFFER_SIZE](i => 0);
      rxBufferLastId := 0;
      deliveries := [];
    }

    /** The case for the final frame of a fragmented payload. */
    method ProcessBuffer(rxmsg: Frame)
      requires rxBuffer.Length == RX_BUFFER_SIZE && Addressed(controllerId, rxmsg)
      requires rxmsg.cmd == ProcessRxBuffer && Complete(rxmsg)
      modifies this
      ensures deliveries == old(deliveries) + HandedOver(rxBuffer[..], Decode(controllerId, rxmsg))
      ensures rxBufferLastId == rxmsg.data[0]
      ensures var len := FromByte(rxmsg.data[2]) * 256 + FromByte(rxmsg.data[3]);
        deliveries == old(deliveries) +
          if len <= 1024 && Checksum(rxBuffer[..len]) == JoinBytes(rxmsg.data[4], rxmsg.data[5])
          then [Delivery(rxmsg.data[1] != 0, rxBuffer[..len])] else []
    {
      hide FromByte, Checksum, JoinBytes;
      rxBufferLastId := rxmsg.data[0];
      var commandsSend := rxmsg.data[1] != 0;
      var rxbufLen := FromByte(rxmsg.data[2]) * 256 + FromByte(rxmsg.data[3]);
      if rxbufLen > RX_BUFFER_SIZE {
        return;
      }
      var crcHigh, crcLow := rxmsg.data[4], rxmsg.data[5];
      var crc := Crc16(rxBuffer, rxbufLen);
      ApplyNothing(rxBuffer[..], rxbufLen);
      assert rxBuffer[..][..rxbufLen] == rxBuffer[..rxbufLen];
      if crc == JoinBytes(crcHigh, crcLow) {
        deliveries := deliveries + [Delivery(commandsSend, rxBuffer[..rxbufLen])];
      }
    }

    /** The two cases for fragments. */
    method StoreFragment(rxmsg: Frame)
      requires rxBuffer.Length == RX_BUFFER_SIZE && Addressed(controllerId, rxmsg)
      requires rxmsg.cmd in {FillRxBuffer, FillRxBufferLong} && Complete(rxmsg) && Fits(Decode(controllerId, rxmsg))
      modifies rxBuffer
      ensures rxBuffer[..] == NextBuffer(old(rxBuffer[..]), Decode(controllerId, rxmsg))
      ensures rxmsg.cmd == FillRxBuffer ==>
        var o, n := FromByte(rxmsg.data[0]), |rxmsg.data| - 1;
        forall k :: 0 <= k < 1024 ==> rxBuffer[k] == if o <= k < o + n then rxmsg.data[1 + k - o] else old(rxBuffer[k])
      ensures rxmsg.cmd == FillRxBufferLong ==>
        var o, n := FromByte(rxmsg.data[0]) * 256 + FromByte(rxmsg.data[1]), |rxmsg.data| - 2;
        forall k :: 0 <= k < 1024 ==> rxBuffer[k] == if o <= k < o + n then rxmsg.data[2 + k - o] else old(rxBuffer[k])
    {
      hide FromByte;
      if rxmsg.cmd == FillRxBuffer {
        CopyIn(rxBuffer, FromByte(rxmsg.data[0]), rxmsg.data[1..]);
      } else {
        var rxbufInd := FromByte(rxmsg.data[0]) * 256 + FromByte(rxmsg.data[1]);
        if rxbufInd < RX_BUFFER_SIZE {
          CopyIn(rxBuffer, rxbufInd, rxmsg.data[2..]);
        }
      }
    }

    method ProcessRxFrame(rxmsg: Frame)
      requires rxBuffer.Length == RX_BUFFER_SIZE
      requires Addressed(controllerId, rxmsg) ==> Complete(rxmsg) && Fits(Decode(controllerId, rxmsg))
      modifies this, rxBuffer
      ensures rxBuffer[..] == NextBuffer(old(rxBuffer[..]), Decode(controllerId, rxmsg))
      ensures deliveries == old(deliveries) + HandedOver(old(rxBuffer[..]), Decode(controllerId, rxmsg))
      ensures rxBufferLastId == if Addressed(controllerId, rxmsg) && rxmsg.cmd in {ProcessShortBuffer, ProcessRxBuffer}
                                then rxmsg.data[0] else old(rxBufferLastId)
      ensures (rxmsg.id != 255 && rxmsg.id != controllerId) || rxmsg.cmd == OtherCommand ==>
        rxBuffer[..] == old(rxBuffer[..]) && deliveries == old(deliveries) && rxBufferLastId == old(rxBufferLastId)
      ensures rxmsg.id in {255, controllerId} && rxmsg.cmd == ProcessRxBuffer ==>
        && rxBuffer[..] == old(rxBuffer[..]) && rxBufferLastId == rxmsg.data[0]
        && var len := FromByte(rxmsg.data[2]) * 256 + FromByte(rxmsg.data[3]);
          deliveries == old(deliveries) +
            if len <= 1024 && Checksum(rxBuffer[..len]) == JoinBytes(rxmsg.data[4], rxmsg.data[5])
            then [Delivery(rxmsg.data[1] != 0, rxBuffer[..len])] else []
      ensures rxmsg.id in {255, controllerId} && rxmsg.cmd == ProcessShortBuffer ==>
        && rxBuffer[..] == old(rxBuffer[..]) && rxBufferLastId == rxmsg.data[0]
        && deliveries == old(deliveries) + [Delivery(rxmsg.data[1] != 0, rxmsg.data[2..])]
    {
      hide FromByte, Checksum, JoinBytes, Apply;
      if rxmsg.id == 255 || rxmsg.id == controllerId {
        match rxmsg.cmd
        case FillRxBuffer =>
          StoreFragment(rxmsg);
        case FillRxBufferLong =>
          StoreFragment(rxmsg);
        case ProcessRxBuffer =>
          ProcessBuffer(rxmsg);
          ghost var len := Decode(controllerId, rxmsg).len;
          ApplyNothing(rxBuffer[..], if len <= RX_BUFFER_SIZE then len else 0);
        case ProcessShortBuffer =>
          rxBufferLastId := rxmsg.data[0];
          var commandsSend := rxmsg.data[1] != 0;
          deliveries := deliveries + [Delivery(commandsSend, rxmsg.data[2..])];
        case OtherCommand =>
      }
    }

    /** A whole run of frames. */
    method ReceiveAll(frames: seq<Frame>)
      requires rxBuffer.Length == RX_BUFFER_SIZE && AllFit(Decoded(controllerId, frames))
      requires forall f <- frames :: Addressed(controllerId, f) ==> Complete(f)
      modifies this, rxBuffer
      ensures rxBuffer[..] == Buffers(old(rxBuffer[..]), Decoded(controllerId, frames))
      ensures deliveries == old(deliveries) + AllHandedOver(old(rxBuffer[..]), Decoded(controllerId, frames))
      ensures |frames| > 0 && Final(frames[|frames| - 1]) && frames[|frames| - 1].id in {255, controllerId} ==>
        rxBufferLastId == frames[|frames| - 1].data[0]
    {
      hide Decode, Buffers, AllHandedOver, NextBuffer, HandedOver, AllFit, Fits, Complete;
      ghost var ms := Decoded(controllerId, frames);
      assert ms[0..] == ms;
      var i := 0;
      while i < |frames|
        invariant 0 <= i <= |frames| && AllFit(ms[i..])
        invariant Buffers(rxBuffer[..], ms[i..]) == Buffers(old(rxBuffer[..]), ms)
        invariant deliveries + AllHandedOver(rxBuffer[..], ms[i..]) ==
                  old(deliveries) + AllHandedOver(old(rxBuffer[..]), ms)
        invariant i > 0 && Final(frames[i - 1]) && frames[i - 1].id in {255, controllerId} ==>
                  rxBufferLastId == frames[i - 1].data[0]
      {
        RunOne(rxBuffer[..], ms, i);
        assert frames[i] in frames;
        ProcessRxFrame(frames[i]);
        i := i + 1;
      }
      assert ms[i..] == [];
      RunNothing(rxBuffer[..]);
    }
  }

  /**
   A payload over the link: the frames that comm_can_send_buffer transmits go through the receiver, with the
   fragments in any order and any number of times each (at least once), and the final frame after them.
   Whatever the receiver has seen before, exactly the payload is handed over, exactly once.
   */
  method Transfer(to: Receiver, id: Byte, own: Byte, data: array<Byte>, len: nat, send: bool, order: seq<nat>)
    requires to.rxBuffer.Length == RX_BUFFER_SIZE && id in {to.controllerId, 255}
    requires len <= data.Length && len <= RX_BUFFER_SIZE
    requires Covers(order, if len <= 6 then 0 else |Pieces(data[..len], 7, 6)|)
    modifies to, to.rxBuffer
    ensures to.deliveries == old(to.deliveries) + [Delivery(send, old(data[..len]))]
    ensures to.rxBufferLastId == own
  {
    hide Decode, Pieces, AllHandedOver, AllFit, PieceFrame, ProcessFrame, Complete;
    ghost var p, buf := data[..len], to.rxBuffer[..];
    var frames := SendBuffer(id, own, data, len, send);
    if len <= 6 {
      CanShort(to.controllerId, own, id, p, send, buf);
      ShortComplete(frames[0]);
    } else {
      var n := |frames| - 1;
      ghost var sent := Frames(id, Pieces(p, 7, 6));
      assert frames[..n] == sent && frames[n] == ProcessFrame(id, own, p, send);
      ArrivedSet(sent, order);
      CanReassembly(to.controllerId, own, id, p, send, buf, Arrived(sent, order));
      PiecesComplete(id, own, p, send);
      frames := Arrived(frames[..n], order) + [frames[n]];
    }
    to.ReceiveAll(frames);
  }

  /**
   A payload and the answer to it: the receiver answers with the identifier it has stored, and that takes
   the answer back to the sender, for payloads and answers of every length.
   */
  method Exchange(from: Receiver, to: Receiver, data: array<Byte>, len: nat, order: seq<nat>,
                  reply: array<Byte>, replyLen: nat, replyOrder: seq<nat>)
    requires from != to && from.rxBuffer != to.rxBuffer && {from.rxBuffer, to.rxBuffer} !! {data, reply}
    requires from.rxBuffer.Length == to.rxBuffer.Length == RX_BUFFER_SIZE
    requires len <= data.Length && len <= RX_BUFFER_SIZE && replyLen <= reply.Length && replyLen <= RX_BUFFER_SIZE
    requires Covers(order, if len <= 6 then 0 else |Pieces(data[..len], 7, 6)|)
    requires Covers(replyOrder, if replyLen <= 6 then 0 else |Pieces(reply[..replyLen], 7, 6)|)
    modifies from, from.rxBuffer, to, to.rxBuffer
    ensures to.deliveries == old(to.deliveries) + [Delivery(false, data[..len])]
    ensures from.deliveries == old(from.deliveries) + [Delivery(true, reply[..replyLen])]
    ensures to.rxBufferLastId == from.controllerId && from.rxBufferLastId == to.controllerId
  {
    hide Pieces, Covers;
    Transfer(to, to.controllerId, from.controllerId, data, len, false, order);
    Transfer(from, to.rxBufferLastId, to.controllerId, reply, replyLen, true, replyOrder);
  }

  /** A controller takes nothing from frames that are meant for another one. */
  method Overhear(other: Receiver, id: Byte, frames: seq<Frame>)
    requires other.rxBuffer.Length == RX_BUFFER_SIZE && id != other.controllerId && id != 255
    requires forall f :: f in frames ==> f.id == id
    modifies other, other.rxBuffer
    ensures other.rxBuffer[..] == old(other.rxBuffer[..]) && other.deliveries == old(other.deliveries)
    ensures other.rxBufferLastId == old(other.rxBufferLastId)
  {
    hide Complete, Fits;
    var i := 0;
    while i < |frames|
      invariant other.rxBuffer[..] == old(other.rxBuffer[..]) && other.deliveries == old(other.deliveries)
      invariant other.rxBufferLastId == old(other.rxBufferLastId)
    {
      assert frames[i] in frames;
      other.ProcessRxFrame(frames[i]);
      i := i + 1;
    }
  }

  lemma ShortComplete(f: Frame)
    requires f.cmd == ProcessShortBuffer && 2 <= |f.data|
    ensures Complete(f)
  {
  }

  lemma PiecesComplete(id: Byte, own: Byte, p: seq<Byte>, send: bool)
    ensures forall f <- Frames(id, Pieces(p, 7, 6)) :: Complete(f)
    ensures Complete(ProcessFrame(id, own, p, send))
  {
    hide Pieces;
  }
}
