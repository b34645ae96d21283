/** packet.c: the per-handler packet encoder, byte-wise decoder and timeout. */
module Packet {
  import opened Bytes
  import opened Crc
  import opened Framing

  /** The header of `since` is complete and declares `len`; n payload bytes are in the buffer. */
  ghost predicate HasPayload(since: seq<Byte>, len: nat, buf: seq<Byte>, n: nat) {
    && GoodHeader(since) && HeaderLength(since) + n <= |since|
    && len == DeclaredLength(since) && n <= len <= |buf|
    && buf[..n] == since[HeaderLength(since)..HeaderLength(since) + n]
  }

  /** What the fields of a handler say about the bytes since the last accepted start byte. */
  ghost predicate Tracks(rxState: nat, ptr: nat, len: nat, crcHigh: Byte, crcLow: Byte,
                         since: seq<Byte>, buf: seq<Byte>) {
    match rxState
    case 0 => since == []
    case 1 => since == [3] && ptr == 0
    case 2 => ptr == 0 && ((since == [2] && len == 0) ||
                           (|since| == 2 && since[0] == 3 && len == FromByte(since[1]) * 256))
    case 3 => ptr < len && HasPayload(since, len, buf, ptr) && |since| == HeaderLength(since) + ptr
    case 4 => HasPayload(since, len, buf, len) && |since| == HeaderLength(since) + len
    case 5 => HasPayload(since, len, buf, len) && |since| == HeaderLength(since) + len + 1
      && since[|since| - 1] == crcHigh
    case 6 => HasPayload(since, len, buf, len) && |since| == HeaderLength(since) + len + 2
      && since[|since| - 2] == crcHigh && since[|since| - 1] == crcLow
    case _ => false
  }

  lemma TrackIdle(ptr: nat, len: nat, h: Byte, l: Byte, buf: seq<Byte>)
    ensures Tracks(0, ptr, len, h, l, [], buf)
  {
  }

  lemma TrackStart(ptr: nat, len: nat, h: Byte, l: Byte, since: seq<Byte>, buf: seq<Byte>, b: Byte)
    requires Tracks(0, ptr, len, h, l, since, buf)
    ensures since == [] && (InProgress([b]) <==> b == 2 || b == 3)
    ensures Tracks(2, 0, 0, h, l, [2], buf) && Tracks(1, 0, 0, h, l, [3], buf)
  {
  }

  lemma TrackHigh(ptr: nat, len: nat, h: Byte, l: Byte, since: seq<Byte>, buf: seq<Byte>, b: Byte)
    requires Tracks(1, ptr, len, h, l, since, buf)
    ensures |since| == 1 && InProgress(since + [b]) && ptr == 0
    ensures Tracks(2, ptr, FromByte(b) * 256, h, l, since + [b], buf)
  {
    hide FromByte;
  }

  lemma TrackLength(ptr: nat, len: nat, h: Byte, l: Byte, since: seq<Byte>, buf: seq<Byte>, b: Byte)
    requires Tracks(2, ptr, len, h, l, since, buf) && |buf| == PACKET_MAX_PL_LEN
    ensures |since| <= 2 && (InProgress(since + [b]) <==> 0 < len + FromByte(b) <= PACKET_MAX_PL_LEN)
    ensures InProgress(since + [b]) ==> Tracks(3, ptr, len + FromByte(b), h, l, since + [b], buf)
  {
    hide FromByte;
    var f := since + [b];
    assert f[..|since|] == since && f[|since|] == b;
    assert |f| == HeaderLength(f) && DeclaredLength(f) == len + FromByte(b);
  }

  lemma SliceBefore(s: seq<Byte>, b: Byte, lo: nat, hi: nat)
    requires lo <= hi <= |s|
    ensures (s + [b])[lo..hi] == s[lo..hi]
  {
  }

  lemma HeaderKept(since: seq<Byte>, b: Byte)
    requires since != [] && |since| >= HeaderLength(since)
    ensures HeaderLength(since + [b]) == HeaderLength(since) && DeclaredLength(since + [b]) == DeclaredLength(since)
    ensures GoodHeader(since + [b]) <==> GoodHeader(since)
  {
    hide FromByte;
    assert (since + [b])[..|since|] == since;
  }

  lemma PayloadKept(since: seq<Byte>, len: nat, buf: seq<Byte>, n: nat, b: Byte)
    requires HasPayload(since, len, buf, n)
    ensures HasPayload(since + [b], len, buf, n)
  {
    assert since != [];
    hide GoodHeader, HeaderLength, DeclaredLength;
    HeaderKept(since, b);
    SliceBefore(since, b, HeaderLength(since), HeaderLength(since) + n);
  }

  lemma PayloadGrows(since: seq<Byte>, len: nat, buf: seq<Byte>, n: nat, b: Byte)
    requires HasPayload(since, len, buf, n) && |since| == HeaderLength(since) + n && n < len
    ensures HasPayload(since + [b], len, buf[n := b], n + 1)
  {
    assert since != [];
    hide GoodHeader, HeaderLength, DeclaredLength;
    HeaderKept(since, b);
    var h, f := HeaderLength(since), since + [b];
    assert f[h..h + n + 1] == since[h..h + n] + [b];
    assert buf[n := b][..n + 1] == buf[..n] + [b];
  }

  lemma TrackPayload(ptr: nat, len: nat, h: Byte, l: Byte, since: seq<Byte>, buf: seq<Byte>, b: Byte)
    requires Tracks(3, ptr, len, h, l, since, buf)
    ensures InProgress(since + [b]) && ptr < len && ptr < |buf|
    ensures Tracks(if ptr + 1 == len then 4 else 3, ptr + 1, len, h, l, since + [b], buf[ptr := b])
  {
    PayloadGrows(since, len, buf, ptr, b);
    HeaderKept(since, b);
    hide GoodHeader, HeaderLength, DeclaredLength, HasPayload;
  }

  lemma TrackChecksum(ptr: nat, len: nat, h: Byte, l: Byte, since: seq<Byte>, buf: seq<Byte>, b: Byte)
    ensures Tracks(4, ptr, len, h, l, since, buf) ==>
      InProgress(since + [b]) && Tracks(5, ptr, len, b, l, since + [b], buf)
    ensures Tracks(5, ptr, len, h, l, since, buf) ==>
      InProgress(since + [b]) && Tracks(6, ptr, len, h, b, since + [b], buf)
  {
    hide FromByte;
    if Tracks(4, ptr, len, h, l, since, buf) || Tracks(5, ptr, len, h, l, since, buf) {
      PayloadKept(since, len, buf, len, b);
      HeaderKept(since, b);
    }
    hide GoodHeader, HeaderLength, DeclaredLength, HasPayload;
  }

  /** At the last byte the frame is complete; it is accepted if that is the end byte and the CRC matches. */
  lemma TrackEnd(ptr: nat, len: nat, h: Byte, l: Byte, since: seq<Byte>, buf: seq<Byte>, b: Byte)
    requires Tracks(6, ptr, len, h, l, since, buf)
    ensures len <= |buf| && Complete(since + [b]) && !InProgress(since + [b])
    ensures PayloadOf(since + [b]) == buf[..len]
    ensures Accepted(since + [b]) <==> b == 3 && Checksum(buf[..len]) == JoinBytes(h, l)
  {
    hide FromByte, Checksum, HighByte, LowByteOf, JoinBytes;
    var f := since + [b];
    HeaderKept(since, b);
    hide DeclaredLength;
    SliceBefore(since, b, HeaderLength(since), HeaderLength(since) + len);
    JoinSplit(Checksum(buf[..len]), h, l);
    assert f[|f| - 3..] == [h, l, b];
  }

  /** One entry of handler_states. Calls of send_func and process_func are recorded in logs. */
  class Handler {
    var rxState: nat
    var rxTimeout: nat
    const hasSendFunc: bool
    const hasProcessFunc: bool
    var payloadLength: nat
    const rxBuffer: array<Byte>
    const txBuffer: array<Byte>
    var rxDataPtr: nat
    var crcLow: Byte
    var crcHigh: Byte
    var sent: seq<seq<Byte>>
    var processed: seq<seq<Byte>>
    /** Bytes since the last accepted start byte; empty in state 0. */
    ghost var since: seq<Byte>

    constructor (hasSendFunc: bool, hasProcessFunc: bool)
      ensures Valid() && State() == Rx([], 0) && processed == sent == []
      ensures this.hasSendFunc == hasSendFunc && this.hasProcessFunc == hasProcessFunc
      ensures fresh(rxBuffer) && fresh(txBuffer)
    {
      rxState, rxTimeout, payloadLength, rxDataPtr, crcLow, crcHigh := 0, 0, 0, 0, 0, 0;
      this.hasSendFunc, this.hasProcessFunc := hasSendFunc, hasProcessFunc;
      rxBuffer := new Byte[PACKET_MAX_PL_LEN](i => 0);
      txBuffer := new Byte[PACKET_MAX_PL_LEN + 6](i => 0);
      sent, processed, since := [], [], [];
    }

    ghost function State(): Rx
      reads this
    {
      Rx(since, rxTimeout)
    }

    ghost predicate Valid()
      reads this, rxBuffer
    {
      && rxBuffer.Length == PACKET_MAX_PL_LEN && txBuffer.Length == PACKET_MAX_PL_LEN + 6
      && txBuffer != rxBuffer && rxTimeout <= PACKET_RX_TIMEOUT
      && Tracks(rxState, rxDataPtr, payloadLength, crcHigh, crcLow, since, rxBuffer[..])
    }

    method ProcessByte(rxData: Byte)
      requires Valid()
      modifies this, rxBuffer
      ensures Valid()
      ensures State() == Step(old(State()), rxData)
      ensures processed == old(processed) + if hasProcessFunc then Delivered(old(State()), rxData) else []
      ensures sent == old(sent)
    {
      if rxState < 3 {
        HeaderByte(rxData);
      } else if rxState == 3 {
        PayloadByte(rxData);
      } else if rxState < 6 {
        ChecksumByte(rxData);
      } else {
        EndOfFrame(rxData);
      }
    }

    /** Cases 0 to 2 of the switch. */
    method HeaderByte(rxData: Byte)
      requires Valid() && rxState < 3
      modifies this
      ensures Valid()
      ensures State() == Step(old(State()), rxData)
      ensures processed == old(processed) + if hasProcessFunc then Delivered(old(State()), rxData) else []
      ensures sent == old(sent)
    {
      hide FromByte, Step, Delivered, InProgress, Tracks;
      ghost var f := since + [rxData];
      TrackIdle(rxDataPtr, payloadLength, crcHigh, crcLow, rxBuffer[..]);
      if rxState == 0 {
        TrackStart(rxDataPtr, payloadLength, crcHigh, crcLow, since, rxBuffer[..], rxData);
        QuietStep(State(), rxData);
        assert f == [rxData];
        if rxData == 2 {
          rxState := rxState + 2;
          rxTimeout := PACKET_RX_TIMEOUT;
          rxDataPtr := 0;
          payloadLength := 0;
          since := f;
        } else if rxData == 3 {
          rxState := rxState + 1;
          rxTimeout := PACKET_RX_TIMEOUT;
          rxDataPtr := 0;
          payloadLength := 0;
          since := f;
        } else {
          rxState := 0;
        }
      } else if rxState == 1 {
        TrackHigh(rxDataPtr, payloadLength, crcHigh, crcLow, since, rxBuffer[..], rxData);
        QuietStep(State(), rxData);
        payloadLength := FromByte(rxData) * 256;
        rxState := rxState + 1;
        rxTimeout := PACKET_RX_TIMEOUT;
        since := f;
      } else {
        TrackLength(rxDataPtr, payloadLength, crcHigh, crcLow, since, rxBuffer[..], rxData);
        QuietStep(State(), rxData);
        // The low byte of payloadLength is clear, so the bitwise or is an addition.
        payloadLength := payloadLength + FromByte(rxData);
        TrackIdle(rxDataPtr, payloadLength, crcHigh, crcLow, rxBuffer[..]);
        if payloadLength > 0 && payloadLength <= PACKET_MAX_PL_LEN {
          rxState := rxState + 1;
          rxTimeout := PACKET_RX_TIMEOUT;
          since := f;
        } else {
          rxState := 0;
          since := [];
        }
      }
    }

    /** Case 3 of the switch. */
    method PayloadByte(rxData: Byte)
      requires Valid() && rxState == 3
      modifies this, rxBuffer
      ensures Valid()
      ensures State() == Step(old(State()), rxData)
      ensures processed == old(processed) + if hasProcessFunc then Delivered(old(State()), rxData) else []
      ensures sent == old(sent)
    {
      hide Step, Delivered, InProgress, Tracks;
      ghost var was := rxBuffer[..];
      TrackPayload(rxDataPtr, payloadLength, crcHigh, crcLow, since, was, rxData);
      QuietStep(State(), rxData);
      rxBuffer[rxDataPtr] := rxData;
      assert rxBuffer[..] == was[rxDataPtr := rxData];
      rxDataPtr := rxDataPtr + 1;
      if rxDataPtr == payloadLength {
        rxState := rxState + 1;
      }
      rxTimeout := PACKET_RX_TIMEOUT;
      since := since + [rxData];
    }

    /** Cases 4 and 5 of the switch. */
    method ChecksumByte(rxData: Byte)
      requires Valid() && 4 <= rxState < 6
      modifies this
      ensures Valid()
      ensures State() == Step(old(State()), rxData)
      ensures processed == old(processed) + if hasProcessFunc then Delivered(old(State()), rxData) else []
      ensures sent == old(sent)
    {
      hide Step, Delivered, InProgress, Tracks;
      TrackChecksum(rxDataPtr, payloadLength, crcHigh, crcLow, since, rxBuffer[..], rxData);
      QuietStep(State(), rxData);
      if rxState == 4 {
        crcHigh := rxData;
      } else {
        crcLow := rxData;
      }
      rxState := rxState + 1;
      rxTimeout := PACKET_RX_TIMEOUT;
      since := since + [rxData];
    }

    /** Case 6 of the switch. */
    method EndOfFrame(rxData: Byte)
      requires Valid() && rxState == 6
      modifies this
      ensures Valid() && State() == Step(old(State()), rxData)
      ensures processed == old(processed) + if hasProcessFunc then Delivered(old(State()), rxData) else []
      ensures sent == old(sent)
    {
      hide Checksum, JoinBytes, InProgress, Accepted, PayloadOf, Complete, Tracks;
      TrackEnd(rxDataPtr, payloadLength, crcHigh, crcLow, since, rxBuffer[..], rxData);
      TrackIdle(rxDataPtr, payloadLength, crcHigh, crcLow, rxBuffer[..]);
      assert rxBuffer[..][..payloadLength] == rxBuffer[..payloadLength];
      var crc := Crc16(rxBuffer, payloadLength);
      if rxData == 3 {
        if crc == JoinBytes(crcHigh, crcLow) {
          if hasProcessFunc {
            processed := processed + [rxBuffer[..payloadLength]];
          }
        }
      }
      rxState := 0;
      since := [];
    }

    /** The start byte and the length. */
    method PutHeader(len: nat) returns (bInd: nat)
      requires txBuffer.Length == PACKET_MAX_PL_LEN + 6 && len <= PACKET_MAX_PL_LEN
      modifies txBuffer
      ensures bInd == |Header(len)| && txBuffer[..bInd] == Header(len)
    {
      hide ToByte;
      if len <= 256 {
        txBuffer[0] := 2;
        txBuffer[1] := ToByte(len % 256);
        bInd := 2;
      } else {
        txBuffer[0] := 3;
        txBuffer[1] := ToByte(len / 256);
        txBuffer[2] := ToByte(len % 256);
        bInd := 3;
      }
    }

    /** The part of packet_send_packet that builds the frame in the transmit buffer. */
    method FillFrame(data: array<Byte>, len: nat) returns (n: nat)
      requires txBuffer.Length == PACKET_MAX_PL_LEN + 6 && len <= PACKET_MAX_PL_LEN
      requires len <= data.Length && data != txBuffer
      modifies txBuffer
      ensures n == |Encode(data[..len])| <= txBuffer.Length && txBuffer[..n] == Encode(data[..len])
    {
      hide Checksum, HighByte, LowByteOf, Header;
      ghost var p := data[..len];
      EncodeParts(p);
      n := PutHeader(len);
      ghost var header := Header(len);
      Memcpy(txBuffer, n, data, 0, len);
      n := n + len;
      ghost var body := header + p;
      assert txBuffer[..n] == body;
      assert data[..len] == p;
      var crc := Crc16(data, len);
      txBuffer[n], txBuffer[n + 1], txBuffer[n + 2] := HighByte(crc), LowByteOf(crc), 3;
      assert txBuffer[..n] == body;
      assert txBuffer[n..n + 3] == [HighByte(crc), LowByteOf(crc), 3];
      assert Trailer(p) == [HighByte(crc), LowByteOf(crc), 3];
      n := n + 3;
      assert txBuffer[..n] == txBuffer[..n - 3] + txBuffer[n - 3..n];
    }

    /** packet_send_packet: builds the frame and hands it to the driver. */
    method SendPacket(data: array<Byte>, len: nat)
      requires Valid() && len <= data.Length && data != txBuffer
      modifies this`sent, txBuffer
      ensures Valid() && State() == old(State())
      ensures sent == old(sent) + if hasSendFunc && len <= 1024 then [Encode(data[..len])] else []
    {
      hide Encode, GoodHeader, HeaderLength, DeclaredLength, FromByte;
      if len > PACKET_MAX_PL_LEN {
        return;
      }
      var bInd := FillFrame(data, len);
      if hasSendFunc {
        sent := sent + [txBuffer[..bInd]];
      }
    }

    /** The body of packet_timerfunc for this handler. */
    method TimerTick()
      requires Valid()
      modifies this`rxTimeout, this`rxState, this`since
      ensures Valid() && State() == TickStep(old(State()))
      ensures processed == old(processed) && sent == old(sent)
    {
      hide Tracks;
      TrackIdle(rxDataPtr, payloadLength, crcHigh, crcLow, rxBuffer[..]);
      if rxTimeout != 0 {
        rxTimeout := rxTimeout - 1;
      } else {
        rxState := 0;
        since := [];
      }
    }
  }

  /** packet_timerfunc: one tick for every handler. */
  method TimerFunc(handlers: array<Handler>)
    requires forall i :: 0 <= i < handlers.Length ==> handlers[i].Valid()
    requires forall i, j :: 0 <= i < j < handlers.Length ==> handlers[i] != handlers[j]
    modifies handlers[..]
    ensures forall i :: 0 <= i < handlers.Length ==> handlers[i].Valid()
    ensures forall i :: 0 <= i < handlers.Length ==> handlers[i].State() == TickStep(old(handlers[i].State()))
    ensures forall i :: 0 <= i < handlers.Length ==>
      handlers[i].processed == old(handlers[i].processed) && handlers[i].sent == old(handlers[i].sent)
  {
    hide Handler.Valid, Handler.State, TickStep;
    var i := 0;
    while i < handlers.Length
      invariant 0 <= i <= handlers.Length
      invariant forall k :: 0 <= k < handlers.Length ==> handlers[k].Valid()
      invariant forall k :: 0 <= k < handlers.Length ==>
        handlers[k].State() == if k < i then TickStep(old(handlers[k].State())) else old(handlers[k].State())
      invariant forall k :: 0 <= k < handlers.Length ==>
        handlers[k].processed == old(handlers[k].processed) && handlers[k].sent == old(handlers[k].sent)
    {
      handlers[i].TimerTick();
      i := i + 1;
    }
  }

  lemma RunOne(rx: Rx, events: seq<Event>, i: nat)
    requires i < |events|
    ensures var next := match events[i] case Recv(b) => Step(rx, b) case Tick => TickStep(rx);
      var out := match events[i] case Recv(b) => Delivered(rx, b) case Tick => [];
      && Run(rx, events[i..]) == Run(next, events[i + 1..])
      && Output(rx, events[i..]) == out + Output(next, events[i + 1..])
  {
    hide Step, TickStep, Delivered;
    assert events[i..][1..] == events[i + 1..];
  }

  lemma RunNothing(rx: Rx, events: seq<Event>)
    requires events == []
    ensures Run(rx, events) == rx && Output(rx, events) == []
  {
  }

  /** Drives one handler through a whole run of bytes and ticks. */
  method ReceiveAll(h: Handler, events: seq<Event>)
    requires h.Valid()
    modifies h, h.rxBuffer
    ensures h.Valid() && h.State() == Run(old(h.State()), events)
    ensures h.hasProcessFunc ==> h.processed == old(h.processed) + Output(old(h.State()), events)
  {
    hide Step, TickStep, Delivered, Run, Output, Handler.Valid;
    var i := 0;
    assert events[0..] == events;
    while i < |events|
      invariant 0 <= i <= |events| && h.Valid()
      invariant Run(h.State(), events[i..]) == Run(old(h.State()), events)
      invariant h.hasProcessFunc ==>
        h.processed + Output(h.State(), events[i..]) == old(h.processed) + Output(old(h.State()), events)
    {
      RunOne(h.State(), events, i);
      match events[i] {
        case Recv(b) => h.ProcessByte(b);
        case Tick => h.TimerTick();
      }
      i := i + 1;
    }
    RunNothing(h.State(), events[i..]);
  }
}
