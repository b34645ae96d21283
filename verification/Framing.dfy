/**
 The serial frame format of packet.c and its byte-wise receiver, on values. A receiver state is the
 bytes seen since the last accepted start byte, and the timeout counter.
 */
module Framing {
  import opened Bytes
  import opened Crc

  const PACKET_RX_TIMEOUT: nat := 2
  const PACKET_MAX_PL_LEN: nat := 1024

  // ----- the frame format -----

  /** Checksum, high byte first, and the end byte. */
  function Trailer(p: seq<Byte>): (t: seq<Byte>)
    ensures |t| == 3
  {
    [HighByte(Checksum(p)), LowByteOf(Checksum(p)), 3]
  }

  /** Start byte and length, as the sender writes them: up to 256 with a one-byte length. */
  function Header(len: nat): (h: seq<Byte>)
    requires len <= PACKET_MAX_PL_LEN
    ensures 2 <= |h| <= 3
  {
    if len <= 256 then [2, ToByte(len % 256)] else [3, ToByte(len / 256), ToByte(len % 256)]
  }

  /** The bytes that packet_send_packet hands to the driver; nothing for an oversized payload. */
  function Encode(p: seq<Byte>): seq<Byte> {
    if |p| > PACKET_MAX_PL_LEN then [] else Header(|p|) + p + Trailer(p)
  }

  lemma EncodeParts(p: seq<Byte>)
    requires |p| <= PACKET_MAX_PL_LEN
    ensures Encode(p) == Header(|p|) + p + Trailer(p)
  {
  }

  /** f is a frame with payload p, with a one-byte or a two-byte length. */
  ghost predicate WellFormed(f: seq<Byte>, p: seq<Byte>) {
    && 1 <= |p| <= PACKET_MAX_PL_LEN
    && (|| (|p| < 256 && f == [2, ToByte(|p|)] + p + Trailer(p))
        || f == [3, ToByte(|p| / 256), ToByte(|p| % 256)] + p + Trailer(p))
  }

  // ----- the receiver -----

  /** Length of the frame header announced by the start byte. */
  function HeaderLength(f: seq<Byte>): (n: nat)
    requires f != []
  {
    if f[0] == 2 then 2 else 3
  }

  function DeclaredLength(f: seq<Byte>): nat
    requires f != [] && |f| >= HeaderLength(f)
  {
    if f[0] == 2 then FromByte(f[1]) else FromByte(f[1]) * 256 + FromByte(f[2])
  }

  predicate GoodHeader(f: seq<Byte>) {
    && f != [] && f[0] in [2, 3]
    && (|f| >= HeaderLength(f) ==> 1 <= DeclaredLength(f) <= PACKET_MAX_PL_LEN)
  }

  /** More bytes are expected after f. */
  predicate InProgress(f: seq<Byte>) {
    && GoodHeader(f)
    && (|f| >= HeaderLength(f) ==> |f| < HeaderLength(f) + DeclaredLength(f) + 3)
  }

  /** f ends at the frame end that its header announces. */
  predicate Complete(f: seq<Byte>) {
    GoodHeader(f) && |f| >= HeaderLength(f) && |f| == HeaderLength(f) + DeclaredLength(f) + 3
  }

  function PayloadOf(f: seq<Byte>): seq<Byte>
    requires Complete(f)
  {
    f[HeaderLength(f)..|f| - 3]
  }

  predicate Accepted(f: seq<Byte>): (r: bool)
    ensures r ==> Complete(f)
  {
    Complete(f) && f[|f| - 3..] == Trailer(PayloadOf(f))
  }

  datatype Rx = Rx(since: seq<Byte>, timeout: nat)
  datatype Event = Recv(b: Byte) | Tick

  /** The payloads handed over by one received byte: none or one. */
  function Delivered(rx: Rx, b: Byte): seq<seq<Byte>> {
    if Accepted(rx.since + [b]) then [PayloadOf(rx.since + [b])] else []
  }

  function Step(rx: Rx, b: Byte): Rx {
    if InProgress(rx.since + [b]) then Rx(rx.since + [b], PACKET_RX_TIMEOUT) else Rx([], rx.timeout)
  }

  /** A byte that completes no frame hands nothing over. */
  lemma QuietStep(rx: Rx, b: Byte)
    requires InProgress(rx.since + [b]) || |rx.since| < 3
    ensures Delivered(rx, b) == []
    ensures Step(rx, b) ==
            if InProgress(rx.since + [b]) then Rx(rx.since + [b], PACKET_RX_TIMEOUT) else Rx([], rx.timeout)
  {
    hide InProgress;
    if InProgress(rx.since + [b]) {
      NotComplete(rx.since + [b]);
    } else {
      ShortNotAccepted(rx.since + [b]);
    }
  }

  function TickStep(rx: Rx): Rx {
    if rx.timeout > 0 then Rx(rx.since, rx.timeout - 1) else Rx([], 0)
  }

  function Run(rx: Rx, events: seq<Event>): Rx
    decreases |events|
  {
    if events == [] then rx
    else match events[0]
      case Recv(b) => Run(Step(rx, b), events[1..])
      case Tick => Run(TickStep(rx), events[1..])
  }

  function Output(rx: Rx, events: seq<Event>): seq<seq<Byte>>
    decreases |events|
  {
    if events == [] then []
    else match events[0]
      case Recv(b) => Delivered(rx, b) + Output(Step(rx, b), events[1..])
      case Tick => Output(TickStep(rx), events[1..])
  }

  // ----- soundness -----

  lemma HeaderBytes(f: seq<Byte>)
    requires Complete(f)
    ensures f[0] == 2 ==> f[..2] == [2, ToByte(DeclaredLength(f))] && DeclaredLength(f) < 256
    ensures f[0] == 3 ==> f[..3] == [3, ToByte(DeclaredLength(f) / 256), ToByte(DeclaredLength(f) % 256)]
  {
    hide ToByte, FromByte;
    ByteOfByte(f[1]);
    ByteOfByte(f[2]);
  }

  /** The receiver accepts exactly the well-formed frames, and takes out exactly their payload. */
  lemma AcceptedIff(f: seq<Byte>, p: seq<Byte>)
    ensures (Accepted(f) && PayloadOf(f) == p) <==> WellFormed(f, p)
  {
    hide ToByte, FromByte, Trailer;
    if WellFormed(f, p) {
      ByteRoundTrip(|p| / 256);
      ByteRoundTrip(|p| % 256);
      assert f[0] == 2 ==> |p| % 256 == |p|;
      assert f[HeaderLength(f)..|f| - 3] == p;
      assert f[|f| - 3..] == Trailer(p);
    }
    if Accepted(f) && PayloadOf(f) == p {
      var h := HeaderLength(f);
      assert f == f[..h] + p + f[|f| - 3..];
      HeaderBytes(f);
    }
  }

  /** The three bytes behind a payload. */
  lemma TrailerBytes(f: seq<Byte>, p: seq<Byte>, n: nat)
    requires |f| == n + 3
    ensures f[n..] == Trailer(p) <==>
      f[n] == (Checksum(p) >> 8) as Byte && f[n + 1] == (Checksum(p) & 0xFF) as Byte && f[n + 2] == 3
  {
    hide Checksum;
    assert f[n..] == [f[n], f[n + 1], f[n + 2]];
  }

  /** The accepted frames byte by byte: start, length, payload, CRC with the high byte first, end. */
  lemma AcceptedBytes(f: seq<Byte>, p: seq<Byte>)
    ensures (Accepted(f) && PayloadOf(f) == p) <==>
      && 1 <= |p| <= 1024
      && (|| (|f| == |p| + 5 && f[0] == 2 && FromByte(f[1]) == |p| && f[2..|p| + 2] == p)
          || (|f| == |p| + 6 && f[0] == 3 && FromByte(f[1]) * 256 + FromByte(f[2]) == |p| && f[3..|p| + 3] == p))
      && f[|f| - 3] == (Checksum(p) >> 8) as Byte && f[|f| - 2] == (Checksum(p) & 0xFF) as Byte
      && f[|f| - 1] == 3
  {
    hide Trailer, Checksum, FromByte;
    if |f| >= 3 {
      TrailerBytes(f, p, |f| - 3);
    }
  }

  /** The bytes that are sent: one byte of length up to 256, two bytes above, nothing above 1024. */
  lemma EncodeLayout(p: seq<Byte>)
    ensures var f := Encode(p);
      && (|p| <= 256 ==> |f| == |p| + 5 && f[0] == 2 && FromByte(f[1]) == |p| % 256 && f[2..|p| + 2] == p)
      && (256 < |p| <= 1024 ==>
            && |f| == |p| + 6 && f[0] == 3 && f[3..|p| + 3] == p
            && FromByte(f[1]) == |p| / 256 && FromByte(f[2]) == |p| % 256)
      && (|p| <= 1024 ==>
            && f[|f| - 3] == (Checksum(p) >> 8) as Byte && f[|f| - 2] == (Checksum(p) & 0xFF) as Byte
            && f[|f| - 1] == 3)
      && (|p| > 1024 ==> f == [])
  {
    hide ToByte, FromByte, Checksum, Trailer;
    if |p| <= 1024 {
      var f := Encode(p);
      ByteRoundTrip(|p| % 256);
      ByteRoundTrip(|p| / 256);
      assert f[|f| - 3..] == Trailer(p);
      TrailerBytes(f, p, |f| - 3);
    }
  }

  /** Reachable receiver states: idle, or within a frame, with the counter at most at its reset value. */
  ghost predicate Reachable(rx: Rx) {
    (rx.since == [] || InProgress(rx.since)) && rx.timeout <= PACKET_RX_TIMEOUT
  }

  lemma {:induction false} RunReachable(rx: Rx, events: seq<Event>)
    requires Reachable(rx)
    ensures Reachable(Run(rx, events))
    decreases |events|
  {
    hide InProgress;
    if events != [] {
      match events[0]
      case Recv(b) => RunReachable(Step(rx, b), events[1..]);
      case Tick => RunReachable(TickStep(rx), events[1..]);
    }
  }

  function ByteOf(e: Event): seq<Byte> {
    match e
    case Recv(b) => [b]
    case Tick => []
  }

  function ReceivedBytes(events: seq<Event>): seq<Byte> {
    if events == [] then [] else ByteOf(events[0]) + ReceivedBytes(events[1..])
  }

  /** Consecutive runs of bytes of s, in this order and without overlap, are well-formed frames with these payloads. */
  ghost predicate Carries(s: seq<Byte>, ps: seq<seq<Byte>>)
    decreases |ps|
  {
    ps == [] ||
    exists i: nat, j: nat :: i <= j <= |s| && WellFormed(s[i..j], ps[0]) && Carries(s[j..], ps[1..])
  }

  lemma CarriesTail(s: seq<Byte>, t: seq<Byte>, ps: seq<seq<Byte>>)
    requires Carries(t, ps)
    ensures Carries(s + t, ps)
  {
    hide WellFormed;
    if ps != [] {
      var i: nat, j: nat :| i <= j <= |t| && WellFormed(t[i..j], ps[0]) && Carries(t[j..], ps[1..]);
      var k, l := |s| + i, |s| + j;
      assert (s + t)[k..l] == t[i..j] && (s + t)[l..] == t[j..];
    }
  }

  lemma CarriesAccepted(f: seq<Byte>, t: seq<Byte>, ps: seq<seq<Byte>>)
    requires Accepted(f) && Carries(t, ps)
    ensures Carries(f + t, [PayloadOf(f)] + ps)
  {
    hide WellFormed, Accepted, PayloadOf;
    AcceptedIff(f, PayloadOf(f));
    var s, n := f + t, |f|;
    assert s[0..n] == f && s[n..] == t;
    assert ([PayloadOf(f)] + ps)[1..] == ps;
  }

  /**
   Soundness of every run, with any timer ticks in between: what is handed over is the ordered list
   of the payloads of well-formed frames, received as runs of consecutive bytes without overlap.
   */
  lemma {:induction false} OutputSound(rx: Rx, events: seq<Event>)
    ensures Carries(rx.since + ReceivedBytes(events), Output(rx, events))
    decreases |events|
  {
    hide Accepted, InProgress, Carries, PayloadOf;
    if events == [] {
      assert Carries(rx.since + [], []) by {
        NothingCarried(rx.since + []);
      }
    } else {
      var e, rest := events[0], events[1..];
      var r := ReceivedBytes(rest);
      match e
      case Tick =>
        OutputSound(TickStep(rx), rest);
        assert [] + r == r;
        if TickStep(rx).since == [] {
          CarriesTail(rx.since, r, Output(rx, events));
        }
      case Recv(b) =>
        var g, next := rx.since + [b], Output(Step(rx, b), rest);
        assert rx.since + ([b] + r) == g + r;
        OutputSound(Step(rx, b), rest);
        assert [] + r == r && [] + next == next;
        if Accepted(g) {
          CompleteEnds(g);
          CarriesAccepted(g, r, next);
        } else if Step(rx, b).since == [] {
          CarriesTail(g, r, next);
        }
    }
  }

  lemma NothingCarried(s: seq<Byte>)
    ensures Carries(s, [])
  {
  }

  // ----- timeout -----

  function Ticks(n: nat): (t: seq<Event>)
    ensures |t| == n
    ensures forall i :: 0 <= i < n ==> t[i] == Tick
  {
    seq(n, i => Tick)
  }

  /** Three ticks without a byte bring every reachable receiver back to idle. */
  lemma ThreeTicksReset(rx: Rx)
    requires Reachable(rx)
    ensures Run(rx, Ticks(3)).since == [] && Output(rx, Ticks(3)) == []
  {
    TicksOnly(rx, 3);
  }

  /** Two ticks after a byte leave a frame in progress as it is, the third gives it up. */
  lemma TwoTicksKept(rx: Rx, b: Byte)
    requires InProgress(rx.since + [b])
    ensures Run(Step(rx, b), Ticks(2)).since == rx.since + [b] && Run(Step(rx, b), Ticks(3)).since == []
  {
    TicksOnly(Step(rx, b), 2);
    TicksOnly(Step(rx, b), 3);
    hide InProgress;
  }

  lemma {:induction false} TicksOnly(rx: Rx, n: nat)
    ensures Output(rx, Ticks(n)) == []
    ensures n <= rx.timeout ==> Run(rx, Ticks(n)) == Rx(rx.since, rx.timeout - n)
    ensures n > rx.timeout || rx.since == [] ==> Run(rx, Ticks(n)).since == []
    decreases n
  {
    if n > 0 {
      assert Ticks(n)[1..] == Ticks(n - 1);
      TicksOnly(TickStep(rx), n - 1);
    }
  }

  lemma {:induction false} RunConcat(rx: Rx, s: seq<Event>, t: seq<Event>)
    ensures Run(rx, s + t) == Run(Run(rx, s), t)
    ensures Output(rx, s + t) == Output(rx, s) + Output(Run(rx, s), t)
    decreases |s|
  {
    hide InProgress, Accepted, Complete;
    if s == [] {
      assert s + t == t;
    } else {
      assert (s + t)[1..] == s[1..] + t;
      match s[0]
      case Recv(b) => RunConcat(Step(rx, b), s[1..], t);
      case Tick => RunConcat(TickStep(rx), s[1..], t);
    }
  }

  // ----- round trip -----

  /** The bytes with gaps[i] timer ticks before byte i. */
  function Paced(bytes: seq<Byte>, gaps: seq<nat>): seq<Event>
    requires |bytes| == |gaps|
  {
    if bytes == [] then [] else Ticks(gaps[0]) + [Recv(bytes[0])] + Paced(bytes[1..], gaps[1..])
  }

  /** No more than two ticks between consecutive bytes of one frame; any number before the first. */
  ghost predicate InTime(gaps: seq<nat>) {
    forall i :: 1 <= i < |gaps| ==> gaps[i] <= PACKET_RX_TIMEOUT
  }

  lemma ProperPrefix(f: seq<Byte>, k: nat)
    requires Complete(f) && 0 < k < |f|
    ensures InProgress(f[..k])
  {
  }

  lemma CompleteEnds(g: seq<Byte>)
    requires Complete(g)
    ensures !InProgress(g)
  {
  }

  /** Bytes that end where their header announces, resumed at any point: handed over if they are accepted. */
  lemma {:induction false} RunFrame(rx: Rx, f: seq<Byte>, gaps: seq<nat>, k: nat)
    requires Complete(f) && |f| == |gaps| && k <= |f| && InTime(gaps)
    requires if k < |f| then rx.since == f[..k] else rx.since == []
    requires 0 < k < |f| ==> rx.timeout == PACKET_RX_TIMEOUT
    ensures Run(rx, Paced(f[k..], gaps[k..])).since == []
    ensures Output(rx, Paced(f[k..], gaps[k..])) == if k < |f| && Accepted(f) then [PayloadOf(f)] else []
    decreases |f| - k
  {
    hide InProgress, Accepted, Complete, PayloadOf;
    if k < |f| {
      var ticks, rest := Ticks(gaps[k]), Paced(f[k + 1..], gaps[k + 1..]);
      assert f[k..][1..] == f[k + 1..] && gaps[k..][1..] == gaps[k + 1..];
      assert Paced(f[k..], gaps[k..]) == ticks + ([Recv(f[k])] + rest);
      RunConcat(rx, ticks, [Recv(f[k])] + rest);
      TicksOnly(rx, gaps[k]);
      var mid := Run(rx, ticks);
      assert mid.since + [f[k]] == f[..k + 1];
      assert ([Recv(f[k])] + rest)[1..] == rest;
      if k + 1 < |f| {
        ProperPrefix(f, k + 1);
        NotComplete(f[..k + 1]);
      } else {
        assert f[..k + 1] == f;
        CompleteEnds(f);
      }
      RunFrame(Step(mid, f[k]), f, gaps, k + 1);
    }
  }

  lemma NotComplete(f: seq<Byte>)
    requires InProgress(f)
    ensures !Accepted(f)
  {
  }

  lemma ShortNotAccepted(f: seq<Byte>)
    requires |f| <= 3
    ensures !Accepted(f)
  {
  }

  lemma EncodeAccepted(p: seq<Byte>)
    requires 1 <= |p| <= PACKET_MAX_PL_LEN && |p| != 256
    ensures Encode(p) != [] && Accepted(Encode(p)) && PayloadOf(Encode(p)) == p
  {
    hide ToByte, FromByte, Trailer;
    assert |p| < 256 ==> |p| % 256 == |p|;
    AcceptedIff(Encode(p), p);
  }

  lemma EmptyRun(rx: Rx)
    ensures Run(rx, []) == rx && Output(rx, []) == []
  {
  }

  /** The encoded payloads one after the other, each with its own pacing. */
  function Stream(ps: seq<seq<Byte>>, gaps: seq<seq<nat>>): seq<Event>
    requires |ps| == |gaps| && forall i :: 0 <= i < |ps| ==> |gaps[i]| == |Encode(ps[i])|
  {
    if ps == [] then [] else Paced(Encode(ps[0]), gaps[0]) + Stream(ps[1..], gaps[1..])
  }

  /**
   Round trip: from an idle receiver, any list of payloads of length 1..1024 other than 256, encoded
   and concatenated, with at most two ticks inside a frame and any number between frames, comes out
   as exactly that list.
   */
  lemma {:induction false} StreamRoundTrip(rx: Rx, ps: seq<seq<Byte>>, gaps: seq<seq<nat>>)
    requires rx.since == [] && |ps| == |gaps|
    requires forall i :: 0 <= i < |ps| ==> 1 <= |ps[i]| <= PACKET_MAX_PL_LEN && |ps[i]| != 256
    requires forall i :: 0 <= i < |ps| ==> |gaps[i]| == |Encode(ps[i])| && InTime(gaps[i])
    ensures Output(rx, Stream(ps, gaps)) == ps && Run(rx, Stream(ps, gaps)).since == []
    decreases |ps|
  {
    hide Encode, InProgress, Accepted, Complete, PayloadOf, Paced, Run, Output;
    if ps == [] {
      EmptyRun(rx);
    } else {
      var f := Encode(ps[0]);
      EncodeAccepted(ps[0]);
      assert f[0..] == f && gaps[0][0..] == gaps[0];
      RunFrame(rx, f, gaps[0], 0);
      RunConcat(rx, Paced(f, gaps[0]), Stream(ps[1..], gaps[1..]));
      assert Stream(ps, gaps) == Paced(f, gaps[0]) + Stream(ps[1..], gaps[1..]);
      assert Output(rx, Paced(f, gaps[0])) == [ps[0]];
      StreamRoundTrip(Run(rx, Paced(f, gaps[0])), ps[1..], gaps[1..]);
      assert [ps[0]] + ps[1..] == ps;
    }
  }

  /**
   Resynchronisation: whatever bytes and ticks a receiver has taken in before, after three ticks a stream comes
   out as exactly its list of payloads.
   */
  lemma Resynchronised(rx: Rx, noise: seq<Event>, ps: seq<seq<Byte>>, gaps: seq<seq<nat>>)
    requires Reachable(rx) && |ps| == |gaps|
    requires forall i :: 0 <= i < |ps| ==> 1 <= |ps[i]| <= PACKET_MAX_PL_LEN && |ps[i]| != 256
    requires forall i :: 0 <= i < |ps| ==> |gaps[i]| == |Encode(ps[i])| && InTime(gaps[i])
    ensures Output(rx, noise + Ticks(3) + Stream(ps, gaps)) == Output(rx, noise) + ps
    ensures Run(rx, noise + Ticks(3) + Stream(ps, gaps)).since == []
  {
    hide Encode, Run, Output, Reachable, Stream, Ticks;
    var noisy := Run(rx, noise);
    RunReachable(rx, noise);
    ThreeTicksReset(noisy);
    RunConcat(rx, noise + Ticks(3), Stream(ps, gaps));
    RunConcat(rx, noise, Ticks(3));
    StreamRoundTrip(Run(noisy, Ticks(3)), ps, gaps);
  }

  // ----- conservation, and the exact set of payloads that survive -----

  /** Bytes that a frame with payload p occupies at least. */
  function FrameSize(p: seq<Byte>): nat {
    |p| + if |p| < 256 then 5 else 6
  }

  function TotalSize(ps: seq<seq<Byte>>): nat {
    if ps == [] then 0 else FrameSize(ps[0]) + TotalSize(ps[1..])
  }

  lemma AcceptedSize(f: seq<Byte>)
    requires Accepted(f)
    ensures FrameSize(PayloadOf(f)) <= |f| && |PayloadOf(f)| > 0
  {
  }

  /** The carried payloads, with their framing, take no more bytes than there are. */
  lemma {:induction false} CarriedSize(s: seq<Byte>, ps: seq<seq<Byte>>)
    requires Carries(s, ps)
    ensures TotalSize(ps) <= |s| && forall p :: p in ps ==> 0 < FrameSize(p) <= |s| && p != []
    decreases |ps|
  {
    hide WellFormed, Accepted;
    if ps != [] {
      var i: nat, j: nat :| i <= j <= |s| && WellFormed(s[i..j], ps[0]) && Carries(s[j..], ps[1..]);
      AcceptedIff(s[i..j], ps[0]);
      AcceptedSize(s[i..j]);
      CarriedSize(s[j..], ps[1..]);
      hide Carries, FrameSize, PayloadOf;
      forall p | p in ps ensures 0 < FrameSize(p) <= |s| && p != [] {
        assert p == ps[0] || p in ps[1..];
      }
    }
  }

  lemma {:induction false} ReceivedConcat(s: seq<Event>, t: seq<Event>)
    ensures ReceivedBytes(s + t) == ReceivedBytes(s) + ReceivedBytes(t)
  {
    hide ByteOf;
    if s == [] {
      assert s + t == t;
    } else {
      assert (s + t)[0] == s[0] && (s + t)[1..] == s[1..] + t;
      ReceivedConcat(s[1..], t);
    }
  }

  lemma {:induction false} TicksCarryNothing(n: nat)
    ensures ReceivedBytes(Ticks(n)) == []
  {
    if n > 0 {
      assert Ticks(n)[1..] == Ticks(n - 1);
      TicksCarryNothing(n - 1);
    }
  }

  lemma {:induction false} PacedBytes(bytes: seq<Byte>, gaps: seq<nat>)
    requires |bytes| == |gaps|
    ensures ReceivedBytes(Paced(bytes, gaps)) == bytes
  {
    if bytes != [] {
      var rest := Paced(bytes[1..], gaps[1..]);
      PacedBytes(bytes[1..], gaps[1..]);
      TicksCarryNothing(gaps[0]);
      ReceivedConcat(Ticks(gaps[0]), [Recv(bytes[0])]);
      ReceivedConcat(Ticks(gaps[0]) + [Recv(bytes[0])], rest);
    }
  }

  /**
   Exactly the payloads of length 1..1024 other than 256 survive encoding and decoding; any other is
   not among what is delivered at all.
   */
  lemma RoundTripIff(rx: Rx, p: seq<Byte>, gaps: seq<nat>)
    requires rx.since == [] && |gaps| == |Encode(p)| && InTime(gaps)
    ensures var out := Output(rx, Paced(Encode(p), gaps));
      if 1 <= |p| <= 1024 && |p| != 256 then out == [p] else p !in out
  {
    hide InProgress, Accepted, Complete, PayloadOf, Paced, Output, ReceivedBytes, TotalSize, Carries;
    if 1 <= |p| <= PACKET_MAX_PL_LEN && |p| != 256 {
      EncodeAccepted(p);
      assert Encode(p)[0..] == Encode(p) && gaps[0..] == gaps;
      RunFrame(rx, Encode(p), gaps, 0);
    } else {
      OutputSound(rx, Paced(Encode(p), gaps));
      PacedBytes(Encode(p), gaps);
      assert [] + Encode(p) == Encode(p);
      CarriedSize(Encode(p), Output(rx, Paced(Encode(p), gaps)));
    }
  }
}
