/**
 Transmission errors inside codewords and frames of packet.c: a message followed by its CRC, and with the
 header and the end byte around it. Unlike in Crc and CrcOrder, the errors may hit the CRC bytes as well.
 */
module FrameErrors {
  import opened Bytes
  import opened Crc
  import opened CrcOrder
  import opened Framing

  /** A message followed by its CRC, high byte first. */
  function Codeword(m: seq<Byte>): (w: seq<Byte>)
    ensures |w| == |m| + 2
  {
    m + [HighByte(Checksum(m)), LowByteOf(Checksum(m))]
  }

  lemma CodewordsDiffer(a: seq<Byte>, b: seq<Byte>)
    ensures Checksum(Codeword(a)) == Checksum(Codeword(b))
    ensures |a| == |b| && Codeword(a) == Codeword(b) ==> a == b
  {
    hide Checksum, HighByte, LowByteOf;
    CrcOfCodeword(a);
    CrcOfCodeword(b);
    assert Codeword(a)[..|a|] == a && Codeword(b)[..|b|] == b;
  }

  // ----- error patterns -----

  /** All differences are within lo..hi. */
  ghost predicate SameOutside(s: seq<Bit>, t: seq<Bit>, lo: int, hi: int) {
    |s| == |t| && forall k :: 0 <= k < |s| && !(lo <= k < hi) ==> s[k] == t[k]
  }

  /** The differences are at i and at j. */
  ghost predicate DifferAt(s: seq<Bit>, t: seq<Bit>, i: int, j: int) {
    |s| == |t| && forall k :: 0 <= k < |s| ==> (s[k] == t[k] <==> k != i && k != j)
  }

  // ----- codewords -----

  /** Different codewords of equal length never differ in at most sixteen consecutive bits only. */
  lemma CodewordBurst(a: seq<Byte>, b: seq<Byte>, lo: nat, hi: nat)
    requires |a| == |b| && lo <= hi <= lo + 16 && hi <= 8 * |Codeword(a)|
    requires SameOutside(Bits(Codeword(a)), Bits(Codeword(b)), lo, hi)
    ensures a == b
  {
    hide Checksum, Bits, Codeword;
    CodewordsDiffer(a, b);
    if Codeword(a) != Codeword(b) {
      BurstDetected(Codeword(a), Codeword(b), lo, hi);
    }
  }

  /** Nor, up to 4093 message bytes, in exactly two bits. */
  lemma CodewordTwoBits(a: seq<Byte>, b: seq<Byte>, i: nat, j: nat)
    requires |a| == |b| <= 4093 && i < j < 8 * |Codeword(a)|
    ensures !DifferAt(Bits(Codeword(a)), Bits(Codeword(b)), i, j)
  {
    hide Checksum, Bits, Codeword;
    CodewordsDiffer(a, b);
    if DifferAt(Bits(Codeword(a)), Bits(Codeword(b)), i, j) {
      TwoBitsDetected(Codeword(a), Codeword(b), i, j);
    }
  }

  /** Nor in an odd number of bits. */
  lemma CodewordOdd(a: seq<Byte>, b: seq<Byte>)
    requires |a| == |b|
    ensures Parity(Difference(Bits(Codeword(a)), Bits(Codeword(b)))) == 0
  {
    hide Checksum, Bits, Codeword, Difference, Parity;
    CodewordsDiffer(a, b);
    if Parity(Difference(Bits(Codeword(a)), Bits(Codeword(b)))) == 1 {
      OddErrorsDetected(Codeword(a), Codeword(b));
    }
  }

  // ----- frames -----

  /** f is a frame as it was sent, with payload p; g is what arrived, of the same length, with the same start byte. */
  ghost predicate Arrival(f: seq<Byte>, p: seq<Byte>, g: seq<Byte>) {
    WellFormed(f, p) && |g| == |f| && g[0] == f[0]
  }

  /** If the receiver accepts what arrived, header and end byte are undamaged. */
  lemma SameShape(f: seq<Byte>, p: seq<Byte>, g: seq<Byte>) returns (h: seq<Byte>)
    requires Arrival(f, p, g) && Accepted(g)
    ensures |PayloadOf(g)| == |p| <= PACKET_MAX_PL_LEN
    ensures f == h + Codeword(p) + [3] && g == h + Codeword(PayloadOf(g)) + [3]
  {
    hide Checksum, HighByte, LowByteOf, ToByte, FromByte, Accepted, PayloadOf;
    var q := PayloadOf(g);
    AcceptedIff(g, q);
    h := if f[0] == 2 then [2, ToByte(|p|)] else [3, ToByte(|p| / 256), ToByte(|p| % 256)];
  }

  lemma BitsParts(h: seq<Byte>, x: seq<Byte>, t: seq<Byte>)
    ensures Bits(h + x + t) == Bits(h) + Bits(x) + Bits(t)
  {
    hide Bits;
    BitsConcat(h + x, t);
    BitsConcat(h, x);
  }

  lemma ThreeBytes(a: Byte, b: Byte, c: Byte)
    ensures Bits([a, b, c]) == ByteBits(a) + ByteBits(b) + ByteBits(c)
  {
    hide ByteBits;
    assert [a, b, c][1..] == [b, c] && [b, c][1..] == [c];
    assert Bits([c]) == ByteBits(c) + Bits([]);
    assert Bits([b, c]) == ByteBits(b) + Bits([c]);
  }

  function Clip(k: int, n: nat): nat {
    if k < 0 then 0 else if k > n then n else k
  }

  lemma InnerBurst(a: seq<Bit>, x: seq<Bit>, y: seq<Bit>, b: seq<Bit>, lo: nat, hi: nat)
    requires |x| == |y| && lo <= hi && SameOutside(a + x + b, a + y + b, lo, hi)
    ensures SameOutside(x, y, Clip(lo - |a|, |x|), Clip(hi - |a|, |x|))
  {
    forall k | 0 <= k < |x| && !(Clip(lo - |a|, |x|) <= k < Clip(hi - |a|, |x|)) ensures x[k] == y[k] {
      assert (a + x + b)[|a| + k] == x[k] && (a + y + b)[|a| + k] == y[k];
    }
  }

  lemma InnerBits(a: seq<Bit>, x: seq<Bit>, y: seq<Bit>, b: seq<Bit>, i: nat, j: nat)
    requires |x| == |y| && i < j < |a| + |x| + |b| && DifferAt(a + x + b, a + y + b, i, j)
    ensures |a| <= i && j < |a| + |x| && DifferAt(x, y, i - |a|, j - |a|)
  {
    var s, t := a + x + b, a + y + b;
    forall k | 0 <= k < |x| ensures s[|a| + k] == x[k] && t[|a| + k] == y[k] {
    }
    assert forall k :: 0 <= k < |s| && (k < |a| || k >= |a| + |x|) ==> s[k] == t[k];
    assert s[i] != t[i] && s[j] != t[j];
  }

  /**
   After a burst of at most sixteen bits that leaves the start byte alone, the bytes are not accepted as one
   frame of the length sent. (Parts of them may be, if the burst hits the length.)
   */
  lemma AcceptedBurst(f: seq<Byte>, p: seq<Byte>, g: seq<Byte>, lo: nat, hi: nat)
    requires Arrival(f, p, g) && lo <= hi <= lo + 16 && SameOutside(Bits(f), Bits(g), lo, hi)
    ensures Accepted(g) ==> g == f
  {
    hide Checksum, Bits, Codeword, Accepted, PayloadOf, Arrival, SameOutside;
    if Accepted(g) {
      var h := SameShape(f, p, g);
      var x, y := Codeword(p), Codeword(PayloadOf(g));
      BitsParts(h, x, [3]);
      BitsParts(h, y, [3]);
      InnerBurst(Bits(h), Bits(x), Bits(y), Bits([3]), lo, hi);
      CodewordBurst(p, PayloadOf(g), Clip(lo - 8 * |h|, 8 * |x|), Clip(hi - 8 * |h|, 8 * |x|));
    }
  }

  /** Nor after exactly two wrong bits. */
  lemma AcceptedTwoBits(f: seq<Byte>, p: seq<Byte>, g: seq<Byte>, i: nat, j: nat)
    requires Arrival(f, p, g) && i < j < 8 * |f| && DifferAt(Bits(f), Bits(g), i, j)
    ensures !Accepted(g)
  {
    hide Checksum, Bits, Codeword, Accepted, PayloadOf, Arrival, DifferAt;
    if Accepted(g) {
      var h := SameShape(f, p, g);
      var x, y := Codeword(p), Codeword(PayloadOf(g));
      BitsParts(h, x, [3]);
      BitsParts(h, y, [3]);
      InnerBits(Bits(h), Bits(x), Bits(y), Bits([3]), i, j);
      CodewordTwoBits(p, PayloadOf(g), i - 8 * |h|, j - 8 * |h|);
    }
  }

  lemma {:induction false} ParityConcat(s: seq<Bit>, t: seq<Bit>)
    ensures Parity(s + t) == Parity(s) ^ Parity(t)
  {
    if s == [] {
      assert s + t == t;
    } else {
      assert (s + t)[1..] == s[1..] + t;
      ParityConcat(s[1..], t);
    }
  }

  lemma {:induction false} ParityZeros(s: seq<Bit>)
    requires forall k :: 0 <= k < |s| ==> s[k] == 0
    ensures Parity(s) == 0
  {
    if s != [] {
      ParityZeros(s[1..]);
    }
  }

  lemma DifferenceOfSame(s: seq<Bit>)
    ensures Parity(Difference(s, s)) == 0
  {
    hide Parity, Difference;
    DifferenceZero(s, s);
    ParityZeros(Difference(s, s));
  }

  lemma DifferenceConcat(a: seq<Bit>, b: seq<Bit>, x: seq<Bit>, y: seq<Bit>)
    requires |a| == |b| && |x| == |y|
    ensures Difference(a + x, b + y) == Difference(a, b) + Difference(x, y)
  {
  }

  /** Bits around an error that are the same do not count. */
  lemma InnerParity(a: seq<Bit>, x: seq<Bit>, y: seq<Bit>, b: seq<Bit>)
    requires |x| == |y|
    ensures Parity(Difference(a + x + b, a + y + b)) == Parity(Difference(x, y))
  {
    hide Parity, Difference;
    DifferenceConcat(a + x, a + y, b, b);
    DifferenceConcat(a, a, x, y);
    ParityConcat(Difference(a, a) + Difference(x, y), Difference(b, b));
    ParityConcat(Difference(a, a), Difference(x, y));
    DifferenceOfSame(a);
    DifferenceOfSame(b);
  }

  /** Nor after an odd number of wrong bits. */
  lemma AcceptedOdd(f: seq<Byte>, p: seq<Byte>, g: seq<Byte>)
    requires Arrival(f, p, g) && Parity(Difference(Bits(f), Bits(g))) == 1
    ensures !Accepted(g)
  {
    hide Checksum, Bits, Codeword, Accepted, PayloadOf, Arrival, Difference, Parity;
    if Accepted(g) {
      var h := SameShape(f, p, g);
      var x, y := Codeword(p), Codeword(PayloadOf(g));
      BitsParts(h, x, [3]);
      BitsParts(h, y, [3]);
      InnerParity(Bits(h), Bits(x), Bits(y), Bits([3]));
      CodewordOdd(p, PayloadOf(g));
    }
  }

  // ----- damage behind the header -----

  /** The payloads that the link carries. */
  predicate Proper(p: seq<Byte>) {
    1 <= |p| <= PACKET_MAX_PL_LEN && |p| != 256
  }

  /** Start byte and length bytes of the frame of a proper payload. */
  function HeaderSize(p: seq<Byte>): nat {
    if |p| < 256 then 2 else 3
  }

  /** What arrived in place of the frame of p has its length and its header. */
  ghost predicate BodyDamage(p: seq<Byte>, g: seq<Byte>)
    requires Proper(p)
  {
    |g| == |Encode(p)| >= HeaderSize(p) && g[..HeaderSize(p)] == Encode(p)[..HeaderSize(p)]
  }

  /** The errors that the CRC is for. */
  datatype ErrorClass = Burst | TwoBits | OddBits

  ghost predicate Window(s: seq<Bit>, t: seq<Bit>, lo: nat) {
    SameOutside(s, t, lo, lo + 16)
  }

  /** t is s with a burst of at most sixteen bits, with exactly two wrong bits, or with an odd number of them. */
  ghost predicate Differ(c: ErrorClass, s: seq<Bit>, t: seq<Bit>) {
    |s| == |t| &&
    match c
    case Burst => exists lo: nat :: Window(s, t, lo)
    case TwoBits => exists i: nat, j: nat :: i < j < |s| && DifferAt(s, t, i, j)
    case OddBits => Parity(Difference(s, t)) == 1
  }

  lemma SentFrame(p: seq<Byte>)
    requires Proper(p)
    ensures WellFormed(Encode(p), p) && Complete(Encode(p)) && |Encode(p)| == HeaderSize(p) + |p| + 3
    ensures HeaderLength(Encode(p)) == HeaderSize(p)
  {
    hide Checksum, ToByte, HighByte, LowByteOf, FromByte;
    EncodeAccepted(p);
    AcceptedIff(Encode(p), p);
  }

  lemma HeaderDecides(f: seq<Byte>, g: seq<Byte>)
    requires Complete(f) && |g| == |f| && g[..HeaderLength(f)] == f[..HeaderLength(f)]
    ensures Complete(g) && g[0] == f[0]
  {
    hide FromByte;
    var h := HeaderLength(f);
    assert forall k :: 0 <= k < h ==> g[..h][k] == f[..h][k];
  }

  lemma BodyComplete(p: seq<Byte>, g: seq<Byte>)
    requires Proper(p) && BodyDamage(p, g)
    ensures Complete(g) && Arrival(Encode(p), p, g)
  {
    hide Encode, WellFormed, Complete;
    SentFrame(p);
    HeaderDecides(Encode(p), g);
  }

  /** Whatever the damage behind the header, the receiver decides about the frame as a whole and is idle afterwards. */
  lemma BodyRun(rx: Rx, p: seq<Byte>, g: seq<Byte>, gaps: seq<nat>)
    requires Proper(p) && BodyDamage(p, g) && rx.since == [] && |gaps| == |g| && InTime(gaps)
    ensures Run(rx, Paced(g, gaps)).since == []
    ensures Output(rx, Paced(g, gaps)) == if Accepted(g) then [PayloadOf(g)] else []
  {
    hide Complete, Accepted, PayloadOf, Encode, WellFormed, Paced, Run, Output, BodyDamage;
    BodyComplete(p, g);
    CompleteLength(g);
    assert g[0..] == g && gaps[0..] == gaps;
    RunFrame(rx, g, gaps, 0);
  }

  lemma CompleteLength(g: seq<Byte>)
    requires Complete(g)
    ensures |g| > 0
  {
  }

  lemma ClassRejected(c: ErrorClass, p: seq<Byte>, g: seq<Byte>)
    requires Proper(p) && BodyDamage(p, g) && Differ(c, Bits(Encode(p)), Bits(g))
    ensures Accepted(g) ==> g == Encode(p)
  {
    hide Complete, Accepted, PayloadOf, Encode, WellFormed, Bits, BodyDamage, SameOutside, DifferAt, Difference;
    hide Parity, Arrival;
    BodyComplete(p, g);
    var f := Encode(p);
    match c
    case Burst =>
      var lo: nat :| Window(Bits(f), Bits(g), lo);
      AcceptedBurst(f, p, g, lo, lo + 16);
    case TwoBits =>
      var i: nat, j: nat :| i < j < |Bits(f)| && DifferAt(Bits(f), Bits(g), i, j);
      AcceptedTwoBits(f, p, g, i, j);
    case OddBits =>
      AcceptedOdd(f, p, g);
  }

  /**
   Errors behind the header are detected: after a burst of at most sixteen bits, after exactly two wrong bits
   and after an odd number of them, in the payload, the CRC or the end byte, an idle receiver hands nothing over,
   and is idle again. If nothing is damaged, it hands over exactly the payload.
   */
  lemma BodyErrors(rx: Rx, p: seq<Byte>, g: seq<Byte>, gaps: seq<nat>, c: ErrorClass)
    requires Proper(p) && BodyDamage(p, g) && (g == Encode(p) || Differ(c, Bits(Encode(p)), Bits(g)))
    requires rx.since == [] && |gaps| == |g| && InTime(gaps)
    ensures Output(rx, Paced(g, gaps)) == if g == Encode(p) then [p] else []
    ensures Run(rx, Paced(g, gaps)).since == []
  {
    hide Accepted, PayloadOf, Encode, Bits, BodyDamage, Differ, Paced, Run, Output;
    BodyRun(rx, p, g, gaps);
    EncodeAccepted(p);
    if g != Encode(p) {
      ClassRejected(c, p, g);
    }
  }

  // ----- streams -----

  ghost predicate Tolerable(p: seq<Byte>, g: seq<Byte>) {
    Proper(p) && BodyDamage(p, g) && (g == Encode(p) || exists c :: Differ(c, Bits(Encode(p)), Bits(g)))
  }

  /** What arrived, frame by frame, each with its own pacing. */
  function Arriving(gs: seq<seq<Byte>>, gaps: seq<seq<nat>>): seq<Event>
    requires |gs| == |gaps| && forall i :: 0 <= i < |gs| ==> |gaps[i]| == |gs[i]|
  {
    if gs == [] then [] else Paced(gs[0], gaps[0]) + Arriving(gs[1..], gaps[1..])
  }

  /** The payloads whose frames arrived undamaged. */
  function Undamaged(ps: seq<seq<Byte>>, gs: seq<seq<Byte>>): seq<seq<Byte>>
    requires |ps| == |gs|
  {
    if ps == [] then []
    else (if gs[0] == Encode(ps[0]) then [ps[0]] else []) + Undamaged(ps[1..], gs[1..])
  }

  /**
   A stream in which any frames have such errors behind their headers comes out as exactly the list of the
   payloads whose frames are undamaged.
   */
  lemma {:induction false} DamagedStream(rx: Rx, ps: seq<seq<Byte>>, gs: seq<seq<Byte>>, gaps: seq<seq<nat>>)
    requires rx.since == [] && |ps| == |gs| == |gaps|
    requires forall i :: 0 <= i < |ps| ==> Tolerable(ps[i], gs[i]) && |gaps[i]| == |gs[i]| && InTime(gaps[i])
    ensures Output(rx, Arriving(gs, gaps)) == Undamaged(ps, gs) && Run(rx, Arriving(gs, gaps)).since == []
    decreases |ps|
  {
    hide Encode, Bits, BodyDamage, Differ, Paced, Run, Output;
    if ps == [] {
      EmptyRun(rx);
    } else {
      assert Tolerable(ps[0], gs[0]);
      var c :| gs[0] == Encode(ps[0]) || Differ(c, Bits(Encode(ps[0])), Bits(gs[0]));
      BodyErrors(rx, ps[0], gs[0], gaps[0], c);
      RunConcat(rx, Paced(gs[0], gaps[0]), Arriving(gs[1..], gaps[1..]));
      DamagedStream(Run(rx, Paced(gs[0], gaps[0])), ps[1..], gs[1..], gaps[1..]);
    }
  }
}
