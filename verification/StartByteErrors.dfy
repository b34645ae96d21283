/**
 Bursts that turn one frame of packet.c into another of the same length. Both ends of a link then agree on where
 the frame ends, but not on its payload. (For frames that end earlier than the one sent, see HeaderErrors.)
 */
module StartByteErrors {
  import opened Bytes
  import opened Crc
  import opened CrcDivision
  import opened Framing
  import opened FrameErrors

  lemma LeadingZero(q: seq<Byte>)
    ensures Checksum([0] + q) == Checksum(q)
  {
    hide Shift, FeedBits, Bits, Shifts;
    BitsConcat([0], q);
    ZeroByte();
    FeedConcat(0, Bits([0]), Bits(q));
    FeedZeros(0, Bits([0]));
    ShiftsInjective(0, 8);
  }

  lemma ZeroByte()
    ensures forall k :: 0 <= k < 8 ==> Bits([0])[k] == 0
  {
    assert Bits([0]) == ByteBits(0) + [];
  }

  /** The last bit of a byte tells whether its number is odd. */
  lemma LastBit(n: nat)
    requires n < 256
    ensures ByteBits(ToByte(n))[7] == if n % 2 == 1 then 1 else 0
  {
    if n > 0 {
      LastShifted(ToByte(n / 2));
    }
  }

  lemma LastShifted(b: Byte)
    ensures ByteBits(b << 1)[7] == 0 && ByteBits((b << 1) | 1)[7] == 1
  {
  }

  lemma StartBytes()
    ensures forall k :: 0 <= k < 7 ==> ByteBits(2)[k] == ByteBits(3)[k]
    ensures ByteBits(2)[7] != ByteBits(3)[7]
  {
  }

  /** The first three bytes of the two frames. */
  lemma HeadBits(n: nat)
    requires n < 255 && n % 2 == 0
    ensures SameOutside(Bits([2, ToByte(n + 1), 0]), Bits([3, ToByte(0), ToByte(n)]), 7, 23)
  {
    hide ToByte, Bits, ByteBits;
    ThreeBytes(2, ToByte(n + 1), 0);
    ThreeBytes(3, ToByte(0), ToByte(n));
    StartBytes();
    ZeroIsByte();
    LastBit(n);
    LastBit(0);
  }

  lemma SameTail(s: seq<Bit>, t: seq<Bit>, rest: seq<Bit>, lo: nat, hi: nat)
    requires SameOutside(s, t, lo, hi)
    ensures SameOutside(s + rest, t + rest, lo, hi)
  {
  }

  lemma ZeroIsByte()
    ensures ToByte(0) == 0
  {
  }

  /** The two frames share everything from the fourth byte on. */
  lemma BothFrames(q: seq<Byte>) returns (t: seq<Byte>)
    requires 2 <= |q| <= 254
    ensures var n, p := |q|, [0] + q;
      && [2, ToByte(n + 1), 0] + t == Encode(p) && WellFormed([2, ToByte(n + 1), 0] + t, p)
      && WellFormed([3, ToByte(0), ToByte(n)] + t, q)
  {
    hide Checksum, HighByte, LowByteOf, ToByte;
    var n, p := |q|, [0] + q;
    t := q + Trailer(q);
    LeadingZero(q);
    assert [2, ToByte(n + 1), 0] + t == [2, ToByte(|p|)] + p + Trailer(p);
    assert n / 256 == 0 && n % 256 == n && |p| % 256 == |p|;
    assert [3, ToByte(0), ToByte(n)] + t == [3, ToByte(0), ToByte(n)] + q + Trailer(q);
  }

  /**
   For every payload of even length from 2 to 254, the frame of that payload with a zero byte in front, and
   the frame of the payload itself with a two-byte length, differ only in the sixteen bits from bit 7 on.
   So after a burst that turns the start byte 2 into 3, all bytes together can be accepted as another frame.
   */
  lemma StartByteBurst(q: seq<Byte>) returns (f: seq<Byte>, g: seq<Byte>)
    requires 2 <= |q| <= 254 && |q| % 2 == 0
    ensures f == Encode([0] + q) && WellFormed(f, [0] + q)
    ensures Accepted(g) && PayloadOf(g) == q && |f| == |g| && f != g
    ensures SameOutside(Bits(f), Bits(g), 7, 23)
  {
    hide ToByte, Bits, Accepted, PayloadOf, WellFormed, Encode, SameOutside;
    var t := BothFrames(q);
    var x, y := [2, ToByte(|q| + 1), 0], [3, ToByte(0), ToByte(|q|)];
    f, g := x + t, y + t;
    assert f[0] == 2 && g[0] == 3;
    AcceptedIff(g, q);
    BitsConcat(x, t);
    BitsConcat(y, t);
    HeadBits(|q|);
    SameTail(Bits(x), Bits(y), Bits(t), 7, 23);
  }

  // ----- exactly the payloads for which that happens -----

  /** g differs from f within at most sixteen consecutive bits, and is accepted as one frame of the same length. */
  ghost predicate TakenWhole(f: seq<Byte>, g: seq<Byte>, lo: nat, hi: nat) {
    |g| == |f| && g != f && Accepted(g) && lo <= hi <= lo + 16 && SameOutside(Bits(f), Bits(g), lo, hi)
  }

  lemma FirstBits(f: seq<Byte>, k: nat)
    requires |f| >= 3 && k < 8
    ensures Bits(f)[k] == ByteBits(f[0])[k] && Bits(f)[16 + k] == ByteBits(f[2])[k]
  {
    hide Bits, ByteBits;
    assert f == f[..3] + f[3..] && f[..3] == [f[0], f[1], f[2]];
    BitsConcat(f[..3], f[3..]);
    ThreeBytes(f[0], f[1], f[2]);
  }

  /** A burst that starts in the first byte leaves everything from the fourth byte on, and the last bit of the third. */
  lemma RestUndamaged(f: seq<Byte>, g: seq<Byte>, lo: nat, hi: nat)
    requires TakenWhole(f, g, lo, hi) && |f| >= 3 && f[0] == 2 && g[0] == 3
    ensures f[3..] == g[3..] && ByteBits(f[2])[7] == ByteBits(g[2])[7]
  {
    hide Bits, ByteBits, Accepted;
    StartBytes();
    FirstBits(f, 7);
    FirstBits(g, 7);
    assert lo <= 7 && hi <= 23;
    assert f == f[..3] + f[3..] && g == g[..3] + g[3..];
    BitsConcat(f[..3], f[3..]);
    BitsConcat(g[..3], g[3..]);
    var s, t := Bits(f[3..]), Bits(g[3..]);
    forall k | 0 <= k < |s| ensures s[k] == t[k] {
      assert Bits(f)[24 + k] == s[k] && Bits(g)[24 + k] == t[k];
    }
    BitsInjective(f[3..], g[3..]);
  }

  /** Only a leading zero byte leaves the CRC as it is. */
  lemma LeadingByte(b: Byte, q: seq<Byte>)
    requires Checksum([b] + q) == Checksum(q)
    ensures b == 0
  {
    hide Checksum, Bits, ByteBits;
    LeadingZero(q);
    var x, y := [b] + q, [0] + q;
    BitsConcat([b], q);
    BitsConcat([0], q);
    assert x[0] == b && y[0] == 0;
    if x != y {
      BurstDetected(x, y, 0, 8);
    }
  }

  lemma SameTrailer(p: seq<Byte>, q: seq<Byte>)
    requires Trailer(p) == Trailer(q)
    ensures Checksum(p) == Checksum(q)
  {
    hide Checksum;
    JoinHalves(Checksum(p));
    JoinHalves(Checksum(q));
    assert Trailer(p)[0] == Trailer(q)[0] && Trailer(p)[1] == Trailer(q)[1];
  }

  lemma FrameForms(g: seq<Byte>, q: seq<Byte>)
    requires WellFormed(g, q)
    ensures |g| >= 6 && g[0] in [2, 3] && 1 <= |q| <= PACKET_MAX_PL_LEN
    ensures g[0] == 2 ==> |q| < 256 && |g| == |q| + 5 && g == [2, ToByte(|q|)] + (q + Trailer(q))
    ensures g[0] == 3 ==> |g| == |q| + 6 && g == [3, ToByte(|q| / 256), ToByte(|q| % 256)] + (q + Trailer(q))
  {
    hide Trailer, ToByte;
    if |q| < 256 {
      Associative([2, ToByte(|q|)], q, Trailer(q));
    }
    Associative([3, ToByte(|q| / 256), ToByte(|q| % 256)], q, Trailer(q));
  }

  lemma Associative(a: seq<Byte>, b: seq<Byte>, c: seq<Byte>)
    ensures a + b + c == a + (b + c)
  {
  }

  /** The sender uses the one-byte length for all lengths it can express. */
  lemma SentStart(p: seq<Byte>)
    requires Proper(p)
    ensures WellFormed(Encode(p), p) && Encode(p)[0] == if |p| < 256 then 2 else 3
  {
    hide Checksum, ToByte, HighByte, LowByteOf;
    EncodeAccepted(p);
    AcceptedIff(Encode(p), p);
  }

  /** A frame that was sent and a frame of the same length with the other start byte. */
  lemma OtherStartByte(p: seq<Byte>, g: seq<Byte>, q: seq<Byte>)
    requires Proper(p)
    requires WellFormed(g, q) && |g| == |Encode(p)| && g[0] != Encode(p)[0]
    ensures |q| == |p| - 1 && |p| <= 255
    ensures var f := Encode(p); f[0] == 2 && g[0] == 3 && f[2] == p[0] && g[2] == ToByte(|q|)
    ensures Encode(p)[3..] == p[1..] + Trailer(p) && g[3..] == q + Trailer(q)
  {
    hide Trailer, ToByte, WellFormed, Encode;
    SentStart(p);
    FrameForms(Encode(p), p);
    FrameForms(g, q);
    assert |q| / 256 == 0 && |q| % 256 == |q|;
    SecondByte(2, ToByte(|p|), p, Trailer(p));
    ThirdByte(3, ToByte(0), ToByte(|q|), q + Trailer(q));
  }

  lemma SecondByte(a: Byte, b: Byte, p: seq<Byte>, t: seq<Byte>)
    requires p != []
    ensures var f := [a, b] + (p + t); f[2] == p[0] && f[3..] == p[1..] + t
  {
  }

  lemma ThirdByte(a: Byte, b: Byte, c: Byte, t: seq<Byte>)
    ensures var g := [a, b, c] + t; g[2] == c && g[3..] == t
  {
  }

  lemma SplitEqual(a: seq<Byte>, b: seq<Byte>, x: seq<Byte>, y: seq<Byte>)
    requires |a| == |b| && a + x == b + y
    ensures a == b && x == y
  {
    assert (a + x)[..|a|] == a && (b + y)[..|b|] == b && (a + x)[|a|..] == x && (b + y)[|b|..] == y;
  }

  lemma StartByteChanged(f: seq<Byte>, p: seq<Byte>, g: seq<Byte>, lo: nat, hi: nat)
    requires WellFormed(f, p) && TakenWhole(f, g, lo, hi)
    ensures |g| == |f| >= 6 && g[0] != f[0] && Accepted(g) && WellFormed(g, PayloadOf(g)) && PayloadOf(g) != []
  {
    hide Bits, Accepted, PayloadOf, SameOutside, WellFormed, Trailer, ToByte;
    FrameForms(f, p);
    AcceptedIff(g, PayloadOf(g));
    FrameForms(g, PayloadOf(g));
    if g[0] == f[0] {
      AcceptedBurst(f, p, g, lo, hi);
    }
  }

  lemma TakenWholeShape(p: seq<Byte>, g: seq<Byte>, lo: nat, hi: nat)
    requires Proper(p) && TakenWhole(Encode(p), g, lo, hi)
    ensures p[0] == 0 && |p| % 2 == 1 && 3 <= |p| <= 255
  {
    hide ByteBits, ToByte, PayloadOf, Trailer, Encode, WellFormed, TakenWhole, Accepted, Complete;
    var f := Encode(p);
    SentStart(p);
    StartByteChanged(f, p, g, lo, hi);
    var q := PayloadOf(g);
    OtherStartByte(p, g, q);
    RestUndamaged(f, g, lo, hi);
    SameRest(p, q);
    EvenLength(|q|);
  }

  lemma SameRest(p: seq<Byte>, q: seq<Byte>)
    requires |p| == |q| + 1 && p[1..] + Trailer(p) == q + Trailer(q)
    ensures p[0] == 0
  {
    hide Checksum, Trailer;
    SplitEqual(p[1..], q, Trailer(p), Trailer(q));
    SameTrailer(p, q);
    assert p == [p[0]] + q;
    LeadingByte(p[0], q);
  }

  lemma EvenLength(n: nat)
    requires n < 256 && ByteBits(ToByte(n))[7] == ByteBits(0)[7]
    ensures n % 2 == 0
  {
    hide ToByte, ByteBits;
    LastBit(n);
    LastBit(0);
    ZeroIsByte();
  }

  /**
   For which payloads a burst of at most sixteen bits can turn the frame that is sent into another accepted frame
   of the same length: exactly those of odd length from 3 to 255 that start with a zero byte.
   */
  lemma TakenWholeIff(p: seq<Byte>)
    requires Proper(p)
    ensures (exists g, lo, hi :: TakenWhole(Encode(p), g, lo, hi)) <==> p[0] == 0 && |p| % 2 == 1 && 3 <= |p| <= 255
  {
    hide TakenWhole, Encode;
    forall g, lo, hi | TakenWhole(Encode(p), g, lo, hi) ensures p[0] == 0 && |p| % 2 == 1 && 3 <= |p| <= 255 {
      TakenWholeShape(p, g, lo, hi);
    }
    if p[0] == 0 && |p| % 2 == 1 && 3 <= |p| <= 255 {
      assert [0] + p[1..] == p;
      var f, g := StartByteBurst(p[1..]);
      IsTakenWhole(f, g);
    }
  }

  lemma IsTakenWhole(f: seq<Byte>, g: seq<Byte>)
    requires |g| == |f| && g != f && Accepted(g) && SameOutside(Bits(f), Bits(g), 7, 23)
    ensures TakenWhole(f, g, 7, 23)
  {
    hide SameOutside, Bits, Accepted;
  }
}
