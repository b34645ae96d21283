/**
 Why the header has to be excluded: with a damaged start or length byte the receiver of packet.c can take
 bytes of the payload for a shorter frame. For each class of errors, and for each window of sixteen bits,
 this happens for some payload exactly if the error may touch the header.
 */
module HeaderErrors {
  import opened Bytes
  import opened Crc
  import opened CrcDivision
  import opened CrcOrder
  import opened Framing
  import opened FrameErrors

  /** Bytes g that arrive in time at an idle receiver never make it hand over anything but p. */
  ghost predicate Harmless(p: seq<Byte>, g: seq<Byte>) {
    forall rx: Rx, gaps: seq<nat> :: rx.since == [] && |gaps| == |g| && InTime(gaps) ==>
      forall o <- Output(rx, Paced(g, gaps)) :: o == p
  }

  /** Proper payloads with a one-byte or with a two-byte length. */
  predicate HasForm(p: seq<Byte>, long: bool) {
    Proper(p) && (long <==> |p| > 256)
  }

  function HeaderBytes(long: bool): nat {
    if long then 3 else 2
  }

  /** No burst within the sixteen bits from lo on makes the receiver hand over a wrong payload. */
  ghost predicate WindowSafe(long: bool, lo: nat) {
    forall p: seq<Byte>, g: seq<Byte> :: HasForm(p, long) && Window(Bits(Encode(p)), Bits(g), lo) ==> Harmless(p, g)
  }

  ghost predicate SamePrefix(f: seq<Byte>, g: seq<Byte>, n: nat) {
    |f| == |g| && forall k :: 0 <= k < n && k < |f| ==> f[k] == g[k]
  }

  /** No error of the class in the bytes from number n on makes the receiver hand over a wrong payload. */
  ghost predicate ClassSafe(c: ErrorClass, long: bool, n: nat) {
    forall p: seq<Byte>, g: seq<Byte> ::
      HasForm(p, long) && SamePrefix(Encode(p), g, n) && Differ(c, Bits(Encode(p)), Bits(g)) ==> Harmless(p, g)
  }

  // ----- errors behind the header -----

  lemma BodyHarmless(c: ErrorClass, p: seq<Byte>, g: seq<Byte>)
    requires Proper(p) && BodyDamage(p, g) && Differ(c, Bits(Encode(p)), Bits(g))
    ensures Harmless(p, g)
  {
    hide Encode, Bits, BodyDamage, Differ, Paced, Run, Output;
    forall rx: Rx, gaps: seq<nat> | rx.since == [] && |gaps| == |g| && InTime(gaps)
      ensures forall o <- Output(rx, Paced(g, gaps)) :: o == p
    {
      BodyErrors(rx, p, g, gaps, c);
    }
  }

  lemma PrefixIsBody(p: seq<Byte>, g: seq<Byte>)
    requires Proper(p) && SamePrefix(Encode(p), g, HeaderSize(p))
    ensures BodyDamage(p, g)
  {
    hide Encode;
    SentFrame(p);
  }

  lemma SafeClass(c: ErrorClass, long: bool, n: nat)
    requires n >= HeaderBytes(long)
    ensures ClassSafe(c, long, n)
  {
    hide Encode, Bits, Differ, Harmless, BodyDamage;
    forall p: seq<Byte>, g: seq<Byte> |
      HasForm(p, long) && SamePrefix(Encode(p), g, n) && Differ(c, Bits(Encode(p)), Bits(g))
      ensures Harmless(p, g)
    {
      PrefixIsBody(p, g);
      BodyHarmless(c, p, g);
    }
  }

  /** Bits that agree up to bit 8n agree in the first n bytes. */
  lemma SamePrefixBits(f: seq<Byte>, g: seq<Byte>, n: nat)
    requires n <= |f| == |g| && forall k :: 0 <= k < 8 * n ==> Bits(f)[k] == Bits(g)[k]
    ensures SamePrefix(f, g, n)
  {
    hide Bits;
    assert f == f[..n] + f[n..] && g == g[..n] + g[n..];
    BitsConcat(f[..n], f[n..]);
    BitsConcat(g[..n], g[n..]);
    var s, t := Bits(f[..n]), Bits(g[..n]);
    forall k | 0 <= k < |s| ensures s[k] == t[k] {
      assert Bits(f)[k] == s[k] && Bits(g)[k] == t[k];
    }
    BitsInjective(f[..n], g[..n]);
    assert forall k :: 0 <= k < n ==> f[..n][k] == g[..n][k];
  }

  lemma SafeWindow(long: bool, lo: nat)
    requires lo >= 8 * HeaderBytes(long)
    ensures WindowSafe(long, lo)
  {
    hide Encode, Bits, Harmless, BodyDamage;
    forall p: seq<Byte>, g: seq<Byte> | HasForm(p, long) && Window(Bits(Encode(p)), Bits(g), lo)
      ensures Harmless(p, g)
    {
      SentFrame(p);
      SamePrefixBits(Encode(p), g, HeaderBytes(long));
      PrefixIsBody(p, g);
      BodyHarmless(Burst, p, g);
    }
  }

  // ----- how a wrong payload is handed over -----

  lemma {:induction false} PacedConcat(a: seq<Byte>, b: seq<Byte>, m: seq<nat>, n: seq<nat>)
    requires |a| == |m| && |b| == |n|
    ensures Paced(a + b, m + n) == Paced(a, m) + Paced(b, n)
  {
    hide Ticks;
    if a == [] {
      assert a + b == b && m + n == n;
    } else {
      assert (a + b)[1..] == a[1..] + b && (m + n)[1..] == m[1..] + n;
      PacedConcat(a[1..], b, m[1..], n);
    }
  }

  function NoGaps(n: nat): (gaps: seq<nat>)
    ensures |gaps| == n && InTime(gaps)
  {
    seq(n, i => 0)
  }

  /** If the bytes begin with the frame of another payload, that is handed over. */
  lemma FrameFirst(p: seq<Byte>, o: seq<Byte>, f: seq<Byte>, rest: seq<Byte>)
    requires WellFormed(f, o) && o != p
    ensures !Harmless(p, f + rest)
  {
    hide WellFormed, Accepted, PayloadOf, Complete, Paced, Run, Output;
    AcceptedIff(f, o);
    var rx, m, n := Rx([], 0), NoGaps(|f|), NoGaps(|rest|);
    CompleteLength(f);
    assert f[0..] == f && m[0..] == m;
    RunFrame(rx, f, m, 0);
    PacedConcat(f, rest, m, n);
    RunConcat(rx, Paced(f, m), Paced(rest, n));
    assert o in Output(rx, Paced(f + rest, m + n));
    assert |m + n| == |f + rest| && InTime(m + n);
  }

  /** The frame of p begins with a and the byte x; with y instead it begins with the frame of o. */
  ghost predicate Mistaken(p: seq<Byte>, o: seq<Byte>, a: seq<Byte>, x: Byte, y: Byte, r: seq<Byte>) {
    && Encode(p) == a + [x] + r && o != p
    && exists f: seq<Byte>, rest: seq<Byte> :: WellFormed(f, o) && a + [y] + r == f + rest
  }

  lemma MistakenMisread(p: seq<Byte>, o: seq<Byte>, a: seq<Byte>, x: Byte, y: Byte, r: seq<Byte>)
    requires Mistaken(p, o, a, x, y, r)
    ensures !Harmless(p, a + [y] + r)
  {
    hide Harmless, WellFormed, Encode;
    var f: seq<Byte>, rest: seq<Byte> :| WellFormed(f, o) && a + [y] + r == f + rest;
    FrameFirst(p, o, f, rest);
  }

  function Zeros(n: nat): (z: seq<Byte>)
    ensures |z| == n && forall i :: 0 <= i < n ==> z[i] == 0
  {
    seq(n, i => 0)
  }

  lemma OneByteLength(p: seq<Byte>)
    requires 1 <= |p| < 256
    ensures Encode(p) == [2, ToByte(|p|)] + p + Trailer(p)
    ensures WellFormed([2, ToByte(|p|)] + p + Trailer(p), p)
  {
    hide Trailer, ToByte, WellFormed, Header;
    EncodeParts(p);
    OneByteHeader(|p|);
    OneByteWellFormed(p);
  }

  lemma OneByteHeader(n: nat)
    requires 1 <= n < 256
    ensures Header(n) == [2, ToByte(n)]
  {
    hide ToByte;
    assert n % 256 == n;
  }

  lemma OneByteWellFormed(p: seq<Byte>)
    requires 1 <= |p| < 256
    ensures WellFormed([2, ToByte(|p|)] + p + Trailer(p), p)
  {
    hide Trailer, ToByte;
  }

  lemma TwoByteLength(p: seq<Byte>)
    requires 256 <= |p| <= PACKET_MAX_PL_LEN
    ensures |p| > 256 ==> Encode(p) == [3, ToByte(|p| / 256), ToByte(|p| % 256)] + p + Trailer(p)
    ensures WellFormed([3, ToByte(|p| / 256), ToByte(|p| % 256)] + p + Trailer(p), p)
  {
    hide Trailer, ToByte;
  }

  lemma Regroup(a: seq<Byte>, x: Byte, q: seq<Byte>, u: seq<Byte>, t: seq<Byte>, v: seq<Byte>)
    ensures a + [x] + (q + u + t + v) == (a + [x] + q + u) + (t + v)
  {
  }

  /**
   Any payload that consists of some bytes q, their CRC and end byte, and more bytes t: if the last length byte is
   damaged to that of q, the receiver hands over q.
   */
  lemma Shortened(long: bool, q: seq<Byte>, t: seq<Byte>)
    returns (p: seq<Byte>, a: seq<Byte>, x: Byte, y: Byte, r: seq<Byte>)
    requires q != [] && HasForm(q + Trailer(q) + t, long)
    requires long ==> |q| >= 256 && (|q| + 3 + |t|) / 256 == |q| / 256
    ensures p == q + Trailer(q) + t && HasForm(p, long) && Mistaken(p, q, a, x, y, r)
    ensures |a| == HeaderBytes(long) - 1 && x == ToByte((|q| + 3 + |t|) % 256) && y == ToByte(|q| % 256)
  {
    hide Trailer, ToByte, WellFormed, Encode;
    p := q + Trailer(q) + t;
    r := p + Trailer(p);
    var n := |q| + 3 + |t|;
    assert |p| == n;
    x, y := ToByte(n % 256), ToByte(|q| % 256);
    if long {
      a := [3, ToByte(n / 256)];
      TwoByteLength(p);
      TwoByteLength(q);
      assert a + [x] == [3, ToByte(n / 256), ToByte(n % 256)] && a + [y] == [3, ToByte(|q| / 256), ToByte(|q| % 256)];
    } else {
      a := [2];
      OneByteLength(p);
      OneByteLength(q);
      assert a + [x] == [2, ToByte(n)] && a + [y] == [2, ToByte(|q|)];
    }
    Regroup(a, y, q, Trailer(q), t, Trailer(p));
    assert Encode(p) == a + [x] + r;
    assert a + [y] + r == (a + [y] + q + Trailer(q)) + (t + Trailer(p));
  }

  // ----- errors in one header byte -----

  lemma BitsOfByte(b: Byte)
    ensures Bits([b]) == ByteBits(b)
  {
    hide ByteBits;
    assert Bits([b]) == ByteBits(b) + Bits([]);
  }

  lemma EmbedDiffer(a: seq<Bit>, s: seq<Bit>, t: seq<Bit>, r: seq<Bit>, i: nat, j: nat)
    requires i < j < |s| && DifferAt(s, t, i, j)
    ensures DifferAt(a + s + r, a + t + r, |a| + i, |a| + j)
  {
    var x, y := a + s + r, a + t + r;
    forall k | 0 <= k < |x| ensures x[k] == y[k] <==> k != |a| + i && k != |a| + j {
      if |a| <= k < |a| + |s| {
        assert x[k] == s[k - |a|] && y[k] == t[k - |a|];
      }
    }
  }

  lemma EmbedWindow(a: seq<Bit>, s: seq<Bit>, t: seq<Bit>, r: seq<Bit>, lo: nat, hi: nat)
    requires SameOutside(s, t, lo, hi)
    ensures SameOutside(a + s + r, a + t + r, |a| + lo, |a| + hi)
  {
    var x, y := a + s + r, a + t + r;
    forall k | 0 <= k < |x| && !(|a| + lo <= k < |a| + hi) ensures x[k] == y[k] {
      if |a| <= k < |a| + |s| {
        assert x[k] == s[k - |a|] && y[k] == t[k - |a|];
      }
    }
  }

  ghost predicate DifferOnlyAt(s: seq<Bit>, t: seq<Bit>, i: nat) {
    |s| == |t| && forall k :: 0 <= k < |s| ==> (s[k] == t[k] <==> k != i)
  }

  lemma OneBitIsOdd(s: seq<Bit>, t: seq<Bit>, i: nat)
    requires DifferOnlyAt(s, t, i) && i < |s|
    ensures Parity(Difference(s, t)) == 1
  {
    hide Parity, Difference;
    var a, b := s[..i], s[i + 1..];
    assert s == a + [s[i]] + b && t == a + [t[i]] + b;
    InnerParity(a, [s[i]], [t[i]], b);
    OneBitParity(s[i], t[i]);
  }

  lemma OneBitParity(x: Bit, y: Bit)
    requires x != y
    ensures Parity(Difference([x], [y])) == 1
  {
    var d := Difference([x], [y]);
    assert d[1..] == [] && d[0] == x ^ y;
    BitDiffers(x, y);
  }

  /** 7 and 4, and 3 and 0, differ in their last two bits; 5 and 1, and 4 and 0, in one bit. */
  lemma SmallNumbers()
    ensures DifferAt(ByteBits(7), ByteBits(4), 6, 7) && DifferAt(ByteBits(3), ByteBits(0), 6, 7)
    ensures DifferOnlyAt(ByteBits(5), ByteBits(1), 5) && DifferOnlyAt(ByteBits(4), ByteBits(0), 5)
  {
  }

  lemma IsByte(n: nat, b: Byte)
    requires FromByte(b) == n
    ensures ToByte(n) == b
  {
    hide ToByte, FromByte;
    ByteRoundTrip(n);
    FromByteInjective(ToByte(n), b);
  }

  /** Two wrong bits at the end of the length make the receiver hand over a wrong payload. */
  lemma TwoBitsMisread(long: bool) returns (p: seq<Byte>, g: seq<Byte>)
    ensures HasForm(p, long) && SamePrefix(Encode(p), g, HeaderBytes(long) - 1) && !Harmless(p, g)
    ensures var n := 8 * HeaderBytes(long); n <= 8 * |g| && DifferAt(Bits(Encode(p)), Bits(g), n - 2, n - 1)
  {
    hide ToByte, WellFormed, Encode, Harmless, ByteBits, Bits, Trailer, Mistaken, DifferAt;
    var a, x, y, r;
    p, a, x, y, r := Shortened(long, Zeros(if long then 256 else 4), []);
    g := a + [y] + r;
    IsByte(|p| % 256, if long then 3 else 7);
    IsByte((|p| - 3) % 256, if long then 0 else 4);
    SmallNumbers();
    MistakenMisread(p, Zeros(if long then 256 else 4), a, x, y, r);
    MistakenForm(p, Zeros(if long then 256 else 4), a, x, y, r);
    BitsParts(a, [x], r);
    BitsParts(a, [y], r);
    BitsOfByte(x);
    BitsOfByte(y);
    EmbedDiffer(Bits(a), ByteBits(x), ByteBits(y), Bits(r), 6, 7);
  }

  lemma MistakenForm(p: seq<Byte>, o: seq<Byte>, a: seq<Byte>, x: Byte, y: Byte, r: seq<Byte>)
    requires Mistaken(p, o, a, x, y, r)
    ensures Encode(p) == a + [x] + r && SamePrefix(Encode(p), a + [y] + r, |a|)
  {
    hide Encode, WellFormed;
  }

  /** So does one wrong bit. */
  lemma OneBitMisread(long: bool) returns (p: seq<Byte>, g: seq<Byte>)
    ensures HasForm(p, long) && SamePrefix(Encode(p), g, HeaderBytes(long) - 1) && !Harmless(p, g)
    ensures |g| == |Encode(p)| && Parity(Difference(Bits(Encode(p)), Bits(g))) == 1
  {
    hide ToByte, WellFormed, Encode, Harmless, ByteBits, Bits, Trailer, Mistaken, Difference, Parity, DifferOnlyAt;
    var a, x, y, r;
    p, a, x, y, r := Shortened(long, Zeros(if long then 256 else 1), [0]);
    g := a + [y] + r;
    IsByte(|p| % 256, if long then 4 else 5);
    IsByte((|p| - 4) % 256, if long then 0 else 1);
    SmallNumbers();
    MistakenMisread(p, Zeros(if long then 256 else 1), a, x, y, r);
    MistakenForm(p, Zeros(if long then 256 else 1), a, x, y, r);
    BitsParts(a, [x], r);
    BitsParts(a, [y], r);
    BitsOfByte(x);
    BitsOfByte(y);
    OneBitIsOdd(ByteBits(x), ByteBits(y), 5);
    InnerParity(Bits(a), ByteBits(x), ByteBits(y), Bits(r));
  }

  lemma ShorterPrefix(f: seq<Byte>, g: seq<Byte>, m: nat, n: nat)
    requires SamePrefix(f, g, m) && n <= m
    ensures SamePrefix(f, g, n)
  {
  }

  lemma UnsafeClass(c: ErrorClass, long: bool, n: nat)
    requires n < HeaderBytes(long)
    ensures !ClassSafe(c, long, n)
  {
    hide Encode, Bits, Harmless, SameOutside, DifferAt, Difference, Parity;
    var p, g;
    if c == OddBits {
      p, g := OneBitMisread(long);
    } else {
      p, g := TwoBitsMisread(long);
      if c == Burst {
        TwoBitsWindow(Bits(Encode(p)), Bits(g), 8 * HeaderBytes(long) - 2, 8);
      }
    }
    ShorterPrefix(Encode(p), g, HeaderBytes(long) - 1, n);
    assert Differ(c, Bits(Encode(p)), Bits(g));
  }

  lemma TwoBitsWindow(s: seq<Bit>, t: seq<Bit>, i: nat, lo: nat)
    requires DifferAt(s, t, i, i + 1) && lo <= i && i + 2 <= lo + 16
    ensures Window(s, t, lo)
  {
  }

  /**
   For every class of errors: those in the bytes from number n on are harmless for all payloads, with a one-byte or
   with a two-byte length, if and only if the header has at most n bytes.
   */
  lemma ClassSafeIff(c: ErrorClass, long: bool, n: nat)
    ensures ClassSafe(c, long, n) <==> n >= HeaderBytes(long)
  {
    hide ClassSafe;
    if n >= HeaderBytes(long) {
      SafeClass(c, long, n);
    } else {
      UnsafeClass(c, long, n);
    }
  }

  // ----- sixteen consecutive bits -----

  lemma ZerosCrc(n: nat)
    ensures Checksum(Zeros(n)) == 0
  {
    hide Shift, FeedBits, Bits, Shifts;
    ZeroBits(Zeros(n));
    FeedZeros(0, Bits(Zeros(n)));
    ShiftsInjective(0, 8 * n);
  }

  lemma {:induction false} ZeroBits(m: seq<Byte>)
    requires forall i :: 0 <= i < |m| ==> m[i] == 0
    ensures forall k :: 0 <= k < |Bits(m)| ==> Bits(m)[k] == 0
  {
    if m != [] {
      ZeroBits(m[1..]);
    }
  }

  /** Zero bytes behind a message. */
  lemma CrcThenZeros(m: seq<Byte>, n: nat)
    ensures Checksum(m + Zeros(n)) == Shifts(Checksum(m), 8 * n)
  {
    hide Shift, FeedBits, Bits, Shifts;
    BitsConcat(m, Zeros(n));
    ZeroBits(Zeros(n));
    FeedConcat(0, Bits(m), Bits(Zeros(n)));
    FeedZeros(Checksum(m), Bits(Zeros(n)));
  }

  lemma CrcOfTwo(a: Byte, b: Byte)
    ensures Checksum([a, b]) == TableStep(TableStep(0, a), b)
  {
    hide TableStep, FeedBits, Bits;
    CrcOfNone();
    CrcAppend([], a);
    CrcAppend([a], b);
    assert [] + [a] == [a] && [a] + [b] == [a, b];
  }

  lemma CrcOfNone()
    ensures Checksum([]) == 0
  {
  }

  /** The steps of the table that the following frames need. */
  lemma Steps()
    ensures TableStep(0, 0x65) == 0x3C03
    ensures TableStep(TableStep(0, 0x7F), 0x2C) == 0xFD89
    ensures TableStep(TableStep(0, 0x44), 0xB8) == 0xE7DB
  {
  }

  lemma ShiftsProduct(c: Word, n: nat)
    ensures Shifts(c, n) == TimesWord(c, Power(n))
  {
    hide Times, TimesWord, Small, Shifts;
    WordIsSmall(c);
    TimesSpec(c, n, 16);
    TimesIsWord(c, Shifts(1, n));
  }

  lemma SixteenShifts(c: Word)
    ensures Shifts(c, 16) == Shift8(Shift8(c))
  {
    hide Shift8, Shifts;
    ShiftsAdd(c, 8, 8);
    EightShifts(c);
    EightShifts(Shift8(c));
  }

  lemma MoreSteps()
    ensures Shift8(Shift8(0x44B8)) == 0xE7DB && Shift8(Shift8(0xFD89)) == 0x653C
    ensures TimesWord(0x44B8, 0xFD50) == 0x653C
  {
  }

  /** A payload of 256 or of 4 bytes, and the byte and the CRC that it has to be followed by. */
  lemma DamagedCrc(long: bool)
    ensures long ==> Checksum([0x44, 0xB8] + Zeros(254)) == 0x653C
    ensures !long ==> Checksum([0x7F, 0x2C] + Zeros(2)) == 0x653C
  {
    hide Checksum, TableStep, Shift8, TimesWord, Shifts, Power;
    Steps();
    MoreSteps();
    if long {
      CrcOfTwo(0x44, 0xB8);
      CrcThenZeros([0x44, 0xB8], 254);
      SixteenShifts(0x44B8);
      ShiftsAdd(0x44B8, 16, 2032);
      ShiftsProduct(0x44B8, 2048);
      PowersTo32768();
      HighSquares();
      PowerSum(1024, 1024);
    } else {
      CrcOfTwo(0x7F, 0x2C);
      CrcThenZeros([0x7F, 0x2C], 2);
      SixteenShifts(0xFD89);
    }
  }

  /** What is damaged: the last bit of the length, and the first fifteen bits of the payload. */
  lemma DamagedBits(long: bool)
    ensures long ==> SameOutside(Bits([1, 0, 0]), Bits([0, 0x44, 0xB8]), 7, 23)
    ensures !long ==> SameOutside(Bits([5, 0, 0]), Bits([4, 0x7F, 0x2C]), 7, 23)
  {
    hide Bits;
    ThreeBytes(1, 0, 0);
    ThreeBytes(0, 0x44, 0xB8);
    ThreeBytes(5, 0, 0);
    ThreeBytes(4, 0x7F, 0x2C);
  }

  /** The payload that is sent and its CRC. */
  lemma SentCrc(k: nat)
    ensures Checksum(Zeros(k) + [0x65]) == 0x3C03 && Trailer(Zeros(k) + [0x65]) == [0x3C, 0x03, 3]
  {
    hide Checksum, TableStep;
    ZerosCrc(k);
    CrcAppend(Zeros(k), 0x65);
    Steps();
    Halves();
  }

  lemma Halves()
    ensures HighByte(0x3C03) == 0x3C && LowByteOf(0x3C03) == 0x03
    ensures HighByte(0x653C) == 0x65 && LowByteOf(0x653C) == 0x3C
  {
  }

  lemma OtherTrailer(o: seq<Byte>)
    requires Checksum(o) == 0x653C
    ensures Trailer(o) == [0x65, 0x3C, 3]
  {
    hide Checksum;
    Halves();
  }

  /** The frame with the three bytes u around the end of its length, and the frame with v instead. */
  lemma LastBitFrames(long: bool, z: seq<Byte>)
    returns (p: seq<Byte>, a: seq<Byte>, u: seq<Byte>, v: seq<Byte>, r: seq<Byte>)
    requires z == Zeros(if long then 254 else 2)
    ensures HasForm(p, long) && Encode(p) == a + u + r && |a| == HeaderBytes(long) - 1
    ensures if long then u == [1, 0, 0] && v == [0, 0x44, 0xB8] else u == [5, 0, 0] && v == [4, 0x7F, 0x2C]
    ensures !Harmless(p, a + v + r)
  {
    hide ToByte, Checksum, TableStep, Encode, WellFormed, Harmless, Trailer, HighByte, LowByteOf;
    var k := |z| + 2;
    p := Zeros(k) + [0x65];
    assert Zeros(k) == [0, 0] + z;
    var o := (if long then [0x44, 0xB8] else [0x7F, 0x2C]) + z;
    SentCrc(k);
    DamagedCrc(long);
    OtherTrailer(o);
    assert |p| == k + 1 && |o| == k;
    r := z + [0x65, 0x3C, 0x03, 3];
    var f;
    if long {
      a, u, v := [3, 1], [1, 0, 0], [0, 0x44, 0xB8];
      TwoByteLength(p);
      TwoByteLength(o);
      IsByte(|p| / 256, 1);
      IsByte(|p| % 256, 1);
      IsByte(|o| / 256, 1);
      IsByte(|o| % 256, 0);
      f := [3, 1, 0] + o + [0x65, 0x3C, 3];
    } else {
      a, u, v := [2], [5, 0, 0], [4, 0x7F, 0x2C];
      OneByteLength(p);
      OneByteLength(o);
      IsByte(|p|, 5);
      IsByte(|o|, 4);
      f := [2, 4] + o + [0x65, 0x3C, 3];
    }
    assert a + v + r == f + [3];
    assert Encode(p) == a + u + r;
    FrameFirst(p, o, f, [3]);
  }

  /** A burst of sixteen bits that starts with the last bit of the length. */
  lemma LastBitMisread(long: bool) returns (p: seq<Byte>, g: seq<Byte>)
    ensures HasForm(p, long) && Window(Bits(Encode(p)), Bits(g), 8 * HeaderBytes(long) - 1) && !Harmless(p, g)
  {
    hide Encode, Harmless, Bits, SameOutside;
    var a, u, v, r;
    p, a, u, v, r := LastBitFrames(long, Zeros(if long then 254 else 2));
    g := a + v + r;
    DamagedBits(long);
    BitsParts(a, u, r);
    BitsParts(a, v, r);
    EmbedWindow(Bits(a), Bits(u), Bits(v), Bits(r), 7, 23);
  }

  /** One wrong bit turns the start byte of a long frame into that of a short one. */
  lemma StartByteMisread() returns (p: seq<Byte>, g: seq<Byte>)
    ensures HasForm(p, true) && SameOutside(Bits(Encode(p)), Bits(g), 7, 8) && !Harmless(p, g)
  {
    hide ToByte, Encode, WellFormed, Harmless, Bits, ByteBits, Trailer;
    var o: seq<Byte> := [1];
    p := Trailer(o) + Zeros(254);
    TwoByteLength(p);
    OneByteLength(o);
    IsByte(|p| / 256, 1);
    IsByte(|p| % 256, 1);
    IsByte(|o|, 1);
    var r := [1, 1] + p + Trailer(p);
    var rest := Zeros(254) + Trailer(p);
    g := [] + [2] + r;
    assert Encode(p) == [] + [3] + r;
    assert g == ([2, 1] + o + Trailer(o)) + rest;
    FrameFirst(p, o, [2, 1] + o + Trailer(o), rest);
    BitsParts([], [3], r);
    BitsParts([], [2], r);
    BitsOfByte(2);
    BitsOfByte(3);
    StartBytes();
    EmbedWindow(Bits([]), ByteBits(3), ByteBits(2), Bits(r), 7, 8);
    assert |Bits([])| == 0;
  }

  lemma StartBytes()
    ensures SameOutside(ByteBits(3), ByteBits(2), 7, 8)
  {
  }

  lemma WiderWindow(s: seq<Bit>, t: seq<Bit>, lo: nat)
    requires SameOutside(s, t, 7, 8) && lo <= 7
    ensures Window(s, t, lo)
  {
  }

  lemma UnsafeWindow(long: bool, lo: nat)
    requires lo < 8 * HeaderBytes(long)
    ensures !WindowSafe(long, lo)
  {
    hide Encode, Bits, Harmless, SameOutside, DifferAt;
    var n := 8 * HeaderBytes(long);
    var p, g;
    if lo == n - 1 {
      p, g := LastBitMisread(long);
    } else if lo + 16 >= n {
      p, g := TwoBitsMisread(long);
      TwoBitsWindow(Bits(Encode(p)), Bits(g), n - 2, lo);
    } else {
      p, g := StartByteMisread();
      WiderWindow(Bits(Encode(p)), Bits(g), lo);
    }
    assert Window(Bits(Encode(p)), Bits(g), lo);
  }

  /**
   Which sixteen consecutive bits of a frame may be hit by a burst without harm to any payload: exactly those
   that do not touch the header.
   */
  lemma WindowSafeIff(long: bool, lo: nat)
    ensures WindowSafe(long, lo) <==> lo >= 8 * HeaderBytes(long)
  {
    hide WindowSafe;
    if lo >= 8 * HeaderBytes(long) {
      SafeWindow(long, lo);
    } else {
      UnsafeWindow(long, lo);
    }
  }
}
