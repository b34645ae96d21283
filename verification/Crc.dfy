/**
 crc.c: the table-driven CRC of the wire protocols (section 2 of ITU-T V.41: generator
 x^16 + x^12 + x^5 + 1, initial value 0, most significant bit first), against division one bit at
 a time, and which errors it detects.
 */
module Crc {
  import opened Bytes

  type Word = bv16

  /** crc16_tab, in 16 rows of 16. */
  const CRC16_TAB: seq<seq<Word>> := [
    [0x0000, 0x1021, 0x2042, 0x3063, 0x4084, 0x50a5, 0x60c6, 0x70e7,
     0x8108, 0x9129, 0xa14a, 0xb16b, 0xc18c, 0xd1ad, 0xe1ce, 0xf1ef],
    [0x1231, 0x0210, 0x3273, 0x2252, 0x52b5, 0x4294, 0x72f7, 0x62d6,
     0x9339, 0x8318, 0xb37b, 0xa35a, 0xd3bd, 0xc39c, 0xf3ff, 0xe3de],
    [0x2462, 0x3443, 0x0420, 0x1401, 0x64e6, 0x74c7, 0x44a4, 0x5485,
     0xa56a, 0xb54b, 0x8528, 0x9509, 0xe5ee, 0xf5cf, 0xc5ac, 0xd58d],
    [0x3653, 0x2672, 0x1611, 0x0630, 0x76d7, 0x66f6, 0x5695, 0x46b4,
     0xb75b, 0xa77a, 0x9719, 0x8738, 0xf7df, 0xe7fe, 0xd79d, 0xc7bc],
    [0x48c4, 0x58e5, 0x6886, 0x78a7, 0x0840, 0x1861, 0x2802, 0x3823,
     0xc9cc, 0xd9ed, 0xe98e, 0xf9af, 0x8948, 0x9969, 0xa90a, 0xb92b],
    [0x5af5, 0x4ad4, 0x7ab7, 0x6a96, 0x1a71, 0x0a50, 0x3a33, 0x2a12,
     0xdbfd, 0xcbdc, 0xfbbf, 0xeb9e, 0x9b79, 0x8b58, 0xbb3b, 0xab1a],
    [0x6ca6, 0x7c87, 0x4ce4, 0x5cc5, 0x2c22, 0x3c03, 0x0c60, 0x1c41,
     0xedae, 0xfd8f, 0xcdec, 0xddcd, 0xad2a, 0xbd0b, 0x8d68, 0x9d49],
    [0x7e97, 0x6eb6, 0x5ed5, 0x4ef4, 0x3e13, 0x2e32, 0x1e51, 0x0e70,
     0xff9f, 0xefbe, 0xdfdd, 0xcffc, 0xbf1b, 0xaf3a, 0x9f59, 0x8f78],
    [0x9188, 0x81a9, 0xb1ca, 0xa1eb, 0xd10c, 0xc12d, 0xf14e, 0xe16f,
     0x1080, 0x00a1, 0x30c2, 0x20e3, 0x5004, 0x4025, 0x7046, 0x6067],
    [0x83b9, 0x9398, 0xa3fb, 0xb3da, 0xc33d, 0xd31c, 0xe37f, 0xf35e,
     0x02b1, 0x1290, 0x22f3, 0x32d2, 0x4235, 0x5214, 0x6277, 0x7256],
    [0xb5ea, 0xa5cb, 0x95a8, 0x8589, 0xf56e, 0xe54f, 0xd52c, 0xc50d,
     0x34e2, 0x24c3, 0x14a0, 0x0481, 0x7466, 0x6447, 0x5424, 0x4405],
    [0xa7db, 0xb7fa, 0x8799, 0x97b8, 0xe75f, 0xf77e, 0xc71d, 0xd73c,
     0x26d3, 0x36f2, 0x0691, 0x16b0, 0x6657, 0x7676, 0x4615, 0x5634],
    [0xd94c, 0xc96d, 0xf90e, 0xe92f, 0x99c8, 0x89e9, 0xb98a, 0xa9ab,
     0x5844, 0x4865, 0x7806, 0x6827, 0x18c0, 0x08e1, 0x3882, 0x28a3],
    [0xcb7d, 0xdb5c, 0xeb3f, 0xfb1e, 0x8bf9, 0x9bd8, 0xabbb, 0xbb9a,
     0x4a75, 0x5a54, 0x6a37, 0x7a16, 0x0af1, 0x1ad0, 0x2ab3, 0x3a92],
    [0xfd2e, 0xed0f, 0xdd6c, 0xcd4d, 0xbdaa, 0xad8b, 0x9de8, 0x8dc9,
     0x7c26, 0x6c07, 0x5c64, 0x4c45, 0x3ca2, 0x2c83, 0x1ce0, 0x0cc1],
    [0xef1f, 0xff3e, 0xcf5d, 0xdf7c, 0xaf9b, 0xbfba, 0x8fd9, 0x9ff8,
     0x6e17, 0x7e36, 0x4e55, 0x5e74, 0x2e93, 0x3eb2, 0x0ed1, 0x1ef0]
  ]

  const GENERATOR: Word := 0x1021

  type Bit = bv1

  /** One step of the division: shift the register, subtract the generator if a one falls out. */
  function Shift(c: Word): Word {
    (c << 1) ^ ((c >> 15) * GENERATOR)
  }

  /** Feeds one message bit into the division register. */
  function FeedBit(c: Word, bit: Bit): Word {
    Shift(c ^ (bit as Word << 15))
  }

  function FeedBits(c: Word, bits: seq<Bit>): Word
    decreases |bits|
  {
    if bits == [] then c else FeedBits(FeedBit(c, bits[0]), bits[1..])
  }

  function ByteBits(b: Byte): (s: seq<Bit>)
    ensures |s| == 8
  {
    [((b >> 7) & 1) as Bit, ((b >> 6) & 1) as Bit, ((b >> 5) & 1) as Bit, ((b >> 4) & 1) as Bit,
     ((b >> 3) & 1) as Bit, ((b >> 2) & 1) as Bit, ((b >> 1) & 1) as Bit, (b & 1) as Bit]
  }

  function Bits(m: seq<Byte>): (s: seq<Bit>)
    ensures |s| == 8 * |m|
  {
    if m == [] then [] else ByteBits(m[0]) + Bits(m[1..])
  }

  function Shift8(c: Word): Word {
    Shift(Shift(Shift(Shift(Shift(Shift(Shift(Shift(c))))))))
  }

  // ----- the table -----

  lemma TableShape()
    ensures |CRC16_TAB| == 16
    ensures forall k :: 0 <= k < 16 ==> |CRC16_TAB[k]| == 16
  {
  }

  function Nibble(x: Byte): (n: nat)
    requires x < 16
    ensures n < 16
  {
    x as int
  }

  function TableEntry(b: Byte): Word {
    TableShape();
    CRC16_TAB[Nibble(b >> 4)][Nibble(b & 0xF)]
  }

  lemma TableCorrect(b: Byte)
    ensures TableEntry(b) == Shift8(b as Word << 8)
  {
    assert |CRC16_TAB[0]| == |CRC16_TAB[1]| == |CRC16_TAB[2]| == |CRC16_TAB[3]| == 16;
    assert |CRC16_TAB[4]| == |CRC16_TAB[5]| == |CRC16_TAB[6]| == |CRC16_TAB[7]| == 16;
    assert |CRC16_TAB[8]| == |CRC16_TAB[9]| == |CRC16_TAB[10]| == |CRC16_TAB[11]| == 16;
    assert |CRC16_TAB[12]| == |CRC16_TAB[13]| == |CRC16_TAB[14]| == |CRC16_TAB[15]| == 16;
  }

  // ----- the loop -----

  /** The CRC of a message: the remainder register after all its bits. */
  function Checksum(m: seq<Byte>): Word {
    FeedBits(0, Bits(m))
  }

  /** Bitwise exclusive or, named so that its laws can be used without looking inside. */
  function Xor(c: Word, d: Word): Word {
    c ^ d
  }

  lemma XorComm(a: Word, b: Word)
    ensures Xor(a, b) == Xor(b, a)
  {
  }

  lemma XorAssoc(a: Word, b: Word, c: Word)
    ensures Xor(a, Xor(b, c)) == Xor(Xor(a, b), c)
  {
  }

  lemma XorZero(a: Word)
    ensures Xor(a, 0) == a == Xor(0, a)
  {
  }

  lemma XorSelf(a: Word)
    ensures Xor(a, a) == 0
  {
  }

  lemma XorSwap(a: Word, b: Word, c: Word, d: Word)
    ensures Xor(Xor(a, b), Xor(c, d)) == Xor(Xor(a, c), Xor(b, d))
  {
    hide Xor;
    XorAssoc(Xor(a, b), c, d);
    XorAssoc(a, b, c);
    XorComm(b, c);
    XorAssoc(a, c, b);
    XorAssoc(Xor(a, c), b, d);
  }

  lemma ShiftOfXor(c: Word, d: Word)
    ensures Shift(c ^ d) == Shift(c) ^ Shift(d)
  {
  }

  /** Division is linear. */
  lemma ShiftLinear(c: Word, d: Word)
    ensures Shift(Xor(c, d)) == Xor(Shift(c), Shift(d))
  {
    hide Shift;
    ShiftOfXor(c, d);
  }

  /** The generator has a constant term, so a step loses nothing. */
  lemma ShiftInjective(c: Word)
    ensures Shift(c) == 0 ==> c == 0
    ensures Shift(0) == 0
  {
  }

  function Shifts(c: Word, n: nat): Word
    decreases n
  {
    if n == 0 then c else Shifts(Shift(c), n - 1)
  }

  lemma {:induction false} ShiftsLinear(c: Word, d: Word, n: nat)
    ensures Shifts(Xor(c, d), n) == Xor(Shifts(c, n), Shifts(d, n))
    decreases n
  {
    hide Shift, Xor;
    if n > 0 {
      ShiftLinear(c, d);
      ShiftsLinear(Shift(c), Shift(d), n - 1);
    }
  }

  lemma {:induction false} ShiftsInjective(c: Word, n: nat)
    ensures Shifts(c, n) == 0 <==> c == 0
    decreases n
  {
    hide Shift;
    ShiftInjective(c);
    if n > 0 {
      ShiftsInjective(Shift(c), n - 1);
    }
  }

  // ----- up to sixteen bits at once -----

  function Top(bit: Bit): Word {
    bit as Word << 15
  }

  function Down(c: Word): Word {
    c >> 1
  }

  /** Up to sixteen message bits as a word, first bit on top. */
  function Align(s: seq<Bit>): Word {
    if s == [] then 0 else Xor(Top(s[0]), Down(Align(s[1..])))
  }

  /** The 16 - n low bits. */
  function LowMask(n: nat): Word {
    if n == 0 then 0xFFFF else Down(LowMask(n - 1))
  }

  lemma MaskShifted(bit: Bit, a: Word, m: Word)
    ensures a & m == 0 ==> Xor(Top(bit), a >> 1) & (m >> 1) == 0
  {
    assert (a >> 1) & (m >> 1) == (a & m) >> 1;
    assert Top(bit) & (m >> 1) == 0;
    assert Xor(Top(bit), a >> 1) & (m >> 1) == (Top(bit) & (m >> 1)) ^ ((a >> 1) & (m >> 1));
  }

  lemma MaskStep(bit: Bit, a: Word, m: Word)
    ensures a & m == 0 ==> Xor(Top(bit), Down(a)) & Down(m) == 0
  {
    hide Xor, Top;
    MaskShifted(bit, a, m);
  }

  lemma {:induction false} AlignLow(s: seq<Bit>, n: nat)
    requires |s| <= n
    ensures Align(s) & LowMask(n) == 0
  {
    if s != [] {
      AlignLow(s[1..], n - 1);
      hide Xor, Top, LowMask, Down;
      MaskStep(s[0], Align(s[1..]), LowMask(n - 1));
      LowMaskStep(n);
    } else {
      ZeroAnd(LowMask(n));
    }
  }

  lemma LowMaskStep(n: nat)
    requires n > 0
    ensures LowMask(n) == Down(LowMask(n - 1))
  {
  }

  lemma ZeroAnd(m: Word)
    ensures 0 & m == 0
  {
  }

  lemma LowMask15()
    ensures LowMask(15) == 1
  {
    assert LowMask(4) == 0xFFF && LowMask(8) == 0xFF && LowMask(12) == 0xF;
  }

  lemma ShiftBack(a: Word)
    requires a & 1 == 0
    ensures Shift(Down(a)) == a
  {
  }

  lemma AlignShift(s: seq<Bit>)
    requires |s| <= 15
    ensures Shift(Down(Align(s))) == Align(s)
  {
    hide Shift, Align, Down, LowMask;
    AlignLow(s, 15);
    LowMask15();
    ShiftBack(Align(s));
  }

  lemma FeedBitIs(c: Word, bit: Bit)
    ensures FeedBit(c, bit) == Shift(Xor(c, Top(bit)))
  {
    hide Shift;
  }

  /** Feeding up to sixteen bits is adding them to the register and then shifting. */
  lemma {:induction false} FeedAligned(c: Word, s: seq<Bit>)
    requires |s| <= 16
    ensures FeedBits(c, s) == Shifts(Xor(c, Align(s)), |s|)
    decreases |s|
  {
    hide Shift, Xor, Top, Down, FeedBit;
    if s == [] {
      XorZero(c);
    } else {
      var a, top := Align(s[1..]), Top(s[0]);
      AlignShift(s[1..]);
      FeedBitIs(c, s[0]);
      XorAssoc(c, top, Down(a));
      ShiftLinear(Xor(c, top), Down(a));
      FeedAligned(FeedBit(c, s[0]), s[1..]);
    }
  }

  lemma AlignFirst(s: seq<Bit>, k: nat)
    requires k < |s|
    ensures Align(s[k..]) == Xor(Top(s[k]), Down(Align(s[k + 1..])))
  {
    hide Xor, Top, Down;
    assert s[k..][1..] == s[k + 1..];
  }

  lemma AlignEight(s: seq<Bit>)
    requires |s| == 8
    ensures Align(s) == Xor(Top(s[0]), Down(Xor(Top(s[1]), Down(Xor(Top(s[2]), Down(Xor(Top(s[3]),
      Down(Xor(Top(s[4]), Down(Xor(Top(s[5]), Down(Xor(Top(s[6]), Down(Xor(Top(s[7]), Down(0))))))))))))))))
  {
    hide Xor, Top, Down;
    AlignFirst(s, 0);
    AlignFirst(s, 1);
    AlignFirst(s, 2);
    AlignFirst(s, 3);
    AlignFirst(s, 4);
    AlignFirst(s, 5);
    AlignFirst(s, 6);
    AlignFirst(s, 7);
    assert s[0..] == s && s[8..] == [];
  }

  lemma AlignByte(b: Byte)
    ensures Align(ByteBits(b)) == b as Word << 8
  {
    AlignEight(ByteBits(b));
  }

  lemma EightShifts(c: Word)
    ensures Shifts(c, 8) == Shift8(c)
  {
    hide Shift;
    assert forall d: Word :: Shifts(d, 4) == Shift(Shift(Shift(Shift(d))));
  }

  lemma FeedByte(c: Word, b: Byte)
    ensures FeedBits(c, ByteBits(b)) == Shift8(Xor(c, b as Word << 8))
  {
    hide Shift8, Xor, ByteBits, FeedBits, Align, Shifts;
    FeedAligned(c, ByteBits(b));
    AlignByte(b);
    EightShifts(Xor(c, b as Word << 8));
  }

  // ----- crc16 -----

  /** The body of the loop of crc16. */
  function TableStep(c: Word, b: Byte): Word {
    TableEntry((c >> 8) as Byte ^ b) ^ (c << 8)
  }

  lemma LowByte(c: Word)
    ensures Shift8(c & 0xFF) == c << 8
  {
  }

  lemma SplitWord(c: Word, b: Byte)
    ensures Xor(c, b as Word << 8) == Xor(((c >> 8) as Byte ^ b) as Word << 8, c & 0xFF)
  {
  }

  lemma TableStepIsXor(c: Word, b: Byte)
    ensures TableStep(c, b) == Xor(TableEntry((c >> 8) as Byte ^ b), c << 8)
  {
    hide TableEntry;
  }

  lemma Shift8Linear(c: Word, d: Word)
    ensures Shift8(Xor(c, d)) == Xor(Shift8(c), Shift8(d))
  {
    hide Shift8, Xor, Shifts;
    EightShifts(c);
    EightShifts(d);
    EightShifts(Xor(c, d));
    ShiftsLinear(c, d, 8);
  }

  /** One table step divides by eight more bits. */
  lemma TableStepCorrect(c: Word, b: Byte)
    ensures TableStep(c, b) == FeedBits(c, ByteBits(b))
  {
    hide Shift8, TableEntry, FeedBits, ByteBits, Xor, TableStep;
    var hi := (c >> 8) as Byte ^ b;
    TableStepIsXor(c, b);
    TableCorrect(hi);
    LowByte(c);
    SplitWord(c, b);
    Shift8Linear(hi as Word << 8, c & 0xFF);
    FeedByte(c, b);
  }

  lemma {:induction false} FeedConcat(c: Word, s: seq<Bit>, t: seq<Bit>)
    ensures FeedBits(c, s + t) == FeedBits(FeedBits(c, s), t)
    decreases |s|
  {
    hide FeedBit;
    if s == [] {
      assert s + t == t;
    } else {
      assert (s + t)[1..] == s[1..] + t;
      FeedConcat(FeedBit(c, s[0]), s[1..], t);
    }
  }

  lemma {:induction false} BitsConcat(m: seq<Byte>, n: seq<Byte>)
    ensures Bits(m + n) == Bits(m) + Bits(n)
  {
    hide ByteBits;
    if m == [] {
      assert m + n == n;
    } else {
      assert (m + n)[1..] == m[1..] + n;
      BitsConcat(m[1..], n);
    }
  }

  /** One more byte of message is one more table step. */
  lemma CrcAppend(m: seq<Byte>, b: Byte)
    ensures Checksum(m + [b]) == TableStep(Checksum(m), b)
  {
    hide ByteBits, FeedBits, TableStep;
    BitsConcat(m, [b]);
    assert Bits([b]) == ByteBits(b);
    FeedConcat(0, Bits(m), ByteBits(b));
    TableStepCorrect(Checksum(m), b);
  }

  method Crc16(buf: array<Byte>, len: nat) returns (cksum: Word)
    requires len <= buf.Length
    ensures cksum == Checksum(buf[..len])
  {
    hide TableStep, TableEntry;
    cksum := 0;
    var i := 0;
    while i < len
      invariant 0 <= i <= len && cksum == Checksum(buf[..i])
    {
      CrcAppend(buf[..i], buf[i]);
      assert buf[..i + 1] == buf[..i] + [buf[i]];
      cksum := TableStep(cksum, buf[i]);
      i := i + 1;
    }
  }

  function HighByte(c: Word): Byte {
    (c >> 8) as Byte
  }

  function LowByteOf(c: Word): Byte {
    (c & 0xFF) as Byte
  }

  /** The word with the given high and low byte, as the receivers put it together. */
  function JoinBytes(high: Byte, low: Byte): Word {
    (high as Word << 8) | (low as Word)
  }

  lemma JoinHalves(c: Word)
    ensures JoinBytes(HighByte(c), LowByteOf(c)) == c
  {
  }

  lemma HalvesOfJoin(high: Byte, low: Byte)
    ensures HighByte(JoinBytes(high, low)) == high && LowByteOf(JoinBytes(high, low)) == low
  {
  }

  lemma JoinSplit(c: Word, high: Byte, low: Byte)
    ensures c == JoinBytes(high, low) <==> high == HighByte(c) && low == LowByteOf(c)
  {
    hide JoinBytes, HighByte, LowByteOf;
    JoinHalves(c);
    HalvesOfJoin(high, low);
  }

  /** The published check value of this CRC: that of the nine digits "123456789". */
  lemma CheckValue()
    ensures Checksum([0x31, 0x32, 0x33, 0x34, 0x35, 0x36, 0x37, 0x38, 0x39]) == 0x31C3
  {
    hide Checksum, TableEntry;
    forall b: Byte ensures TableEntry(b) == Shift8(b as Word << 8) {
      TableCorrect(b);
    }
    var m: seq<Byte> := [0x31, 0x32, 0x33, 0x34, 0x35, 0x36, 0x37, 0x38, 0x39];
    EmptyChecksum();
    assert m[..0] == [] && m[..9] == m;
    CheckStep(m, 0, 0x0000, 0x2672);
    CheckStep(m, 1, 0x2672, 0x20B5);
    CheckStep(m, 2, 0x20B5, 0x9752);
    CheckStep(m, 3, 0x9752, 0xD789);
    CheckStep(m, 4, 0xD789, 0x546C);
    CheckStep(m, 5, 0x546C, 0x20E4);
    CheckStep(m, 6, 0x20E4, 0x86D6);
    CheckStep(m, 7, 0x86D6, 0x9015);
    CheckStep(m, 8, 0x9015, 0x31C3);
  }

  lemma EmptyChecksum()
    ensures Checksum([]) == 0
  {
  }

  lemma CheckStep(m: seq<Byte>, i: nat, c: Word, d: Word)
    requires i < |m| && Checksum(m[..i]) == c && TableStep(c, m[i]) == d
    ensures Checksum(m[..i + 1]) == d
  {
    hide Checksum, TableStep;
    CrcAppend(m[..i], m[i]);
    assert m[..i + 1] == m[..i] + [m[i]];
  }

  /** A message followed by its own CRC, high byte first, has CRC 0. */
  lemma CrcOfCodeword(m: seq<Byte>)
    ensures Checksum(m + [HighByte(Checksum(m)), LowByteOf(Checksum(m))]) == 0
  {
    hide TableStep, Checksum;
    var c := Checksum(m);
    CrcAppend(m, HighByte(c));
    CrcAppend(m + [HighByte(c)], LowByteOf(c));
    assert m + [HighByte(c)] + [LowByteOf(c)] == m + [HighByte(c), LowByteOf(c)];
    CancelBytes(c);
  }

  lemma CancelBytes(c: Word)
    ensures TableStep(TableStep(c, HighByte(c)), LowByteOf(c)) == 0
  {
    hide TableEntry;
    assert TableEntry(0) == 0 by {
      TableCorrect(0);
    }
  }

  // ----- error detection -----

  /** The bits in which two messages differ. */
  function Difference(s: seq<Bit>, t: seq<Bit>): (d: seq<Bit>)
    requires |s| == |t|
    ensures |d| == |s|
    ensures forall i :: 0 <= i < |s| ==> d[i] == s[i] ^ t[i]
  {
    seq(|s|, i requires 0 <= i < |s| => s[i] ^ t[i])
  }

  lemma TopLinear(a: Bit, b: Bit)
    ensures Top(a ^ b) == Xor(Top(a), Top(b))
  {
  }

  lemma FeedBitLinear(c: Word, d: Word, a: Bit, b: Bit)
    ensures FeedBit(Xor(c, d), a ^ b) == Xor(FeedBit(c, a), FeedBit(d, b))
  {
    hide Shift, Xor, Top, FeedBit;
    FeedBitIs(c, a);
    FeedBitIs(d, b);
    FeedBitIs(Xor(c, d), a ^ b);
    TopLinear(a, b);
    XorSwap(c, d, Top(a), Top(b));
    ShiftLinear(Xor(c, Top(a)), Xor(d, Top(b)));
  }

  /** The register only depends linearly on the message: CRCs differ as the difference pattern says. */
  lemma {:induction false} FeedLinear(c: Word, d: Word, s: seq<Bit>, t: seq<Bit>)
    requires |s| == |t|
    ensures FeedBits(Xor(c, d), Difference(s, t)) == Xor(FeedBits(c, s), FeedBits(d, t))
    decreases |s|
  {
    hide FeedBit, Xor;
    if s != [] {
      FeedBitLinear(c, d, s[0], t[0]);
      assert Difference(s, t)[1..] == Difference(s[1..], t[1..]);
      FeedLinear(FeedBit(c, s[0]), FeedBit(d, t[0]), s[1..], t[1..]);
    }
  }

  lemma {:induction false} FeedZeros(c: Word, s: seq<Bit>)
    requires forall i :: 0 <= i < |s| ==> s[i] == 0
    ensures FeedBits(c, s) == Shifts(c, |s|)
    decreases |s|
  {
    hide Shift, FeedBit;
    if s != [] {
      FeedBitIs(c, 0);
      XorTopZero(c);
      FeedZeros(FeedBit(c, 0), s[1..]);
    }
  }

  lemma XorTopZero(c: Word)
    ensures Xor(c, Top(0)) == c
  {
  }

  lemma AlignNonZeroStep(bit: Bit, a: Word)
    requires Shift(Down(a)) == a
    requires bit != 0 || a != 0
    ensures Xor(Top(bit), Down(a)) != 0
  {
  }

  lemma {:induction false} AlignNonZero(s: seq<Bit>, i: nat)
    requires |s| <= 16 && i < |s| && s[i] != 0
    ensures Align(s) != 0
  {
    hide Shift, Xor, Top, Down;
    AlignShift(s[1..]);
    if i > 0 {
      AlignNonZero(s[1..], i - 1);
    }
    AlignNonZeroStep(s[0], Align(s[1..]));
  }

  lemma ShortNonZero(s: seq<Bit>, i: nat)
    requires |s| <= 16 && i < |s| && s[i] != 0
    ensures FeedBits(0, s) != 0
  {
    hide Xor, FeedBits, Align, Shifts;
    FeedAligned(0, s);
    AlignNonZero(s, i);
    XorZero(Align(s));
    ShiftsInjective(Align(s), |s|);
  }

  /** A burst of at most sixteen bits, with any number of zeros around it, leaves a remainder. */
  lemma BurstRemainder(d: seq<Bit>, lo: nat, hi: nat, i: nat)
    requires lo <= i < hi <= |d| && hi <= lo + 16 && d[i] != 0
    requires forall k :: 0 <= k < |d| && !(lo <= k < hi) ==> d[k] == 0
    ensures FeedBits(0, d) != 0
  {
    hide Shift, FeedBit, FeedBits, Shifts;
    var before, burst, after := d[..lo], d[lo..hi], d[hi..];
    FeedParts(d, lo, hi);
    forall k | 0 <= k < |after| ensures after[k] == 0 {
      assert after[k] == d[hi + k];
    }
    FeedZeros(0, before);
    ShiftsInjective(0, lo);
    assert burst[i - lo] == d[i];
    ShortNonZero(burst, i - lo);
    FeedZeros(FeedBits(0, burst), after);
    ShiftsInjective(FeedBits(0, burst), |d| - hi);
  }

  lemma FeedParts(d: seq<Bit>, lo: nat, hi: nat)
    requires lo <= hi <= |d|
    ensures FeedBits(0, d) == FeedBits(FeedBits(FeedBits(0, d[..lo]), d[lo..hi]), d[hi..])
  {
    hide FeedBits;
    assert d[..hi] == d[..lo] + d[lo..hi] && d == d[..hi] + d[hi..];
    FeedConcat(0, d[..hi], d[hi..]);
    FeedConcat(0, d[..lo], d[lo..hi]);
  }

  lemma XorEqual(a: Word, b: Word)
    ensures Xor(a, b) == 0 <==> a == b
  {
    if Xor(a, b) == 0 {
      assert (a ^ b) ^ b == a;
    }
  }

  lemma BitDiffers(a: Bit, b: Bit)
    ensures a ^ b == 0 <==> a == b
  {
  }

  lemma DifferenceZero(s: seq<Bit>, t: seq<Bit>)
    requires |s| == |t|
    ensures forall k :: 0 <= k < |s| ==> (Difference(s, t)[k] == 0 <==> s[k] == t[k])
  {
    forall k | 0 <= k < |s| ensures Difference(s, t)[k] == 0 <==> s[k] == t[k] {
      BitDiffers(s[k], t[k]);
    }
  }

  lemma ByteBitsInjective(a: Byte, b: Byte)
    requires ByteBits(a) == ByteBits(b)
    ensures a == b
  {
    var s, t := ByteBits(a), ByteBits(b);
    assert s[0] == t[0] && s[1] == t[1] && s[2] == t[2] && s[3] == t[3];
    assert s[4] == t[4] && s[5] == t[5] && s[6] == t[6] && s[7] == t[7];
  }

  lemma {:induction false} BitsInjective(a: seq<Byte>, b: seq<Byte>)
    requires |a| == |b| && Bits(a) == Bits(b)
    ensures a == b
  {
    hide ByteBits;
    if a != [] {
      var x, y := Bits(a), Bits(b);
      assert x[..8] == ByteBits(a[0]) && y[..8] == ByteBits(b[0]);
      assert x[8..] == Bits(a[1..]) && y[8..] == Bits(b[1..]);
      ByteBitsInjective(a[0], b[0]);
      BitsInjective(a[1..], b[1..]);
    }
  }

  lemma CrcDifference(a: seq<Byte>, b: seq<Byte>)
    requires |a| == |b|
    ensures Checksum(a) == Checksum(b) <==> FeedBits(0, Difference(Bits(a), Bits(b))) == 0
  {
    hide Xor, FeedBits, Bits, Difference;
    FeedLinear(0, 0, Bits(a), Bits(b));
    XorSelf(0);
    XorEqual(Checksum(a), Checksum(b));
  }

  /**
   Every burst is detected: two different messages of the same length that differ only inside a
   window of at most sixteen consecutive bits have different CRCs.
   */
  lemma BurstDetected(a: seq<Byte>, b: seq<Byte>, lo: nat, hi: nat)
    requires |a| == |b| && a != b && lo <= hi <= lo + 16 && hi <= 8 * |a|
    requires forall k :: 0 <= k < 8 * |a| && !(lo <= k < hi) ==> Bits(a)[k] == Bits(b)[k]
    ensures Checksum(a) != Checksum(b)
  {
    hide FeedBits, Checksum, Bits;
    var s, t := Bits(a), Bits(b);
    var d := Difference(s, t);
    if s == t {
      BitsInjective(a, b);
    }
    var i :| 0 <= i < |s| && s[i] != t[i];
    DifferenceZero(s, t);
    BurstRemainder(d, lo, hi, i);
    CrcDifference(a, b);
  }

  /** Number of one bits modulo 2. */
  function Parity(s: seq<Bit>): Bit {
    if s == [] then 0 else s[0] ^ Parity(s[1..])
  }

  function WordParity(c: Word): Bit {
    ((c ^ (c >> 1) ^ (c >> 2) ^ (c >> 3) ^ (c >> 4) ^ (c >> 5) ^ (c >> 6) ^ (c >> 7) ^
      (c >> 8) ^ (c >> 9) ^ (c >> 10) ^ (c >> 11) ^ (c >> 12) ^ (c >> 13) ^ (c >> 14) ^ (c >> 15)) & 1) as Bit
  }

  lemma StepParity(c: Word)
    ensures WordParity((c << 1) ^ ((c >> 15) * 0x1021)) == WordParity(c)
  {
  }

  lemma ShiftParity(c: Word)
    ensures WordParity(Shift(c)) == WordParity(c)
  {
    hide WordParity;
    StepParity(c);
  }

  lemma FlipTopParity(c: Word)
    ensures WordParity(c ^ 0x8000) == WordParity(c) ^ 1
  {
  }

  lemma TopParity(c: Word, bit: Bit)
    ensures WordParity(Xor(c, Top(bit))) == WordParity(c) ^ bit
  {
    hide WordParity;
    if bit == 0 {
      assert Top(0) == 0;
      XorZero(c);
    } else {
      assert bit == 1;
      assert Top(1) == 0x8000;
      FlipTopParity(c);
    }
  }

  lemma FeedBitParity(c: Word, bit: Bit)
    ensures WordParity(FeedBit(c, bit)) == WordParity(c) ^ bit
  {
    hide WordParity, Shift, Xor, Top, FeedBit;
    FeedBitIs(c, bit);
    TopParity(c, bit);
    ShiftParity(Xor(c, Top(bit)));
  }

  lemma {:induction false} FeedParity(c: Word, s: seq<Bit>)
    ensures WordParity(FeedBits(c, s)) == WordParity(c) ^ Parity(s)
    decreases |s|
  {
    hide FeedBit, WordParity;
    if s != [] {
      FeedBitParity(c, s[0]);
      FeedParity(FeedBit(c, s[0]), s[1..]);
    }
  }

  /** The generator has an even number of terms, so any odd number of wrong bits is detected. */
  lemma OddErrorsDetected(a: seq<Byte>, b: seq<Byte>)
    requires |a| == |b| && Parity(Difference(Bits(a), Bits(b))) == 1
    ensures Checksum(a) != Checksum(b)
  {
    hide FeedBits, Checksum, Bits, Difference;
    FeedParity(0, Difference(Bits(a), Bits(b)));
    CrcDifference(a, b);
  }
}
