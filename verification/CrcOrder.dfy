/**
 Which pairs of wrong bits the CRC of crc.c detects: x has order 32767 modulo the generator, so two
 wrong bits go unnoticed exactly when their distance is a multiple of 32767.
 */
module CrcOrder {
  import opened Bytes
  import opened Crc
  import opened CrcDivision

  // ----- powers of x -----

  /** The sum of a * x^k over the n low bits k that are set in c. */
  function Times(c: Word, a: Word, n: nat): Word
    decreases n
  {
    if n == 0 then 0 else Xor(if c & 1 == 1 then a else 0, Times(c >> 1, Shift(a), n - 1))
  }

  /** c has no bits from n on. */
  predicate Small(c: Word, n: nat)
    decreases n
  {
    if n == 0 then c == 0 else Small(c >> 1, n - 1)
  }

  lemma WordIsSmall(c: Word)
    ensures Small(c, 16)
  {
    assert c >> 8 >> 8 == 0;
    assert Small(c >> 1 >> 1 >> 1 >> 1 >> 1 >> 1 >> 1 >> 1, 8);
  }

  lemma SplitLowBit(c: Word)
    ensures c == Xor(c & 1, Shift(c >> 1)) && c & 1 in {0, 1}
  {
  }

  /** Multiplying by the polynomial c is multiplying c by a power of x, if that is what the other factor is. */
  lemma {:induction false} TimesSpec(c: Word, m: nat, n: nat)
    requires Small(c, n)
    ensures Times(c, Shifts(1, m), n) == Shifts(c, m)
    decreases n
  {
    hide Xor, Shift;
    ShiftsInjective(0, m);
    if n > 0 {
      SplitLowBit(c);
      ShiftsLinear(c & 1, Shift(c >> 1), m);
      ShiftsLast(1, m);
      TimesSpec(c >> 1, m + 1, n - 1);
    }
  }

  /** x^(m+n) as a product. */
  lemma Product(m: nat, n: nat)
    ensures Shifts(1, m + n) == Times(Shifts(1, m), Shifts(1, n), 16)
  {
    hide Times, Small, Shifts;
    ShiftsAdd(1, m, n);
    WordIsSmall(Shifts(1, m));
    TimesSpec(Shifts(1, m), n, 16);
  }

  function Pick(c: Word, a: Word): Word {
    if c & 1 == 1 then a else 0
  }

  function Shift4(a: Word): Word {
    Shift(Shift(Shift(Shift(a))))
  }

  function Times4(c: Word, a: Word): Word {
    var b := Shift(Shift(a));
    Xor(Pick(c, a), Xor(Pick(c >> 1, Shift(a)), Xor(Pick(c >> 2, b), Pick(c >> 3, Shift(b)))))
  }

  /** The product of two words, four bits at a time. */
  function TimesWord(c: Word, a: Word): Word {
    Xor(Times4(c, a), Xor(Times4(c >> 4, Shift4(a)),
        Xor(Times4(c >> 8, Shift4(Shift4(a))), Times4(c >> 12, Shift4(Shift4(Shift4(a)))))))
  }

  lemma DownTwice(c: Word)
    ensures c >> 1 >> 1 == c >> 2 && c >> 2 >> 1 == c >> 3 && c >> 3 >> 1 == c >> 4
    ensures c >> 4 >> 4 == c >> 8 && c >> 8 >> 4 == c >> 12 && c >> 12 >> 4 == 0
  {
  }

  lemma Times4Spec(c: Word, a: Word, n: nat)
    ensures Times(c, a, n + 4) == Xor(Times4(c, a), Times(c >> 4, Shift4(a), n))
  {
    hide Xor, Shift;
    DownTwice(c);
    var b := Shift(a);
    var d := Shift(b);
    var e := Shift(d);
    var r := Times(c >> 4, Shift(e), n);
    assert Times(c >> 3, e, n + 1) == Xor(Pick(c >> 3, e), r);
    assert Times(c >> 2, d, n + 2) == Xor(Pick(c >> 2, d), Times(c >> 3, e, n + 1));
    assert Times(c >> 1, b, n + 3) == Xor(Pick(c >> 1, b), Times(c >> 2, d, n + 2));
    assert Times(c, a, n + 4) == Xor(Pick(c, a), Times(c >> 1, b, n + 3));
    XorAssoc(Pick(c >> 2, d), Pick(c >> 3, e), r);
    XorAssoc(Pick(c >> 1, b), Xor(Pick(c >> 2, d), Pick(c >> 3, e)), r);
    XorAssoc(Pick(c, a), Xor(Pick(c >> 1, b), Xor(Pick(c >> 2, d), Pick(c >> 3, e))), r);
  }

  lemma TimesNothing(c: Word, a: Word)
    ensures Times(c, a, 0) == 0
  {
  }

  lemma TimesIsWord(c: Word, a: Word)
    ensures Times(c, a, 16) == TimesWord(c, a)
  {
    hide Xor, Shift, Times4, Shift4, Times;
    DownTwice(c);
    var b := Shift4(a);
    var d := Shift4(b);
    var e := Shift4(d);
    Times4Spec(c, a, 12);
    Times4Spec(c >> 4, b, 8);
    Times4Spec(c >> 8, d, 4);
    Times4Spec(c >> 12, e, 0);
    TimesNothing(0, Shift4(e));
    XorZero(Times4(c >> 12, e));
  }

  lemma LowSquares()
    ensures TimesWord(0x0002, 0x0002) == 0x0004 && TimesWord(0x0004, 0x0004) == 0x0010
    ensures TimesWord(0x0010, 0x0010) == 0x0100 && TimesWord(0x0100, 0x0100) == 0x1021
    ensures TimesWord(0x1021, 0x1021) == 0x3730 && TimesWord(0x3730, 0x3730) == 0xB861
    ensures TimesWord(0xB861, 0xB861) == 0xAEFC && TimesWord(0xAEFC, 0xAEFC) == 0x8E29
  {
  }

  lemma HighSquares()
    ensures TimesWord(0x8E29, 0x8E29) == 0x13FC && TimesWord(0x13FC, 0x13FC) == 0x36C4
    ensures TimesWord(0x36C4, 0x36C4) == 0xFD50 && TimesWord(0xFD50, 0xFD50) == 0xAA9E
    ensures TimesWord(0xAA9E, 0xAA9E) == 0x881C && TimesWord(0x881C, 0x881C) == 0x4458
    ensures TimesWord(0x4458, 0x4458) == 0x0002
  {
  }

  /** x^n modulo the generator. */
  function Power(n: nat): Word {
    Shifts(1, n)
  }

  lemma PowerSum(m: nat, n: nat)
    ensures Power(m + n) == TimesWord(Power(m), Power(n))
  {
    hide Times, TimesWord, Shifts;
    Product(m, n);
    TimesIsWord(Power(m), Power(n));
  }

  lemma PowersTo256()
    ensures Power(1) == 0x0002 && Power(8) == 0x0100 && Power(16) == 0x1021 && Power(32) == 0x3730
    ensures Power(64) == 0xB861 && Power(128) == 0xAEFC && Power(256) == 0x8E29
  {
    hide TimesWord;
    LowSquares();
    assert Power(1) == 2 by {
      assert Shift(1) == 2;
    }
    hide Power;
    PowerSum(1, 1);
    PowerSum(2, 2);
    PowerSum(4, 4);
    PowerSum(8, 8);
    PowerSum(16, 16);
    PowerSum(32, 32);
    PowerSum(64, 64);
    PowerSum(128, 128);
  }

  lemma PowersTo32768()
    ensures Power(512) == 0x13FC && Power(1024) == 0x36C4 && Power(4096) == 0xAA9E && Power(32768) == 0x0002
  {
    hide TimesWord, Power;
    HighSquares();
    PowersTo256();
    PowerSum(256, 256);
    PowerSum(512, 512);
    PowerSum(1024, 1024);
    PowerSum(2048, 2048);
    PowerSum(4096, 4096);
    PowerSum(8192, 8192);
    PowerSum(16384, 16384);
  }

  lemma Products()
    ensures TimesWord(0xAEFC, 0xB861) == 0x650B
    ensures TimesWord(0x650B, 0x1021) == 0x45B4
    ensures TimesWord(0x45B4, 0x0100) == 0xAC61
    ensures TimesWord(0xAC61, 0x0002) == 0x48E3
    ensures TimesWord(0x36C4, 0x3730) == 0xF147
    ensures TimesWord(0xF147, 0x0002) == 0xF2AF
    ensures TimesWord(0xAA9E, 0x13FC) == 0x54A0
    ensures TimesWord(0x54A0, 0xB861) == 0x0106
    ensures TimesWord(0x0106, 0x0100) == 0x1621
    ensures TimesWord(0x1621, 0x0002) == 0x2C42
  {
  }

  /** The three largest proper divisors of 32767 are not multiples of the order of x. */
  lemma NotOne()
    ensures Power(217) != 1 && Power(1057) != 1 && Power(4681) != 1
  {
    hide TimesWord, Power;
    Products();
    PowersTo256();
    PowersTo32768();
    PowerSum(128, 64);
    PowerSum(192, 16);
    PowerSum(208, 8);
    PowerSum(216, 1);
    PowerSum(1024, 32);
    PowerSum(1056, 1);
    PowerSum(4096, 512);
    PowerSum(4608, 64);
    PowerSum(4672, 8);
    PowerSum(4680, 1);
  }

  // ----- the order of x -----

  lemma PowerShift(m: nat, n: nat)
    ensures Power(m + n) == Shifts(Power(m), n)
  {
    ShiftsAdd(1, m, n);
  }

  /** Shifting is injective. */
  lemma ShiftsEqual(c: Word, d: Word, n: nat)
    ensures Shifts(c, n) == Shifts(d, n) <==> c == d
  {
    hide Xor, Shifts;
    ShiftsLinear(c, d, n);
    ShiftsInjective(Xor(c, d), n);
    XorEqual(c, d);
    XorEqual(Shifts(c, n), Shifts(d, n));
  }

  lemma PowerCancel(m: nat, n: nat)
    requires Power(n) == 1
    ensures Power(m + n) == 1 <==> Power(m) == 1
  {
    hide Shifts;
    PowerShift(m, n);
    assert Power(n) == Shifts(1, n);
    ShiftsEqual(Power(m), 1, n);
  }

  lemma {:induction false} PowerMultiple(n: nat, k: nat)
    requires Power(n) == 1
    ensures Power(n * k) == 1
  {
    hide Power;
    if k == 0 {
      assert Power(0) == 1 by {
        PowerZero();
      }
      assert n * k == 0;
    } else {
      PowerMultiple(n, k - 1);
      assert n * k == n * (k - 1) + n;
      PowerCancel(n * (k - 1), n);
    }
  }

  lemma PowerZero()
    ensures Power(0) == 1
  {
  }

  lemma Distribute(a: nat, b: nat, c: nat)
    ensures a * (b + c) == a * b + a * c
    ensures b >= c ==> a * (b - c) + a * c == a * b
  {
  }

  /** If x^(a*m) and x^(a*n) are 1, so is x^(a*g) for a common divisor g of m and n. */
  lemma {:induction false} PowerGcd(a: nat, m: nat, n: nat) returns (g: nat, p: nat, q: nat)
    requires m > 0 && n > 0 && Power(a * m) == 1 && Power(a * n) == 1
    ensures m == g * p && n == g * q && 0 < g <= m && Power(a * g) == 1
    decreases m + n
  {
    hide Power;
    if m == n {
      g, p, q := m, 1, 1;
    } else if m > n {
      Distribute(a, m, n);
      PowerCancel(a * (m - n), a * n);
      g, p, q := PowerGcd(a, m - n, n);
      Distribute(g, p, q);
      p := p + q;
    } else {
      Distribute(a, n, m);
      PowerCancel(a * (n - m), a * m);
      g, p, q := PowerGcd(a, m, n - m);
      Distribute(g, p, q);
      q := p + q;
    }
  }

  lemma ProductAtLeast(a: nat, b: nat, c: nat, d: nat)
    requires a >= c && b >= d
    ensures a * b >= c * d
  {
    assert (a - c) * b >= 0 && c * (b - d) >= 0;
  }

  /** 7, 31 and 151 are prime. */
  lemma Prime(p: nat, a: nat, b: nat)
    requires p in {7, 31, 151} && a * b == p
    ensures a == 1 || b == 1
  {
    if a > 12 && b > 11 {
      ProductAtLeast(a, b, 13, 12);
    }
    assert a <= 12 || b <= 11;
    if a <= 12 {
      SmallFactor(p, a, b);
    } else {
      SmallFactor(p, b, a);
    }
  }

  lemma SmallFactor(p: nat, a: nat, b: nat)
    requires p in {7, 31, 151} && a * b == p && a <= 12
    ensures a == 1 || b == 1
  {
    assert a in {0, 1, 2, 3, 4, 5, 6, 7, 8, 9, 10, 11, 12};
  }

  /** If x^r is 1, r is a multiple of each prime p of 32767 = c * p. */
  lemma PrimeDivides(r: nat, c: nat, p: nat)
    requires Power(r) == 1 && p in {7, 31, 151} && c * p == 32767 && Power(c) != 1 && Power(32767) == 1
    ensures r % p == 0
  {
    hide Power;
    var i, k := r % p, r / p;
    Division(r, c, p);
    assert Power(c * r) == 1 by {
      PowerMultiple(r, c);
      assert r * c == c * r;
    }
    PowerMultiple(32767, k);
    PowerCancel(c * i, 32767 * k);
    if i > 0 {
      var g, s, t := PowerGcd(c, i, p);
      Prime(p, g, t);
    }
  }

  lemma Division(r: nat, c: nat, p: nat)
    requires p in {7, 31, 151} && c * p == 32767
    ensures c * r == c * (r % p) + 32767 * (r / p)
  {
    var i, k := r % p, r / p;
    assert r == i + p * k;
    assert c * (i + p * k) == c * i + c * (p * k);
    assert c * (p * k) == (c * p) * k;
  }

  lemma MultipleOf(r: int, k: int)
    requires r == 32767 * k
    ensures r % 32767 == 0
  {
  }

  lemma SevenAndThirtyOne(r: int, a: int, b: int)
    requires r == 7 * a == 31 * b
    ensures r == 217 * (9 * b - 2 * a)
  {
  }

  lemma And151(r: int, a: int, b: int)
    requires r == 217 * a == 151 * b
    ensures r == 32767 * (23 * a - 16 * b)
  {
  }

  lemma AllPrimes(r: nat)
    requires r % 7 == 0 && r % 31 == 0 && r % 151 == 0
    ensures r % 32767 == 0
  {
    var a, b, c := r / 7, r / 31, r / 151;
    SevenAndThirtyOne(r, a, b);
    var d := 9 * b - 2 * a;
    And151(r, d, c);
    MultipleOf(r, 23 * d - 16 * c);
  }

  /** x has order 32767 modulo the generator. */
  lemma Order(n: nat)
    ensures Power(n) == 1 <==> n % 32767 == 0
  {
    hide Power;
    LastPower();
    NotOne();
    if Power(n) == 1 {
      PrimeDivides(n, 4681, 7);
      PrimeDivides(n, 1057, 31);
      PrimeDivides(n, 217, 151);
      AllPrimes(n);
    } else if n % 32767 == 0 {
      PowerMultiple(32767, n / 32767);
    }
  }

  lemma LastPower()
    ensures Power(32767) == 1
  {
    hide Shifts;
    PowersTo32768();
    PowersTo256();
    PowerShift(32767, 1);
    PowerShift(0, 1);
    PowerZero();
    ShiftsEqual(Power(32767), 1, 1);
  }

  // ----- two wrong bits -----

  /** What remains of a pattern with exactly the bits i and j. */
  lemma TwoBitRemainder(d: seq<Bit>, i: nat, j: nat)
    requires i < j < |d|
    requires forall k :: 0 <= k < |d| ==> (d[k] == 0 <==> k != i && k != j)
    ensures FeedBits(0, d) == 0 <==> Power(j - i) == 1
  {
    hide Xor, Shift, FeedBits, Power, Shifts, Top;
    var a, b, c := d[..i], d[i + 1..j], d[j + 1..];
    assert d[i] == 1 && d[j] == 1;
    assert d == a + [1] + b + [1] + c;
    FeedConcat(0, a + [1] + b + [1], c);
    FeedConcat(0, a + [1] + b, [1]);
    FeedConcat(0, a + [1], b);
    FeedConcat(0, a, [1]);
    ZeroSlice(d, 0, i);
    ZeroSlice(d, i + 1, j);
    ZeroSlice(d, j + 1, |d|);
    assert d[0..i] == a && d[j + 1..|d|] == c;
    FeedZeros(0, a);
    ShiftsInjective(0, i);
    FeedOne(0);
    XorZero(Top(1));
    var r := Shift(Top(1));
    FeedZeros(r, b);
    FeedOne(Shifts(r, |b|));
    var s := Shift(Xor(Shifts(r, |b|), Top(1)));
    FeedZeros(s, c);
    ShiftsInjective(s, |c|);
    ShiftInjective(Xor(Shifts(r, |b|), Top(1)));
    XorEqual(Shifts(r, |b|), Top(1));
    TopReturns(j - i);
  }

  lemma ZeroSlice(d: seq<Bit>, lo: nat, hi: nat)
    requires lo <= hi <= |d| && forall k :: lo <= k < hi ==> d[k] == 0
    ensures forall k :: 0 <= k < hi - lo ==> d[lo..hi][k] == 0
  {
  }

  lemma FeedOne(c: Word)
    ensures FeedBits(c, [1]) == Shift(Xor(c, Top(1)))
  {
    hide Xor, Shift, Top;
    FeedBitIs(c, 1);
    assert FeedBits(FeedBit(c, 1), []) == FeedBit(c, 1);
  }

  lemma TopReturns(n: nat)
    requires n > 0
    ensures Shifts(Shift(Top(1)), n - 1) == Top(1) <==> Power(n) == 1
  {
    hide Shift;
    assert Top(1) == Power(15) by {
      PowersTo256();
      TopIsPower();
    }
    assert Shifts(Top(1), n) == Shifts(Shift(Top(1)), n - 1);
    PowerShift(15, n);
    PowerShift(n, 15);
    assert Power(15) == Shifts(1, 15);
    ShiftsEqual(Power(n), 1, 15);
  }

  lemma TopIsPower()
    ensures Power(15) == Top(1)
  {
    ShiftsAdd(1, 8, 7);
    EightShifts(1);
    SevenShifts(0x0100);
  }

  lemma SevenShifts(c: Word)
    ensures Shifts(c, 7) == Shift(Shift(Shift(Shift(Shift(Shift(Shift(c)))))))
  {
    hide Shift;
    var d := Shift(Shift(Shift(c)));
    assert Shifts(c, 7) == Shifts(Shift(c), 6) == Shifts(Shift(Shift(c)), 5) == Shifts(d, 4);
    assert Shifts(d, 4) == Shifts(Shift(d), 3) == Shifts(Shift(Shift(d)), 2) == Shifts(Shift(Shift(Shift(d))), 1);
  }

  /**
   Two messages of equal length that differ in exactly two bits have different CRCs, unless the
   distance of the bits is a multiple of 32767; and then they have the same.
   */
  lemma TwoBitErrors(a: seq<Byte>, b: seq<Byte>, i: nat, j: nat)
    requires |a| == |b| && i < j < 8 * |a|
    requires forall k :: 0 <= k < 8 * |a| ==> (Bits(a)[k] == Bits(b)[k] <==> k != i && k != j)
    ensures Checksum(a) == Checksum(b) <==> (j - i) % 32767 == 0
  {
    hide FeedBits, Checksum, Power, Bits, Difference;
    DifferenceZero(Bits(a), Bits(b));
    TwoBitRemainder(Difference(Bits(a), Bits(b)), i, j);
    CrcDifference(a, b);
    Order(j - i);
  }

  /** In particular they differ in every message short enough for the protocols, and in any of up to 4095 bytes. */
  lemma TwoBitsDetected(a: seq<Byte>, b: seq<Byte>, i: nat, j: nat)
    requires |a| == |b| <= 4095 && i < j < 8 * |a|
    requires forall k :: 0 <= k < 8 * |a| ==> (Bits(a)[k] == Bits(b)[k] <==> k != i && k != j)
    ensures Checksum(a) != Checksum(b)
  {
    hide Checksum, Bits;
    TwoBitErrors(a, b, i, j);
  }
}
