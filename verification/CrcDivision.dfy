/** The CRC of crc.c is the remainder of long division of polynomials over the two-element field. */
module CrcDivision {
  import opened Bytes
  import opened Crc

  /** x^16 + x^12 + x^5 + 1, highest power first. */
  const DIVISOR: seq<Bit> := [1, 0, 0, 0, 1, 0, 0, 0, 0, 0, 0, 1, 0, 0, 0, 0, 1]

  /** Adds u to the leading coefficients of t. */
  function AddFront(t: seq<Bit>, u: seq<Bit>): (r: seq<Bit>)
    requires |u| <= |t|
    ensures |r| == |t|
    ensures forall i :: 0 <= i < |t| ==> r[i] == if i < |u| then t[i] ^ u[i] else t[i]
  {
    seq(|t|, i requires 0 <= i < |t| => if i < |u| then t[i] ^ u[i] else t[i])
  }

  /** Schoolbook long division: what is left of t after dividing by DIVISOR. */
  function Remainder(t: seq<Bit>): (r: seq<Bit>)
    requires |t| >= 16
    ensures |r| == 16
    decreases |t|
  {
    if |t| == 16 then t
    else if t[0] == 1 then Remainder(AddFront(t, DIVISOR)[1..])
    else Remainder(t[1..])
  }

  /** Sixteen coefficients read as a binary number. */
  function ToWord(t: seq<Bit>): Word {
    if t == [] then 0 else Double(ToWord(t[..|t| - 1]), t[|t| - 1])
  }

  function Double(c: Word, bit: Bit): Word {
    (c << 1) ^ (bit as Word)
  }

  function Zeros(n: nat): (s: seq<Bit>)
    ensures |s| == n
    ensures forall i :: 0 <= i < n ==> s[i] == 0
  {
    seq(n, i => 0)
  }

  // ----- a register that reads one coefficient at a time at its low end -----

  function Low(bit: Bit): Word {
    bit as Word
  }

  /** The value of t modulo the divisor. */
  function Modulo(t: seq<Bit>): Word {
    if t == [] then 0 else Xor(Shift(Modulo(t[..|t| - 1])), Low(t[|t| - 1]))
  }

  lemma ModuloLast(t: seq<Bit>, bit: Bit)
    ensures Modulo(t + [bit]) == Xor(Shift(Modulo(t)), Low(bit))
  {
    hide Xor, Shift, Low;
    assert (t + [bit])[..|t|] == t;
  }

  lemma LowLinear(a: Bit, b: Bit)
    ensures Low(a ^ b) == Xor(Low(a), Low(b))
    ensures Low(0) == 0
  {
  }

  lemma {:induction false} ModuloLinear(s: seq<Bit>, t: seq<Bit>)
    requires |s| == |t|
    ensures Modulo(Difference(s, t)) == Xor(Modulo(s), Modulo(t))
  {
    hide Xor, Shift, Low, Difference;
    if s == [] {
      XorZero(0);
      assert Difference(s, t) == [];
    } else {
      var n := |s| - 1;
      var d := Difference(s, t);
      assert d[..n] == Difference(s[..n], t[..n]);
      ModuloLinear(s[..n], t[..n]);
      LowLinear(s[n], t[n]);
      ShiftLinear(Modulo(s[..n]), Modulo(t[..n]));
      XorSwap(Shift(Modulo(s[..n])), Shift(Modulo(t[..n])), Low(s[n]), Low(t[n]));
    }
  }

  /** Multiplying by a power of x. */
  lemma {:induction false} ModuloZeros(t: seq<Bit>, n: nat)
    ensures Modulo(t + Zeros(n)) == Shifts(Modulo(t), n)
  {
    hide Xor, Shift, Low;
    if n == 0 {
      assert t + Zeros(0) == t;
    } else {
      assert t + Zeros(n) == t + Zeros(n - 1) + [0];
      ModuloLast(t + Zeros(n - 1), 0);
      ModuloZeros(t, n - 1);
      LowLinear(0, 0);
      XorZero(Shift(Modulo(t + Zeros(n - 1))));
      ShiftsLast(Modulo(t), n - 1);
    }
  }

  lemma {:induction false} ShiftsLast(c: Word, n: nat)
    ensures Shifts(c, n + 1) == Shift(Shifts(c, n))
    decreases n
  {
    hide Shift;
    if n > 0 {
      ShiftsLast(Shift(c), n - 1);
    }
  }

  lemma {:induction false} ModuloLeadingZero(t: seq<Bit>)
    ensures Modulo([0] + t) == Modulo(t)
  {
    hide Xor, Shift, Low;
    if t == [] {
      assert [0] + t == [] + [0];
      ModuloLast([], 0);
      LowLinear(0, 0);
      XorZero(Shift(0));
      ShiftInjective(0);
    } else {
      var n := |t| - 1;
      assert [0] + t == ([0] + t[..n]) + [t[n]];
      ModuloLast([0] + t[..n], t[n]);
      ModuloLeadingZero(t[..n]);
    }
  }

  // ----- short sequences -----

  /** The bits above the n lowest. */
  function HighMask(n: nat): Word {
    if n == 0 then 0xFFFF else HighMask(n - 1) << 1
  }

  lemma AndDouble(a: Word, m: Word)
    ensures (a << 1) & (m << 1) == (a & m) << 1
  {
  }

  lemma AndLowBit(m: Word)
    ensures 1 & (m << 1) == 0 && 0 & (m << 1) == 0
  {
  }

  lemma AndXor(a: Word, b: Word, m: Word)
    ensures (a ^ b) & m == (a & m) ^ (b & m)
  {
  }

  lemma DoubleMask(a: Word, m: Word, bit: Bit)
    requires a & m == 0
    ensures Double(a, bit) & (m << 1) == 0
  {
    AndDouble(a, m);
    AndLowBit(m);
    AndXor(a << 1, bit as Word, m << 1);
    assert bit == 0 || bit == 1;
  }

  lemma {:induction false} ToWordHigh(t: seq<Bit>, n: nat)
    requires |t| <= n
    ensures ToWord(t) & HighMask(n) == 0
  {
    if t == [] {
      ZeroAnd(HighMask(n));
    } else {
      ToWordHigh(t[..|t| - 1], n - 1);
      DoubleMask(ToWord(t[..|t| - 1]), HighMask(n - 1), t[|t| - 1]);
    }
  }

  lemma HighMask15()
    ensures HighMask(15) == 0x8000
  {
    assert HighMask(4) == 0xFFF0 && HighMask(8) == 0xFF00 && HighMask(12) == 0xF000;
  }

  lemma DoubleSmall(c: Word, bit: Bit)
    requires c & 0x8000 == 0
    ensures Double(c, bit) == Xor(Shift(c), Low(bit))
  {
    assert c >> 15 == 0;
  }

  /** Up to sixteen coefficients are their own remainder. */
  lemma {:induction false} ModuloShort(t: seq<Bit>)
    requires |t| <= 16
    ensures Modulo(t) == ToWord(t)
  {
    if t != [] {
      var u := t[..|t| - 1];
      ModuloShort(u);
      ToWordHigh(u, 15);
      HighMask15();
      DoubleSmall(ToWord(u), t[|u|]);
    }
  }

  // ----- long division -----

  lemma DivisorIsZero()
    ensures Modulo(DIVISOR) == 0
  {
    var t1: seq<Bit> := [1];
    var t2 := t1 + Zeros(3);
    var t3 := t2 + [1];
    var t4 := t3 + Zeros(6);
    var t5 := t4 + [1];
    var t6 := t5 + Zeros(4);
    assert DIVISOR == t6 + [1];
    hide Modulo, Zeros;
    ModuloShort(t1);
    assert Modulo(t1) == 1;
    ModuloZeros(t1, 3);
    assert Modulo(t2) == 8;
    ModuloLast(t2, 1);
    assert Modulo(t3) == 0x11;
    ModuloZeros(t3, 6);
    assert Modulo(t4) == 0x440;
    ModuloLast(t4, 1);
    assert Modulo(t5) == 0x881;
    ModuloZeros(t5, 4);
    assert Modulo(t6) == 0x8810;
    ModuloLast(t6, 1);
  }

  /** Subtracting the divisor, aligned with the leading term, does not change the value modulo the divisor. */
  lemma SubtractDivisor(t: seq<Bit>)
    requires |t| > 16
    ensures Modulo(AddFront(t, DIVISOR)) == Modulo(t)
  {
    hide Xor, Shift, Low;
    var k := |t| - 17;
    var d := DIVISOR + Zeros(k);
    DivisorIsZero();
    ModuloZeros(DIVISOR, k);
    ShiftsInjective(0, k);
    assert AddFront(t, DIVISOR) == Difference(t, d);
    ModuloLinear(t, d);
    XorZero(Modulo(t));
  }

  lemma {:induction false} DivisionKeepsModulo(t: seq<Bit>)
    requires |t| >= 16
    ensures ToWord(Remainder(t)) == Modulo(t)
    decreases |t|
  {
    hide AddFront;
    if |t| == 16 {
      ModuloShort(t);
    } else {
      var r := if t[0] == 1 then AddFront(t, DIVISOR) else t;
      SubtractDivisor(t);
      assert r[0] == 0;
      assert r == [0] + r[1..];
      ModuloLeadingZero(r[1..]);
      DivisionKeepsModulo(r[1..]);
    }
  }

  /** Feeding bits at the top end is multiplying by x^16. */
  lemma {:induction false} FeedIsShiftedModulo(s: seq<Bit>)
    ensures FeedBits(0, s) == Shifts(Modulo(s), 16)
  {
    hide Xor, Shift, Low, FeedBit, Top;
    if s == [] {
      ShiftsInjective(0, 16);
    } else {
      var n := |s| - 1;
      var u, b := s[..n], s[n];
      assert s == u + [b];
      FeedConcat(0, u, [b]);
      assert FeedBits(FeedBits(0, u), [b]) == FeedBit(FeedBits(0, u), b);
      FeedIsShiftedModulo(u);
      var m := Modulo(u);
      FeedBitIs(Shifts(m, 16), b);
      ShiftLinear(Shifts(m, 16), Top(b));
      ShiftsLinear(Shift(m), Low(b), 16);
      ShiftsLast(m, 16);
      LowToTop(b);
    }
  }

  lemma {:induction false} ShiftsAdd(c: Word, a: nat, b: nat)
    ensures Shifts(c, a + b) == Shifts(Shifts(c, a), b)
    decreases a
  {
    hide Shift;
    if a > 0 {
      ShiftsAdd(Shift(c), a - 1, b);
    }
  }

  lemma LowToTop(b: Bit)
    ensures Shifts(Low(b), 16) == Shift(Top(b))
  {
    if b == 0 {
      ShiftsInjective(0, 16);
    } else {
      assert b == 1;
      ShiftsAdd(1, 8, 8);
      EightShifts(1);
      EightShifts(0x100);
    }
  }

  /**
   The main result: the table-driven CRC of a message, read as a polynomial, is the remainder of the
   message times x^16 divided by x^16 + x^12 + x^5 + 1.
   */
  lemma CrcIsRemainder(m: seq<Byte>)
    ensures Checksum(m) == ToWord(Remainder(Bits(m) + Zeros(16)))
  {
    hide FeedBits, Bits, Shifts, ToWord, Remainder, Modulo;
    FeedIsShiftedModulo(Bits(m));
    ModuloZeros(Bits(m), 16);
    DivisionKeepsModulo(Bits(m) + Zeros(16));
  }
}
