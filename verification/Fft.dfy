/**
 filter_fft of digital_filter.c on values: the bit-reversed order, the recursive transform that the
 butterfly stages build up block by block, the half-angle chain of twiddle factors, and the proof
 that all of it together is the discrete Fourier transform.
 */
module Fft {
  import opened Complex
  import opened Dft
  import opened Utils

  // ----- bit reversal -----

  /** i with its m low bits reversed. */
  function Reverse(m: nat, i: nat): (r: nat)
    requires i < Pow2(m)
    ensures r < Pow2(m)
  {
    if m == 0 then 0
    else if i < Pow2(m - 1) then 2 * Reverse(m - 1, i)
    else 2 * Reverse(m - 1, i - Pow2(m - 1)) + 1
  }

  /** The same, peeling off the lowest bit instead of the highest. */
  lemma {:induction false} ReverseLow(m: nat, i: nat)
    requires m > 0 && i < Pow2(m)
    ensures Reverse(m, i) == (if i % 2 == 1 then Pow2(m - 1) else 0) + Reverse(m - 1, i / 2)
  {
    if m > 1 {
      hide Reverse;
      var h := Pow2(m - 2);
      HalfOf(i, h);
      ReverseHigh(m, 2 * h, i);
      ReverseHigh(m - 1, h, i / 2);
      ReverseLow(m - 1, if i < 2 * h then i else i - 2 * h);
    }
  }

  lemma ReverseHigh(m: nat, h: nat, i: nat)
    requires m > 0 && h == Pow2(m - 1) && i < 2 * h
    ensures Reverse(m, i) == if i < h then 2 * Reverse(m - 1, i) else 2 * Reverse(m - 1, i - h) + 1
  {
  }

  lemma HalfOf(i: nat, h: nat)
    ensures i < 2 * h <==> i / 2 < h
    ensures i >= 2 * h ==> i / 2 - h == (i - 2 * h) / 2 && i % 2 == (i - 2 * h) % 2
  {
  }

  lemma {:induction false} ReverseInvolution(m: nat, i: nat)
    requires i < Pow2(m)
    ensures Reverse(m, Reverse(m, i)) == i
  {
    if m > 0 {
      ReverseLow(m, i);
      ReverseInvolution(m - 1, i / 2);
      assert i % 2 == 0 || i % 2 == 1;
    }
  }

  /**
   Counting up by one in reversed order, as the inner while loop does: clear the leading ones of j,
   then set a bit.
   */
  function ReverseIncrement(m: nat, j: nat): nat
    requires j < Pow2(m)
  {
    if m == 0 then 0
    else if j >= Pow2(m - 1) then ReverseIncrement(m - 1, j - Pow2(m - 1))
    else j + Pow2(m - 1)
  }

  lemma {:induction false} ReverseIncrementSpec(m: nat, i: nat)
    requires i + 1 < Pow2(m)
    ensures ReverseIncrement(m, Reverse(m, i)) == Reverse(m, i + 1)
  {
    ReverseLow(m, i);
    ReverseLow(m, i + 1);
    if i % 2 == 1 {
      assert (i + 1) / 2 == i / 2 + 1;
      ReverseIncrementSpec(m - 1, i / 2);
      assert Reverse(m, i) >= Pow2(m - 1);
    } else {
      assert (i + 1) / 2 == i / 2;
      assert Reverse(m, i) < Pow2(m - 1);
    }
  }

  /** All samples in bit-reversed order: the even-indexed ones first, each half again reversed. */
  ghost function Shuffle(m: nat, x: seq<Complex>): (y: seq<Complex>)
    requires |x| == Pow2(m)
    ensures |y| == |x|
  {
    if m == 0 then x else Shuffle(m - 1, Evens(x)) + Shuffle(m - 1, Odds(x))
  }

  lemma {:induction false} ShuffleIsReverse(m: nat, x: seq<Complex>, i: nat)
    requires |x| == Pow2(m) && i < Pow2(m)
    ensures Shuffle(m, x)[i] == x[Reverse(m, i)]
  {
    if m > 0 {
      if i < Pow2(m - 1) {
        ShuffleIsReverse(m - 1, Evens(x), i);
      } else {
        ShuffleIsReverse(m - 1, Odds(x), i - Pow2(m - 1));
      }
    }
  }

  // ----- twiddle factors -----

  /** The half-angle update of (c1, c2). */
  function Half(sqrt: real -> real, dir: int, c: Complex): Complex {
    var s := sqrt((1.0 - c.re) / 2.0);
    Complex(sqrt((1.0 + c.re) / 2.0), if dir != 0 then -s else s)
  }

  /** (c1, c2) at the start of stage l. */
  function Twiddle(sqrt: real -> real, dir: int, l: nat): Complex {
    if l == 0 then Complex(-1.0, 0.0) else Half(sqrt, dir, Twiddle(sqrt, dir, l - 1))
  }

  /** The root of unity of a transform of 2^l points. */
  function Root(sqrt: real -> real, dir: int, l: nat): Complex {
    if l == 0 then One else Twiddle(sqrt, dir, l - 1)
  }

  ghost predicate OnHalfCircle(dir: int, c: Complex) {
    && c.re * c.re + c.im * c.im == 1.0
    && (if dir != 0 then c.im <= 0.0 else c.im >= 0.0)
  }

  lemma MulPositive(a: real, b: real)
    requires a > 0.0 && b > 0.0
    ensures a * b > 0.0
  {
  }

  lemma SquareStrict(p: real, q: real)
    requires 0.0 <= p < q
    ensures p * p < q * q
  {
    var d, e := q - p, q + p;
    MulPositive(d, e);
    assert d * e == q * q - p * p;
  }

  lemma SquareRootUnique(p: real, q: real)
    requires p >= 0.0 && q >= 0.0 && p * p == q * q
    ensures p == q
  {
    if p < q {
      SquareStrict(p, q);
    } else if q < p {
      SquareStrict(q, p);
    }
  }

  lemma UnitBound(a: real, b: real)
    requires a * a + b * b == 1.0
    ensures -1.0 <= a <= 1.0
  {
    assert a > 1.0 ==> a * a > 1.0;
    assert a < -1.0 ==> a * a > 1.0;
    assert b * b >= 0.0;
  }

  /** The sine of the double angle, up to its sign. */
  lemma HalfProduct(p: real, q: real, c: real, t: real)
    requires p >= 0.0 && q >= 0.0 && t >= 0.0 && c * c + t * t == 1.0
    requires p * p == (1.0 + c) / 2.0 && q * q == (1.0 - c) / 2.0
    ensures 2.0 * (p * q) == t
  {
    assert (2.0 * (p * q)) * (2.0 * (p * q)) == 4.0 * ((p * p) * (q * q));
    assert 4.0 * (((1.0 + c) / 2.0) * ((1.0 - c) / 2.0)) == 1.0 - c * c;
    assert p * q >= 0.0;
    SquareRootUnique(2.0 * (p * q), t);
  }

  lemma HalfSpec(sqrt: real -> real, dir: int, c: Complex)
    requires IsSqrt(sqrt) && OnHalfCircle(dir, c)
    ensures OnHalfCircle(dir, Half(sqrt, dir, c)) && Half(sqrt, dir, c).re >= 0.0
    ensures Mul(Half(sqrt, dir, c), Half(sqrt, dir, c)) == c
  {
    var a, b := (1.0 + c.re) / 2.0, (1.0 - c.re) / 2.0;
    var p, q, t := sqrt(a), sqrt(b), Abs(c.im);
    assert p * p == a && q * q == b && p >= 0.0 && q >= 0.0 by {
      UnitBound(c.re, c.im);
    }
    hide IsSqrt;
    assert t * t == c.im * c.im;
    HalfProduct(p, q, c.re, t);
  }

  lemma TwiddleStart(sqrt: real -> real, dir: int)
    ensures OnHalfCircle(dir, Twiddle(sqrt, dir, 0)) && Twiddle(sqrt, dir, 0) == Neg(One)
  {
  }

  lemma {:induction false} TwiddleSpec(sqrt: real -> real, dir: int, l: nat)
    requires IsSqrt(sqrt)
    ensures OnHalfCircle(dir, Twiddle(sqrt, dir, l))
    ensures Mul(Twiddle(sqrt, dir, l + 1), Twiddle(sqrt, dir, l + 1)) == Twiddle(sqrt, dir, l)
    ensures Pow(Twiddle(sqrt, dir, l), Pow2(l)) == Neg(One)
  {
    TwiddleStart(sqrt, dir);
    hide Mul, Half, OnHalfCircle, IsSqrt;
    if l == 0 {
      HalfSpec(sqrt, dir, Twiddle(sqrt, dir, 0));
      MulOne(Twiddle(sqrt, dir, 0));
      assert Pow(Twiddle(sqrt, dir, 0), 1) == Mul(Twiddle(sqrt, dir, 0), One);
    } else {
      TwiddleSpec(sqrt, dir, l - 1);
      HalfSpec(sqrt, dir, Twiddle(sqrt, dir, l - 1));
      HalfSpec(sqrt, dir, Twiddle(sqrt, dir, l));
      PowSquare(Twiddle(sqrt, dir, l), Pow2(l - 1));
    }
  }

  // ----- the transform -----

  /** What the first l butterfly stages make of one aligned block of 2^l entries. */
  ghost function Stages(sqrt: real -> real, dir: int, l: nat, y: seq<Complex>): (z: seq<Complex>)
    requires |y| == Pow2(l)
    ensures |z| == |y|
  {
    if l == 0 then y else
      var h := Pow2(l - 1);
      Butterfly(Stages(sqrt, dir, l - 1, y[..h]), Stages(sqrt, dir, l - 1, y[h..]), Twiddle(sqrt, dir, l - 1))
  }

  /** The stages applied to the samples in bit-reversed order are the transform. */
  lemma {:induction false} StagesTransform(sqrt: real -> real, dir: int, m: nat, x: seq<Complex>, q: nat)
    requires IsSqrt(sqrt) && |x| == Pow2(m) && q < Pow2(m)
    ensures Stages(sqrt, dir, m, Shuffle(m, x))[q] == Transform(x, Root(sqrt, dir, m), q)
  {
    hide Mul, Add, Sub, Pow, Half, Butterfly, Eval;
    if m == 0 {
      SinglePoint(x);
    } else {
      var h, y, r := Pow2(m - 1), Shuffle(m, x), Root(sqrt, dir, m);
      assert y[..h] == Shuffle(m - 1, Evens(x)) && y[h..] == Shuffle(m - 1, Odds(x));
      var a, b := Stages(sqrt, dir, m - 1, y[..h]), Stages(sqrt, dir, m - 1, y[h..]);
      TwiddleSpec(sqrt, dir, m - 1);
      assert Mul(r, r) == Root(sqrt, dir, m - 1) by {
        if m == 1 {
          MulOne(Neg(One));
        } else {
          TwiddleSpec(sqrt, dir, m - 2);
        }
      }
      forall p | 0 <= p < h
        ensures a[p] == Transform(Evens(x), Mul(r, r), p) && b[p] == Transform(Odds(x), Mul(r, r), p)
      {
        StagesTransform(sqrt, dir, m - 1, Evens(x), p);
        StagesTransform(sqrt, dir, m - 1, Odds(x), p);
      }
      ButterflyTransforms(x, r, a, b, h, q);
    }
  }

  lemma SinglePoint(x: seq<Complex>)
    requires |x| == 1
    ensures Transform(x, One, 0) == x[0]
  {
    assert Pow(One, 0) == One;
    assert Eval(x, One, 1) == Add(Eval(x, One, 0), Mul(x[0], One));
  }

  // ----- the same sum, as filter_dft writes it -----

  function Cis(cos: real -> real, sin: real -> real, a: real): Complex {
    Complex(cos(a), sin(a))
  }

  ghost predicate AdditionLaw(cos: real -> real, sin: real -> real, a: real, b: real) {
    Cis(cos, sin, a + b) == Mul(Cis(cos, sin, a), Cis(cos, sin, b))
  }

  ghost predicate CircleLaw(cos: real -> real, sin: real -> real, pi: real, a: real) {
    && cos(a) * cos(a) + sin(a) * sin(a) == 1.0
    && cos(-a) == cos(a) && sin(-a) == -sin(a)
    && (0.0 <= a <= pi / 2.0 ==> cos(a) >= 0.0 && sin(a) >= 0.0)
  }

  /** The C library's cosf and sinf, as far as this code depends on them. */
  ghost predicate IsTrig(cos: real -> real, sin: real -> real, pi: real) {
    && pi > 0.0 && Cis(cos, sin, 0.0) == One && Cis(cos, sin, pi) == Neg(One)
    && (forall a, b :: AdditionLaw(cos, sin, a, b))
    && (forall a :: CircleLaw(cos, sin, pi, a))
  }

  function Sign(dir: int): real {
    if dir != 0 then -1.0 else 1.0
  }

  /** arg of filter_dft for output i; Sign(dir) is minus the local dir, which is 1 for nonzero dir, else -1. */
  function Arg(pi: real, dir: int, len: nat, i: nat): real
    requires len > 0
  {
    Sign(dir) * 2.0 * pi * (i as real) / (len as real)
  }

  /** k * arg. */
  function Times(k: nat, a: real): real {
    k as real * a
  }

  lemma TimesStep(k: nat, a: real)
    ensures Times(0, a) == 0.0
    ensures Times(k + 1, a) == a + Times(k, a)
  {
  }

  /** The first n terms of the sum that filter_dft accumulates for output i. */
  ghost function DirectSum(cos: real -> real, sin: real -> real, pi: real, dir: int, x: seq<Complex>,
                           i: nat, n: nat): Complex
    requires n <= |x| && 0 < |x|
  {
    if n == 0 then Zero
    else Add(DirectSum(cos, sin, pi, dir, x, i, n - 1),
             Mul(x[n - 1], Cis(cos, sin, Times(n - 1, Arg(pi, dir, |x|, i)))))
  }

  lemma {:induction false} CisPow(cos: real -> real, sin: real -> real, pi: real, a: real, n: nat)
    requires IsTrig(cos, sin, pi)
    ensures Cis(cos, sin, Times(n, a)) == Pow(Cis(cos, sin, a), n)
  {
    hide Mul, Cis, Times;
    if n > 0 {
      CisPow(cos, sin, pi, a, n - 1);
      TimesStep(n - 1, a);
      assert AdditionLaw(cos, sin, a, Times(n - 1, a));
    } else {
      TimesStep(0, a);
    }
  }

  /** pi halved l times. */
  ghost function HalfTurn(pi: real, l: nat): real {
    if l == 0 then pi else HalfTurn(pi, l - 1) / 2.0
  }

  lemma Cancel(x: real, y: real, n: real)
    requires n > 0.0 && x * n == y * n
    ensures x == y
  {
  }

  lemma HalfQuotient(x: real, p: real)
    requires p > 0.0
    ensures x / p / 2.0 == x / (2.0 * p)
  {
    var q, r := x / p, x / (2.0 * p);
    assert r * (2.0 * p) == x == q * p;
    assert r * (2.0 * p) == (r * 2.0) * p;
    Cancel(r * 2.0, q, p);
  }

  lemma {:induction false} HalfTurnSpec(pi: real, l: nat)
    requires pi > 0.0
    ensures 0.0 < HalfTurn(pi, l) <= pi
    ensures HalfTurn(pi, l) == pi / Pow2(l) as real
  {
    if l > 0 {
      HalfTurnSpec(pi, l - 1);
      HalfQuotient(pi, Pow2(l - 1) as real);
    }
  }

  /** For a in the first quadrant, the half-angle formulas take Cis(2a) to Cis(a), signs included. */
  lemma HalfAngle(sqrt: real -> real, cos: real -> real, sin: real -> real, pi: real, dir: int, a: real)
    requires IsSqrt(sqrt) && IsTrig(cos, sin, pi) && 0.0 <= a <= pi / 2.0
    ensures Half(sqrt, dir, Cis(cos, sin, Sign(dir) * (2.0 * a))) == Cis(cos, sin, Sign(dir) * a)
  {
    assert AdditionLaw(cos, sin, a, a) && CircleLaw(cos, sin, pi, a) && CircleLaw(cos, sin, pi, 2.0 * a);
    var c, s, c2 := cos(a), sin(a), cos(2.0 * a);
    assert a + a == 2.0 * a;
    assert c2 == c * c - s * s;
    assert c * c + s * s == 1.0;
    assert cos(Sign(dir) * (2.0 * a)) == c2;
    SquareRootUnique(sqrt((1.0 + c2) / 2.0), c);
    SquareRootUnique(sqrt((1.0 - c2) / 2.0), s);
  }

  /** The half-angle chain of filter_fft walks down the angles pi / 2^l, with the sign given by dir. */
  lemma {:induction false} TwiddleAngle(sqrt: real -> real, cos: real -> real, sin: real -> real, pi: real, dir: int,
                                        l: nat)
    requires IsSqrt(sqrt) && IsTrig(cos, sin, pi)
    ensures Twiddle(sqrt, dir, l) == Cis(cos, sin, Sign(dir) * HalfTurn(pi, l))
  {
    hide Mul, Half;
    if l == 0 {
      assert CircleLaw(cos, sin, pi, pi);
    } else {
      TwiddleAngle(sqrt, cos, sin, pi, dir, l - 1);
      HalfTurnSpec(pi, l - 1);
      HalfAngle(sqrt, cos, sin, pi, dir, HalfTurn(pi, l));
    }
  }

  /** The root of filter_fft is the first twiddle of filter_dft. */
  lemma RootAngle(sqrt: real -> real, cos: real -> real, sin: real -> real, pi: real, dir: int, m: nat)
    requires IsSqrt(sqrt) && IsTrig(cos, sin, pi)
    ensures Root(sqrt, dir, m) == Cis(cos, sin, Arg(pi, dir, Pow2(m), 1))
  {
    hide Half;
    if m == 0 {
      FullTurn(cos, sin, pi, dir);
    } else {
      hide IsTrig, IsSqrt, Cis, Mul;
      TwiddleAngle(sqrt, cos, sin, pi, dir, m - 1);
      HalfTurnArg(pi, dir, m);
    }
  }

  lemma TwoHalfTurns(cos: real -> real, sin: real -> real, pi: real)
    requires IsTrig(cos, sin, pi)
    ensures Cis(cos, sin, pi + pi) == One
  {
    assert Cis(cos, sin, pi + pi) == Mul(Neg(One), Neg(One)) by {
      hide Mul, Cis;
      assert AdditionLaw(cos, sin, pi, pi);
    }
    hide IsTrig, Cis;
  }

  lemma BackTurn(cos: real -> real, sin: real -> real, pi: real, a: real)
    requires IsTrig(cos, sin, pi) && Cis(cos, sin, a) == One
    ensures Cis(cos, sin, -a) == One
  {
    hide Mul;
    assert CircleLaw(cos, sin, pi, a);
    hide IsTrig;
  }

  lemma FullTurn(cos: real -> real, sin: real -> real, pi: real, dir: int)
    requires IsTrig(cos, sin, pi)
    ensures Cis(cos, sin, Arg(pi, dir, 1, 1)) == One
  {
    hide Cis, IsTrig;
    var a := pi + pi;
    TwoHalfTurns(cos, sin, pi);
    BackTurn(cos, sin, pi, a);
    assert Arg(pi, dir, 1, 1) == if dir != 0 then -a else a;
  }

  lemma DivTimes(x: real, n: real)
    requires n > 0.0
    ensures x / n * n == x
  {
  }

  lemma Reassociate(s: real, h: real, p: real)
    ensures s * h * (2.0 * p) == s * 2.0 * (h * p)
  {
  }

  lemma HalfTurnArg(pi: real, dir: int, m: nat)
    requires pi > 0.0 && m > 0
    ensures Sign(dir) * HalfTurn(pi, m - 1) == Arg(pi, dir, Pow2(m), 1)
  {
    HalfTurnSpec(pi, m - 1);
    var p, h, a := Pow2(m - 1) as real, HalfTurn(pi, m - 1), Arg(pi, dir, Pow2(m), 1);
    DivTimes(pi, p);
    DivTimes(Sign(dir) * 2.0 * pi * 1.0, 2.0 * p);
    assert h * p == pi && a * (2.0 * p) == Sign(dir) * 2.0 * pi;
    Reassociate(Sign(dir), h, p);
    Cancel(Sign(dir) * h, a, 2.0 * p);
  }

  /** Both sums agree: filter_dft adds exactly the terms of the transform with that root. */
  lemma {:induction false} DirectIsEval(cos: real -> real, sin: real -> real, pi: real, dir: int,
                                       x: seq<Complex>, i: nat, n: nat)
    requires IsTrig(cos, sin, pi) && n <= |x| && 0 < |x|
    ensures DirectSum(cos, sin, pi, dir, x, i, n) == Eval(x, Pow(Cis(cos, sin, Arg(pi, dir, |x|, 1)), i), n)
  {
    hide Mul, Add, Cis, IsTrig, Arg, Times;
    if n > 0 {
      DirectIsEval(cos, sin, pi, dir, x, i, n - 1);
      ArgScales(pi, dir, |x|, i);
      CisPow(cos, sin, pi, Arg(pi, dir, |x|, 1), i);
      CisPow(cos, sin, pi, Arg(pi, dir, |x|, i), n - 1);
    }
  }

  lemma ArgScales(pi: real, dir: int, len: nat, i: nat)
    requires len > 0
    ensures Arg(pi, dir, len, i) == Times(i, Arg(pi, dir, len, 1))
  {
    var a, b, n := Sign(dir) * 2.0 * pi, i as real, len as real;
    var x, y := Arg(pi, dir, len, i), Arg(pi, dir, len, 1);
    DivTimes(a * b, n);
    DivTimes(a * 1.0, n);
    assert y * n == a;
    assert b * y * n == b * (y * n);
    Cancel(x, b * y, n);
  }

  /**
   The main result: running the butterfly stages on the bit-reversed samples gives, at every output,
   the sum that filter_dft computes directly, with the same sign convention for `dir`.
   */
  lemma FftIsDft(sqrt: real -> real, cos: real -> real, sin: real -> real, pi: real, dir: int, m: nat,
                 x: seq<Complex>, i: nat)
    requires IsSqrt(sqrt) && IsTrig(cos, sin, pi) && |x| == Pow2(m) && i < Pow2(m)
    ensures Stages(sqrt, dir, m, Shuffle(m, x))[i] == DirectSum(cos, sin, pi, dir, x, i, |x|)
  {
    hide IsSqrt, IsTrig, Cis, Root;
    StagesTransform(sqrt, dir, m, x, i);
    RootAngle(sqrt, cos, sin, pi, dir, m);
    DirectIsEval(cos, sin, pi, dir, x, i, |x|);
  }
}
