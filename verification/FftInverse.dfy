/**
 The two directions of filter_fft undo each other. The transform of a transform is a sum of geometric
 sums of powers of the root, and these vanish unless the exponent does.
 */
module FftInverse {
  import opened Complex
  import opened Dft
  import opened DigitalFilter
  import opened Fft
  import opened Utils

  // ----- geometric sums -----

  ghost function Geo(z: Complex, n: nat): Complex {
    if n == 0 then Zero else Add(Geo(z, n - 1), Pow(z, n - 1))
  }

  function Real(s: real): Complex {
    Complex(s, 0.0)
  }

  lemma GeoStep(z: Complex, g: Complex, p: Complex)
    requires Mul(Sub(z, One), g) == Sub(p, One)
    ensures Mul(Sub(z, One), Add(g, p)) == Sub(Mul(z, p), One)
  {
    MulAdd(Sub(z, One), g, p);
    assert Mul(Sub(z, One), p) == Sub(Mul(z, p), p) by {
      SubOne(z, p);
    }
    hide Mul;
  }

  lemma SubOne(z: Complex, p: Complex)
    ensures Mul(Sub(z, One), p) == Sub(Mul(z, p), p)
  {
  }

  /** (z - 1)(1 + z + ... + z^(n-1)) = z^n - 1. */
  lemma {:induction false} GeoClosed(z: Complex, n: nat)
    ensures Mul(Sub(z, One), Geo(z, n)) == Sub(Pow(z, n), One)
  {
    if n == 0 {
      MulOne(Sub(z, One));
    } else {
      hide Mul, Sub, Add;
      GeoClosed(z, n - 1);
      GeoStep(z, Geo(z, n - 1), Pow(z, n - 1));
    }
  }

  function Square(x: real): real {
    x * x
  }

  function Norm(a: Complex): real {
    Square(a.re) + Square(a.im)
  }

  lemma SquareSign(x: real)
    ensures Square(x) >= 0.0 && (x != 0.0 ==> Square(x) > 0.0)
  {
    if x > 0.0 {
      SquareStrict(0.0, x);
    } else if x < 0.0 {
      SquareStrict(0.0, -x);
      assert (-x) * (-x) == x * x;
    }
  }

  lemma NormPositive(a: Complex)
    requires a != Zero
    ensures Norm(a) > 0.0
  {
    hide Square;
    SquareSign(a.re);
    SquareSign(a.im);
    assert a.re == 0.0 && a.im == 0.0 ==> a == Zero;
  }

  lemma Conjugate(a: Complex, b: Complex)
    ensures Mul(Complex(a.re, -a.im), Mul(a, b)) == Complex(Norm(a) * b.re, Norm(a) * b.im)
    ensures Mul(Complex(a.re, -a.im), Zero) == Zero
  {
    MulAssoc(Complex(a.re, -a.im), a, b);
    assert Mul(Complex(a.re, -a.im), a) == Real(Norm(a));
    hide Norm;
  }

  lemma NoZeroDivisor(a: Complex, b: Complex)
    requires Mul(a, b) == Zero && a != Zero
    ensures b == Zero
  {
    hide Norm, Mul;
    NormPositive(a);
    Conjugate(a, b);
    Factor(Norm(a), b.re);
    Factor(Norm(a), b.im);
  }

  lemma Factor(n: real, x: real)
    requires n > 0.0 && n * x == 0.0
    ensures x == 0.0
  {
  }

  lemma {:induction false} GeoOne(n: nat)
    ensures Geo(One, n) == Real(n as real)
  {
    hide Mul;
    if n > 0 {
      GeoOne(n - 1);
      PowOne(n - 1);
      assert Add(Real((n - 1) as real), One) == Real(n as real);
    }
  }

  /** The powers of a root of unity other than 1 add up to 0. */
  lemma GeoRoot(z: Complex, n: nat)
    requires Pow(z, n) == One && z != One
    ensures Geo(z, n) == Zero
  {
    GeoClosed(z, n);
    assert Sub(One, One) == Zero && Sub(z, One) != Zero;
    NoZeroDivisor(Sub(z, One), Geo(z, n));
  }

  // ----- the order of the root -----

  lemma {:induction false} PowMul(a: Complex, b: Complex, n: nat)
    ensures Pow(Mul(a, b), n) == Mul(Pow(a, n), Pow(b, n))
  {
    hide Mul;
    if n == 0 {
      MulOne(One);
    } else {
      PowMul(a, b, n - 1);
      var p, q := Pow(a, n - 1), Pow(b, n - 1);
      MulAssoc(a, b, Mul(p, q));
      MulAssoc(b, p, q);
      MulComm(b, p);
      MulAssoc(p, b, q);
      MulAssoc(a, p, Mul(b, q));
    }
  }

  /** An odd power of a square root of 1. */
  lemma OddPower(w: Complex, k: nat)
    requires Mul(w, w) == One
    ensures Pow(w, 2 * k + 1) == w
  {
    hide Mul;
    PowSquare(w, k);
    PowOne(k);
    MulOne(w);
    assert Pow(w, 2 * k + 1) == Mul(w, Pow(w, 2 * k));
  }

  lemma NegOneRoot()
    ensures Mul(Neg(One), Neg(One)) == One != Neg(One)
  {
  }

  /** If r^(2^(m-1)) is -1, no smaller power than 2^m is 1. */
  lemma {:induction false} PowNotOne(r: Complex, m: nat, k: nat)
    requires m > 0 && Pow(r, Pow2(m - 1)) == Neg(One) && 0 < k < Pow2(m)
    ensures Pow(r, k) != One
    decreases m
  {
    hide Mul;
    var h := Pow2(m - 1);
    if k % 2 == 1 {
      PowersCommute(r, h, k);
      NegOneRoot();
      OddPower(Neg(One), k / 2);
      PowOne(h);
    } else {
      assert k / 2 > 0 && m > 1;
      PowSquare(r, k / 2);
      PowSquare(r, Pow2(m - 2));
      PowNotOne(Mul(r, r), m - 1, k / 2);
    }
  }

  /** r and s are inverse roots of unity of order n = 2^m. */
  ghost predicate InverseRoots(r: Complex, s: Complex, m: nat) {
    && Mul(r, s) == One && Pow(r, Pow2(m)) == One && Pow(s, Pow2(m)) == One
    && (m > 0 ==> Pow(r, Pow2(m - 1)) == Neg(One) && Pow(s, Pow2(m - 1)) == Neg(One))
  }

  /** r^t * s^u, of which the geometric sum is taken. */
  lemma CrossPower(r: Complex, s: Complex, m: nat, t: nat, u: nat)
    requires InverseRoots(r, s, m) && t < Pow2(m) && u < Pow2(m)
    ensures Geo(Mul(Pow(r, t), Pow(s, u)), Pow2(m)) == if t == u then Real(Pow2(m) as real) else Zero
  {
    hide Mul, Geo;
    var n := Pow2(m);
    MulComm(r, s);
    if t == u {
      PowMul(r, s, t);
      PowOne(t);
      GeoOne(n);
    } else if t > u {
      CrossLarger(r, s, t, u);
      PowNotOne(r, m, t - u);
      PowSwap(r, t - u, n);
      GeoRoot(Pow(r, t - u), n);
    } else {
      CrossLarger(s, r, u, t);
      MulComm(Pow(r, t), Pow(s, u));
      PowNotOne(s, m, u - t);
      PowSwap(s, u - t, n);
      GeoRoot(Pow(s, u - t), n);
    }
  }

  lemma PowSwap(r: Complex, k: nat, n: nat)
    requires Pow(r, n) == One
    ensures Pow(Pow(r, k), n) == One
  {
    hide Mul;
    PowOfPow(r, k, n);
    PowOfPow(r, n, k);
    PowOne(k);
    assert k * n == n * k;
  }

  lemma CrossLarger(r: Complex, s: Complex, t: nat, u: nat)
    requires Mul(r, s) == One && u <= t
    ensures Mul(Pow(r, t), Pow(s, u)) == Pow(r, t - u)
  {
    hide Mul;
    PowAdd(r, t - u, u);
    MulAssoc(Pow(r, t - u), Pow(r, u), Pow(s, u));
    PowMul(r, s, u);
    PowOne(u);
    MulOne(Pow(r, t - u));
  }

  // ----- exchanging the sums -----

  /** The first k terms of every output of the transform with root r. */
  ghost function Partial(x: seq<Complex>, r: Complex, k: nat, n: nat): (y: seq<Complex>)
    requires k <= |x|
    ensures |y| == n && forall q :: 0 <= q < n ==> y[q] == Eval(x, Pow(r, q), k)
  {
    seq(n, q requires 0 <= q < n => Eval(x, Pow(r, q), k))
  }

  lemma EvalLast(y: seq<Complex>, w: Complex, n: nat)
    requires 0 < n <= |y|
    ensures Eval(y, w, n) == Add(Eval(y, w, n - 1), Mul(y[n - 1], Pow(w, n - 1)))
  {
  }

  lemma PowersCommute(r: Complex, a: nat, b: nat)
    ensures Pow(Pow(r, a), b) == Pow(Pow(r, b), a)
  {
    hide Mul;
    PowOfPow(r, a, b);
    PowOfPow(r, b, a);
    assert a * b == b * a;
  }

  /** One more term of every output adds a geometric sum. */
  lemma {:induction false} PartialStep(x: seq<Complex>, r: Complex, w: Complex, k: nat, n: nat, m: nat)
    requires k < |x| && m <= n
    ensures Eval(Partial(x, r, k + 1, n), w, m) ==
            Add(Eval(Partial(x, r, k, n), w, m), Mul(x[k], Geo(Mul(Pow(r, k), w), m)))
    decreases m
  {
    hide Mul, Add, Pow, Partial;
    var z := Mul(Pow(r, k), w);
    if m == 0 {
      MulOne(x[k]);
      AddZero(Zero);
    } else {
      hide Eval;
      PartialStep(x, r, w, k, n, m - 1);
      var q := m - 1;
      var y, c, p := Eval(x, Pow(r, q), k), x[k], Pow(w, q);
      EvalLast(x, Pow(r, q), k + 1);
      EvalLast(Partial(x, r, k, n), w, m);
      EvalLast(Partial(x, r, k + 1, n), w, m);
      PowersCommute(r, q, k);
      PowMul(Pow(r, k), w, q);
      NextTerm(Eval(Partial(x, r, k, n), w, q), y, c, Pow(Pow(r, k), q), p, Geo(z, q));
    }
  }

  lemma AddZero(a: Complex)
    ensures Add(a, Zero) == Add(Zero, a) == a
  {
  }

  lemma NextTerm(e: Complex, y: Complex, c: Complex, a: Complex, p: Complex, g: Complex)
    ensures Add(Add(e, Mul(c, g)), Mul(Add(y, Mul(c, a)), p)) == Add(Add(e, Mul(y, p)), Mul(c, Add(g, Mul(a, p))))
  {
    MulAdd(p, y, Mul(c, a));
    MulAssoc(c, a, p);
    MulAdd(c, g, Mul(a, p));
    hide Mul;
    RegroupSum(e, Mul(c, g), Mul(y, p), Mul(c, Mul(a, p)));
  }

  /** Of the sum over t < k of x[t] times its geometric sum, only the term t = u remains. */
  lemma {:induction false} PartialSum(x: seq<Complex>, r: Complex, s: Complex, m: nat, u: nat, k: nat)
    requires InverseRoots(r, s, m) && |x| == Pow2(m) && u < Pow2(m) && k <= Pow2(m)
    ensures Eval(Partial(x, r, k, Pow2(m)), Pow(s, u), Pow2(m)) ==
            if u < k then Mul(x[u], Real(Pow2(m) as real)) else Zero
  {
    hide Mul, Add, Geo, Pow, Partial, InverseRoots;
    var n := Pow2(m);
    if k == 0 {
      EvalZeros(Partial(x, r, 0, n), Pow(s, u), n);
    } else {
      hide Eval;
      PartialSum(x, r, s, m, u, k - 1);
      PartialStep(x, r, Pow(s, u), k - 1, n, n);
      CrossPower(r, s, m, k - 1, u);
      MulOne(x[k - 1]);
      AddZero(Mul(x[u], Real(n as real)));
      AddZero(Zero);
    }
  }

  lemma {:induction false} EvalZeros(y: seq<Complex>, w: Complex, n: nat)
    requires n <= |y| && forall q :: 0 <= q < n ==> y[q] == Zero
    ensures Eval(y, w, n) == Zero
  {
    hide Mul;
    if n > 0 {
      EvalZeros(y, w, n - 1);
      MulOne(Pow(w, n - 1));
    }
  }

  /** The transform with the inverse root gives every sample back, n times. */
  lemma TransformTwice(x: seq<Complex>, y: seq<Complex>, r: Complex, s: Complex, m: nat, u: nat)
    requires InverseRoots(r, s, m) && |x| == |y| == Pow2(m) && u < Pow2(m)
    requires forall q :: 0 <= q < |y| ==> y[q] == Transform(x, r, q)
    ensures Transform(y, s, u) == Mul(x[u], Real(Pow2(m) as real))
  {
    hide Mul, Add, Pow;
    PartialSum(x, r, s, m, u, |x|);
    assert y == Partial(x, r, |x|, |x|);
  }

  // ----- both directions -----

  /** The roots of the two directions are inverse to each other. */
  lemma {:induction false} TwiddleConjugate(sqrt: real -> real, d: int, e: int, l: nat)
    requires IsSqrt(sqrt) && d != 0 && e == 0
    ensures Twiddle(sqrt, d, l).re == Twiddle(sqrt, e, l).re
    ensures Twiddle(sqrt, d, l).im == -Twiddle(sqrt, e, l).im
  {
    if l > 0 {
      TwiddleConjugate(sqrt, d, e, l - 1);
    }
  }

  lemma UnitInverse(dir: int, c: Complex)
    requires OnHalfCircle(dir, c)
    ensures Mul(c, Complex(c.re, -c.im)) == One
  {
  }

  lemma RootInverse(sqrt: real -> real, d: int, e: int, m: nat)
    requires IsSqrt(sqrt) && d != 0 && e == 0
    ensures Mul(Root(sqrt, d, m), Root(sqrt, e, m)) == One
  {
    hide Mul, Twiddle, IsSqrt, OnHalfCircle;
    if m == 0 {
      MulOne(One);
    } else {
      var c := Twiddle(sqrt, d, m - 1);
      TwiddleSpec(sqrt, d, m - 1);
      TwiddleConjugate(sqrt, d, e, m - 1);
      assert Twiddle(sqrt, e, m - 1) == Complex(c.re, -c.im);
      UnitInverse(d, c);
    }
  }

  lemma RootOrder(sqrt: real -> real, dir: int, m: nat)
    requires IsSqrt(sqrt)
    ensures Pow(Root(sqrt, dir, m), Pow2(m)) == One
    ensures m > 0 ==> Pow(Root(sqrt, dir, m), Pow2(m - 1)) == Neg(One)
  {
    hide Mul, Twiddle;
    if m == 0 {
      PowOne(1);
    } else {
      var r, h := Root(sqrt, dir, m), Pow2(m - 1);
      TwiddleSpec(sqrt, dir, m - 1);
      PowAdd(r, h, h);
      NegOneRoot();
    }
  }

  lemma RootsInverse(sqrt: real -> real, d: int, e: int, m: nat)
    requires IsSqrt(sqrt) && (d == 0) != (e == 0)
    ensures InverseRoots(Root(sqrt, d, m), Root(sqrt, e, m), m)
  {
    hide Mul, Root, Pow;
    RootOrder(sqrt, d, m);
    RootOrder(sqrt, e, m);
    if d != 0 {
      RootInverse(sqrt, d, e, m);
    } else {
      RootInverse(sqrt, e, d, m);
      MulComm(Root(sqrt, d, m), Root(sqrt, e, m));
    }
  }

  /** 1/n for nonzero dir, else 1. */
  ghost function ScaleOf(dir: int, n: nat): Complex
    requires n > 0
  {
    if dir != 0 then Real(1.0 / n as real) else One
  }

  lemma ScaledIsMul(dir: int, n: nat, c: Complex)
    requires n > 0
    ensures Scaled(dir, n, c) == Mul(ScaleOf(dir, n), c)
  {
    MulOne(c);
  }

  lemma {:induction false} EvalScaled(y: seq<Complex>, z: seq<Complex>, f: Complex, w: Complex, n: nat)
    requires n <= |y| == |z| && forall q :: 0 <= q < n ==> z[q] == Mul(f, y[q])
    ensures Eval(z, w, n) == Mul(f, Eval(y, w, n))
  {
    hide Mul, Add;
    if n == 0 {
      MulOne(f);
    } else {
      EvalScaled(y, z, f, w, n - 1);
      MulAssoc(f, y[n - 1], Pow(w, n - 1));
      MulAdd(f, Eval(y, w, n - 1), Mul(y[n - 1], Pow(w, n - 1)));
    }
  }

  lemma ScalesCancel(d: int, e: int, n: nat, c: Complex)
    requires n > 0 && (d == 0) != (e == 0)
    ensures Mul(ScaleOf(e, n), Mul(ScaleOf(d, n), Mul(c, Real(n as real)))) == c
  {
    var s, t := 1.0 / n as real, n as real;
    assert s * t == 1.0;
    assert Mul(c, Real(t)) == Complex(c.re * t, c.im * t);
    assert s * (c.re * t) == c.re * (s * t) && s * (c.im * t) == c.im * (s * t);
    MulOne(Mul(c, Real(t)));
    MulOne(c);
  }

  /** Output u of the second of two scaled transforms with inverse directions is sample u. */
  lemma RoundTripAt(sqrt: real -> real, d: int, e: int, m: nat, x: seq<Complex>, y: seq<Complex>, u: nat)
    requires IsSqrt(sqrt) && (d == 0) != (e == 0) && |x| == |y| == Pow2(m) && u < Pow2(m)
    requires forall q :: 0 <= q < |y| ==> y[q] == Scaled(d, Pow2(m), Transform(x, Root(sqrt, d, m), q))
    ensures Scaled(e, Pow2(m), Transform(y, Root(sqrt, e, m), u)) == x[u]
  {
    hide Mul, Root, Scaled, InverseRoots, ScaleOf, Eval, Pow, IsSqrt;
    var n, r, s := Pow2(m), Root(sqrt, d, m), Root(sqrt, e, m);
    var t := seq(n, q requires 0 <= q < n => Transform(x, r, q));
    RootsInverse(sqrt, d, e, m);
    TransformTwice(x, t, r, s, m, u);
    forall q | 0 <= q < n ensures y[q] == Mul(ScaleOf(d, n), t[q]) {
      ScaledIsMul(d, n, t[q]);
    }
    EvalScaled(t, y, ScaleOf(d, n), Pow(s, u), n);
    ScaledIsMul(e, n, Transform(y, s, u));
    ScalesCancel(d, e, n, x[u]);
  }

  /** The sum filter_dft adds up, as a transform with the root of filter_fft. */
  lemma SumIsTransform(sqrt: real -> real, cos: real -> real, sin: real -> real, pi: real, dir: int, m: nat,
                       x: seq<Complex>, i: nat)
    requires IsSqrt(sqrt) && IsTrig(cos, sin, pi) && |x| == Pow2(m)
    ensures DirectSum(cos, sin, pi, dir, x, i, |x|) == Transform(x, Root(sqrt, dir, m), i)
  {
    hide IsSqrt, IsTrig, Cis, Root, Eval, DirectSum;
    DirectIsEval(cos, sin, pi, dir, x, i, |x|);
    RootAngle(sqrt, cos, sin, pi, dir, m);
  }

  /** filter_fft in one direction and then in the other leaves the arrays as they were. */
  method FftRoundTrip(d: int, e: int, m: nat, re: array<real>, im: array<real>, sqrt: real -> real,
                      ghost cos: real -> real, ghost sin: real -> real, ghost pi: real)
    requires re != im && re.Length == im.Length == Pow2(m) && (d == 0) != (e == 0)
    requires IsSqrt(sqrt) && IsTrig(cos, sin, pi)
    modifies re, im
    ensures re[..] == old(re[..]) && im[..] == old(im[..])
  {
    hide IsSqrt, IsTrig, DirectSum, Transform, Root, Scaled, Pow2;
    ghost var x := Signal(re[..], im[..]);
    FilterFft(d, m, re, im, sqrt, cos, sin, pi);
    ghost var y := Signal(re[..], im[..]);
    forall q | 0 <= q < |y| ensures y[q] == Scaled(d, Pow2(m), Transform(x, Root(sqrt, d, m), q)) {
      SumIsTransform(sqrt, cos, sin, pi, d, m, x, q);
    }
    FilterFft(e, m, re, im, sqrt, cos, sin, pi);
    ghost var z := Signal(re[..], im[..]);
    forall u | 0 <= u < |z| ensures z[u] == x[u] {
      SumIsTransform(sqrt, cos, sin, pi, e, m, y, u);
      RoundTripAt(sqrt, d, e, m, x, y, u);
    }
    forall u | 0 <= u < re.Length ensures re[u] == old(re[u]) && im[u] == old(im[u]) {
      assert z[u] == x[u];
    }
  }
}
