/**
 What the sum that filter_dft adds up does to a signal, written out: it adds, it turns one sample into
 a circle, and its output 0 is the sum of the samples. The laws fix every output of filter_fft and
 filter_dft, their sign convention and which direction is scaled.
 */
module DftLaws {
  import opened Complex
  import opened DigitalFilter
  import opened Fft
  import opened Utils

  // ----- on values -----

  /** The signal that is zero but for the sample c at t. */
  ghost predicate IsImpulse(x: seq<Complex>, t: nat, c: Complex) {
    t < |x| && x[t] == c && forall k :: 0 <= k < |x| && k != t ==> x[k] == Complex(0.0, 0.0)
  }

  lemma ZeroTerm(s: Complex, w: Complex)
    ensures Add(s, Mul(Complex(0.0, 0.0), w)) == s
    ensures Add(Complex(0.0, 0.0), w) == w
  {
  }

  lemma {:induction false} ImpulseTerms(cos: real -> real, sin: real -> real, pi: real, dir: int, x: seq<Complex>,
                                        t: nat, c: Complex, i: nat, n: nat)
    requires IsImpulse(x, t, c) && n <= |x|
    ensures DirectSum(cos, sin, pi, dir, x, i, n) ==
            if n <= t then Zero else Mul(c, Cis(cos, sin, Times(t, Arg(pi, dir, |x|, i))))
  {
    hide Mul, Add, Cis, Times, Arg;
    if n > 0 {
      var w := Cis(cos, sin, Times(n - 1, Arg(pi, dir, |x|, i)));
      ImpulseTerms(cos, sin, pi, dir, x, t, c, i, n - 1);
      ZeroTerm(DirectSum(cos, sin, pi, dir, x, i, n - 1), w);
      ZeroTerm(Zero, Mul(c, w));
    }
  }

  /** The angle of sample t in output i: positive for dir 0, negative otherwise. */
  lemma AngleIs(pi: real, dir: int, n: nat, i: nat, t: nat)
    requires n > 0
    ensures dir == 0 ==> Times(t, Arg(pi, dir, n, i)) == t as real * (2.0 * pi * (i as real) / (n as real))
    ensures dir != 0 ==> Times(t, Arg(pi, dir, n, i)) == t as real * (-2.0 * pi * (i as real) / (n as real))
  {
  }

  /** One sample c at t becomes c times the point of the unit circle at t times the angle of the output. */
  lemma ImpulseSum(cos: real -> real, sin: real -> real, pi: real, dir: int, x: seq<Complex>, t: nat, c: Complex,
                   i: nat, a: real)
    requires IsImpulse(x, t, c)
    requires dir == 0 ==> a == t as real * (2.0 * pi * (i as real) / (|x| as real))
    requires dir != 0 ==> a == t as real * (-2.0 * pi * (i as real) / (|x| as real))
    ensures DirectSum(cos, sin, pi, dir, x, i, |x|) == Mul(c, Complex(cos(a), sin(a)))
    ensures DirectSum(cos, sin, pi, dir, x, i, |x|) ==
            Complex(c.re * cos(a) - c.im * sin(a), c.re * sin(a) + c.im * cos(a))
  {
    hide DirectSum, Times, Arg;
    ImpulseTerms(cos, sin, pi, dir, x, t, c, i, |x|);
    AngleIs(pi, dir, |x|, i, t);
    assert Times(t, Arg(pi, dir, |x|, i)) == a;
  }

  lemma DistributeTerm(s: Complex, t: Complex, a: Complex, b: Complex, w: Complex)
    ensures Add(Add(s, t), Mul(Add(a, b), w)) == Add(Add(s, Mul(a, w)), Add(t, Mul(b, w)))
  {
  }

  /** The sum of two signals becomes the sum of what they become. */
  lemma {:induction false} SumAdds(cos: real -> real, sin: real -> real, pi: real, dir: int,
                                   x: seq<Complex>, y: seq<Complex>, z: seq<Complex>, i: nat, n: nat)
    requires |x| == |y| == |z| > 0 && n <= |x|
    requires forall k :: 0 <= k < |x| ==> z[k] == Complex(x[k].re + y[k].re, x[k].im + y[k].im)
    ensures var a, b := DirectSum(cos, sin, pi, dir, x, i, n), DirectSum(cos, sin, pi, dir, y, i, n);
      DirectSum(cos, sin, pi, dir, z, i, n) == Complex(a.re + b.re, a.im + b.im)
  {
    if n > 0 {
      SumAdds(cos, sin, pi, dir, x, y, z, i, n - 1);
      DistributeTerm(DirectSum(cos, sin, pi, dir, x, i, n - 1), DirectSum(cos, sin, pi, dir, y, i, n - 1),
                     x[n - 1], y[n - 1], Cis(cos, sin, Times(n - 1, Arg(pi, dir, |x|, i))));
      hide Mul, Cis, Times, Arg;
    }
  }

  /** The sum of the first n samples. */
  ghost function SumOf(s: seq<real>, n: nat): real
    requires n <= |s|
  {
    if n == 0 then 0.0 else SumOf(s, n - 1) + s[n - 1]
  }

  lemma NoAngle(pi: real, dir: int, n: nat, k: nat)
    requires n > 0
    ensures Times(k, Arg(pi, dir, n, 0)) == 0.0
  {
    assert Arg(pi, dir, n, 0) == 0.0;
    hide Arg;
  }

  /** Output 0 adds up the samples as they are. */
  lemma {:induction false} SumAtZero(cos: real -> real, sin: real -> real, pi: real, dir: int,
                                     re: seq<real>, im: seq<real>, n: nat)
    requires |re| == |im| > 0 && n <= |re| && cos(0.0) == 1.0 && sin(0.0) == 0.0
    ensures DirectSum(cos, sin, pi, dir, Signal(re, im), 0, n) == Complex(SumOf(re, n), SumOf(im, n))
  {
    hide Times, Arg;
    if n > 0 {
      SumAtZero(cos, sin, pi, dir, re, im, n - 1);
      NoAngle(pi, dir, |re|, n - 1);
      MulOne(Complex(re[n - 1], im[n - 1]));
      hide Mul;
    }
  }

  // ----- on the arrays -----

  /** filter_fft on one sample at t: at any output i it is turned by t times the angle of i. */
  method FftImpulse(dir: int, m: nat, re: array<real>, im: array<real>, t: nat, sqrt: real -> real,
                    ghost i: nat, ghost a: real, ghost cos: real -> real, ghost sin: real -> real, ghost pi: real)
    requires re != im && re.Length == im.Length == Pow2(m) && IsSqrt(sqrt) && IsTrig(cos, sin, pi)
    requires t < re.Length && i < re.Length && IsImpulse(Signal(re[..], im[..]), t, Complex(re[t], im[t]))
    requires dir == 0 ==> a == t as real * (2.0 * pi * (i as real) / (re.Length as real))
    requires dir != 0 ==> a == t as real * (-2.0 * pi * (i as real) / (re.Length as real))
    modifies re, im
    ensures dir == 0 ==> Complex(re[i], im[i]) == Mul(old(Complex(re[t], im[t])), Complex(cos(a), sin(a)))
    ensures dir != 0 ==>
      Complex(Times(re.Length, re[i]), Times(im.Length, im[i])) ==
      Mul(old(Complex(re[t], im[t])), Complex(cos(a), sin(a)))
  {
    hide IsSqrt, IsTrig, DirectSum, Scaled, Pow2, IsImpulse, Signal, Times, Mul;
    ImpulseSum(cos, sin, pi, dir, Signal(re[..], im[..]), t, Complex(re[t], im[t]), i, a);
    FilterFft(dir, m, re, im, sqrt, cos, sin, pi);
  }

  /** Output 0 of filter_fft is the sum of the samples for a zero dir and their mean otherwise. */
  method FftAtZero(dir: int, m: nat, re: array<real>, im: array<real>, sqrt: real -> real,
                   ghost cos: real -> real, ghost sin: real -> real, ghost pi: real)
    requires re != im && re.Length == im.Length == Pow2(m) && IsSqrt(sqrt) && IsTrig(cos, sin, pi)
    modifies re, im
    ensures dir == 0 ==> re[0] == SumOf(old(re[..]), re.Length) && im[0] == SumOf(old(im[..]), im.Length)
    ensures dir != 0 ==>
      && Times(re.Length, re[0]) == SumOf(old(re[..]), re.Length)
      && Times(im.Length, im[0]) == SumOf(old(im[..]), im.Length)
  {
    CosZero(cos, sin, pi);
    hide IsSqrt, IsTrig, DirectSum, Scaled, Pow2, Signal, SumOf, Times;
    SumAtZero(cos, sin, pi, dir, re[..], im[..], re.Length);
    FilterFft(dir, m, re, im, sqrt, cos, sin, pi);
  }

  lemma CosZero(cos: real -> real, sin: real -> real, pi: real)
    requires IsTrig(cos, sin, pi)
    ensures cos(0.0) == 1.0 && sin(0.0) == 0.0
  {
  }

  /** The same for filter_dft. */
  method DftAtZero(dir: int, re: array<real>, im: array<real>, cos: real -> real, sin: real -> real, pi: real)
    requires re != im && re.Length == im.Length > 0 && cos(0.0) == 1.0 && sin(0.0) == 0.0
    modifies re, im
    ensures dir == 0 ==> re[0] == SumOf(old(re[..]), re.Length) && im[0] == SumOf(old(im[..]), im.Length)
    ensures dir != 0 ==>
      && Times(re.Length, re[0]) == SumOf(old(re[..]), re.Length)
      && Times(im.Length, im[0]) == SumOf(old(im[..]), im.Length)
  {
    hide DirectSum, Scaled, Signal, SumOf, Times;
    SumAtZero(cos, sin, pi, dir, re[..], im[..], re.Length);
    FilterDft(dir, re, im, cos, sin, pi);
  }
}
