/**
 The discrete Fourier transform on exact complex numbers: point q of the transform with root r is
 the polynomial with the samples as coefficients, evaluated at r^q. The even/odd split of that
 polynomial is the identity that the butterflies of filter_fft implement.
 */
module Dft {
  import opened Complex

  /** Sum over t < n of x[t] * z^t. */
  ghost function Eval(x: seq<Complex>, z: Complex, n: nat): Complex
    requires n <= |x|
  {
    if n == 0 then Zero else Add(Eval(x, z, n - 1), Mul(x[n - 1], Pow(z, n - 1)))
  }

  ghost function Transform(x: seq<Complex>, r: Complex, q: nat): Complex {
    Eval(x, Pow(r, q), |x|)
  }

  function Evens<T>(x: seq<T>): (e: seq<T>)
    ensures |e| == |x| / 2
  {
    seq(|x| / 2, i requires 0 <= i < |x| / 2 => x[2 * i])
  }

  function Odds<T>(x: seq<T>): (e: seq<T>)
    ensures |e| == |x| / 2
  {
    seq(|x| / 2, i requires 0 <= i < |x| / 2 => x[2 * i + 1])
  }

  lemma RegroupSum(a: Complex, b: Complex, c: Complex, d: Complex)
    ensures Add(Add(Add(a, b), c), d) == Add(Add(a, c), Add(b, d))
  {
  }

  lemma NegRules(a: Complex, b: Complex, c: Complex)
    ensures Mul(a, Neg(One)) == Neg(a)
    ensures Mul(Neg(a), Neg(a)) == Mul(a, a)
    ensures Add(a, Mul(Neg(b), c)) == Sub(a, Mul(b, c))
    ensures Add(Zero, Zero) == Zero
  {
  }

  /** p(z) = even(z^2) + z * odd(z^2). */
  lemma {:induction false} SplitEval(x: seq<Complex>, z: Complex, n: nat)
    requires 2 * n <= |x|
    ensures Eval(x, z, 2 * n) ==
            Add(Eval(Evens(x), Mul(z, z), n), Mul(z, Eval(Odds(x), Mul(z, z), n)))
  {
    hide Mul, Add;
    if n > 0 {
      var k, s := n - 1, Mul(z, z);
      SplitEval(x, z, k);
      PowSquare(z, k);
      var a, b, y := Eval(Evens(x), s, k), Eval(Odds(x), s, k), Pow(s, k);
      var e, o := x[2 * k], x[2 * k + 1];
      assert Eval(x, z, 2 * n) == Add(Add(Eval(x, z, 2 * k), Mul(e, y)), Mul(o, Mul(z, y)));
      assert Mul(o, Mul(z, y)) == Mul(z, Mul(o, y)) by {
        MulAssoc(o, z, y);
        MulComm(o, z);
        MulAssoc(z, o, y);
      }
      MulAdd(z, b, Mul(o, y));
      RegroupSum(a, Mul(z, b), Mul(e, y), Mul(z, Mul(o, y)));
    } else {
      MulOne(z);
      NegRules(z, z, z);
    }
  }

  /** One butterfly layer: combines the transforms of the even and of the odd samples. */
  ghost function Butterfly(a: seq<Complex>, b: seq<Complex>, r: Complex): (c: seq<Complex>)
    requires |a| == |b|
    ensures |c| == 2 * |a|
  {
    seq(2 * |a|, i requires 0 <= i < 2 * |a| =>
      if i < |a| then Add(a[i], Mul(Pow(r, i), b[i]))
      else Sub(a[i - |a|], Mul(Pow(r, i - |a|), b[i - |a|])))
  }

  /** If r^h is -1, the butterfly of two size-h transforms is the size-2h transform. */
  lemma ButterflyTransforms(x: seq<Complex>, r: Complex, a: seq<Complex>, b: seq<Complex>, h: nat, q: nat)
    requires |x| == 2 * h && |a| == |b| == h && Pow(r, h) == Neg(One) && q < 2 * h
    requires forall p :: 0 <= p < h ==> a[p] == Transform(Evens(x), Mul(r, r), p)
    requires forall p :: 0 <= p < h ==> b[p] == Transform(Odds(x), Mul(r, r), p)
    ensures Butterfly(a, b, r)[q] == Transform(x, r, q)
  {
    hide Mul, Add, Sub, Neg, Pow;
    var p := if q < h then q else q - h;
    var z, w := Pow(r, q), Pow(r, p);
    PowSquare(r, p);
    PowAdd(r, p, p);
    SplitEval(x, z, h);
    if q >= h {
      PowAdd(r, p, h);
      NegRules(w, One, One);
      NegRules(a[p], w, b[p]);
    }
    assert Mul(z, z) == Pow(Mul(r, r), p);
    assert a[p] == Eval(Evens(x), Mul(z, z), h) && b[p] == Eval(Odds(x), Mul(z, z), h);
  }
}
