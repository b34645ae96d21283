/** Exact complex arithmetic: the floats of digital_filter.c are modelled as reals. */
module Complex {
  datatype Complex = Complex(re: real, im: real)

  const Zero := Complex(0.0, 0.0)
  const One := Complex(1.0, 0.0)

  function Add(a: Complex, b: Complex): Complex {
    Complex(a.re + b.re, a.im + b.im)
  }

  function Sub(a: Complex, b: Complex): Complex {
    Complex(a.re - b.re, a.im - b.im)
  }

  function Neg(a: Complex): Complex {
    Complex(-a.re, -a.im)
  }

  function Mul(a: Complex, b: Complex): Complex {
    Complex(a.re * b.re - a.im * b.im, a.re * b.im + a.im * b.re)
  }

  function Pow(w: Complex, n: nat): Complex {
    if n == 0 then One else Mul(w, Pow(w, n - 1))
  }

  function Pow2(n: nat): (r: nat)
    ensures r > 0
  {
    if n == 0 then 1 else 2 * Pow2(n - 1)
  }

  lemma TripleProducts(p: real, q: real, r: real, s: real, t: real, u: real)
    ensures (p * q - r * s) * t - (p * s + r * q) * u == p * (q * t - s * u) - r * (q * u + s * t)
  {
  }

  lemma MulAssoc(a: Complex, b: Complex, c: Complex)
    ensures Mul(Mul(a, b), c) == Mul(a, Mul(b, c))
  {
    TripleProducts(a.re, b.re, a.im, b.im, c.re, c.im);
    TripleProducts(a.re, b.im, a.im, -b.re, c.re, c.im);
  }

  lemma MulAdd(a: Complex, b: Complex, c: Complex)
    ensures Mul(a, Add(b, c)) == Add(Mul(a, b), Mul(a, c))
    ensures Mul(Add(b, c), a) == Add(Mul(b, a), Mul(c, a))
  {
  }

  lemma MulComm(a: Complex, b: Complex)
    ensures Mul(a, b) == Mul(b, a)
  {
  }

  lemma MulOne(a: Complex)
    ensures Mul(One, a) == Mul(a, One) == a
    ensures Mul(Zero, a) == Mul(a, Zero) == Zero
    ensures Mul(Neg(One), a) == Neg(a)
  {
  }

  lemma {:induction false} PowAdd(w: Complex, a: nat, b: nat)
    ensures Pow(w, a + b) == Mul(Pow(w, a), Pow(w, b))
  {
    hide Mul;
    if a == 0 {
      MulOne(Pow(w, b));
    } else {
      PowAdd(w, a - 1, b);
      assert Pow(w, a + b) == Mul(w, Pow(w, a + b - 1));
      MulAssoc(w, Pow(w, a - 1), Pow(w, b));
    }
  }

  lemma {:induction false} PowSquare(w: Complex, a: nat)
    ensures Pow(w, 2 * a) == Pow(Mul(w, w), a)
  {
    hide Mul;
    if a > 0 {
      PowSquare(w, a - 1);
      assert Pow(w, 2 * a) == Mul(w, Pow(w, 2 * a - 1)) == Mul(w, Mul(w, Pow(w, 2 * a - 2)));
      MulAssoc(w, w, Pow(w, 2 * (a - 1)));
    }
  }

  lemma ProductStep(a: nat, b: nat)
    ensures b > 0 ==> a * b == a + a * (b - 1)
    ensures b == 0 ==> a * b == 0
  {
  }

  lemma {:induction false} PowOfPow(w: Complex, a: nat, b: nat)
    ensures Pow(w, a * b) == Pow(Pow(w, a), b)
  {
    hide Mul;
    ProductStep(a, b);
    if b > 0 {
      PowOfPow(w, a, b - 1);
      PowAdd(w, a, a * (b - 1));
    }
  }

  lemma {:induction false} PowOne(n: nat)
    ensures Pow(One, n) == One
  {
    MulOne(Pow(One, if n > 0 then n - 1 else 0));
    hide Mul;
    if n > 0 {
      PowOne(n - 1);
    }
  }
}
