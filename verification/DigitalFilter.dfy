/** digital_filter.c: the in-place FFT, the direct DFT it speeds up, and the ring-buffer FIR filter. */
module DigitalFilter {
  import opened Bits
  import opened Complex
  import opened Dft
  import opened Fft
  import opened Utils

  /** Two real arrays seen as one sequence of complex samples. */
  function Signal(re: seq<real>, im: seq<real>): (x: seq<Complex>)
    requires |re| == |im|
    ensures |x| == |re|
    ensures forall i :: 0 <= i < |x| ==> x[i] == Complex(re[i], im[i])
  {
    seq(|re|, i requires 0 <= i < |re| => Complex(re[i], im[i]))
  }

  /** Scaling for the reverse transform, which is the one with a nonzero dir. */
  function Scaled(dir: int, n: nat, c: Complex): Complex
    requires n > 0
  {
    if dir != 0 then Complex(c.re / n as real, c.im / n as real) else c
  }

  // ----- index arithmetic of one butterfly stage -----

  /** Remainder of t by d, by repeated subtraction. */
  function Rem(t: nat, d: nat): (r: nat)
    requires d > 0
    ensures r < d && r <= t
  {
    if t < d then t else Rem(t - d, d)
  }

  /** Index of the butterfly that entry t takes part in, within its block of 2 * l1 entries. */
  function Offset(t: nat, l1: nat): (q: nat)
    requires l1 > 0
    ensures q < l1
  {
    var r := Rem(t, 2 * l1);
    if r < l1 then r else r - l1
  }

  /** The lower of the two entries of that butterfly; the other is l1 further up. */
  function Base(t: nat, l1: nat): (b: nat)
    requires l1 > 0
    ensures t == b || t == b + l1
  {
    if Rem(t, 2 * l1) < l1 then t else t - l1
  }

  lemma {:induction false} BaseSpec(t: nat, l1: nat, n: nat)
    requires l1 > 0 && t < n && Rem(n, 2 * l1) == 0
    ensures Rem(Base(t, l1), 2 * l1) == Offset(t, l1) && Base(t, l1) + l1 < n
  {
    if t >= 2 * l1 {
      BaseSpec(t - 2 * l1, l1, n - 2 * l1);
    }
  }

  /** Two indices in the same residue class are equal or a whole block apart. */
  lemma {:induction false} RemGap(a: nat, b: nat, d: nat)
    requires d > 0 && Rem(a, d) == Rem(b, d) && a < b
    ensures a + d <= b
  {
    if a >= d {
      RemGap(a - d, b - d, d);
    }
  }

  lemma {:induction false} UpperEntry(i: nat, l1: nat)
    requires l1 > 0 && Rem(i, 2 * l1) < l1
    ensures Rem(i + l1, 2 * l1) == Rem(i, 2 * l1) + l1
  {
    if i >= 2 * l1 {
      UpperEntry(i - 2 * l1, l1);
    }
  }

  lemma {:induction false} AlignedBlock(s: nat, l1: nat, k: nat)
    requires l1 > 0 && Rem(s, 2 * l1) == 0 && k < 2 * l1
    ensures Rem(s + k, 2 * l1) == k
    ensures Rem(s, l1) == 0 && Rem(s + l1, l1) == 0
  {
    if s >= 2 * l1 {
      AlignedBlock(s - 2 * l1, l1, k);
    }
  }

  /** Entry t after a complete stage with half-block l1 and twiddle w has run over the samples a. */
  ghost function AfterStage(a: seq<Complex>, l1: nat, w: Complex, t: nat): Complex
    requires l1 > 0 && t < |a| && Rem(|a|, 2 * l1) == 0
  {
    BaseSpec(t, l1, |a|);
    var b := Base(t, l1);
    var z := Mul(Pow(w, Offset(t, l1)), a[b + l1]);
    if t == b then Add(a[b], z) else Sub(a[b], z)
  }

  /** The aligned block of 2^l entries at s holds its own transform of the input y. */
  ghost predicate BlockDone(sqrt: real -> real, dir: int, l: nat, a: seq<Complex>, y: seq<Complex>, s: nat)
    requires |a| == |y|
  {
    s + Pow2(l) <= |a| && Rem(s, Pow2(l)) == 0 ==>
      a[s..s + Pow2(l)] == Stages(sqrt, dir, l, y[s..s + Pow2(l)])
  }

  ghost predicate BlocksDone(sqrt: real -> real, dir: int, l: nat, a: seq<Complex>, y: seq<Complex>) {
    |a| == |y| && forall s :: 0 <= s <= |a| ==> BlockDone(sqrt, dir, l, a, y, s)
  }

  /** Within one aligned block, the stage is one butterfly layer. */
  lemma StageEntry(l1: nat, w: Complex, a: seq<Complex>, s: nat, k: nat)
    requires l1 > 0 && Rem(|a|, 2 * l1) == 0 && Rem(s, 2 * l1) == 0 && s + 2 * l1 <= |a| && k < 2 * l1
    ensures AfterStage(a, l1, w, s + k) == Butterfly(a[s..s + l1], a[s + l1..s + l1 + l1], w)[k]
  {
    hide Mul, Add, Sub, Pow, Rem;
    AlignedBlock(s, l1, k);
    var c, d := a[s..s + l1], a[s + l1..s + l1 + l1];
    if k < l1 {
      assert c[k] == a[s + k] && d[k] == a[s + k + l1];
    } else {
      assert c[k - l1] == a[s + k - l1] && d[k - l1] == a[s + k];
    }
  }

  lemma StageBlock(l1: nat, w: Complex, a: seq<Complex>, b: seq<Complex>, s: nat)
    requires l1 > 0 && |b| == |a| && Rem(|a|, 2 * l1) == 0
    requires forall t :: 0 <= t < |a| ==> b[t] == AfterStage(a, l1, w, t)
    requires Rem(s, 2 * l1) == 0 && s + 2 * l1 <= |a|
    ensures b[s..s + 2 * l1] == Butterfly(a[s..s + l1], a[s + l1..s + l1 + l1], w)
  {
    hide AfterStage, Butterfly, Rem;
    var z := b[s..s + 2 * l1];
    forall k | 0 <= k < |z| ensures z[k] == Butterfly(a[s..s + l1], a[s + l1..s + l1 + l1], w)[k] {
      StageEntry(l1, w, a, s, k);
      assert z[k] == b[s + k];
    }
  }

  lemma HalfSlices(y: seq<Complex>, s: nat, h: nat)
    requires s + 2 * h <= |y|
    ensures y[s..s + 2 * h][..h] == y[s..s + h] && y[s..s + 2 * h][h..] == y[s + h..s + h + h]
  {
    var z := y[s..s + 2 * h];
    forall k | 0 <= k < h ensures z[..h][k] == y[s + k] && z[h..][k] == y[s + h + k] {
      assert z[k] == y[s + k] && z[h + k] == y[s + h + k];
    }
  }

  /** One more stage: blocks of 2^l become blocks of 2^(l+1). */
  lemma StageSpec(sqrt: real -> real, dir: int, l: nat, a: seq<Complex>, b: seq<Complex>, y: seq<Complex>)
    requires BlocksDone(sqrt, dir, l, a, y) && |b| == |a| && Rem(|a|, Pow2(l + 1)) == 0
    requires forall t :: 0 <= t < |a| ==> b[t] == AfterStage(a, Pow2(l), Twiddle(sqrt, dir, l), t)
    ensures BlocksDone(sqrt, dir, l + 1, b, y)
  {
    hide AfterStage, Butterfly, Twiddle;
    var h, l' := Pow2(l), l + 1;
    forall s | 0 <= s <= |b| ensures BlockDone(sqrt, dir, l', b, y, s) {
      if s + 2 * h <= |b| && Rem(s, 2 * h) == 0 {
        StageBlock(h, Twiddle(sqrt, dir, l), a, b, s);
        AlignedBlock(s, h, 0);
        HalfSlices(y, s, h);
        assert BlockDone(sqrt, dir, l, a, y, s) && BlockDone(sqrt, dir, l, a, y, s + h);
      }
    }
  }

  // ----- filter_fft -----

  /** Where the bit-reversal loop has put entry t's value from, before iteration i. */
  function Source(m: nat, i: nat, t: nat): (r: nat)
    requires t < Pow2(m)
    ensures r < Pow2(m)
  {
    if t < i || Reverse(m, t) < i then Reverse(m, t) else t
  }

  /** The samples x after the swaps of all iterations below i. */
  ghost predicate Moved(m: nat, i: nat, x: seq<Complex>, a: seq<Complex>) {
    |x| == |a| == Pow2(m) && forall t :: 0 <= t < |a| ==> a[t] == x[Source(m, i, t)]
  }

  /** Before the loop nothing has moved; after it everything is in place. */
  lemma MovedEnds(m: nat, x: seq<Complex>, a: seq<Complex>)
    requires |x| == |a| == Pow2(m)
    ensures Moved(m, 0, x, x)
    ensures Moved(m, Pow2(m) - 1, x, a) ==> a == Shuffle(m, x)
  {
    hide Reverse, Shuffle, Pow2;
    forall t | 0 <= t < |x| ensures x[Source(m, Pow2(m) - 1, t)] == Shuffle(m, x)[t] {
      ReverseInvolution(m, t);
      ShuffleIsReverse(m, x, t);
    }
  }

  lemma SwapEntry(m: nat, i: nat, x: seq<Complex>, a: seq<Complex>, b: seq<Complex>, t: nat)
    requires |x| == |a| == |b| == Pow2(m) && i < Pow2(m) && t < Pow2(m)
    requires var j := Reverse(m, i);
      && a[t] == x[Source(m, i, t)] && a[i] == x[Source(m, i, i)] && a[j] == x[Source(m, i, j)]
      && b[t] == if i < j && t == i then a[j] else if i < j && t == j then a[i] else a[t]
    ensures b[t] == x[Source(m, i + 1, t)]
  {
    hide Reverse, Pow2;
    ReverseInvolution(m, i);
    ReverseInvolution(m, t);
  }

  /** One iteration of the swap loop: each pair is swapped exactly when its lower index comes up. */
  lemma SwapSpec(m: nat, i: nat, x: seq<Complex>, a: seq<Complex>, b: seq<Complex>)
    requires Moved(m, i, x, a) && i < Pow2(m)
    requires var j := Reverse(m, i); b == if i < j then a[i := a[j]][j := a[i]] else a
    ensures Moved(m, i + 1, x, b)
  {
    hide Reverse, Pow2, Source;
    forall t | 0 <= t < |b| ensures b[t] == x[Source(m, i + 1, t)] {
      SwapEntry(m, i, x, a, b, t);
    }
  }

  /** The inner loop: from the reversal of i to the reversal of i + 1; k never gets to 0. */
  method NextReversed(i2: nat, j0: nat, ghost m: nat, ghost i: nat) returns (j: nat)
    requires i + 1 < Pow2(m) && i2 == Pow2(m) / 2 && j0 == Reverse(m, i)
    ensures j == Reverse(m, i + 1)
  {
    ReverseIncrementSpec(m, i);
    ReverseNonZero(m, i + 1);
    j := j0;
    var k := i2;
    ghost var p := m;
    while k <= j
      invariant 1 <= p <= m && k == Pow2(p - 1) && 0 <= j < Pow2(p)
      invariant ReverseIncrement(p, j) == Reverse(m, i + 1)
      decreases k
    {
      j := j - k;
      k := k / 2;
      p := p - 1;
    }
    j := j + k;
  }

  /** The body of the first loop, up to the advance of j. */
  method SwapIfBelow(re: array<real>, im: array<real>, i: nat, j: nat, ghost m: nat, ghost x: seq<Complex>)
    requires re != im && re.Length == im.Length == Pow2(m) && i < re.Length && j == Reverse(m, i)
    requires Moved(m, i, x, Signal(re[..], im[..]))
    modifies re, im
    ensures Moved(m, i + 1, x, Signal(re[..], im[..]))
  {
    ghost var a := Signal(re[..], im[..]);
    hide Moved, Reverse;
    if i < j {
      re[i], re[j] := re[j], re[i];
      im[i], im[j] := im[j], im[i];
    }
    SwapSpec(m, i, x, a, Signal(re[..], im[..]));
  }

  /** The first loop of filter_fft: puts the samples in bit-reversed order. */
  method BitReverse(m: nat, re: array<real>, im: array<real>)
    requires re != im && re.Length == im.Length == Pow2(m)
    modifies re, im
    ensures Signal(re[..], im[..]) == Shuffle(m, old(Signal(re[..], im[..])))
  {
    hide Reverse, Shuffle, Pow2, Signal, Moved;
    var n := Pow2(m);
    var i2 := n / 2;
    var j := 0;
    var i := 0;
    ghost var x := Signal(re[..], im[..]);
    ReverseZero(m);
    MovedEnds(m, x, x);
    while i < n - 1
      invariant 0 <= i <= n - 1 && j == Reverse(m, i)
      invariant Moved(m, i, x, Signal(re[..], im[..]))
    {
      SwapIfBelow(re, im, i, j, m, x);
      j := NextReversed(i2, j, m, i);
      i := i + 1;
    }
    MovedEnds(m, x, Signal(re[..], im[..]));
  }

  lemma {:induction false} ReverseZero(m: nat)
    ensures Reverse(m, 0) == 0
  {
    if m > 0 {
      ReverseZero(m - 1);
    }
  }

  lemma ReverseNonZero(m: nat, i: nat)
    requires 0 < i < Pow2(m)
    ensures m > 0 && Reverse(m, i) > 0
  {
    ReverseInvolution(m, i);
    ReverseZero(m);
  }

  /** Entry t while a stage is at butterfly j, having done its blocks below i. */
  ghost function MidStage(a: seq<Complex>, l1: nat, w: Complex, j: nat, i: nat, t: nat): Complex
    requires l1 > 0 && t < |a| && Rem(|a|, 2 * l1) == 0
  {
    if Offset(t, l1) < j || (Offset(t, l1) == j && Base(t, l1) < i) then AfterStage(a, l1, w, t) else a[t]
  }

  /** One butterfly brings exactly its two entries to their final values. */
  lemma ButterflyStep(a: seq<Complex>, b: seq<Complex>, c: seq<Complex>, l1: nat, w: Complex, j: nat, i: nat)
    requires |a| == |b| == |c| && l1 > 0 && Rem(|a|, 2 * l1) == 0 && j < l1
    requires Rem(i, 2 * l1) == j && i < |a|
    requires forall t :: 0 <= t < |a| ==> b[t] == MidStage(a, l1, w, j, i, t)
    requires i + l1 < |a| ==>
      var z := Mul(Pow(w, j), b[i + l1]);
      c == b[i + l1 := Sub(b[i], z)][i := Add(b[i], z)]
    ensures i + l1 < |a|
    ensures forall t :: 0 <= t < |a| ==> c[t] == MidStage(a, l1, w, j, i + 2 * l1, t)
  {
    hide Mul, Add, Sub, Pow, Rem, AfterStage;
    AfterButterfly(a, l1, w, i);
    assert b[i] == a[i] && b[i + l1] == a[i + l1];
    forall t | 0 <= t < |a| ensures c[t] == MidStage(a, l1, w, j, i + 2 * l1, t) {
      if t != i && t != i + l1 {
        BaseSpec(t, l1, |a|);
        if Offset(t, l1) == j && i < Base(t, l1) {
          RemGap(i, Base(t, l1), 2 * l1);
        }
      }
    }
  }

  lemma AfterButterfly(a: seq<Complex>, l1: nat, w: Complex, i: nat)
    requires l1 > 0 && Rem(|a|, 2 * l1) == 0 && Rem(i, 2 * l1) < l1 && i < |a|
    ensures i + l1 < |a| && Offset(i, l1) == Offset(i + l1, l1) == Rem(i, 2 * l1)
    ensures Base(i, l1) == Base(i + l1, l1) == i
    ensures var z := Mul(Pow(w, Rem(i, 2 * l1)), a[i + l1]);
      AfterStage(a, l1, w, i) == Add(a[i], z) && AfterStage(a, l1, w, i + l1) == Sub(a[i], z)
  {
    hide Mul, Add, Sub, Pow, Rem;
    BaseSpec(i, l1, |a|);
    UpperEntry(i, l1);
  }

  /** The body of the innermost loop, on entries i and i1, with twiddle (u1, u2). */
  method ButterflyAt(re: array<real>, im: array<real>, i: nat, i1: nat, u1: real, u2: real)
    requires re != im && re.Length == im.Length && i < i1 < re.Length
    modifies re, im
    ensures Signal(re[..], im[..]) == old(
      var a := Signal(re[..], im[..]);
      var z := Mul(Complex(u1, u2), a[i1]);
      a[i1 := Sub(a[i], z)][i := Add(a[i], z)])
  {
    ghost var a := Signal(re[..], im[..]);
    var t1 := u1 * re[i1] - u2 * im[i1];
    var t2 := u1 * im[i1] + u2 * re[i1];
    ghost var z := Mul(Complex(u1, u2), a[i1]);
    assert z == Complex(t1, t2);
    hide Mul;
    re[i1] := re[i] - t1;
    im[i1] := im[i] - t2;
    re[i] := re[i] + t1;
    im[i] := im[i] + t2;
    ghost var b := a[i1 := Sub(a[i], z)][i := Add(a[i], z)];
    assert forall k :: 0 <= k < |a| ==> Signal(re[..], im[..])[k] == b[k];
  }

  /** The innermost loop: butterfly j of every block. */
  method ButterflyColumn(l1: nat, j: nat, u1: real, u2: real, re: array<real>, im: array<real>,
                         ghost w: Complex, ghost a: seq<Complex>)
    requires re != im && re.Length == im.Length == |a| && j < l1 && Rem(re.Length, 2 * l1) == 0
    requires Complex(u1, u2) == Pow(w, j)
    requires forall t :: 0 <= t < |a| ==> Signal(re[..], im[..])[t] == MidStage(a, l1, w, j, j, t)
    modifies re, im
    ensures forall t :: 0 <= t < |a| ==> Signal(re[..], im[..])[t] == MidStage(a, l1, w, j + 1, j + 1, t)
  {
    hide Signal, Mul, Add, Sub, Pow, Rem, AfterStage;
    var n := re.Length;
    ghost var b := Signal(re[..], im[..]);
    var i := j;
    RemSmall(j, 2 * l1);
    while i < n
      invariant i >= j && Rem(i, 2 * l1) == j
      invariant b == Signal(re[..], im[..])
      invariant forall t :: 0 <= t < n ==> b[t] == MidStage(a, l1, w, j, i, t)
      decreases n - i
    {
      BaseSpec(i, l1, n);
      ButterflyAt(re, im, i, i + l1, u1, u2);
      ButterflyStep(a, b, Signal(re[..], im[..]), l1, w, j, i);
      b := Signal(re[..], im[..]);
      RemPlus(i, 2 * l1);
      i := i + 2 * l1;
    }
    forall t | 0 <= t < n ensures MidStage(a, l1, w, j, i, t) == MidStage(a, l1, w, j + 1, j + 1, t) {
      BaseSpec(t, l1, n);
      BaseBound(t, l1);
    }
  }

  /** The two inner loops of one stage, in place. */
  method ButterflyStage(l1: nat, c1: real, c2: real, re: array<real>, im: array<real>)
    requires re != im && re.Length == im.Length && l1 > 0 && Rem(re.Length, 2 * l1) == 0
    modifies re, im
    ensures forall t :: 0 <= t < re.Length ==>
      Signal(re[..], im[..])[t] == AfterStage(old(Signal(re[..], im[..])), l1, Complex(c1, c2), t)
  {
    hide Signal, Mul, Pow, Rem, AfterStage, Base;
    ghost var w, a := Complex(c1, c2), Signal(re[..], im[..]);
    var u1, u2 := 1.0, 0.0;
    TwiddlePower(w, 0);
    var j := 0;
    while j < l1
      invariant 0 <= j <= l1 && Complex(u1, u2) == Pow(w, j)
      invariant forall t :: 0 <= t < |a| ==> Signal(re[..], im[..])[t] == MidStage(a, l1, w, j, j, t)
    {
      ButterflyColumn(l1, j, u1, u2, re, im, w, a);
      TwiddlePower(w, j);
      var z := u1 * c1 - u2 * c2;
      u2 := u1 * c2 + u2 * c1;
      u1 := z;
      j := j + 1;
    }
  }

  lemma TwiddlePower(w: Complex, j: nat)
    ensures Pow(w, 0) == Complex(1.0, 0.0)
    ensures Pow(w, j + 1) == Mul(Pow(w, j), w)
    ensures var u := Pow(w, j); Mul(u, w) == Complex(u.re * w.re - u.im * w.im, u.re * w.im + u.im * w.re)
  {
    hide Pow;
    MulComm(Pow(w, j), w);
    PowStep(w, j);
  }

  lemma PowStep(w: Complex, j: nat)
    ensures Pow(w, 0) == One && Pow(w, j + 1) == Mul(w, Pow(w, j))
  {
  }

  lemma RemSmall(j: nat, d: nat)
    requires j < d
    ensures Rem(j, d) == j
  {
  }

  lemma RemPlus(i: nat, d: nat)
    requires d > 0
    ensures Rem(i + d, d) == Rem(i, d)
  {
  }

  /** The butterfly at offset q of the first block starts at q. */
  lemma {:induction false} BaseBound(t: nat, l1: nat)
    requires l1 > 0
    ensures Base(t, l1) >= Offset(t, l1)
  {
    if t >= 2 * l1 {
      BaseBound(t - 2 * l1, l1);
    }
  }

  lemma {:induction false} RemDouble(a: nat, d: nat)
    requires d > 0 && Rem(a, d) == 0
    ensures Rem(2 * a, d) == 0
  {
    if a >= d {
      RemDouble(a - d, d);
      RemPlus(2 * a - 2 * d, d);
      RemPlus(2 * a - d, d);
    }
  }

  /** Smaller powers of two divide larger ones. */
  lemma {:induction false} RemPow2(m: nat, l: nat)
    requires l <= m
    ensures Rem(Pow2(m), Pow2(l)) == 0
  {
    if l < m {
      RemPow2(m - 1, l);
      RemDouble(Pow2(m - 1), Pow2(l));
    }
  }

  lemma BlocksStart(sqrt: real -> real, dir: int, y: seq<Complex>)
    ensures BlocksDone(sqrt, dir, 0, y, y)
  {
  }

  lemma BlocksEnd(sqrt: real -> real, dir: int, m: nat, a: seq<Complex>, y: seq<Complex>)
    requires BlocksDone(sqrt, dir, m, a, y) && |y| == Pow2(m)
    ensures a == Stages(sqrt, dir, m, y)
  {
    assert BlockDone(sqrt, dir, m, a, y, 0);
    assert a[0..|a|] == a && y[0..|y|] == y;
  }

  /** The last loop of filter_fft, and of filter_dft. */
  method ScaleAll(dir: int, re: array<real>, im: array<real>)
    requires re != im && re.Length == im.Length
    modifies re, im
    ensures forall i :: 0 <= i < re.Length ==>
      Signal(re[..], im[..])[i] == Scaled(dir, re.Length, old(Signal(re[..], im[..]))[i])
    ensures dir == 0 ==> re[..] == old(re[..]) && im[..] == old(im[..])
    ensures dir != 0 ==> forall i :: 0 <= i < re.Length ==>
      Times(re.Length, re[i]) == old(re[i]) && Times(re.Length, im[i]) == old(im[i])
  {
    if dir != 0 {
      var n := re.Length;
      var i := 0;
      while i < n
        invariant 0 <= i <= n
        invariant forall k :: 0 <= k < n ==> re[k] == if k < i then old(re[k]) / n as real else old(re[k])
        invariant forall k :: 0 <= k < n ==> im[k] == if k < i then old(im[k]) / n as real else old(im[k])
      {
        re[i] := re[i] / n as real;
        im[i] := im[i] / n as real;
        i := i + 1;
      }
    }
  }

  /** filter_fft up to its last loop: the bit-reversed order and all butterfly stages. */
  method FftStages(dir: int, m: nat, re: array<real>, im: array<real>, sqrt: real -> real,
                   ghost cos: real -> real, ghost sin: real -> real, ghost pi: real)
    requires re != im && re.Length == im.Length == Pow2(m)
    requires IsSqrt(sqrt) && IsTrig(cos, sin, pi)
    modifies re, im
    ensures forall i :: 0 <= i < re.Length ==>
      Signal(re[..], im[..])[i] == DirectSum(cos, sin, pi, dir, old(Signal(re[..], im[..])), i, re.Length)
  {
    hide Signal, IsSqrt, IsTrig, AfterStage, BlocksDone, DirectSum, Stages, Shuffle, Rem;
    ghost var x := Signal(re[..], im[..]);
    BitReverse(m, re, im);
    ghost var y := Signal(re[..], im[..]);
    ghost var a := y;
    var c1, c2 := -1.0, 0.0;
    var l1 := 1;
    var l := 0;
    BlocksStart(sqrt, dir, y);
    while l < m
      invariant 0 <= l <= m && l1 == Pow2(l)
      invariant Complex(c1, c2) == Twiddle(sqrt, dir, l)
      invariant a == Signal(re[..], im[..]) && BlocksDone(sqrt, dir, l, a, y)
    {
      RemPow2(m, l + 1);
      ButterflyStage(l1, c1, c2, re, im);
      StageSpec(sqrt, dir, l, a, Signal(re[..], im[..]), y);
      a := Signal(re[..], im[..]);
      c2 := sqrt((1.0 - c1) / 2.0);
      if dir != 0 {
        c2 := -c2;
      }
      c1 := sqrt((1.0 + c1) / 2.0);
      l1 := 2 * l1;
      l := l + 1;
    }
    BlocksEnd(sqrt, dir, m, a, y);
    forall i | 0 <= i < Pow2(m) ensures a[i] == DirectSum(cos, sin, pi, dir, x, i, Pow2(m)) {
      FftIsDft(sqrt, cos, sin, pi, dir, m, x, i);
    }
  }

  /**
   filter_fft on 2^m points. Output i is the sum that filter_dft adds up for output i, as it is for a
   zero dir and divided by the number of points otherwise: the ghost parameters are the functions
   that filter_dft would use.
   */
  method FilterFft(dir: int, m: nat, re: array<real>, im: array<real>, sqrt: real -> real,
                   ghost cos: real -> real, ghost sin: real -> real, ghost pi: real)
    requires re != im && re.Length == im.Length == Pow2(m)
    requires IsSqrt(sqrt) && IsTrig(cos, sin, pi)
    modifies re, im
    ensures forall i :: 0 <= i < Pow2(m) ==>
      Signal(re[..], im[..])[i] ==
      Scaled(dir, Pow2(m), DirectSum(cos, sin, pi, dir, old(Signal(re[..], im[..])), i, Pow2(m)))
    ensures dir == 0 ==> forall i :: 0 <= i < re.Length ==>
      Complex(re[i], im[i]) == DirectSum(cos, sin, pi, dir, old(Signal(re[..], im[..])), i, re.Length)
    ensures dir != 0 ==> forall i :: 0 <= i < re.Length ==>
      Complex(Times(re.Length, re[i]), Times(re.Length, im[i])) ==
      DirectSum(cos, sin, pi, dir, old(Signal(re[..], im[..])), i, re.Length)
  {
    hide IsSqrt, IsTrig, DirectSum, Scaled, Pow2, Times;
    FftStages(dir, m, re, im, sqrt, cos, sin, pi);
    ScaleAll(dir, re, im);
  }

  // ----- filter_dft -----

  /** The inner loop of filter_dft: one output point. */
  method DftPoint(dir: int, i: nat, re: array<real>, im: array<real>, cos: real -> real, sin: real -> real, pi: real)
    returns (x2: real, y2: real)
    requires re.Length == im.Length && i < re.Length
    ensures Complex(x2, y2) == DirectSum(cos, sin, pi, dir, Signal(re[..], im[..]), i, re.Length)
  {
    ghost var x := Signal(re[..], im[..]);
    var len := re.Length;
    x2, y2 := 0.0, 0.0;
    hide Arg, Times, Mul;
    var arg := Arg(pi, dir, len, i);
    var k := 0;
    while k < len
      invariant 0 <= k <= len
      invariant Complex(x2, y2) == DirectSum(cos, sin, pi, dir, x, i, k)
    {
      var cosarg, sinarg := cos(Times(k, arg)), sin(Times(k, arg));
      var z := Mul(Complex(re[k], im[k]), Complex(cosarg, sinarg));
      x2 := x2 + z.re;
      y2 := y2 + z.im;
      k := k + 1;
    }
  }

  /** filter_dft on any number of points. */
  method FilterDft(dir: int, re: array<real>, im: array<real>, cos: real -> real, sin: real -> real, pi: real)
    requires re != im && re.Length == im.Length
    modifies re, im
    ensures forall i :: 0 <= i < re.Length ==>
      Signal(re[..], im[..])[i] ==
      Scaled(dir, re.Length, DirectSum(cos, sin, pi, dir, old(Signal(re[..], im[..])), i, re.Length))
    ensures dir == 0 ==> forall i :: 0 <= i < re.Length ==>
      Complex(re[i], im[i]) == DirectSum(cos, sin, pi, dir, old(Signal(re[..], im[..])), i, re.Length)
    ensures dir != 0 ==> forall i :: 0 <= i < re.Length ==>
      Complex(Times(re.Length, re[i]), Times(re.Length, im[i])) ==
      DirectSum(cos, sin, pi, dir, old(Signal(re[..], im[..])), i, re.Length)
  {
    hide DirectSum;
    var len := re.Length;
    var x2, y2 := new real[len], new real[len];
    ghost var x := Signal(re[..], im[..]);
    var i := 0;
    while i < len
      invariant 0 <= i <= len && Signal(re[..], im[..]) == x
      invariant forall q :: 0 <= q < i ==> Complex(x2[q], y2[q]) == DirectSum(cos, sin, pi, dir, x, q, len)
    {
      x2[i], y2[i] := DftPoint(dir, i, re, im, cos, sin, pi);
      i := i + 1;
    }
    i := 0;
    while i < len
      invariant 0 <= i <= len
      invariant forall q :: 0 <= q < len ==> Complex(x2[q], y2[q]) == DirectSum(cos, sin, pi, dir, x, q, len)
      invariant forall q :: 0 <= q < i ==> Complex(re[q], im[q]) == Scaled(dir, len, Complex(x2[q], y2[q]))
    {
      re[i] := if dir != 0 then x2[i] / len as real else x2[i];
      im[i] := if dir != 0 then y2[i] / len as real else y2[i];
      i := i + 1;
    }
  }

  // ----- ring-buffer FIR filter -----

  /** The samples in the ring, oldest first. */
  ghost function Window(buffer: seq<real>, offset: nat): (w: seq<real>)
    requires offset < |buffer|
    ensures |w| == |buffer|
  {
    buffer[offset..] + buffer[..offset]
  }

  lemma WindowAt(buffer: seq<real>, offset: nat, i: nat)
    requires offset < |buffer| && i < |buffer|
    ensures Window(buffer, offset)[i] == buffer[if offset + i < |buffer| then offset + i else offset + i - |buffer|]
  {
  }

  ghost function Dot(a: seq<real>, b: seq<real>, n: nat): real
    requires n <= |a| && n <= |b|
  {
    if n == 0 then 0.0 else Dot(a, b, n - 1) + a[n - 1] * b[n - 1]
  }

  /** A single sample is weighted by the coefficient at its place. */
  lemma {:induction false} DotImpulse(h: seq<real>, w: seq<real>, k: nat, n: nat)
    requires n <= |h| && n <= |w| && k < |h|
    requires forall j :: 0 <= j < |w| && j != k ==> w[j] == 0.0
    ensures Dot(h, w, n) == if k < n then h[k] * w[k] else 0.0
  {
    if n > 0 {
      DotImpulse(h, w, k, n - 1);
    }
  }

  /** Added signals give added outputs. */
  lemma {:induction false} DotAdds(h: seq<real>, v: seq<real>, w: seq<real>, z: seq<real>, n: nat)
    requires n <= |h| && |v| == |w| == |z| >= n && forall j :: 0 <= j < |z| ==> z[j] == v[j] + w[j]
    ensures Dot(h, z, n) == Dot(h, v, n) + Dot(h, w, n)
  {
    if n > 0 {
      DotAdds(h, v, w, z, n - 1);
      assert h[n - 1] * z[n - 1] == h[n - 1] * v[n - 1] + h[n - 1] * w[n - 1];
    }
  }

  method AddSample(buffer: array<real>, sample: real, bits: nat, offset: nat) returns (next: nat)
    requires 0 < bits < 32 && buffer.Length == Ones(bits) + 1 && offset < buffer.Length
    modifies buffer
    ensures next < buffer.Length
    ensures Window(buffer[..], next) == old(Window(buffer[..], offset))[1..] + [sample]
  {
    buffer[offset] := sample;
    AndMask(offset + 1, bits, 32);
    next := AndBits(offset + 1, Ones(bits), 32);
  }

  method RunFirIteration(vector: array<real>, filter: array<real>, bits: nat, offset: nat) returns (result: real)
    requires 0 < bits < 32 && vector.Length == filter.Length == Ones(bits) + 1 && offset < vector.Length
    ensures result == Dot(filter[..], Window(vector[..], offset), filter.Length)
  {
    hide Ones, AndBits, Window;
    result := 0.0;
    var o := offset;
    var i := 0;
    ghost var w := Window(vector[..], offset);
    while i < filter.Length
      invariant 0 <= i <= filter.Length && o < vector.Length
      invariant o == if offset + i < vector.Length then offset + i else offset + i - vector.Length
      invariant result == Dot(filter[..], w, i)
    {
      WindowAt(vector[..], offset, i);
      result := result + filter[i] * vector[o];
      AndMask(o + 1, bits, 32);
      o := AndBits(o + 1, Ones(bits), 32);
      i := i + 1;
    }
  }

  /** After any run of samples the filter sees the last ones, oldest first. */
  method FilterRun(samples: seq<real>, buffer: array<real>, filter: array<real>, bits: nat, offset: nat)
    returns (next: nat, result: real)
    requires 0 < bits < 32 && buffer.Length == filter.Length == Ones(bits) + 1 && offset < buffer.Length
    requires buffer != filter
    modifies buffer
    ensures next < buffer.Length
    ensures var history := old(Window(buffer[..], offset)) + samples;
      result == Dot(filter[..], history[|samples|..], filter.Length)
  {
    next := offset;
    ghost var w := Window(buffer[..], offset);
    var i := 0;
    while i < |samples|
      invariant 0 <= i <= |samples| && next < buffer.Length
      invariant Window(buffer[..], next) == (w + samples[..i])[i..]
    {
      next := AddSample(buffer, samples[i], bits, next);
      assert (w + samples[..i])[i..][1..] + [samples[i]] == (w + samples[..i + 1])[i + 1..];
      i := i + 1;
    }
    assert samples[..|samples|] == samples;
    result := RunFirIteration(buffer, filter, bits, next);
  }

  /**
   The impulse response: with nothing but zeros before and after it, a sample comes out weighted by
   the last coefficient at once, by the one before that after one more sample, and so on.
   */
  method ImpulseResponse(samples: seq<real>, p: nat, buffer: array<real>, filter: array<real>, bits: nat, offset: nat)
    returns (next: nat, result: real)
    requires 0 < bits < 32 && buffer.Length == filter.Length == Ones(bits) + 1 && offset < buffer.Length
    requires buffer != filter && p < |samples|
    requires forall j :: 0 <= j < |samples| && j != p ==> samples[j] == 0.0
    requires forall j :: 0 <= j < buffer.Length ==> buffer[j] == 0.0
    modifies buffer
    ensures var age := |samples| - p;
      result == if age <= filter.Length then filter[filter.Length - age] * samples[p] else 0.0
  {
    hide Ones;
    ghost var w := Window(buffer[..], offset);
    assert forall j :: 0 <= j < |w| ==> w[j] == 0.0;
    hide Window;
    next, result := FilterRun(samples, buffer, filter, bits, offset);
    ghost var h := (w + samples)[|samples|..];
    ghost var k := |w| + p - |samples|;
    assert forall j :: 0 <= j < |h| && j != k ==> h[j] == 0.0;
    if k >= 0 {
      DotImpulse(filter[..], h, k, |h|);
      assert h[k] == samples[p];
    } else {
      assert h[0] == 0.0;
      DotImpulse(filter[..], h, 0, |h|);
    }
  }
}
