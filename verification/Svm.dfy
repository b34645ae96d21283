/**
 Space-vector modulation of mcpwm_foc.c, over exact reals: `k` stands for ONE_BY_SQRT3. Conversions
 to uint32_t truncate, and the unsigned differences are shown not to wrap.
 */
module Svm {
  import Utils

  /** k is one over the square root of three. */
  ghost predicate IsOneBySqrt3(k: real) {
    k > 0.0 && 3.0 * (k * k) == 1.0
  }

  /** The input range of svm: magnitude at most sqrt(3)/2. */
  ghost predicate InRange(alpha: real, beta: real) {
    alpha * alpha + beta * beta <= 0.75
  }

  function Sector(k: real, alpha: real, beta: real): (s: nat)
    ensures 1 <= s <= 6
  {
    if beta >= 0.0 then
      if alpha >= 0.0 then (if k * beta > alpha then 2 else 1)
      else (if -(k * beta) > alpha then 3 else 2)
    else
      if alpha >= 0.0 then (if -(k * beta) > alpha then 5 else 6)
      else (if k * beta > alpha then 4 else 5)
  }

  /** Conversion of a non-negative float to uint32_t. */
  function Truncate(x: real): (t: nat)
    requires x >= 0.0
    ensures t as real <= x < t as real + 1.0
  {
    x.Floor
  }

  datatype Timings = Timings(tA: int, tB: int, tC: int)

  /** On-time of the vector added first in sector s, where g is the scaled beta. */
  function First(s: nat, alpha: real, g: real): real {
    match s
    case 1 => alpha - g
    case 2 => -alpha + g
    case 3 => 2.0 * g
    case 4 => -2.0 * g
    case 5 => -alpha - g
    case _ => alpha + g
  }

  /** On-time of the vector added second. */
  function Second(s: nat, alpha: real, g: real): real {
    match s
    case 1 => 2.0 * g
    case 2 => alpha + g
    case 3 => -alpha - g
    case 4 => -alpha + g
    case 5 => alpha - g
    case _ => -2.0 * g
  }

  /** The switching order of the sector: which phase has the smallest compare value, which the largest. */
  function Place(s: nat, first: nat, second: nat, n: nat): Timings
    requires first + second <= n
  {
    var low := (n - first - second) / 2;
    var mid := low + first;
    var high := mid + second;
    match s
    case 1 => Timings(low, mid, high)
    case 2 => Timings(mid, low, high)
    case 3 => Timings(high, low, mid)
    case 4 => Timings(high, mid, low)
    case 5 => Timings(mid, high, low)
    case _ => Timings(low, high, mid)
  }

  lemma SquareNonNegative(x: real)
    ensures x * x >= 0.0
  {
  }

  lemma SquareBound(x: real)
    requires x * x <= 1.0
    ensures -1.0 <= x <= 1.0
  {
    assert x > 1.0 ==> x * x > 1.0;
    assert x < -1.0 ==> x * x > 1.0;
  }

  /** Cauchy-Schwarz: the active vectors take at most the whole period. */
  lemma ActiveBound(k: real, a: real, b: real)
    requires IsOneBySqrt3(k) && InRange(a, b)
    ensures -1.0 <= a + k * b <= 1.0 && -1.0 <= 2.0 * (k * b) <= 1.0
  {
    var p, d, q := a + k * b, k * a - b, 2.0 * (k * b);
    assert p * p + d * d == (1.0 + k * k) * (a * a + b * b);
    SquareNonNegative(d);
    assert 1.0 + k * k == 4.0 / 3.0;
    SquareBound(p);
    assert q * q == 4.0 * (k * k) * (b * b);
    SquareNonNegative(a);
    SquareBound(q);
  }

  lemma ScaleSign(k: real, b: real)
    requires k > 0.0
    ensures b >= 0.0 ==> k * b >= 0.0
    ensures b < 0.0 ==> k * b < 0.0
  {
  }

  lemma ActiveBoundMirrored(k: real, a: real, b: real)
    requires IsOneBySqrt3(k) && InRange(a, b)
    ensures -1.0 <= a - k * b <= 1.0
  {
    assert (-b) * (-b) == b * b;
    ActiveBound(k, a, -b);
    assert k * -b == -(k * b);
  }

  /** In every sector both on-times are non-negative and together take at most the whole period. */
  lemma OnTimesValid(k: real, alpha: real, beta: real)
    requires IsOneBySqrt3(k) && InRange(alpha, beta)
    ensures var s, g := Sector(k, alpha, beta), k * beta;
      First(s, alpha, g) >= 0.0 && Second(s, alpha, g) >= 0.0 && First(s, alpha, g) + Second(s, alpha, g) <= 1.0
  {
    ScaleSign(k, beta);
    ActiveBound(k, alpha, beta);
    ActiveBoundMirrored(k, alpha, beta);
  }

  lemma ProductNonNegative(a: real, b: real)
    requires a >= 0.0 && b >= 0.0
    ensures a * b >= 0.0
  {
  }

  /** A relative on-time in timer ticks. */
  function Ticks(x: real, n: nat): real {
    x * n as real
  }

  lemma ScaleOnTimes(x: real, y: real, n: nat)
    requires x >= 0.0 && y >= 0.0 && x + y <= 1.0
    ensures Ticks(x, n) >= 0.0 && Ticks(y, n) >= 0.0 && Ticks(x, n) + Ticks(y, n) <= n as real
  {
    var top := n as real;
    assert x * top + y * top == (x + y) * top;
    ProductNonNegative(1.0 - (x + y), top);
    ProductNonNegative(x, top);
    ProductNonNegative(y, top);
  }

  lemma TruncateSum(x: real, y: real, n: nat)
    requires x >= 0.0 && y >= 0.0 && x + y <= n as real
    ensures Truncate(x) + Truncate(y) <= n
  {
  }

  /** svm: the three compare values for a half period of n ticks. */
  function Modulate(k: real, alpha: real, beta: real, n: nat): Timings
    requires IsOneBySqrt3(k) && InRange(alpha, beta)
  {
    hide Ticks, Truncate, First, Second, IsOneBySqrt3, InRange, Sector;
    var s, g := Sector(k, alpha, beta), k * beta;
    var x, y := First(s, alpha, g), Second(s, alpha, g);
    OnTimesValid(k, alpha, beta);
    ScaleOnTimes(x, y, n);
    TruncateSum(Ticks(x, n), Ticks(y, n), n);
    Place(s, Truncate(Ticks(x, n)), Truncate(Ticks(y, n)), n)
  }

  function Min3(a: int, b: int, c: int): int {
    var m := if a <= b then a else b;
    if m <= c then m else c
  }

  function Max3(a: int, b: int, c: int): int {
    var m := if a >= b then a else b;
    if m >= c then m else c
  }

  ghost predicate Near(ticks: int, exact: real) {
    exact - 2.0 < ticks as real < exact + 2.0
  }

  lemma PlaceCentred(s: nat, first: nat, second: nat, n: nat)
    requires first + second <= n
    ensures var t := Place(s, first, second, n);
      var low, high := Min3(t.tA, t.tB, t.tC), Max3(t.tA, t.tB, t.tC);
      0 <= low <= high <= n && low + high in {n, n - 1}
  {
  }

  /** The compare values lie in the period and are centred in it, up to one tick. */
  lemma TimingsCentred(k: real, alpha: real, beta: real, n: nat)
    requires IsOneBySqrt3(k) && InRange(alpha, beta)
    ensures var t := Modulate(k, alpha, beta, n);
      var low, high := Min3(t.tA, t.tB, t.tC), Max3(t.tA, t.tB, t.tC);
      0 <= low <= high <= n && low + high in {n, n - 1}
  {
    hide Place, First, Second, Min3, Max3, Truncate, Ticks, IsOneBySqrt3, InRange, Sector;
    var s, g := Sector(k, alpha, beta), k * beta;
    var x, y := First(s, alpha, g), Second(s, alpha, g);
    OnTimesValid(k, alpha, beta);
    ScaleOnTimes(x, y, n);
    TruncateSum(Ticks(x, n), Ticks(y, n), n);
    PlaceCentred(s, Truncate(Ticks(x, n)), Truncate(Ticks(y, n)), n);
  }

  lemma TicksSum(x: real, y: real, n: nat)
    ensures Ticks(x + y, n) == Ticks(x, n) + Ticks(y, n) && Ticks(-x, n) == -Ticks(x, n)
  {
  }

  lemma TicksLinear(s: nat, a: real, g: real, n: nat)
    ensures Ticks(First(s, a, g), n) == First(s, Ticks(a, n), Ticks(g, n))
    ensures Ticks(Second(s, a, g), n) == Second(s, Ticks(a, n), Ticks(g, n))
    ensures Ticks(a - g, n) == Ticks(a, n) - Ticks(g, n) && Ticks(a + g, n) == Ticks(a, n) + Ticks(g, n)
    ensures Ticks(2.0 * g, n) == 2.0 * Ticks(g, n)
  {
    hide Ticks;
    TicksSum(a, g, n);
    TicksSum(g, g, n);
    TicksSum(a, -g, n);
    TicksSum(-a, g, n);
    TicksSum(-a, -g, n);
    TicksSum(-g, -g, n);
    TicksSum(-g, a, n);
    assert a - g == a + -g && -a - g == -a + -g && 2.0 * g == g + g && -2.0 * g == -g + -g;
  }

  /** Truncation moves each line-to-line time by less than two ticks. */
  lemma PlaceAccurate(s: nat, a: real, g: real, n: nat)
    requires 1 <= s <= 6 && First(s, a, g) >= 0.0 && Second(s, a, g) >= 0.0
    requires Truncate(First(s, a, g)) + Truncate(Second(s, a, g)) <= n
    ensures var t := Place(s, Truncate(First(s, a, g)), Truncate(Second(s, a, g)), n);
      Near(t.tB - t.tA, a - g) && Near(t.tC - t.tA, a + g) && Near(t.tC - t.tB, 2.0 * g)
  {
  }

  /** The line-to-line on-times are the projections of the voltage vector, to within two ticks, in all sectors. */
  lemma TimingsAccurate(k: real, alpha: real, beta: real, n: nat)
    requires IsOneBySqrt3(k) && InRange(alpha, beta)
    ensures var t := Modulate(k, alpha, beta, n);
      && Near(t.tB - t.tA, Ticks(alpha - k * beta, n))
      && Near(t.tC - t.tA, Ticks(alpha + k * beta, n))
      && Near(t.tC - t.tB, Ticks(2.0 * (k * beta), n))
  {
    hide Place, First, Second, Truncate, Near, Ticks, IsOneBySqrt3, InRange, Sector;
    var s, g := Sector(k, alpha, beta), k * beta;
    var x, y := First(s, alpha, g), Second(s, alpha, g);
    OnTimesValid(k, alpha, beta);
    ScaleOnTimes(x, y, n);
    TruncateSum(Ticks(x, n), Ticks(y, n), n);
    TicksLinear(s, alpha, g, n);
    PlaceAccurate(s, Ticks(alpha, n), Ticks(g, n), n);
  }

  // ----- the caller: saturation and rotation in control_current -----

  /** The length used by utils_saturate_vector_2d: never less than 1e-10. */
  function Magnitude(sqrt: real -> real, x: real, y: real): (m: real)
    ensures m > 0.0
  {
    var m := sqrt(x * x + y * y);
    if m < 0.0000000001 then 0.0000000001 else m
  }

  /** utils_saturate_vector_2d. */
  function Saturate(sqrt: real -> real, x: real, y: real, max: real): (real, real) {
    var m := Magnitude(sqrt, x, y);
    if m > Utils.Abs(max) then Shorten(x, y, Utils.Abs(max) / m) else (x, y)
  }

  function Shorten(x: real, y: real, f: real): (real, real) {
    (x * f, y * f)
  }

  lemma SquareMonotone(a: real, b: real)
    requires 0.0 <= a <= b
    ensures a * a <= b * b
  {
    ProductNonNegative(b - a, b + a);
    assert (b - a) * (b + a) == b * b - a * a;
  }

  lemma MagnitudeBounds(sqrt: real -> real, x: real, y: real)
    requires Utils.IsSqrt(sqrt)
    ensures x * x + y * y <= Magnitude(sqrt, x, y) * Magnitude(sqrt, x, y)
  {
    SquareNonNegative(x);
    SquareNonNegative(y);
    SquareMonotone(sqrt(x * x + y * y), Magnitude(sqrt, x, y));
  }

  lemma Scaled(q: real, m: real, b: real, f: real)
    requires m > 0.0 && q <= m * m && f * m == b
    ensures q * (f * f) <= b * b
  {
    SquareNonNegative(f);
    ProductNonNegative(m * m - q, f * f);
    assert (m * m - q) * (f * f) == (f * m) * (f * m) - q * (f * f);
  }

  /** Saturation brings the vector into the circle of radius |max|, for any input. */
  lemma SaturateSpec(sqrt: real -> real, x: real, y: real, max: real)
    requires Utils.IsSqrt(sqrt)
    ensures var (u, v) := Saturate(sqrt, x, y, max); u * u + v * v <= max * max
  {
    var m, b := Magnitude(sqrt, x, y), Utils.Abs(max);
    MagnitudeBounds(sqrt, x, y);
    assert b * b == max * max;
    if m > b {
      var f := b / m;
      assert f * m == b;
      Scaled(x * x + y * y, m, b, f);
      assert (x * f) * (x * f) + (y * f) * (y * f) == (x * x + y * y) * (f * f);
    } else {
      SquareMonotone(m, b);
    }
  }

  /** The negated inverse rotation from the rotor frame. */
  function Rotate(c: real, s: real, d: real, q: real): (real, real) {
    (-(c * d - s * q), -(c * q + s * d))
  }

  /** SQRT3_BY_2 times the duty cycle limit, the radius control_current saturates to. */
  function Radius(h: real, maxDuty: real, lMaxDuty: real): real {
    h * Utils.Truncate(Utils.Abs(maxDuty), 0.0, lMaxDuty)
  }

  /** mod_alpha and mod_beta as control_current passes them to svm, from the requested mod_d and mod_q. */
  function Modulation(sqrt: real -> real, c: real, s: real, modD: real, modQ: real,
                      h: real, maxDuty: real, lMaxDuty: real): (real, real) {
    var (d, q) := Saturate(sqrt, modD, modQ, Radius(h, maxDuty, lMaxDuty));
    Rotate(c, s, d, q)
  }

  lemma RadiusBound(h: real, maxDuty: real, lMaxDuty: real)
    requires h * h == 0.75 && 0.0 <= lMaxDuty <= 1.0
    ensures Radius(h, maxDuty, lMaxDuty) * Radius(h, maxDuty, lMaxDuty) <= 0.75
  {
    var m := Utils.Truncate(Utils.Abs(maxDuty), 0.0, lMaxDuty);
    SquareMonotone(m, 1.0);
    assert (h * m) * (h * m) == 0.75 * (m * m);
  }

  lemma RotateSpec(c: real, s: real, d: real, q: real)
    requires c * c + s * s == 1.0 && InRange(d, q)
    ensures InRange(Rotate(c, s, d, q).0, Rotate(c, s, d, q).1)
  {
    var a, b := -(c * d - s * q), -(c * q + s * d);
    assert a * a + b * b == (c * c + s * s) * (d * d + q * q);
  }

  /** Whatever the current controller asks for, svm is called within its range. */
  lemma ModulationInRange(sqrt: real -> real, c: real, s: real, modD: real, modQ: real,
                          h: real, maxDuty: real, lMaxDuty: real)
    requires Utils.IsSqrt(sqrt) && c * c + s * s == 1.0
    requires h * h == 0.75 && 0.0 <= lMaxDuty <= 1.0
    ensures var (alpha, beta) := Modulation(sqrt, c, s, modD, modQ, h, maxDuty, lMaxDuty); InRange(alpha, beta)
  {
    hide Saturate, Rotate, Radius, Utils.IsSqrt;
    var r := Radius(h, maxDuty, lMaxDuty);
    var u := Saturate(sqrt, modD, modQ, r);
    assert InRange(u.0, u.1) by {
      RadiusBound(h, maxDuty, lMaxDuty);
      SaturateSpec(sqrt, modD, modQ, r);
    }
    RotateSpec(c, s, u.0, u.1);
  }

  // ----- the vector that is asked for -----

  /** Rotating the result back gives minus the vector in the rotor frame. */
  lemma RotateBack(c: real, s: real, d: real, q: real)
    requires c * c + s * s == 1.0
    ensures var (alpha, beta) := Rotate(c, s, d, q);
      c * alpha + s * beta == -d && c * beta - s * alpha == -q
  {
    assert c * (c * d - s * q) + s * (c * q + s * d) == (c * c + s * s) * d;
    assert c * (c * q + s * d) - s * (c * d - s * q) == (c * c + s * s) * q;
  }

  lemma SquareStrictly(a: real, b: real)
    requires 0.0 <= a < b
    ensures a * a < b * b
  {
    var d, e := b - a, b + a;
    assert d * e > 0.0;
    assert d * e == b * b - a * a;
  }

  lemma NormAtMost(sqrt: real -> real, w: real, b: real)
    requires Utils.IsSqrt(sqrt) && 0.0 <= b && 0.0 <= w
    ensures w <= b * b ==> sqrt(w) <= b
    ensures w > b * b ==> sqrt(w) > b
    ensures w >= b * b ==> sqrt(w) >= b
  {
    var r := sqrt(w);
    if r > b {
      SquareStrictly(b, r);
    } else {
      SquareMonotone(r, b);
      if r < b {
        SquareStrictly(r, b);
      }
    }
  }

  lemma Shortened(x: real, y: real, f: real, m: real, b: real)
    requires f * m == b && x * x + y * y == m * m
    ensures (x * f) * (x * f) + (y * f) * (y * f) == b * b
  {
    assert (x * f) * (x * f) + (y * f) * (y * f) == (x * x + y * y) * (f * f);
    assert (m * m) * (f * f) == (f * m) * (f * m);
  }

  /**
   Saturation leaves a vector inside the radius as it is; any other keeps its direction and gets exactly the
   radius. (Vectors and radii below 1e-10 are only shortened.)
   */
  lemma SaturateExact(sqrt: real -> real, x: real, y: real, max: real) returns (f: real)
    requires Utils.IsSqrt(sqrt)
    ensures Saturate(sqrt, x, y, max) == Shorten(x, y, f) && 0.0 <= f <= 1.0
    ensures x * x + y * y <= max * max && 0.0000000001 <= Utils.Abs(max) ==> f == 1.0
    ensures x * x + y * y > max * max && x * x + y * y >= 0.0000000001 * 0.0000000001 ==>
      (x * f) * (x * f) + (y * f) * (y * f) == max * max
  {
    hide Saturate, Utils.IsSqrt, Magnitude;
    var m, b, w := Magnitude(sqrt, x, y), Utils.Abs(max), x * x + y * y;
    f := SaturateFactor(sqrt, x, y, max);
    MagnitudeIs(sqrt, x, y, b);
    assert b * b == max * max;
    if m > b {
      FractionBound(b, m, f);
      if w > max * max && w >= 0.0000000001 * 0.0000000001 {
        Shortened(x, y, f, m, b);
      }
    }
  }

  lemma SaturateFactor(sqrt: real -> real, x: real, y: real, max: real) returns (f: real)
    ensures Saturate(sqrt, x, y, max) == Shorten(x, y, f)
    ensures var m, b := Magnitude(sqrt, x, y), Utils.Abs(max); if m > b then f * m == b else f == 1.0
  {
    hide Magnitude, Utils.Abs, Shorten;
    var m, b := Magnitude(sqrt, x, y), Utils.Abs(max);
    if m > b {
      f := b / m;
      assert f * m == b;
    } else {
      f := 1.0;
      ShortenByOne(x, y);
    }
  }

  lemma ShortenByOne(x: real, y: real)
    ensures Shorten(x, y, 1.0) == (x, y)
  {
  }

  /** The magnitude is the norm, unless that is tiny, and compares with a radius b as the squares do. */
  lemma MagnitudeIs(sqrt: real -> real, x: real, y: real, b: real)
    requires Utils.IsSqrt(sqrt) && 0.0 <= b
    ensures var m, w := Magnitude(sqrt, x, y), x * x + y * y;
      && (w >= 0.0000000001 * 0.0000000001 ==> m * m == w && (w > b * b ==> m > b))
      && (w <= b * b && 0.0000000001 <= b ==> m <= b)
  {
    SquareNonNegative(x);
    SquareNonNegative(y);
    NormAtMost(sqrt, x * x + y * y, b);
    NormAtMost(sqrt, x * x + y * y, 0.0000000001);
  }

  lemma FractionBound(b: real, m: real, f: real)
    requires 0.0 <= b < m && f * m == b
    ensures 0.0 <= f <= 1.0
  {
  }

  /**
   What control_current puts out: the line-to-line times are, to within two ticks, the projections of minus the
   requested vector, rotated into the stator frame, and shortened by f to the radius if it is longer.
   */
  lemma OutputAsAsked(sqrt: real -> real, k: real, c: real, s: real, modD: real, modQ: real,
                      h: real, maxDuty: real, lMaxDuty: real, n: nat)
    returns (f: real, alpha: real, beta: real)
    requires Utils.IsSqrt(sqrt) && c * c + s * s == 1.0 && IsOneBySqrt3(k)
    requires h * h == 0.75 && 0.0 <= lMaxDuty <= 1.0
    ensures (alpha, beta) == Modulation(sqrt, c, s, modD, modQ, h, maxDuty, lMaxDuty) && InRange(alpha, beta)
    ensures c * alpha + s * beta == -(modD * f) && c * beta - s * alpha == -(modQ * f)
    ensures var r := Radius(h, maxDuty, lMaxDuty);
      && 0.0 <= f <= 1.0
      && (modD * modD + modQ * modQ <= r * r && 0.0000000001 <= Utils.Abs(r) ==> f == 1.0)
      && (modD * modD + modQ * modQ > r * r && modD * modD + modQ * modQ >= 0.0000000001 * 0.0000000001 ==>
            (modD * f) * (modD * f) + (modQ * f) * (modQ * f) == r * r)
    ensures var t := Modulate(k, alpha, beta, n);
      && -2.0 < (t.tB - t.tA) as real - (alpha - k * beta) * n as real < 2.0
      && -2.0 < (t.tC - t.tA) as real - (alpha + k * beta) * n as real < 2.0
      && -2.0 < (t.tC - t.tB) as real - 2.0 * (k * beta) * n as real < 2.0
  {
    hide Modulate, Modulation, Utils.IsSqrt, IsOneBySqrt3, InRange, Radius, Utils.Abs;
    ModulationInRange(sqrt, c, s, modD, modQ, h, maxDuty, lMaxDuty);
    f, alpha, beta := VectorAsAsked(sqrt, c, s, modD, modQ, h, maxDuty, lMaxDuty);
    TimingsSpelled(k, alpha, beta, n);
  }

  lemma VectorAsAsked(sqrt: real -> real, c: real, s: real, modD: real, modQ: real,
                      h: real, maxDuty: real, lMaxDuty: real)
    returns (f: real, alpha: real, beta: real)
    requires Utils.IsSqrt(sqrt) && c * c + s * s == 1.0
    ensures (alpha, beta) == Modulation(sqrt, c, s, modD, modQ, h, maxDuty, lMaxDuty)
    ensures c * alpha + s * beta == -(modD * f) && c * beta - s * alpha == -(modQ * f)
    ensures var r := Radius(h, maxDuty, lMaxDuty);
      && 0.0 <= f <= 1.0
      && (modD * modD + modQ * modQ <= r * r && 0.0000000001 <= Utils.Abs(r) ==> f == 1.0)
      && (modD * modD + modQ * modQ > r * r && modD * modD + modQ * modQ >= 0.0000000001 * 0.0000000001 ==>
            (modD * f) * (modD * f) + (modQ * f) * (modQ * f) == r * r)
  {
    hide Saturate, Rotate, Utils.IsSqrt, Radius, Utils.Abs, Shorten;
    f := SaturateExact(sqrt, modD, modQ, Radius(h, maxDuty, lMaxDuty));
    alpha, beta := RotateShortened(c, s, modD, modQ, f);
  }

  lemma RotateShortened(c: real, s: real, x: real, y: real, f: real) returns (alpha: real, beta: real)
    requires c * c + s * s == 1.0
    ensures var v := Shorten(x, y, f); (alpha, beta) == Rotate(c, s, v.0, v.1)
    ensures c * alpha + s * beta == -(x * f) && c * beta - s * alpha == -(y * f)
  {
    hide Rotate;
    var v := Shorten(x, y, f);
    var m := Rotate(c, s, v.0, v.1);
    alpha, beta := m.0, m.1;
    RotateBack(c, s, v.0, v.1);
  }

  lemma TimingsSpelled(k: real, alpha: real, beta: real, n: nat)
    requires IsOneBySqrt3(k) && InRange(alpha, beta)
    ensures var t := Modulate(k, alpha, beta, n);
      && -2.0 < (t.tB - t.tA) as real - (alpha - k * beta) * n as real < 2.0
      && -2.0 < (t.tC - t.tA) as real - (alpha + k * beta) * n as real < 2.0
      && -2.0 < (t.tC - t.tB) as real - 2.0 * (k * beta) * n as real < 2.0
  {
    hide Modulate, IsOneBySqrt3, InRange;
    TimingsAccurate(k, alpha, beta, n);
  }

  /** The radius: sqrt(3)/2 of the duty cycle limit, which is at most the configured maximum. */
  lemma RadiusIs(h: real, maxDuty: real, lMaxDuty: real)
    requires 0.0 <= lMaxDuty
    ensures -lMaxDuty <= maxDuty <= lMaxDuty ==>
      Radius(h, maxDuty, lMaxDuty) == h * if maxDuty < 0.0 then -maxDuty else maxDuty
    ensures !(-lMaxDuty <= maxDuty <= lMaxDuty) ==> Radius(h, maxDuty, lMaxDuty) == h * lMaxDuty
  {
  }
}
