/** Bitwise and of unsigned words, on integers. */
module Bits {
  /** Bitwise and of the n low bits. */
  function AndBits(x: nat, y: nat, n: nat): (r: nat)
    ensures r <= y
  {
    if n == 0 then 0 else 2 * AndBits(x / 2, y / 2, n - 1) + (x % 2) * (y % 2)
  }

  /** n ones: 2^n - 1. */
  function Ones(n: nat): nat {
    if n == 0 then 0 else 2 * Ones(n - 1) + 1
  }

  lemma {:induction false} AndOnes(v: nat, n: nat)
    requires v <= Ones(n)
    ensures AndBits(Ones(n), v, n) == v
  {
    if n > 0 {
      AndOnes(v / 2, n - 1);
    }
  }

  lemma {:induction false} AndSelf(v: nat, n: nat)
    requires v <= Ones(n)
    ensures AndBits(v, v, n) == v
  {
    if n > 0 {
      AndSelf(v / 2, n - 1);
    }
  }

  lemma {:induction false} ZeroAnd(v: nat, n: nat)
    ensures AndBits(0, v, n) == 0
  {
    if n > 0 {
      ZeroAnd(v / 2, n - 1);
    }
  }

  lemma {:induction false} AndZero(v: nat, n: nat)
    ensures AndBits(v, 0, n) == 0
  {
    if n > 0 {
      AndZero(v / 2, n - 1);
    }
  }

  /** Masking with 2^b - 1 keeps a smaller value and wraps 2^b itself to 0. */
  lemma {:induction false} AndMask(x: nat, b: nat, n: nat)
    requires b <= n && x <= Ones(b) + 1
    ensures AndBits(x, Ones(b), n) == if x == Ones(b) + 1 then 0 else x
  {
    if b > 0 {
      AndMask(x / 2, b - 1, n - 1);
      assert Ones(b) / 2 == Ones(b - 1) && Ones(b) % 2 == 1;
    }
  }
}
