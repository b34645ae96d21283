/**
 Commutation arithmetic of mcpwm.c: the nearest step difference of update_rpm_tacho, and what a
 history of such differences adds up to.
 */
module Tachometer {
  /** Remainder of the C operator %, which truncates towards zero. */
  function Remainder(a: int, b: int): int
    requires b > 0
  {
    if a >= 0 then a % b else -(-a % b)
  }

  ghost predicate Congruent(a: int, b: int) {
    (a - b) % 6 == 0
  }

  lemma CongruentRefl(a: int)
    ensures Congruent(a, a)
  {
  }

  lemma CongruentWrap(a: int, b: int)
    requires Congruent(a, b)
    ensures Congruent(a - 6, b) && Congruent(a + 6, b)
  {
  }

  /** d is the step difference from last to step, taken in the window -2..3. */
  ghost predicate Nearest(d: int, step: int, last: int) {
    -2 <= d <= 3 && Congruent(d, step - last)
  }

  lemma NearestZero(step: int)
    ensures Nearest(0, step, step)
  {
  }

  /** The two corrections of update_rpm_tacho bring the truncated remainder into the window. */
  lemma RemainderNearest(step: int, last: int)
    requires 0 <= step <= 5 && 0 <= last <= 5
    ensures var r := Remainder(step - last, 6);
      Nearest(if r > 3 then r - 6 else if r < -2 then r + 6 else r, step, last)
  {
  }

  lemma CongruentQuotient(a: int, b: int) returns (k: int)
    requires Congruent(a, b)
    ensures a == b + 6 * k
  {
    k := (a - b) / 6;
  }

  lemma MultipleCongruent(a: int, b: int, k: int)
    requires a == b + 6 * k
    ensures Congruent(a, b)
  {
  }

  lemma NearestSum(total: int, d: int, step: int, last: int)
    requires Congruent(total, last) && Nearest(d, step, last)
    ensures Congruent(total + d, step) && -2 <= d <= 3
  {
    hide Congruent;
    var j := CongruentQuotient(total, last);
    var k := CongruentQuotient(d, step - last);
    MultipleCongruent(total + d, step, j + k);
  }

  /** Advancing a step counter of 1..6 by 0..2, and the difference then counted. */
  lemma Advance(c: int, next: int, last: int, steps: nat, d: int)
    requires 1 <= c <= 6 && 1 <= next <= 6 && steps <= 2 && Congruent(next, c + steps)
    requires Nearest(d, next - 1, last)
    ensures next == (c - 1 + steps) % 6 + 1
    ensures last == c - 1 ==> d == steps
  {
  }

  /** The window picks exactly one difference. */
  lemma NearestUnique(d: int, e: int, step: int, last: int)
    requires Nearest(d, step, last) && Nearest(e, step, last)
    ensures d == e
  {
    hide Congruent;
    var j := CongruentQuotient(d, step - last);
    var k := CongruentQuotient(e, step - last);
  }

  /** One update: the difference counted, and the direction flag it was counted under. */
  datatype Move = Move(diff: int, forward: bool)

  ghost function Total(moves: seq<Move>): int {
    if moves == [] then 0 else Total(moves[..|moves| - 1]) + moves[|moves| - 1].diff
  }

  /** Sum of the same differences, counted down when the direction flag is clear. */
  ghost function Net(moves: seq<Move>): int {
    if moves == [] then 0
    else
      var m := moves[|moves| - 1];
      Net(moves[..|moves| - 1]) + (if m.forward then m.diff else -m.diff)
  }

  ghost predicate InWindow(moves: seq<Move>) {
    forall m <- moves :: -2 <= m.diff <= 3
  }

  /** No difference counts backwards, or skips more than one step. */
  ghost predicate Forwards(moves: seq<Move>) {
    forall m <- moves :: 0 <= m.diff <= 2
  }

  lemma Extend(moves: seq<Move>, m: Move)
    ensures Total(moves + [m]) == Total(moves) + m.diff
    ensures Net(moves + [m]) == Net(moves) + (if m.forward then m.diff else -m.diff)
    ensures InWindow(moves) && -2 <= m.diff <= 3 ==> InWindow(moves + [m])
    ensures Forwards(moves) && 0 <= m.diff <= 2 ==> Forwards(moves + [m])
  {
    assert (moves + [m])[..|moves|] == moves;
  }

  lemma {:induction false} TotalConcat(a: seq<Move>, b: seq<Move>)
    ensures Total(a + b) == Total(a) + Total(b) && Net(a + b) == Net(a) + Net(b)
  {
    if b == [] {
      assert a + b == a;
    } else {
      var front, m := b[..|b| - 1], b[|b| - 1];
      TotalConcat(a, front);
      assert b == front + [m] && a + b == (a + front) + [m];
      Extend(a + front, m);
      Extend(front, m);
    }
  }

  /** A history without backward differences only adds to the absolute count. */
  lemma {:induction false} TotalMonotone(moves: seq<Move>)
    requires Forwards(moves)
    ensures 0 <= Total(moves) && -Total(moves) <= Net(moves) <= Total(moves)
  {
    if moves != [] {
      assert moves[|moves| - 1] in moves;
      TotalMonotone(moves[..|moves| - 1]);
    }
  }

  /** Positions sampled at each update, never moving by more than the window between two samples. */
  ghost predicate Followed(positions: seq<int>) {
    forall i :: 0 < i < |positions| ==> -2 <= positions[i] - positions[i - 1] <= 3
  }

  /** Unwrapping is exact for a move in the window, and for no other move. */
  lemma UnwrapExact(p: int, q: int, d: int)
    requires Nearest(d, q % 6, p % 6)
    ensures d == q - p <==> -2 <= q - p <= 3
  {
  }
}
