/** The float helpers of utils.c and utils.h, over exact reals. */
module Utils {
  function Abs(x: real): (a: real)
    ensures a >= 0.0 && (a == x || a == -x)
  {
    if x < 0.0 then -x else x
  }

  function Larger(x: real, y: real): real {
    if x < y then y else x
  }

  /** SIGN: zero counts as positive. */
  function Sign(x: real): real {
    if x < 0.0 then -1.0 else 1.0
  }

  /** SIGN(x) times y. */
  function Along(x: real, y: real): real {
    if x < 0.0 then -y else y
  }

  lemma AlongIsProduct(x: real, y: real)
    ensures Along(x, y) == Sign(x) * y
  {
  }

  /** utils_truncate_number. */
  function Truncate(x: real, low: real, high: real): (r: real)
    ensures low <= high ==> low <= r <= high
    ensures low <= x <= high ==> r == x
  {
    if x > high then high else if x < low then low else x
  }

  /** No number between the bounds is nearer to x. */
  lemma TruncateNearest(x: real, low: real, high: real, y: real)
    requires low <= y <= high
    ensures low <= Truncate(x, low, high) <= high && Abs(Truncate(x, low, high) - x) <= Abs(y - x)
  {
  }

  /** utils_step_towards. */
  function StepTowards(value: real, goal: real, step: real): real {
    if value < goal then (if value + step < goal then value + step else goal)
    else if value > goal then (if value - step > goal then value - step else goal)
    else value
  }

  /** The square root of the C library, as far as the code depends on it. */
  ghost predicate IsSqrt(sqrt: real -> real) {
    forall x :: 0.0 <= x ==> sqrt(x) >= 0.0 && sqrt(x) * sqrt(x) == x
  }

  ghost predicate Between(x: real, a: real, b: real) {
    a <= x <= b || b <= x <= a
  }

  ghost predicate Within(x: real, bound: real) {
    -bound <= x <= bound
  }

  /** A step towards a goal never passes it, and is the whole step unless the goal is nearer. */
  lemma StepTowardsSpec(value: real, goal: real, step: real)
    requires step >= 0.0
    ensures Between(StepTowards(value, goal, step), value, goal)
    ensures Within(StepTowards(value, goal, step) - value, step)
    ensures Within(goal - value, step) ==> StepTowards(value, goal, step) == goal
    ensures !Within(goal - value, step) ==>
      StepTowards(value, goal, step) == if goal > value then value + step else value - step
  {
  }
}
