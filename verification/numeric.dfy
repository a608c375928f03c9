/** The integer conversions the Python code applies to float seconds.
    Floats are modelled as exact `real`s; these functions are the exact
    counterparts of `math.floor`, `math.ceil`, `int(...)` and `round(...)`. */
module Numeric {

  /** `math.floor`. */
  function Floor(x: real): (r: int)
    ensures r as real <= x < r as real + 1.0
  {
    x.Floor
  }

  /** `math.ceil`. */
  function Ceil(x: real): (r: int)
    ensures r as real - 1.0 < x <= r as real
  {
    -((-x).Floor)
  }

  /** `int(x)` on a float: truncation toward zero. */
  function Trunc(x: real): (r: int)
    ensures x >= 0.0 ==> r == Floor(x)
    ensures x < 0.0 ==> r == Ceil(x)
  {
    if x >= 0.0 then x.Floor else -((-x).Floor)
  }

  /** Truncating a value between 0 and `n` stays between 0 and `n`. */
  lemma TruncWithin(x: real, n: int)
    requires 0.0 <= x <= n as real
    ensures 0 <= Trunc(x) <= n
  {
    var r := Trunc(x);
    assert r == Floor(x) && r as real <= x;
  }

  /** Python 3 `round(x)`: nearest integer, ties to the even neighbour. */
  function RoundHalfEven(x: real): (r: int)
    ensures r as real - 0.5 <= x <= r as real + 0.5
    ensures x == r as real - 0.5 || x == r as real + 0.5 ==> r % 2 == 0
  {
    var f := x.Floor;
    var d := x - f as real;
    if d < 0.5 then f
    else if d > 0.5 then f + 1
    else if f % 2 == 0 then f
    else f + 1
  }

  function MaxInt(a: int, b: int): int {
    if a >= b then a else b
  }

  function MinInt(a: int, b: int): int {
    if a <= b then a else b
  }

  function MaxReal(a: real, b: real): real {
    if a >= b then a else b
  }

  function MinReal(a: real, b: real): real {
    if a <= b then a else b
  }

  /** Consecutive elements of `r` at `k` and `k + 1` are `step` apart. */
  predicate StepApart(r: seq<int>, k: int, step: int)
    requires 0 <= k < |r| - 1
  {
    r[k + 1] == r[k] + step
  }

  /** `range(start, stop, step)` for a positive step: `start`, `start + step`,
      ... while below `stop`. */
  function Range(start: int, stop: int, step: int): (r: seq<int>)
    requires step >= 1
    ensures forall k :: 0 <= k < |r| ==> start <= r[k] < stop
    ensures r != [] <==> start < stop
    ensures r != [] ==> r[0] == start && r[|r| - 1] + step >= stop
    ensures forall k :: 0 <= k < |r| - 1 ==> StepApart(r, k, step)
    decreases stop - start
  {
    if start >= stop then []
    else
      var rest := Range(start + step, stop, step);
      var r := [start] + rest;
      assert forall k :: 1 <= k < |r| - 1 ==> StepApart(r, k, step) by {
        forall k | 1 <= k < |r| - 1 ensures StepApart(r, k, step) {
          assert StepApart(rest, k - 1, step);
        }
      }
      r
  }

  /** A positive count divided by itself is one. */
  lemma SelfRatio(n: nat)
    requires n >= 1
    ensures n as real / n as real == 1.0
  {
  }
}
