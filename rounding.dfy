/** PHP's `round($x, $places)` on exact reals: to the nearest multiple of
    10^-places, halves away from zero. */
module Rounding {

  function Pow10(n: nat): (r: nat)
    ensures r >= 1
  {
    if n == 0 then 1 else 10 * Pow10(n - 1)
  }

  function Scale(places: nat): (r: real)
    ensures r >= 1.0
  {
    Pow10(places) as real
  }

  function RoundTo(x: real, places: nat): real
  {
    if x >= 0.0 then RoundUp(x, Scale(places)) else -RoundUp(-x, Scale(places))
  }

  /** `x` is a multiple of 10^-places. */
  predicate OnGrid(x: real, places: nat)
  {
    (x * Scale(places)).Floor as real == x * Scale(places)
  }

  lemma MulLe(a: real, b: real, s: real)
    requires a <= b && s >= 0.0
    ensures a * s <= b * s
  {
  }

  lemma DivLe(a: real, b: real, s: real)
    requires a <= b && s > 0.0
    ensures a / s <= b / s
  {
    assert (b / s - a / s) * s == b - a;
  }

  lemma FloorLe(a: real, b: real)
    requires a <= b
    ensures a.Floor <= b.Floor
  {
  }

  /** Rounding a non-negative number: the nearest step, halves up. */
  function RoundUp(m: real, s: real): real
    requires s >= 1.0
  {
    (m * s + 0.5).Floor as real / s
  }

  lemma RoundUpMonotone(m: real, n: real, s: real)
    requires 0.0 <= m <= n && s >= 1.0
    ensures 0.0 <= RoundUp(m, s) <= RoundUp(n, s)
  {
    MulLe(m, n, s);
    MulLe(0.0, m, s);
    var a := m * s + 0.5;
    var b := n * s + 0.5;
    FloorLe(a, b);
    FloorLe(0.0, a);
    DivLe(0.0, a.Floor as real, s);
    DivLe(a.Floor as real, b.Floor as real, s);
  }

  lemma RoundToCases(x: real, places: nat)
    ensures x >= 0.0 ==> RoundTo(x, places) == RoundUp(x, Scale(places))
    ensures x < 0.0 ==> RoundTo(x, places) == -RoundUp(-x, Scale(places))
  {
  }

  /** Rounding never reverses the order of two numbers. */
  lemma RoundMonotone(x: real, y: real, places: nat)
    requires x <= y
    ensures RoundTo(x, places) <= RoundTo(y, places)
  {
    var s := Scale(places);
    RoundToCases(x, places);
    RoundToCases(y, places);
    if x >= 0.0 {
      RoundUpMonotone(x, y, s);
    } else if y >= 0.0 {
      RoundUpMonotone(0.0, -x, s);
      RoundUpMonotone(0.0, y, s);
    } else {
      RoundUpMonotone(-y, -x, s);
    }
  }

  lemma MulDiv(x: real, s: real)
    requires s > 0.0
    ensures x * s / s == x
  {
  }

  lemma NegMul(x: real, s: real)
    ensures (-x) * s == -(x * s)
  {
  }

  /** A non-negative multiple of 1/s rounds to itself. */
  lemma RoundUpInteger(m: real, s: real, n: int)
    requires s >= 1.0 && m * s == n as real
    ensures RoundUp(m, s) == m
  {
    assert (m * s + 0.5).Floor == n;
    MulDiv(m, s);
  }

  /** The integer a multiple of 10^-places scales to. */
  lemma GridInteger(x: real, places: nat)
    requires OnGrid(x, places)
    ensures x * Scale(places) == (x * Scale(places)).Floor as real
    ensures (-x) * Scale(places) == (-(x * Scale(places)).Floor) as real
  {
    NegMul(x, Scale(places));
  }

  /** A multiple of 10^-places rounds to itself. */
  lemma RoundOnGrid(x: real, places: nat)
    requires OnGrid(x, places)
    ensures RoundTo(x, places) == x
  {
    GridInteger(x, places);
    var n := (x * Scale(places)).Floor;
    if x >= 0.0 {
      RoundUpInteger(x, Scale(places), n);
    } else {
      RoundUpInteger(-x, Scale(places), -n);
    }
  }

  lemma RoundUpClose(m: real, s: real)
    requires m >= 0.0 && s >= 1.0
    ensures m - 0.5 / s <= RoundUp(m, s) <= m + 0.5 / s
  {
    var a := m * s;
    var f := (a + 0.5).Floor as real;
    assert a - 0.5 < f <= a + 0.5;
    DivLe(a - 0.5, f, s);
    DivLe(f, a + 0.5, s);
    assert (a - 0.5) / s == m - 0.5 / s;
    assert (a + 0.5) / s == m + 0.5 / s;
  }

  /** The rounded value is at most half a step away. */
  lemma RoundClose(x: real, places: nat)
    ensures -0.5 / Scale(places) <= RoundTo(x, places) - x <= 0.5 / Scale(places)
  {
    RoundToCases(x, places);
    if x >= 0.0 {
      RoundUpClose(x, Scale(places));
    } else {
      RoundUpClose(-x, Scale(places));
    }
  }

  lemma DivMul(y: real, s: real)
    requires s > 0.0
    ensures (y / s) * s == y
  {
  }

  /** A rounded step count times the step is a whole number. */
  lemma RoundUpWhole(m: real, s: real)
    requires s >= 1.0
    ensures (RoundUp(m, s) * s).Floor as real == RoundUp(m, s) * s
  {
    var n := (m * s + 0.5).Floor;
    assert RoundUp(m, s) == n as real / s;
    DivMul(n as real, s);
    IntegerWhole(RoundUp(m, s) * s, n);
  }

  lemma IntegerWhole(y: real, n: int)
    requires y == n as real
    ensures y.Floor as real == y
  {
  }

  /** A rounded non-negative value has at most `places` decimals. */
  lemma RoundedOnGrid(m: real, places: nat)
    requires m >= 0.0
    ensures OnGrid(RoundTo(m, places), places)
  {
    RoundToCases(m, places);
    RoundUpWhole(m, Scale(places));
  }


}
