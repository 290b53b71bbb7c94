/** `qtype_randomdata_calculate_answer` without its tolerance interval: the
    evaluated answer, shown with a number of decimals or of significant
    figures, followed by the unit. The texts `sprintf` and the string
    padding build are not modelled; a `Shown` value records the number and
    the layout the source chooses for it. */
module AnswerFormat {
  import opened Wrappers
  import opened Rounding
  import opened Substitution

  // ---------------------------------------------------------------------
  // Powers of ten with an integer exponent

  /** 10^e for any integer `e`. */
  function Exp10(e: int): (r: real)
    ensures r > 0.0
  {
    if e >= 0 then Pow10(e) as real else 1.0 / (Pow10(-e) as real)
  }

  lemma Exp10Succ(e: int)
    ensures Exp10(e + 1) == 10.0 * Exp10(e)
  {
    if e < -1 {
      var d := Pow10(-e - 1) as real;
      assert Pow10(-e) as real == 10.0 * d;
      assert 1.0 / d == 10.0 * (1.0 / (10.0 * d));
    }
  }

  /** A larger exponent gives at least ten times as much. */
  lemma {:induction false} Exp10Grows(p: int, q: int)
    ensures p < q ==> 10.0 * Exp10(p) <= Exp10(q)
    decreases q - p
  {
    if p + 1 < q {
      Exp10Grows(p + 1, q);
      Exp10Succ(p);
    } else if p + 1 == q {
      Exp10Succ(p);
    }
  }

  // ---------------------------------------------------------------------
  // The form 0.[1-9][0-9]*

  /** `a` is `m` times 10^p with `m` in [0.1, 1): the form the two `$p10`
      loops bring a positive answer into. */
  predicate NormalForm(a: real, m: real, p: int)
  {
    0.1 <= m < 1.0 && a == m * Exp10(p)
  }

  lemma Bracket(a: real, m: real, p: int)
    requires NormalForm(a, m, p)
    ensures 0.1 * Exp10(p) <= a < Exp10(p)
  {
    MulBracket(m, Exp10(p));
  }

  lemma MulBracket(m: real, e: real)
    requires 0.1 <= m < 1.0 && e > 0.0
    ensures 0.1 * e <= m * e < e
  {
    assert (1.0 - m) * e > 0.0;
    assert (m - 0.1) * e >= 0.0;
  }

  /** A positive number has exactly one normal form. */
  lemma NormalFormUnique(a: real, m: real, p: int, m': real, p': int)
    requires NormalForm(a, m, p) && NormalForm(a, m', p')
    ensures p == p' && m == m'
  {
    Bracket(a, m, p);
    Bracket(a, m', p');
    Exp10Grows(p, p');
    Exp10Grows(p', p);
    assert p == p';
    assert (m - m') * Exp10(p) == 0.0;
  }

  /** A number above 1 loses at least one unit of its integer part when
      divided by ten. */
  lemma FloorShrinks(x: real)
    requires x >= 1.0
    ensures 0 <= (x / 10.0).Floor < x.Floor
  {
    assert x.Floor >= 1;
    if x < 10.0 {
      assert x / 10.0 < 1.0;
    } else {
      assert (x / 10.0).Floor as real <= x / 10.0 <= x - 1.0 < x.Floor as real;
    }
  }

  /** The two `$p10` loops: multiply by ten while below 1, then divide by
      ten while at least 1, counting the exponent. */
  method Normalise(a: real) returns (m: real, p10: int)
    requires a > 0.0
    ensures NormalForm(a, m, p10)
  {
    m := a;
    p10 := 0;
    while m < 1.0
      invariant m > 0.0 && a == m * Exp10(p10)
      decreases (1.0 / m).Floor
    {
      FloorShrinks(1.0 / m);
      assert 1.0 / (m * 10.0) == (1.0 / m) / 10.0;
      Exp10Succ(p10 - 1);
      p10 := p10 - 1;
      m := m * 10.0;
    }
    while m >= 1.0
      invariant m >= 0.1 && a == m * Exp10(p10)
      decreases m.Floor
    {
      FloorShrinks(m);
      Exp10Succ(p10);
      p10 := p10 + 1;
      m := m / 10.0;
    }
  }

  // ---------------------------------------------------------------------
  // Significant figures

  /** `round($answer, $answerlength)`, moved back into [0.1, 1) with the
      exponent raised when it rounded up to 1. */
  function Rounded(m: real, p: int, places: nat): (real, int)
  {
    var r := RoundTo(m, places);
    if r >= 1.0 then (r / 10.0, p + 1) else (r, p)
  }

  /** 0.1 has at most `places` decimals when `places` is at least 1. */
  lemma TenthOnGrid(places: nat)
    requires places >= 1
    ensures OnGrid(0.1, places)
  {
    assert Scale(places) == 10.0 * Scale(places - 1);
    assert 0.1 * Scale(places) == Pow10(places - 1) as real;
  }

  lemma ScaleBound(d: real, b: real, e: real)
    requires -b <= d <= b && e > 0.0
    ensures -(b * e) <= d * e <= b * e
  {
  }

  /** A mantissa in [0.1, 1) rounds into [0.1, 1] when at least one
      decimal is kept. */
  lemma RoundedMantissa(m: real, places: nat)
    requires 0.1 <= m < 1.0 && places >= 1
    ensures 0.1 <= RoundTo(m, places) <= 1.0
  {
    TenthOnGrid(places);
    RoundOnGrid(0.1, places);
    assert OnGrid(1.0, places) by {
      assert 1.0 * Scale(places) == Pow10(places) as real;
    }
    RoundOnGrid(1.0, places);
    RoundMonotone(0.1, m, places);
    RoundMonotone(m, 1.0, places);
  }

  /** Moving a rounded 1 back to 0.1 keeps the magnitude and the grid. */
  lemma RoundedShift(m: real, p: int, places: nat)
    requires 0.1 <= m < 1.0 && places >= 1
    ensures var (r, q) := Rounded(m, p, places);
            0.1 <= r < 1.0 && OnGrid(r, places) && r * Exp10(q) == RoundTo(m, places) * Exp10(p)
  {
    var r0 := RoundTo(m, places);
    RoundedMantissa(m, places);
    if r0 >= 1.0 {
      Exp10Succ(p);
      TenthOnGrid(places);
      assert r0 / 10.0 == 0.1;
    } else {
      RoundedOnGrid(m, places);
    }
  }

  /** Rounding the mantissa to `places` decimals moves the magnitude by at
      most half of 10^p / 10^places, half a unit of the last kept figure. */
  lemma RoundedError(a: real, m: real, p: int, places: nat)
    requires NormalForm(a, m, p)
    ensures -0.5 * Exp10(p) / Scale(places) <= RoundTo(m, places) * Exp10(p) - a <= 0.5 * Exp10(p) / Scale(places)
  {
    RoundClose(m, places);
    ErrorScaled(RoundTo(m, places), m, Scale(places), Exp10(p));
  }

  /** A rounding error of at most half of 1/s, scaled by e. */
  lemma ErrorScaled(r0: real, m: real, s: real, e: real)
    requires s >= 1.0 && e > 0.0
    requires -0.5 / s <= r0 - m <= 0.5 / s
    ensures -0.5 * e / s <= r0 * e - m * e <= 0.5 * e / s
  {
    ScaleBound(r0 - m, 0.5 / s, e);
    assert (0.5 / s) * e == 0.5 * e / s;
    assert (r0 - m) * e == r0 * e - m * e;
  }

  /** With at least one significant figure, the mantissa stays in
      [0.1, 1) and has at most that many decimals, and the shown magnitude
      is within half a unit of the last significant figure from the exact
      answer. */
  lemma SignificantRounding(a: real, m: real, p: int, places: nat)
    requires NormalForm(a, m, p) && places >= 1
    ensures var (r, q) := Rounded(m, p, places);
            0.1 <= r < 1.0 && OnGrid(r, places) &&
            -0.5 * Exp10(p) / Scale(places) <= r * Exp10(q) - a <= 0.5 * Exp10(p) / Scale(places)
  {
    RoundedShift(m, p, places);
    RoundedError(a, m, p, places);
  }

  // ---------------------------------------------------------------------
  // What is shown

  /** The layouts of the answer: `NAN` when it is not a number; the
      fixed-decimal text; `0.0`; scientific notation (mantissa, exponent
      and the number of figures the text is cut to); plain notation,
      padded with zeros to the given length when it has fewer integer
      digits than significant figures; and no result at all for an
      infinite answer in significant figures, where the second `$p10` loop
      never ends. */
  datatype Shown =
    | NotANumber
    | Decimals(n: Num, places: nat)
    | Zero
    | Scientific(negative: bool, mantissa: real, exponent: int, figures: nat)
    | Plain(negative: bool, value: Num, padTo: Option<nat>)
    | Unending

  /** The answer with the unit text appended to it. */
  datatype Display = Display(shown: Shown, suffix: string)

  /** `' ' . $unit`, or nothing when there is no unit. */
  function Suffix(unit: string): (r: string)
    ensures unit == "" <==> r == ""
    ensures unit != "" ==> r == " " + unit
  {
    if unit == "" then "" else " " + unit
  }

  /** The choice between scientific and plain notation for the rounded
      mantissa `r` and exponent `q`. */
  function Layout(negative: bool, r: real, q: int, places: nat): Shown
  {
    if q < -2 || 4 < q then Scientific(negative, r * 10.0, q - 1, places)
    else
      var v := r * Exp10(q);
      Plain(negative, Real(v), if 0.1 <= v / Scale(places) then None else Some(places + (if q < 1 then 2 - q else 1)))
  }

  /** Scientific notation is chosen exactly for exponents outside
      [-2, 4]; its mantissa is in [1, 10) and, times ten to its exponent,
      gives the rounded magnitude, as the plain value does. Padding is
      asked for exactly when the plain value is below 10^(places - 1). */
  lemma LayoutSpec(negative: bool, r: real, q: int, places: nat)
    requires 0.1 <= r < 1.0
    ensures var s := Layout(negative, r, q, places);
            (s.Scientific? <==> q < -2 || 4 < q) &&
            (s.Scientific? ==> s.negative == negative && 1.0 <= s.mantissa < 10.0 &&
                               s.mantissa * Exp10(s.exponent) == r * Exp10(q) && (s.exponent < -3 || 3 < s.exponent)) &&
            (s.Plain? ==> s.negative == negative && s.value == Real(r * Exp10(q)) &&
                          (s.padTo.None? <==> 0.1 * Scale(places) <= r * Exp10(q)))
  {
    if q < -2 || 4 < q {
      ScientificLayout(r, q);
    } else {
      PlainLayout(r * Exp10(q), Scale(places));
    }
  }

  lemma ScientificLayout(r: real, q: int)
    requires 0.1 <= r < 1.0
    ensures 1.0 <= r * 10.0 < 10.0 && (r * 10.0) * Exp10(q - 1) == r * Exp10(q)
  {
    Exp10Succ(q - 1);
    ShiftTen(r, Exp10(q - 1), Exp10(q));
  }

  lemma ShiftTen(r: real, e: real, e1: real)
    requires e1 == 10.0 * e
    ensures (r * 10.0) * e == r * e1
  {
  }

  lemma PlainLayout(v: real, s: real)
    requires s >= 1.0
    ensures 0.1 <= v / s <==> 0.1 * s <= v
  {
    if 0.1 <= v / s {
      MulLe(0.1, v / s, s);
      DivMul(v, s);
    } else {
      MulLe(v / s, 0.1, s);
      DivMul(v, s);
      assert v / s * s != 0.1 * s;
    }
  }

  /** What a numeric answer becomes in significant figures, given the
      exponent of its magnitude's normal form. */
  function SignificantFigures(x: real, p: int, places: nat): Shown
  {
    var (r, q) := Rounded(Magnitude(x) / Exp10(p), p, places);
    Layout(x < 0.0, r, q, places)
  }

  /** The magnitude of a real number. */
  function Magnitude(x: real): real
  {
    if x < 0.0 then -x else x
  }

  /** `shown` is how the numeric answer `n` is laid out: with `places`
      decimals in format `1`; otherwise `0.0` for zero, no result for an
      infinity, padded plain notation for NAN (it falls through both
      loops), and `places` significant figures of any other number. */
  ghost predicate Formats(n: Num, places: nat, answerformat: int, shown: Shown)
  {
    if answerformat == 1 then shown == Decimals(n, places)
    else match n
      case NaN => shown == Plain(false, NaN, Some(places + 2))
      case Inf(_) => shown == Unending
      case Real(x) =>
        if x == 0.0 then shown == Zero
        else exists p :: NormalForm(Magnitude(x), Magnitude(x) / Exp10(p), p) &&
                         shown == SignificantFigures(x, p, places)
  }

  /** The format branches of `qtype_randomdata_calculate_answer` on an
      answer that is numeric. */
  method FormatNumber(n: Num, places: nat, answerformat: int) returns (shown: Shown)
    ensures Formats(n, places, answerformat, shown)
  {
    if answerformat == 1 {
      return Decimals(n, places);
    }
    match n
    case NaN =>
      shown := Plain(false, NaN, Some(places + 2));
    case Inf(_) =>
      shown := Unending;
    case Real(x) =>
      if x == 0.0 {
        shown := Zero;
      } else {
        var negative := x < 0.0;
        var a := if negative then -x else x;
        var m, p10 := Normalise(a);
        assert m == a / Exp10(p10);
        var (r, q) := Rounded(m, p10, places);
        shown := Layout(negative, r, q, places);
        assert shown == SignificantFigures(x, p10, places);
        assert NormalForm(Magnitude(x), Magnitude(x) / Exp10(p10), p10);
      }
  }

  /** `qtype_randomdata_calculate_answer` up to the tolerance interval: a
      result that is not numeric is `NAN` with no unit; a numeric one is
      laid out as `Formats` says, followed by the unit. */
  method CalculateAnswer(host: Host, formula: string, ds: Dataset, answerlength: nat, answerformat: int, unit: string)
    returns (d: Display)
    ensures var a := SubstituteAndEval(host, formula, ds);
            (!IsNumber(a) ==> d == Display(NotANumber, "")) &&
            (IsNumber(a) ==> d.suffix == Suffix(unit) && Formats(a.n, answerlength, answerformat, d.shown))
  {
    var answer := SubstituteAndEval(host, formula, ds);
    if !answer.Computed? {
      return Display(NotANumber, "");
    }
    var shown := FormatNumber(answer.n, answerlength, answerformat);
    d := Display(shown, if unit != "" then " " + unit else "");
  }

  /** 1234.5 to three significant figures is the plain 1230, which needs
      no padding; -0.000123 to two is -1.2e-4. */
  lemma SignificantExamples()
    ensures SignificantFigures(1234.5, 4, 3) == Plain(false, Real(1230.0), None)
    ensures NormalForm(1234.5, 1234.5 / Exp10(4), 4)
    ensures SignificantFigures(-0.000123, -3, 2) == Scientific(true, 1.2, -4, 2)
    ensures NormalForm(0.000123, 0.000123 / Exp10(-3), -3)
  {
    assert Exp10(4) == 10000.0;
    assert Scale(3) == 1000.0;
    assert (0.12345 * 1000.0 + 0.5).Floor == 123;
    assert Exp10(-3) == 0.001;
    assert Scale(2) == 100.0;
    assert (0.123 * 100.0 + 0.5).Floor == 12;
  }
}
