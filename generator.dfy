/** `generate_data_with_distribution`: for each evaluation slot, one
    assignment of every wildcard per distribution (uniform, log-uniform,
    normal, triangle), redrawn until the validation rules accept it or 30
    attempts have been made. The random source is a finite sequence of
    draws from [0, 1]; running out of draws is reported as an error. */
module Generator {
  import opened Wrappers
  import opened Assoc
  import opened DatasetOptions
  import opened Rounding
  import opened Substitution
  import opened Definitions

  datatype Kind = UniformKind | LogUniformKind | NormalKind | TriangleKind

  /** Why generation stops: options the pattern refuses (the source returns
      `false`), a bound or precision PHP cannot use as a number, a division
      by zero, a validation rule that aborts the request, or the end of the
      draws. */
  datatype GenError = BadOptions(key: string) | NotNumeric(text: string) | DivisionByZero
                    | CheckAborted(answer: Answer) | OutOfDraws

  /** The PHP runtime the samplers depend on: numeric-string conversion,
      `exp(log|min| + (log|max| - log|min|) * u)`, and the Box-Muller
      value `sqrt(-2 log u1) * cos(2 pi u2)`. */
  datatype Sampler = Sampler(number: string -> Option<real>, logUniform: (real, real, real) -> Num,
                             gauss: (real, real) -> Num)

  /** The numbers of a definition's options: the range and the number of
      decimals. */
  datatype Bounds = Bounds(lo: real, hi: real, places: nat)

  /** The value of a string of decimal digits. */
  function DigitsValue(s: string): nat
    requires IsDigits(s)
    decreases |s|
  {
    if s == [] then 0
    else
      assert IsDigits(s[..|s| - 1]) by {
        assert forall i :: 0 <= i < |s| - 1 ==> s[..|s| - 1][i] == s[i];
      }
      10 * DigitsValue(s[..|s| - 1]) + (s[|s| - 1] as int - '0' as int)
  }

  /** The options of definition `key` read by the pattern and turned into
      numbers. */
  function BoundsOf(src: Sampler, key: string, options: string): (r: Result<Bounds, GenError>)
    ensures Parse(options).None? ==> r == Failure(BadOptions(key))
  {
    match Parse(options)
    case None => Failure(BadOptions(key))
    case Some(o) =>
      ParseThenPack(options);
      match (src.number(o.min), src.number(o.max))
      case (Some(lo), Some(hi)) =>
        if o.decimals == "" then Failure(NotNumeric(o.decimals)) else Success(Bounds(lo, hi, DigitsValue(o.decimals)))
      case (None, _) => Failure(NotNumeric(o.min))
      case (_, None) => Failure(NotNumeric(o.max))
  }

  /** `round` of a PHP float: infinities and NaN are left as they are. */
  function RoundNum(n: Num, places: nat): Num
  {
    match n
    case Real(x) => Real(RoundTo(x, places))
    case _ => n
  }

  /** A PHP float plus a real number. */
  function AddReal(n: Num, r: real): Num
  {
    match n
    case Real(x) => Real(x + r)
    case _ => n
  }

  /** `$v > $min && $v < $max`. */
  predicate Inside(n: Num, b: Bounds)
  {
    n.Real? && b.lo < n.x < b.hi
  }

  /** A value and the position of the next unused draw. */
  datatype Sample = Sample(value: Num, next: nat)

  function UniformValue(b: Bounds, u: real): real
  {
    RoundTo(Lerp(b.lo, b.hi, u), b.places)
  }

  /** `min + (max - min) * u`. */
  function Lerp(lo: real, hi: real, u: real): real
  {
    lo + (hi - lo) * u
  }

  // ---------------------------------------------------------------------
  // The normal sampler's inner loop

  /** Box-Muller values around the middle of the range, rounded, until one
      is strictly inside the range. */
  function NormalFrom(src: Sampler, b: Bounds, draws: seq<real>, pos: nat): (r: Result<Sample, GenError>)
    ensures r.Success? ==> Inside(r.value.value, b) && pos + 2 <= r.value.next <= |draws|
    decreases |draws| - pos
  {
    if pos + 2 > |draws| then Failure(OutOfDraws)
    else
      var v := RoundNum(AddReal(src.gauss(draws[pos], draws[pos + 1]), (b.hi + b.lo) / 2.0), b.places);
      if Inside(v, b) then Success(Sample(v, pos + 2)) else NormalFrom(src, b, draws, pos + 2)
  }

  method SampleNormal(src: Sampler, b: Bounds, draws: seq<real>, pos: nat) returns (r: Result<Sample, GenError>)
    ensures r == NormalFrom(src, b, draws, pos)
  {
    var p := pos;
    while true
      invariant pos <= p
      invariant NormalFrom(src, b, draws, p) == NormalFrom(src, b, draws, pos)
      decreases |draws| - p
    {
      if p + 2 > |draws| {
        return Failure(OutOfDraws);
      }
      var v := RoundNum(AddReal(src.gauss(draws[p], draws[p + 1]), (b.hi + b.lo) / 2.0), b.places);
      if Inside(v, b) {
        return Success(Sample(v, p + 2));
      }
      p := p + 2;
    }
  }

  // ---------------------------------------------------------------------
  // The triangle sampler's inner loop

  /** One pass of the triangle loop as written on `x = max * u`: the
      three branches on `x` against `min`, the midpoint `trend` and `max`;
      when no branch applies the previous value stays. The source's
      fractions carry a common factor `max - min`, cancelled here, which is
      non-zero in the first and third branches; in the second it is a
      division by `max - min` itself. */
  function TriangleStepAsWritten(b: Bounds, x: real, prev: real): Result<real, GenError>
  {
    var trend := (b.hi + b.lo) / 2.0;
    if b.lo <= x < trend then Success(b.lo + 2.0 * (x - b.lo) / (trend - b.lo))
    else if x == trend then
      if b.hi - b.lo == 0.0 then Failure(DivisionByZero) else Success(b.lo + 2.0)
    else if trend < x <= b.hi then Success(b.lo + 2.0 * (b.hi - x) / (b.hi - trend))
    else Success(prev)
  }

  /** One pass of the triangle loop as written, on a draw `u`. */
  function TrianglePass(b: Bounds, u: real, prev: real): (r: Result<real, GenError>)
    ensures prev <= b.lo + 2.0 && r.Success? ==> r.value <= b.lo + 2.0
  {
    TriangleStepNarrow(b, b.hi * u, prev);
    TriangleStepAsWritten(b, b.hi * u, prev)
  }

  function TriangleStep(b: Bounds): (real, real) -> Result<real, GenError>
  {
    (u: real, prev: real) => TrianglePass(b, u, prev)
  }

  /** A loop of passes `step` from `prev`: until the value is strictly
      between `lo` and `hi`. */
  function PassesUntilInside(step: (real, real) -> Result<real, GenError>, lo: real, hi: real, draws: seq<real>,
                             pos: nat, prev: real): (r: Result<(real, nat), GenError>)
    ensures r.Success? ==> lo < r.value.0 < hi && pos < r.value.1 <= |draws|
    decreases |draws| - pos
  {
    if pos >= |draws| then Failure(OutOfDraws)
    else
      match step(draws[pos], prev)
      case Failure(e) => Failure(e)
      case Success(t) =>
        if lo < t < hi then Success((t, pos + 1)) else PassesUntilInside(step, lo, hi, draws, pos + 1, t)
  }

  /** The triangle loop as written, from `prev` (0 before the first pass):
      passes until the value is strictly inside the range; the unrounded
      value is returned. */
  function TriangleFromAsWritten(b: Bounds, draws: seq<real>, pos: nat, prev: real): (r: Result<(real, nat), GenError>)
    ensures r.Success? ==> b.lo < r.value.0 < b.hi && pos < r.value.1 <= |draws|
  {
    PassesUntilInside(TriangleStep(b), b.lo, b.hi, draws, pos, prev)
  }

  lemma FracLe(num: real, den: real, c: real)
    requires den > 0.0 && num <= c * den
    ensures num / den <= c
  {
    assert (c - num / den) * den == c * den - num;
  }

  /** Each branch computes `min + (max - min) * f(x)` with `f` the density
      of the triangular distribution, which is at most `2 / (max - min)`:
      no branch gives more than `min + 2`. */
  lemma TriangleStepNarrow(b: Bounds, x: real, prev: real)
    ensures var r := TriangleStepAsWritten(b, x, prev);
            prev <= b.lo + 2.0 && r.Success? ==> r.value <= b.lo + 2.0
  {
    var trend := (b.hi + b.lo) / 2.0;
    if b.lo <= x < trend {
      FracLe(2.0 * (x - b.lo), trend - b.lo, 2.0);
    } else if x == trend {
    } else if trend < x <= b.hi {
      FracLe(2.0 * (b.hi - x), b.hi - trend, 2.0);
    }
  }

  /** Passes that never go above `c` from a value at most `c` end at most
      at `c`. */
  lemma {:induction false} PassesStayBelow(step: (real, real) -> Result<real, GenError>, lo: real, hi: real, c: real,
                                           draws: seq<real>, pos: nat, prev: real)
    requires prev <= c
    requires forall u: real, p: real :: p <= c && step(u, p).Success? ==> step(u, p).value <= c
    requires PassesUntilInside(step, lo, hi, draws, pos, prev).Success?
    ensures PassesUntilInside(step, lo, hi, draws, pos, prev).value.0 <= c
    decreases |draws| - pos
  {
    var u := draws[pos];
    assert step(u, prev).Success?;
    assert step(u, prev).value <= c;
    var t := step(u, prev).value;
    if !(lo < t < hi) {
      PassesStayBelow(step, lo, hi, c, draws, pos + 1, t);
    }
  }

  /** As written, the triangle sampler never yields a value above
      `min + 2`, whatever the range, when it starts at most there (its
      initial 0 is, for `min >= -2`). */
  lemma TriangleAsWrittenNarrow(b: Bounds, draws: seq<real>, pos: nat, prev: real)
    requires prev <= b.lo + 2.0
    requires TriangleFromAsWritten(b, draws, pos, prev).Success?
    ensures TriangleFromAsWritten(b, draws, pos, prev).value.0 <= b.lo + 2.0
  {
    forall u: real, p: real | p <= b.lo + 2.0 && TriangleStep(b)(u, p).Success?
      ensures TriangleStep(b)(u, p).value <= b.lo + 2.0
    {
      assert TriangleStep(b)(u, p) == TrianglePass(b, u, p);
    }
    PassesStayBelow(TriangleStep(b), b.lo, b.hi, b.lo + 2.0, draws, pos, prev);
  }

  /** On the range 0 to 10 the middle value 5 is never produced. */
  lemma TriangleAsWrittenMissesMiddle(draws: seq<real>)
    requires TriangleFromAsWritten(Bounds(0.0, 10.0, 0), draws, 0, 0.0).Success?
    ensures TriangleFromAsWritten(Bounds(0.0, 10.0, 0), draws, 0, 0.0).value.0 < 5.0
  {
    TriangleAsWrittenNarrow(Bounds(0.0, 10.0, 0), draws, 0, 0.0);
  }

  /** A triangular value with its mode at the midpoint: the mean of two
      uniform values on the range. */
  function TriangleValue(b: Bounds, u1: real, u2: real): real
  {
    Lerp(b.lo, b.hi, (u1 + u2) / 2.0)
  }

  /** The triangle loop, corrected: values until one is strictly inside
      the range; the unrounded value is returned. */
  function TriangleFrom(b: Bounds, draws: seq<real>, pos: nat): (r: Result<(real, nat), GenError>)
    ensures r.Success? ==> b.lo < r.value.0 < b.hi && pos + 2 <= r.value.1 <= |draws|
    decreases |draws| - pos
  {
    if pos + 2 > |draws| then Failure(OutOfDraws)
    else
      var t := TriangleValue(b, draws[pos], draws[pos + 1]);
      if b.lo < t < b.hi then Success((t, pos + 2)) else TriangleFrom(b, draws, pos + 2)
  }

  /** Draws from [0, 1] give triangular values within the range. */
  lemma TriangleValueInRange(b: Bounds, u1: real, u2: real)
    requires b.lo <= b.hi && 0.0 <= u1 <= 1.0 && 0.0 <= u2 <= 1.0
    ensures b.lo <= TriangleValue(b, u1, u2) <= b.hi
  {
    Between(b.lo, b.hi, (u1 + u2) / 2.0);
  }

  /** Every value strictly inside the range is produced by some pair of
      draws, and accepted at once. */
  lemma TriangleReachesAll(b: Bounds, t: real)
    requires b.lo < t < b.hi
    ensures var c := (t - b.lo) / (b.hi - b.lo);
            0.0 < c < 1.0 && TriangleFrom(b, [c, c], 0) == Success((t, 2))
  {
    var d := b.hi - b.lo;
    var c := (t - b.lo) / d;
    assert c * d == t - b.lo;
    assert 0.0 < c < 1.0 by {
      FracLe(t - b.lo, d, 1.0);
      assert c != 1.0;
      assert c > 0.0 by {
        assert c * d > 0.0;
      }
    }
    assert TriangleValue(b, c, c) == t by {
      assert (c + c) / 2.0 == c;
      assert Lerp(b.lo, b.hi, c) == b.lo + d * c;
    }
    var draws := [c, c];
    assert TriangleValue(b, draws[0], draws[1]) == t;
    assert TriangleFrom(b, draws, 0) == Success((t, 2));
  }

  method SampleTriangle(b: Bounds, draws: seq<real>, pos: nat) returns (r: Result<(real, nat), GenError>)
    ensures r == TriangleFrom(b, draws, pos)
  {
    var p := pos;
    while true
      invariant pos <= p
      invariant TriangleFrom(b, draws, p) == TriangleFrom(b, draws, pos)
      decreases |draws| - p
    {
      if p + 2 > |draws| {
        return Failure(OutOfDraws);
      }
      var t := TriangleValue(b, draws[p], draws[p + 1]);
      if b.lo < t && t < b.hi {
        return Success((t, p + 2));
      }
      p := p + 2;
    }
  }

  // ---------------------------------------------------------------------
  // One value, one assignment

  /** The value of one definition under one distribution. */
  function DrawOne(src: Sampler, kind: Kind, b: Bounds, draws: seq<real>, pos: nat): (r: Result<Sample, GenError>)
    ensures r.Success? ==> pos < r.value.next <= |draws|
  {
    match kind
    case UniformKind =>
      if pos >= |draws| then Failure(OutOfDraws) else Success(Sample(Real(UniformValue(b, draws[pos])), pos + 1))
    case LogUniformKind =>
      if pos >= |draws| then Failure(OutOfDraws)
      else Success(Sample(RoundNum(src.logUniform(b.lo, b.hi, draws[pos]), b.places), pos + 1))
    case NormalKind => NormalFrom(src, b, draws, pos)
    case TriangleKind =>
      match TriangleFrom(b, draws, pos)
      case Failure(e) => Failure(e)
      case Success((t, next)) => Success(Sample(Real(RoundTo(t, b.places)), next))
  }

  lemma Between(lo: real, hi: real, u: real)
    requires lo <= hi && 0.0 <= u <= 1.0
    ensures lo <= Lerp(lo, hi, u) <= hi
  {
    MulLe(0.0, u, hi - lo);
    MulLe(u, 1.0, hi - lo);
  }

  /** Rounding a number between two multiples of the step keeps it
      between them. */
  lemma RoundBetween(lo: real, x: real, hi: real, places: nat)
    requires lo <= x <= hi && OnGrid(lo, places) && OnGrid(hi, places)
    ensures lo <= RoundTo(x, places) <= hi
  {
    RoundMonotone(lo, x, places);
    RoundMonotone(x, hi, places);
    RoundOnGrid(lo, places);
    RoundOnGrid(hi, places);
  }

  /** A uniform value lies within the range when both ends are multiples
      of the rounding step. */
  lemma UniformWithinBounds(b: Bounds, u: real)
    requires b.lo <= b.hi && 0.0 <= u <= 1.0
    requires OnGrid(b.lo, b.places) && OnGrid(b.hi, b.places)
    ensures b.lo <= UniformValue(b, u) <= b.hi
  {
    var x := Lerp(b.lo, b.hi, u);
    Between(b.lo, b.hi, u);
    RoundBetween(b.lo, x, b.hi, b.places);
  }

  /** A range whose ends are not on the rounding step can give a value
      outside it: 0.04 to 0.06 with one decimal gives 0 for the draw 0. */
  lemma UniformMayLeaveBounds()
    ensures UniformValue(Bounds(0.04, 0.06, 1), 0.0) == 0.0
  {
    assert Scale(1) == 10.0;
    assert (0.04 * 10.0 + 0.5).Floor == 0;
  }

  /** The stored value of an accepted triangle draw, rounded after the
      check, is within the rounded range; it may equal `min` itself. */
  lemma TriangleStoredInRange(b: Bounds, draws: seq<real>, pos: nat)
    requires TriangleFrom(b, draws, pos).Success?
    requires OnGrid(b.lo, b.places) && OnGrid(b.hi, b.places)
    ensures var v := RoundTo(TriangleFrom(b, draws, pos).value.0, b.places);
            b.lo <= v <= b.hi
  {
    var t := TriangleFrom(b, draws, pos).value.0;
    RoundMonotone(b.lo, t, b.places);
    RoundMonotone(t, b.hi, b.places);
    RoundOnGrid(b.lo, b.places);
    RoundOnGrid(b.hi, b.places);
  }

  lemma TriangleStoredAtMin()
    ensures RoundTo(TriangleValue(Bounds(0.0, 10.0, 0), 0.02, 0.02), 0) == 0.0
    ensures TriangleFrom(Bounds(0.0, 10.0, 0), [0.02, 0.02], 0) == Success((0.2, 2))
  {
    assert TriangleValue(Bounds(0.0, 10.0, 0), 0.02, 0.02) == 0.2;
    assert Scale(0) == 1.0;
    assert (0.2 * 1.0 + 0.5).Floor == 0;
  }

  /** The values of every definition, in order, under one distribution;
      each definition's options are read first. */
  function DrawAll(src: Sampler, kind: Kind, defs: Entries<string, Definition>, draws: seq<real>, pos: nat): (r: Result<(seq<Num>, nat), GenError>)
    ensures r.Success? ==> |r.value.0| == |defs| && pos <= r.value.1
    decreases |defs|
  {
    if defs == [] then Success(([], pos))
    else
      match BoundsOf(src, defs[0].0, defs[0].1.options)
      case Failure(e) => Failure(e)
      case Success(b) =>
        match DrawOne(src, kind, b, draws, pos)
        case Failure(e) => Failure(e)
        case Success(one) =>
          match DrawAll(src, kind, defs[1..], draws, one.next)
          case Failure(e) => Failure(e)
          case Success((vs, next)) => Success(([one.value] + vs, next))
  }

  /** Values before an outcome. */
  function Prepend(vs: seq<Num>, r: Result<(seq<Num>, nat), GenError>): Result<(seq<Num>, nat), GenError>
  {
    match r
    case Failure(e) => Failure(e)
    case Success((ws, next)) => Success((vs + ws, next))
  }

  lemma PrependNil(r: Result<(seq<Num>, nat), GenError>)
    ensures Prepend([], r) == r
  {
    match r {
      case Failure(_) =>
      case Success((ws, _)) =>
        assert [] + ws == ws;
    }
  }

  lemma PrependTwice(vs: seq<Num>, us: seq<Num>, r: Result<(seq<Num>, nat), GenError>)
    ensures Prepend(vs, Prepend(us, r)) == Prepend(vs + us, r)
  {
    match r {
      case Failure(_) =>
      case Success((ws, _)) =>
        assert vs + (us + ws) == (vs + us) + ws;
    }
  }

  /** The draw of definitions `k` onwards: definition `k` first, then the
      rest from the next unused draw. */
  lemma DrawAllStep(src: Sampler, kind: Kind, defs: Entries<string, Definition>, draws: seq<real>, k: nat, p: nat)
    requires k < |defs|
    ensures var bounds := BoundsOf(src, defs[k].0, defs[k].1.options);
            DrawAll(src, kind, defs[k..], draws, p) ==
            if bounds.Failure? then Failure(bounds.error)
            else
              var one := DrawOne(src, kind, bounds.value, draws, p);
              if one.Failure? then Failure(one.error)
              else Prepend([one.value.value], DrawAll(src, kind, defs[k + 1..], draws, one.value.next))
  {
    assert defs[k..][0] == defs[k] && defs[k..][1..] == defs[k + 1..];
  }

  method SampleOne(src: Sampler, kind: Kind, b: Bounds, draws: seq<real>, pos: nat) returns (r: Result<Sample, GenError>)
    ensures r == DrawOne(src, kind, b, draws, pos)
  {
    match kind
    case UniformKind =>
      if pos >= |draws| {
        return Failure(OutOfDraws);
      }
      return Success(Sample(Real(UniformValue(b, draws[pos])), pos + 1));
    case LogUniformKind =>
      if pos >= |draws| {
        return Failure(OutOfDraws);
      }
      return Success(Sample(RoundNum(src.logUniform(b.lo, b.hi, draws[pos]), b.places), pos + 1));
    case NormalKind =>
      r := SampleNormal(src, b, draws, pos);
    case TriangleKind =>
      var t := SampleTriangle(b, draws, pos);
      match t
      case Failure(e) =>
        return Failure(e);
      case Success((v, next)) =>
        return Success(Sample(Real(RoundTo(v, b.places)), next));
  }

  /** The `foreach` over the definitions inside one attempt. */
  method DrawDefinitions(src: Sampler, kind: Kind, defs: Entries<string, Definition>, draws: seq<real>, pos: nat)
    returns (r: Result<(seq<Num>, nat), GenError>)
    ensures r == DrawAll(src, kind, defs, draws, pos)
  {
    var values: seq<Num> := [];
    var p := pos;
    var k := 0;
    ghost var goal := DrawAll(src, kind, defs, draws, pos);
    assert defs[0..] == defs;
    PrependNil(goal);
    while k < |defs|
      invariant 0 <= k <= |defs|
      invariant goal == Prepend(values, DrawAll(src, kind, defs[k..], draws, p))
      decreases |defs| - k
    {
      var bounds := BoundsOf(src, defs[k].0, defs[k].1.options);
      if bounds.Failure? {
        DrawAllStep(src, kind, defs, draws, k, p);
        return Failure(bounds.error);
      }
      var one := SampleOne(src, kind, bounds.value, draws, p);
      DrawAllStep(src, kind, defs, draws, k, p);
      if one.Failure? {
        return Failure(one.error);
      }
      PrependTwice(values, [one.value.value], DrawAll(src, kind, defs[k + 1..], draws, one.value.next));
      values := values + [one.value.value];
      p := one.value.next;
      k := k + 1;
    }
    assert defs[k..] == [] && values + [] == values;
    return Success((values, p));
  }

  // ---------------------------------------------------------------------
  // The dataset of one attempt

  /** The definition at `i` is the last one whose key yields its name. */
  predicate LastOfName(defs: Entries<string, Definition>, i: nat)
    requires i < |defs|
  {
    forall j :: i < j < |defs| ==> NameOfKeyAsWritten(defs[j].0) != NameOfKeyAsWritten(defs[i].0)
  }

  /** The dataset the rules and the answers see: `{name} => value`, the name
      read from the definition key as `explode("-", $key)[2]`, so a later
      definition with the same name replaces an earlier one. Values past the
      last definition are ignored. */
  function SlotDataset(defs: Entries<string, Definition>, values: seq<Num>): (ds: Dataset)
    ensures UniqueKeys(ds)
    decreases |defs|
  {
    if defs == [] || |values| < |defs| then []
    else
      var n := |defs| - 1;
      var init := SlotDataset(defs[..n], values[..n]);
      PutUnique(init, NameOfKeyAsWritten(defs[n].0), Float(values[n]));
      Put(init, NameOfKeyAsWritten(defs[n].0), Float(values[n]))
  }

  /** Each wildcard holds the value drawn for the last definition whose key
      yields its name. */
  lemma {:induction false} SlotDatasetValues(defs: Entries<string, Definition>, values: seq<Num>, i: nat)
    requires |values| >= |defs| && i < |defs| && LastOfName(defs, i)
    ensures Get(SlotDataset(defs, values), NameOfKeyAsWritten(defs[i].0)) == Some(Float(values[i]))
    decreases |defs|
  {
    var n := |defs| - 1;
    var init := SlotDataset(defs[..n], values[..n]);
    var name := NameOfKeyAsWritten(defs[n].0);
    assert SlotDataset(defs, values) == Put(init, name, Float(values[n]));
    if i == n {
      PutGetSame(init, name, Float(values[n]));
    } else {
      assert defs[..n][i] == defs[i] && values[..n][i] == values[i];
      assert LastOfName(defs[..n], i);
      SlotDatasetValues(defs[..n], values[..n], i);
      PutGetOther(init, name, Float(values[n]), NameOfKeyAsWritten(defs[i].0));
    }
  }

  /** Every wildcard of the dataset is the name of some definition. */
  lemma {:induction false} SlotDatasetNames(defs: Entries<string, Definition>, values: seq<Num>, k: string)
    requires HasKey(SlotDataset(defs, values), k)
    ensures exists i :: 0 <= i < |defs| && NameOfKeyAsWritten(defs[i].0) == k
    decreases |defs|
  {
    var n := |defs| - 1;
    var init := SlotDataset(defs[..n], values[..n]);
    var name := NameOfKeyAsWritten(defs[n].0);
    assert SlotDataset(defs, values) == Put(init, name, Float(values[n]));
    if k != name {
      PutGetOther(init, name, Float(values[n]), k);
      SlotDatasetNames(defs[..n], values[..n], k);
      var i :| 0 <= i < n && NameOfKeyAsWritten(defs[..n][i].0) == k;
      assert defs[..n][i] == defs[i];
    }
  }
}
