/** `comparation_results_distributions`: every full-credit answer is
    evaluated on the slots of each distribution; four dispersion
    statistics per answer award one point each, and the distribution with
    the most points is selected. Its results are then stored, one row per
    slot. */
module Selector {
  import opened Wrappers
  import opened Assoc
  import opened Substitution
  import opened Definitions
  import opened Generator
  import opened Attempts

  /** A distribution's place in the order Uniform, Log-Uniform, Normal,
      Triangle, which is also the order of every tie-break. */
  type Dist = k: int | 0 <= k < 4

  /** One value per distribution. */
  datatype Four<T> = Four(uniform: T, loguniform: T, normal: T, triangle: T) {
    function At(k: Dist): T
    {
      if k == 0 then uniform else if k == 1 then loguniform else if k == 2 then normal else triangle
    }
  }

  function KindOf(k: Dist): Kind
  {
    if k == 0 then UniformKind else if k == 1 then LogUniformKind else if k == 2 then NormalKind else TriangleKind
  }

  /** The name stored with the results. */
  function Label(k: Dist): string
  {
    if k == 0 then "Uniform" else if k == 1 then "Log-Uniform" else if k == 2 then "Normal" else "Triangle"
  }

  function TableOf(t: Tables, k: Dist): seq<seq<Num>>
  {
    if k == 0 then t.uniform else if k == 1 then t.loguniform else if k == 2 then t.normal else t.triangle
  }

  // ---------------------------------------------------------------------
  // The results of the answers

  /** The texts of the answers graded 100%, in order. */
  function FullCredit(answers: seq<AnswerRow>): (r: seq<string>)
    ensures |r| <= |answers|
    ensures forall i :: 0 <= i < |answers| && answers[i].fraction == 1.0 ==> answers[i].text in r
    ensures forall t :: t in r ==> exists i :: 0 <= i < |answers| && answers[i] == AnswerRow(t, 1.0)
    decreases |answers|
  {
    if answers == [] then []
    else
      var rest := FullCredit(answers[1..]);
      assert forall i :: 0 < i < |answers| ==> answers[i] == answers[1..][i - 1];
      (if answers[0].fraction == 1.0 then [answers[0].text] else []) + rest
  }

  /** One answer on every slot of one distribution's table. */
  function Results(host: Host, formula: string, defs: Entries<string, Definition>, table: seq<seq<Num>>): seq<Answer>
  {
    seq(|table|, j requires 0 <= j < |table| => SubstituteAndEval(host, formula, SlotDataset(defs, table[j])))
  }

  function ResultsOf(host: Host, formula: string, defs: Entries<string, Definition>, t: Tables): Four<seq<Answer>>
  {
    Four(Results(host, formula, defs, t.uniform), Results(host, formula, defs, t.loguniform),
         Results(host, formula, defs, t.normal), Results(host, formula, defs, t.triangle))
  }

  /** The results of every full-credit answer. The source fills them only
      inside its loop over the slots of the first wildcard, so there are
      none without wildcards or without slots. */
  function AllResults(host: Host, formulas: seq<string>, defs: Entries<string, Definition>, t: Tables): seq<Four<seq<Answer>>>
  {
    if |defs| == 0 || |t.uniform| == 0 then []
    else seq(|formulas|, i requires 0 <= i < |formulas| => ResultsOf(host, formulas[i], defs, t))
  }

  // ---------------------------------------------------------------------
  // Statistics

  datatype Stats = Stats(range: real, variance: real, deviation: real, coefficient: real)

  /** The statistics a disqualified distribution is given. */
  const NoStats := Stats(0.0, 0.0, 0.0, 0.0)

  /** PHP's arithmetic where the model leaves it open: `sqrt`, and the
      statistics of results holding an infinity or NAN. Their sums are
      infinite or NAN, so the division by the mean never fails on them. */
  datatype Arith = Arith(sqrt: real -> real, other: seq<Answer> -> Stats)

  /** Why the comparison aborts: a string among the results, which PHP 8
      refuses in `-` and `+=`; a division by a zero mean; or `min` of no
      results at all (a table with fewer slots than the first one). */
  datatype SelectError = NonNumeric | ZeroMean | NoResults

  /** `$a === array_filter($a, 'is_numeric')`. */
  predicate AllNumeric(a: seq<Answer>)
  {
    forall i :: 0 <= i < |a| ==> IsNumber(a[i])
  }

  /** Some result is a string: a message, `''` or `'*'`. */
  predicate HasText(a: seq<Answer>)
  {
    exists i :: 0 <= i < |a| && IsText(a[i])
  }

  /** A result PHP's arithmetic turns into a real: a finite number, or a
      boolean, which counts as 0 or 1. */
  predicate IsFinite(e: Answer)
  {
    (e.Computed? && e.n.Real?) || e.Logical?
  }

  predicate AllFinite(a: seq<Answer>)
  {
    forall i :: 0 <= i < |a| ==> IsFinite(a[i])
  }

  function ValueOf(e: Answer): real
    requires IsFinite(e)
  {
    if e.Logical? then (if e.b then 1.0 else 0.0) else e.n.x
  }

  function Reals(a: seq<Answer>): (xs: seq<real>)
    requires AllFinite(a)
    ensures |xs| == |a| && forall i :: 0 <= i < |a| ==> xs[i] == ValueOf(a[i])
  {
    seq(|a|, i requires 0 <= i < |a| => ValueOf(a[i]))
  }

  function Sum(xs: seq<real>): real
    decreases |xs|
  {
    if xs == [] then 0.0 else xs[0] + Sum(xs[1..])
  }

  /** `(bool)` of such a result. */
  predicate IsTrue(e: Answer)
    requires IsFinite(e)
  {
    if e.Logical? then e.b else e.n.x != 0.0
  }

  /** PHP 8's `$a < $b` on two such results: as booleans when either one
      is a boolean, as numbers otherwise. */
  predicate Below(a: Answer, b: Answer)
    requires IsFinite(a) && IsFinite(b)
  {
    if a.Logical? || b.Logical? then !IsTrue(a) && IsTrue(b) else a.n.x < b.n.x
  }

  /** `max` of the results: PHP keeps the first one and takes each later
      one that the kept one is below. On numbers alone it is the largest. */
  function PhpMax(a: seq<Answer>): (m: Answer)
    requires |a| > 0 && AllFinite(a)
    ensures m in a
    ensures AllNumeric(a) ==> forall i :: 0 <= i < |a| ==> a[i].n.x <= m.n.x
    decreases |a|
  {
    if |a| == 1 then a[0]
    else
      var init := a[..|a| - 1];
      var m := PhpMax(init);
      assert forall i :: 0 <= i < |a| - 1 ==> a[i] == init[i];
      if Below(m, a[|a| - 1]) then a[|a| - 1] else m
  }

  /** `min` of the results: each later result below the kept one is taken.
      On numbers alone it is the smallest. */
  function PhpMin(a: seq<Answer>): (m: Answer)
    requires |a| > 0 && AllFinite(a)
    ensures m in a
    ensures AllNumeric(a) ==> forall i :: 0 <= i < |a| ==> m.n.x <= a[i].n.x
    decreases |a|
  {
    if |a| == 1 then a[0]
    else
      var init := a[..|a| - 1];
      var m := PhpMin(init);
      assert forall i :: 0 <= i < |a| - 1 ==> a[i] == init[i];
      if Below(a[|a| - 1], m) then a[|a| - 1] else m
  }

  lemma Square(d: real)
    ensures d * d >= 0.0
  {
    if d < 0.0 {
      assert d * d == (-d) * (-d);
    }
  }

  /** `$sum2`: the sum of the squared deviations from `m`; never negative,
      and zero when every value is `m`. */
  function SquaredDeviations(xs: seq<real>, m: real): (r: real)
    ensures r >= 0.0
    ensures (forall i :: 0 <= i < |xs| ==> xs[i] == m) ==> r == 0.0
    decreases |xs|
  {
    if xs == [] then 0.0
    else
      var rest := SquaredDeviations(xs[1..], m);
      assert (forall i :: 0 <= i < |xs| ==> xs[i] == m) ==> forall i :: 0 <= i < |xs| - 1 ==> xs[1..][i] == m;
      Square(xs[0] - m);
      (xs[0] - m) * (xs[0] - m) + rest
  }

  /** Distribution `k`'s statistics enter the comparison: its results are
      all numbers, or no other distribution's are. */
  predicate Qualified(r: Four<seq<Answer>>, k: Dist)
  {
    AllNumeric(r.At(k)) || forall j: Dist :: j != k ==> !AllNumeric(r.At(j))
  }

  function Qualifications(r: Four<seq<Answer>>): Four<bool>
  {
    Four(Qualified(r, 0), Qualified(r, 1), Qualified(r, 2), Qualified(r, 3))
  }

  /** The four statistics of distribution `k` for one answer. The sums come
      first, so a string among the results aborts before anything else; a
      distribution that is not qualified then gets `NoStats`. A qualified
      one gets the range, the variance (the mean squared deviation), its
      square root and the coefficient of variation, whose division by the
      mean aborts when the mean is zero. */
  function Statistics(ar: Arith, r: Four<seq<Answer>>, k: Dist): Result<Stats, SelectError>
  {
    var a := r.At(k);
    if |a| == 0 then Failure(NoResults)
    else if HasText(a) then Failure(NonNumeric)
    else if !Qualified(r, k) then Success(NoStats)
    else if !AllFinite(a) then Success(ar.other(a))
    else
      var xs := Reals(a);
      var n := |xs| as real;
      var mean := Sum(xs) / n;
      var variance := SquaredDeviations(xs, mean) / n;
      if mean == 0.0 then Failure(ZeroMean)
      else Success(Stats(ValueOf(PhpMax(a)) - ValueOf(PhpMin(a)), variance, ar.sqrt(variance), ar.sqrt(variance) / mean))
  }

  /** On finite numbers the range and the variance are never negative,
      and the only abort is a zero mean. */
  lemma FiniteStatistics(ar: Arith, r: Four<seq<Answer>>, k: Dist)
    requires |r.At(k)| > 0 && AllNumeric(r.At(k)) && AllFinite(r.At(k))
    ensures var xs := Reals(r.At(k));
            Statistics(ar, r, k).Failure? <==> Sum(xs) / (|xs| as real) == 0.0
    ensures Statistics(ar, r, k).Success? ==>
              var s := Statistics(ar, r, k).value;
              s.range >= 0.0 && s.variance >= 0.0 && s.deviation == ar.sqrt(s.variance)
  {
    var a := r.At(k);
    assert !HasText(a) by {
      forall i | 0 <= i < |a|
        ensures !IsText(a[i])
      {
        assert IsNumber(a[i]);
      }
    }
    var xs := Reals(a);
    var n := |xs| as real;
    var mean := Sum(xs) / n;
    var sd := SquaredDeviations(xs, mean);
    Quotient(sd, n);
    var hi := PhpMax(a);
    var lo := PhpMin(a);
    assert lo.n.x <= a[0].n.x <= hi.n.x;
  }

  /** Results that are all the same number `c` have no range and no
      variance; they abort when `c` is zero. */
  lemma ConstantStatistics(ar: Arith, r: Four<seq<Answer>>, k: Dist, c: real)
    requires |r.At(k)| > 0 && forall i :: 0 <= i < |r.At(k)| ==> r.At(k)[i] == Computed(Real(c))
    ensures c == 0.0 ==> Statistics(ar, r, k) == Failure(ZeroMean)
    ensures c != 0.0 ==> Statistics(ar, r, k) == Success(Stats(0.0, 0.0, ar.sqrt(0.0), ar.sqrt(0.0) / c))
  {
    var a := r.At(k);
    assert AllNumeric(a) && AllFinite(a);
    assert !HasText(a) by {
      forall i | 0 <= i < |a|
        ensures !IsText(a[i])
      {
        assert a[i] == Computed(Real(c));
      }
    }
    var xs := Reals(a);
    var n := |xs| as real;
    assert forall i :: 0 <= i < |xs| ==> xs[i] == c;
    SumConstant(xs, c);
    MeanOfCopies(n, c);
    var mean := Sum(xs) / n;
    assert Sum(xs) == n * c;
    assert mean == (n * c) / n;
    assert mean == c;
    assert SquaredDeviations(xs, mean) == 0.0;
    Quotient(0.0, n);
    assert SquaredDeviations(xs, mean) / n == 0.0;
    assert PhpMax(a) == Computed(Real(c)) && PhpMin(a) == Computed(Real(c));
  }

  lemma Quotient(a: real, n: real)
    requires a >= 0.0 && n > 0.0
    ensures a / n >= 0.0 && (a == 0.0 ==> a / n == 0.0)
  {
  }

  lemma MeanOfCopies(n: real, c: real)
    requires n > 0.0
    ensures (n * c) / n == c
  {
  }

  /** The sum of `|xs|` copies of `c`. */
  lemma {:induction false} SumConstant(xs: seq<real>, c: real)
    requires forall i :: 0 <= i < |xs| ==> xs[i] == c
    ensures Sum(xs) == |xs| as real * c
    decreases |xs|
  {
    if xs != [] {
      SumConstant(xs[1..], c);
    }
  }

  /** A string among a distribution's results makes PHP 8 throw in its
      sums, and with it the whole answer's comparison. */
  lemma TextAborts(ar: Arith, r: Four<seq<Answer>>, k: Dist)
    requires |r.At(k)| > 0 && HasText(r.At(k))
    ensures Statistics(ar, r, k) == Failure(NonNumeric)
    ensures AnswerStats(ar, r).Failure?
  {
  }

  /** A distribution whose results hold a boolean, while another
      distribution's are all numbers, is given zero statistics. */
  lemma DisqualifiedGetsNoStats(ar: Arith, r: Four<seq<Answer>>, k: Dist, j: Dist)
    requires |r.At(k)| > 0 && !HasText(r.At(k)) && !AllNumeric(r.At(k))
    requires j != k && AllNumeric(r.At(j))
    ensures Statistics(ar, r, k) == Success(NoStats)
  {
    assert !Qualified(r, k);
  }

  /** When no distribution's results are all numbers, each one is compared
      on its own values, booleans counted as 0 and 1: the mean is their
      average, the variance their mean squared deviation, and only a zero
      mean aborts. */
  lemma NoneNumericAllCompared(ar: Arith, r: Four<seq<Answer>>, k: Dist)
    requires forall j: Dist :: !AllNumeric(r.At(j))
    requires |r.At(k)| > 0 && AllFinite(r.At(k))
    ensures var xs := Reals(r.At(k));
            var n := |xs| as real;
            Statistics(ar, r, k).Failure? <==> Sum(xs) / n == 0.0
    ensures var xs := Reals(r.At(k));
            var n := |xs| as real;
            Statistics(ar, r, k).Success? ==>
              Statistics(ar, r, k).value.variance == SquaredDeviations(xs, Sum(xs) / n) / n &&
              Statistics(ar, r, k).value.variance >= 0.0 &&
              Statistics(ar, r, k).value.deviation == ar.sqrt(Statistics(ar, r, k).value.variance)
  {
    var a := r.At(k);
    assert Qualified(r, k);
    assert !HasText(a) by {
      forall i | 0 <= i < |a|
        ensures !IsText(a[i])
      {
        assert IsFinite(a[i]);
      }
    }
    var xs := Reals(a);
    var n := |xs| as real;
    Quotient(SquaredDeviations(xs, Sum(xs) / n), n);
  }

  /** Some distribution is always qualified. */
  lemma QualifiedExists(r: Four<seq<Answer>>)
    ensures exists k: Dist :: Qualifications(r).At(k)
  {
    if !Qualified(r, 0) {
      var j: Dist :| j != 0 && AllNumeric(r.At(j));
      assert Qualified(r, j) && Qualifications(r).At(j);
    } else {
      assert Qualifications(r).At(0);
    }
  }

  // ---------------------------------------------------------------------
  // Points

  /** The distribution each statistic gives its point to. */
  datatype Awards = Awards(range: Dist, variance: Dist, deviation: Dist, coefficient: Dist)

  function Max2(a: real, b: real): real
  {
    if a >= b then a else b
  }

  /** `max` of four values. */
  function Max4(v: Four<real>): (m: real)
    ensures forall k: Dist :: v.At(k) <= m
    ensures exists k: Dist :: v.At(k) == m
  {
    var m := Max2(Max2(Max2(v.uniform, v.loguniform), v.normal), v.triangle);
    assert v.At(0) == m || v.At(1) == m || v.At(2) == m || v.At(3) == m;
    m
  }

  function Min4(v: Four<real>): (m: real)
    ensures forall k: Dist :: m <= v.At(k)
  {
    var a := if v.uniform <= v.loguniform then v.uniform else v.loguniform;
    var b := if v.normal <= v.triangle then v.normal else v.triangle;
    if a <= b then a else b
  }

  /** The source's if/elseif chain after a `max`: the first distribution
      whose statistic equals `m`, and Triangle when none does. */
  function Chain(m: real, v: Four<real>): Dist
  {
    if m == v.uniform then 0 else if m == v.loguniform then 1 else if m == v.normal then 2 else 3
  }

  /** After `max`, the chain picks the first distribution holding the
      maximum. */
  lemma ChainFirstMax(v: Four<real>)
    ensures var k := Chain(Max4(v), v);
            (forall j: Dist :: v.At(j) <= v.At(k)) && forall j: Dist :: j < k ==> v.At(j) < v.At(k)
  {
  }

  function Abs(x: real): real
  {
    if x < 0.0 then -x else x
  }

  function Magnitudes(v: Four<real>): Four<real>
  {
    Four(Abs(v.uniform), Abs(v.loguniform), Abs(v.normal), Abs(v.triangle))
  }

  function Ranges(s: Four<Stats>): Four<real>
  {
    Four(s.uniform.range, s.loguniform.range, s.normal.range, s.triangle.range)
  }

  function Variances(s: Four<Stats>): Four<real>
  {
    Four(s.uniform.variance, s.loguniform.variance, s.normal.variance, s.triangle.variance)
  }

  function Deviations(s: Four<Stats>): Four<real>
  {
    Four(s.uniform.deviation, s.loguniform.deviation, s.normal.deviation, s.triangle.deviation)
  }

  function Coefficients(s: Four<Stats>): Four<real>
  {
    Four(s.uniform.coefficient, s.loguniform.coefficient, s.normal.coefficient, s.triangle.coefficient)
  }

  /** The points as the source awards them: the range by the largest
      `abs`, compared back with the signed ranges, and the other three by
      the largest value. A disqualified distribution takes part with its
      zeros. */
  function AwardsAsWritten(s: Four<Stats>): Awards
  {
    Awards(Chain(Max4(Magnitudes(Ranges(s))), Ranges(s)), Chain(Max4(Variances(s)), Variances(s)),
           Chain(Max4(Deviations(s)), Deviations(s)), Chain(Max4(Coefficients(s)), Coefficients(s)))
  }

  /** When no range is negative, as on finite results, each point of the
      source's chains goes to the first distribution with the largest
      statistic. */
  lemma AwardsAsWrittenFirstMax(s: Four<Stats>)
    requires forall k: Dist :: s.At(k).range >= 0.0
    ensures var a := AwardsAsWritten(s);
            (forall j: Dist :: Ranges(s).At(j) <= Ranges(s).At(a.range)) &&
            (forall j: Dist :: j < a.range ==> Ranges(s).At(j) < Ranges(s).At(a.range)) &&
            (forall j: Dist :: Variances(s).At(j) <= Variances(s).At(a.variance)) &&
            (forall j: Dist :: j < a.variance ==> Variances(s).At(j) < Variances(s).At(a.variance)) &&
            (forall j: Dist :: Coefficients(s).At(j) <= Coefficients(s).At(a.coefficient))
  {
    assert Magnitudes(Ranges(s)) == Ranges(s) by {
      assert s.At(0).range >= 0.0 && s.At(1).range >= 0.0 && s.At(2).range >= 0.0 && s.At(3).range >= 0.0;
    }
    ChainFirstMax(Ranges(s));
    ChainFirstMax(Variances(s));
    ChainFirstMax(Coefficients(s));
  }

  /** The first qualified distribution with the largest value among the
      qualified ones. */
  function BestQualified(v: Four<real>, ok: Four<bool>): (k: Dist)
    requires exists j: Dist :: ok.At(j)
    ensures ok.At(k)
    ensures forall j: Dist :: ok.At(j) ==> v.At(j) <= v.At(k)
    ensures forall j: Dist :: j < k && ok.At(j) ==> v.At(j) < v.At(k)
  {
    var low := Min4(v) - 1.0;
    var masked := Four(if ok.uniform then v.uniform else low, if ok.loguniform then v.loguniform else low,
                       if ok.normal then v.normal else low, if ok.triangle then v.triangle else low);
    assert forall j: Dist :: masked.At(j) == if ok.At(j) then v.At(j) else low;
    ChainFirstMax(masked);
    Chain(Max4(masked), masked)
  }

  /** The points of one answer with the disqualification as the source's
      comment intends it: a distribution that is not qualified takes no
      part, and the range is compared by its magnitude. */
  function Awarded(s: Four<Stats>, ok: Four<bool>): Awards
    requires exists j: Dist :: ok.At(j)
  {
    Awards(BestQualified(Magnitudes(Ranges(s)), ok), BestQualified(Variances(s), ok),
           BestQualified(Deviations(s), ok), BestQualified(Coefficients(s), ok))
  }

  /** The statistics of one answer: `min` and `max` of every table come
      first, then the distributions one by one in the source's order. */
  function AnswerStats(ar: Arith, r: Four<seq<Answer>>): Result<Four<Stats>, SelectError>
  {
    if |r.uniform| == 0 || |r.loguniform| == 0 || |r.normal| == 0 || |r.triangle| == 0 then Failure(NoResults)
    else
    var u :- Statistics(ar, r, 0);
    var l :- Statistics(ar, r, 1);
    var n :- Statistics(ar, r, 2);
    var t :- Statistics(ar, r, 3);
    Success(Four(u, l, n, t))
  }

  /** One answer's points as the source awards them. */
  function AnswerAwardsAsWritten(ar: Arith, r: Four<seq<Answer>>): Result<Awards, SelectError>
  {
    var s :- AnswerStats(ar, r);
    Success(AwardsAsWritten(s))
  }

  /** One answer's points, disqualified distributions left out. */
  function AnswerAwards(ar: Arith, r: Four<seq<Answer>>): (a: Result<Awards, SelectError>)
    ensures a.Success? ==> Qualified(r, a.value.range) && Qualified(r, a.value.variance) &&
                           Qualified(r, a.value.deviation) && Qualified(r, a.value.coefficient)
  {
    var s :- AnswerStats(ar, r);
    QualifiedExists(r);
    var a := Awarded(s, Qualifications(r));
    assert forall k: Dist :: Qualifications(r).At(k) == Qualified(r, k);
    Success(a)
  }

  /** Uniform's result is a boolean (a formula such as `{a}>5?2:{a}<0`
      gives `false` on some values) while the other three are the constant
      2: Uniform is disqualified, yet the source's chains give it every
      point, since the others' statistics are zero too. Leaving it out
      gives the points to Log-Uniform. */
  lemma DisqualifiedWinsAsWritten(ar: Arith)
    requires ar.sqrt(0.0) == 0.0
    ensures var r := Four([Logical(false)], [Computed(Real(2.0))], [Computed(Real(2.0))], [Computed(Real(2.0))]);
            !Qualified(r, 0) &&
            AnswerAwardsAsWritten(ar, r) == Success(Awards(0, 0, 0, 0)) &&
            AnswerAwards(ar, r) == Success(Awards(1, 1, 1, 1))
  {
    var r := Four([Logical(false)], [Computed(Real(2.0))], [Computed(Real(2.0))], [Computed(Real(2.0))]);
    assert !IsNumber(r.At(0)[0]);
    assert AllNumeric(r.At(1));
    assert !Qualified(r, 0);
    assert !HasText(r.At(0));
    assert Statistics(ar, r, 0) == Success(NoStats);
    forall k: Dist | k > 0
      ensures Statistics(ar, r, k) == Success(NoStats)
    {
      ConstantStatistics(ar, r, k, 2.0);
    }
    assert AnswerStats(ar, r) == Success(Four(NoStats, NoStats, NoStats, NoStats));
  }

  /** The points of an answer's results, or the abort they cause. */
  type Scoring = Four<seq<Answer>> -> Result<Awards, SelectError>

  function Scorer(ar: Arith): Scoring
  {
    (r: Four<seq<Answer>>) => AnswerAwards(ar, r)
  }

  /** Every answer's points, the first abort ending the comparison. */
  function AllAwards(score: Scoring, rs: seq<Four<seq<Answer>>>): Result<seq<Awards>, SelectError>
    decreases |rs|
  {
    if rs == [] then Success([])
    else
      var aw :- AllAwards(score, rs[..|rs| - 1]);
      var a :- score(rs[|rs| - 1]);
      Success(aw + [a])
  }

  /** An abort on the first answers aborts the whole comparison. */
  lemma {:induction false} AllAwardsAbort(score: Scoring, rs: seq<Four<seq<Answer>>>, i: nat)
    requires i <= |rs| && AllAwards(score, rs[..i]).Failure?
    ensures AllAwards(score, rs) == AllAwards(score, rs[..i])
    decreases |rs| - i
  {
    if i < |rs| {
      assert rs[..i + 1][..i] == rs[..i];
      AllAwardsAbort(score, rs, i + 1);
    } else {
      assert rs[..i] == rs;
    }
  }

  /** The points one answer gives distribution `k`. */
  function Score(a: Awards, k: Dist): nat
  {
    (if a.range == k then 1 else 0) + (if a.variance == k then 1 else 0) +
    (if a.deviation == k then 1 else 0) + (if a.coefficient == k then 1 else 0)
  }

  /** `$ponderation_distributions[k]` after the answers. */
  function Points(aw: seq<Awards>, k: Dist): nat
    decreases |aw|
  {
    if aw == [] then 0 else Points(aw[..|aw| - 1], k) + Score(aw[|aw| - 1], k)
  }

  function Tally(aw: seq<Awards>): (p: seq<nat>)
    ensures |p| == 4
  {
    [Points(aw, 0), Points(aw, 1), Points(aw, 2), Points(aw, 3)]
  }

  /** Each answer gives out exactly four points. */
  lemma {:induction false} PointsTotal(aw: seq<Awards>)
    ensures Points(aw, 0) + Points(aw, 1) + Points(aw, 2) + Points(aw, 3) == 4 * |aw|
    decreases |aw|
  {
    if aw != [] {
      PointsTotal(aw[..|aw| - 1]);
      var a := aw[|aw| - 1];
      assert Score(a, 0) + Score(a, 1) + Score(a, 2) + Score(a, 3) == 4;
    }
  }

  lemma PointsStep(aw: seq<Awards>, w: Awards)
    ensures forall k: Dist :: Points(aw + [w], k) == Points(aw, k) + Score(w, k)
  {
    assert (aw + [w])[..|aw|] == aw;
  }

  /** One answer's four increments of `$ponderation_distributions`. */
  method Award(points: array<nat>, w: Awards)
    requires points.Length == 4
    modifies points
    ensures forall k: Dist :: points[k] == old(points[k]) + Score(w, k)
  {
    points[w.range] := points[w.range] + 1;
    points[w.variance] := points[w.variance] + 1;
    points[w.deviation] := points[w.deviation] + 1;
    points[w.coefficient] := points[w.coefficient] + 1;
  }

  /** The loop over the answers that fills `$ponderation_distributions`. */
  method TallyPoints(score: Scoring, rs: seq<Four<seq<Answer>>>) returns (r: Result<seq<nat>, SelectError>)
    ensures AllAwards(score, rs).Failure? ==> r == Failure(AllAwards(score, rs).error)
    ensures AllAwards(score, rs).Success? ==> r == Success(Tally(AllAwards(score, rs).value))
  {
    var points := new nat[4](_ => 0);
    ghost var aw: seq<Awards> := [];
    var i := 0;
    while i < |rs|
      invariant 0 <= i <= |rs|
      invariant AllAwards(score, rs[..i]) == Success(aw)
      invariant forall k: Dist :: points[k] == Points(aw, k)
    {
      assert rs[..i + 1][..i] == rs[..i];
      var a := score(rs[i]);
      if a.Failure? {
        AllAwardsAbort(score, rs, i + 1);
        return Failure(a.error);
      }
      var w := a.value;
      Award(points, w);
      PointsStep(aw, w);
      aw := aw + [w];
      i := i + 1;
    }
    assert rs[..i] == rs;
    assert points[..] == Tally(aw) by {
      assert points[..][0] == Points(aw, 0) && points[..][1] == Points(aw, 1);
      assert points[..][2] == Points(aw, 2) && points[..][3] == Points(aw, 3);
    }
    r := Success(points[..]);
  }

  /** `max($ponderation_distributions)` and the chain after it: the first
      distribution with the most points. */
  function Winner(points: seq<nat>): (k: Dist)
    requires |points| == 4
    ensures forall j: Dist :: points[j] <= points[k]
    ensures forall j: Dist :: j < k ==> points[j] < points[k]
  {
    var v := Four(points[0] as real, points[1] as real, points[2] as real, points[3] as real);
    ChainFirstMax(v);
    assert forall j: Dist :: v.At(j) == points[j] as real;
    Chain(Max4(v), v)
  }

  // ---------------------------------------------------------------------
  // The selection

  /** The selected distribution: its name, its tables and the results of
      every full-credit answer on them. */
  datatype Selection = Selection(kind: Kind, name: string, items: seq<seq<Num>>, results: seq<seq<Answer>>)

  function Select(t: Tables, rs: seq<Four<seq<Answer>>>, k: Dist): Selection
  {
    Selection(KindOf(k), Label(k), TableOf(t, k), seq(|rs|, i requires 0 <= i < |rs| => rs[i].At(k)))
  }

  /** `comparation_results_distributions`. */
  method ComparationResults(host: Host, ar: Arith, answers: seq<AnswerRow>, defs: Entries<string, Definition>,
                            t: Tables) returns (r: Result<Selection, SelectError>)
    ensures var rs := AllResults(host, FullCredit(answers), defs, t);
            var aw := AllAwards(Scorer(ar), rs);
            if aw.Failure? then r == Failure(aw.error) else r == Success(Select(t, rs, Winner(Tally(aw.value))))
  {
    var rs := AllResults(host, FullCredit(answers), defs, t);
    var points := TallyPoints(Scorer(ar), rs);
    if points.Failure? {
      return Failure(points.error);
    }
    r := Success(Select(t, rs, Winner(points.value)));
  }

  /** The selection holds the winner's tables and results, and the winner
      has the most points, earlier distributions winning ties. Without any
      full-credit answer, or without slots, every tally is zero and
      Uniform is selected. */
  lemma SelectionSpec(t: Tables, aw: seq<Awards>, rs: seq<Four<seq<Answer>>>)
    ensures var k := Winner(Tally(aw));
            var sel := Select(t, rs, k);
            sel.name == Label(k) && sel.items == TableOf(t, k) && |sel.results| == |rs| &&
            (forall i :: 0 <= i < |rs| ==> sel.results[i] == rs[i].At(k)) &&
            (forall j: Dist :: Points(aw, j) <= Points(aw, k)) &&
            (forall j: Dist :: j < k ==> Points(aw, j) < Points(aw, k))
    ensures aw == [] ==> Winner(Tally(aw)) == 0
  {
    var p := Tally(aw);
    assert forall j: Dist :: p[j] == Points(aw, j);
  }

  // ---------------------------------------------------------------------
  // The results rows

  /** What a results row stores: the number, or the marker `'Error'`. */
  datatype Stored = Number(n: Num) | ErrorMark

  /** A row of `question_randomdata_results`. */
  datatype ResultRow = ResultRow(distribution: string, result: Stored)

  function StoredOf(a: Answer): Stored
  {
    if IsNumber(a) then Number(a.n) else ErrorMark
  }

  /** The rows for the first answer's results; none when there is no
      answer, where the source iterates over nothing. */
  function ResultRows(sel: Selection): seq<ResultRow>
  {
    if sel.results == [] then []
    else seq(|sel.results[0]|, j requires 0 <= j < |sel.results[0]| => ResultRow(sel.name, StoredOf(sel.results[0][j])))
  }

  /** One row per slot of the first answer, carrying its number, or
      `'Error'` exactly when the result is not a number. */
  lemma ResultRowsSpec(sel: Selection)
    ensures sel.results == [] ==> ResultRows(sel) == []
    ensures sel.results != [] ==>
              |ResultRows(sel)| == |sel.results[0]| &&
              forall j :: 0 <= j < |sel.results[0]| ==>
                ResultRows(sel)[j].distribution == sel.name &&
                (ResultRows(sel)[j].result == ErrorMark <==> !IsNumber(sel.results[0][j])) &&
                (IsNumber(sel.results[0][j]) ==> ResultRows(sel)[j].result == Number(sel.results[0][j].n))
  {
  }

  /** The loop that inserts the rows. */
  method SaveResults(sel: Selection) returns (rows: seq<ResultRow>)
    ensures rows == ResultRows(sel)
  {
    rows := [];
    if sel.results == [] {
      return;
    }
    var first := sel.results[0];
    var j := 0;
    while j < |first|
      invariant 0 <= j <= |first|
      invariant rows == ResultRows(sel)[..j]
    {
      var stored := if IsNumber(first[j]) then Number(first[j].n) else ErrorMark;
      rows := rows + [ResultRow(sel.name, stored)];
      j := j + 1;
    }
  }
}
