/** `validation_formulas_with_distributions`: whether a candidate
    assignment breaks one of the question's validation rules, in which
    case the generator draws again. */
module Constraints {
  import opened Wrappers
  import opened Substitution

  /** A policy flag of 2 ("No") forbids the condition. */
  const Forbid: int := 2

  /** A row of `question_randomdata_valid`: the formula, the three sign
      policies and the optional bound formulas (`""` when unset). */
  datatype Rule = Rule(formula: string, zero: int, positive: int, negative: int, min: string, max: string)

  predicate IsZero(n: Num)
  {
    n == Real(0.0)
  }

  /** `$n > 0` on a PHP float. */
  predicate Positive(n: Num)
  {
    (n.Real? && n.x > 0.0) || n == Inf(false)
  }

  /** `$n < 0` on a PHP float. */
  predicate Negative(n: Num)
  {
    (n.Real? && n.x < 0.0) || n == Inf(true)
  }

  /** `$answer == 0`, `$answer > 0` and `$answer < 0` on a number or a
      boolean: a boolean is compared with `false`, so `false` equals zero,
      `true` is above it and no boolean is below it. */
  predicate EqualsZero(a: Answer)
  {
    if a.Logical? then !a.b else a.Computed? && IsZero(a.n)
  }

  predicate AboveZero(a: Answer)
  {
    if a.Logical? then a.b else a.Computed? && Positive(a.n)
  }

  predicate BelowZero(a: Answer)
  {
    a.Computed? && Negative(a.n)
  }

  /** The conditions checked before the bounds: an infinite result, or a
      forbidden zero, positive or negative result. */
  predicate SignViolated(r: Rule, a: Answer)
  {
    (a.Computed? && a.n.Inf?) || (r.zero == Forbid && EqualsZero(a)) ||
    (r.positive == Forbid && AboveZero(a)) || (r.negative == Forbid && BelowZero(a))
  }

  /** The result is not strictly inside the bounds that are set, each bound
      evaluated and compared with the result as PHP compares them. */
  predicate BoundViolated(host: Host, r: Rule, ds: Dataset, a: Answer)
  {
    (r.max != "" && LooseAtMost(host, SubstituteAndEval(host, r.max, ds), a)) ||
    (r.min != "" && LooseAtMost(host, a, SubstituteAndEval(host, r.min, ds)))
  }

  /** One rule, as written: the if/else chain of the source. `Success(true)`
      asks for a new draw, `Success(false)` accepts. A result PHP holds as a
      string cannot be passed to `abs`, so it aborts the request: `Failure`
      carries it. The bounds are compared as they come, a bound that is a
      string included. */
  function RuleRejects(host: Host, r: Rule, ds: Dataset): Result<bool, Answer>
  {
    var a := SubstituteAndEval(host, r.formula, ds);
    if IsText(a) then Failure(a)
    else if a.Computed? && a.n.Inf? then Success(true)
    else if r.zero == Forbid && EqualsZero(a) then Success(true)
    else if r.positive == Forbid && AboveZero(a) then Success(true)
    else if r.negative == Forbid && BelowZero(a) then Success(true)
    else if r.max != "" || r.min != "" then
      if r.min == "" then
        var hi := SubstituteAndEval(host, r.max, ds);
        Success(LooseAtMost(host, hi, a))
      else if r.max == "" then
        var lo := SubstituteAndEval(host, r.min, ds);
        Success(LooseAtMost(host, a, lo))
      else
        var hi := SubstituteAndEval(host, r.max, ds);
        var lo := SubstituteAndEval(host, r.min, ds);
        Success(LooseAtMost(host, a, lo) || LooseAtMost(host, hi, a))
    else Success(false)
  }

  /** The chain decides exactly the disjunction of the conditions: a rule
      rejects iff its result is a number or a boolean that is infinite, of
      a forbidden sign, or not inside the bounds as PHP compares them; it
      fails iff the result is a string, and then carries that result. */
  lemma RuleRejectsIff(host: Host, r: Rule, ds: Dataset)
    ensures RuleRejects(host, r, ds) == Success(true) <==>
              var a := SubstituteAndEval(host, r.formula, ds);
              !IsText(a) && (SignViolated(r, a) || BoundViolated(host, r, ds, a))
    ensures RuleRejects(host, r, ds).Failure? <==> IsText(SubstituteAndEval(host, r.formula, ds))
    ensures RuleRejects(host, r, ds).Failure? ==>
              RuleRejects(host, r, ds).error == SubstituteAndEval(host, r.formula, ds)
  {
  }

  /** A bound that evaluates to `''` is compared with a number as a
      string: as a maximum it lies below every number, as a minimum below
      every number PHP spells with at least one character. */
  lemma BlankBound(host: Host, a: Answer)
    requires a.Computed?
    ensures LooseAtMost(host, Blank, a)
    ensures host.show(a.n) != "" ==> !LooseAtMost(host, a, Blank)
  {
  }

  /** A maximum written `0` evaluates to `''` and rejects every number:
      no draw passes the rule. */
  lemma ZeroMaxRejectsAll(host: Host, r: Rule, ds: Dataset)
    requires r.max == "0" && r.min == ""
    requires SubstituteAndEval(host, r.formula, ds).Computed?
    ensures RuleRejects(host, r, ds) == Success(true)
  {
    ZeroIsBlank(host, ds);
    BlankBound(host, SubstituteAndEval(host, r.formula, ds));
  }

  /** A minimum written `0` evaluates to `''` and is ignored: a result of
      an allowed sign passes the rule however small it is. */
  lemma ZeroMinIgnored(host: Host, r: Rule, ds: Dataset)
    requires r.min == "0" && r.max == ""
    requires var a := SubstituteAndEval(host, r.formula, ds);
             a.Computed? && !SignViolated(r, a) && host.show(a.n) != ""
    ensures RuleRejects(host, r, ds) == Success(false)
  {
    ZeroIsBlank(host, ds);
    BlankBound(host, SubstituteAndEval(host, r.formula, ds));
  }

  /** The verdict of each rule on the assignment. */
  function Verdicts(host: Host, rules: seq<Rule>, ds: Dataset): (vs: seq<Result<bool, Answer>>)
    ensures |vs| == |rules|
    ensures forall i :: 0 <= i < |rules| ==> vs[i] == RuleRejects(host, rules[i], ds)
  {
    seq(|rules|, i requires 0 <= i < |rules| => RuleRejects(host, rules[i], ds))
  }

  /** The rules' verdicts taken in order: the first failure or rejection
      ends the validation. */
  function Combine(vs: seq<Result<bool, Answer>>): Result<bool, Answer>
    decreases |vs|
  {
    if vs == [] then Success(false)
    else if vs[0].Failure? || vs[0].value then vs[0]
    else Combine(vs[1..])
  }

  /** The validation of all the rules. */
  function Checks(host: Host, rules: seq<Rule>, ds: Dataset): Result<bool, Answer>
  {
    Combine(Verdicts(host, rules, ds))
  }

  /** The validation of the rules as a function of the dataset. */
  function RuleCheck(host: Host, rules: seq<Rule>): Dataset -> Result<bool, Answer>
  {
    (ds: Dataset) => Checks(host, rules, ds)
  }

  /** The validation accepts iff every rule accepts. */
  lemma {:induction false} CombineAccepts(vs: seq<Result<bool, Answer>>)
    ensures Combine(vs) == Success(false) <==> forall j :: 0 <= j < |vs| ==> vs[j] == Success(false)
    decreases |vs|
  {
    if vs != [] {
      CombineAccepts(vs[1..]);
      assert forall j :: 0 < j < |vs| ==> vs[1..][j - 1] == vs[j];
    }
  }

  /** Verdict `i` rejects and every verdict before it accepts. */
  predicate FirstRejecting(vs: seq<Result<bool, Answer>>, i: nat)
    requires i < |vs|
  {
    vs[i] == Success(true) && forall j :: 0 <= j < i ==> vs[j] == Success(false)
  }

  /** The validation asks for a new draw iff some rule rejects and every rule
      before it accepts. */
  lemma {:induction false} CombineRejects(vs: seq<Result<bool, Answer>>)
    ensures Combine(vs) == Success(true) <==> exists i :: 0 <= i < |vs| && FirstRejecting(vs, i)
    decreases |vs|
  {
    if vs != [] {
      CombineRejects(vs[1..]);
      if vs[0] == Success(true) {
        assert FirstRejecting(vs, 0);
      } else if vs[0] == Success(false) {
        forall i | 0 < i < |vs|
          ensures FirstRejecting(vs, i) <==> FirstRejecting(vs[1..], i - 1)
        {
          assert forall j :: 0 <= j < i - 1 ==> vs[1..][j] == vs[j + 1];
        }
        if Combine(vs) == Success(true) {
          var i :| 0 <= i < |vs[1..]| && FirstRejecting(vs[1..], i);
          assert FirstRejecting(vs, i + 1);
        }
      } else {
        forall i | 0 <= i < |vs|
          ensures !FirstRejecting(vs, i)
        {
          if i > 0 {
            assert vs[0] != Success(false);
          }
        }
      }
    }
  }

  /** The validation is a failure iff some rule fails and every rule before it
      accepts. */
  lemma {:induction false} CombineFails(vs: seq<Result<bool, Answer>>)
    ensures Combine(vs).Failure? <==>
              exists i :: 0 <= i < |vs| && vs[i].Failure? && forall j :: 0 <= j < i ==> vs[j] == Success(false)
    decreases |vs|
  {
    if vs != [] {
      CombineFails(vs[1..]);
      if vs[0] == Success(false) {
        if Combine(vs).Failure? {
          var i :| 0 <= i < |vs[1..]| && vs[1..][i].Failure? &&
            forall j :: 0 <= j < i ==> vs[1..][j] == Success(false);
          assert vs[i + 1].Failure?;
          assert forall j :: 0 < j < i + 1 ==> vs[j] == vs[1..][j - 1];
        }
        if exists i :: 0 <= i < |vs| && vs[i].Failure? && forall j :: 0 <= j < i ==> vs[j] == Success(false) {
          var i :| 0 <= i < |vs| && vs[i].Failure? && forall j :: 0 <= j < i ==> vs[j] == Success(false);
          assert i > 0;
          assert vs[1..][i - 1].Failure?;
          assert forall j :: 0 <= j < i - 1 ==> vs[1..][j] == vs[j + 1];
        }
      } else if vs[0].Failure? {
        var i := 0;
        assert i < |vs| && vs[i].Failure?;
      } else {
        forall i | 0 <= i < |vs| && vs[i].Failure?
          ensures exists j :: 0 <= j < i && vs[j] != Success(false)
        {
          assert i > 0 && vs[0] != Success(false);
        }
      }
    }
  }

  /** The source's loop over the rules. */
  method ValidationFormulas(host: Host, rules: seq<Rule>, ds: Dataset) returns (r: Result<bool, Answer>)
    ensures r == Checks(host, rules, ds)
  {
    ghost var vs := Verdicts(host, rules, ds);
    var k := 0;
    while k < |rules|
      invariant 0 <= k <= |rules|
      invariant Combine(vs[k..]) == Combine(vs)
    {
      assert vs[k..][1..] == vs[k + 1..];
      var verdict := RuleRejects(host, rules[k], ds);
      if verdict.Failure? || verdict.value {
        return verdict;
      }
      k := k + 1;
    }
    return Success(false);
  }

  /** A rule that forbids zero rejects every assignment on which its
      formula evaluates to zero. */
  lemma ForbiddenZeroRejects(host: Host, r: Rule, ds: Dataset)
    requires r.zero == Forbid
    requires SubstituteAndEval(host, r.formula, ds) == Computed(Real(0.0))
    ensures RuleRejects(host, r, ds) == Success(true)
  {
  }
}
