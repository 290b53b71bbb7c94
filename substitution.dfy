/** Wildcard substitution (`substitute_variables`) and the
    substitute-validate-evaluate step (`substitute_variables_and_eval`). */
module Substitution {
  import opened Wrappers
  import opened Text
  import opened Formula

  /** A PHP float: a real, an infinity, or NaN. */
  datatype Num = Real(x: real) | Inf(negative: bool) | NaN

  /** `$n <= 0` on a PHP float (false for NaN). */
  predicate NonPositive(n: Num)
  {
    (n.Real? && n.x <= 0.0) || n == Inf(true)
  }

  /** `$a <= $b` on PHP floats: the order of the extended reals, and false
      whenever one side is NaN. */
  predicate AtMost(a: Num, b: Num)
  {
    match (a, b)
    case (NaN, _) => false
    case (_, NaN) => false
    case (Inf(na), Inf(nb)) => na || !nb
    case (Inf(na), Real(_)) => na
    case (Real(_), Inf(nb)) => !nb
    case (Real(x), Real(y)) => x <= y
  }

  /** A dataset value: a float the generator produced, or a string read
      back from the database. */
  datatype Value = Float(n: Num) | Stored(s: string)

  /** What PHP's `eval` makes of a validated text: a number, or a boolean
      when the outermost operator is a comparison or a logical one (the
      validator lets `<`, `>`, `=`, `!`, `&`, `|`, `?` and `:` through). */
  datatype Evaluated = Numeric(n: Num) | Truth(b: bool)

  /** The PHP runtime calls the substitution and evaluation depend on:
      float-to-string conversion, `is_numeric` together with the number a
      numeric string denotes, `eval` of a validated text, and the text of
      a validator message (a language string). */
  datatype Host = Host(show: Num -> string, numeric: string -> Option<Num>, eval: string -> Evaluated,
                       message: FormulaError -> string)

  /** The wildcards of one evaluation, in iteration order. */
  type Dataset = seq<(string, Value)>

  /** The placeholder `{name}`. */
  function Brace(name: string): (r: string)
    ensures |r| == |name| + 2 && r[0] == '{' && r[|r| - 1] == '}'
  {
    "{" + name + "}"
  }

  /** A placeholder whose name has no `{` cannot overlap itself. */
  lemma BraceHeadIsUnique(name: string)
    requires forall i :: 0 <= i < |name| ==> name[i] != '{'
    ensures HeadIsUnique(Brace(name))
  {
    var b := Brace(name);
    forall k | 0 < k < |b|
      ensures b[k] != b[0]
    {
      if k <= |name| {
        assert b[k] == name[k - 1];
      }
    }
  }

  /** The text a value is substituted as: a value that is not numeric
      becomes the float 1.0, and a value at most zero is put in
      parentheses. A numeric string is inserted as written. */
  function Render(host: Host, v: Value): string
  {
    match v
    case Float(n) => if NonPositive(n) then "(" + host.show(n) + ")" else host.show(n)
    case Stored(s) =>
      match host.numeric(s)
      case None => host.show(Real(1.0))
      case Some(n) => if NonPositive(n) then "(" + s + ")" else s
  }

  /** PHP's float-to-string and `is_numeric` strings hold no `{`. */
  ghost predicate BraceFree(host: Host)
  {
    (forall n :: CountChar(host.show(n), '{') == 0) &&
    (forall t :: host.numeric(t).Some? ==> CountChar(t, '{') == 0)
  }

  /** Rendering brings no `{` of its own: neither the parentheses around
      a value at most zero nor the `1.0` standing for a non-number add
      one, so a value can never be rendered as a placeholder. */
  lemma RenderAddsNoBrace(host: Host, v: Value)
    requires BraceFree(host)
    ensures CountChar(Render(host, v), '{') == 0
  {
    var t := match v case Float(n) => host.show(n)
                     case Stored(s) => if host.numeric(s).None? then host.show(Real(1.0)) else s;
    assert CountChar(t, '{') == 0;
    if Render(host, v) != t {
      CountCharAppend("(", t, '{');
      CountCharAppend("(" + t, ")", '{');
    }
  }

  lemma BraceCount(name: string)
    ensures CountChar(Brace(name), '{') >= 1
  {
    CountCharAppend("{", name + "}", '{');
    assert Brace(name) == "{" + (name + "}");
  }

  /** Substituting the wildcards never adds a `{`: each step replaces a
      `{name}` by a rendered value without one, so a placeholder the
      first wildcard finds costs the text one `{` at least. */
  lemma {:induction false} SubstitutionAddsNoBrace(host: Host, str: string, ds: Dataset)
    requires BraceFree(host)
    ensures CountChar(Substituted(host, str, ds), '{') <= CountChar(str, '{')
    ensures ds != [] && Contains(str, Brace(ds[0].0)) ==>
              CountChar(Substituted(host, str, ds), '{') < CountChar(str, '{')
    decreases |ds|
  {
    if ds != [] {
      var rendered := Render(host, ds[0].1);
      RenderAddsNoBrace(host, ds[0].1);
      BraceCount(ds[0].0);
      ReplaceAllCount(str, Brace(ds[0].0), rendered, '{');
      SubstitutionAddsNoBrace(host, ReplaceAll(str, Brace(ds[0].0), rendered), ds[1..]);
    }
  }

  /** The text after every `{name}` of the dataset, in order, has been
      replaced by its rendered value. */
  function Substituted(host: Host, str: string, ds: Dataset): string
    decreases |ds|
  {
    if ds == [] then str
    else Substituted(host, ReplaceAll(str, Brace(ds[0].0), Render(host, ds[0].1)), ds[1..])
  }

  /** `substitute_variables`: folds one `str_replace` per dataset entry. */
  method SubstituteVariables(host: Host, str: string, ds: Dataset) returns (r: string)
    ensures r == Substituted(host, str, ds)
  {
    r := str;
    var k := 0;
    while k < |ds|
      invariant 0 <= k <= |ds|
      invariant Substituted(host, r, ds[k..]) == Substituted(host, str, ds)
    {
      assert ds[k..][1..] == ds[k + 1..];
      var (name, value) := ds[k];
      r := ReplaceAll(r, Brace(name), Render(host, value));
      k := k + 1;
    }
  }

  /** One substitution step replaces exactly the occurrences of `{name}`:
      the text between them is kept and each occurrence becomes the
      rendered value. */
  lemma SubstitutionStep(host: Host, str: string, name: string, v: Value, rest: Dataset)
    requires forall i :: 0 <= i < |name| ==> name[i] != '{'
    ensures Substituted(host, str, [(name, v)] + rest) ==
              Substituted(host, Join(SplitOn(str, Brace(name)), Render(host, v)), rest)
  {
    BraceHeadIsUnique(name);
    ReplaceAllSplit(str, Brace(name), Render(host, v));
    assert ([(name, v)] + rest)[1..] == rest;
  }

  /** A text without placeholders is left as it is. */
  lemma {:induction false} SubstitutedWithoutBraces(host: Host, str: string, ds: Dataset)
    requires forall i :: 0 <= i < |str| ==> str[i] != '{'
    ensures Substituted(host, str, ds) == str
    decreases |ds|
  {
    if ds != [] {
      var pat := Brace(ds[0].0);
      forall i | 0 <= i <= |str| - |pat|
        ensures !OccursAt(str, pat, i)
      {
        assert str[i..i + |pat|][0] == str[i] != '{';
      }
      ReplaceAllAbsent(str, pat, Render(host, ds[0].1));
      SubstitutedWithoutBraces(host, str, ds[1..]);
    }
  }

  /** `{a}+{b}` with a = 3 and b = -2 becomes `3+(-2)`: the negative
      value is parenthesised, the positive one is not. */
  lemma SubstitutesExample(host: Host)
    requires host.show(Real(3.0)) == "3" && host.show(Real(-2.0)) == "-2"
    ensures Substituted(host, "{a}+{b}", [("a", Float(Real(3.0))), ("b", Float(Real(-2.0)))]) == "3+(-2)"
  {
    var ds := [("a", Float(Real(3.0))), ("b", Float(Real(-2.0)))];
    assert Render(host, ds[0].1) == "3";
    assert Render(host, ds[1].1) == "(-2)";
    var s := "{a}+{b}";
    assert s[..3] == "{a}";
    var t := s[3..];
    assert t == "+{b}";
    assert ReplaceAll(t, "{a}", "3") == "+{b}" by {
      assert t[..3][0] != "{a}"[0];
      assert t[1..] == "{b}";
      assert t[1..][..3][1] != "{a}"[1];
      assert t[1..][1..] == "b}";
      assert ReplaceAll("b}", "{a}", "3") == "b}";
      assert ReplaceAll(t[1..], "{a}", "3") == "{b}";
    }
    assert ReplaceAll(s, "{a}", "3") == "3+{b}";
    var u := "3+{b}";
    assert u[..3][0] != "{b}"[0];
    assert u[1..][..3][0] != "{b}"[0];
    assert u[1..][1..] == "{b}";
    assert u[1..][1..][..3] == "{b}";
    assert u[1..][1..][3..] == "";
    assert ReplaceAll(u, "{b}", "(-2)") == "3+(-2)";
    assert ds[1..] == [("b", Float(Real(-2.0)))];
    assert ds[1..][1..] == [];
  }

  /** What `substitute_variables_and_eval` returns: the validator's message,
      `''` for a text PHP calls empty (`""` or `"0"`), `'*'` for the any-value
      answer, or what `eval` makes of the text, a number or a boolean. */
  datatype Answer = Rejected(error: FormulaError) | Blank | AnyValue | Computed(n: Num) | Logical(b: bool)

  /** `is_numeric` on an answer: only an evaluated number is one. */
  predicate IsNumber(a: Answer)
  {
    a.Computed?
  }

  function SubstituteAndEval(host: Host, str: string, ds: Dataset): (r: Answer)
  {
    var formula := Substituted(host, str, ds);
    match FormulaErrors(formula)
    case Some(e) => Rejected(e)
    case None =>
      if formula == "" || formula == "0" then Blank
      else if formula == "*" then AnyValue
      else
        match host.eval(formula)
        case Numeric(n) => Computed(n)
        case Truth(b) => Logical(b)
  }

  /** Only a text the validator accepts reaches `eval`: it holds none of the
      comment or PHP-tag markers, and once its calls are rewritten only
      numbers and operators are left. (A rejection carries the validator's
      message on the substituted text, by the definition of the answer.) */
  lemma EvaluatedTextAccepted(host: Host, str: string, ds: Dataset)
    ensures var a := SubstituteAndEval(host, str, ds);
            var f := Substituted(host, str, ds);
            (a.Computed? || a.Logical?) ==>
              f !in {"", "0", "*"} &&
              (forall k :: 0 <= k < |CommentMarkers| ==> !Contains(f, CommentMarkers[k])) &&
              Reduce(Normalise(f)).Success? &&
              forall i :: 0 <= i < |Reduce(Normalise(f)).value| ==> IsOperandChar(Reduce(Normalise(f)).value[i])
  {
    var f := Substituted(host, str, ds);
    if FormulaErrors(f).None? {
      AcceptedIsSafe(f);
    }
  }

  /** A formula without placeholders has the same answer on every dataset. */
  lemma ConstantFormula(host: Host, str: string, ds1: Dataset, ds2: Dataset)
    requires forall i :: 0 <= i < |str| ==> str[i] != '{'
    ensures SubstituteAndEval(host, str, ds1) == SubstituteAndEval(host, str, ds2)
  {
    SubstitutedWithoutBraces(host, str, ds1);
    SubstitutedWithoutBraces(host, str, ds2);
  }

  /** Substituting two runs of wildcards is substituting the first, then
      the second. */
  lemma {:induction false} SubstitutedAppend(host: Host, str: string, ds1: Dataset, ds2: Dataset)
    ensures Substituted(host, str, ds1 + ds2) == Substituted(host, Substituted(host, str, ds1), ds2)
    decreases |ds1|
  {
    if ds1 == [] {
      assert ds1 + ds2 == ds2;
    } else {
      assert (ds1 + ds2)[1..] == ds1[1..] + ds2;
      SubstitutedAppend(host, ReplaceAll(str, Brace(ds1[0].0), Render(host, ds1[0].1)), ds1[1..], ds2);
    }
  }

  /** A wildcard whose placeholder is absent from the formula, once the
      wildcards before it have been substituted, has no effect on the
      answer, wherever it stands in the dataset. */
  lemma UnusedWildcardIgnored(host: Host, str: string, before: Dataset, name: string, v: Value, after: Dataset)
    requires !Contains(Substituted(host, str, before), Brace(name))
    ensures SubstituteAndEval(host, str, before + [(name, v)] + after) == SubstituteAndEval(host, str, before + after)
  {
    var mid := Substituted(host, str, before);
    SubstitutedAppend(host, str, before, [(name, v)] + after);
    assert before + [(name, v)] + after == before + ([(name, v)] + after);
    ReplaceAllAbsent(mid, Brace(name), Render(host, v));
    assert ([(name, v)] + after)[1..] == after;
    SubstitutedAppend(host, str, before, after);
  }

  /** `*` is passed through whatever the dataset. */
  lemma StarIsAnyValue(host: Host, ds: Dataset)
    ensures SubstituteAndEval(host, "*", ds) == AnyValue
  {
    SubstitutedWithoutBraces(host, "*", ds);
    CommentMarkersAbsent("*");
    AcceptsPlainArithmetic("*");
  }

  /** An empty formula gives the empty answer whatever the dataset. */
  lemma EmptyIsBlank(host: Host, ds: Dataset)
    ensures SubstituteAndEval(host, "", ds) == Blank
  {
    SubstitutedWithoutBraces(host, "", ds);
    CommentMarkersAbsent("");
    AcceptsPlainArithmetic("");
  }

  /** The formula `0` gives `''` too: PHP's `empty("0")` is true. */
  lemma ZeroIsBlank(host: Host, ds: Dataset)
    ensures SubstituteAndEval(host, "0", ds) == Blank
  {
    SubstitutedWithoutBraces(host, "0", ds);
    CommentMarkersAbsent("0");
    AcceptsPlainArithmetic("0");
  }

  // ---------------------------------------------------------------------
  // PHP 8's loose comparison of answers

  /** An answer PHP holds as a string: a message, `''` or `'*'`. */
  predicate IsText(a: Answer)
  {
    a.Rejected? || a.Blank? || a.AnyValue?
  }

  /** The string PHP compares a number or a text as: the number converted
      as by `(string)`, or the text itself. None of the texts (`''`, `'*'`
      and the validator's messages) is a numeric string. */
  function Spelling(host: Host, a: Answer): string
    requires !a.Logical?
  {
    match a
    case Computed(n) => host.show(n)
    case Rejected(e) => host.message(e)
    case Blank => ""
    case AnyValue => "*"
  }

  /** `(bool)` of an answer: zero, `''` and `'0'` are false; NAN is true. */
  predicate Truthy(host: Host, a: Answer)
  {
    match a
    case Logical(b) => b
    case Computed(n) => n != Real(0.0)
    case _ => Spelling(host, a) != "" && Spelling(host, a) != "0"
  }

  /** `$a <= $b` in PHP 8, which is also `$b >= $a`: with a boolean on
      either side both are compared as booleans; two numbers as floats
      (never true with NAN); a number and a text, or two texts, as strings. */
  predicate LooseAtMost(host: Host, a: Answer, b: Answer)
  {
    if a.Logical? || b.Logical? then !Truthy(host, a) || Truthy(host, b)
    else if a.Computed? && b.Computed? then AtMost(a.n, b.n)
    else LexLe(Spelling(host, a), Spelling(host, b))
  }

  /** A one-character text holds none of the comment markers but `#`. */
  lemma CommentMarkersAbsent(f: string)
    requires |f| <= 1 && f != "#"
    ensures forall k :: 0 <= k < |CommentMarkers| ==> !Contains(f, CommentMarkers[k])
  {
    forall k, i | 0 <= k < |CommentMarkers| && 0 <= i <= |f| - |CommentMarkers[k]|
      ensures !OccursAt(f, CommentMarkers[k], i)
    {
      if k == 2 && |f| == 1 {
        assert f[0..1] == f;
      }
    }
  }
}
