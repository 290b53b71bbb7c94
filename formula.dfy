/** The formula validator: `qtype_randomdata_find_formula_errors` and
    `qtype_randomdata_find_formula_errors_in_text`, with the placeholder
    and formula scanners they rely on (`PLACEHODLER_REGEX`,
    `FORMULAS_IN_TEXT_REGEX`, `find_formulas`, `find_dataset_names`). */
module Formula {
  import opened Wrappers
  import opened Text

  /** The language strings the validator can return, with their argument. */
  datatype FormulaError =
    | IllegalSyntax(fragment: string)      // illegalformulasyntax
    | TakesNoArgs(name: string)            // functiontakesnoargs
    | TakesOneArg(name: string)            // functiontakesonearg
    | TakesOneOrTwoArgs(name: string)      // functiontakesoneortwoargs
    | TakesTwoArgs(name: string)           // functiontakestwoargs
    | TakesAtLeastTwo(name: string)        // functiontakesatleasttwo
    | Unsupported(name: string)            // unsupportedformulafunction

  // ---------------------------------------------------------------------
  // Comment and PHP-tag markers

  /** Checked in this order; the first one present is reported. */
  const CommentMarkers: seq<string> := ["//", "/*", "#", "<?", "?>"]

  /** The first of `markers`, in list order, that occurs in `f`. */
  function FirstMarker(f: string, markers: seq<string>): (r: Option<string>)
    ensures r.None? <==> forall k :: 0 <= k < |markers| ==> !Contains(f, markers[k])
    ensures r.Some? ==> exists k :: (0 <= k < |markers| && markers[k] == r.value &&
              Contains(f, markers[k]) && forall j :: 0 <= j < k ==> !Contains(f, markers[j]))
  {
    if markers == [] then None
    else if Contains(f, markers[0]) then Some(markers[0])
    else
      var r := FirstMarker(f, markers[1..]);
      assert forall k :: 1 <= k < |markers| ==> markers[k] == markers[1..][k - 1];
      r
  }

  // ---------------------------------------------------------------------
  // Character classes of the validator's regular expressions

  /** `$safeoperatorchar`: minus, plus, slash, star and `%>:^~<?=&|!`. */
  predicate IsSafeOperator(c: char)
  {
    c in "-+/*%>:^~<?=&|!"
  }

  /** `$operatorornumber`: a safe operator, a digit, `.`, `e` or `E`. */
  predicate IsOperandChar(c: char)
  {
    IsSafeOperator(c) || c == '.' || ('0' <= c <= '9') || c == 'e' || c == 'E'
  }

  /** `[a-z0-9_]`, the characters of a function name. */
  predicate IsNameChar(c: char)
  {
    ('a' <= c <= 'z') || ('0' <= c <= '9') || c == '_'
  }

  /** The character that may precede a call: a safe operator, `,` or `(`. */
  predicate IsCallPrefix(c: char)
  {
    IsSafeOperator(c) || c == ',' || c == '('
  }

  /** Characters between the parentheses of a call. */
  predicate IsArgChar(c: char)
  {
    IsOperandChar(c) || c == ','
  }

  /** `[[:alpha:]]`. */
  predicate IsAlpha(c: char)
  {
    ('a' <= c <= 'z') || ('A' <= c <= 'Z')
  }

  /** `[^>} <\`{"']`, the characters after the first one of a placeholder name. */
  predicate IsPlaceholderChar(c: char)
  {
    !(c in ">} <`{\"'")
  }

  // ---------------------------------------------------------------------
  // Innermost calls

  /** A call shape matched by the validator's loop regex: the optional
      preceding character, the function name and the argument text. */
  datatype Call = Call(start: nat, prefix: string, name: string, args: string, end: nat)
  {
    /** The whole match, `$regs[0]`. */
    function Text(): string
    {
      prefix + name + "(" + args + ")"
    }

    /** Number of comma-separated arguments. */
    function Arity(): nat
    {
      if args == "" then 0 else CountChar(args, ',') + 1
    }

    predicate Shape()
    {
      |prefix| <= 1 && (forall i :: 0 <= i < |prefix| ==> IsCallPrefix(prefix[i])) &&
      (forall i :: 0 <= i < |name| ==> IsNameChar(name[i])) &&
      (forall i :: 0 <= i < |args| ==> IsArgChar(args[i])) &&
      WellFormedArgs(args)
    }
  }

  /** `(ON+(,ON+((,ON+)+)?)?)?`: empty, or non-empty pieces separated by
      single commas. */
  predicate WellFormedArgs(a: string)
  {
    a == [] ||
    (a[0] != ',' && a[|a| - 1] != ',' &&
     forall i :: 0 <= i < |a| - 1 ==> !DoubleComma(a, i))
  }

  predicate DoubleComma(a: string, i: nat)
  {
    i + 1 < |a| && a[i] == ',' && a[i + 1] == ','
  }

  /** `c` is a call shape that occurs in `f` at its own start index. */
  predicate IsMatch(f: string, c: Call)
  {
    c.Shape() && c.start < c.end <= |f| && f[c.start..c.end] == c.Text() &&
    (c.prefix == "" ==> c.start == 0)
  }

  /** The call read off `f` with its preceding character at `q..ns`, its
      name at `ns..ne`, `(` at `ne` and `)` at `ae`. */
  function CallOf(f: string, q: nat, ns: nat, ne: nat, ae: nat): (c: Call)
    requires q <= ns <= ne < ae < |f| && f[ne] == '(' && f[ae] == ')'
    requires ns == q || (ns == q + 1 && IsCallPrefix(f[q]))
    requires ns == q ==> q == 0
    requires forall i :: ns <= i < ne ==> IsNameChar(f[i])
    requires forall i :: ne + 1 <= i < ae ==> IsArgChar(f[i])
    requires WellFormedArgs(f[ne + 1..ae])
    ensures c.start == q && |c.prefix| == ns - q && IsMatch(f, c)
  {
    CallOfIsMatch(f, q, ns, ne, ae);
    Call(q, f[q..ns], f[ns..ne], f[ne + 1..ae], ae + 1)
  }

  lemma CallOfText(f: string, q: nat, ns: nat, ne: nat, ae: nat)
    requires q <= ns <= ne < ae < |f| && f[ne] == '(' && f[ae] == ')'
    ensures f[q..ae + 1] == Call(q, f[q..ns], f[ns..ne], f[ne + 1..ae], ae + 1).Text()
  {
    assert f[ne..ne + 1] == "(" && f[ae..ae + 1] == ")";
    assert f[q..ae + 1] == f[q..ns] + f[ns..ne] + f[ne..ne + 1] + f[ne + 1..ae] + f[ae..ae + 1];
  }

  lemma CallOfShape(f: string, q: nat, ns: nat, ne: nat, ae: nat)
    requires q <= ns <= ne < ae < |f|
    requires ns == q || (ns == q + 1 && IsCallPrefix(f[q]))
    requires forall i :: ns <= i < ne ==> IsNameChar(f[i])
    requires forall i :: ne + 1 <= i < ae ==> IsArgChar(f[i])
    requires WellFormedArgs(f[ne + 1..ae])
    ensures Call(q, f[q..ns], f[ns..ne], f[ne + 1..ae], ae + 1).Shape()
  {
    NameSlice(f, ns, ne);
    ArgSlice(f, ne + 1, ae);
  }

  lemma NameSlice(f: string, lo: nat, hi: nat)
    requires lo <= hi <= |f|
    requires forall i :: lo <= i < hi ==> IsNameChar(f[i])
    ensures forall i :: 0 <= i < |f[lo..hi]| ==> IsNameChar(f[lo..hi][i])
  {
    forall i | 0 <= i < |f[lo..hi]|
      ensures IsNameChar(f[lo..hi][i])
    {
      assert f[lo..hi][i] == f[lo + i];
    }
  }

  lemma ArgSlice(f: string, lo: nat, hi: nat)
    requires lo <= hi <= |f|
    requires forall i :: lo <= i < hi ==> IsArgChar(f[i])
    ensures forall i :: 0 <= i < |f[lo..hi]| ==> IsArgChar(f[lo..hi][i])
  {
    forall i | 0 <= i < |f[lo..hi]|
      ensures IsArgChar(f[lo..hi][i])
    {
      assert f[lo..hi][i] == f[lo + i];
    }
  }

  lemma CallOfIsMatch(f: string, q: nat, ns: nat, ne: nat, ae: nat)
    requires q <= ns <= ne < ae < |f| && f[ne] == '(' && f[ae] == ')'
    requires ns == q || (ns == q + 1 && IsCallPrefix(f[q]))
    requires ns == q ==> q == 0
    requires forall i :: ns <= i < ne ==> IsNameChar(f[i])
    requires forall i :: ne + 1 <= i < ae ==> IsArgChar(f[i])
    requires WellFormedArgs(f[ne + 1..ae])
    ensures IsMatch(f, Call(q, f[q..ns], f[ns..ne], f[ne + 1..ae], ae + 1))
  {
    CallOfText(f, q, ns, ne, ae);
    CallOfShape(f, q, ns, ne, ae);
  }

  /** The loop regex tried at index `q`: with the `^` alternative when
      `prefixed` is false (only at index 0), else with a preceding
      character at `q`. The name is the longest run of name characters,
      which must be followed by `(`; the arguments run up to `)`. */
  function MatchAt(f: string, q: nat, prefixed: bool): (r: Option<Call>)
    requires q <= |f|
    ensures r.Some? ==> r.value.start == q && (prefixed <==> r.value.prefix != "")
  {
    if prefixed && (q == |f| || !IsCallPrefix(f[q])) then None
    else if !prefixed && q != 0 then None
    else MatchName(f, q, if prefixed then q + 1 else q)
  }

  /** The name, parentheses and arguments of a call whose name starts at
      `ns`, after the preceding text `f[q..ns]`. */
  function MatchName(f: string, q: nat, ns: nat): (r: Option<Call>)
    requires q <= ns <= |f|
    requires ns == q || (ns == q + 1 && IsCallPrefix(f[q]))
    requires ns == q ==> q == 0
    ensures r.Some? ==> r.value.start == q && |r.value.prefix| == ns - q
    ensures r.Some? ==> IsMatch(f, r.value)
  {
    var ne := NameEnd(f, ns);
    if ne == |f| || f[ne] != '(' then None
    else
      var ae := ArgsEnd(f, ne + 1);
      if ae == |f| || f[ae] != ')' || !WellFormedArgs(f[ne + 1..ae]) then None
      else Some(CallOf(f, q, ns, ne, ae))
  }

  /** What the regex matches is a call shape at its own index. */
  lemma MatchAtIsMatch(f: string, q: nat, prefixed: bool)
    requires q <= |f|
    ensures MatchAt(f, q, prefixed).Some? ==> IsMatch(f, MatchAt(f, q, prefixed).value)
  {
    if MatchAt(f, q, prefixed).Some? {
      var ns := if prefixed then q + 1 else q;
      assert prefixed ==> IsCallPrefix(f[q]);
      assert !prefixed ==> q == 0;
      assert MatchAt(f, q, prefixed) == MatchName(f, q, ns);
    }
  }

  /** End of the longest run of name characters from `i`. */
  function NameEnd(f: string, i: nat): (r: nat)
    requires i <= |f|
    ensures i <= r <= |f| && (r < |f| ==> !IsNameChar(f[r]))
    ensures forall k :: i <= k < r ==> IsNameChar(f[k])
    decreases |f| - i
  {
    if i == |f| || !IsNameChar(f[i]) then i else NameEnd(f, i + 1)
  }

  /** End of the longest run of argument characters from `i`. */
  function ArgsEnd(f: string, i: nat): (r: nat)
    requires i <= |f|
    ensures i <= r <= |f| && (r < |f| ==> !IsArgChar(f[r]))
    ensures forall k :: i <= k < r ==> IsArgChar(f[k])
    decreases |f| - i
  {
    if i == |f| || !IsArgChar(f[i]) then i else ArgsEnd(f, i + 1)
  }

  /** The loop regex at index `q`: the `^` alternative first, then the
      one with a preceding character. */
  function MatchHere(f: string, q: nat): (r: Option<Call>)
    requires q <= |f|
    ensures r.Some? ==> r.value.start == q
  {
    var m0 := MatchAt(f, q, false);
    if m0.Some? then m0 else MatchAt(f, q, true)
  }

  /** Some alternative of the loop regex matches at index `q`. */
  predicate CallAt(f: string, q: nat)
    requires q <= |f|
  {
    MatchHere(f, q).Some?
  }

  /** `preg_match` of the loop regex from index `p`: the match at the
      leftmost index where one starts; none when no index has one. */
  function FindCallFrom(f: string, p: nat): (r: Option<Call>)
    requires p <= |f|
    ensures r.None? ==> forall q :: p <= q <= |f| ==> !CallAt(f, q)
    ensures r.Some? ==> p <= r.value.start <= |f| && r == MatchHere(f, r.value.start)
    ensures r.Some? ==> forall q :: p <= q < r.value.start ==> !CallAt(f, q)
    decreases |f| - p
  {
    var m := MatchHere(f, p);
    if m.Some? then m
    else if p == |f| then None
    else FindCallFrom(f, p + 1)
  }

  lemma {:induction false} FindCallFromIsMatch(f: string, p: nat)
    requires p <= |f|
    ensures FindCallFrom(f, p).Some? ==> IsMatch(f, FindCallFrom(f, p).value)
    decreases |f| - p
  {
    MatchAtIsMatch(f, p, false);
    MatchAtIsMatch(f, p, true);
    if MatchHere(f, p).None? && p < |f| {
      FindCallFromIsMatch(f, p + 1);
    }
  }

  /** The leftmost call of the formula. */
  function FindCall(f: string): (r: Option<Call>)
    ensures r.Some? ==> IsMatch(f, r.value)
  {
    FindCallFromIsMatch(f, 0);
    FindCallFrom(f, 0)
  }


  // ---------------------------------------------------------------------
  // The arity table

  const OneArgFunctions: seq<string> := [
    "abs", "acos", "acosh", "asin", "asinh", "atan", "atanh", "bindec", "ceil",
    "cos", "cosh", "decbin", "decoct", "deg2rad", "exp", "expm1", "floor",
    "is_finite", "is_infinite", "is_nan", "log10", "log1p", "octdec", "rad2deg",
    "sin", "sinh", "sqrt", "tan", "tanh"]

  /** The case groups of the validator's `switch`. */
  datatype ArityClass = Grouping | NoArgs | OneArg | OneOrTwo | ExactlyTwo | TwoOrMore | Unknown

  function ClassOf(name: string): ArityClass
  {
    if name == "" then Grouping
    else if name == "pi" then NoArgs
    else if name in OneArgFunctions then OneArg
    else if name == "log" || name == "round" then OneOrTwo
    else if name == "atan2" || name == "fmod" || name == "pow" then ExactlyTwo
    else if name == "min" || name == "max" then TwoOrMore
    else Unknown
  }

  /** The number of arguments each case group admits. */
  predicate Admits(k: ArityClass, n: nat)
  {
    match k
    case Grouping => n == 1
    case NoArgs => n == 0
    case OneArg => n == 1
    case OneOrTwo => n == 1 || n == 2
    case ExactlyTwo => n == 2
    case TwoOrMore => n >= 2
    case Unknown => false
  }

  /** The message a rejected call produces. */
  function ErrorFor(c: Call): FormulaError
  {
    match ClassOf(c.name)
    case Grouping => IllegalSyntax(c.Text())
    case NoArgs => TakesNoArgs(c.name)
    case OneArg => TakesOneArg(c.name)
    case OneOrTwo => TakesOneOrTwoArgs(c.name)
    case ExactlyTwo => TakesTwoArgs(c.name)
    case TwoOrMore => TakesAtLeastTwo(c.name)
    case Unknown => Unsupported(c.name)
  }

  /** The validation applied to each call, by arity (corrected form of the
      `switch`, see CheckCallAsWritten). */
  function CheckCall(c: Call): (r: Option<FormulaError>)
    ensures r.None? <==> Admits(ClassOf(c.name), c.Arity())
    ensures r.Some? ==> r.value == ErrorFor(c)
  {
    if Admits(ClassOf(c.name), c.Arity()) then None else Some(ErrorFor(c))
  }

  /** Capture groups 3, 4 and 5 of the loop regex, absent when they did
      not take part in the match. */
  function Group3(c: Call): Option<string>
  {
    if c.args == "" then None else Some(c.args)
  }

  function Group4(c: Call): Option<string>
  {
    var i := FindChar(c.args, ',', 0);
    if i == |c.args| then None else Some(c.args[i..])
  }

  function Group5(c: Call): Option<string>
  {
    var i := FindChar(c.args, ',', 0);
    if i == |c.args| then None
    else
      var j := FindChar(c.args, ',', i + 1);
      if j == |c.args| then None else Some(c.args[j..])
  }

  /** PHP's `empty()` on a capture group: missing, `""` or `"0"`. */
  predicate PhpEmpty(g: Option<string>)
  {
    g.None? || g.value == "" || g.value == "0"
  }

  /** The `switch` as written, with PHP's `empty()` tests. */
  function CheckCallAsWritten(c: Call): Option<FormulaError>
  {
    match ClassOf(c.name)
    case Grouping =>
      if Group4(c).Some? || |c.args| == 0 then Some(IllegalSyntax(c.Text())) else None
    case NoArgs =>
      if Group3(c).Some? then Some(TakesNoArgs(c.name)) else None
    case OneArg =>
      if !PhpEmpty(Group4(c)) || PhpEmpty(Group3(c)) then Some(TakesOneArg(c.name)) else None
    case OneOrTwo =>
      if !PhpEmpty(Group5(c)) || PhpEmpty(Group3(c)) then Some(TakesOneOrTwoArgs(c.name)) else None
    case ExactlyTwo =>
      if !PhpEmpty(Group5(c)) || PhpEmpty(Group4(c)) then Some(TakesTwoArgs(c.name)) else None
    case TwoOrMore =>
      if PhpEmpty(Group4(c)) then Some(TakesAtLeastTwo(c.name)) else None
    case Unknown =>
      Some(Unsupported(c.name))
  }

  /** Counting commas in a text split at its first comma. */
  lemma {:induction false} CommaSplit(a: string, from: nat)
    requires from <= |a|
    ensures FindChar(a, ',', from) == |a| <==> CountChar(a[from..], ',') == 0
    ensures FindChar(a, ',', from) < |a| ==>
              CountChar(a[from..], ',') == 1 + CountChar(a[FindChar(a, ',', from) + 1..], ',')
  {
    var i := FindChar(a, ',', from);
    assert a[from..] == a[from..i] + a[i..];
    CountCharNone(a[from..i], ',');
    CountCharAppend(a[from..i], a[i..], ',');
    if i < |a| {
      assert a[i..] == [a[i]] + a[i + 1..];
      CountCharAppend([a[i]], a[i + 1..], ',');
    }
  }

  /** Groups 4 and 5 are present exactly for a second and a third argument,
      and always start with a comma. */
  lemma GroupsByArity(c: Call)
    ensures Group3(c).Some? <==> c.Arity() >= 1
    ensures Group4(c).Some? <==> c.Arity() >= 2
    ensures Group5(c).Some? <==> c.Arity() >= 3
    ensures Group4(c).Some? ==> !PhpEmpty(Group4(c))
    ensures Group5(c).Some? ==> !PhpEmpty(Group5(c))
  {
    var a := c.args;
    CommaSplit(a, 0);
    assert a[0..] == a;
    var i := FindChar(a, ',', 0);
    if i < |a| {
      CommaSplit(a, i + 1);
    }
  }

  /** Apart from a single argument written `0`, the `switch` as written
      agrees with the arity table. */
  lemma {:induction false} CheckCallMatchesTable(c: Call)
    requires c.args != "0"
    ensures CheckCallAsWritten(c) == CheckCall(c)
  {
    GroupsByArity(c);
  }

  /** The `switch` as written rejects `sin(0)`: `empty("0")` is true in PHP,
      so the lone argument `0` reads as a missing one. */
  lemma SineOfZeroAsWritten()
    ensures CheckCallAsWritten(Call(0, "", "sin", "0", 6)) == Some(TakesOneArg("sin"))
    ensures CheckCall(Call(0, "", "sin", "0", 6)) == None
  {
    assert "sin" in OneArgFunctions;
  }

  // ---------------------------------------------------------------------
  // The rewrite loop

  /** Replaces the call by `1.0`: every occurrence of the match after a
      preceding character, or the match at the very start. */
  function Rewrite(f: string, c: Call): string
    requires IsMatch(f, c)
  {
    if c.prefix != "" then ReplaceAll(f, c.Text(), c.prefix + "1.0")
    else "1.0" + f[c.end..]
  }

  /** A match holds one `(` more than its preceding character. */
  lemma TextParens(c: Call)
    requires c.Shape()
    ensures CountChar(c.Text(), '(') == CountChar(c.prefix, '(') + 1
  {
    CountCharNone(c.name, '(');
    CountCharNone(c.args, '(');
    CountCharAppend(c.prefix, c.name, '(');
    CountCharAppend(c.prefix + c.name, "(", '(');
    CountCharAppend(c.prefix + c.name + "(", c.args, '(');
    CountCharAppend(c.prefix + c.name + "(" + c.args, ")", '(');
  }

  /** A formula in which a call is found holds a `(`. */
  lemma CallNeedsParen(f: string)
    ensures FindCall(f).Some? ==> CountChar(f, '(') >= 1
  {
    var r := FindCall(f);
    if r.Some? {
      var c := r.value;
      TextParens(c);
      CountCharSlice(f, c.start, c.end, '(');
    }
  }

  /** A text with no `(` holds no call. */
  lemma NoParenNoCall(f: string)
    requires forall i :: 0 <= i < |f| ==> f[i] != '('
    ensures FindCall(f).None?
  {
    CountCharNone(f, '(');
    CallNeedsParen(f);
  }

  /** The measure of the loop: each rewrite removes at least one `(`. */
  lemma RewriteDropsParen(f: string, c: Call)
    requires IsMatch(f, c)
    ensures CountChar(Rewrite(f, c), '(') < CountChar(f, '(')
  {
    var t := c.Text();
    TextParens(c);
    CountCharNone("1.0", '(');
    if c.prefix != "" {
      CountCharAppend(c.prefix, "1.0", '(');
      assert OccursAt(f, t, c.start);
      ReplaceAllCount(f, t, c.prefix + "1.0", '(');
    } else {
      var rest := f[c.end..];
      assert f == t + rest;
      CountCharAppend(t, rest, '(');
      CountCharAppend("1.0", rest, '(');
    }
  }

  /** The loop: checks the leftmost innermost call against the arity table
      and either stops with its message or rewrites it, until no call is left. */
  function Reduce(f: string): (r: Result<string, FormulaError>)
    ensures r.Success? ==> FindCall(r.value).None?
    ensures r.Success? ==> CountChar(r.value, '(') <= CountChar(f, '(')
    decreases CountChar(f, '(')
  {
    match FindCall(f)
    case None => Success(f)
    case Some(c) =>
      var e := CheckCall(c);
      if e.Some? then Failure(e.value)
      else
        RewriteDropsParen(f, c);
        Reduce(Rewrite(f, c))
  }

  // ---------------------------------------------------------------------
  // Placeholders and normalisation

  /** `\{[[:alpha:]][^>} <\`{"']*\}` at index `j` (which holds `{`): the
      index just after the closing `}`. */
  function PlaceholderEnd(t: string, j: nat): (r: Option<nat>)
    requires j < |t|
    ensures r.Some? ==> j + 3 <= r.value <= |t| && t[j] == '{' && IsAlpha(t[j + 1])
    ensures r.Some? ==> t[r.value - 1] == '}'
    ensures r.Some? ==> forall i :: j + 2 <= i < r.value - 1 ==> IsPlaceholderChar(t[i])
  {
    if t[j] != '{' || j + 1 == |t| || !IsAlpha(t[j + 1]) then None
    else
      var k := RunEnd(t, j + 2, IsPlaceholderChar);
      if k < |t| && t[k] == '}' then Some(k + 1) else None
  }

  /** `preg_replace(PLACEHODLER_REGEX, '1.0', $f)`. */
  function StripPlaceholders(f: string): (r: string)
    decreases |f|
  {
    if f == [] then f
    else
      match PlaceholderEnd(f, 0)
      case Some(k) => "1.0" + StripPlaceholders(f[k..])
      case None => [f[0]] + StripPlaceholders(f[1..])
  }

  lemma {:induction false} StripWithoutBraces(f: string)
    requires forall i :: 0 <= i < |f| ==> f[i] != '{'
    ensures StripPlaceholders(f) == f
    decreases |f|
  {
    if f != [] {
      StripWithoutBraces(f[1..]);
      assert f == [f[0]] + f[1..];
    }
  }

  /** Placeholders replaced by `1.0`, spaces removed, lower case. */
  function Normalise(f: string): string
  {
    ToLower(ReplaceAll(StripPlaceholders(f), " ", ""))
  }

  /** The first maximal run of characters outside `$operatorornumber`. */
  function FirstUnsafeRun(f: string): (r: Option<string>)
    ensures r.None? <==> forall i :: 0 <= i < |f| ==> IsOperandChar(f[i])
    ensures r.Some? ==> r.value != [] && Contains(f, r.value)
    ensures r.Some? ==> forall i :: 0 <= i < |r.value| ==> !IsOperandChar(r.value[i])
  {
    var i := RunEnd(f, 0, IsOperandChar);
    if i == |f| then None
    else
      var j := RunEnd(f, i, c => !IsOperandChar(c));
      assert OccursAt(f, f[i..j], i);
      Some(f[i..j])
  }

  // ---------------------------------------------------------------------
  // The validator

  /** What `qtype_randomdata_find_formula_errors` returns: `None` for
      `false` (no problem found), else the message. */
  function FormulaErrors(f: string): Option<FormulaError>
  {
    match FirstMarker(f, CommentMarkers)
    case Some(m) => Some(IllegalSyntax(m))
    case None =>
      match Reduce(Normalise(f))
      case Failure(e) => Some(e)
      case Success(g) =>
        match FirstUnsafeRun(g)
        case Some(s) => Some(IllegalSyntax(s))
        case None => None
  }

  /** The validator as the source runs it: the marker loop, then the
      rewrite loop on the normalised formula, then the final check. */
  method FindFormulaErrors(formula: string) returns (r: Option<FormulaError>)
    ensures r == FormulaErrors(formula)
  {
    var k := 0;
    while k < |CommentMarkers|
      invariant 0 <= k <= |CommentMarkers|
      invariant forall j :: 0 <= j < k ==> !Contains(formula, CommentMarkers[j])
    {
      if Contains(formula, CommentMarkers[k]) {
        return Some(IllegalSyntax(CommentMarkers[k]));
      }
      k := k + 1;
    }
    var g := Normalise(formula);
    while true
      invariant Reduce(g) == Reduce(Normalise(formula))
      decreases CountChar(g, '(')
    {
      var m := FindCall(g);
      if m.None? {
        break;
      }
      var c := m.value;
      var e := CheckCall(c);
      if e.Some? {
        return e;
      }
      RewriteDropsParen(g, c);
      g := Rewrite(g, c);
    }
    var bad := FirstUnsafeRun(g);
    if bad.Some? {
      return Some(IllegalSyntax(bad.value));
    }
    return None;
  }

  /** A formula with a comment or PHP-tag marker is rejected, naming the
      first marker of the list that it contains. */
  lemma MarkerRejected(f: string, k: nat)
    requires k < |CommentMarkers| && Contains(f, CommentMarkers[k])
    requires forall j :: 0 <= j < k ==> !Contains(f, CommentMarkers[j])
    ensures FormulaErrors(f) == Some(IllegalSyntax(CommentMarkers[k]))
  {
    var r := FirstMarker(f, CommentMarkers);
    var k' :| 0 <= k' < |CommentMarkers| && CommentMarkers[k'] == r.value &&
      Contains(f, CommentMarkers[k']) && forall j :: 0 <= j < k' ==> !Contains(f, CommentMarkers[j]);
    assert !(k' < k) && !(k < k');
  }

  /** An accepted formula has no marker, every call in it passed the arity
      table, and what is left after the rewrites is safe characters only. */
  lemma AcceptedIsSafe(f: string)
    requires FormulaErrors(f).None?
    ensures forall k :: 0 <= k < |CommentMarkers| ==> !Contains(f, CommentMarkers[k])
    ensures Reduce(Normalise(f)).Success?
    ensures forall i :: 0 <= i < |Reduce(Normalise(f)).value| ==>
              IsOperandChar(Reduce(Normalise(f)).value[i])
  {
  }

  /** Without `{`, ` ` or `(`, normalising only lowers the case. */
  lemma NormalisePlain(f: string)
    requires forall i :: 0 <= i < |f| ==> f[i] != '{' && f[i] != ' '
    ensures Normalise(f) == ToLower(f)
  {
    StripWithoutBraces(f);
    forall i | 0 <= i <= |f| - 1
      ensures !OccursAt(f, " ", i)
    {
      assert f[i..i + 1] == [f[i]];
    }
    ReplaceAllAbsent(f, " ", "");
  }

  /** The rewrite loop leaves a formula without calls as it is. */
  lemma ReduceWithoutCall(g: string)
    requires FindCall(g).None?
    ensures Reduce(g) == Success(g)
  {
  }

  /** Lowering the case keeps operand characters operand characters. */
  lemma LowerKeepsOperands(f: string)
    requires forall i :: 0 <= i < |f| ==> IsOperandChar(f[i])
    ensures forall i :: 0 <= i < |ToLower(f)| ==> IsOperandChar(ToLower(f)[i])
    ensures forall i :: 0 <= i < |ToLower(f)| ==> ToLower(f)[i] != '('
  {
    var g := ToLower(f);
    forall i | 0 <= i < |g|
      ensures IsOperandChar(g[i]) && g[i] != '('
    {
      assert g[i] == LowerChar(f[i]);
    }
  }

  /** A formula without a marker whose rewrites end in safe characters is
      accepted. */
  lemma AcceptedWhen(f: string, g: string)
    requires forall k :: 0 <= k < |CommentMarkers| ==> !Contains(f, CommentMarkers[k])
    requires Reduce(Normalise(f)) == Success(g)
    requires forall i :: 0 <= i < |g| ==> IsOperandChar(g[i])
    ensures FormulaErrors(f) == None
  {
    assert FirstMarker(f, CommentMarkers).None?;
    assert FirstUnsafeRun(g).None?;
  }

  /** A text of operand characters alone (numbers and operators, no name,
      parenthesis or placeholder) is accepted when it has no marker. */
  lemma AcceptsPlainArithmetic(f: string)
    requires forall i :: 0 <= i < |f| ==> IsOperandChar(f[i])
    requires forall k :: 0 <= k < |CommentMarkers| ==> !Contains(f, CommentMarkers[k])
    ensures FormulaErrors(f) == None
  {
    NormalisePlain(f);
    LowerKeepsOperands(f);
    NoParenNoCall(ToLower(f));
    ReduceWithoutCall(ToLower(f));
    AcceptedWhen(f, ToLower(f));
  }

  /** The names of the one-argument functions are made of name characters. */
  lemma OneArgNames(name: string)
    requires name in OneArgFunctions
    ensures forall i :: 0 <= i < |name| ==> IsNameChar(name[i])
  {
    var k :| 0 <= k < |OneArgFunctions| && OneArgFunctions[k] == name;
    OneArgNameAt(k);
  }

  lemma OneArgNameAt(k: nat)
    requires k < |OneArgFunctions|
    ensures forall i :: 0 <= i < |OneArgFunctions[k]| ==> IsNameChar(OneArgFunctions[k][i])
  {
  }

  /** A text of name characters and parentheses holds no marker: every
      marker starts with `/`, `#`, `<` or `?`. */
  lemma NoMarkerIn(f: string)
    requires forall i :: 0 <= i < |f| ==> IsNameChar(f[i]) || f[i] == '(' || f[i] == ')'
    ensures forall k :: 0 <= k < |CommentMarkers| ==> !Contains(f, CommentMarkers[k])
  {
    forall k, i | 0 <= k < |CommentMarkers| && 0 <= i <= |f| - |CommentMarkers[k]|
      ensures !OccursAt(f, CommentMarkers[k], i)
    {
      assert CommentMarkers[k][0] in "/#<?";
    }
  }

  /** A call matched at the very start is the leftmost one. */
  lemma StartMatchFound(f: string)
    requires MatchName(f, 0, 0).Some?
    ensures FindCall(f) == MatchName(f, 0, 0)
  {
    assert MatchAt(f, 0, false) == MatchName(f, 0, 0);
    assert MatchHere(f, 0) == MatchName(f, 0, 0);
    assert FindCallFrom(f, 0) == MatchHere(f, 0);
  }

  /** The end of the name run is the first character that is not one. */
  lemma NameEndAt(f: string, i: nat, e: nat)
    requires i <= e < |f| && !IsNameChar(f[e])
    requires forall k :: i <= k < e ==> IsNameChar(f[k])
    ensures NameEnd(f, i) == e
  {
  }

  /** The end of the argument run is the first character that is not one. */
  lemma ArgsEndAt(f: string, i: nat, e: nat)
    requires i <= e < |f| && !IsArgChar(f[e])
    requires forall k :: i <= k < e ==> IsArgChar(f[k])
    ensures ArgsEnd(f, i) == e
  {
  }

  /** The `^` alternative matches a text that opens with a name, `(`,
      digits and a closing `)` as one call. */
  lemma StartCallMatched(f: string, n: nat)
    requires n + 1 < |f| && f[n] == '(' && f[|f| - 1] == ')'
    requires forall i :: 0 <= i < n ==> IsNameChar(f[i])
    requires forall i :: n + 1 <= i < |f| - 1 ==> '0' <= f[i] <= '9'
    ensures MatchName(f, 0, 0) == Some(Call(0, "", f[..n], f[n + 1..|f| - 1], |f|))
  {
    var ae := |f| - 1;
    NameEndAt(f, 0, n);
    ArgsEndAt(f, n + 1, ae);
    var args := f[n + 1..ae];
    assert forall i :: 0 <= i < |args| ==> args[i] == f[n + 1 + i];
    assert WellFormedArgs(args);
  }

  /** One turn of the rewrite loop over an admitted call. */
  lemma ReduceStep(f: string, c: Call)
    requires FindCall(f) == Some(c) && CheckCall(c).None?
    ensures Reduce(f) == Reduce(Rewrite(f, c))
  {
  }

  /** The arity table admits such a call when it admits one argument for
      its name. */
  lemma WholeCallAdmitted(f: string, n: nat)
    requires n + 2 < |f|
    requires forall i :: n + 1 <= i < |f| - 1 ==> '0' <= f[i] <= '9'
    requires ClassOf(f[..n]) == OneArg
    ensures CheckCall(Call(0, "", f[..n], f[n + 1..|f| - 1], |f|)).None?
  {
    var c := Call(0, "", f[..n], f[n + 1..|f| - 1], |f|);
    var args := f[n + 1..|f| - 1];
    assert forall i :: 0 <= i < |args| ==> args[i] == f[n + 1 + i];
    CountCharNone(args, ',');
    assert c.Arity() == 1;
  }

  /** A call spanning the whole text is rewritten to `1.0`. */
  lemma WholeCallRewritten(f: string, c: Call)
    requires IsMatch(f, c) && c.prefix == "" && c.end == |f|
    ensures Rewrite(f, c) == "1.0"
  {
    assert f[c.end..] == [];
  }

  /** `1.0`, what every call is rewritten to, is left as it is. */
  lemma OneReduces()
    ensures Reduce("1.0") == Success("1.0")
  {
    NoParenNoCall("1.0");
    ReduceWithoutCall("1.0");
  }

  /** A name, `(`, digits and `)` are name characters and parentheses. */
  lemma CallTextChars(f: string, n: nat)
    requires n + 1 < |f| && f[n] == '(' && f[|f| - 1] == ')'
    requires forall i :: 0 <= i < n ==> IsNameChar(f[i])
    requires forall i :: n + 1 <= i < |f| - 1 ==> '0' <= f[i] <= '9'
    ensures forall i :: 0 <= i < |f| ==> IsNameChar(f[i]) || f[i] == '(' || f[i] == ')'
  {
    forall i | 0 <= i < |f|
      ensures IsNameChar(f[i]) || f[i] == '(' || f[i] == ')'
    {
      if n < i < |f| - 1 {
        assert '0' <= f[i] <= '9';
      }
    }
  }

  /** Such a call, once the arity table admits it, is accepted. */
  lemma AcceptsWholeCall(f: string, n: nat)
    requires n + 2 < |f| && f[n] == '(' && f[|f| - 1] == ')'
    requires forall i :: 0 <= i < n ==> IsNameChar(f[i])
    requires forall i :: n + 1 <= i < |f| - 1 ==> '0' <= f[i] <= '9'
    requires CheckCall(Call(0, "", f[..n], f[n + 1..|f| - 1], |f|)).None?
    ensures FormulaErrors(f) == None
  {
    CallTextChars(f, n);
    NoMarkerIn(f);
    NormalisePlain(f);
    assert ToLower(f) == f;
    StartCallMatched(f, n);
    StartMatchFound(f);
    var c := Call(0, "", f[..n], f[n + 1..|f| - 1], |f|);
    ReduceStep(f, c);
    WholeCallRewritten(f, c);
    OneReduces();
    AcceptedWhen(f, "1.0");
  }

  /** A one-argument function applied to a whole number, `sin(30)` say, is
      accepted: the call is found at the start, the arity table admits its
      one argument, and it is rewritten to `1.0`. */
  lemma AcceptsOneArgCall(name: string, arg: string)
    requires ClassOf(name) == OneArg
    requires arg != [] && forall i :: 0 <= i < |arg| ==> '0' <= arg[i] <= '9'
    ensures FormulaErrors(name + "(" + arg + ")") == None
  {
    var f := name + "(" + arg + ")";
    var n := |name|;
    OneArgNames(name);
    assert f[..n] == name && f[n + 1..|f| - 1] == arg;
    assert forall i :: 0 <= i < n ==> f[i] == name[i];
    assert forall i :: n + 1 <= i < |f| - 1 ==> f[i] == arg[i - n - 1];
    WholeCallAdmitted(f, n);
    AcceptsWholeCall(f, n);
  }

  // ---------------------------------------------------------------------
  // Formulas and placeholders in a text

  /** `[^{}]*(?:\{PART\}[^{}]*)*` from index `i`: the index of the `}`
      that closes the formula, or None when the text does not close it. */
  function FormulaBodyEnd(t: string, i: nat): (r: Option<nat>)
    requires i <= |t|
    ensures r.Some? ==> i <= r.value < |t| && t[r.value] == '}'
    decreases |t| - i
  {
    var j := RunEnd(t, i, c => c != '{' && c != '}');
    if j == |t| then None
    else if t[j] == '}' then Some(j)
    else
      match PlaceholderEnd(t, j)
      case None => None
      case Some(k) => FormulaBodyEnd(t, k)
  }

  /** The text `t[i..e]` is an opening, a body and a closing `}`. */
  lemma BracedAt(t: string, i: nat, open: string, e: nat)
    requires i + |open| < e <= |t| && t[i..i + |open|] == open && t[e - 1] == '}'
    ensures Contains(t, open + t[i + |open|..e - 1] + "}")
  {
    var x := open + t[i + |open|..e - 1] + "}";
    assert t[i..e] == t[i..i + |open|] + t[i + |open|..e - 1] + t[e - 1..e];
    assert t[i..e] == x;
    assert OccursAt(t, x, i);
  }

  /** The bodies of all `{=...}` formulas from index `i`, left to right,
      matches not overlapping. */
  function FormulasFrom(t: string, i: nat): (r: seq<string>)
    requires i <= |t|
    ensures forall f :: f in r ==> Contains(t, "{=" + f + "}")
    decreases |t| - i
  {
    if i + 1 >= |t| then []
    else if t[i] == '{' && t[i + 1] == '=' then
      match FormulaBodyEnd(t, i + 2)
      case Some(j) =>
        assert t[i..i + 2] == "{=";
        BracedAt(t, i, "{=", j + 1);
        [t[i + 2..j]] + FormulasFrom(t, j + 1)
      case None => FormulasFrom(t, i + 1)
    else FormulasFrom(t, i + 1)
  }

  /** `find_formulas`: each formula once, in order of first occurrence. */
  function FindFormulas(t: string): (r: seq<string>)
    ensures forall f :: f in r ==> Contains(t, "{=" + f + "}")
    ensures forall i, j :: 0 <= i < j < |r| ==> r[i] != r[j]
  {
    Unique(FormulasFrom(t, 0), {})
  }

  /** The names of all `{name}` placeholders from index `i`, left to right. */
  function PlaceholdersFrom(t: string, i: nat): (r: seq<string>)
    requires i <= |t|
    ensures forall n :: n in r ==> Contains(t, "{" + n + "}")
    ensures forall n :: n in r ==> n != [] && IsAlpha(n[0])
    decreases |t| - i
  {
    if i == |t| then []
    else
      match PlaceholderEnd(t, i)
      case Some(k) =>
        assert t[i..i + 1] == "{";
        BracedAt(t, i, "{", k);
        [t[i + 1..k - 1]] + PlaceholdersFrom(t, k)
      case None => PlaceholdersFrom(t, i + 1)
  }

  /** `find_dataset_names`: each placeholder name once. */
  function FindDatasetNames(t: string): (r: seq<string>)
    ensures forall n :: n in r ==> Contains(t, "{" + n + "}")
    ensures forall i, j :: 0 <= i < j < |r| ==> r[i] != r[j]
  {
    Unique(PlaceholdersFrom(t, 0), {})
  }

  /** The messages of the formulas in `fs` that fail, in order. */
  function FailuresOf(fs: seq<string>): (r: seq<FormulaError>)
    ensures |r| <= |fs|
    ensures r == [] <==> forall j :: 0 <= j < |fs| ==> FormulaErrors(fs[j]).None?
    ensures forall e :: e in r ==> exists j :: 0 <= j < |fs| && FormulaErrors(fs[j]) == Some(e)
  {
    if fs == [] then []
    else
      var init := FailuresOf(fs[..|fs| - 1]);
      var last := FormulaErrors(fs[|fs| - 1]);
      assert forall j :: 0 <= j < |fs| - 1 ==> fs[..|fs| - 1][j] == fs[j];
      if last.Some? then init + [last.value] else init
  }

  lemma FailuresOfSnoc(fs: seq<string>, f: string)
    ensures FailuresOf(fs + [f]) ==
              match FormulaErrors(f) case Some(e) => FailuresOf(fs) + [e] case None => FailuresOf(fs)
  {
    assert (fs + [f])[..|fs|] == fs;
  }

  /** `qtype_randomdata_find_formula_errors_in_text`: the messages of the
      formulas that fail, in order (the source joins them with spaces);
      empty when the text returns `false`. */
  method FindFormulaErrorsInText(text: string) returns (errors: seq<FormulaError>)
    ensures errors == FailuresOf(FindFormulas(text))
  {
    var formulas := FindFormulas(text);
    errors := [];
    var k := 0;
    while k < |formulas|
      invariant 0 <= k <= |formulas|
      invariant errors == FailuresOf(formulas[..k])
    {
      var error := FindFormulaErrors(formulas[k]);
      assert formulas[..k + 1] == formulas[..k] + [formulas[k]];
      FailuresOfSnoc(formulas[..k], formulas[k]);
      if error.Some? {
        errors := errors + [error.value];
      }
      k := k + 1;
    }
    assert formulas[..k] == formulas;
  }
}
