/** The PHP string primitives the core relies on (strpos, str_replace,
    strtolower, explode, trim, implode), written out over `seq<char>`. */
module Text {
  import opened Wrappers

  /** `pat` occurs in `s` starting at index `i`. */
  predicate OccursAt(s: string, pat: string, i: int)
  {
    0 <= i && i + |pat| <= |s| && s[i..i + |pat|] == pat
  }

  /** `strpos($s, $pat) !== false`. */
  predicate Contains(s: string, pat: string)
  {
    exists i :: 0 <= i <= |s| - |pat| && OccursAt(s, pat, i)
  }

  /** Number of occurrences of the character `c` in `s`. */
  function CountChar(s: string, c: char): nat
  {
    if s == [] then 0 else (if s[0] == c then 1 else 0) + CountChar(s[1..], c)
  }

  lemma {:induction false} CountCharAppend(a: string, b: string, c: char)
    ensures CountChar(a + b, c) == CountChar(a, c) + CountChar(b, c)
  {
    if a == [] {
      assert a + b == b;
    } else {
      assert (a + b)[1..] == a[1..] + b;
      CountCharAppend(a[1..], b, c);
    }
  }

  /** A text in which no character equals `c` has no `c` to count. */
  lemma {:induction false} CountCharNone(s: string, c: char)
    requires forall i :: 0 <= i < |s| ==> s[i] != c
    ensures CountChar(s, c) == 0
  {
    if s != [] {
      CountCharNone(s[1..], c);
    }
  }

  /** A slice has no more copies of `c` than the whole text. */
  lemma CountCharSlice(s: string, i: nat, j: nat, c: char)
    requires i <= j <= |s|
    ensures CountChar(s[i..j], c) <= CountChar(s, c)
  {
    assert s == s[..i] + s[i..j] + s[j..];
    CountCharAppend(s[..i], s[i..j], c);
    CountCharAppend(s[..i] + s[i..j], s[j..], c);
  }

  /** `str_replace($pat, $rep, $s)`: scans left to right and replaces every
      non-overlapping occurrence of `pat`, resuming after each replacement. */
  function ReplaceAll(s: string, pat: string, rep: string): string
    requires |pat| > 0
    decreases |s|
  {
    if |s| < |pat| then s
    else if s[..|pat|] == pat then rep + ReplaceAll(s[|pat|..], pat, rep)
    else [s[0]] + ReplaceAll(s[1..], pat, rep)
  }

  /** Replacing `pat` by a text with no more copies of `c` never adds a `c`;
      it removes at least one when `pat` occurs and has strictly more. */
  lemma {:induction false} ReplaceAllCount(s: string, pat: string, rep: string, c: char)
    requires |pat| > 0
    requires CountChar(rep, c) <= CountChar(pat, c)
    ensures CountChar(ReplaceAll(s, pat, rep), c) <= CountChar(s, c)
    ensures Contains(s, pat) && CountChar(rep, c) < CountChar(pat, c) ==>
              CountChar(ReplaceAll(s, pat, rep), c) < CountChar(s, c)
    decreases |s|
  {
    if |s| < |pat| {
    } else if s[..|pat|] == pat {
      ReplaceAllCount(s[|pat|..], pat, rep, c);
      CountCharAppend(rep, ReplaceAll(s[|pat|..], pat, rep), c);
      assert s == s[..|pat|] + s[|pat|..];
      CountCharAppend(s[..|pat|], s[|pat|..], c);
    } else {
      ReplaceAllCount(s[1..], pat, rep, c);
      CountCharAppend([s[0]], ReplaceAll(s[1..], pat, rep), c);
      assert s == [s[0]] + s[1..];
      CountCharAppend([s[0]], s[1..], c);
      if Contains(s, pat) && CountChar(rep, c) < CountChar(pat, c) {
        var i :| 0 <= i <= |s| - |pat| && OccursAt(s, pat, i);
        assert i != 0;
        OccursShift(s, pat, i - 1);
      }
    }
  }

  /** Occurrences in `s[1..]` are those in `s`, one index to the left. */
  lemma OccursShift(s: string, pat: string, j: nat)
    requires |s| > 0
    ensures OccursAt(s[1..], pat, j) <==> OccursAt(s, pat, j + 1)
  {
    if 0 <= j && j + |pat| <= |s| - 1 {
      assert s[1..][j..j + |pat|] == s[j + 1..j + 1 + |pat|];
    }
  }

  /** A prefix of `s` in which no occurrence of `pat` starts is copied
      through unchanged by ReplaceAll. */
  lemma {:induction false} ReplaceAllSkip(a: string, b: string, pat: string, rep: string)
    requires |pat| > 0
    requires forall j :: 0 <= j < |a| ==> !OccursAt(a + b, pat, j)
    ensures ReplaceAll(a + b, pat, rep) == a + ReplaceAll(b, pat, rep)
    decreases |a|
  {
    if a != [] {
      var s := a + b;
      var t := a[1..] + b;
      assert s[1..] == t;
      forall j | 0 <= j < |a[1..]|
        ensures !OccursAt(t, pat, j)
      {
        OccursShift(s, pat, j);
      }
      ReplaceAllSkip(a[1..], b, pat, rep);
      assert a == [a[0]] + a[1..];
      if |s| >= |pat| {
        assert !OccursAt(s, pat, 0);
        assert ReplaceAll(s, pat, rep) == [s[0]] + ReplaceAll(t, pat, rep);
        assert s[0] == a[0];
        assert [a[0]] + (a[1..] + ReplaceAll(b, pat, rep)) == a + ReplaceAll(b, pat, rep);
      } else {
        assert ReplaceAll(s, pat, rep) == s;
        assert ReplaceAll(b, pat, rep) == b;
      }
    } else {
      assert a + b == b;
    }
  }

  /** The first index at or after `from` where `pat` occurs, if any. */
  function FindFrom(s: string, pat: string, from: nat): (r: Option<nat>)
    requires from <= |s|
    ensures r.Some? ==> from <= r.value && OccursAt(s, pat, r.value)
    ensures r.Some? ==> forall j :: from <= j < r.value ==> !OccursAt(s, pat, j)
    ensures r.None? ==> forall j :: from <= j <= |s| ==> !OccursAt(s, pat, j)
    decreases |s| - from
  {
    if OccursAt(s, pat, from) then Some(from)
    else if from == |s| then None
    else FindFrom(s, pat, from + 1)
  }

  /** `explode($pat, $s)`: the pieces between the occurrences of `pat`,
      found left to right without overlap. */
  function SplitOn(s: string, pat: string): (r: seq<string>)
    requires |pat| > 0
    ensures |r| > 0 && Join(r, pat) == s
    ensures forall i :: 0 <= i < |r| ==> !Contains(r[i], pat)
    decreases |s|
  {
    match FindFrom(s, pat, 0)
    case None => [s]
    case Some(i) =>
      var head := s[..i];
      var rest := SplitOn(s[i + |pat|..], pat);
      forall j | 0 <= j <= |head| - |pat|
        ensures !OccursAt(head, pat, j)
      {
        assert head[j..j + |pat|] == s[j..j + |pat|];
        assert j < i && !OccursAt(s, pat, j);
      }
      assert s == head + pat + s[i + |pat|..];
      [head] + rest
  }

  /** `str_replace` is `explode` followed by `implode` with the replacement,
      for a pattern that cannot overlap itself. */
  lemma ReplaceAllSplit(s: string, pat: string, rep: string)
    requires HeadIsUnique(pat)
    ensures ReplaceAll(s, pat, rep) == Join(SplitOn(s, pat), rep)
  {
    ReplaceAllJoin(SplitOn(s, pat), pat, rep);
  }

  /** `implode($sep, $pieces)`. */
  function Join(pieces: seq<string>, sep: string): string
    requires |pieces| > 0
  {
    if |pieces| == 1 then pieces[0] else pieces[0] + sep + Join(pieces[1..], sep)
  }

  /** The first character of `pat` does not occur again inside it
      (true of every `{name}` whose name has no `{`). */
  predicate HeadIsUnique(pat: string)
  {
    |pat| > 0 && forall k :: 0 < k < |pat| ==> pat[k] != pat[0]
  }

  /** In a text built from pieces free of `pat`, separated by `pat`,
      ReplaceAll replaces exactly the separators. */
  lemma {:induction false} ReplaceAllJoin(pieces: seq<string>, pat: string, rep: string)
    requires |pieces| > 0 && HeadIsUnique(pat)
    requires forall i :: 0 <= i < |pieces| ==> !Contains(pieces[i], pat)
    ensures ReplaceAll(Join(pieces, pat), pat, rep) == Join(pieces, rep)
    decreases |pieces|
  {
    var a := pieces[0];
    if |pieces| == 1 {
      ReplaceAllAbsent(a, pat, rep);
    } else {
      var rest := Join(pieces[1..], pat);
      var b := pat + rest;
      assert Join(pieces, pat) == a + b;
      forall j | 0 <= j < |a|
        ensures !OccursAt(a + b, pat, j)
      {
        if j + |pat| <= |a| {
          assert (a + b)[j..j + |pat|] == a[j..j + |pat|];
          assert !OccursAt(a, pat, j);
        } else if j + |pat| <= |a + b| {
          var k := |a| - j;
          assert (a + b)[j..j + |pat|][k] == (a + b)[|a|] == pat[0] != pat[k];
        }
      }
      ReplaceAllSkip(a, b, pat, rep);
      assert b[..|pat|] == pat;
      assert b[|pat|..] == rest;
      ReplaceAllJoin(pieces[1..], pat, rep);
    }
  }

  /** Without an occurrence of `pat`, ReplaceAll is the identity. */
  lemma {:induction false} ReplaceAllAbsent(s: string, pat: string, rep: string)
    requires |pat| > 0 && !Contains(s, pat)
    ensures ReplaceAll(s, pat, rep) == s
  {
    forall j | 0 <= j < |s|
      ensures !OccursAt(s + [], pat, j)
    {
      assert s + [] == s;
      if j <= |s| - |pat| {
        assert !OccursAt(s, pat, j);
      }
    }
    ReplaceAllSkip(s, [], pat, rep);
    assert s + [] == s;
  }

  /** End of the run of characters satisfying `p` that starts at `from`:
      the first index at or after `from` whose character fails `p`, or |s|. */
  function RunEnd(s: string, from: nat, p: char -> bool): (r: nat)
    requires from <= |s|
    ensures from <= r <= |s|
    ensures forall i :: from <= i < r ==> p(s[i])
    ensures r < |s| ==> !p(s[r])
    decreases |s| - from
  {
    if from == |s| || !p(s[from]) then from else RunEnd(s, from + 1, p)
  }

  /** `strtolower` on one character (ASCII letters only, as in PHP 8). */
  function LowerChar(c: char): char
  {
    if 'A' <= c <= 'Z' then (c as int + 32) as char else c
  }

  /** `strtolower`. */
  function ToLower(s: string): (r: string)
    ensures |r| == |s| && forall i :: 0 <= i < |s| ==> r[i] == LowerChar(s[i])
  {
    seq(|s|, i requires 0 <= i < |s| => LowerChar(s[i]))
  }

  /** Index of the first `c` in `s` at or after `from`, or |s| when none. */
  function FindChar(s: string, c: char, from: nat): (r: nat)
    requires from <= |s|
    ensures from <= r <= |s|
    ensures forall i :: from <= i < r ==> s[i] != c
    ensures r < |s| ==> s[r] == c
  {
    RunEnd(s, from, x => x != c)
  }

  /** `explode($c, $s)` with no limit. */
  function Split(s: string, c: char): (r: seq<string>)
    ensures |r| > 0
    decreases |s|
  {
    var i := FindChar(s, c, 0);
    if i == |s| then [s] else [s[..i]] + Split(s[i + 1..], c)
  }

  /** Joining the pieces with `c` gives the text back, and no piece holds
      a `c`. */
  lemma {:induction false} SplitJoin(s: string, c: char)
    ensures Join(Split(s, c), [c]) == s
    ensures forall k :: 0 <= k < |Split(s, c)| ==> Lacks(Split(s, c)[k], c)
    decreases |s|
  {
    var i := FindChar(s, c, 0);
    if i < |s| {
      SplitJoin(s[i + 1..], c);
      assert s == s[..i] + [c] + s[i + 1..];
    }
  }

  /** No character of `s` is `c`. */
  predicate Lacks(s: string, c: char)
  {
    forall i :: 0 <= i < |s| ==> s[i] != c
  }

  /** Splitting a text that starts with a piece free of `c` and then `c`
      yields that piece first. */
  lemma SplitCons(a: string, b: string, c: char)
    requires Lacks(a, c)
    ensures Split(a + [c] + b, c) == [a] + Split(b, c)
  {
    var s := a + [c] + b;
    assert s[|a|] == c;
    assert FindChar(s, c, 0) == |a|;
    assert s[..|a|] == a && s[|a| + 1..] == b;
  }

  /** Splitting undoes joining, for pieces free of `c`. */
  lemma {:induction false} SplitOfJoin(ps: seq<string>, c: char)
    requires |ps| > 0 && forall k :: 0 <= k < |ps| ==> Lacks(ps[k], c)
    ensures Split(Join(ps, [c]), c) == ps
    decreases |ps|
  {
    if |ps| == 1 {
      SplitNone(ps[0], c);
    } else {
      SplitOfJoin(ps[1..], c);
      SplitCons(ps[0], Join(ps[1..], [c]), c);
      assert ps == [ps[0]] + ps[1..];
    }
  }

  /** A text free of `c` splits into itself. */
  lemma SplitNone(a: string, c: char)
    requires Lacks(a, c)
    ensures Split(a, c) == [a]
  {
    assert FindChar(a, c, 0) == |a|;
  }

  /** `explode($c, $s, 3)`: at most three parts, the last one keeps any
      further separators. */
  function SplitAtMost3(s: string, c: char): (r: seq<string>)
    ensures 1 <= |r| <= 3
  {
    var i := FindChar(s, c, 0);
    if i == |s| then [s]
    else
      var t := s[i + 1..];
      var j := FindChar(t, c, 0);
      if j == |t| then [s[..i], t] else [s[..i], t[..j], t[j + 1..]]
  }

  /** PHP's `<=` on two strings that are not numeric (`strcmp`): the
      smaller character at the first difference comes first, and a prefix
      comes before the longer text. */
  predicate LexLe(a: string, b: string)
    decreases |a|
  {
    a == [] || (b != [] && (a[0] < b[0] || (a[0] == b[0] && LexLe(a[1..], b[1..]))))
  }

  /** Characters PHP's `trim` removes by default. */
  predicate IsTrimmed(c: char)
  {
    c == ' ' || c == '\t' || c == '\n' || c == '\r' || c == '\0' || c == '\U{B}'
  }

  /** `trim($s)`. */
  function Trim(s: string): (r: string)
    ensures |r| <= |s|
    ensures r != [] ==> !IsTrimmed(r[0]) && !IsTrimmed(r[|r| - 1])
    decreases |s|
  {
    if s == [] then s
    else if IsTrimmed(s[0]) then Trim(s[1..])
    else if IsTrimmed(s[|s| - 1]) then Trim(s[..|s| - 1])
    else s
  }

  /** The distinct elements of `s` in order of first occurrence, leaving
      out those in `seen` (the keys `array_combine` keeps). */
  function Unique<T(==,!new)>(s: seq<T>, seen: set<T>): (r: seq<T>)
    ensures forall x :: x in r <==> x in s && x !in seen
    ensures forall i, j :: 0 <= i < j < |r| ==> r[i] != r[j]
  {
    if s == [] then []
    else if s[0] in seen then Unique(s[1..], seen)
    else
      var rest := Unique(s[1..], seen + {s[0]});
      assert s[0] !in rest;
      [s[0]] + rest
  }
}
