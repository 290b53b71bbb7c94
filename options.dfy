/** The packed generator options of a wildcard definition,
    `dist:min:max:decimals`, and the regular expression
    `^(uniform|loguniform):([^:]*):([^:]*):([0-9]*)$` that reads them. */
module DatasetOptions {
  import opened Wrappers
  import opened Text

  datatype Distribution = UniformDist | LogUniformDist

  function DistName(d: Distribution): string
  {
    match d
    case UniformDist => "uniform"
    case LogUniformDist => "loguniform"
  }

  /** The four captured groups. Bounds and decimals stay text: PHP
      converts them to numbers only where it computes with them. */
  datatype Options = Options(dist: Distribution, min: string, max: string, decimals: string)

  predicate IsDigits(s: string)
  {
    forall i :: 0 <= i < |s| ==> '0' <= s[i] <= '9'
  }

  /** The fields a packed string can carry back: bounds without `:` and
      decimals made of digits. */
  predicate Packable(o: Options)
  {
    Lacks(o.min, ':') && Lacks(o.max, ':') && IsDigits(o.decimals)
  }

  /** `$distribution . ':' . $min . ':' . $max . ':' . $length`. */
  function Pack(o: Options): string
  {
    DistName(o.dist) + ":" + o.min + ":" + o.max + ":" + o.decimals
  }

  /** The options every new or empty definition gets. */
  const DefaultOptions: Options := Options(UniformDist, "1.0", "10.0", "1")

  lemma DefaultPacks()
    ensures Pack(DefaultOptions) == "uniform:1.0:10.0:1"
    ensures Packable(DefaultOptions)
  {
  }

  /** The regular expression on a text that does not end in a newline:
      exactly four `:`-separated fields, the first a distribution name,
      the last digits only. */
  function ParseFields(t: string): (r: Option<Options>)
    ensures r.Some? ==> Packable(r.value) && Pack(r.value) == t
  {
    var parts := Split(t, ':');
    SplitJoin(t, ':');
    if |parts| != 4 || !IsDigits(parts[3]) then None
    else
      assert t == parts[0] + ":" + parts[1] + ":" + parts[2] + ":" + parts[3] by {
        assert parts == [parts[0], parts[1], parts[2], parts[3]];
        JoinFour(parts[0], parts[1], parts[2], parts[3]);
      }
      if parts[0] == "uniform" then Some(Options(UniformDist, parts[1], parts[2], parts[3]))
      else if parts[0] == "loguniform" then Some(Options(LogUniformDist, parts[1], parts[2], parts[3]))
      else None
  }

  /** `preg_match` with this pattern: `$` also matches before one final
      newline, which the last group (digits) can never hold. */
  function Parse(s: string): Option<Options>
  {
    if s != [] && s[|s| - 1] == '\n' then ParseFields(s[..|s| - 1]) else ParseFields(s)
  }

  lemma JoinFour(a: string, b: string, c: string, d: string)
    ensures Join([a, b, c, d], ":") == a + ":" + b + ":" + c + ":" + d
  {
    var ps := [a, b, c, d];
    assert ps[1..] == [b, c, d] && ps[1..][1..] == [c, d] && ps[1..][1..][1..] == [d];
    assert Join([d], ":") == d;
    assert Join([c, d], ":") == c + ":" + d;
    assert Join([b, c, d], ":") == b + ":" + (c + ":" + d);
    assert Join(ps, ":") == a + ":" + (b + ":" + (c + ":" + d));
  }

  /** Four `:`-free fields joined by `:` split back into themselves. */
  lemma SplitFour(a: string, b: string, c: string, d: string)
    requires Lacks(a, ':') && Lacks(b, ':') && Lacks(c, ':') && Lacks(d, ':')
    ensures Split(a + ":" + b + ":" + c + ":" + d, ':') == [a, b, c, d]
  {
    JoinFour(a, b, c, d);
    SplitOfJoin([a, b, c, d], ':');
  }

  /** Round trip: packing admissible fields and parsing the result gives
      the same four fields back. */
  lemma PackThenParse(o: Options)
    requires Packable(o)
    ensures Parse(Pack(o)) == Some(o)
  {
    var s := Pack(o);
    SplitFour(DistName(o.dist), o.min, o.max, o.decimals);
    assert |"loguniform"| != |"uniform"|;
    assert ParseFields(s) == Some(o);
    assert s[|s| - 1] != '\n' by {
      if o.decimals == [] {
        assert s[|s| - 1] == ':';
      } else {
        assert s[|s| - 1] == o.decimals[|o.decimals| - 1];
      }
    }
  }

  /** Everything the pattern accepts is a packed string of admissible
      fields, followed by at most one newline. */
  lemma ParseThenPack(s: string)
    requires Parse(s).Some?
    ensures Packable(Parse(s).value)
    ensures s == Pack(Parse(s).value) || s == Pack(Parse(s).value) + "\n"
  {
    if s != [] && s[|s| - 1] == '\n' {
      assert s == s[..|s| - 1] + "\n";
    }
  }

  /** A text with more or fewer than three `:` is refused. */
  lemma WrongFieldCount(s: string)
    requires Lacks(s, ':')
    ensures Parse(s).None?
  {
    SplitNone(s, ':');
    if s != [] && s[|s| - 1] == '\n' {
      assert Lacks(s[..|s| - 1], ':');
      SplitNone(s[..|s| - 1], ':');
    }
  }
}
