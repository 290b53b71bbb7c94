/** The results summary and the bar chart of the items form
    (`get_info_results`, `get_chart_bar`, `countInRange`): which stored
    results count, their bounds, the buckets the chart labels and how many
    results fall into each. */
module ResultStats {
  import opened Wrappers
  import opened Rounding
  import opened Substitution
  import Selector

  // ---------------------------------------------------------------------
  // get_info_results

  /** The spread of the counted results. */
  datatype Bounds = Bounds(min: real, max: real, range: real)

  /** What `get_info_results` gathers: whether no row holds `'Error'`, the
      other rows' results in order, their number, the distribution of the
      last of them, their bounds and their mean. */
  datatype Info = Info(complete: bool, results: seq<real>, numberResults: nat,
                       distribution: Option<string>, bounds: Bounds, mean: real)

  /** Why `get_info_results` aborts under PHP 8: `min` of the unset
      results (no row holds a number), `+=` on the stored text of an
      infinite or NaN result, or a division by a zero mean. */
  datatype InfoError = NoResults | NonNumeric | ZeroMean

  /** The results of the rows that do not hold `'Error'`, in order. */
  function Numbers(rows: seq<Selector.ResultRow>): seq<Num>
    decreases |rows|
  {
    if rows == [] then []
    else
      var last := rows[|rows| - 1];
      Numbers(rows[..|rows| - 1]) + (if last.result.Number? then [last.result.n] else [])
  }

  /** The number of rows holding `'Error'`. */
  function Errors(rows: seq<Selector.ResultRow>): nat
    decreases |rows|
  {
    if rows == [] then 0
    else Errors(rows[..|rows| - 1]) + (if rows[|rows| - 1].result.Number? then 0 else 1)
  }

  /** The distribution of the last row that does not hold `'Error'`. */
  function LastDistribution(rows: seq<Selector.ResultRow>): Option<string>
    decreases |rows|
  {
    if rows == [] then None
    else if rows[|rows| - 1].result.Number? then Some(rows[|rows| - 1].distribution)
    else LastDistribution(rows[..|rows| - 1])
  }

  predicate AllFinite(ns: seq<Num>)
  {
    forall i :: 0 <= i < |ns| ==> ns[i].Real?
  }

  function Reals(ns: seq<Num>): (xs: seq<real>)
    requires AllFinite(ns)
    ensures |xs| == |ns| && forall i :: 0 <= i < |ns| ==> xs[i] == ns[i].x
  {
    seq(|ns|, i requires 0 <= i < |ns| => ns[i].x)
  }

  /** `min` of finite results: one of them, and at most every one. */
  function Min(xs: seq<real>): (m: real)
    requires |xs| > 0
    ensures m in xs && forall i :: 0 <= i < |xs| ==> m <= xs[i]
    decreases |xs|
  {
    if |xs| == 1 then xs[0]
    else
      var m := Min(xs[1..]);
      assert forall i :: 1 <= i < |xs| ==> xs[i] == xs[1..][i - 1];
      if xs[0] <= m then xs[0] else m
  }

  /** `max` of finite results: one of them, and at least every one. */
  function Max(xs: seq<real>): (m: real)
    requires |xs| > 0
    ensures m in xs && forall i :: 0 <= i < |xs| ==> xs[i] <= m
    decreases |xs|
  {
    if |xs| == 1 then xs[0]
    else
      var m := Max(xs[1..]);
      assert forall i :: 1 <= i < |xs| ==> xs[i] == xs[1..][i - 1];
      if m <= xs[0] then xs[0] else m
  }

  /** `min`, `max` and their difference. */
  function BoundsOf(xs: seq<real>): (b: Bounds)
    requires |xs| > 0
    ensures b.min <= b.max && b.range == b.max - b.min
    ensures forall i :: 0 <= i < |xs| ==> b.min <= xs[i] <= b.max
    ensures b.min in xs && b.max in xs
  {
    var lo := Min(xs);
    var hi := Max(xs);
    assert lo <= xs[0] <= hi;
    Bounds(lo, hi, hi - lo)
  }

  /** The mean of the results. */
  function Mean(xs: seq<real>): real
    requires |xs| > 0
  {
    Selector.Sum(xs) / (|xs| as real)
  }

  /** The summary of the stored rows, or the reason it aborts. */
  function InfoOf(rows: seq<Selector.ResultRow>): Result<Info, InfoError>
  {
    var ns := Numbers(rows);
    if ns == [] then Failure(NoResults)
    else if !AllFinite(ns) then Failure(NonNumeric)
    else Summarise(rows, Reals(ns))
  }

  function Summarise(rows: seq<Selector.ResultRow>, xs: seq<real>): Result<Info, InfoError>
    requires |xs| > 0
  {
    if Mean(xs) == 0.0 then Failure(ZeroMean)
    else Success(Info(Errors(rows) == 0, xs, |xs|, LastDistribution(rows), BoundsOf(xs), Mean(xs)))
  }

  /** The loop of `get_info_results` over the stored rows, followed by
      `min`, `max`, the range and the mean. */
  method GetInfoResults(rows: seq<Selector.ResultRow>) returns (r: Result<Info, InfoError>)
    ensures r == InfoOf(rows)
  {
    var complete := true;
    var results: seq<Num> := [];
    var distribution: Option<string> := None;
    var i := 0;
    for j := 0 to |rows|
      invariant complete == (Errors(rows[..j]) == 0)
      invariant results == Numbers(rows[..j]) && i == |results|
      invariant distribution == LastDistribution(rows[..j])
    {
      assert rows[..j + 1][..j] == rows[..j];
      if rows[j].result.Number? {
        results := results + [rows[j].result.n];
        distribution := Some(rows[j].distribution);
        i := i + 1;
      } else {
        complete := false;
      }
    }
    assert rows[..|rows|] == rows;
    if results == [] {
      return Failure(NoResults);
    }
    if !AllFinite(results) {
      return Failure(NonNumeric);
    }
    var xs := Reals(results);
    var lo := Min(xs);
    var hi := Max(xs);
    var sum := 0.0;
    for j := 0 to |xs|
      invariant sum + Selector.Sum(xs[j..]) == Selector.Sum(xs)
    {
      assert xs[j..][1..] == xs[j + 1..];
      sum := sum + xs[j];
    }
    var mean := sum / (|xs| as real);
    assert mean == Mean(xs);
    if mean == 0.0 {
      return Failure(ZeroMean);
    }
    r := Success(Info(complete, xs, i, distribution, Bounds(lo, hi, hi - lo), mean));
  }

  /** Some result is counted exactly when some row holds a number. */
  lemma NumbersEmpty(rows: seq<Selector.ResultRow>)
    ensures Numbers(rows) == [] <==> forall j :: 0 <= j < |rows| ==> !rows[j].result.Number?
  {
    if exists j :: 0 <= j < |rows| && rows[j].result.Number? {
      var j :| 0 <= j < |rows| && rows[j].result.Number?;
      NumbersStored(rows, rows[j].result.n);
    }
    if Numbers(rows) != [] {
      NumbersStored(rows, Numbers(rows)[0]);
    }
  }

  /** The counted results are finite exactly when every number stored is. */
  lemma NumbersFinite(rows: seq<Selector.ResultRow>)
    ensures AllFinite(Numbers(rows)) <==>
              forall j :: 0 <= j < |rows| && rows[j].result.Number? ==> rows[j].result.n.Real?
  {
    var ns := Numbers(rows);
    if exists j :: 0 <= j < |rows| && rows[j].result.Number? && !rows[j].result.n.Real? {
      var j :| 0 <= j < |rows| && rows[j].result.Number? && !rows[j].result.n.Real?;
      NumbersStored(rows, rows[j].result.n);
    }
    if !AllFinite(ns) {
      var i :| 0 <= i < |ns| && !ns[i].Real?;
      NumbersStored(rows, ns[i]);
    }
  }

  /** The summary aborts exactly when no row holds a number, when one of
      them is infinite or NaN, or when the numbers add up to 0. */
  lemma InfoAborts(rows: seq<Selector.ResultRow>)
    ensures InfoOf(rows) == Failure(NoResults) <==>
              forall j :: 0 <= j < |rows| ==> !rows[j].result.Number?
    ensures InfoOf(rows) == Failure(NonNumeric) <==>
              (exists j :: 0 <= j < |rows| && rows[j].result.Number?) &&
              (exists j :: 0 <= j < |rows| && rows[j].result.Number? && !rows[j].result.n.Real?)
    ensures InfoOf(rows) == Failure(ZeroMean) <==>
              Numbers(rows) != [] && AllFinite(Numbers(rows)) && Selector.Sum(Reals(Numbers(rows))) == 0.0
  {
    NumbersEmpty(rows);
    NumbersFinite(rows);
    var ns := Numbers(rows);
    if ns != [] && AllFinite(ns) {
      MeanZero(Reals(ns));
    }
  }

  /** The mean is 0 exactly when the sum is. */
  lemma MeanZero(xs: seq<real>)
    requires |xs| > 0
    ensures Mean(xs) == 0.0 <==> Selector.Sum(xs) == 0.0
  {
    assert Mean(xs) * (|xs| as real) == Selector.Sum(xs);
  }

  /** The sum of values within `[lo, hi]` lies within `[n * lo, n * hi]`. */
  lemma {:induction false} SumWithin(xs: seq<real>, lo: real, hi: real)
    requires forall i :: 0 <= i < |xs| ==> lo <= xs[i] <= hi
    ensures (|xs| as real) * lo <= Selector.Sum(xs) <= (|xs| as real) * hi
    decreases |xs|
  {
    if xs != [] {
      SumWithin(xs[1..], lo, hi);
    }
  }

  lemma DivWithin(s: real, n: real, lo: real, hi: real)
    requires n > 0.0 && n * lo <= s <= n * hi
    ensures lo <= s / n <= hi
  {
    assert s / n * n == s;
  }

  /** A summary that does not abort has a mean between its `min` and
      `max`, and as many results as it counts. */
  lemma MeanWithinBounds(rows: seq<Selector.ResultRow>)
    requires InfoOf(rows).Success?
    ensures var info := InfoOf(rows).value;
            info.bounds.min <= info.mean <= info.bounds.max &&
            info.numberResults == |info.results| > 0
  {
    var xs := Reals(Numbers(rows));
    assert InfoOf(rows) == Summarise(rows, xs);
    MeanBetween(xs);
  }

  lemma MeanBetween(xs: seq<real>)
    requires |xs| > 0
    ensures BoundsOf(xs).min <= Mean(xs) <= BoundsOf(xs).max
  {
    var b := BoundsOf(xs);
    MeanWithin(xs, b.min, b.max);
  }

  /** The mean of values within `[lo, hi]` lies within `[lo, hi]`. */
  lemma MeanWithin(xs: seq<real>, lo: real, hi: real)
    requires |xs| > 0
    requires forall i :: 0 <= i < |xs| ==> lo <= xs[i] <= hi
    ensures lo <= Mean(xs) <= hi
  {
    SumWithin(xs, lo, hi);
    DivWithin(Selector.Sum(xs), |xs| as real, lo, hi);
  }

  /** Results -1 and 1 average to 0: PHP 8 divides by zero. */
  lemma ZeroMeanAborts(d: string)
    ensures InfoOf([Selector.ResultRow(d, Selector.Number(Real(-1.0))),
                    Selector.ResultRow(d, Selector.Number(Real(1.0)))]) == Failure(ZeroMean)
  {
    var rows := [Selector.ResultRow(d, Selector.Number(Real(-1.0))),
                 Selector.ResultRow(d, Selector.Number(Real(1.0)))];
    assert rows[..1][..0] == [];
    assert Numbers(rows[..1]) == [Real(-1.0)];
    assert Numbers(rows) == [Real(-1.0), Real(1.0)];
    var xs := Reals(Numbers(rows));
    assert xs == [-1.0, 1.0];
    assert xs[1..] == [1.0] && xs[1..][1..] == [];
    assert Selector.Sum(xs[1..]) == 1.0;
  }

  /** Every row either holds `'Error'` or is counted, and `complete`
      holds exactly when no row holds `'Error'`. */
  lemma {:induction false} InfoCounts(rows: seq<Selector.ResultRow>)
    ensures |Numbers(rows)| + Errors(rows) == |rows|
    ensures Errors(rows) == 0 <==> forall j :: 0 <= j < |rows| ==> rows[j].result.Number?
    decreases |rows|
  {
    if rows != [] {
      var init := rows[..|rows| - 1];
      InfoCounts(init);
      assert forall j :: 0 <= j < |init| ==> init[j] == rows[j];
    }
  }

  /** The counted results are exactly the stored numbers. */
  lemma {:induction false} NumbersStored(rows: seq<Selector.ResultRow>, x: Num)
    ensures x in Numbers(rows) <==> exists j :: 0 <= j < |rows| && rows[j].result == Selector.Number(x)
    decreases |rows|
  {
    if rows != [] {
      var init := rows[..|rows| - 1];
      NumbersStored(init, x);
      assert forall j :: 0 <= j < |init| ==> init[j] == rows[j];
      if x in Numbers(rows) && !(x in Numbers(init)) {
        assert rows[|rows| - 1].result == Selector.Number(x);
      }
      if exists j :: 0 <= j < |rows| && rows[j].result == Selector.Number(x) {
        var j :| 0 <= j < |rows| && rows[j].result == Selector.Number(x);
        if j < |init| {
          assert init[j].result == Selector.Number(x);
        }
      }
    }
  }

  /** A distribution is reported exactly when some result is counted,
      namely that of the last counted row. */
  lemma {:induction false} LastDistributionSpec(rows: seq<Selector.ResultRow>)
    ensures LastDistribution(rows).Some? <==> Numbers(rows) != []
    ensures LastDistribution(rows).Some? ==>
              exists j :: 0 <= j < |rows| && rows[j].result.Number? &&
                          rows[j].distribution == LastDistribution(rows).value &&
                          forall j' :: j < j' < |rows| ==> !rows[j'].result.Number?
    decreases |rows|
  {
    if rows != [] {
      var init := rows[..|rows| - 1];
      LastDistributionSpec(init);
      if rows[|rows| - 1].result.Number? {
        assert rows[|rows| - 1].result.Number?;
      } else if LastDistribution(rows).Some? {
        var j :| 0 <= j < |init| && init[j].result.Number? &&
                 init[j].distribution == LastDistribution(init).value &&
                 forall j' :: j < j' < |init| ==> !init[j'].result.Number?;
        assert rows[j] == init[j];
        assert forall j' :: j < j' < |rows| - 1 ==> rows[j'] == init[j'];
      }
    }
  }

  // ---------------------------------------------------------------------
  // The chart's buckets

  /** One bar when there is a single result, four up to 30 results, five
      up to 60, six beyond. */
  function BucketCount(n: nat): (k: nat)
    ensures k == 1 <==> n == 1
    ensures n != 1 ==> 4 <= k <= 6 && (k == 4 <==> n <= 30) && (k == 6 <==> n > 60)
  {
    if n == 1 then 1 else if n <= 30 then 4 else if n <= 60 then 5 else 6
  }

  /** The `i`-th of the `k + 1` bucket boundaries: `min` plus `i` steps of
      a `k`-th of the range, the last one being `max`. */
  function Edge(b: Bounds, k: nat, i: nat): real
    requires k >= 1
  {
    if i == k then b.max else b.min + (i as real) * (b.range / (k as real))
  }

  function Edges(b: Bounds, k: nat): (es: seq<real>)
    requires k >= 1
    ensures |es| == k + 1 && forall i :: 0 <= i <= k ==> es[i] == Edge(b, k, i)
  {
    seq(k + 1, i requires 0 <= i <= k => Edge(b, k, i))
  }

  /** The edges rounded to two decimals, as the labels show them. */
  function RoundedEdges(b: Bounds, k: nat): (es: seq<real>)
    requires k >= 1
    ensures |es| == k + 1 && forall i :: 0 <= i <= k ==> es[i] == RoundTo(Edge(b, k, i), 2)
  {
    seq(k + 1, i requires 0 <= i <= k => RoundTo(Edge(b, k, i), 2))
  }

  predicate Sorted(es: seq<real>)
  {
    forall i, j :: 0 <= i < j < |es| ==> es[i] <= es[j]
  }

  lemma StepsGrow(lo: real, step: real, i: nat, j: nat)
    requires step >= 0.0 && i <= j
    ensures lo + (i as real) * step <= lo + (j as real) * step
  {
    MulLe(i as real, j as real, step);
  }

  lemma StepsBelowMax(b: Bounds, k: nat, i: nat)
    requires k >= 1 && i < k && b.range >= 0.0
    ensures b.min + (i as real) * (b.range / (k as real)) <= b.min + b.range
  {
    var step := b.range / (k as real);
    MulLe(i as real, k as real, step);
    assert (k as real) * step == b.range;
  }

  /** With `min <= max` and the range their difference, the boundaries
      never decrease, start at `min` and end at `max`. */
  lemma EdgesSorted(b: Bounds, k: nat)
    requires k >= 1 && b.min <= b.max && b.range == b.max - b.min
    ensures Sorted(Edges(b, k)) && Edges(b, k)[0] == b.min && Edges(b, k)[k] == b.max
  {
    var es := Edges(b, k);
    var step := b.range / (k as real);
    forall i, j | 0 <= i < j < |es|
      ensures es[i] <= es[j]
    {
      if j < k {
        StepsGrow(b.min, step, i, j);
      } else {
        StepsBelowMax(b, k, i);
      }
    }
  }

  /** Rounding keeps the boundaries in order. */
  lemma RoundedEdgesSorted(b: Bounds, k: nat)
    requires k >= 1 && b.min <= b.max && b.range == b.max - b.min
    ensures Sorted(RoundedEdges(b, k))
  {
    EdgesSorted(b, k);
    var es := Edges(b, k);
    var rs := RoundedEdges(b, k);
    forall i, j | 0 <= i < j < |rs|
      ensures rs[i] <= rs[j]
    {
      RoundMonotone(es[i], es[j], 2);
    }
  }

  // ---------------------------------------------------------------------
  // The labels

  /** A chart label: the single value shown for one result, or the two
      rounded ends of a bucket. */
  datatype Bar = Single(at: real) | Between(lo: real, hi: real)

  /** The labels `get_chart_bar` builds for `n` results. */
  function Bars(b: Bounds, n: nat): (bars: seq<Bar>)
  {
    if n == 1 then [Single(RoundTo(b.min, 2))]
    else
      var k := BucketCount(n);
      var es := RoundedEdges(b, k);
      seq(k, i requires 0 <= i < k => Between(es[i], es[i + 1]))
  }

  /** There are `BucketCount(n)` labels; consecutive labels share their
      boundary; the first starts at the rounded `min` and the last ends at
      the rounded `max`; and each label's ends are in order. */
  lemma BarsSpec(b: Bounds, n: nat)
    requires b.min <= b.max && b.range == b.max - b.min
    ensures var bars := Bars(b, n);
            |bars| == BucketCount(n) &&
            (n == 1 ==> bars == [Single(RoundTo(b.min, 2))]) &&
            (n != 1 ==>
               (forall i :: 0 <= i < |bars| ==> bars[i].Between? && bars[i].lo <= bars[i].hi) &&
               (forall i :: 0 <= i < |bars| - 1 ==> bars[i].hi == bars[i + 1].lo) &&
               bars[0].lo == RoundTo(b.min, 2) && bars[|bars| - 1].hi == RoundTo(b.max, 2))
  {
    if n != 1 {
      var k := BucketCount(n);
      RoundedEdgesSorted(b, k);
      assert Edge(b, k, 0) == b.min;
    }
  }

  lemma NextStep(lo: real, step: real, i: nat)
    ensures lo + (i as real) * step + step == lo + ((i + 1) as real) * step
  {
  }

  /** The rounded boundary at `i` is the rounding of any value equal to
      that boundary. */
  lemma RoundedEdgeAt(b: Bounds, k: nat, i: nat, x: real)
    requires k >= 1 && i <= k && x == Edge(b, k, i)
    ensures RoundedEdges(b, k)[i] == RoundTo(x, 2)
  {
  }

  /** The label loops of `get_chart_bar`: `$sig` walks the boundaries by
      one `$sumador` at a time; the last label ends at `max`. */
  method ChartBars(b: Bounds, n: nat) returns (ranges: seq<Bar>)
    ensures ranges == Bars(b, n)
  {
    if n == 1 {
      return [Single(RoundTo(b.min, 2))];
    }
    var k := BucketCount(n);
    ghost var es := RoundedEdges(b, k);
    var sumador := b.range / (k as real);
    var sig := 0.0;
    ranges := [];
    for i := 0 to k
      invariant |ranges| == i
      invariant forall j :: 0 <= j < i ==> ranges[j] == Between(es[j], es[j + 1])
      invariant 1 <= i < k ==> sig == b.min + (i as real) * sumador
    {
      if i == 0 {
        sig := b.min + sumador;
        RoundedEdgeAt(b, k, 0, b.min);
        RoundedEdgeAt(b, k, 1, sig);
        ranges := ranges + [Between(RoundTo(b.min, 2), RoundTo(sig, 2))];
      } else if i < k - 1 {
        NextStep(b.min, sumador, i);
        RoundedEdgeAt(b, k, i, sig);
        RoundedEdgeAt(b, k, i + 1, sig + sumador);
        ranges := ranges + [Between(RoundTo(sig, 2), RoundTo(sig + sumador, 2))];
        sig := sig + sumador;
      } else {
        RoundedEdgeAt(b, k, i, sig);
        RoundedEdgeAt(b, k, k, b.max);
        ranges := ranges + [Between(RoundTo(sig, 2), RoundTo(b.max, 2))];
      }
    }
  }

  // ---------------------------------------------------------------------
  // Counting

  /** The test of `countInRange`: `min <= e <= max` for the first bucket,
      `min < e <= max` for the others. */
  predicate InRange(e: real, lo: real, hi: real, isStart: bool)
  {
    (if isStart then lo <= e else lo < e) && e <= hi
  }

  /** `countInRange`: how many results pass the test; none exactly when
      no result passes it, all exactly when every one does. */
  function CountInRange(results: seq<real>, lo: real, hi: real, isStart: bool): (c: nat)
    ensures c <= |results|
    ensures c == 0 <==> forall i :: 0 <= i < |results| ==> !InRange(results[i], lo, hi, isStart)
    ensures c == |results| <==> forall i :: 0 <= i < |results| ==> InRange(results[i], lo, hi, isStart)
    decreases |results|
  {
    if results == [] then 0
    else (if InRange(results[0], lo, hi, isStart) then 1 else 0) + CountInRange(results[1..], lo, hi, isStart)
  }

  /** A result is never inside two buckets of ordered boundaries. */
  lemma AtMostOneBucket(e: real, es: seq<real>, i: nat, j: nat)
    requires Sorted(es) && i < j && j + 1 < |es|
    ensures !(InRange(e, es[i], es[i + 1], i == 0) && InRange(e, es[j], es[j + 1], j == 0))
  {
    assert es[i + 1] <= es[j];
  }

  /** Splitting a closed interval at `m` into a closed and a half-open
      part splits the count. */
  lemma {:induction false} CountSplit(results: seq<real>, lo: real, m: real, hi: real)
    requires lo <= m <= hi
    ensures CountInRange(results, lo, m, true) + CountInRange(results, m, hi, false) == CountInRange(results, lo, hi, true)
    decreases |results|
  {
    if results != [] {
      CountSplit(results[1..], lo, m, hi);
    }
  }

  /** The sum of a sequence of counts. */
  function Total(cs: seq<nat>): nat
    decreases |cs|
  {
    if cs == [] then 0 else Total(cs[..|cs| - 1]) + cs[|cs| - 1]
  }

  /** The counts of the buckets between consecutive boundaries, the first
      one closed. */
  function BucketCounts(results: seq<real>, es: seq<real>): (cs: seq<nat>)
    requires |es| >= 1
    ensures |cs| == |es| - 1
  {
    seq(|es| - 1, i requires 0 <= i < |es| - 1 => CountInRange(results, es[i], es[i + 1], i == 0))
  }

  /** Over ordered boundaries the buckets together count each result in
      `[first, last]` once and no other. */
  lemma {:induction false} BucketsPartition(results: seq<real>, es: seq<real>)
    requires |es| >= 2 && Sorted(es)
    ensures Total(BucketCounts(results, es)) == CountInRange(results, es[0], es[|es| - 1], true)
    decreases |es|
  {
    var cs := BucketCounts(results, es);
    var n := |es|;
    if n > 2 {
      var init := es[..n - 1];
      BucketsPartition(results, init);
      assert cs[..|cs| - 1] == BucketCounts(results, init);
      CountSplit(results, es[0], es[n - 2], es[n - 1]);
    } else {
      assert cs[..0] == [];
    }
  }

  /** `$e <= null` on a stored result: the result is the text the database
      holds, and PHP 8 compares text with null as with `''`, as strings, so
      no stored result (never empty) is at most null. */
  predicate AtMostNull(e: real)
  {
    false
  }

  /** `countInRange` on a single-value label: `explode` yields one part,
      so the upper end is null. */
  function CountToNull(results: seq<real>, lo: real): (c: nat)
    ensures c <= |results|
    decreases |results|
  {
    if results == [] then 0
    else (if lo <= results[0] && AtMostNull(results[0]) then 1 else 0) + CountToNull(results[1..], lo)
  }

  function CountBar(results: seq<real>, bar: Bar, isStart: bool): nat
  {
    match bar
    case Single(v) => CountToNull(results, v)
    case Between(lo, hi) => CountInRange(results, lo, hi, isStart)
  }

  /** The counts the chart shows, as the source computes them. */
  function ChartCountsAsWritten(results: seq<real>, b: Bounds): seq<nat>
  {
    var bars := Bars(b, |results|);
    seq(|bars|, i requires 0 <= i < |bars| => CountBar(results, bars[i], i == 0))
  }

  /** The counting loop of `get_chart_bar`. */
  method CountResults(results: seq<real>, ranges: seq<Bar>) returns (counts: seq<nat>)
    ensures |counts| == |ranges|
    ensures forall i :: 0 <= i < |ranges| ==> counts[i] == CountBar(results, ranges[i], i == 0)
  {
    counts := [];
    var i := 0;
    while i < |ranges|
      invariant 0 <= i <= |ranges| && |counts| == i
      invariant forall j :: 0 <= j < i ==> counts[j] == CountBar(results, ranges[j], j == 0)
    {
      counts := counts + [CountBar(results, ranges[i], i == 0)];
      i := i + 1;
    }
  }

  /** With several results the source counts bucket by bucket between
      the rounded boundaries. */
  lemma CountsAsWrittenRounded(results: seq<real>, b: Bounds)
    requires |results| != 1
    ensures ChartCountsAsWritten(results, b) == BucketCounts(results, RoundedEdges(b, BucketCount(|results|)))
  {
    var rs := RoundedEdges(b, BucketCount(|results|));
    var bars := Bars(b, |results|);
    var asWritten := ChartCountsAsWritten(results, b);
    var cs := BucketCounts(results, rs);
    forall j | 0 <= j < |cs|
      ensures asWritten[j] == cs[j]
    {
      assert bars[j] == Between(rs[j], rs[j + 1]);
    }
  }

  /** With several results the source's buckets use the rounded
      boundaries, so together they count exactly the results between the
      rounded `min` and the rounded `max`. */
  lemma RoundedBucketsAsWritten(results: seq<real>)
    requires |results| > 1
    ensures var b := BoundsOf(results);
            Total(ChartCountsAsWritten(results, b)) ==
              CountInRange(results, RoundTo(b.min, 2), RoundTo(b.max, 2), true)
  {
    var b := BoundsOf(results);
    var k := BucketCount(|results|);
    var rs := RoundedEdges(b, k);
    RoundedEdgesSorted(b, k);
    BucketsPartition(results, rs);
    CountsAsWrittenRounded(results, b);
    RoundedEdgeAt(b, k, 0, b.min);
  }

  /** The smallest result 1.236 rounds up to the label 1.24 and is counted
      in no bucket: the chart of [1.236, 2.0] shows one result. */
  lemma RoundedChartMissesMin()
    ensures Total(ChartCountsAsWritten([1.236, 2.0], BoundsOf([1.236, 2.0]))) == 1
  {
    var results := [1.236, 2.0];
    var b := BoundsOf(results);
    assert b.min == 1.236 && b.max == 2.0;
    RoundedBucketsAsWritten(results);
    assert Scale(2) == 100.0;
    assert (1.236 * 100.0 + 0.5).Floor == 124;
    assert RoundTo(1.236, 2) == 1.24;
    assert (2.0 * 100.0 + 0.5).Floor == 200;
    assert RoundTo(2.0, 2) == 2.0;
  }

  /** A single-value bar counts none of the results, whatever they are. */
  lemma {:induction false} NullBarCountsNothing(results: seq<real>, lo: real)
    ensures CountToNull(results, lo) == 0
    decreases |results|
  {
    if results != [] {
      NullBarCountsNothing(results[1..], lo);
    }
  }

  /** A single result is counted nowhere: the one bar of its chart shows
      zero, where the unrounded count shows one. */
  lemma SingleResultAsWritten(x: real)
    ensures ChartCountsAsWritten([x], BoundsOf([x])) == [0]
    ensures ChartCounts([x], BoundsOf([x])) == [1]
  {
    NullBarCountsNothing([x], BoundsOf([x]).min);
    ChartCountsAll([x]);
  }

  /** The counts over the unrounded boundaries, the first bucket closed:
      one bucket, `[min, max]`, for a single result. */
  function ChartCounts(results: seq<real>, b: Bounds): (cs: seq<nat>)
    ensures |cs| == BucketCount(|results|)
  {
    BucketCounts(results, Edges(b, BucketCount(|results|)))
  }

  /** Every result is counted in exactly one bucket, so the counts add up
      to the number of results; a single result gets its one count. */
  lemma ChartCountsAll(results: seq<real>)
    requires |results| > 0
    ensures Total(ChartCounts(results, BoundsOf(results))) == |results|
    ensures |results| == 1 ==> ChartCounts(results, BoundsOf(results)) == [1]
  {
    var b := BoundsOf(results);
    var k := BucketCount(|results|);
    EdgesSorted(b, k);
    BucketsPartition(results, Edges(b, k));
    assert forall i :: 0 <= i < |results| ==> InRange(results[i], b.min, b.max, true);
    if |results| == 1 {
      var cs := ChartCounts(results, b);
      assert cs[..0] == [];
    }
  }

  /** The boundaries as bars, without rounding. */
  function ExactBars(es: seq<real>): (bars: seq<Bar>)
    requires |es| >= 1
    ensures |bars| == |es| - 1 && forall i :: 0 <= i < |bars| ==> bars[i] == Between(es[i], es[i + 1])
  {
    seq(|es| - 1, i requires 0 <= i < |es| - 1 => Between(es[i], es[i + 1]))
  }

  /** `get_chart_bar` as the source writes it: the labels and the counts
      against the labels' rounded values. */
  method GetChartBarAsWritten(results: seq<real>, b: Bounds) returns (ranges: seq<Bar>, counts: seq<nat>)
    ensures ranges == Bars(b, |results|)
    ensures counts == ChartCountsAsWritten(results, b)
  {
    ranges := ChartBars(b, |results|);
    counts := CountResults(results, ranges);
  }

  /** `get_chart_bar` with the counts taken against the unrounded
      boundaries, which the labels only display. */
  method GetChartBar(results: seq<real>, b: Bounds) returns (ranges: seq<Bar>, counts: seq<nat>)
    ensures ranges == Bars(b, |results|)
    ensures counts == ChartCounts(results, b)
  {
    ranges := ChartBars(b, |results|);
    var es := Edges(b, BucketCount(|results|));
    counts := CountResults(results, ExactBars(es));
  }
}
