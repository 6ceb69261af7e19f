/** One cell of the fixed-mean study: from 32 pairs to its intervals, its order
    strata and its classification, with the formulas stated over the durations. */
module NativeCostCell {
  import opened Text
  import opened RealSquares
  import opened NativeCost

  // ---------- the formulas, over the durations ----------

  function Trusted(p: Pair): real {
    p.trusted.duration as real
  }

  function Governed(p: Pair): real {
    p.governed.duration as real
  }

  ghost function Total(pairs: seq<Pair>, time: Pair -> real): real {
    if pairs == [] then 0.0 else Total(pairs[..|pairs| - 1], time) + time(pairs[|pairs| - 1])
  }

  /** The total over the pairs that ran the trusted host first, or over the others. */
  ghost function TotalWhere(pairs: seq<Pair>, first: bool, time: Pair -> real): real {
    if pairs == [] then 0.0
    else
      var last := pairs[|pairs| - 1];
      TotalWhere(pairs[..|pairs| - 1], first, time) + if last.trusted.firstInPair == first then time(last) else 0.0
  }

  ghost function MeanOf(pairs: seq<Pair>, time: Pair -> real): real {
    Total(pairs, time) / 32.0
  }

  ghost function BlockTime(p: Pair, q: Pair, time: Pair -> real): real {
    (time(p) + time(q)) / 2.0
  }

  ghost function BlockProduct(p: Pair, q: Pair, f: Pair -> real, g: Pair -> real): real {
    BlockTime(p, q, f) * BlockTime(p, q, g)
  }

  /** The sum, over adjacent pairs, of the product of their two mean times. */
  ghost function BlockProducts(pairs: seq<Pair>, f: Pair -> real, g: Pair -> real): real
    requires |pairs| % 2 == 0
  {
    if pairs == [] then 0.0
    else
      var n := |pairs| - 2;
      BlockProducts(pairs[..n], f, g) + BlockProduct(pairs[n], pairs[n + 1], f, g)
  }

  /** The covariance of the means of two times over the 16 blocks, by raw moments. */
  ghost function Covariance(pairs: seq<Pair>, f: Pair -> real, g: Pair -> real): real
    requires |pairs| % 2 == 0
  {
    CentredMoment(BlockProducts(pairs, f, g), MeanOf(pairs, f), MeanOf(pairs, g))
  }

  ghost function CentredMoment(products: real, x: real, y: real): real {
    (products - 16.0 * (x * y)) / 240.0
  }

  /** The Fieller quadratic has these coefficients. */
  ghost predicate AreFieller(pairs: seq<Pair>, aa: real, bb: real, cc: real)
    requires |pairs| % 2 == 0
  {
    var x, y := MeanOf(pairs, Trusted), MeanOf(pairs, Governed);
    AreCoefficients(aa, bb, cc, x, y, Covariance(pairs, Trusted, Trusted), Covariance(pairs, Governed, Governed),
                    Covariance(pairs, Trusted, Governed))
  }

  /** The variance of the mean of governed less 1.10 times trusted. */
  ghost function DifferenceVariance(pairs: seq<Pair>): real
    requires |pairs| % 2 == 0
  {
    Covariance(pairs, Governed, Governed) - 2.20 * Covariance(pairs, Trusted, Governed) + 1.21 * Covariance(pairs, Trusted, Trusted)
  }

  /** The ends are the two roots of `aa r^2 - 2 bb r + cc`, in order. */
  ghost predicate AreRoots(i: Interval, aa: real, bb: real, cc: real) {
    i.low <= i.high && aa * (i.low + i.high) == 2.0 * bb && aa * (i.low * i.high) == cc
  }

  /** The interval is centred on `centre`, and its half width squared is `square`. */
  ghost predicate IsCentred(i: Interval, centre: real, square: real) {
    i.low <= i.high && i.low + i.high == 2.0 * centre && Square((i.high - i.low) / 2.0) == square
  }

  // ---------- the study computes them ----------

  function ValuesOf(pairs: seq<Pair>, f: Pair -> real, g: Pair -> real): (vs: seq<Point>)
    ensures |vs| == |pairs| && forall i :: 0 <= i < |vs| ==> vs[i] == Point(f(pairs[i]), g(pairs[i]))
  {
    seq(|pairs|, i requires 0 <= i < |pairs| => Point(f(pairs[i]), g(pairs[i])))
  }

  lemma {:induction false} TotalIsSum(pairs: seq<Pair>, f: Pair -> real, g: Pair -> real)
    ensures Sum(As(ValuesOf(pairs, f, g))) == Total(pairs, f) && Sum(Bs(ValuesOf(pairs, f, g))) == Total(pairs, g)
    decreases |pairs|
  {
    if pairs != [] {
      var n := |pairs| - 1;
      TotalIsSum(pairs[..n], f, g);
      AppendPoint(ValuesOf(pairs[..n], f, g), Point(f(pairs[n]), g(pairs[n])));
      assert ValuesOf(pairs, f, g) == ValuesOf(pairs[..n], f, g) + [Point(f(pairs[n]), g(pairs[n]))];
    }
  }

  lemma TermAbout(a: real, b: real, x: real, y: real)
    ensures (a - x) * (b - y) - x * y == (a - 0.0) * (b - 0.0) + (-x) * b + (-y) * a
  {
  }

  /** The products less `c`. */
  function Shifted(s: seq<real>, c: real): (t: seq<real>)
    ensures |t| == |s| && forall i :: 0 <= i < |s| ==> t[i] == s[i] - c
  {
    seq(|s|, i requires 0 <= i < |s| => s[i] - c)
  }

  lemma {:induction false} SumShifted(s: seq<real>, c: real)
    ensures Sum(Shifted(s, c)) == Sum(s) - c * |s| as real
    decreases |s|
  {
    if s != [] {
      var n := |s| - 1;
      SumShifted(s[..n], c);
      assert Shifted(s, c)[..n] == Shifted(s[..n], c);
      Distribute(c, n as real, 1.0);
    }
  }

  lemma ProductAt(ps: seq<Point>, x: real, y: real, i: nat)
    requires i < |ps|
    ensures Shifted(Products(ps, x, y), x * y)[i] == Products(ps, 0.0, 0.0)[i] + (-x) * Bs(ps)[i] + (-y) * As(ps)[i]
  {
    TermAbout(ps[i].a, ps[i].b, x, y);
  }

  lemma {:induction false} ProductsLinear(ps: seq<Point>, x: real, y: real)
    ensures Linear(Shifted(Products(ps, x, y), x * y), Products(ps, 0.0, 0.0), Bs(ps), As(ps), -x, -y)
  {
    forall i | 0 <= i < |ps|
      ensures Shifted(Products(ps, x, y), x * y)[i] == Products(ps, 0.0, 0.0)[i] + (-x) * Bs(ps)[i] + (-y) * As(ps)[i]
    {
      ProductAt(ps, x, y, i);
    }
  }

  /** Products about `x` and `y` are the raw ones, less what the sums take away. */
  lemma {:induction false} ProductsAbout(ps: seq<Point>, x: real, y: real)
    ensures Combines(Sum(Shifted(Products(ps, x, y), x * y)), Sum(Products(ps, 0.0, 0.0)), Sum(Bs(ps)), Sum(As(ps)), -x, -y)
  {
    ProductsLinear(ps, x, y);
    SumLinear(Shifted(Products(ps, x, y), x * y), Products(ps, 0.0, 0.0), Bs(ps), As(ps), -x, -y);
  }

  lemma SumStep(s: seq<real>, t: seq<real>, v: real)
    requires |s| == |t| + 1 && s[|t|] == v && forall i :: 0 <= i < |t| ==> s[i] == t[i]
    ensures Sum(s) == Sum(t) + v
  {
    assert s[..|t|] == t;
  }

  /** The last of the raw products. */
  lemma RawStep(bs: seq<Point>, p: Point)
    ensures Sum(Products(bs + [p], 0.0, 0.0)) == Sum(Products(bs, 0.0, 0.0)) + p.a * p.b
  {
    var s, t := Products(bs + [p], 0.0, 0.0), Products(bs, 0.0, 0.0);
    forall i | 0 <= i < |t| ensures s[i] == t[i] {
      assert (bs + [p])[i] == bs[i];
    }
    SumStep(s, t, (p.a - 0.0) * (p.b - 0.0));
  }

  lemma {:induction false} RawProducts(pairs: seq<Pair>, f: Pair -> real, g: Pair -> real)
    requires |pairs| % 2 == 0
    ensures Sum(Products(Blocks(ValuesOf(pairs, f, g)), 0.0, 0.0)) == BlockProducts(pairs, f, g)
    decreases |pairs|
  {
    if pairs != [] {
      var n := |pairs| - 2;
      RawProducts(pairs[..n], f, g);
      var last := Average(ValuesOf(pairs, f, g)[n], ValuesOf(pairs, f, g)[n + 1]);
      BlocksLast(pairs, f, g);
      RawStep(Blocks(ValuesOf(pairs[..n], f, g)), last);
      BlockProductIs(pairs[n], pairs[n + 1], f, g, last);
    }
  }

  lemma BlockProductIs(p: Pair, q: Pair, f: Pair -> real, g: Pair -> real, last: Point)
    requires last.a == BlockTime(p, q, f) && last.b == BlockTime(p, q, g)
    ensures BlockProduct(p, q, f, g) == last.a * last.b
  {
    SameProduct(BlockTime(p, q, f), BlockTime(p, q, g), last.a, last.b);
  }

  lemma SameProduct(a: real, b: real, c: real, d: real)
    requires a == c && b == d
    ensures a * b == c * d
  {
  }

  lemma BlocksLast(pairs: seq<Pair>, f: Pair -> real, g: Pair -> real)
    requires |pairs| % 2 == 0 && pairs != []
    ensures var n, vs := |pairs| - 2, ValuesOf(pairs, f, g);
            Blocks(vs) == Blocks(ValuesOf(pairs[..n], f, g)) + [Average(vs[n], vs[n + 1])]
  {
    var n, vs := |pairs| - 2, ValuesOf(pairs, f, g);
    var rest := ValuesOf(pairs[..n], f, g);
    assert vs == rest + [vs[n], vs[n + 1]];
    BlocksStep(rest, vs[n], vs[n + 1]);
  }

  lemma Centre(c: real, t: real, raw: real, sa: real, sb: real, x: real, y: real)
    requires Combines(t, raw, sb, sa, -x, -y) && t == c - (x * y) * 16.0 && sa == 16.0 * x && sb == 16.0 * y
    ensures c == raw - 16.0 * (x * y)
  {
    assert (-x) * (16.0 * y) == -16.0 * (x * y) && (-y) * (16.0 * x) == -16.0 * (x * y);
  }

  lemma {:induction false} BlockMeans(pairs: seq<Pair>, f: Pair -> real, g: Pair -> real)
    requires |pairs| == 32
    ensures var blocks := Blocks(ValuesOf(pairs, f, g));
            && Sum(As(blocks)) == 16.0 * MeanOf(pairs, f) && Sum(Bs(blocks)) == 16.0 * MeanOf(pairs, g)
            && MeanA(blocks) == MeanOf(pairs, f) && MeanB(blocks) == MeanOf(pairs, g)
  {
    TotalIsSum(pairs, f, g);
    BlockSums(ValuesOf(pairs, f, g));
  }

  /** The centred products of the blocks are the covariance. */
  lemma {:induction false} BlocksFit(pairs: seq<Pair>, f: Pair -> real, g: Pair -> real, x: real, y: real)
    requires |pairs| == 32 && x == MeanOf(pairs, f) && y == MeanOf(pairs, g)
    ensures Sum(Products(Blocks(ValuesOf(pairs, f, g)), x, y)) / 240.0 == Covariance(pairs, f, g)
  {
    var blocks := Blocks(ValuesOf(pairs, f, g));
    BlockMeans(pairs, f, g);
    RawProducts(pairs, f, g);
    CentredBlocks(blocks, x, y);
  }

  lemma {:induction false} CentredBlocks(blocks: seq<Point>, x: real, y: real)
    requires |blocks| == 16 && Sum(As(blocks)) == 16.0 * x && Sum(Bs(blocks)) == 16.0 * y
    ensures Sum(Products(blocks, x, y)) / 240.0 == CentredMoment(Sum(Products(blocks, 0.0, 0.0)), x, y)
  {
    var products := Products(blocks, x, y);
    ProductsAbout(blocks, x, y);
    SumShifted(products, x * y);
    Centre(Sum(products), Sum(Shifted(products, x * y)), Sum(Products(blocks, 0.0, 0.0)), Sum(As(blocks)), Sum(Bs(blocks)), x, y);
  }

  lemma DiagonalBlocks(pairs: seq<Pair>, f: Pair -> real, g: Pair -> real)
    requires |pairs| % 2 == 0
    ensures var fg, ff, gg := Blocks(ValuesOf(pairs, f, g)), Blocks(ValuesOf(pairs, f, f)), Blocks(ValuesOf(pairs, g, g));
            forall k :: 0 <= k < |fg| ==> ff[k] == Point(fg[k].a, fg[k].a) && gg[k] == Point(fg[k].b, fg[k].b)
  {
  }

  lemma SquaresAreProducts(ps: seq<Point>, qs: seq<Point>, x: real)
    requires |ps| == |qs|
    ensures (forall k :: 0 <= k < |ps| ==> qs[k] == Point(ps[k].a, ps[k].a)) ==> SquaresA(ps, x) == Products(qs, x, x)
    ensures (forall k :: 0 <= k < |ps| ==> qs[k] == Point(ps[k].b, ps[k].b)) ==> SquaresB(ps, x) == Products(qs, x, x)
  {
    forall k | 0 <= k < |ps|
      ensures qs[k] == Point(ps[k].a, ps[k].a) ==> SquaresA(ps, x)[k] == Products(qs, x, x)[k]
      ensures qs[k] == Point(ps[k].b, ps[k].b) ==> SquaresB(ps, x)[k] == Products(qs, x, x)[k]
    {
    }
  }

  predicate Timed(pairs: seq<Pair>) {
    forall i :: 0 <= i < |pairs| ==> pairs[i].trusted.duration > 0 && pairs[i].governed.duration > 0
  }

  function FitOf(pairs: seq<Pair>): Fit
    requires |pairs| % 2 == 0
  {
    var blocks := Blocks(Values(pairs));
    FitAt(blocks, MeanA(blocks), MeanB(blocks))
  }

  /** What validated pairs give the study: positive means, non-empty strata,
      and a pooled ratio between the ratios of the two strata. */
  lemma {:induction false} CellFacts(pairs: seq<Pair>, warmup: int)
    requires |pairs| == 32 && Timed(pairs) && InOrder(pairs, warmup)
    ensures FitOf(pairs).x > 0.0
    ensures Sum(As(Stratum(Values(pairs), pairs, true))) > 0.0 && Sum(As(Stratum(Values(pairs), pairs, false))) > 0.0
    ensures Between(FitOf(pairs).y / FitOf(pairs).x, RatioOfMeans(Stratum(Values(pairs), pairs, true)),
                    RatioOfMeans(Stratum(Values(pairs), pairs, false)))
  {
    var vs := Values(pairs);
    var t, g := Stratum(vs, pairs, true), Stratum(vs, pairs, false);
    StrataBalanced(vs, pairs, warmup);
    StrataPartition(vs, pairs);
    StratumPositive(vs, pairs, true);
    StratumPositive(vs, pairs, false);
    BlockSums(vs);
    PooledBetween(Sum(As(t)), Sum(Bs(t)), Sum(As(g)), Sum(Bs(g)), FitOf(pairs).x, FitOf(pairs).y);
  }

  lemma PooledBetween(at: real, bt: real, af: real, bf: real, x: real, y: real)
    requires at > 0.0 && af > 0.0 && x == (at + af) / 32.0 && y == (bt + bf) / 32.0
    ensures Between(y / x, bt / at, bf / af)
  {
    MediantBetween(at, bt, af, bf);
    SameRatio(at + af, bt + bf, x, y);
  }

  lemma SameRatio(a: real, b: real, x: real, y: real)
    requires a > 0.0 && x == a / 32.0 && y == b / 32.0
    ensures b / a == y / x
  {
    DivideOrder(a, b, y / x);
    DivideOrder(x, y, y / x);
    assert b == 32.0 * y && a == 32.0 * x;
    assert a * (y / x) == 32.0 * (x * (y / x));
  }

  lemma {:induction false} TrustedSpread(pairs: seq<Pair>, x: real)
    requires |pairs| == 32 && x == MeanOf(pairs, Trusted)
    ensures Sum(SquaresA(Blocks(ValuesOf(pairs, Trusted, Governed)), x)) / 240.0 == Covariance(pairs, Trusted, Trusted)
  {
    BlocksFit(pairs, Trusted, Trusted, x, x);
    DiagonalBlocks(pairs, Trusted, Governed);
    SquaresAreProducts(Blocks(ValuesOf(pairs, Trusted, Governed)), Blocks(ValuesOf(pairs, Trusted, Trusted)), x);
  }

  lemma {:induction false} GovernedSpread(pairs: seq<Pair>, y: real)
    requires |pairs| == 32 && y == MeanOf(pairs, Governed)
    ensures Sum(SquaresB(Blocks(ValuesOf(pairs, Trusted, Governed)), y)) / 240.0 == Covariance(pairs, Governed, Governed)
  {
    BlocksFit(pairs, Governed, Governed, y, y);
    DiagonalBlocks(pairs, Trusted, Governed);
    SquaresAreProducts(Blocks(ValuesOf(pairs, Trusted, Governed)), Blocks(ValuesOf(pairs, Governed, Governed)), y);
  }

  lemma ValuesAre(pairs: seq<Pair>)
    ensures Values(pairs) == ValuesOf(pairs, Trusted, Governed)
  {
  }

  lemma {:induction false} FitOfMoments(blocks: seq<Point>, x: real, y: real, vx: real, vy: real, cov: real, f: Fit)
    requires f == FitAt(blocks, x, y)
    requires Sum(SquaresA(blocks, x)) / 240.0 == vx && Sum(SquaresB(blocks, y)) / 240.0 == vy
    requires Sum(Products(blocks, x, y)) / 240.0 == cov
    ensures f.x == x && f.y == y && AreCoefficients(f.aa, f.bb, f.cc, x, y, vx, vy, cov)
    ensures f.difference == y - THRESHOLD * x && Quadratic(f.vd, vy, cov, vx, THRESHOLD)
  {
    VarianceIsQuadratic(blocks, THRESHOLD, x, y, y - THRESHOLD * x);
    FitCoefficients(x, y, vx, vy, cov, f.difference, f.vd, f);
  }

  /** What the study fits is what the formulas say of the durations. */
  lemma {:induction false} FitIs(pairs: seq<Pair>)
    requires |pairs| == 32
    ensures var f := FitOf(pairs);
            && f.x == MeanOf(pairs, Trusted) && f.y == MeanOf(pairs, Governed)
            && AreFieller(pairs, f.aa, f.bb, f.cc)
            && f.difference == f.y - 1.10 * f.x && f.vd == DifferenceVariance(pairs)
  {
    var x, y := MeanOf(pairs, Trusted), MeanOf(pairs, Governed);
    ValuesAre(pairs);
    BlockMeans(pairs, Trusted, Governed);
    TrustedSpread(pairs, x);
    GovernedSpread(pairs, y);
    BlocksFit(pairs, Trusted, Governed, x, y);
    FitOfMoments(Blocks(Values(pairs)), x, y, Covariance(pairs, Trusted, Trusted), Covariance(pairs, Governed, Governed),
                 Covariance(pairs, Trusted, Governed), FitOf(pairs));
  }

  lemma {:induction false} StratumTotals(pairs: seq<Pair>, first: bool)
    ensures var s := Stratum(Values(pairs), pairs, first);
            Sum(As(s)) == TotalWhere(pairs, first, Trusted) && Sum(Bs(s)) == TotalWhere(pairs, first, Governed)
    decreases |pairs|
  {
    if pairs != [] {
      var n := |pairs| - 1;
      StratumTotals(pairs[..n], first);
      assert Values(pairs)[..n] == Values(pairs[..n]);
      StratumSums(Values(pairs), pairs, first);
    }
  }

  lemma RootsOfQuadratic(aa: real, bb: real, cc: real, root: real, low: real, high: real)
    requires aa > 0.0 && IsRoot(root, bb * bb - aa * cc) && low == (bb - root) / aa && high == (bb + root) / aa
    ensures AreRoots(Interval(low, high), aa, bb, cc)
  {
    assert aa * low == bb - root && aa * high == bb + root;
    Distribute(aa, low, high);
    assert low <= high by {
      DivideOrder(aa, bb - root, high);
    }
    calc {
      aa * (aa * (low * high));
    ==
      (aa * low) * (aa * high);
    ==
      (bb - root) * (bb + root);
    ==
      bb * bb - root * root;
    ==
      aa * cc;
    }
    MulOrder(aa, aa * (low * high), cc);
  }

  lemma CentredInterval(d: real, deviation: real, vd: real)
    requires IsRoot(deviation, vd) && vd > 0.0
    ensures IsCentred(Interval(d - CRITICAL_T * deviation, d + CRITICAL_T * deviation), d, Q * vd)
  {
    Width(deviation, vd);
    var width := CRITICAL_T * deviation;
    assert ((d + width) - (d - width)) / 2.0 == width;
  }

  lemma RatioTimes(n: real, d: real)
    requires d > 0.0
    ensures (n / d) * d == n
  {
  }

  // ---------- the cell ----------

  datatype Cell = Cell(
    trustedMean: real,
    governedMean: real,
    meanDifference: real,
    classification: Decision,
    ratio: Option<Interval>,
    difference: Option<Interval>,
    trustedFirst: real,
    governedFirst: real)

  /** The means, and the difference of the governed one from 1.10 times the trusted one. */
  ghost predicate HasMeans(cell: Cell, pairs: seq<Pair>) {
    && cell.trustedMean == MeanOf(pairs, Trusted) && cell.governedMean == MeanOf(pairs, Governed)
    && cell.meanDifference == cell.governedMean - 1.10 * cell.trustedMean
  }

  /** There are intervals exactly when the ratio's is bounded and the difference
      varies; they are the roots of the Fieller quadratic, and the difference
      with the critical half width about it. */
  ghost predicate HasIntervals(pairs: seq<Pair>, ratio: Option<Interval>, difference: Option<Interval>, meanDifference: real)
    requires |pairs| % 2 == 0
  {
    exists aa, bb, cc ::
      && AreFieller(pairs, aa, bb, cc)
      && ratio.Some? == difference.Some? == (aa > 0.0 && DifferenceVariance(pairs) > 0.0)
      && (ratio.Some? ==>
            && AreRoots(ratio.value, aa, bb, cc)
            && IsCentred(difference.value, meanDifference, 3.036284 * 3.036284 * DifferenceVariance(pairs)))
  }

  /** `figure` is the ratio of the total governed to the total trusted time of
      the pairs that ran in one order. */
  ghost predicate IsStratum(pairs: seq<Pair>, first: bool, figure: real) {
    TotalWhere(pairs, first, Trusted) > 0.0 && figure * TotalWhere(pairs, first, Trusted) == TotalWhere(pairs, first, Governed)
  }

  /** The ratio of the means lies in its interval, and both intervals lead to the same decision. */
  ghost predicate AreConsistent(x: real, y: real, ratio: Option<Interval>, difference: Option<Interval>) {
    && x > 0.0
    && (ratio.Some? ==>
          && ratio.value.low <= y / x <= ratio.value.high
          && difference.Some? && Decide(ratio.value, THRESHOLD) == Decide(difference.value, 0.0))
  }

  /** The decision, and the strata with it; both strata together never
      contradict the pooled direction. */
  ghost predicate IsClassified(ratio: Option<Interval>, trustedFirst: real, governedFirst: real, classification: Decision) {
    && (classification == Clear <==>
          ratio.Some? && ratio.value.high <= 1.10 && trustedFirst <= 1.10 && governedFirst <= 1.10)
    && (classification == Miss <==>
          ratio.Some? && ratio.value.low > 1.10 && trustedFirst > 1.10 && governedFirst > 1.10)
    && (ratio.Some? && ratio.value.high <= 1.10 ==> trustedFirst <= 1.10 || governedFirst <= 1.10)
    && (ratio.Some? && ratio.value.low > 1.10 ==> trustedFirst > 1.10 || governedFirst > 1.10)
  }

  ghost predicate IsCell(pairs: seq<Pair>, cell: Cell)
    requires |pairs| % 2 == 0
  {
    && HasMeans(cell, pairs) && HasIntervals(pairs, cell.ratio, cell.difference, cell.meanDifference)
    && IsStratum(pairs, true, cell.trustedFirst) && IsStratum(pairs, false, cell.governedFirst)
    && AreConsistent(cell.trustedMean, cell.governedMean, cell.ratio, cell.difference)
    && IsClassified(cell.ratio, cell.trustedFirst, cell.governedFirst, cell.classification)
  }

  // ---------- the method ----------

  /** What the intervals of a fit are. */
  ghost predicate AreIntervals(f: Fit, ratio: Option<Interval>, difference: Option<Interval>) {
    && ratio.Some? == difference.Some? == (f.aa > 0.0 && f.vd > 0.0)
    && (ratio.Some? ==> AreRoots(ratio.value, f.aa, f.bb, f.cc) && IsCentred(difference.value, f.difference, Q * f.vd))
  }

  function DecisionOf(ratio: Option<Interval>): Decision {
    if ratio.None? then Uncertain else Decide(ratio.value, THRESHOLD)
  }

  /** The intervals, when there are any.  The test of the discriminant and the
      consistency test between the two decisions are kept as the study makes
      them; the contract shows that they change nothing. */
  method FitIntervals(f: Fit, ghost blocks: seq<Point>, sqrt: real -> real)
    returns (ratio: Option<Interval>, difference: Option<Interval>, decision: Decision)
    requires f == FitAt(blocks, f.x, f.y) && f.x > 0.0
    requires forall v :: v in {f.Discriminant(), f.vd} && v >= 0.0 ==> IsRoot(sqrt(v), v)
    ensures AreIntervals(f, ratio, difference) && AreConsistent(f.x, f.y, ratio, difference) && decision == DecisionOf(ratio)
  {
    ratio, difference, decision := None, None, Uncertain;
    if f.aa > 0.0 {
      DiscriminantNonNegative(blocks, f.x, f.y, f);
    }
    if f.aa > 0.0 && f.Discriminant() >= 0.0 && f.vd > 0.0 {
      var root := sqrt(f.Discriminant());
      var deviation := sqrt(f.vd);
      ratio := Some(RatioInterval(f, root));
      difference := Some(DifferenceInterval(f, deviation));
      var ratioDecision := Decide(ratio.value, THRESHOLD);
      if ratioDecision == Decide(difference.value, 0.0) {
        decision := ratioDecision;
      }
      FitConsistent(f, blocks, root, deviation);
      RatioRoots(f, root);
      DifferenceCentred(f, deviation);
    }
  }

  lemma {:induction false} FitConsistent(f: Fit, blocks: seq<Point>, root: real, deviation: real)
    requires f == FitAt(blocks, f.x, f.y) && f.x > 0.0 && f.aa > 0.0 && f.vd > 0.0
    requires IsRoot(root, f.Discriminant()) && IsRoot(deviation, f.vd)
    ensures AreConsistent(f.x, f.y, Some(RatioInterval(f, root)), Some(DifferenceInterval(f, deviation)))
  {
    RatioInInterval(blocks, f.x, f.y, f, root);
    DecisionsAgree(blocks, f.x, f.y, f, root, deviation);
  }

  lemma RatioRoots(f: Fit, root: real)
    requires f.aa > 0.0 && IsRoot(root, f.Discriminant())
    ensures AreRoots(RatioInterval(f, root), f.aa, f.bb, f.cc)
  {
    RootsOfQuadratic(f.aa, f.bb, f.cc, root, RatioInterval(f, root).low, RatioInterval(f, root).high);
  }

  lemma DifferenceCentred(f: Fit, deviation: real)
    requires f.vd > 0.0 && IsRoot(deviation, f.vd)
    ensures IsCentred(DifferenceInterval(f, deviation), f.difference, Q * f.vd)
  {
    CentredInterval(f.difference, deviation, f.vd);
  }

  lemma IntervalsAre(pairs: seq<Pair>, f: Fit, ratio: Option<Interval>, difference: Option<Interval>)
    requires |pairs| == 32 && AreFieller(pairs, f.aa, f.bb, f.cc) && f.vd == DifferenceVariance(pairs)
    requires AreIntervals(f, ratio, difference)
    ensures HasIntervals(pairs, ratio, difference, f.difference)
  {
  }

  lemma StratumIs(pairs: seq<Pair>, first: bool)
    requires Sum(As(Stratum(Values(pairs), pairs, first))) > 0.0
    ensures IsStratum(pairs, first, RatioOfMeans(Stratum(Values(pairs), pairs, first)))
  {
    StratumTotals(pairs, first);
    RatioTimes(TotalWhere(pairs, first, Governed), TotalWhere(pairs, first, Trusted));
  }

  function Classify(decision: Decision, trustedFirst: real, governedFirst: real): Decision {
    if (decision == Clear && (trustedFirst > THRESHOLD || governedFirst > THRESHOLD))
       || (decision == Miss && (trustedFirst <= THRESHOLD || governedFirst <= THRESHOLD))
    then Uncertain else decision
  }

  lemma ClassifiedIs(x: real, y: real, ratio: Option<Interval>, difference: Option<Interval>, trustedFirst: real, governedFirst: real)
    requires AreConsistent(x, y, ratio, difference) && Between(y / x, trustedFirst, governedFirst)
    ensures IsClassified(ratio, trustedFirst, governedFirst, Classify(DecisionOf(ratio), trustedFirst, governedFirst))
  {
  }

  /** The conditional classification of one cell. */
  method FixedMeanCell(pairs: seq<Pair>, ghost warmup: int, sqrt: real -> real) returns (cell: Cell)
    requires |pairs| == 32 && Timed(pairs) && InOrder(pairs, warmup)
    requires forall v :: v in {FitOf(pairs).Discriminant(), FitOf(pairs).vd} && v >= 0.0 ==> IsRoot(sqrt(v), v)
    ensures IsCell(pairs, cell)
  {
    CellFacts(pairs, warmup);
    FitIs(pairs);
    var values := Values(pairs);
    var blocks := Blocks(values);
    var f := FitAt(blocks, MeanA(blocks), MeanB(blocks));
    var ratio, difference, decision := FitIntervals(f, blocks, sqrt);
    var trustedFirst := RatioOfMeans(Stratum(values, pairs, true));
    var governedFirst := RatioOfMeans(Stratum(values, pairs, false));
    IntervalsAre(pairs, f, ratio, difference);
    StratumIs(pairs, true);
    StratumIs(pairs, false);
    ClassifiedIs(f.x, f.y, ratio, difference, trustedFirst, governedFirst);
    cell := Cell(f.x, f.y, f.difference, Classify(decision, trustedFirst, governedFirst), ratio, difference,
                 trustedFirst, governedFirst);
  }
}
