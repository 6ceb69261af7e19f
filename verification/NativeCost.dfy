/** The fixed-mean study of the native cost analysis, in exact arithmetic:
    a Fieller interval for the ratio of two paired means, and the interval for
    the difference from the threshold that must lead to the same decision. */
module NativeCost {
  import opened Text
  import opened RealSquares

  /** A matched pair of durations: trusted host and locally governed. */
  datatype Point = Point(a: real, b: real)

  const CRITICAL_T: real := 3.036284
  const THRESHOLD: real := 1.10
  const Q: real := CRITICAL_T * CRITICAL_T

  // ---------- what the study computes ----------

  function As(ps: seq<Point>): (s: seq<real>)
    ensures |s| == |ps| && forall i :: 0 <= i < |ps| ==> s[i] == ps[i].a
  {
    seq(|ps|, i requires 0 <= i < |ps| => ps[i].a)
  }

  function Bs(ps: seq<Point>): (s: seq<real>)
    ensures |s| == |ps| && forall i :: 0 <= i < |ps| ==> s[i] == ps[i].b
  {
    seq(|ps|, i requires 0 <= i < |ps| => ps[i].b)
  }

  function SquaresA(ps: seq<Point>, x: real): (s: seq<real>)
    ensures |s| == |ps| && forall i :: 0 <= i < |ps| ==> s[i] == Square(ps[i].a - x)
  {
    seq(|ps|, i requires 0 <= i < |ps| => Square(ps[i].a - x))
  }

  function SquaresB(ps: seq<Point>, y: real): (s: seq<real>)
    ensures |s| == |ps| && forall i :: 0 <= i < |ps| ==> s[i] == Square(ps[i].b - y)
  {
    seq(|ps|, i requires 0 <= i < |ps| => Square(ps[i].b - y))
  }

  function Products(ps: seq<Point>, x: real, y: real): (s: seq<real>)
    ensures |s| == |ps| && forall i :: 0 <= i < |ps| ==> s[i] == (ps[i].a - x) * (ps[i].b - y)
  {
    seq(|ps|, i requires 0 <= i < |ps| => (ps[i].a - x) * (ps[i].b - y))
  }

  /** The squared deviations of `b - r * a` from `centre`. */
  function SquaresAt(ps: seq<Point>, r: real, centre: real): (s: seq<real>)
    ensures |s| == |ps| && forall i :: 0 <= i < |ps| ==> s[i] == Square((ps[i].b - r * ps[i].a) - centre)
  {
    seq(|ps|, i requires 0 <= i < |ps| => Square((ps[i].b - r * ps[i].a) - centre))
  }

  function MeanA(blocks: seq<Point>): real { Sum(As(blocks)) / 16.0 }

  function MeanB(blocks: seq<Point>): real { Sum(Bs(blocks)) / 16.0 }

  /** The variance of the mean of `b - r * a`, whose mean is `centre`. */
  function Variance(blocks: seq<Point>, r: real, centre: real): (v: real)
    ensures v >= 0.0
  {
    SumNonNegative(SquaresAt(blocks, r, centre));
    Sum(SquaresAt(blocks, r, centre)) / 240.0
  }

  datatype Fit = Fit(x: real, y: real, aa: real, bb: real, cc: real, difference: real, vd: real) {
    function Discriminant(): real { bb * bb - aa * cc }
  }

  function FitFrom(x: real, y: real, vx: real, vy: real, covariance: real, difference: real, vd: real): Fit {
    Fit(x, y, x * x - Q * vx, x * y - Q * covariance, y * y - Q * vy, difference, vd)
  }

  /** The fit of blocks whose means are `x` and `y`. */
  function FitAt(blocks: seq<Point>, x: real, y: real): Fit {
    var difference := y - THRESHOLD * x;
    FitFrom(x, y, Sum(SquaresA(blocks, x)) / 240.0, Sum(SquaresB(blocks, y)) / 240.0,
            Sum(Products(blocks, x, y)) / 240.0, difference, Variance(blocks, THRESHOLD, difference))
  }

  datatype Interval = Interval(low: real, high: real)

  datatype Decision = Clear | Miss | Uncertain

  function RatioInterval(f: Fit, root: real): Interval
    requires f.aa != 0.0
  {
    Interval((f.bb - root) / f.aa, (f.bb + root) / f.aa)
  }

  function DifferenceInterval(f: Fit, deviation: real): Interval {
    var width := CRITICAL_T * deviation;
    Interval(f.difference - width, f.difference + width)
  }

  /** Where an interval lies with respect to a bound. */
  function Decide(i: Interval, bound: real): Decision {
    if i.high <= bound then Clear else if i.low > bound then Miss else Uncertain
  }

  // ---------- the variance of b - r * a ----------

  lemma SquareOfDifference(u: real, v: real, w: real, r: real)
    requires w == v - r * u
    ensures Square(w) == Square(v) + (-2.0 * r) * (u * v) + (r * r) * Square(u)
  {
    assert (v - r * u) * (v - r * u) == v * v + (-2.0 * r) * (u * v) + (r * r) * (u * u);
  }

  lemma Deviation(a: real, b: real, r: real, x: real, y: real, centre: real)
    requires centre == y - r * x
    ensures (b - r * a) - centre == (b - y) - r * (a - x)
  {
  }

  lemma {:induction false} TermsRelate(ps: seq<Point>, r: real, x: real, y: real, centre: real)
    requires centre == y - r * x
    ensures Linear(SquaresAt(ps, r, centre), SquaresB(ps, y), Products(ps, x, y), SquaresA(ps, x), -2.0 * r, r * r)
  {
    forall i | 0 <= i < |ps|
      ensures SquaresAt(ps, r, centre)[i] ==
              SquaresB(ps, y)[i] + (-2.0 * r) * Products(ps, x, y)[i] + (r * r) * SquaresA(ps, x)[i]
    {
      var a, b := ps[i].a, ps[i].b;
      Deviation(a, b, r, x, y, centre);
      SquareOfDifference(a - x, b - y, (b - r * a) - centre, r);
    }
  }

  predicate Quadratic(v: real, b: real, c: real, a: real, r: real) {
    Combines(v, b, c, a, -2.0 * r, r * r)
  }

  /** The sum of squares of `b - r * a` is a quadratic in `r`. */
  lemma {:induction false} SumOfSquaresIsQuadratic(ps: seq<Point>, r: real, x: real, y: real, centre: real)
    requires centre == y - r * x
    ensures Quadratic(Sum(SquaresAt(ps, r, centre)), Sum(SquaresB(ps, y)), Sum(Products(ps, x, y)),
                      Sum(SquaresA(ps, x)), r)
  {
    TermsRelate(ps, r, x, y, centre);
    SumLinear(SquaresAt(ps, r, centre), SquaresB(ps, y), Products(ps, x, y), SquaresA(ps, x), -2.0 * r, r * r);
  }

  lemma Scale(v: real, b: real, c: real, a: real, r: real)
    requires Quadratic(v, b, c, a, r)
    ensures Quadratic(v / 240.0, b / 240.0, c / 240.0, a / 240.0, r)
  {
  }

  /** How far `r` is from the centre of the ratio interval, in terms of the
      variance at `r` and of `centre`, which is `y - r * x`. */
  predicate Placed(aa: real, bb: real, discriminant: real, r: real, centre: real, variance: real) {
    Square(aa * r - bb) - discriminant == aa * (Square(centre) - Q * variance)
  }

  lemma CompleteTheSquare(aa: real, bb: real, cc: real, r: real, p: real)
    requires aa * r * r - 2.0 * bb * r + cc == p
    ensures Square(aa * r - bb) - (bb * bb - aa * cc) == aa * p
  {
    calc {
      aa * p;
    ==
      aa * (aa * r * r - 2.0 * bb * r + cc);
    ==
      (aa * r - bb) * (aa * r - bb) - (bb * bb - aa * cc);
    }
  }

  predicate AreCoefficients(aa: real, bb: real, cc: real, x: real, y: real, vx: real, vy: real, cov: real) {
    aa == x * x - Q * vx && bb == x * y - Q * cov && cc == y * y - Q * vy
  }

  /** The quadratic in `r`, spelled out from its coefficients. */
  lemma QuadraticAt(aa: real, bb: real, cc: real, x: real, y: real, vx: real, vy: real, cov: real,
                    r: real, centre: real, variance: real)
    requires AreCoefficients(aa, bb, cc, x, y, vx, vy, cov)
    requires Quadratic(variance, vy, cov, vx, r) && centre == y - r * x
    ensures aa * r * r - 2.0 * bb * r + cc == Square(centre) - Q * variance
  {
    calc {
      Square(centre) - Q * variance;
    ==
      (y - r * x) * (y - r * x) - Q * (vy + (-2.0 * r) * cov + (r * r) * vx);
    == { SquareTerms(x, y, r); }
      (y * y - 2.0 * (x * y) * r + (x * x) * r * r) - (Q * vy - 2.0 * (Q * cov) * r + (Q * vx) * r * r);
    ==
      (x * x - Q * vx) * r * r - 2.0 * (x * y - Q * cov) * r + (y * y - Q * vy);
    ==
      aa * r * r - 2.0 * bb * r + cc;
    }
  }

  lemma SquareTerms(x: real, y: real, r: real)
    ensures (y - r * x) * (y - r * x) == y * y - 2.0 * (x * y) * r + (x * x) * r * r
  {
  }

  lemma PlacedFrom(aa: real, bb: real, cc: real, x: real, y: real, vx: real, vy: real, cov: real,
                   r: real, centre: real, variance: real)
    requires AreCoefficients(aa, bb, cc, x, y, vx, vy, cov)
    requires Quadratic(variance, vy, cov, vx, r) && centre == y - r * x
    ensures Placed(aa, bb, bb * bb - aa * cc, r, centre, variance)
  {
    assert aa * r * r - 2.0 * bb * r + cc == Square(centre) - Q * variance by {
      QuadraticAt(aa, bb, cc, x, y, vx, vy, cov, r, centre, variance);
    }
    CompleteTheSquare(aa, bb, cc, r, Square(centre) - Q * variance);
  }

  lemma {:induction false} VarianceIsQuadratic(blocks: seq<Point>, r: real, x: real, y: real, centre: real)
    requires centre == y - r * x
    ensures Quadratic(Variance(blocks, r, centre), Sum(SquaresB(blocks, y)) / 240.0,
                      Sum(Products(blocks, x, y)) / 240.0, Sum(SquaresA(blocks, x)) / 240.0, r)
  {
    SumOfSquaresIsQuadratic(blocks, r, x, y, centre);
    Scale(Sum(SquaresAt(blocks, r, centre)), Sum(SquaresB(blocks, y)), Sum(Products(blocks, x, y)),
          Sum(SquaresA(blocks, x)), r);
  }

  lemma FitCoefficients(x: real, y: real, vx: real, vy: real, cov: real, difference: real, vd: real, f: Fit)
    requires f == FitFrom(x, y, vx, vy, cov, difference, vd)
    ensures AreCoefficients(f.aa, f.bb, f.cc, x, y, vx, vy, cov)
  {
  }

  lemma {:induction false} FitPlaces(blocks: seq<Point>, x: real, y: real, f: Fit, r: real, centre: real)
    requires f == FitAt(blocks, x, y) && centre == y - r * x
    ensures Placed(f.aa, f.bb, f.Discriminant(), r, centre, Variance(blocks, r, centre))
  {
    var vx, vy, cov :=
      Sum(SquaresA(blocks, x)) / 240.0, Sum(SquaresB(blocks, y)) / 240.0, Sum(Products(blocks, x, y)) / 240.0;
    assert Quadratic(Variance(blocks, r, centre), vy, cov, vx, r) by {
      VarianceIsQuadratic(blocks, r, x, y, centre);
    }
    FitCoefficients(x, y, vx, vy, cov, f.difference, f.vd, f);
    PlacedFrom(f.aa, f.bb, f.cc, x, y, vx, vy, cov, r, centre, Variance(blocks, r, centre));
  }

  // ---------- the ratio interval ----------

  /** `root` is the square root of `v`. */
  predicate IsRoot(root: real, v: real) {
    root >= 0.0 && Square(root) == v
  }

  lemma SignTransfers(aa: real, s: real, g: real)
    requires aa > 0.0 && s == aa * g
    ensures s < 0.0 <==> g < 0.0
    ensures s == 0.0 <==> g == 0.0
  {
    MulOrder(aa, g, 0.0);
    assert aa * 0.0 == 0.0;
  }

  lemma QuotientCancels(y: real, x: real)
    requires x != 0.0
    ensures y - (y / x) * x == 0.0
  {
  }

  /** `r` lies between the roots of the quadratic. */
  predicate Within(aa: real, bb: real, discriminant: real, r: real) {
    Square(aa * r - bb) <= discriminant
  }

  /** With a positive leading coefficient the discriminant is never negative:
      at the ratio of the means the quadratic is at most zero. */
  lemma {:induction false} RatioPlaced(blocks: seq<Point>, x: real, y: real, f: Fit, r: real)
    requires f == FitAt(blocks, x, y) && y - r * x == 0.0 && f.aa > 0.0
    ensures Within(f.aa, f.bb, f.Discriminant(), r)
  {
    FitPlaces(blocks, x, y, f, r, 0.0);
    AtMost(f.aa, Square(f.aa * r - f.bb), f.Discriminant(), Variance(blocks, r, 0.0));
  }

  lemma AtMost(aa: real, s: real, discriminant: real, v: real)
    requires aa > 0.0 && v >= 0.0 && s - discriminant == aa * (Square(0.0) - Q * v)
    ensures s <= discriminant
  {
    assert Q * v >= 0.0;
    SignTransfers(aa, s - discriminant, Square(0.0) - Q * v);
  }

  /** The discriminant test of the study is redundant: a positive leading coefficient is enough. */
  lemma {:induction false} DiscriminantNonNegative(blocks: seq<Point>, x: real, y: real, f: Fit)
    requires f == FitAt(blocks, x, y) && x > 0.0 && f.aa > 0.0
    ensures f.Discriminant() >= 0.0
  {
    var r := y / x;
    assert y - r * x == 0.0 by {
      QuotientCancels(y, x);
    }
    RatioPlaced(blocks, x, y, f, r);
    WithinNonNegative(f.aa, f.bb, f.Discriminant(), r);
  }

  lemma WithinNonNegative(aa: real, bb: real, discriminant: real, r: real)
    requires Within(aa, bb, discriminant, r)
    ensures discriminant >= 0.0
  {
  }

  /** The ratio of the means lies in its interval. */
  lemma {:induction false} RatioInInterval(blocks: seq<Point>, x: real, y: real, f: Fit, root: real)
    requires f == FitAt(blocks, x, y) && x > 0.0 && f.aa > 0.0 && IsRoot(root, f.Discriminant())
    ensures RatioInterval(f, root).low <= y / x <= RatioInterval(f, root).high
  {
    var r := y / x;
    assert y - r * x == 0.0 by {
      QuotientCancels(y, x);
    }
    RatioPlaced(blocks, x, y, f, r);
    Enclose(f.aa, f.bb, f.Discriminant(), root, r);
  }

  lemma Enclose(aa: real, bb: real, discriminant: real, root: real, r: real)
    requires aa > 0.0 && IsRoot(root, discriminant) && Within(aa, bb, discriminant, r)
    ensures (bb - root) / aa <= r <= (bb + root) / aa
  {
    var offset := aa * r - bb;
    assert -root <= offset <= root by {
      SquareCompare(offset, root);
    }
    DivideOrder(aa, bb - root, r);
    DivideOrder(aa, bb + root, r);
  }

  // ---------- the two decisions agree ----------

  /** Two offsets that compare alike with their half widths, and lie on the
      same side, place their intervals alike. */
  lemma Placement(offset: real, root: real, d: real, width: real, low: real, high: real, point: real)
    requires root >= 0.0 && width > 0.0
    requires -root < offset < root <==> -width < d < width
    requires offset == root || offset == -root <==> d == width || d == -width
    requires (high < THRESHOLD <==> root < offset) && (high == THRESHOLD <==> root == offset)
    requires (low < THRESHOLD <==> -root < offset) && (low == THRESHOLD <==> -root == offset)
    requires low <= point <= high
    requires (d < 0.0 <==> point < THRESHOLD) && (d == 0.0 <==> point == THRESHOLD)
    ensures Decide(Interval(low, high), THRESHOLD) == Decide(Interval(d - width, d + width), 0.0)
  {
  }

  lemma Alike(aa: real, offset: real, root: real, d: real, width: real, discriminant: real, vd: real)
    requires aa > 0.0 && root >= 0.0 && width >= 0.0
    requires Square(root) == discriminant && Square(width) == Q * vd
    requires Square(offset) - discriminant == aa * (Square(d) - Q * vd)
    ensures -root < offset < root <==> -width < d < width
    ensures offset == root || offset == -root <==> d == width || d == -width
  {
    SquareCompare(offset, root);
    SquareCompare(d, width);
    SignTransfers(aa, Square(offset) - discriminant, Square(d) - Q * vd);
  }

  lemma Width(deviation: real, vd: real)
    requires IsRoot(deviation, vd) && vd > 0.0
    ensures CRITICAL_T * deviation > 0.0 && Square(CRITICAL_T * deviation) == Q * vd
  {
    MulPositive(CRITICAL_T, deviation);
  }

  lemma Endpoints(aa: real, bb: real, root: real, t: real)
    requires aa > 0.0
    ensures ((bb + root) / aa < t <==> root < aa * t - bb) && ((bb + root) / aa == t <==> root == aa * t - bb)
    ensures ((bb - root) / aa < t <==> -root < aa * t - bb) && ((bb - root) / aa == t <==> -root == aa * t - bb)
  {
    DivideOrder(aa, bb + root, t);
    DivideOrder(aa, bb - root, t);
  }

  lemma Side(x: real, y: real, d: real)
    requires x > 0.0 && d == y - THRESHOLD * x
    ensures (d < 0.0 <==> y / x < THRESHOLD) && (d == 0.0 <==> y / x == THRESHOLD)
  {
    DivideOrder(x, y, THRESHOLD);
  }

  /** Fieller agreement: the ratio interval and the difference interval always
      lead to the same decision, so the study's consistency test never fires. */
  lemma {:induction false} DecisionsAgree(blocks: seq<Point>, x: real, y: real, f: Fit, root: real, deviation: real)
    requires f == FitAt(blocks, x, y) && x > 0.0 && f.aa > 0.0 && f.vd > 0.0
    requires IsRoot(root, f.Discriminant()) && IsRoot(deviation, f.vd)
    ensures Decide(RatioInterval(f, root), THRESHOLD) == Decide(DifferenceInterval(f, deviation), 0.0)
  {
    FitPlaces(blocks, x, y, f, THRESHOLD, f.difference);
    RatioInInterval(blocks, x, y, f, root);
    DecideAlike(f.aa, f.bb, f.Discriminant(), x, y, f.difference, f.vd, root, deviation);
  }

  lemma DecideAlike(aa: real, bb: real, discriminant: real, x: real, y: real, d: real, vd: real, root: real, deviation: real)
    requires x > 0.0 && aa > 0.0 && vd > 0.0 && d == y - THRESHOLD * x
    requires IsRoot(root, discriminant) && IsRoot(deviation, vd)
    requires Placed(aa, bb, discriminant, THRESHOLD, d, vd)
    requires (bb - root) / aa <= y / x <= (bb + root) / aa
    ensures Decide(Interval((bb - root) / aa, (bb + root) / aa), THRESHOLD) ==
            Decide(Interval(d - CRITICAL_T * deviation, d + CRITICAL_T * deviation), 0.0)
  {
    var offset, width := aa * THRESHOLD - bb, CRITICAL_T * deviation;
    Width(deviation, vd);
    Alike(aa, offset, root, d, width, discriminant, vd);
    Side(x, y, d);
    Endpoints(aa, bb, root, THRESHOLD);
    Placement(offset, root, d, width, (bb - root) / aa, (bb + root) / aa, y / x);
  }

  // ---------- pairs, blocks and order strata ----------

  datatype Sample = Sample(duration: int, firstInPair: bool)

  datatype Pair = Pair(trusted: Sample, governed: Sample)

  /** Pair `i` runs the trusted host first exactly when `i` plus the warm-up count is even. */
  predicate InOrder(pairs: seq<Pair>, warmup: int) {
    forall i :: 0 <= i < |pairs| ==>
      pairs[i].trusted.firstInPair == TrustedFirst(i, warmup) &&
      pairs[i].governed.firstInPair != TrustedFirst(i, warmup)
  }

  predicate TrustedFirst(i: int, warmup: int) {
    (i + warmup) % 2 == 0
  }

  method ValidatePairOrder(warmup: int, pairs: seq<Pair>) returns (valid: bool)
    ensures valid <==> 20 <= warmup <= 500 && InOrder(pairs, warmup)
  {
    if !(20 <= warmup <= 500) {
      return false;
    }
    for i := 0 to |pairs|
      invariant InOrder(pairs[..i], warmup)
    {
      var baselineFirst := (i + warmup) % 2 == 0;
      if pairs[i].trusted.firstInPair != baselineFirst || pairs[i].governed.firstInPair == baselineFirst {
        assert !InOrder(pairs, warmup);
        return false;
      }
    }
    assert pairs[..|pairs|] == pairs;
    return true;
  }

  function Values(pairs: seq<Pair>): (vs: seq<Point>)
    ensures |vs| == |pairs|
  {
    seq(|pairs|, i requires 0 <= i < |pairs| =>
      Point(pairs[i].trusted.duration as real, pairs[i].governed.duration as real))
  }

  /** Adjacent pairs averaged: each block holds both execution orders. */
  function Blocks(vs: seq<Point>): (bs: seq<Point>)
    requires |vs| % 2 == 0
    ensures |bs| == |vs| / 2
  {
    seq(|vs| / 2, k requires 0 <= k < |vs| / 2 =>
      Average(vs[2 * k], vs[2 * k + 1]))
  }

  /** The values of the pairs whose trusted-first flag is `first`. */
  function Stratum(vs: seq<Point>, pairs: seq<Pair>, first: bool): seq<Point>
    requires |vs| == |pairs|
  {
    if vs == [] then []
    else
      var rest := Stratum(vs[..|vs| - 1], pairs[..|pairs| - 1], first);
      if pairs[|pairs| - 1].trusted.firstInPair == first then rest + [vs[|vs| - 1]] else rest
  }

  lemma SumAppend(s: seq<real>, v: real)
    ensures Sum(s + [v]) == Sum(s) + v
  {
    assert (s + [v])[..|s|] == s;
  }

  lemma AppendPoint(ps: seq<Point>, p: Point)
    ensures Sum(As(ps + [p])) == Sum(As(ps)) + p.a && Sum(Bs(ps + [p])) == Sum(Bs(ps)) + p.b
  {
    assert As(ps + [p]) == As(ps) + [p.a] && Bs(ps + [p]) == Bs(ps) + [p.b];
    SumAppend(As(ps), p.a);
    SumAppend(Bs(ps), p.b);
  }

  function Average(p: Point, q: Point): Point {
    Point((p.a + q.a) / 2.0, (p.b + q.b) / 2.0)
  }

  lemma {:induction false} BlocksStep(vs: seq<Point>, p: Point, q: Point)
    requires |vs| % 2 == 0
    ensures Blocks(vs + [p, q]) == Blocks(vs) + [Average(p, q)]
  {
    var longer := vs + [p, q];
    forall k | 0 <= k < |longer| / 2 ensures Blocks(longer)[k] == (Blocks(vs) + [Average(p, q)])[k] {
      if k < |vs| / 2 {
        assert longer[2 * k] == vs[2 * k] && longer[2 * k + 1] == vs[2 * k + 1];
      }
    }
  }

  /** Averaging adjacent pairs halves the sums. */
  lemma {:induction false} BlockSums(vs: seq<Point>)
    requires |vs| % 2 == 0
    ensures Sum(As(Blocks(vs))) == Sum(As(vs)) / 2.0 && Sum(Bs(Blocks(vs))) == Sum(Bs(vs)) / 2.0
    decreases |vs|
  {
    if vs != [] {
      var n := |vs| - 2;
      var rest, p, q := vs[..n], vs[n], vs[n + 1];
      assert vs == rest + [p, q] == (rest + [p]) + [q];
      BlockSums(rest);
      BlocksStep(rest, p, q);
      AppendPoint(Blocks(rest), Average(p, q));
      AppendPoint(rest, p);
      AppendPoint(rest + [p], q);
    }
  }

  lemma StratumSums(vs: seq<Point>, pairs: seq<Pair>, first: bool)
    requires |vs| == |pairs| > 0
    ensures var n := |vs| - 1;
            var s, rest := Stratum(vs, pairs, first), Stratum(vs[..n], pairs[..n], first);
            if pairs[n].trusted.firstInPair == first
            then |s| == |rest| + 1 && Sum(As(s)) == Sum(As(rest)) + vs[n].a && Sum(Bs(s)) == Sum(Bs(rest)) + vs[n].b
            else s == rest
  {
    var n := |vs| - 1;
    AppendPoint(Stratum(vs[..n], pairs[..n], first), vs[n]);
  }

  /** The two strata partition the sample: sizes and sums add up. */
  lemma {:induction false} StrataPartition(vs: seq<Point>, pairs: seq<Pair>)
    requires |vs| == |pairs|
    ensures |Stratum(vs, pairs, true)| + |Stratum(vs, pairs, false)| == |vs|
    ensures Sum(As(Stratum(vs, pairs, true))) + Sum(As(Stratum(vs, pairs, false))) == Sum(As(vs))
    ensures Sum(Bs(Stratum(vs, pairs, true))) + Sum(Bs(Stratum(vs, pairs, false))) == Sum(Bs(vs))
    decreases |vs|
  {
    if vs != [] {
      var n := |vs| - 1;
      StrataPartition(vs[..n], pairs[..n]);
      StratumSums(vs, pairs, true);
      StratumSums(vs, pairs, false);
      WholeSums(vs);
    }
  }

  lemma WholeSums(vs: seq<Point>)
    requires vs != []
    ensures var n := |vs| - 1;
            Sum(As(vs)) == Sum(As(vs[..n])) + vs[n].a && Sum(Bs(vs)) == Sum(Bs(vs[..n])) + vs[n].b
  {
    SplitLast(vs);
    AppendPoint(vs[..|vs| - 1], vs[|vs| - 1]);
  }

  /** Adjacent pairs run in opposite orders. */
  lemma OrdersAlternate(pairs: seq<Pair>, warmup: int)
    requires InOrder(pairs, warmup)
    ensures forall k :: 0 <= k < |pairs| / 2 ==>
              pairs[2 * k].trusted.firstInPair != pairs[2 * k + 1].trusted.firstInPair
  {
  }

  /** Order balance: over any even number of validated pairs, each adjacent
      block has one pair of each order, so the strata are of equal size. */
  lemma {:induction false} StrataBalanced(vs: seq<Point>, pairs: seq<Pair>, warmup: int)
    requires |vs| == |pairs| && |vs| % 2 == 0 && InOrder(pairs, warmup)
    ensures |Stratum(vs, pairs, true)| == |Stratum(vs, pairs, false)| == |vs| / 2
    ensures forall k :: 0 <= k < |pairs| / 2 ==>
              pairs[2 * k].trusted.firstInPair != pairs[2 * k + 1].trusted.firstInPair
    decreases |vs|
  {
    OrdersAlternate(pairs, warmup);
    if vs != [] {
      var n := |vs| - 2;
      StrataBalanced(vs[..n], pairs[..n], warmup);
      assert n == 2 * (n / 2);
      StratumPair(vs, pairs, true);
      StratumPair(vs, pairs, false);
    }
  }

  lemma StratumPair(vs: seq<Point>, pairs: seq<Pair>, first: bool)
    requires |vs| == |pairs| >= 2
    ensures var n := |vs| - 2;
            |Stratum(vs, pairs, first)| == |Stratum(vs[..n], pairs[..n], first)|
              + (if pairs[n].trusted.firstInPair == first then 1 else 0)
              + (if pairs[n + 1].trusted.firstInPair == first then 1 else 0)
  {
    var n := |vs| - 2;
    assert vs[..n + 1][..n] == vs[..n] && pairs[..n + 1][..n] == pairs[..n];
    StratumStep(vs[..n + 1], pairs[..n + 1], first);
    StratumStep(vs, pairs, first);
  }

  lemma StratumStep(vs: seq<Point>, pairs: seq<Pair>, first: bool)
    requires |vs| == |pairs| > 0
    ensures |Stratum(vs, pairs, first)| ==
            |Stratum(vs[..|vs| - 1], pairs[..|pairs| - 1], first)| +
            (if pairs[|pairs| - 1].trusted.firstInPair == first then 1 else 0)
  {
  }

  lemma {:induction false} StratumPositive(vs: seq<Point>, pairs: seq<Pair>, first: bool)
    requires |vs| == |pairs| && forall i :: 0 <= i < |vs| ==> vs[i].a > 0.0
    ensures var s := Stratum(vs, pairs, first); forall i :: 0 <= i < |s| ==> s[i].a > 0.0
    ensures |Stratum(vs, pairs, first)| > 0 ==> Sum(As(Stratum(vs, pairs, first))) > 0.0
    decreases |vs|
  {
    if vs != [] {
      StratumPositive(vs[..|vs| - 1], pairs[..|pairs| - 1], first);
    }
    SumNonNegative(As(Stratum(vs, pairs, first)));
  }

  function RatioOfMeans(ps: seq<Point>): real
    requires Sum(As(ps)) != 0.0
  {
    Sum(Bs(ps)) / Sum(As(ps))
  }

  predicate Between(v: real, p: real, q: real) {
    p <= v <= q || q <= v <= p
  }

  /** A mediant lies between its two ratios. */
  lemma {:induction false} MediantBetween(at: real, bt: real, af: real, bf: real)
    requires at > 0.0 && af > 0.0
    ensures Between((bt + bf) / (at + af), bt / at, bf / af)
  {
    var p, q := bt / at, bf / af;
    RatioAtLeast(at, bt, af, bf, if p <= q then p else q);
    RatioAtMost(at, bt, af, bf, if p <= q then q else p);
  }

  lemma RatioAtLeast(at: real, bt: real, af: real, bf: real, low: real)
    requires at > 0.0 && af > 0.0 && bt / at >= low && bf / af >= low
    ensures (bt + bf) / (at + af) >= low
  {
    DivideOrder(at, bt, low);
    DivideOrder(af, bf, low);
    DivideOrder(at + af, bt + bf, low);
    assert (at + af) * low == at * low + af * low;
  }

  lemma RatioAtMost(at: real, bt: real, af: real, bf: real, high: real)
    requires at > 0.0 && af > 0.0 && bt / at <= high && bf / af <= high
    ensures (bt + bf) / (at + af) <= high
  {
    DivideOrder(at, bt, high);
    DivideOrder(af, bf, high);
    DivideOrder(at + af, bt + bf, high);
    assert (at + af) * high == at * high + af * high;
  }
}
