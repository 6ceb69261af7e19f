/** Order facts about products and squares of reals, and sums of sequences. */
module RealSquares {
  function Square(u: real): (s: real)
    ensures s >= 0.0
  {
    u * u
  }

  lemma MulPositive(a: real, b: real)
    requires a > 0.0 && b > 0.0
    ensures a * b > 0.0
  {
  }

  lemma MulOrder(c: real, a: real, b: real)
    requires c > 0.0
    ensures a < b <==> c * a < c * b
    ensures a == b <==> c * a == c * b
  {
  }

  lemma Distribute(c: real, a: real, b: real)
    ensures c * (a + b) == c * a + c * b
  {
  }

  lemma SquareAbove(u: real, v: real)
    requires u > v >= 0.0
    ensures Square(u) > Square(v)
  {
    if v == 0.0 {
      calc {
        u * u;
      > { MulPositive(u, u); }
        0.0;
      ==
        v * v;
      }
    } else {
      calc {
        u * u;
      > { MulOrder(u, v, u); }
        u * v;
      > { MulOrder(v, v, u); }
        v * v;
      }
    }
  }

  lemma SquareNegate(u: real)
    ensures Square(-u) == Square(u)
  {
  }

  /** Squares compare with the square of `v` as `u` lies inside, on or outside `-v..v`. */
  lemma SquareCompare(u: real, v: real)
    requires v >= 0.0
    ensures Square(u) < Square(v) <==> -v < u < v
    ensures Square(u) == Square(v) <==> u == v || u == -v
  {
    SquareNegate(u);
    SquareNegate(v);
    if u > v {
      SquareAbove(u, v);
    } else if -u > v {
      SquareAbove(-u, v);
    } else if 0.0 <= u < v {
      SquareAbove(v, u);
    } else if 0.0 <= -u < v {
      SquareAbove(v, -u);
    }
  }

  lemma DivideOrder(c: real, n: real, t: real)
    requires c > 0.0
    ensures n / c < t <==> n < c * t
    ensures n / c == t <==> n == c * t
  {
    MulOrder(c, n / c, t);
    assert c * (n / c) == n;
  }

  // ---------- sums ----------

  function Sum(s: seq<real>): real {
    if s == [] then 0.0 else Sum(s[..|s| - 1]) + s[|s| - 1]
  }

  lemma {:induction false} SumNonNegative(s: seq<real>)
    requires forall i :: 0 <= i < |s| ==> s[i] >= 0.0
    ensures Sum(s) >= 0.0
    ensures |s| > 0 && (forall i :: 0 <= i < |s| ==> s[i] > 0.0) ==> Sum(s) > 0.0
    decreases |s|
  {
    if s != [] {
      SumNonNegative(s[..|s| - 1]);
    }
  }

  lemma {:induction false} SumAdded(t: seq<real>, a: seq<real>, b: seq<real>)
    requires |t| == |a| == |b|
    requires forall i :: 0 <= i < |t| ==> t[i] == a[i] + b[i]
    ensures Sum(t) == Sum(a) + Sum(b)
    decreases |t|
  {
    if t != [] {
      var n := |t| - 1;
      SumAdded(t[..n], a[..n], b[..n]);
    }
  }

  lemma {:induction false} SumScaled(t: seq<real>, b: seq<real>, k: real)
    requires |t| == |b|
    requires forall i :: 0 <= i < |t| ==> t[i] == k * b[i]
    ensures Sum(t) == k * Sum(b)
    decreases |t|
  {
    if t != [] {
      var n := |t| - 1;
      var front, last := Sum(b[..n]), b[n];
      SumScaled(t[..n], b[..n], k);
      Distribute(k, front, last);
      assert Sum(b) == front + last && t[n] == k * last;
      assert Sum(t) == Sum(t[..n]) + t[n];
    }
  }

  predicate Linear(t: seq<real>, a: seq<real>, b: seq<real>, c: seq<real>, k: real, l: real) {
    |t| == |a| == |b| == |c| && forall i :: 0 <= i < |t| ==> t[i] == a[i] + k * b[i] + l * c[i]
  }

  predicate Combines(v: real, a: real, b: real, c: real, k: real, l: real) {
    v == a + k * b + l * c
  }

  /** A linear relation between terms is one between sums. */
  lemma {:induction false} SumLinear(t: seq<real>, a: seq<real>, b: seq<real>, c: seq<real>, k: real, l: real)
    requires Linear(t, a, b, c, k, l)
    ensures Combines(Sum(t), Sum(a), Sum(b), Sum(c), k, l)
  {
    var n := |t|;
    var kb := seq(n, i requires 0 <= i < n => k * b[i]);
    var lc := seq(n, i requires 0 <= i < n => l * c[i]);
    var rest := seq(n, i requires 0 <= i < n => kb[i] + lc[i]);
    SumScaled(kb, b, k);
    SumScaled(lc, c, l);
    SumAdded(rest, kb, lc);
    SumAdded(t, a, rest);
  }
}
