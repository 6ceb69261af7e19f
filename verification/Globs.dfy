/** `*` patterns over cache keys, and the memoised decision of whether two of
    them match a common string. */
module Globs {
  import opened Text

  /** What a pattern matches: `*` is any string, any other character itself. */
  ghost predicate Glob(pattern: string, s: string)
    decreases |pattern|
  {
    if pattern == "" then s == ""
    else if pattern[0] == '*' then exists k :: 0 <= k <= |s| && Glob(pattern[1..], s[k..])
    else s != "" && s[0] == pattern[0] && Glob(pattern[1..], s[1..])
  }

  /** Matching without regard to case. */
  ghost predicate Matches(pattern: string, s: string) {
    Glob(Lower(pattern), Lower(s))
  }

  /** The recursion the memo table caches. */
  function Overlap(left: string, right: string): bool
    decreases |left| + |right|
  {
    if left == "" && right == "" then true
    else if left != "" && left[0] == '*' then
      Overlap(left[1..], right) || (right != "" && Overlap(left, right[1..]))
    else if right != "" && right[0] == '*' then
      Overlap(left, right[1..]) || (left != "" && Overlap(left[1..], right))
    else
      left != "" && right != "" && left[0] == right[0] && Overlap(left[1..], right[1..])
  }

  /** The memo table holds only answers of the recursion. */
  ghost predicate Sound(left: string, right: string, memo: map<(nat, nat), bool>) {
    forall i, j :: (i, j) in memo ==>
      i <= |left| && j <= |right| && memo[(i, j)] == Overlap(left[i..], right[j..])
  }

  method Match(left: string, right: string, i: nat, j: nat, memo: map<(nat, nat), bool>)
    returns (result: bool, table: map<(nat, nat), bool>)
    requires i <= |left| && j <= |right| && Sound(left, right, memo)
    ensures result == Overlap(left[i..], right[j..]) && Sound(left, right, table)
    decreases |left| - i + |right| - j
  {
    if (i, j) in memo {
      return memo[(i, j)], memo;
    }
    table := memo;
    if i == |left| && j == |right| {
      result := true;
    } else if i < |left| && left[i] == '*' {
      result, table := Match(left, right, i + 1, j, table);
      if !result && j < |right| {
        result, table := Match(left, right, i, j + 1, table);
      }
    } else if j < |right| && right[j] == '*' {
      result, table := Match(left, right, i, j + 1, table);
      if !result && i < |left| {
        result, table := Match(left, right, i + 1, j, table);
      }
    } else {
      result := i < |left| && j < |right| && left[i] == right[j];
      if result {
        result, table := Match(left, right, i + 1, j + 1, table);
      }
    }
    table := table[(i, j) := result];
  }

  /** Whether two patterns match one common string, without regard to case. */
  method GlobsOverlap(left: string, right: string) returns (result: bool)
    ensures result <==> exists s :: Matches(left, s) && Matches(right, s)
  {
    var l, r := Lower(left), Lower(right);
    assert l[0..] == l && r[0..] == r;
    var memo: map<(nat, nat), bool> := map[];
    result, memo := Match(l, r, 0, 0, memo);
    OverlapExact(left, right);
  }

  // ---------- the recursion decides intersection ----------

  lemma {:induction false} StarStep(pattern: string, s: string)
    requires pattern != "" && pattern[0] == '*'
    ensures Glob(pattern, s) <==> Glob(pattern[1..], s) || (s != "" && Glob(pattern, s[1..]))
  {
    assert s[0..] == s;
    if Glob(pattern, s) {
      var k :| 0 <= k <= |s| && Glob(pattern[1..], s[k..]);
      if k > 0 {
        assert s[1..][k - 1..] == s[k..];
      }
    }
    if s != "" && Glob(pattern, s[1..]) {
      var k :| 0 <= k <= |s[1..]| && Glob(pattern[1..], s[1..][k..]);
      assert s[1..][k..] == s[k + 1..];
    }
  }

  lemma {:induction false} CommonOverlaps(left: string, right: string, s: string)
    requires Glob(left, s) && Glob(right, s)
    ensures Overlap(left, right)
    decreases |left| + |right| + |s|
  {
    var leftStar, rightStar := left != "" && left[0] == '*', right != "" && right[0] == '*';
    if leftStar {
      StarStep(left, s);
    }
    if rightStar {
      StarStep(right, s);
    }
    if leftStar && Glob(left[1..], s) {
      CommonOverlaps(left[1..], right, s);
    } else if rightStar && Glob(right[1..], s) {
      CommonOverlaps(left, right[1..], s);
    } else if leftStar && rightStar {
      CommonOverlaps(left, right, s[1..]);
    } else if leftStar {
      CommonOverlaps(left, right[1..], s[1..]);
    } else if rightStar {
      CommonOverlaps(left[1..], right, s[1..]);
    } else if s != "" {
      CommonOverlaps(left[1..], right[1..], s[1..]);
    }
  }

  /** A string both patterns match, made of their own literal characters. */
  lemma {:induction false} OverlapHasCommon(left: string, right: string) returns (s: string)
    requires Overlap(left, right)
    ensures Glob(left, s) && Glob(right, s)
    ensures forall c :: c in s ==> c in left || c in right
    decreases |left| + |right|
  {
    if left == "" && right == "" {
      s := "";
    } else if left != "" && left[0] == '*' {
      if Overlap(left[1..], right) {
        s := OverlapHasCommon(left[1..], right);
        StarStep(left, s);
      } else {
        s := TakeFirst(left, right);
      }
    } else if right != "" && right[0] == '*' {
      if Overlap(left, right[1..]) {
        s := OverlapHasCommon(left, right[1..]);
        StarStep(right, s);
      } else {
        s := TakeLiteral(right, left);
      }
    } else {
      var rest := OverlapHasCommon(left[1..], right[1..]);
      s := [left[0]] + rest;
      assert s[1..] == rest;
    }
  }

  /** The star of `star` takes the first character of `other`, itself perhaps a star. */
  lemma {:induction false} TakeFirst(star: string, other: string) returns (s: string)
    requires star != "" && star[0] == '*' && other != "" && Overlap(star, other[1..])
    ensures Glob(star, s) && Glob(other, s)
    ensures forall c :: c in s ==> c in star || c in other
    decreases |star| + |other|, 0
  {
    s := OverlapHasCommon(star, other[1..]);
    if other[0] == '*' {
      StarStep(other, s);
    } else {
      var rest := s;
      s := [other[0]] + rest;
      assert s[1..] == rest;
      StarStep(star, s);
    }
  }

  /** The star of `star`, on the right, takes the literal that `other`, on the left, starts with. */
  lemma {:induction false} TakeLiteral(star: string, other: string) returns (s: string)
    requires star != "" && star[0] == '*' && other != "" && other[0] != '*' && Overlap(other[1..], star)
    ensures Glob(star, s) && Glob(other, s)
    ensures forall c :: c in s ==> c in star || c in other
    decreases |star| + |other|, 0
  {
    var rest := OverlapHasCommon(other[1..], star);
    s := [other[0]] + rest;
    assert s[1..] == rest;
    StarStep(star, s);
  }

  /** The decision is exact in both directions. */
  lemma {:induction false} OverlapExact(left: string, right: string)
    ensures Overlap(Lower(left), Lower(right)) <==> exists s :: Matches(left, s) && Matches(right, s)
  {
    if Overlap(Lower(left), Lower(right)) {
      var s := OverlapHasCommon(Lower(left), Lower(right));
      forall i | 0 <= i < |s| ensures LowerChar(s[i]) == s[i] {
        assert s[i] in Lower(left) || s[i] in Lower(right);
      }
      assert Lower(s) == s;
      assert Matches(left, s) && Matches(right, s);
    }
    forall s | Matches(left, s) && Matches(right, s) ensures Overlap(Lower(left), Lower(right)) {
      CommonOverlaps(Lower(left), Lower(right), Lower(s));
    }
  }

  // ---------- patterns and the strings they were made from ----------

  lemma {:induction false} GlobConcat(p: string, q: string, s: string, t: string)
    requires Glob(p, s) && Glob(q, t)
    ensures Glob(p + q, s + t)
    decreases |p|
  {
    if p == "" {
      assert p + q == q && s + t == t;
    } else {
      assert (p + q)[1..] == p[1..] + q;
      if p[0] == '*' {
        var k :| 0 <= k <= |s| && Glob(p[1..], s[k..]);
        GlobConcat(p[1..], q, s[k..], t);
        assert (s + t)[k..] == s[k..] + t;
      } else {
        GlobConcat(p[1..], q, s[1..], t);
        assert (s + t)[1..] == s[1..] + t;
      }
    }
  }

  /** Text that is its own pattern matches it, whatever stars it contains. */
  lemma {:induction false} GlobSelf(s: string)
    ensures Glob(s, s)
    decreases |s|
  {
    if s != "" {
      GlobSelf(s[1..]);
      if s[0] == '*' {
        assert 0 <= 1 <= |s| && Glob(s[1..], s[1..]);
      }
    }
  }

  lemma {:induction false} GlobAny(s: string)
    ensures Glob("*", s)
  {
    assert "*"[1..] == "" && s[|s|..] == "";
    assert Glob("*"[1..], s[|s|..]);
  }

  /** A pattern without a star matches itself alone. */
  lemma {:induction false} GlobPlain(p: string, s: string)
    requires '*' !in p
    ensures Glob(p, s) <==> s == p
    decreases |p|
  {
    if p != "" && s != "" {
      assert p[0] in p;
      GlobPlain(p[1..], s[1..]);
      assert p == [p[0]] + p[1..] && s == [s[0]] + s[1..];
    }
  }

  ghost predicate SplitsAt(p: string, q: string, s: string, i: nat) {
    i <= |s| && Glob(p, s[..i]) && Glob(q, s[i..])
  }

  /** A concatenation matches exactly what falls into a match of each half. */
  lemma {:induction false} GlobSplit(p: string, q: string, s: string)
    ensures Glob(p + q, s) <==> exists i: nat :: SplitsAt(p, q, s, i)
  {
    if Glob(p + q, s) {
      var i := GlobHalf(p, q, s);
    }
    if i: nat :| SplitsAt(p, q, s, i) {
      GlobConcat(p, q, s[..i], s[i..]);
      assert s[..i] + s[i..] == s;
    }
  }

  lemma {:induction false} GlobHalf(p: string, q: string, s: string) returns (i: nat)
    requires Glob(p + q, s)
    ensures SplitsAt(p, q, s, i)
    decreases |p|
  {
    if p == "" {
      i := 0;
      assert p + q == q && s[0..] == s;
    } else {
      assert (p + q)[1..] == p[1..] + q;
      if p[0] == '*' {
        var k :| 0 <= k <= |s| && Glob((p + q)[1..], s[k..]);
        var j := GlobHalf(p[1..], q, s[k..]);
        i := k + j;
        assert s[..i][k..] == s[k..][..j] && s[k..][j..] == s[i..];
      } else {
        var j := GlobHalf(p[1..], q, s[1..]);
        i := j + 1;
        assert s[..i][1..] == s[1..][..j] && s[1..][j..] == s[i..];
      }
    }
  }

  lemma {:induction false} GlobFoldsCase(p: string, s: string)
    requires Glob(p, s)
    ensures Matches(p, s)
    decreases |p|
  {
    if p != "" {
      assert Lower(p)[1..] == Lower(p[1..]);
      if p[0] == '*' {
        var k :| 0 <= k <= |s| && Glob(p[1..], s[k..]);
        GlobFoldsCase(p[1..], s[k..]);
        assert Lower(s)[k..] == Lower(s[k..]);
      } else {
        GlobFoldsCase(p[1..], s[1..]);
        assert Lower(s)[1..] == Lower(s[1..]);
      }
    }
  }

  lemma {:induction false} MatchesConcat(p: string, q: string, s: string, t: string)
    requires Matches(p, s) && Matches(q, t)
    ensures Matches(p + q, s + t)
  {
    LowerConcat(p, q);
    LowerConcat(s, t);
    GlobConcat(Lower(p), Lower(q), Lower(s), Lower(t));
  }
}
