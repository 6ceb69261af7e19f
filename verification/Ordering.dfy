/** The order in which the checkers sort strings, and a set of strings in that order. */
module Ordering {

  predicate LexLeq(s: string, t: string) {
    s == "" || (t != "" && (s[0] < t[0] || (s[0] == t[0] && LexLeq(s[1..], t[1..]))))
  }

  lemma {:induction false} LexTotal(s: string, t: string)
    ensures LexLeq(s, t) || LexLeq(t, s)
    decreases |s|
  {
    if s != "" && t != "" && s[0] == t[0] {
      LexTotal(s[1..], t[1..]);
    }
  }

  lemma {:induction false} LexTransitive(s: string, t: string, u: string)
    requires LexLeq(s, t) && LexLeq(t, u)
    ensures LexLeq(s, u)
    decreases |s|
  {
    if s != "" && s[0] == t[0] == u[0] {
      LexTransitive(s[1..], t[1..], u[1..]);
    }
  }

  lemma {:induction false} LexAntisymmetric(s: string, t: string)
    requires LexLeq(s, t) && LexLeq(t, s)
    ensures s == t
    decreases |s|
  {
    if s != "" {
      LexAntisymmetric(s[1..], t[1..]);
      assert s == [s[0]] + s[1..] && t == [t[0]] + t[1..];
    }
  }

  predicate IsLeast(s: set<string>, m: string) {
    m in s && forall x :: x in s ==> LexLeq(m, x)
  }

  lemma {:induction false} LeastExists(s: set<string>)
    requires s != {}
    ensures exists m :: IsLeast(s, m)
    ensures forall m, n :: IsLeast(s, m) && IsLeast(s, n) ==> m == n
    decreases |s|
  {
    forall m, n | IsLeast(s, m) && IsLeast(s, n) ensures m == n {
      LexAntisymmetric(m, n);
    }
    var x :| x in s;
    LexTotal(x, x);
    if s - {x} == {} {
      assert s == {x};
      assert IsLeast(s, x);
    } else {
      LeastExists(s - {x});
      var m :| IsLeast(s - {x}, m);
      LexTotal(x, m);
      if LexLeq(x, m) {
        forall y | y in s ensures LexLeq(x, y) {
          if y != x {
            LexTransitive(x, m, y);
          }
        }
        assert IsLeast(s, x);
      } else {
        assert IsLeast(s, m);
      }
    }
  }

  /** The elements of a set in ascending order. */
  function Sorted(s: set<string>): seq<string>
    decreases |s|
  {
    if s == {} then []
    else
      LeastExists(s);
      var m :| IsLeast(s, m);
      [m] + Sorted(s - {m})
  }

  lemma {:induction false} SortedLists(s: set<string>)
    ensures forall x :: x in Sorted(s) <==> x in s
    ensures forall i, j :: 0 <= i < j < |Sorted(s)| ==> Sorted(s)[i] != Sorted(s)[j] && LexLeq(Sorted(s)[i], Sorted(s)[j])
    decreases |s|
  {
    if s != {} {
      LeastExists(s);
      var m :| IsLeast(s, m) && Sorted(s) == [m] + Sorted(s - {m});
      SortedLists(s - {m});
    }
  }

  lemma {:induction false} SortedLength(s: set<string>)
    ensures |Sorted(s)| == |s|
    decreases |s|
  {
    if s != {} {
      LeastExists(s);
      var m :| IsLeast(s, m) && Sorted(s) == [m] + Sorted(s - {m});
      SortedLength(s - {m});
    }
  }
}
