/** The dependency levels of a parallel publish, derived from the canonical
    order and the package metadata. */
module CrateLevels {
  import opened Ordering
  import opened Text

  datatype Dependency = Dependency(name: string, dev: bool)
  datatype Package = Package(name: string, version: string, dependencies: seq<Dependency>)
  datatype Row = Row(level: nat, crate: string, version: string)

  /** The three refusals are tried in this order. */
  datatype Outcome =
    | Levels(rows: seq<Row>)
    | Duplicates(names: seq<string>)
    | Missing(names: seq<string>)
    | Misordered(pairs: seq<(string, string)>)

  /** The packages by name, the last of a name winning. */
  function ByName(packages: seq<Package>): (r: map<string, Package>)
    ensures forall name :: name in r ==> r[name].name == name
  {
    if packages == [] then map[]
    else
      var last := packages[|packages| - 1];
      ByName(packages[..|packages| - 1])[last.name := last]
  }

  /** Every crate of the order has its package. */
  ghost predicate Covers(packages: map<string, Package>, order: seq<string>) {
    forall crate :: crate in order ==> crate in packages && packages[crate].name == crate
  }

  /** The release crates a package needs published first. */
  function ReleaseDependencies(package: Package, release: set<string>): set<string> {
    set d | d in package.dependencies && !d.dev && d.name in release && d.name != package.name :: d.name
  }

  function Repeated(order: seq<string>): set<string> {
    set i, j | 0 <= i < j < |order| && order[i] == order[j] :: order[i]
  }

  function Unknown(order: seq<string>, known: set<string>): seq<string> {
    if order == [] then []
    else
      var last := order[|order| - 1];
      Unknown(order[..|order| - 1], known) + if last in known then [] else [last]
  }

  /** The dependencies of the crate at `i` that come later. */
  function Later(order: seq<string>, deps: set<string>, i: nat): set<string>
    requires i < |order|
  {
    set j | i < j < |order| && order[j] in deps :: order[j]
  }

  function Pairs(crate: string, names: seq<string>): seq<(string, string)> {
    seq(|names|, k requires 0 <= k < |names| => (crate, names[k]))
  }

  /** The crate at `n` with each dependency that comes later, by name. */
  function ErrorsAt(order: seq<string>, packages: map<string, Package>, n: nat): seq<(string, string)>
    requires n < |order| && Covers(packages, order)
  {
    var deps := ReleaseDependencies(packages[order[n]], Elements(order));
    Pairs(order[n], Sorted(Later(order, deps, n)))
  }

  function Errors(order: seq<string>, packages: map<string, Package>, n: nat): seq<(string, string)>
    requires n <= |order| && Covers(packages, order)
  {
    if n == 0 then [] else Errors(order, packages, n - 1) + ErrorsAt(order, packages, n - 1)
  }

  // ---------- what a levelling is ----------

  /** Dependencies lie strictly lower, and every crate above level 0 has one exactly one level below. */
  ghost predicate IsLevelling(level: map<string, nat>, deps: map<string, set<string>>) {
    && level.Keys == deps.Keys
    && forall crate :: crate in deps ==> deps[crate] <= deps.Keys && Settled(level, crate, deps[crate])
  }

  ghost predicate Settled(level: map<string, nat>, crate: string, deps: set<string>) {
    && crate in level
    && (forall dep :: dep in deps && dep in level ==> level[dep] < level[crate])
    && (level[crate] > 0 ==> exists dep :: dep in deps && dep in level && level[dep] == level[crate] - 1)
  }

  /** The package depends on `name`, not only for its tests. */
  ghost predicate Needs(package: Package, name: string) {
    exists k :: 0 <= k < |package.dependencies| && package.dependencies[k].name == name && !package.dependencies[k].dev
  }

  /** The crates of the order that each of them needs, itself apart. */
  ghost function DepsOf(order: seq<string>, packages: map<string, Package>): map<string, set<string>>
    requires Covers(packages, order)
  {
    map crate | crate in order :: set dep | dep in order && dep != crate && Needs(packages[crate], dep)
  }

  /** Every crate needed comes earlier. */
  ghost predicate InOrder(order: seq<string>, packages: map<string, Package>)
    requires Covers(packages, order)
  {
    forall i, j :: 0 <= i < j < |order| && order[i] != order[j] ==> !Needs(packages[order[i]], order[j])
  }

  lemma {:induction false} DependenciesExactly(package: Package, release: set<string>, name: string)
    ensures name in ReleaseDependencies(package, release) <==> name in release && name != package.name && Needs(package, name)
  {
    if name in release && name != package.name && Needs(package, name) {
      var k :| 0 <= k < |package.dependencies| && package.dependencies[k].name == name && !package.dependencies[k].dev;
      assert package.dependencies[k] in package.dependencies;
    }
    if name in ReleaseDependencies(package, release) {
      var d :| d in package.dependencies && !d.dev && d.name in release && d.name != package.name && d.name == name;
      var k :| 0 <= k < |package.dependencies| && package.dependencies[k] == d;
    }
  }

  ghost predicate IsLastNamed(packages: seq<Package>, i: nat, name: string) {
    i < |packages| && packages[i].name == name && forall j :: i < j < |packages| ==> packages[j].name != name
  }

  /** A name stands for the last package that has it. */
  lemma {:induction false} ByNameExactly(packages: seq<Package>, name: string, i: nat)
    ensures IsLastNamed(packages, i, name) ==> name in ByName(packages) && ByName(packages)[name] == packages[i]
    ensures name in ByName(packages) <==> exists j :: 0 <= j < |packages| && packages[j].name == name
    decreases |packages|
  {
    if packages != [] {
      var n := |packages| - 1;
      ByNameExactly(packages[..n], name, i);
      assert forall j :: 0 <= j < n ==> packages[..n][j] == packages[j];
      if j :| 0 <= j < n && packages[j].name == name {
        assert packages[..n][j].name == name;
      }
    }
  }

  /** Each crate paired with one that it needs and that comes later. */
  ghost predicate IsMisordered(order: seq<string>, packages: map<string, Package>, crate: string, dep: string, n: nat)
    requires Covers(packages, order)
  {
    crate != dep &&
    exists i, j :: 0 <= i < n && i < j < |order| && order[i] == crate && order[j] == dep && Needs(packages[crate], dep)
  }

  lemma {:induction false} ErrorsListed(order: seq<string>, packages: map<string, Package>, crate: string, dep: string, n: nat)
    requires n <= |order| && Covers(packages, order)
    ensures (crate, dep) in Errors(order, packages, n) <==> IsMisordered(order, packages, crate, dep, n)
    decreases n
  {
    if n > 0 {
      ErrorsListed(order, packages, crate, dep, n - 1);
      ListedAt(order, packages, crate, dep, n - 1);
      if j :| n - 1 < j < |order| && order[n - 1] == crate && order[j] == dep && Needs(packages[crate], dep) {
        assert 0 <= n - 1 < n && n - 1 < j < |order|;
      }
    }
  }

  lemma {:induction false} ListedAt(order: seq<string>, packages: map<string, Package>, crate: string, dep: string, n: nat)
    requires n < |order| && Covers(packages, order)
    ensures (crate, dep) in ErrorsAt(order, packages, n) <==>
            crate == order[n] && crate != dep && exists j :: n < j < |order| && order[j] == dep && Needs(packages[crate], dep)
  {
    var deps := ReleaseDependencies(packages[order[n]], Elements(order));
    var later := Later(order, deps, n);
    SortedLists(later);
    DependenciesExactly(packages[order[n]], Elements(order), dep);
    var pairs := Pairs(order[n], Sorted(later));
    if (crate, dep) in pairs {
      var k :| 0 <= k < |pairs| && pairs[k] == (crate, dep);
      assert Sorted(later)[k] == dep;
    }
    if crate == order[n] && dep in later {
      var k :| 0 <= k < |Sorted(later)| && Sorted(later)[k] == dep;
      assert pairs[k] == (crate, dep);
    }
  }

  /** The duplicates are what occurs twice, ascending; the missing, in the
      order, what no package is named. */
  lemma {:induction false} RefusalsListed(order: seq<string>, metadata: seq<Package>, name: string)
    ensures name in Sorted(Repeated(order)) <==> exists i, j :: 0 <= i < j < |order| && order[i] == name && order[j] == name
    ensures InOrderOf(Sorted(Repeated(order)))
    ensures name in Unknown(order, ByName(metadata).Keys) <==>
            name in order && forall i :: 0 <= i < |metadata| ==> metadata[i].name != name
    ensures forall n :: 0 <= n <= |order| ==>
              Unknown(order, ByName(metadata).Keys) ==
              Unknown(order[..n], ByName(metadata).Keys) + Unknown(order[n..], ByName(metadata).Keys)
  {
    SortedLists(Repeated(order));
    if i, j :| 0 <= i < j < |order| && order[i] == name && order[j] == name {
      assert order[i] in Repeated(order);
    }
    UnknownListed(order, ByName(metadata).Keys, name);
    ByNameExactly(metadata, name, 0);
    forall n | 0 <= n <= |order|
      ensures Unknown(order, ByName(metadata).Keys) ==
              Unknown(order[..n], ByName(metadata).Keys) + Unknown(order[n..], ByName(metadata).Keys)
    {
      UnknownConcat(order[..n], order[n..], ByName(metadata).Keys);
      assert order[..n] + order[n..] == order;
    }
  }

  ghost predicate InOrderOf(names: seq<string>) {
    forall i, j :: 0 <= i < j < |names| ==> names[i] != names[j] && LexLeq(names[i], names[j])
  }

  lemma {:induction false} UnknownListed(order: seq<string>, known: set<string>, name: string)
    ensures name in Unknown(order, known) <==> name in order && name !in known
    decreases |order|
  {
    if order != [] {
      UnknownListed(order[..|order| - 1], known, name);
      SplitLast(order);
    }
  }

  lemma {:induction false} UnknownConcat(a: seq<string>, b: seq<string>, known: set<string>)
    ensures Unknown(a + b, known) == Unknown(a, known) + Unknown(b, known)
    decreases |b|
  {
    if b == [] {
      assert a + b == a;
    } else {
      var n := |b| - 1;
      UnknownConcat(a, b[..n], known);
      assert (a + b)[..|a| + n] == a + b[..n] && (a + b)[|a| + n] == b[n];
    }
  }

  // ---------- the computation ----------

  /** One more than the highest level among the dependencies levelled so far, 0 when there is none. */
  method LevelAbove(level: map<string, nat>, deps: set<string>) returns (n: nat)
    ensures forall dep :: dep in deps && dep in level ==> level[dep] < n
    ensures n > 0 ==> exists dep :: dep in deps && dep in level && level[dep] == n - 1
  {
    n := 0;
    var left := deps;
    while left != {}
      invariant left <= deps
      invariant forall dep :: dep in deps - left && dep in level ==> level[dep] < n
      invariant n > 0 ==> exists dep :: dep in deps && dep in level && level[dep] == n - 1
      decreases left
    {
      var dep :| dep in left;
      left := left - {dep};
      if dep in level && n <= level[dep] {
        n := level[dep] + 1;
      }
    }
  }

  ghost predicate IsDistinct(order: seq<string>) {
    forall i, j :: 0 <= i < j < |order| ==> order[i] != order[j]
  }

  ghost predicate SettledTo(order: seq<string>, packages: map<string, Package>, level: map<string, nat>, n: nat)
    requires n <= |order| && Covers(packages, order)
  {
    && level.Keys == Elements(order[..n])
    && (InOrder(order, packages) ==>
          forall i :: 0 <= i < n ==> Settled(level, order[i], ReleaseDependencies(packages[order[i]], Elements(order))))
  }

  method Walk(order: seq<string>, packages: map<string, Package>)
    returns (level: map<string, nat>, errors: seq<(string, string)>)
    requires IsDistinct(order) && Covers(packages, order)
    ensures errors == Errors(order, packages, |order|)
    ensures SettledTo(order, packages, level, |order|)
  {
    level, errors := map[], [];
    for n := 0 to |order|
      invariant errors == Errors(order, packages, n)
      invariant SettledTo(order, packages, level, n)
    {
      errors := errors + ErrorsAt(order, packages, n);
      level := LevelCrate(order, packages, level, n);
    }
  }

  method LevelCrate(order: seq<string>, packages: map<string, Package>, level: map<string, nat>, n: nat)
    returns (next: map<string, nat>)
    requires IsDistinct(order) && Covers(packages, order)
    requires n < |order| && SettledTo(order, packages, level, n)
    ensures SettledTo(order, packages, next, n + 1)
  {
    var own := LevelAbove(level, ReleaseDependencies(packages[order[n]], Elements(order)));
    SettleNext(order, packages, level, n, own);
    next := level[order[n] := own];
  }

  /** Levelling one more crate settles it and disturbs no earlier one. */
  lemma SettleNext(order: seq<string>, packages: map<string, Package>, level: map<string, nat>, n: nat, own: nat)
    requires IsDistinct(order) && Covers(packages, order)
    requires n < |order| && SettledTo(order, packages, level, n)
    requires var deps := ReleaseDependencies(packages[order[n]], Elements(order));
             && (forall dep :: dep in deps && dep in level ==> level[dep] < own)
             && (own > 0 ==> exists dep :: dep in deps && dep in level && level[dep] == own - 1)
    ensures SettledTo(order, packages, level[order[n] := own], n + 1)
  {
    var next := level[order[n] := own];
    assert order[..n + 1] == order[..n] + [order[n]];
    assert next.Keys == Elements(order[..n + 1]);
    if InOrder(order, packages) {
      forall i | 0 <= i < n + 1
        ensures Settled(next, order[i], ReleaseDependencies(packages[order[i]], Elements(order)))
      {
        if i < n {
          LaterNotNeeded(order, packages, i, n);
          SettledStays(level, order[i], ReleaseDependencies(packages[order[i]], Elements(order)), order[n], own);
        } else {
          NoSelf(packages[order[n]], Elements(order));
        }
      }
    }
  }

  lemma {:induction false} LaterNotNeeded(order: seq<string>, packages: map<string, Package>, i: nat, n: nat)
    requires Covers(packages, order) && InOrder(order, packages) && i < n < |order|
    ensures order[n] !in ReleaseDependencies(packages[order[i]], Elements(order))
  {
    DependenciesExactly(packages[order[i]], Elements(order), order[n]);
  }

  lemma SettledStays(level: map<string, nat>, crate: string, deps: set<string>, other: string, own: nat)
    requires Settled(level, crate, deps) && other !in deps && other != crate
    ensures Settled(level[other := own], crate, deps)
  {
  }

  lemma NoSelf(package: Package, release: set<string>)
    ensures package.name !in ReleaseDependencies(package, release)
  {
  }

  method RowsOf(order: seq<string>, packages: map<string, Package>, level: map<string, nat>) returns (rows: seq<Row>)
    requires IsDistinct(order) && Covers(packages, order) && InOrder(order, packages)
    requires SettledTo(order, packages, level, |order|)
    ensures IsLevelling(LevelsOf(rows), DepsOf(order, packages))
    ensures |rows| == |order| && forall i :: 0 <= i < |order| ==>
              rows[i].crate == order[i] && rows[i].version == packages[order[i]].version
  {
    AllSettled(order, packages, level);
    rows := seq(|order|, i requires 0 <= i < |order| => Row(level[order[i]], order[i], packages[order[i]].version));
    RowsLevel(order, level, rows);
  }

  method ComputeLevels(order: seq<string>, metadata: seq<Package>) returns (r: Outcome)
    ensures r.Duplicates? <==> !IsDistinct(order)
    ensures r.Duplicates? ==> r.names == Sorted(Repeated(order))
    ensures r.Missing? <==> IsDistinct(order) && !Covers(ByName(metadata), order)
    ensures r.Missing? ==> r.names == Unknown(order, ByName(metadata).Keys)
    ensures r.Misordered? <==> IsDistinct(order) && Covers(ByName(metadata), order) && !InOrder(order, ByName(metadata))
    ensures r.Misordered? ==> r.pairs == Errors(order, ByName(metadata), |order|)
    ensures r.Levels? ==> Covers(ByName(metadata), order) && IsDistinct(order) && InOrder(order, ByName(metadata))
    ensures r.Levels? ==> IsLevelling(LevelsOf(r.rows), DepsOf(order, ByName(metadata)))
    ensures r.Levels? ==> |r.rows| == |order| && forall i :: 0 <= i < |order| ==>
              r.rows[i].crate == order[i] && r.rows[i].version == ByName(metadata)[order[i]].version
  {
    RepeatedExactly(order);
    if Repeated(order) != {} {
      return Duplicates(Sorted(Repeated(order)));
    }
    var packages := ByName(metadata);
    UnknownExactly(order, packages.Keys);
    CoversExactly(order, metadata);
    if Unknown(order, packages.Keys) != [] {
      return Missing(Unknown(order, packages.Keys));
    }
    var level, errors := Walk(order, packages);
    ErrorsExactly(order, packages, |order|);
    if errors != [] {
      return Misordered(errors);
    }
    var rows := RowsOf(order, packages, level);
    return Levels(rows);
  }

  /** The levels the rows state. */
  function LevelsOf(rows: seq<Row>): map<string, nat> {
    if rows == [] then map[]
    else
      var last := rows[|rows| - 1];
      LevelsOf(rows[..|rows| - 1])[last.crate := last.level]
  }

  lemma RepeatedExactly(order: seq<string>)
    ensures Repeated(order) == {} <==> IsDistinct(order)
  {
    if !IsDistinct(order) {
      var i, j :| 0 <= i < j < |order| && order[i] == order[j];
      assert order[i] in Repeated(order);
    }
  }

  lemma CoversExactly(order: seq<string>, metadata: seq<Package>)
    ensures Covers(ByName(metadata), order) <==> forall crate :: crate in order ==> crate in ByName(metadata).Keys
  {
  }

  lemma {:induction false} UnknownExactly(order: seq<string>, known: set<string>)
    ensures Unknown(order, known) == [] <==> forall crate :: crate in order ==> crate in known
    decreases |order|
  {
    if order != [] {
      UnknownExactly(order[..|order| - 1], known);
      SplitLast(order);
    }
  }

  lemma {:induction false} ErrorsExactly(order: seq<string>, packages: map<string, Package>, n: nat)
    requires n <= |order| && Covers(packages, order)
    ensures Errors(order, packages, n) == [] <==>
            forall i, j :: 0 <= i < n && i < j < |order| ==> order[j] !in ReleaseDependencies(packages[order[i]], Elements(order))
    decreases n
  {
    if n > 0 {
      ErrorsExactly(order, packages, n - 1);
      var deps := ReleaseDependencies(packages[order[n - 1]], Elements(order));
      LaterExactly(order, deps, n - 1);
      assert |Pairs(order[n - 1], Sorted(Later(order, deps, n - 1)))| == |Sorted(Later(order, deps, n - 1))|;
    }
  }

  lemma LaterExactly(order: seq<string>, deps: set<string>, i: nat)
    requires i < |order|
    ensures Sorted(Later(order, deps, i)) == [] <==> forall j :: i < j < |order| ==> order[j] !in deps
  {
    SortedLength(Later(order, deps, i));
    if j :| i < j < |order| && order[j] in deps {
      assert order[j] in Later(order, deps, i);
    }
  }

  lemma {:induction false} RowsLevel(order: seq<string>, level: map<string, nat>, rows: seq<Row>)
    requires IsDistinct(order) && level.Keys == Elements(order) && |rows| == |order|
    requires forall i :: 0 <= i < |order| ==> rows[i].crate == order[i] && rows[i].level == level[order[i]]
    ensures LevelsOf(rows) == level
    decreases |order|
  {
    if order != [] {
      var n := |order| - 1;
      var front := level - {order[n]};
      assert order[n] in Elements(order);
      FrontKeys(order, level);
      RowsLevel(order[..n], front, rows[..n]);
      assert level == front[order[n] := level[order[n]]];
    }
  }

  lemma FrontKeys(order: seq<string>, level: map<string, nat>)
    requires order != [] && IsDistinct(order) && level.Keys == Elements(order)
    ensures (level - {order[|order| - 1]}).Keys == Elements(order[..|order| - 1])
  {
    SplitLast(order);
    assert order[|order| - 1] !in order[..|order| - 1];
  }

  lemma AllSettled(order: seq<string>, packages: map<string, Package>, level: map<string, nat>)
    requires Covers(packages, order) && InOrder(order, packages) && SettledTo(order, packages, level, |order|)
    ensures level.Keys == Elements(order) && IsLevelling(level, DepsOf(order, packages))
  {
    assert order[..|order|] == order;
    var deps := DepsOf(order, packages);
    assert level.Keys == deps.Keys;
  }

  // ---------- levels are longest chains ----------

  /** A dependency chain, from dependent to dependency. */
  ghost predicate IsChain(deps: map<string, set<string>>, chain: seq<string>) {
    && chain != []
    && (forall i :: 0 <= i < |chain| ==> chain[i] in deps)
    && (forall i :: 0 <= i < |chain| - 1 ==> chain[i + 1] in deps[chain[i]])
  }

  /** Each step down a chain lowers the level. */
  lemma {:induction false} ChainDescends(level: map<string, nat>, deps: map<string, set<string>>, chain: seq<string>)
    requires IsLevelling(level, deps) && IsChain(deps, chain)
    ensures level[chain[0]] >= level[chain[|chain| - 1]] + |chain| - 1
    decreases |chain|
  {
    if |chain| > 1 {
      assert chain[1] in deps[chain[0]];
      var rest := chain[1..];
      ChainDescends(level, deps, rest);
      assert Settled(level, chain[0], deps[chain[0]]);
    }
  }

  lemma {:induction false} ChainAttains(level: map<string, nat>, deps: map<string, set<string>>, crate: string) returns (chain: seq<string>)
    requires IsLevelling(level, deps) && crate in deps
    ensures IsChain(deps, chain) && chain[0] == crate && |chain| == level[crate] + 1
    decreases level[crate]
  {
    chain := [crate];
    if level[crate] > 0 {
      assert Settled(level, crate, deps[crate]);
      var dep :| dep in deps[crate] && dep in level && level[dep] == level[crate] - 1;
      var rest := ChainAttains(level, deps, dep);
      chain := [crate] + rest;
    }
  }

  /** The level of a crate is the length of its longest dependency chain. */
  lemma {:induction false} LevelIsLongestChain(level: map<string, nat>, deps: map<string, set<string>>, crate: string)
    requires IsLevelling(level, deps) && crate in deps
    ensures exists chain :: IsChain(deps, chain) && chain[0] == crate && |chain| == level[crate] + 1
    ensures forall chain :: IsChain(deps, chain) && chain[0] == crate ==> |chain| <= level[crate] + 1
  {
    var chain := ChainAttains(level, deps, crate);
    forall chain | IsChain(deps, chain) && chain[0] == crate ensures |chain| <= level[crate] + 1 {
      ChainDescends(level, deps, chain);
    }
  }

  /** No assignment that puts dependencies lower gives any crate a lower level. */
  lemma {:induction false} LevelIsMinimal(level: map<string, nat>, deps: map<string, set<string>>, other: map<string, nat>, crate: string)
    requires IsLevelling(level, deps) && crate in deps && other.Keys == deps.Keys
    requires forall c, dep :: c in deps && dep in deps[c] ==> dep in other && other[dep] < other[c]
    ensures level[crate] <= other[crate]
    decreases level[crate]
  {
    if level[crate] > 0 {
      assert Settled(level, crate, deps[crate]);
      var dep :| dep in deps[crate] && dep in level && level[dep] == level[crate] - 1;
      LevelIsMinimal(level, deps, other, dep);
    }
  }

  /** No crate depends on itself through any chain. */
  lemma {:induction false} LevelledIsAcyclic(level: map<string, nat>, deps: map<string, set<string>>, chain: seq<string>)
    requires IsLevelling(level, deps) && IsChain(deps, chain) && |chain| > 1
    ensures chain[0] != chain[|chain| - 1]
  {
    ChainDescends(level, deps, chain);
  }
}
