/** The release closure of the Bazel build: every target a release binary may
    link, read from BUILD files whose attributes may depend on `select`.

    A select is replaced by every branch a release build could take, and the
    closure is walked over that. The results: no release build takes a branch
    or reaches a target that was not considered, so a clean check rules the
    listed features out of every release build. */
module BazelFeatures {
  import opened Text

  // ---------- attribute values ----------

  /** One branch of a select; a value that is no literal list is None. */
  datatype Branch = Branch(key: string, items: Option<seq<string>>)

  /** A summand of an attribute value. */
  datatype Term = Strings(items: seq<string>) | Select(branches: seq<Branch>) | ExternalCrates | Unreadable

  type Value = seq<Term>

  const RELEASE_KEYS: set<string> :=
    {"//tools/bazel:release_build", "@//tools/bazel:release_build", "@@//tools/bazel:release_build"}
  const DEFAULT: string := "//conditions:default"

  predicate IsReadable(branches: seq<Branch>) {
    && branches != []
    && (forall i :: 0 <= i < |branches| ==> branches[i].items.Some?)
    && forall i, j :: 0 <= i < j < |branches| ==> branches[i].key != branches[j].key
  }

  predicate HasReleaseKey(branches: seq<Branch>) {
    exists i :: 0 <= i < |branches| && branches[i].key in RELEASE_KEYS
  }

  /** A branch a release build may take: never the default beside a release key. */
  predicate MayTake(branches: seq<Branch>, i: nat)
    requires i < |branches|
  {
    HasReleaseKey(branches) ==> branches[i].key != DEFAULT
  }

  /** The items of every branch a release build may take, in order. */
  function AlternativesTo(branches: seq<Branch>, n: nat): seq<string>
    requires IsReadable(branches) && n <= |branches|
  {
    if n == 0 then []
    else AlternativesTo(branches, n - 1) + if MayTake(branches, n - 1) then branches[n - 1].items.value else []
  }

  function ReleaseAlternatives(branches: seq<Branch>): Option<seq<string>> {
    if IsReadable(branches) then Some(AlternativesTo(branches, |branches|)) else None
  }

  /** A value with its selects replaced; None where it cannot be read whole. */
  function Evaluate(value: Value, external: bool): Option<seq<string>> {
    if value == [] then Some([])
    else
      var last := value[|value| - 1];
      var items := match last
        case Strings(items) => Some(items)
        case Select(branches) => ReleaseAlternatives(branches)
        case ExternalCrates => if external then Some([]) else None
        case Unreadable => None;
      match (Evaluate(value[..|value| - 1], external), items)
      case (Some(front), Some(back)) => Some(front + back)
      case (_, _) => None
  }

  /** A feature list: literal lists and selects, at least one. */
  function StringList(value: Value): Option<seq<string>> {
    if value == [] then None else Evaluate(value, false)
  }

  // ---------- labels ----------

  function LastSlash(s: string): (n: nat)
    ensures n <= |s|
  {
    if s == "" then 0 else if s[|s| - 1] == '/' then |s| else LastSlash(s[..|s| - 1])
  }

  /** `//p` written out as `//p:name`. */
  function Absolute(item: string): string {
    if ':' in item then item else item + ":" + item[LastSlash(item)..]
  }

  /** A workspace target written out in full; None for an external one. */
  function LabelOf(item: string, package: string): Option<string> {
    if StartsWith(item, ":") then Some("//" + package + item)
    else if StartsWith(item, "//") then Some(Absolute(item))
    else None
  }

  function LabelsIn(items: seq<string>, package: string): seq<string> {
    if items == [] then []
    else
      var front := LabelsIn(items[..|items| - 1], package);
      match LabelOf(items[|items| - 1], package)
      case Some(target) => front + [target]
      case None => front
  }

  function DependencyLabels(value: Value, package: string): Option<seq<string>> {
    if value == [] then None
    else
      match Evaluate(value, true)
      case Some(items) => Some(LabelsIn(items, package))
      case None => None
  }

  lemma {:induction false} LabelsInMember(items: seq<string>, package: string, target: string)
    ensures target in LabelsIn(items, package) <==>
            exists i :: 0 <= i < |items| && LabelOf(items[i], package) == Some(target)
    decreases |items|
  {
    if items != [] {
      var n := |items| - 1;
      LabelsInMember(items[..n], package, target);
      if LabelOf(items[n], package) == Some(target) {
        assert 0 <= n < |items|;
      }
    }
  }

  // ---------- what the names mean, as text ----------

  /** `n` is `s`, or what stands behind its last slash. */
  ghost predicate IsLastPart(s: string, n: string) {
    '/' !in n && (s == n || exists d :: s == d + "/" + n)
  }

  lemma {:induction false} LastSlashSplits(s: string)
    ensures '/' !in s[LastSlash(s)..]
    ensures LastSlash(s) > 0 ==> s[LastSlash(s) - 1] == '/'
    decreases |s|
  {
    if s != "" && s[|s| - 1] != '/' {
      var front := s[..|s| - 1];
      LastSlashSplits(front);
      assert s[LastSlash(s)..] == front[LastSlash(s)..] + [s[|s| - 1]];
    }
  }

  lemma {:induction false} LastPartExactly(s: string, n: string)
    ensures s[LastSlash(s)..] == n <==> IsLastPart(s, n)
  {
    LastSlashSplits(s);
    var k := LastSlash(s);
    if s[k..] == n && k > 0 {
      assert s == s[..k - 1] + "/" + n;
    }
    if IsLastPart(s, n) {
      assert forall i :: k <= i < |s| ==> s[i] == s[k..][i - k];
      if s != n {
        var d :| s == d + "/" + n;
        assert s[|d|] == '/' && s[|d| + 1..] == n;
        assert forall i :: |d| < i < |s| ==> s[i] == n[i - |d| - 1];
      }
    }
  }

  /** The feature is a listed one, of this crate or forwarded to a dependency. */
  ghost predicate IsListed(feature: string, listed: set<string>) {
    exists n :: n in listed && IsLastPart(feature, n)
  }

  lemma {:induction false} NonShippingExactly(feature: string, listed: set<string>)
    ensures IsNonShipping(feature, listed) <==> IsListed(feature, listed)
  {
    forall n ensures feature[LastSlash(feature)..] == n <==> IsLastPart(feature, n) {
      LastPartExactly(feature, n);
    }
  }

  /** The target is named as a test-support variant. */
  ghost predicate IsTestNamed(target: string) {
    exists s :: target == s + "_test_support" || target == s + "_with_runtime_test_support"
  }

  lemma EndsExactly(s: string, suffix: string)
    ensures EndsWith(s, suffix) <==> exists d :: s == d + suffix
  {
    if EndsWith(s, suffix) {
      assert s == s[..|s| - |suffix|] + suffix;
    }
    if d :| s == d + suffix {
      assert s[|s| - |suffix|..] == suffix;
    }
  }

  lemma TestVariantExactly(target: string)
    ensures IsTestVariant(target) <==> IsTestNamed(target)
  {
    EndsExactly(target, "_test_support");
    EndsExactly(target, "_with_runtime_test_support");
  }

  /** The label written out: with the target it names, or the package's own. */
  ghost predicate IsFullLabel(item: string, full: string) {
    if ':' in item then full == item else exists n :: IsLastPart(item, n) && full == item + ":" + n
  }

  lemma {:induction false} AbsoluteExactly(item: string, full: string)
    ensures Absolute(item) == full <==> IsFullLabel(item, full)
  {
    var last := item[LastSlash(item)..];
    LastPartExactly(item, last);
    forall n | IsLastPart(item, n) ensures n == last {
      LastPartExactly(item, n);
    }
  }

  /** What the check reads: a target of the same package, one of the workspace, and nothing else. */
  lemma {:induction false} LabelExactly(item: string, package: string, full: string)
    ensures LabelOf(item, package) == Some(full) <==>
            || (item != "" && item[0] == ':' && full == "//" + package + item)
            || (|item| >= 2 && item[..2] == "//" && IsFullLabel(item, full))
  {
    AbsoluteExactly(item, full);
    assert StartsWith(item, ":") <==> item != "" && item[0] == ':';
  }

  // ---------- rules and the closure ----------

  datatype Rule =
    | Alias(package: string, actual: Option<string>)
    | Rust(package: string, features: Value, deps: Value, procMacroDeps: Value)
    | OtherKind

  datatype Violation = Undefined(target: string) | NotRust(target: string) | TestVariant(target: string)
                     | Enables(target: string, feature: string)

  type Rules = map<string, Rule>

  predicate IsNonShipping(feature: string, listed: set<string>) {
    feature[LastSlash(feature)..] in listed
  }

  predicate IsTestVariant(target: string) {
    EndsWith(target, "_test_support") || EndsWith(target, "_with_runtime_test_support")
  }

  /** The labels a target leads to; None when the target cannot be read. */
  function Successors(rules: Rules, target: string): Option<seq<string>> {
    if target !in rules then Some([])
    else
      match rules[target]
      case OtherKind => Some([])
      case Alias(package, actual) => if actual.Some? then Some(LabelsIn([actual.value], package)) else None
      case Rust(package, features, deps, procMacroDeps) =>
        match (StringList(features), DependencyLabels(deps, package), DependencyLabels(procMacroDeps, package))
        case (Some(_), Some(a), Some(b)) => Some(a + b)
        case (_, _, _) => None
  }

  function Enabled(target: string, items: seq<string>, listed: set<string>): seq<Violation> {
    if items == [] then []
    else
      var last := items[|items| - 1];
      Enabled(target, items[..|items| - 1], listed) +
      if IsNonShipping(last, listed) then [Enables(target, last)] else []
  }

  function Violations(rules: Rules, target: string, listed: set<string>): seq<Violation> {
    if target !in rules then [Undefined(target)]
    else
      match rules[target]
      case OtherKind => [NotRust(target)]
      case Alias(_, _) => []
      case Rust(_, features, _, _) =>
        (if IsTestVariant(target) then [TestVariant(target)] else []) +
        match StringList(features)
        case Some(items) => Enabled(target, items, listed)
        case None => []
  }

  /** The labels a path of successors leads to from a root. */
  ghost predicate IsPath(rules: Rules, roots: set<string>, path: seq<string>) {
    && path != [] && path[0] in roots
    && forall i :: 0 <= i < |path| - 1 ==>
         Successors(rules, path[i]).Some? && path[i + 1] in Successors(rules, path[i]).value
  }

  ghost predicate Reachable(rules: Rules, roots: set<string>, target: string) {
    exists path :: IsPath(rules, roots, path) && path[|path| - 1] == target
  }

  lemma {:induction false} ReachRoot(rules: Rules, roots: set<string>, target: string)
    requires target in roots
    ensures Reachable(rules, roots, target)
  {
    assert IsPath(rules, roots, [target]) && [target][|[target]| - 1] == target;
  }

  lemma {:induction false} ReachStep(rules: Rules, roots: set<string>, target: string, next: string)
    requires Reachable(rules, roots, target)
    requires Successors(rules, target).Some? && next in Successors(rules, target).value
    ensures Reachable(rules, roots, next)
  {
    var path :| IsPath(rules, roots, path) && path[|path| - 1] == target;
    var longer := path + [next];
    forall i | 0 <= i < |longer| - 1
      ensures Successors(rules, longer[i]).Some? && longer[i + 1] in Successors(rules, longer[i]).value
    {
      assert i < |path| - 1 ==> longer[i] == path[i] && longer[i + 1] == path[i + 1];
    }
    assert IsPath(rules, roots, longer) && longer[|longer| - 1] == next;
  }

  /** A set of readable labels closed under successors holds everything reachable. */
  lemma {:induction false} ClosedHolds(rules: Rules, roots: set<string>, closed: set<string>, path: seq<string>)
    requires roots <= closed && IsPath(rules, roots, path)
    requires forall target, next :: target in closed && next in SuccessorsOr(rules, target) ==> next in closed
    ensures path[|path| - 1] in closed
    decreases |path|
  {
    if |path| > 1 {
      var front := path[..|path| - 1];
      ClosedHolds(rules, roots, closed, front);
      assert front[|front| - 1] == path[|path| - 2];
      assert path[|path| - 1] in SuccessorsOr(rules, path[|path| - 2]);
    }
  }

  /** Every target that occurs at all: a bound for the walk. */
  ghost function Universe(rules: Rules, roots: set<string>): set<string> {
    roots + set target, next | target in rules && next in SuccessorsOr(rules, target) :: next
  }

  function SuccessorsOr(rules: Rules, target: string): seq<string> {
    match Successors(rules, target)
    case Some(labels) => labels
    case None => []
  }

  datatype Closure = GuardError | Checked(errors: seq<Violation>, seen: set<string>)

  /** What has been seen or stacked is reachable, and what the seen lead to is seen or stacked. */
  ghost predicate Walking(rules: Rules, start: set<string>, seen: set<string>, stack: seq<string>) {
    && AllReached(rules, start, seen) && AllReached(rules, start, Elements(stack))
    && (forall target :: target in seen ==> Successors(rules, target).Some?)
    && LeadsInto(rules, seen, seen + Elements(stack)) && start <= seen + Elements(stack)
  }

  ghost predicate AllReached(rules: Rules, start: set<string>, targets: set<string>) {
    forall target :: target in targets ==> Reachable(rules, start, target) && target in Universe(rules, start)
  }

  /** What the targets lead to lies in `known`. */
  ghost predicate LeadsInto(rules: Rules, targets: set<string>, known: set<string>) {
    forall target, next :: target in targets && next in SuccessorsOr(rules, target) ==> next in known
  }

  /** The recorded violations are exactly those of the targets seen. */
  ghost predicate Recorded(rules: Rules, listed: set<string>, seen: set<string>, errors: seq<Violation>) {
    forall v :: v in errors <==> exists target :: target in seen && v in Violations(rules, target, listed)
  }

  /** A target walked that is undefined, no Rust target, a test variant, or enables a listed feature. */
  ghost predicate IsViolation(rules: Rules, listed: set<string>, seen: set<string>, v: Violation) {
    && v.target in seen
    && match v
       case Undefined(target) => target !in rules
       case NotRust(target) => target in rules && rules[target].OtherKind?
       case TestVariant(target) => target in rules && rules[target].Rust? && IsTestNamed(target)
       case Enables(target, feature) =>
         && target in rules && rules[target].Rust? && StringList(rules[target].features).Some?
         && feature in StringList(rules[target].features).value && IsListed(feature, listed)
  }

  lemma {:induction false} EnabledExactly(target: string, items: seq<string>, listed: set<string>, v: Violation)
    ensures v in Enabled(target, items, listed) <==>
            v.Enables? && v.target == target && v.feature in items && IsListed(v.feature, listed)
    decreases |items|
  {
    if items != [] {
      EnabledExactly(target, items[..|items| - 1], listed, v);
      NonShippingExactly(items[|items| - 1], listed);
      SplitLast(items);
    }
  }

  lemma {:induction false} ViolationsExactly(rules: Rules, target: string, listed: set<string>, v: Violation)
    ensures v in Violations(rules, target, listed) <==> v.target == target && IsViolation(rules, listed, {target}, v)
  {
    if target in rules && rules[target].Rust? {
      TestVariantExactly(target);
      var items := StringList(rules[target].features);
      if items.Some? {
        EnabledExactly(target, items.value, listed, v);
      }
    }
  }

  lemma {:induction false} RecordedExactly(rules: Rules, listed: set<string>, seen: set<string>, errors: seq<Violation>)
    requires Recorded(rules, listed, seen, errors)
    ensures forall v :: v in errors <==> IsViolation(rules, listed, seen, v)
  {
    forall v ensures v in errors <==> IsViolation(rules, listed, seen, v) {
      if v in errors {
        var target :| target in seen && v in Violations(rules, target, listed);
        ViolationsExactly(rules, target, listed, v);
      }
      ViolationsExactly(rules, v.target, listed, v);
    }
  }

  lemma {:induction false} WalkStart(rules: Rules, roots: seq<string>)
    ensures Walking(rules, Elements(roots), {}, roots)
  {
    forall target | target in roots ensures Reachable(rules, Elements(roots), target) {
      ReachRoot(rules, Elements(roots), target);
    }
  }

  lemma {:induction false} WalkSkip(rules: Rules, start: set<string>, seen: set<string>, front: seq<string>, target: string)
    requires Walking(rules, start, seen, front + [target]) && target in seen
    ensures Walking(rules, start, seen, front)
  {
    var before := Elements(front + [target]);
    assert before == Elements(front) + {target};
    assert seen + before == seen + Elements(front);
  }

  lemma {:induction false} WalkVisit(rules: Rules, start: set<string>, seen: set<string>, front: seq<string>, target: string)
    requires Walking(rules, start, seen, front + [target]) && Successors(rules, target).Some?
    ensures Walking(rules, start, seen + {target}, front + Successors(rules, target).value)
    ensures target in Universe(rules, start)
  {
    var next := Successors(rules, target).value;
    var before, after := Elements(front + [target]), Elements(front + next);
    assert before == Elements(front) + {target} && after == Elements(front) + Elements(next);
    SuccessorsReached(rules, start, target);
    assert AllReached(rules, start, Elements(next));
    assert SuccessorsOr(rules, target) == next;
    assert seen + before <= (seen + {target}) + after;
  }

  lemma {:induction false} SuccessorsReached(rules: Rules, start: set<string>, target: string)
    requires Reachable(rules, start, target) && Successors(rules, target).Some?
    ensures forall other :: other in Successors(rules, target).value ==>
              Reachable(rules, start, other) && other in Universe(rules, start)
  {
    forall other | other in Successors(rules, target).value
      ensures Reachable(rules, start, other) && other in Universe(rules, start)
    {
      ReachStep(rules, start, target, other);
      assert other in SuccessorsOr(rules, target);
    }
  }

  lemma {:induction false} WalkEnd(rules: Rules, start: set<string>, seen: set<string>)
    requires Walking(rules, start, seen, [])
    ensures forall target :: target in seen <==> Reachable(rules, start, target)
  {
    forall target | Reachable(rules, start, target) ensures target in seen {
      ReachableIsSeen(rules, start, seen, target);
    }
  }

  lemma {:induction false} ReachableIsSeen(rules: Rules, start: set<string>, seen: set<string>, target: string)
    requires start <= seen && Reachable(rules, start, target)
    requires forall other, next :: other in seen && next in SuccessorsOr(rules, other) ==> next in seen
    ensures target in seen
  {
    var path :| IsPath(rules, start, path) && path[|path| - 1] == target;
    ClosedHolds(rules, start, seen, path);
  }

  lemma {:induction false} RecordStep(rules: Rules, listed: set<string>, seen: set<string>, errors: seq<Violation>, target: string)
    requires Recorded(rules, listed, seen, errors)
    ensures Recorded(rules, listed, seen + {target}, errors + Violations(rules, target, listed))
  {
    var more := Violations(rules, target, listed);
    forall v ensures v in errors + more <==> exists other :: other in seen + {target} && v in Violations(rules, other, listed) {
      if v in errors {
        var other :| other in seen && v in Violations(rules, other, listed);
        assert other in seen + {target};
      } else if v in more {
        assert target in seen + {target};
      }
    }
  }

  /** The walk: a stack of labels, the set of those seen, and the violations. */
  method CheckClosure(rules: Rules, roots: seq<string>, listed: set<string>) returns (r: Closure)
    ensures r.GuardError? <==>
            exists target :: Reachable(rules, Elements(roots), target) && Successors(rules, target).None?
    ensures r.Checked? ==> forall target :: target in r.seen <==> Reachable(rules, Elements(roots), target)
    ensures r.Checked? ==> forall v :: v in r.errors <==> IsViolation(rules, listed, r.seen, v)
    ensures r.Checked? && r.errors == [] ==> IsClean(rules, Elements(roots), listed, r)
  {
    ghost var start := Elements(roots);
    var errors: seq<Violation>, seen: set<string>, stack := [], {}, roots;
    WalkStart(rules, roots);
    while stack != []
      invariant Walking(rules, start, seen, stack) && Recorded(rules, listed, seen, errors)
      decreases Universe(rules, start) - seen, |stack|
    {
      var target := stack[|stack| - 1];
      ghost var before := stack;
      stack := stack[..|stack| - 1];
      SplitLast(before);
      if target in seen {
        WalkSkip(rules, start, seen, stack, target);
        continue;
      }
      var next := Successors(rules, target);
      if next.None? {
        assert target in before;
        return GuardError;
      }
      WalkVisit(rules, start, seen, stack, target);
      RecordStep(rules, listed, seen, errors, target);
      errors := errors + Violations(rules, target, listed);
      seen := seen + {target};
      stack := stack + next.value;
    }
    WalkEnd(rules, start, seen);
    RecordedExactly(rules, listed, seen, errors);
    return Checked(errors, seen);
  }

  // ---------- release builds ----------

  /** One build: which configuration keys match, and which matching branch each select takes. */
  datatype Build = Build(matches: string -> bool, choose: seq<Branch> -> nat)

  /** A branch the build system allows: a key that matches, or the default where none does. */
  predicate Allowed(build: Build, branches: seq<Branch>, i: nat) {
    && i < |branches|
    && if branches[i].key == DEFAULT
       then forall j :: 0 <= j < |branches| && branches[j].key != DEFAULT ==> !build.matches(branches[j].key)
       else build.matches(branches[i].key)
  }

  /** The release setting matches under each of its names, and every select takes an allowed branch. */
  ghost predicate IsRelease(build: Build) {
    && (forall key :: key in RELEASE_KEYS ==> build.matches(key))
    && forall branches :: IsReadable(branches) && (exists i :: Allowed(build, branches, i)) ==>
         Allowed(build, branches, build.choose(branches))
  }

  /** The items of a value in one build; a select with no allowed branch gives none. */
  function ItemsIn(build: Build, value: Value): set<string> {
    if value == [] then {}
    else
      var last := value[|value| - 1];
      ItemsIn(build, value[..|value| - 1]) +
      match last
      case Strings(items) => Elements(items)
      case Select(branches) =>
        if Allowed(build, branches, build.choose(branches)) && branches[build.choose(branches)].items.Some?
        then Elements(branches[build.choose(branches)].items.value) else {}
      case _ => {}
  }

  lemma {:induction false} AlternativesMember(branches: seq<Branch>, n: nat, item: string)
    requires IsReadable(branches) && n <= |branches|
    ensures item in AlternativesTo(branches, n) <==>
            exists i :: 0 <= i < n && MayTake(branches, i) && item in branches[i].items.value
    decreases n
  {
    if n > 0 {
      AlternativesMember(branches, n - 1, item);
      if MayTake(branches, n - 1) && item in branches[n - 1].items.value {
        assert 0 <= n - 1 < n;
      }
    }
  }

  /** No release build takes a branch that was left out. */
  lemma {:induction false} ReleaseTakesAlternative(build: Build, branches: seq<Branch>, i: nat)
    requires IsRelease(build) && Allowed(build, branches, i)
    ensures MayTake(branches, i)
  {
  }

  /** In a release configuration where `matches` says which keys match, branch `i` may be taken and holds `item`. */
  ghost predicate ReleaseTakes(matches: string -> bool, branches: seq<Branch>, i: nat, item: string) {
    && (forall key :: key in RELEASE_KEYS ==> matches(key))
    && Allowed(Build(matches, _ => 0), branches, i)
    && branches[i].items.Some? && item in branches[i].items.value
  }

  /** The select evaluation is exact: an item is kept if and only if some
      release configuration may take a branch that holds it. */
  lemma {:induction false} AlternativesExact(branches: seq<Branch>, item: string)
    requires IsReadable(branches)
    ensures item in ReleaseAlternatives(branches).value <==>
            exists matches: string -> bool, i: nat :: ReleaseTakes(matches, branches, i, item)
  {
    AlternativesMember(branches, |branches|, item);
    if item in ReleaseAlternatives(branches).value {
      var i: nat :| i < |branches| && MayTake(branches, i) && item in branches[i].items.value;
      var matches := (key: string) => key in RELEASE_KEYS || (key == branches[i].key && key != DEFAULT);
      assert ReleaseTakes(matches, branches, i, item);
    }
    forall matches: string -> bool, i: nat | ReleaseTakes(matches, branches, i, item)
      ensures item in ReleaseAlternatives(branches).value
    {
      assert MayTake(branches, i);
    }
  }

  /** What a release build finds in a value, the evaluation has. */
  lemma {:induction false} EvaluateCovers(build: Build, value: Value, external: bool)
    requires IsRelease(build) && Evaluate(value, external).Some?
    ensures forall item :: item in ItemsIn(build, value) ==> item in Evaluate(value, external).value
    decreases |value|
  {
    if value != [] {
      EvaluateCovers(build, value[..|value| - 1], external);
      var last := value[|value| - 1];
      if last.Select? {
        var i := build.choose(last.branches);
        if Allowed(build, last.branches, i) {
          ReleaseTakesAlternative(build, last.branches, i);
          forall item | item in last.branches[i].items.value
            ensures item in AlternativesTo(last.branches, |last.branches|)
          {
            AlternativesMember(last.branches, |last.branches|, item);
          }
        }
      }
    }
  }

  /** Some release configuration may take the item from one of the terms. */
  ghost predicate ReleaseMayHave(value: Value, item: string) {
    exists i :: 0 <= i < |value| && TermMayHave(value[i], item)
  }

  ghost predicate TermMayHave(term: Term, item: string) {
    match term
    case Strings(items) => item in items
    case Select(branches) => exists matches: string -> bool, i: nat :: ReleaseTakes(matches, branches, i, item)
    case ExternalCrates => false
    case Unreadable => false
  }

  predicate CanReadTerm(term: Term, external: bool) {
    match term
    case Strings(_) => true
    case Select(branches) => IsReadable(branches)
    case ExternalCrates => external
    case Unreadable => false
  }

  /** The evaluation of a value is exact: it fails exactly when some term cannot
      be read, and otherwise has exactly the items a release configuration may take. */
  lemma {:induction false} EvaluateExactly(value: Value, external: bool, item: string)
    ensures Evaluate(value, external).Some? <==> forall i :: 0 <= i < |value| ==> CanReadTerm(value[i], external)
    ensures Evaluate(value, external).Some? ==> (item in Evaluate(value, external).value <==> ReleaseMayHave(value, item))
    decreases |value|
  {
    if value != [] {
      var n := |value| - 1;
      EvaluateExactly(value[..n], external, item);
      assert forall i :: 0 <= i < n ==> value[..n][i] == value[i];
      if value[n].Select? && IsReadable(value[n].branches) {
        AlternativesExact(value[n].branches, item);
      }
      HaveByTerm(value, item);
    }
  }

  lemma {:induction false} HaveByTerm(value: Value, item: string)
    requires value != []
    ensures ReleaseMayHave(value, item) <==>
            ReleaseMayHave(value[..|value| - 1], item) || TermMayHave(value[|value| - 1], item)
  {
    var front := value[..|value| - 1];
    if i :| 0 <= i < |front| && TermMayHave(front[i], item) {
      assert TermMayHave(value[i], item);
    }
    if i :| 0 <= i < |value| - 1 && TermMayHave(value[i], item) {
      assert TermMayHave(front[i], item);
    }
  }

  // ---------- labels as the build system reads them ----------

  /** The index of the first `//`, or the length. */
  function RepositoryEnd(item: string): (k: nat)
    ensures k <= |item|
  {
    if |item| < 2 then |item|
    else if item[0] == '/' && item[1] == '/' then 0
    else 1 + RepositoryEnd(item[1..])
  }

  /** `@` and `@@` name the main repository, and so do its `own` names. */
  predicate NamesMain(item: string, own: set<string>) {
    var repository := item[..RepositoryEnd(item)];
    repository == "@" || repository == "@@" || repository in own
  }

  /** A repository's name alone stands for the target of that name at its root. */
  function WithoutAt(item: string): string {
    if item != "" && item[0] == '@' then WithoutAt(item[1..]) else item
  }

  /** The main-repository target an item names in `package`; None for one of another repository. */
  function BuildLabel(item: string, package: string, own: set<string>): Option<string> {
    if item != "" && item[0] == '@' then
      if !NamesMain(item, own) then None
      else if RepositoryEnd(item) == |item| then Some("//:" + WithoutAt(item))
      else Some(Absolute(item[RepositoryEnd(item)..]))
    else if StartsWith(item, "//") then Some(Absolute(item))
    else if StartsWith(item, ":") then Some("//" + package + item)
    else Some("//" + package + ":" + item)
  }

  /** The check reads an item as the build does if and only if it is written
      with a leading `:` or `//`, or names another repository. */
  lemma LabelReadExactly(item: string, package: string, own: set<string>)
    ensures LabelOf(item, package) == BuildLabel(item, package, own) <==>
            || StartsWith(item, ":") || StartsWith(item, "//")
            || (item != "" && item[0] == '@' && !NamesMain(item, own))
  {
    if StartsWith(item, ":") || StartsWith(item, "//") {
      assert item[0] == ':' || item[0] == '/';
    }
  }

  /** The items of a rule that name what it leads to, in one build. */
  function ItemsOf(build: Build, rule: Rule): set<string> {
    match rule
    case OtherKind => {}
    case Alias(_, actual) => if actual.Some? then {actual.value} else {}
    case Rust(_, _, deps, procMacroDeps) => ItemsIn(build, deps) + ItemsIn(build, procMacroDeps)
  }

  function PackageOf(rule: Rule): string {
    match rule
    case OtherKind => ""
    case Alias(package, _) => package
    case Rust(package, _, _, _) => package
  }

  /** What a target leads to in one build. */
  ghost predicate Leads(build: Build, rules: Rules, own: set<string>, target: string, next: string) {
    && target in rules
    && exists item :: item in ItemsOf(build, rules[target]) && BuildLabel(item, PackageOf(rules[target]), own) == Some(next)
  }

  ghost predicate IsBuildPath(build: Build, rules: Rules, own: set<string>, roots: set<string>, path: seq<string>) {
    && path != [] && path[0] in roots
    && forall i :: 0 <= i < |path| - 1 ==> Leads(build, rules, own, path[i], path[i + 1])
  }

  /** The build links `target`. */
  ghost predicate Links(build: Build, rules: Rules, own: set<string>, roots: set<string>, target: string) {
    exists path :: IsBuildPath(build, rules, own, roots, path) && path[|path| - 1] == target
  }

  /** Every item of a walked rule that any release build takes is read as the build reads it. */
  ghost predicate IsLegible(rules: Rules, own: set<string>, roots: set<string>) {
    forall build, target, item ::
      (IsRelease(build) && Reachable(rules, roots, target) && target in rules && item in ItemsOf(build, rules[target])) ==>
      LabelOf(item, PackageOf(rules[target])) == BuildLabel(item, PackageOf(rules[target]), own)
  }

  ghost predicate AllReadable(rules: Rules, roots: set<string>) {
    forall target :: Reachable(rules, roots, target) ==> Successors(rules, target).Some?
  }

  /** An item that the check reads leads to a successor. */
  lemma {:induction false} ReadItemIsSuccessor(build: Build, rules: Rules, target: string, item: string, next: string)
    requires IsRelease(build) && target in rules && Successors(rules, target).Some?
    requires item in ItemsOf(build, rules[target]) && LabelOf(item, PackageOf(rules[target])) == Some(next)
    ensures next in Successors(rules, target).value
  {
    match rules[target]
    case OtherKind =>
    case Alias(package, actual) =>
      LabelsInMember([actual.value], package, next);
      assert LabelOf([actual.value][0], package) == Some(next);
    case Rust(package, _, deps, procMacroDeps) =>
      EvaluateCovers(build, deps, true);
      EvaluateCovers(build, procMacroDeps, true);
      LabelsInMember(Evaluate(deps, true).value, package, next);
      LabelsInMember(Evaluate(procMacroDeps, true).value, package, next);
  }

  /** The items that name what a rule leads to, over every release configuration. */
  ghost predicate RuleMayName(rule: Rule, item: string) {
    match rule
    case OtherKind => false
    case Alias(_, actual) => actual == Some(item)
    case Rust(_, _, deps, procMacroDeps) => ReleaseMayHave(deps, item) || ReleaseMayHave(procMacroDeps, item)
  }

  /** The walk goes from a target to exactly the labels that an item of its rule,
      in some release configuration, is read as. */
  lemma {:induction false} SuccessorsExactly(rules: Rules, target: string, next: string)
    requires target in rules && Successors(rules, target).Some?
    ensures next in Successors(rules, target).value <==>
            exists item :: RuleMayName(rules[target], item) && LabelOf(item, PackageOf(rules[target])) == Some(next)
  {
    match rules[target]
    case OtherKind =>
    case Alias(package, actual) =>
      LabelsInMember([actual.value], package, next);
      assert [actual.value][0] == actual.value && RuleMayName(rules[target], actual.value);
    case Rust(package, _, deps, procMacroDeps) =>
      LabelledExactly(deps, package, next);
      LabelledExactly(procMacroDeps, package, next);
      if item :| ReleaseMayHave(deps, item) && LabelOf(item, package) == Some(next) {
        assert RuleMayName(rules[target], item);
      }
      if item :| ReleaseMayHave(procMacroDeps, item) && LabelOf(item, package) == Some(next) {
        assert RuleMayName(rules[target], item);
      }
  }

  lemma {:induction false} LabelledExactly(value: Value, package: string, next: string)
    requires DependencyLabels(value, package).Some?
    ensures next in DependencyLabels(value, package).value <==>
            exists item :: ReleaseMayHave(value, item) && LabelOf(item, package) == Some(next)
  {
    var items := Evaluate(value, true).value;
    LabelsInMember(items, package, next);
    forall item ensures item in items <==> ReleaseMayHave(value, item) {
      EvaluateExactly(value, true, item);
    }
    if item :| ReleaseMayHave(value, item) && LabelOf(item, package) == Some(next) {
      var i :| 0 <= i < |items| && items[i] == item;
    }
  }

  // ---------- soundness, and exactly when ----------

  /** In no release build does a linked and walked target lead to one that was not walked. */
  ghost predicate NothingMissed(rules: Rules, own: set<string>, roots: set<string>) {
    forall build, target, next ::
      (IsRelease(build) && Links(build, rules, own, roots, target) && Reachable(rules, roots, target) &&
       Leads(build, rules, own, target, next)) ==>
      Reachable(rules, roots, next)
  }

  lemma {:induction false} LegibleMissesNothing(rules: Rules, own: set<string>, roots: set<string>)
    requires AllReadable(rules, roots) && IsLegible(rules, own, roots)
    ensures NothingMissed(rules, own, roots)
  {
    forall build, target, next | IsRelease(build) && Links(build, rules, own, roots, target) &&
      Reachable(rules, roots, target) && Leads(build, rules, own, target, next)
      ensures Reachable(rules, roots, next)
    {
      var item :| item in ItemsOf(build, rules[target]) && BuildLabel(item, PackageOf(rules[target]), own) == Some(next);
      ReadItemIsSuccessor(build, rules, target, item, next);
      ReachStep(rules, roots, target, next);
    }
  }

  /** `other` is a workspace with the same walked rules: what the check never looks at may differ. */
  ghost predicate SameWalk(rules: Rules, other: Rules, roots: set<string>) {
    forall target :: Reachable(rules, roots, target) ==>
      (target in rules <==> target in other) && (target in rules ==> rules[target] == other[target])
  }

  /** A target fit to ship in one build. */
  ghost predicate Ships(build: Build, rules: Rules, listed: set<string>, target: string) {
    && target in rules && !rules[target].OtherKind?
    && (rules[target].Rust? ==>
          && !IsTestNamed(target)
          && forall item :: item in ItemsIn(build, rules[target].features) ==> !IsListed(item, listed))
  }

  /** Every workspace with these walked rules ships only fit targets, in every release build. */
  ghost predicate IsSound(rules: Rules, own: set<string>, roots: set<string>, listed: set<string>) {
    forall other, build, target ::
      (SameWalk(rules, other, roots) && IsRelease(build) && Links(build, other, own, roots, target)) ==>
      Ships(build, other, listed, target)
  }

  /** Every target a release build links was walked, and is linked over walked rules alone. */
  lemma {:induction false} LinkedIsReachable(build: Build, rules: Rules, other: Rules, own: set<string>, roots: set<string>, path: seq<string>)
    requires IsRelease(build) && NothingMissed(rules, own, roots) && SameWalk(rules, other, roots)
    requires IsBuildPath(build, other, own, roots, path)
    ensures Reachable(rules, roots, path[|path| - 1]) && IsBuildPath(build, rules, own, roots, path)
    decreases |path|
  {
    if |path| == 1 {
      ReachRoot(rules, roots, path[0]);
    } else {
      var front := path[..|path| - 1];
      LinkedIsReachable(build, rules, other, own, roots, front);
      var last, next := front[|front| - 1], path[|path| - 1];
      assert last == path[|path| - 2];
      SameLeads(build, rules, other, own, roots, last, next);
      PathGrows(build, rules, own, roots, front, next);
      assert front + [next] == path;
    }
  }

  lemma SameLeads(build: Build, rules: Rules, other: Rules, own: set<string>, roots: set<string>, target: string, next: string)
    requires SameWalk(rules, other, roots) && Reachable(rules, roots, target) && Leads(build, other, own, target, next)
    ensures Leads(build, rules, own, target, next)
  {
  }

  lemma PathGrows(build: Build, rules: Rules, own: set<string>, roots: set<string>, path: seq<string>, next: string)
    requires IsBuildPath(build, rules, own, roots, path) && Leads(build, rules, own, path[|path| - 1], next)
    ensures IsBuildPath(build, rules, own, roots, path + [next]) && Links(build, rules, own, roots, path[|path| - 1])
  {
    var longer := path + [next];
    forall i | 0 <= i < |longer| - 1 ensures Leads(build, rules, own, longer[i], longer[i + 1]) {
      assert i < |path| - 1 ==> longer[i] == path[i] && longer[i + 1] == path[i + 1];
    }
  }

  lemma {:induction false} EnabledMember(target: string, items: seq<string>, listed: set<string>, item: string)
    requires item in items && IsNonShipping(item, listed)
    ensures Enables(target, item) in Enabled(target, items, listed)
    decreases |items|
  {
    if item != items[|items| - 1] {
      EnabledMember(target, items[..|items| - 1], listed, item);
    }
  }

  lemma NoneRecorded(rules: Rules, listed: set<string>, seen: set<string>, errors: seq<Violation>, target: string)
    requires Recorded(rules, listed, seen, errors) && |errors| == 0 && target in seen
    ensures Violations(rules, target, listed) == []
  {
    var vs := Violations(rules, target, listed);
    var first := if vs == [] then Undefined(target) else vs[0];
    assert vs == [] || first in vs;
    assert first in errors || first !in vs;
  }

  /** The check ended with no error: `r` is what the walk promises, and lists nothing. */
  ghost predicate IsClean(rules: Rules, roots: set<string>, listed: set<string>, r: Closure) {
    && r.Checked? && r.errors == []
    && (forall other :: other in r.seen <==> Reachable(rules, roots, other))
    && AllReadable(rules, roots) && Recorded(rules, listed, r.seen, r.errors)
  }

  lemma {:induction false} WalkedShips(rules: Rules, roots: set<string>, listed: set<string>, r: Closure, build: Build, target: string)
    requires IsClean(rules, roots, listed, r) && IsRelease(build) && Reachable(rules, roots, target)
    ensures Ships(build, rules, listed, target)
  {
    NoneRecorded(rules, listed, r.seen, r.errors, target);
    if target in rules && rules[target].Rust? {
      EvaluateCovers(build, rules[target].features, false);
      TestVariantExactly(target);
      forall item | item in ItemsIn(build, rules[target].features) ensures !IsListed(item, listed) {
        NonShippingExactly(item, listed);
        if IsNonShipping(item, listed) {
          EnabledMember(target, StringList(rules[target].features).value, listed, item);
        }
      }
    }
  }

  /** The build reaches `missed` over rules other than its own, whatever that is. */
  lemma {:induction false} LinksMissed(build: Build, rules: Rules, own: set<string>, roots: set<string>, path: seq<string>, missed: string, rule: Rule)
    requires IsBuildPath(build, rules, own, roots, path) && path[|path| - 1] == missed
    ensures Links(build, rules[missed := rule], own, roots, missed)
    decreases |path|
  {
    var front := path[..|path| - 1];
    if missed in front {
      var i :| 0 <= i < |front| && front[i] == missed;
      LinksMissed(build, rules, own, roots, path[..i + 1], missed, rule);
    } else {
      forall i | 0 <= i < |path| - 1 ensures Leads(build, rules[missed := rule], own, path[i], path[i + 1]) {
        assert front[i] == path[i];
        assert Leads(build, rules, own, path[i], path[i + 1]);
      }
      assert IsBuildPath(build, rules[missed := rule], own, roots, path);
    }
  }

  lemma {:induction false} MissedIsUnsound(build: Build, rules: Rules, own: set<string>, roots: set<string>, listed: set<string>, target: string, next: string)
    requires IsRelease(build) && Links(build, rules, own, roots, target) && Leads(build, rules, own, target, next)
    requires !Reachable(rules, roots, next)
    ensures !IsSound(rules, own, roots, listed)
  {
    var path :| IsBuildPath(build, rules, own, roots, path) && path[|path| - 1] == target;
    var longer := path + [next];
    PathGrows(build, rules, own, roots, path, next);
    LinksMissed(build, rules, own, roots, longer, next, OtherKind);
    var other := rules[next := OtherKind];
    assert SameWalk(rules, other, roots);
    assert !Ships(build, other, listed, next);
  }

  /** Release-closure soundness, exactly: a clean check rules out every unfit
      target, whatever the rules it did not look at, if and only if no release
      build takes an item that names a target the walk did not reach. */
  lemma {:induction false} CleanCheckSoundExactly(rules: Rules, own: set<string>, roots: set<string>, listed: set<string>, r: Closure)
    requires IsClean(rules, roots, listed, r)
    ensures IsSound(rules, own, roots, listed) <==> NothingMissed(rules, own, roots)
  {
    if NothingMissed(rules, own, roots) {
      forall other, build, target | SameWalk(rules, other, roots) && IsRelease(build) && Links(build, other, own, roots, target)
        ensures Ships(build, other, listed, target)
      {
        var path :| IsBuildPath(build, other, own, roots, path) && path[|path| - 1] == target;
        LinkedIsReachable(build, rules, other, own, roots, path);
        WalkedShips(rules, roots, listed, r, build, target);
      }
    } else {
      var build, target, next :| IsRelease(build) && Links(build, rules, own, roots, target) &&
        Reachable(rules, roots, target) && Leads(build, rules, own, target, next) && !Reachable(rules, roots, next);
      MissedIsUnsound(build, rules, own, roots, listed, target, next);
    }
  }

  /** A clean check is sound when every item it walks is written so that it reads it. */
  lemma {:induction false} CleanCheckIsSound(rules: Rules, own: set<string>, roots: set<string>, listed: set<string>, r: Closure)
    requires IsClean(rules, roots, listed, r) && IsLegible(rules, own, roots)
    ensures IsSound(rules, own, roots, listed)
  {
    LegibleMissesNothing(rules, own, roots);
    CleanCheckSoundExactly(rules, own, roots, listed, r);
  }

  // ---------- where it is not: a label the check does not read ----------

  predicate IsAllowedPlainly(branches: seq<Branch>, i: nat) {
    Allowed(Build(key => key in RELEASE_KEYS, _ => 0), branches, i)
  }

  ghost function FirstAllowed(branches: seq<Branch>): nat {
    if exists i: nat :: IsAllowedPlainly(branches, i) then var i: nat :| IsAllowedPlainly(branches, i); i else 0
  }

  /** A release build in which no key but the release setting matches. */
  ghost function PlainRelease(): Build {
    Build(key => key in RELEASE_KEYS, branches => FirstAllowed(branches))
  }

  lemma PlainReleaseIsRelease()
    ensures IsRelease(PlainRelease())
  {
    var build := PlainRelease();
    forall branches | IsReadable(branches) && (exists i :: Allowed(build, branches, i))
      ensures Allowed(build, branches, build.choose(branches))
    {
      var i: nat :| Allowed(build, branches, i);
      assert IsAllowedPlainly(branches, i);
    }
  }

  /** A workspace of two targets: `root` depends on `item`, which enables `feature`. */
  function Hiding(root: string, item: string, package: string, hidden: string, feature: string): Rules {
    map[root := Rust(package, [Strings([])], [Strings([item])], [Strings([])]),
        hidden := Rust(package, [Strings([feature])], [Strings([])], [Strings([])])]
  }

  lemma EvaluateOne(items: seq<string>, external: bool)
    ensures Evaluate([Strings(items)], external) == Some(items)
  {
    var value: Value := [Strings(items)];
    assert value[..0] == [] && [] + items == items;
  }

  lemma RootLeadsNowhere(root: string, item: string, package: string, hidden: string, feature: string)
    requires root != hidden && LabelOf(item, package).None?
    ensures Successors(Hiding(root, item, package, hidden, feature), root) == Some([])
  {
    EvaluateOne([item], true);
    EvaluateOne([], true);
    EvaluateOne([], false);
    assert [item][..0] == [];
    assert LabelsIn([item], package) == [];
  }

  /** Every item the build reads and the check does not is a way to ship a
      listed feature under a clean check: `evil` or `@//app:evil`, for one. */
  lemma {:induction false} UnreadLabelHides(item: string, package: string, own: set<string>, feature: string, listed: set<string>)
    requires LabelOf(item, package).None? && BuildLabel(item, package, own).Some? && IsListed(feature, listed)
    ensures var hidden := BuildLabel(item, package, own).value;
            var root := hidden + "0";
            var rules := Hiding(root, item, package, hidden, feature);
            && IsClean(rules, {root}, listed, Checked([], {root}))
            && IsRelease(PlainRelease()) && Links(PlainRelease(), rules, own, {root}, hidden)
            && !Ships(PlainRelease(), rules, listed, hidden)
  {
    var hidden, build := BuildLabel(item, package, own).value, PlainRelease();
    var root := hidden + "0";
    var rules := Hiding(root, item, package, hidden, feature);
    PlainReleaseIsRelease();
    RootIsClean(root, item, package, hidden, feature, listed);
    HiddenIsLinked(root, item, package, own, hidden, feature);
    var value: Value := [Strings([feature])];
    assert value[..0] == [];
    assert feature in ItemsIn(build, value);
  }

  lemma {:induction false} RootIsClean(root: string, item: string, package: string, hidden: string, feature: string, listed: set<string>)
    requires root == hidden + "0" && LabelOf(item, package).None?
    ensures IsClean(Hiding(root, item, package, hidden, feature), {root}, listed, Checked([], {root}))
  {
    var rules := Hiding(root, item, package, hidden, feature);
    assert |root| == |hidden| + 1;
    RootLeadsNowhere(root, item, package, hidden, feature);
    forall other ensures other == root <==> Reachable(rules, {root}, other) {
      ReachRoot(rules, {root}, root);
      if Reachable(rules, {root}, other) {
        var path :| IsPath(rules, {root}, path) && path[|path| - 1] == other;
        ClosedHolds(rules, {root}, {root}, path);
      }
    }
    NotTestVariant(hidden);
    EvaluateOne([], false);
    assert Violations(rules, root, listed) == [];
  }

  lemma SameEnd(s: string, suffix: string)
    requires suffix != ""
    ensures EndsWith(s, suffix) ==> s != "" && s[|s| - 1] == suffix[|suffix| - 1]
  {
  }

  lemma NotTestVariant(s: string)
    ensures !IsTestVariant(s + "0")
  {
    SameEnd(s + "0", "_test_support");
    SameEnd(s + "0", "_with_runtime_test_support");
  }

  lemma HiddenIsLinked(root: string, item: string, package: string, own: set<string>, hidden: string, feature: string)
    requires root == hidden + "0" && BuildLabel(item, package, own) == Some(hidden)
    ensures Links(PlainRelease(), Hiding(root, item, package, hidden, feature), own, {root}, hidden)
  {
    var build, rules := PlainRelease(), Hiding(root, item, package, hidden, feature);
    assert |root| == |hidden| + 1;
    var value: Value := [Strings([item])];
    assert value[..0] == [];
    assert item in ItemsIn(build, value);
    assert item in ItemsOf(build, rules[root]);
    assert Leads(build, rules, own, root, hidden);
    var path := [root, hidden];
    assert IsBuildPath(build, rules, own, {root}, path) && path[|path| - 1] == hidden;
  }

  /** The two spellings the check drops. */
  lemma DroppedSpellings()
    ensures LabelOf("evil", "app").None? && BuildLabel("evil", "app", {}) == Some("//app:evil")
    ensures LabelOf("@//app:evil", "app").None? && BuildLabel("@//app:evil", "app", {}) == Some("//app:evil")
  {
    var bare, item := "evil", "@//app:evil";
    assert bare[0] == 'e' && item[0] == '@';
    assert ":"[0] == ':' && "//"[0] == '/';
    assert item[1..] == "//app:evil" && item[..1] == "@";
    assert RepositoryEnd(item[1..]) == 0;
    assert "//" + "app" + ":" + "evil" == "//app:evil";
  }
}
