/** The three-valued evaluator: the same parser over values a static reading
    of a workflow may not know.

    Main results: what it returns approximates every concrete run the frame
    stands for, it is monotone in what is known, and its connectives lose no
    truthiness that could be kept. */
module OpenExpressions {
  import opened Text
  import opened ExpressionGrammar
  import opened SyntaxTrees
  import opened WorkflowExpressions
  import opened ExpressionMeaning

  /** A value, or an unknown of which at most the truthiness is known. */
  datatype Open = Known(value: Scalar) | Unknown(truthy: Option<bool>)

  const UNKNOWN: Open := Unknown(None)

  function KnownTruthy(v: Open): Option<bool> {
    match v
    case Known(s) => Some(Truthy(s))
    case Unknown(t) => t
  }

  function OpenCombine(op: Connective, left: Open, right: Open): Open {
    match op
    case Or =>
      (match KnownTruthy(left)
       case None => if KnownTruthy(right) == Some(true) then Unknown(Some(true)) else UNKNOWN
       case Some(known) => if known then left else right)
    case And =>
      (match KnownTruthy(left)
       case None => if KnownTruthy(right) == Some(false) then Unknown(Some(false)) else UNKNOWN
       case Some(known) => if known then right else left)
    case Equals =>
      if left.Unknown? || right.Unknown? then UNKNOWN else Known(Bool(Equal(left.value, right.value)))
    case Differs =>
      if left.Unknown? || right.Unknown? then UNKNOWN else Known(Bool(!Equal(left.value, right.value)))
  }

  function OpenNot(v: Open): Open {
    match KnownTruthy(v)
    case None => UNKNOWN
    case Some(known) => Known(Bool(!known))
  }

  predicate AllKnown(arguments: seq<Open>) {
    forall i :: 0 <= i < |arguments| ==> arguments[i].Known?
  }

  function OpenCall(name: string, arguments: seq<Open>): Evaluated<Open> {
    if name == "always" then Value(Known(Bool(true)))
    else if IsTextFunction(name) && AllKnown(arguments) then
      match TextFunction(name, seq(|arguments|, i requires 0 <= i < |arguments| => arguments[i].value))
      case Value(v) => Value(Known(v))
      case Raised(error) => Raised(error)
    else Value(UNKNOWN)
  }

  function Opening(resolve: string -> Open): Semantics<Open> {
    Semantics(true, token => Known(Literal(token)), v => v, OpenNot, OpenCombine,
              path => Value(resolve(path)), OpenCall)
  }

  /** One run as the cache check reads it. */
  datatype Frame = Frame(
    eventName: Option<string>,
    ref: string,
    inputs: Option<map<string, Open>>,
    env: Option<map<string, string>>)
  {
    function Resolve(path: string): Open {
      if path == "github.event_name" then
        if eventName.None? then UNKNOWN else Known(Str(eventName.value))
      else if path == "github.ref" then Known(Str(ref))
      else if path == "github.ref_name" then Known(Str(RefName(ref)))
      else if StartsWith(path, "inputs.") && inputs.Some? then
        if path[7..] in inputs.value then inputs.value[path[7..]] else Known(Str(""))
      else if StartsWith(path, "env.") && env.Some? && path[4..] in env.value then
        Known(Str(env.value[path[4..]]))
      else UNKNOWN
    }

    function Resolver(): string -> Open {
      path => Resolve(path)
    }
  }

  /** Syntax the reader does not model is unknown; a missing argument still escapes. */
  function OpenEvaluate(resolve: string -> Open, tokens: seq<Token>): Evaluated<Open> {
    match Evaluate(Opening(resolve), tokens)
    case Raised(Unsupported) => Value(UNKNOWN)
    case other => other
  }

  /** Whether a step guarded by `condition` may run. */
  function MayHold(condition: Option<seq<Token>>, resolve: string -> Open): Evaluated<bool> {
    if condition.None? then Value(true)
    else
      match OpenEvaluate(resolve, condition.value)
      case Value(v) => Value(KnownTruthy(v) != Some(false))
      case Raised(error) => Raised(error)
  }

  // ---------- soundness ----------

  /** `a` stands for `v`: it is `v`, or an unknown whose truthiness, if recorded, is `v`'s. */
  predicate Approximates(a: Open, v: Scalar) {
    match a
    case Known(w) => w == v
    case Unknown(None) => true
    case Unknown(Some(t)) => Truthy(v) == t
  }

  /** Every path the run resolves holds something the static reading stands for. */
  ghost predicate Agrees(resolve: string -> Open, run: Run) {
    forall path :: run.resolve(path).Value? ==> Approximates(resolve(path), run.resolve(path).value)
  }

  /** An event context whose event and ref are the frame's is one of its runs. */
  lemma EventAgrees(frame: Frame, context: EventContext)
    requires frame.eventName.None? || frame.eventName.value == context.eventName
    requires frame.ref == context.ref
    ensures Agrees(frame.Resolver(), context.AsRun())
  {
    forall path | context.Resolve(path).Value?
      ensures Approximates(frame.Resolve(path), context.Resolve(path).value)
    {
      if StartsWith(path, "inputs.") {
        assert path[0] == 'i';
      } else if StartsWith(path, "env.") {
        assert path[0] == 'e';
      }
    }
  }

  /** The frame knows its event, its ref and the ref's name, and its inputs and env by their names. */
  lemma {:induction false} FrameKnows(frame: Frame, kind: string, ref: string, name: string)
    ensures frame.eventName.Some? ==> frame.Resolve("github.event_name") == Known(Str(frame.eventName.value))
    ensures frame.Resolve("github.ref") == Known(Str(frame.ref))
    ensures IsRef(frame.ref, kind, ref) ==> frame.Resolve("github.ref_name") == Known(Str(ref))
    ensures frame.inputs.Some? ==>
              frame.Resolve("inputs." + name) == if name in frame.inputs.value then frame.inputs.value[name] else Known(Str(""))
    ensures frame.env.Some? && name in frame.env.value ==> frame.Resolve("env." + name) == Known(Str(frame.env.value[name]))
  {
    RefNameExactly(frame.ref);
    var input, variable := "inputs." + name, "env." + name;
    assert input[0] == 'i' && input[7..] == name && variable[0] == 'e' && variable[4..] == name;
  }

  ghost predicate ApproximatesAll(a: seq<Open>, v: seq<Scalar>) {
    |a| == |v| && forall i :: 0 <= i < |a| ==> Approximates(a[i], v[i])
  }

  lemma {:induction false} FoldApproximates(resolve: string -> Open, run: Run, e: Tree)
    requires Agrees(resolve, run)
    ensures Fold(Concrete(run), e).Value? ==>
              && Fold(Opening(resolve), e).Value?
              && Approximates(Fold(Opening(resolve), e).value, Fold(Concrete(run), e).value)
    decreases e
  {
    match e
    case Leaf(_) =>
    case Path(_) =>
    case Group(inner) => FoldApproximates(resolve, run, inner);
    case Not(operand) => FoldApproximates(resolve, run, operand);
    case Binary(_, left, right) =>
      FoldApproximates(resolve, run, left);
      FoldApproximates(resolve, run, right);
    case Call(name, arguments) =>
      FoldListApproximates(resolve, run, arguments);
      if Fold(Concrete(run), e).Value? {
        CallApproximates(run, name, FoldList(Opening(resolve), arguments).value,
                         FoldList(Concrete(run), arguments).value);
      }
  }

  lemma {:induction false} FoldListApproximates(resolve: string -> Open, run: Run, es: seq<Tree>)
    requires Agrees(resolve, run)
    ensures FoldList(Concrete(run), es).Value? ==>
              && FoldList(Opening(resolve), es).Value?
              && ApproximatesAll(FoldList(Opening(resolve), es).value, FoldList(Concrete(run), es).value)
    decreases es
  {
    if es != [] {
      FoldListApproximates(resolve, run, es[..|es| - 1]);
      FoldApproximates(resolve, run, es[|es| - 1]);
    }
  }

  lemma {:induction false} CallApproximates(run: Run, name: string, a: seq<Open>, v: seq<Scalar>)
    requires ApproximatesAll(a, v) && CallIn(run, name, v).Value?
    ensures OpenCall(name, a).Value? && Approximates(OpenCall(name, a).value, CallIn(run, name, v).value)
  {
    if IsTextFunction(name) && AllKnown(a) {
      assert seq(|a|, i requires 0 <= i < |a| => a[i].value) == v;
    }
  }

  /** Abstract soundness: whenever the concrete parser returns `v`, the
      three-valued one reads the same tokens and returns an approximation of `v`. */
  lemma {:induction false} OpenParserSound(resolve: string -> Open, run: Run, tokens: seq<Token>)
    requires Agrees(resolve, run) && Evaluate(Concrete(run), tokens).Value?
    ensures Evaluate(Opening(resolve), tokens).Value?
    ensures Approximates(Evaluate(Opening(resolve), tokens).value, Evaluate(Concrete(run), tokens).value)
  {
    SameTree(Concrete(run), Opening(resolve), tokens);
    FoldApproximates(resolve, run, Evaluate(Building(false), tokens).value);
  }

  /** A condition that holds in some run of the frame may hold. */
  lemma {:induction false} MayHoldSound(resolve: string -> Open, run: Run, condition: seq<Token>)
    requires Agrees(resolve, run)
    requires Evaluate(Concrete(run), condition).Value? && Truthy(Evaluate(Concrete(run), condition).value)
    ensures MayHold(Some(condition), resolve) == Value(true)
  {
    OpenParserSound(resolve, run, condition);
  }

  // ---------- monotonicity ----------

  /** `a` knows at least what `b` knows. */
  predicate Refines(a: Open, b: Open) {
    a == b || b == UNKNOWN || (b.Unknown? && KnownTruthy(a) == b.truthy)
  }

  /** Knowing more only refines the result, or reaches a missing argument that an unknown had hidden. */
  predicate RefinesResult(a: Evaluated<Open>, b: Evaluated<Open>) {
    if a.Value? then b.Value? && Refines(a.value, b.value) else a == Raised(MissingArgument)
  }

  ghost predicate RefinesAll(a: seq<Open>, b: seq<Open>) {
    |a| == |b| && forall i :: 0 <= i < |a| ==> Refines(a[i], b[i])
  }

  lemma {:induction false} FoldMonotone(precise: string -> Open, coarse: string -> Open, e: Tree)
    requires forall path :: Refines(precise(path), coarse(path))
    ensures RefinesResult(Fold(Opening(precise), e), Fold(Opening(coarse), e))
    decreases e
  {
    match e
    case Leaf(_) =>
    case Path(_) =>
    case Group(inner) => FoldMonotone(precise, coarse, inner);
    case Not(operand) => FoldMonotone(precise, coarse, operand);
    case Binary(_, left, right) =>
      FoldMonotone(precise, coarse, left);
      FoldMonotone(precise, coarse, right);
    case Call(name, arguments) =>
      FoldListMonotone(precise, coarse, arguments);
      if FoldList(Opening(precise), arguments).Value? {
        CallMonotone(name, FoldList(Opening(precise), arguments).value, FoldList(Opening(coarse), arguments).value);
      }
  }

  lemma {:induction false} FoldListMonotone(precise: string -> Open, coarse: string -> Open, es: seq<Tree>)
    requires forall path :: Refines(precise(path), coarse(path))
    ensures var a, b := FoldList(Opening(precise), es), FoldList(Opening(coarse), es);
            if a.Value? then b.Value? && RefinesAll(a.value, b.value) else a == Raised(MissingArgument)
    decreases es
  {
    if es != [] {
      FoldListMonotone(precise, coarse, es[..|es| - 1]);
      FoldMonotone(precise, coarse, es[|es| - 1]);
    }
  }

  lemma {:induction false} CallMonotone(name: string, a: seq<Open>, b: seq<Open>)
    requires RefinesAll(a, b)
    ensures RefinesResult(OpenCall(name, a), OpenCall(name, b))
  {
    if IsTextFunction(name) && AllKnown(b) {
      assert a == b;
    }
  }

  /** Making any unknown more precise never loses precision and never
      contradicts a truthiness that was known before; all it can uncover is a
      missing argument. */
  lemma {:induction false} OpenParserMonotone(precise: string -> Open, coarse: string -> Open, tokens: seq<Token>)
    requires forall path :: Refines(precise(path), coarse(path))
    ensures Evaluate(Opening(precise), tokens).Value? || Evaluate(Opening(coarse), tokens).Value? ==>
              RefinesResult(Evaluate(Opening(precise), tokens), Evaluate(Opening(coarse), tokens))
  {
    LevelTracks(Opening(precise), tokens, 0, 0);
    LevelTracks(Opening(coarse), tokens, 0, 0);
    var t := LevelFrom(Building(true), tokens, 0, 0);
    if t.Parsed? {
      FoldMonotone(precise, coarse, t.value);
    }
  }

  // ---------- precision of the connectives ----------

  /** A value of this truth may stand behind `a`. */
  ghost predicate MayBe(a: Open, truth: bool) {
    exists v :: Approximates(a, v) && IsFalsy(v) == !truth
  }

  /** Which truth values `||` or `&&` can take over the values two operands stand for. */
  ghost predicate CanBe(op: Connective, left: Open, right: Open, truth: bool) {
    exists l, r :: MayBe(left, l) && MayBe(right, r) && truth == if op.Or? then l || r else l && r
  }

  /** Which values the connective can take over them. */
  ghost predicate CanGive(op: Connective, left: Open, right: Open, v: Scalar) {
    exists l, r :: Approximates(left, l) && Approximates(right, r) && ConnectiveMeans(op, l, r, v)
  }

  /** A value `a` stands for of either truthiness it does not exclude. */
  function Sample(a: Open, truth: bool): (v: Scalar)
    requires KnownTruthy(a) != Some(!truth)
    ensures Approximates(a, v) && Truthy(v) == truth
  {
    if a.Known? then a.value else Bool(truth)
  }

  lemma MayBeExactly(a: Open, truth: bool)
    ensures MayBe(a, truth) <==> KnownTruthy(a) != Some(!truth)
  {
    if KnownTruthy(a) != Some(!truth) {
      assert Approximates(a, Sample(a, truth)) && IsFalsy(Sample(a, truth)) == !truth;
    }
  }

  /** `||` and `&&` record a truthiness exactly when every pair of values the
      operands stand for gives it: no sound rule over the operands keeps more. */
  lemma ConnectivesExact(op: Connective, left: Open, right: Open, truth: bool)
    requires op.Or? || op.And?
    ensures KnownTruthy(OpenCombine(op, left, right)) == Some(truth) <==> !CanBe(op, left, right, !truth)
  {
    MayBeExactly(left, true);
    MayBeExactly(left, false);
    MayBeExactly(right, true);
    MayBeExactly(right, false);
    assert CanBe(op, left, right, !truth) <==>
      || (MayBe(left, true) && MayBe(right, true) && !truth)
      || (MayBe(left, true) && MayBe(right, false) && !truth == op.Or?)
      || (MayBe(left, false) && MayBe(right, true) && !truth == op.Or?)
      || (MayBe(left, false) && MayBe(right, false) && truth);
  }

  /** They keep a value exactly when every such pair gives that value, and a
      comparison keeps its value when both sides are known. */
  lemma {:induction false} ValuesExact(op: Connective, left: Open, right: Open, v: Scalar)
    requires op.Or? || op.And? || (left.Known? && right.Known?)
    ensures OpenCombine(op, left, right) == Known(v) <==> forall w :: CanGive(op, left, right, w) ==> w == v
  {
    var l, r := SomeValue(left), SomeValue(right);
    ConnectiveIs(op, l, r);
    assert CanGive(op, left, right, Combine(op, l, r));
    if OpenCombine(op, left, right).Known? {
      forall l, r | Approximates(left, l) && Approximates(right, r)
        ensures Combine(op, l, r) == OpenCombine(op, left, right).value && ConnectiveMeans(op, l, r, Combine(op, l, r))
      {
        ConnectiveIs(op, l, r);
      }
    } else {
      OtherValue(op, left, right, v);
    }
  }

  /** Where no value is kept, more than one is possible. */
  lemma {:induction false} OtherValue(op: Connective, left: Open, right: Open, v: Scalar)
    requires (op.Or? || op.And?) && OpenCombine(op, left, right).Unknown?
    ensures exists w :: CanGive(op, left, right, w) && w != v
  {
    var l, r := SomeValue(left), SomeValue(right);
    if KnownTruthy(left) != Some(!op.Or?) {
      l := OtherThan(left, op.Or?, v);
    } else {
      r := OtherThan(right, KnownTruthy(right) != Some(false), v);
    }
    ConnectiveIs(op, l, r);
    assert CanGive(op, left, right, Combine(op, l, r));
  }

  function OtherThan(a: Open, truth: bool, v: Scalar): (w: Scalar)
    requires a.Unknown? && a.truthy != Some(!truth)
    ensures Approximates(a, w) && Truthy(w) == truth && w != v
  {
    if truth then (if v == Str("a") then Str("b") else Str("a")) else if v == Null then Bool(false) else Null
  }

  // ---------- what the frame knows is read as in the run ----------

  /** Calls only to functions that depend on their arguments alone. */
  predicate CallsText(e: Tree) {
    match e
    case Leaf(_) => true
    case Path(_) => true
    case Call(name, arguments) =>
      name in {"always", "startsWith", "endsWith", "contains"} && forall i :: 0 <= i < |arguments| ==> CallsText(arguments[i])
    case Group(inner) => CallsText(inner)
    case Not(operand) => CallsText(operand)
    case Binary(_, left, right) => CallsText(left) && CallsText(right)
  }

  /** Every path of the expression is known, as the run has it. */
  ghost predicate KnowsPaths(resolve: string -> Open, run: Run, e: Tree) {
    forall p :: p in Paths(e) && run.resolve(p).Value? ==> resolve(p) == Known(run.resolve(p).value)
  }

  lemma {:induction false} KnownFold(resolve: string -> Open, run: Run, e: Tree)
    requires CallsText(e) && KnowsPaths(resolve, run, e) && Fold(Concrete(run), e).Value?
    ensures Fold(Opening(resolve), e) == Value(Known(Fold(Concrete(run), e).value))
    decreases e
  {
    match e
    case Leaf(_) =>
    case Path(name) => assert name in Paths(e);
    case Group(inner) => KnownFold(resolve, run, inner);
    case Not(operand) => KnownFold(resolve, run, operand);
    case Binary(_, left, right) =>
      KnownFold(resolve, run, left);
      KnownFold(resolve, run, right);
    case Call(name, arguments) =>
      KnownFoldList(resolve, run, e, arguments);
      var a, v := FoldList(Opening(resolve), arguments).value, FoldList(Concrete(run), arguments).value;
      assert AllKnown(a) && seq(|a|, i requires 0 <= i < |a| => a[i].value) == v;
  }

  lemma {:induction false} KnownFoldList(resolve: string -> Open, run: Run, e: Tree, es: seq<Tree>)
    requires e.Call? && CallsText(e) && KnowsPaths(resolve, run, e) && es <= e.arguments
    requires FoldList(Concrete(run), es).Value?
    ensures var r := FoldList(Opening(resolve), es);
            && r.Value? && |r.value| == |FoldList(Concrete(run), es).value|
            && forall i :: 0 <= i < |r.value| ==> r.value[i] == Known(FoldList(Concrete(run), es).value[i])
    decreases e, |es|
  {
    if es != [] {
      var n := |es| - 1;
      assert es[n] == e.arguments[n];
      KnownFoldList(resolve, run, e, es[..n]);
      forall p | p in Paths(es[n]) ensures p in Paths(e) {
        assert 0 <= n < |e.arguments| && p in Paths(e.arguments[n]);
      }
      KnownFold(resolve, run, es[n]);
    }
  }

  /** Precision: an expression whose paths are all known, and which calls
      nothing but `always` and the string functions, is read as the run evaluates it. */
  lemma {:induction false} KnownIsConcrete(resolve: string -> Open, run: Run, e: Tree)
    requires Derives(0, e) && CallsText(e) && KnowsPaths(resolve, run, e) && Evaluate(Concrete(run), Yield(e)).Value?
    ensures OpenEvaluate(resolve, Yield(e)) == Value(Known(Evaluate(Concrete(run), Yield(e)).value))
  {
    EvaluatesFold(run, e, Evaluate(Concrete(run), Yield(e)).value);
    SameTree(Concrete(run), Opening(resolve), Yield(e));
    ParserDecidesGrammar(Yield(e), e);
    KnownFold(resolve, run, e);
  }

  // ---------- exactness on conditions that read each unknown once ----------

  function Paths(e: Tree): set<string> {
    match e
    case Leaf(_) => {}
    case Path(name) => {name}
    case Call(_, arguments) => set i, p | 0 <= i < |arguments| && p in Paths(arguments[i]) :: p
    case Group(inner) => Paths(inner)
    case Not(operand) => Paths(operand)
    case Binary(_, left, right) => Paths(left) + Paths(right)
  }

  /** A condition of `!`, `&&`, `||` over literals, paths and comparisons of a
      path with a literal, in which no unknown path occurs twice. */
  predicate ReadOnce(resolve: string -> Open, e: Tree) {
    match e
    case Leaf(_) => true
    case Path(_) => true
    case Call(_, _) => false
    case Group(inner) => ReadOnce(resolve, inner)
    case Not(operand) => ReadOnce(resolve, operand)
    case Binary(op, left, right) =>
      if op.Or? || op.And? then
        && ReadOnce(resolve, left) && ReadOnce(resolve, right)
        && forall p :: p in Paths(left) && p in Paths(right) ==> resolve(p).Known?
      else
        left.Path? && right.Leaf? && (resolve(left.name).Known? || resolve(left.name) == UNKNOWN)
  }

  /** The run in which every path holds what `context` says. */
  function RunOf(context: string -> Scalar): Run {
    Run(path => Value(context(path)), (name, arguments) => Raised(Unsupported))
  }

  function ValueIn(context: string -> Scalar, e: Tree): Evaluated<Scalar> {
    Fold(Concrete(RunOf(context)), e)
  }

  lemma {:induction false} DependsOnPaths(a: string -> Scalar, b: string -> Scalar, e: Tree)
    requires forall p :: p in Paths(e) ==> a(p) == b(p)
    requires !HasCall(e)
    ensures ValueIn(a, e) == ValueIn(b, e) && ValueIn(a, e).Value?
    decreases e
  {
    match e
    case Leaf(_) =>
    case Path(name) => assert name in Paths(e);
    case Group(inner) => DependsOnPaths(a, b, inner);
    case Not(operand) => DependsOnPaths(a, b, operand);
    case Binary(_, left, right) =>
      DependsOnPaths(a, b, left);
      DependsOnPaths(a, b, right);
  }

  predicate HasCall(e: Tree) {
    match e
    case Leaf(_) => false
    case Path(_) => false
    case Call(_, _) => true
    case Group(inner) => HasCall(inner)
    case Not(operand) => HasCall(operand)
    case Binary(_, left, right) => HasCall(left) || HasCall(right)
  }

  lemma {:induction false} ReadOnceHasNoCall(resolve: string -> Open, e: Tree)
    requires ReadOnce(resolve, e)
    ensures !HasCall(e)
    decreases e
  {
    match e
    case Leaf(_) =>
    case Path(_) =>
    case Group(inner) => ReadOnceHasNoCall(resolve, inner);
    case Not(operand) => ReadOnceHasNoCall(resolve, operand);
    case Binary(op, left, right) =>
      if op.Or? || op.And? {
        ReadOnceHasNoCall(resolve, left);
        ReadOnceHasNoCall(resolve, right);
      }
  }

  ghost predicate Fits(resolve: string -> Open, context: string -> Scalar) {
    forall p :: Approximates(resolve(p), context(p))
  }

  lemma {:induction false} FitsAgrees(resolve: string -> Open, context: string -> Scalar, e: Tree)
    requires Fits(resolve, context) && !HasCall(e)
    ensures Agrees(resolve, RunOf(context))
    ensures Fold(Opening(resolve), e).Value? && ValueIn(context, e).Value?
    ensures Approximates(Fold(Opening(resolve), e).value, ValueIn(context, e).value)
  {
    DependsOnPaths(context, context, e);
    FoldApproximates(resolve, RunOf(context), e);
  }

  function SomeValue(a: Open): (v: Scalar)
    ensures Approximates(a, v)
  {
    Sample(a, KnownTruthy(a) == Some(true))
  }

  function Anything(resolve: string -> Open): (context: string -> Scalar)
    ensures Fits(resolve, context)
  {
    p => SomeValue(resolve(p))
  }

  function With(resolve: string -> Open, path: string, v: Scalar): (context: string -> Scalar)
    requires Approximates(resolve(path), v)
    ensures Fits(resolve, context) && context(path) == v
  {
    p => if p == path then v else SomeValue(resolve(p))
  }

  /** A context of the frame that gives `e` any truthiness its reading leaves open. */
  lemma {:induction false} Realise(resolve: string -> Open, e: Tree, truth: bool) returns (context: string -> Scalar)
    requires ReadOnce(resolve, e) && Fold(Opening(resolve), e).Value?
    requires KnownTruthy(Fold(Opening(resolve), e).value) != Some(!truth)
    ensures Fits(resolve, context)
    ensures ValueIn(context, e).Value? && Truthy(ValueIn(context, e).value) == truth
    decreases e
  {
    ReadOnceHasNoCall(resolve, e);
    match e
    case Leaf(_) => context := Anything(resolve);
    case Path(name) => context := With(resolve, name, Sample(resolve(name), truth));
    case Group(inner) => context := Realise(resolve, inner, truth);
    case Not(operand) => context := Realise(resolve, operand, !truth);
    case Binary(op, left, right) =>
      if op.Or? || op.And? {
        context := RealiseConnective(resolve, e, truth);
      } else {
        context := RealiseComparison(resolve, e, truth);
      }
  }

  lemma {:induction false} RealiseConnective(resolve: string -> Open, e: Tree, truth: bool)
    returns (context: string -> Scalar)
    requires e.Binary? && (e.op.Or? || e.op.And?) && ReadOnce(resolve, e) && Fold(Opening(resolve), e).Value?
    requires KnownTruthy(Fold(Opening(resolve), e).value) != Some(!truth)
    ensures Fits(resolve, context)
    ensures ValueIn(context, e).Value? && Truthy(ValueIn(context, e).value) == truth
    decreases e, 0
  {
    ReadOnceHasNoCall(resolve, e);
    var left, right := KnownTruthy(Fold(Opening(resolve), e.left).value), KnownTruthy(Fold(Opening(resolve), e.right).value);
    var decisive := e.op.Or?;  // the left truthiness that settles the result
    if truth == decisive {
      if left != Some(!decisive) {
        context := Realise(resolve, e.left, truth);
        FitsAgrees(resolve, context, e.right);
      } else {
        context := Realise(resolve, e.right, truth);
        FitsAgrees(resolve, context, e.left);
      }
    } else {
      var a := Realise(resolve, e.left, truth);
      var b := Realise(resolve, e.right, truth);
      context := p => if p in Paths(e.left) then a(p) else b(p);
      forall p | p in Paths(e.right) ensures context(p) == b(p) {
        if p in Paths(e.left) {
          assert Approximates(resolve(p), a(p)) && Approximates(resolve(p), b(p));
        }
      }
      DependsOnPaths(context, a, e.left);
      DependsOnPaths(context, b, e.right);
    }
  }

  lemma {:induction false} RealiseComparison(resolve: string -> Open, e: Tree, truth: bool)
    returns (context: string -> Scalar)
    requires e.Binary? && (e.op.Equals? || e.op.Differs?) && ReadOnce(resolve, e) && Fold(Opening(resolve), e).Value?
    requires KnownTruthy(Fold(Opening(resolve), e).value) != Some(!truth)
    ensures Fits(resolve, context)
    ensures ValueIn(context, e).Value? && Truthy(ValueIn(context, e).value) == truth
  {
    var path, literal := e.left.name, Literal(e.right.token);
    if resolve(path).Known? {
      context := Anything(resolve);
      assert Approximates(resolve(path), context(path));
      assert Fold(Opening(resolve), e.left) == Value(resolve(path));
    } else {
      var other := Str(Normal(literal) + "x");
      assert |Normal(other)| == |Normal(literal)| + 1;
      context := With(resolve, path, if e.op.Equals? == truth then literal else other);
    }
    assert ValueIn(context, e.left) == Value(context(path)) && ValueIn(context, e.right) == Value(literal);
  }

  /** On a condition that reads each unknown path at most once, the static
      reading is exact: it refuses the condition only if no run of the frame
      satisfies it, and it lets it through only if some run does. */
  lemma {:induction false} MayHoldExact(resolve: string -> Open, e: Tree)
    requires Derives(0, e) && ReadOnce(resolve, e)
    ensures MayHold(Some(Yield(e)), resolve).Value?
    ensures MayHold(Some(Yield(e)), resolve).value <==>
            exists context: string -> Scalar ::
              && Fits(resolve, context)
              && Evaluate(Concrete(RunOf(context)), Yield(e)).Value?
              && Truthy(Evaluate(Concrete(RunOf(context)), Yield(e)).value)
  {
    var tokens := Yield(e);
    ReadOnceHasNoCall(resolve, e);
    forall context: string -> Scalar | Fits(resolve, context)
      ensures Evaluate(Concrete(RunOf(context)), tokens) == ValueIn(context, e)
      ensures Evaluate(Opening(resolve), tokens) == Fold(Opening(resolve), e)
      ensures Agrees(resolve, RunOf(context))
    {
      FitsAgrees(resolve, context, e);
      OnePassIsParseThenEvaluate(Concrete(RunOf(context)), tokens, ValueIn(context, e).value);
      assert Derives(0, e) && Yield(e) == tokens && Fold(Concrete(RunOf(context)), e) == Value(ValueIn(context, e).value);
      SameTree(Concrete(RunOf(context)), Opening(resolve), tokens);
      ParserDecidesGrammar(tokens, e);
    }
    var some := Anything(resolve);
    FitsAgrees(resolve, some, e);
    forall context: string -> Scalar | Fits(resolve, context) && ValueIn(context, e).Value? && Truthy(ValueIn(context, e).value)
      ensures MayHold(Some(tokens), resolve) == Value(true)
    {
      MayHoldSound(resolve, RunOf(context), tokens);
    }
    if MayHold(Some(tokens), resolve) == Value(true) {
      var found := Realise(resolve, e, true);
      assert Fits(resolve, found) && Truthy(Evaluate(Concrete(RunOf(found)), tokens).value);
    }
  }
}
