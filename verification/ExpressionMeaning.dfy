/** What an expression means, operator by operator, in tables of their own: the
    evaluator is compared with them on the tokens, so that neither its
    connectives, nor its string functions, nor its precedence define themselves. */
module ExpressionMeaning {
  import opened Text
  import opened ExpressionGrammar
  import opened SyntaxTrees
  import opened WorkflowExpressions

  // ---------- texts ----------

  lemma FoldedSlice(a: string, i: nat, j: nat)
    requires i <= j <= |a|
    ensures Lower(a)[i..j] == Lower(a[i..j])
  {
  }

  lemma FoldedPrefix(a: string, b: string)
    ensures StartsWith(Lower(a), Lower(b)) <==> |b| <= |a| && SameText(a[..|b|], b)
  {
    if |b| <= |a| {
      FoldedSlice(a, 0, |b|);
      FoldedEqual(a[..|b|], b);
      assert StartsWith(Lower(a), Lower(b)) <==> Lower(a)[..|b|] == Lower(b);
    }
  }

  lemma FoldedSuffix(a: string, b: string)
    ensures EndsWith(Lower(a), Lower(b)) <==> |b| <= |a| && SameText(a[|a| - |b|..], b)
  {
    if |b| <= |a| {
      FoldedSlice(a, |a| - |b|, |a|);
      FoldedEqual(a[|a| - |b|..], b);
    }
  }

  predicate HasAt(a: string, i: nat, b: string) {
    i + |b| <= |a| && SameText(a[i..i + |b|], b)
  }

  lemma FoldedAt(a: string, i: nat, b: string)
    requires i <= |a|
    ensures StartsWith(Lower(a)[i..], Lower(b)) <==> HasAt(a, i, b)
  {
    FoldedSlice(a, i, |a|);
    FoldedPrefix(a[i..], b);
    if i + |b| <= |a| {
      assert a[i..][..|b|] == a[i..i + |b|];
    }
  }

  lemma FoldedInside(a: string, b: string)
    ensures Contains(Lower(a), Lower(b)) <==> exists i: nat :: HasAt(a, i, b)
  {
    forall i | 0 <= i <= |a| ensures StartsWith(Lower(a)[i..], Lower(b)) <==> HasAt(a, i, b) {
      FoldedAt(a, i, b);
    }
    if i: nat :| HasAt(a, i, b) {
      assert 0 <= i <= |Lower(a)| && StartsWith(Lower(a)[i..], Lower(b));
    }
  }

  // ---------- the tables ----------

  ghost predicate IsFalsy(v: Scalar) {
    v == Null || v == Bool(false) || v == Str("")
  }

  /** The text of a value, by which it is compared and passed on. */
  ghost predicate HasText(v: Scalar, text: string) {
    v == Str(text) || (v == Null && text == "") || (v == Bool(true) && text == "true") || (v == Bool(false) && text == "false")
  }

  ghost predicate AreEqual(l: Scalar, r: Scalar) {
    exists t, u :: HasText(l, t) && HasText(r, u) && SameText(t, u)
  }

  /** The text a string function takes a value for. */
  ghost predicate PrintsAs(v: Scalar, text: string) {
    v == Str(text) || (v == Null && text == "None") || (v == Bool(true) && text == "True") || (v == Bool(false) && text == "False")
  }

  ghost predicate TextHolds(name: string, subject: string, sought: string) {
    if name == "startsWith" then |sought| <= |subject| && SameText(subject[..|sought|], sought)
    else if name == "endsWith" then |sought| <= |subject| && SameText(subject[|subject| - |sought|..], sought)
    else exists i: nat :: HasAt(subject, i, sought)
  }

  ghost function OrOf(l: Scalar, r: Scalar): Scalar {
    if IsFalsy(l) then r else l
  }

  ghost function AndOf(l: Scalar, r: Scalar): Scalar {
    if IsFalsy(l) then l else r
  }

  ghost predicate ConnectiveMeans(op: Connective, l: Scalar, r: Scalar, v: Scalar) {
    match op
    case Or => v == OrOf(l, r)
    case And => v == AndOf(l, r)
    case Equals => v == Bool(AreEqual(l, r))
    case Differs => v == Bool(!AreEqual(l, r))
  }

  ghost predicate CallMeans(run: Run, name: string, arguments: seq<Scalar>, v: Scalar) {
    if name == "always" then v == Bool(true)
    else if name in {"startsWith", "endsWith", "contains"} then
      exists subject, sought ::
        && |arguments| >= 2 && PrintsAs(arguments[0], subject) && PrintsAs(arguments[1], sought)
        && v == Bool(TextHolds(name, subject, sought))
    else run.status(name, arguments) == Value(v)
  }

  /** A text as it stands between quotes: each quote in it twice. */
  function Doubled(s: string): string {
    if s == "" then "" else (if s[0] == '\'' then "''" else [s[0]]) + Doubled(s[1..])
  }

  lemma {:induction false} DoubledReads(s: string)
    ensures Unescape(Doubled(s)) == s
    decreases |s|
  {
    if s != "" {
      DoubledReads(s[1..]);
      var d := Doubled(s);
      if s[0] == '\'' {
        assert d[0] == '\'' && d[1] == '\'' && d[2..] == Doubled(s[1..]);
      } else {
        assert d[0] == s[0] && d[1..] == Doubled(s[1..]);
        assert |d| == 1 ==> Doubled(s[1..]) == "";
      }
      assert s == [s[0]] + s[1..];
    }
  }

  /** A quoted text is read back as written; the keywords are read in any case. */
  lemma {:induction false} LiteralMeans(s: string, keyword: string)
    ensures Literal(Quoted("'" + Doubled(s) + "'")) == Str(s) && Literal(Number(s)) == Str(s)
    ensures SameText(keyword, "true") ==> IsKeyword(keyword) && Literal(Identifier(keyword)) == Bool(true)
    ensures SameText(keyword, "false") ==> IsKeyword(keyword) && Literal(Identifier(keyword)) == Bool(false)
    ensures SameText(keyword, "null") ==> IsKeyword(keyword) && Literal(Identifier(keyword)) == Null
    ensures IsKeyword(keyword) ==> SameText(keyword, "true") || SameText(keyword, "false") || SameText(keyword, "null")
  {
    var text := "'" + Doubled(s) + "'";
    assert text[1..|text| - 1] == Doubled(s);
    DoubledReads(s);
    FoldedEqual(keyword, "true");
    FoldedEqual(keyword, "false");
    FoldedEqual(keyword, "null");
    assert Lower("true") == "true" && Lower("false") == "false" && Lower("null") == "null";
  }

  // ---------- the evaluator follows the tables ----------

  lemma ConnectiveIs(op: Connective, l: Scalar, r: Scalar)
    ensures ConnectiveMeans(op, l, r, Combine(op, l, r))
  {
    EqualIs(l, r);
  }

  function ComparedText(v: Scalar): (text: string)
    ensures HasText(v, text) && Normal(v) == Lower(text)
  {
    match v
    case Null => ""
    case Bool(b) => (assert Lower("true") == "true" && Lower("false") == "false"; if b then "true" else "false")
    case Str(s) => s
  }

  lemma EqualIs(l: Scalar, r: Scalar)
    ensures Equal(l, r) <==> AreEqual(l, r)
  {
    FoldedEqual(ComparedText(l), ComparedText(r));
  }

  lemma PrintedIs(v: Scalar, text: string)
    ensures PrintsAs(v, text) <==> Printed(v) == text
  {
  }

  lemma TextFunctionIs(name: string, arguments: seq<Scalar>)
    requires IsTextFunction(name) && |arguments| >= 2
    ensures TextFunction(name, arguments) == Value(Bool(TextHolds(name, Printed(arguments[0]), Printed(arguments[1]))))
  {
    var subject, sought := Printed(arguments[0]), Printed(arguments[1]);
    if name == "startsWith" {
      FoldedPrefix(subject, sought);
    } else if name == "endsWith" {
      FoldedSuffix(subject, sought);
    } else {
      FoldedInside(subject, sought);
    }
  }

  lemma CallIs(run: Run, name: string, arguments: seq<Scalar>, v: Scalar)
    ensures CallIn(run, name, arguments) == Value(v) <==> CallMeans(run, name, arguments, v)
  {
    if name != "always" && IsTextFunction(name) && |arguments| >= 2 {
      TextFunctionIs(name, arguments);
      forall text ensures PrintsAs(arguments[0], text) <==> Printed(arguments[0]) == text {
        PrintedIs(arguments[0], text);
      }
      forall text ensures PrintsAs(arguments[1], text) <==> Printed(arguments[1]) == text {
        PrintedIs(arguments[1], text);
      }
    }
  }

  // ---------- on the tokens ----------

  /** The tokens of `e` evaluate to `v`. */
  ghost predicate Evaluates(run: Run, e: Tree, v: Scalar) {
    Evaluate(Concrete(run), Yield(e)) == Value(v)
  }

  lemma {:induction false} EvaluatesFold(run: Run, e: Tree, v: Scalar)
    requires Derives(0, e)
    ensures Evaluates(run, e, v) <==> Fold(Concrete(run), e) == Value(v)
  {
    OnePassIsParseThenEvaluate(Concrete(run), Yield(e), v);
    if Evaluates(run, e, v) {
      var other :| Derives(0, other) && Yield(other) == Yield(e) && Fold(Concrete(run), other) == Value(v);
      ParserDecidesGrammar(Yield(e), e);
      ParserDecidesGrammar(Yield(e), other);
    }
  }

  ghost predicate EvaluatesAll(run: Run, es: seq<Tree>, vs: seq<Scalar>) {
    |vs| == |es| && forall i :: 0 <= i < |es| ==> Evaluates(run, es[i], vs[i])
  }

  lemma {:induction false} EvaluatesFoldList(run: Run, es: seq<Tree>, vs: seq<Scalar>)
    requires forall i :: 0 <= i < |es| ==> Derives(0, es[i])
    ensures EvaluatesAll(run, es, vs) <==> FoldList(Concrete(run), es) == Value(vs)
    decreases |es|
  {
    if es != [] && vs != [] {
      var n := |es| - 1;
      EvaluatesFoldList(run, es[..n], vs[..|vs| - 1]);
      EvaluatesFold(run, es[n], vs[|vs| - 1]);
      SplitLast(vs);
    }
  }

  /** What each kind of expression evaluates to, given what its operands do. */
  ghost predicate Means(run: Run, e: Tree, v: Scalar) {
    match e
    case Leaf(token) => v == Literal(token)
    case Path(name) => run.resolve(name) == Value(v)
    case Group(inner) => Evaluates(run, inner, v)
    case Not(operand) => exists u :: Evaluates(run, operand, u) && v == Bool(IsFalsy(u))
    case Binary(op, left, right) =>
      exists l, r :: Evaluates(run, left, l) && Evaluates(run, right, r) && ConnectiveMeans(op, l, r, v)
    case Call(name, arguments) =>
      exists vs :: EvaluatesAll(run, arguments, vs) && CallMeans(run, name, vs, v)
  }

  /** The evaluator gives every expression its meaning and nothing else: it
      returns `v` if and only if the tables give `v` on what the operands' own
      tokens evaluate to. */
  lemma {:induction false} EvaluationMeans(run: Run, e: Tree, v: Scalar)
    requires Derives(0, e)
    ensures Evaluates(run, e, v) <==> Means(run, e, v)
  {
    EvaluatesFold(run, e, v);
    match e
    case Leaf(_) =>
    case Path(_) =>
    case Group(inner) => EvaluatesFold(run, inner, v);
    case Not(operand) => NotEvaluates(run, operand, v);
    case Binary(op, left, right) => BinaryEvaluates(run, op, left, right, v);
    case Call(name, arguments) => CallEvaluates(run, name, arguments, v);
  }

  lemma {:induction false} NotEvaluates(run: Run, operand: Tree, v: Scalar)
    requires Derives(0, operand)
    ensures Fold(Concrete(run), Not(operand)) == Value(v) <==> Means(run, Not(operand), v)
  {
    forall u ensures Evaluates(run, operand, u) <==> Fold(Concrete(run), operand) == Value(u) {
      EvaluatesFold(run, operand, u);
    }
  }

  lemma {:induction false} BinaryEvaluates(run: Run, op: Connective, left: Tree, right: Tree, v: Scalar)
    requires Derives(0, left) && Derives(0, right)
    ensures Fold(Concrete(run), Binary(op, left, right)) == Value(v) <==> Means(run, Binary(op, left, right), v)
  {
    forall u ensures Evaluates(run, left, u) <==> Fold(Concrete(run), left) == Value(u) {
      EvaluatesFold(run, left, u);
    }
    forall u ensures Evaluates(run, right, u) <==> Fold(Concrete(run), right) == Value(u) {
      EvaluatesFold(run, right, u);
    }
    forall l, r ensures ConnectiveMeans(op, l, r, v) <==> v == Combine(op, l, r) {
      ConnectiveIs(op, l, r);
    }
  }

  lemma {:induction false} CallEvaluates(run: Run, name: string, arguments: seq<Tree>, v: Scalar)
    requires forall i :: 0 <= i < |arguments| ==> Derives(0, arguments[i])
    ensures Fold(Concrete(run), Call(name, arguments)) == Value(v) <==> Means(run, Call(name, arguments), v)
  {
    forall vs ensures EvaluatesAll(run, arguments, vs) <==> FoldList(Concrete(run), arguments) == Value(vs) {
      EvaluatesFoldList(run, arguments, vs);
    }
    forall vs ensures CallIn(run, name, vs) == Value(v) <==> CallMeans(run, name, vs, v) {
      CallIs(run, name, vs, v);
    }
  }

  // ---------- precedence ----------

  /** `e` is an operand without connectives that evaluates to `v`. */
  ghost predicate IsOperand(run: Run, e: Tree, v: Scalar) {
    Derives(UNARY, e) && Evaluates(run, e, v)
  }

  lemma {:induction false} BinaryValue(run: Run, op: Connective, left: Tree, right: Tree, l: Scalar, r: Scalar, v: Scalar)
    requires Derives(0, Binary(op, left, right)) && Evaluates(run, left, l) && Evaluates(run, right, r)
    requires ConnectiveMeans(op, l, r, v)
    ensures Evaluates(run, Binary(op, left, right), v)
  {
    EvaluationMeans(run, Binary(op, left, right), v);
  }

  function Infix(a: seq<Token>, op: Symbol, b: seq<Token>): seq<Token> {
    a + [Operator(op)] + b
  }

  /** `||` between two operands, and `&&`, `==`, `!=`, on their own symbols. */
  lemma {:induction false} ConnectiveTokens(run: Run, x: Tree, y: Tree, a: Scalar, b: Scalar)
    requires IsOperand(run, x, a) && IsOperand(run, y, b)
    ensures Evaluate(Concrete(run), Infix(Yield(x), OrOr, Yield(y))) == Value(OrOf(a, b))
    ensures Evaluate(Concrete(run), Infix(Yield(x), AndAnd, Yield(y))) == Value(AndOf(a, b))
    ensures Evaluate(Concrete(run), Infix(Yield(x), EqualEqual, Yield(y))) == Value(Bool(AreEqual(a, b)))
    ensures Evaluate(Concrete(run), Infix(Yield(x), NotEqual, Yield(y))) == Value(Bool(!AreEqual(a, b)))
  {
    BinaryValue(run, Or, x, y, a, b, OrOf(a, b));
    BinaryValue(run, And, x, y, a, b, AndOf(a, b));
    BinaryValue(run, Equals, x, y, a, b, Bool(AreEqual(a, b)));
    BinaryValue(run, Differs, x, y, a, b, Bool(!AreEqual(a, b)));
  }

  lemma {:induction false} OrThenAnd(run: Run, x: Tree, y: Tree, z: Tree, a: Scalar, b: Scalar, c: Scalar)
    requires IsOperand(run, x, a) && IsOperand(run, y, b) && IsOperand(run, z, c)
    ensures Evaluate(Concrete(run), Infix(Yield(x), OrOr, Infix(Yield(y), AndAnd, Yield(z)))) == Value(OrOf(a, AndOf(b, c)))
  {
    BinaryValue(run, And, y, z, b, c, AndOf(b, c));
    BinaryValue(run, Or, x, Binary(And, y, z), a, AndOf(b, c), OrOf(a, AndOf(b, c)));
  }

  lemma {:induction false} AndThenOr(run: Run, x: Tree, y: Tree, z: Tree, a: Scalar, b: Scalar, c: Scalar)
    requires IsOperand(run, x, a) && IsOperand(run, y, b) && IsOperand(run, z, c)
    ensures Evaluate(Concrete(run), Infix(Infix(Yield(x), AndAnd, Yield(y)), OrOr, Yield(z))) == Value(OrOf(AndOf(a, b), c))
  {
    BinaryValue(run, And, x, y, a, b, AndOf(a, b));
    BinaryValue(run, Or, Binary(And, x, y), z, AndOf(a, b), c, OrOf(AndOf(a, b), c));
  }

  /** `&&` binds tighter than `||` on either side. */
  lemma {:induction false} AndBeforeOr(run: Run, x: Tree, y: Tree, z: Tree, a: Scalar, b: Scalar, c: Scalar)
    requires IsOperand(run, x, a) && IsOperand(run, y, b) && IsOperand(run, z, c)
    ensures Evaluate(Concrete(run), Infix(Yield(x), OrOr, Infix(Yield(y), AndAnd, Yield(z)))) == Value(OrOf(a, AndOf(b, c)))
    ensures Evaluate(Concrete(run), Infix(Infix(Yield(x), AndAnd, Yield(y)), OrOr, Yield(z))) == Value(OrOf(AndOf(a, b), c))
  {
    OrThenAnd(run, x, y, z, a, b, c);
    AndThenOr(run, x, y, z, a, b, c);
  }

  /** A comparison binds tighter than `&&`, and comparisons group to the left. */
  lemma {:induction false} EqualBeforeAnd(run: Run, x: Tree, y: Tree, z: Tree, a: Scalar, b: Scalar, c: Scalar)
    requires IsOperand(run, x, a) && IsOperand(run, y, b) && IsOperand(run, z, c)
    ensures Evaluate(Concrete(run), Infix(Yield(x), AndAnd, Infix(Yield(y), EqualEqual, Yield(z)))) ==
            Value(AndOf(a, Bool(AreEqual(b, c))))
    ensures Evaluate(Concrete(run), Infix(Infix(Yield(x), EqualEqual, Yield(y)), NotEqual, Yield(z))) ==
            Value(Bool(!AreEqual(Bool(AreEqual(a, b)), c)))
  {
    var ab, bc := Bool(AreEqual(a, b)), Bool(AreEqual(b, c));
    BinaryValue(run, Equals, y, z, b, c, bc);
    BinaryValue(run, And, x, Binary(Equals, y, z), a, bc, AndOf(a, bc));
    BinaryValue(run, Equals, x, y, a, b, ab);
    BinaryValue(run, Differs, Binary(Equals, x, y), z, ab, c, Bool(!AreEqual(ab, c)));
  }

  /** `!` binds to the operand behind it alone. */
  lemma {:induction false} NotBeforeEqual(run: Run, x: Tree, y: Tree, a: Scalar, b: Scalar)
    requires IsOperand(run, x, a) && IsOperand(run, y, b)
    ensures Evaluate(Concrete(run), Infix([Operator(Bang)] + Yield(x), EqualEqual, Yield(y))) ==
            Value(Bool(AreEqual(Bool(IsFalsy(a)), b)))
  {
    EvaluationMeans(run, Not(x), Bool(IsFalsy(a)));
    BinaryValue(run, Equals, Not(x), y, Bool(IsFalsy(a)), b, Bool(AreEqual(Bool(IsFalsy(a)), b)));
  }

  /** The status functions of an event's run: its jobs succeed. */
  lemma {:induction false} StatusMeans(context: EventContext)
    ensures Evaluates(context.AsRun(), Call("success", []), Bool(true)) && Evaluates(context.AsRun(), Call("always", []), Bool(true))
    ensures Evaluates(context.AsRun(), Call("failure", []), Bool(false))
    ensures Evaluates(context.AsRun(), Call("cancelled", []), Bool(false))
  {
    StatusCall(context, "success", true);
    StatusCall(context, "always", true);
    StatusCall(context, "failure", false);
    StatusCall(context, "cancelled", false);
  }

  lemma {:induction false} StatusCall(context: EventContext, name: string, truth: bool)
    requires !IsTextFunction(name) && |name| >= 6
    requires if name == "always" then truth else context.AsRun().status(name, []) == Value(Bool(truth))
    ensures Evaluates(context.AsRun(), Call(name, []), Bool(truth))
  {
    assert |Lower(name)| >= 6;
    assert EvaluatesAll(context.AsRun(), [], []);
    EvaluationMeans(context.AsRun(), Call(name, []), Bool(truth));
  }
}
