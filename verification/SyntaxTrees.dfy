/** Syntax trees of workflow expressions, and the two facts that make a
    one-pass evaluator mean something: the parser accepts exactly the token
    sequences the grammar derives, and evaluating while parsing is evaluating
    the tree. */
module SyntaxTrees {
  import opened Text
  import opened ExpressionGrammar

  datatype Tree =
    | Leaf(token: Token)
    | Path(name: string)
    | Call(name: string, arguments: seq<Tree>)
    | Group(inner: Tree)
    | Not(operand: Tree)
    | Binary(op: Connective, left: Tree, right: Tree)

  /** The parser instance that builds the tree. */
  function Building(callsFirst: bool): Semantics<Tree> {
    Semantics(callsFirst,
              token => Leaf(token),
              e => Group(e),
              e => Not(e),
              (op, l, r) => Binary(op, l, r),
              name => Value(Path(name)),
              (name, arguments) => Value(Call(name, arguments)))
  }

  function LevelOf(op: Connective): nat {
    match op
    case Or => 0
    case And => 1
    case Equals => 2
    case Differs => 2
  }

  function SymbolOf(op: Connective): Token {
    Operator(match op case Or => OrOr case And => AndAnd case Equals => EqualEqual case Differs => NotEqual)
  }

  /** The grammar: which trees a level admits.  A left operand may be of the
      operator's own level, a right one only of a tighter level. */
  predicate Derives(level: nat, e: Tree)
    decreases e
  {
    match e
    case Leaf(token) =>
      token.Quoted? || token.Number? || (token.Identifier? && IsKeyword(token.text))
    case Path(name) => !IsKeyword(name)
    case Call(name, arguments) =>
      !IsKeyword(name) && forall i :: 0 <= i < |arguments| ==> Derives(0, arguments[i])
    case Group(inner) => Derives(0, inner)
    case Not(operand) => Derives(UNARY, operand)
    case Binary(op, left, right) =>
      level <= LevelOf(op) && Derives(LevelOf(op), left) && Derives(LevelOf(op) + 1, right)
  }

  /** The token sequence a tree stands for. */
  function Yield(e: Tree): (ts: seq<Token>)
    ensures |ts| > 0
  {
    match e
    case Leaf(token) => [token]
    case Path(name) => [Identifier(name)]
    case Call(name, arguments) =>
      [Identifier(name), Operator(Open)] + YieldList(arguments) + [Operator(Close)]
    case Group(inner) => [Operator(Open)] + Yield(inner) + [Operator(Close)]
    case Not(operand) => [Operator(Bang)] + Yield(operand)
    case Binary(op, left, right) => Yield(left) + [SymbolOf(op)] + Yield(right)
  }

  function YieldList(es: seq<Tree>): seq<Token> {
    if es == [] then []
    else if |es| == 1 then Yield(es[0])
    else YieldList(es[..|es| - 1]) + [Operator(Comma)] + Yield(es[|es| - 1])
  }

  // ---------- every parse is a derivation ----------

  /** What a tree parse from `i` at `level` must have found. */
  ghost predicate Covers(tokens: seq<Token>, level: nat, i: nat, r: Parsed<Tree>)
    requires i <= |tokens|
  {
    r.Parsed? ==> i < r.next <= |tokens| && Derives(level, r.value) && Yield(r.value) == tokens[i..r.next]
  }

  lemma {:induction false} LevelCovers(tokens: seq<Token>, level: nat, i: nat)
    requires level <= UNARY && i <= |tokens|
    ensures Covers(tokens, level, i, LevelFrom(Building(false), tokens, level, i))
    decreases |tokens| - i, 10 - level
  {
    var s := Building(false);
    if level == UNARY {
      if IsOperator(tokens, i, Bang) {
        LevelCovers(tokens, UNARY, i + 1);
      } else {
        PrimaryCovers(tokens, i);
      }
    } else {
      LevelCovers(tokens, level + 1, i);
      match LevelFrom(s, tokens, level + 1, i)
      case Failed(_) =>
      case Parsed(v, j) =>
        Loosen(level, level + 1, v);
        RestCovers(tokens, level, v, i, j);
    }
  }

  lemma {:induction false} Loosen(level: nat, tighter: nat, e: Tree)
    requires level <= tighter && Derives(tighter, e)
    ensures Derives(level, e)
  {
  }

  lemma {:induction false} RestCovers(tokens: seq<Token>, level: nat, left: Tree, from: nat, i: nat)
    requires level < UNARY && from < i <= |tokens|
    requires Derives(level, left) && Yield(left) == tokens[from..i]
    ensures Covers(tokens, level, from, RestFrom(Building(false), tokens, level, left, i))
    decreases |tokens| - i, 0
  {
    match ConnectiveAt(tokens, i, level)
    case None =>
    case Some(op) =>
      LevelCovers(tokens, level + 1, i + 1);
      match LevelFrom(Building(false), tokens, level + 1, i + 1)
      case Failed(_) =>
      case Parsed(right, j) =>
        assert tokens[i] == SymbolOf(op);
        SliceAround(tokens, from, i, j);
        RestCovers(tokens, level, Binary(op, left, right), from, j);
  }

  lemma {:induction false} PrimaryCovers(tokens: seq<Token>, i: nat)
    requires i <= |tokens|
    ensures Covers(tokens, UNARY, i, PrimaryFrom(Building(false), tokens, i))
    decreases |tokens| - i, 1
  {
    if i < |tokens| && tokens[i].Operator? {
      LevelCovers(tokens, 0, i + 1);
      match LevelFrom(Building(false), tokens, 0, i + 1)
      case Failed(_) =>
      case Parsed(_, j) =>
        if j < |tokens| {
          assert tokens[i..j + 1] == [tokens[i]] + tokens[i + 1..j] + [tokens[j]];
        }
    } else if i < |tokens| && tokens[i].Identifier? && IsOperator(tokens, i + 1, Open) {
      ArgumentsCover(tokens, i + 2);
      match ArgumentsFrom(Building(false), tokens, i + 2)
      case Failed(_) =>
      case Parsed(_, j) =>
        assert tokens[i..j] == [tokens[i], tokens[i + 1]] + tokens[i + 2..j];
    }
  }

  ghost predicate CoversList(tokens: seq<Token>, i: nat, r: Parsed<seq<Tree>>)
    requires i <= |tokens|
  {
    r.Parsed? ==>
      && i < r.next <= |tokens|
      && (forall k :: 0 <= k < |r.value| ==> Derives(0, r.value[k]))
      && YieldList(r.value) + [Operator(Close)] == tokens[i..r.next]
  }

  lemma {:induction false} ArgumentsCover(tokens: seq<Token>, i: nat)
    requires i <= |tokens|
    ensures CoversList(tokens, i, ArgumentsFrom(Building(false), tokens, i))
    decreases |tokens| - i, 20
  {
    if !IsOperator(tokens, i, Close) {
      LevelCovers(tokens, 0, i);
      match LevelFrom(Building(false), tokens, 0, i)
      case Failed(_) =>
      case Parsed(v, j) => MoreArgumentsCover(tokens, [v], i, j);
    }
  }

  lemma {:induction false} MoreArgumentsCover(tokens: seq<Token>, arguments: seq<Tree>, from: nat, i: nat)
    requires from < i <= |tokens| && arguments != []
    requires forall k :: 0 <= k < |arguments| ==> Derives(0, arguments[k])
    requires YieldList(arguments) == tokens[from..i]
    ensures CoversList(tokens, from, MoreArgumentsFrom(Building(false), tokens, arguments, i))
    decreases |tokens| - i, 20
  {
    if IsOperator(tokens, i, Comma) {
      LevelCovers(tokens, 0, i + 1);
      match LevelFrom(Building(false), tokens, 0, i + 1)
      case Failed(_) =>
      case Parsed(v, j) =>
        var more := arguments + [v];
        assert more[..|more| - 1] == arguments;
        assert tokens[from..j] == tokens[from..i] + [tokens[i]] + tokens[i + 1..j];
        MoreArgumentsCover(tokens, more, from, j);
    } else if IsOperator(tokens, i, Close) {
      SliceAround(tokens, from, i, i + 1);
    }
  }

  // ---------- every derivation is parsed ----------

  /** The tokens from `i` on start with `ts`. */
  predicate At(tokens: seq<Token>, i: nat, ts: seq<Token>) {
    i + |ts| <= |tokens| && tokens[i..i + |ts|] == ts
  }

  lemma AtAppend(tokens: seq<Token>, i: nat, a: seq<Token>, c: Token)
    requires At(tokens, i, a) && i + |a| < |tokens| && tokens[i + |a|] == c
    ensures At(tokens, i, a + [c])
  {
    assert tokens[i..i + |a| + 1] == tokens[i..i + |a|] + [c];
  }

  lemma {:induction false} AtConcat(tokens: seq<Token>, i: nat, a: seq<Token>, b: seq<Token>)
    requires At(tokens, i, a + b)
    ensures At(tokens, i, a) && At(tokens, i + |a|, b)
  {
    var whole := tokens[i..i + |a + b|];
    assert whole[..|a|] == a && whole[|a|..] == b;
  }

  /** No token at `k` carries on an operand of `level`: no tighter operator and no call bracket. */
  predicate Ends(tokens: seq<Token>, level: int, k: nat) {
    && !IsOperator(tokens, k, Open)
    && (level < 0 ==> ConnectiveAt(tokens, k, 0).None?)
    && (level < 1 ==> ConnectiveAt(tokens, k, 1).None?)
    && (level < 2 ==> ConnectiveAt(tokens, k, 2).None?)
  }

  lemma {:induction false} DerivationParses(e: Tree, tokens: seq<Token>, level: nat, i: nat)
    requires level <= UNARY && Derives(level, e)
    requires At(tokens, i, Yield(e)) && Ends(tokens, level, i + |Yield(e)|)
    ensures level == UNARY ==> LevelFrom(Building(false), tokens, level, i) == Parsed(e, i + |Yield(e)|)
    ensures level < UNARY ==>
              LevelFrom(Building(false), tokens, level, i) ==
              RestFrom(Building(false), tokens, level, e, i + |Yield(e)|)
    decreases e, 10 - level
  {
    if level == UNARY {
      UnaryParses(e, tokens, i);
    } else if e.Binary? && LevelOf(e.op) == level {
      BinaryParses(e, tokens, level, i);
    } else {
      DerivationParses(e, tokens, level + 1, i);
    }
  }

  /** One turn of the operator loop of the tree builder. */
  lemma RestStep(tokens: seq<Token>, level: nat, left: Tree, i: nat, op: Connective, right: Tree, j: nat)
    requires level < UNARY && i < |tokens| && j <= |tokens|
    requires ConnectiveAt(tokens, i, level) == Some(op)
    requires LevelFrom(Building(false), tokens, level + 1, i + 1) == Parsed(right, j)
    ensures RestFrom(Building(false), tokens, level, left, i) ==
            RestFrom(Building(false), tokens, level, Binary(op, left, right), j)
  {
  }

  lemma RestStops(tokens: seq<Token>, level: nat, left: Tree, i: nat)
    requires level < UNARY && i <= |tokens| && ConnectiveAt(tokens, i, level).None?
    ensures RestFrom(Building(false), tokens, level, left, i) == Parsed(left, i)
  {
  }

  lemma {:induction false} BinaryYield(e: Tree, tokens: seq<Token>, i: nat)
    requires e.Binary? && At(tokens, i, Yield(e))
    ensures var m := i + |Yield(e.left)|;
            && i + |Yield(e)| == m + 1 + |Yield(e.right)|
            && At(tokens, i, Yield(e.left)) && At(tokens, m + 1, Yield(e.right))
            && m < |tokens| && tokens[m] == SymbolOf(e.op)
  {
    var m := i + |Yield(e.left)|;
    AtConcat(tokens, i, Yield(e.left) + [SymbolOf(e.op)], Yield(e.right));
    AtConcat(tokens, i, Yield(e.left), [SymbolOf(e.op)]);
    assert tokens[m] == tokens[m..m + 1][0];
  }

  /** An operand that no operator of its own level follows either is parsed as it stands. */
  lemma {:induction false} OperandParses(e: Tree, tokens: seq<Token>, level: nat, i: nat)
    requires level <= UNARY && Derives(level, e)
    requires At(tokens, i, Yield(e)) && Ends(tokens, level - 1, i + |Yield(e)|)
    ensures LevelFrom(Building(false), tokens, level, i) == Parsed(e, i + |Yield(e)|)
    decreases e, 11
  {
    DerivationParses(e, tokens, level, i);
    if level < UNARY {
      RestStops(tokens, level, e, i + |Yield(e)|);
    }
  }

  lemma {:induction false} LeftParses(e: Tree, tokens: seq<Token>, level: nat, i: nat)
    requires e.Binary? && level == LevelOf(e.op) && Derives(level, e) && At(tokens, i, Yield(e))
    ensures LevelFrom(Building(false), tokens, level, i) ==
            RestFrom(Building(false), tokens, level, e.left, i + |Yield(e.left)|)
    decreases e, 0
  {
    BinaryYield(e, tokens, i);
    DerivationParses(e.left, tokens, level, i);
  }

  lemma {:induction false} RightParses(e: Tree, tokens: seq<Token>, level: nat, i: nat)
    requires e.Binary? && level == LevelOf(e.op) && Derives(level, e)
    requires At(tokens, i, Yield(e)) && Ends(tokens, level, i + |Yield(e)|)
    ensures var m := i + |Yield(e.left)|;
            && m < |tokens| && i + |Yield(e)| <= |tokens| && ConnectiveAt(tokens, m, level) == Some(e.op)
            && LevelFrom(Building(false), tokens, level + 1, m + 1) == Parsed(e.right, i + |Yield(e)|)
    decreases e, 0
  {
    BinaryYield(e, tokens, i);
    OperandParses(e.right, tokens, level + 1, i + |Yield(e.left)| + 1);
  }

  lemma {:induction false} BinaryParses(e: Tree, tokens: seq<Token>, level: nat, i: nat)
    requires e.Binary? && level == LevelOf(e.op) && Derives(level, e)
    requires At(tokens, i, Yield(e)) && Ends(tokens, level, i + |Yield(e)|)
    ensures LevelFrom(Building(false), tokens, level, i) ==
            RestFrom(Building(false), tokens, level, e, i + |Yield(e)|)
    decreases e, 2
  {
    LeftParses(e, tokens, level, i);
    RightExtends(e, tokens, level, i);
  }

  lemma {:induction false} RightExtends(e: Tree, tokens: seq<Token>, level: nat, i: nat)
    requires e.Binary? && level == LevelOf(e.op) && Derives(level, e)
    requires At(tokens, i, Yield(e)) && Ends(tokens, level, i + |Yield(e)|)
    ensures i + |Yield(e.left)| < |tokens|
    ensures RestFrom(Building(false), tokens, level, e.left, i + |Yield(e.left)|) ==
            RestFrom(Building(false), tokens, level, e, i + |Yield(e)|)
    decreases e, 1
  {
    RightParses(e, tokens, level, i);
    RestStep(tokens, level, e.left, i + |Yield(e.left)|, e.op, e.right, i + |Yield(e)|);
  }

  lemma {:induction false} UnaryParses(e: Tree, tokens: seq<Token>, i: nat)
    requires Derives(UNARY, e)
    requires At(tokens, i, Yield(e)) && Ends(tokens, UNARY, i + |Yield(e)|)
    ensures LevelFrom(Building(false), tokens, UNARY, i) == Parsed(e, i + |Yield(e)|)
    decreases e, 5
  {
    assert tokens[i] == tokens[i..i + |Yield(e)|][0];
    match e
    case Leaf(_) =>
    case Path(_) =>
    case Not(operand) =>
      AtConcat(tokens, i, [Operator(Bang)], Yield(operand));
      DerivationParses(operand, tokens, UNARY, i + 1);
    case Group(_) => GroupParses(e, tokens, i);
    case Call(_, _) => CallParses(e, tokens, i);
  }

  lemma {:induction false} GroupParses(e: Tree, tokens: seq<Token>, i: nat)
    requires e.Group? && Derives(UNARY, e) && At(tokens, i, Yield(e))
    ensures LevelFrom(Building(false), tokens, UNARY, i) == Parsed(e, i + |Yield(e)|)
    decreases e, 4
  {
    var inner := Yield(e.inner);
    AtConcat(tokens, i, [Operator(Open)] + inner, [Operator(Close)]);
    AtConcat(tokens, i, [Operator(Open)], inner);
    var k := i + 1 + |inner|;
    assert tokens[i] == tokens[i..i + 1][0] && tokens[k] == tokens[k..k + 1][0];
    OperandParses(e.inner, tokens, 0, i + 1);
  }

  lemma {:induction false} CallParses(e: Tree, tokens: seq<Token>, i: nat)
    requires e.Call? && Derives(UNARY, e) && At(tokens, i, Yield(e))
    ensures LevelFrom(Building(false), tokens, UNARY, i) == Parsed(e, i + |Yield(e)|)
    decreases e, 4
  {
    var head := [Identifier(e.name), Operator(Open)];
    AtConcat(tokens, i, head + YieldList(e.arguments), [Operator(Close)]);
    AtConcat(tokens, i, head, YieldList(e.arguments));
    assert tokens[i] == tokens[i..i + 2][0] && tokens[i + 1] == tokens[i..i + 2][1];
    var k := i + 2 + |YieldList(e.arguments)|;
    assert tokens[k] == tokens[k..k + 1][0];
    ArgumentsParse(e, tokens, i + 2);
    assert CallFrom(Building(false), tokens, i) == Parsed(e, k + 1);
  }

  lemma {:induction false} FirstToken(level: nat, e: Tree)
    requires Derives(level, e)
    ensures Yield(e)[0] != Operator(Close)
    decreases e
  {
    if e.Binary? {
      FirstToken(LevelOf(e.op), e.left);
    }
  }

  /** Argument lists read from the left: what `YieldList` leaves after the first `m`. */
  function YieldTail(es: seq<Tree>, m: nat): seq<Token>
    requires m <= |es|
    decreases |es| - m
  {
    if m == |es| then [Operator(Close)]
    else [Operator(Comma)] + Yield(es[m]) + YieldTail(es, m + 1)
  }

  lemma {:induction false} YieldListFromLeft(es: seq<Tree>, m: nat)
    requires 0 < m <= |es|
    ensures YieldList(es) + [Operator(Close)] == YieldList(es[..m]) + YieldTail(es, m)
    decreases |es| - m
  {
    if m == |es| {
      assert es[..m] == es;
    } else {
      YieldListFromLeft(es, m + 1);
      assert es[..m + 1][..m] == es[..m];
      var front, next := YieldList(es[..m]), [Operator(Comma)] + Yield(es[m]);
      Assoc(front, [Operator(Comma)], Yield(es[m]));
      Assoc(front, next, YieldTail(es, m + 1));
    }
  }

  lemma FirstArgument(es: seq<Tree>, tokens: seq<Token>, i: nat)
    requires es != [] && At(tokens, i, YieldList(es)) && IsOperator(tokens, i + |YieldList(es)|, Close)
    ensures At(tokens, i, Yield(es[0])) && At(tokens, i + |Yield(es[0])|, YieldTail(es, 1))
    ensures |YieldList(es)| + 1 == |Yield(es[0])| + |YieldTail(es, 1)|
  {
    YieldFromFirst(es);
    AtRegroup(tokens, i, YieldList(es), Operator(Close), Yield(es[0]), YieldTail(es, 1));
  }

  lemma YieldFromFirst(es: seq<Tree>)
    requires es != []
    ensures YieldList(es) + [Operator(Close)] == Yield(es[0]) + YieldTail(es, 1)
  {
    YieldListFromLeft(es, 1);
    assert es[..1] == [es[0]];
    assert YieldList([es[0]]) == Yield(es[0]);
  }

  lemma AtRegroup(tokens: seq<Token>, i: nat, whole: seq<Token>, c: Token, first: seq<Token>, rest: seq<Token>)
    requires At(tokens, i, whole) && i + |whole| < |tokens| && tokens[i + |whole|] == c && whole + [c] == first + rest
    ensures At(tokens, i, first) && At(tokens, i + |first|, rest) && |whole| + 1 == |first| + |rest|
  {
    AtAppend(tokens, i, whole, c);
    AtConcat(tokens, i, first, rest);
    assert |whole + [c]| == |first + rest|;
  }

  lemma {:induction false} ArgumentsParse(e: Tree, tokens: seq<Token>, i: nat)
    requires e.Call? && Derives(UNARY, e)
    requires At(tokens, i, YieldList(e.arguments)) && IsOperator(tokens, i + |YieldList(e.arguments)|, Close)
    ensures ArgumentsFrom(Building(false), tokens, i) == Parsed(e.arguments, i + |YieldList(e.arguments)| + 1)
    decreases e, 3
  {
    if e.arguments == [] {
      NoArguments(tokens, i);
    } else {
      FirstArgumentParses(e, tokens, i);
      MoreArgumentsParse(e, 1, tokens, i + |Yield(e.arguments[0])|);
    }
  }

  lemma NoArguments(tokens: seq<Token>, i: nat)
    requires IsOperator(tokens, i, Close)
    ensures ArgumentsFrom(Building(false), tokens, i) == Parsed([], i + 1)
  {
  }

  /** After the first argument the loop over the others starts, at what is left of the list. */
  lemma {:induction false} FirstArgumentParses(e: Tree, tokens: seq<Token>, i: nat)
    requires e.Call? && e.arguments != [] && Derives(UNARY, e)
    requires At(tokens, i, YieldList(e.arguments)) && IsOperator(tokens, i + |YieldList(e.arguments)|, Close)
    ensures var next := i + |Yield(e.arguments[0])|;
            && At(tokens, next, YieldTail(e.arguments, 1))
            && i + |YieldList(e.arguments)| + 1 == next + |YieldTail(e.arguments, 1)|
            && ArgumentsFrom(Building(false), tokens, i) ==
               MoreArgumentsFrom(Building(false), tokens, e.arguments[..1], next)
    decreases e, 2
  {
    var first := e.arguments[0];
    FirstArgument(e.arguments, tokens, i);
    FirstIsNotClose(first, tokens, i);
    AfterArgument(e.arguments, 1, tokens, i + |Yield(first)|);
    OperandParses(first, tokens, 0, i);
    ArgumentsStart(tokens, i, first, i + |Yield(first)|);
    assert e.arguments[..1] == [first];
  }

  lemma ArgumentsStart(tokens: seq<Token>, i: nat, e: Tree, j: nat)
    requires i <= |tokens| && !IsOperator(tokens, i, Close) && LevelFrom(Building(false), tokens, 0, i) == Parsed(e, j)
    ensures j <= |tokens| && ArgumentsFrom(Building(false), tokens, i) == MoreArgumentsFrom(Building(false), tokens, [e], j)
  {
  }

  lemma FirstIsNotClose(e: Tree, tokens: seq<Token>, i: nat)
    requires Derives(0, e) && At(tokens, i, Yield(e))
    ensures !IsOperator(tokens, i, Close)
  {
    FirstToken(0, e);
    assert tokens[i] == tokens[i..i + |Yield(e)|][0];
  }

  lemma {:induction false} AfterArgument(es: seq<Tree>, m: nat, tokens: seq<Token>, i: nat)
    requires m <= |es| && At(tokens, i, YieldTail(es, m))
    ensures IsOperator(tokens, i, if m == |es| then Close else Comma) && Ends(tokens, -1, i)
  {
    assert tokens[i] == tokens[i..i + |YieldTail(es, m)|][0];
  }

  lemma MoreArgumentsStep(tokens: seq<Token>, es: seq<Tree>, i: nat, e: Tree, j: nat)
    requires IsOperator(tokens, i, Comma) && j <= |tokens|
    requires LevelFrom(Building(false), tokens, 0, i + 1) == Parsed(e, j)
    ensures MoreArgumentsFrom(Building(false), tokens, es, i) ==
            MoreArgumentsFrom(Building(false), tokens, es + [e], j)
  {
  }

  lemma {:induction false} TailYield(es: seq<Tree>, m: nat, tokens: seq<Token>, i: nat)
    requires m < |es| && At(tokens, i, YieldTail(es, m))
    ensures var q := i + 1 + |Yield(es[m])|;
            && At(tokens, i + 1, Yield(es[m])) && At(tokens, q, YieldTail(es, m + 1))
            && i + |YieldTail(es, m)| == q + |YieldTail(es, m + 1)|
  {
    assert YieldTail(es, m) == [Operator(Comma)] + (Yield(es[m]) + YieldTail(es, m + 1));
    AtConcat(tokens, i, [Operator(Comma)], Yield(es[m]) + YieldTail(es, m + 1));
    AtConcat(tokens, i + 1, Yield(es[m]), YieldTail(es, m + 1));
  }

  lemma {:induction false} MoreArgumentsParse(e: Tree, m: nat, tokens: seq<Token>, i: nat)
    requires e.Call? && Derives(UNARY, e) && m <= |e.arguments|
    requires At(tokens, i, YieldTail(e.arguments, m))
    ensures MoreArgumentsFrom(Building(false), tokens, e.arguments[..m], i) ==
            Parsed(e.arguments, i + |YieldTail(e.arguments, m)|)
    decreases e, 2, |e.arguments| - m
  {
    var es := e.arguments;
    AfterArgument(es, m, tokens, i);
    if m == |es| {
      assert es[..m] == es;
    } else {
      TailYield(es, m, tokens, i);
      var q := i + 1 + |Yield(es[m])|;
      AfterArgument(es, m + 1, tokens, q);
      OperandParses(es[m], tokens, 0, i + 1);
      assert es[..m + 1] == es[..m] + [es[m]];
      MoreArgumentsStep(tokens, es[..m], i, es[m], q);
      MoreArgumentsParse(e, m + 1, tokens, q);
    }
  }

  /** The parser accepts exactly the derivable token sequences, each with the
      one tree that yields it: precedence and left associativity are as the
      grammar states, and no expression has two readings. */
  lemma {:induction false} ParserDecidesGrammar(tokens: seq<Token>, e: Tree)
    ensures Evaluate(Building(false), tokens) == Value(e) <==> Derives(0, e) && Yield(e) == tokens
  {
    LevelCovers(tokens, 0, 0);
    if Derives(0, e) && Yield(e) == tokens {
      assert tokens[0..|tokens|] == tokens;
      assert At(tokens, 0, Yield(e));
      DerivationParses(e, tokens, 0, 0);
    }
    if Evaluate(Building(false), tokens) == Value(e) {
      assert tokens[0..|tokens|] == tokens;
    }
  }

  // ---------- evaluating while parsing is evaluating the tree ----------

  function Fold<V>(s: Semantics<V>, e: Tree): Evaluated<V> {
    match e
    case Leaf(token) => Value(s.literal(token))
    case Path(name) => s.resolve(name)
    case Call(name, arguments) =>
      (match FoldList(s, arguments)
       case Raised(error) => Raised(error)
       case Value(vs) => s.call(name, vs))
    case Group(inner) =>
      (match Fold(s, inner)
       case Raised(error) => Raised(error)
       case Value(v) => Value(s.group(v)))
    case Not(operand) =>
      (match Fold(s, operand)
       case Raised(error) => Raised(error)
       case Value(v) => Value(s.negate(v)))
    case Binary(op, left, right) =>
      match (Fold(s, left), Fold(s, right))
      case (Value(l), Value(r)) => Value(s.combine(op, l, r))
      case (Raised(error), _) => Raised(error)
      case (_, Raised(error)) => Raised(error)
  }

  function FoldList<V>(s: Semantics<V>, es: seq<Tree>): Evaluated<seq<V>> {
    if es == [] then Value([])
    else
      match (FoldList(s, es[..|es| - 1]), Fold(s, es[|es| - 1]))
      case (Value(vs), Value(v)) => Value(vs + [v])
      case (Raised(error), _) => Raised(error)
      case (_, Raised(error)) => Raised(error)
  }

  /** `r` is what a parser that evaluates finds where the tree parser finds `t`. */
  ghost predicate Tracks<V>(r: Parsed<V>, t: Parsed<Tree>, folded: Evaluated<V>) {
    if t.Failed? then r.Failed?
    else r == match folded case Value(v) => Parsed(v, t.next) case Raised(error) => Failed(error)
  }

  ghost function FoldParsed<V>(s: Semantics<V>, t: Parsed<Tree>): Evaluated<V> {
    if t.Parsed? then Fold(s, t.value) else Raised(Unsupported)
  }

  lemma {:induction false} LevelTracks<V>(s: Semantics<V>, tokens: seq<Token>, level: nat, i: nat)
    requires level <= UNARY && i <= |tokens|
    ensures var t := LevelFrom(Building(s.callsFirst), tokens, level, i);
            Tracks(LevelFrom(s, tokens, level, i), t, FoldParsed(s, t))
    decreases |tokens| - i, 10 - level
  {
    var b := Building(s.callsFirst);
    if level == UNARY {
      if IsOperator(tokens, i, Bang) {
        LevelTracks(s, tokens, UNARY, i + 1);
      } else {
        PrimaryTracks(s, tokens, i);
      }
    } else {
      LevelTracks(s, tokens, level + 1, i);
      var t := LevelFrom(b, tokens, level + 1, i);
      if t.Parsed? {
        RestTracks(s, tokens, level, t.value, t.next);
      }
    }
  }

  lemma {:induction false} RestTracks<V>(s: Semantics<V>, tokens: seq<Token>, level: nat, left: Tree, i: nat)
    requires level < UNARY && i <= |tokens|
    ensures var t := RestFrom(Building(s.callsFirst), tokens, level, left, i);
            if Fold(s, left).Value?
            then Tracks(RestFrom(s, tokens, level, Fold(s, left).value, i), t, FoldParsed(s, t))
            else t.Parsed? ==> FoldParsed(s, t) == Raised(Fold(s, left).error)
    decreases |tokens| - i, 0
  {
    match ConnectiveAt(tokens, i, level)
    case None =>
    case Some(op) =>
      LevelTracks(s, tokens, level + 1, i + 1);
      match LevelFrom(Building(s.callsFirst), tokens, level + 1, i + 1)
      case Failed(_) =>
      case Parsed(right, j) => RestTracks(s, tokens, level, Binary(op, left, right), j);
  }

  lemma {:induction false} PrimaryTracks<V>(s: Semantics<V>, tokens: seq<Token>, i: nat)
    requires i <= |tokens|
    ensures var t := PrimaryFrom(Building(s.callsFirst), tokens, i);
            Tracks(PrimaryFrom(s, tokens, i), t, FoldParsed(s, t))
    decreases |tokens| - i, 1
  {
    if i < |tokens| && tokens[i].Operator? {
      LevelTracks(s, tokens, 0, i + 1);
    } else if i < |tokens| && tokens[i].Identifier? && IsOperator(tokens, i + 1, Open) {
      ArgumentsTrack(s, tokens, i + 2);
    }
  }

  ghost predicate TracksList<V>(s: Semantics<V>, r: Parsed<seq<V>>, t: Parsed<seq<Tree>>) {
    if t.Failed? then r.Failed?
    else r == match FoldList(s, t.value) case Value(vs) => Parsed(vs, t.next) case Raised(error) => Failed(error)
  }

  lemma FoldSingleton<V>(s: Semantics<V>, e: Tree)
    ensures FoldList(s, [e]) == match Fold(s, e) case Value(v) => Value([v]) case Raised(error) => Raised(error)
  {
    assert [e][..|[e]| - 1] == [];
    assert FoldList<V>(s, []) == Value([]);
    if Fold(s, e).Value? {
      assert [] + [Fold(s, e).value] == [Fold(s, e).value];
    }
  }

  lemma {:induction false} ArgumentsTrack<V>(s: Semantics<V>, tokens: seq<Token>, i: nat)
    requires i <= |tokens|
    ensures TracksList(s, ArgumentsFrom(s, tokens, i), ArgumentsFrom(Building(s.callsFirst), tokens, i))
    decreases |tokens| - i, 20
  {
    if !IsOperator(tokens, i, Close) {
      LevelTracks(s, tokens, 0, i);
      match LevelFrom(Building(s.callsFirst), tokens, 0, i)
      case Failed(_) =>
      case Parsed(e, j) =>
        FoldSingleton(s, e);
        MoreArgumentsTrack(s, tokens, [e], j);
    }
  }

  lemma {:induction false} MoreArgumentsTrack<V>(s: Semantics<V>, tokens: seq<Token>, es: seq<Tree>, i: nat)
    requires i <= |tokens|
    ensures var t := MoreArgumentsFrom(Building(s.callsFirst), tokens, es, i);
            if FoldList(s, es).Value?
            then TracksList(s, MoreArgumentsFrom(s, tokens, FoldList(s, es).value, i), t)
            else t.Parsed? ==> FoldList(s, t.value) == Raised(FoldList(s, es).error)
    decreases |tokens| - i, 20
  {
    if IsOperator(tokens, i, Comma) {
      LevelTracks(s, tokens, 0, i + 1);
      match LevelFrom(Building(s.callsFirst), tokens, 0, i + 1)
      case Failed(_) =>
      case Parsed(e, j) =>
        assert (es + [e])[..|es|] == es;
        MoreArgumentsTrack(s, tokens, es + [e], j);
    }
  }

  /** One-pass evaluation is parse-then-evaluate: for every semantics that
      reads keywords first, the parser returns `v` exactly when the tokens
      derive from a tree whose fold is `v`. */
  lemma {:induction false} OnePassIsParseThenEvaluate<V>(s: Semantics<V>, tokens: seq<Token>, v: V)
    requires !s.callsFirst
    ensures Evaluate(s, tokens) == Value(v) <==>
            exists e :: Derives(0, e) && Yield(e) == tokens && Fold(s, e) == Value(v)
  {
    LevelTracks(s, tokens, 0, 0);
    forall e | Derives(0, e) && Yield(e) == tokens
      ensures Evaluate(Building(false), tokens) == Value(e)
    {
      ParserDecidesGrammar(tokens, e);
    }
    if Evaluate(s, tokens) == Value(v) {
      var e := Evaluate(Building(false), tokens).value;
      ParserDecidesGrammar(tokens, e);
      assert Derives(0, e) && Yield(e) == tokens && Fold(s, e) == Value(v);
    }
  }

  // ---------- reading calls before keywords ----------

  /** Where the keyword-first parser succeeds and no bracket follows, the
      call-first parser finds the same tree over the same tokens. */
  lemma {:induction false} CallsFirstLevel(tokens: seq<Token>, level: nat, i: nat)
    requires level <= UNARY && i <= |tokens|
    ensures Keeps(tokens, LevelFrom(Building(false), tokens, level, i), LevelFrom(Building(true), tokens, level, i))
    decreases |tokens| - i, 10 - level
  {
    if level == UNARY {
      if IsOperator(tokens, i, Bang) {
        CallsFirstLevel(tokens, UNARY, i + 1);
      } else {
        CallsFirstPrimary(tokens, i);
      }
    } else {
      CallsFirstLevel(tokens, level + 1, i);
      match LevelFrom(Building(false), tokens, level + 1, i)
      case Failed(_) =>
      case Parsed(e, j) => CallsFirstRest(tokens, level, e, j);
    }
  }

  ghost predicate Keeps<V>(tokens: seq<Token>, plain: Parsed<V>, callsFirst: Parsed<V>) {
    plain.Parsed? && !IsOperator(tokens, plain.next, Open) ==> callsFirst == plain
  }

  lemma {:induction false} CallsFirstRest(tokens: seq<Token>, level: nat, left: Tree, i: nat)
    requires level < UNARY && i <= |tokens|
    ensures Keeps(tokens, RestFrom(Building(false), tokens, level, left, i),
                  RestFrom(Building(true), tokens, level, left, i))
    decreases |tokens| - i, 0
  {
    match ConnectiveAt(tokens, i, level)
    case None =>
    case Some(op) =>
      CallsFirstLevel(tokens, level + 1, i + 1);
      match LevelFrom(Building(false), tokens, level + 1, i + 1)
      case Failed(_) =>
      case Parsed(right, j) => CallsFirstRest(tokens, level, Binary(op, left, right), j);
  }

  lemma {:induction false} CallsFirstPrimary(tokens: seq<Token>, i: nat)
    requires i <= |tokens|
    ensures Keeps(tokens, PrimaryFrom(Building(false), tokens, i), PrimaryFrom(Building(true), tokens, i))
    decreases |tokens| - i, 1
  {
    if i < |tokens| && tokens[i].Operator? {
      CallsFirstLevel(tokens, 0, i + 1);
    } else if i < |tokens| && tokens[i].Identifier? && IsOperator(tokens, i + 1, Open) {
      CallsFirstArguments(tokens, i + 2);
    }
  }

  lemma {:induction false} CallsFirstArguments(tokens: seq<Token>, i: nat)
    requires i <= |tokens|
    ensures ArgumentsFrom(Building(false), tokens, i).Parsed? ==>
              ArgumentsFrom(Building(true), tokens, i) == ArgumentsFrom(Building(false), tokens, i)
    decreases |tokens| - i, 20
  {
    if !IsOperator(tokens, i, Close) {
      CallsFirstLevel(tokens, 0, i);
      match LevelFrom(Building(false), tokens, 0, i)
      case Failed(_) =>
      case Parsed(e, j) => CallsFirstMoreArguments(tokens, [e], j);
    }
  }

  lemma {:induction false} CallsFirstMoreArguments(tokens: seq<Token>, es: seq<Tree>, i: nat)
    requires i <= |tokens|
    ensures MoreArgumentsFrom(Building(false), tokens, es, i).Parsed? ==>
              MoreArgumentsFrom(Building(true), tokens, es, i) == MoreArgumentsFrom(Building(false), tokens, es, i)
    decreases |tokens| - i, 20
  {
    if IsOperator(tokens, i, Comma) {
      CallsFirstLevel(tokens, 0, i + 1);
      match LevelFrom(Building(false), tokens, 0, i + 1)
      case Failed(_) =>
      case Parsed(e, j) => CallsFirstMoreArguments(tokens, es + [e], j);
    }
  }

  /** A whole expression the keyword-first parser reads is the same tree to
      the call-first parser, whatever each evaluates it with. */
  lemma {:induction false} SameTree<V, W>(plain: Semantics<V>, callsFirst: Semantics<W>, tokens: seq<Token>)
    requires !plain.callsFirst && callsFirst.callsFirst && Evaluate(plain, tokens).Value?
    ensures Evaluate(Building(false), tokens).Value?
    ensures var e := Evaluate(Building(false), tokens).value;
            && Derives(0, e) && Yield(e) == tokens
            && Evaluate(plain, tokens) == Fold(plain, e)
            && (Fold(callsFirst, e).Value? ==> Evaluate(callsFirst, tokens) == Fold(callsFirst, e))
  {
    LevelTracks(plain, tokens, 0, 0);
    CallsFirstLevel(tokens, 0, 0);
    LevelTracks(callsFirst, tokens, 0, 0);
    ParserDecidesGrammar(tokens, Evaluate(Building(false), tokens).value);
  }
}
