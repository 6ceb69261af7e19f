/** The recursive-descent parser of the workflow expression language.

    The parser evaluates while it parses.  What it does with the operands it
    has parsed is a parameter, `Semantics`: the concrete evaluator, the
    three-valued evaluator and the syntax-tree builder are three instances.
    `LevelFrom` and the functions beside it say what a parse from an index
    yields; class `Parser` is the stateful parser, proved to compute exactly
    that. */
module ExpressionGrammar {
  import opened Text

  datatype Symbol = OrOr | AndAnd | EqualEqual | NotEqual | Bang | Open | Close | Comma

  /** The tokens the tokeniser makes; `Quoted` keeps its quotes. */
  datatype Token = Operator(symbol: Symbol) | Quoted(text: string) | Number(text: string) | Identifier(text: string)

  /** `Unsupported` is the checker's own exception; `MissingArgument` is the
      IndexError a one-argument startsWith/endsWith/contains escapes with. */
  datatype Error = Unsupported | MissingArgument

  datatype Evaluated<+V> = Value(value: V) | Raised(error: Error)

  datatype Parsed<+V> = Parsed(value: V, next: nat) | Failed(error: Error)

  datatype Connective = Or | And | Equals | Differs

  /** How a parser combines what it has parsed.  `callsFirst` says whether an
      identifier before `(` is read as a call before it is tried as a keyword. */
  datatype Semantics<!V> = Semantics(
    callsFirst: bool,
    literal: Token -> V,
    group: V -> V,
    negate: V -> V,
    combine: (Connective, V, V) -> V,
    resolve: string -> Evaluated<V>,
    call: (string, seq<V>) -> Evaluated<V>)

  /** The binding levels: 0 is `||`, 1 is `&&`, 2 is `==` and `!=`, 3 is unary. */
  const UNARY := 3

  predicate IsOperator(tokens: seq<Token>, i: nat, op: Symbol) {
    i < |tokens| && tokens[i] == Operator(op)
  }

  function ConnectiveAt(tokens: seq<Token>, i: nat, level: nat): Option<Connective> {
    if level == 0 && IsOperator(tokens, i, OrOr) then Some(Or)
    else if level == 1 && IsOperator(tokens, i, AndAnd) then Some(And)
    else if level == 2 && IsOperator(tokens, i, EqualEqual) then Some(Equals)
    else if level == 2 && IsOperator(tokens, i, NotEqual) then Some(Differs)
    else None
  }

  predicate IsKeyword(name: string) {
    Lower(name) in {"true", "false", "null"}
  }

  function LevelFrom<V>(s: Semantics<V>, tokens: seq<Token>, level: nat, i: nat): (r: Parsed<V>)
    requires level <= UNARY && i <= |tokens|
    ensures r.Parsed? ==> i < r.next <= |tokens|
    decreases |tokens| - i, 10 - level
  {
    if level == UNARY then
      if IsOperator(tokens, i, Bang) then
        match LevelFrom(s, tokens, UNARY, i + 1)
        case Failed(e) => Failed(e)
        case Parsed(v, j) => Parsed(s.negate(v), j)
      else
        PrimaryFrom(s, tokens, i)
    else
      match LevelFrom(s, tokens, level + 1, i)
      case Failed(e) => Failed(e)
      case Parsed(v, j) => RestFrom(s, tokens, level, v, j)
  }

  /** The operator loop of one level: fold further operands into `left`. */
  function RestFrom<V>(s: Semantics<V>, tokens: seq<Token>, level: nat, left: V, i: nat): (r: Parsed<V>)
    requires level < UNARY && i <= |tokens|
    ensures r.Parsed? ==> i <= r.next <= |tokens|
    decreases |tokens| - i, 0
  {
    match ConnectiveAt(tokens, i, level)
    case None => Parsed(left, i)
    case Some(op) =>
      match LevelFrom(s, tokens, level + 1, i + 1)
      case Failed(e) => Failed(e)
      case Parsed(right, j) => RestFrom(s, tokens, level, s.combine(op, left, right), j)
  }

  function PrimaryFrom<V>(s: Semantics<V>, tokens: seq<Token>, i: nat): (r: Parsed<V>)
    requires i <= |tokens|
    ensures r.Parsed? ==> i < r.next <= |tokens|
    decreases |tokens| - i, 1
  {
    if i == |tokens| then Failed(Unsupported)
    else
      match tokens[i]
      case Operator(symbol) =>
        if symbol != Open then Failed(Unsupported)
        else (
          match LevelFrom(s, tokens, 0, i + 1)
          case Failed(e) => Failed(e)
          case Parsed(v, j) =>
            if IsOperator(tokens, j, Close) then Parsed(s.group(v), j + 1) else Failed(Unsupported)
        )
      case Quoted(_) => Parsed(s.literal(tokens[i]), i + 1)
      case Number(_) => Parsed(s.literal(tokens[i]), i + 1)
      case Identifier(name) =>
        if IsOperator(tokens, i + 1, Open) && (s.callsFirst || !IsKeyword(name)) then
          CallFrom(s, tokens, i)
        else if IsKeyword(name) then
          Parsed(s.literal(tokens[i]), i + 1)
        else
          match s.resolve(name)
          case Raised(e) => Failed(e)
          case Value(v) => Parsed(v, i + 1)
  }

  function CallFrom<V>(s: Semantics<V>, tokens: seq<Token>, i: nat): (r: Parsed<V>)
    requires i < |tokens| && tokens[i].Identifier? && IsOperator(tokens, i + 1, Open)
    ensures r.Parsed? ==> i < r.next <= |tokens|
    decreases |tokens| - i, 0
  {
    match ArgumentsFrom(s, tokens, i + 2)
    case Failed(e) => Failed(e)
    case Parsed(arguments, j) =>
      match s.call(tokens[i].text, arguments)
      case Raised(e) => Failed(e)
      case Value(v) => Parsed(v, j)
  }

  /** The arguments of a call, up to and including its closing bracket. */
  function ArgumentsFrom<V>(s: Semantics<V>, tokens: seq<Token>, i: nat): (r: Parsed<seq<V>>)
    requires i <= |tokens|
    ensures r.Parsed? ==> i < r.next <= |tokens|
    decreases |tokens| - i, 20
  {
    if IsOperator(tokens, i, Close) then Parsed([], i + 1)
    else
      match LevelFrom(s, tokens, 0, i)
      case Failed(e) => Failed(e)
      case Parsed(v, j) => MoreArgumentsFrom(s, tokens, [v], j)
  }

  function MoreArgumentsFrom<V>(s: Semantics<V>, tokens: seq<Token>, arguments: seq<V>, i: nat): (r: Parsed<seq<V>>)
    requires i <= |tokens|
    ensures r.Parsed? ==> i < r.next <= |tokens|
    decreases |tokens| - i, 20
  {
    if IsOperator(tokens, i, Comma) then
      match LevelFrom(s, tokens, 0, i + 1)
      case Failed(e) => Failed(e)
      case Parsed(v, j) => MoreArgumentsFrom(s, tokens, arguments + [v], j)
    else if IsOperator(tokens, i, Close) then Parsed(arguments, i + 1)
    else Failed(Unsupported)
  }

  /** A whole expression: one `||`-level parse that leaves no token over. */
  function Evaluate<V>(s: Semantics<V>, tokens: seq<Token>): Evaluated<V> {
    match LevelFrom(s, tokens, 0, 0)
    case Failed(e) => Raised(e)
    case Parsed(v, j) => if j == |tokens| then Value(v) else Raised(Unsupported)
  }

  /** What a method returning `r` and leaving the index at `next` has parsed. */
  function Outcome<V>(r: Evaluated<V>, next: nat): Parsed<V> {
    match r
    case Value(v) => Parsed(v, next)
    case Raised(e) => Failed(e)
  }

  /** The parser itself: a token list and an index that `Take` advances. */
  class Parser<V> {
    const semantics: Semantics<V>
    const tokens: seq<Token>
    var index: nat

    ghost predicate Valid()
      reads this
    {
      index <= |tokens|
    }

    constructor (semantics: Semantics<V>, tokens: seq<Token>)
      ensures Valid() && this.semantics == semantics && this.tokens == tokens && index == 0
    {
      this.semantics, this.tokens, index := semantics, tokens, 0;
    }

    function Peek(): Option<Token>
      reads this
    {
      if index < |tokens| then Some(tokens[index]) else None
    }

    predicate PeekIs(op: Symbol)
      reads this
    {
      Peek() == Some(Operator(op))
    }

    method Take() returns (r: Evaluated<Token>)
      requires Valid()
      modifies this
      ensures Valid()
      ensures r == if old(index) < |tokens| then Value(tokens[old(index)]) else Raised(Unsupported)
      ensures index == if r.Value? then old(index) + 1 else old(index)
    {
      if index == |tokens| {
        return Raised(Unsupported);
      }
      r := Value(tokens[index]);
      index := index + 1;
    }

    method ExpectOperator(op: Symbol) returns (ok: bool)
      requires Valid()
      modifies this
      ensures Valid() && old(index) <= index
      ensures ok == IsOperator(tokens, old(index), op)
      ensures ok ==> index == old(index) + 1
    {
      var token := Take();
      ok := token == Value(Operator(op));
    }

    /** The value of the whole expression; every token must be consumed. */
    method Parse() returns (r: Evaluated<V>)
      requires Valid() && index == 0
      modifies this
      ensures Valid() && r == Evaluate(semantics, tokens)
    {
      r := ParseOr();
      if r.Value? && Peek().Some? {
        r := Raised(Unsupported);
      }
    }

    method ParseOr() returns (r: Evaluated<V>)
      requires Valid()
      modifies this
      ensures Valid() && old(index) <= index
      ensures Outcome(r, index) == LevelFrom(semantics, tokens, 0, old(index))
      decreases |tokens| - index, 10
    {
      r := ParseAnd();
      while r.Value? && PeekIs(OrOr)
        invariant Valid() && old(index) <= index
        invariant r.Value? ==> old(index) < index
        invariant r.Raised? ==> Outcome(r, index) == LevelFrom(semantics, tokens, 0, old(index))
        invariant r.Value? ==>
            LevelFrom(semantics, tokens, 0, old(index)) == RestFrom(semantics, tokens, 0, r.value, index)
        decreases r.Value?, |tokens| - index
      {
        var _ := Take();
        var left := r.value;
        r := ParseAnd();
        if r.Value? {
          r := Value(semantics.combine(Or, left, r.value));
        }
      }
    }

    method ParseAnd() returns (r: Evaluated<V>)
      requires Valid()
      modifies this
      ensures Valid() && old(index) <= index
      ensures Outcome(r, index) == LevelFrom(semantics, tokens, 1, old(index))
      decreases |tokens| - index, 9
    {
      r := ParseEquality();
      while r.Value? && PeekIs(AndAnd)
        invariant Valid() && old(index) <= index
        invariant r.Value? ==> old(index) < index
        invariant r.Raised? ==> Outcome(r, index) == LevelFrom(semantics, tokens, 1, old(index))
        invariant r.Value? ==>
            LevelFrom(semantics, tokens, 1, old(index)) == RestFrom(semantics, tokens, 1, r.value, index)
        decreases r.Value?, |tokens| - index
      {
        var _ := Take();
        var left := r.value;
        r := ParseEquality();
        if r.Value? {
          r := Value(semantics.combine(And, left, r.value));
        }
      }
    }

    method ParseEquality() returns (r: Evaluated<V>)
      requires Valid()
      modifies this
      ensures Valid() && old(index) <= index
      ensures Outcome(r, index) == LevelFrom(semantics, tokens, 2, old(index))
      decreases |tokens| - index, 8
    {
      r := ParseUnary();
      while r.Value? && (PeekIs(EqualEqual) || PeekIs(NotEqual))
        invariant Valid() && old(index) <= index
        invariant r.Value? ==> old(index) < index
        invariant r.Raised? ==> Outcome(r, index) == LevelFrom(semantics, tokens, 2, old(index))
        invariant r.Value? ==>
            LevelFrom(semantics, tokens, 2, old(index)) == RestFrom(semantics, tokens, 2, r.value, index)
        decreases r.Value?, |tokens| - index
      {
        var op := if PeekIs(EqualEqual) then Equals else Differs;
        var _ := Take();
        var left := r.value;
        r := ParseUnary();
        if r.Value? {
          r := Value(semantics.combine(op, left, r.value));
        }
      }
    }

    method ParseUnary() returns (r: Evaluated<V>)
      requires Valid()
      modifies this
      ensures Valid() && old(index) <= index
      ensures Outcome(r, index) == LevelFrom(semantics, tokens, UNARY, old(index))
      decreases |tokens| - index, 7
    {
      if PeekIs(Bang) {
        var _ := Take();
        r := ParseUnary();
        if r.Value? {
          r := Value(semantics.negate(r.value));
        }
      } else {
        r := ParsePrimary();
      }
    }

    method ParsePrimary() returns (r: Evaluated<V>)
      requires Valid()
      modifies this
      ensures Valid() && old(index) <= index
      ensures Outcome(r, index) == PrimaryFrom(semantics, tokens, old(index))
      decreases |tokens| - index, 6
    {
      var taken := Take();
      if taken.Raised? {
        return Raised(Unsupported);
      }
      var token := taken.value;
      match token
      case Operator(symbol) =>
        if symbol != Open {
          return Raised(Unsupported);
        }
        r := ParseOr();
        if r.Value? {
          var closed := ExpectOperator(Close);
          r := if closed then Value(semantics.group(r.value)) else Raised(Unsupported);
        }
      case Quoted(_) => r := Value(semantics.literal(token));
      case Number(_) => r := Value(semantics.literal(token));
      case Identifier(name) =>
        if PeekIs(Open) && (semantics.callsFirst || !IsKeyword(name)) {
          var _ := Take();
          var arguments := ParseArguments();
          r := match arguments
            case Raised(e) => Raised(e)
            case Value(vs) => semantics.call(name, vs);
        } else if IsKeyword(name) {
          r := Value(semantics.literal(token));
        } else {
          r := semantics.resolve(name);
        }
    }

    method ParseArguments() returns (r: Evaluated<seq<V>>)
      requires Valid()
      modifies this
      ensures Valid() && old(index) <= index
      ensures Outcome(r, index) == ArgumentsFrom(semantics, tokens, old(index))
      decreases |tokens| - index, 20
    {
      var arguments: seq<V> := [];
      if !PeekIs(Close) {
        var first := ParseOr();
        if first.Raised? {
          return Raised(first.error);
        }
        arguments := [first.value];
        while PeekIs(Comma)
          invariant Valid() && old(index) < index
          invariant ArgumentsFrom(semantics, tokens, old(index)) ==
                    MoreArgumentsFrom(semantics, tokens, arguments, index)
          decreases |tokens| - index
        {
          var _ := Take();
          var next := ParseOr();
          if next.Raised? {
            return Raised(next.error);
          }
          arguments := arguments + [next.value];
        }
      }
      var closed := ExpectOperator(Close);
      r := if closed then Value(arguments) else Raised(Unsupported);
    }
  }
}
