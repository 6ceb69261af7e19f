/** Blanking the items that a `cfg` needing a feature compiles out.  The
    regular expressions are parameters; bracket matching, literals and item
    extents are modelled. */
module CompiledOut {
  import opened CfgPredicates
  import opened CommentStripping
  import opened RustText
  import opened Text

  /** A `cfg` attribute found: where it starts, the index after its `(`, and whether it is inner. */
  datatype Attribute = Attribute(start: nat, end: nat, inner: bool)

  /** The patterns of the scan, the tokens of a predicate, and where Rust has an
      item, which no scan looks at: what is compiled out is said in its terms. */
  datatype Patterns = Patterns(
    alnum: Alnum,
    space: char -> bool,
    cfg: (string, nat) -> Option<Attribute>,
    attribute: (string, nat) -> Option<nat>,
    closing: (string, nat) -> Option<nat>,
    item: (string, nat) -> bool,
    tokens: string -> Option<seq<Token>>,
    rustItem: (string, nat) -> bool)

  /** What a match guarantees: it lies in the text from the position on, a `cfg` starts
      with `#`, and a match ends with its bracket. */
  ghost predicate IsPatterns(p: Patterns) {
    && (forall text, i: nat :: p.cfg(text, i).Some? ==>
          var m := p.cfg(text, i).value;
          i <= m.start < m.end <= |text| && text[m.start] == '#' && text[m.end - 1] == '(')
    && (forall text, i: nat :: p.attribute(text, i).Some? ==>
          i < p.attribute(text, i).value <= |text| && text[p.attribute(text, i).value - 1] == '[')
    && (forall text, i: nat :: p.closing(text, i).Some? ==> i < p.closing(text, i).value <= |text|)
  }

  predicate IsOpen(c: char) { c == '(' || c == '[' || c == '{' }

  predicate IsClose(c: char) { c == ')' || c == ']' || c == '}' }

  // ---------- literals ----------

  /** The index after the raw string whose hashes start at `j`, if a quote follows them. */
  function RawLiteralEnd(text: string, j: nat): (r: Option<nat>)
    requires j <= |text|
    ensures r.Some? ==> j < r.value <= |text|
  {
    var q := HashesEnd(text, j);
    if q < |text| && text[q] == '"' then Some(After(text, RawClose(q - j), q + 1)) else None
  }

  method SkipRaw(text: string, j: nat) returns (r: Option<nat>)
    requires j <= |text|
    ensures r == RawLiteralEnd(text, j)
  {
    var q := CountHashes(text, j);
    return if q < |text| && text[q] == '"' then Some(After(text, RawClose(q - j), q + 1)) else None;
  }

  /** The index after the literal that starts at `i`, if one does. */
  function LiteralEnd(text: string, i: nat, alnum: Alnum): (r: Option<nat>)
    requires i < |text|
    ensures r.Some? ==> i < r.value <= |text| && !IsOpen(text[i]) && !IsClose(text[i])
    decreases |text| - i
  {
    var c := text[i];
    if (c == 'r' || c == 'b') && !WordBefore(text, i, alnum) then
      var j := if Pair(text, i, 'b', 'r') then i + 2 else i + 1;
      if text[j - 1] == 'r' then RawLiteralEnd(text, j)
      else if j < |text| && (text[j] == '"' || text[j] == '\'') then LiteralEnd(text, j, alnum)
      else None
    else if c == '"' then Some(Min(StringEnd(text, i + 1) + 1, |text|))
    else if c == '\'' && i + 2 < |text| && text[i + 1] == '\\' then Some(After(text, "'", i + 3))
    else if c == '\'' && i + 2 < |text| && text[i + 2] == '\'' then Some(i + 3)
    else None
  }

  method SkipLiteral(text: string, i: nat, alnum: Alnum) returns (r: Option<nat>)
    requires i < |text|
    ensures r == LiteralEnd(text, i, alnum)
    decreases |text| - i
  {
    var c := text[i];
    if (c == 'r' || c == 'b') && !WordBefore(text, i, alnum) {
      var j := if Pair(text, i, 'b', 'r') then i + 2 else i + 1;
      if text[j - 1] == 'r' {
        r := SkipRaw(text, j);
        return;
      }
      if j < |text| && (text[j] == '"' || text[j] == '\'') {
        r := SkipLiteral(text, j, alnum);
        return;
      }
      return None;
    }
    if c == '"' {
      var j := SkipString(text, i + 1);
      return Some(Min(j + 1, |text|));
    }
    if c == '\'' && i + 2 < |text| && text[i + 1] == '\\' {
      return Some(After(text, "'", i + 3));
    }
    if c == '\'' && i + 2 < |text| && text[i + 2] == '\'' {
      return Some(i + 3);
    }
    return None;
  }

  /** A string ends after the first quote that no backslash escapes. */
  lemma StringExactly(text: string, i: nat, alnum: Alnum)
    requires i < |text| && text[i] == '"'
    ensures LiteralEnd(text, i, alnum).Some? && StringSpan(text, i + 1, LiteralEnd(text, i, alnum).value)
  {
    StringEndExactly(text, i + 1, i + 1);
  }

  /** A raw string, with its optional `b`, ends after the first quote followed by as many hashes as opened it. */
  lemma RawExactly(text: string, i: nat, j: nat, q: nat, alnum: Alnum)
    requires i < |text| && RawOpens(text, i, j, q) && !WordBefore(text, i, alnum)
    ensures LiteralEnd(text, i, alnum).Some? && RawSpan(text, q + 1, q - j, LiteralEnd(text, i, alnum).value)
  {
    RawEndsAt(text, i, j, q, alnum);
    assert RawSpan(text, q + 1, q - j, LiteralEnd(text, i, alnum).value) by {
      AfterRaw(text, q - j, q + 1);
    }
  }

  lemma RawEndsAt(text: string, i: nat, j: nat, q: nat, alnum: Alnum)
    requires i < |text| && RawOpens(text, i, j, q) && !WordBefore(text, i, alnum)
    ensures LiteralEnd(text, i, alnum) == Some(After(text, RawClose(q - j), q + 1))
  {
    HashesStop(text, j, q);
    RawStarts(text, i, j, q, alnum);
  }

  lemma RawStarts(text: string, i: nat, j: nat, q: nat, alnum: Alnum)
    requires i < |text| && RawOpens(text, i, j, q) && !WordBefore(text, i, alnum)
    ensures LiteralEnd(text, i, alnum) == RawLiteralEnd(text, j)
  {
  }

  /** A quote opens a character literal exactly when a backslash follows it or a
      quote stands in the third place; the literal ends there, or after the
      first quote behind the escape. */
  lemma CharacterExactly(text: string, i: nat, alnum: Alnum)
    requires i < |text| && text[i] == '\''
    ensures LiteralEnd(text, i, alnum).Some? <==> i + 2 < |text| && (text[i + 1] == '\\' || text[i + 2] == '\'')
    ensures LiteralEnd(text, i, alnum).Some? && text[i + 1] != '\\' ==> LiteralEnd(text, i, alnum).value == i + 3
    ensures LiteralEnd(text, i, alnum).Some? && text[i + 1] == '\\' ==> EscapeSpan(text, i + 3, LiteralEnd(text, i, alnum).value)
  {
    if i + 2 < |text| && text[i + 1] == '\\' {
      AfterQuote(text, i + 3);
    }
  }

  /** A `b` that no word precedes opens what the quote behind it opens; no other character opens a literal. */
  lemma PrefixExactly(text: string, i: nat, alnum: Alnum)
    requires i < |text|
    ensures text[i] == 'b' && !WordBefore(text, i, alnum) && i + 1 < |text| && (text[i + 1] == '"' || text[i + 1] == '\'') ==>
              LiteralEnd(text, i, alnum) == LiteralEnd(text, i + 1, alnum)
    ensures LiteralEnd(text, i, alnum).Some? ==> text[i] in {'"', '\'', 'r', 'b'}
    ensures LiteralEnd(text, i, alnum).Some? && text[i] in {'r', 'b'} ==>
              && !WordBefore(text, i, alnum)
              && ((exists j: nat, q: nat :: RawOpens(text, i, j, q))
                  || (text[i] == 'b' && i + 1 < |text| && (text[i + 1] == '"' || text[i + 1] == '\'')))
  {
    if LiteralEnd(text, i, alnum).Some? && text[i] in {'r', 'b'} {
      var j := if Pair(text, i, 'b', 'r') then i + 2 else i + 1;
      if text[j - 1] == 'r' {
        assert RawOpens(text, i, j, HashesEnd(text, j));
      }
    }
  }

  // ---------- the two scans ----------

  /** How a scan reads literals: with the C strings of Rust 1.77, or without, as the check does. */
  datatype Lex = Lex(alnum: Alnum, cStrings: bool)

  function Check(alnum: Alnum): Lex {
    Lex(alnum, false)
  }

  function Rust(alnum: Alnum): Lex {
    Lex(alnum, true)
  }

  predicate IsC(text: string, i: nat, alnum: Alnum)
    requires i < |text|
  {
    text[i] == 'c' && !WordBefore(text, i, alnum)
  }

  /** The C string that starts at `i`: `cr` with the hashes and quotes of a raw
      string, or `c` before a string. */
  function CStringEnd(text: string, i: nat, alnum: Alnum): (r: Option<nat>)
    requires i < |text|
    ensures r.Some? ==> i < r.value <= |text| && text[i] == 'c'
  {
    if !IsC(text, i, alnum) then None
    else if Pair(text, i, 'c', 'r') then RawLiteralEnd(text, i + 2)
    else if Pair(text, i, 'c', '"') then LiteralEnd(text, i + 1, alnum)
    else None
  }

  function LiteralIn(text: string, i: nat, lex: Lex): (r: Option<nat>)
    requires i < |text|
    ensures r.Some? ==> i < r.value <= |text| && !IsOpen(text[i]) && !IsClose(text[i])
  {
    if lex.cStrings && CStringEnd(text, i, lex.alnum).Some? then CStringEnd(text, i, lex.alnum)
    else LiteralEnd(text, i, lex.alnum)
  }

  /** A raw C string starts at `i`. */
  predicate IsRawC(text: string, i: nat, alnum: Alnum)
    requires i < |text|
  {
    IsC(text, i, alnum) && Pair(text, i, 'c', 'r') && RawLiteralEnd(text, i + 2).Some?
  }

  predicate HasNoRawC(text: string, alnum: Alnum) {
    forall i :: 0 <= i < |text| ==> !IsRawC(text, i, alnum)
  }

  /** The two scans read what starts at `i` alike exactly when no C string does. */
  lemma LiteralsAgreeExactly(text: string, i: nat, alnum: Alnum)
    requires i < |text|
    ensures LiteralIn(text, i, Rust(alnum)) == LiteralIn(text, i, Check(alnum)) <==> CStringEnd(text, i, alnum).None?
  {
  }

  // ---------- brackets ----------

  /** The next position the scan looks at after `i`: past a literal, or one on. */
  function Following(text: string, i: nat, lex: Lex): (r: nat)
    requires i < |text|
    ensures i < r <= |text|
  {
    var literal := LiteralIn(text, i, lex);
    if literal.Some? then literal.value else i + 1
  }

  /** +1 for an opening bracket of the code, -1 for a closing one. */
  function Weight(text: string, i: nat): int
    requires i < |text|
  {
    if IsOpen(text[i]) then 1 else if IsClose(text[i]) then -1 else 0
  }

  /** The first closing bracket of the code, from `i` on, that brings the depth to 0. */
  function CloseFrom(text: string, i: nat, depth: int, lex: Lex): (r: Option<nat>)
    requires i <= |text|
    ensures r.Some? ==> i <= r.value < |text| && IsClose(text[r.value])
    decreases |text| - i
  {
    if i == |text| then None
    else if IsClose(text[i]) && depth == 1 then Some(i)
    else CloseFrom(text, Following(text, i, lex), depth + Weight(text, i), lex)
  }

  method MatchingClose(text: string, start: nat, alnum: Alnum) returns (r: Option<nat>)
    requires start <= |text|
    ensures r == CloseFrom(text, start, 0, Check(alnum))
  {
    var i, depth := start, 0;
    while i < |text|
      invariant start <= i <= |text|
      invariant CloseFrom(text, start, 0, Check(alnum)) == CloseFrom(text, i, depth, Check(alnum))
      decreases |text| - i
    {
      var found, next, gained := CloseOnce(text, i, depth, alnum);
      if found {
        return Some(i);
      }
      i, depth := next, gained;
    }
    return None;
  }

  /** One look of the scan: past a literal, or at a character and its bracket. */
  method CloseOnce(text: string, i: nat, depth: int, alnum: Alnum) returns (found: bool, next: nat, gained: int)
    requires i < |text|
    ensures found ==> CloseFrom(text, i, depth, Check(alnum)) == Some(i)
    ensures !found ==> i < next <= |text| && CloseFrom(text, i, depth, Check(alnum)) == CloseFrom(text, next, gained, Check(alnum))
  {
    CloseStep(text, i, depth, Check(alnum));
    var end := SkipLiteral(text, i, alnum);
    if end.Some? {
      return false, end.value, depth;
    }
    gained := depth;
    if IsOpen(text[i]) {
      gained := depth + 1;
    } else if IsClose(text[i]) {
      gained := depth - 1;
      if gained == 0 {
        return true, i, gained;
      }
    }
    return false, i + 1, gained;
  }

  lemma CloseStep(text: string, i: nat, depth: int, lex: Lex)
    requires i < |text|
    ensures var literal := LiteralIn(text, i, lex);
            CloseFrom(text, i, depth, lex) ==
            if literal.Some? then CloseFrom(text, literal.value, depth, lex)
            else if IsClose(text[i]) && depth == 1 then Some(i)
            else CloseFrom(text, i + 1, depth + Weight(text, i), lex)
  {
  }

  /** Whether the scan from `i` looks at `k`. */
  ghost predicate Visits(text: string, i: nat, k: nat, lex: Lex)
    requires i <= |text|
    decreases |text| - i
  {
    i == k || (i < |text| && Visits(text, Following(text, i, lex), k, lex))
  }

  /** The depth gained between `i` and a position `k` the scan looks at. */
  ghost function Gained(text: string, i: nat, k: nat, lex: Lex): int
    requires i <= |text| && Visits(text, i, k, lex)
    decreases |text| - i
  {
    if i == k then 0 else Bracket(text[i]) + Gained(text, Following(text, i, lex), k, lex)
  }

  /** What a bracket adds to the depth. */
  function Bracket(c: char): int {
    if c in {'(', '[', '{'} then 1 else if c in {')', ']', '}'} then -1 else 0
  }

  /** A closing bracket of the code that takes the depth from 1 to 0. */
  ghost predicate Closes(text: string, i: nat, k: nat, depth: int, lex: Lex)
    requires i <= |text|
  {
    k < |text| && Visits(text, i, k, lex) && text[k] in {')', ']', '}'} && depth + Gained(text, i, k, lex) == 1
  }

  lemma {:induction false} VisitsOnward(text: string, i: nat, k: nat, lex: Lex)
    requires i <= |text| && Visits(text, i, k, lex)
    ensures i <= k <= |text|
    decreases |text| - i
  {
    if i != k {
      VisitsOnward(text, Following(text, i, lex), k, lex);
    }
  }

  /** The match is the first bracket that closes, and there is none only when no bracket does. */
  lemma {:induction false} CloseExactly(text: string, i: nat, depth: int, lex: Lex)
    requires i <= |text|
    ensures var r := CloseFrom(text, i, depth, lex);
            && (r.Some? ==> Closes(text, i, r.value, depth, lex))
            && (forall k :: Closes(text, i, k, depth, lex) ==> r.Some? && r.value <= k)
    decreases |text| - i
  {
    if i < |text| {
      var next, gained := Following(text, i, lex), depth + Weight(text, i);
      CloseExactly(text, next, gained, lex);
      forall k | Closes(text, i, k, depth, lex)
        ensures i <= k && (k != i ==> Closes(text, next, k, gained, lex))
      {
        VisitsOnward(text, i, k, lex);
      }
      var r := CloseFrom(text, next, gained, lex);
      if r.Some? {
        VisitsOnward(text, next, r.value, lex);
        assert Visits(text, i, r.value, lex);
      }
    }
  }

  // ---------- attributes and items ----------

  function SpacesEnd(text: string, i: nat, space: char -> bool): (r: nat)
    requires i <= |text|
    ensures i <= r <= |text|
    decreases |text| - i
  {
    if i < |text| && space(text[i]) then SpacesEnd(text, i + 1, space) else i
  }

  /** One attribute at `i`: there is none, it does not close, or what follows it. */
  datatype Skipped = NoAttribute | Unclosed | Past(next: nat)

  ghost function AttributeAt(text: string, i: nat, p: Patterns, lex: Lex): (r: Skipped)
    requires IsPatterns(p) && i <= |text|
    ensures r.Past? ==> i < r.next <= |text|
    ensures r.NoAttribute? <==> p.attribute(text, i).None?
  {
    var m := p.attribute(text, i);
    if m.None? then NoAttribute
    else
      var close := CloseFrom(text, m.value - 1, 0, lex);
      if close.None? then Unclosed else Past(close.value + 1)
  }

  /** The first code after the white space and attributes at `i`. */
  ghost function AttributesEnd(text: string, i: nat, p: Patterns, lex: Lex): (r: nat)
    requires IsPatterns(p) && i <= |text|
    ensures i <= r <= |text|
    decreases |text| - i
  {
    match AttributeAt(text, i, p, lex)
    case NoAttribute => SpacesEnd(text, i, p.space)
    case Unclosed => |text|
    case Past(next) => AttributesEnd(text, next, p, lex)
  }

  method SkipAttribute(text: string, i: nat, p: Patterns) returns (r: Skipped)
    requires IsPatterns(p) && i <= |text|
    ensures r == AttributeAt(text, i, p, Check(p.alnum))
  {
    var m := p.attribute(text, i);
    if m.None? {
      return NoAttribute;
    }
    var close := MatchingClose(text, m.value - 1, p.alnum);
    return if close.None? then Unclosed else Past(close.value + 1);
  }

  method SkipAttributes(text: string, start: nat, p: Patterns) returns (i: nat)
    requires IsPatterns(p) && start <= |text|
    ensures i == AttributesEnd(text, start, p, Check(p.alnum))
  {
    i := start;
    var skipped := SkipAttribute(text, i, p);
    while skipped.Past?
      invariant start <= i <= |text| && skipped == AttributeAt(text, i, p, Check(p.alnum))
      invariant AttributesEnd(text, start, p, Check(p.alnum)) == AttributesEnd(text, i, p, Check(p.alnum))
      decreases |text| - i
    {
      i := skipped.next;
      skipped := SkipAttribute(text, i, p);
    }
    if skipped.Unclosed? {
      return |text|;
    }
    i := SkipSpaces(text, i, p.space);
  }

  /** An attribute opens at `i` and is closed just before `next`. */
  ghost predicate IsAttribute(text: string, i: nat, next: nat, p: Patterns, lex: Lex)
    requires IsPatterns(p)
  {
    && i <= |text| && p.attribute(text, i).Some?
    && var close := CloseFrom(text, p.attribute(text, i).value - 1, 0, lex);
       close.Some? && close.value + 1 == next
  }

  /** A run of attributes, each closed where the next stop is. */
  ghost predicate AreAttributes(text: string, stops: seq<nat>, p: Patterns, lex: Lex)
    requires IsPatterns(p)
  {
    forall n :: 0 <= n < |stops| - 1 ==> IsAttribute(text, stops[n], stops[n + 1], p, lex)
  }

  /** From `i`: a run of attributes, and then an attribute that is never closed,
      up to the end of the text, or none, and white space up to `end`. */
  ghost predicate IsLead(text: string, i: nat, stops: seq<nat>, end: nat, p: Patterns, lex: Lex)
    requires IsPatterns(p)
  {
    && stops != [] && stops[0] == i && AreAttributes(text, stops, p, lex)
    && var last := stops[|stops| - 1];
       && last <= end <= |text|
       && if p.attribute(text, last).Some?
          then CloseFrom(text, p.attribute(text, last).value - 1, 0, lex).None? && end == |text|
          else (forall k :: last <= k < end ==> p.space(text[k])) && (end < |text| ==> !p.space(text[end]))
  }

  /** The first code is what follows such a lead. */
  lemma {:induction false} AttributesExactly(text: string, i: nat, p: Patterns, lex: Lex)
    requires IsPatterns(p) && i <= |text|
    ensures exists stops :: IsLead(text, i, stops, AttributesEnd(text, i, p, lex), p, lex)
    decreases |text| - i
  {
    var skipped, end := AttributeAt(text, i, p, lex), AttributesEnd(text, i, p, lex);
    if skipped.Past? {
      AttributesExactly(text, skipped.next, p, lex);
      var rest :| IsLead(text, skipped.next, rest, end, p, lex);
      LeadGrows(text, i, skipped.next, rest, end, p, lex);
    } else {
      SpacesAre(text, i, p.space);
      assert IsLead(text, i, [i], end, p, lex);
    }
  }

  lemma LeadGrows(text: string, i: nat, next: nat, rest: seq<nat>, end: nat, p: Patterns, lex: Lex)
    requires IsPatterns(p) && IsAttribute(text, i, next, p, lex) && IsLead(text, next, rest, end, p, lex)
    ensures IsLead(text, i, [i] + rest, end, p, lex)
  {
    var stops := [i] + rest;
    forall n | 0 <= n < |stops| - 1 ensures IsAttribute(text, stops[n], stops[n + 1], p, lex) {
      assert stops[n + 1] == rest[n] && (n > 0 ==> stops[n] == rest[n - 1]);
      assert n > 0 ==> IsAttribute(text, rest[n - 1], rest[n - 1 + 1], p, lex);
    }
    assert stops[|stops| - 1] == rest[|rest| - 1];
  }

  lemma {:induction false} SpacesAre(text: string, i: nat, space: char -> bool)
    requires i <= |text|
    ensures var end := SpacesEnd(text, i, space);
            (forall k :: i <= k < end ==> space(text[k])) && (end < |text| ==> !space(text[end]))
    decreases |text| - i
  {
    if i < |text| && space(text[i]) {
      SpacesAre(text, i + 1, space);
    }
  }

  method SkipSpaces(text: string, start: nat, space: char -> bool) returns (i: nat)
    requires start <= |text|
    ensures i == SpacesEnd(text, start, space)
  {
    i := start;
    while i < |text| && space(text[i])
      invariant start <= i <= |text|
      invariant SpacesEnd(text, start, space) == SpacesEnd(text, i, space)
    {
      i := i + 1;
    }
  }

  /** One look of the item scan: it ends, with the index after the item or without, or goes on. */
  datatype Look = End(found: Option<nat>) | On(next: nat, depth: int)

  function LookAt(text: string, i: nat, depth: int, lex: Lex): (r: Look)
    requires i < |text|
    ensures r.On? ==> i < r.next <= |text|
    ensures r.End? && r.found.Some? ==> i < r.found.value <= |text|
  {
    if text[i] == '{' && depth == 0 then
      var close := CloseFrom(text, i, 0, lex);
      End(if close.None? then None else Some(close.value + 1))
    else if IsClose(text[i]) && depth <= 0 then End(None)
    else if text[i] == ';' && depth == 0 then End(Some(i + 1))
    else On(Following(text, i, lex), depth + Weight(text, i))
  }

  /** The end of an item's block or of its `;`, at depth 0. */
  function ItemFrom(text: string, i: nat, depth: int, lex: Lex): (r: Option<nat>)
    requires i <= |text|
    ensures r.Some? ==> i < r.value <= |text|
    decreases |text| - i
  {
    if i == |text| then None
    else
      match LookAt(text, i, depth, lex)
      case End(found) => found
      case On(next, depth) => ItemFrom(text, next, depth, lex)
  }

  /** Where the item scan, started at `i` with this depth, can end: a semicolon, an
      opening brace or an unmatched closing bracket of the code, at depth 0. */
  ghost predicate Stops(text: string, i: nat, j: nat, depth: int, lex: Lex)
    requires i <= |text|
  {
    && j < |text| && Visits(text, i, j, lex) && depth + Gained(text, i, j, lex) == 0
    && text[j] in {';', '{', ')', ']', '}'}
  }

  /** What the scan returns where it ends: the index after the semicolon or after
      the brace's match, and nothing at a closing bracket. */
  function EndAt(text: string, j: nat, lex: Lex): Option<nat>
    requires j < |text|
  {
    if text[j] == ';' then Some(j + 1)
    else if text[j] == '{' then
      var close := CloseFrom(text, j, 0, lex);
      if close.None? then None else Some(close.value + 1)
    else None
  }

  predicate IsStop(c: char) {
    c == ';' || c == '{' || IsClose(c)
  }

  function StopFrom(text: string, i: nat, depth: int, lex: Lex): (r: Option<nat>)
    requires i <= |text|
    ensures r.Some? ==> r.value < |text|
    decreases |text| - i
  {
    if i == |text| then None
    else if IsStop(text[i]) && depth == 0 then Some(i)
    else StopFrom(text, Following(text, i, lex), depth + Weight(text, i), lex)
  }

  lemma {:induction false} StopExactly(text: string, i: nat, depth: int, lex: Lex)
    requires i <= |text|
    ensures var r := StopFrom(text, i, depth, lex);
            && (r.Some? ==> Stops(text, i, r.value, depth, lex))
            && (forall k :: Stops(text, i, k, depth, lex) ==> r.Some? && r.value <= k)
    decreases |text| - i
  {
    if i < |text| {
      var next, gained := Following(text, i, lex), depth + Weight(text, i);
      StopExactly(text, next, gained, lex);
      forall k | Stops(text, i, k, depth, lex)
        ensures i <= k && (k != i ==> Stops(text, next, k, gained, lex))
      {
        VisitsOnward(text, i, k, lex);
      }
      var r := StopFrom(text, next, gained, lex);
      if r.Some? {
        VisitsOnward(text, next, r.value, lex);
        assert Visits(text, i, r.value, lex);
      }
    }
  }

  /** The item ends as the first place where it can end says; it has no end when there is none. */
  lemma {:induction false} ItemExactly(text: string, i: nat, depth: nat, lex: Lex)
    requires i <= |text|
    ensures ItemFrom(text, i, depth, lex).Some? ==> exists j :: Stops(text, i, j, depth, lex)
    ensures forall j :: Stops(text, i, j, depth, lex) && (forall k :: Stops(text, i, k, depth, lex) ==> j <= k) ==>
              ItemFrom(text, i, depth, lex) == EndAt(text, j, lex)
  {
    StopExactly(text, i, depth, lex);
    ItemIsAtStop(text, i, depth, lex);
  }

  lemma LookIsStop(text: string, i: nat, depth: nat, lex: Lex)
    requires i < |text|
    ensures LookAt(text, i, depth, lex) ==
            if IsStop(text[i]) && depth == 0 then End(EndAt(text, i, lex))
            else On(Following(text, i, lex), depth + Weight(text, i))
    ensures !(IsStop(text[i]) && depth == 0) ==> depth + Weight(text, i) >= 0
  {
  }

  lemma {:induction false} ItemIsAtStop(text: string, i: nat, depth: nat, lex: Lex)
    requires i <= |text|
    ensures var stop := StopFrom(text, i, depth, lex);
            ItemFrom(text, i, depth, lex) == if stop.None? then None else EndAt(text, stop.value, lex)
    decreases |text| - i
  {
    if i < |text| {
      LookIsStop(text, i, depth, lex);
      if !(IsStop(text[i]) && depth == 0) {
        ItemIsAtStop(text, Following(text, i, lex), depth + Weight(text, i), lex);
      }
    }
  }

  ghost function ItemExtent(text: string, i: nat, p: Patterns, lex: Lex): (r: Option<nat>)
    requires IsPatterns(p) && i <= |text|
    ensures r.Some? ==> i < r.value <= |text|
  {
    var start := AttributesEnd(text, i, p, lex);
    if p.item(text, start) then ItemFrom(text, start, 0, lex) else None
  }

  method LookOnce(text: string, i: nat, depth: int, alnum: Alnum) returns (r: Look)
    requires i < |text|
    ensures r == LookAt(text, i, depth, Check(alnum))
  {
    var end := SkipLiteral(text, i, alnum);
    if end.Some? {
      LiteralIsNoSemicolon(text, i, Check(alnum));
      return On(end.value, depth);
    }
    if text[i] == '{' && depth == 0 {
      var close := MatchingClose(text, i, alnum);
      return End(if close.None? then None else Some(close.value + 1));
    }
    if IsOpen(text[i]) {
      return On(i + 1, depth + 1);
    }
    if IsClose(text[i]) {
      return if depth - 1 < 0 then End(None) else On(i + 1, depth - 1);
    }
    if text[i] == ';' && depth == 0 {
      return End(Some(i + 1));
    }
    return On(i + 1, depth);
  }

  method ItemBodyEnd(text: string, first: nat, alnum: Alnum) returns (r: Option<nat>)
    requires first <= |text|
    ensures r == ItemFrom(text, first, 0, Check(alnum))
  {
    var i, depth := first, 0;
    while i < |text|
      invariant first <= i <= |text|
      invariant ItemFrom(text, first, 0, Check(alnum)) == ItemFrom(text, i, depth, Check(alnum))
      decreases |text| - i
    {
      var look := LookOnce(text, i, depth, alnum);
      if look.End? {
        return look.found;
      }
      i, depth := look.next, look.depth;
    }
    return None;
  }

  method ItemEnd(text: string, start: nat, p: Patterns) returns (r: Option<nat>)
    requires IsPatterns(p) && start <= |text|
    ensures r == ItemExtent(text, start, p, Check(p.alnum))
  {
    var i := SkipAttributes(text, start, p);
    if !p.item(text, i) {
      return None;
    }
    r := ItemBodyEnd(text, i, p.alnum);
  }

  lemma LiteralIsNoSemicolon(text: string, i: nat, lex: Lex)
    requires i < |text| && LiteralIn(text, i, lex).Some?
    ensures text[i] != ';'
  {
  }

  // ---------- where the two scans agree ----------

  /** Before a string, `c` is an ordinary character to the check, and the string follows it. */
  lemma CBeforeString(text: string, i: nat, alnum: Alnum)
    requires i < |text| && !IsRawC(text, i, alnum) && CStringEnd(text, i, alnum).Some?
    ensures i + 1 < |text| && LiteralIn(text, i, Check(alnum)).None?
    ensures LiteralIn(text, i + 1, Check(alnum)) == CStringEnd(text, i, alnum) == LiteralIn(text, i, Rust(alnum))
    ensures !IsStop(text[i]) && !IsStop(text[i + 1]) && Weight(text, i) == 0 && Weight(text, i + 1) == 0
  {
  }

  lemma {:induction false} CloseAgrees(text: string, i: nat, depth: int, alnum: Alnum)
    requires HasNoRawC(text, alnum) && i <= |text|
    ensures CloseFrom(text, i, depth, Check(alnum)) == CloseFrom(text, i, depth, Rust(alnum))
    decreases |text| - i
  {
    if i < |text| {
      if CStringEnd(text, i, alnum).Some? {
        CloseThroughC(text, i, depth, alnum);
        CloseAgrees(text, CStringEnd(text, i, alnum).value, depth, alnum);
      } else {
        var literal := LiteralEnd(text, i, alnum);
        CloseAgrees(text, if literal.Some? then literal.value else i + 1,
                    if literal.Some? then depth else depth + Weight(text, i), alnum);
        CloseElsewhere(text, i, depth, alnum);
      }
    }
  }

  lemma CloseElsewhere(text: string, i: nat, depth: int, alnum: Alnum)
    requires i < |text| && CStringEnd(text, i, alnum).None?
    requires var literal := LiteralEnd(text, i, alnum);
             var next := if literal.Some? then literal.value else i + 1;
             var gained := if literal.Some? then depth else depth + Weight(text, i);
             CloseFrom(text, next, gained, Check(alnum)) == CloseFrom(text, next, gained, Rust(alnum))
    ensures CloseFrom(text, i, depth, Check(alnum)) == CloseFrom(text, i, depth, Rust(alnum))
  {
    LiteralsAgreeExactly(text, i, alnum);
    CloseStep(text, i, depth, Check(alnum));
    CloseStep(text, i, depth, Rust(alnum));
  }

  lemma CloseThroughC(text: string, i: nat, depth: int, alnum: Alnum)
    requires i < |text| && !IsRawC(text, i, alnum) && CStringEnd(text, i, alnum).Some?
    ensures var end := CStringEnd(text, i, alnum).value;
            && CloseFrom(text, i, depth, Check(alnum)) == CloseFrom(text, end, depth, Check(alnum))
            && CloseFrom(text, i, depth, Rust(alnum)) == CloseFrom(text, end, depth, Rust(alnum))
  {
    CBeforeString(text, i, alnum);
    CloseStep(text, i, depth, Check(alnum));
    CloseStep(text, i + 1, depth, Check(alnum));
    CloseStep(text, i, depth, Rust(alnum));
  }

  lemma LookStep(text: string, i: nat, depth: int, lex: Lex)
    requires i < |text| && !IsStop(text[i]) && Weight(text, i) == 0
    ensures ItemFrom(text, i, depth, lex) == ItemFrom(text, Following(text, i, lex), depth, lex)
  {
    assert LookAt(text, i, depth, lex) == On(Following(text, i, lex), depth);
  }

  lemma {:induction false} ItemAgrees(text: string, i: nat, depth: int, alnum: Alnum)
    requires HasNoRawC(text, alnum) && i <= |text|
    ensures ItemFrom(text, i, depth, Check(alnum)) == ItemFrom(text, i, depth, Rust(alnum))
    decreases |text| - i
  {
    if i < |text| {
      if CStringEnd(text, i, alnum).Some? {
        CBeforeString(text, i, alnum);
        ItemAgrees(text, CStringEnd(text, i, alnum).value, depth, alnum);
        LookStep(text, i, depth, Check(alnum));
        LookStep(text, i + 1, depth, Check(alnum));
        LookStep(text, i, depth, Rust(alnum));
      } else {
        LooksAgree(text, i, depth, alnum);
        var look := LookAt(text, i, depth, Check(alnum));
        if look.On? {
          ItemAgrees(text, look.next, look.depth, alnum);
        }
      }
    }
  }

  lemma LooksAgree(text: string, i: nat, depth: int, alnum: Alnum)
    requires HasNoRawC(text, alnum) && i < |text| && CStringEnd(text, i, alnum).None?
    ensures LookAt(text, i, depth, Check(alnum)) == LookAt(text, i, depth, Rust(alnum))
  {
    LiteralsAgreeExactly(text, i, alnum);
    CloseAgrees(text, i, 0, alnum);
  }

  lemma {:induction false} AttributesAgree(text: string, i: nat, p: Patterns)
    requires IsPatterns(p) && HasNoRawC(text, p.alnum) && i <= |text|
    ensures AttributesEnd(text, i, p, Check(p.alnum)) == AttributesEnd(text, i, p, Rust(p.alnum))
    decreases |text| - i
  {
    AttributeAgrees(text, i, p);
    var skipped := AttributeAt(text, i, p, Check(p.alnum));
    if skipped.Past? {
      AttributesAgree(text, skipped.next, p);
    }
  }

  lemma AttributeAgrees(text: string, i: nat, p: Patterns)
    requires IsPatterns(p) && HasNoRawC(text, p.alnum) && i <= |text|
    ensures AttributeAt(text, i, p, Check(p.alnum)) == AttributeAt(text, i, p, Rust(p.alnum))
  {
    var m := p.attribute(text, i);
    if m.Some? {
      CloseAgrees(text, m.value - 1, 0, p.alnum);
    }
  }

  /** In a text without raw C strings the check finds the extents that Rust's literals give. */
  lemma {:induction false} ExtentsAgree(text: string, i: nat, p: Patterns)
    requires IsPatterns(p) && HasNoRawC(text, p.alnum) && i <= |text|
    ensures ItemExtent(text, i, p, Check(p.alnum)) == ItemExtent(text, i, p, Rust(p.alnum))
  {
    AttributesAgree(text, i, p);
    ItemAgrees(text, AttributesEnd(text, i, p, Check(p.alnum)), 0, p.alnum);
  }

  /** And it visits the same positions, but for the quotes of C strings. */
  lemma {:induction false} VisitsAgree(text: string, i: nat, k: nat, alnum: Alnum)
    requires HasNoRawC(text, alnum) && i <= |text| && k < |text| && text[k] != '"'
    ensures Visits(text, i, k, Check(alnum)) <==> Visits(text, i, k, Rust(alnum))
    decreases |text| - i
  {
    if i < |text| && i != k {
      if CStringEnd(text, i, alnum).Some? {
        CBeforeString(text, i, alnum);
        var end := CStringEnd(text, i, alnum).value;
        assert text[i + 1] == '"';
        assert Following(text, i, Check(alnum)) == i + 1 && Following(text, i + 1, Check(alnum)) == end;
        assert Following(text, i, Rust(alnum)) == end;
        VisitsAgree(text, end, k, alnum);
      } else {
        LiteralsAgreeExactly(text, i, alnum);
        VisitsAgree(text, Following(text, i, Check(alnum)), k, alnum);
      }
    }
  }

  // ---------- what is blanked ----------

  /** The whole file, for the inner attribute at `start`, or ranges of it. */
  datatype Plan = Whole(start: nat) | Ranges(ranges: seq<(nat, nat)>)

  /** The predicate between the parentheses needs the feature. */
  ghost predicate Requires(inside: string, p: Patterns, feature: string) {
    match p.tokens(inside)
    case None => false
    case Some(ts) => From(ts).Read? && From(ts).rest == [] && Needs(From(ts).value, feature)
  }

  /** A `cfg` attribute read to its end: the parenthesis that closes its predicate, and the index after its `]`. */
  datatype Extent = Extent(close: nat, end: nat)

  ghost function AttributeExtent(text: string, m: Attribute, p: Patterns, lex: Lex): (r: Option<Extent>)
    requires IsPatterns(p) && m.start < m.end <= |text| && text[m.end - 1] == '('
    ensures r.Some? ==> m.end <= r.value.close < r.value.end <= |text|
  {
    var close := CloseFrom(text, m.end - 1, 0, lex);
    if close.None? then None
    else
      var end := p.closing(text, close.value + 1);
      if end.None? then None else Some(Extent(close.value, end.value))
  }

  function Add(range: (nat, nat), plan: Plan): Plan {
    if plan.Whole? then plan else Ranges([range] + plan.ranges)
  }

  /** What one attribute leads to: the next search position, and what to blank first. */
  datatype Step = Step(pos: nat, whole: bool, start: nat)

  ghost function StepAt(text: string, m: Attribute, p: Patterns, feature: string): (r: Step)
    requires IsPatterns(p) && m.start < m.end <= |text| && text[m.end - 1] == '('
    ensures m.end <= r.pos <= |text| && m.start <= r.start <= r.pos
  {
    var extent := AttributeExtent(text, m, p, Check(p.alnum));
    if extent.None? then Step(m.end, false, m.end)
    else
      var end := extent.value.end;
      if !Requires(text[m.end..extent.value.close], p, feature) then Step(end, false, end)
      else GuardStep(text, m, end, p)
  }

  /** What an attribute that needs the feature and ends at `end` leads to. */
  ghost function GuardStep(text: string, m: Attribute, end: nat, p: Patterns): (r: Step)
    requires IsPatterns(p) && m.start < m.end <= end <= |text|
    ensures end <= r.pos <= |text| && m.start <= r.start <= r.pos
  {
    if m.inner then
      if AttributesEnd(text, 0, p, Check(p.alnum)) >= end then Step(end, true, m.start) else Step(end, false, end)
    else
      var item := ItemExtent(text, end, p, Check(p.alnum));
      if item.None? then Step(end, false, end) else Step(item.value, false, m.start)
  }

  /** What the next attribute from `pos` on leads to. */
  ghost function NextStep(text: string, pos: nat, p: Patterns, feature: string): (r: Option<Step>)
    requires IsPatterns(p) && pos <= |text|
    ensures r.Some? ==> pos < r.value.pos <= |text| && pos <= r.value.start <= r.value.pos
  {
    var m := p.cfg(text, pos);
    if m.None? then None else Some(StepAt(text, m.value, p, feature))
  }

  ghost function PlanFrom(text: string, pos: nat, p: Patterns, feature: string): Plan
    requires IsPatterns(p) && pos <= |text|
    decreases |text| - pos
  {
    match NextStep(text, pos, p, feature)
    case None => Ranges([])
    case Some(s) =>
      if s.whole then Whole(s.start)
      else
        var rest := PlanFrom(text, s.pos, p, feature);
        if s.start < s.pos then Add((s.start, s.pos), rest) else rest
  }

  predicate Within(ranges: seq<(nat, nat)>, k: int) {
    exists r :: 0 <= r < |ranges| && ranges[r].0 <= k < ranges[r].1
  }

  /** The text with the planned characters blanked, newlines kept. */
  function Painted(text: string, plan: Plan): (out: string)
    ensures |out| == |text|
    ensures forall k :: 0 <= k < |text| ==>
              out[k] == if (plan.Whole? || Within(plan.ranges, k)) && text[k] != '\n' then ' ' else text[k]
  {
    seq(|text|, k requires 0 <= k < |text| =>
      if (plan.Whole? || Within(plan.ranges, k)) && text[k] != '\n' then ' ' else text[k])
  }

  /** The predicate parses to its end and is false in every compilation without the feature. */
  ghost predicate CompiledAway(inside: string, p: Patterns, feature: string) {
    && p.tokens(inside).Some?
    && From(p.tokens(inside).value).Read? && From(p.tokens(inside).value).rest == []
    && FalseWithout(From(p.tokens(inside).value).value, feature)
  }

  /** The search from `pos` finds an attribute at `start` whose predicate is compiled away. */
  ghost predicate CfgAt(text: string, pos: nat, start: nat, p: Patterns, feature: string)
    requires IsPatterns(p)
  {
    && pos <= |text| && p.cfg(text, pos).Some? && p.cfg(text, pos).value.start == start
    && var m := p.cfg(text, pos).value;
       var extent := AttributeExtent(text, m, p, Rust(p.alnum));
       extent.Some? && CompiledAway(text[m.end..extent.value.close], p, feature)
  }

  /** The range is an item with its attributes, from such an attribute on. */
  ghost predicate ItemAt(text: string, pos: nat, range: (nat, nat), p: Patterns, feature: string)
    requires IsPatterns(p)
  {
    && CfgAt(text, pos, range.0, p, feature)
    && var m := p.cfg(text, pos).value;
       var end := AttributeExtent(text, m, p, Rust(p.alnum)).value.end;
       && !m.inner && p.rustItem(text, AttributesEnd(text, end, p, Rust(p.alnum)))
       && ItemExtent(text, end, p, Rust(p.alnum)) == Some(range.1)
  }

  /** Such an attribute is an inner one among the attributes that lead the file. */
  ghost predicate LeadsFile(text: string, pos: nat, start: nat, p: Patterns, feature: string)
    requires IsPatterns(p)
  {
    && CfgAt(text, pos, start, p, feature)
    && var m := p.cfg(text, pos).value;
       m.inner && AttributesEnd(text, 0, p, Rust(p.alnum)) >= AttributeExtent(text, m, p, Rust(p.alnum)).value.end
  }

  /** The range is an item after a `cfg` that is compiled away, wherever that stands. */
  ghost predicate IsItem(text: string, range: (nat, nat), p: Patterns, feature: string)
    requires IsPatterns(p)
  {
    exists pos: nat :: ItemAt(text, pos, range, p, feature)
  }

  /** `start` is a position of the code, outside every literal that Rust knows. */
  ghost predicate InCode(text: string, start: nat, p: Patterns) {
    Visits(text, 0, start, Rust(p.alnum))
  }

  /** An item whose own `cfg`, in the code, compiles it out. */
  ghost predicate IsGuardedItem(text: string, range: (nat, nat), p: Patterns, feature: string)
    requires IsPatterns(p)
  {
    InCode(text, range.0, p) && IsItem(text, range, p, feature)
  }

  /** An inner `cfg`, in the code at `start`, compiles the file out. */
  ghost predicate IsGuardedFile(text: string, start: nat, p: Patterns, feature: string)
    requires IsPatterns(p)
  {
    InCode(text, start, p) && exists pos: nat :: LeadsFile(text, pos, start, p, feature)
  }

  /** `k` lies in an item, or a file, that is compiled out. */
  ghost predicate GuardedAt(text: string, k: nat, p: Patterns, feature: string)
    requires IsPatterns(p)
  {
    || (exists start: nat :: IsGuardedFile(text, start, p, feature))
    || (exists range: (nat, nat) :: IsGuardedItem(text, range, p, feature) && range.0 <= k < range.1)
  }

  /** What the plan blanks are items, or the file, that are compiled out. */
  ghost predicate IsJustified(text: string, plan: Plan, p: Patterns, feature: string)
    requires IsPatterns(p)
  {
    match plan
    case Whole(start) => IsGuardedFile(text, start, p, feature)
    case Ranges(ranges) => forall range :: range in ranges ==> IsGuardedItem(text, range, p, feature)
  }

  /** Every attribute the plan acts on starts in the code. */
  ghost predicate ActsInCode(text: string, plan: Plan, p: Patterns) {
    match plan
    case Whole(start) => InCode(text, start, p)
    case Ranges(ranges) => forall range :: range in ranges ==> InCode(text, range.0, p)
  }

  /** Every range of the plan is such an item. */
  ghost predicate HasAttributes(text: string, plan: Plan, p: Patterns, feature: string)
    requires IsPatterns(p)
  {
    match plan
    case Whole(start) => exists pos: nat :: LeadsFile(text, pos, start, p, feature)
    case Ranges(ranges) => forall range :: range in ranges ==> IsItem(text, range, p, feature)
  }

  /** What the start pattern accepts behind a `cfg` of the text is an item. */
  ghost predicate StartsAreItems(text: string, p: Patterns)
    requires IsPatterns(p)
  {
    forall pos: nat :: pos <= |text| && p.cfg(text, pos).Some? ==> StandsOnItem(text, p.cfg(text, pos).value, p)
  }

  ghost predicate StandsOnItem(text: string, m: Attribute, p: Patterns)
    requires IsPatterns(p) && m.start < m.end <= |text| && text[m.end - 1] == '('
  {
    var extent := AttributeExtent(text, m, p, Rust(p.alnum));
    extent.Some? ==>
      var start := AttributesEnd(text, extent.value.end, p, Rust(p.alnum));
      p.item(text, start) ==> p.rustItem(text, start)
  }

  lemma StepHasAttribute(text: string, pos: nat, p: Patterns, feature: string)
    requires IsPatterns(p) && HasNoRawC(text, p.alnum) && StartsAreItems(text, p)
    requires pos <= |text| && NextStep(text, pos, p, feature).Some?
    ensures var s := NextStep(text, pos, p, feature).value;
            && (s.whole ==> LeadsFile(text, pos, s.start, p, feature))
            && (!s.whole && s.start < s.pos ==> ItemAt(text, pos, (s.start, s.pos), p, feature))
  {
    var m, s := p.cfg(text, pos).value, NextStep(text, pos, p, feature).value;
    if s.whole || s.start < s.pos {
      AttributeExtentAgrees(text, m, p);
      var extent := AttributeExtent(text, m, p, Rust(p.alnum)).value;
      AttributesAgree(text, 0, p);
      ExtentsAgree(text, extent.end, p);
      assert StandsOnItem(text, m, p);
      NeedsExactly(From(p.tokens(text[m.end..extent.close]).value).value, feature);
    }
  }

  lemma AttributeExtentAgrees(text: string, m: Attribute, p: Patterns)
    requires IsPatterns(p) && HasNoRawC(text, p.alnum) && m.start < m.end <= |text| && text[m.end - 1] == '('
    ensures AttributeExtent(text, m, p, Check(p.alnum)) == AttributeExtent(text, m, p, Rust(p.alnum))
  {
    CloseAgrees(text, m.end - 1, 0, p.alnum);
    ExtentByClose(text, m, p, Check(p.alnum), Rust(p.alnum));
  }

  lemma ExtentByClose(text: string, m: Attribute, p: Patterns, a: Lex, b: Lex)
    requires IsPatterns(p) && m.start < m.end <= |text| && text[m.end - 1] == '('
    requires CloseFrom(text, m.end - 1, 0, a) == CloseFrom(text, m.end - 1, 0, b)
    ensures AttributeExtent(text, m, p, a) == AttributeExtent(text, m, p, b)
  {
  }

  lemma {:induction false} PlanHasAttributes(text: string, pos: nat, p: Patterns, feature: string)
    requires IsPatterns(p) && HasNoRawC(text, p.alnum) && StartsAreItems(text, p) && pos <= |text|
    ensures HasAttributes(text, PlanFrom(text, pos, p, feature), p, feature)
    decreases |text| - pos
  {
    if NextStep(text, pos, p, feature).Some? {
      var s := NextStep(text, pos, p, feature).value;
      StepHasAttribute(text, pos, p, feature);
      if !s.whole {
        PlanHasAttributes(text, s.pos, p, feature);
        if s.start < s.pos {
          assert IsItem(text, (s.start, s.pos), p, feature);
          AddHasAttributes(text, (s.start, s.pos), PlanFrom(text, s.pos, p, feature), p, feature);
        }
      }
    }
  }

  lemma AddHasAttributes(text: string, range: (nat, nat), plan: Plan, p: Patterns, feature: string)
    requires IsPatterns(p) && IsItem(text, range, p, feature) && HasAttributes(text, plan, p, feature)
    ensures HasAttributes(text, Add(range, plan), p, feature)
  {
    if plan.Ranges? {
      forall other | other in Add(range, plan).ranges ensures IsItem(text, other, p, feature) {
        assert other == range || other in plan.ranges;
      }
    }
  }

  /** Only what is compiled out is blanked, as Rust's own literals delimit it,
      when the text has no raw C string, what the start pattern accepts
      behind a `cfg` are items, and every attribute acted on starts in the code. */
  lemma {:induction false} BlankingSound(text: string, p: Patterns, feature: string)
    requires IsPatterns(p) && HasNoRawC(text, p.alnum) && StartsAreItems(text, p)
    requires ActsInCode(text, PlanFrom(text, 0, p, feature), p)
    ensures IsJustified(text, PlanFrom(text, 0, p, feature), p, feature)
  {
    var plan := PlanFrom(text, 0, p, feature);
    PlanHasAttributes(text, 0, p, feature);
    if plan.Ranges? {
      forall range | range in plan.ranges ensures IsGuardedItem(text, range, p, feature) {
        assert IsItem(text, range, p, feature);
      }
    }
  }

  /** A text on which this can be read off: no raw C string, no `cfg` inside a
      literal, and none on what only starts like an item. */
  ghost predicate IsClear(text: string, p: Patterns)
    requires IsPatterns(p)
  {
    && HasNoRawC(text, p.alnum) && StartsAreItems(text, p)
    && forall pos: nat :: pos <= |text| && p.cfg(text, pos).Some? ==> InCode(text, p.cfg(text, pos).value.start, p)
  }

  lemma {:induction false} ClearActsInCode(text: string, pos: nat, p: Patterns, feature: string)
    requires IsPatterns(p) && IsClear(text, p) && pos <= |text|
    ensures ActsInCode(text, PlanFrom(text, pos, p, feature), p)
    decreases |text| - pos
  {
    if NextStep(text, pos, p, feature).Some? {
      var s := NextStep(text, pos, p, feature).value;
      assert s.whole || s.start < s.pos ==> s.start == p.cfg(text, pos).value.start;
      if !s.whole {
        var rest := PlanFrom(text, s.pos, p, feature);
        ClearActsInCode(text, s.pos, p, feature);
        if rest.Ranges? && s.start < s.pos {
          forall range | range in Add((s.start, s.pos), rest).ranges ensures InCode(text, range.0, p) {
            assert range == (s.start, s.pos) || range in rest.ranges;
          }
        }
      }
    }
  }

  /** In a clear text every planned character lies in an item, or a file, that is compiled out. */
  lemma {:induction false} PlanIsGuarded(text: string, p: Patterns, feature: string, k: nat)
    requires IsPatterns(p) && IsClear(text, p)
    requires var plan := PlanFrom(text, 0, p, feature); plan.Whole? || Within(plan.ranges, k)
    ensures GuardedAt(text, k, p, feature)
  {
    var plan := PlanFrom(text, 0, p, feature);
    ClearActsInCode(text, 0, p, feature);
    BlankingSound(text, p, feature);
    if plan.Ranges? {
      var r :| 0 <= r < |plan.ranges| && plan.ranges[r].0 <= k < plan.ranges[r].1;
      assert IsGuardedItem(text, plan.ranges[r], p, feature);
    }
  }

  /** The planned ranges follow each other. */
  ghost predicate Ascending(ranges: seq<(nat, nat)>, from: nat, to: nat) {
    && (forall r :: 0 <= r < |ranges| ==> from <= ranges[r].0 < ranges[r].1 <= to)
    && (forall q, r :: 0 <= q < r < |ranges| ==> ranges[q].1 <= ranges[r].0)
  }

  lemma {:induction false} PlanAscends(text: string, pos: nat, p: Patterns, feature: string)
    requires IsPatterns(p) && pos <= |text|
    ensures var plan := PlanFrom(text, pos, p, feature); plan.Whole? || Ascending(plan.ranges, pos, |text|)
    decreases |text| - pos
  {
    if NextStep(text, pos, p, feature).Some? {
      var s := NextStep(text, pos, p, feature).value;
      PlanAscends(text, s.pos, p, feature);
      AddAscends(s.start, s.pos, PlanFrom(text, s.pos, p, feature), pos, |text|);
    }
  }

  lemma AddAscends(start: nat, end: nat, plan: Plan, from: nat, to: nat)
    requires from <= start <= end <= to && (plan.Whole? || Ascending(plan.ranges, end, to))
    ensures plan.Whole? || (Ascending(plan.ranges, from, to) && (start < end ==> Ascending(Add((start, end), plan).ranges, from, to)))
  {
    if plan.Ranges? && start < end {
      var ranges := [(start, end)] + plan.ranges;
      assert forall r :: 1 <= r < |ranges| ==> ranges[r] == plan.ranges[r - 1];
    }
  }

  // ---------- the blanking as it runs ----------

  method RequiresFeature(inside: string, p: Patterns, feature: string) returns (r: bool)
    ensures r <==> Requires(inside, p, feature)
  {
    var tokens := p.tokens(inside);
    if tokens.None? {
      return false;
    }
    r := CfgRequires(tokens.value, feature);
  }

  method BlankRange(out: array<char>, start: nat, end: nat)
    requires start <= end <= out.Length
    modifies out
    ensures forall k :: 0 <= k < out.Length ==>
              out[k] == if start <= k < end && old(out[k]) != '\n' then ' ' else old(out[k])
  {
    for i := start to end
      invariant forall k :: 0 <= k < out.Length ==>
                  out[k] == if start <= k < i && old(out[k]) != '\n' then ' ' else old(out[k])
    {
      if out[i] != '\n' {
        out[i] := ' ';
      }
    }
  }

  method ReadExtent(text: string, m: Attribute, p: Patterns) returns (r: Option<Extent>)
    requires IsPatterns(p) && m.start < m.end <= |text| && text[m.end - 1] == '('
    ensures r == AttributeExtent(text, m, p, Check(p.alnum))
  {
    var close := MatchingClose(text, m.end - 1, p.alnum);
    if close.None? {
      return None;
    }
    var end := p.closing(text, close.value + 1);
    return if end.None? then None else Some(Extent(close.value, end.value));
  }

  method ReadAttribute(text: string, m: Attribute, p: Patterns, feature: string) returns (s: Step)
    requires IsPatterns(p) && m.start < m.end <= |text| && text[m.end - 1] == '('
    ensures s == StepAt(text, m, p, feature)
  {
    var extent := ReadExtent(text, m, p);
    if extent.None? {
      return Step(m.end, false, m.end);
    }
    var pos := extent.value.end;
    var needs := RequiresFeature(text[m.end..extent.value.close], p, feature);
    if !needs {
      return Step(pos, false, pos);
    }
    s := ReadGuarded(text, m, pos, p);
  }

  method ReadGuarded(text: string, m: Attribute, end: nat, p: Patterns) returns (s: Step)
    requires IsPatterns(p) && m.start < m.end <= end <= |text|
    ensures s == GuardStep(text, m, end, p)
  {
    if m.inner {
      var code := SkipAttributes(text, 0, p);
      return if code >= end then Step(end, true, m.start) else Step(end, false, end);
    }
    var item := ItemEnd(text, end, p);
    return if item.None? then Step(end, false, end) else Step(item.value, false, m.start);
  }

  method BlankCompiledOut(text: string, p: Patterns, feature: string) returns (r: string)
    requires IsPatterns(p)
    ensures r == Painted(text, PlanFrom(text, 0, p, feature))
    ensures |r| == |text| && forall k :: 0 <= k < |text| ==> r[k] == text[k] || (r[k] == ' ' && text[k] != '\n')
    ensures IsClear(text, p) ==>
              forall k :: 0 <= k < |text| && r[k] != text[k] ==> GuardedAt(text, k, p, feature)
  {
    ghost var plan := PlanFrom(text, 0, p, feature);
    if IsClear(text, p) {
      forall k: nat | plan.Whole? || Within(plan.ranges, k) ensures GuardedAt(text, k, p, feature) {
        PlanIsGuarded(text, p, feature, k);
      }
    }
    r := Paint(text, p, feature);
  }

  method PaintRange(out: array<char>, ghost text: string, ghost done: seq<(nat, nat)>, start: nat, end: nat)
    requires start <= end <= out.Length == |text| && out[..] == Painted(text, Ranges(done))
    modifies out
    ensures out[..] == Painted(text, Ranges(done + [(start, end)]))
  {
    ghost var before := out[..];
    BlankRange(out, start, end);
    PaintedMore(text, done, (start, end), out[..]);
  }

  method SearchNext(text: string, pos: nat, p: Patterns, feature: string) returns (r: Option<Step>)
    requires IsPatterns(p) && pos <= |text|
    ensures r == NextStep(text, pos, p, feature)
  {
    var m := p.cfg(text, pos);
    if m.None? {
      return None;
    }
    var s := ReadAttribute(text, m.value, p, feature);
    return Some(s);
  }

  method Copy(text: string) returns (out: array<char>)
    ensures fresh(out) && out.Length == |text| && out[..] == Painted(text, Ranges([]))
  {
    out := new char[|text|](k requires 0 <= k < |text| => text[k]);
    assert out[..] == Painted(text, Ranges([]));
  }

  method Paint(text: string, p: Patterns, feature: string) returns (r: string)
    requires IsPatterns(p)
    ensures r == Painted(text, PlanFrom(text, 0, p, feature))
  {
    var out := Copy(text);
    var pos := 0;
    ghost var done: seq<(nat, nat)> := [];
    JoinedNone(PlanFrom(text, 0, p, feature));
    var next := SearchNext(text, pos, p, feature);
    while next.Some?
      invariant pos <= |text| && next == NextStep(text, pos, p, feature)
      invariant fresh(out) && out.Length == |text| && out[..] == Painted(text, Ranges(done))
      invariant PlanFrom(text, 0, p, feature) == Joined(done, PlanFrom(text, pos, p, feature))
      decreases |text| - pos
    {
      var s := next.value;
      if s.whole {
        return Blank(text);
      }
      if s.start < s.pos {
        PaintRange(out, text, done, s.start, s.pos);
        JoinedMore(done, (s.start, s.pos), PlanFrom(text, s.pos, p, feature));
        done := done + [(s.start, s.pos)];
      }
      pos := s.pos;
      next := SearchNext(text, pos, p, feature);
    }
    assert done + [] == done;
    return out[..];
  }

  function Joined(done: seq<(nat, nat)>, plan: Plan): Plan {
    if plan.Whole? then plan else Ranges(done + plan.ranges)
  }

  lemma JoinedNone(plan: Plan)
    ensures Joined([], plan) == plan
  {
    assert plan.Ranges? ==> [] + plan.ranges == plan.ranges;
  }

  lemma JoinedMore(done: seq<(nat, nat)>, range: (nat, nat), plan: Plan)
    ensures Joined(done, Add(range, plan)) == Joined(done + [range], plan)
  {
    assert plan.Ranges? ==> done + ([range] + plan.ranges) == done + [range] + plan.ranges;
  }

  lemma PaintedMore(text: string, done: seq<(nat, nat)>, range: (nat, nat), out: string)
    requires |out| == |text|
    requires var before := Painted(text, Ranges(done));
             forall k :: 0 <= k < |text| ==>
               out[k] == if range.0 <= k < range.1 && before[k] != '\n' then ' ' else before[k]
    ensures out == Painted(text, Ranges(done + [range]))
  {
    forall k | 0 <= k < |text| ensures Within(done + [range], k) <==> Within(done, k) || range.0 <= k < range.1 {
      WithinMore(done, range, k);
    }
  }

  lemma WithinMore(done: seq<(nat, nat)>, range: (nat, nat), k: int)
    ensures Within(done + [range], k) <==> Within(done, k) || range.0 <= k < range.1
  {
    var more := done + [range];
    if Within(done, k) {
      var r :| 0 <= r < |done| && done[r].0 <= k < done[r].1;
      assert more[r] == done[r];
    }
    assert more[|done|] == range;
  }
}
