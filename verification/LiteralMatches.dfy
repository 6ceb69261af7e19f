/** Three source files in which the blanking hides code.  In the first the `cfg`
    it acts on stands in a raw string, and the item scan runs out of that
    string; in the second a raw C string makes the scan miss the item's end; in
    the third the `cfg` stands on a match arm that starts like an item. */
module LiteralMatches {
  import opened CfgPredicates
  import opened CommentStripping
  import opened CompiledOut
  import opened RustText
  import opened Text

  predicate IsCfg(text: string, k: nat) {
    && k + 6 <= |text| && text[k] == '#' && text[k + 1] == '[' && text[k + 2] == 'c' && text[k + 3] == 'f'
    && text[k + 4] == 'g' && text[k + 5] == '('
  }

  /** The first `#[cfg(` at or after `i`. */
  function FindCfg(text: string, i: nat): (r: Option<Attribute>)
    ensures r.Some? ==> i <= r.value.start && IsCfg(text, r.value.start) && r.value == Attribute(r.value.start, r.value.start + 6, false)
    ensures forall k :: i <= k && IsCfg(text, k) ==> r.Some? && r.value.start <= k
    decreases |text| - i
  {
    if i + 6 > |text| then None
    else if IsCfg(text, i) then Some(Attribute(i, i + 6, false))
    else FindCfg(text, i + 1)
  }

  const FEATURE: string := ['f', 'e', 'a', 't', 'u', 'r', 'e', '=', '"', 'x', '"']

  predicate IsMod(text: string, i: nat) {
    i + 3 < |text| && text[i] == 'm' && text[i + 1] == 'o' && text[i + 2] == 'd' && text[i + 3] == ' '
  }

  predicate IsStatic(text: string, i: nat) {
    && i + 6 < |text| && text[i] == 's' && text[i + 1] == 't' && text[i + 2] == 'a' && text[i + 3] == 't'
    && text[i + 4] == 'i' && text[i + 5] == 'c' && text[i + 6] == ' '
  }

  predicate IsCrate(text: string, i: nat) {
    && i + 5 < |text| && text[i] == 'c' && text[i + 1] == 'r' && text[i + 2] == 'a' && text[i + 3] == 't'
    && text[i + 4] == 'e' && text[i + 5] == ':'
  }

  /** The patterns without their white space, the item starts `mod`, `static` and
      `crate`, of which the first two are Rust's, and the tokens of one predicate. */
  const PATTERNS: Patterns := Patterns(
    (c: char) => 'a' <= c <= 'z' || 'A' <= c <= 'Z',
    (c: char) => c == ' ',
    (text: string, i: nat) => FindCfg(text, i),
    (text: string, i: nat) => if Pair(text, i, '#', '[') then Some(i + 2) else None,
    (text: string, i: nat) => if i < |text| && text[i] == ']' then Some(i + 1) else None,
    (text: string, i: nat) => IsMod(text, i) || IsStatic(text, i) || IsCrate(text, i),
    (text: string) => if text == FEATURE then Some([Name("feature"), Equals, Quoted("x")]) else None,
    (text: string, i: nat) => IsMod(text, i) || IsStatic(text, i))

  lemma PatternsArePatterns()
    ensures IsPatterns(PATTERNS)
  {
  }

  // ---------- the attribute ----------

  /** #[cfg(feature="x")] at `s`. */
  predicate HasCfg(text: string, s: nat) {
    && s + 19 <= |text| && IsCfg(text, s)
    && text[s + 6] == 'f' && text[s + 7] == 'e' && text[s + 8] == 'a' && text[s + 9] == 't' && text[s + 10] == 'u'
    && text[s + 11] == 'r' && text[s + 12] == 'e' && text[s + 13] == '=' && text[s + 14] == '"' && text[s + 15] == 'x'
    && text[s + 16] == '"' && text[s + 17] == ')' && text[s + 18] == ']'
  }

  /** Nothing a scan reacts to. */
  predicate IsIdle(text: string, k: nat, lex: Lex)
    requires k < |text|
  {
    LiteralIn(text, k, lex).None? && Weight(text, k) == 0 && !IsStop(text[k])
  }

  lemma PlainIsIdle(text: string, k: nat, lex: Lex)
    requires k < |text| && text[k] !in {'r', 'b', 'c', '"', '\''} && !IsOpen(text[k]) && !IsStop(text[k])
    ensures IsIdle(text, k, lex)
  {
  }

  lemma {:induction false} CloseRuns(text: string, i: nat, j: nat, depth: int, lex: Lex)
    requires i <= j <= |text| && forall k :: i <= k < j ==> IsIdle(text, k, lex)
    ensures CloseFrom(text, i, depth, lex) == CloseFrom(text, j, depth, lex)
    decreases j - i
  {
    if i < j {
      assert IsIdle(text, i, lex);
      CloseStep(text, i, depth, lex);
      CloseRuns(text, i + 1, j, depth, lex);
    }
  }

  lemma {:induction false} ItemRuns(text: string, i: nat, j: nat, lex: Lex)
    requires i <= j <= |text| && forall k :: i <= k < j ==> IsIdle(text, k, lex)
    ensures ItemFrom(text, i, 0, lex) == ItemFrom(text, j, 0, lex)
    decreases j - i
  {
    if i < j {
      assert IsIdle(text, i, lex);
      LookStep(text, i, 0, lex);
      ItemRuns(text, i + 1, j, lex);
    }
  }

  lemma WordIsIdle(text: string, s: nat, k: nat, lex: Lex)
    requires HasCfg(text, s) && s + 6 <= k < s + 14 && lex.alnum == PATTERNS.alnum
    ensures IsIdle(text, k, lex)
  {
    if k != s + 11 {
      PlainIsIdle(text, k, lex);
    }
  }

  lemma QuotedFeature(text: string, s: nat, lex: Lex)
    requires HasCfg(text, s)
    ensures LiteralIn(text, s + 14, lex) == Some(s + 17)
  {
    assert StringEnd(text, s + 16) == s + 16;
    assert StringEnd(text, s + 15) == s + 16;
  }

  lemma CfgCloses(text: string, s: nat, lex: Lex)
    requires HasCfg(text, s) && lex.alnum == PATTERNS.alnum
    ensures CloseFrom(text, s + 5, 0, lex) == Some(s + 17)
  {
    CloseStep(text, s + 5, 0, lex);
    forall k | s + 6 <= k < s + 14 ensures IsIdle(text, k, lex) {
      WordIsIdle(text, s, k, lex);
    }
    CloseRuns(text, s + 6, s + 14, 1, lex);
    QuotedFeature(text, s, lex);
    CloseStep(text, s + 14, 1, lex);
    CloseStep(text, s + 17, 1, lex);
  }

  lemma CfgIsRead(text: string, s: nat, lex: Lex)
    requires IsPatterns(PATTERNS) && HasCfg(text, s) && lex.alnum == PATTERNS.alnum
    ensures AttributeExtent(text, Attribute(s, s + 6, false), PATTERNS, lex) == Some(Extent(s + 17, s + 19))
  {
    CfgCloses(text, s, lex);
  }

  lemma CfgNeedsFeature(text: string, s: nat)
    requires HasCfg(text, s)
    ensures Requires(text[s + 6..s + 17], PATTERNS, "x")
  {
    assert text[s + 6..s + 17] == FEATURE;
    var ts := [Name("feature"), Equals, Quoted("x")];
    assert ts[3..] == [];
    assert From(ts) == Read(Value("feature", "x"), []);
  }

  /** The only attribute of the text is at `s`. */
  ghost predicate HasOneCfg(text: string, s: nat) {
    HasCfg(text, s) && forall k: nat :: IsCfg(text, k) ==> k == s
  }

  lemma OnlyMatch(text: string, s: nat, i: nat)
    requires HasOneCfg(text, s)
    ensures i <= s ==> PATTERNS.cfg(text, i) == Some(Attribute(s, s + 6, false))
    ensures i > s ==> PATTERNS.cfg(text, i).None?
    ensures PATTERNS.cfg(text, i).Some? ==> PATTERNS.cfg(text, i).value == Attribute(s, s + 6, false)
  {
    assert IsCfg(text, s);
  }

  /** The check blanks from the attribute to where its own scan ends the item. */
  lemma PlansItem(text: string, s: nat, end: nat)
    requires IsPatterns(PATTERNS) && HasOneCfg(text, s) && PATTERNS.item(text, s + 19)
    requires ItemFrom(text, s + 19, 0, Check(PATTERNS.alnum)) == Some(end)
    ensures PlanFrom(text, 0, PATTERNS, "x") == Ranges([(s, end)])
  {
    var m := Attribute(s, s + 6, false);
    OnlyMatch(text, s, 0);
    CfgIsRead(text, s, Check(PATTERNS.alnum));
    CfgNeedsFeature(text, s);
    ItemStarts(text, s + 19, Check(PATTERNS.alnum));
    assert StepAt(text, m, PATTERNS, "x") == Step(end, false, s);
    OnlyMatch(text, s, end);
    assert NextStep(text, end, PATTERNS, "x").None?;
    assert PlanFrom(text, end, PATTERNS, "x") == Ranges([]);
  }

  lemma ItemStarts(text: string, i: nat, lex: Lex)
    requires IsPatterns(PATTERNS) && PATTERNS.item(text, i)
    ensures i < |text| && AttributesEnd(text, i, PATTERNS, lex) == i
    ensures ItemExtent(text, i, PATTERNS, lex) == ItemFrom(text, i, 0, lex)
  {
    assert AttributesEnd(text, i, PATTERNS, lex) == i;
  }

  lemma Paints(text: string, s: nat, end: nat, k: nat)
    requires s <= k < end <= |text| && k < |text| && text[k] != '\n'
    ensures Painted(text, Ranges([(s, end)]))[k] == ' '
  {
    var ranges: seq<(nat, nat)> := [(s, end)];
    assert ranges[0].0 <= k < ranges[0].1;
    assert Within(ranges, k);
  }

  /** What the only attribute does not guard is not guarded. */
  lemma NotGuarded(text: string, s: nat, k: nat)
    requires IsPatterns(PATTERNS) && HasOneCfg(text, s)
    requires PATTERNS.item(text, s + 19) && s + 19 < |text|
    requires || !InCode(text, s, PATTERNS) || !PATTERNS.rustItem(text, s + 19)
             || (ItemFrom(text, s + 19, 0, Rust(PATTERNS.alnum)).Some? && ItemFrom(text, s + 19, 0, Rust(PATTERNS.alnum)).value <= k)
    ensures !GuardedAt(text, k, PATTERNS, "x")
  {
    forall start: nat ensures !IsGuardedFile(text, start, PATTERNS, "x") {
      forall pos: nat ensures !LeadsFile(text, pos, start, PATTERNS, "x") {
        OnlyMatch(text, s, pos);
      }
    }
    forall range: (nat, nat) | IsGuardedItem(text, range, PATTERNS, "x") ensures !(range.0 <= k < range.1) {
      var pos: nat :| ItemAt(text, pos, range, PATTERNS, "x");
      OnlyMatch(text, s, pos);
      CfgIsRead(text, s, Rust(PATTERNS.alnum));
      ItemStarts(text, s + 19, Rust(PATTERNS.alnum));
    }
  }

  // ---------- an attribute in a raw string ----------

  /** r#"#[cfg(feature="x")]mod a"#;'"';b; */
  predicate IsQuotedItem(text: string) {
    && |text| == 36 && text[0] == 'r' && text[1] == '#' && text[2] == '"' && HasCfg(text, 3)
    && text[22] == 'm' && text[23] == 'o' && text[24] == 'd' && text[25] == ' ' && text[26] == 'a' && text[27] == '"'
    && HasTail(text, 28) && text[28] == '#'
  }

  /** One more character, a semicolon, a quote as a character, and two statements' ends. */
  predicate HasTail(text: string, s: nat) {
    && s + 8 == |text| && text[s + 1] == ';' && text[s + 2] == '\'' && text[s + 3] == '"' && text[s + 4] == '\''
    && text[s + 5] == ';' && text[s + 6] == 'b' && text[s + 7] == ';'
  }

  lemma {:induction false} RawRuns(text: string, k: nat)
    requires IsQuotedItem(text) && 3 <= k <= 27
    ensures After(text, RawClose(1), k) == 29
    decreases 27 - k
  {
    assert RawClose(1) == ['"', '#'];
    assert text[k..k + 2] == [text[k], text[k + 1]];
    if k < 27 {
      RawRuns(text, k + 1);
    }
  }

  lemma QuotedItemIsLiteral(text: string)
    requires IsQuotedItem(text)
    ensures LiteralIn(text, 0, Rust(PATTERNS.alnum)) == Some(29)
  {
    assert HashesEnd(text, 2) == 2;
    assert HashesEnd(text, 1) == 2;
    RawRuns(text, 3);
  }

  lemma QuotedItemInLiteral(text: string)
    requires IsQuotedItem(text)
    ensures !InCode(text, 3, PATTERNS) && InCode(text, 29, PATTERNS)
  {
    QuotedItemIsLiteral(text);
    assert Following(text, 0, Rust(PATTERNS.alnum)) == 29;
    assert Visits(text, 29, 29, Rust(PATTERNS.alnum));
    if Visits(text, 29, 3, Rust(PATTERNS.alnum)) {
      VisitsOnward(text, 29, 3, Rust(PATTERNS.alnum));
    }
  }

  lemma StringBehind(text: string, q: nat, lex: Lex)
    requires q + 9 == |text| && text[q] == '"' && text[q + 1] != '\\' && text[q + 1] != '"' && HasTail(text, q + 1)
    ensures LiteralIn(text, q, lex) == Some(q + 5)
  {
    assert StringEnd(text, q + 4) == q + 4;
    assert StringEnd(text, q + 3) == q + 4;
    assert StringEnd(text, q + 2) == q + 4;
    assert StringEnd(text, q + 1) == q + 4;
  }

  /** After the quote of the character, the scan is back in what it takes for code, and stops. */
  lemma EndsBehind(text: string, s: nat, lex: Lex)
    requires HasTail(text, s)
    ensures ItemFrom(text, s + 4, 0, lex) == Some(s + 6)
  {
    assert IsIdle(text, s + 4, lex);
    ItemRuns(text, s + 4, s + 5, lex);
    assert LookAt(text, s + 5, 0, lex) == End(Some(s + 6));
  }

  lemma QuotedItemRunsOut(text: string)
    requires IsQuotedItem(text)
    ensures ItemFrom(text, 22, 0, Check(PATTERNS.alnum)) == Some(34)
  {
    var lex := Check(PATTERNS.alnum);
    forall k | 22 <= k < 27 ensures IsIdle(text, k, lex) {
      PlainIsIdle(text, k, lex);
    }
    ItemRuns(text, 22, 27, lex);
    StringBehind(text, 27, lex);
    LookStep(text, 27, 0, lex);
    EndsBehind(text, 28, lex);
  }

  lemma QuotedItemHasOneCfg(text: string)
    requires IsQuotedItem(text)
    ensures HasOneCfg(text, 3)
  {
    assert forall k: nat :: k < |text| && text[k] == '#' ==> k == 1 || k == 3 || k == 28;
  }

  /** The semicolon behind the string is code, is blanked, and is compiled out by nothing. */
  lemma CodeIsHidden(text: string)
    requires IsQuotedItem(text)
    ensures IsPatterns(PATTERNS)
    ensures InCode(text, 29, PATTERNS) && text[29] == ';'
    ensures Painted(text, PlanFrom(text, 0, PATTERNS, "x"))[29] == ' '
    ensures !GuardedAt(text, 29, PATTERNS, "x")
  {
    PatternsArePatterns();
    QuotedItemHasOneCfg(text);
    QuotedItemInLiteral(text);
    QuotedItemRunsOut(text);
    PlansItem(text, 3, 34);
    Paints(text, 3, 34, 29);
    NotGuarded(text, 3, 29);
  }

  // ---------- an item with a raw C string ----------

  /** #[cfg(feature="x")]static S:T=cr"\";'"';b; */
  predicate IsRawCItem(text: string) {
    && |text| == 42 && HasCfg(text, 0) && IsStatic(text, 19) && text[26] == 'S' && text[27] == ':' && text[28] == 'T'
    && text[29] == '=' && text[30] == 'c' && text[31] == 'r' && text[32] == '"' && text[33] == '\\' && text[34] == '"'
    && HasTail(text, 34)
  }

  lemma RawCIsLiteral(text: string)
    requires IsRawCItem(text)
    ensures LiteralIn(text, 30, Rust(PATTERNS.alnum)) == Some(35)
  {
    assert HashesEnd(text, 32) == 32;
    assert RawClose(0) == ['"'];
    assert text[33..34] == [text[33]] && text[34..35] == [text[34]];
    assert After(text, ['"'], 34) == 35;
    assert After(text, ['"'], 33) == 35;
  }

  lemma StaticIsIdle(text: string, k: nat, lex: Lex)
    requires IsRawCItem(text) && 19 <= k < 30 && lex.alnum == PATTERNS.alnum
    ensures IsIdle(text, k, lex)
  {
    if k != 24 {
      PlainIsIdle(text, k, lex);
    }
  }

  lemma StaticRuns(text: string, lex: Lex)
    requires IsRawCItem(text) && lex.alnum == PATTERNS.alnum
    ensures ItemFrom(text, 19, 0, lex) == ItemFrom(text, 30, 0, lex)
  {
    forall k | 19 <= k < 30 ensures IsIdle(text, k, lex) {
      StaticIsIdle(text, k, lex);
    }
    ItemRuns(text, 19, 30, lex);
  }

  /** Rust ends the item at its semicolon. */
  lemma RustEndsItem(text: string)
    requires IsRawCItem(text)
    ensures ItemFrom(text, 19, 0, Rust(PATTERNS.alnum)) == Some(36)
  {
    var lex := Rust(PATTERNS.alnum);
    StaticRuns(text, lex);
    RawCIsLiteral(text);
    LookStep(text, 30, 0, lex);
    assert LookAt(text, 35, 0, lex) == End(Some(36));
  }

  lemma EscapedQuote(text: string, lex: Lex)
    requires IsRawCItem(text)
    ensures LiteralIn(text, 32, lex) == Some(38)
  {
    assert StringEnd(text, 37) == 37;
    assert StringEnd(text, 36) == 37;
    assert StringEnd(text, 35) == 37;
    assert StringEnd(text, 33) == 37;
  }

  /** The check takes the backslash for an escape, and runs on. */
  lemma CheckRunsOn(text: string)
    requires IsRawCItem(text)
    ensures ItemFrom(text, 19, 0, Check(PATTERNS.alnum)) == Some(40)
  {
    var lex := Check(PATTERNS.alnum);
    StaticRuns(text, lex);
    assert IsIdle(text, 30, lex) && IsIdle(text, 31, lex);
    ItemRuns(text, 30, 32, lex);
    EscapedQuote(text, lex);
    LookStep(text, 32, 0, lex);
    EndsBehind(text, 34, lex);
  }

  lemma RawCItemHasOneCfg(text: string)
    requires IsRawCItem(text)
    ensures HasOneCfg(text, 0)
  {
    assert forall k: nat :: k < |text| && text[k] == '#' ==> k == 0;
  }

  /** The attribute stands in the code and on an item, and the character behind the
      item's end is blanked all the same, and compiled out by nothing. */
  lemma CodeBehindRawCIsHidden(text: string)
    requires IsRawCItem(text)
    ensures IsPatterns(PATTERNS) && !HasNoRawC(text, PATTERNS.alnum)
    ensures InCode(text, 0, PATTERNS) && text[36] == '\''
    ensures Painted(text, PlanFrom(text, 0, PATTERNS, "x"))[36] == ' '
    ensures !GuardedAt(text, 36, PATTERNS, "x")
  {
    PatternsArePatterns();
    RawCItemHasOneCfg(text);
    RawCIsThere(text);
    CheckRunsOn(text);
    PlansItem(text, 0, 40);
    Paints(text, 0, 40, 36);
    NotBehindItem(text);
  }

  lemma RawCIsThere(text: string)
    requires IsRawCItem(text)
    ensures !HasNoRawC(text, PATTERNS.alnum)
  {
    assert HashesEnd(text, 32) == 32;
    assert IsRawC(text, 30, PATTERNS.alnum);
  }

  lemma NotBehindItem(text: string)
    requires IsPatterns(PATTERNS) && IsRawCItem(text) && HasOneCfg(text, 0)
    ensures !GuardedAt(text, 36, PATTERNS, "x")
  {
    RustEndsItem(text);
    NotGuarded(text, 0, 36);
  }

  // ---------- a match arm that starts like an item ----------

  /** match k{#[cfg(feature="x")]crate::A=>1,crate::B=>{y}} */
  predicate IsArms(text: string) {
    |text| == 53 && IsMatch(text) && HasCfg(text, 8) && IsFirstArm(text) && IsSecondArm(text)
  }

  predicate IsMatch(text: string)
    requires |text| == 53
  {
    && text[0] == 'm' && text[1] == 'a' && text[2] == 't' && text[3] == 'c' && text[4] == 'h' && text[5] == ' '
    && text[6] == 'k' && text[7] == '{'
  }

  predicate IsFirstArm(text: string)
    requires |text| == 53
  {
    && IsCrate(text, 27) && text[33] == ':' && text[34] == 'A' && text[35] == '=' && text[36] == '>' && text[37] == '1'
    && text[38] == ','
  }

  predicate IsSecondArm(text: string)
    requires |text| == 53
  {
    && IsCrate(text, 39) && text[45] == ':' && text[46] == 'B' && text[47] == '=' && text[48] == '>' && text[49] == '{'
    && text[50] == 'y' && text[51] == '}' && text[52] == '}'
  }

  lemma ArmIsIdle(text: string, k: nat)
    requires IsArms(text) && 27 <= k < 49
    ensures IsIdle(text, k, Check(PATTERNS.alnum))
  {
    if k !in {27, 28, 39, 40} {
      PlainIsIdle(text, k, Check(PATTERNS.alnum));
    }
  }

  /** The scan runs over the arm to the block of the next one. */
  lemma ArmRunsOn(text: string)
    requires IsArms(text)
    ensures ItemFrom(text, 27, 0, Check(PATTERNS.alnum)) == Some(52)
  {
    var lex := Check(PATTERNS.alnum);
    forall k | 27 <= k < 49 ensures IsIdle(text, k, lex) {
      ArmIsIdle(text, k);
    }
    ItemRuns(text, 27, 49, lex);
    CloseStep(text, 49, 0, lex);
    CloseStep(text, 50, 1, lex);
    CloseStep(text, 51, 1, lex);
    assert LookAt(text, 49, 0, lex) == End(Some(52));
  }

  lemma ArmsHaveOneCfg(text: string)
    requires IsArms(text)
    ensures HasOneCfg(text, 8)
  {
    assert forall k: nat :: k < |text| && text[k] == '#' ==> k == 8;
  }

  /** The block of the next arm is blanked, and compiled out by nothing. */
  lemma NextArmIsHidden(text: string)
    requires IsArms(text)
    ensures IsPatterns(PATTERNS) && !StartsAreItems(text, PATTERNS)
    ensures text[50] == 'y' && Painted(text, PlanFrom(text, 0, PATTERNS, "x"))[50] == ' '
    ensures !GuardedAt(text, 50, PATTERNS, "x")
  {
    PatternsArePatterns();
    ArmsHaveOneCfg(text);
    NextArmIsPainted(text);
    NextArmIsUnguarded(text);
    ArmIsNoItem(text);
  }

  lemma NextArmIsUnguarded(text: string)
    requires IsPatterns(PATTERNS) && IsArms(text) && HasOneCfg(text, 8)
    ensures !GuardedAt(text, 50, PATTERNS, "x")
  {
    assert !IsMod(text, 27) && !IsStatic(text, 27) && IsCrate(text, 27);
    NotGuarded(text, 8, 50);
  }

  lemma NextArmIsPainted(text: string)
    requires IsPatterns(PATTERNS) && IsArms(text) && HasOneCfg(text, 8)
    ensures Painted(text, PlanFrom(text, 0, PATTERNS, "x"))[50] == ' '
  {
    ArmRunsOn(text);
    PlansItem(text, 8, 52);
    Paints(text, 8, 52, 50);
  }

  lemma ArmIsNoItem(text: string)
    requires IsPatterns(PATTERNS) && IsArms(text) && HasOneCfg(text, 8)
    ensures !StartsAreItems(text, PATTERNS)
  {
    OnlyMatch(text, 8, 0);
    CfgIsRead(text, 8, Rust(PATTERNS.alnum));
    ItemStarts(text, 27, Rust(PATTERNS.alnum));
    assert !StandsOnItem(text, PATTERNS.cfg(text, 0).value, PATTERNS);
  }

  // ---------- the three files exist ----------

  const CFG: string := ['#', '[', 'c', 'f', 'g', '('] + FEATURE + [')', ']']
  const TAIL: string := [';', '\'', '"', '\'', ';', 'b', ';']

  lemma CfgIsWritten(before: string, after: string)
    ensures HasCfg(before + CFG + after, |before|)
  {
    var text, s := before + CFG + after, |before|;
    assert |CFG| == 19;
    assert forall k :: 0 <= k < 19 ==> text[s + k] == CFG[k];
    assert forall k :: 0 <= k < 11 ==> CFG[6 + k] == FEATURE[k];
  }

  lemma TailIsWritten(before: string)
    requires before != ""
    ensures HasTail(before + TAIL, |before| - 1)
  {
    var text, s := before + TAIL, |before|;
    assert forall k :: 0 <= k < 7 ==> text[s + k] == TAIL[k];
  }

  lemma QuotedItemExists()
    ensures IsQuotedItem(['r', '#', '"'] + CFG + ['m', 'o', 'd', ' ', 'a', '"', '#'] + TAIL)
  {
    var front, back := ['r', '#', '"'], ['m', 'o', 'd', ' ', 'a', '"', '#'];
    var text := front + CFG + back + TAIL;
    assert |CFG| == 19;
    assert text == front + CFG + (back + TAIL);
    CfgIsWritten(front, back + TAIL);
    TailIsWritten(front + CFG + back);
    assert forall k :: 0 <= k < 7 ==> text[22 + k] == back[k];
    assert forall k :: 0 <= k < 3 ==> text[k] == front[k];
  }

  const STATIC: string := ['s', 't', 'a', 't', 'i', 'c', ' ', 'S', ':', 'T', '=']
  const RAW_C: string := ['c', 'r', '"', '\\', '"']

  lemma RawCItemExists()
    ensures IsRawCItem(CFG + STATIC + RAW_C + TAIL)
  {
    var text, rest := CFG + STATIC + RAW_C + TAIL, STATIC + RAW_C + TAIL;
    assert |CFG| == 19 && |STATIC| == 11 && |RAW_C| == 5;
    assert text == [] + CFG + rest;
    CfgIsWritten([], rest);
    TailIsWritten(CFG + STATIC + RAW_C);
    StaticIsWritten(CFG, RAW_C + TAIL);
    assert text == CFG + STATIC + (RAW_C + TAIL);
    assert forall k :: 0 <= k < 5 ==> text[30 + k] == RAW_C[k];
  }

  lemma StaticIsWritten(before: string, after: string)
    ensures var text, s := before + STATIC + after, |before|;
            && s + 11 <= |text| && IsStatic(text, s)
            && text[s + 7] == 'S' && text[s + 8] == ':' && text[s + 9] == 'T' && text[s + 10] == '='
  {
    var text, s := before + STATIC + after, |before|;
    assert forall k :: 0 <= k < 11 ==> text[s + k] == STATIC[k];
  }

  const ARM: string := ['c', 'r', 'a', 't', 'e', ':', ':']

  lemma CrateIsWritten(before: string, after: string)
    ensures var text, s := before + ARM + after, |before|; IsCrate(text, s) && s + 6 < |text| && text[s + 6] == ':'
  {
    var text, s := before + ARM + after, |before|;
    assert forall k :: 0 <= k < 7 ==> text[s + k] == ARM[k];
  }

  lemma PieceIsWritten(before: string, piece: string, after: string)
    ensures forall k :: 0 <= k < |piece| ==> (before + piece + after)[|before| + k] == piece[k]
  {
  }

  const MATCH: string := ['m', 'a', 't', 'c', 'h', ' ', 'k', '{']
  const FIRST: string := ['A', '=', '>', '1', ',']
  const SECOND: string := ['B', '=', '>', '{', 'y', '}', '}']

  lemma ArmsExist()
    ensures IsArms(MATCH + CFG + ARM + FIRST + ARM + SECOND)
  {
    var text := MATCH + CFG + ARM + FIRST + ARM + SECOND;
    assert |CFG| == 19 && |text| == 53;
    MatchIsWritten(text);
    FirstArmIsWritten(text);
    SecondArmIsWritten(text);
    assert text == MATCH + CFG + (ARM + FIRST + ARM + SECOND);
    CfgIsWritten(MATCH, ARM + FIRST + ARM + SECOND);
  }

  lemma MatchIsWritten(text: string)
    requires text == MATCH + CFG + ARM + FIRST + ARM + SECOND && |text| == 53
    ensures IsMatch(text)
  {
    assert text == [] + MATCH + (CFG + ARM + FIRST + ARM + SECOND);
    PieceIsWritten([], MATCH, CFG + ARM + FIRST + ARM + SECOND);
  }

  lemma FirstArmIsWritten(text: string)
    requires text == MATCH + CFG + ARM + FIRST + ARM + SECOND && |text| == 53
    ensures IsFirstArm(text)
  {
    var before := MATCH + CFG;
    assert |before| == 27;
    assert text == before + ARM + (FIRST + ARM + SECOND);
    CrateIsWritten(before, FIRST + ARM + SECOND);
    assert text == (before + ARM) + FIRST + (ARM + SECOND);
    PieceIsWritten(before + ARM, FIRST, ARM + SECOND);
  }

  lemma SecondArmIsWritten(text: string)
    requires text == MATCH + CFG + ARM + FIRST + ARM + SECOND && |text| == 53
    ensures IsSecondArm(text)
  {
    var before := MATCH + CFG + ARM + FIRST;
    assert |before| == 39;
    CrateIsWritten(before, SECOND);
    assert text == (before + ARM) + SECOND + [];
    PieceIsWritten(before + ARM, SECOND, []);
  }
}
