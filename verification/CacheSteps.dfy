/** Which cache steps a job may run, and which cache keys they may touch.

    A static walk follows a job's steps through local actions, evaluating
    conditions and inputs with the three-valued evaluator.  The results say
    that it misses no cache step of any run of the frame, and that no saved
    key that a run could restore escapes the overlap test. */
module CacheSteps {
  import opened Text
  import opened ExpressionGrammar
  import opened WorkflowExpressions
  import opened ExpressionMeaning
  import opened OpenExpressions
  import opened Globs

  // ---------- templates ----------

  /** A `with:` value: text with expressions in it. */
  datatype Template = Plain(text: string) | Part(text: string, expression: seq<Token>, rest: Template)

  predicate IsLone(t: Template) {
    t.Part? && t.text == "" && t.rest == Plain("")
  }

  function InputText(v: Scalar): string {
    match v
    case Null => ""
    case Bool(b) => if b then "true" else "false"
    case Str(s) => s
  }

  /** A value as an action input receives it; an unknown is passed on as it is. */
  function AsInput(v: Open): Open {
    match v
    case Unknown(_) => v
    case Known(s) => Known(Str(InputText(s)))
  }

  /** The text of a template in one run. */
  function Render(run: Run, t: Template): Evaluated<string> {
    match t
    case Plain(text) => Value(text)
    case Part(text, expression, rest) =>
      match (Evaluate(Concrete(run), expression), Render(run, rest))
      case (Value(v), Value(tail)) => Value(text + InputText(v) + tail)
      case (Raised(error), _) => Raised(error)
      case (_, Raised(error)) => Raised(error)
  }

  /** The static reading: a lone expression keeps its value; otherwise each
      unknown part becomes `unknown`, or makes the whole value unknown. */
  function OpenTemplate(t: Template, resolve: string -> Open, unknown: Option<string>): (r: Evaluated<Open>)
    ensures r.Value? && r.value.Known? ==> r.value.value.Str?
  {
    if unknown.None? && IsLone(t) then
      match OpenEvaluate(resolve, t.expression)
      case Value(v) => Value(AsInput(v))
      case Raised(error) => Raised(error)
    else
      Joined(t, resolve, unknown)
  }

  function Joined(t: Template, resolve: string -> Open, unknown: Option<string>): (r: Evaluated<Open>)
    ensures r.Value? && r.value.Known? ==> r.value.value.Str?
    ensures r.Value? && unknown.Some? ==> r.value.Known?
  {
    match t
    case Plain(text) => Value(Known(Str(text)))
    case Part(text, expression, rest) =>
      match OpenEvaluate(resolve, expression)
      case Raised(error) => Raised(error)
      case Value(v) =>
        if v.Unknown? && unknown.None? then Value(UNKNOWN)
        else
          match Joined(rest, resolve, unknown)
          case Raised(error) => Raised(error)
          case Value(Unknown(_)) => Value(UNKNOWN)
          case Value(Known(tail)) =>
            Value(Known(Str(text + (if v.Unknown? then unknown.value else InputText(v.value)) + tail.s)))
  }

  /** Passing an unknown on is sound except for one: a value known to be falsy
      may be `false`, which as an input is the non-empty text "false". */
  lemma AsInputSoundExactly(a: Open)
    ensures (forall v :: Approximates(a, v) ==> Approximates(AsInput(a), Str(InputText(v)))) <==>
            a != Unknown(Some(false))
  {
    if a == Unknown(Some(false)) {
      assert Approximates(a, Bool(false)) && !Approximates(AsInput(a), Str(InputText(Bool(false))));
    }
  }

  /** The template is not a lone expression read as known-falsy. */
  predicate KeepsInput(t: Template, resolve: string -> Open) {
    IsLone(t) ==> OpenEvaluate(resolve, t.expression) != Value(Unknown(Some(false)))
  }

  lemma {:induction false} EvaluateSound(resolve: string -> Open, run: Run, tokens: seq<Token>)
    requires Agrees(resolve, run) && Evaluate(Concrete(run), tokens).Value?
    ensures OpenEvaluate(resolve, tokens).Value?
    ensures Approximates(OpenEvaluate(resolve, tokens).value, Evaluate(Concrete(run), tokens).value)
  {
    OpenParserSound(resolve, run, tokens);
  }

  lemma {:induction false} JoinedSound(t: Template, resolve: string -> Open, run: Run)
    requires Agrees(resolve, run) && Render(run, t).Value?
    ensures Joined(t, resolve, None).Value?
    ensures Approximates(Joined(t, resolve, None).value, Str(Render(run, t).value))
    ensures Joined(t, resolve, None).value.Unknown? ==> Joined(t, resolve, None).value == UNKNOWN
    decreases t
  {
    if t.Part? {
      EvaluateSound(resolve, run, t.expression);
      JoinedSound(t.rest, resolve, run);
    }
  }

  /** The static reading approximates the text of a run, except exactly for a
      lone expression read as known-falsy whose text is not empty. */
  lemma {:induction false} TemplateSoundExactly(t: Template, resolve: string -> Open, run: Run)
    requires Agrees(resolve, run) && Render(run, t).Value?
    ensures OpenTemplate(t, resolve, None).Value?
    ensures Approximates(OpenTemplate(t, resolve, None).value, Str(Render(run, t).value)) <==>
            KeepsInput(t, resolve) || Render(run, t).value == ""
  {
    if IsLone(t) {
      EvaluateSound(resolve, run, t.expression);
      var v := Evaluate(Concrete(run), t.expression).value;
      assert Render(run, t.rest) == Value("");
      assert "" + InputText(v) + "" == InputText(v);
      AsInputSoundExactly(OpenEvaluate(resolve, t.expression).value);
    } else {
      JoinedSound(t, resolve, run);
    }
  }

  /** Every rendering of a template matches its `*` rendering. */
  lemma {:induction false} RenderingMatchesPattern(t: Template, resolve: string -> Open, run: Run)
    requires Agrees(resolve, run) && Render(run, t).Value?
    ensures OpenTemplate(t, resolve, Some("*")).Value?
    ensures Glob(OpenTemplate(t, resolve, Some("*")).value.value.s, Render(run, t).value)
    decreases t
  {
    match t
    case Plain(text) => GlobSelf(text);
    case Part(text, expression, rest) =>
      EvaluateSound(resolve, run, expression);
      RenderingMatchesPattern(rest, resolve, run);
      var a, v := OpenEvaluate(resolve, expression).value, Evaluate(Concrete(run), expression).value;
      var piece := if a.Unknown? then "*" else InputText(a.value);
      if a.Unknown? {
        GlobAny(InputText(v));
      } else {
        GlobSelf(InputText(v));
      }
      GlobSelf(text);
      GlobConcat(text, piece, text, InputText(v));
      GlobConcat(text + piece, Joined(rest, resolve, Some("*")).value.value.s,
                 text + InputText(v), Render(run, rest).value);
  }

  // ---------- what a template stands for ----------

  /** `s` is the template with each expression replaced by a text allowed for it. */
  ghost predicate Fills(t: Template, allowed: (seq<Token>, string) -> bool, s: string)
    decreases t, 1
  {
    match t
    case Plain(text) => s == text
    case Part(_, _, _) => exists j: nat :: FillsTo(t, allowed, s, j)
  }

  /** The first text of the template and its first expression take `s` up to `j`. */
  ghost predicate FillsTo(t: Template, allowed: (seq<Token>, string) -> bool, s: string, j: nat)
    requires t.Part?
    decreases t, 0
  {
    |t.text| <= j <= |s| && s[..|t.text|] == t.text && allowed(t.expression, s[|t.text|..j]) && Fills(t.rest, allowed, s[j..])
  }

  /** The text an expression has in the run. */
  ghost function InRun(run: Run): (seq<Token>, string) -> bool {
    (e, text) => Evaluate(Concrete(run), e).Value? && HasText(Evaluate(Concrete(run), e).value, text)
  }

  /** The text of what the frame knows, and any text for what it does not. */
  ghost function InFrame(resolve: string -> Open): (seq<Token>, string) -> bool {
    (e, text) =>
      OpenEvaluate(resolve, e).Value? && (OpenEvaluate(resolve, e).value.Known? ==> HasText(OpenEvaluate(resolve, e).value.value, text))
  }

  lemma InputTextIs(v: Scalar, text: string)
    ensures HasText(v, text) <==> text == InputText(v)
  {
  }

  lemma PartSplits(text: string, middle: string, tail: string)
    ensures var s, j := text + middle + tail, |text| + |middle|;
            s[..|text|] == text && s[|text|..j] == middle && s[j..] == tail
  {
  }

  lemma {:induction false} RenderedFills(run: Run, t: Template)
    requires Render(run, t).Value?
    ensures Fills(t, InRun(run), Render(run, t).value)
    decreases t
  {
    if t.Part? {
      var v, tail := Evaluate(Concrete(run), t.expression).value, Render(run, t.rest).value;
      RenderedFills(run, t.rest);
      PartSplits(t.text, InputText(v), tail);
      InputTextIs(v, InputText(v));
      assert FillsTo(t, InRun(run), Render(run, t).value, |t.text| + |InputText(v)|);
    }
  }

  lemma ThreeParts(s: string, i: nat, j: nat)
    requires i <= j <= |s|
    ensures s == s[..i] + s[i..j] + s[j..]
  {
  }

  lemma {:induction false} FilledIsRendered(run: Run, t: Template, s: string)
    requires Fills(t, InRun(run), s)
    ensures Render(run, t) == Value(s)
    decreases t
  {
    if t.Part? {
      var n := |t.text|;
      var j: nat :| FillsTo(t, InRun(run), s, j);
      FilledIsRendered(run, t.rest, s[j..]);
      InputTextIs(Evaluate(Concrete(run), t.expression).value, s[n..j]);
      ThreeParts(s, n, j);
    }
  }

  /** A run renders a template to what fills it with the texts of its expressions. */
  lemma {:induction false} RenderMeans(run: Run, t: Template, s: string)
    ensures Render(run, t) == Value(s) <==> Fills(t, InRun(run), s)
  {
    if Render(run, t).Value? {
      RenderedFills(run, t);
    }
    if Fills(t, InRun(run), s) {
      FilledIsRendered(run, t, s);
    }
  }

  /** No text of the template, and none the frame knows, contains a star of its own. */
  ghost predicate HasNoStar(t: Template, resolve: string -> Open) {
    && '*' !in t.text
    && (t.Part? ==>
          && HasNoStar(t.rest, resolve)
          && forall s :: OpenEvaluate(resolve, t.expression) == Value(Known(Str(s))) ==> '*' !in s)
  }

  /** The `*` rendering matches exactly what fills the template in the frame. */
  lemma {:induction false} PatternExact(t: Template, resolve: string -> Open, s: string)
    requires HasNoStar(t, resolve) && OpenTemplate(t, resolve, Some("*")).Value?
    ensures Glob(OpenTemplate(t, resolve, Some("*")).value.value.s, s) <==> Fills(t, InFrame(resolve), s)
    decreases t
  {
    match t
    case Plain(text) => GlobPlain(text, s);
    case Part(text, expression, rest) =>
      var a := OpenEvaluate(resolve, expression).value;
      var piece := if a.Unknown? then "*" else InputText(a.value);
      var tail := OpenTemplate(rest, resolve, Some("*")).value.value.s;
      forall j | 0 <= j <= |s| ensures Glob(tail, s[j..]) <==> Fills(rest, InFrame(resolve), s[j..]) {
        PatternExact(rest, resolve, s[j..]);
      }
      forall m ensures InFrame(resolve)(expression, m) <==> Glob(piece, m) {
        PieceExact(a, m);
      }
      PartMatches(text, piece, tail, s);
      assert forall j: nat :: FillsTo(t, InFrame(resolve), s, j) <==>
               |text| <= j <= |s| && s[..|text|] == text && Glob(piece, s[|text|..j]) && Glob(tail, s[j..]);
  }

  lemma {:induction false} PieceExact(a: Open, m: string)
    requires a.Known? && a.value.Str? ==> '*' !in a.value.s
    ensures Glob(if a.Unknown? then "*" else InputText(a.value), m) <==> (a.Known? ==> HasText(a.value, m))
  {
    if a.Unknown? {
      GlobAny(m);
    } else {
      GlobPlain(InputText(a.value), m);
      InputTextIs(a.value, m);
    }
  }

  /** A literal text, a piece and a tail match what starts with the text and falls into the other two. */
  lemma {:induction false} PartMatches(text: string, piece: string, tail: string, s: string)
    requires '*' !in text
    ensures Glob(text + piece + tail, s) <==>
            exists j :: |text| <= j <= |s| && s[..|text|] == text && Glob(piece, s[|text|..j]) && Glob(tail, s[j..])
  {
    GlobSplit(text + piece, tail, s);
    forall j | 0 <= j <= |s|
      ensures Glob(text + piece, s[..j]) <==> |text| <= j && s[..|text|] == text && Glob(piece, s[|text|..j])
    {
      TextThenPiece(text, piece, s[..j]);
      if |text| <= j {
        assert s[..j][..|text|] == s[..|text|] && s[..j][|text|..] == s[|text|..j];
      }
    }
    if Glob(text + piece + tail, s) {
      var j: nat :| SplitsAt(text + piece, tail, s, j);
      assert |text| <= j <= |s| && s[..|text|] == text && Glob(piece, s[|text|..j]) && Glob(tail, s[j..]);
    }
    if j :| |text| <= j <= |s| && s[..|text|] == text && Glob(piece, s[|text|..j]) && Glob(tail, s[j..]) {
      assert SplitsAt(text + piece, tail, s, j);
    }
  }

  lemma {:induction false} TextThenPiece(text: string, piece: string, s: string)
    requires '*' !in text
    ensures Glob(text + piece, s) <==> |text| <= |s| && s[..|text|] == text && Glob(piece, s[|text|..])
  {
    GlobSplit(text, piece, s);
    forall i | 0 <= i <= |s| ensures Glob(text, s[..i]) <==> s[..i] == text {
      GlobPlain(text, s[..i]);
    }
    if |text| <= |s| && s[..|text|] == text && Glob(piece, s[|text|..]) {
      assert SplitsAt(text, piece, s, |text|);
    }
  }

  /** The frame reads the template's expressions as the run evaluates them. */
  ghost predicate KnowsTemplate(t: Template, resolve: string -> Open, run: Run) {
    t.Part? ==>
      && KnowsTemplate(t.rest, resolve, run)
      && Evaluate(Concrete(run), t.expression).Value?
      && OpenEvaluate(resolve, t.expression) == Value(Known(Evaluate(Concrete(run), t.expression).value))
  }

  /** A template whose expressions are all known is read as the text the run renders. */
  lemma {:induction false} KnownTemplate(t: Template, resolve: string -> Open, run: Run, unknown: Option<string>)
    requires KnowsTemplate(t, resolve, run)
    ensures Render(run, t).Value? && OpenTemplate(t, resolve, unknown) == Value(Known(Str(Render(run, t).value)))
  {
    KnownJoined(t, resolve, run, unknown);
    if IsLone(t) {
      var v := Evaluate(Concrete(run), t.expression).value;
      assert "" + InputText(v) + "" == InputText(v);
    }
  }

  lemma {:induction false} KnownJoined(t: Template, resolve: string -> Open, run: Run, unknown: Option<string>)
    requires KnowsTemplate(t, resolve, run)
    ensures Render(run, t).Value? && Joined(t, resolve, unknown) == Value(Known(Str(Render(run, t).value)))
    decreases t
  {
    if t.Part? {
      KnownJoined(t.rest, resolve, run, unknown);
    }
  }

  // ---------- cache steps and the keys they touch ----------

  datatype CacheKind = Cache | Restore | Save

  /** A step of actions/cache, actions/cache/restore or actions/cache/save. */
  datatype CacheUse = CacheUse(kind: CacheKind, key: Option<Template>, restoreKeys: seq<Template>)

  datatype SpecKind = WholeKey | Family

  datatype Spec = Spec(kind: SpecKind, pattern: string)

  /** Two families match only as they stand; a family matches a whole key that starts with it. */
  predicate SpecsOverlap(restored: Spec, saved: Spec) {
    var left := if restored.kind.Family? && saved.kind.WholeKey? then restored.pattern + "-*" else restored.pattern;
    var right := if restored.kind.WholeKey? && saved.kind.Family? then saved.pattern + "-*" else saved.pattern;
    Overlap(Lower(left), Lower(right))
  }

  /** The `*` rendering of a template, or `default` where it is absent or empty. */
  function Pattern(t: Option<Template>, resolve: string -> Open, default: string): Evaluated<string> {
    if t.None? then Value(default)
    else
      match OpenTemplate(t.value, resolve, Some("*"))
      case Raised(error) => Raised(error)
      case Value(v) => Value(if v.value.s == "" then default else v.value.s)
  }

  function PrefixPatterns(ts: seq<Template>, resolve: string -> Open): Evaluated<seq<Spec>> {
    if ts == [] then Value([])
    else
      match (PrefixPatterns(ts[..|ts| - 1], resolve), OpenTemplate(ts[|ts| - 1], resolve, Some("*")))
      case (Value(specs), Value(v)) => Value(specs + [Spec(WholeKey, v.value.s + "*")])
      case (Raised(error), _) => Raised(error)
      case (_, Raised(error)) => Raised(error)
  }

  /** What a cache step may restore and what it may save. */
  function KeySpecs(use: CacheUse, resolve: string -> Open): Evaluated<(seq<Spec>, seq<Spec>)> {
    match (Pattern(use.key, resolve, "*"), PrefixPatterns(use.restoreKeys, resolve))
    case (Value(key), Value(prefixes)) =>
      Value((if use.kind.Save? then [] else [Spec(WholeKey, key)] + prefixes,
             if use.kind.Restore? then [] else [Spec(WholeKey, key)]))
    case (Raised(error), _) => Raised(error)
    case (_, Raised(error)) => Raised(error)
  }

  /** `key` is a key the step uses in `run`; a step without a key input may use any. */
  ghost predicate HasKey(use: CacheUse, run: Run, key: string) {
    use.key.Some? ==> Render(run, use.key.value) == Value(key)
  }

  /** In `run`, the step would restore an entry saved under `saved`. */
  ghost predicate Restores(use: CacheUse, run: Run, saved: string) {
    || HasKey(use, run, saved)
    || exists i :: 0 <= i < |use.restoreKeys| && HasPrefixKey(use.restoreKeys[i], run, saved)
  }

  ghost predicate HasPrefixKey(t: Template, run: Run, saved: string) {
    Render(run, t).Value? && StartsWith(saved, Render(run, t).value)
  }

  lemma {:induction false} PatternMatchesKey(use: CacheUse, resolve: string -> Open, run: Run, key: string)
    requires Agrees(resolve, run) && HasKey(use, run, key) && Pattern(use.key, resolve, "*").Value?
    ensures Glob(Pattern(use.key, resolve, "*").value, key)
  {
    GlobAny(key);
    if use.key.Some? {
      RenderingMatchesPattern(use.key.value, resolve, run);
    }
  }

  lemma {:induction false} PrefixPatternAt(ts: seq<Template>, resolve: string -> Open, i: nat)
    requires i < |ts| && PrefixPatterns(ts, resolve).Value?
    ensures OpenTemplate(ts[i], resolve, Some("*")).Value?
    ensures |PrefixPatterns(ts, resolve).value| == |ts|
    ensures PrefixPatterns(ts, resolve).value[i] ==
            Spec(WholeKey, OpenTemplate(ts[i], resolve, Some("*")).value.value.s + "*")
    decreases |ts|
  {
    if |ts| > 1 {
      PrefixPatternAt(ts[..|ts| - 1], resolve, if i < |ts| - 1 then i else 0);
    }
  }

  /** No missed coincidence: if in some pair of runs of two frames the reader
      would restore what the writer saved, their specs overlap. */
  lemma {:induction false} CoincidenceOverlaps(
    reader: CacheUse, readFrame: string -> Open, readRun: Run,
    writer: CacheUse, writeFrame: string -> Open, writeRun: Run, key: string)
    requires !reader.kind.Save? && !writer.kind.Restore?
    requires Agrees(readFrame, readRun) && Agrees(writeFrame, writeRun)
    requires KeySpecs(reader, readFrame).Value? && KeySpecs(writer, writeFrame).Value?
    requires HasKey(writer, writeRun, key) && Restores(reader, readRun, key)
    ensures exists i, j ::
              && 0 <= i < |KeySpecs(reader, readFrame).value.0| && 0 <= j < |KeySpecs(writer, writeFrame).value.1|
              && SpecsOverlap(KeySpecs(reader, readFrame).value.0[i], KeySpecs(writer, writeFrame).value.1[j])
  {
    var saves := KeySpecs(writer, writeFrame).value.1;
    PatternMatchesKey(writer, writeFrame, writeRun, key);
    var i := RestoredBy(reader, readFrame, readRun, key);
    BothMatch(KeySpecs(reader, readFrame).value.0[i], saves[0], key);
  }

  lemma BothMatch(restore: Spec, save: Spec, key: string)
    requires restore.kind.WholeKey? && save.kind.WholeKey? && Glob(restore.pattern, key) && Glob(save.pattern, key)
    ensures SpecsOverlap(restore, save)
  {
    GlobFoldsCase(restore.pattern, key);
    GlobFoldsCase(save.pattern, key);
    OverlapExact(restore.pattern, save.pattern);
  }

  /** Some restore pattern of a step matches every saved key it restores. */
  lemma {:induction false} RestoredBy(reader: CacheUse, resolve: string -> Open, run: Run, key: string) returns (i: nat)
    requires !reader.kind.Save? && Agrees(resolve, run) && KeySpecs(reader, resolve).Value? && Restores(reader, run, key)
    ensures var restores := KeySpecs(reader, resolve).value.0;
            i < |restores| && restores[i].kind.WholeKey? && Glob(restores[i].pattern, key)
  {
    i := 0;
    if HasKey(reader, run, key) {
      PatternMatchesKey(reader, resolve, run, key);
    } else {
      var n :| 0 <= n < |reader.restoreKeys| && HasPrefixKey(reader.restoreKeys[n], run, key);
      PrefixPatternAt(reader.restoreKeys, resolve, n);
      i := n + 1;
      PrefixMatchesKey(reader.restoreKeys[n], resolve, run, key);
    }
  }

  lemma {:induction false} PrefixMatchesKey(t: Template, resolve: string -> Open, run: Run, key: string)
    requires Agrees(resolve, run) && HasPrefixKey(t, run, key)
    ensures OpenTemplate(t, resolve, Some("*")).Value?
    ensures Glob(OpenTemplate(t, resolve, Some("*")).value.value.s + "*", key)
  {
    RenderingMatchesPattern(t, resolve, run);
    var prefix := Render(run, t).value;
    GlobAny(key[|prefix|..]);
    assert prefix + key[|prefix|..] == key;
    GlobConcat(OpenTemplate(t, resolve, Some("*")).value.value.s, "*", prefix, key[|prefix|..]);
  }

  lemma {:induction false} DashMatches(suffix: string)
    ensures Matches("-*", "-" + suffix)
  {
    GlobAny(suffix);
    GlobSelf("-");
    GlobConcat("-", "*", "-", suffix);
    assert "-" + "*" == "-*";
    GlobFoldsCase("-*", "-" + suffix);
  }

  lemma {:induction false} FamilyPatternMatches(pattern: string, name: string, suffix: string)
    requires Matches(pattern, name)
    ensures Matches(pattern + "-*", name + "-" + suffix)
  {
    DashMatches(suffix);
    MatchesConcat(pattern, "-*", name, "-" + suffix);
    assert name + ("-" + suffix) == name + "-" + suffix;
  }

  lemma {:induction false} DashSplits(pattern: string, s: string)
    requires Matches(pattern + "-*", s)
    ensures exists name, suffix :: s == name + "-" + suffix && Matches(pattern, name)
  {
    LowerConcat(pattern, "-*");
    assert Lower("-*") == "-*";
    GlobSplit(Lower(pattern), "-*", Lower(s));
    var i: nat :| SplitsAt(Lower(pattern), "-*", Lower(s), i);
    assert Lower(s)[i..][0] == '-' && Lower(s)[..i] == Lower(s[..i]);
    assert s == s[..i] + "-" + s[i + 1..];
  }

  /** A family and a whole key overlap exactly when some key is both: the
      family's name, a dash and a suffix. */
  lemma {:induction false} FamilyOverlapsExactly(family: Spec, whole: Spec)
    requires family.kind.Family? && whole.kind.WholeKey?
    ensures SpecsOverlap(family, whole) <==> SpecsOverlap(whole, family)
    ensures SpecsOverlap(family, whole) <==> exists name, suffix :: FamilyKey(family, whole, name, suffix)
  {
    OverlapExact(family.pattern + "-*", whole.pattern);
    OverlapExact(whole.pattern, family.pattern + "-*");
    if SpecsOverlap(family, whole) {
      var s :| Matches(family.pattern + "-*", s) && Matches(whole.pattern, s);
      DashSplits(family.pattern, s);
      var name, suffix :| s == name + "-" + suffix && Matches(family.pattern, name);
      assert FamilyKey(family, whole, name, suffix);
    }
    if name, suffix :| FamilyKey(family, whole, name, suffix) {
      FamilyPatternMatches(family.pattern, name, suffix);
    }
  }

  ghost predicate FamilyKey(family: Spec, whole: Spec, name: string, suffix: string) {
    Matches(family.pattern, name) && Matches(whole.pattern, name + "-" + suffix)
  }

  /** Two whole keys, or two families, overlap exactly when their patterns have
      a string in common; a family overlaps itself. */
  lemma {:induction false} SameKindOverlapsExactly(restored: Spec, saved: Spec)
    requires restored.kind == saved.kind
    ensures SpecsOverlap(restored, saved) <==> exists s :: Matches(restored.pattern, s) && Matches(saved.pattern, s)
    ensures restored == saved ==> SpecsOverlap(restored, saved)
  {
    OverlapExact(restored.pattern, saved.pattern);
    GlobSelf(Lower(restored.pattern));
    assert Matches(restored.pattern, restored.pattern);
  }

  // ---------- the specs of a step, exactly ----------

  /** Nothing but the empty text fills the template: then the key is read as any. */
  ghost predicate IsEmptyKey(t: Template, resolve: string -> Open) {
    forall s :: Fills(t, InFrame(resolve), s) ==> s == ""
  }

  /** A key the step may use, as far as the frame knows. */
  ghost predicate MayUseKey(use: CacheUse, resolve: string -> Open, key: string) {
    use.key.None? || IsEmptyKey(use.key.value, resolve) || Fills(use.key.value, InFrame(resolve), key)
  }

  /** A saved key that one of the step's restore keys may be the start of. */
  ghost predicate MayStart(use: CacheUse, resolve: string -> Open, key: string) {
    exists i, n :: 0 <= i < |use.restoreKeys| && 0 <= n <= |key| && Fills(use.restoreKeys[i], InFrame(resolve), key[..n])
  }

  ghost predicate HasNoStars(use: CacheUse, resolve: string -> Open) {
    && (use.key.Some? ==> HasNoStar(use.key.value, resolve))
    && forall i :: 0 <= i < |use.restoreKeys| ==> HasNoStar(use.restoreKeys[i], resolve)
  }

  /** One of the specs is for this key. */
  ghost predicate SomeSpec(specs: seq<Spec>, key: string) {
    exists i :: 0 <= i < |specs| && specs[i].kind.WholeKey? && Glob(specs[i].pattern, key)
  }

  lemma {:induction false} KeyPatternExact(use: CacheUse, resolve: string -> Open, key: string)
    requires HasNoStars(use, resolve) && Pattern(use.key, resolve, "*").Value?
    ensures Glob(Pattern(use.key, resolve, "*").value, key) <==> MayUseKey(use, resolve, key)
  {
    GlobAny(key);
    if use.key.Some? {
      var t := use.key.value;
      var pattern := OpenTemplate(t, resolve, Some("*")).value.value.s;
      PatternExact(t, resolve, key);
      PatternExact(t, resolve, pattern);
      GlobSelf(pattern);
      if pattern == "" {
        forall s | Fills(t, InFrame(resolve), s) ensures s == "" {
          PatternExact(t, resolve, s);
        }
      }
    }
  }

  lemma {:induction false} PrefixPatternExact(t: Template, resolve: string -> Open, key: string)
    requires HasNoStar(t, resolve) && OpenTemplate(t, resolve, Some("*")).Value?
    ensures Glob(OpenTemplate(t, resolve, Some("*")).value.value.s + "*", key) <==>
            exists n :: 0 <= n <= |key| && Fills(t, InFrame(resolve), key[..n])
  {
    var pattern := OpenTemplate(t, resolve, Some("*")).value.value.s;
    GlobSplit(pattern, "*", key);
    forall n | 0 <= n <= |key| ensures SplitsAt(pattern, "*", key, n) <==> Fills(t, InFrame(resolve), key[..n]) {
      PatternExact(t, resolve, key[..n]);
      GlobAny(key[n..]);
    }
    if n: nat :| SplitsAt(pattern, "*", key, n) {
      assert Fills(t, InFrame(resolve), key[..n]);
    }
  }

  /** The specs of a step are for exactly the keys it may restore and save, as
      far as the frame knows: a saving step restores nothing, a restoring one saves nothing. */
  lemma {:induction false} KeySpecsExactly(use: CacheUse, resolve: string -> Open, key: string)
    requires KeySpecs(use, resolve).Value? && HasNoStars(use, resolve)
    ensures SomeSpec(KeySpecs(use, resolve).value.0, key) <==>
            !use.kind.Save? && (MayUseKey(use, resolve, key) || MayStart(use, resolve, key))
    ensures SomeSpec(KeySpecs(use, resolve).value.1, key) <==> !use.kind.Restore? && MayUseKey(use, resolve, key)
  {
    var restores, saves := KeySpecs(use, resolve).value.0, KeySpecs(use, resolve).value.1;
    KeyPatternExact(use, resolve, key);
    if !use.kind.Restore? {
      assert saves[0].kind.WholeKey?;
    }
    if !use.kind.Save? {
      assert restores[0].kind.WholeKey?;
      PrefixSpecsExact(use.restoreKeys, resolve, key);
      var prefixes := PrefixPatterns(use.restoreKeys, resolve).value;
      if SomeSpec(prefixes, key) {
        var i :| 0 <= i < |prefixes| && prefixes[i].kind.WholeKey? && Glob(prefixes[i].pattern, key);
        assert restores[i + 1] == prefixes[i];
      }
      if i :| 1 <= i < |restores| && restores[i].kind.WholeKey? && Glob(restores[i].pattern, key) {
        assert restores[i] == prefixes[i - 1];
      }
    }
  }

  lemma {:induction false} PrefixSpecsExact(ts: seq<Template>, resolve: string -> Open, key: string)
    requires PrefixPatterns(ts, resolve).Value? && forall i :: 0 <= i < |ts| ==> HasNoStar(ts[i], resolve)
    ensures SomeSpec(PrefixPatterns(ts, resolve).value, key) <==>
            exists i, n :: 0 <= i < |ts| && 0 <= n <= |key| && Fills(ts[i], InFrame(resolve), key[..n])
  {
    var specs := PrefixPatterns(ts, resolve).value;
    assert |ts| == 0 ==> specs == [];
    forall i | 0 <= i < |ts|
      ensures |specs| == |ts| && specs[i].kind.WholeKey?
      ensures Glob(specs[i].pattern, key) <==> exists n :: 0 <= n <= |key| && Fills(ts[i], InFrame(resolve), key[..n])
    {
      PrefixPatternAt(ts, resolve, i);
      PrefixPatternExact(ts[i], resolve, key);
    }
    if i, n :| 0 <= i < |ts| && 0 <= n <= |key| && Fills(ts[i], InFrame(resolve), key[..n]) {
      assert Glob(specs[i].pattern, key);
    }
  }
}
