/** Blanking the comments of Rust source: literals are kept, comments become
    spaces, newlines stay. */
module CommentStripping {
  import opened RustText
  import opened Text

  ghost predicate IsAlnum(alnum: Alnum) {
    !alnum('/') && !alnum(' ')
  }

  // ---------- the scan as a function ----------

  /** The end of a line comment. */
  function LineEnd(text: string, i: nat): (r: nat)
    requires i <= |text|
    ensures i <= r <= |text| && (r < |text| ==> text[r] == '\n')
  {
    match Find(text, "\n", i)
    case None => |text|
    case Some(k) => k
  }

  /** The end of block comments nested `depth` deep. */
  function BlockEnd(text: string, j: nat, depth: nat): (r: nat)
    requires j <= |text|
    requires depth == 0 ==> 0 < j && text[j - 1] == '/'
    ensures j <= r <= |text|
    ensures r == |text| || (0 < r && text[r - 1] == '/')
    decreases |text| - j
  {
    if j == |text| || depth == 0 then j
    else if Pair(text, j, '/', '*') then BlockEnd(text, j + 2, depth + 1)
    else if Pair(text, j, '*', '/') then BlockEnd(text, j + 2, depth - 1)
    else BlockEnd(text, j + 1, depth)
  }

  /** Whether a raw string opens at `i`, and where its opening quote is. */
  function RawQuote(text: string, i: nat, alnum: Alnum): (r: Option<nat>)
    requires i < |text|
    ensures r.Some? ==> i < r.value < |text| && text[r.value] == '"'
  {
    if (text[i] == 'r' || Pair(text, i, 'b', 'r')) && !WordBefore(text, i, alnum) then
      var q := HashesEnd(text, RawHashes(text, i));
      if q < |text| && text[q] == '"' then Some(q) else None
    else None
  }

  /** Where the hashes of a raw string that starts at `i` would be. */
  function RawHashes(text: string, i: nat): (r: nat)
    requires i < |text|
    ensures i < r && (text[i] == 'r' || Pair(text, i, 'b', 'r') ==> r <= |text|)
  {
    if Pair(text, i, 'b', 'r') then i + 2 else i + 1
  }

  function RawEnd(text: string, i: nat, q: nat): (r: nat)
    requires i < |text| && RawHashes(text, i) <= q < |text|
    ensures q < r <= |text|
  {
    After(text, RawClose(q - RawHashes(text, i)), q + 1)
  }

  predicate CharOpens(text: string, i: nat)
    requires i < |text|
  {
    text[i] == '\'' && i + 2 < |text| && (text[i + 2] == '\'' || text[i + 1] == '\\')
  }

  datatype Segment = Segment(end: nat, comment: bool)

  /** What the scan takes at `i`: a comment, a literal, or one character. */
  function Next(text: string, i: nat, alnum: Alnum): (r: Segment)
    requires i < |text|
    ensures i < r.end <= |text|
  {
    if Pair(text, i, '/', '/') then
      Segment(LineEnd(text, i), true)
    else if Pair(text, i, '/', '*') then Segment(BlockEnd(text, i + 2, 1), true)
    else if RawQuote(text, i, alnum).Some? then Segment(RawEnd(text, i, RawQuote(text, i, alnum).value), false)
    else if text[i] == '"' then Segment(Min(StringEnd(text, i + 1) + 1, |text|), false)
    else if CharOpens(text, i) then Segment(After(text, "'", i + 2), false)
    else Segment(i + 1, false)
  }

  function Blank(s: string): (r: string)
    ensures |r| == |s| && forall k :: 0 <= k < |s| ==> r[k] == if s[k] == '\n' then '\n' else ' '
  {
    seq(|s|, k requires 0 <= k < |s| => if s[k] == '\n' then '\n' else ' ')
  }

  function Strip(text: string, i: nat, alnum: Alnum): string
    requires i <= |text|
    decreases |text| - i
  {
    if i == |text| then ""
    else
      var next := Next(text, i, alnum);
      (if next.comment then Blank(text[i..next.end]) else text[i..next.end]) + Strip(text, next.end, alnum)
  }

  // ---------- the scan as it runs ----------

  method BlockCommentEnd(text: string, i: nat) returns (j: nat)
    requires Pair(text, i, '/', '*')
    ensures j == BlockEnd(text, i + 2, 1)
  {
    var depth := 1;
    j := i + 2;
    while j < |text| && depth != 0
      invariant i + 2 <= j <= |text|
      invariant depth == 0 ==> text[j - 1] == '/'
      invariant BlockEnd(text, i + 2, 1) == BlockEnd(text, j, depth)
    {
      if Pair(text, j, '/', '*') {
        depth, j := depth + 1, j + 2;
      } else if Pair(text, j, '*', '/') {
        depth, j := depth - 1, j + 2;
      } else {
        j := j + 1;
      }
    }
  }

  method NextSegment(text: string, i: nat, alnum: Alnum) returns (end: nat, comment: bool)
    requires i < |text|
    ensures Segment(end, comment) == Next(text, i, alnum)
  {
    end, comment := i + 1, false;
    if Pair(text, i, '/', '/') {
      var newline := Find(text, "\n", i);
      end, comment := if newline.None? then |text| else newline.value, true;
    } else if Pair(text, i, '/', '*') {
      end := BlockCommentEnd(text, i);
      comment := true;
    } else if (text[i] == 'r' || Pair(text, i, 'b', 'r')) && !WordBefore(text, i, alnum) {
      var j := RawHashes(text, i);
      var q := CountHashes(text, j);
      if q < |text| && text[q] == '"' {
        end := After(text, RawClose(q - j), q + 1);
      }
    } else if text[i] == '"' {
      var j := SkipString(text, i + 1);
      end := Min(j + 1, |text|);
    } else if CharOpens(text, i) {
      end := After(text, "'", i + 2);
    }
  }

  method StripComments(text: string, alnum: Alnum) returns (out: string)
    ensures out == Strip(text, 0, alnum)
  {
    out := "";
    var i := 0;
    while i < |text|
      invariant i <= |text|
      invariant Strip(text, 0, alnum) == out + Strip(text, i, alnum)
    {
      var end, comment := NextSegment(text, i, alnum);
      out := out + if comment then Blank(text[i..end]) else text[i..end];
      i := end;
    }
  }

  // ---------- what stripping keeps ----------

  /** The length, every newline, and every character that did not become a space. */
  ghost predicate Spaced(s: string, t: string) {
    |s| == |t| && forall k :: 0 <= k < |t| ==> s[k] == t[k] || (s[k] == ' ' && t[k] != '\n')
  }

  lemma {:induction false} StripOnlyBlanks(text: string, i: nat, alnum: Alnum)
    requires i <= |text|
    ensures Spaced(Strip(text, i, alnum), text[i..])
    decreases |text| - i
  {
    if i < |text| {
      var end := Next(text, i, alnum).end;
      StripOnlyBlanks(text, end, alnum);
      assert text[i..] == text[i..end] + text[end..];
    }
  }

  // ---------- stripping twice ----------

  /** At a segment's start the two texts look back at the same kind of character, or do not look. */
  ghost predicate LookBackAgrees(s: string, t: string, i: nat, alnum: Alnum)
    requires |s| == |t|
  {
    i < |t| ==> t[i] == '\n' || WordBefore(s, i, alnum) == WordBefore(t, i, alnum)
  }

  lemma SpaceCopied(s: string, i: nat, alnum: Alnum)
    requires i < |s| && (s[i] == ' ' || s[i] == '\n')
    ensures Strip(s, i, alnum) == [s[i]] + Strip(s, i + 1, alnum)
  {
    assert Next(s, i, alnum) == Segment(i + 1, false);
  }

  lemma OneMore(s: string, i: nat, end: nat, rest: string)
    requires i < end <= |s|
    ensures [s[i]] + (s[i + 1..end] + rest) == s[i..end] + rest
  {
    assert s[i..end] == [s[i]] + s[i + 1..end];
  }

  /** White space is copied, one character at a time. */
  lemma {:induction false} SpacesCopied(s: string, i: nat, end: nat, alnum: Alnum)
    requires i <= end <= |s| && forall k :: i <= k < end ==> s[k] == ' ' || s[k] == '\n'
    ensures Strip(s, i, alnum) == s[i..end] + Strip(s, end, alnum)
    decreases end - i
  {
    if i == end {
      assert s[i..end] == "";
    } else {
      SpacesCopied(s, i + 1, end, alnum);
      SpaceCopied(s, i, alnum);
      OneMore(s, i, end, Strip(s, end, alnum));
    }
  }

  /** Blanking elsewhere turns no single character into the start of a literal or comment. */
  lemma PlainStaysPlain(s: string, t: string, i: nat, alnum: Alnum)
    requires i < |t| && |s| == |t| && s[i] == t[i]
    requires forall x :: i <= x < |t| ==> s[x] == t[x] || s[x] == ' '
    requires LookBackAgrees(s, t, i, alnum)
    requires !Pair(t, i, '/', '/') && !Pair(t, i, '/', '*') && t[i] != '"' && RawQuote(t, i, alnum).None? && !CharOpens(t, i)
    ensures Next(s, i, alnum) == Segment(i + 1, false)
  {
    assert RawQuote(s, i, alnum).None?;
  }

  /** A literal is settled by its own characters. */
  lemma QuoteStays(s: string, t: string, i: nat, alnum: Alnum)
    requires i < |t| && RawQuote(t, i, alnum).Some? && |s| == |t| && LookBackAgrees(s, t, i, alnum)
    requires forall k :: i <= k <= RawQuote(t, i, alnum).value ==> s[k] == t[k]
    ensures RawQuote(s, i, alnum) == RawQuote(t, i, alnum) && RawHashes(s, i) == RawHashes(t, i)
  {
    HashesEndSame(s, t, RawHashes(t, i));
  }

  lemma RawStaysRaw(s: string, t: string, i: nat, alnum: Alnum)
    requires i < |t| && RawQuote(t, i, alnum).Some? && |s| == |t| && LookBackAgrees(s, t, i, alnum)
    requires SameOn(s, t, i, RawEnd(t, i, RawQuote(t, i, alnum).value))
    ensures RawQuote(s, i, alnum) == RawQuote(t, i, alnum)
    ensures RawEnd(s, i, RawQuote(t, i, alnum).value) == RawEnd(t, i, RawQuote(t, i, alnum).value)
  {
    var j, q := RawHashes(t, i), RawQuote(t, i, alnum).value;
    QuoteStays(s, t, i, alnum);
    AfterSame(s, t, RawClose(q - j), q + 1);
  }

  lemma SegmentStays(s: string, t: string, i: nat, alnum: Alnum)
    requires i < |t| && |s| == |t| && LookBackAgrees(s, t, i, alnum) && !Next(t, i, alnum).comment
    requires SameOn(s, t, i, Next(t, i, alnum).end) && forall x :: i <= x < |t| ==> s[x] == t[x] || s[x] == ' '
    ensures Next(s, i, alnum) == Next(t, i, alnum)
  {
    if RawQuote(t, i, alnum).Some? {
      RawStaysRaw(s, t, i, alnum);
    } else if t[i] == '"' {
      StringEndSame(s, t, i + 1);
    } else if CharOpens(t, i) {
      AfterSame(s, t, "'", i + 2);
    } else {
      PlainStaysPlain(s, t, i, alnum);
    }
  }

  lemma CommentLookBack(s: string, t: string, i: nat, alnum: Alnum)
    requires IsAlnum(alnum) && i < |t| && |s| == |t| && Next(t, i, alnum).comment
    requires s[Next(t, i, alnum).end - 1] in {' ', '\n'}
    requires s[Next(t, i, alnum).end - 1] == '\n' ==> t[Next(t, i, alnum).end - 1] == '\n'
    ensures LookBackAgrees(s, t, Next(t, i, alnum).end, alnum)
  {
  }

  /** Where the stripped text `s` of `t` has a segment, it has its copy or its blanks, and the rest below. */
  lemma StripSplits(t: string, s: string, i: nat, alnum: Alnum)
    requires i < |t| == |s| && s[i..] == Strip(t, i, alnum)
    ensures var next := Next(t, i, alnum);
            && s[i..next.end] == (if next.comment then Blank(t[i..next.end]) else t[i..next.end])
            && s[next.end..] == Strip(t, next.end, alnum)
  {
    var next := Next(t, i, alnum);
    var part := if next.comment then Blank(t[i..next.end]) else t[i..next.end];
    assert s[i..next.end] == s[i..][..next.end - i] == part;
    assert s[next.end..] == s[i..][next.end - i..] == Strip(t, next.end, alnum);
  }

  lemma CommentRange(t: string, s: string, i: nat, end: nat)
    requires i < end <= |t| == |s| && s[i..end] == Blank(t[i..end])
    ensures forall k :: i <= k < end ==> s[k] == if t[k] == '\n' then '\n' else ' '
  {
    assert forall k :: i <= k < end ==> s[k] == s[i..end][k - i] && t[k] == t[i..end][k - i];
  }

  lemma SpacedRange(t: string, s: string, i: nat, alnum: Alnum)
    requires i <= |t| == |s| && s[i..] == Strip(t, i, alnum)
    ensures forall k :: i <= k < |t| ==> s[k] == t[k] || s[k] == ' '
  {
    StripOnlyBlanks(t, i, alnum);
    assert forall k :: i <= k < |t| ==> s[k] == s[i..][k - i] && t[k] == t[i..][k - i];
  }

  lemma KeptRange(t: string, s: string, i: nat, end: nat)
    requires i < end <= |t| == |s| && s[i..end] == t[i..end]
    ensures SameOn(s, t, i, end)
  {
    assert forall k :: i <= k < end ==> s[k] == s[i..end][k - i] && t[k] == t[i..end][k - i];
  }

  /** From a segment's start on, a stripped text strips to itself. */
  lemma {:induction false} StripStable(t: string, s: string, i: nat, alnum: Alnum)
    requires IsAlnum(alnum) && i <= |t| == |s|
    requires s[i..] == Strip(t, i, alnum) && LookBackAgrees(s, t, i, alnum)
    ensures Strip(s, i, alnum) == s[i..]
    decreases |t| - i
  {
    if i < |t| {
      var next := Next(t, i, alnum);
      var end := next.end;
      StripSplits(t, s, i, alnum);
      if next.comment {
        CommentRange(t, s, i, end);
        CommentLookBack(s, t, i, alnum);
        SpacesCopied(s, i, end, alnum);
      } else {
        KeptRange(t, s, i, end);
        SpacedRange(t, s, i, alnum);
        SegmentStays(s, t, i, alnum);
      }
      StripStable(t, s, end, alnum);
      assert s[i..] == s[i..end] + s[end..];
    }
  }

  /** The scan from `i` meets no comment. */
  ghost predicate CommentFree(text: string, i: nat, alnum: Alnum)
    requires i <= |text|
    decreases |text| - i
  {
    i == |text| || (!Next(text, i, alnum).comment && CommentFree(text, Next(text, i, alnum).end, alnum))
  }

  lemma {:induction false} FixedIsCommentFree(s: string, i: nat, alnum: Alnum)
    requires i <= |s| && Strip(s, i, alnum) == s[i..]
    ensures CommentFree(s, i, alnum)
    decreases |s| - i
  {
    if i < |s| {
      StripSplits(s, s, i, alnum);
      assert s[i] == s[i..Next(s, i, alnum).end][0];
      FixedIsCommentFree(s, Next(s, i, alnum).end, alnum);
    }
  }

  /** Stripping leaves no comment, and stripping again changes nothing. */
  lemma {:induction false} StripIdempotent(text: string, alnum: Alnum)
    requires IsAlnum(alnum)
    ensures Strip(Strip(text, 0, alnum), 0, alnum) == Strip(text, 0, alnum)
    ensures CommentFree(Strip(text, 0, alnum), 0, alnum)
  {
    StripOnlyBlanks(text, 0, alnum);
    var s := Strip(text, 0, alnum);
    assert s[0..] == s;
    StripStable(text, s, 0, alnum);
    FixedIsCommentFree(s, 0, alnum);
  }

  // ---------- block comments by their grammar ----------

  /** A block comment from `i` up to `j`: what it opens with, a body, and what it closes with. */
  ghost predicate IsComment(text: string, i: nat, j: nat)
    decreases j - i, 0
  {
    i + 4 <= j <= |text| && Pair(text, i, '/', '*') && IsBody(text, i + 2, j - 2) && Pair(text, j - 2, '*', '/')
  }

  /** The body: characters that open or close nothing, and whole comments. */
  ghost predicate IsBody(text: string, a: nat, b: nat)
    decreases b - a, 2
  {
    a == b <= |text| ||
    (a < b <= |text| &&
     if Pair(text, a, '/', '*') then exists m: nat :: NestsTo(text, a, m, b)
     else !Pair(text, a, '*', '/') && IsBody(text, a + 1, b))
  }

  /** A comment from `a` to `m`, and the rest of a body up to `b`. */
  ghost predicate NestsTo(text: string, a: nat, m: nat, b: nat)
    decreases b - a, 1
  {
    a < m <= b && IsComment(text, a, m) && IsBody(text, m, b)
  }

  /** A body that is closed at `b`. */
  ghost predicate ClosesAt(text: string, a: nat, b: nat) {
    a <= b && IsBody(text, a, b) && Pair(text, b, '*', '/')
  }

  /** The scan passes a body and its closing as one. */
  lemma {:induction false} ScanPasses(text: string, a: nat, b: nat, depth: nat)
    requires ClosesAt(text, a, b) && depth > 0
    ensures BlockEnd(text, a, depth) == BlockEnd(text, b + 2, depth - 1)
    decreases b - a
  {
    if a < b {
      if Pair(text, a, '/', '*') {
        assert IsBody(text, a, b);
        var m: nat :| NestsTo(text, a, m, b);
        assert IsComment(text, a, m);
        ScanPasses(text, a + 2, m - 2, depth + 1);
        ScanPasses(text, m, b, depth);
      } else {
        ScanPasses(text, a + 1, b, depth);
      }
    }
  }

  /** Where nothing closes the body, the scan runs to the end of the text. */
  lemma {:induction false} ScanRunsOut(text: string, a: nat, depth: nat)
    requires a <= |text| && depth > 0 && forall b: nat :: !ClosesAt(text, a, b)
    ensures BlockEnd(text, a, depth) == |text|
    decreases |text| - a
  {
    if a < |text| {
      assert IsBody(text, a, a);
      assert !Pair(text, a, '*', '/') by {
        assert !ClosesAt(text, a, a);
      }
      if Pair(text, a, '/', '*') {
        var inner := a + 2;
        if b: nat :| ClosesAt(text, inner, b) {
          var m := b + 2;
          ScanPasses(text, inner, b, depth + 1);
          assert IsComment(text, a, m);
          forall c: nat ensures !ClosesAt(text, m, c) {
            if ClosesAt(text, m, c) {
              assert NestsTo(text, a, m, c) && ClosesAt(text, a, c);
            }
          }
          ScanRunsOut(text, m, depth);
        } else {
          ScanRunsOut(text, inner, depth + 1);
        }
      } else {
        var next := a + 1;
        forall b: nat ensures !ClosesAt(text, next, b) {
          if ClosesAt(text, next, b) {
            assert ClosesAt(text, a, b);
          }
        }
        ScanRunsOut(text, next, depth);
      }
    }
  }

  /** A block comment ends where its grammar says, or at the end of the text when it is never closed. */
  ghost predicate EndsBlock(text: string, i: nat, end: nat) {
    IsComment(text, i, end) || (end == |text| && forall j: nat :: !IsComment(text, i, j))
  }

  lemma {:induction false} BlockExactly(text: string, i: nat, end: nat)
    requires Pair(text, i, '/', '*')
    ensures EndsBlock(text, i, end) <==> end == BlockEnd(text, i + 2, 1)
  {
    forall j: nat | IsComment(text, i, j) ensures j == BlockEnd(text, i + 2, 1) {
      ScanPasses(text, i + 2, j - 2, 1);
    }
    if forall j: nat :: !IsComment(text, i, j) {
      var inner := i + 2;
      forall b: nat ensures !ClosesAt(text, inner, b) {
        if ClosesAt(text, inner, b) {
          assert IsComment(text, i, b + 2);
        }
      }
      ScanRunsOut(text, inner, 1);
    }
  }

  // ---------- what the scan takes, exactly ----------

  /** The line ends at `end`, or the text does. */
  ghost predicate EndsLine(text: string, i: nat, end: nat) {
    i <= end <= |text| && (forall k :: i <= k < end ==> text[k] != '\n') && (end < |text| ==> text[end] == '\n')
  }

  ghost predicate StartsRaw(text: string, i: nat, alnum: Alnum)
    requires i < |text|
  {
    !WordBefore(text, i, alnum) && exists j: nat, q: nat :: RawOpens(text, i, j, q)
  }

  /** From `i` to `end` there is a comment: to the end of its line, or by the
      grammar of block comments.  Or there is a literal, by what closes it.  Or
      one character. */
  ghost predicate Takes(text: string, i: nat, end: nat, comment: bool, alnum: Alnum)
    requires i < |text|
  {
    if Pair(text, i, '/', '/') then comment && EndsLine(text, i, end)
    else if Pair(text, i, '/', '*') then comment && EndsBlock(text, i, end)
    else if StartsRaw(text, i, alnum) then
      !comment && forall j: nat, q: nat :: RawOpens(text, i, j, q) ==> RawSpan(text, q + 1, q - j, end)
    else if text[i] == '"' then !comment && StringSpan(text, i + 1, end)
    else if text[i] == '\'' && i + 2 < |text| && (text[i + 2] == '\'' || text[i + 1] == '\\') then
      !comment && EscapeSpan(text, i + 2, end)
    else !comment && end == i + 1
  }

  lemma {:induction false} LineExactly(text: string, i: nat, end: nat)
    requires i <= |text|
    ensures EndsLine(text, i, end) <==> end == LineEnd(text, i)
  {
    var found := LineEnd(text, i);
    forall k: nat | k < |text| ensures At(text, k, "\n") <==> text[k] == '\n' {
      assert text[k..k + 1] == [text[k]];
    }
    assert forall k :: i <= k < found ==> !At(text, k, "\n");
  }

  lemma {:induction false} RawQuoteExactly(text: string, i: nat, alnum: Alnum)
    requires i < |text|
    ensures RawQuote(text, i, alnum).Some? <==> StartsRaw(text, i, alnum)
    ensures forall j: nat, q: nat :: RawOpens(text, i, j, q) && !WordBefore(text, i, alnum) ==>
              RawHashes(text, i) == j && RawQuote(text, i, alnum) == Some(q)
  {
    forall j: nat, q: nat | RawOpens(text, i, j, q) && !WordBefore(text, i, alnum)
      ensures RawHashes(text, i) == j && RawQuote(text, i, alnum) == Some(q)
    {
      HashesStop(text, j, q);
    }
    if RawQuote(text, i, alnum).Some? {
      assert RawOpens(text, i, RawHashes(text, i), RawQuote(text, i, alnum).value);
    }
  }

  lemma SpansAreOne(text: string, start: nat, hashes: nat, a: nat, b: nat)
    ensures StringSpan(text, start, a) && StringSpan(text, start, b) ==> a == b
    ensures EscapeSpan(text, start, a) && EscapeSpan(text, start, b) && start < |text| ==> a == b
    ensures RawSpan(text, start, hashes, a) && RawSpan(text, start, hashes, b) ==> a == b
  {
  }

  /** The scan takes what stands there, and nothing else. */
  lemma {:induction false} NextExactly(text: string, i: nat, end: nat, comment: bool, alnum: Alnum)
    requires i < |text|
    ensures Takes(text, i, end, comment, alnum) <==> Segment(end, comment) == Next(text, i, alnum)
  {
    if Pair(text, i, '/', '/') {
      LineExactly(text, i, end);
    } else if Pair(text, i, '/', '*') {
      BlockExactly(text, i, end);
    } else {
      RawQuoteExactly(text, i, alnum);
      if StartsRaw(text, i, alnum) {
        RawTaken(text, i, end, alnum);
      } else if text[i] == '"' {
        StringEndExactly(text, i + 1, i + 1);
        SpansAreOne(text, i + 1, 0, end, Min(StringEnd(text, i + 1) + 1, |text|));
      } else if CharOpens(text, i) {
        AfterQuote(text, i + 2);
        SpansAreOne(text, i + 2, 0, end, After(text, "'", i + 2));
      }
    }
  }

  lemma {:induction false} RawTaken(text: string, i: nat, end: nat, alnum: Alnum)
    requires i < |text| && StartsRaw(text, i, alnum)
    requires RawQuote(text, i, alnum).Some?
    ensures (forall j: nat, q: nat :: RawOpens(text, i, j, q) ==> RawSpan(text, q + 1, q - j, end)) <==>
            end == RawEnd(text, i, RawQuote(text, i, alnum).value)
  {
    var j, q := RawHashes(text, i), RawQuote(text, i, alnum).value;
    RawOpensOnce(text, i, alnum);
    RawEndSpans(text, i, q);
    SpansAreOne(text, q + 1, q - j, end, RawEnd(text, i, q));
  }

  lemma {:induction false} RawOpensOnce(text: string, i: nat, alnum: Alnum)
    requires i < |text| && RawQuote(text, i, alnum).Some?
    ensures forall j: nat, q: nat :: RawOpens(text, i, j, q) <==> j == RawHashes(text, i) && q == RawQuote(text, i, alnum).value
  {
    RawQuoteExactly(text, i, alnum);
    assert RawOpens(text, i, RawHashes(text, i), RawQuote(text, i, alnum).value);
  }

  lemma RawEndSpans(text: string, i: nat, q: nat)
    requires i < |text| && RawHashes(text, i) <= q < |text|
    ensures RawSpan(text, q + 1, q - RawHashes(text, i), RawEnd(text, i, q))
  {
    AfterRaw(text, q - RawHashes(text, i), q + 1);
  }

  /** `out` is the text from `i` on, what the scan takes one after another, with
      every character of a comment but the newlines a space. */
  ghost predicate IsStripped(text: string, i: nat, out: string, alnum: Alnum)
    requires i <= |text|
    decreases |text| - i, 1
  {
    if i == |text| then out == "" else exists end: nat, comment :: StripsTo(text, i, end, comment, out, alnum)
  }

  ghost predicate StripsTo(text: string, i: nat, end: nat, comment: bool, out: string, alnum: Alnum)
    requires i < |text|
    decreases |text| - i, 0
  {
    && i < end <= |text| && end - i <= |out| && Takes(text, i, end, comment, alnum)
    && (forall k :: i <= k < end ==> out[k - i] == if comment && text[k] != '\n' then ' ' else text[k])
    && IsStripped(text, end, out[end - i..], alnum)
  }

  /** Stripping is exactly that. */
  lemma {:induction false} StripExactly(text: string, i: nat, out: string, alnum: Alnum)
    requires i <= |text|
    ensures out == Strip(text, i, alnum) <==> IsStripped(text, i, out, alnum)
    decreases |text| - i
  {
    if i < |text| {
      var next := Next(text, i, alnum);
      NextExactly(text, i, next.end, next.comment, alnum);
      forall end: nat, comment | StripsTo(text, i, end, comment, out, alnum) ensures out == Strip(text, i, alnum) {
        NextExactly(text, i, end, comment, alnum);
        StripExactly(text, end, out[end - i..], alnum);
        assert out == out[..end - i] + out[end - i..];
        assert out[..end - i] == if comment then Blank(text[i..end]) else text[i..end];
      }
      if out == Strip(text, i, alnum) {
        var part := if next.comment then Blank(text[i..next.end]) else text[i..next.end];
        assert out[next.end - i..] == Strip(text, next.end, alnum);
        StripExactly(text, next.end, out[next.end - i..], alnum);
        assert out[..next.end - i] == part;
        assert forall k :: 0 <= k < next.end - i ==> out[k] == part[k];
        assert StripsTo(text, i, next.end, next.comment, out, alnum);
      }
    }
  }
}
