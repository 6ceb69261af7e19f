/** Searches over Rust source text shared by the scanners of the packaging check. */
module RustText {
  import opened Text

  /** Whether a character is a letter or digit, left open. */
  type Alnum = char -> bool

  predicate Pair(text: string, i: nat, c: char, d: char) {
    i + 1 < |text| && text[i] == c && text[i + 1] == d
  }

  predicate WordBefore(text: string, i: nat, alnum: Alnum)
    requires i <= |text|
  {
    i > 0 && (alnum(text[i - 1]) || text[i - 1] == '_')
  }

  predicate At(text: string, i: nat, sub: string) {
    i + |sub| <= |text| && text[i..i + |sub|] == sub
  }

  /** The first occurrence at or after `from`. */
  function Find(text: string, sub: string, from: nat): (r: Option<nat>)
    ensures r.Some? ==> from <= r.value && At(text, r.value, sub)
    ensures forall k {:trigger At(text, k, sub)} :: from <= k && (r.Some? ==> k < r.value) ==> !At(text, k, sub)
    decreases |text| - from
  {
    if from + |sub| > |text| then None
    else if At(text, from, sub) then Some(from)
    else Find(text, sub, from + 1)
  }

  /** The first index at or after `j` that holds no `#`. */
  function HashesEnd(text: string, j: nat): (r: nat)
    requires j <= |text|
    ensures j <= r <= |text|
    ensures forall k :: j <= k < r ==> text[k] == '#'
    ensures r < |text| ==> text[r] != '#'
    decreases |text| - j
  {
    if j < |text| && text[j] == '#' then HashesEnd(text, j + 1) else j
  }

  method CountHashes(text: string, start: nat) returns (j: nat)
    requires start <= |text|
    ensures j == HashesEnd(text, start)
  {
    j := start;
    while j < |text| && text[j] == '#'
      invariant start <= j <= |text| && HashesEnd(text, start) == HashesEnd(text, j)
    {
      j := j + 1;
    }
  }

  /** What closes a raw string opened with so many hashes. */
  function RawClose(hashes: nat): (r: string)
    ensures |r| == hashes + 1
  {
    ['"'] + seq(hashes, _ => '#')
  }

  /** The index after the closing delimiter that `Find` gives, or the end of the text. */
  function After(text: string, sub: string, from: nat): (r: nat)
    requires from <= |text|
    ensures from <= r <= |text|
  {
    match Find(text, sub, from)
    case None => |text|
    case Some(k) => k + |sub|
  }

  /** The index of the quote that ends a string, escapes skipped, or one at or past the end. */
  function StringEnd(text: string, j: nat): (r: nat)
    requires j <= |text| + 1
    ensures j <= r <= |text| + 1
    ensures r < |text| ==> text[r] == '"'
    decreases |text| + 1 - j
  {
    if j >= |text| || text[j] == '"' then j
    else if text[j] == '\\' then StringEnd(text, j + 2)
    else StringEnd(text, j + 1)
  }

  method SkipString(text: string, start: nat) returns (j: nat)
    requires start <= |text|
    ensures j == StringEnd(text, start)
  {
    j := start;
    while j < |text| && text[j] != '"'
      invariant start <= j <= |text| + 1 && StringEnd(text, start) == StringEnd(text, j)
      decreases |text| + 1 - j
    {
      j := j + if text[j] == '\\' then 2 else 1;
    }
  }

  /** How many backslashes in a row end just before `k`, counted from `start` on. */
  function Backslashes(text: string, start: nat, k: nat): nat
    requires start <= k <= |text|
    decreases k
  {
    if k > start && text[k - 1] == '\\' then 1 + Backslashes(text, start, k - 1) else 0
  }

  /** A quote that no backslash escapes. */
  predicate IsClosingQuote(text: string, start: nat, k: nat)
    requires start <= k < |text|
  {
    text[k] == '"' && Backslashes(text, start, k) % 2 == 0
  }

  /** A string ends at the first quote preceded by an even number of backslashes. */
  lemma {:induction false} StringEndExactly(text: string, start: nat, j: nat)
    requires start <= j <= |text| + 1
    requires j <= |text| ==> Backslashes(text, start, j) % 2 == 0
    requires forall k :: start <= k < j && k < |text| ==> !IsClosingQuote(text, start, k)
    ensures var end := StringEnd(text, j);
            && (end < |text| ==> IsClosingQuote(text, start, end))
            && forall k :: start <= k < end && k < |text| ==> !IsClosingQuote(text, start, k)
    decreases |text| + 1 - j
  {
    if j < |text| && text[j] != '"' {
      StringEndExactly(text, start, if text[j] == '\\' then j + 2 else j + 1);
    }
  }

  /** Where a raw string that opens at `i`, with its optional `b`, has its hashes. */
  predicate RawOpens(text: string, i: nat, j: nat, q: nat)
    requires i < |text|
  {
    && (if text[i] == 'b' then Pair(text, i, 'b', 'r') && j == i + 2 else text[i] == 'r' && j == i + 1)
    && j <= q < |text| && text[q] == '"' && forall k :: j <= k < q ==> text[k] == '#'
  }

  /** The text from `start` to `end` closes a string at its last place, and nowhere before, or not at all. */
  predicate StringSpan(text: string, start: nat, end: nat) {
    && start <= end <= |text| && (end < |text| ==> start < end && IsClosingQuote(text, start, end - 1))
    && forall k :: start <= k < end - 1 ==> !IsClosingQuote(text, start, k)
  }

  /** The text from `start` to `end` has a quote at its last place, and nowhere before, or none at all. */
  predicate EscapeSpan(text: string, start: nat, end: nat) {
    && start <= end <= |text| && (end < |text| ==> start < end && text[end - 1] == '\'')
    && forall k :: start <= k < end - 1 ==> text[k] != '\''
  }

  lemma {:induction false} AfterQuote(text: string, from: nat)
    requires from <= |text|
    ensures EscapeSpan(text, from, After(text, "'", from))
    decreases |text| - from
  {
    if from < |text| {
      assert text[from..from + 1] == [text[from]];
      if text[from] != '\'' {
        AfterQuote(text, from + 1);
      }
    }
  }

  lemma {:induction false} HashesStop(text: string, j: nat, q: nat)
    requires j <= q < |text| && text[q] != '#' && forall k :: j <= k < q ==> text[k] == '#'
    ensures HashesEnd(text, j) == q
    decreases q - j
  {
    if j < q {
      HashesStop(text, j + 1, q);
    }
  }

  /** A quote and so many hashes stand at `k`. */
  predicate IsRawClose(text: string, k: nat, hashes: nat) {
    k + hashes < |text| && text[k] == '"' && forall n :: k < n <= k + hashes ==> text[n] == '#'
  }

  /** The text from `start` to `end` has such a closing at its last places, and none before, or none at all. */
  predicate RawSpan(text: string, start: nat, hashes: nat, end: nat) {
    && start <= end <= |text| && (end < |text| ==> start + hashes < end && IsRawClose(text, end - 1 - hashes, hashes))
    && forall k :: start <= k && k + hashes < end - 1 ==> !IsRawClose(text, k, hashes)
  }

  lemma RawCloseAt(text: string, k: nat, hashes: nat)
    ensures At(text, k, RawClose(hashes)) <==> IsRawClose(text, k, hashes)
  {
    var close := RawClose(hashes);
    if k + hashes < |text| {
      var found := text[k..k + hashes + 1];
      assert forall n :: k <= n <= k + hashes ==> text[n] == found[n - k];
      assert forall n :: 0 <= n <= hashes ==> close[n] == if n == 0 then '"' else '#';
      if IsRawClose(text, k, hashes) {
        assert forall n :: 0 <= n <= hashes ==> found[n] == text[k + n];
        assert found == close;
      }
      if found == close {
        assert forall n :: k < n <= k + hashes ==> text[n] == close[n - k];
      }
    }
  }

  lemma {:induction false} AfterRaw(text: string, hashes: nat, from: nat)
    requires from <= |text|
    ensures RawSpan(text, from, hashes, After(text, RawClose(hashes), from))
  {
    var end := After(text, RawClose(hashes), from);
    forall k: nat ensures At(text, k, RawClose(hashes)) <==> IsRawClose(text, k, hashes) {
      RawCloseAt(text, k, hashes);
    }
    if end < |text| {
      assert At(text, end - 1 - hashes, RawClose(hashes));
    }
    forall k: nat | from <= k && k + hashes < end - 1 ensures !IsRawClose(text, k, hashes) {
      assert !At(text, k, RawClose(hashes));
    }
  }

  /** The smaller of two indices. */
  function Min(a: nat, b: nat): nat {
    if a < b then a else b
  }

  // ---------- agreement of two texts on a range ----------

  ghost predicate SameOn(s: string, t: string, from: nat, to: nat) {
    |s| == |t| && to <= |t| && forall k :: from <= k < to ==> s[k] == t[k]
  }

  lemma AtSame(s: string, t: string, sub: string, k: nat, from: nat, to: nat)
    requires SameOn(s, t, from, to) && from <= k && k + |sub| <= to
    ensures At(s, k, sub) <==> At(t, k, sub)
  {
    assert s[k..k + |sub|] == t[k..k + |sub|];
  }

  /** A search is settled by the text up to the end of what it finds. */
  lemma {:induction false} AfterSame(s: string, t: string, sub: string, from: nat)
    requires from <= |t| && SameOn(s, t, from, After(t, sub, from))
    ensures After(s, sub, from) == After(t, sub, from)
    decreases |t| - from
  {
    var to := After(t, sub, from);
    if from + |sub| <= |t| {
      assert from + |sub| <= to by {
        if Find(t, sub, from).Some? {
          assert from <= Find(t, sub, from).value;
        }
      }
      AtSame(s, t, sub, from, from, to);
      if !At(t, from, sub) {
        assert After(t, sub, from + 1) == to;
        AfterSame(s, t, sub, from + 1);
      }
    }
  }

  lemma {:induction false} StringEndSame(s: string, t: string, j: nat)
    requires j <= |t| + 1 && |s| == |t| && forall k :: j <= k < |t| && k <= StringEnd(t, j) ==> s[k] == t[k]
    ensures StringEnd(s, j) == StringEnd(t, j)
    decreases |t| + 1 - j
  {
    if j < |t| && t[j] != '"' {
      StringEndSame(s, t, if t[j] == '\\' then j + 2 else j + 1);
    }
  }

  lemma {:induction false} HashesEndSame(s: string, t: string, j: nat)
    requires j <= |t| && |s| == |t| && forall k :: j <= k < |t| && k <= HashesEnd(t, j) ==> s[k] == t[k]
    ensures HashesEnd(s, j) == HashesEnd(t, j)
    decreases |t| - j
  {
    if j < |t| && t[j] == '#' {
      HashesEndSame(s, t, j + 1);
    }
  }
}
