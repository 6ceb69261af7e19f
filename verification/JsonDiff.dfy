/** The structural difference of two JSON documents as a list of JSON pointers
    (RFC 6901), and what applying it reconstructs. */
module JsonDiff {
  import opened Ordering
  import opened Text

  /** A document: a scalar by its canonical text, an array, or an object.  Two
      documents have the same canonical encoding when they are equal. */
  datatype Json = Scalar(text: string) | Items(items: seq<Json>) | Members(members: map<string, Json>)

  // ---------- pointer text ----------

  function Replace(s: string, c: char, with: string): string {
    if s == "" then ""
    else (if s[0] == c then with else [s[0]]) + Replace(s[1..], c, with)
  }

  /** A key as a reference token: `~` first, then `/`. */
  function Escape(key: string): string {
    Replace(Replace(key, '~', "~0"), '/', "~1")
  }

  /** Every occurrence of a two-character escape replaced, left to right. */
  function Restore(s: string, escape: char, with: char): string {
    if |s| < 2 then s
    else if s[0] == '~' && s[1] == escape then [with] + Restore(s[2..], escape, with)
    else [s[0]] + Restore(s[1..], escape, with)
  }

  /** Section 4 of RFC 6901: `~1` first, then `~0`. */
  function Unescape(token: string): string {
    Restore(Restore(token, '1', '/'), '0', '~')
  }

  function Render(path: seq<string>): string {
    if path == [] then "" else "/" + Escape(path[0]) + Render(path[1..])
  }

  /** The text up to the next `/`. */
  function Token(s: string): (r: string)
    ensures |r| <= |s| && s[..|r|] == r
    ensures forall i :: 0 <= i < |r| ==> r[i] != '/'
    ensures |r| < |s| ==> s[|r|] == '/'
  {
    if s == "" || s[0] == '/' then "" else [s[0]] + Token(s[1..])
  }

  /** The reference tokens a pointer denotes, section 3 of RFC 6901. */
  function Parse(pointer: string): seq<string>
    decreases |pointer|
  {
    if pointer == "" then []
    else
      var token := Token(pointer[1..]);
      [Unescape(token)] + Parse(pointer[1 + |token|..])
  }

  // ---------- the difference ----------

  /** The changed paths as reference tokens. */
  function Diff(before: Json, after: Json): seq<seq<string>>
    decreases before, 1
  {
    if before == after then []
    else if before.Members? && after.Members? then
      DiffKeys(before, after, Sorted(before.members.Keys + after.members.Keys))
    else [[]]
  }

  function DiffKeys(before: Json, after: Json, keys: seq<string>): seq<seq<string>>
    requires before.Members? && after.Members?
    decreases before, 0, |keys|
  {
    if keys == [] then []
    else
      var key := keys[|keys| - 1];
      DiffKeys(before, after, keys[..|keys| - 1]) +
      if key in before.members && key in after.members then Under(key, Diff(before.members[key], after.members[key]))
      else [[key]]
  }

  function Under(key: string, paths: seq<seq<string>>): (r: seq<seq<string>>)
    ensures |r| == |paths| && forall i :: 0 <= i < |r| ==> r[i] == [key] + paths[i]
  {
    seq(|paths|, i requires 0 <= i < |paths| => [key] + paths[i])
  }

  function Pointers(prefix: string, paths: seq<seq<string>>): (r: seq<string>)
    ensures |r| == |paths| && forall i :: 0 <= i < |r| ==> r[i] == prefix + Render(paths[i])
  {
    seq(|paths|, i requires 0 <= i < |paths| => prefix + Render(paths[i]))
  }

  /** The reported pointers.  A document root is written `/`. */
  function Changed(before: Json, after: Json, prefix: string): seq<string> {
    if prefix == "" && Diff(before, after) == [[]] then ["/"] else Pointers(prefix, Diff(before, after))
  }

  /** The comparison as it runs. */
  method ChangedPaths(before: Json, after: Json, prefix: string) returns (r: seq<string>)
    ensures r == Changed(before, after, prefix)
    decreases before
  {
    if before == after {
      return [];
    }
    if before.Members? && after.Members? {
      r := [];
      var keys := Sorted(before.members.Keys + after.members.Keys);
      for i := 0 to |keys|
        invariant r == Pointers(prefix, DiffKeys(before, after, keys[..i]))
      {
        var key := keys[i];
        var path := prefix + "/" + Escape(key);
        KeyPointers(before, after, prefix, keys, i);
        if key !in before.members || key !in after.members {
          r := r + [path];
        } else {
          assert |path| > 0;
          var more := ChangedPaths(before.members[key], after.members[key], path);
          r := r + more;
        }
      }
      assert keys[..|keys|] == keys;
      DiffNotRoot(before, after, keys);
    } else {
      RenderEmpty(prefix);
      r := [if prefix == "" then "/" else prefix];
    }
  }

  lemma RenderOne(key: string)
    ensures Render([key]) == "/" + Escape(key)
  {
    assert Render([key][1..]) == "";
  }

  lemma RenderEmpty(prefix: string)
    ensures Pointers(prefix, [[]]) == [prefix]
  {
    assert Render([]) == "" && prefix + "" == prefix;
  }

  lemma PointersConcat(prefix: string, a: seq<seq<string>>, b: seq<seq<string>>)
    ensures Pointers(prefix, a + b) == Pointers(prefix, a) + Pointers(prefix, b)
  {
  }

  lemma PointersUnder(prefix: string, key: string, paths: seq<seq<string>>)
    ensures Pointers(prefix, Under(key, paths)) == Pointers(prefix + "/" + Escape(key), paths)
  {
    forall i | 0 <= i < |paths|
      ensures prefix + Render([key] + paths[i]) == prefix + "/" + Escape(key) + Render(paths[i])
    {
      assert ([key] + paths[i])[1..] == paths[i];
    }
  }

  lemma KeyPointers(before: Json, after: Json, prefix: string, keys: seq<string>, i: nat)
    requires before.Members? && after.Members? && i < |keys|
    ensures var key := keys[i];
            var path := prefix + "/" + Escape(key);
            Pointers(prefix, DiffKeys(before, after, keys[..i + 1])) ==
            Pointers(prefix, DiffKeys(before, after, keys[..i])) +
            if key in before.members && key in after.members
            then Pointers(path, Diff(before.members[key], after.members[key])) else [path]
  {
    var key := keys[i];
    assert keys[..i + 1][..i] == keys[..i];
    if key in before.members && key in after.members {
      var paths := Diff(before.members[key], after.members[key]);
      PointersConcat(prefix, DiffKeys(before, after, keys[..i]), Under(key, paths));
      PointersUnder(prefix, key, paths);
    } else {
      PointersConcat(prefix, DiffKeys(before, after, keys[..i]), [[key]]);
      PointerOne(prefix, key);
    }
  }

  lemma PointerOne(prefix: string, key: string)
    ensures Pointers(prefix, [[key]]) == [prefix + "/" + Escape(key)]
  {
    RenderOne(key);
    Assoc(prefix, "/", Escape(key));
  }

  /** Below an object, no changed path is the root. */
  lemma {:induction false} DiffNotRoot(before: Json, after: Json, keys: seq<string>)
    requires before.Members? && after.Members?
    ensures forall i :: 0 <= i < |DiffKeys(before, after, keys)| ==>
              DiffKeys(before, after, keys)[i] != [] && DiffKeys(before, after, keys)[i][0] in keys
    decreases |keys|
  {
    if keys != [] {
      DiffNotRoot(before, after, keys[..|keys| - 1]);
    }
  }

  // ---------- pointers read back ----------

  lemma {:induction false} ReplaceStep(s: string, c: char, with: string, d: char)
    ensures Replace([d] + s, c, with) == (if d == c then with else [d]) + Replace(s, c, with)
  {
    assert ([d] + s)[1..] == s;
  }

  lemma {:induction false} ReplaceTwo(s: string, c: char, with: string, d: char, e: char)
    requires d != c && e != c
    ensures Replace([d, e] + s, c, with) == [d, e] + Replace(s, c, with)
  {
    assert [d, e] + s == [d] + ([e] + s);
    ReplaceStep(s, c, with, e);
    ReplaceStep([e] + s, c, with, d);
  }

  lemma {:induction false} EscapeStep(c: char, key: string)
    ensures Escape([c] + key) == (if c == '~' then "~0" else if c == '/' then "~1" else [c]) + Escape(key)
  {
    ReplaceStep(key, '~', "~0", c);
    if c == '~' {
      ReplaceTwo(Replace(key, '~', "~0"), '/', "~1", '~', '0');
    } else {
      ReplaceStep(Replace(key, '~', "~0"), '/', "~1", c);
    }
  }

  lemma {:induction false} EscapeHasNoSlash(key: string)
    ensures forall i :: 0 <= i < |Escape(key)| ==> Escape(key)[i] != '/'
    decreases |key|
  {
    if key != "" {
      assert key == [key[0]] + key[1..];
      EscapeStep(key[0], key[1..]);
      EscapeHasNoSlash(key[1..]);
    }
  }

  lemma {:induction false} RestoreStep(c: char, s: string, escape: char, with: char)
    requires c != '~'
    ensures Restore([c] + s, escape, with) == [c] + Restore(s, escape, with)
  {
    assert ([c] + s)[1..] == s;
  }

  lemma {:induction false} RestoreTwo(c: char, s: string, escape: char, with: char)
    requires c != '~'
    ensures Restore(['~', c] + s, escape, with) ==
            (if c == escape then [with] else ['~', c]) + Restore(s, escape, with)
  {
    var whole, rest := ['~', c] + s, Restore(s, escape, with);
    assert whole[0] == '~' && whole[1] == c && |whole| >= 2;
    if c == escape {
      assert whole[2..] == s;
    } else {
      assert whole[1..] == [c] + s;
      RestoreStep(c, s, escape, with);
      Assoc(['~'], [c], rest);
      assert ['~'] + [c] == ['~', c];
    }
  }

  lemma {:induction false} SlashesRestored(key: string)
    ensures Restore(Escape(key), '1', '/') == Replace(key, '~', "~0")
    decreases |key|
  {
    if key != "" {
      var c, rest := key[0], key[1..];
      assert key == [c] + rest;
      SlashesRestored(rest);
      EscapeStep(c, rest);
      if c == '~' {
        RestoreTwo('0', Escape(rest), '1', '/');
      } else if c == '/' {
        RestoreTwo('1', Escape(rest), '1', '/');
      } else {
        RestoreStep(c, Escape(rest), '1', '/');
      }
    }
  }

  lemma {:induction false} TildesRestored(key: string)
    ensures Restore(Replace(key, '~', "~0"), '0', '~') == key
    decreases |key|
  {
    if key != "" {
      var c, rest := key[0], Replace(key[1..], '~', "~0");
      assert key == [c] + key[1..];
      TildesRestored(key[1..]);
      if c == '~' {
        RestoreTwo('0', rest, '0', '~');
      } else {
        RestoreStep(c, rest, '0', '~');
      }
    }
  }

  /** Unescaping undoes escaping, for every key. */
  lemma EscapeRoundTrip(key: string)
    ensures Unescape(Escape(key)) == key
  {
    SlashesRestored(key);
    TildesRestored(key);
  }

  lemma {:induction false} TokenStops(s: string, rest: string)
    requires forall i :: 0 <= i < |s| ==> s[i] != '/'
    requires rest == "" || rest[0] == '/'
    ensures Token(s + rest) == s
    decreases |s|
  {
    if s == "" {
      assert s + rest == rest;
    } else {
      assert (s + rest)[1..] == s[1..] + rest;
      TokenStops(s[1..], rest);
    }
  }

  lemma ParseStep(token: string, rest: string)
    requires forall i :: 0 <= i < |token| ==> token[i] != '/'
    requires rest == "" || rest[0] == '/'
    ensures Parse("/" + token + rest) == [Unescape(token)] + Parse(rest)
  {
    var pointer := "/" + token + rest;
    assert pointer[1..] == token + rest;
    TokenStops(token, rest);
    assert pointer[1 + |token|..] == rest;
  }

  /** Reading a rendered pointer gives back its reference tokens. */
  lemma {:induction false} PointerRoundTrip(path: seq<string>)
    ensures Parse(Render(path)) == path
    decreases |path|
  {
    if path != [] {
      var token, rest := Escape(path[0]), Render(path[1..]);
      EscapeHasNoSlash(path[0]);
      ParseStep(token, rest);
      EscapeRoundTrip(path[0]);
      PointerRoundTrip(path[1..]);
      assert [path[0]] + path[1..] == path;
    }
  }

  // ---------- the paths are minimal and apart ----------

  /** No path is reported exactly when the documents are equal. */
  lemma {:induction false} DiffEmptyExactly(before: Json, after: Json)
    ensures Diff(before, after) == [] <==> before == after
    decreases before, 1
  {
    if before.Members? && after.Members? {
      var b, a := before.members, after.members;
      SortedLists(b.Keys + a.Keys);
      DiffKeysEmpty(before, after, Sorted(b.Keys + a.Keys));
      SameMembers(b, a);
    }
  }

  lemma SameMembers(b: map<string, Json>, a: map<string, Json>)
    ensures (forall key :: key in b.Keys + a.Keys ==> key in b && key in a && b[key] == a[key]) ==> b == a
  {
    if forall key :: key in b.Keys + a.Keys ==> key in b && key in a && b[key] == a[key] {
      assert b.Keys == a.Keys;
    }
  }

  lemma {:induction false} DiffKeysEmpty(before: Json, after: Json, keys: seq<string>)
    requires before.Members? && after.Members?
    ensures DiffKeys(before, after, keys) == [] ==>
              forall key :: key in keys ==>
                key in before.members && key in after.members && before.members[key] == after.members[key]
    decreases before, 0, |keys|
  {
    if keys != [] {
      var key := keys[|keys| - 1];
      DiffKeysEmpty(before, after, keys[..|keys| - 1]);
      SplitLast(keys);
      if key in before.members && key in after.members {
        DiffEmptyExactly(before.members[key], after.members[key]);
      }
    }
  }

  /** No path of the list is a prefix of another, nor the same. */
  ghost predicate Apart(paths: seq<seq<string>>) {
    forall i, j :: 0 <= i < |paths| && 0 <= j < |paths| && i != j ==> !(paths[i] <= paths[j])
  }

  lemma {:induction false} DiffApart(before: Json, after: Json)
    ensures Apart(Diff(before, after))
    decreases before, 1
  {
    if before != after && before.Members? && after.Members? {
      var keys := before.members.Keys + after.members.Keys;
      SortedLists(keys);
      DiffKeysApart(before, after, Sorted(keys));
    }
  }

  lemma {:induction false} DiffKeysApart(before: Json, after: Json, keys: seq<string>)
    requires before.Members? && after.Members?
    requires forall i, j :: 0 <= i < j < |keys| ==> keys[i] != keys[j]
    ensures Apart(DiffKeys(before, after, keys))
    decreases before, 0, |keys|
  {
    if keys != [] {
      var front, key := keys[..|keys| - 1], keys[|keys| - 1];
      DiffKeysApart(before, after, front);
      DiffNotRoot(before, after, front);
      if key in before.members && key in after.members {
        var paths := Diff(before.members[key], after.members[key]);
        DiffApart(before.members[key], after.members[key]);
        UnderApart(key, paths);
        ConcatApart(DiffKeys(before, after, front), Under(key, paths), key);
      } else {
        ConcatApart(DiffKeys(before, after, front), [[key]], key);
      }
    }
  }

  lemma {:induction false} UnderApart(key: string, paths: seq<seq<string>>)
    requires Apart(paths)
    ensures Apart(Under(key, paths))
  {
    var under := Under(key, paths);
    assert forall i :: 0 <= i < |under| ==> under[i][1..] == paths[i];
  }

  lemma {:induction false} ConcatApart(a: seq<seq<string>>, b: seq<seq<string>>, key: string)
    requires Apart(a) && Apart(b)
    requires forall i :: 0 <= i < |a| ==> a[i] != [] && a[i][0] != key
    requires forall i :: 0 <= i < |b| ==> b[i] != [] && b[i][0] == key
    ensures Apart(a + b)
  {
  }

  // ---------- applying the paths ----------

  /** The value a pointer denotes in a document. */
  function Get(doc: Json, path: seq<string>): Option<Json> {
    if path == [] then Some(doc)
    else if doc.Members? && path[0] in doc.members then Get(doc.members[path[0]], path[1..])
    else None
  }

  ghost predicate IsObjectAt(doc: Json, path: seq<string>) {
    Get(doc, path).Some? && Get(doc, path).value.Members?
  }

  /** The documents differ at the path and are not both objects there, and both
      are objects all the way down to it. */
  ghost predicate IsDifference(before: Json, after: Json, path: seq<string>) {
    && Get(before, path) != Get(after, path) && !(IsObjectAt(before, path) && IsObjectAt(after, path))
    && AreObjectsDown(before, after, path)
  }

  ghost predicate AreObjectsDown(before: Json, after: Json, path: seq<string>) {
    forall n :: 0 <= n < |path| ==> IsObjectAt(before, path[..n]) && IsObjectAt(after, path[..n])
  }

  lemma {:induction false} DownBelow(before: Json, after: Json, path: seq<string>)
    requires path != [] && before.Members? && after.Members? && path[0] in before.members && path[0] in after.members
    ensures AreObjectsDown(before, after, path) <==>
            AreObjectsDown(before.members[path[0]], after.members[path[0]], path[1..])
  {
    var b, a, rest := before.members[path[0]], after.members[path[0]], path[1..];
    ObjectsBelow(before, path);
    ObjectsBelow(after, path);
    assert path[..0] == [];
    if AreObjectsDown(before, after, path) {
      forall n | 0 <= n < |rest| ensures IsObjectAt(b, rest[..n]) && IsObjectAt(a, rest[..n]) {
        var m := n + 1;
        assert IsObjectAt(before, path[..m]) && IsObjectAt(after, path[..m]);
      }
    }
    if AreObjectsDown(b, a, rest) {
      forall m | 0 <= m < |path| ensures IsObjectAt(before, path[..m]) && IsObjectAt(after, path[..m]) {
        if m > 0 {
          var n := m - 1;
          assert IsObjectAt(b, rest[..n]) && IsObjectAt(a, rest[..n]);
        }
      }
    }
  }

  lemma {:induction false} ObjectsBelow(doc: Json, path: seq<string>)
    requires path != [] && doc.Members? && path[0] in doc.members
    ensures Get(doc, path) == Get(doc.members[path[0]], path[1..])
    ensures forall n :: 0 < n <= |path| ==> (IsObjectAt(doc, path[..n]) <==> IsObjectAt(doc.members[path[0]], path[1..][..n - 1]))
  {
    forall n | 0 < n <= |path| ensures Get(doc, path[..n]) == Get(doc.members[path[0]], path[1..][..n - 1]) {
      assert path[..n][1..] == path[1..][..n - 1] && path[..n][0] == path[0];
    }
  }

  /** Below a key of two objects: a difference of its two values, or the key itself where one has none. */
  lemma {:induction false} DifferenceBelow(before: Json, after: Json, path: seq<string>)
    requires path != [] && before.Members? && after.Members?
    ensures IsDifference(before, after, path) <==>
            if path[0] in before.members && path[0] in after.members
            then IsDifference(before.members[path[0]], after.members[path[0]], path[1..])
            else |path| == 1 && (path[0] in before.members || path[0] in after.members)
  {
    var key, rest := path[0], path[1..];
    assert path[..0] == [] && IsObjectAt(before, path[..0]) && IsObjectAt(after, path[..0]);
    if key in before.members && key in after.members {
      ObjectsBelow(before, path);
      ObjectsBelow(after, path);
      DownBelow(before, after, path);
      assert path[..|path|] == path && rest[..|rest|] == rest;
    } else if |path| > 1 {
      assert path[..1][0] == key && path[..1][1..] == [];
      assert !IsObjectAt(before, path[..1]) || !IsObjectAt(after, path[..1]);
    } else {
      assert path[1..] == [];
      forall n | 0 <= n < |path| ensures IsObjectAt(before, path[..n]) && IsObjectAt(after, path[..n]) {
        assert n == 0;
      }
      assert Get(before, path).Some? <==> key in before.members;
      assert Get(after, path).Some? <==> key in after.members;
    }
  }

  lemma {:induction false} DiffKeysMember(before: Json, after: Json, keys: seq<string>, path: seq<string>)
    requires before.Members? && after.Members?
    ensures path in DiffKeys(before, after, keys) <==>
            path != [] && path[0] in keys &&
            if path[0] in before.members && path[0] in after.members
            then path[1..] in Diff(before.members[path[0]], after.members[path[0]])
            else |path| == 1
    decreases |keys|
  {
    if keys != [] {
      var front, key := keys[..|keys| - 1], keys[|keys| - 1];
      DiffKeysMember(before, after, front, path);
      SplitLast(keys);
      if key in before.members && key in after.members {
        UnderMember(key, Diff(before.members[key], after.members[key]), path);
      } else {
        assert |path| == 1 && path[0] == key ==> path == [key];
      }
    }
  }

  lemma {:induction false} UnderMember(key: string, paths: seq<seq<string>>, path: seq<string>)
    ensures path in Under(key, paths) <==> path != [] && path[0] == key && path[1..] in paths
  {
    if path in Under(key, paths) {
      var i :| 0 <= i < |paths| && Under(key, paths)[i] == path;
      assert path[1..] == paths[i];
    }
    if path != [] && path[0] == key && path[1..] in paths {
      var i :| 0 <= i < |paths| && paths[i] == path[1..];
      assert Under(key, paths)[i] == path;
    }
  }

  /** The paths are exactly the differences: as deep as both documents are objects, and no deeper. */
  lemma {:induction false} DiffExactly(before: Json, after: Json, path: seq<string>)
    ensures path in Diff(before, after) <==> IsDifference(before, after, path)
    decreases |path|
  {
    if before != after && before.Members? && after.Members? {
      var keys := before.members.Keys + after.members.Keys;
      SortedLists(keys);
      DiffKeysMember(before, after, Sorted(keys), path);
      if path != [] {
        DifferenceBelow(before, after, path);
        if path[0] in before.members && path[0] in after.members {
          DiffExactly(before.members[path[0]], after.members[path[0]], path[1..]);
        }
      }
    } else if before != after && path != [] {
      assert path[..0] == [];
      assert !IsObjectAt(before, path[..0]) || !IsObjectAt(after, path[..0]);
    }
  }

  /** `p` comes before `q`: by the key at which they part. */
  ghost predicate Precedes(p: seq<string>, q: seq<string>) {
    exists n: nat :: PartsAt(p, q, n)
  }

  ghost predicate PartsAt(p: seq<string>, q: seq<string>, n: nat) {
    n < |p| && n < |q| && p[..n] == q[..n] && p[n] != q[n] && LexLeq(p[n], q[n])
  }

  ghost predicate Ascend(paths: seq<seq<string>>) {
    forall i, j :: 0 <= i < j < |paths| ==> Precedes(paths[i], paths[j])
  }

  /** The paths come in the order of their keys. */
  lemma {:induction false} DiffAscends(before: Json, after: Json)
    ensures Ascend(Diff(before, after))
    decreases before, 1
  {
    if before != after && before.Members? && after.Members? {
      var keys := before.members.Keys + after.members.Keys;
      SortedLists(keys);
      DiffKeysAscend(before, after, Sorted(keys));
    }
  }

  lemma {:induction false} DiffKeysAscend(before: Json, after: Json, keys: seq<string>)
    requires before.Members? && after.Members?
    requires forall i, j :: 0 <= i < j < |keys| ==> keys[i] != keys[j] && LexLeq(keys[i], keys[j])
    ensures Ascend(DiffKeys(before, after, keys))
    decreases before, 0, |keys|
  {
    if keys != [] {
      var front, key := keys[..|keys| - 1], keys[|keys| - 1];
      DiffKeysAscend(before, after, front);
      var earlier := DiffKeys(before, after, front);
      forall i | 0 <= i < |earlier| ensures earlier[i] != [] && earlier[i][0] != key && LexLeq(earlier[i][0], key) {
        DiffKeysMember(before, after, front, earlier[i]);
      }
      if key in before.members && key in after.members {
        DiffAscends(before.members[key], after.members[key]);
        UnderAscends(key, Diff(before.members[key], after.members[key]));
        ConcatAscends(earlier, Under(key, Diff(before.members[key], after.members[key])), key);
      } else {
        ConcatAscends(earlier, [[key]], key);
      }
    }
  }

  lemma {:induction false} UnderAscends(key: string, paths: seq<seq<string>>)
    requires Ascend(paths)
    ensures Ascend(Under(key, paths))
  {
    var under := Under(key, paths);
    forall i, j | 0 <= i < j < |under| ensures Precedes(under[i], under[j]) {
      var n: nat :| PartsAt(paths[i], paths[j], n);
      assert under[i][..n + 1] == [key] + paths[i][..n] && under[j][..n + 1] == [key] + paths[j][..n];
      assert PartsAt(under[i], under[j], n + 1);
    }
  }

  lemma {:induction false} ConcatAscends(a: seq<seq<string>>, b: seq<seq<string>>, key: string)
    requires Ascend(a) && Ascend(b)
    requires forall i :: 0 <= i < |a| ==> a[i] != [] && a[i][0] != key && LexLeq(a[i][0], key)
    requires forall i :: 0 <= i < |b| ==> b[i] != [] && b[i][0] == key
    ensures Ascend(a + b)
  {
    forall i, j | 0 <= i < j < |a + b| ensures Precedes((a + b)[i], (a + b)[j]) {
      if i < |a| <= j {
        assert PartsAt((a + b)[i], (a + b)[j], 0);
      }
    }
  }

  /** The document with the value at a pointer replaced, or deleted. */
  function Put(doc: Json, path: seq<string>, value: Option<Json>): Json
    decreases |path|
  {
    if path == [] then (if value.Some? then value.value else doc)
    else if !doc.Members? then doc
    else if |path| == 1 then
      Members(if value.Some? then doc.members[path[0] := value.value] else doc.members - {path[0]})
    else if path[0] in doc.members then
      Members(doc.members[path[0] := Put(doc.members[path[0]], path[1..], value)])
    else doc
  }

  /** The paths replaced or deleted in turn, with the values of `after`. */
  function Apply(doc: Json, after: Json, paths: seq<seq<string>>): Json {
    if paths == [] then doc
    else
      var path := paths[|paths| - 1];
      Put(Apply(doc, after, paths[..|paths| - 1]), path, Get(after, path))
  }

  function ParseAll(pointers: seq<string>): (r: seq<seq<string>>)
    ensures |r| == |pointers| && forall i :: 0 <= i < |r| ==> r[i] == Parse(pointers[i])
  {
    seq(|pointers|, i requires 0 <= i < |pointers| => Parse(pointers[i]))
  }

  lemma {:induction false} ApplyConcat(doc: Json, after: Json, a: seq<seq<string>>, b: seq<seq<string>>)
    ensures Apply(doc, after, a + b) == Apply(Apply(doc, after, a), after, b)
    decreases |b|
  {
    if b == [] {
      assert a + b == a;
    } else {
      var n := |b| - 1;
      ApplyConcat(doc, after, a, b[..n]);
      assert (a + b)[..|a + b| - 1] == a + b[..n];
    }
  }

  lemma {:induction false} ApplyUnder(m: map<string, Json>, a: map<string, Json>, key: string, paths: seq<seq<string>>)
    requires key in m && key in a
    ensures Apply(Members(m), Members(a), Under(key, paths)) == Members(m[key := Apply(m[key], a[key], paths)])
    decreases |paths|
  {
    if paths == [] {
      assert m[key := m[key]] == m;
    } else {
      var n := |paths| - 1;
      ApplyUnder(m, a, key, paths[..n]);
      assert Under(key, paths)[..n] == Under(key, paths[..n]);
      PutUnder(m, Apply(m[key], a[key], paths[..n]), a, key, paths[n]);
    }
  }

  lemma {:induction false} PutUnder(m: map<string, Json>, value: Json, a: map<string, Json>, key: string, path: seq<string>)
    requires key in a
    ensures Put(Members(m[key := value]), [key] + path, Get(Members(a), [key] + path)) ==
            Members(m[key := Put(value, path, Get(a[key], path))])
  {
    assert ([key] + path)[1..] == path;
    var inner := Put(value, path, Get(a[key], path));
    assert m[key := value][key := inner] == m[key := inner];
  }

  /** `m` has the value of `after` at the keys done, and of `before` at the others. */
  ghost predicate Mixed(m: map<string, Json>, before: map<string, Json>, after: map<string, Json>, keys: seq<string>) {
    forall key {:trigger key in m} ::
      if key in keys then (key in m <==> key in after) && (key in m ==> m[key] == after[key])
      else (key in m <==> key in before) && (key in m ==> m[key] == before[key])
  }

  /** The difference is complete: applying it turns `before` into `after`. */
  lemma {:induction false} DiffReconstructs(before: Json, after: Json)
    ensures Apply(before, after, Diff(before, after)) == after
    decreases before, 1
  {
    if before != after {
      if before.Members? && after.Members? {
        var b, a := before.members, after.members;
        var keys := Sorted(b.Keys + a.Keys);
        SortedLists(b.Keys + a.Keys);
        var m := DiffKeysReconstruct(before, after, keys);
        assert m.Keys == a.Keys;
        assert m == a;
      } else {
        assert Apply(before, after, [[]][..0]) == before;
      }
    }
  }

  lemma {:induction false} DiffKeysReconstruct(before: Json, after: Json, keys: seq<string>) returns (m: map<string, Json>)
    requires before.Members? && after.Members?
    requires forall i, j :: 0 <= i < j < |keys| ==> keys[i] != keys[j]
    ensures Apply(before, after, DiffKeys(before, after, keys)) == Members(m)
    ensures Mixed(m, before.members, after.members, keys)
    decreases before, 0, |keys|
  {
    m := before.members;
    if keys != [] {
      var b, a := before.members, after.members;
      var front, key := keys[..|keys| - 1], keys[|keys| - 1];
      var done := DiffKeysReconstruct(before, after, front);
      SplitLast(keys);
      assert key !in front;
      if key in b && key in a {
        var paths := Diff(b[key], a[key]);
        ApplyConcat(before, after, DiffKeys(before, after, front), Under(key, paths));
        assert key in done && done[key] == b[key];
        ApplyUnder(done, a, key, paths);
        DiffReconstructs(b[key], a[key]);
        m := done[key := a[key]];
      } else {
        ApplyConcat(before, after, DiffKeys(before, after, front), [[key]]);
        m := PutMissing(done, a, key);
      }
    }
  }

  lemma PutMissing(done: map<string, Json>, a: map<string, Json>, key: string) returns (m: map<string, Json>)
    ensures Apply(Members(done), Members(a), [[key]]) == Members(m)
    ensures m == if key in a then done[key := a[key]] else done - {key}
  {
    m := if key in a then done[key := a[key]] else done - {key};
    assert [[key]][..0] == [];
    assert Get(Members(a), [key]) == if key in a then Some(a[key]) else None;
  }

  /** For objects, the reported pointers denote the changed paths, are apart, and
      rebuild `after`; for a changed document that is not an object on both
      sides the pointer `/` names a member instead of the root, and they do not. */
  lemma {:induction false} ChangedReconstructsExactly(before: Json, after: Json)
    ensures Apply(before, after, ParseAll(Changed(before, after, ""))) == after <==>
            before == after || (before.Members? && after.Members?)
    ensures before.Members? && after.Members? ==>
              ParseAll(Changed(before, after, "")) == Diff(before, after) && Apart(ParseAll(Changed(before, after, "")))
  {
    if before == after {
    } else if before.Members? && after.Members? {
      var paths := Diff(before, after);
      var keys := Sorted(before.members.Keys + after.members.Keys);
      assert paths == DiffKeys(before, after, keys);
      DiffNotRoot(before, after, keys);
      assert 0 < |paths| ==> paths[0] != [];
      forall i | 0 <= i < |paths| ensures Parse("" + Render(paths[i])) == paths[i] {
        assert "" + Render(paths[i]) == Render(paths[i]);
        PointerRoundTrip(paths[i]);
      }
      assert ParseAll(Changed(before, after, "")) == paths;
      DiffApart(before, after);
      DiffReconstructs(before, after);
    } else {
      RootPointerNamesMember(before, after);
    }
  }

  lemma RootPointerNamesMember(before: Json, after: Json)
    requires before != after && !(before.Members? && after.Members?)
    ensures Apply(before, after, ParseAll(["/"])) != after
  {
    assert Parse("/") == [""] by {
      assert "/"[1..] == "" && "/"[1 + |Token("")|..] == "";
    }
    assert ParseAll(["/"]) == [[""]];
    assert [[""]][..0] == [];
  }

  // ---------- the partition of the keys ----------

  datatype Delta = Delta(added: seq<string>, removed: seq<string>, changed: map<string, seq<string>>, unchangedCount: nat)

  function DeltaOf(before: map<string, Json>, after: map<string, Json>): Delta {
    var both := before.Keys * after.Keys;
    Delta(Sorted(after.Keys - before.Keys), Sorted(before.Keys - after.Keys),
          map key | key in both && before[key] != after[key] :: Changed(before[key], after[key], ""),
          |set key | key in both && before[key] == after[key]|)
  }

  /** Every key of either side falls in exactly one class, and a changed key lists some path. */
  lemma DeltaClasses(before: map<string, Json>, after: map<string, Json>)
    ensures var d := DeltaOf(before, after);
            && (forall key :: key in d.added <==> key in after && key !in before)
            && (forall key :: key in d.removed <==> key in before && key !in after)
            && (forall key :: key in d.changed <==> key in before && key in after && before[key] != after[key])
            && (forall key :: key in d.changed ==> d.changed[key] != [])
            && (forall key, path :: key in d.changed && before[key].Members? && after[key].Members? ==>
                  (Render(path) in d.changed[key] <==> IsDifference(before[key], after[key], path)))
  {
    var d := DeltaOf(before, after);
    SortedLists(after.Keys - before.Keys);
    SortedLists(before.Keys - after.Keys);
    forall key | key in d.changed ensures d.changed[key] != [] {
      DiffEmptyExactly(before[key], after[key]);
    }
    forall key, path | key in d.changed && before[key].Members? && after[key].Members?
      ensures Render(path) in d.changed[key] <==> IsDifference(before[key], after[key], path)
    {
      ChangedExactly(before[key], after[key], path);
    }
  }

  /** Between two objects, the reported pointers are exactly those of the differences. */
  lemma {:induction false} ChangedExactly(before: Json, after: Json, path: seq<string>)
    requires before.Members? && after.Members?
    ensures Render(path) in Changed(before, after, "") <==> IsDifference(before, after, path)
  {
    var paths := Diff(before, after);
    DiffExactly(before, after, path);
    DiffExactly(before, after, []);
    var root: seq<string> := [];
    assert root !in paths && root in [root];
    var pointers := Pointers("", paths);
    if Render(path) in pointers {
      var i :| 0 <= i < |paths| && pointers[i] == Render(path);
      assert "" + Render(paths[i]) == Render(paths[i]);
      PointerRoundTrip(path);
      PointerRoundTrip(paths[i]);
    }
    if path in paths {
      var i :| 0 <= i < |paths| && paths[i] == path;
      assert pointers[i] == Render(path);
    }
  }

  lemma ClassSizes<T>(b: set<T>, a: set<T>, changed: set<T>, same: set<T>)
    requires changed !! same && changed + same == b * a
    ensures |a - b| + |b - a| + |changed| + |same| == |b + a|
  {
    assert b + a == (a - b) + ((b - a) + (changed + same));
  }

  /** The four counts add up to the keys of both sides. */
  lemma DeltaConserves(before: map<string, Json>, after: map<string, Json>)
    ensures var d := DeltaOf(before, after);
            |d.added| + |d.removed| + |d.changed| + d.unchangedCount == |before.Keys + after.Keys|
  {
    var both := before.Keys * after.Keys;
    var same := set key | key in both && before[key] == after[key];
    var changed := DeltaOf(before, after).changed;
    SortedLength(after.Keys - before.Keys);
    SortedLength(before.Keys - after.Keys);
    assert |changed| == |changed.Keys|;
    ClassSizes(before.Keys, after.Keys, changed.Keys, same);
  }
}
