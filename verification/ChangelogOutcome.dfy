/** When a stamp is made, found made already, or refused, and what it writes:
    stated over the lines of the file and compared with the stamper. */
module ChangelogOutcome {
  import opened Text
  import opened Changelog
  import opened ChangelogStamp

  // ---------- the file, line by line ----------

  ghost predicate IsFirstHeading(lines: seq<Line>, f: nat) {
    f < |lines| && lines[f].Heading? && forall i :: 0 <= i < f ==> !lines[i].Heading?
  }

  ghost predicate IsNextHeading(lines: seq<Line>, f: nat, g: nat) {
    f < g < |lines| && lines[g].Heading? && forall i :: f < i < g ==> !lines[i].Heading?
  }

  ghost predicate IsUnreleasedAt(lines: seq<Line>, f: nat) {
    f < |lines| && lines[f].Heading? && SameText(lines[f].name, "unreleased")
  }

  /** A line of spaces and tabs. */
  ghost predicate IsWhite(line: Line) {
    line.Note? && forall i :: 0 <= i < |line.text| ==> line.text[i] == ' ' || line.text[i] == '\t'
  }

  ghost predicate HasNotes(lines: seq<Line>, f: nat, g: nat) {
    exists k :: f < k < g <= |lines| && !IsWhite(lines[k])
  }

  /** No two references have the same label. */
  ghost predicate HasNoRepeats(lines: seq<Line>) {
    forall i, j :: 0 <= i < j < |lines| && lines[i].Reference? && lines[j].Reference? ==> lines[i].name != lines[j].name
  }

  ghost predicate HasRef(lines: seq<Line>, name: string) {
    exists i :: 0 <= i < |lines| && lines[i].Reference? && lines[i].name == name
  }

  ghost predicate HasLine(lines: seq<Line>, line: Line) {
    exists i :: 0 <= i < |lines| && lines[i] == line
  }

  /** The references compare `version` with the head, and `previous` with `version`. */
  ghost predicate AreLinked(lines: seq<Line>, version: string, previous: string) {
    && HasNoRepeats(lines)
    && exists prefix ::
         && HasLine(lines, Reference("Unreleased", ToHead(prefix, version)))
         && HasLine(lines, Reference(version, Between(prefix, previous, version)))
  }

  /** The line at `u` compares `previous` with the head. */
  ghost predicate IsAdvanceable(lines: seq<Line>, version: string, previous: string, u: nat, prefix: string) {
    && HasNoRepeats(lines) && HasRef(lines, previous) && !HasRef(lines, version)
    && u < |lines| && lines[u] == Reference("Unreleased", ToHead(prefix, previous))
  }

  function Advanced(lines: seq<Line>, version: string, previous: string, u: nat, prefix: string): seq<Line>
    requires u < |lines|
  {
    lines[..u]
      + [Reference("Unreleased", ToHead(prefix, version)), Reference(version, Between(prefix, previous, version))]
      + lines[u + 1..]
  }

  /** The topmost heading with a version: the first, or the one below an empty pending section. */
  ghost predicate IsTopRelease(lines: seq<Line>, t: nat) {
    || (IsFirstHeading(lines, t) && !IsUnreleasedAt(lines, t))
    || exists f: nat :: IsFirstHeading(lines, f) && IsUnreleasedAt(lines, f) && IsNextHeading(lines, f, t) && !HasNotes(lines, f, t)
  }

  /** The file is stamped for `version`. */
  ghost predicate IsStampedFor(lines: seq<Line>, version: string) {
    exists t: nat, p: nat, date ::
      && IsTopRelease(lines, t) && lines[t] == Heading(version, Dated(date))
      && IsNextHeading(lines, t, p) && AreLinked(lines, version, lines[p].name)
  }

  /** The first heading is pending and has notes, and no other heading is `version`'s. */
  ghost predicate IsPendingFor(lines: seq<Line>, version: string, f: nat, g: nat) {
    && IsFirstHeading(lines, f) && IsUnreleasedAt(lines, f) && IsNextHeading(lines, f, g) && HasNotes(lines, f, g)
    && forall k :: f < k < |lines| && lines[k].Heading? ==> lines[k].name != version
  }

  /** `out` is the file with its links advanced and the dated heading two lines below the pending one. */
  ghost predicate IsStampOf(lines: seq<Line>, version: string, date: string, out: seq<Line>) {
    exists f: nat, g: nat, u: nat, prefix ::
      && IsPendingFor(lines, version, f, g) && IsAdvanceable(lines, version, lines[g].name, u, prefix)
      && out == WithHeading(Advanced(lines, version, lines[g].name, u, prefix), f, version, date)
  }

  function WithHeading(lines: seq<Line>, f: nat, version: string, date: string): seq<Line>
    requires f < |lines|
  {
    lines[..f + 1] + [Note(""), Heading(version, Dated(date))] + lines[f + 1..]
  }

  // ---------- references ----------

  lemma {:induction false} UniqueExactly(lines: seq<Line>)
    ensures UniqueRefs(lines) <==> HasNoRepeats(lines)
    decreases |lines|
  {
    if lines != [] {
      var n := |lines| - 1;
      UniqueExactly(lines[..n]);
      RefNamesMember(lines[..n], if lines[n].Reference? then lines[n].name else "");
      assert forall i :: 0 <= i < n ==> lines[..n][i] == lines[i];
    }
  }

  lemma {:induction false} TargetExactly(lines: seq<Line>, name: string, target: Target)
    requires UniqueRefs(lines)
    ensures TargetOf(lines, name) == Some(target) <==> HasLine(lines, Reference(name, target))
  {
    TargetMissing(lines, name);
    RefNamesMember(lines, name);
    if name in RefNames(lines) {
      var i :| 0 <= i < |lines| && lines[i].Reference? && lines[i].name == name;
      TargetAt(lines, i);
      assert HasLine(lines, Reference(name, lines[i].target));
    }
    if HasLine(lines, Reference(name, target)) {
      var i :| 0 <= i < |lines| && lines[i] == Reference(name, target);
      TargetAt(lines, i);
    }
  }

  /** The validation of the links accepts exactly the files they link up. */
  lemma {:induction false} LinksValidExactly(lines: seq<Line>, version: string, previous: string)
    ensures LinksValid(lines, version, previous) <==> AreLinked(lines, version, previous)
  {
    UniqueExactly(lines);
    if UniqueRefs(lines) {
      forall prefix
        ensures HasLine(lines, Reference("Unreleased", ToHead(prefix, version))) <==>
                TargetOf(lines, UNRELEASED) == Some(ToHead(prefix, version))
        ensures HasLine(lines, Reference(version, Between(prefix, previous, version))) <==>
                TargetOf(lines, version) == Some(Between(prefix, previous, version))
      {
        TargetExactly(lines, UNRELEASED, ToHead(prefix, version));
        TargetExactly(lines, version, Between(prefix, previous, version));
      }
    }
  }

  /** The links are prepared exactly when one line compares the previous version
      with the head and can be advanced, and then that line becomes two. */
  lemma {:induction false} PreparedExactly(lines: seq<Line>, version: string, previous: string, linked: seq<Line>)
    ensures PreparedLinks(lines, version, previous) == Some(linked) <==>
            exists u: nat, prefix ::
              IsAdvanceable(lines, version, previous, u, prefix) && linked == Advanced(lines, version, previous, u, prefix)
  {
    UniqueExactly(lines);
    RefNamesMember(lines, UNRELEASED);
    RefNamesMember(lines, previous);
    RefNamesMember(lines, version);
    if PreparedLinks(lines, version, previous).Some? {
      var u :| 0 <= u < |lines| && lines[u].Reference? && lines[u].name == UNRELEASED;
      TargetAt(lines, u);
      RelinkAt(lines, u, version);
      assert IsAdvanceable(lines, version, previous, u, lines[u].target.prefix);
      assert Relink(lines, version) == Advanced(lines, version, previous, u, lines[u].target.prefix);
    }
    forall u: nat, prefix | IsAdvanceable(lines, version, previous, u, prefix)
      ensures PreparedLinks(lines, version, previous) == Some(Advanced(lines, version, previous, u, prefix))
    {
      TargetAt(lines, u);
      RelinkAt(lines, u, version);
    }
  }

  // ---------- headings ----------

  ghost predicate IsHeadingFrom(lines: seq<Line>, i: nat, j: nat) {
    i <= j < |lines| && lines[j].Heading?
  }

  lemma {:induction false} PositionsExactly(lines: seq<Line>, i: nat)
    requires i <= |lines|
    ensures forall j :: j in Positions(lines, i) <==> IsHeadingFrom(lines, i, j)
    ensures forall k, l :: 0 <= k < l < |Positions(lines, i)| ==> Positions(lines, i)[k] < Positions(lines, i)[l]
    decreases |lines| - i
  {
    if i < |lines| {
      PositionsExactly(lines, i + 1);
      var p, rest := Positions(lines, i), Positions(lines, i + 1);
      if lines[i].Heading? {
        assert p == [i] + rest;
        forall k, l | 0 <= k < l < |p| ensures p[k] < p[l] {
          assert p[l] == rest[l - 1] && rest[l - 1] in rest;
        }
      }
    }
  }

  lemma {:induction false} PositionsAscend(lines: seq<Line>)
    ensures var p := Positions(lines, 0);
            && (forall k :: 0 <= k < |p| ==> p[k] < |lines| && lines[p[k]].Heading?)
            && (forall j :: 0 <= j < |lines| && lines[j].Heading? ==> j in p)
            && (forall k, l :: 0 <= k < l < |p| ==> p[k] < p[l])
  {
    PositionsExactly(lines, 0);
    var p := Positions(lines, 0);
    forall k | 0 <= k < |p| ensures p[k] < |lines| && lines[p[k]].Heading? {
      assert p[k] in p && IsHeadingFrom(lines, 0, p[k]);
    }
    forall j | 0 <= j < |lines| && lines[j].Heading? ensures j in p {
      assert IsHeadingFrom(lines, 0, j);
    }
  }

  /** The positions are the headings in turn. */
  lemma {:induction false} HeadingsInTurn(lines: seq<Line>)
    ensures var p := Positions(lines, 0);
            && (p == [] <==> forall f: nat :: !IsFirstHeading(lines, f))
            && (forall f :: p != [] ==> (IsFirstHeading(lines, f) <==> f == p[0]))
            && (forall k, g :: 0 <= k < |p| ==> (IsNextHeading(lines, p[k], g) <==> k + 1 < |p| && g == p[k + 1]))
  {
    PositionsAscend(lines);
    var p := Positions(lines, 0);
    if p != [] {
      FirstInTurn(lines, 0);
    }
    forall k, g: nat | 0 <= k < |p| ensures IsNextHeading(lines, p[k], g) <==> k + 1 < |p| && g == p[k + 1] {
      NextInTurn(lines, k, g);
    }
  }

  lemma {:induction false} FirstInTurn(lines: seq<Line>, k: nat)
    requires k == 0 && Positions(lines, 0) != []
    ensures IsFirstHeading(lines, Positions(lines, 0)[k])
  {
    PositionsAscend(lines);
    var p := Positions(lines, 0);
    assert forall l :: 0 <= l < |p| ==> p[k] <= p[l];
    forall i | 0 <= i < p[k] ensures i !in p {
    }
  }

  lemma {:induction false} NextInTurn(lines: seq<Line>, k: nat, g: nat)
    requires k < |Positions(lines, 0)|
    ensures var p := Positions(lines, 0); IsNextHeading(lines, p[k], g) <==> k + 1 < |p| && g == p[k + 1]
  {
    PositionsAscend(lines);
    var p := Positions(lines, 0);
    if k + 1 < |p| {
      assert forall l :: 0 <= l <= k ==> p[l] <= p[k];
      assert forall l :: k + 1 <= l < |p| ==> p[k + 1] <= p[l];
      forall i | p[k] < i < p[k + 1] ensures i !in p {
      }
      assert IsNextHeading(lines, p[k], p[k + 1]);
    }
    if IsNextHeading(lines, p[k], g) {
      assert forall l :: 0 <= l <= k ==> p[l] <= p[k];
      var l :| 0 <= l < |p| && p[l] == g;
    }
  }

  // ---------- the decision ----------

  lemma {:induction false} UnreleasedExactly(name: string)
    ensures IsUnreleased(name) <==> SameText(name, "unreleased")
  {
    assert Lower("unreleased") == "unreleased";
    FoldedEqual(name, "unreleased");
  }

  lemma {:induction false} NotesExactly(lines: seq<Line>, f: nat, g: nat)
    requires f < g <= |lines|
    ensures AllBlank(lines[f + 1..g]) <==> !HasNotes(lines, f, g)
  {
    forall line ensures IsBlank(line) <==> IsWhite(line) {
    }
    if !AllBlank(lines[f + 1..g]) {
      var i :| 0 <= i < |lines[f + 1..g]| && !IsBlank(lines[f + 1..g][i]);
      assert !IsWhite(lines[f + 1 + i]);
    }
    if HasNotes(lines, f, g) {
      var k :| f < k < g <= |lines| && !IsWhite(lines[k]);
      assert lines[f + 1..g][k - f - 1] == lines[k];
    }
  }

  /** The sections, in terms of the headings. */
  lemma {:induction false} FirstSection(lines: seq<Line>)
    ensures var p, s := Positions(lines, 0), Sections(lines);
            && |p| == |s| && (forall k :: 0 <= k < |p| ==> p[k] < |lines| && lines[p[k]] == s[k].heading)
            && (|p| > 1 ==> p[0] < p[1] && (s[0].IsEmpty() <==> !HasNotes(lines, p[0], p[1])))
            && (p != [] ==> (IsUnreleased(s[0].heading.name) <==> IsUnreleasedAt(lines, p[0])) && p[0] == |Body(lines)|)
  {
    PositionsDelimit(lines);
    var p, s := Positions(lines, 0), Sections(lines);
    if p != [] {
      UnreleasedExactly(s[0].heading.name);
      if |p| > 1 {
        NotesExactly(lines, p[0], p[1]);
      }
    }
  }

  /** The top release and the one below it. */
  lemma {:induction false} TopReleaseAt(lines: seq<Line>, t: nat)
    ensures var p, s := Positions(lines, 0), Sections(lines);
            IsTopRelease(lines, t) <==>
            || (p != [] && t == p[0] && !IsUnreleasedAt(lines, p[0]))
            || (|p| > 1 && t == p[1] && IsUnreleasedAt(lines, p[0]) && !HasNotes(lines, p[0], p[1]))
  {
    HeadingsInTurn(lines);
    var p := Positions(lines, 0);
    if p != [] {
      NextInTurn(lines, 0, t);
      assert IsFirstHeading(lines, p[0]);
    }
  }

  /** A stamp is found made already exactly when the topmost release is
      `version`'s, dated, and the links compare it with the one below. */
  lemma {:induction false} AlreadyExactly(lines: seq<Line>, version: string, date: string)
    ensures Stamp(lines, version, date) == Already <==> version != "" && IsStampedFor(lines, version)
  {
    var p, s := Positions(lines, 0), Sections(lines);
    FirstSection(lines);
    forall t: nat, next: nat | IsTopRelease(lines, t) && IsNextHeading(lines, t, next)
      ensures StampedAt(lines, version, t, next) ==> version == "" || Stamp(lines, version, date) == Already
    {
      TopReleaseAt(lines, t);
      var k := if t == p[0] then 0 else 1;
      NextInTurn(lines, k, next);
      LinksValidExactly(lines, version, lines[next].name);
    }
    if Stamp(lines, version, date) == Already {
      var k := if IsUnreleased(s[0].heading.name) then 1 else 0;
      TopReleaseAt(lines, p[k]);
      NextInTurn(lines, k, p[k + 1]);
      LinksValidExactly(lines, version, lines[p[k + 1]].name);
      assert lines[p[k]] == Heading(version, Dated(lines[p[k]].suffix.date));
    }
    if IsStampedFor(lines, version) {
      var t: nat, next: nat, d :| IsTopRelease(lines, t) && lines[t] == Heading(version, Dated(d))
        && IsNextHeading(lines, t, next) && AreLinked(lines, version, lines[next].name);
      assert StampedAt(lines, version, t, next);
    }
  }

  ghost predicate StampedAt(lines: seq<Line>, version: string, t: nat, next: nat) {
    && t < |lines| && next < |lines| && lines[t].Heading? && lines[next].Heading?
    && lines[t].name == version && lines[t].suffix.Dated? && AreLinked(lines, version, lines[next].name)
  }

  lemma {:induction false} PendingAt(lines: seq<Line>, version: string, f: nat, g: nat)
    ensures var p, s := Positions(lines, 0), Sections(lines);
            |p| == |s| &&
            (IsPendingFor(lines, version, f, g) <==>
             |p| > 1 && f == p[0] && g == p[1] && IsUnreleased(s[0].heading.name) && !s[0].IsEmpty() && !Declares(s, version))
  {
    var p, s := Positions(lines, 0), Sections(lines);
    HeadingsInTurn(lines);
    FirstSection(lines);
    PositionsAscend(lines);
    if p != [] {
      NextInTurn(lines, 0, g);
      DeclaredBelow(lines, version);
    }
  }

  lemma {:induction false} DeclaredBelow(lines: seq<Line>, version: string)
    requires Positions(lines, 0) != []
    ensures Declares(Sections(lines), version) <==>
            exists k :: Positions(lines, 0)[0] < k < |lines| && lines[k].Heading? && lines[k].name == version
  {
    var p := Positions(lines, 0);
    PositionsAscend(lines);
    DeclaredAt(lines, version);
    if k :| p[0] < k < |lines| && lines[k].Heading? && lines[k].name == version {
      var l :| 0 <= l < |p| && p[l] == k;
      assert l != 0;
    }
  }

  /** A stamp is made exactly when the pending section has notes, no heading or
      reference is `version`'s and the links can be advanced, and then it is the
      file with the links advanced and the heading inserted. */
  lemma {:induction false} StampedExactly(lines: seq<Line>, version: string, date: string, out: seq<Line>)
    ensures Stamp(lines, version, date) == Stamped(out) <==> version != "" && IsStampOf(lines, version, date, out)
  {
    if Stamp(lines, version, date) == Stamped(out) {
      StampedIs(lines, version, date);
    }
    if version != "" && IsStampOf(lines, version, date, out) {
      IsStamped(lines, version, date, out);
    }
  }

  lemma {:induction false} StampedIs(lines: seq<Line>, version: string, date: string)
    requires Stamp(lines, version, date).Stamped?
    ensures IsStampOf(lines, version, date, Stamp(lines, version, date).lines)
  {
    var p, s := Positions(lines, 0), Sections(lines);
    FirstSection(lines);
    PendingAt(lines, version, p[0], p[1]);
    var previous := s[1].heading.name;
    var linked := PreparedLinks(lines, version, previous).value;
    StampMade(lines, version, date, linked);
    PreparedExactly(lines, version, previous, linked);
    var u: nat, prefix :|
      IsAdvanceable(lines, version, previous, u, prefix) && linked == Advanced(lines, version, previous, u, prefix);
    StampIs(lines, version, date, p[0], p[1], u, prefix);
  }

  lemma StampIs(lines: seq<Line>, version: string, date: string, f: nat, g: nat, u: nat, prefix: string)
    requires IsPendingFor(lines, version, f, g) && IsAdvanceable(lines, version, lines[g].name, u, prefix)
    ensures IsStampOf(lines, version, date, WithHeading(Advanced(lines, version, lines[g].name, u, prefix), f, version, date))
  {
  }

  lemma {:induction false} IsStamped(lines: seq<Line>, version: string, date: string, out: seq<Line>)
    requires version != "" && IsStampOf(lines, version, date, out)
    ensures Stamp(lines, version, date) == Stamped(out)
  {
    FirstSection(lines);
    var f: nat, g: nat, u: nat, prefix :|
      && IsPendingFor(lines, version, f, g) && IsAdvanceable(lines, version, lines[g].name, u, prefix)
      && out == WithHeading(Advanced(lines, version, lines[g].name, u, prefix), f, version, date);
    var linked := Advanced(lines, version, lines[g].name, u, prefix);
    PendingAt(lines, version, f, g);
    PreparedExactly(lines, version, lines[g].name, linked);
    StampMade(lines, version, date, linked);
  }

  lemma {:induction false} StampMade(lines: seq<Line>, version: string, date: string, linked: seq<Line>)
    requires version != "" && |Sections(lines)| > 1 && IsUnreleased(Sections(lines)[0].heading.name)
    requires !Sections(lines)[0].IsEmpty() && !Declares(Sections(lines), version)
    requires PreparedLinks(lines, version, Sections(lines)[1].heading.name) == Some(linked)
    ensures |Body(lines)| < |linked| && Stamp(lines, version, date) == Stamped(WithHeading(linked, |Body(lines)|, version, date))
  {
    SplitFirst(lines);
  }

  // ---------- the gate ----------

  /** The heading of the section a release is declared in: the first, unless it
      has no notes and another follows. */
  ghost predicate IsDeclaring(lines: seq<Line>, q: nat) {
    || (IsFirstHeading(lines, q) && forall g: nat :: IsNextHeading(lines, q, g) ==> HasNotes(lines, q, g))
    || exists f: nat :: IsFirstHeading(lines, f) && IsNextHeading(lines, f, q) && !HasNotes(lines, f, q)
  }

  /** The topmost heading that is not pending. */
  ghost predicate IsTopVersion(lines: seq<Line>, t: nat) {
    && t < |lines| && lines[t].Heading? && !IsUnreleasedAt(lines, t)
    && forall i :: 0 <= i < t && lines[i].Heading? ==> IsUnreleasedAt(lines, i)
  }

  ghost predicate IsDatedAt(lines: seq<Line>, t: nat, version: string) {
    t < |lines| && lines[t].Heading? && lines[t].name == version && lines[t].suffix.Dated?
  }

  lemma {:induction false} DeclaringAt(lines: seq<Line>, q: nat)
    ensures var p := Positions(lines, 0);
            IsDeclaring(lines, q) <==> p != [] && q == if |p| > 1 && !HasNotes(lines, p[0], p[1]) then p[1] else p[0]
  {
    HeadingsInTurn(lines);
    var p := Positions(lines, 0);
    if p != [] {
      FirstInTurn(lines, 0);
      assert forall g: nat :: IsNextHeading(lines, p[0], g) <==> 1 < |p| && g == p[1];
      assert IsFirstHeading(lines, q) <==> q == p[0];
    }
  }

  lemma {:induction false} TopVersionIs(sections: seq<Section>) returns (k: nat)
    requires forall i :: 0 <= i < |sections| ==> sections[i].heading.Heading?
    ensures k <= |sections| && forall i :: 0 <= i < k ==> IsUnreleased(sections[i].heading.name)
    ensures TopVersion(sections) == if k < |sections| then Some(sections[k]) else None
    ensures k < |sections| ==> !IsUnreleased(sections[k].heading.name)
    decreases |sections|
  {
    if sections == [] || sections[0].Version().Some? {
      k := 0;
    } else {
      var l := TopVersionIs(sections[1..]);
      k := l + 1;
      assert forall i :: 1 <= i < k ==> sections[i] == sections[1..][i - 1];
    }
  }

  lemma {:induction false} TopVersionAt(lines: seq<Line>) returns (k: nat)
    ensures var p, s := Positions(lines, 0), Sections(lines);
            && |p| == |s| && k <= |p| && TopVersion(s) == (if k < |s| then Some(s[k]) else None)
            && (k < |p| ==> p[k] < |lines| && lines[p[k]] == s[k].heading && s[k].Version() == Some(lines[p[k]].name))
            && forall t: nat :: IsTopVersion(lines, t) <==> k < |p| && t == p[k]
  {
    var p, s := Positions(lines, 0), Sections(lines);
    PositionsDelimit(lines);
    PositionsAscend(lines);
    k := TopVersionIs(s);
    forall i | 0 <= i < |p| ensures IsUnreleasedAt(lines, p[i]) <==> IsUnreleased(s[i].heading.name) {
      UnreleasedExactly(s[i].heading.name);
    }
    if k < |p| {
      forall i | 0 <= i < p[k] && lines[i].Heading? ensures IsUnreleasedAt(lines, i) {
        var l :| 0 <= l < |p| && p[l] == i;
      }
      assert IsTopVersion(lines, p[k]);
    }
    forall t: nat | IsTopVersion(lines, t) ensures k < |p| && t == p[k] {
      var l :| 0 <= l < |p| && p[l] == t;
    }
  }

  lemma {:induction false} PendingIs(lines: seq<Line>) returns (i: nat)
    ensures var p, s := Positions(lines, 0), Sections(lines);
            && |p| == |s| && (p == [] ==> Pending(s).None? && forall q: nat :: !IsDeclaring(lines, q))
            && (p != [] ==>
                  && i < |p| && p[i] < |lines| && lines[p[i]] == s[i].heading && Pending(s) == Some(s[i])
                  && (IsUnreleasedAt(lines, p[i]) <==> s[i].Version().None?)
                  && forall q: nat :: IsDeclaring(lines, q) <==> q == p[i])
  {
    var p, s := Positions(lines, 0), Sections(lines);
    FirstSection(lines);
    i := if |p| > 1 && !HasNotes(lines, p[0], p[1]) then 1 else 0;
    forall q: nat ensures IsDeclaring(lines, q) <==> p != [] && q == p[i] {
      DeclaringAt(lines, q);
    }
    if p != [] {
      UnreleasedExactly(s[i].heading.name);
    }
  }

  /** The gate accepts exactly when the declaring section is the version's and
      dated, or is pending with the version's on top below it. */
  lemma {:induction false} GateExactly(lines: seq<Line>, version: string)
    ensures CheckStamped(Sections(lines), version) <==>
            exists q: nat :: IsDeclaring(lines, q) &&
              if IsUnreleasedAt(lines, q) then exists t: nat :: IsTopVersion(lines, t) && lines[t].name == version
              else IsDatedAt(lines, q, version)
  {
    var p := Positions(lines, 0);
    var i := PendingIs(lines);
    var k := TopVersionAt(lines);
    if p != [] {
      assert IsDeclaring(lines, p[i]);
      assert k < |p| ==> IsTopVersion(lines, p[k]);
    }
  }

  /** The notes are measured against the workspace version exactly when the
      declaring section is pending and the version's, dated, is on top below it. */
  lemma {:induction false} BaselineExactly(lines: seq<Line>, version: string)
    ensures NotesBaseline(Sections(lines), version) == WorkspaceVersion <==>
            exists q: nat, t: nat ::
              IsDeclaring(lines, q) && IsUnreleasedAt(lines, q) && IsTopVersion(lines, t) && IsDatedAt(lines, t, version)
  {
    var p := Positions(lines, 0);
    var i := PendingIs(lines);
    var k := TopVersionAt(lines);
    if p != [] {
      assert IsDeclaring(lines, p[i]);
      assert k < |p| ==> IsTopVersion(lines, p[k]);
    }
  }
}
