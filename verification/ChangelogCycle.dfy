/** What stamping conserves, and the release cycle: notes are added, a release
    stamps them and bumps the workspace version, and the gate reads the result. */
module ChangelogCycle {
  import opened Text
  import opened Changelog
  import opened ChangelogStamp

  // ---------- what a stamp does to the sections ----------

  function RelinkSections(sections: seq<Section>, version: string): (r: seq<Section>)
    ensures |r| == |sections|
    ensures forall k :: 0 <= k < |r| ==>
              r[k] == Section(sections[k].heading, Relink(sections[k].body, version))
  {
    seq(|sections|, k requires 0 <= k < |sections| => Section(sections[k].heading, Relink(sections[k].body, version)))
  }

  lemma {:induction false} RelinkFront(lines: seq<Line>, version: string)
    requires lines != []
    ensures Relink(lines, version) == RelinkLine(lines[0], version) + Relink(lines[1..], version)
  {
    var x := lines[0];
    assert lines == [x] + lines[1..];
    RelinkConcat([x], lines[1..], version);
    assert [x][..0] == [];
    assert Relink([x], version) == RelinkLine(x, version);
  }

  lemma {:induction false} RelinkBody(lines: seq<Line>, version: string)
    ensures Body(Relink(lines, version)) == Relink(Body(lines), version)
    decreases |lines|
  {
    if lines != [] {
      var x, rest := lines[0], lines[1..];
      RelinkFront(lines, version);
      if !x.Heading? {
        RelinkBody(rest, version);
        BodyWhole(RelinkLine(x, version));
        BodyConcat(RelinkLine(x, version), Relink(rest, version));
        RelinkFront(Body(lines), version);
        assert Body(lines)[1..] == Body(rest);
      }
    }
  }

  lemma SectionsFront(heading: Line, rest: seq<Line>)
    requires heading.Heading?
    ensures Sections([heading] + rest) == [Section(heading, Body(rest))] + Sections(rest)
  {
    assert ([heading] + rest)[1..] == rest;
  }

  lemma RelinkFirst(heading: Line, rest: seq<Line>, version: string)
    requires heading.Heading? && Sections(Relink(rest, version)) == RelinkSections(Sections(rest), version)
    ensures Sections([heading] + Relink(rest, version)) == RelinkSections(Sections([heading] + rest), version)
  {
    RelinkBody(rest, version);
    SectionsFront(heading, Relink(rest, version));
    SectionsFront(heading, rest);
    RelinkSectionsFront(Section(heading, Body(rest)), Sections(rest), version);
  }

  lemma RelinkSectionsFront(first: Section, rest: seq<Section>, version: string)
    ensures RelinkSections([first] + rest, version) ==
            [Section(first.heading, Relink(first.body, version))] + RelinkSections(rest, version)
  {
  }

  /** Advancing the links touches no heading: it acts on each body by itself. */
  lemma {:induction false} RelinkKeepsSections(lines: seq<Line>, version: string)
    ensures Sections(Relink(lines, version)) == RelinkSections(Sections(lines), version)
    decreases |lines|
  {
    if lines != [] {
      var x, rest := lines[0], lines[1..];
      RelinkKeepsSections(rest, version);
      RelinkFront(lines, version);
      if x.Heading? {
        assert lines == [x] + rest;
        RelinkFirst(x, rest, version);
      } else {
        SectionsSkip(RelinkLine(x, version), Relink(rest, version));
      }
    }
  }

  /** Sections of lines given by their preamble, first heading and the rest. */
  lemma {:induction false} Rebuild(preamble: seq<Line>, heading: Line, rest: seq<Line>)
    requires heading.Heading? && forall i :: 0 <= i < |preamble| ==> !preamble[i].Heading?
    ensures Sections(preamble + [heading] + rest) == [Section(heading, Body(rest))] + Sections(rest)
    ensures Body(preamble + [heading] + rest) == preamble
  {
    var tail := [heading] + rest;
    assert preamble + [heading] + rest == preamble + tail;
    SectionsSkip(preamble, tail);
    BodyWhole(preamble);
    BodyConcat(preamble, tail);
    assert tail[1..] == rest;
    assert preamble + [] == preamble;
  }

  lemma {:induction false} SplitLines(lines: seq<Line>)
    requires Sections(lines) != []
    ensures |Body(lines)| < |lines|
    ensures var first := |Body(lines)|;
            && lines == Body(lines) + [lines[first]] + lines[first + 1..]
            && lines[first] == Sections(lines)[0].heading
            && Sections(lines) == [Section(lines[first], Body(lines[first + 1..]))] + Sections(lines[first + 1..])
  {
    SplitFirst(lines);
    var first := |Body(lines)|;
    assert lines[..first] == Body(lines);
  }

  /** The [Unreleased] reference lies below the first heading. */
  predicate RefBelow(lines: seq<Line>) {
    UNRELEASED !in RefNames(Body(lines))
  }

  /** What a successful stamp has established about its input. */
  lemma {:induction false} StampedFacts(lines: seq<Line>, version: string, date: string)
    requires Stamp(lines, version, date).Stamped?
    ensures |Sections(lines)| >= 2 && |Body(lines)| < |lines|
    ensures IsUnreleased(Sections(lines)[0].heading.name) && !Sections(lines)[0].IsEmpty() && version != ""
    ensures !Declares(Sections(lines), version)
    ensures UniqueRefs(lines) && version !in RefNames(lines) && UNRELEASED in RefNames(lines)
    ensures TargetOf(lines, UNRELEASED).Some? && TargetOf(lines, UNRELEASED).value.ToHead?
    ensures TargetOf(lines, UNRELEASED).value.base == Sections(lines)[1].heading.name
    ensures Stamp(lines, version, date).lines == InsertHeading(Relink(lines, version), |Body(lines)|, version, date)
  {
    SplitFirst(lines);
  }

  lemma {:induction false} RelinkHeading(a: seq<Line>, h: Line, c: seq<Line>, version: string)
    requires h.Heading?
    ensures Relink(a + [h] + c, version) == Relink(a, version) + [h] + Relink(c, version)
    ensures RefNames(a + [h] + c) == RefNames(a) + RefNames(c)
    ensures UniqueRefs(a + [h] + c) ==> RefNames(a) !! RefNames(c)
  {
    RelinkConcat(a + [h], c, version);
    RelinkConcat(a, [h], version);
    assert [h][..0] == [];
    RefsConcat(a + [h], c);
    RefsConcat(a, [h]);
  }

  lemma {:induction false} StampLayout(lines: seq<Line>, version: string, date: string)
    requires Stamp(lines, version, date).Stamped?
    ensures |Body(lines)| < |lines|
    ensures var first := |Body(lines)|;
            var a, h, c := Body(lines), lines[first], lines[first + 1..];
            Stamp(lines, version, date).lines ==
            if RefBelow(lines) then a + [h] + ([Note(""), Heading(version, Dated(date))] + Relink(c, version))
            else Relink(a, version) + ([Note(""), Heading(version, Dated(date))] + ([h] + c))
  {
    StampedFacts(lines, version, date);
    SplitLines(lines);
    var first := |Body(lines)|;
    var a, h, c := Body(lines), lines[first], lines[first + 1..];
    RelinkHeading(a, h, c, version);
    if RefBelow(lines) {
      RelinkIdle(a, version);
      InsertAfter(a, h, Relink(c, version), version, date);
    } else {
      RelinkIdle(c, version);
      AdvanceLengthens(a, version, lines);
      InsertBefore(Relink(a, version), h, c, version, date);
    }
  }

  lemma InsertAfter(a: seq<Line>, h: Line, c: seq<Line>, version: string, date: string)
    ensures InsertHeading(a + [h] + c, |a|, version, date) ==
            a + [h] + ([Note(""), Heading(version, Dated(date))] + c)
  {
    var whole := a + [h] + c;
    assert whole[..|a| + 1] == a + [h] && whole[|a| + 1..] == c;
  }

  lemma InsertBefore(a: seq<Line>, h: Line, c: seq<Line>, version: string, date: string)
    requires |a| > 0
    ensures InsertHeading(a + [h] + c, |a| - 1, version, date) ==
            a + ([Note(""), Heading(version, Dated(date))] + ([h] + c))
  {
    var whole := a + [h] + c;
    assert whole[..|a|] == a && whole[|a|..] == [h] + c;
  }

  /** Where the one [Unreleased] reference is among `a`, advancing adds one line. */
  lemma {:induction false} AdvanceLengthens(a: seq<Line>, version: string, lines: seq<Line>)
    requires UniqueRefs(lines) && a <= lines && UNRELEASED in RefNames(a)
    requires TargetOf(lines, UNRELEASED).Some? && TargetOf(lines, UNRELEASED).value.ToHead?
    ensures |Relink(a, version)| == |a| + 1
  {
    assert lines == a + lines[|a|..];
    RefsConcat(a, lines[|a|..]);
    RefNamesMember(a, UNRELEASED);
    var u :| 0 <= u < |a| && a[u].Reference? && a[u].name == UNRELEASED;
    TargetAt(lines, u);
    RelinkAt(a, u, version);
  }

  /** Stamp conservation: with the reference below the first heading, the
      pending notes go verbatim, up to the advanced links, under the new dated
      heading, a stub of one blank line stays above, and every other section
      keeps its heading and its body. */
  lemma {:induction false} StampConserves(lines: seq<Line>, version: string, date: string)
    requires Stamp(lines, version, date).Stamped? && RefBelow(lines)
    ensures var s := Sections(lines);
            Sections(Stamp(lines, version, date).lines) ==
            [Section(s[0].heading, [Note("")]),
             Section(Heading(version, Dated(date)), Relink(s[0].body, version))] + RelinkSections(s[1..], version)
    ensures Body(Stamp(lines, version, date).lines) == Body(lines)
  {
    StampLayout(lines, version, date);
    SplitLines(lines);
    var first := |Body(lines)|;
    var c := lines[first + 1..];
    StampedSections(Body(lines), lines[first], Heading(version, Dated(date)), Relink(c, version));
    RelinkKeepsSections(c, version);
    RelinkBody(c, version);
    assert Sections(lines)[1..] == Sections(c);
  }

  lemma {:induction false} StampedSections(a: seq<Line>, h: Line, stamped: Line, c: seq<Line>)
    requires h.Heading? && stamped.Heading? && forall i :: 0 <= i < |a| ==> !a[i].Heading?
    ensures Sections(a + [h] + ([Note(""), stamped] + c)) ==
            [Section(h, [Note("")]), Section(stamped, Body(c))] + Sections(c)
    ensures Body(a + [h] + ([Note(""), stamped] + c)) == a
  {
    var tail := [Note(""), stamped] + c;
    Rebuild(a, h, tail);
    assert tail == [Note("")] + [stamped] + c;
    Rebuild([Note("")], stamped, c);
  }

  /** With the reference above it, the heading lands on top, over nothing. */
  lemma BelowStamp(preamble: seq<Line>, stamped: Line, rest: seq<Line>)
    requires stamped.Heading? && Body(preamble) == preamble && rest != [] && rest[0].Heading?
    ensures Sections(preamble + ([Note(""), stamped] + rest)) == [Section(stamped, [])] + Sections(rest)
  {
    var above := preamble + [Note("")];
    assert preamble + ([Note(""), stamped] + rest) == above + [stamped] + rest;
    assert forall i :: 0 <= i < |above| ==> !above[i].Heading?;
    Rebuild(above, stamped, rest);
  }

  lemma {:induction false} StampMisplaces(lines: seq<Line>, version: string, date: string)
    requires Stamp(lines, version, date).Stamped? && !RefBelow(lines)
    ensures Sections(Stamp(lines, version, date).lines) == [Section(Heading(version, Dated(date)), [])] + Sections(lines)
  {
    StampLayout(lines, version, date);
    SplitLines(lines);
    var first := |Body(lines)|;
    var a, h, c := Body(lines), lines[first], lines[first + 1..];
    RelinkBody(a, version);
    BodyWhole(a);
    BelowStamp(Relink(a, version), Heading(version, Dated(date)), [h] + c);
    SectionsFront(h, c);
  }

  /** A successful stamp puts the pending notes under the new heading exactly
      when the [Unreleased] reference lies below the first heading. */
  lemma {:induction false} StampPlacesNotesExactly(lines: seq<Line>, version: string, date: string)
    requires Stamp(lines, version, date).Stamped? && !IsUnreleased(version)
    ensures Sections(lines) != [] && |Sections(Stamp(lines, version, date).lines)| > 1
    ensures RefBelow(lines) <==>
            Sections(Stamp(lines, version, date).lines)[1] ==
            Section(Heading(version, Dated(date)), Relink(Sections(lines)[0].body, version))
  {
    StampedFacts(lines, version, date);
    if RefBelow(lines) {
      StampConserves(lines, version, date);
    } else {
      StampMisplaces(lines, version, date);
      assert Sections(Stamp(lines, version, date).lines)[1] == Sections(lines)[0];
    }
  }

  // ---------- what a stamp does to the references ----------

  lemma {:induction false} TargetConcat(a: seq<Line>, b: seq<Line>, name: string)
    ensures TargetOf(a + b, name) == if TargetOf(b, name).Some? then TargetOf(b, name) else TargetOf(a, name)
    decreases |b|
  {
    if b == [] {
      assert a + b == a;
    } else {
      var n := |b| - 1;
      TargetConcat(a, b[..n], name);
      assert (a + b)[..|a + b| - 1] == a + b[..n];
      assert (a + b)[|a + b| - 1] == b[n];
    }
  }

  /** No reference is repeated after a stamp that found none repeated. */
  lemma {:induction false} RelinkUnique(lines: seq<Line>, u: nat, version: string)
    requires UniqueRefs(lines) && version !in RefNames(lines)
    requires u < |lines| && lines[u].Reference? && lines[u].name == UNRELEASED && lines[u].target.ToHead?
    ensures UniqueRefs(Relink(lines, version)) && RefNames(Relink(lines, version)) == RefNames(lines) + {version}
  {
    RelinkAt(lines, u, version);
    var a, b := lines[..u], lines[u + 1..];
    var line, pair := [lines[u]], RelinkLine(lines[u], version);
    assert lines == (a + line) + b;
    RefsConcat(a + line, b);
    RefsConcat(a, line);
    RefsConcat(a + pair, b);
    RefsConcat(a, pair);
    RefNamesMember(lines, UNRELEASED);
    PairRefs(lines[u], version);
  }

  /** After a stamp [Unreleased] and the new release are as advanced, and every other reference is unchanged. */
  lemma {:induction false} RelinkTarget(lines: seq<Line>, u: nat, version: string, name: string)
    requires UniqueRefs(lines) && version !in RefNames(lines)
    requires u < |lines| && lines[u].Reference? && lines[u].name == UNRELEASED && lines[u].target.ToHead?
    ensures var target := lines[u].target;
            TargetOf(Relink(lines, version), name) ==
            if name == UNRELEASED then Some(ToHead(target.prefix, version))
            else if name == version then Some(Between(target.prefix, target.base, version))
            else TargetOf(lines, name)
  {
    RelinkAt(lines, u, version);
    RefNamesMember(lines, UNRELEASED);
    var a, b := lines[..u], lines[u + 1..];
    var line, pair := [lines[u]], RelinkLine(lines[u], version);
    assert lines == (a + line) + b;
    RefsConcat(a + line, b);
    RefsConcat(a, line);
    TargetMissing(b, name);
    TargetConcat(a + pair, b, name);
    TargetConcat(a, pair, name);
    TargetConcat(a + line, b, name);
    TargetConcat(a, line, name);
    PairRefs(lines[u], version);
    PairTargets(lines[u], version, name);
  }

  lemma PairRefs(line: Line, version: string)
    requires line.Reference? && line.name == UNRELEASED && line.target.ToHead? && version != UNRELEASED
    ensures RefNames([line]) == {UNRELEASED}
    ensures RefNames(RelinkLine(line, version)) == {UNRELEASED, version} && UniqueRefs(RelinkLine(line, version))
  {
    var pair := RelinkLine(line, version);
    assert pair[..1] == [pair[0]] && [pair[0]][..0] == [] && [line][..0] == [];
    assert RefNames([pair[0]]) == {UNRELEASED};
  }

  lemma PairTargets(line: Line, version: string, name: string)
    requires line.Reference? && line.name == UNRELEASED && line.target.ToHead? && version != UNRELEASED
    ensures TargetOf([line], name) == if name == UNRELEASED then Some(line.target) else None
    ensures TargetOf(RelinkLine(line, version), name) ==
            if name == UNRELEASED then Some(ToHead(line.target.prefix, version))
            else if name == version then Some(Between(line.target.prefix, line.target.base, version))
            else None
  {
    var pair := RelinkLine(line, version);
    assert pair[..1] == [pair[0]] && [pair[0]][..0] == [] && [line][..0] == [];
    assert TargetOf([pair[0]], name) == if name == UNRELEASED then Some(pair[0].target) else None;
  }

  /** Inserting a heading and a blank line leaves the references alone. */
  lemma {:induction false} InsertKeepsRefs(lines: seq<Line>, first: nat, version: string, date: string)
    requires first < |lines|
    ensures var r := InsertHeading(lines, first, version, date);
            && RefNames(r) == RefNames(lines) && (UniqueRefs(r) <==> UniqueRefs(lines))
            && forall name :: TargetOf(r, name) == TargetOf(lines, name)
  {
    var a, x, b := lines[..first + 1], [Note(""), Heading(version, Dated(date))], lines[first + 1..];
    assert lines == a + b;
    RefsConcat(a, b);
    RefsConcat(a + x, b);
    RefsConcat(a, x);
    assert x[..1] == [x[0]] && [x[0]][..0] == [];
    assert RefNames([x[0]]) == {} && UniqueRefs([x[0]]);
    forall name ensures TargetOf(InsertHeading(lines, first, version, date), name) == TargetOf(lines, name) {
      TargetConcat(a, b, name);
      TargetConcat(a + x, b, name);
      TargetConcat(a, x, name);
      assert TargetOf([x[0]], name) == None;
    }
  }

  /** The references of a stamped changelog. */
  lemma {:induction false} StampTargets(lines: seq<Line>, version: string, date: string, name: string)
    requires Stamp(lines, version, date).Stamped?
    ensures TargetOf(lines, UNRELEASED).Some? && TargetOf(lines, UNRELEASED).value.ToHead?
    ensures UniqueRefs(Stamp(lines, version, date).lines)
    ensures RefNames(Stamp(lines, version, date).lines) == RefNames(lines) + {version}
    ensures var target := TargetOf(lines, UNRELEASED).value;
            TargetOf(Stamp(lines, version, date).lines, name) ==
            if name == UNRELEASED then Some(ToHead(target.prefix, version))
            else if name == version then Some(Between(target.prefix, target.base, version))
            else TargetOf(lines, name)
  {
    StampedFacts(lines, version, date);
    RefNamesMember(lines, UNRELEASED);
    var u :| 0 <= u < |lines| && lines[u].Reference? && lines[u].name == UNRELEASED;
    TargetAt(lines, u);
    RelinkUnique(lines, u, version);
    RelinkTarget(lines, u, version, name);
    InsertKeepsRefs(Relink(lines, version), |Body(lines)|, version, date);
  }

  /** The links a stamp leaves are those its own validation asks for. */
  lemma {:induction false} StampLinksValid(lines: seq<Line>, version: string, date: string)
    requires Stamp(lines, version, date).Stamped?
    ensures |Sections(lines)| >= 2
    ensures LinksValid(Stamp(lines, version, date).lines, version, Sections(lines)[1].heading.name)
  {
    StampedFacts(lines, version, date);
    StampTargets(lines, version, date, UNRELEASED);
    StampTargets(lines, version, date, version);
  }

  /** With the reference below the first heading, stamping again for the same
      version, on any date, finds its own stamp and validates its links. */
  lemma {:induction false} StampFoundAgain(lines: seq<Line>, version: string, date: string, again: string)
    requires Stamp(lines, version, date).Stamped? && RefBelow(lines)
    ensures Stamp(Stamp(lines, version, date).lines, version, again) == Already
  {
    var stamped := Stamp(lines, version, date).lines;
    StampedFacts(lines, version, date);
    StampLinksValid(lines, version, date);
    var s, s' := Sections(lines), Sections(stamped);
    assert |s'| == |s| + 1 && s'[0] == Section(s[0].heading, [Note("")])
           && s'[1].heading == Heading(version, Dated(date)) && s'[2].heading == s[1].heading by {
      StampConserves(lines, version, date);
      assert s[1..][0] == s[1];
    }
    FindsOwnStamp(stamped, version, again);
  }

  lemma FindsOwnStamp(lines: seq<Line>, version: string, date: string)
    requires |Sections(lines)| >= 3 && version != ""
    requires IsUnreleased(Sections(lines)[0].heading.name) && Sections(lines)[0].body == [Note("")]
    requires IsStampFor(Sections(lines)[1].heading, version)
    requires LinksValid(lines, version, Sections(lines)[2].heading.name)
    ensures Stamp(lines, version, date) == Already
  {
    assert Sections(lines)[0].IsEmpty();
  }

  /** Stamping again changes nothing if and only if the [Unreleased] reference
      lies below the first heading, or the first two headings have one name;
      otherwise the file that was just stamped is refused. */
  lemma {:induction false} StampIdempotentExactly(lines: seq<Line>, version: string, date: string, again: string)
    requires Stamp(lines, version, date).Stamped? && !IsUnreleased(version)
    ensures |Sections(lines)| >= 2
    ensures var found := RefBelow(lines) || Sections(lines)[0].heading.name == Sections(lines)[1].heading.name;
            Stamp(Stamp(lines, version, date).lines, version, again) == if found then Already else Refused
  {
    StampedFacts(lines, version, date);
    if RefBelow(lines) {
      StampFoundAgain(lines, version, date, again);
    } else {
      var stamped, s := Stamp(lines, version, date).lines, Sections(lines);
      StampMisplaces(lines, version, date);
      StampTargets(lines, version, date, UNRELEASED);
      StampTargets(lines, version, date, version);
      assert Sections(stamped)[0].heading == Heading(version, Dated(date)) && Sections(stamped)[1] == s[0];
      assert LinksValid(stamped, version, s[0].heading.name) <==> s[0].heading.name == s[1].heading.name;
    }
  }

  const MISPLACED: seq<Line> := [
    Reference("Unreleased", ToHead("p", "1")), Heading("Unreleased", Undated("")), Note("x"),
    Heading("1", Dated("d")), Reference("1", Elsewhere("u"))]

  /** A file whose stamp for "2" leaves the notes under [Unreleased], below an
      empty section for "2", and is refused when it is stamped again. */
  lemma MisplacedStamp()
    ensures Stamp(MISPLACED, "2", "e").Stamped?
    ensures Sections(Stamp(MISPLACED, "2", "e").lines) ==
            [Section(Heading("2", Dated("e")), []), Section(Heading("Unreleased", Undated("")), [Note("x")]),
             Section(Heading("1", Dated("d")), [Reference("1", Elsewhere("u"))])]
    ensures Stamp(Stamp(MISPLACED, "2", "e").lines, "2", "e") == Refused
  {
    MisplacedReads();
    MisplacedStamps();
    assert |Lower("2")| == 1;
    StampMisplaces(MISPLACED, "2", "e");
    StampIdempotentExactly(MISPLACED, "2", "e", "e");
    assert |"Unreleased"| == 10 && |"1"| == 1;
  }

  lemma MisplacedRefs()
    ensures RefNames(MISPLACED[..1]) == {"Unreleased"} && RefNames(MISPLACED) == {"Unreleased", "1"}
    ensures UniqueRefs(MISPLACED) && TargetOf(MISPLACED, "Unreleased") == Some(ToHead("p", "1"))
  {
    var m := MISPLACED;
    assert |"Unreleased"| == 10 && |"1"| == 1;
    assert m[..1] == [] + [m[0]] && m[..2] == m[..1] + [m[1]] && m[..3] == m[..2] + [m[2]];
    assert m[..4] == m[..3] + [m[3]] && m == m[..4] + [m[4]];
    OneLineMore([], m[0], "Unreleased");
    OneLineMore(m[..1], m[1], "Unreleased");
    OneLineMore(m[..2], m[2], "Unreleased");
    OneLineMore(m[..3], m[3], "Unreleased");
    OneLineMore(m[..4], m[4], "Unreleased");
  }

  lemma OneLineMore(lines: seq<Line>, line: Line, name: string)
    ensures RefNames(lines + [line]) == RefNames(lines) + if line.Reference? then {line.name} else {}
    ensures UniqueRefs(lines + [line]) <==> UniqueRefs(lines) && (line.Reference? ==> line.name !in RefNames(lines))
    ensures TargetOf(lines + [line], name) ==
            if line.Reference? && line.name == name then Some(line.target) else TargetOf(lines, name)
  {
    var more := lines + [line];
    assert more[..|more| - 1] == lines && more[|more| - 1] == line;
  }

  lemma MisplacedStamps()
    ensures Stamp(MISPLACED, "2", "e").Stamped?
  {
    MisplacedReads();
    MisplacedRefs();
    assert Lower("Unreleased") == "unreleased";
    assert "2"[0] == '2' && "1"[0] == '1' && |"Unreleased"| == 10;
    var s := Sections(MISPLACED);
    assert s[0].body[0] == Note("x") && "x"[0] == 'x';
    assert !IsBlank(s[0].body[0]);
    assert !Declares(s, "2");
    assert PreparedLinks(MISPLACED, "2", "1").Some?;
  }

  lemma MisplacedReads()
    ensures Sections(MISPLACED) ==
            [Section(Heading("Unreleased", Undated("")), [Note("x")]),
             Section(Heading("1", Dated("d")), [Reference("1", Elsewhere("u"))])]
    ensures Body(MISPLACED) == MISPLACED[..1] && !RefBelow(MISPLACED)
  {
    MisplacedRefs();
    var notes, old_ := [Note("x")], [Reference("1", Elsewhere("u"))];
    Rebuild(notes, MISPLACED[3], old_);
    assert Body(old_) == old_ && Sections(old_) == [];
    assert MISPLACED[2..] == notes + [MISPLACED[3]] + old_;
    Rebuild(MISPLACED[..1], MISPLACED[1], MISPLACED[2..]);
    assert MISPLACED == MISPLACED[..1] + [MISPLACED[1]] + MISPLACED[2..];
  }

  // ---------- the release cycle ----------

  /** The changelog and the workspace version. */
  datatype Repo = Repo(lines: seq<Line>, version: string)

  /** A version whose heading and references are read back as written: no
      closing bracket, slash or white space, and not the pending name. */
  predicate IsVersion(name: string) {
    && name != "" && !IsUnreleased(name)
    && forall i :: 0 <= i < |name| ==> name[i] > ' ' && name[i] != ']' && name[i] != '/'
  }

  function Headings(sections: seq<Section>): (hs: seq<Line>)
    ensures |hs| == |sections| && forall k :: 0 <= k < |hs| ==> hs[k] == sections[k].heading
  {
    seq(|sections|, k requires 0 <= k < |sections| => sections[k].heading)
  }

  /** An [Unreleased] heading over dated ones of distinct versions, the newest the workspace version. */
  ghost predicate HeadingsOrdered(hs: seq<Line>, version: string) {
    && |hs| >= 2 && (forall k :: 0 <= k < |hs| ==> hs[k].Heading?)
    && IsUnreleased(hs[0].name) && hs[1].name == version
    && (forall k :: 1 <= k < |hs| ==> IsVersion(hs[k].name) && hs[k].suffix.Dated?)
    && (forall j, k :: 1 <= j < k < |hs| ==> hs[j].name != hs[k].name)
  }

  /** Every release's reference compares it with the release before it, and
      [Unreleased] compares the newest with the head. */
  ghost predicate LinksChained(lines: seq<Line>, hs: seq<Line>, prefix: string)
    requires |hs| >= 2 && forall k :: 0 <= k < |hs| ==> hs[k].Heading?
  {
    && TargetOf(lines, UNRELEASED) == Some(ToHead(prefix, hs[1].name))
    && (forall k :: 1 <= k < |hs| - 1 ==>
          TargetOf(lines, hs[k].name) == Some(Between(prefix, hs[k + 1].name, hs[k].name)))
    && TargetOf(lines, hs[|hs| - 1].name).Some?
  }

  ghost predicate WellFormed(repo: Repo, prefix: string) {
    var hs := Headings(Sections(repo.lines));
    && HeadingsOrdered(hs, repo.version) && LinksChained(repo.lines, hs, prefix)
    && UniqueRefs(repo.lines) && RefBelow(repo.lines)
  }

  datatype Step = AddNote(at: nat, text: string) | Release(version: string, date: string)

  /** Notes go into the pending section; a release stamps and bumps together. */
  function Next(repo: Repo, step: Step): Option<Repo> {
    match step
    case AddNote(at, text) =>
      var s := Sections(repo.lines);
      if s == [] || at > |s[0].body| then None
      else
        SplitFirst(repo.lines);
        var i := |Body(repo.lines)| + 1 + at;
        Some(Repo(repo.lines[..i] + [Note(text)] + repo.lines[i..], repo.version))
    case Release(version, date) =>
      match Stamp(repo.lines, version, date)
      case Stamped(lines) => Some(Repo(lines, version))
      case _ => None
  }

  /** Which releases go through: some notes, and a version not yet declared nor linked. */
  lemma {:induction false} ReleaseSucceedsExactly(repo: Repo, prefix: string, version: string, date: string)
    requires WellFormed(repo, prefix)
    ensures Stamp(repo.lines, version, date).Stamped? <==>
            && version != "" && !Sections(repo.lines)[0].IsEmpty()
            && !Declares(Sections(repo.lines), version) && version !in RefNames(repo.lines)
  {
    TargetMissing(repo.lines, UNRELEASED);
    TargetMissing(repo.lines, repo.version);
    NewestLinked(repo.lines, Headings(Sections(repo.lines)), prefix);
  }

  lemma NewestLinked(lines: seq<Line>, hs: seq<Line>, prefix: string)
    requires |hs| >= 2 && (forall k :: 0 <= k < |hs| ==> hs[k].Heading?) && LinksChained(lines, hs, prefix)
    ensures TargetOf(lines, hs[1].name).Some?
  {
    if |hs| > 2 {
      assert TargetOf(lines, hs[1].name) == Some(Between(prefix, hs[1 + 1].name, hs[1].name));
    }
  }

  lemma {:induction false} ReleaseHeadings(hs: seq<Line>, old_: string, version: string, date: string)
    requires HeadingsOrdered(hs, old_) && IsVersion(version)
    requires forall k :: 1 <= k < |hs| ==> hs[k].name != version
    ensures HeadingsOrdered([hs[0], Heading(version, Dated(date))] + hs[1..], version)
  {
    var hs' := [hs[0], Heading(version, Dated(date))] + hs[1..];
    assert forall k :: 2 <= k < |hs'| ==> hs'[k] == hs[k - 1];
  }

  lemma {:induction false} ReleaseChain(lines: seq<Line>, lines': seq<Line>, hs: seq<Line>, old_: string,
                                        version: string, date: string, prefix: string)
    requires HeadingsOrdered(hs, old_) && LinksChained(lines, hs, prefix)
    requires forall k :: 1 <= k < |hs| ==> hs[k].name != version && hs[k].name != UNRELEASED
    requires TargetOf(lines', UNRELEASED) == Some(ToHead(prefix, version))
    requires TargetOf(lines', version) == Some(Between(prefix, hs[1].name, version))
    requires forall name :: name != UNRELEASED && name != version ==> TargetOf(lines', name) == TargetOf(lines, name)
    ensures LinksChained(lines', [hs[0], Heading(version, Dated(date))] + hs[1..], prefix)
  {
    var hs' := [hs[0], Heading(version, Dated(date))] + hs[1..];
    forall k | 1 <= k < |hs'| - 1
      ensures TargetOf(lines', hs'[k].name) == Some(Between(prefix, hs'[k + 1].name, hs'[k].name))
    {
      if k > 1 {
        assert hs'[k] == hs[k - 1] && hs'[k + 1] == hs[(k - 1) + 1];
        assert TargetOf(lines, hs[k - 1].name) == Some(Between(prefix, hs[(k - 1) + 1].name, hs[k - 1].name));
      }
    }
  }

  lemma {:induction false} StampHeadings(lines: seq<Line>, version: string, date: string)
    requires Stamp(lines, version, date).Stamped? && RefBelow(lines)
    ensures var hs, lines' := Headings(Sections(lines)), Stamp(lines, version, date).lines;
            && |hs| >= 2
            && Headings(Sections(lines')) == [hs[0], Heading(version, Dated(date))] + hs[1..]
            && RefBelow(lines') && UniqueRefs(lines')
  {
    StampedFacts(lines, version, date);
    StampConserves(lines, version, date);
    StampTargets(lines, version, date, version);
    HeadingsAfter(Sections(lines), Sections(Stamp(lines, version, date).lines), version, date);
  }

  lemma {:induction false} HeadingsAfter(s: seq<Section>, s': seq<Section>, version: string, date: string)
    requires |s| >= 2
    requires s' == [Section(s[0].heading, [Note("")]),
                    Section(Heading(version, Dated(date)), Relink(s[0].body, version))] + RelinkSections(s[1..], version)
    ensures Headings(s') == [Headings(s)[0], Heading(version, Dated(date))] + Headings(s)[1..]
  {
    var expected := [Headings(s)[0], Heading(version, Dated(date))] + Headings(s)[1..];
    forall k | 0 <= k < |s'| ensures Headings(s')[k] == expected[k] {
      if k >= 2 {
        assert s'[k] == RelinkSections(s[1..], version)[k - 2];
        assert expected[k] == Headings(s)[k - 1] == s[k - 1].heading;
      }
    }
  }

  lemma UnreleasedIsNoVersion()
    ensures !IsVersion(UNRELEASED)
  {
    assert Lower(UNRELEASED) == "unreleased";
  }

  lemma {:induction false} StampNames(lines: seq<Line>, version: string, date: string, hs: seq<Line>, old_: string)
    requires Stamp(lines, version, date).Stamped? && hs == Headings(Sections(lines)) && HeadingsOrdered(hs, old_)
    ensures forall k :: 1 <= k < |hs| ==> hs[k].name != version && hs[k].name != UNRELEASED
  {
    StampedFacts(lines, version, date);
    UnreleasedIsNoVersion();
    forall k | 1 <= k < |hs| ensures hs[k].name != version && hs[k].name != UNRELEASED {
      assert hs[k] == Sections(lines)[k].heading && IsVersion(hs[k].name);
    }
  }

  lemma {:induction false} StampChain(lines: seq<Line>, version: string, date: string, hs: seq<Line>, old_: string,
                                      prefix: string)
    requires Stamp(lines, version, date).Stamped? && IsVersion(version)
    requires hs == Headings(Sections(lines)) && HeadingsOrdered(hs, old_) && LinksChained(lines, hs, prefix)
    ensures LinksChained(Stamp(lines, version, date).lines, [hs[0], Heading(version, Dated(date))] + hs[1..], prefix)
  {
    var lines' := Stamp(lines, version, date).lines;
    StampNames(lines, version, date, hs, old_);
    assert Lower(UNRELEASED) == "unreleased";
    forall name
      ensures TargetOf(lines', name) ==
              if name == UNRELEASED then Some(ToHead(prefix, version))
              else if name == version then Some(Between(prefix, hs[1].name, version))
              else TargetOf(lines, name)
    {
      StampTargets(lines, version, date, name);
    }
    ReleaseChain(lines, lines', hs, old_, version, date, prefix);
  }

  lemma {:induction false} ReleaseKeeps(repo: Repo, prefix: string, version: string, date: string)
    requires WellFormed(repo, prefix) && IsVersion(version) && Stamp(repo.lines, version, date).Stamped?
    ensures WellFormed(Repo(Stamp(repo.lines, version, date).lines, version), prefix)
  {
    var hs := Headings(Sections(repo.lines));
    StampHeadings(repo.lines, version, date);
    StampNames(repo.lines, version, date, hs, repo.version);
    ReleaseHeadings(hs, repo.version, version, date);
    StampChain(repo.lines, version, date, hs, repo.version, prefix);
  }

  /** A note changes the pending section's body and nothing else. */
  lemma SpliceAt(lines: seq<Line>, first: nat, at: nat, more: seq<Line>)
    requires first + 1 + at <= |lines|
    ensures var a, h, c, i := lines[..first], lines[first], lines[first + 1..], first + 1 + at;
            lines[..i] + more + lines[i..] == a + [h] + (c[..at] + more + c[at..])
  {
    var c, i := lines[first + 1..], first + 1 + at;
    assert lines[..i] == lines[..first] + [lines[first]] + c[..at];
    assert lines[i..] == c[at..];
  }

  lemma {:induction false} NoteAdded(repo: Repo, at: nat, text: string)
    requires Sections(repo.lines) != [] && at <= |Sections(repo.lines)[0].body|
    ensures Next(repo, AddNote(at, text)).Some?
    ensures var s, r := Sections(repo.lines), Next(repo, AddNote(at, text)).value;
            && Sections(r.lines) == [Section(s[0].heading, s[0].body[..at] + [Note(text)] + s[0].body[at..])] + s[1..]
            && Body(r.lines) == Body(repo.lines) && r.version == repo.version
  {
    var lines := repo.lines;
    NextIsSplice(repo, at, text);
    SplitLines(lines);
    var first := |Body(lines)|;
    var h, c := lines[first], lines[first + 1..];
    FirstOfSections(h, c, Sections(lines));
    Rebuild(Body(lines), h, c[..at] + [Note(text)] + c[at..]);
    NoteInBody(c, at, text);
  }

  lemma {:induction false} NextIsSplice(repo: Repo, at: nat, text: string)
    requires Sections(repo.lines) != [] && at <= |Sections(repo.lines)[0].body|
    ensures |Body(repo.lines)| < |repo.lines|
    ensures var first := |Body(repo.lines)|;
            var c := repo.lines[first + 1..];
            && at <= |c|
            && Next(repo, AddNote(at, text)) ==
               Some(Repo(Body(repo.lines) + [repo.lines[first]] + (c[..at] + [Note(text)] + c[at..]), repo.version))
  {
    SplitLines(repo.lines);
    var first := |Body(repo.lines)|;
    assert repo.lines[..first] == Body(repo.lines);
    FirstOfSections(repo.lines[first], repo.lines[first + 1..], Sections(repo.lines));
    SpliceAt(repo.lines, first, at, [Note(text)]);
  }

  lemma FirstOfSections(heading: Line, rest: seq<Line>, sections: seq<Section>)
    requires sections == [Section(heading, Body(rest))] + Sections(rest)
    ensures sections[0].heading == heading && sections[0].body == Body(rest) && sections[1..] == Sections(rest)
  {
  }

  lemma {:induction false} NoteAddedRefs(repo: Repo, at: nat, text: string)
    requires Sections(repo.lines) != [] && at <= |Sections(repo.lines)[0].body|
    ensures Next(repo, AddNote(at, text)).Some?
    ensures var r := Next(repo, AddNote(at, text)).value;
            && (UniqueRefs(r.lines) <==> UniqueRefs(repo.lines))
            && forall name :: TargetOf(r.lines, name) == TargetOf(repo.lines, name)
  {
    var lines := repo.lines;
    SplitFirst(lines);
    var i := |Body(lines)| + 1 + at;
    assert lines == lines[..i] + lines[i..];
    NoteKeepsRefs(lines[..i], text, lines[i..]);
  }

  lemma {:induction false} NoteKeeps(repo: Repo, prefix: string, at: nat, text: string)
    requires WellFormed(repo, prefix) && at <= |Sections(repo.lines)[0].body|
    ensures Next(repo, AddNote(at, text)).Some? && WellFormed(Next(repo, AddNote(at, text)).value, prefix)
  {
    NoteAdded(repo, at, text);
    NoteAddedRefs(repo, at, text);
    var hs, r := Headings(Sections(repo.lines)), Next(repo, AddNote(at, text)).value;
    NoteKeepsHeadings(Sections(repo.lines), Sections(r.lines));
    SameTargetsChained(repo.lines, r.lines, hs, prefix);
  }

  lemma NoteKeepsHeadings(before: seq<Section>, after: seq<Section>)
    requires before != [] && |after| == |before| && after[0].heading == before[0].heading && after[1..] == before[1..]
    ensures Headings(after) == Headings(before)
  {
    assert forall k :: 1 <= k < |after| ==> after[k] == after[1..][k - 1] && before[k] == before[1..][k - 1];
  }

  lemma SameTargetsChained(before: seq<Line>, after: seq<Line>, hs: seq<Line>, prefix: string)
    requires |hs| >= 2 && (forall k :: 0 <= k < |hs| ==> hs[k].Heading?) && LinksChained(before, hs, prefix)
    requires forall name :: TargetOf(after, name) == TargetOf(before, name)
    ensures LinksChained(after, hs, prefix)
  {
  }

  lemma {:induction false} NoteInBody(c: seq<Line>, at: nat, text: string)
    requires at <= |Body(c)|
    ensures Body(c[..at] + [Note(text)] + c[at..]) == Body(c)[..at] + [Note(text)] + Body(c)[at..]
    ensures Sections(c[..at] + [Note(text)] + c[at..]) == Sections(c)
  {
    var a, b := c[..at], c[at..];
    assert c == a + b;
    assert a == Body(c)[..at];
    PlainFront(a, b);
    PlainFront(a + [Note(text)], b);
    assert Body(c)[at..] == Body(b);
  }

  /** Lines without a heading belong to the body they precede. */
  lemma PlainFront(front: seq<Line>, rest: seq<Line>)
    requires forall i :: 0 <= i < |front| ==> !front[i].Heading?
    ensures Body(front + rest) == front + Body(rest) && Sections(front + rest) == Sections(rest)
  {
    BodyWhole(front);
    BodyConcat(front, rest);
    SectionsSkip(front, rest);
  }

  lemma {:induction false} NoteKeepsRefs(a: seq<Line>, text: string, b: seq<Line>)
    ensures RefNames(a + [Note(text)] + b) == RefNames(a + b)
    ensures UniqueRefs(a + [Note(text)] + b) <==> UniqueRefs(a + b)
    ensures forall name :: TargetOf(a + [Note(text)] + b, name) == TargetOf(a + b, name)
  {
    var x := [Note(text)];
    assert x[..0] == [];
    RefsConcat(a + x, b);
    RefsConcat(a, x);
    RefsConcat(a, b);
    forall name ensures TargetOf(a + x + b, name) == TargetOf(a + b, name) {
      TargetConcat(a + x, b, name);
      TargetConcat(a, x, name);
      TargetConcat(a, b, name);
    }
  }

  /** A release names a version; notes are unconstrained. */
  predicate IsSensible(step: Step) {
    step.Release? ==> IsVersion(step.version)
  }

  function Run(repo: Repo, steps: seq<Step>): Option<Repo> {
    if steps == [] then Some(repo)
    else
      match Run(repo, steps[..|steps| - 1])
      case Some(before) => Next(before, steps[|steps| - 1])
      case None => None
  }

  /** The gate on a well-formed state: it accepts the workspace version and no
      other, and reads pending notes against the workspace version exactly when
      there are any. */
  lemma {:induction false} GateOnWellFormed(repo: Repo, prefix: string, other: string)
    requires WellFormed(repo, prefix)
    ensures CheckStamped(Sections(repo.lines), other) <==> other == repo.version
    ensures NotesBaseline(Sections(repo.lines), repo.version) == WorkspaceVersion <==>
            !Sections(repo.lines)[0].IsEmpty()
  {
    var s := Sections(repo.lines);
    var hs := Headings(s);
    assert hs[0] == s[0].heading && hs[1] == s[1].heading;
    assert s[1..][0] == s[1];
    assert TopVersion(s) == Some(s[1]);
  }

  /** Release-cycle invariant: over every run of note and release steps from a
      well-formed changelog, the state stays well formed with its links
      chained, and the gate accepts it at its own version and at no other. */
  lemma {:induction false} EveryRunStaysReleasable(repo: Repo, prefix: string, steps: seq<Step>, other: string)
    requires WellFormed(repo, prefix) && Run(repo, steps).Some?
    requires forall i :: 0 <= i < |steps| ==> IsSensible(steps[i])
    ensures var r := Run(repo, steps).value;
            && WellFormed(r, prefix)
            && (CheckStamped(Sections(r.lines), other) <==> other == r.version)
            && (NotesBaseline(Sections(r.lines), r.version) == WorkspaceVersion <==> !Sections(r.lines)[0].IsEmpty())
    decreases |steps|
  {
    if steps != [] {
      var n := |steps| - 1;
      EveryRunStaysReleasable(repo, prefix, steps[..n], other);
      var before := Run(repo, steps[..n]).value;
      match steps[n]
      case AddNote(at, text) => NoteKeeps(before, prefix, at, text);
      case Release(version, date) => ReleaseKeeps(before, prefix, version, date);
    }
    GateOnWellFormed(Run(repo, steps).value, prefix, other);
  }

  /** Stamp and bump belong together: after either alone, to another version,
      the gate refuses. */
  lemma {:induction false} HalfReleaseRefused(repo: Repo, prefix: string, version: string, date: string)
    requires WellFormed(repo, prefix) && IsVersion(version) && Stamp(repo.lines, version, date).Stamped?
    ensures !CheckStamped(Sections(Stamp(repo.lines, version, date).lines), repo.version)
    ensures !CheckStamped(Sections(repo.lines), version)
  {
    ReleaseKeeps(repo, prefix, version, date);
    GateOnWellFormed(Repo(Stamp(repo.lines, version, date).lines, version), prefix, repo.version);
    GateOnWellFormed(repo, prefix, version);
    StampedFacts(repo.lines, version, date);
    assert Headings(Sections(repo.lines))[1] == Sections(repo.lines)[1].heading;
    assert Sections(repo.lines)[1].heading.name == repo.version;
  }
}
