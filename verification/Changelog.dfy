/** The changelog as the stamper and the release gate read it: a list of
    lines, its sections, and its comparison references. */
module Changelog {
  import opened Text

  /** What a comparison reference points at. */
  datatype Target =
    | ToHead(prefix: string, base: string)
    | Between(prefix: string, from: string, to: string)
    | Elsewhere(url: string)

  /** The text after a heading's label: a release date, or anything else. */
  datatype Suffix = Dated(date: string) | Undated(text: string)

  datatype Line =
    | Heading(name: string, suffix: Suffix)
    | Reference(name: string, target: Target)
    | Note(text: string)

  const UNRELEASED: string := "Unreleased"

  predicate IsUnreleased(name: string) {
    Lower(name) == "unreleased"
  }

  predicate IsBlank(line: Line) {
    line.Note? && forall i :: 0 <= i < |line.text| ==> line.text[i] in {' ', '\t'}
  }

  predicate AllBlank(lines: seq<Line>) {
    forall i :: 0 <= i < |lines| ==> IsBlank(lines[i])
  }

  // ---------- sections ----------

  datatype Section = Section(heading: Line, body: seq<Line>) {
    function Version(): Option<string>
      requires heading.Heading?
    {
      if IsUnreleased(heading.name) then None else Some(heading.name)
    }

    predicate IsStamped()
      requires heading.Heading?
    {
      Version().Some? && heading.suffix.Dated?
    }

    predicate IsEmpty() {
      AllBlank(body)
    }
  }

  /** The lines before the first heading. */
  function Body(lines: seq<Line>): (body: seq<Line>)
    ensures body <= lines
    ensures forall i :: 0 <= i < |body| ==> !body[i].Heading?
    ensures |body| < |lines| ==> lines[|body|].Heading?
  {
    if lines == [] || lines[0].Heading? then [] else [lines[0]] + Body(lines[1..])
  }

  function Sections(lines: seq<Line>): (sections: seq<Section>)
    ensures forall i :: 0 <= i < |sections| ==> sections[i].heading.Heading?
  {
    if lines == [] then []
    else if lines[0].Heading? then [Section(lines[0], Body(lines[1..]))] + Sections(lines[1..])
    else Sections(lines[1..])
  }

  /** The sections still to come, with `heading` and `body` those of an open one. */
  function Remaining(heading: Option<Line>, body: seq<Line>, rest: seq<Line>): seq<Section> {
    (if heading.Some? then [Section(heading.value, body + Body(rest))] else []) + Sections(rest)
  }

  function Closed(done: seq<Section>, heading: Option<Line>, body: seq<Line>): seq<Section> {
    if heading.Some? then done + [Section(heading.value, body)] else done
  }

  lemma {:induction false} ReadHeading(done: seq<Section>, heading: Option<Line>, body: seq<Line>, rest: seq<Line>)
    requires rest != [] && rest[0].Heading?
    ensures done + Remaining(heading, body, rest) ==
            Closed(done, heading, body) + Remaining(Some(rest[0]), [], rest[1..])
  {
    var tail := Sections(rest[1..]);
    assert body + Body(rest) == body && [] + Body(rest[1..]) == Body(rest[1..]);
    assert Sections(rest) == [Section(rest[0], Body(rest[1..]))] + tail;
    if heading.Some? {
      Assoc(done, [Section(heading.value, body)], Sections(rest));
    } else {
      assert [] + Sections(rest) == Sections(rest);
    }
  }

  lemma {:induction false} ReadLine(heading: Option<Line>, body: seq<Line>, rest: seq<Line>)
    requires rest != [] && !rest[0].Heading?
    ensures Remaining(heading, body, rest) ==
            Remaining(heading, if heading.Some? then body + [rest[0]] else body, rest[1..])
  {
    assert body + Body(rest) == (body + [rest[0]]) + Body(rest[1..]);
  }

  /** The gate's reader: one pass with an open section. */
  method ParseChangelog(lines: seq<Line>) returns (sections: seq<Section>)
    ensures sections == Sections(lines)
  {
    sections := [];
    var heading: Option<Line>, body: seq<Line> := None, [];
    assert lines[0..] == lines;
    for i := 0 to |lines|
      invariant Sections(lines) == sections + Remaining(heading, body, lines[i..])
    {
      assert lines[i..][1..] == lines[i + 1..];
      if lines[i].Heading? {
        ReadHeading(sections, heading, body, lines[i..]);
        if heading.Some? {
          sections := sections + [Section(heading.value, body)];
        }
        heading, body := Some(lines[i]), [];
      } else {
        ReadLine(heading, body, lines[i..]);
        if heading.Some? {
          body := body + [lines[i]];
        }
      }
    }
    if heading.Some? {
      assert body + [] == body;
      sections := sections + [Section(heading.value, body)];
    }
  }

  /** The lines the sections were read from. */
  function Written(sections: seq<Section>): seq<Line> {
    if sections == [] then [] else [sections[0].heading] + sections[0].body + Written(sections[1..])
  }

  /** Reading loses nothing: the lines before the first heading and the
      sections, written out again, are the file. */
  lemma {:induction false} SectionsPartition(lines: seq<Line>)
    ensures Body(lines) + Written(Sections(lines)) == lines
    decreases |lines|
  {
    if lines != [] {
      var rest := lines[1..];
      SectionsPartition(rest);
      assert lines == [lines[0]] + rest;
      if lines[0].Heading? {
        assert Sections(lines)[1..] == Sections(rest);
        Assoc([lines[0]], Body(rest), Written(Sections(rest)));
      } else {
        Assoc([lines[0]], Body(rest), Written(Sections(rest)));
      }
    }
  }

  lemma {:induction false} BodyConcat(a: seq<Line>, b: seq<Line>)
    ensures Body(a + b) == if Body(a) == a then a + Body(b) else Body(a)
    decreases |a|
  {
    if a == [] {
      assert a + b == b;
    } else {
      assert (a + b)[1..] == a[1..] + b;
      BodyConcat(a[1..], b);
      if Body(a) == a {
        assert a == [a[0]] + a[1..];
        assert Body(a)[1..] == Body(a[1..]);
      }
    }
  }

  /** Lines without a heading add no section. */
  lemma {:induction false} SectionsSkip(a: seq<Line>, b: seq<Line>)
    requires forall i :: 0 <= i < |a| ==> !a[i].Heading?
    ensures Sections(a + b) == Sections(b)
    decreases |a|
  {
    if a == [] {
      assert a + b == b;
    } else {
      assert (a + b)[1..] == a[1..] + b;
      SectionsSkip(a[1..], b);
    }
  }

  lemma {:induction false} BodyWhole(a: seq<Line>)
    requires forall i :: 0 <= i < |a| ==> !a[i].Heading?
    ensures Body(a) == a
    decreases |a|
  {
    if a != [] {
      BodyWhole(a[1..]);
      assert a == [a[0]] + a[1..];
    }
  }

  /** The first heading, what precedes it and what follows. */
  lemma {:induction false} SplitFirst(lines: seq<Line>)
    requires Sections(lines) != []
    ensures |Body(lines)| < |lines| && lines[|Body(lines)|] == Sections(lines)[0].heading
    ensures Sections(lines) ==
            [Section(lines[|Body(lines)|], Body(lines[|Body(lines)| + 1..]))] + Sections(lines[|Body(lines)| + 1..])
  {
    var first := |Body(lines)|;
    var a := lines[..first];
    assert Body(lines) == a;
    assert lines == a + lines[first..];
    SectionsSkip(a, lines[first..]);
    assert first < |lines|;
    assert lines[first..][1..] == lines[first + 1..];
  }

  // ---------- references ----------

  function RefNames(lines: seq<Line>): set<string> {
    if lines == [] then {}
    else RefNames(lines[..|lines| - 1]) +
         if lines[|lines| - 1].Reference? then {lines[|lines| - 1].name} else {}
  }

  predicate UniqueRefs(lines: seq<Line>) {
    lines == [] ||
    (&& UniqueRefs(lines[..|lines| - 1])
     && (lines[|lines| - 1].Reference? ==> lines[|lines| - 1].name !in RefNames(lines[..|lines| - 1])))
  }

  lemma {:induction false} RefsConcat(a: seq<Line>, b: seq<Line>)
    ensures RefNames(a + b) == RefNames(a) + RefNames(b)
    ensures UniqueRefs(a + b) <==> UniqueRefs(a) && UniqueRefs(b) && RefNames(a) !! RefNames(b)
    decreases |b|
  {
    if b == [] {
      assert a + b == a;
    } else {
      var n := |b| - 1;
      RefsConcat(a, b[..n]);
      assert (a + b)[..|a + b| - 1] == a + b[..n];
      assert (a + b)[|a + b| - 1] == b[n];
    }
  }

  lemma {:induction false} RefNamesMember(lines: seq<Line>, name: string)
    ensures name in RefNames(lines) <==> exists i :: 0 <= i < |lines| && lines[i].Reference? && lines[i].name == name
    decreases |lines|
  {
    if lines != [] {
      var n := |lines| - 1;
      RefNamesMember(lines[..n], name);
      if lines[n].Reference? && lines[n].name == name {
        assert 0 <= n < |lines|;
      }
    }
  }

  lemma {:induction false} UniqueRefsAt(lines: seq<Line>, i: nat, j: nat)
    requires UniqueRefs(lines) && i < |lines| && j < |lines|
    requires lines[i].Reference? && lines[j].Reference? && lines[i].name == lines[j].name
    ensures i == j
    decreases |lines|
  {
    var n := |lines| - 1;
    RefNamesMember(lines[..n], lines[i].name);
    if i < n && j < n {
      UniqueRefsAt(lines[..n], i, j);
    }
  }

  /** Where each reference is; None when a label occurs twice. */
  method ReferencePositions(lines: seq<Line>) returns (r: Option<map<string, nat>>)
    ensures r.Some? <==> UniqueRefs(lines)
    ensures r.Some? ==> r.value.Keys == RefNames(lines)
    ensures r.Some? ==> forall name :: name in r.value ==>
              r.value[name] < |lines| && lines[r.value[name]].Reference? && lines[r.value[name]].name == name
  {
    var positions: map<string, nat> := map[];
    for i := 0 to |lines|
      invariant UniqueRefs(lines[..i]) && positions.Keys == RefNames(lines[..i])
      invariant forall name :: name in positions ==>
                  positions[name] < |lines| && lines[positions[name]].Reference? && lines[positions[name]].name == name
    {
      assert lines[..i + 1][..i] == lines[..i];
      if lines[i].Reference? {
        if lines[i].name in positions {
          assert lines == lines[..i + 1] + lines[i + 1..];
          RefsConcat(lines[..i + 1], lines[i + 1..]);
          return None;
        }
        positions := positions[lines[i].name := i];
      }
    }
    assert lines[..|lines|] == lines;
    return Some(positions);
  }

  // ---------- the gate ----------

  datatype Baseline = Published | WorkspaceVersion

  /** The section a release is declared in: an empty topmost one is skipped. */
  function Pending(sections: seq<Section>): Option<Section> {
    if sections == [] then None
    else if sections[0].IsEmpty() && |sections| > 1 then Some(sections[1])
    else Some(sections[0])
  }

  /** The topmost section with a version. */
  function TopVersion(sections: seq<Section>): (r: Option<Section>)
    requires forall i :: 0 <= i < |sections| ==> sections[i].heading.Heading?
    ensures r.Some? ==> r.value.heading.Heading? && r.value.Version().Some?
  {
    if sections == [] then None
    else if sections[0].Version().Some? then Some(sections[0])
    else TopVersion(sections[1..])
  }

  function NotesBaseline(sections: seq<Section>, version: string): Baseline
    requires forall i :: 0 <= i < |sections| ==> sections[i].heading.Heading?
  {
    var pending := Pending(sections);
    if pending.None? || pending.value.Version().Some? then Published
    else
      var stamped := TopVersion(sections);
      if stamped.Some? && stamped.value.Version() == Some(version) && stamped.value.IsStamped() then WorkspaceVersion
      else Published
  }

  /** Whether the gate accepts the notes as those of `version`. */
  predicate CheckStamped(sections: seq<Section>, version: string)
    requires forall i :: 0 <= i < |sections| ==> sections[i].heading.Heading?
  {
    var pending := Pending(sections);
    && pending.Some?
    && if pending.value.Version().None? then
         TopVersion(sections).Some? && TopVersion(sections).value.Version() == Some(version)
       else
         pending.value.Version() == Some(version) && pending.value.IsStamped()
  }
}
