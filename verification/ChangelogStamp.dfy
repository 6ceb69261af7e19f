/** Stamping the pending section for a release: the notes go under a dated
    heading, an empty stub stays above, and the comparison references advance. */
module ChangelogStamp {
  import opened Text
  import opened Changelog

  // ---------- the comparison references ----------

  /** The [Unreleased] reference advanced past `version`, followed by the new release's own. */
  function RelinkLine(line: Line, version: string): (ls: seq<Line>)
    ensures |ls| > 0
  {
    if line.Reference? && line.name == UNRELEASED && line.target.ToHead? then
      [Reference(UNRELEASED, ToHead(line.target.prefix, version)),
       Reference(version, Between(line.target.prefix, line.target.base, version))]
    else [line]
  }

  function Relink(lines: seq<Line>, version: string): (ls: seq<Line>)
    ensures |ls| >= |lines|
  {
    if lines == [] then [] else Relink(lines[..|lines| - 1], version) + RelinkLine(lines[|lines| - 1], version)
  }

  lemma RelinkLast(lines: seq<Line>, version: string)
    requires lines != []
    ensures Relink(lines, version) == Relink(lines[..|lines| - 1], version) + RelinkLine(lines[|lines| - 1], version)
  {
  }

  lemma {:induction false} RelinkConcat(a: seq<Line>, b: seq<Line>, version: string)
    ensures Relink(a + b, version) == Relink(a, version) + Relink(b, version)
    decreases |b|
  {
    if b == [] {
      assert a + b == a;
    } else {
      var n := |b| - 1;
      RelinkConcat(a, b[..n], version);
      RelinkLast(a + b, version);
      RelinkLast(b, version);
      assert (a + b)[..|a + b| - 1] == a + b[..n];
      Assoc(Relink(a, version), Relink(b[..n], version), RelinkLine(b[n], version));
    }
  }

  /** Lines without an [Unreleased] reference stay as they are. */
  lemma {:induction false} RelinkIdle(lines: seq<Line>, version: string)
    requires UNRELEASED !in RefNames(lines)
    ensures Relink(lines, version) == lines
    decreases |lines|
  {
    if lines != [] {
      RelinkIdle(lines[..|lines| - 1], version);
      SplitLast(lines);
    }
  }

  /** The target of the reference `name`. */
  function TargetOf(lines: seq<Line>, name: string): Option<Target> {
    if lines == [] then None
    else
      var last := lines[|lines| - 1];
      if last.Reference? && last.name == name then Some(last.target) else TargetOf(lines[..|lines| - 1], name)
  }

  lemma {:induction false} TargetAt(lines: seq<Line>, i: nat)
    requires UniqueRefs(lines) && i < |lines| && lines[i].Reference?
    ensures TargetOf(lines, lines[i].name) == Some(lines[i].target)
    decreases |lines|
  {
    var n := |lines| - 1;
    if i < n {
      if lines[n].Reference? && lines[n].name == lines[i].name {
        UniqueRefsAt(lines, i, n);
      } else {
        TargetAt(lines[..n], i);
      }
    }
  }

  function PreparedLinks(lines: seq<Line>, version: string, previous: string): Option<seq<Line>> {
    if !UniqueRefs(lines) || UNRELEASED !in RefNames(lines) || previous !in RefNames(lines) || version in RefNames(lines)
    then None
    else
      match TargetOf(lines, UNRELEASED)
      case Some(ToHead(_, base)) => if base == previous then Some(Relink(lines, version)) else None
      case _ => None
  }

  /** With one [Unreleased] reference, advancing the links is one assignment and one insertion. */
  lemma {:induction false} RelinkAt(lines: seq<Line>, u: nat, version: string)
    requires UniqueRefs(lines) && u < |lines| && lines[u].Reference? && lines[u].name == UNRELEASED
    ensures Relink(lines, version) == lines[..u] + RelinkLine(lines[u], version) + lines[u + 1..]
  {
    var a, b := lines[..u], lines[u + 1..];
    assert lines == (a + [lines[u]]) + b;
    RefsConcat(a + [lines[u]], b);
    RefsConcat(a, [lines[u]]);
    assert [lines[u]][..0] == [];
    RelinkConcat(a + [lines[u]], b, version);
    RelinkConcat(a, [lines[u]], version);
    RelinkIdle(a, version);
    RelinkIdle(b, version);
  }

  method PrepareLinks(lines: seq<Line>, version: string, previous: string) returns (r: Option<seq<Line>>)
    ensures r == PreparedLinks(lines, version, previous)
  {
    var found := ReferencePositions(lines);
    if found.None? {
      return None;
    }
    var positions := found.value;
    if UNRELEASED !in positions || previous !in positions || version in positions {
      return None;
    }
    var u := positions[UNRELEASED];
    TargetAt(lines, u);
    RelinkAt(lines, u, version);
    match lines[u].target
    case ToHead(prefix, base) =>
      if base != previous {
        return None;
      }
      var edited := lines[u := Reference(UNRELEASED, ToHead(prefix, version))];
      edited := edited[..u + 1] + [Reference(version, Between(prefix, previous, version))] + edited[u + 1..];
      assert edited == lines[..u] + RelinkLine(lines[u], version) + lines[u + 1..];
      return Some(edited);
    case _ => return None;
  }

  predicate LinksValid(lines: seq<Line>, version: string, previous: string) {
    && UniqueRefs(lines)
    && match (TargetOf(lines, UNRELEASED), TargetOf(lines, version))
       case (Some(ToHead(prefix, base)), Some(target)) => base == version && target == Between(prefix, previous, version)
       case _ => false
  }

  lemma {:induction false} TargetMissing(lines: seq<Line>, name: string)
    ensures TargetOf(lines, name).Some? <==> name in RefNames(lines)
    decreases |lines|
  {
    if lines != [] {
      TargetMissing(lines[..|lines| - 1], name);
    }
  }

  method ValidateLinks(lines: seq<Line>, version: string, previous: string) returns (ok: bool)
    ensures ok == LinksValid(lines, version, previous)
  {
    var found := ReferencePositions(lines);
    if found.None? {
      return false;
    }
    var positions := found.value;
    TargetMissing(lines, UNRELEASED);
    TargetMissing(lines, version);
    if UNRELEASED !in positions || version !in positions {
      return false;
    }
    TargetAt(lines, positions[UNRELEASED]);
    TargetAt(lines, positions[version]);
    match lines[positions[UNRELEASED]].target
    case ToHead(prefix, base) =>
      return base == version && lines[positions[version]].target == Between(prefix, previous, version);
    case _ => return false;
  }

  // ---------- the stamp ----------

  datatype Outcome = Stamped(lines: seq<Line>) | Already | Refused

  predicate IsStampFor(heading: Line, version: string)
    requires heading.Heading?
  {
    heading.name == version && heading.suffix.Dated?
  }

  predicate Declares(sections: seq<Section>, version: string) {
    exists k :: 1 <= k < |sections| && sections[k].heading.Heading? && sections[k].heading.name == version
  }

  /** What stamping `lines` for `version` on `date` does. */
  function Stamp(lines: seq<Line>, version: string, date: string): Outcome {
    var s := Sections(lines);
    if version == "" || s == [] then Refused
    else if !IsUnreleased(s[0].heading.name) then
      if IsStampFor(s[0].heading, version) && |s| >= 2 && LinksValid(lines, version, s[1].heading.name)
      then Already else Refused
    else if s[0].IsEmpty() then
      if |s| >= 3 && IsStampFor(s[1].heading, version) && LinksValid(lines, version, s[2].heading.name)
      then Already else Refused
    else if Declares(s, version) || |s| < 2 then Refused
    else
      match PreparedLinks(lines, version, s[1].heading.name)
      case None => Refused
      case Some(linked) =>
        SplitFirst(lines);
        Stamped(InsertHeading(linked, |Body(lines)|, version, date))
  }

  /** A blank line and the dated heading, after the line at `first`. */
  function InsertHeading(lines: seq<Line>, first: nat, version: string, date: string): seq<Line>
    requires first < |lines|
  {
    lines[..first + 1] + [Note(""), Heading(version, Dated(date))] + lines[first + 1..]
  }

  function Positions(lines: seq<Line>, i: nat): seq<nat>
    requires i <= |lines|
    decreases |lines| - i
  {
    if i == |lines| then []
    else if lines[i].Heading? then [i] + Positions(lines, i + 1)
    else Positions(lines, i + 1)
  }

  /** Heading positions are where the sections start. */
  lemma {:induction false} PositionsStart(lines: seq<Line>, i: nat)
    requires i <= |lines|
    ensures var p, s := Positions(lines, i), Sections(lines[i..]);
            |p| == |s| && forall k :: 0 <= k < |p| ==> i <= p[k] < |lines| && lines[p[k]] == s[k].heading
    decreases |lines| - i
  {
    if i < |lines| {
      PositionsStart(lines, i + 1);
      assert lines[i..][1..] == lines[i + 1..] && lines[i..][0] == lines[i];
    }
  }

  lemma {:induction false} BodyToPosition(lines: seq<Line>, i: nat)
    requires i <= |lines|
    ensures i + |Body(lines[i..])| == if Positions(lines, i) == [] then |lines| else Positions(lines, i)[0]
    decreases |lines| - i
  {
    if i < |lines| {
      BodyToPosition(lines, i + 1);
      assert lines[i..][1..] == lines[i + 1..] && lines[i..][0] == lines[i];
    }
  }

  lemma {:induction false} PositionsTail(lines: seq<Line>, i: nat)
    requires i <= |lines| && Positions(lines, i) != []
    ensures Positions(lines, i)[0] < |lines|
    ensures Positions(lines, i)[1..] == Positions(lines, Positions(lines, i)[0] + 1)
    decreases |lines| - i
  {
    if !lines[i].Heading? {
      PositionsTail(lines, i + 1);
    }
  }

  /** The body of the first section lies between the first two positions. */
  lemma {:induction false} FirstPositionDelimits(lines: seq<Line>)
    requires Positions(lines, 0) != []
    ensures var p := Positions(lines, 0);
            var end := if |p| > 1 then p[1] else |lines|;
            p[0] == |Body(lines)| && p[0] < end <= |lines| && lines[p[0] + 1..end] == Body(lines[p[0] + 1..])
  {
    assert lines[0..] == lines;
    var p := Positions(lines, 0);
    PositionsTail(lines, 0);
    BodyToPosition(lines, 0);
    BodyToPosition(lines, p[0] + 1);
    var body := Body(lines[p[0] + 1..]);
    assert lines[p[0] + 1..][..|body|] == body;
    assert |p| > 1 ==> p[1] == p[1..][0];
  }

  lemma {:induction false} PositionsDelimit(lines: seq<Line>)
    ensures |Positions(lines, 0)| == |Sections(lines)|
    ensures forall k :: 0 <= k < |Positions(lines, 0)| ==>
              Positions(lines, 0)[k] < |lines| && lines[Positions(lines, 0)[k]] == Sections(lines)[k].heading
    ensures var p, s := Positions(lines, 0), Sections(lines);
            p != [] ==>
              var end := if |p| > 1 then p[1] else |lines|;
              p[0] == |Body(lines)| && p[0] < end <= |lines| && lines[p[0] + 1..end] == s[0].body
  {
    assert lines[0..] == lines;
    PositionsStart(lines, 0);
    if Positions(lines, 0) != [] {
      FirstPositionDelimits(lines);
      SplitFirst(lines);
    }
  }

  /** The changelog file: a stamp that is refused leaves it as it was. */
  class ChangelogFile {
    var lines: seq<Line>

    constructor (lines: seq<Line>)
      ensures this.lines == lines
    {
      this.lines := lines;
    }

    method StampRelease(version: string, date: string) returns (outcome: Outcome)
      modifies this
      ensures outcome == Stamp(old(lines), version, date)
      ensures lines == if outcome.Stamped? then outcome.lines else old(lines)
    {
      if version == "" {
        return Refused;
      }
      var positions := HeadingPositions();
      ghost var s := Sections(lines);
      PositionsDelimit(lines);
      if positions == [] {
        return Refused;
      }
      var first := positions[0];
      if !IsUnreleased(lines[first].name) {
        if IsStampFor(lines[first], version) && |positions| >= 2 {
          var ok := ValidateLinks(lines, version, lines[positions[1]].name);
          return if ok then Already else Refused;
        }
        return Refused;
      }
      var bodyEnd := if |positions| > 1 then positions[1] else |lines|;
      if AllBlank(lines[first + 1..bodyEnd]) {
        if |positions| >= 3 && IsStampFor(lines[positions[1]], version) {
          var ok := ValidateLinks(lines, version, lines[positions[2]].name);
          return if ok then Already else Refused;
        }
        return Refused;
      }
      var declared := exists k :: 1 <= k < |positions| && lines[positions[k]].name == version;
      DeclaredAt(lines, version);
      if declared || |positions| < 2 {
        return Refused;
      }
      var linked := PrepareLinks(lines, version, lines[positions[1]].name);
      if linked.None? {
        return Refused;
      }
      lines := InsertHeading(linked.value, first, version, date);
      return Stamped(lines);
    }

    method HeadingPositions() returns (positions: seq<nat>)
      ensures positions == Positions(lines, 0)
    {
      positions := [];
      for i := 0 to |lines|
        invariant Positions(lines, 0) == positions + Positions(lines, i)
      {
        if lines[i].Heading? {
          positions := positions + [i];
        }
      }
    }
  }

  lemma {:induction false} DeclaredAt(lines: seq<Line>, version: string)
    ensures var p := Positions(lines, 0);
            && (forall k :: 0 <= k < |p| ==> p[k] < |lines| && lines[p[k]].Heading?)
            && (Declares(Sections(lines), version) <==> exists k :: 1 <= k < |p| && lines[p[k]].name == version)
  {
    PositionsDelimit(lines);
    var p, s := Positions(lines, 0), Sections(lines);
    if Declares(s, version) {
      var k :| 1 <= k < |s| && s[k].heading.Heading? && s[k].heading.name == version;
      assert 1 <= k < |p| && lines[p[k]].name == version;
    }
    if exists k :: 1 <= k < |p| && lines[p[k]].name == version {
      var k :| 1 <= k < |p| && lines[p[k]].name == version;
      assert s[k].heading.name == version;
    }
  }
}
