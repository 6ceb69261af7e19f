/** The other half of the blanking: code that a `cfg` compiles out is blanked,
    wherever the search for attributes can see that `cfg`. */
module BlankingCompleteness {
  import opened CfgPredicates
  import opened CompiledOut
  import opened RustText
  import opened Text

  /** The attribute pattern searches: from anywhere before a match it finds that match. */
  ghost predicate IsSearch(p: Patterns) {
    && (forall text, i: nat, j: nat :: i <= j && p.cfg(text, i).None? ==> p.cfg(text, j).None?)
    && (forall text, i: nat, j: nat :: p.cfg(text, i).Some? && i <= j <= p.cfg(text, i).value.start ==>
          p.cfg(text, j) == p.cfg(text, i))
  }

  /** Where the attribute ends, or its opening when it is never closed. */
  ghost function AttributeStop(text: string, m: Attribute, p: Patterns): nat
    requires IsPatterns(p) && m.start < m.end <= |text| && text[m.end - 1] == '('
  {
    var extent := AttributeExtent(text, m, p, Rust(p.alnum));
    if extent.Some? then extent.value.end else m.end
  }

  /** The position lies inside a `cfg` attribute that starts before it. */
  ghost predicate InsideOther(text: string, start: nat, p: Patterns)
    requires IsPatterns(p)
  {
    exists pos: nat :: pos <= |text| && p.cfg(text, pos).Some? &&
      p.cfg(text, pos).value.start < start < AttributeStop(text, p.cfg(text, pos).value, p)
  }

  /** The predicate is false in every compilation without the feature, and no `any()` in it is empty. */
  ghost predicate PlainlyAway(inside: string, p: Patterns, feature: string) {
    CompiledAway(inside, p, feature) && NoEmptyAny(From(p.tokens(inside).value).value)
  }

  /** The attribute compiles out an item that ends at `end`. */
  ghost predicate CompilesItem(text: string, m: Attribute, end: nat, p: Patterns, feature: string)
    requires IsPatterns(p) && m.start < m.end <= |text| && text[m.end - 1] == '('
  {
    var extent := AttributeExtent(text, m, p, Rust(p.alnum));
    && extent.Some? && PlainlyAway(text[m.end..extent.value.close], p, feature)
    && !m.inner && ItemExtent(text, extent.value.end, p, Rust(p.alnum)) == Some(end)
  }

  /** The attribute, inner and among those that lead the file, compiles the file out. */
  ghost predicate CompilesFile(text: string, m: Attribute, p: Patterns, feature: string)
    requires IsPatterns(p) && m.start < m.end <= |text| && text[m.end - 1] == '('
  {
    var extent := AttributeExtent(text, m, p, Rust(p.alnum));
    && extent.Some? && PlainlyAway(text[m.end..extent.value.close], p, feature)
    && m.inner && AttributesEnd(text, 0, p, Rust(p.alnum)) >= extent.value.end
  }

  lemma {:induction false} AwayIsRequired(inside: string, p: Patterns, feature: string)
    requires PlainlyAway(inside, p, feature)
    ensures Requires(inside, p, feature)
  {
    NeedsExactly(From(p.tokens(inside).value).value, feature);
  }

  /** What the scan does at such an attribute. */
  lemma {:induction false} StepActs(text: string, m: Attribute, p: Patterns, feature: string)
    requires IsPatterns(p) && HasNoRawC(text, p.alnum) && m.start < m.end <= |text| && text[m.end - 1] == '('
    ensures CompilesFile(text, m, p, feature) ==> StepAt(text, m, p, feature).whole
    ensures forall end: nat :: CompilesItem(text, m, end, p, feature) ==> StepAt(text, m, p, feature) == Step(end, false, m.start)
    ensures var s := StepAt(text, m, p, feature); s.pos == AttributeStop(text, m, p) || (s.start == m.start && !s.whole)
  {
    AttributeExtentAgrees(text, m, p);
    var extent := AttributeExtent(text, m, p, Rust(p.alnum));
    AttributesAgree(text, 0, p);
    if extent.Some? {
      ExtentsAgree(text, extent.value.end, p);
      if PlainlyAway(text[m.end..extent.value.close], p, feature) {
        AwayIsRequired(text[m.end..extent.value.close], p, feature);
      }
    }
  }

  /** The plan covers the range: the whole file, or one of its ranges is that. */
  ghost predicate Plans(plan: Plan, range: (nat, nat)) {
    plan.Whole? || range in plan.ranges
  }

  /** The whole file is blanked, or an item that starts before `k` and ends behind it. */
  ghost predicate Covers(plan: Plan, k: nat) {
    plan.Whole? || exists r :: 0 <= r < |plan.ranges| && plan.ranges[r].0 < k < plan.ranges[r].1
  }

  lemma AddPlans(plan: Plan, added: (nat, nat), range: (nat, nat), k: nat)
    ensures Plans(plan, range) ==> Plans(Add(added, plan), range)
    ensures Covers(plan, k) ==> Covers(Add(added, plan), k)
    ensures Plans(Add(added, plan), added)
    ensures added.0 < k < added.1 ==> Covers(Add(added, plan), k)
  {
    if plan.Ranges? {
      var ranges := [added] + plan.ranges;
      assert ranges[0] == added;
      if r :| 0 <= r < |plan.ranges| && plan.ranges[r].0 < k < plan.ranges[r].1 {
        assert ranges[r + 1] == plan.ranges[r];
      }
    }
  }

  /** What becomes of the attribute found from `pos`, when the scan goes on from `from`. */
  ghost predicate IsDealtWith(text: string, from: nat, m: Attribute, p: Patterns, feature: string)
    requires IsPatterns(p) && from <= |text| && m.start < m.end <= |text| && text[m.end - 1] == '('
  {
    var plan := PlanFrom(text, from, p, feature);
    || Covers(plan, m.start)
    || ((CompilesFile(text, m, p, feature) ==> plan.Whole?) &&
        forall end: nat :: CompilesItem(text, m, end, p, feature) ==> Plans(plan, (m.start, end)))
  }

  lemma {:induction false} DealtWith(text: string, from: nat, pos: nat, p: Patterns, feature: string)
    requires IsPatterns(p) && IsSearch(p) && HasNoRawC(text, p.alnum) && from <= pos <= |text|
    requires p.cfg(text, pos).Some? && !InsideOther(text, p.cfg(text, pos).value.start, p)
    ensures IsDealtWith(text, from, p.cfg(text, pos).value, p, feature)
    decreases |text| - from
  {
    var m := p.cfg(text, pos).value;
    assert p.cfg(text, from).Some?;
    var first := p.cfg(text, from).value;
    var s := NextStep(text, from, p, feature).value;
    StepActs(text, first, p, feature);
    if first.start >= pos {
      assert first == m;
      OwnStep(text, from, p, feature);
    } else if !s.whole {
      var rest := PlanFrom(text, s.pos, p, feature);
      if s.pos <= m.start {
        var next := if s.pos <= pos then pos else s.pos;
        assert p.cfg(text, next) == Some(m);
        DealtWith(text, s.pos, next, p, feature);
        LaterDeals(text, from, m, p, feature);
      } else {
        assert first.start < m.start;
        assert s.start == first.start by {
          assert !InsideOther(text, m.start, p);
        }
        AddPlans(rest, (s.start, s.pos), (0, 0), m.start);
      }
    }
  }

  lemma {:induction false} OwnStep(text: string, from: nat, p: Patterns, feature: string)
    requires IsPatterns(p) && HasNoRawC(text, p.alnum) && from <= |text| && p.cfg(text, from).Some?
    ensures IsDealtWith(text, from, p.cfg(text, from).value, p, feature)
  {
    var m := p.cfg(text, from).value;
    var s := NextStep(text, from, p, feature).value;
    StepActs(text, m, p, feature);
    if !s.whole {
      var rest := PlanFrom(text, s.pos, p, feature);
      AddPlans(rest, (s.start, s.pos), (0, 0), m.start);
    }
  }

  lemma {:induction false} LaterDeals(text: string, from: nat, m: Attribute, p: Patterns, feature: string)
    requires IsPatterns(p) && from <= |text| && m.start < m.end <= |text| && text[m.end - 1] == '('
    requires NextStep(text, from, p, feature).Some? && !NextStep(text, from, p, feature).value.whole
    requires IsDealtWith(text, NextStep(text, from, p, feature).value.pos, m, p, feature)
    ensures IsDealtWith(text, from, m, p, feature)
  {
    var s := NextStep(text, from, p, feature).value;
    var rest := PlanFrom(text, s.pos, p, feature);
    AddPlans(rest, (s.start, s.pos), (0, 0), m.start);
    forall end: nat | CompilesItem(text, m, end, p, feature) && Plans(rest, (m.start, end))
      ensures Plans(PlanFrom(text, from, p, feature), (m.start, end))
    {
      AddPlans(rest, (s.start, s.pos), (m.start, end), m.start);
    }
  }

  /** Nothing compiled out is left: a `cfg` of the text, false without the
      feature, that starts neither inside another `cfg` attribute nor in an item
      blanked with one before, has its item blanked from the attribute to its
      end, or, leading the file, has the file blanked. */
  lemma {:induction false} BlankingComplete(text: string, pos: nat, p: Patterns, feature: string)
    requires IsPatterns(p) && IsSearch(p) && HasNoRawC(text, p.alnum) && pos <= |text|
    requires p.cfg(text, pos).Some? && !InsideOther(text, p.cfg(text, pos).value.start, p)
    ensures var m, plan := p.cfg(text, pos).value, PlanFrom(text, 0, p, feature);
            || Covers(plan, m.start)
            || ((CompilesFile(text, m, p, feature) ==> plan.Whole?) &&
                forall end: nat :: CompilesItem(text, m, end, p, feature) ==> Plans(plan, (m.start, end)))
  {
    DealtWith(text, 0, pos, p, feature);
  }
}
