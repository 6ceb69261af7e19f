/** The question whether a `cfg(...)` predicate holds only with a feature on,
    answered while parsing its tokens. */
module CfgPredicates {
  import opened Text

  datatype Token = Name(text: string) | Quoted(text: string) | Open | Close | Comma | Equals

  datatype Cfg =
    | Flag(name: string)
    | Value(name: string, text: string)
    | Call(name: string, members: seq<Cfg>)

  datatype Reading<T> = Fail | Read(value: T, rest: seq<Token>)

  // ---------- the grammar ----------

  /** One predicate at the front.  A comma after a member is optional. */
  function From(ts: seq<Token>): (r: Reading<Cfg>)
    ensures r.Read? ==> |r.rest| < |ts|
    decreases |ts|, 0
  {
    if ts == [] || !ts[0].Name? then Fail
    else if |ts| > 1 && ts[1].Equals? then
      if |ts| > 2 && ts[2].Quoted? then Read(Value(ts[0].text, ts[2].text), ts[3..]) else Fail
    else if |ts| > 1 && ts[1].Open? then
      match MembersFrom(ts[2..])
      case Fail => Fail
      case Read(members, rest) => Read(Call(ts[0].text, members), rest)
    else Read(Flag(ts[0].text), ts[1..])
  }

  /** The members up to the closing parenthesis, and what follows it. */
  function MembersFrom(ts: seq<Token>): (r: Reading<seq<Cfg>>)
    ensures r.Read? ==> |r.rest| < |ts|
    decreases |ts|, 1
  {
    if ts == [] then Fail
    else if ts[0].Close? then Read([], ts[1..])
    else
      match From(ts)
      case Fail => Fail
      case Read(member, rest) =>
        if rest == [] then Fail
        else
          match MembersFrom(AfterComma(rest))
          case Fail => Fail
          case Read(members, rest) => Read([member] + members, rest)
  }

  function AfterComma(ts: seq<Token>): (r: seq<Token>)
    requires ts != []
    ensures |r| <= |ts|
  {
    if ts[0].Comma? then ts[1..] else ts
  }

  /** Whether the predicate, as the check reads it, needs the feature. */
  predicate Needs(cfg: Cfg, feature: string) {
    match cfg
    case Flag(_) => false
    case Value(name, text) => name == "feature" && text == feature
    case Call(name, members) =>
      if name == "all" then exists i :: 0 <= i < |members| && Needs(members[i], feature)
      else if name == "any" then members != [] && forall i :: 0 <= i < |members| ==> Needs(members[i], feature)
      else false
  }

  function AllNeeds(members: seq<Cfg>, feature: string): (r: seq<bool>)
    ensures |r| == |members| && forall i :: 0 <= i < |r| ==> r[i] == Needs(members[i], feature)
  {
    seq(|members|, i requires 0 <= i < |members| => Needs(members[i], feature))
  }

  // ---------- the parse as it runs ----------

  /** The position is an index, and `None` is the raised error. */
  method Parse(tokens: seq<Token>, start: nat, feature: string) returns (r: Option<(bool, nat)>)
    requires start <= |tokens|
    ensures r.None? <==> From(tokens[start..]).Fail?
    ensures r.Some? ==> r.value.1 <= |tokens| && From(tokens[start..]).rest == tokens[r.value.1..]
    ensures r.Some? ==> r.value.0 == Needs(From(tokens[start..]).value, feature)
    decreases |tokens| - start, 0
  {
    var ts := tokens[start..];
    if start == |tokens| || !tokens[start].Name? {
      return None;
    }
    var name := tokens[start].text;
    var i := start + 1;
    if i < |tokens| && tokens[i].Equals? {
      if i + 1 == |tokens| || !tokens[i + 1].Quoted? {
        return None;
      }
      assert ts[3..] == tokens[i + 2..];
      return Some((name == "feature" && tokens[i + 1].text == feature, i + 2));
    }
    if i < |tokens| && tokens[i].Open? {
      assert ts[2..] == tokens[i + 1..];
      var found := ParseMembers(tokens, i + 1, feature);
      if found.None? {
        return None;
      }
      var (members, next) := found.value;
      if name == "all" {
        return Some((exists k :: 0 <= k < |members| && members[k], next));
      }
      if name == "any" {
        return Some((members != [] && forall k :: 0 <= k < |members| ==> members[k], next));
      }
      return Some((false, next));
    }
    assert ts[1..] == tokens[i..];
    return Some((false, i));
  }

  method ParseMembers(tokens: seq<Token>, start: nat, feature: string) returns (r: Option<(seq<bool>, nat)>)
    requires start <= |tokens|
    ensures r.None? <==> MembersFrom(tokens[start..]).Fail?
    ensures r.Some? ==> r.value.1 <= |tokens| && MembersFrom(tokens[start..]).rest == tokens[r.value.1..]
    ensures r.Some? ==> r.value.0 == AllNeeds(MembersFrom(tokens[start..]).value, feature)
    decreases |tokens| - start, 1
  {
    var i, members := start, [];
    ghost var trees: seq<Cfg> := [];
    PrefixedNone(MembersFrom(tokens[i..]));
    while true
      invariant start <= i <= |tokens|
      invariant members == AllNeeds(trees, feature)
      invariant MembersFrom(tokens[start..]) == Prefixed(trees, MembersFrom(tokens[i..]))
      decreases |tokens| - i
    {
      if i == |tokens| {
        return None;
      }
      if tokens[i].Close? {
        assert tokens[i..][1..] == tokens[i + 1..];
        return Some((members, i + 1));
      }
      var found := Parse(tokens, i, feature);
      if found.None? {
        return None;
      }
      var (needs, next) := found.value;
      if next == |tokens| {
        return None;
      }
      assert tokens[next..][1..] == tokens[next + 1..];
      PrefixedMore(trees, From(tokens[i..]).value, MembersFrom(AfterComma(tokens[next..])));
      trees := trees + [From(tokens[i..]).value];
      members := members + [needs];
      i := if tokens[next].Comma? then next + 1 else next;
    }
  }

  function Prefixed(front: seq<Cfg>, reading: Reading<seq<Cfg>>): Reading<seq<Cfg>> {
    if reading.Fail? then Fail else Read(front + reading.value, reading.rest)
  }

  lemma PrefixedNone(reading: Reading<seq<Cfg>>)
    ensures Prefixed([], reading) == reading
  {
    assert reading.Read? ==> [] + reading.value == reading.value;
  }

  lemma PrefixedMore(front: seq<Cfg>, member: Cfg, reading: Reading<seq<Cfg>>)
    ensures Prefixed(front, Prefixed([member], reading)) == Prefixed(front + [member], reading)
  {
    assert reading.Read? ==> front + ([member] + reading.value) == front + [member] + reading.value;
  }

  /** The answer for a whole predicate: it parses to the end and needs the feature. */
  method CfgRequires(tokens: seq<Token>, feature: string) returns (r: bool)
    ensures r <==> From(tokens).Read? && From(tokens).rest == [] && Needs(From(tokens).value, feature)
    ensures r ==> FalseWithout(From(tokens).value, feature)
  {
    assert tokens[0..] == tokens;
    if From(tokens).Read? {
      NeedsExactly(From(tokens).value, feature);
    }
    var found := Parse(tokens, 0, feature);
    if found.None? {
      return false;
    }
    return found.value.0 && found.value.1 == |tokens|;
  }

  // ---------- every written predicate is read back ----------

  function Written(cfg: Cfg): seq<Token> {
    match cfg
    case Flag(name) => [Name(name)]
    case Value(name, text) => [Name(name), Equals, Quoted(text)]
    case Call(name, members) => [Name(name), Open] + (WrittenMembers(members) + [Close])
  }

  function WrittenMembers(members: seq<Cfg>): seq<Token> {
    if members == [] then []
    else Written(members[0]) + (if |members| == 1 then [] else [Comma]) + WrittenMembers(members[1..])
  }

  /** Parsing is the inverse of writing, whatever follows that cannot extend the predicate. */
  lemma {:induction false} WrittenIsRead(cfg: Cfg, rest: seq<Token>)
    requires rest == [] || !(rest[0].Equals? || rest[0].Open?)
    ensures From(Written(cfg) + rest) == Read(cfg, rest)
    decreases cfg, 0
  {
    var ts := Written(cfg) + rest;
    match cfg
    case Flag(_) => assert ts[1..] == rest;
    case Value(_, _) => assert ts[3..] == rest;
    case Call(name, members) =>
      assert ts[2..] == WrittenMembers(members) + ([Close] + rest);
      WrittenMembersAreRead(members, rest);
  }

  lemma {:induction false} WrittenMembersAreRead(members: seq<Cfg>, rest: seq<Token>)
    ensures MembersFrom(WrittenMembers(members) + ([Close] + rest)) == Read(members, rest)
    decreases members, 1
  {
    var ts := WrittenMembers(members) + ([Close] + rest);
    if members == [] {
      assert ts == [Close] + rest;
    } else {
      var more := WrittenMembers(members[1..]) + ([Close] + rest);
      var after := (if |members| == 1 then [] else [Comma]) + more;
      assert ts == Written(members[0]) + after;
      if |members| == 1 {
        assert after == more && more == [Close] + rest;
      } else {
        assert after[1..] == more;
      }
      WrittenIsRead(members[0], after);
      WrittenStarts(members[0], after);
      WrittenMembersAreRead(members[1..], rest);
      assert members == [members[0]] + members[1..];
    }
  }

  lemma WrittenStarts(cfg: Cfg, rest: seq<Token>)
    ensures (Written(cfg) + rest) != [] && (Written(cfg) + rest)[0].Name?
  {
  }

  // ---------- what needing a feature means ----------

  /** A compilation: which names and pairs are set, and how calls other than
      all() and any(), not() among them, come out. */
  datatype Setting = Setting(flag: string -> bool, value: (string, string) -> bool, other: (string, seq<bool>) -> bool)

  predicate Holds(cfg: Cfg, s: Setting) {
    match cfg
    case Flag(name) => s.flag(name)
    case Value(name, text) => s.value(name, text)
    case Call(name, members) =>
      if name == "all" then forall i :: 0 <= i < |members| ==> Holds(members[i], s)
      else if name == "any" then exists i :: 0 <= i < |members| && Holds(members[i], s)
      else s.other(name, seq(|members|, i requires 0 <= i < |members| => Holds(members[i], s)))
  }

  /** The predicate is false in every compilation without the feature. */
  ghost predicate FalseWithout(cfg: Cfg, feature: string) {
    forall s: Setting :: !s.value("feature", feature) ==> !Holds(cfg, s)
  }

  lemma {:induction false} NeedsIsFalse(cfg: Cfg, feature: string, s: Setting)
    requires Needs(cfg, feature) && !s.value("feature", feature)
    ensures !Holds(cfg, s)
    decreases cfg
  {
    match cfg
    case Value(_, _) =>
    case Call(name, members) =>
      if name == "all" {
        var i :| 0 <= i < |members| && Needs(members[i], feature);
        NeedsIsFalse(members[i], feature, s);
      } else {
        forall i | 0 <= i < |members| ensures !Holds(members[i], s) {
          NeedsIsFalse(members[i], feature, s);
        }
      }
  }

  predicate NoEmptyAny(cfg: Cfg) {
    cfg.Call? ==> (cfg.name == "any" ==> cfg.members != []) && forall i :: 0 <= i < |cfg.members| ==> NoEmptyAny(cfg.members[i])
  }

  /** Everything on except the feature. */
  function AllBut(feature: string): Setting {
    Setting(_ => true, (name, text) => !(name == "feature" && text == feature), (_, _) => true)
  }

  lemma {:induction false} NotNeededHolds(cfg: Cfg, feature: string)
    requires NoEmptyAny(cfg) && !Needs(cfg, feature)
    ensures Holds(cfg, AllBut(feature))
    decreases cfg
  {
    match cfg
    case Flag(_) =>
    case Value(_, _) =>
    case Call(name, members) =>
      if name == "all" {
        forall i | 0 <= i < |members| ensures Holds(members[i], AllBut(feature)) {
          NotNeededHolds(members[i], feature);
        }
      } else if name == "any" {
        var i :| 0 <= i < |members| && !Needs(members[i], feature);
        NotNeededHolds(members[i], feature);
      }
  }

  /** A predicate that needs the feature is false without it; and when no any()
      is empty, only those are, not() and unknown calls left open. */
  lemma {:induction false} NeedsExactly(cfg: Cfg, feature: string)
    ensures Needs(cfg, feature) ==> FalseWithout(cfg, feature)
    ensures NoEmptyAny(cfg) ==> (Needs(cfg, feature) <==> FalseWithout(cfg, feature))
  {
    if Needs(cfg, feature) {
      forall s: Setting | !s.value("feature", feature) ensures !Holds(cfg, s) {
        NeedsIsFalse(cfg, feature, s);
      }
    } else if NoEmptyAny(cfg) {
      NotNeededHolds(cfg, feature);
      assert !AllBut(feature).value("feature", feature);
    }
  }

  /** The empty any() is false everywhere, and is not seen to need the feature. */
  lemma EmptyAnyIsMissed(feature: string)
    ensures FalseWithout(Call("any", []), feature) && !Needs(Call("any", []), feature)
  {
  }
}
