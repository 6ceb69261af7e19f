/** Reading a component archive: which member lists are accepted, and what
    acceptance promises about every link. */
module ArchiveMembers {
  import opened Text
  import opened ArchiveLinks

  const ENTRY_LIMIT: nat := 50008
  const UNPACKED_LIMIT: nat := 2 * 1024 * 1024 * 1024

  /** One archive member: its name without a directory's trailing slash, the
      encoded length of that name, what it is (None for any other kind of
      object) and the size of its payload. */
  datatype Header = Header(name: Path, nameBytes: nat, member: Option<Member>, size: nat, sparse: bool)

  predicate IsLayout(name: Path, prefix: string) {
    name in {[prefix], [prefix, "bin"], [prefix, "libexec"], Resource(prefix)}
  }

  predicate IsOrdinary(part: string) {
    IsName(part) && '\\' !in part
  }

  predicate HeaderAccepted(h: Header, prefix: string) {
    && |h.name| > 0 && h.nameBytes <= BYTE_LIMIT
    && (forall i :: 0 <= i < |h.name| ==> IsOrdinary(h.name[i]))
    && (IsLayout(h.name, prefix) || (|h.name| > 3 && Under(h.name, Resource(prefix))))
    && h.member.Some? && !h.sparse && h.member.value.mode / 512 % 8 == 0
    && (h.member.value.File? || h.size == 0)
    && (IsLayout(h.name, prefix) ==> h.member.value.Directory?)
  }

  /** What a header must be, part by part: the layout's directories, or below the
      resources; no special part, no special mode bit, no payload but a file's. */
  lemma {:induction false} HeaderExactly(h: Header, prefix: string)
    ensures HeaderAccepted(h, prefix) <==>
      && |h.name| > 0 && h.nameBytes <= 4096
      && (forall i :: 0 <= i < |h.name| ==> h.name[i] !in {"", ".", ".."} && '\\' !in h.name[i])
      && h.member.Some? && !h.sparse && h.member.value.mode % 4096 < 512
      && (!h.member.value.File? ==> h.size == 0)
      && if |h.name| > 3 then h.name[0] == prefix && h.name[1] == "libexec" && h.name[2] == "meerkat-connect"
         else h.member.value.Directory? && h.name in {[prefix], [prefix, "bin"], [prefix, "libexec"], [prefix, "libexec", "meerkat-connect"]}
  {
    forall i | 0 <= i < |h.name| ensures IsOrdinary(h.name[i]) <==> h.name[i] !in {"", ".", ".."} && '\\' !in h.name[i] {
      PartKinds(h.name[i]);
    }
    if |h.name| > 3 {
      assert h.name[..3] == [h.name[0], h.name[1], h.name[2]];
    }
    if h.member.Some? {
      ModeBits(h.member.value.mode);
    }
  }

  lemma ModeBits(mode: nat)
    ensures mode / 512 % 8 == 0 <==> mode % 4096 < 512
  {
    var high, low := mode / 4096, mode % 4096;
    assert mode == 512 * (8 * high) + low;
    assert mode / 512 == 8 * high + low / 512;
  }

  function TotalSize(source: seq<Header>): nat {
    if source == [] then 0
    else TotalSize(source[..|source| - 1]) + source[|source| - 1].size
  }

  /** The whole member list: each header, no collision, and both limits. */
  ghost predicate SourceAccepted<K>(source: seq<Header>, prefix: string, key: Path -> K) {
    && (forall i :: 0 <= i < |source| ==> HeaderAccepted(source[i], prefix))
    && (forall i, j :: 0 <= i < j < |source| ==> key(source[i].name) != key(source[j].name))
    && |source| <= ENTRY_LIMIT && TotalSize(source) <= UNPACKED_LIMIT
  }

  function EntriesOf(source: seq<Header>): Entries {
    if source == [] then map[]
    else
      var last := source[|source| - 1];
      var rest := EntriesOf(source[..|source| - 1]);
      if last.member.Some? then rest[last.name := last.member.value] else rest
  }

  predicate HasLayout(entries: Entries, prefix: string) {
    [prefix] in entries && [prefix, "bin"] in entries && [prefix, "libexec"] in entries && Resource(prefix) in entries
  }

  /** A link's own checks, its resolution, and the final test on where it ends. */
  predicate LinkAccepted(entries: Entries, prefix: string, name: Path)
    requires name in entries && entries[name].Link? && |name| > 0
  {
    var link := entries[name];
    var r := Follow(entries, name[..|name| - 1] + link.target, [], 0);
    && IsRelative(link.target) && link.targetBytes <= BYTE_LIMIT
    && r.Found? && Under(r.path, Resource(prefix))
  }

  predicate EntryAccepted(entries: Entries, prefix: string, name: Path)
    requires name in entries
  {
    && |name| > 0
    && (name != [prefix] ==> Parent(name) in entries && entries[Parent(name)].Directory?)
    && (entries[name].Link? ==> LinkAccepted(entries, prefix, name))
  }

  ghost predicate EntriesAccepted(entries: Entries, prefix: string) {
    && HasLayout(entries, prefix)
    && forall name :: name in entries ==> EntryAccepted(entries, prefix, name)
  }

  function KeysOf<K(==)>(source: seq<Header>, key: Path -> K): set<K> {
    if source == [] then {} else KeysOf(source[..|source| - 1], key) + {key(source[|source| - 1].name)}
  }

  lemma {:induction false} KeysOfMember<K>(source: seq<Header>, key: Path -> K, k: K)
    ensures k in KeysOf(source, key) <==> exists n :: 0 <= n < |source| && key(source[n].name) == k
    decreases |source|
  {
    if source != [] {
      KeysOfMember(source[..|source| - 1], key, k);
      if key(source[|source| - 1].name) == k {
        assert 0 <= |source| - 1 < |source|;
      }
    }
  }

  /** Whether member `i` can be added to the accepted members before it. */
  ghost predicate Adds<K>(source: seq<Header>, prefix: string, key: Path -> K, i: nat)
    requires i < |source|
  {
    && HeaderAccepted(source[i], prefix)
    && key(source[i].name) !in KeysOf(source[..i], key)
    && i < ENTRY_LIMIT && TotalSize(source[..i + 1]) <= UNPACKED_LIMIT
  }

  lemma {:induction false} AcceptedStep<K>(source: seq<Header>, prefix: string, key: Path -> K, i: nat)
    requires i < |source| && SourceAccepted(source[..i], prefix, key)
    ensures Adds(source, prefix, key, i) ==> SourceAccepted(source[..i + 1], prefix, key)
    ensures !Adds(source, prefix, key, i) ==> !SourceAccepted(source, prefix, key)
  {
    TotalGrows(source, i + 1);
    KeysOfMember(source[..i], key, key(source[i].name));
    if Adds(source, prefix, key, i) {
      var longer := source[..i + 1];
      forall m, n | 0 <= m < n < |longer| ensures key(longer[m].name) != key(longer[n].name) {
        if n < i {
          assert source[..i][m] == longer[m] && source[..i][n] == longer[n];
        }
      }
      forall m | 0 <= m < |longer| ensures HeaderAccepted(longer[m], prefix) {
        if m < i {
          assert source[..i][m] == longer[m];
        }
      }
    }
  }

  lemma CollectStep<K>(source: seq<Header>, key: Path -> K, i: nat)
    requires i < |source|
    ensures TotalSize(source[..i + 1]) == TotalSize(source[..i]) + source[i].size
    ensures KeysOf(source[..i + 1], key) == KeysOf(source[..i], key) + {key(source[i].name)}
    ensures source[i].member.Some? ==>
              EntriesOf(source[..i + 1]) == EntriesOf(source[..i])[source[i].name := source[i].member.value]
  {
    assert source[..i + 1][..i] == source[..i];
  }

  /** The first pass: one entry a member, with the collision keys and the running total. */
  method CollectEntries<K(==)>(source: seq<Header>, prefix: string, key: Path -> K) returns (r: Option<Entries>)
    ensures r.Some? <==> SourceAccepted(source, prefix, key)
    ensures r.Some? ==> r.value == EntriesOf(source)
  {
    var entries: Entries, keys: set<K>, total: nat := map[], {}, 0;
    for i := 0 to |source|
      invariant SourceAccepted(source[..i], prefix, key)
      invariant entries == EntriesOf(source[..i]) && total == TotalSize(source[..i])
      invariant keys == KeysOf(source[..i], key)
      invariant |entries| == i
    {
      var h := source[i];
      AcceptedStep(source, prefix, key, i);
      CollectStep(source, key, i);
      if !HeaderAccepted(h, prefix) || key(h.name) in keys || |entries| >= ENTRY_LIMIT {
        return None;
      }
      FreshName(source, key, i);
      keys := keys + {key(h.name)};
      total := total + h.size;
      if total > UNPACKED_LIMIT {
        return None;
      }
      entries := entries[h.name := h.member.value];
    }
    assert source[..|source|] == source;
    return Some(entries);
  }

  /** The second pass: the layout, every parent, and every link. */
  method CheckEntries(entries: Entries, prefix: string) returns (ok: bool)
    requires [] !in entries
    ensures ok <==> EntriesAccepted(entries, prefix)
  {
    if !HasLayout(entries, prefix) {
      return false;
    }
    var names := entries.Keys;
    while names != {}
      invariant names <= entries.Keys
      invariant forall name :: name in entries && name !in names ==> EntryAccepted(entries, prefix, name)
      decreases |names|
    {
      var name :| name in names;
      names := names - {name};
      if name != [prefix] && !(Parent(name) in entries && entries[Parent(name)].Directory?) {
        return false;
      }
      if entries[name].Link? {
        var link := entries[name];
        if !IsRelative(link.target) || link.targetBytes > BYTE_LIMIT {
          return false;
        }
        var resolved := ResolveLink(entries, name[..|name| - 1], link.target);
        if !(resolved.Found? && Under(resolved.path, Resource(prefix))) {
          return false;
        }
      }
    }
    return true;
  }

  method ComponentMembers<K(==)>(source: seq<Header>, prefix: string, key: Path -> K) returns (r: Option<Entries>)
    ensures r.Some? <==> SourceAccepted(source, prefix, key) && EntriesAccepted(EntriesOf(source), prefix)
    ensures r.Some? ==> r.value == EntriesOf(source)
  {
    r := CollectEntries(source, prefix, key);
    if r.Some? {
      NamesOf(source);
      var ok := CheckEntries(r.value, prefix);
      if !ok {
        r := None;
      }
    }
  }

  lemma {:induction false} TotalGrows(source: seq<Header>, i: nat)
    requires i <= |source|
    ensures TotalSize(source[..i]) <= TotalSize(source)
    decreases |source| - i
  {
    if i == |source| {
      assert source[..i] == source;
    } else {
      TotalGrows(source, i + 1);
      assert source[..i + 1][..i] == source[..i];
    }
  }

  /** Distinct keys are distinct names, so a new key is a new entry. */
  lemma {:induction false} FreshName<K>(source: seq<Header>, key: Path -> K, i: nat)
    requires i < |source|
    requires key(source[i].name) !in KeysOf(source[..i], key)
    ensures source[i].name !in EntriesOf(source[..i])
  {
    NamesOf(source[..i]);
    KeysOfMember(source[..i], key, key(source[i].name));
  }

  lemma {:induction false} NamesOf(source: seq<Header>)
    ensures forall name :: name in EntriesOf(source) ==>
              exists k :: 0 <= k < |source| && source[k].name == name && source[k].member == Some(EntriesOf(source)[name])
    decreases |source|
  {
    if source != [] {
      NamesOf(source[..|source| - 1]);
    }
  }

  // ---------- what acceptance promises ----------

  lemma ResourceParts(prefix: string)
    ensures var root := Resource(prefix);
            && root[..1] == [prefix] && root[..2] == [prefix, "libexec"] && root[..3] == root
            && IsName(root[1]) && IsName(root[2])
  {
    assert |"libexec"| == 7 && |"meerkat-connect"| == 15;
  }

  /** The resource directory of an accepted layout is made of real directories. */
  lemma {:induction false} LayoutIsRoot(source: seq<Header>, prefix: string)
    requires forall i :: 0 <= i < |source| ==> HeaderAccepted(source[i], prefix)
    requires HasLayout(EntriesOf(source), prefix)
    ensures IsRoot(EntriesOf(source), Resource(prefix))
  {
    var entries, root := EntriesOf(source), Resource(prefix);
    NamesOf(source);
    assert forall name :: name in entries && IsLayout(name, prefix) ==> entries[name].Directory?;
    var n :| 0 <= n < |source| && source[n].name == [prefix];
    assert IsOrdinary(source[n].name[0]);
    ResourceParts(prefix);
    forall k | 0 <= k < 3 ensures IsName(root[k]) && IsDirectory(entries, root[..k + 1]) {
      assert k == 0 || k == 1 || k == 2;
      assert IsLayout(root[..k + 1], prefix) && root[..k + 1] in entries;
    }
  }

  lemma {:induction false} LinksAreResources(source: seq<Header>, prefix: string, name: Path)
    requires forall i :: 0 <= i < |source| ==> HeaderAccepted(source[i], prefix)
    requires name in EntriesOf(source) && EntriesOf(source)[name].Link?
    ensures |name| > 3
    ensures var pending := name[..|name| - 1] + EntriesOf(source)[name].target;
            |pending| >= 3 && pending[..3] == Resource(prefix)
  {
    NamesOf(source);
    var pending := name[..|name| - 1] + EntriesOf(source)[name].target;
    assert pending[..3] == name[..3];
  }

  lemma {:induction false} AcceptedIsTree(source: seq<Header>, prefix: string)
    requires forall i :: 0 <= i < |source| ==> HeaderAccepted(source[i], prefix)
    requires EntriesAccepted(EntriesOf(source), prefix)
    ensures IsTree(EntriesOf(source))
  {
    forall name | name in EntriesOf(source) ensures name != [] && IsDirectory(EntriesOf(source), Parent(name)) {
      assert EntryAccepted(EntriesOf(source), prefix, name);
    }
  }

  /** The test on where a link ends is implied by the rest: only the `..` test
      and the layout keep links inside. */
  lemma {:induction false} EscapeTestImplied(source: seq<Header>, prefix: string, name: Path)
    requires forall i :: 0 <= i < |source| ==> HeaderAccepted(source[i], prefix)
    requires HasLayout(EntriesOf(source), prefix)
    requires name in EntriesOf(source) && EntriesOf(source)[name].Link?
    ensures |name| > 3
    ensures var pending := name[..|name| - 1] + EntriesOf(source)[name].target;
            && (Follow(EntriesOf(source), pending, [], 0).Found? ==>
                  Under(Follow(EntriesOf(source), pending, [], 0).path, Resource(prefix)))
            && (forall k: nat :: IsSafe(EntriesOf(source), Turns(EntriesOf(source), pending, [], 0), k) ==>
                  var dir := Turns(EntriesOf(source), pending, [], 0)[k].dir;
                  Under(dir, Resource(prefix)) || dir <= Resource(prefix))
  {
    var root := Resource(prefix);
    LayoutIsRoot(source, prefix);
    LinksAreResources(source, prefix, name);
    QueueConfined(EntriesOf(source), root, name[..|name| - 1] + EntriesOf(source)[name].target);
  }

  /** A link is accepted exactly when its target is relative and not too long,
      no turn of its resolution climbs out or overflows, and a lookup finds something. */
  lemma {:induction false} LinkAcceptedExactly(source: seq<Header>, prefix: string, name: Path)
    requires forall i :: 0 <= i < |source| ==> HeaderAccepted(source[i], prefix)
    requires HasLayout(EntriesOf(source), prefix) && IsTree(EntriesOf(source))
    requires name in EntriesOf(source) && EntriesOf(source)[name].Link? && |name| > 0
    ensures LinkAccepted(EntriesOf(source), prefix, name) <==>
      var entries := EntriesOf(source);
      var pending := name[..|name| - 1] + entries[name].target;
      && IsRelative(entries[name].target) && entries[name].targetBytes <= 4096
      && !ClimbsFirst(entries, Turns(entries, pending, [], 0)) && !OverflowsFirst(entries, Turns(entries, pending, [], 0))
      && Lookup(entries, [], pending, 40).Some?
  {
    var pending := name[..|name| - 1] + EntriesOf(source)[name].target;
    QueueExactly(EntriesOf(source), pending, [], 0);
    EscapeTestImplied(source, prefix, name);
  }

  /** Every link of an accepted archive resolves, by ordinary pathname
      resolution within forty links, to an entry under the resource directory
      that is not itself a link. */
  lemma {:induction false} AcceptedLinkResolves(source: seq<Header>, prefix: string, name: Path)
    requires forall i :: 0 <= i < |source| ==> HeaderAccepted(source[i], prefix)
    requires EntriesAccepted(EntriesOf(source), prefix)
    requires name in EntriesOf(source) && EntriesOf(source)[name].Link?
    ensures |name| > 3
    ensures var entries := EntriesOf(source);
            var looked := Lookup(entries, [], name[..|name| - 1] + entries[name].target, LINK_LIMIT);
            && looked.Some? && looked.value.0 in entries && !entries[looked.value.0].Link?
            && Under(looked.value.0, Resource(prefix))
  {
    var entries := EntriesOf(source);
    LinksAreResources(source, prefix, name);
    AcceptedIsTree(source, prefix);
    var pending := name[..|name| - 1] + entries[name].target;
    assert EntryAccepted(entries, prefix, name);
    QueueIsLookup(entries, pending, [], 0);
    LookupEndsAtObject(entries, [], pending, LINK_LIMIT);
  }
}
