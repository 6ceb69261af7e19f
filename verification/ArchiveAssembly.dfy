/** Reading and extracting together: whatever the reader accepts, the extractor
    reproduces, and whatever it refuses, nothing is created. */
module ArchiveAssembly {
  import opened ArchiveExtraction
  import opened ArchiveLinks
  import opened ArchiveMembers
  import opened Text

  function NamesIn(source: seq<Header>): (r: seq<Path>)
    ensures |r| == |source| && forall i :: 0 <= i < |r| ==> r[i] == source[i].name
  {
    seq(|source|, i requires 0 <= i < |source| => source[i].name)
  }

  lemma {:induction false} EntriesHaveNames(source: seq<Header>)
    requires forall i :: 0 <= i < |source| ==> source[i].member.Some?
    ensures forall i :: 0 <= i < |source| ==> source[i].name in EntriesOf(source)
    decreases |source|
  {
    if source != [] {
      var n := |source| - 1;
      EntriesHaveNames(source[..n]);
      assert forall i :: 0 <= i < n ==> source[..n][i] == source[i];
    }
  }

  /** The names of an accepted archive list its entries once each, and are made of proper parts. */
  lemma {:induction false} AcceptedNames<K>(source: seq<Header>, prefix: string, key: Path -> K)
    requires SourceAccepted(source, prefix, key)
    ensures Enumerates(NamesIn(source), EntriesOf(source)) && HasNames(EntriesOf(source))
    ensures forall i :: 0 <= i < |source| ==>
              source[i].name in EntriesOf(source) && source[i].member == Some(EntriesOf(source)[source[i].name])
  {
    var names, entries := NamesIn(source), EntriesOf(source);
    assert forall i :: 0 <= i < |source| ==> HeaderAccepted(source[i], prefix);
    EntriesHaveNames(source);
    NamesOf(source);
    forall path | path in entries
      ensures path in names && forall i :: 0 <= i < |path| ==> path[i] != ""
    {
      var k :| 0 <= k < |source| && source[k].name == path;
      assert names[k] == path;
      assert forall i :: 0 <= i < |path| ==> IsOrdinary(source[k].name[i]);
    }
    forall i, j | 0 <= i < j < |names| ensures names[i] != names[j] {
      assert key(source[i].name) != key(source[j].name);
    }
    forall i | 0 <= i < |source| ensures source[i].member == Some(entries[source[i].name]) {
      var k :| 0 <= k < |source| && source[k].name == source[i].name && source[k].member == Some(entries[source[i].name]);
      assert names[k] == names[i];
    }
  }

  method AssembleComponent<K(==)>(source: seq<Header>, prefix: string, key: Path -> K,
                                  linkMode: nat, canChmodLinks: bool, fs: FileSystem) returns (ok: bool)
    requires fs.nodes == map[]
    modifies fs
    ensures var accepted := SourceAccepted(source, prefix, key) && EntriesAccepted(EntriesOf(source), prefix);
            && (ok <==> accepted && LinkModesPossible(EntriesOf(source), linkMode, canChmodLinks))
            && (!accepted ==> fs.nodes == map[])
            && (ok ==> Reproduces(fs.nodes, EntriesOf(source)))
  {
    var entries := ComponentMembers(source, prefix, key);
    if entries.None? {
      return false;
    }
    AcceptedNames(source, prefix, key);
    AcceptedIsTree(source, prefix);
    ok := ExtractComponent(entries.value, NamesIn(source), linkMode, canChmodLinks, fs);
  }
}
