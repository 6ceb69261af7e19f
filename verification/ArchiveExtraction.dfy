/** Extraction of an accepted archive: real objects by depth, then links, then
    the directories' own modes from the bottom up.  Every step is shown to be
    legal on a file system that refuses what the kernel refuses. */
module ArchiveExtraction {
  import opened Ordering
  import opened Text
  import opened ArchiveLinks

  // ---------- orders ----------

  /** The creation order: fewer slashes first, then by name. */
  predicate ByDepth(p: Path, q: Path) {
    |p| < |q| || (|p| == |q| && LexLeq(Join(p), Join(q)))
  }

  /** The order in which directories get their modes: by name, descending. */
  predicate Descending(p: Path, q: Path) {
    LexLeq(Join(q), Join(p))
  }

  ghost predicate IsOrder(before: (Path, Path) -> bool) {
    && (forall p, q :: before(p, q) || before(q, p))
    && (forall p, q, r :: before(p, q) && before(q, r) ==> before(p, r))
  }

  function Insert(path: Path, sorted: seq<Path>, before: (Path, Path) -> bool): seq<Path> {
    if sorted == [] || before(path, sorted[0]) then [path] + sorted
    else [sorted[0]] + Insert(path, sorted[1..], before)
  }

  function Sort(paths: seq<Path>, before: (Path, Path) -> bool): seq<Path> {
    if paths == [] then [] else Insert(paths[0], Sort(paths[1..], before), before)
  }

  ghost predicate InOrder(paths: seq<Path>, before: (Path, Path) -> bool) {
    forall i, j :: 0 <= i < j < |paths| ==> before(paths[i], paths[j])
  }

  lemma InsertedFrom(path: Path, rest: seq<Path>, inserted: seq<Path>, i: nat)
    requires i < |inserted| && multiset(inserted) == multiset(rest) + multiset{path}
    ensures inserted[i] in rest || inserted[i] == path
  {
    assert inserted[i] in multiset(inserted);
  }

  lemma FrontInOrder(first: Path, rest: seq<Path>, before: (Path, Path) -> bool)
    requires InOrder(rest, before) && forall i :: 0 <= i < |rest| ==> before(first, rest[i])
    ensures InOrder([first] + rest, before)
  {
  }

  lemma {:induction false} InsertSorts(path: Path, sorted: seq<Path>, before: (Path, Path) -> bool)
    requires IsOrder(before) && InOrder(sorted, before)
    ensures InOrder(Insert(path, sorted, before), before)
    ensures multiset(Insert(path, sorted, before)) == multiset(sorted) + multiset{path}
    decreases |sorted|
  {
    if sorted == [] || before(path, sorted[0]) {
    } else {
      var rest := sorted[1..];
      InsertSorts(path, rest, before);
      assert sorted == [sorted[0]] + rest;
      var inserted := Insert(path, rest, before);
      forall i | 0 <= i < |inserted| ensures before(sorted[0], inserted[i]) {
        InsertedFrom(path, rest, inserted, i);
      }
      FrontInOrder(sorted[0], inserted, before);
    }
  }

  lemma {:induction false} SortSorts(paths: seq<Path>, before: (Path, Path) -> bool)
    requires IsOrder(before)
    ensures InOrder(Sort(paths, before), before) && multiset(Sort(paths, before)) == multiset(paths)
    decreases |paths|
  {
    if paths != [] {
      SortSorts(paths[1..], before);
      InsertSorts(paths[0], Sort(paths[1..], before), before);
      assert paths == [paths[0]] + paths[1..];
    }
  }

  lemma {:induction false} LexPrefix(s: string, t: string)
    requires s <= t && |s| < |t|
    ensures !LexLeq(t, s)
    decreases |s|
  {
    if s != "" {
      LexPrefix(s[1..], t[1..]);
    }
  }

  lemma OrdersAreOrders()
    ensures IsOrder(ByDepth) && IsOrder(Descending)
  {
    forall p: Path, q: Path ensures (ByDepth(p, q) || ByDepth(q, p)) && (Descending(p, q) || Descending(q, p)) {
      LexTotal(Join(p), Join(q));
    }
    forall p: Path, q: Path, r: Path | ByDepth(p, q) && ByDepth(q, r) ensures ByDepth(p, r) {
      if |p| == |q| == |r| {
        LexTransitive(Join(p), Join(q), Join(r));
      }
    }
    forall p: Path, q: Path, r: Path | Descending(p, q) && Descending(q, r) ensures Descending(p, r) {
      LexTransitive(Join(r), Join(q), Join(p));
    }
  }

  lemma {:induction false} JoinPrefix(path: Path, k: nat)
    requires 0 < k < |path| && forall i :: 0 <= i < |path| ==> path[i] != ""
    ensures Join(path[..k]) <= Join(path) && |Join(path[..k])| < |Join(path)|
    decreases |path| - k
  {
    if k + 1 < |path| {
      JoinPrefix(path, k + 1);
    } else {
      assert path[..k + 1] == path;
    }
    assert path[..k + 1][..k] == path[..k];
  }

  // ---------- the file system ----------

  datatype Node = FileNode(content: nat, mode: nat) | DirNode(mode: nat) | LinkNode(target: Path, mode: nat)

  /** 0o755, with which directories are created, and 0o644. */
  const STAGED_DIRECTORY: nat := 493
  const STAGED_FILE: nat := 420

  predicate Searchable(mode: nat) {
    mode / 64 % 2 == 1
  }

  predicate Writable(mode: nat) {
    mode / 128 % 2 == 1
  }

  /** Every directory on the way is real, not a link, and searchable. */
  predicate CanReach(nodes: map<Path, Node>, path: Path) {
    forall k :: 0 < k < |path| ==> path[..k] in nodes && nodes[path[..k]].DirNode? && Searchable(nodes[path[..k]].mode)
  }

  predicate CanCreate(nodes: map<Path, Node>, path: Path) {
    && path != [] && path !in nodes && CanReach(nodes, path)
    && (|path| > 1 ==> path[..|path| - 1] in nodes && Writable(nodes[path[..|path| - 1]].mode))
  }

  class FileSystem {
    var nodes: map<Path, Node>

    method Create(path: Path, node: Node) returns (ok: bool)
      modifies this
      ensures ok == CanCreate(old(nodes), path)
      ensures nodes == if ok then old(nodes)[path := node] else old(nodes)
    {
      ok := CanCreate(nodes, path);
      if ok {
        nodes := nodes[path := node];
      }
    }

    method Chmod(path: Path, mode: nat) returns (ok: bool)
      modifies this
      ensures ok == (path in old(nodes) && CanReach(old(nodes), path))
      ensures nodes == if ok then old(nodes)[path := old(nodes)[path].(mode := mode)] else old(nodes)
    {
      ok := path in nodes && CanReach(nodes, path);
      if ok {
        nodes := nodes[path := nodes[path].(mode := mode)];
      }
    }
  }

  // ---------- the three passes ----------

  function NodeOf(m: Member): Node {
    match m
    case File(content, mode) => FileNode(content, mode)
    case Directory(mode) => DirNode(mode)
    case Link(target, _, mode) => LinkNode(target, mode)
  }

  function StagedNode(m: Member): Node {
    if m.Directory? then DirNode(STAGED_DIRECTORY) else NodeOf(m)
  }

  /** The tree in which the paths of `done` exist, directories still writable. */
  function Staged(entries: Entries, done: set<Path>): map<Path, Node> {
    map path | path in entries && path in done :: StagedNode(entries[path])
  }

  /** The tree in which the directories of `done` have their own modes. */
  function Finished(entries: Entries, done: set<Path>): map<Path, Node> {
    map path | path in entries :: if path in done then NodeOf(entries[path]) else StagedNode(entries[path])
  }

  ghost predicate Enumerates(paths: seq<Path>, entries: Entries) {
    && (forall path :: path in paths <==> path in entries)
    && forall i, j :: 0 <= i < j < |paths| ==> paths[i] != paths[j]
  }

  /** Names are made of non-empty parts. */
  ghost predicate HasNames(entries: Entries) {
    forall path :: path in entries ==> forall i :: 0 <= i < |path| ==> path[i] != ""
  }

  lemma {:induction false} AncestorsAreDirectories(entries: Entries, path: Path, k: nat)
    requires IsTree(entries) && path in entries && 0 < k < |path|
    ensures path[..k] in entries && entries[path[..k]].Directory?
    decreases |path|
  {
    var parent := Parent(path);
    if k < |path| - 1 {
      AncestorsAreDirectories(entries, parent, k);
      assert parent[..k] == path[..k];
    }
  }

  /** When every directory above `path` is staged, `path` can be reached, and created if it is absent. */
  lemma {:induction false} StagedReaches(entries: Entries, done: set<Path>, path: Path)
    requires IsTree(entries) && path in entries
    requires forall k :: 0 < k < |path| ==> path[..k] in done
    ensures CanReach(Staged(entries, done), path)
    ensures path !in done ==> CanCreate(Staged(entries, done), path)
  {
    forall k | 0 < k < |path| ensures path[..k] in entries && entries[path[..k]].Directory? {
      AncestorsAreDirectories(entries, path, k);
    }
  }

  lemma StagedStep(entries: Entries, done: set<Path>, path: Path)
    requires path in entries
    ensures Staged(entries, done + {path}) == Staged(entries, done)[path := StagedNode(entries[path])]
  {
  }

  lemma ReachStable(nodes: map<Path, Node>, path: Path, node: Node)
    requires CanReach(nodes, path)
    ensures CanReach(nodes[path := node], path)
  {
  }

  /** The real objects among the first paths of an order. */
  ghost function Objects(entries: Entries, paths: seq<Path>): set<Path> {
    set path | path in paths && path in entries && !entries[path].Link?
  }

  lemma {:induction false} ObjectsStep(entries: Entries, order: seq<Path>, i: nat)
    requires Enumerates(order, entries) && i < |order|
    ensures order[i] in entries && order[i] !in Objects(entries, order[..i])
    ensures Objects(entries, order[..i + 1]) ==
            if entries[order[i]].Link? then Objects(entries, order[..i]) else Objects(entries, order[..i]) + {order[i]}
  {
    assert order[..i + 1] == order[..i] + [order[i]];
    assert order[i] in order;
  }

  /** What lies above a path comes before it. */
  lemma {:induction false} ParentFirst(entries: Entries, order: seq<Path>, i: nat, k: nat)
    requires IsTree(entries) && Enumerates(order, entries) && InOrder(order, ByDepth)
    requires i < |order| && 0 < k < |order[i]|
    ensures order[i][..k] in Objects(entries, order[..i])
  {
    var above := order[i][..k];
    assert order[i] in order;
    AncestorsAreDirectories(entries, order[i], k);
    assert above in order;
    var j :| 0 <= j < |order| && order[j] == above;
    DeeperIsLater(order, i, j);
    assert order[..i][j] == above;
  }

  lemma DeeperIsLater(order: seq<Path>, i: nat, j: nat)
    requires InOrder(order, ByDepth) && i < |order| && j < |order| && |order[j]| < |order[i]|
    ensures j < i
  {
    assert i < j ==> ByDepth(order[i], order[j]);
  }

  /** One creation: the parent is there, the path is not, and a file can still be reached to set its mode. */
  lemma {:induction false} CreationLegal(entries: Entries, order: seq<Path>, i: nat)
    requires IsTree(entries) && Enumerates(order, entries) && InOrder(order, ByDepth) && i < |order|
    ensures order[i] in entries
    ensures var path, before := order[i], Staged(entries, Objects(entries, order[..i]));
            && CanCreate(before, path)
            && Staged(entries, Objects(entries, order[..i + 1])) ==
               if entries[path].Link? then before else before[path := StagedNode(entries[path])]
  {
    var path, done := order[i], Objects(entries, order[..i]);
    ObjectsStep(entries, order, i);
    forall k | 0 < k < |path| ensures path[..k] in done {
      ParentFirst(entries, order, i, k);
    }
    StagedReaches(entries, done, path);
    StagedStep(entries, done, path);
  }

  /** The real objects, shallow before deep: no parent is ever missing. */
  method CreateObjects(entries: Entries, order: seq<Path>, fs: FileSystem) returns (ok: bool)
    requires IsTree(entries) && Enumerates(order, entries) && InOrder(order, ByDepth) && fs.nodes == map[]
    modifies fs
    ensures ok && fs.nodes == Staged(entries, Objects(entries, order))
  {
    for i := 0 to |order|
      invariant fs.nodes == Staged(entries, Objects(entries, order[..i]))
    {
      CreationLegal(entries, order, i);
      ok := CreateObject(order[i], entries[order[i]], fs);
      if !ok {
        return;
      }
    }
    assert order[..|order|] == order;
    ok := true;
  }

  method CreateObject(path: Path, member: Member, fs: FileSystem) returns (ok: bool)
    requires CanCreate(fs.nodes, path)
    modifies fs
    ensures ok && fs.nodes == if member.Link? then old(fs.nodes) else old(fs.nodes)[path := StagedNode(member)]
  {
    match member
    case Directory(_) => ok := fs.Create(path, DirNode(STAGED_DIRECTORY));
    case File(content, mode) =>
      ReachStable(fs.nodes, path, FileNode(content, STAGED_FILE));
      ok := fs.Create(path, FileNode(content, STAGED_FILE));
      if ok {
        ok := fs.Chmod(path, mode);
      }
    case Link(_, _, _) => ok := true;
  }

  /** The links, in archive order, once every directory exists.  A platform
      that gives links another mode and cannot change it is refused. */
  method CreateLinks(entries: Entries, names: seq<Path>, linkMode: nat, canChmodLinks: bool, fs: FileSystem)
    returns (ok: bool)
    requires IsTree(entries) && Enumerates(names, entries)
    requires fs.nodes == Staged(entries, Objects(entries, names))
    modifies fs
    ensures ok <==> LinkModesPossible(entries, linkMode, canChmodLinks)
    ensures ok ==> fs.nodes == Staged(entries, entries.Keys)
  {
    for i := 0 to |names|
      invariant fs.nodes == Staged(entries, Objects(entries, names) + Elements(names[..i]))
      invariant LinkModesTo(entries, names, i, linkMode, canChmodLinks)
    {
      LinkLegal(entries, names, i);
      if entries[names[i]].Link? {
        ok := CreateLink(names[i], entries[names[i]], linkMode, canChmodLinks, fs);
        if !ok {
          return;
        }
      }
    }
    AllCreated(entries, names, linkMode, canChmodLinks);
    ok := true;
  }

  lemma AllCreated(entries: Entries, names: seq<Path>, linkMode: nat, canChmodLinks: bool)
    requires Enumerates(names, entries) && LinkModesTo(entries, names, |names|, linkMode, canChmodLinks)
    ensures Objects(entries, names) + Elements(names[..|names|]) == entries.Keys
    ensures LinkModesPossible(entries, linkMode, canChmodLinks)
  {
    assert names[..|names|] == names;
    forall path | path in entries && entries[path].Link? ensures canChmodLinks || entries[path].mode == linkMode {
      var k :| 0 <= k < |names| && names[k] == path;
    }
  }

  method CreateLink(path: Path, member: Member, linkMode: nat, canChmodLinks: bool, fs: FileSystem) returns (ok: bool)
    requires member.Link? && CanCreate(fs.nodes, path)
    modifies fs
    ensures ok <==> canChmodLinks || member.mode == linkMode
    ensures ok ==> fs.nodes == old(fs.nodes)[path := StagedNode(member)]
  {
    ReachStable(fs.nodes, path, LinkNode(member.target, linkMode));
    ok := fs.Create(path, LinkNode(member.target, linkMode));
    if ok && linkMode != member.mode {
      if !canChmodLinks {
        return false;
      }
      ok := fs.Chmod(path, member.mode);
    }
  }

  /** The first `n` names have links of possible modes only. */
  ghost predicate LinkModesTo(entries: Entries, names: seq<Path>, n: nat, linkMode: nat, canChmodLinks: bool)
    requires n <= |names|
  {
    forall k :: 0 <= k < n && names[k] in entries && entries[names[k]].Link? ==>
      canChmodLinks || entries[names[k]].mode == linkMode
  }

  ghost predicate LinkModesPossible(entries: Entries, linkMode: nat, canChmodLinks: bool) {
    canChmodLinks || forall path :: path in entries && entries[path].Link? ==> entries[path].mode == linkMode
  }

  lemma {:induction false} LinkStep(entries: Entries, names: seq<Path>, i: nat)
    requires Enumerates(names, entries) && i < |names|
    ensures var done := Objects(entries, names) + Elements(names[..i]);
            && names[i] in entries
            && (entries[names[i]].Link? <==> names[i] !in done)
            && Objects(entries, names) + Elements(names[..i + 1]) == done + {names[i]}
  {
    assert names[..i + 1] == names[..i] + [names[i]];
    assert names[i] in names;
  }

  lemma {:induction false} LinkLegal(entries: Entries, names: seq<Path>, i: nat)
    requires IsTree(entries) && Enumerates(names, entries) && i < |names|
    ensures names[i] in entries
    ensures var path, before := names[i], Staged(entries, Objects(entries, names) + Elements(names[..i]));
            && (entries[path].Link? ==> CanCreate(before, path))
            && Staged(entries, Objects(entries, names) + Elements(names[..i + 1])) ==
               if entries[path].Link? then before[path := StagedNode(entries[path])] else before
  {
    var path, done := names[i], Objects(entries, names) + Elements(names[..i]);
    LinkStep(entries, names, i);
    forall k | 0 < k < |path| ensures path[..k] in done {
      AncestorsAreDirectories(entries, path, k);
      assert path[..k] in names;
    }
    StagedReaches(entries, done, path);
    StagedStep(entries, done, path);
    if path in done {
      assert done + {path} == done;
    }
  }

  /** The directories' own modes, deepest names first: when one is set, every
      directory above it can still be searched. */
  method RestoreModes(entries: Entries, order: seq<Path>, fs: FileSystem) returns (ok: bool)
    requires IsTree(entries) && HasNames(entries) && Enumerates(order, entries) && InOrder(order, Descending)
    requires fs.nodes == Staged(entries, entries.Keys)
    modifies fs
    ensures ok && fs.nodes == map path | path in entries :: NodeOf(entries[path])
  {
    NoneFinished(entries, order);
    for i := 0 to |order|
      invariant fs.nodes == Finished(entries, Elements(order[..i]))
    {
      ModeLegal(entries, order, i);
      ok := SetMode(order[i], entries[order[i]], fs);
      if !ok {
        return;
      }
    }
    AllFinished(entries, order);
    ok := true;
  }

  method SetMode(path: Path, member: Member, fs: FileSystem) returns (ok: bool)
    requires CanReach(fs.nodes, path) && path in fs.nodes && fs.nodes[path] == StagedNode(member)
    modifies fs
    ensures ok && fs.nodes == old(fs.nodes)[path := NodeOf(member)]
  {
    ok := true;
    if member.Directory? {
      ok := fs.Chmod(path, member.mode);
    }
  }

  lemma NoneFinished(entries: Entries, order: seq<Path>)
    ensures Staged(entries, entries.Keys) == Finished(entries, Elements(order[..0]))
  {
    assert Elements(order[..0]) == {};
  }

  lemma AllFinished(entries: Entries, order: seq<Path>)
    requires Enumerates(order, entries)
    ensures Finished(entries, Elements(order[..|order|])) == map path | path in entries :: NodeOf(entries[path])
  {
    assert order[..|order|] == order;
  }

  lemma {:induction false} AboveLater(entries: Entries, order: seq<Path>, i: nat, k: nat)
    requires IsTree(entries) && HasNames(entries) && Enumerates(order, entries) && InOrder(order, Descending)
    requires i < |order| && 0 < k < |order[i]|
    ensures order[i][..k] !in order[..i]
  {
    var above := order[i][..k];
    assert order[i] in order;
    JoinPrefix(order[i], k);
    LexPrefix(Join(above), Join(order[i]));
    assert !Descending(above, order[i]);
  }

  lemma {:induction false} FinishedStep(entries: Entries, order: seq<Path>, i: nat)
    requires Enumerates(order, entries) && i < |order|
    ensures order[i] in entries && order[i] !in Elements(order[..i])
    ensures Finished(entries, Elements(order[..i + 1])) ==
            Finished(entries, Elements(order[..i]))[order[i] := NodeOf(entries[order[i]])]
  {
    assert order[..i + 1] == order[..i] + [order[i]];
    assert order[i] in order;
    assert Elements(order[..i + 1]) == Elements(order[..i]) + {order[i]};
  }

  /** While no directory above `path` has its own mode yet, `path` can be reached. */
  lemma {:induction false} FinishedReaches(entries: Entries, done: set<Path>, path: Path)
    requires IsTree(entries) && path in entries
    requires forall k :: 0 < k < |path| ==> path[..k] !in done
    ensures CanReach(Finished(entries, done), path)
  {
    forall k | 0 < k < |path| ensures path[..k] in entries && entries[path[..k]].Directory? {
      AncestorsAreDirectories(entries, path, k);
    }
  }

  lemma {:induction false} ModeLegal(entries: Entries, order: seq<Path>, i: nat)
    requires IsTree(entries) && HasNames(entries) && Enumerates(order, entries) && InOrder(order, Descending)
    requires i < |order|
    ensures order[i] in entries
    ensures var path, before := order[i], Finished(entries, Elements(order[..i]));
            && CanReach(before, path) && before[path] == StagedNode(entries[path])
            && Finished(entries, Elements(order[..i + 1])) == before[path := NodeOf(entries[path])]
  {
    var path := order[i];
    FinishedStep(entries, order, i);
    forall k | 0 < k < |path| ensures path[..k] !in Elements(order[..i]) {
      AboveLater(entries, order, i, k);
    }
    FinishedReaches(entries, Elements(order[..i]), path);
  }

  /** The tree holds the entries and nothing else: each file with its content
      and mode, each directory with its mode, each link with its target and mode. */
  ghost predicate Reproduces(nodes: map<Path, Node>, entries: Entries) {
    && nodes.Keys == entries.Keys
    && forall path :: path in entries ==>
         match entries[path]
         case File(content, mode) => nodes[path] == FileNode(content, mode)
         case Directory(mode) => nodes[path] == DirNode(mode)
         case Link(target, _, mode) => nodes[path] == LinkNode(target, mode)
  }

  /** Extraction into an empty directory: every step succeeds, nothing is
      created through a link, and the tree is exactly the archive's entries. */
  method ExtractComponent(entries: Entries, names: seq<Path>, linkMode: nat, canChmodLinks: bool, fs: FileSystem)
    returns (ok: bool)
    requires IsTree(entries) && HasNames(entries) && Enumerates(names, entries) && fs.nodes == map[]
    modifies fs
    ensures ok <==> canChmodLinks || forall path :: path in entries && entries[path].Link? ==> entries[path].mode == linkMode
    ensures ok ==> Reproduces(fs.nodes, entries)
  {
    OrdersAreOrders();
    SortEnumerates(entries, names, ByDepth);
    SortEnumerates(entries, names, Descending);
    ok := CreateObjects(entries, Sort(names, ByDepth), fs);
    assert Objects(entries, Sort(names, ByDepth)) == Objects(entries, names);
    ok := CreateLinks(entries, names, linkMode, canChmodLinks, fs);
    if ok {
      ok := RestoreModes(entries, Sort(names, Descending), fs);
    }
  }

  lemma {:induction false} SortEnumerates(entries: Entries, names: seq<Path>, before: (Path, Path) -> bool)
    requires IsOrder(before) && Enumerates(names, entries)
    ensures Enumerates(Sort(names, before), entries) && InOrder(Sort(names, before), before)
  {
    SortSorts(names, before);
    var sorted := Sort(names, before);
    forall path ensures path in sorted <==> path in entries {
      assert path in sorted <==> path in multiset(sorted);
      assert path in names <==> path in multiset(names);
    }
    DistinctByCount(names);
    forall i, j | 0 <= i < j < |sorted| ensures sorted[i] != sorted[j] {
      if sorted[i] == sorted[j] {
        CountsTwice(sorted, i, j);
      }
    }
  }

  lemma {:induction false} DistinctByCount(paths: seq<Path>)
    requires forall i, j :: 0 <= i < j < |paths| ==> paths[i] != paths[j]
    ensures forall path :: multiset(paths)[path] <= 1
    decreases |paths|
  {
    if paths != [] {
      var rest := paths[..|paths| - 1];
      DistinctByCount(rest);
      assert paths == rest + [paths[|paths| - 1]];
      assert paths[|paths| - 1] !in rest;
    }
  }

  lemma {:induction false} CountsTwice(paths: seq<Path>, i: nat, j: nat)
    requires i < j < |paths| && paths[i] == paths[j]
    ensures multiset(paths)[paths[i]] >= 2
  {
    assert paths == paths[..j] + paths[j..];
    assert paths[..j][i] == paths[i] && paths[j..][0] == paths[i];
    assert paths[i] in multiset(paths[..j]) && paths[i] in multiset(paths[j..]);
  }
}
