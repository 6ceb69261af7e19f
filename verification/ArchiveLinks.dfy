/** The namespace of a component archive and the resolution of its links.

    Names and link targets are the sequences of their `/`-separated parts.
    A work queue expands links against the archive's own entries before
    anything is created; the results compare it with pathname resolution. */
module ArchiveLinks {
  import opened Text

  type Path = seq<string>

  datatype Member =
    | File(content: nat, mode: nat)
    | Directory(mode: nat)
    | Link(target: Path, targetBytes: nat, mode: nat)

  type Entries = map<Path, Member>

  const LINK_LIMIT: nat := 40
  const PENDING_LIMIT: nat := 4096
  const BYTE_LIMIT: nat := 4096

  /** Where the resources live: three directories below the archive root. */
  function Resource(prefix: string): (r: Path)
    ensures |r| == 3
  {
    [prefix, "libexec", "meerkat-connect"]
  }

  /** A target that is neither empty nor absolute and has no backslash. */
  predicate IsRelative(target: Path) {
    && |target| > 0 && target[0] != ""
    && forall i :: 0 <= i < |target| ==> '\\' !in target[i]
  }

  /** An empty part or `.`. */
  predicate IsHere(part: string) {
    |part| == 0 || (|part| == 1 && part[0] == '.')
  }

  /** The part `..`. */
  predicate IsUp(part: string) {
    |part| == 2 && part[0] == '.' && part[1] == '.'
  }

  predicate IsName(part: string) {
    !IsHere(part) && !IsUp(part)
  }

  /** `Refused` is a missing entry, a file in the middle of a path, a bad
      target or too many links; the other two are the archive's own limits. */
  datatype Resolution = Found(path: Path) | Refused | Escapes | TooLong

  /** The queue: resolve `pending` from the directory `resolved`. */
  function Follow(entries: Entries, pending: Path, resolved: Path, followed: nat): Resolution
    requires followed <= LINK_LIMIT
    decreases LINK_LIMIT - followed, |pending|
  {
    if pending == [] then Found(resolved)
    else
      var part, rest := pending[0], pending[1..];
      if IsHere(part) then Follow(entries, rest, resolved, followed)
      else if IsUp(part) then
        if |resolved| > 3 then Follow(entries, rest, resolved[..|resolved| - 1], followed) else Escapes
      else
        var current := resolved + [part];
        if current !in entries then Refused
        else
          match entries[current]
          case Link(target, _, _) =>
            if followed == LINK_LIMIT || !IsRelative(target) then Refused
            else if |target + rest| > PENDING_LIMIT then TooLong
            else Follow(entries, target + rest, resolved, followed + 1)
          case File(_, _) => if rest != [] then Refused else Follow(entries, rest, current, followed)
          case Directory(_) => Follow(entries, rest, current, followed)
  }

  /** The queue as it runs: a deque of parts, a stack of resolved ones, a count of links. */
  method ResolveLink(entries: Entries, start: Path, target: Path) returns (r: Resolution)
    ensures r == Follow(entries, start + target, [], 0)
  {
    var pending := start + target;
    var resolved: Path := [];
    var followed: nat := 0;
    while pending != []
      invariant followed <= LINK_LIMIT
      invariant Follow(entries, start + target, [], 0) == Follow(entries, pending, resolved, followed)
      decreases LINK_LIMIT - followed, |pending|
    {
      var part := pending[0];
      pending := pending[1..];
      if IsHere(part) {
        continue;
      }
      if IsUp(part) {
        if |resolved| <= 3 {
          return Escapes;
        }
        resolved := resolved[..|resolved| - 1];
        continue;
      }
      resolved := resolved + [part];
      if resolved !in entries {
        return Refused;
      }
      var selected := entries[resolved];
      if selected.Link? {
        if followed == LINK_LIMIT || !IsRelative(selected.target) {
          return Refused;
        }
        followed := followed + 1;
        resolved := resolved[..|resolved| - 1];
        pending := selected.target + pending;
        if |pending| > PENDING_LIMIT {
          return TooLong;
        }
      } else if pending != [] && !selected.Directory? {
        return Refused;
      }
    }
    return Found(resolved);
  }

  // ---------- names and targets as text ----------

  /** A path as it is written. */
  function Join(path: Path): string {
    if path == [] then ""
    else if |path| == 1 then path[0]
    else Join(path[..|path| - 1]) + "/" + path[|path| - 1]
  }

  lemma {:induction false} JoinHas(path: Path, c: char)
    requires c != '/'
    ensures c in Join(path) <==> exists i :: 0 <= i < |path| && c in path[i]
    decreases |path|
  {
    if |path| > 1 {
      var n := |path| - 1;
      JoinHas(path[..n], c);
      if i :| 0 <= i < |path[..n]| && c in path[..n][i] {
        assert c in path[i];
      }
      if i :| 0 <= i < n && c in path[i] {
        assert c in path[..n][i];
      }
    }
  }

  lemma {:induction false} JoinStarts(path: Path)
    requires path != []
    ensures path[0] <= Join(path) && (|path| > 1 ==> |Join(path)| > |path[0]| && Join(path)[|path[0]|] == '/')
    ensures |path| == 1 ==> Join(path) == path[0]
    decreases |path|
  {
    if |path| > 1 {
      JoinStarts(path[..|path| - 1]);
    }
  }

  /** A target is relative exactly when its text is not empty, does not start
      with a slash and has no backslash. */
  lemma {:induction false} RelativeExactly(target: Path)
    requires target != [] && forall i :: 0 <= i < |target| ==> '/' !in target[i]
    ensures IsRelative(target) <==> Join(target) != "" && Join(target)[0] != '/' && '\\' !in Join(target)
  {
    JoinStarts(target);
    JoinHas(target, '\\');
  }

  // ---------- pathname resolution, the reference ----------

  predicate IsDirectory(entries: Entries, path: Path) {
    path == [] || (path in entries && entries[path].Directory?)
  }

  function Parent(path: Path): Path {
    if path == [] then [] else path[..|path| - 1]
  }

  /** Resolve `parts` from directory `dir`: a link in the way is itself
      resolved, completely, from the directory that holds it.  Returns the
      object reached and how many more links may be followed. */
  function Lookup(entries: Entries, dir: Path, parts: Path, budget: nat): (r: Option<(Path, nat)>)
    ensures r.Some? ==> r.value.1 <= budget
    decreases budget, |parts|
  {
    if parts == [] then Some((dir, budget))
    else
      var part, rest := parts[0], parts[1..];
      if IsHere(part) then Lookup(entries, dir, rest, budget)
      else if IsUp(part) then Lookup(entries, Parent(dir), rest, budget)
      else
        var current := dir + [part];
        if current !in entries then None
        else if !entries[current].Link? then
          if rest != [] && !entries[current].Directory? then None else Lookup(entries, current, rest, budget)
        else if budget == 0 || !IsRelative(entries[current].target) then None
        else
          match Lookup(entries, dir, entries[current].target, budget - 1)
          case None => None
          case Some((reached, left)) =>
            if rest != [] && !IsDirectory(entries, reached) then None else Lookup(entries, reached, rest, left)
  }

  /** Every entry sits in a directory. */
  ghost predicate IsTree(entries: Entries) {
    forall path :: path in entries ==> path != [] && IsDirectory(entries, Parent(path))
  }

  /** A lookup carried on from where another ended. */
  function Then(entries: Entries, r: Option<(Path, nat)>, parts: Path): Option<(Path, nat)> {
    match r
    case None => None
    case Some((reached, left)) =>
      if parts != [] && !IsDirectory(entries, reached) then None else Lookup(entries, reached, parts, left)
  }

  /** Looking up a concatenation is looking up its parts in turn. */
  lemma {:induction false} LookupConcat(entries: Entries, dir: Path, a: Path, b: Path, budget: nat)
    requires IsTree(entries) && IsDirectory(entries, dir)
    ensures Lookup(entries, dir, a + b, budget) == Then(entries, Lookup(entries, dir, a, budget), b)
    decreases budget, |a|
  {
    if a == [] {
      assert a + b == b;
    } else {
      var part, rest := a[0], a[1..];
      assert (a + b)[0] == part && (a + b)[1..] == rest + b;
      if IsHere(part) {
        LookupConcat(entries, dir, rest, b, budget);
      } else if IsUp(part) {
        LookupConcat(entries, Parent(dir), rest, b, budget);
      } else {
        var current := dir + [part];
        if current in entries && !entries[current].Link? {
          if entries[current].Directory? {
            LookupConcat(entries, current, rest, b, budget);
          } else if rest == [] {
            assert rest + b == b;
          }
        } else if current in entries && budget > 0 && IsRelative(entries[current].target) {
          var inner := Lookup(entries, dir, entries[current].target, budget - 1);
          if inner.Some? {
            if IsDirectory(entries, inner.value.0) {
              LookupConcat(entries, inner.value.0, rest, b, inner.value.1);
            } else if rest == [] {
              assert rest + b == b;
            }
          }
        }
      }
    }
  }

  lemma LookupAtLink(entries: Entries, dir: Path, part: string, rest: Path, budget: nat, target: Path)
    requires budget > 0 && IsName(part) && dir + [part] in entries
    requires entries[dir + [part]].Link? && entries[dir + [part]].target == target && IsRelative(target)
    ensures Lookup(entries, dir, [part] + rest, budget) == Then(entries, Lookup(entries, dir, target, budget - 1), rest)
  {
    assert ([part] + rest)[1..] == rest && ([part] + rest)[0] == part;
  }

  /** Resolving a link and going on is looking up its target before the rest. */
  lemma LookupThroughLink(entries: Entries, dir: Path, part: string, rest: Path, budget: nat)
    requires IsTree(entries) && IsDirectory(entries, dir) && budget > 0 && IsName(part)
    requires dir + [part] in entries && entries[dir + [part]].Link? && IsRelative(entries[dir + [part]].target)
    ensures Lookup(entries, dir, [part] + rest, budget) ==
            Lookup(entries, dir, entries[dir + [part]].target + rest, budget - 1)
  {
    var target := entries[dir + [part]].target;
    LookupAtLink(entries, dir, part, rest, budget, target);
    LookupConcat(entries, dir, target, rest, budget - 1);
  }

  // ---------- the two limits, exactly ----------

  /** One turn of a resolution: what is still to resolve, from where, after how many links. */
  datatype Turn = Turn(pending: Path, dir: Path, followed: nat)

  /** The next turn of a resolution that may climb anywhere and grow to any
      length; None at its end, or where a lookup fails. */
  function NextTurn(entries: Entries, t: Turn): (next: Option<Turn>)
    requires t.followed <= 40
    ensures next.Some? ==> next.value.followed <= 40
    ensures next.Some? ==>
      next.value.followed == t.followed + 1 || (next.value.followed == t.followed && |next.value.pending| < |t.pending|)
  {
    if t.pending == [] then None
    else
      var part, rest := t.pending[0], t.pending[1..];
      if part == "" || part == "." then Some(Turn(rest, t.dir, t.followed))
      else if part == ".." then Some(Turn(rest, Parent(t.dir), t.followed))
      else if t.dir + [part] !in entries then None
      else
        match entries[t.dir + [part]]
        case Directory(_) => Some(Turn(rest, t.dir + [part], t.followed))
        case File(_, _) => if rest == [] then Some(Turn(rest, t.dir + [part], t.followed)) else None
        case Link(target, _, _) =>
          if t.followed < 40 && IsRelative(target) then Some(Turn(target + rest, t.dir, t.followed + 1)) else None
  }

  /** All its turns. */
  function Turns(entries: Entries, pending: Path, dir: Path, followed: nat): (ts: seq<Turn>)
    requires followed <= 40
    ensures |ts| > 0 && ts[0] == Turn(pending, dir, followed)
    decreases 40 - followed, |pending|
  {
    var next := NextTurn(entries, Turn(pending, dir, followed));
    [Turn(pending, dir, followed)] +
    if next.None? then [] else Turns(entries, next.value.pending, next.value.dir, next.value.followed)
  }

  /** A `..` at no more than three parts. */
  predicate Climbs(t: Turn) {
    t.pending != [] && t.pending[0] == ".." && |t.dir| <= 3
  }

  /** The turn expands a link to more than 4096 pending parts. */
  predicate Overflows(entries: Entries, t: Turn) {
    && t.followed <= 40 && NextTurn(entries, t).Some?
    && NextTurn(entries, t).value.followed == t.followed + 1 && |NextTurn(entries, t).value.pending| > 4096
  }

  /** No turn before `k` climbs out or overflows. */
  ghost predicate IsSafe(entries: Entries, ts: seq<Turn>, k: nat) {
    k < |ts| && forall j :: 0 <= j < k ==> !Climbs(ts[j]) && !Overflows(entries, ts[j])
  }

  /** The first turn to break a limit climbs out. */
  ghost predicate ClimbsFirst(entries: Entries, ts: seq<Turn>) {
    exists k: nat :: IsSafe(entries, ts, k) && Climbs(ts[k])
  }

  /** The first turn to break a limit overflows. */
  ghost predicate OverflowsFirst(entries: Entries, ts: seq<Turn>) {
    exists k: nat :: IsSafe(entries, ts, k) && Overflows(entries, ts[k])
  }

  lemma PartKinds(part: string)
    ensures IsHere(part) <==> part == "" || part == "."
    ensures IsUp(part) <==> part == ".."
  {
  }

  lemma {:induction false} FirstShifts(entries: Entries, first: Turn, rest: seq<Turn>)
    requires rest != [] && !Climbs(first) && !Overflows(entries, first)
    ensures ClimbsFirst(entries, [first] + rest) <==> ClimbsFirst(entries, rest)
    ensures OverflowsFirst(entries, [first] + rest) <==> OverflowsFirst(entries, rest)
  {
    var ts := [first] + rest;
    forall k: nat | k < |rest| ensures IsSafe(entries, ts, k + 1) <==> IsSafe(entries, rest, k) {
      assert forall j :: 0 <= j < k + 1 ==> ts[j] == if j == 0 then first else rest[j - 1];
      assert forall j :: 0 <= j < k ==> rest[j] == ts[j + 1];
    }
    if k: nat :| IsSafe(entries, ts, k) && (Climbs(ts[k]) || Overflows(entries, ts[k])) {
      assert ts[k] == rest[k - 1] && IsSafe(entries, rest, k - 1);
    }
    if k: nat :| IsSafe(entries, rest, k) && (Climbs(rest[k]) || Overflows(entries, rest[k])) {
      assert ts[k + 1] == rest[k] && IsSafe(entries, ts, k + 1);
    }
  }

  /** The queue breaks off for a limit exactly when the first turn to break one
      breaks that one; otherwise it takes every turn, and finds where they end. */
  lemma {:induction false} FollowExactly(entries: Entries, pending: Path, dir: Path, followed: nat)
    requires followed <= LINK_LIMIT
    ensures var r, ts := Follow(entries, pending, dir, followed), Turns(entries, pending, dir, followed);
            && (r.Escapes? <==> ClimbsFirst(entries, ts)) && (r.TooLong? <==> OverflowsFirst(entries, ts))
            && (r.Found? || r.Refused? ==> IsSafe(entries, ts, |ts| - 1))
            && (r.Found? ==> ts[|ts| - 1].pending == [] && ts[|ts| - 1].dir == r.path)
            && (r.Refused? ==> ts[|ts| - 1].pending != [])
    decreases LINK_LIMIT - followed, |pending|
  {
    var ts, first := Turns(entries, pending, dir, followed), Turn(pending, dir, followed);
    var next := NextTurn(entries, first);
    FollowStep(entries, pending, dir, followed);
    if Climbs(first) || Overflows(entries, first) {
      FirstDecides(entries, ts);
    } else if next.Some? {
      FollowExactly(entries, next.value.pending, next.value.dir, next.value.followed);
      var rest := Turns(entries, next.value.pending, next.value.dir, next.value.followed);
      assert ts == [first] + rest;
      FirstShifts(entries, first, rest);
      SafeShifts(entries, first, rest);
    } else {
      assert ts == [first];
      NoneFirst(entries, ts);
    }
  }

  lemma SafeShifts(entries: Entries, first: Turn, rest: seq<Turn>)
    requires rest != [] && !Climbs(first) && !Overflows(entries, first)
    ensures var ts := [first] + rest;
            && (IsSafe(entries, rest, |rest| - 1) ==> IsSafe(entries, ts, |ts| - 1)) && ts[|ts| - 1] == rest[|rest| - 1]
  {
    var ts := [first] + rest;
    assert forall j :: 1 <= j < |ts| ==> ts[j] == rest[j - 1];
  }

  lemma FirstDecides(entries: Entries, ts: seq<Turn>)
    requires ts != [] && (Climbs(ts[0]) || Overflows(entries, ts[0]))
    ensures ClimbsFirst(entries, ts) <==> Climbs(ts[0])
    ensures OverflowsFirst(entries, ts) <==> Overflows(entries, ts[0])
  {
    assert IsSafe(entries, ts, 0);
  }

  lemma NoneFirst(entries: Entries, ts: seq<Turn>)
    requires |ts| == 1 && !Climbs(ts[0]) && !Overflows(entries, ts[0])
    ensures !ClimbsFirst(entries, ts) && !OverflowsFirst(entries, ts) && IsSafe(entries, ts, 0)
  {
  }

  /** One turn of the queue. */
  lemma FollowStep(entries: Entries, pending: Path, dir: Path, followed: nat)
    requires followed <= LINK_LIMIT
    ensures var t := Turn(pending, dir, followed);
            var next := NextTurn(entries, t);
            Follow(entries, pending, dir, followed) ==
            if Climbs(t) then Escapes
            else if Overflows(entries, t) then TooLong
            else if next.Some? then Follow(entries, next.value.pending, next.value.dir, next.value.followed)
            else if pending == [] then Found(dir) else Refused
  {
    if pending != [] {
      PartKinds(pending[0]);
    }
  }

  /** A lookup from the turn ends as one from the next turn, or fails where there is none. */
  predicate SameLookup(entries: Entries, t: Turn)
    requires t.followed <= 40
  {
    var next := NextTurn(entries, t);
    Lookup(entries, t.dir, t.pending, 40 - t.followed) ==
    if next.None? then None else Lookup(entries, next.value.dir, next.value.pending, 40 - next.value.followed)
  }

  /** A turn leaves the outcome of a lookup as it is. */
  lemma {:induction false} LookupStep(entries: Entries, t: Turn)
    requires IsTree(entries) && IsDirectory(entries, t.dir) && t.followed <= 40 && t.pending != []
    ensures SameLookup(entries, t)
  {
    PartKinds(t.pending[0]);
    if IsAtLink(entries, t) {
      LinkStep(entries, t);
    } else {
      PlainStep(entries, t);
    }
  }

  /** The first pending part names a link. */
  predicate IsAtLink(entries: Entries, t: Turn) {
    && t.pending != [] && IsName(t.pending[0]) && t.dir + [t.pending[0]] in entries
    && entries[t.dir + [t.pending[0]]].Link?
  }

  lemma {:induction false} LinkStep(entries: Entries, t: Turn)
    requires IsTree(entries) && IsDirectory(entries, t.dir) && t.followed <= 40 && IsAtLink(entries, t)
    ensures SameLookup(entries, t)
  {
    NextAtLink(entries, t);
    if t.followed < 40 && IsRelative(entries[t.dir + [t.pending[0]]].target) {
      LinkFollowed(entries, t, NextTurn(entries, t).value);
    } else {
      LookupRefuses(entries, t.dir, t.pending[0], t.pending[1..], 40 - t.followed);
      assert t.pending == [t.pending[0]] + t.pending[1..];
    }
  }

  lemma {:induction false} LinkFollowed(entries: Entries, t: Turn, next: Turn)
    requires IsTree(entries) && IsDirectory(entries, t.dir) && t.followed < 40 && IsAtLink(entries, t)
    requires var target := entries[t.dir + [t.pending[0]]].target;
             IsRelative(target) && next == Turn(target + t.pending[1..], t.dir, t.followed + 1)
    ensures Lookup(entries, t.dir, t.pending, 40 - t.followed) == Lookup(entries, next.dir, next.pending, 40 - next.followed)
  {
    assert t.pending == [t.pending[0]] + t.pending[1..];
    LookupThroughLink(entries, t.dir, t.pending[0], t.pending[1..], 40 - t.followed);
  }

  lemma NextAtLink(entries: Entries, t: Turn)
    requires t.followed <= 40 && IsAtLink(entries, t)
    ensures var target := entries[t.dir + [t.pending[0]]].target;
            NextTurn(entries, t) ==
            if t.followed < 40 && IsRelative(target) then Some(Turn(target + t.pending[1..], t.dir, t.followed + 1)) else None
  {
    PartKinds(t.pending[0]);
  }

  lemma LookupRefuses(entries: Entries, dir: Path, part: string, rest: Path, budget: nat)
    requires IsName(part) && dir + [part] in entries && entries[dir + [part]].Link?
    requires budget == 0 || !IsRelative(entries[dir + [part]].target)
    ensures Lookup(entries, dir, [part] + rest, budget).None?
  {
    assert ([part] + rest)[0] == part;
  }

  lemma PlainStep(entries: Entries, t: Turn)
    requires t.followed <= 40 && t.pending != [] && !IsAtLink(entries, t)
    ensures SameLookup(entries, t)
  {
    PartKinds(t.pending[0]);
  }

  /** The turns are those of pathname resolution: they end with nothing pending
      exactly when a lookup succeeds, and where it does. */
  lemma {:induction false} TurnsAreLookup(entries: Entries, pending: Path, dir: Path, followed: nat)
    requires IsTree(entries) && (IsDirectory(entries, dir) || pending == []) && followed <= 40
    ensures var ts, looked := Turns(entries, pending, dir, followed), Lookup(entries, dir, pending, 40 - followed);
            && (looked.Some? <==> ts[|ts| - 1].pending == [])
            && (looked.Some? ==> looked.value.0 == ts[|ts| - 1].dir)
    decreases 40 - followed, |pending|
  {
    if pending != [] {
      var next := NextTurn(entries, Turn(pending, dir, followed));
      LookupStep(entries, Turn(pending, dir, followed));
      if next.Some? {
        TurnsAreLookup(entries, next.value.pending, next.value.dir, next.value.followed);
      }
    }
  }

  /** The queue, exactly: it climbs out or overflows when that comes first, and
      otherwise finds what a lookup finds and refuses what a lookup refuses. */
  lemma {:induction false} QueueExactly(entries: Entries, pending: Path, dir: Path, followed: nat)
    requires IsTree(entries) && IsDirectory(entries, dir) && followed <= LINK_LIMIT
    ensures var r, ts := Follow(entries, pending, dir, followed), Turns(entries, pending, dir, followed);
            && (r.Escapes? <==> ClimbsFirst(entries, ts)) && (r.TooLong? <==> OverflowsFirst(entries, ts))
            && (!ClimbsFirst(entries, ts) && !OverflowsFirst(entries, ts) ==>
                  match Lookup(entries, dir, pending, LINK_LIMIT - followed)
                  case Some((path, _)) => r == Found(path)
                  case None => r == Refused)
  {
    FollowExactly(entries, pending, dir, followed);
    TurnsAreLookup(entries, pending, dir, followed);
  }

  /** What the queue finds, a lookup finds, and what it refuses for any reason
      but its own two limits, a lookup refuses. */
  lemma {:induction false} QueueIsLookup(entries: Entries, pending: Path, dir: Path, followed: nat)
    requires IsTree(entries) && IsDirectory(entries, dir) && followed <= LINK_LIMIT
    ensures var queue, looked := Follow(entries, pending, dir, followed), Lookup(entries, dir, pending, LINK_LIMIT - followed);
            && (queue.Found? ==> looked.Some? && looked.value.0 == queue.path)
            && (queue.Refused? ==> looked.None?)
  {
    QueueExactly(entries, pending, dir, followed);
  }

  /** A lookup ends at the directory it started from, or at an entry that is no link. */
  lemma {:induction false} LookupEndsAtObject(entries: Entries, dir: Path, parts: Path, budget: nat)
    requires IsTree(entries) && IsDirectory(entries, dir)
    ensures var r := Lookup(entries, dir, parts, budget);
            r.Some? ==> r.value.0 == [] || (r.value.0 in entries && !entries[r.value.0].Link?)
    decreases budget, |parts|
  {
    if parts != [] {
      var part, rest := parts[0], parts[1..];
      if IsHere(part) {
        LookupEndsAtObject(entries, dir, rest, budget);
      } else if IsUp(part) {
        LookupEndsAtObject(entries, Parent(dir), rest, budget);
      } else {
        var current := dir + [part];
        if current in entries && entries[current].Directory? {
          LookupEndsAtObject(entries, current, rest, budget);
        } else if current in entries && entries[current].Link? && budget > 0 && IsRelative(entries[current].target) {
          LookupEndsAtObject(entries, dir, entries[current].target, budget - 1);
          var inner := Lookup(entries, dir, entries[current].target, budget - 1);
          if inner.Some? && IsDirectory(entries, inner.value.0) {
            LookupEndsAtObject(entries, inner.value.0, rest, inner.value.1);
          }
        }
      }
    }
  }

  // ---------- confinement ----------

  predicate Under(path: Path, root: Path) {
    |root| <= |path| && path[..|root|] == root
  }

  /** The root is made of real directories with ordinary names. */
  ghost predicate IsRoot(entries: Entries, root: Path) {
    forall k :: 0 <= k < |root| ==> IsName(root[k]) && IsDirectory(entries, root[..k + 1])
  }

  /** Once under the root the resolution stays there until a turn would climb out. */
  lemma {:induction false} StaysUnder(entries: Entries, root: Path, pending: Path, dir: Path, followed: nat, k: nat)
    requires |root| == 3 && Under(dir, root) && followed <= LINK_LIMIT
    requires var ts := Turns(entries, pending, dir, followed); k < |ts| && forall j :: 0 <= j < k ==> !Climbs(ts[j])
    ensures Under(Turns(entries, pending, dir, followed)[k].dir, root)
    decreases LINK_LIMIT - followed, |pending|
  {
    var ts := Turns(entries, pending, dir, followed);
    if k > 0 {
      assert !Climbs(ts[0]);
      var next := NextTurn(entries, ts[0]).value;
      assert ts[1..] == Turns(entries, next.pending, next.dir, next.followed);
      if IsUp(pending[0]) {
        assert dir[..|dir| - 1][..3] == dir[..3];
      } else {
        assert (dir + [pending[0]])[..3] == dir[..3];
      }
      StaysUnder(entries, root, next.pending, next.dir, next.followed, k - 1);
    }
  }

  /** A resolution that starts with the way down to the root goes straight there
      and stays under it until a turn would climb out. */
  lemma {:induction false} TurnsConfined(entries: Entries, root: Path, n: nat, pending: Path, k: nat)
    requires |root| == 3 && IsRoot(entries, root) && n <= 3
    requires |pending| >= 3 - n && pending[..3 - n] == root[n..]
    requires var ts := Turns(entries, pending, root[..n], 0); k < |ts| && forall j :: 0 <= j < k ==> !Climbs(ts[j])
    ensures var dir := Turns(entries, pending, root[..n], 0)[k].dir; Under(dir, root) || dir <= root
    ensures k >= 3 - n ==> Under(Turns(entries, pending, root[..n], 0)[k].dir, root)
    decreases 3 - n
  {
    var ts := Turns(entries, pending, root[..n], 0);
    if n == 3 {
      assert root[..3] == root;
      StaysUnder(entries, root, pending, root, 0, k);
    } else if k > 0 {
      assert pending[0] == pending[..3 - n][0] == root[n];
      assert root[..n] + [root[n]] == root[..n + 1];
      assert pending[1..][..2 - n] == pending[..3 - n][1..] == root[n + 1..];
      assert ts[1..] == Turns(entries, pending[1..], root[..n + 1], 0);
      TurnsConfined(entries, root, n + 1, pending[1..], k - 1);
    }
  }

  /** So the queue stays inside at every turn it takes, and the final escape test cannot fail. */
  lemma {:induction false} QueueConfined(entries: Entries, root: Path, pending: Path)
    requires |root| == 3 && IsRoot(entries, root) && |pending| >= 3 && pending[..3] == root
    ensures forall k: nat :: IsSafe(entries, Turns(entries, pending, [], 0), k) ==>
              var dir := Turns(entries, pending, [], 0)[k].dir; Under(dir, root) || dir <= root
    ensures Follow(entries, pending, [], 0).Found? ==> Under(Follow(entries, pending, [], 0).path, root)
  {
    var ts := Turns(entries, pending, [], 0);
    assert root[..0] == [] && root[0..] == root;
    forall k: nat | IsSafe(entries, ts, k) ensures Under(ts[k].dir, root) || ts[k].dir <= root {
      TurnsConfined(entries, root, 0, pending, k);
    }
    if Follow(entries, pending, [], 0).Found? {
      FollowExactly(entries, pending, [], 0);
      WayDown(entries, root, pending, 0);
      TurnsConfined(entries, root, 0, pending, |ts| - 1);
    }
  }

  /** The way down to the root takes a turn for each of its parts. */
  lemma {:induction false} WayDown(entries: Entries, root: Path, pending: Path, n: nat)
    requires |root| == 3 && IsRoot(entries, root) && n <= 3 && |pending| >= 3 - n && pending[..3 - n] == root[n..]
    ensures |Turns(entries, pending, root[..n], 0)| > 3 - n
    decreases 3 - n
  {
    if n < 3 {
      assert pending[0] == pending[..3 - n][0] == root[n];
      assert root[..n] + [root[n]] == root[..n + 1];
      assert pending[1..][..2 - n] == pending[..3 - n][1..] == root[n + 1..];
      WayDown(entries, root, pending[1..], n + 1);
    }
  }
}
