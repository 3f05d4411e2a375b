/** Removing a directory tree (common/filesystem.cpp, `DirRef::Rmtree`).

    The file system is a map from paths to kinds that nobody else changes during
    the call. A directory handle is the path it was opened at. */
module Filesystem {

  // A name that stands for an entry of its directory, unlike "." and "..".
  type Name = s: string | s != "" && s != "." && s != ".." witness "a"

  type Path = seq<Name>

  datatype Kind = Directory | Other

  datatype Errno = NoEntity | NotDirectory | NotEmpty | IsDirectory

  datatype Result = Success | Failure(errno: Errno)

  type Nodes = map<Path, Kind>

  // What a directory reader reports; the kind may be unknown.
  datatype Reported = Known(kind: Kind) | Unknown

  datatype Entry = Entry(name: string, reported: Reported)

  predicate IsName(s: string) {
    s != "" && s != "." && s != ".."
  }

  function Parent(p: Path): Path
    requires p != []
  {
    p[..|p| - 1]
  }

  function Child(dir: Path, name: Name): Path {
    dir + [name]
  }

  predicate IsDir(n: Nodes, p: Path) {
    p in n && n[p] == Directory
  }

  // Every node but the root has its parent directory.
  ghost predicate WellFormed(n: Nodes) {
    IsDir(n, []) && forall p :: p in n && p != [] ==> IsDir(n, Parent(p))
  }

  function EntriesOf(n: Nodes, dir: Path): set<Path> {
    set p | p in n && p != [] && Parent(p) == dir
  }

  // The error of a system call on a path that does not exist: some directory on the way is missing,
  // or is not a directory.
  function Unresolved(n: Nodes, p: Path): (e: Errno)
    requires p !in n
    ensures e == NotDirectory <==> exists k :: 0 <= k < |p| && p[..k] in n && n[p[..k]] == Other
    ensures e == NotDirectory || e == NoEntity
  {
    if exists k :: 0 <= k < |p| && p[..k] in n && n[p[..k]] == Other then NotDirectory else NoEntity
  }

  function RmdirResult(n: Nodes, at: Path, entry: Path): Result {
    if entry == [] then Failure(NoEntity)
    else if at + entry !in n then Failure(Unresolved(n, at + entry))
    else if n[at + entry] == Other then Failure(NotDirectory)
    else if EntriesOf(n, at + entry) != {} then Failure(NotEmpty)
    else Success
  }

  function UnlinkResult(n: Nodes, at: Path, name: Name): Result {
    var p := Child(at, name);
    if p !in n then Failure(Unresolved(n, p))
    else if n[p] == Directory then Failure(IsDirectory)
    else Success
  }

  // Some step on the way to a path is not a directory.
  predicate Blocked(n: Nodes, p: Path) {
    exists k :: 0 <= k <= |p| && p[..k] in n && n[p[..k]] == Other
  }

  // rmdir refuses exactly what would break the tree: it takes a directory out when the rest still is
  // a tree, and otherwise leaves everything and says why.
  lemma RmdirMeans(n: Nodes, at: Path, entry: Path)
    requires WellFormed(n) && IsDir(n, at) && entry != []
    ensures var p := at + entry; var r := RmdirResult(n, at, entry);
            && (r == Success <==> IsDir(n, p) && WellFormed(n - {p}))
            && (r == Failure(NotEmpty) <==> IsDir(n, p) && !WellFormed(n - {p}))
            && (r == Failure(NotDirectory) <==> Blocked(n, p))
            && (r == Failure(NoEntity) <==> p !in n && !Blocked(n, p))
  {
    hide WellFormed, EntriesOf;
    var p := at + entry;
    if p in n {
      TreeWithout(n, p);
      ReachedBlocked(n, p);
    } else {
      MissingBlocked(n, p);
    }
  }

  lemma ReachedBlocked(n: Nodes, p: Path)
    requires WellFormed(n) && p in n
    ensures Blocked(n, p) <==> n[p] == Other
  {
    forall k | 0 <= k < |p| ensures IsDir(n, p[..k]) { PrefixesAreDirs(n, p, k); }
    assert p[..|p|] == p;
  }

  lemma MissingBlocked(n: Nodes, p: Path)
    requires p !in n
    ensures Blocked(n, p) <==> Unresolved(n, p) == NotDirectory
  {
    assert p[..|p|] == p;
  }

  // unlink takes out anything but a directory, which always leaves a tree.
  lemma UnlinkMeans(n: Nodes, at: Path, name: Name)
    requires WellFormed(n) && IsDir(n, at)
    ensures var p := Child(at, name); var r := UnlinkResult(n, at, name);
            && (r == Success <==> p in n && n[p] == Other) && (r == Success ==> WellFormed(n - {p}))
            && (r == Failure(IsDirectory) <==> IsDir(n, p))
            && (r == Failure(NoEntity) <==> p !in n)
  {
    var p := Child(at, name);
    if p in n { TreeWithout(n, p); } else { MissingEntry(n, at, name); }
  }

  // A tree without one node is a tree exactly when that node has no entries.
  lemma TreeWithout(n: Nodes, p: Path)
    requires WellFormed(n) && p in n && p != []
    ensures WellFormed(n - {p}) <==> EntriesOf(n, p) == {}
    ensures n[p] == Other ==> EntriesOf(n, p) == {}
  {
    if q :| q in EntriesOf(n, p) {
      assert q in n - {p};
    }
  }

  // --- What removing a tree means ---

  // Everything but the subtree at the root.
  function Without(n: Nodes, root: Path): Nodes {
    map p | p in n && !(root <= p) :: n[p]
  }

  // A directory and a missing path succeed; a path that is or passes through something other than a
  // directory fails.
  function RmtreeResult(n: Nodes, base: Path, path: Path): Result {
    if path == [] then Success
    else if base + path in n then (if n[base + path] == Directory then Success else Failure(NotDirectory))
    else if Unresolved(n, base + path) == NoEntity then Success
    else Failure(NotDirectory)
  }

  // A directory being emptied: its handle, and where its entries start in the shared list.
  datatype Frame = Frame(dir: Path, start: nat)

  function Current(base: Path, stack: seq<Frame>): Path {
    if stack == [] then base else stack[|stack| - 1].dir
  }

  function Start(stack: seq<Frame>): nat {
    if stack == [] then 0 else stack[|stack| - 1].start
  }

  // The names listed for a directory: every entry it still has is pending or of unknown kind, and
  // nothing pending is known to be anything but a directory.
  ghost predicate Covers(n: Nodes, dir: Path, pending: seq<Path>, unknown: seq<Name>) {
    && IsDir(n, dir)
    && (forall name: Name :: Child(dir, name) in n ==> [name] in pending || name in unknown)
    && (forall e :: e in pending ==> |e| == 1 && (Child(dir, e[0]) in n ==> n[Child(dir, e[0])] == Directory))
  }

  // Each frame's directory is the entry just below its entries, taken in the directory of the frame
  // below it; the lowest entry is the path itself.
  ghost predicate Tied(n: Nodes, base: Path, path: Path, stack: seq<Frame>, entries: seq<Path>)
    decreases |stack|
  {
    if stack == [] then entries == [path]
    else
      var below := stack[..|stack| - 1];
      var top := stack[|stack| - 1];
      && Start(below) < top.start <= |entries|
      && Tied(n, base, path, below, entries[..top.start])
      && top.dir == Current(base, below) + entries[top.start - 1]
      && Covers(n, top.dir, entries[top.start..], [])
  }

  // A directory that was opened is gone, or is on the stack, or is empty by now.
  ghost predicate Settled(n: Nodes, stack: seq<Frame>, visited: set<Path>) {
    forall p :: p in visited && p in n ==> (exists f :: f in stack && f.dir == p) || EntriesOf(n, p) == {}
  }

  ghost predicate Within(n: Nodes, before: Nodes) {
    forall p :: p in n ==> p in before && n[p] == before[p]
  }

  // Only nodes at or below the root are missing.
  ghost predicate Shrunk(n: Nodes, before: Nodes, root: Path) {
    WellFormed(n) && Within(n, before) && (forall p :: p in before && !(root <= p) ==> p in n)
  }

  lemma {:induction false} PrefixesAreDirs(n: Nodes, p: Path, k: nat)
    requires WellFormed(n) && p in n && k < |p|
    ensures IsDir(n, p[..k])
  {
    if k < |p| - 1 {
      PrefixesAreDirs(n, Parent(p), k);
      assert Parent(p)[..k] == p[..k];
    } else {
      assert p[..k] == Parent(p);
    }
  }

  lemma HasEntry(n: Nodes, dir: Path, name: Name)
    ensures Child(dir, name) in n <==> Child(dir, name) in EntriesOf(n, dir)
  {}

  // Below a directory, a missing entry is reported as missing.
  lemma MissingEntry(n: Nodes, dir: Path, name: Name)
    requires WellFormed(n) && IsDir(n, dir) && Child(dir, name) !in n
    ensures Unresolved(n, Child(dir, name)) == NoEntity
  {
    var p := Child(dir, name);
    forall k | 0 <= k < |p| && p[..k] in n ensures n[p[..k]] == Directory {
      if k < |dir| {
        PrefixesAreDirs(n, dir, k);
        assert p[..k] == dir[..k];
      } else {
        assert p[..k] == dir;
      }
    }
  }

  // Every directory on the stack lies at or above the current one.
  lemma {:induction false} FramesLieAbove(n: Nodes, base: Path, path: Path, stack: seq<Frame>, entries: seq<Path>)
    requires Tied(n, base, path, stack, entries)
    ensures forall f :: f in stack ==> f.dir <= Current(base, stack) && IsDir(n, f.dir)
    ensures stack != [] ==> base + path <= Current(base, stack)
    decreases |stack|
  {
    hide Child, Tied;
    if stack == [] {
    } else {
      var below := stack[..|stack| - 1];
      var top := stack[|stack| - 1];
      TopFrame(n, base, path, stack, entries);
      var beneath := entries[..top.start];
      FramesLieAbove(n, base, path, below, beneath);
      assert stack == below + [top];
      if below == [] { LowestEntry(n, base, path, beneath); }
    }
  }

  lemma LowestEntry(n: Nodes, base: Path, path: Path, entries: seq<Path>)
    requires Tied(n, base, path, [], entries)
    ensures entries == [path]
  {}

  lemma TopFrame(n: Nodes, base: Path, path: Path, stack: seq<Frame>, entries: seq<Path>)
    requires stack != [] && Tied(n, base, path, stack, entries)
    ensures var below := stack[..|stack| - 1]; var top := stack[|stack| - 1];
            && Start(below) < top.start <= |entries|
            && Tied(n, base, path, below, entries[..top.start])
            && top.dir == Current(base, below) + entries[top.start - 1]
            && Covers(n, top.dir, entries[top.start..], [])
  {
    hide Covers;
  }

  lemma MakeTied(n: Nodes, base: Path, path: Path, stack: seq<Frame>, entries: seq<Path>)
    requires stack != []
    requires var below := stack[..|stack| - 1]; var top := stack[|stack| - 1];
             && Start(below) < top.start <= |entries|
             && Tied(n, base, path, below, entries[..top.start])
             && top.dir == Current(base, below) + entries[top.start - 1]
             && Covers(n, top.dir, entries[top.start..], [])
    ensures Tied(n, base, path, stack, entries)
  {
    hide Covers;
  }

  lemma {:induction false} TiedInSmaller(n: Nodes, n': Nodes, base: Path, path: Path, stack: seq<Frame>, entries: seq<Path>)
    requires Tied(n, base, path, stack, entries) && Within(n', n)
    requires forall f :: f in stack ==> f.dir in n'
    ensures Tied(n', base, path, stack, entries)
    decreases |stack|
  {
    if stack == [] {
    } else {
      var below := stack[..|stack| - 1];
      TiedInSmaller(n, n', base, path, below, entries[..stack[|stack| - 1].start]);
    }
  }

  lemma SettledInSmaller(n: Nodes, n': Nodes, stack: seq<Frame>, visited: set<Path>)
    requires Settled(n, stack, visited) && Within(n', n)
    ensures Settled(n', stack, visited)
  {}

  // Finishing the entries of the top frame empties its directory.
  lemma TopIsEmpty(n: Nodes, base: Path, path: Path, stack: seq<Frame>, entries: seq<Path>)
    requires stack != [] && Tied(n, base, path, stack, entries) && Start(stack) == |entries|
    ensures EntriesOf(n, Current(base, stack)) == {}
    ensures Tied(n, base, path, stack[..|stack| - 1], entries)
  {
    hide Tied, Covers, Child, EntriesOf;
    TopFrame(n, base, path, stack, entries);
    assert entries[..|entries|] == entries && entries[|entries|..] == [];
    NothingPending(n, Current(base, stack));
  }

  lemma NothingPending(n: Nodes, dir: Path)
    requires Covers(n, dir, [], [])
    ensures EntriesOf(n, dir) == {}
  {
    forall p | p in n && p != [] ensures Parent(p) != dir {
      assert p == Child(Parent(p), p[|p| - 1]);
    }
  }

  lemma TopSettles(n: Nodes, stack: seq<Frame>, visited: set<Path>)
    requires stack != [] && Settled(n, stack, visited) && EntriesOf(n, stack[|stack| - 1].dir) == {}
    ensures Settled(n, stack[..|stack| - 1], visited)
  {}

  // Within an opened directory the last pending entry is one of its names; removing it is refused
  // only when it is not empty.
  lemma PendingEntry(n: Nodes, base: Path, path: Path, stack: seq<Frame>, entries: seq<Path>)
    requires WellFormed(n) && stack != [] && Tied(n, base, path, stack, entries) && Start(stack) < |entries|
    ensures var e := entries[|entries| - 1]; var dir := Current(base, stack);
            && |e| == 1 && dir + e == Child(dir, e[0])
            && RmdirResult(n, dir, e) in {Success, Failure(NoEntity), Failure(NotEmpty)}
  {
    hide Tied, Covers, WellFormed, RmdirResult;
    var e := entries[|entries| - 1];
    TopFrame(n, base, path, stack, entries);
    assert e == entries[Start(stack)..][|entries| - 1 - Start(stack)];
    CoveredEntry(n, Current(base, stack), entries[Start(stack)..], e);
  }

  lemma CoveredEntry(n: Nodes, dir: Path, pending: seq<Path>, e: Path)
    requires WellFormed(n) && Covers(n, dir, pending, []) && e in pending
    ensures |e| == 1 && dir + e == Child(dir, e[0])
    ensures RmdirResult(n, dir, e) in {Success, Failure(NoEntity), Failure(NotEmpty)}
  {
    hide WellFormed;
    assert dir + e == Child(dir, e[0]);
    if Child(dir, e[0]) !in n { MissingEntry(n, dir, e[0]); }
  }

  lemma PopEntry(n: Nodes, base: Path, path: Path, stack: seq<Frame>, entries: seq<Path>)
    requires stack != [] && Tied(n, base, path, stack, entries) && Start(stack) < |entries|
    requires Current(base, stack) + entries[|entries| - 1] !in n
    ensures Tied(n, base, path, stack, entries[..|entries| - 1])
  {
    hide Tied, Covers, Child;
    var start, rest, dir := Start(stack), entries[..|entries| - 1], Current(base, stack);
    TopFrame(n, base, path, stack, entries);
    LastOff(entries, start);
    DropPending(n, dir, rest[start..], entries[|entries| - 1]);
    MakeTied(n, base, path, stack, rest);
  }

  lemma LastOff(s: seq<Path>, start: nat)
    requires start < |s|
    ensures s[..|s| - 1][..start] == s[..start] && s[start..] == s[..|s| - 1][start..] + [s[|s| - 1]]
  {}

  lemma DropPending(n: Nodes, dir: Path, pending: seq<Path>, last: Path)
    requires Covers(n, dir, pending + [last], []) && dir + last !in n
    ensures Covers(n, dir, pending, [])
  {}

  // A directory about to be opened was never opened before: what was opened is on the stack, and so
  // at or above the current directory, or is empty.
  lemma NotOpenedBefore(n: Nodes, base: Path, path: Path, stack: seq<Frame>, entries: seq<Path>,
                        visited: set<Path>, entry: Path)
    requires Tied(n, base, path, stack, entries) && Settled(n, stack, visited) && entry != []
    requires Current(base, stack) + entry in n && EntriesOf(n, Current(base, stack) + entry) != {}
    ensures Current(base, stack) + entry !in visited
  {
    FramesLieAbove(n, base, path, stack, entries);
  }

  lemma PushFrame(n: Nodes, base: Path, path: Path, stack: seq<Frame>, entries: seq<Path>, dir: Path, queued: seq<Path>)
    requires Tied(n, base, path, stack, entries) && Start(stack) < |entries| <= |queued| && entries <= queued
    requires dir == Current(base, stack) + entries[|entries| - 1]
    requires Covers(n, dir, queued[|entries|..], [])
    ensures Tied(n, base, path, stack + [Frame(dir, |entries|)], queued)
  {
    hide Tied, Covers, Child;
    var pushed := stack + [Frame(dir, |entries|)];
    assert pushed[..|pushed| - 1] == stack && queued[..|entries|] == entries;
    MakeTied(n, base, path, pushed, queued);
  }

  // A path that failed to be removed as the root: the tree was never opened.
  lemma RootRefused(n: Nodes, before: Nodes, base: Path, path: Path)
    requires Shrunk(n, before, base + path) && WellFormed(before)
    requires IsDir(before, base + path) || n == before
    requires RmdirResult(n, base, path) == Failure(NotDirectory)
    ensures n == before && RmtreeResult(before, base, path) == Failure(NotDirectory)
  {
    var root := base + path;
    if root !in n {
      var k :| 0 <= k < |root| && root[..k] in n && n[root[..k]] == Other;
      if root in before { PrefixesAreDirs(before, root, k); }
    }
  }

  lemma RootGone(n: Nodes, before: Nodes, base: Path, path: Path)
    requires Shrunk(n, before, base + path) && path != [] && base + path !in n
    requires IsDir(before, base + path) || (n == before && Unresolved(n, base + path) == NoEntity)
    ensures RmtreeResult(before, base, path) == Success && n == Without(before, base + path)
  {
    forall p | p in n ensures !(base + path <= p) {
      if base + path <= p { AncestorExists(n, base + path, p); }
    }
  }

  lemma AncestorExists(n: Nodes, root: Path, p: Path)
    requires WellFormed(n) && p in n && root <= p
    ensures root in n
  {
    assert p[..|root|] == root;
    if |root| < |p| { PrefixesAreDirs(n, p, |root|); } else { assert p == p[..|root|]; }
  }

  // --- Unlinking what is not a directory ---

  ghost predicate OnlyFilesGone(before: Nodes, n: Nodes, dir: Path) {
    && WellFormed(n) && Within(n, before)
    && (forall p :: p in before && p !in n ==> before[p] == Other && p != [] && Parent(p) == dir)
  }

  lemma NothingGone(n: Nodes, dir: Path)
    requires WellFormed(n)
    ensures OnlyFilesGone(n, n, dir)
  {}

  lemma ChildFacts(dir: Path, name: Name)
    ensures Child(dir, name) != [] && Parent(Child(dir, name)) == dir
    ensures forall other: Name :: Child(dir, other) == Child(dir, name) ==> other == name
  {}

  lemma UnlinkOutcome(before: Nodes, n: Nodes, dir: Path, pending: seq<Path>, rest: seq<Name>, name: Name)
    requires OnlyFilesGone(before, n, dir) && Covers(n, dir, pending, rest + [name])
    ensures var p := Child(dir, name);
            if p !in n then Unresolved(n, p) == NoEntity && Covers(n, dir, pending, rest)
            else if n[p] == Directory then Covers(n, dir, pending + [[name]], rest)
            else Covers(n - {p}, dir, pending, rest) && OnlyFilesGone(before, n - {p}, dir)
  {
    hide Child, WellFormed, Covers;
    var p := Child(dir, name);
    if p !in n {
      CoversDir(n, dir, pending, rest + [name]);
      MissingEntry(n, dir, name);
      ForgetName(n, n, dir, pending, rest, name);
    } else if n[p] == Directory {
      QueueName(n, dir, pending, rest, name);
    } else {
      ChildFacts(dir, name);
      FileGone(before, n, dir, name);
      CoversDir(n, dir, pending, rest + [name]);
      ForgetName(n, n - {p}, dir, pending, rest, name);
    }
  }

  lemma CoversDir(n: Nodes, dir: Path, pending: seq<Path>, unknown: seq<Name>)
    requires Covers(n, dir, pending, unknown)
    ensures IsDir(n, dir)
  {}

  lemma ForgetName(n: Nodes, n': Nodes, dir: Path, pending: seq<Path>, rest: seq<Name>, name: Name)
    requires Covers(n, dir, pending, rest + [name]) && Within(n', n) && IsDir(n', dir) && Child(dir, name) !in n'
    ensures Covers(n', dir, pending, rest)
  {}

  lemma QueueName(n: Nodes, dir: Path, pending: seq<Path>, rest: seq<Name>, name: Name)
    requires Covers(n, dir, pending, rest + [name]) && IsDir(n, Child(dir, name))
    ensures Covers(n, dir, pending + [[name]], rest)
  {}

  lemma FileGone(before: Nodes, n: Nodes, dir: Path, name: Name)
    requires OnlyFilesGone(before, n, dir) && Child(dir, name) in n && n[Child(dir, name)] == Other
    requires Child(dir, name) != [] && Parent(Child(dir, name)) == dir
    ensures OnlyFilesGone(before, n - {Child(dir, name)}, dir)
  {}

  // Removing the tree again also succeeds and changes nothing.
  lemma RmtreeAgain(n: Nodes, base: Path, path: Path)
    requires WellFormed(n) && path != [] && RmtreeResult(n, base, path) == Success
    ensures var n' := Without(n, base + path);
            WellFormed(n') && RmtreeResult(n', base, path) == Success && Without(n', base + path) == n'
  {
    var root := base + path;
    var n' := Without(n, root);
    assert base == [] ==> root == path;
    forall p | p in n' && p != [] ensures IsDir(n', Parent(p)) {
      assert root <= Parent(p) ==> root <= p;
    }
    forall k | 0 <= k < |root| && root[..k] in n' ensures n'[root[..k]] == Directory {
      if root in n { PrefixesAreDirs(n, root, k); }
    }
  }

  // --- Every step of the removal ---

  ghost predicate Removing(n: Nodes, before: Nodes, base: Path, path: Path,
                           stack: seq<Frame>, entries: seq<Path>, visited: set<Path>) {
    && WellFormed(before)
    && Shrunk(n, before, base + path)
    && Tied(n, base, path, stack, entries)
    && Settled(n, stack, visited)
    && visited <= before.Keys
    && ((path != [] && IsDir(before, base + path)) || (n == before && stack == []))
  }

  lemma RemovingStarts(n: Nodes, base: Path, path: Path)
    requires WellFormed(n)
    ensures Removing(n, n, base, path, [], [path], {})
  {}

  lemma StackShape(n: Nodes, before: Nodes, base: Path, path: Path,
                   stack: seq<Frame>, entries: seq<Path>, visited: set<Path>)
    requires Removing(n, before, base, path, stack, entries, visited)
    ensures Start(stack) <= |entries| && (stack == [] ==> entries == [path]) && (stack != [] ==> 0 < Start(stack))
    ensures WellFormed(n)
  {
    if stack == [] { LowestEntry(n, base, path, entries); } else { TopFrame(n, base, path, stack, entries); }
  }

  lemma PopFrame(n: Nodes, before: Nodes, base: Path, path: Path,
                 stack: seq<Frame>, entries: seq<Path>, visited: set<Path>)
    requires Removing(n, before, base, path, stack, entries, visited) && stack != [] && Start(stack) == |entries|
    ensures Removing(n, before, base, path, stack[..|stack| - 1], entries, visited)
  {
    hide Tied, Settled, Shrunk, WellFormed;
    TopIsEmpty(n, base, path, stack, entries);
    TopSettles(n, stack, visited);
  }

  // What a removed or missing last entry leaves: the rest of the entries, or the finished tree.
  lemma EntryRemoved(n: Nodes, n': Nodes, before: Nodes, base: Path, path: Path,
                     stack: seq<Frame>, entries: seq<Path>, visited: set<Path>)
    requires Removing(n, before, base, path, stack, entries, visited) && Start(stack) < |entries|
    requires Taken(n, n', Current(base, stack), entries[|entries| - 1])
    ensures stack != [] ==> Removing(n', before, base, path, stack, entries[..|entries| - 1], visited)
    ensures stack == [] ==>
              && entries == [path] && RmtreeResult(before, base, path) == Success && WellFormed(n')
              && n' == if path == [] then before else Without(before, base + path)
  {
    hide Removing, Taken, WellFormed, Without, RmtreeResult;
    StackShape(n, before, base, path, stack, entries, visited);
    if stack == [] {
      RootRemoved(n, n', before, base, path, visited);
    } else {
      PendingRemoved(n, n', before, base, path, stack, entries, visited);
    }
  }

  // The outcome of an rmdir that succeeded or found nothing.
  ghost predicate Taken(n: Nodes, n': Nodes, at: Path, entry: Path) {
    || (RmdirResult(n, at, entry) == Success && n' == n - {at + entry})
    || (RmdirResult(n, at, entry) == Failure(NoEntity) && n' == n)
  }

  lemma TakenFacts(n: Nodes, n': Nodes, before: Nodes, root: Path, at: Path, entry: Path)
    requires Shrunk(n, before, root) && Taken(n, n', at, entry)
    requires entry != [] ==> root <= at + entry
    ensures Shrunk(n', before, root) && Within(n', n)
    ensures entry != [] ==> n' == n - {at + entry} && at + entry !in n'
    ensures entry == [] ==> n' == n
  {}

  lemma RootRemoved(n: Nodes, n': Nodes, before: Nodes, base: Path, path: Path, visited: set<Path>)
    requires Removing(n, before, base, path, [], [path], visited)
    requires Taken(n, n', base, path)
    ensures RmtreeResult(before, base, path) == Success && WellFormed(n')
    ensures n' == if path == [] then before else Without(before, base + path)
  {
    hide Tied, Settled, WellFormed, Without;
    TakenFacts(n, n', before, base + path, base, path);
    if path != [] { RootGone(n', before, base, path); }
  }

  lemma PendingRemoved(n: Nodes, n': Nodes, before: Nodes, base: Path, path: Path,
                       stack: seq<Frame>, entries: seq<Path>, visited: set<Path>)
    requires Removing(n, before, base, path, stack, entries, visited) && stack != [] && Start(stack) < |entries|
    requires Taken(n, n', Current(base, stack), entries[|entries| - 1])
    ensures Removing(n', before, base, path, stack, entries[..|entries| - 1], visited)
  {
    hide Tied, Settled, WellFormed, Taken, Within, Shrunk, RmdirResult;
    var q := Current(base, stack) + entries[|entries| - 1];
    Unshrink(n, before, base + path);
    FramesLieAbove(n, base, path, stack, entries);
    PendingEntry(n, base, path, stack, entries);
    assert base + path <= q;
    TakenFacts(n, n', before, base + path, Current(base, stack), entries[|entries| - 1]);
    TiedInSmaller(n, n', base, path, stack, entries);
    SettledInSmaller(n, n', stack, visited);
    PopEntry(n', base, path, stack, entries);
  }

  lemma Unshrink(n: Nodes, before: Nodes, root: Path)
    requires Shrunk(n, before, root)
    ensures WellFormed(n)
  {}

  lemma EntryRefused(n: Nodes, before: Nodes, base: Path, path: Path,
                     stack: seq<Frame>, entries: seq<Path>, visited: set<Path>)
    requires Removing(n, before, base, path, stack, entries, visited) && Start(stack) < |entries|
    requires RmdirResult(n, Current(base, stack), entries[|entries| - 1]) == Failure(NotDirectory)
    ensures n == before && RmtreeResult(before, base, path) == Failure(NotDirectory)
  {
    hide Tied, Settled, Shrunk, WellFormed, RmdirResult, RmtreeResult;
    StackShape(n, before, base, path, stack, entries, visited);
    if stack != [] { PendingEntry(n, base, path, stack, entries); }
    RootRefused(n, before, base, path);
  }

  lemma NotEmptyDirectory(n: Nodes, before: Nodes, base: Path, path: Path,
                          stack: seq<Frame>, entries: seq<Path>, visited: set<Path>)
    requires Removing(n, before, base, path, stack, entries, visited) && Start(stack) < |entries|
    requires RmdirResult(n, Current(base, stack), entries[|entries| - 1]) == Failure(NotEmpty)
    ensures var q := Current(base, stack) + entries[|entries| - 1];
            IsDir(n, q) && q in before && q !in visited && entries[|entries| - 1] != []
  {
    hide Tied, Settled, WellFormed;
    NotOpenedBefore(n, base, path, stack, entries, visited, entries[|entries| - 1]);
  }

  lemma FramePushed(n: Nodes, n': Nodes, before: Nodes, base: Path, path: Path,
                    stack: seq<Frame>, entries: seq<Path>, visited: set<Path>, all: seq<Path>)
    requires Removing(n, before, base, path, stack, entries, visited) && Start(stack) < |entries|
    requires var q := Current(base, stack) + entries[|entries| - 1];
             && IsDir(n, q) && q in before && entries[|entries| - 1] != [] && OnlyFilesGone(n, n', q)
             && entries <= all && Covers(n', q, all[|entries|..], [])
    ensures var q := Current(base, stack) + entries[|entries| - 1];
            Removing(n', before, base, path, stack + [Frame(q, |entries|)], all, visited + {q})
  {
    hide Tied, Settled, Covers, WellFormed;
    var q := Current(base, stack) + entries[|entries| - 1];
    StackShape(n, before, base, path, stack, entries, visited);
    FramesLieAbove(n, base, path, stack, entries);
    assert base + path <= q;
    TiedInSmaller(n, n', base, path, stack, entries);
    SettledInSmaller(n, n', stack, visited);
    PushFrame(n', base, path, stack, entries, q, all);
    FrameSettles(n', stack, Frame(q, |entries|), visited);
  }

  lemma FrameSettles(n: Nodes, stack: seq<Frame>, f: Frame, visited: set<Path>)
    requires Settled(n, stack, visited)
    ensures Settled(n, stack + [f], visited + {f.dir})
  {}

  // --- The file system and the removal ---

  class FileSystem {
    var nodes: Nodes

    // unlinkat with AT_REMOVEDIR
    method Rmdir(at: Path, entry: Path) returns (r: Result)
      modifies this
      ensures r == RmdirResult(old(nodes), at, entry)
      ensures nodes == if r.Success? then old(nodes) - {at + entry} else old(nodes)
      ensures WellFormed(old(nodes)) && IsDir(old(nodes), at) && entry != [] ==>
                WellFormed(nodes) && (r.Success? <==> IsDir(old(nodes), at + entry) && WellFormed(old(nodes) - {at + entry}))
    {
      hide WellFormed, RmdirResult;
      ghost var n := nodes;
      r := RmdirResult(nodes, at, entry);
      if r.Success? { nodes := nodes - {at + entry}; }
      if WellFormed(n) && IsDir(n, at) && entry != [] { RmdirMeans(n, at, entry); }
    }

    // unlinkat; unlinking a directory reports that it is one.
    method Unlink(at: Path, name: Name) returns (r: Result)
      modifies this
      ensures r == UnlinkResult(old(nodes), at, name)
      ensures nodes == if r.Success? then old(nodes) - {Child(at, name)} else old(nodes)
      ensures WellFormed(old(nodes)) && IsDir(old(nodes), at) ==>
                WellFormed(nodes) && (r.Success? <==> Child(at, name) in old(nodes) && old(nodes)[Child(at, name)] == Other)
    {
      hide WellFormed, UnlinkResult, Child;
      ghost var n := nodes;
      r := UnlinkResult(nodes, at, name);
      if r.Success? { nodes := nodes - {Child(at, name)}; }
      if WellFormed(n) && IsDir(n, at) { UnlinkMeans(n, at, name); }
    }

    // Reads a directory in any order; "." and ".." come along, and any kind may be left unknown.
    method ReadEntries(dir: Path) returns (found: seq<Entry>)
      ensures (exists e :: e in found && e.name == ".") && (exists e :: e in found && e.name == "..")
      ensures forall e :: e in found ==> e.name != ""
      ensures forall e :: e in found && IsName(e.name) ==>
                e.reported == Unknown || (Child(dir, e.name) in nodes && e.reported == Known(nodes[Child(dir, e.name)]))
      ensures forall name: Name :: Child(dir, name) in nodes ==> exists e :: e in found && e.name == name
    {
      var kind := Unknown;
      if * { kind := Known(Directory); }
      var dot, dotDot := Entry(".", kind), Entry("..", kind);
      found := [dot, dotDot];
      var left := EntriesOf(nodes, dir);
      while left != {}
        invariant left <= EntriesOf(nodes, dir)
        invariant dot in found && dotDot in found
        invariant forall e :: e in found ==> e.name != ""
        invariant forall e :: e in found && IsName(e.name) ==>
                    e.reported == Unknown || (Child(dir, e.name) in nodes && e.reported == Known(nodes[Child(dir, e.name)]))
        invariant forall p :: p in EntriesOf(nodes, dir) - left ==> exists e :: e in found && e.name == p[|p| - 1]
        decreases |left|
      {
        var p :| p in left;
        var name := p[|p| - 1];
        assert p == Child(dir, name);
        var reported := Unknown;
        if * { reported := Known(nodes[p]); }
        ghost var sofar := found;
        var e := Entry(name, reported);
        if * { found := found + [e]; } else { found := [e] + found; }
        assert e in found && forall x :: x in sofar ==> x in found;
        left := left - {p};
      }
      forall name: Name | Child(dir, name) in nodes ensures exists e :: e in found && e.name == name {
        HasEntry(nodes, dir, name);
      }
    }

    method OpenDir(at: Path, entry: Path) returns (r: Result, dir: Path)
      ensures r.Success? <==> entry != [] && IsDir(nodes, at + entry)
      ensures r.Success? ==> dir == at + entry
    {
      dir := at + entry;
      r := if entry == [] then Failure(NoEntity)
           else if dir !in nodes then Failure(Unresolved(nodes, dir))
           else if nodes[dir] == Directory then Success else Failure(NotDirectory);
    }

    // Sorts what a directory holds: known directories behind the entries already pending, the rest apart.
    method QueueEntries(dir: Path, entries: seq<Path>) returns (queued: seq<Path>, unknown: seq<Name>)
      requires IsDir(nodes, dir)
      ensures entries <= queued && Covers(nodes, dir, queued[|entries|..], unknown)
    {
      var found := ReadEntries(dir);
      queued, unknown := entries, [];
      ghost var dirs: seq<Path> := [];
      for i := 0 to |found|
        invariant queued == entries + dirs
        invariant forall e :: e in found[..i] && IsName(e.name) ==> [e.name] in dirs || e.name in unknown
        invariant forall d :: d in dirs ==> |d| == 1 && (Child(dir, d[0]) in nodes ==> nodes[Child(dir, d[0])] == Directory)
      {
        var e := found[i];
        ghost var dirs0, unknown0 := dirs, unknown;
        assert found[..i + 1] == found[..i] + [e];
        if e.name == "." || e.name == ".." {
        } else if e.reported == Known(Directory) {
          assert e in found && IsName(e.name);
          queued := queued + [[e.name]];
          dirs := dirs + [[e.name]];
          assert [e.name] in dirs && forall d :: d in dirs0 ==> d in dirs;
        } else {
          unknown := unknown + [e.name];
          assert e.name in unknown && forall u :: u in unknown0 ==> u in unknown;
        }
      }
      assert found[..|found|] == found && queued[|entries|..] == dirs;
    }

    // Unlinks the entries of unknown kind; those that turn out to be directories become pending.
    method UnlinkUnknown(dir: Path, entries: seq<Path>, start: nat, names: seq<Name>) returns (r: Result, queued: seq<Path>)
      requires start <= |entries| && WellFormed(nodes) && Covers(nodes, dir, entries[start..], names)
      modifies this
      ensures r.Success? && entries <= queued && Covers(nodes, dir, queued[start..], [])
      ensures OnlyFilesGone(old(nodes), nodes, dir)
    {
      hide Covers, OnlyFilesGone;
      var unknown := names;
      queued := entries;
      NothingGone(nodes, dir);
      while unknown != []
        invariant entries <= queued && Covers(nodes, dir, queued[start..], unknown)
        invariant OnlyFilesGone(old(nodes), nodes, dir)
        decreases |unknown|
      {
        var name := unknown[|unknown| - 1];
        assert unknown == unknown[..|unknown| - 1] + [name];
        unknown := unknown[..|unknown| - 1];
        ghost var n := nodes;
        r := Unlink(dir, name);
        UnlinkOutcome(old(nodes), n, dir, queued[start..], unknown, name);
        if r.Success? || r.errno == NoEntity {
          continue;
        } else if r.errno != IsDirectory {
          return r, queued;
        }
        assert (queued + [[name]])[start..] == queued[start..] + [[name]];
        queued := queued + [[name]];
      }
      r := Success;
    }

    // Removes the tree named by a path relative to the directory at `base`.
    method Rmtree(base: Path, path: Path) returns (r: Result)
      requires WellFormed(nodes)
      modifies this
      ensures r == RmtreeResult(old(nodes), base, path)
      ensures nodes == if r.Success? && path != [] then Without(old(nodes), base + path) else old(nodes)
      ensures WellFormed(nodes)
    {
      hide Removing, Covers, OnlyFilesGone, WellFormed, Without, RmtreeResult;
      ghost var before := nodes;
      ghost var visited: set<Path> := {};
      var stack: seq<Frame> := [];
      var entries: seq<Path> := [path];
      RemovingStarts(nodes, base, path);
      while true
        invariant Removing(nodes, before, base, path, stack, entries, visited)
        decreases before.Keys - visited, |entries| + |stack|
      {
        var current := Current(base, stack);
        var start := Start(stack);
        StackShape(nodes, before, base, path, stack, entries, visited);
        if start == |entries| {
          PopFrame(nodes, before, base, path, stack, entries, visited);
          stack := stack[..|stack| - 1];
          continue;
        }
        assert start < |entries|;
        var entry := entries[|entries| - 1];
        ghost var n := nodes;
        var removed := Rmdir(current, entry);
        if removed.Success? || removed.errno == NoEntity {
          EntryRemoved(n, nodes, before, base, path, stack, entries, visited);
          entries := entries[..|entries| - 1];
          if entries == [] {
            assert stack == [];
            return Success;
          }
          continue;
        }
        if removed.errno != NotEmpty {
          EntryRefused(n, before, base, path, stack, entries, visited);
          return removed;
        }
        NotEmptyDirectory(n, before, base, path, stack, entries, visited);
        var opening, subdir := OpenDir(current, entry);
        if opening.Failure? {
          return opening;
        }
        var queued, unknown := QueueEntries(subdir, entries);
        var unlinking, all := UnlinkUnknown(subdir, queued, |entries|, unknown);
        if unlinking.Failure? {
          return unlinking;
        }
        FramePushed(n, nodes, before, base, path, stack, entries, visited, all);
        stack := stack + [Frame(subdir, |entries|)];
        entries := all;
        visited := visited + {subdir};
      }
    }
  }
}
