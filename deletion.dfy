/** The two-phase delete: remove the files of a detailed result best-effort, then remove
    the directories that held them, and their ancestors, wherever they are observed
    empty, deepest first. The file system is a map from path to the kind of node there;
    which paths cannot be opened and which cannot be removed are fixed properties of it. */
module Deletion {
  import opened Wrappers
  import opened Paths
  import opened Types

  // ---------------------------------------------------------------------------
  // The file system
  // ---------------------------------------------------------------------------

  datatype Kind = RegularFile | Directory

  /** The errors os.Open, Readdirnames and os.Remove report here. */
  datatype FsError = NotExist | PermissionDenied | DirectoryNotEmpty | NotDirectory

  /** The paths lying directly inside d. */
  function Children(nodes: map<string, Kind>, d: string): set<string>
  {
    set p | p in nodes && p != d && Dir(p) == d
  }

  /** Nothing lies directly inside d. */
  predicate NoEntries(nodes: map<string, Kind>, d: string)
  {
    Children(nodes, d) == {}
  }

  /** Every node but a root lies in a directory that is present. */
  ghost predicate Tree(nodes: map<string, Kind>)
  {
    forall p :: p in nodes && Dir(p) != p ==> Dir(p) in nodes && nodes[Dir(p)] == Directory
  }

  /** isDirEmpty as a query of the tree: opening fails for a missing path or one that
      cannot be opened; reading names fails for anything but a directory; otherwise the
      directory is empty iff nothing lies directly inside it. */
  function IsDirEmpty(nodes: map<string, Kind>, unreadable: set<string>, dir: string): (r: Result<bool, FsError>)
    ensures r == Err(NotExist) <==> dir !in nodes
    ensures r.Ok? <==> dir in nodes && dir !in unreadable && nodes[dir] == Directory
    ensures r == Ok(true) <==> r.Ok? && NoEntries(nodes, dir)
  {
    if dir !in nodes then Err(NotExist)
    else if dir in unreadable then Err(PermissionDenied)
    else if nodes[dir] != Directory then Err(NotDirectory)
    else Ok(NoEntries(nodes, dir))
  }

  /** Why os.Remove(p) fails, if it does: a missing path, one the process may not
      remove, or a directory that still holds something. */
  function RemoveError(nodes: map<string, Kind>, undeletable: set<string>, p: string): (e: Option<FsError>)
    ensures e.None? <==> p in nodes && p !in undeletable && (nodes[p] == Directory ==> NoEntries(nodes, p))
    ensures e == Some(NotExist) <==> p !in nodes
  {
    if p !in nodes then Some(NotExist)
    else if p in undeletable then Some(PermissionDenied)
    else if nodes[p] == Directory && !NoEntries(nodes, p) then Some(DirectoryNotEmpty)
    else None
  }

  /** Removing a leaf keeps the tree a tree. */
  lemma RemoveKeepsTree(nodes: map<string, Kind>, undeletable: set<string>, p: string)
    requires Tree(nodes) && RemoveError(nodes, undeletable, p).None?
    ensures Tree(nodes - {p})
  {
    forall q | q in nodes - {p} && Dir(q) != q
      ensures Dir(q) in nodes - {p} && (nodes - {p})[Dir(q)] == Directory
    {
    }
  }

  /** m holds some of the nodes of nodes, each of the same kind. */
  ghost predicate Submap(m: map<string, Kind>, nodes: map<string, Kind>)
  {
    m.Keys <= nodes.Keys && forall p :: p in m ==> m[p] == nodes[p]
  }

  /** Taking a node out of a submap leaves a submap. */
  lemma SubmapAfterRemoving(m: map<string, Kind>, nodes: map<string, Kind>, p: string)
    requires Submap(m, nodes)
    ensures Submap(m - {p}, nodes)
  {
    assert (m - {p}).Keys <= m.Keys;
  }

  /** A step that either keeps the state or removes one present node and counts it keeps
      the count of removals plus the nodes left constant. */
  lemma CountAfterStep(total: nat, prev: (nat, map<string, Kind>), next: (nat, map<string, Kind>), p: string)
    requires prev.0 + |prev.1.Keys| == total
    requires (next.0 == prev.0 && next.1 == prev.1) || (p in prev.1 && next.0 == prev.0 + 1 && next.1 == prev.1 - {p})
    ensures next.0 + |next.1.Keys| == total && next.0 <= prev.0 + 1
  {
    if next.1 != prev.1 {
      assert (prev.1 - {p}).Keys == prev.1.Keys - {p};
    }
  }

  class FileSystem {
    var nodes: map<string, Kind>
    const unreadable: set<string>
    const undeletable: set<string>

    constructor (nodes: map<string, Kind>, unreadable: set<string>, undeletable: set<string>)
      ensures this.nodes == nodes && this.unreadable == unreadable && this.undeletable == undeletable
    {
      this.nodes := nodes;
      this.unreadable := unreadable;
      this.undeletable := undeletable;
    }

    /** os.Remove(p): a file or an empty directory disappears; otherwise nothing
        changes and the reason is returned. */
    method Remove(p: string) returns (err: Option<FsError>)
      modifies this
      ensures err == RemoveError(old(nodes), undeletable, p)
      ensures nodes == if err.None? then old(nodes) - {p} else old(nodes)
    {
      err := RemoveError(nodes, undeletable, p);
      if err.None? {
        nodes := nodes - {p};
      }
    }
  }

  // ---------------------------------------------------------------------------
  // Phase one: the files
  // ---------------------------------------------------------------------------

  /** The paths of the files named by detailed rows. */
  function EntryPaths(entries: seq<EntryResult>): (paths: seq<string>)
    ensures |paths| == |entries|
    ensures forall i :: 0 <= i < |entries| ==> paths[i] == Join(entries[i].directory, entries[i].fileName)
  {
    seq(|entries|, i requires 0 <= i < |entries| => Join(entries[i].directory, entries[i].fileName))
  }

  /** Removing the first n paths one after the other, skipping failures: how many
      removals succeeded, and the nodes left. */
  function RemoveFirst(nodes: map<string, Kind>, undeletable: set<string>, paths: seq<string>, n: nat): (nat, map<string, Kind>)
    requires n <= |paths|
  {
    if n == 0 then (0, nodes)
    else
      var prev := RemoveFirst(nodes, undeletable, paths, n - 1);
      if RemoveError(prev.1, undeletable, paths[n - 1]).None? then (prev.0 + 1, prev.1 - {paths[n - 1]}) else prev
  }

  /** Removing paths one after the other only takes nodes away and leaves the rest as
      they were. */
  lemma {:induction false} RemoveFirstShrinks(nodes: map<string, Kind>, undeletable: set<string>, paths: seq<string>, n: nat)
    requires n <= |paths|
    ensures Submap(RemoveFirst(nodes, undeletable, paths, n).1, nodes)
  {
    if n > 0 {
      RemoveFirstShrinks(nodes, undeletable, paths, n - 1);
      var prev := RemoveFirst(nodes, undeletable, paths, n - 1);
      if RemoveError(prev.1, undeletable, paths[n - 1]).None? {
        SubmapAfterRemoving(prev.1, nodes, paths[n - 1]);
      }
    }
  }

  /** Only paths it was given disappear. */
  lemma {:induction false} RemoveFirstListed(nodes: map<string, Kind>, undeletable: set<string>, paths: seq<string>, n: nat)
    requires n <= |paths|
    ensures var left := RemoveFirst(nodes, undeletable, paths, n).1;
            forall p :: p in nodes && p !in left ==> p in paths
  {
    if n > 0 {
      RemoveFirstListed(nodes, undeletable, paths, n - 1);
    }
  }

  /** The count is exactly the number of nodes that disappeared, at most one per path. */
  lemma {:induction false} RemoveFirstCounts(nodes: map<string, Kind>, undeletable: set<string>, paths: seq<string>, n: nat)
    requires n <= |paths|
    ensures RemoveFirst(nodes, undeletable, paths, n).0 + |RemoveFirst(nodes, undeletable, paths, n).1.Keys| == |nodes.Keys|
    ensures RemoveFirst(nodes, undeletable, paths, n).0 <= n
  {
    if n > 0 {
      RemoveFirstCounts(nodes, undeletable, paths, n - 1);
      CountAfterStep(|nodes.Keys|, RemoveFirst(nodes, undeletable, paths, n - 1), RemoveFirst(nodes, undeletable, paths, n), paths[n - 1]);
    }
  }

  /** Removing files and empty directories keeps a tree a tree. */
  lemma {:induction false} RemoveFirstKeepsTree(nodes: map<string, Kind>, undeletable: set<string>, paths: seq<string>, n: nat)
    requires n <= |paths| && Tree(nodes)
    ensures Tree(RemoveFirst(nodes, undeletable, paths, n).1)
  {
    if n > 0 {
      RemoveFirstKeepsTree(nodes, undeletable, paths, n - 1);
      var prev := RemoveFirst(nodes, undeletable, paths, n - 1).1;
      if RemoveError(prev, undeletable, paths[n - 1]).None? {
        RemoveKeepsTree(prev, undeletable, paths[n - 1]);
      }
    }
  }

  /** deleteEntryResults: try to remove the file of every row, counting the successes;
      the row's directory is kept for the second phase whether or not its removal worked. */
  method DeleteEntryResults(fs: FileSystem, entries: seq<EntryResult>) returns (deletedCount: nat, directoriesToRemove: seq<string>)
    modifies fs
    ensures directoriesToRemove == EntryDirectories(entries)
    ensures deletedCount == RemoveFirst(old(fs.nodes), fs.undeletable, EntryPaths(entries), |entries|).0
    ensures fs.nodes == RemoveFirst(old(fs.nodes), fs.undeletable, EntryPaths(entries), |entries|).1
  {
    ghost var paths := EntryPaths(entries);
    deletedCount := 0;
    directoriesToRemove := [];
    for i := 0 to |entries|
      invariant directoriesToRemove == EntryDirectories(entries[..i])
      invariant deletedCount == RemoveFirst(old(fs.nodes), fs.undeletable, paths, i).0
      invariant fs.nodes == RemoveFirst(old(fs.nodes), fs.undeletable, paths, i).1
    {
      var entry := entries[i];
      directoriesToRemove := directoriesToRemove + [entry.directory];
      assert directoriesToRemove == EntryDirectories(entries[..i + 1]);
      var filePath := Join(entry.directory, entry.fileName);
      assert filePath == paths[i];
      var err := fs.Remove(filePath);
      if err.None? {
        deletedCount := deletedCount + 1;
      }
    }
    assert entries[..|entries|] == entries;
  }

  /** The directories of detailed rows, in order. */
  function EntryDirectories(entries: seq<EntryResult>): (dirs: seq<string>)
    ensures |dirs| == |entries|
    ensures forall i :: 0 <= i < |entries| ==> dirs[i] == entries[i].directory
  {
    seq(|entries|, i requires 0 <= i < |entries| => entries[i].directory)
  }

  // ---------------------------------------------------------------------------
  // Phase two: the directories
  // ---------------------------------------------------------------------------

  /** The directories the walk d, Dir(d), Dir(Dir(d)), ... passes before it reaches a
      fixed point of Dir, which is left out. */
  function Chain(d: string): set<string>
    decreases Rank(d)
  {
    if Dir(d) == d then {} else {d} + Chain(Dir(d))
  }

  /** The set sortAndFilterDirs builds: every input and the chain of every input. */
  function Closure(directories: seq<string>): set<string>
  {
    if directories == [] then {}
    else Closure(directories[..|directories| - 1]) + {directories[|directories| - 1]} + Chain(directories[|directories| - 1])
  }

  /** x is reached from d by applying Dir one or more times. */
  ghost predicate IsAncestor(x: string, d: string)
    decreases Rank(d)
  {
    Dir(d) != d && (Dir(d) == x || IsAncestor(x, Dir(d)))
  }

  /** A chain holds its start unless that is a fixed point, then the parent of each of
      its members that is not itself a fixed point, and only ancestors besides its start;
      no fixed point of Dir is in it. */
  lemma {:induction false} ChainMembers(d: string, x: string)
    ensures x in Chain(d) ==> Dir(x) != x && (x == d || IsAncestor(x, d))
    ensures x in Chain(d) && Dir(Dir(x)) != Dir(x) ==> Dir(x) in Chain(d)
    ensures x == d && Dir(d) != d ==> x in Chain(d)
    decreases Rank(d)
  {
    if Dir(d) != d {
      ChainMembers(Dir(d), x);
    }
  }

  /** What the closure of the inputs holds: every input; the parent of every member
      unless that parent is a fixed point of Dir; a fixed point of Dir only when it was an
      input; and nothing that is neither an input nor an ancestor of one. */
  lemma {:induction false} ClosureMembers(directories: seq<string>, x: string)
    ensures x in directories ==> x in Closure(directories)
    ensures x in Closure(directories) && Dir(Dir(x)) != Dir(x) ==> Dir(x) in Closure(directories)
    ensures x in Closure(directories) && Dir(x) == x ==> x in directories
    ensures x in Closure(directories) ==> x in directories || exists d :: d in directories && IsAncestor(x, d)
    decreases |directories|
  {
    if directories != [] {
      var init := directories[..|directories| - 1];
      var last := directories[|directories| - 1];
      ClosureMembers(init, x);
      ChainMembers(last, x);
      assert directories == init + [last];
      if x in Closure(directories) && Dir(Dir(x)) != Dir(x) {
        if x in Closure(init) {
          ClosureMembers(init, x);
        } else if x == last {
          ChainMembers(last, x);
        }
      }
    }
  }

  /** The sort order of sortAndFilterDirs: more separators first, then longer first. */
  ghost predicate DeepestFirst(s: seq<string>)
  {
    forall i, j :: 0 <= i < j < |s| ==> !DeeperThan(s[j], s[i])
  }

  /** In a deepest-first list a directory comes before its parent, except a one-character
      relative name, which ties with its parent "." and may come after it. */
  lemma ChildBeforeParent(s: seq<string>, i: nat, j: nat)
    requires DeepestFirst(s)
    requires i < |s| && j < |s| && s[i] == Dir(s[j]) && Dir(s[j]) != s[j]
    ensures j < i || (Separator !in s[j] && |s[j]| < 2)
  {
    ChildDeeperThanDir(s[j]);
  }

  /** s[..i+1] is in deepest-first order once the element at j is set aside. */
  ghost predicate SortedExcept(s: seq<string>, i: nat, j: nat)
    requires i < |s|
  {
    forall p, q :: 0 <= p < q <= i && p != j && q != j ==> !DeeperThan(s[q], s[p])
  }

  /** No element after j, up to i, is deeper than the element at j. */
  ghost predicate Settled(s: seq<string>, i: nat, j: nat)
    requires j <= i < |s|
  {
    forall q :: j < q <= i ==> !DeeperThan(s[q], s[j])
  }

  /** Taking the next element into a sorted prefix starts an insertion at its index. */
  lemma InsertionStart(s: seq<string>, i: nat)
    requires i < |s| && DeepestFirst(s[..i])
    ensures SortedExcept(s, i, i) && Settled(s, i, i)
  {
    assert forall p :: 0 <= p < i ==> s[..i][p] == s[p];
  }

  /** Swapping the inserted element with a shallower left neighbour moves the insertion
      one place to the left. */
  lemma InsertionSwap(s: seq<string>, i: nat, j: nat)
    requires 0 < j <= i < |s|
    requires SortedExcept(s, i, j) && Settled(s, i, j) && DeeperThan(s[j], s[j - 1])
    ensures SortedExcept(s[j - 1 := s[j]][j := s[j - 1]], i, j - 1)
    ensures Settled(s[j - 1 := s[j]][j := s[j - 1]], i, j - 1)
  {
  }

  /** An inserted element no deeper than its left neighbour completes a sorted prefix. */
  lemma InsertionDone(s: seq<string>, i: nat, j: nat)
    requires j <= i < |s|
    requires SortedExcept(s, i, j) && Settled(s, i, j)
    requires j == 0 || !DeeperThan(s[j], s[j - 1])
    ensures DeepestFirst(s[..i + 1])
  {
    forall p, q | 0 <= p < q <= i ensures !DeeperThan(s[q], s[p]) {
      if q == j {
        assert !DeeperThan(s[j], s[j - 1]);
      }
    }
  }

  /** The in-place sort of sortAndFilterDirs, by insertion: afterwards the array is in
      deepest-first order and holds the same strings. */
  method SortDeepestFirst(a: array<string>)
    modifies a
    ensures DeepestFirst(a[..])
    ensures multiset(a[..]) == multiset(old(a[..]))
  {
    for i := 0 to a.Length
      invariant DeepestFirst(a[..i])
      invariant multiset(a[..]) == multiset(old(a[..]))
    {
      InsertionStart(a[..], i);
      var j := i;
      while j > 0 && DeeperThan(a[j], a[j - 1])
        invariant 0 <= j <= i
        invariant multiset(a[..]) == multiset(old(a[..]))
        invariant SortedExcept(a[..], i, j) && Settled(a[..], i, j)
      {
        ghost var before := a[..];
        InsertionSwap(before, i, j);
        a[j - 1], a[j] := a[j], a[j - 1];
        assert a[..] == before[j - 1 := before[j]][j := before[j - 1]];
        j := j - 1;
      }
      InsertionDone(a[..], i, j);
    }
    assert a[..a.Length] == a[..];
  }

  /** sortAndFilterDirs: gather the inputs and their chains into a set, list it, and sort
      the list deepest first. The result holds every member of the closure exactly once
      and nothing else. */
  method SortAndFilterDirs(directories: seq<string>) returns (r: seq<string>)
    ensures multiset(r) == multiset(Closure(directories))
    ensures DeepestFirst(r)
  {
    var dirSet: set<string> := {};
    for k := 0 to |directories|
      invariant dirSet == Closure(directories[..k])
    {
      var dir := directories[k];
      dirSet := dirSet + {dir};
      var d := dir;
      while d != Dir(d)
        invariant dirSet + Chain(d) == Closure(directories[..k]) + {dir} + Chain(dir)
        decreases Rank(d)
      {
        dirSet := dirSet + {d};
        d := Dir(d);
      }
      assert directories[..k + 1][..k] == directories[..k];
    }
    assert directories[..|directories|] == directories;
    var uniqueDirs: seq<string> := [];
    var rest := dirSet;
    while rest != {}
      invariant rest <= dirSet
      invariant multiset(uniqueDirs) + multiset(rest) == multiset(dirSet)
      decreases rest
    {
      var dir :| dir in rest;
      uniqueDirs := uniqueDirs + [dir];
      assert multiset(rest) == multiset(rest - {dir}) + multiset{dir};
      rest := rest - {dir};
    }
    var a := new string[|uniqueDirs|](i requires 0 <= i < |uniqueDirs| => uniqueDirs[i]);
    assert a[..] == uniqueDirs;
    SortDeepestFirst(a);
    r := a[..];
  }

  /** A string at two indices of a sequence occurs in it at least twice. */
  lemma OccurrencesAtTwoIndices(r: seq<string>, i: nat, j: nat)
    requires i < j < |r|
    ensures multiset(r)[r[i]] >= if r[i] == r[j] then 2 else 1
  {
    assert r == r[..i] + [r[i]] + r[i + 1..j] + [r[j]] + r[j + 1..];
  }

  /** A list whose multiset is that of a set holds each member of the set exactly once
      and nothing else: a sortAndFilterDirs result has no duplicates. */
  lemma ListOfSet(r: seq<string>, s: set<string>)
    requires multiset(r) == multiset(s)
    ensures forall i, j :: 0 <= i < j < |r| ==> r[i] != r[j]
    ensures forall d :: d in r <==> d in s
  {
    forall i, j | 0 <= i < j < |r| ensures r[i] != r[j] {
      OccurrencesAtTwoIndices(r, i, j);
    }
    forall d ensures d in r <==> d in s {
      assert d in r <==> d in multiset(r);
    }
  }

  /** The directory could be opened, held nothing, and could be removed. */
  predicate Prunable(nodes: map<string, Kind>, unreadable: set<string>, undeletable: set<string>, dir: string)
  {
    dir in nodes && nodes[dir] == Directory && dir !in unreadable && NoEntries(nodes, dir) && dir !in undeletable
  }

  /** A directory is prunable exactly when isDirEmpty reports it empty and os.Remove
      then succeeds. */
  lemma PrunableIff(nodes: map<string, Kind>, unreadable: set<string>, undeletable: set<string>, dir: string)
    ensures Prunable(nodes, unreadable, undeletable, dir) <==>
              IsDirEmpty(nodes, unreadable, dir) == Ok(true) && RemoveError(nodes, undeletable, dir).None?
  {
  }

  /** Taking the first n directories one after the other, removing each that is observed
      empty and skipping any that cannot be checked or removed: how many were removed,
      and the nodes left. */
  function PruneFirst(nodes: map<string, Kind>, unreadable: set<string>, undeletable: set<string>,
                      directories: seq<string>, n: nat): (nat, map<string, Kind>)
    requires n <= |directories|
  {
    if n == 0 then (0, nodes)
    else
      var prev := PruneFirst(nodes, unreadable, undeletable, directories, n - 1);
      var dir := directories[n - 1];
      if Prunable(prev.1, unreadable, undeletable, dir) then (prev.0 + 1, prev.1 - {dir})
      else prev
  }

  /** One pruning step either changes nothing or removes the directory it checks, which
      was then present, a readable empty directory, and removable. */
  lemma PruneFirstStep(nodes: map<string, Kind>, unreadable: set<string>, undeletable: set<string>,
                       directories: seq<string>, n: nat)
    requires 0 < n <= |directories|
    ensures var prev := PruneFirst(nodes, unreadable, undeletable, directories, n - 1);
            var dir := directories[n - 1];
            var next := PruneFirst(nodes, unreadable, undeletable, directories, n);
            || (next.0 == prev.0 && next.1 == prev.1)
            || (Prunable(prev.1, unreadable, undeletable, dir) && next.0 == prev.0 + 1 && next.1 == prev.1 - {dir})
  {
  }

  /** Pruning only takes nodes away and leaves the rest as they were. */
  lemma {:induction false} PruneFirstShrinks(nodes: map<string, Kind>, unreadable: set<string>, undeletable: set<string>,
                                             directories: seq<string>, n: nat)
    requires n <= |directories|
    ensures Submap(PruneFirst(nodes, unreadable, undeletable, directories, n).1, nodes)
  {
    if n > 0 {
      PruneFirstShrinks(nodes, unreadable, undeletable, directories, n - 1);
      PruneFirstStep(nodes, unreadable, undeletable, directories, n);
      SubmapAfterRemoving(PruneFirst(nodes, unreadable, undeletable, directories, n - 1).1, nodes, directories[n - 1]);
    }
  }

  /** Every node of nodes missing from left is listed. */
  ghost predicate OnlyListedGone(nodes: map<string, Kind>, left: map<string, Kind>, listed: seq<string>)
  {
    forall p :: p in nodes && p !in left ==> p in listed
  }

  /** Every file of nodes is still in left. */
  ghost predicate FilesKept(nodes: map<string, Kind>, left: map<string, Kind>)
  {
    forall p :: p in nodes && nodes[p] == RegularFile ==> p in left && left[p] == RegularFile
  }

  /** A step that keeps the nodes or removes one listed directory gives every node
      that goes a place in the list. */
  lemma ListedAfterStep(nodes: map<string, Kind>, prev: (nat, map<string, Kind>), next: (nat, map<string, Kind>),
                        dir: string, listed: seq<string>)
    requires dir in listed && OnlyListedGone(nodes, prev.1, listed)
    requires (next.0 == prev.0 && next.1 == prev.1) || (next.0 == prev.0 + 1 && next.1 == prev.1 - {dir})
    ensures OnlyListedGone(nodes, next.1, listed)
  {
  }

  /** A step that keeps the nodes or removes one directory keeps every file. */
  lemma FilesAfterStep(nodes: map<string, Kind>, prev: (nat, map<string, Kind>), next: (nat, map<string, Kind>), dir: string)
    requires FilesKept(nodes, prev.1)
    requires (next.0 == prev.0 && next.1 == prev.1) ||
             (dir in prev.1 && prev.1[dir] == Directory && next.0 == prev.0 + 1 && next.1 == prev.1 - {dir})
    ensures FilesKept(nodes, next.1)
  {
  }

  /** Only listed directories disappear. */
  lemma {:induction false} PruneFirstListed(nodes: map<string, Kind>, unreadable: set<string>, undeletable: set<string>,
                                            directories: seq<string>, n: nat)
    requires n <= |directories|
    ensures OnlyListedGone(nodes, PruneFirst(nodes, unreadable, undeletable, directories, n).1, directories)
  {
    if n > 0 {
      PruneFirstListed(nodes, unreadable, undeletable, directories, n - 1);
      PruneFirstStep(nodes, unreadable, undeletable, directories, n);
      ListedAfterStep(nodes, PruneFirst(nodes, unreadable, undeletable, directories, n - 1),
                      PruneFirst(nodes, unreadable, undeletable, directories, n), directories[n - 1], directories);
    }
  }

  /** A file is never pruned. */
  lemma {:induction false} PruneFirstKeepsFiles(nodes: map<string, Kind>, unreadable: set<string>, undeletable: set<string>,
                                                directories: seq<string>, n: nat)
    requires n <= |directories|
    ensures FilesKept(nodes, PruneFirst(nodes, unreadable, undeletable, directories, n).1)
  {
    if n > 0 {
      PruneFirstKeepsFiles(nodes, unreadable, undeletable, directories, n - 1);
      PruneFirstStep(nodes, unreadable, undeletable, directories, n);
      FilesAfterStep(nodes, PruneFirst(nodes, unreadable, undeletable, directories, n - 1),
                     PruneFirst(nodes, unreadable, undeletable, directories, n), directories[n - 1]);
    }
  }

  /** The count is exactly the number of directories that disappeared. */
  lemma {:induction false} PruneFirstCounts(nodes: map<string, Kind>, unreadable: set<string>, undeletable: set<string>,
                                            directories: seq<string>, n: nat)
    requires n <= |directories|
    ensures PruneFirst(nodes, unreadable, undeletable, directories, n).0 +
              |PruneFirst(nodes, unreadable, undeletable, directories, n).1.Keys| == |nodes.Keys|
    ensures PruneFirst(nodes, unreadable, undeletable, directories, n).0 <= n
  {
    if n > 0 {
      PruneFirstCounts(nodes, unreadable, undeletable, directories, n - 1);
      PruneFirstStep(nodes, unreadable, undeletable, directories, n);
      CountAfterStep(|nodes.Keys|, PruneFirst(nodes, unreadable, undeletable, directories, n - 1),
                     PruneFirst(nodes, unreadable, undeletable, directories, n), directories[n - 1]);
    }
  }

  /** The i-th listed directory disappears exactly when, with the ones before it dealt
      with, isDirEmpty reports it empty and os.Remove succeeds on it. */
  lemma PruneFirstRemovesObservedEmpty(nodes: map<string, Kind>, unreadable: set<string>, undeletable: set<string>,
                                       directories: seq<string>, i: nat)
    requires i < |directories|
    ensures var before := PruneFirst(nodes, unreadable, undeletable, directories, i).1;
            var after := PruneFirst(nodes, unreadable, undeletable, directories, i + 1).1;
            var dir := directories[i];
            (dir in before && dir !in after) <==>
              IsDirEmpty(before, unreadable, dir) == Ok(true) && RemoveError(before, undeletable, dir).None?
  {
    PrunableIff(PruneFirst(nodes, unreadable, undeletable, directories, i).1, unreadable, undeletable, directories[i]);
  }

  /** Pruning keeps a tree a tree. */
  lemma {:induction false} PruneFirstKeepsTree(nodes: map<string, Kind>, unreadable: set<string>, undeletable: set<string>,
                                               directories: seq<string>, n: nat)
    requires n <= |directories| && Tree(nodes)
    ensures Tree(PruneFirst(nodes, unreadable, undeletable, directories, n).1)
  {
    if n > 0 {
      PruneFirstKeepsTree(nodes, unreadable, undeletable, directories, n - 1);
      var prev := PruneFirst(nodes, unreadable, undeletable, directories, n - 1).1;
      var dir := directories[n - 1];
      if Prunable(prev, unreadable, undeletable, dir) {
        RemoveKeepsTree(prev, undeletable, dir);
      }
    }
  }

  /** Every node of before missing from after is listed at an index in [i, n). */
  ghost predicate GoneWithin(before: map<string, Kind>, after: map<string, Kind>, listed: seq<string>, i: nat, n: nat)
  {
    forall p :: p in before && p !in after ==> exists j :: i <= j < n && j < |listed| && listed[j] == p
  }

  /** A step that keeps the nodes or removes one node keeps a submap a submap. */
  lemma SubmapAfterStep(base: map<string, Kind>, prev: map<string, Kind>, next: map<string, Kind>, dir: string)
    requires Submap(prev, base)
    requires next == prev || next == prev - {dir}
    ensures Submap(next, base)
  {
    if next != prev {
      SubmapAfterRemoving(prev, base, dir);
    }
  }

  /** A step that keeps the nodes or removes the n-th listed one extends the range of
      indices the vanished nodes are listed at by that index. */
  lemma GoneAfterStep(before: map<string, Kind>, prev: map<string, Kind>, next: map<string, Kind>,
                      listed: seq<string>, i: nat, n: nat)
    requires i <= n < |listed| && GoneWithin(before, prev, listed, i, n)
    requires next == prev || next == prev - {listed[n]}
    ensures GoneWithin(before, next, listed, i, n + 1)
  {
    forall p | p in before && p !in next
      ensures exists j :: i <= j < n + 1 && j < |listed| && listed[j] == p
    {
      if p in prev {
        assert listed[n] == p;
      } else {
        var j :| i <= j < n && j < |listed| && listed[j] == p;
        assert j < n + 1;
      }
    }
  }

  /** From the state after i directories to the state after n: nodes only go, and each
      one that goes is listed at an index in [i, n). */
  lemma {:induction false} PruneFirstBetween(nodes: map<string, Kind>, unreadable: set<string>, undeletable: set<string>,
                                             directories: seq<string>, i: nat, n: nat)
    requires i <= n <= |directories|
    ensures Submap(PruneFirst(nodes, unreadable, undeletable, directories, n).1,
                   PruneFirst(nodes, unreadable, undeletable, directories, i).1)
    ensures GoneWithin(PruneFirst(nodes, unreadable, undeletable, directories, i).1,
                       PruneFirst(nodes, unreadable, undeletable, directories, n).1, directories, i, n)
    decreases n
  {
    var start := PruneFirst(nodes, unreadable, undeletable, directories, i).1;
    if n == i {
      assert Submap(start, start);
    } else {
      PruneFirstBetween(nodes, unreadable, undeletable, directories, i, n - 1);
      PruneFirstStep(nodes, unreadable, undeletable, directories, n);
      var prev := PruneFirst(nodes, unreadable, undeletable, directories, n - 1).1;
      var next := PruneFirst(nodes, unreadable, undeletable, directories, n).1;
      SubmapAfterStep(start, prev, next, directories[n - 1]);
      GoneAfterStep(start, prev, next, directories, i, n - 1);
    }
  }

  /** Pruning in deepest-first order leaves no listed directory prunable: if the i-th
      one is prunable once all are dealt with, something inside it went after it was
      checked, and the only thing the order lets come after its parent is a
      one-character relative name tied with ".". */
  lemma PruneDeepestFirstLeavesOnlyTies(nodes: map<string, Kind>, unreadable: set<string>, undeletable: set<string>,
                                        order: seq<string>, i: nat)
    requires DeepestFirst(order) && i < |order|
    ensures Prunable(PruneFirst(nodes, unreadable, undeletable, order, |order|).1, unreadable, undeletable, order[i]) ==>
              exists j :: && i < j < |order| && Dir(order[j]) == order[i] && Separator !in order[j] && |order[j]| < 2
                          && order[j] !in PruneFirst(nodes, unreadable, undeletable, order, |order|).1
  {
    var before := PruneFirst(nodes, unreadable, undeletable, order, i).1;
    var after := PruneFirst(nodes, unreadable, undeletable, order, i + 1).1;
    var left := PruneFirst(nodes, unreadable, undeletable, order, |order|).1;
    var d := order[i];
    PruneFirstBetween(nodes, unreadable, undeletable, order, i + 1, |order|);
    if Prunable(left, unreadable, undeletable, d) {
      assert d in after;
      assert after == before;
      assert !NoEntries(before, d);
      var c :| c in Children(before, d);
      assert c !in left by {
        assert c !in Children(left, d);
      }
      var j :| i + 1 <= j < |order| && j < |order| && order[j] == c;
      ChildBeforeParent(order, i, j);
      assert Dir(order[j]) == order[i] && Separator !in order[j] && |order[j]| < 2;
    }
  }

  /** The only listed directory a pass can leave prunable is ".", when a one-character
      relative directory, which the sort ties with it, is listed too. On Linux rmdir
      refuses "." anyway; the model admits it unless "." is undeletable. */
  ghost predicate OnlyTieLeft(nodes: map<string, Kind>, unreadable: set<string>, undeletable: set<string>, listed: set<string>)
  {
    forall d :: d in listed && Prunable(nodes, unreadable, undeletable, d) ==>
      d == "." && exists c :: c in listed && c != "." && |c| < 2 && Dir(c) == "."
  }

  /** Pruning a deepest-first listing of a set of directories removes every one of them
      that ends up empty and removable, the tie with "." apart: a parent the pass empties
      is removed too. */
  lemma PruneDeepestFirstCascades(nodes: map<string, Kind>, unreadable: set<string>, undeletable: set<string>,
                                  order: seq<string>, listed: set<string>)
    requires DeepestFirst(order) && multiset(order) == multiset(listed)
    ensures OnlyTieLeft(PruneFirst(nodes, unreadable, undeletable, order, |order|).1, unreadable, undeletable, listed)
  {
    var left := PruneFirst(nodes, unreadable, undeletable, order, |order|).1;
    ListOfSet(order, listed);
    forall d | d in listed && Prunable(left, unreadable, undeletable, d)
      ensures d == "." && exists c :: c in listed && c != "." && |c| < 2 && Dir(c) == "."
    {
      var i :| 0 <= i < |order| && order[i] == d;
      PruneDeepestFirstLeavesOnlyTies(nodes, unreadable, undeletable, order, i);
      var j :| i < j < |order| && Dir(order[j]) == order[i] && Separator !in order[j] && |order[j]| < 2;
      DirOfPlainName(order[j]);
      assert order[j] in listed && order[j] != ".";
    }
  }

  /** deleteEmptyDirectories: remove every listed directory observed empty, skipping
      those that are missing, cannot be checked, are not empty or cannot be removed;
      count the removals; the error it returns is always nil. */
  method DeleteEmptyDirectories(fs: FileSystem, directories: seq<string>) returns (removedCount: nat, err: Option<FsError>)
    modifies fs
    ensures err.None?
    ensures removedCount == PruneFirst(old(fs.nodes), fs.unreadable, fs.undeletable, directories, |directories|).0
    ensures fs.nodes == PruneFirst(old(fs.nodes), fs.unreadable, fs.undeletable, directories, |directories|).1
  {
    removedCount := 0;
    for i := 0 to |directories|
      invariant removedCount == PruneFirst(old(fs.nodes), fs.unreadable, fs.undeletable, directories, i).0
      invariant fs.nodes == PruneFirst(old(fs.nodes), fs.unreadable, fs.undeletable, directories, i).1
    {
      var dir := directories[i];
      var empty := IsDirEmpty(fs.nodes, fs.unreadable, dir);
      PrunableIff(fs.nodes, fs.unreadable, fs.undeletable, dir);
      if empty.Err? {
        continue;
      }
      if empty.value {
        var removeErr := fs.Remove(dir);
        if removeErr.None? {
          removedCount := removedCount + 1;
        }
      }
    }
    return removedCount, None;
  }

  // ---------------------------------------------------------------------------
  // The drivers
  // ---------------------------------------------------------------------------

  /** The result forms a search can hand to the delete: detailed rows or the summary of
      a grouping. */
  datatype ResultList = EntryRows(entries: seq<EntryResult>) | DirectoryRows(rows: seq<DirectoryResult>)

  /** getResultsCount: both forms are slices, so the count is their length. */
  function ResultsCount(results: ResultList): (n: nat)
    ensures results.EntryRows? ==> n == |results.entries|
    ensures results.DirectoryRows? ==> n == |results.rows|
  {
    match results
    case EntryRows(entries) => |entries|
    case DirectoryRows(rows) => |rows|
  }

  /** Why deleteFileBasedOnResults gives up: it only deletes detailed rows. */
  datatype DeleteError = InvalidDataFormat

  /** The counts deleteFileBasedOnResults reports when it finishes. */
  datatype Deleted = Deleted(files: nat, directories: nat)

  /** The delete of the rows went from before to after along order, a deepest-first
      listing of the closure of their directories: the files were removed first, then the
      listed directories pruned in that order, and counts are the two removal counts. */
  ghost predicate DeletedAlong(before: map<string, Kind>, after: map<string, Kind>, unreadable: set<string>,
                               undeletable: set<string>, entries: seq<EntryResult>, order: seq<string>, counts: Deleted)
  {
    && multiset(order) == multiset(Closure(EntryDirectories(entries)))
    && DeepestFirst(order)
    && var files := RemoveFirst(before, undeletable, EntryPaths(entries), |entries|);
       var dirs := PruneFirst(files.1, unreadable, undeletable, order, |order|);
       counts == Deleted(files.0, dirs.0) && after == dirs.1
  }

  /** deleteFileBasedOnResults: only detailed rows are deleted; a summary is refused
      untouched. Files go first, then the closure of their directories, deepest first,
      wherever it is observed empty, so that a directory the pass empties goes too. */
  method DeleteFileBasedOnResults(fs: FileSystem, results: ResultList) returns (r: Result<Deleted, DeleteError>)
    modifies fs
    ensures results.DirectoryRows? ==> r == Err(InvalidDataFormat) && fs.nodes == old(fs.nodes)
    ensures results.EntryRows? ==> r.Ok?
    ensures results.EntryRows? ==>
              exists order: seq<string> ::
                DeletedAlong(old(fs.nodes), fs.nodes, fs.unreadable, fs.undeletable, results.entries, order, r.value)
    ensures results.EntryRows? ==>
              && RemovedOnlyListed(old(fs.nodes), fs.nodes, results.entries)
              && r.value.files + r.value.directories + |fs.nodes.Keys| == |old(fs.nodes).Keys|
              && (Tree(old(fs.nodes)) ==> Tree(fs.nodes))
              && OnlyTieLeft(fs.nodes, fs.unreadable, fs.undeletable, Closure(EntryDirectories(results.entries)))
  {
    if results.DirectoryRows? {
      return Err(InvalidDataFormat);
    }
    var deletedFileCount, directoriesToRemove := DeleteEntryResults(fs, results.entries);
    ghost var afterFiles := fs.nodes;
    directoriesToRemove := SortAndFilterDirs(directoriesToRemove);
    var deletedDirCount, _ := DeleteEmptyDirectories(fs, directoriesToRemove);
    r := Ok(Deleted(deletedFileCount, deletedDirCount));
    DeletionRemovesOnlyListed(old(fs.nodes), fs.unreadable, fs.undeletable, results.entries, directoriesToRemove);
    PruneDeepestFirstCascades(afterFiles, fs.unreadable, fs.undeletable, directoriesToRemove,
                              Closure(EntryDirectories(results.entries)));
    assert DeletedAlong(old(fs.nodes), fs.nodes, fs.unreadable, fs.undeletable, results.entries, directoriesToRemove, r.value);
  }

  /** Going from before to after took away only the files the rows name and directories
      of the closure of their directories, and left every other node as it was. */
  ghost predicate RemovedOnlyListed(before: map<string, Kind>, after: map<string, Kind>, entries: seq<EntryResult>)
  {
    && Submap(after, before)
    && forall p :: p in before && p !in after ==>
         p in EntryPaths(entries) || (p in Closure(EntryDirectories(entries)) && before[p] == Directory)
  }

  /** The safety promise of the delete: a regular file the rows do not name survives,
      and so does the directory that holds it. */
  lemma UnlistedFileKept(before: map<string, Kind>, after: map<string, Kind>, entries: seq<EntryResult>)
    requires RemovedOnlyListed(before, after, entries) && Tree(after)
    ensures forall p :: p in before && before[p] == RegularFile && p !in EntryPaths(entries) ==>
              p in after && (Dir(p) != p ==> Dir(p) in after)
  {
  }

  /** The whole delete takes away only the files the rows name and directories of the
      closure of their directories; what remains is unchanged and still a tree; and the
      two counts it reports add up to the number of nodes that went. */
  lemma DeletionRemovesOnlyListed(nodes: map<string, Kind>, unreadable: set<string>, undeletable: set<string>,
                                  entries: seq<EntryResult>, order: seq<string>)
    requires multiset(order) == multiset(Closure(EntryDirectories(entries)))
    ensures var files := RemoveFirst(nodes, undeletable, EntryPaths(entries), |entries|);
            var dirs := PruneFirst(files.1, unreadable, undeletable, order, |order|);
            && RemovedOnlyListed(nodes, dirs.1, entries)
            && files.0 + dirs.0 + |dirs.1.Keys| == |nodes.Keys|
            && (Tree(nodes) ==> Tree(dirs.1))
  {
    var paths := EntryPaths(entries);
    var files := RemoveFirst(nodes, undeletable, paths, |entries|);
    var dirs := PruneFirst(files.1, unreadable, undeletable, order, |order|);
    RemoveFirstShrinks(nodes, undeletable, paths, |entries|);
    RemoveFirstListed(nodes, undeletable, paths, |entries|);
    RemoveFirstCounts(nodes, undeletable, paths, |entries|);
    PruneFirstShrinks(files.1, unreadable, undeletable, order, |order|);
    PruneFirstListed(files.1, unreadable, undeletable, order, |order|);
    PruneFirstKeepsFiles(files.1, unreadable, undeletable, order, |order|);
    PruneFirstCounts(files.1, unreadable, undeletable, order, |order|);
    ListOfSet(order, Closure(EntryDirectories(entries)));
    forall p | p in nodes && p !in dirs.1
      ensures p in paths || (p in Closure(EntryDirectories(entries)) && nodes[p] == Directory)
    {
      if p in files.1 {
        assert p in order;
        assert files.1[p] != RegularFile;
      }
    }
    if Tree(nodes) {
      RemoveFirstKeepsTree(nodes, undeletable, paths, |entries|);
      PruneFirstKeepsTree(files.1, unreadable, undeletable, order, |order|);
    }
  }

  /** What DeleteFiles did: nothing for an empty result, nothing when the user declined,
      otherwise what deleteFileBasedOnResults returned (which the source discards). */
  datatype Outcome = NothingToDelete | Cancelled | Attempted(result: Result<Deleted, DeleteError>)

  /** DeleteFiles: with no results there is nothing to do; otherwise the deletion runs
      only when the user confirms it. */
  method DeleteFiles(fs: FileSystem, results: ResultList, confirmed: bool) returns (outcome: Outcome)
    modifies fs
    ensures ResultsCount(results) == 0 ==> outcome == NothingToDelete && fs.nodes == old(fs.nodes)
    ensures ResultsCount(results) > 0 && !confirmed ==> outcome == Cancelled && fs.nodes == old(fs.nodes)
    ensures ResultsCount(results) > 0 && confirmed && results.EntryRows? ==>
              && outcome.Attempted? && outcome.result.Ok?
              && (exists order: seq<string> ::
                    DeletedAlong(old(fs.nodes), fs.nodes, fs.unreadable, fs.undeletable, results.entries, order,
                                 outcome.result.value))
              && outcome.result.value.files + outcome.result.value.directories + |fs.nodes.Keys| == |old(fs.nodes).Keys|
              && OnlyTieLeft(fs.nodes, fs.unreadable, fs.undeletable, Closure(EntryDirectories(results.entries)))
    ensures ResultsCount(results) > 0 && confirmed && results.DirectoryRows? ==> outcome == Attempted(Err(InvalidDataFormat))
    ensures results.DirectoryRows? ==> fs.nodes == old(fs.nodes)
    ensures results.EntryRows? ==> RemovedOnlyListed(old(fs.nodes), fs.nodes, results.entries)
    ensures Tree(old(fs.nodes)) ==> Tree(fs.nodes)
  {
    var resultCount := ResultsCount(results);
    if resultCount > 0 {
      if !confirmed {
        return Cancelled;
      }
      var r := DeleteFileBasedOnResults(fs, results);
      return Attempted(r);
    }
    return NothingToDelete;
  }
}
