/** The search engine as the Go code runs it: getFiles walks a listing and hands each
    entry to processFile or processDirectory, which append to shared results and bump
    shared counters; processDirectory runs a whole getFiles below the subdirectory and
    merges what it returns. Each method here is proved to compute what the functions of
    module FileSearch specify, so the properties proved there hold of it. */
module Finder {
  import opened Wrappers
  import opened Paths
  import opened Types
  import opened FileSearch

  /** The state getFiles shares among the tasks of one listing: the detailed rows, the
      grouping, the match count and the total size. */
  class Accumulator {
    var detailedResults: seq<EntryResult>
    var results: map<string, seq<string>>
    var totalCount: int
    var totalFileSize: int

    /** Everything starts out empty. */
    constructor ()
      ensures detailedResults == [] && results == map[] && totalCount == 0 && totalFileSize == 0
    {
      detailedResults := [];
      results := map[];
      totalCount := 0;
      totalFileSize := 0;
    }

    /** The accumulator has recorded exactly the matches s, in the form chosen by
        detailed; the other form is untouched. */
    ghost predicate Holds(lib: Library, detailed: bool, s: seq<Match>)
      reads this
    {
      && totalCount == |s|
      && if detailed then detailedResults == ToEntries(lib, s) && totalFileSize == SumSizes(s) && results == map[]
         else results == Group(s) && detailedResults == [] && totalFileSize == 0
    }

    /** What getFiles returns once its tasks are done: the rows with the count and size,
        or the grouping with the count and a size of 0. */
    function Returned(detailed: bool): (r: Found)
      reads this
      ensures r.totalCount == totalCount
      ensures detailed ==> r.results == Detailed(detailedResults) && r.totalFileSize == totalFileSize
      ensures !detailed ==> r.results == Grouped(results) && r.totalFileSize == 0
    {
      if detailed then Found(Detailed(detailedResults), totalCount, totalFileSize)
      else Found(Grouped(results), totalCount, 0)
    }
  }

  /** An accumulator that has recorded s returns the report of s. */
  lemma ReturnedReport(acc: Accumulator, lib: Library, detailed: bool, s: seq<Match>)
    requires acc.Holds(lib, detailed, s)
    ensures acc.Returned(detailed) == Report(lib, detailed, s)
  {
  }

  /** processFile: the four checks in order; a file that passes them is recorded under
      the directory being listed, as a row with its formatted size (adding the size) or
      as its path appended to that directory's group, and counted once. */
  method ProcessFile(lib: Library, name: string, info: Option<nat>, path: string, ff: FileFinder, fileSize: int, acc: Accumulator)
    modifies acc
    ensures Admit(lib, ff, fileSize, path, name, info).None? ==> unchanged(acc)
    ensures Admit(lib, ff, fileSize, path, name, info).Some? ==>
              var size := Admit(lib, ff, fileSize, path, name, info).value;
              && acc.totalCount == old(acc.totalCount) + 1
              && (ff.displayDetailedResults ==>
                    && acc.detailedResults == old(acc.detailedResults) + [EntryResult(ff.rootDirectory, name, lib.formatSize(size))]
                    && acc.totalFileSize == old(acc.totalFileSize) + size
                    && acc.results == old(acc.results))
              && (!ff.displayDetailedResults ==>
                    && acc.results == Extend(old(acc.results), ff.rootDirectory, [path])
                    && acc.detailedResults == old(acc.detailedResults)
                    && acc.totalFileSize == old(acc.totalFileSize))
  {
    if !lib.isExtensionValid(ff.fileTypeFilter, path) {
      return;
    }
    if info.None? {
      return;
    }
    var size := info.value;
    if ff.fileSizeFilter != "" && !ApplyFileSizeFilter(lib, ff, size, fileSize) {
      return;
    }
    if !ApplyFileNameFilter(lib, ff, name) {
      return;
    }
    if ff.displayDetailedResults {
      acc.detailedResults := acc.detailedResults + [EntryResult(ff.rootDirectory, name, lib.formatSize(size))];
      acc.totalFileSize := acc.totalFileSize + size;
    } else {
      acc.results := Extend(acc.results, ff.rootDirectory, [path]);
    }
    acc.totalCount := acc.totalCount + 1;
  }

  /** The groups of g whose directories are not in pending: those merged so far. */
  ghost function MergedSoFar(g: map<string, seq<string>>, pending: set<string>): map<string, seq<string>>
  {
    map k | k in g.Keys && k !in pending :: g[k]
  }

  /** Appending one more group to a merge is merging it in. */
  lemma {:induction false} MergeOneMore(a: map<string, seq<string>>, g: map<string, seq<string>>, pending: set<string>, dir: string)
    requires dir in pending && dir in g
    ensures Extend(MergeGroups(a, MergedSoFar(g, pending)), dir, g[dir]) == MergeGroups(a, MergedSoFar(g, pending - {dir}))
  {
    var done := MergedSoFar(g, pending);
    ExtendAfterMerge(a, done, dir, g[dir]);
    assert Lookup(done, dir) + g[dir] == g[dir];
    assert Extend(done, dir, g[dir]) == MergedSoFar(g, pending - {dir});
  }

  /** processDirectory: a whole getFiles below the subdirectory, rooted there; a failure
      there is dropped without a trace; otherwise its rows are appended and its size
      added, or each of its groups is appended to the group of the same directory, and
      its count is added. */
  method ProcessDirectory(lib: Library, path: string, ff: FileFinder, node: Node, acc: Accumulator)
    modifies acc
    ensures Search(lib, ff.(rootDirectory := path), node).Err? ==> unchanged(acc)
    ensures Search(lib, ff.(rootDirectory := path), node).Ok? ==>
              var found := Search(lib, ff.(rootDirectory := path), node).value;
              && acc.totalCount == old(acc.totalCount) + found.totalCount
              && (ff.displayDetailedResults ==>
                    && found.results.Detailed?
                    && acc.detailedResults == old(acc.detailedResults) + found.results.rows
                    && acc.totalFileSize == old(acc.totalFileSize) + found.totalFileSize
                    && acc.results == old(acc.results))
              && (!ff.displayDetailedResults ==>
                    && found.results.Grouped?
                    && acc.results == MergeGroups(old(acc.results), found.results.groups)
                    && acc.detailedResults == old(acc.detailedResults)
                    && acc.totalFileSize == old(acc.totalFileSize))
    decreases node, 1
  {
    var subFF := ff.(rootDirectory := path);
    var sub := GetFiles(lib, subFF, node);
    if sub.Err? {
      return;
    }
    var found := sub.value;
    if ff.displayDetailedResults {
      acc.detailedResults := acc.detailedResults + found.results.rows;
      acc.totalFileSize := acc.totalFileSize + found.totalFileSize;
    } else {
      var groups := found.results.groups;
      var pending := groups.Keys;
      assert MergedSoFar(groups, pending) == map[];
      assert MergeGroups(acc.results, map[]) == acc.results by {
        MergeNothing(acc.results);
      }
      while pending != {}
        invariant pending <= groups.Keys
        invariant acc.results == MergeGroups(old(acc.results), MergedSoFar(groups, pending))
        invariant acc.detailedResults == old(acc.detailedResults) && acc.totalFileSize == old(acc.totalFileSize)
        invariant acc.totalCount == old(acc.totalCount)
        decreases pending
      {
        var dir :| dir in pending;
        MergeOneMore(old(acc.results), groups, pending, dir);
        acc.results := Extend(acc.results, dir, groups[dir]);
        pending := pending - {dir};
      }
      assert MergedSoFar(groups, {}) == groups;
    }
    acc.totalCount := acc.totalCount + found.totalCount;
  }

  /** The task getFiles starts for one entry of the directory it lists: the entry's path
      is the listed directory joined with its name; a directory goes to processDirectory,
      anything else to processFile. Having recorded the matches s before, the accumulator
      has recorded s followed by what the walk accepts for the entry. */
  method ProcessEntry(lib: Library, ff: FileFinder, fileSize: int, entry: Entry, acc: Accumulator, ghost s: seq<Match>)
    requires ConvertFileSizeFilter(lib, ff.fileSizeFilter) == Ok(fileSize)
    requires acc.Holds(lib, ff.displayDetailedResults, s)
    modifies acc
    ensures acc.Holds(lib, ff.displayDetailedResults, s + AcceptedEntry(lib, ff, fileSize, ff.rootDirectory, entry))
    decreases entry.node, 2
  {
    var path := Join(ff.rootDirectory, entry.name);
    ghost var t := AcceptedEntry(lib, ff, fileSize, ff.rootDirectory, entry);
    match entry.node {
      case Dir(_, _) =>
        ProcessDirectory(lib, path, ff, entry.node, acc);
        SubsearchReport(lib, ff, fileSize, path, entry.node);
        ReportConcat(lib, ff.displayDetailedResults, s, t);
        if !entry.node.readable {
          assert s + t == s;
        }
      case File(info) =>
        ProcessFile(lib, entry.name, info, path, ff, fileSize, acc);
        if t != [] {
          assert (s + t)[..|s|] == s;
        } else {
          assert s + t == s;
        }
    }
  }

  /** getFiles: read the listing, convert the size filter, run the task of every entry of
      the listing and return what they recorded. It computes exactly the search the
      function Search specifies. */
  method GetFiles(lib: Library, ff: FileFinder, root: Node) returns (r: Result<Found, SearchError>)
    ensures r == Search(lib, ff, root)
    decreases root, 0
  {
    if !root.Dir? || !root.readable {
      return Err(ReadDirFailed(ff.rootDirectory));
    }
    var entries := root.entries;
    var acc := new Accumulator();
    var converted := ConvertFileSizeFilter(lib, ff.fileSizeFilter);
    if converted.Err? {
      return Err(SizeFilterInvalid(converted.error));
    }
    var fileSize := converted.value;
    var detailed := ff.displayDetailedResults;
    var i := 0;
    while i < |entries|
      invariant 0 <= i <= |entries|
      invariant acc.Holds(lib, detailed, AcceptedIn(lib, ff, fileSize, ff.rootDirectory, entries[..i]))
    {
      ProcessEntry(lib, ff, fileSize, entries[i], acc, AcceptedIn(lib, ff, fileSize, ff.rootDirectory, entries[..i]));
      AcceptedInPrefix(lib, ff, fileSize, ff.rootDirectory, entries, i);
      i := i + 1;
    }
    assert entries[..|entries|] == entries;
    ReturnedReport(acc, lib, detailed, AcceptedIn(lib, ff, fileSize, ff.rootDirectory, entries));
    r := Ok(acc.Returned(detailed));
  }

  /** The Count column summed over rows. */
  function SumCounts(rows: seq<DirectoryResult>): int
  {
    if rows == [] then 0 else SumCounts(rows[..|rows| - 1]) + rows[|rows| - 1].count
  }

  /** The directories the rows name. */
  function Directories(rows: seq<DirectoryResult>): set<string>
  {
    if rows == [] then {} else Directories(rows[..|rows| - 1]) + {rows[|rows| - 1].directory}
  }

  /** No directory has two rows. */
  predicate NoDirectoryTwice(rows: seq<DirectoryResult>)
  {
    rows == [] || (NoDirectoryTwice(rows[..|rows| - 1]) && rows[|rows| - 1].directory !in Directories(rows[..|rows| - 1]))
  }

  /** A directory is named by the rows iff some row holds it. */
  lemma {:induction false} DirectoriesMembership(rows: seq<DirectoryResult>, dir: string)
    ensures dir in Directories(rows) <==> exists i :: 0 <= i < |rows| && rows[i].directory == dir
    decreases |rows|
  {
    if rows != [] {
      var init := rows[..|rows| - 1];
      DirectoriesMembership(init, dir);
      if exists i :: 0 <= i < |rows| && rows[i].directory == dir {
        var i :| 0 <= i < |rows| && rows[i].directory == dir;
        if i < |init| {
          assert init[i] == rows[i];
        }
      }
      if exists i :: 0 <= i < |init| && init[i].directory == dir {
        var i :| 0 <= i < |init| && init[i].directory == dir;
        assert rows[i] == init[i];
      }
    }
  }

  /** Rows with no directory twice name as many directories as there are rows, and any
      two of them name different directories. */
  lemma {:induction false} NoDirectoryTwiceDistinct(rows: seq<DirectoryResult>)
    requires NoDirectoryTwice(rows)
    ensures |Directories(rows)| == |rows|
    ensures forall i, j :: 0 <= i < j < |rows| ==> rows[i].directory != rows[j].directory
    decreases |rows|
  {
    if rows != [] {
      var init := rows[..|rows| - 1];
      NoDirectoryTwiceDistinct(init);
      forall i, j | 0 <= i < j < |rows| ensures rows[i].directory != rows[j].directory {
        assert rows[i] == init[i];
        if j < |init| {
          assert rows[j] == init[j];
        } else {
          DirectoriesMembership(init, rows[i].directory);
        }
      }
    }
  }

  /** rows summarise the directories covered of a grouping: they name exactly the
      covered directories, none twice, each with the length of its list, and the counts
      add up to the paths listed under the covered directories. */
  ghost predicate Summarises(results: map<string, seq<string>>, rows: seq<DirectoryResult>, covered: set<string>)
    requires covered <= results.Keys
  {
    && Directories(rows) == covered
    && NoDirectoryTwice(rows)
    && (forall i :: 0 <= i < |rows| ==> rows[i].directory in results && rows[i].count == |results[rows[i].directory]|)
    && SumCounts(rows) == ListedOver(results, covered)
  }

  /** Adding the row of one more pending directory keeps the summary of the
      directories no longer pending. */
  lemma {:induction false} SummarisesStep(results: map<string, seq<string>>, rows: seq<DirectoryResult>, pending: set<string>, dir: string)
    requires pending <= results.Keys && dir in pending
    requires Summarises(results, rows, results.Keys - pending)
    ensures Summarises(results, rows + [DirectoryResult(dir, |results[dir]|)], results.Keys - (pending - {dir}))
  {
    var covered := results.Keys - pending;
    var rows' := rows + [DirectoryResult(dir, |results[dir]|)];
    assert covered + {dir} == results.Keys - (pending - {dir});
    ListedOverRemove(results, covered + {dir}, dir);
    assert covered + {dir} - {dir} == covered;
    assert rows'[..|rows|] == rows;
    forall i | 0 <= i < |rows'|
      ensures rows'[i].directory in results && rows'[i].count == |results[rows'[i].directory]|
    {
      if i < |rows| {
        assert rows'[i] == rows[i];
      }
    }
  }

  /** Once nothing is pending, the summary has one row for each directory of the
      grouping and none for anything else, none twice, and counts that add up to all
      its paths. */
  lemma SummaryComplete(results: map<string, seq<string>>, rows: seq<DirectoryResult>)
    requires Summarises(results, rows, results.Keys - {})
    ensures |rows| == |results.Keys|
    ensures forall i :: 0 <= i < |rows| ==> rows[i].directory in results && rows[i].count == |results[rows[i].directory]|
    ensures Directories(rows) == results.Keys
    ensures forall i, j :: 0 <= i < j < |rows| ==> rows[i].directory != rows[j].directory
    ensures SumCounts(rows) == TotalListed(results)
  {
    assert results.Keys - {} == results.Keys;
    NoDirectoryTwiceDistinct(rows);
  }

  /** processResults: one row per directory of the grouping, with the number of paths
      filed under it, in the map's iteration order (which Go leaves unspecified, so
      nothing is promised about it): no directory twice, none missing, and the counts
      add up to the paths the grouping holds. */
  method ProcessResults(results: map<string, seq<string>>) returns (processed: seq<DirectoryResult>)
    ensures |processed| == |results.Keys|
    ensures forall i :: 0 <= i < |processed| ==>
              processed[i].directory in results && processed[i].count == |results[processed[i].directory]|
    ensures Directories(processed) == results.Keys
    ensures forall i, j :: 0 <= i < j < |processed| ==> processed[i].directory != processed[j].directory
    ensures SumCounts(processed) == TotalListed(results)
  {
    processed := [];
    var pending := results.Keys;
    assert results.Keys - pending == {};
    while pending != {}
      invariant pending <= results.Keys
      invariant Summarises(results, processed, results.Keys - pending)
      decreases pending
    {
      var dir :| dir in pending;
      SummarisesStep(results, processed, pending, dir);
      processed := processed + [DirectoryResult(dir, |results[dir]|)];
      pending := pending - {dir};
    }
    SummaryComplete(results, processed);
  }
}
