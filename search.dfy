/** The search engine: a walk of a directory tree that records every file passing the
    extension, info, size and name checks, either as detailed rows or grouped by the
    directory holding it, together with a match count and a total size; and the summary
    of a grouping into one row per directory.

    The walk is modelled sequentially. The source runs one task per directory entry and
    merges into shared accumulators under a mutex; only the totals and the membership of
    the result collections are independent of that interleaving, and those are what the
    lemmas here state. */
module FileSearch {
  import opened Wrappers
  import opened Paths
  import opened Types

  // ---------------------------------------------------------------------------
  // The directory tree and the external library
  // ---------------------------------------------------------------------------

  /** What the walk sees at a path. A file's info is None when entry.Info() fails; a
      directory that is not readable is one whose os.ReadDir fails. */
  datatype Node =
    | File(info: Option<nat>)
    | Dir(readable: bool, entries: seq<Entry>)

  /** A named entry of a directory listing. */
  datatype Entry = Entry(name: string, node: Node)

  /** The library functions the engine calls without their bodies being part of this
      model: the extension check, the size-string parser, the operator/tolerance size
      matcher, lower-casing and size formatting. */
  datatype Library = Library(
    isExtensionValid: (string, string) -> bool,
    convertStringSizeToBytes: string -> Result<int, string>,
    getOperatorSizeMatches: (string, int, real, int) -> Result<bool, string>,
    toLower: string -> Result<string, string>,
    formatSize: int -> string)

  /** Why a search returns no results at all. */
  datatype SearchError = ReadDirFailed(path: string) | SizeFilterInvalid(reason: string)

  /** The two result forms, selected once per search by displayDetailedResults. */
  datatype Results =
    | Grouped(groups: map<string, seq<string>>)
    | Detailed(rows: seq<EntryResult>)

  /** A completed search: its results, how many matches, and their total size in bytes
      (always 0 for a grouped search). */
  datatype Found = Found(results: Results, totalCount: int, totalFileSize: int)

  /** One accepted file: the directory it lies in, its name and its size. */
  datatype Match = Match(directory: string, fileName: string, size: nat)

  // ---------------------------------------------------------------------------
  // The per-file checks
  // ---------------------------------------------------------------------------

  /** strings.Contains(s, sub): sub occurs in s. */
  predicate Contains(s: string, sub: string)
    decreases |s|
  {
    sub <= s || (s != [] && Contains(s[1..], sub))
  }

  /** sub occurs in s at position i. */
  ghost predicate OccursAt(s: string, sub: string, i: int)
  {
    0 <= i && i + |sub| <= |s| && s[i..i + |sub|] == sub
  }

  /** Contains finds sub exactly when sub occurs at some position of s. */
  lemma {:induction false} ContainsIff(s: string, sub: string)
    ensures Contains(s, sub) <==> exists i :: OccursAt(s, sub, i)
    decreases |s|
  {
    if sub <= s {
      assert OccursAt(s, sub, 0);
    } else if s != [] {
      ContainsIff(s[1..], sub);
      if exists i :: OccursAt(s[1..], sub, i) {
        var i :| OccursAt(s[1..], sub, i);
        assert s[i + 1..i + 1 + |sub|] == s[1..][i..i + |sub|];
        assert OccursAt(s, sub, i + 1);
      }
      if exists i :: OccursAt(s, sub, i) {
        var i :| OccursAt(s, sub, i);
        assert s[1..][i - 1..i - 1 + |sub|] == s[i..i + |sub|];
        assert OccursAt(s[1..], sub, i - 1);
      }
    }
  }

  /** convertFileSizeFilter: an empty size filter stands for 0 bytes and cannot fail;
      any other text is parsed by the library. */
  function ConvertFileSizeFilter(lib: Library, fileSizeFilter: string): (r: Result<int, string>)
    ensures fileSizeFilter == "" ==> r == Ok(0)
    ensures fileSizeFilter != "" ==> r == lib.convertStringSizeToBytes(fileSizeFilter)
  {
    if fileSizeFilter == "" then Ok(0) else lib.convertStringSizeToBytes(fileSizeFilter)
  }

  /** applyFileSizeFilter: the size matches when the library's operator/tolerance
      comparison succeeds and says so; a comparison error rejects the file. */
  function ApplyFileSizeFilter(lib: Library, ff: FileFinder, size: int, fileSize: int): (r: bool)
    ensures r <==> lib.getOperatorSizeMatches(ff.operatorTypeFilter, fileSize, ff.toleranceSize, size) == Ok(true)
  {
    match lib.getOperatorSizeMatches(ff.operatorTypeFilter, fileSize, ff.toleranceSize, size)
    case Ok(matches) => matches
    case Err(_) => false
  }

  /** applyFileNameFilter: an empty filter admits every name; otherwise the lower-cased
      name must contain the lower-cased filter, and a lower-casing error rejects. */
  function ApplyFileNameFilter(lib: Library, ff: FileFinder, fileName: string): (r: bool)
    ensures ff.fileNameFilter == "" ==> r
    ensures ff.fileNameFilter != "" ==>
              (r <==> && lib.toLower(fileName).Ok?
                      && lib.toLower(ff.fileNameFilter).Ok?
                      && exists i :: OccursAt(lib.toLower(fileName).value, lib.toLower(ff.fileNameFilter).value, i))
  {
    if ff.fileNameFilter == "" then true
    else match lib.toLower(fileName)
      case Err(_) => false
      case Ok(lowerEntryName) =>
        match lib.toLower(ff.fileNameFilter)
        case Err(_) => false
        case Ok(lowerFileNameFilter) =>
          ContainsIff(lowerEntryName, lowerFileNameFilter);
          Contains(lowerEntryName, lowerFileNameFilter)
  }

  /** The decision processFile takes on a file entry, checks in the source's order
      (extension of the joined path, info, size unless no size filter is set, name):
      the size it records, or None when a check rejects the file. */
  function Admit(lib: Library, ff: FileFinder, fileSize: int, path: string, name: string, info: Option<nat>): (r: Option<nat>)
    ensures r.Some? <==>
              && lib.isExtensionValid(ff.fileTypeFilter, path)
              && info.Some?
              && (ff.fileSizeFilter == "" || ApplyFileSizeFilter(lib, ff, info.value, fileSize))
              && ApplyFileNameFilter(lib, ff, name)
    ensures r.Some? ==> r == info
  {
    if !lib.isExtensionValid(ff.fileTypeFilter, path) then None
    else if info.None? then None
    else if ff.fileSizeFilter != "" && !ApplyFileSizeFilter(lib, ff, info.value, fileSize) then None
    else if !ApplyFileNameFilter(lib, ff, name) then None
    else info
  }

  /** With neither a size nor a name filter, a file is admitted exactly when its extension
      is valid and its info can be read. */
  lemma NoFiltersAdmitByExtension(lib: Library, ff: FileFinder, path: string, name: string, info: Option<nat>)
    requires ff.fileSizeFilter == "" && ff.fileNameFilter == ""
    ensures ConvertFileSizeFilter(lib, ff.fileSizeFilter) == Ok(0)
    ensures Admit(lib, ff, 0, path, name, info) ==
              if lib.isExtensionValid(ff.fileTypeFilter, path) then info else None
  {
  }

  /** When the library's extension check is the table of category t applied to the
      path's lower-cased extension, an admitted file of a specific category has an
      extension that lower-cases to one of that category and of no other; Any admits by
      extension alone. */
  lemma TableCheckedAdmit(lib: Library, ff: FileFinder, fileSize: int, path: string, name: string,
                          info: Option<nat>, t: FileType)
    requires lib.isExtensionValid(ff.fileTypeFilter, path) == TableAdmits(t, LowerAscii(Ext(path)))
    ensures Admit(lib, ff, fileSize, path, name, info).Some? && t != Any ==> Category(LowerAscii(Ext(path))) == Some(t)
    ensures t == Any ==>
              (Admit(lib, ff, fileSize, path, name, info).Some? <==>
                 && info.Some?
                 && (ff.fileSizeFilter == "" || ApplyFileSizeFilter(lib, ff, info.value, fileSize))
                 && ApplyFileNameFilter(lib, ff, name))
  {
    TableAdmitsOneCategory(t, LowerAscii(Ext(path)));
  }

  /** The extension of "clip.MP4" is ".MP4". */
  lemma ExtOfUpperCaseName()
    ensures Ext("clip.MP4") == ".MP4"
  {
    var p := "clip.MP4";
    assert p[..5] == "clip." && Ext(p[..5]) == ".";
    assert p[..6][..5] == p[..5] && Ext(p[..6]) == ".M";
    assert p[..7][..6] == p[..6] && Ext(p[..7]) == ".MP";
    assert p[..7] == p[..|p| - 1];
  }

  /** An upper-case video extension belongs to the video category once lower-cased. */
  lemma UpperCaseVideoExtension()
    ensures Ext("clip.MP4") == ".MP4"
    ensures Category(LowerAscii(".MP4")) == Some(Video)
  {
    ExtOfUpperCaseName();
    var e := ".MP4";
    assert e[..3] == ".MP" && e[..2] == ".M" && e[..1] == ".";
    assert LowerAscii(e) == ".mp4";
  }

  // ---------------------------------------------------------------------------
  // The specification of the walk
  // ---------------------------------------------------------------------------

  /** The files the walk accepts below a node reached at path dir, in listing order:
      an unreadable directory contributes nothing, as does a file given as the node
      itself (the source only walks directories). */
  function Accepted(lib: Library, ff: FileFinder, fileSize: int, dir: string, node: Node): seq<Match>
    decreases node
  {
    match node
    case File(_) => []
    case Dir(readable, entries) => if readable then AcceptedIn(lib, ff, fileSize, dir, entries) else []
  }

  /** The files accepted below the listed entries of the directory at path dir. */
  function AcceptedIn(lib: Library, ff: FileFinder, fileSize: int, dir: string, entries: seq<Entry>): seq<Match>
    decreases entries
  {
    if entries == [] then []
    else AcceptedIn(lib, ff, fileSize, dir, entries[..|entries| - 1])
         + AcceptedEntry(lib, ff, fileSize, dir, entries[|entries| - 1])
  }

  /** The files accepted for one entry of the directory at path dir: the entry itself when
      it is an admitted file, recorded under dir; the walk below it when it is a directory. */
  function AcceptedEntry(lib: Library, ff: FileFinder, fileSize: int, dir: string, e: Entry): seq<Match>
    decreases e
  {
    var path := Join(dir, e.name);
    match e.node
    case Dir(_, _) => Accepted(lib, ff, fileSize, path, e.node)
    case File(info) =>
      match Admit(lib, ff, fileSize, path, e.name, info)
      case Some(size) => [Match(dir, e.name, size)]
      case None => []
  }

  /** The detailed rows of a sequence of matches. */
  function ToEntries(lib: Library, s: seq<Match>): seq<EntryResult>
  {
    if s == [] then []
    else ToEntries(lib, s[..|s| - 1]) + [ToEntry(lib, s[|s| - 1])]
  }

  function ToEntry(lib: Library, m: Match): EntryResult
  {
    EntryResult(m.directory, m.fileName, lib.formatSize(m.size))
  }

  /** The total size of a sequence of matches. */
  function SumSizes(s: seq<Match>): int
  {
    if s == [] then 0 else SumSizes(s[..|s| - 1]) + s[|s| - 1].size
  }

  /** The list a grouping holds for a directory; a missing directory holds nothing. */
  function Lookup(groups: map<string, seq<string>>, dir: string): seq<string>
  {
    if dir in groups then groups[dir] else []
  }

  /** A grouping with files appended to the list of dir, which a missing directory
      starts out empty (Go's append to a nil slice). */
  function Extend(groups: map<string, seq<string>>, dir: string, files: seq<string>): map<string, seq<string>>
  {
    groups[dir := Lookup(groups, dir) + files]
  }

  /** A grouping with one more match: its joined path filed under its directory. */
  function Record(groups: map<string, seq<string>>, m: Match): map<string, seq<string>>
  {
    Extend(groups, m.directory, [Join(m.directory, m.fileName)])
  }

  /** The grouping of a sequence of matches, recorded in order. */
  function Group(s: seq<Match>): map<string, seq<string>>
  {
    if s == [] then map[] else Record(Group(s[..|s| - 1]), s[|s| - 1])
  }

  /** Each directory's list of a with its list of b appended. */
  function MergeGroups(a: map<string, seq<string>>, b: map<string, seq<string>>): map<string, seq<string>>
  {
    map k | k in a.Keys + b.Keys :: Lookup(a, k) + Lookup(b, k)
  }

  /** What a search reports for the accepted matches s, in the selected form. */
  function Report(lib: Library, detailed: bool, s: seq<Match>): Found
  {
    if detailed then Found(Detailed(ToEntries(lib, s)), |s|, SumSizes(s))
    else Found(Grouped(Group(s)), |s|, 0)
  }

  /** getFiles as a function: reading the root directory fails first, then converting
      the size filter; otherwise the report of everything accepted below the root. */
  function Search(lib: Library, ff: FileFinder, root: Node): (r: Result<Found, SearchError>)
    ensures !root.Dir? || !root.readable ==> r == Err(ReadDirFailed(ff.rootDirectory))
    ensures r.Err? <==> !root.Dir? || !root.readable || ConvertFileSizeFilter(lib, ff.fileSizeFilter).Err?
  {
    if !root.Dir? || !root.readable then Err(ReadDirFailed(ff.rootDirectory))
    else match ConvertFileSizeFilter(lib, ff.fileSizeFilter)
      case Err(reason) => Err(SizeFilterInvalid(reason))
      case Ok(fileSize) => Ok(Report(lib, ff.displayDetailedResults, Accepted(lib, ff, fileSize, ff.rootDirectory, root)))
  }

  // ---------------------------------------------------------------------------
  // Algebra of the result forms
  // ---------------------------------------------------------------------------

  lemma {:induction false} ToEntriesConcat(lib: Library, s: seq<Match>, t: seq<Match>)
    ensures ToEntries(lib, s + t) == ToEntries(lib, s) + ToEntries(lib, t)
    decreases |t|
  {
    if t == [] {
      assert s + t == s;
    } else {
      var t', x := t[..|t| - 1], t[|t| - 1];
      ToEntriesConcat(lib, s, t');
      assert (s + t)[..|s + t| - 1] == s + t';
      assert (s + t)[|s + t| - 1] == x;
      calc {
        ToEntries(lib, s + t);
        ToEntries(lib, s + t') + [ToEntry(lib, x)];
        (ToEntries(lib, s) + ToEntries(lib, t')) + [ToEntry(lib, x)];
        ToEntries(lib, s) + (ToEntries(lib, t') + [ToEntry(lib, x)]);
        ToEntries(lib, s) + ToEntries(lib, t);
      }
    }
  }

  lemma {:induction false} SumSizesConcat(s: seq<Match>, t: seq<Match>)
    ensures SumSizes(s + t) == SumSizes(s) + SumSizes(t)
    decreases |t|
  {
    if t == [] {
      assert s + t == s;
    } else {
      SumSizesConcat(s, t[..|t| - 1]);
      assert (s + t)[..|s + t| - 1] == s + t[..|t| - 1];
    }
  }

  /** Merging in nothing leaves a grouping as it is. */
  lemma MergeNothing(g: map<string, seq<string>>)
    ensures MergeGroups(g, map[]) == g
  {
    var r := MergeGroups(g, map[]);
    assert r.Keys == g.Keys;
    forall k | k in g ensures r[k] == g[k] {
      assert Lookup(map[], k) == [];
    }
  }

  /** The list a merge holds for a directory is the two lists joined. */
  lemma LookupMerge(a: map<string, seq<string>>, b: map<string, seq<string>>, k: string)
    ensures k in MergeGroups(a, b) <==> k in a || k in b
    ensures Lookup(MergeGroups(a, b), k) == Lookup(a, k) + Lookup(b, k)
  {
  }

  /** Extending a grouping changes the list of its directory only, by appending. */
  lemma LookupExtend(g: map<string, seq<string>>, d: string, files: seq<string>, k: string)
    ensures k in Extend(g, d, files) <==> k in g || k == d
    ensures Lookup(Extend(g, d, files), k) == if k == d then Lookup(g, d) + files else Lookup(g, k)
  {
  }

  /** Extending a merge is merging in the extended second grouping. */
  lemma {:induction false} ExtendAfterMerge(a: map<string, seq<string>>, b: map<string, seq<string>>, d: string, files: seq<string>)
    ensures Extend(MergeGroups(a, b), d, files) == MergeGroups(a, Extend(b, d, files))
  {
    var lhs, rhs := Extend(MergeGroups(a, b), d, files), MergeGroups(a, Extend(b, d, files));
    forall k ensures k in lhs <==> k in rhs && (k in lhs ==> lhs[k] == rhs[k]) {
      LookupExtend(MergeGroups(a, b), d, files, k);
      LookupMerge(a, b, k);
      LookupMerge(a, Extend(b, d, files), k);
      LookupExtend(b, d, files, k);
      if k in lhs {
        assert lhs[k] == Lookup(lhs, k);
        assert rhs[k] == Lookup(rhs, k);
      }
    }
  }

  /** Merging in the grouping of later matches is the grouping of all of them. */
  lemma {:induction false} GroupConcat(s: seq<Match>, t: seq<Match>)
    ensures Group(s + t) == MergeGroups(Group(s), Group(t))
    decreases |t|
  {
    if t == [] {
      assert s + t == s;
      MergeNothing(Group(s));
    } else {
      var t', x := t[..|t| - 1], t[|t| - 1];
      GroupConcat(s, t');
      assert (s + t)[..|s + t| - 1] == s + t';
      assert (s + t)[|s + t| - 1] == x;
      ExtendAfterMerge(Group(s), Group(t'), x.directory, [Join(x.directory, x.fileName)]);
    }
  }

  /** Merging the report of later matches into the report of earlier ones gives the
      report of all of them: counts add; detailed rows append and their sizes add;
      groupings merge and the size stays 0. */
  lemma {:induction false} ReportConcat(lib: Library, detailed: bool, s: seq<Match>, t: seq<Match>)
    ensures Report(lib, detailed, s + t).totalCount ==
              Report(lib, detailed, s).totalCount + Report(lib, detailed, t).totalCount
    ensures detailed ==>
              && Report(lib, detailed, s + t).results ==
                   Detailed(Report(lib, detailed, s).results.rows + Report(lib, detailed, t).results.rows)
              && Report(lib, detailed, s + t).totalFileSize ==
                   Report(lib, detailed, s).totalFileSize + Report(lib, detailed, t).totalFileSize
    ensures !detailed ==>
              && Report(lib, detailed, s + t).results ==
                   Grouped(MergeGroups(Report(lib, detailed, s).results.groups, Report(lib, detailed, t).results.groups))
              && Report(lib, detailed, s + t).totalFileSize == 0
  {
    if detailed {
      ToEntriesConcat(lib, s, t);
      SumSizesConcat(s, t);
    } else {
      GroupConcat(s, t);
    }
  }

  /** There is one detailed row per match. */
  lemma {:induction false} ToEntriesLength(lib: Library, s: seq<Match>)
    ensures |ToEntries(lib, s)| == |s|
    decreases |s|
  {
    if s != [] {
      ToEntriesLength(lib, s[..|s| - 1]);
    }
  }

  /** A row is detailed iff it is the row of one of the matches. */
  lemma {:induction false} ToEntriesMembership(lib: Library, s: seq<Match>, row: EntryResult)
    ensures row in ToEntries(lib, s) <==> exists m :: m in s && row == ToEntry(lib, m)
    decreases |s|
  {
    if s != [] {
      var s', last := s[..|s| - 1], s[|s| - 1];
      ToEntriesMembership(lib, s', row);
      assert s == s' + [last];
      if exists m :: m in s && row == ToEntry(lib, m) {
        var m :| m in s && row == ToEntry(lib, m);
        if m != last {
          assert m in s';
        }
      }
    }
  }

  /** The i-th detailed row is the i-th match with its size formatted. */
  lemma {:induction false} ToEntriesAt(lib: Library, s: seq<Match>, i: nat)
    requires i < |s|
    ensures |ToEntries(lib, s)| == |s|
    ensures ToEntries(lib, s)[i] == EntryResult(s[i].directory, s[i].fileName, lib.formatSize(s[i].size))
    decreases |s|
  {
    if s != [] && i < |s| - 1 {
      ToEntriesAt(lib, s[..|s| - 1], i);
    } else if |s| > 1 {
      ToEntriesAt(lib, s[..|s| - 1], 0);
    }
  }

  /** A directory is a key of a grouping iff some match lies in it. */
  lemma {:induction false} GroupKeys(s: seq<Match>, dir: string)
    ensures dir in Group(s) <==> exists m :: m in s && m.directory == dir
    decreases |s|
  {
    if s != [] {
      var s', last := s[..|s| - 1], s[|s| - 1];
      GroupKeys(s', dir);
      LookupExtend(Group(s'), last.directory, [Join(last.directory, last.fileName)], dir);
      assert Group(s) == Extend(Group(s'), last.directory, [Join(last.directory, last.fileName)]);
      assert s == s' + [last];
      if dir in Group(s) {
        if last.directory != dir {
          var m :| m in s' && m.directory == dir;
          assert m in s;
        }
      } else {
        forall m | m in s ensures m.directory != dir {
          if m != last {
            assert m in s';
          }
        }
      }
    }
  }

  /** A directory's list holds exactly the joined paths of the matches lying in it. */
  lemma {:induction false} GroupLists(s: seq<Match>, dir: string, path: string)
    ensures path in Lookup(Group(s), dir) <==>
              exists m :: m in s && m.directory == dir && path == Join(dir, m.fileName)
    decreases |s|
  {
    if s != [] {
      var s', last := s[..|s| - 1], s[|s| - 1];
      GroupLists(s', dir, path);
      LookupExtend(Group(s'), last.directory, [Join(last.directory, last.fileName)], dir);
      assert s == s' + [last];
      if exists m :: m in s && m.directory == dir && path == Join(dir, m.fileName) {
        var m :| m in s && m.directory == dir && path == Join(dir, m.fileName);
        if m != last {
          assert m in s';
        }
      }
    }
  }

  /** The sum of the list lengths of a grouping over a set of its directories. */
  ghost function ListedOver(groups: map<string, seq<string>>, keys: set<string>): nat
    requires keys <= groups.Keys
  {
    if keys == {} then 0
    else var k :| k in keys; |groups[k]| + ListedOver(groups, keys - {k})
  }

  /** The number of paths a grouping holds, over all its directories. */
  ghost function TotalListed(groups: map<string, seq<string>>): nat
  {
    ListedOver(groups, groups.Keys)
  }

  /** ListedOver may take its directories in any order. */
  lemma {:induction false} ListedOverRemove(groups: map<string, seq<string>>, keys: set<string>, k: string)
    requires keys <= groups.Keys && k in keys
    ensures ListedOver(groups, keys) == |groups[k]| + ListedOver(groups, keys - {k})
    decreases keys
  {
    var j :| j in keys && ListedOver(groups, keys) == |groups[j]| + ListedOver(groups, keys - {j});
    if j != k {
      ListedOverRemove(groups, keys - {j}, k);
      ListedOverRemove(groups, keys - {k}, j);
      assert keys - {j} - {k} == keys - {k} - {j};
    }
  }

  /** ListedOver only reads the lists of the directories it sums over. */
  lemma {:induction false} ListedOverAgree(g: map<string, seq<string>>, h: map<string, seq<string>>, keys: set<string>)
    requires keys <= g.Keys && keys <= h.Keys
    requires forall k :: k in keys ==> |g[k]| == |h[k]|
    ensures ListedOver(g, keys) == ListedOver(h, keys)
    decreases keys
  {
    if keys != {} {
      var k :| k in keys && ListedOver(g, keys) == |g[k]| + ListedOver(g, keys - {k});
      ListedOverRemove(h, keys, k);
      ListedOverAgree(g, h, keys - {k});
    }
  }

  /** Recording one match adds exactly one path to a grouping. */
  lemma RecordAddsOne(groups: map<string, seq<string>>, m: Match)
    ensures TotalListed(Record(groups, m)) == TotalListed(groups) + 1
  {
    var g := Record(groups, m);
    var d := m.directory;
    ListedOverRemove(g, g.Keys, d);
    ListedOverAgree(g, groups, groups.Keys - {d});
    assert g.Keys - {d} == groups.Keys - {d};
    if d in groups {
      ListedOverRemove(groups, groups.Keys, d);
    } else {
      assert groups.Keys - {d} == groups.Keys;
    }
  }

  /** A grouping holds one path per match. */
  lemma {:induction false} GroupTotal(s: seq<Match>)
    ensures TotalListed(Group(s)) == |s|
    decreases |s|
  {
    if s == [] {
      assert TotalListed(map[]) == 0;
    } else {
      GroupTotal(s[..|s| - 1]);
      RecordAddsOne(Group(s[..|s| - 1]), s[|s| - 1]);
    }
  }

  // ---------------------------------------------------------------------------
  // Properties of the search
  // ---------------------------------------------------------------------------

  /** A file below the node reached at path dir: a file entry named name with info info
      listed by the readable directory at path d, which is dir or lies below it through
      readable directories. */
  ghost predicate Located(dir: string, node: Node, d: string, name: string, info: Option<nat>)
    decreases node
  {
    match node
    case File(_) => false
    case Dir(readable, entries) =>
      readable && exists i :: 0 <= i < |entries| && LocatedAt(dir, entries[i], d, name, info)
  }

  ghost predicate LocatedAt(dir: string, e: Entry, d: string, name: string, info: Option<nat>)
    decreases e
  {
    match e.node
    case File(i) => d == dir && e.name == name && i == info
    case Dir(_, _) => Located(Join(dir, e.name), e.node, d, name, info)
  }

  /** The walk accepts a file exactly when it lies below the node and passes the checks,
      and it records the file under the directory whose listing holds it. */
  lemma {:induction false} AcceptedMembership(lib: Library, ff: FileFinder, fileSize: int, dir: string, node: Node, m: Match)
    ensures m in Accepted(lib, ff, fileSize, dir, node) <==>
              && Located(dir, node, m.directory, m.fileName, Some(m.size))
              && Admit(lib, ff, fileSize, Join(m.directory, m.fileName), m.fileName, Some(m.size)).Some?
    decreases node, 1
  {
    match node
    case File(_) =>
    case Dir(readable, entries) =>
      if readable {
        AcceptedInMembership(lib, ff, fileSize, dir, entries, m);
      }
  }

  lemma {:induction false} AcceptedInMembership(lib: Library, ff: FileFinder, fileSize: int, dir: string, entries: seq<Entry>, m: Match)
    ensures m in AcceptedIn(lib, ff, fileSize, dir, entries) <==>
              && (exists i :: 0 <= i < |entries| && LocatedAt(dir, entries[i], m.directory, m.fileName, Some(m.size)))
              && Admit(lib, ff, fileSize, Join(m.directory, m.fileName), m.fileName, Some(m.size)).Some?
    decreases entries, 0
  {
    if entries != [] {
      var init := entries[..|entries| - 1];
      var last := entries[|entries| - 1];
      AcceptedInMembership(lib, ff, fileSize, dir, init, m);
      AcceptedEntryMembership(lib, ff, fileSize, dir, last, m);
      var here := LocatedAt(dir, last, m.directory, m.fileName, Some(m.size));
      if exists i :: 0 <= i < |entries| && LocatedAt(dir, entries[i], m.directory, m.fileName, Some(m.size)) {
        var i :| 0 <= i < |entries| && LocatedAt(dir, entries[i], m.directory, m.fileName, Some(m.size));
        if i < |entries| - 1 {
          assert init[i] == entries[i];
        }
      }
      if exists i :: 0 <= i < |init| && LocatedAt(dir, init[i], m.directory, m.fileName, Some(m.size)) {
        var i :| 0 <= i < |init| && LocatedAt(dir, init[i], m.directory, m.fileName, Some(m.size));
        assert entries[i] == init[i];
      }
      if here {
        assert entries[|entries| - 1] == last;
      }
    }
  }

  lemma {:induction false} AcceptedEntryMembership(lib: Library, ff: FileFinder, fileSize: int, dir: string, e: Entry, m: Match)
    ensures m in AcceptedEntry(lib, ff, fileSize, dir, e) <==>
              && LocatedAt(dir, e, m.directory, m.fileName, Some(m.size))
              && Admit(lib, ff, fileSize, Join(m.directory, m.fileName), m.fileName, Some(m.size)).Some?
    decreases e
  {
    match e.node
    case Dir(_, _) =>
      AcceptedMembership(lib, ff, fileSize, Join(dir, e.name), e.node, m);
    case File(info) =>
  }

  /** The copy of the request handed to a subdirectory differs only in its root, and the
      root is not among the criteria: it accepts the same files. */
  lemma {:induction false} AcceptedIgnoresRoot(lib: Library, ff: FileFinder, root: string, fileSize: int, dir: string, node: Node)
    ensures Accepted(lib, ff.(rootDirectory := root), fileSize, dir, node) == Accepted(lib, ff, fileSize, dir, node)
    decreases node, 1
  {
    match node
    case File(_) =>
    case Dir(readable, entries) =>
      if readable {
        AcceptedInIgnoresRoot(lib, ff, root, fileSize, dir, entries);
      }
  }

  lemma {:induction false} AcceptedInIgnoresRoot(lib: Library, ff: FileFinder, root: string, fileSize: int, dir: string, entries: seq<Entry>)
    ensures AcceptedIn(lib, ff.(rootDirectory := root), fileSize, dir, entries) == AcceptedIn(lib, ff, fileSize, dir, entries)
    decreases entries, 0
  {
    if entries != [] {
      var last := entries[|entries| - 1];
      AcceptedInIgnoresRoot(lib, ff, root, fileSize, dir, entries[..|entries| - 1]);
      match last.node
      case Dir(_, _) =>
        AcceptedIgnoresRoot(lib, ff, root, fileSize, Join(dir, last.name), last.node);
      case File(_) =>
    }
  }

  /** The search processDirectory runs below a subdirectory at path, with the request
      rerooted there: it fails only when the subdirectory cannot be listed, in which case
      the walk accepts nothing below it; otherwise it reports what the walk accepts below
      it. */
  lemma SubsearchReport(lib: Library, ff: FileFinder, fileSize: int, path: string, node: Node)
    requires ConvertFileSizeFilter(lib, ff.fileSizeFilter) == Ok(fileSize)
    ensures Search(lib, ff.(rootDirectory := path), node).Err? <==> !node.Dir? || !node.readable
    ensures Search(lib, ff.(rootDirectory := path), node).Err? ==> Accepted(lib, ff, fileSize, path, node) == []
    ensures Search(lib, ff.(rootDirectory := path), node).Ok? ==>
              Search(lib, ff.(rootDirectory := path), node).value ==
                Report(lib, ff.displayDetailedResults, Accepted(lib, ff, fileSize, path, node))
  {
    AcceptedIgnoresRoot(lib, ff, path, fileSize, path, node);
  }

  /** Listing one more entry adds what the walk accepts for that entry. */
  lemma AcceptedInPrefix(lib: Library, ff: FileFinder, fileSize: int, dir: string, entries: seq<Entry>, i: nat)
    requires i < |entries|
    ensures AcceptedIn(lib, ff, fileSize, dir, entries[..i + 1]) ==
              AcceptedIn(lib, ff, fileSize, dir, entries[..i]) + AcceptedEntry(lib, ff, fileSize, dir, entries[i])
  {
    assert entries[..i + 1][..i] == entries[..i];
  }

  /** The files accepted below a concatenation of listings are those below the first
      followed by those below the second. */
  lemma {:induction false} AcceptedInConcat(lib: Library, ff: FileFinder, fileSize: int, dir: string, a: seq<Entry>, b: seq<Entry>)
    ensures AcceptedIn(lib, ff, fileSize, dir, a + b) == AcceptedIn(lib, ff, fileSize, dir, a) + AcceptedIn(lib, ff, fileSize, dir, b)
    decreases |b|
  {
    if b == [] {
      assert a + b == a;
    } else {
      var b' := b[..|b| - 1];
      AcceptedInConcat(lib, ff, fileSize, dir, a, b');
      assert (a + b)[..|a + b| - 1] == a + b';
      assert (a + b)[|a + b| - 1] == b[|b| - 1];
    }
  }

  /** An entry for a directory whose listing fails contributes nothing. */
  lemma {:induction false} UnreadableEntrySkipped(lib: Library, ff: FileFinder, fileSize: int, dir: string, a: seq<Entry>, e: Entry, b: seq<Entry>)
    requires e.node.Dir? && !e.node.readable
    ensures AcceptedIn(lib, ff, fileSize, dir, a + [e] + b) == AcceptedIn(lib, ff, fileSize, dir, a + b)
  {
    AcceptedInConcat(lib, ff, fileSize, dir, a + [e], b);
    AcceptedInConcat(lib, ff, fileSize, dir, a, [e]);
    AcceptedInConcat(lib, ff, fileSize, dir, a, b);
    assert Accepted(lib, ff, fileSize, Join(dir, e.name), e.node) == [];
    assert AcceptedEntry(lib, ff, fileSize, dir, e) == [];
    assert [e][..0] == [];
  }

  /** A subdirectory whose listing fails is skipped silently: the search gives exactly
      what it gives without that entry, results and totals alike. */
  lemma {:induction false} UnreadableSubdirectoryIsSilent(lib: Library, ff: FileFinder, entries: seq<Entry>, i: nat)
    requires i < |entries| && entries[i].node.Dir? && !entries[i].node.readable
    ensures Search(lib, ff, Dir(true, entries)) == Search(lib, ff, Dir(true, entries[..i] + entries[i + 1..]))
  {
    var a, e, b := entries[..i], entries[i], entries[i + 1..];
    assert entries == a + [e] + b;
    if ConvertFileSizeFilter(lib, ff.fileSizeFilter).Ok? {
      UnreadableEntrySkipped(lib, ff, ConvertFileSizeFilter(lib, ff.fileSizeFilter).value, ff.rootDirectory, a, e, b);
    }
  }

  /** A completed search counts one per recorded file: the number of detailed rows, or
      the number of paths over all groups; only a detailed search reports a size, the
      sum of the sizes of the files it accepted. */
  lemma {:induction false} SearchTotals(lib: Library, ff: FileFinder, root: Node)
    requires Search(lib, ff, root).Ok?
    ensures var found := Search(lib, ff, root).value;
            var s := Accepted(lib, ff, ConvertFileSizeFilter(lib, ff.fileSizeFilter).value, ff.rootDirectory, root);
            if ff.displayDetailedResults then
              found.results.Detailed? && found.totalCount == |found.results.rows| && found.totalFileSize == SumSizes(s)
            else
              found.results.Grouped? && found.totalCount == TotalListed(found.results.groups) && found.totalFileSize == 0
  {
    var s := Accepted(lib, ff, ConvertFileSizeFilter(lib, ff.fileSizeFilter).value, ff.rootDirectory, root);
    if ff.displayDetailedResults {
      ToEntriesLength(lib, s);
    } else {
      GroupTotal(s);
    }
  }

  /** A grouped search files path under directory d exactly when d lists a file that
      passes the checks and path is that file's joined path. */
  lemma {:induction false} SearchGroupsByContainingDirectory(lib: Library, ff: FileFinder, root: Node, d: string, path: string)
    requires Search(lib, ff, root).Ok? && !ff.displayDetailedResults
    ensures var fileSize := ConvertFileSizeFilter(lib, ff.fileSizeFilter).value;
            path in Lookup(Search(lib, ff, root).value.results.groups, d) <==>
              exists name, size: nat :: && Located(ff.rootDirectory, root, d, name, Some(size))
                                        && Admit(lib, ff, fileSize, Join(d, name), name, Some(size)).Some?
                                        && path == Join(d, name)
  {
    var fileSize := ConvertFileSizeFilter(lib, ff.fileSizeFilter).value;
    var s := Accepted(lib, ff, fileSize, ff.rootDirectory, root);
    GroupLists(s, d, path);
    if path in Lookup(Group(s), d) {
      var m :| m in s && m.directory == d && path == Join(d, m.fileName);
      AcceptedMembership(lib, ff, fileSize, ff.rootDirectory, root, m);
    }
    if exists name, size: nat :: && Located(ff.rootDirectory, root, d, name, Some(size))
                                 && Admit(lib, ff, fileSize, Join(d, name), name, Some(size)).Some?
                                 && path == Join(d, name) {
      var name, size: nat :| && Located(ff.rootDirectory, root, d, name, Some(size))
                             && Admit(lib, ff, fileSize, Join(d, name), name, Some(size)).Some?
                             && path == Join(d, name);
      AcceptedMembership(lib, ff, fileSize, ff.rootDirectory, root, Match(d, name, size));
    }
  }

  /** A detailed search holds a row exactly when the row's directory lists a file that
      passes the checks, under the file's own name and with its size formatted. */
  lemma {:induction false} SearchDetailsEachFile(lib: Library, ff: FileFinder, root: Node, row: EntryResult)
    requires Search(lib, ff, root).Ok? && ff.displayDetailedResults
    ensures var fileSize := ConvertFileSizeFilter(lib, ff.fileSizeFilter).value;
            row in Search(lib, ff, root).value.results.rows <==>
              exists name, size: nat :: && Located(ff.rootDirectory, root, row.directory, name, Some(size))
                                        && Admit(lib, ff, fileSize, Join(row.directory, name), name, Some(size)).Some?
                                        && row == EntryResult(row.directory, name, lib.formatSize(size))
  {
    var fileSize := ConvertFileSizeFilter(lib, ff.fileSizeFilter).value;
    var s := Accepted(lib, ff, fileSize, ff.rootDirectory, root);
    ToEntriesMembership(lib, s, row);
    if row in ToEntries(lib, s) {
      var m :| m in s && row == ToEntry(lib, m);
      AcceptedMembership(lib, ff, fileSize, ff.rootDirectory, root, m);
    }
    if exists name, size: nat :: && Located(ff.rootDirectory, root, row.directory, name, Some(size))
                                 && Admit(lib, ff, fileSize, Join(row.directory, name), name, Some(size)).Some?
                                 && row == EntryResult(row.directory, name, lib.formatSize(size)) {
      var name, size: nat :| && Located(ff.rootDirectory, root, row.directory, name, Some(size))
                             && Admit(lib, ff, fileSize, Join(row.directory, name), name, Some(size)).Some?
                             && row == EntryResult(row.directory, name, lib.formatSize(size));
      AcceptedMembership(lib, ff, fileSize, ff.rootDirectory, root, Match(row.directory, name, size));
    }
  }
}
