# file-finder, modelled in Dafny

file-finder is a command-line tool. It walks a directory tree and lists the files that pass four checks:
- the file's extension, against a file category (video, image, archive, documents, or any);
- whether the file's info can be read;
- a size relation (equal, greater, less, …) against a size text, within a tolerance;
- a case-insensitive substring of the file name.

The tool shows its matches in one of two forms:
- as detailed rows (directory, file name, formatted size);
- grouped by the directory that holds them, with one summary row per directory and the number of files in it.

Only in the detailed form can it delete what it found, and only after the user confirms. It deletes in two phases:
1. It removes the listed files best-effort.
2. It takes the directories that held them together with all their ancestors, sorts them deepest first, and removes each one that is observed empty.

The project models that engine. The modules are:

- `Wrappers`: `Option` and `Result`.
- `Paths`: slash-separated paths, with `filepath.Join` and `filepath.Dir` and the depth measure (the number of `/`) used by the deletion sort.
- `Types`: the `FileType` and `OperatorType` constants with their iota values, the per-category extension table, `DirectoryResult`, `NewVideoFinder`, and the shapes of `FileFinder` and `EntryResult`.
- `Cli`: `ValidateInputs` and the usage suffixes the flag-registration helpers append.
- `FileSearch`: the specification of the search, written as functions.
  - `Search` is getFiles as a function over an immutable directory tree.
  - The per-file checks are `Admit`, `ApplyFileNameFilter`, `ApplyFileSizeFilter` and `ConvertFileSizeFilter`.
  - Lemmas relate the result forms, the counts and the sizes to the files in the tree.
- `Finder`: the search as the code runs it.
  - The shared accumulators form a class, `Accumulator`.
  - `GetFiles`, `ProcessEntry`, `ProcessDirectory` and `ProcessFile` are mutually recursive methods that update it.
  - `GetFiles` is proved to return exactly `FileSearch.Search`.
  - `ProcessResults` builds the summary rows with a loop.
- `Deletion`: the two-phase delete.
  - A `FileSystem` class holds a map from path to node kind. Fixed sets record which paths cannot be opened and which cannot be removed.
  - `DeleteEntryResults`, `SortAndFilterDirs` (including an in-place array sort), `DeleteEmptyDirectories`, `DeleteFileBasedOnResults` and `DeleteFiles` are methods.
  - `DeleteEntryResults` and `DeleteEmptyDirectories` are proved equal to the folds `RemoveFirst` and `PruneFirst`.
  - `SortAndFilterDirs` is proved to return a deepest-first listing of `Closure` with each member once, which is not one fixed list.
  - `DeleteFileBasedOnResults` and `DeleteFiles` are proved equal to `RemoveFirst` then `PruneFirst` for some deepest-first listing of that closure.
  - Lemmas then prove which nodes can disappear.

## Model

| member | source | states |
|---|---|---|
| Types.FileTypeValue | internal/types/types.go:10-17 | Any … Documents take values in 1..5 (0 unused) |
| Types.FileTypeOf | internal/types/types.go:10-17 | an integer names a FileType exactly when it is in 1..5, and that constant's value is the integer |
| Types.FileTypeValueInjective | internal/types/types.go:10-17 | distinct FileType constants have distinct values, and each value names its constant back |
| Types.OperatorTypeValue | internal/types/types.go:20-27 | EqualToType … LessThanEqualToType take values in 1..5 (0 unused) |
| Types.OperatorTypeOf | internal/types/types.go:20-27 | an integer names an OperatorType exactly when it is in 1..5, and that constant's value is the integer |
| Types.OperatorTypeValueInjective | internal/types/types.go:20-27 | distinct OperatorType constants have distinct values, and each value names its constant back |
| Types.FileExtensionsKeys | internal/types/types.go:45-65 | the table has entries for exactly Video, Image, Archive and Documents; Any has none; each entry is the listed set |
| Types.ExtensionsWellFormed | internal/types/types.go:46-64 | every extension key starts with '.', has a character after it, and holds no upper-case letter |
| Types.ExtensionSetsDisjoint | internal/types/types.go:45-65 | the four extension sets are pairwise disjoint |
| Types.FileExtensionsDisjoint | internal/types/types.go:45-65 | two distinct categories of the table share no extension |
| Types.Category | internal/types/types.go:45-65 | the category found for an extension is a table entry holding it; when none is found, no entry holds it |
| Types.LowerAsciiOfLowerCase | internal/utils/utils.go:149 | lower-casing leaves an already lower-case string as it is |
| Types.TableKeysOwnCategory | internal/types/types.go:45-65 | every key of a category's set is its own lower-casing and lies in that category |
| Types.TableAdmitsOneCategory | internal/types/types.go:45-65 | with Any as a wildcard, a table-based check admits an extension for a specific category iff that is the extension's category, so for at most one category |
| Types.LowerAscii | internal/utils/utils.go:149 | lower-casing keeps the length, leaves no upper-case ASCII letter, and changes each character only by mapping A..Z to a..z, so an extension can be compared with the lower-case table keys |
| Types.NewVideoFinder | internal/types/types.go:68-74 | the new record has FileType Video (value 2), OperatorType EqualToType (value 1), an empty Results map, and zero values elsewhere |
| Cli.ValidateInputs | internal/utils/cli/cli.go:44-58 | nil iff the file type and the operator are non-empty and removal comes with the detailed display; it checks file type, then operator, then the flag combination, and the first failure decides the error |
| Cli.AcceptedRemovalIsDetailed | internal/utils/cli/cli.go:53-55 | accepted input asking for removal always asks for the detailed display |
| Cli.BoolFlagUsage | internal/utils/cli/cli.go:12-17 | the registered usage is the given usage followed by "\n", plus " (default false)" when the default is false |
| Cli.PlainFlagUsage | internal/utils/cli/cli.go:34-41 | the string and float64 helpers register the usage with exactly "\n" appended |
| Cli.UsageRoundTrip | internal/utils/cli/cli.go:12-41 | removing the suffix from a registered usage gives back the usage that was passed in |
| Paths.Depth | internal/utils/utils.go:336-337 | strings.Count(p, "/") is at most the string's length, and is 0 iff p holds no separator |
| Paths.DepthSplit | internal/utils/utils.go:336-337 | the separator count of a path is the count in any prefix plus the count in the rest |
| Paths.Dir | internal/utils/utils.go:324 | filepath.Dir is the identity exactly on "." and "/"; anywhere else it strictly shrinks a rank, so the ancestor walk ends |
| Paths.Join | internal/utils/utils.go:97 | a name joined onto a non-trivial directory ends the result, after at least one more character |
| Paths.DirOfJoin | internal/utils/utils.go:97 | Dir undoes Join: a file joined onto a directory lies directly in that directory, with the directory's trailing separators dropped |
| Paths.DirOfPlainName | internal/utils/utils.go:324 | a path without a separator lies in "." |
| Paths.ChildDeeperThanDir | internal/utils/utils.go:336-341 | the sort comparator puts a directory strictly before its parent, except for a one-character relative name, which ties with "." |
| FileSearch.ContainsIff | internal/utils/utils.go:213 | strings.Contains(s, sub) holds iff sub occurs at some position of s |
| FileSearch.ConvertFileSizeFilter | internal/utils/utils.go:115-120 | an empty size filter converts to 0 without error; any other text gets the library parser's result |
| FileSearch.ApplyFileSizeFilter | internal/utils/utils.go:187-194 | the size check passes iff the library's operator/tolerance comparison returns true without error |
| FileSearch.ApplyFileNameFilter | internal/utils/utils.go:197-214 | an empty filter accepts every name; otherwise the check passes iff both names lower-case without error and the lower-cased filter occurs in the lower-cased name |
| FileSearch.Admit | internal/utils/utils.go:148-168 | a file is accepted iff its extension is valid, its info is readable, the size check passes (or no size filter is set) and the name check passes; the size recorded is its own |
| FileSearch.NoFiltersAdmitByExtension | internal/utils/utils.go:148-168 | with no size filter and no name filter, the size converts to 0 and a file is accepted exactly when its extension is valid and its info readable |
| FileSearch.TableCheckedAdmit | internal/utils/utils.go:149-151 | when the extension check is the table applied to the path's lower-cased extension, an accepted file of a specific category has an extension that lower-cases into that category and no other; under Any only the other checks decide |
| FileSearch.UpperCaseVideoExtension | internal/utils/utils.go:149-151 | "clip.MP4" has extension ".MP4", which lower-cases into the Video category |
| FileSearch.Search | internal/utils/utils.go:71-112 | an unreadable root is an error with the root's path and no results; the search fails iff the root cannot be read or the size filter does not convert |
| FileSearch.ToEntriesConcat | internal/utils/utils.go:136-138 | appending sub-results gives the detailed rows of the concatenated matches |
| FileSearch.SumSizesConcat | internal/utils/utils.go:138 | adding a subdirectory's size gives the total of the concatenated matches |
| FileSearch.MergeNothing | internal/utils/utils.go:140-142 | merging in an empty grouping changes nothing |
| FileSearch.LookupMerge | internal/utils/utils.go:140-142 | after a merge, a directory's list is its old list followed by the merged-in list |
| FileSearch.LookupExtend | internal/utils/utils.go:181 | an append changes only the list of its own directory, which starts empty if missing |
| FileSearch.ExtendAfterMerge | internal/utils/utils.go:140-142 | appending to a merged grouping is merging in the extended grouping |
| FileSearch.GroupConcat | internal/utils/utils.go:140-142 | merging in the grouping of later matches gives the grouping of all of them |
| FileSearch.ReportConcat | internal/utils/utils.go:136-144 | merging a subdirectory's report into the parent's adds the counts, concatenates the rows and adds the sizes (detailed), or merges the groupings and keeps size 0 (grouped) |
| FileSearch.ToEntriesLength | internal/utils/utils.go:174-178 | one detailed row per match |
| FileSearch.ToEntriesMembership | internal/utils/utils.go:174-178 | a row is listed iff it is the row of some match |
| FileSearch.ToEntriesAt | internal/utils/utils.go:174-178 | the i-th row is the i-th match's directory and name, with its size formatted |
| FileSearch.GroupKeys | internal/utils/utils.go:181 | a directory is a key of the grouping iff some match lies in it |
| FileSearch.GroupLists | internal/utils/utils.go:181 | a directory's list holds exactly the joined paths of the matches in that directory |
| FileSearch.RecordAddsOne | internal/utils/utils.go:181-183 | recording one match adds exactly one path to the grouping |
| FileSearch.GroupTotal | internal/utils/utils.go:181-183 | a grouping holds exactly one path per match |
| FileSearch.AcceptedMembership | internal/utils/utils.go:93-104 | the walk accepts a file iff it is listed by a readable directory reachable through readable directories and passes the four checks; it is recorded under the directory whose listing holds it |
| FileSearch.AcceptedInMembership | internal/utils/utils.go:93-104 | the same, for the entries of one listing |
| FileSearch.AcceptedEntryMembership | internal/utils/utils.go:97-102 | the same, for one entry: a file entry is recorded under the listed directory; a directory entry is walked at its joined path |
| FileSearch.AcceptedIgnoresRoot | internal/utils/utils.go:126-127 | the copy of the request given to a subdirectory accepts the same files, because the root is not a criterion |
| FileSearch.AcceptedInIgnoresRoot | internal/utils/utils.go:126-127 | the same, for a listing |
| FileSearch.SubsearchReport | internal/utils/utils.go:126-131 | the subsearch fails iff the subdirectory cannot be read, and then the walk accepts nothing there; otherwise it reports what the walk accepts below it |
| FileSearch.AcceptedInPrefix | internal/utils/utils.go:93-104 | listing one more entry adds that entry's accepted files |
| FileSearch.AcceptedInConcat | internal/utils/utils.go:93-104 | the files accepted for two listings together are those of the first followed by those of the second |
| FileSearch.UnreadableEntrySkipped | internal/utils/utils.go:128-131 | an entry for an unreadable directory contributes nothing |
| FileSearch.UnreadableSubdirectoryIsSilent | internal/utils/utils.go:128-131 | a subdirectory that cannot be read changes neither the results nor the totals of its parent's search |
| FileSearch.SearchTotals | internal/utils/utils.go:108-111 | the count is the number of detailed rows or the number of grouped paths; only the detailed form reports a size, the sum of the accepted files' sizes; the grouped size is 0 |
| FileSearch.SearchGroupsByContainingDirectory | internal/utils/utils.go:181 | a grouped search files a path under directory d iff d directly lists an accepted file whose joined path it is |
| FileSearch.SearchDetailsEachFile | internal/utils/utils.go:173-178 | a detailed search holds a row iff the row's directory directly lists an accepted file with that name, and the row holds that file's formatted size |
| Finder.Accumulator.constructor | internal/utils/utils.go:78-83 | the shared results, rows, count and size start empty or zero |
| Finder.Accumulator.Returned | internal/utils/utils.go:108-111 | the detailed rows with the count and size, or the grouping with the count and a size of 0 |
| Finder.ReturnedReport | internal/utils/utils.go:108-111 | an accumulator that has recorded the matches s returns the report of s |
| Finder.ProcessFile | internal/utils/utils.go:148-184 | a rejected file changes nothing; an accepted one is counted once and recorded under ff.RootDirectory, either as a row with its formatted size (adding its size) or as its path appended to that directory's list |
| Finder.MergeOneMore | internal/utils/utils.go:140-142 | appending one more sub-grouping to the parent's list continues the merge |
| Finder.ProcessDirectory | internal/utils/utils.go:122-145 | a failed subsearch changes nothing; otherwise its rows are appended and its size added, or each of its groups is appended to its directory's list, and its count is added |
| Finder.ProcessEntry | internal/utils/utils.go:95-103 | an entry's task leaves the accumulators holding the earlier matches followed by what the walk accepts for that entry |
| Finder.GetFiles | internal/utils/utils.go:71-112 | getFiles returns exactly FileSearch.Search, so every FileSearch lemma holds of it |
| Finder.DirectoriesMembership | internal/utils/utils.go:384-393 | a directory is named by the rows iff some row holds it |
| Finder.NoDirectoryTwiceDistinct | internal/utils/utils.go:384-393 | rows with no directory twice name pairwise different directories, one per row |
| Finder.SummarisesStep | internal/utils/utils.go:386-391 | appending the row of one more directory keeps the rows a summary of the directories done so far |
| Finder.SummaryComplete | internal/utils/utils.go:384-393 | once every directory is done, there is one row per key and none twice, each count is the length of its list, and the counts add up to all the paths |
| Finder.ProcessResults | internal/utils/utils.go:384-393 | one row per directory of the grouping, no directory twice and none missing, Count = len(files), and the counts add up to the paths the grouping holds |
| Deletion.IsDirEmpty | internal/utils/utils.go:347-359 | NotExist iff the path is missing; a result iff the path is a directory that can be opened; true iff that directory has no entries |
| Deletion.RemoveError | internal/utils/utils.go:222 | os.Remove succeeds iff the path exists, may be removed, and is not a non-empty directory; it reports NotExist iff the path is missing |
| Deletion.RemoveKeepsTree | internal/utils/utils.go:222 | a successful removal keeps every remaining node inside a remaining directory |
| Deletion.FileSystem.constructor | internal/utils/utils.go:216-229 | the file system starts with the given nodes and permission sets |
| Deletion.FileSystem.Remove | internal/utils/utils.go:222 | os.Remove: on success exactly that path disappears; on failure nothing changes and the error is RemoveError's |
| Deletion.EntryPaths | internal/utils/utils.go:221 | one path per row: filepath.Join of the row's directory and file name |
| Deletion.RemoveFirstShrinks | internal/utils/utils.go:219-227 | removing the paths only takes nodes away; the rest keep their kind |
| Deletion.RemoveFirstListed | internal/utils/utils.go:219-227 | only paths that were listed disappear |
| Deletion.RemoveFirstCounts | internal/utils/utils.go:219-227 | the deleted count is exactly the number of nodes that disappeared, and at most the number of rows |
| Deletion.RemoveFirstKeepsTree | internal/utils/utils.go:219-227 | removing the files keeps a tree a tree |
| Deletion.DeleteEntryResults | internal/utils/utils.go:216-229 | the directories kept are the rows' directories, one per row, in order, whether it removed the file or not; the count and the new file system are those of removing the rows' paths one after another, skipping failures |
| Deletion.EntryDirectories | internal/utils/utils.go:220 | one directory per row, in order |
| Deletion.ChainMembers | internal/utils/utils.go:324-326 | the ancestor walk from d holds d unless d is a fixed point of Dir, then the parent of each member that is not a fixed point, and otherwise only ancestors of d; never the stopping value |
| Deletion.ClosureMembers | internal/utils/utils.go:320-327 | the set holds every input and the parent of every member unless that parent is a fixed point; a fixed point only when it was an input; and nothing that is neither an input nor an ancestor of one |
| Deletion.ChildBeforeParent | internal/utils/utils.go:335-342 | in the sorted order a directory comes before its parent, unless it is a one-character relative name, which ties with "." |
| Deletion.InsertionStart | internal/utils/utils.go:335-342 | taking the next element into a sorted prefix starts an insertion at its index |
| Deletion.InsertionSwap | internal/utils/utils.go:335-342 | swapping the inserted element with a shallower left neighbour moves the insertion one place to the left |
| Deletion.InsertionDone | internal/utils/utils.go:335-342 | an inserted element no deeper than its left neighbour completes a sorted prefix |
| Deletion.SortDeepestFirst | internal/utils/utils.go:335-342 | the in-place sort leaves the array ordered by separator count descending, then length descending, and holding the same strings |
| Deletion.SortAndFilterDirs | internal/utils/utils.go:319-345 | the result is a list of the inputs and all their ancestors, up to but not including the fixed point of Dir, holding each exactly once (as a multiset), deepest first |
| Deletion.OccurrencesAtTwoIndices | internal/utils/utils.go:329-332 | a string at two indices of a list occurs in it at least twice |
| Deletion.ListOfSet | internal/utils/utils.go:329-332 | a list whose multiset is a set's has no duplicates and holds exactly that set's members |
| Deletion.PrunableIff | internal/utils/utils.go:299-313 | a directory is pruned iff isDirEmpty reports it empty and os.Remove then succeeds |
| Deletion.PruneFirstStep | internal/utils/utils.go:298-315 | each listed directory either leaves state and count alone or is removed and counted, being then a present, readable, empty directory that may be removed |
| Deletion.PruneFirstRemovesObservedEmpty | internal/utils/utils.go:299-313 | the i-th directory disappears iff, after the earlier ones have been handled, isDirEmpty reports it empty and os.Remove succeeds on it |
| Deletion.PruneFirstShrinks | internal/utils/utils.go:298-315 | pruning only takes nodes away |
| Deletion.PruneFirstListed | internal/utils/utils.go:298-315 | only listed directories disappear |
| Deletion.PruneFirstKeepsFiles | internal/utils/utils.go:298-315 | no regular file disappears in the directory phase |
| Deletion.PruneFirstCounts | internal/utils/utils.go:298-315 | the count is exactly the number of directories that disappeared, and at most the number listed |
| Deletion.PruneFirstKeepsTree | internal/utils/utils.go:298-315 | pruning keeps a tree a tree |
| Deletion.PruneFirstBetween | internal/utils/utils.go:298-315 | between the state after i directories and the state after n, nodes only go, and each one that goes is listed at an index from i up to n |
| Deletion.PruneDeepestFirstLeavesOnlyTies | internal/utils/utils.go:296-345 | in deepest-first order, a listed directory that is prunable once all are dealt with means a one-character relative subdirectory of it was listed, and removed, after it |
| Deletion.PruneDeepestFirstCascades | internal/utils/utils.go:296-345 | checking children before parents means the pass leaves no listed directory empty and removable, so a parent the pass empties is removed too; the only exception is "." alongside a listed one-character relative directory |
| Deletion.DeleteEmptyDirectories | internal/utils/utils.go:296-317 | the error is always nil; the count and the new file system are those of pruning the list in order; a directory that is missing, cannot be checked, is not empty or cannot be removed is skipped |
| Deletion.ResultsCount | internal/utils/utils.go:62-68 | the count of a result list is its length, for either form |
| Deletion.DeletionRemovesOnlyListed | internal/utils/utils.go:266-294 | the whole delete takes away only the rows' files and directories of the closure of the rows' directories; everything else stays as it was; the file and directory counts plus the nodes left equal the nodes before; a tree stays a tree |
| Deletion.UnlistedFileKept | internal/utils/utils.go:216-229 | a delete that removes only the listed nodes and leaves a tree keeps every regular file the rows do not name, and the directory that holds it |
| Deletion.DeleteFileBasedOnResults | internal/utils/utils.go:266-294 | summary rows are refused with InvalidDataFormat and nothing changes. Detailed rows always succeed. The new state and the two counts are those of removing the files and then pruning a deepest-first listing of the closure. Only the rows' files and closure directories disappear, the counts account for every node that went, and a tree stays a tree. No closure directory is left empty and removable (apart from the "." tie) |
| Deletion.DeleteFiles | internal/utils/utils.go:362-381 | no results or no confirmation means nothing changes. Confirmed detailed rows are deleted with the exact new state and counts of DeleteFileBasedOnResults, leaving no closure directory empty and removable (apart from the "." tie). Confirmed summary rows give an unchanged InvalidDataFormat. Only listed files and closure directories can disappear, and a tree stays a tree |

## Left out

- Concurrency: the goroutine per entry, the WaitGroup, the mutex and the package-global semaphore are not modelled. The walk is sequential, which is why only order-independent properties of the results are stated: the totals, and which rows and paths appear.
- The order of the detailed rows and of each directory's path list is the listing order of this sequential walk. With goroutines it depends on scheduling, so no lemma treats it as a promise.
- Go map iteration order is unspecified. `ProcessResults`, `ProcessDirectory`'s merge and the listing of the directory set in `SortAndFilterDirs` pick keys in an arbitrary order. Their contracts hold for every order.
- `IsExtensionValid`, `ConvertStringSizeToBytes`, `GetOperatorSizeMatches`, `ToLower` and `FormatSize` come from a library whose code is not part of this model. They are uninterpreted function fields of `FileSearch.Library`, and the float64 tolerance is an opaque `real` passed to the size matcher.
- `FileSearch.TableCheckedAdmit` is the only place the extension table is tied to the extension check, and only as a hypothesis. The library's real check is not part of this model.
- `Paths.Join` and `Paths.Dir` do not perform filepath.Clean in full. They drop trailing separators and treat "" and "." as no directory, but do not resolve "." or ".." elements or repeated inner separators.
- Only the Unix separator "/" is modelled.
- The sizes and counts of the source are 64-bit integers; the model uses unbounded integers. No overflow is possible for real file trees.
- Symbolic links are not modelled: an entry is a file or a directory, as `entry.IsDir()` says.
- `processDirectory` converts the size filter again in its subsearch. `FileSearch.SubsearchReport` covers this under the hypothesis that the first conversion succeeded, because the conversion is a pure function of the same text.
- User-interface output is not modelled: the progress bar, the spinner, the interactive confirmation (it becomes the boolean `confirmed`), error and info messages, the result tables, FindAndDisplayFiles and formatResultHyperLink. `Deletion.DeleteFiles` returns an `Outcome` so that what happened can be observed, while the source returns nothing.
- The reflection in `getResultsCount` and the type switch in `deleteFileBasedOnResults` are replaced by the two-variant `ResultList`. The branch for a value that is not a slice therefore cannot arise; the source logs it and carries on with a count of 0.
- The error branch after `deleteEmptyDirectories` in `deleteFileBasedOnResults` is not in the model. `Deletion.DeleteEmptyDirectories` proves that error is always nil, so the branch cannot be taken.
- The `os.IsNotExist` distinction in `deleteEmptyDirectories` decides only whether a message is logged. Both paths skip the directory, as modelled.
- File-system permission errors are fixed per path: one set of paths that cannot be opened, one that cannot be removed. Other I/O failures are not modelled.
- `Deletion.SortDeepestFirst`: sort.SliceStable is modelled as an insertion sort that is stable, but stability is not stated. Its input comes from iterating a map, so the relative order of ties is unspecified anyway.
- `Deletion.DeepestFirst` compares lengths in characters, while Go's `len` counts UTF-8 bytes. Two directories of the same depth whose names hold non-ASCII characters may therefore be ordered differently from Go. In general neither is then an ancestor of the other, so which directories are pruned does not change. The one exception is "." against a one-character relative name such as "é": Go always checks "é" first, because it is two bytes long, while the model may check "." first and leave it.
- `Deletion.FileSystem.Remove` lets "." be removed whenever it is not in `undeletable`. Linux's rmdir always refuses ".", so on a real run the "." exception that `Deletion.OnlyTieLeft` allows never arises. Give "." as undeletable to model that.
- TableCheckedAdmit: the extension is lower-cased in ASCII only (`Types.LowerAscii`). Case folding of other characters is not modelled; the table's keys are all ASCII.
- Ties are possible in that sort: for example, a one-character relative directory, ASCII or not, ties with ".". Such ties are left in the order the pass produces (see `Deletion.ChildBeforeParent`).
- The commented-out `deleteDirectoryResults` is dead code and is not modelled.
- The viper-formatted texts of the `ValidateInputs` errors are reduced to which rule failed.
- Cobra flag registration, and the panic of `RegisterStringFlag` on a non-pointer target, are not modelled. Only the usage text is.
- The command setup in cli/cmd/root.go, file-finder.go and app/cmd/finder/file-finder.go is not part of this model. Its checks repeat `ValidateInputs`.
- The older app/cmd/file-finder.go is not part of this model.
- The terminal-size helpers are not part of this model.
- The `internal/types/types.go` shown here is an older revision that lacks `FileFinder` and `EntryResult`. Their fields are taken from how `internal/utils/utils.go` uses them.
- In `FileFinder`, the file-type and operator filters are the names the command line resolved, kept as strings.
- The tests in types_test.go belong to a later revision: string-valued constants, and a table entry for Any. Their claims are not modelled.
- The tests in utils_test.go exercise library functions that are not part of this model.
