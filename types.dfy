/** The shared value types of the finder: the file-type and size-operator enumerations
    with their iota numbering, the per-category extension table, the records the search
    produces, and the search request itself. */
module Types {
  import opened Wrappers

  /** The file categories a search can be restricted to. */
  datatype FileType = Any | Video | Image | Archive | Documents

  /** The relational operators a size filter can use. */
  datatype OperatorType =
    | EqualToType
    | GreaterThanType
    | GreaterThanEqualToType
    | LessThanType
    | LessThanEqualToType

  /** The integer a FileType constant stands for: iota numbering from 1, 0 left unused. */
  function FileTypeValue(t: FileType): (v: int)
    ensures 1 <= v <= 5
  {
    match t
    case Any => 1
    case Video => 2
    case Image => 3
    case Archive => 4
    case Documents => 5
  }

  /** The FileType constant an integer names, if any. */
  function FileTypeOf(v: int): (t: Option<FileType>)
    ensures t.Some? <==> 1 <= v <= 5
    ensures t.Some? ==> FileTypeValue(t.value) == v
  {
    if v == 1 then Some(Any)
    else if v == 2 then Some(Video)
    else if v == 3 then Some(Image)
    else if v == 4 then Some(Archive)
    else if v == 5 then Some(Documents)
    else None
  }

  /** Distinct FileType constants have distinct values, and each value names its constant back. */
  lemma FileTypeValueInjective(t: FileType, u: FileType)
    ensures FileTypeOf(FileTypeValue(t)) == Some(t)
    ensures FileTypeValue(t) == FileTypeValue(u) ==> t == u
  {
  }

  /** The integer an OperatorType constant stands for: iota numbering from 1, 0 left unused. */
  function OperatorTypeValue(o: OperatorType): (v: int)
    ensures 1 <= v <= 5
  {
    match o
    case EqualToType => 1
    case GreaterThanType => 2
    case GreaterThanEqualToType => 3
    case LessThanType => 4
    case LessThanEqualToType => 5
  }

  /** The OperatorType constant an integer names, if any. */
  function OperatorTypeOf(v: int): (o: Option<OperatorType>)
    ensures o.Some? <==> 1 <= v <= 5
    ensures o.Some? ==> OperatorTypeValue(o.value) == v
  {
    if v == 1 then Some(EqualToType)
    else if v == 2 then Some(GreaterThanType)
    else if v == 3 then Some(GreaterThanEqualToType)
    else if v == 4 then Some(LessThanType)
    else if v == 5 then Some(LessThanEqualToType)
    else None
  }

  /** Distinct OperatorType constants have distinct values, and each value names its constant back. */
  lemma OperatorTypeValueInjective(o: OperatorType, p: OperatorType)
    ensures OperatorTypeOf(OperatorTypeValue(o)) == Some(o)
    ensures OperatorTypeValue(o) == OperatorTypeValue(p) ==> o == p
  {
  }

  /** The extension sets of the four specific categories. */
  const VideoExtensions: set<string> := {
    ".mp4", ".avi", ".mkv", ".mov", ".wmv",
    ".flv", ".webm", ".m4v", ".mpg", ".mpeg",
    ".ts"
  }

  const ImageExtensions: set<string> := {
    ".jpg", ".jpeg", ".png", ".gif", ".bmp",
    ".tiff", ".webp", ".svg", ".raw", ".heic",
    ".ico"
  }

  const ArchiveExtensions: set<string> := {
    ".zip", ".rar", ".7z", ".tar", ".gz",
    ".bz2", ".xz", ".iso", ".tgz", ".tbz2"
  }

  const DocumentExtensions: set<string> := {
    ".docx", ".doc", ".pdf", ".txt", ".rtf",
    ".odt", ".xlsx", ".xls", ".pptx", ".ppt",
    ".csv", ".md", ".pages"
  }

  /** FileExtensions: the extension set of each specific category; Any has no entry. */
  const FileExtensions: map<FileType, set<string>> := map[
    Video := VideoExtensions,
    Image := ImageExtensions,
    Archive := ArchiveExtensions,
    Documents := DocumentExtensions
  ]

  /** No upper-case ASCII letter occurs in s. */
  predicate IsLowerCase(s: string)
  {
    forall i :: 0 <= i < |s| ==> !('A' <= s[i] <= 'Z')
  }

  /** s with every upper-case ASCII letter replaced by its lower-case letter. */
  function LowerAscii(s: string): (t: string)
    ensures |t| == |s| && IsLowerCase(t)
    ensures forall i :: 0 <= i < |s| ==> t[i] == if 'A' <= s[i] <= 'Z' then (s[i] as int + 32) as char else s[i]
  {
    if s == [] then []
    else
      var c := s[|s| - 1];
      LowerAscii(s[..|s| - 1]) + [if 'A' <= c <= 'Z' then (c as int + 32) as char else c]
  }

  /** An extension key as the table spells it: a '.' and at least one lower-case character. */
  predicate WellFormedExtension(e: string)
  {
    |e| >= 2 && e[0] == '.' && IsLowerCase(e)
  }

  /** The table covers exactly the four specific categories, each with its own set. */
  lemma FileExtensionsKeys()
    ensures FileExtensions.Keys == {Video, Image, Archive, Documents}
    ensures Any !in FileExtensions
    ensures FileExtensions[Video] == VideoExtensions && FileExtensions[Image] == ImageExtensions
    ensures FileExtensions[Archive] == ArchiveExtensions && FileExtensions[Documents] == DocumentExtensions
  {
  }

  /** Every extension key is lower-case and starts with '.'. */
  lemma ExtensionsWellFormed()
    ensures forall e :: e in VideoExtensions ==> WellFormedExtension(e)
    ensures forall e :: e in ImageExtensions ==> WellFormedExtension(e)
    ensures forall e :: e in ArchiveExtensions ==> WellFormedExtension(e)
    ensures forall e :: e in DocumentExtensions ==> WellFormedExtension(e)
  {
    VideoAndImageWellFormed();
    ArchiveAndDocumentWellFormed();
  }

  /** The video and image halves of ExtensionsWellFormed. */
  lemma VideoAndImageWellFormed()
    ensures forall e :: e in VideoExtensions ==> WellFormedExtension(e)
    ensures forall e :: e in ImageExtensions ==> WellFormedExtension(e)
  {
    assert forall e :: e in VideoExtensions ==> WellFormedExtension(e);
  }

  /** The archive and document halves of ExtensionsWellFormed. */
  lemma ArchiveAndDocumentWellFormed()
    ensures forall e :: e in ArchiveExtensions ==> WellFormedExtension(e)
    ensures forall e :: e in DocumentExtensions ==> WellFormedExtension(e)
  {
    assert forall e :: e in ArchiveExtensions ==> WellFormedExtension(e);
  }

  /** The four extension sets are pairwise disjoint. */
  lemma ExtensionSetsDisjoint()
    ensures VideoExtensions * ImageExtensions == {}
    ensures VideoExtensions * ArchiveExtensions == {}
    ensures VideoExtensions * DocumentExtensions == {}
    ensures ImageExtensions * ArchiveExtensions == {}
    ensures ImageExtensions * DocumentExtensions == {}
    ensures ArchiveExtensions * DocumentExtensions == {}
  {
    VideoSetDisjoint();
    OtherSetsDisjoint();
  }

  /** The video set shares no extension with the other three. */
  lemma VideoSetDisjoint()
    ensures VideoExtensions * ImageExtensions == {}
    ensures VideoExtensions * ArchiveExtensions == {}
    ensures VideoExtensions * DocumentExtensions == {}
  {
    assert VideoExtensions * ImageExtensions == {};
    assert VideoExtensions * ArchiveExtensions == {};
  }

  /** The image, archive and document sets share no extension pairwise. */
  lemma OtherSetsDisjoint()
    ensures ImageExtensions * ArchiveExtensions == {}
    ensures ImageExtensions * DocumentExtensions == {}
    ensures ArchiveExtensions * DocumentExtensions == {}
  {
    assert ImageExtensions * ArchiveExtensions == {};
    assert ImageExtensions * DocumentExtensions == {};
  }

  /** Two distinct categories of the table share no extension. */
  lemma FileExtensionsDisjoint(t: FileType, u: FileType)
    requires t in FileExtensions && u in FileExtensions && t != u
    ensures FileExtensions[t] * FileExtensions[u] == {}
  {
    FileExtensionsKeys();
    ExtensionSetsDisjoint();
  }

  /** The category an extension belongs to in the table, if any. */
  function Category(ext: string): (t: Option<FileType>)
    ensures t.Some? ==> t.value != Any && t.value in FileExtensions && ext in FileExtensions[t.value]
    ensures t.None? ==> forall u :: u in FileExtensions ==> ext !in FileExtensions[u]
  {
    if ext in FileExtensions[Video] then Some(Video)
    else if ext in FileExtensions[Image] then Some(Image)
    else if ext in FileExtensions[Archive] then Some(Archive)
    else if ext in FileExtensions[Documents] then Some(Documents)
    else None
  }

  /** The table as an extension check: Any admits every extension, a specific category
      admits exactly the extensions of its set. */
  predicate TableAdmits(t: FileType, ext: string)
  {
    t == Any || (t in FileExtensions && ext in FileExtensions[t])
  }

  /** An extension is admitted by a specific category exactly when it belongs to that
      category, so it is admitted by at most one of them; an extension outside the four
      sets is admitted by Any alone. */
  lemma TableAdmitsOneCategory(t: FileType, ext: string)
    ensures TableAdmits(t, ext) <==> t == Any || Category(ext) == Some(t)
  {
    if t != Any && TableAdmits(t, ext) {
      var c := Category(ext);
      if c != Some(t) {
        FileExtensionsDisjoint(c.value, t);
      }
    }
  }

  /** Lower-casing leaves a string that is already lower-case as it is. */
  lemma LowerAsciiOfLowerCase(s: string)
    requires IsLowerCase(s)
    ensures LowerAscii(s) == s
  {
  }

  /** Every key of the table is its own lower-casing and lies in its own category, so
      the extension check on a lower-cased extension finds each listed key where the
      table puts it. */
  lemma TableKeysOwnCategory(t: FileType)
    requires t in FileExtensions
    ensures forall e :: e in FileExtensions[t] ==> LowerAscii(e) == e && Category(e) == Some(t)
  {
    ExtensionsWellFormed();
    FileExtensionsKeys();
    forall e | e in FileExtensions[t]
      ensures LowerAscii(e) == e && Category(e) == Some(t)
    {
      LowerAsciiOfLowerCase(e);
      TableAdmitsOneCategory(t, e);
    }
  }

  /** One row of the directory summary: a directory and how many matches it holds. */
  datatype DirectoryResult = DirectoryResult(directory: string, count: int)

  /** One row of the detailed result: where a match lies and its formatted size. */
  datatype EntryResult = EntryResult(directory: string, fileName: string, fileSize: string)

  /** The search request. The type and operator filters are the string-valued names the
      command line resolved ("" for a name it did not recognise). */
  datatype FileFinder = FileFinder(
    rootDirectory: string,
    displayDetailedResults: bool,
    fileNameFilter: string,
    fileSizeFilter: string,
    fileTypeFilter: string,
    operatorTypeFilter: string,
    toleranceSize: real,
    removeFiles: bool,
    results: map<string, seq<string>>)

  /** The older request record, kept with its constructor. */
  datatype VideoFinder = VideoFinder(
    rootDir: string,
    deleteFlag: bool,
    fileSize: string,
    fileType: FileType,
    operatorType: OperatorType,
    results: map<string, seq<string>>)

  /** A VideoFinder looking for videos of an equal size, with nothing found yet. */
  function NewVideoFinder(): (v: VideoFinder)
    ensures v.fileType == Video && FileTypeValue(v.fileType) == 2
    ensures v.operatorType == EqualToType && OperatorTypeValue(v.operatorType) == 1
    ensures v.results == map[]
    ensures v.rootDir == "" && !v.deleteFlag && v.fileSize == ""
  {
    VideoFinder("", false, "", Video, EqualToType, map[])
  }
}
