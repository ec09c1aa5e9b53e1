/** The explorer's view of the filesystem (src/file_system.rs): paths, entry records
    (`FileInfo`) and the `FileExplorer` that lists one directory at a time.

    The filesystem itself is an abstract value `Fs`: what `fs::metadata`,
    `Path::canonicalize` and `fs::read_dir` would answer for each path. */
module FileSystem {
  import opened Wrappers
  import opened Strings
  import Sorting

  // ---------------------------------------------------------------- paths

  /** A path as its components; `absolute` says whether it starts at the root `/`.
      Components are the names between separators (no `/` inside, no empty ones). */
  datatype Path = Path(absolute: bool, parts: seq<string>)

  function JoinParts(parts: seq<string>): string
  {
    if parts == [] then ""
    else if |parts| == 1 then parts[0]
    else JoinParts(parts[..|parts| - 1]) + "/" + parts[|parts| - 1]
  }

  /** `path.to_string_lossy()` / `path.display()`. */
  function PathText(p: Path): string
  {
    (if p.absolute then "/" else "") + JoinParts(p.parts)
  }

  /** `Path::file_name`: the last component, unless there is none or it is `..`. */
  function FileName(p: Path): Option<string>
  {
    if p.parts == [] || p.parts[|p.parts| - 1] == ".." then None
    else Some(p.parts[|p.parts| - 1])
  }

  /** `Path::parent`: the path without its last component; `/` and the empty path have none. */
  function Parent(p: Path): Option<Path>
  {
    if p.parts == [] then None else Some(Path(p.absolute, p.parts[..|p.parts| - 1]))
  }

  function LastIndexOf(s: string, c: char): (k: nat)
    requires c in s
    ensures k < |s| && s[k] == c && c !in s[k + 1..]
  {
    if s[|s| - 1] == c then |s| - 1
    else
      assert c in s[..|s| - 1] by {
        var i :| 0 <= i < |s| && s[i] == c;
        assert s[..|s| - 1][i] == c;
      }
      var k := LastIndexOf(s[..|s| - 1], c);
      assert s[k + 1..] == s[..|s| - 1][k + 1..] + [s[|s| - 1]];
      k
  }

  /** `Path::extension`: what follows the last `.` of the file name, provided something
      precedes that dot (so `.bashrc` has no extension, `a.` has the empty one). */
  function Extension(p: Path): Option<string>
  {
    match FileName(p)
    case None => None
    case Some(name) =>
      if '.' !in name then None
      else
        var k := LastIndexOf(name, '.');
        if k == 0 then None else Some(name[k + 1..])
  }

  // ---------------------------------------------------------------- the filesystem

  datatype IoErrorKind = NotFound | InvalidInput | Other
  datatype IoError = IoError(kind: IoErrorKind, message: string)

  const NotFoundError := IoError(NotFound, "No such file or directory (os error 2)")

  /** What `fs::metadata` reports (following symbolic links). */
  datatype Meta = Meta(isDir: bool, size: nat, modified: Option<int>)

  /** One item yielded by a directory iterator: a path, or an error in its place. */
  datatype DirEntry = Entry(path: Path) | EntryError(error: IoError)

  /** The filesystem as the program observes it: metadata of every path that can be
      stat'ed, the canonical form of every path that can be canonicalised, and the
      entries `read_dir` yields for every directory that can be read. */
  datatype Fs = Fs(meta: map<Path, Meta>, canonical: map<Path, Path>,
                   listings: map<Path, seq<DirEntry>>)

  predicate Exists(fs: Fs, p: Path)
  {
    p in fs.meta
  }

  /** `Path::is_dir`: false both for non-directories and for paths that cannot be stat'ed. */
  predicate IsDir(fs: Fs, p: Path)
  {
    p in fs.meta && fs.meta[p].isDir
  }

  function Canonicalize(fs: Fs, p: Path): Result<Path, IoError>
  {
    if p in fs.canonical then Ok(fs.canonical[p]) else Err(NotFoundError)
  }

  function ReadDir(fs: Fs, p: Path): Result<seq<DirEntry>, IoError>
  {
    if p in fs.listings then Ok(fs.listings[p]) else Err(NotFoundError)
  }

  // ---------------------------------------------------------------- entry records

  datatype FileInfo = FileInfo(path: Path, name: string, isDirectory: bool, size: nat,
                               modified: Option<int>)

  /** `FileInfo::from_path`: fails exactly when the path cannot be stat'ed; the name is
      the path's file name, or empty when it has none. */
  function FromPath(fs: Fs, p: Path): (r: Result<FileInfo, IoError>)
    ensures r.Ok? <==> Exists(fs, p)
    ensures r.Ok? ==> r.value.path == p && r.value.isDirectory == IsDir(fs, p)
    ensures r.Ok? && FileName(p).Some? ==> r.value.name == FileName(p).value
    ensures r.Ok? && FileName(p).None? ==> r.value.name == ""
    ensures r.Ok? ==> r.value.size == fs.meta[p].size && r.value.modified == fs.meta[p].modified
  {
    if p !in fs.meta then Err(NotFoundError)
    else
      var m := fs.meta[p];
      Ok(FileInfo(p, FileName(p).GetOr(""), m.isDir, m.size, m.modified))
  }

  // ---------------------------------------------------------------- listing order

  /** The comparator of `refresh`: directories before files, then by name. */
  predicate DirsFirst(a: FileInfo, b: FileInfo)
  {
    (a.isDirectory && !b.isDirectory)
    || (a.isDirectory == b.isDirectory && StrLess(a.name, b.name))
  }

  lemma DirsFirstIsStrictWeakOrder()
    ensures Sorting.StrictWeakOrder(DirsFirst)
  {
    forall x, y | DirsFirst(x, y) ensures !DirsFirst(y, x) {
      StrLessTrichotomy(x.name, y.name);
    }
    forall x, y, z | !DirsFirst(x, y) && !DirsFirst(y, z) ensures !DirsFirst(x, z) {
      StrLessTrichotomy(x.name, y.name);
      StrLessTrichotomy(y.name, z.name);
      StrLessTrichotomy(x.name, z.name);
      if StrLess(y.name, x.name) && StrLess(z.name, y.name) {
        StrLessTransitive(z.name, y.name, x.name);
      }
    }
  }

  /** What the entry loop of `refresh` has gathered: the records of the entries that
      could be stat'ed, up to the first failing entry, and that entry's error. */
  datatype Scan = Scan(infos: seq<FileInfo>, failure: Option<IoError>)

  function ReadInfos(fs: Fs, entries: seq<DirEntry>): Scan
  {
    if entries == [] then Scan([], None)
    else
      var prev := ReadInfos(fs, entries[..|entries| - 1]);
      if prev.failure.Some? then prev
      else
        match entries[|entries| - 1]
        case EntryError(e) => Scan(prev.infos, Some(e))
        case Entry(p) =>
          Scan(prev.infos + (match FromPath(fs, p) case Ok(fi) => [fi] case Err(_) => []), None)
  }

  /** The listing and the outcome `refresh` leaves for directory `dir`. */
  datatype Refreshed = Refreshed(files: seq<FileInfo>, outcome: Result<(), IoError>)

  function RefreshSpec(fs: Fs, dir: Path): Refreshed
  {
    match ReadDir(fs, dir)
    case Err(e) => Refreshed([], Err(e))
    case Ok(entries) =>
      var scan := ReadInfos(fs, entries);
      if scan.failure.Some? then Refreshed(scan.infos, Err(scan.failure.value))
      else Refreshed(Sorting.SortSpec(scan.infos, DirsFirst), Ok(()))
  }

  /** Entries that cannot be stat'ed are skipped silently; every other entry before the
      first iterator error is recorded, and nothing else is. */
  lemma {:induction false} ReadInfosRecords(fs: Fs, entries: seq<DirEntry>)
    ensures forall fi :: fi in ReadInfos(fs, entries).infos ==>
              Entry(fi.path) in entries && FromPath(fs, fi.path) == Ok(fi)
    ensures ReadInfos(fs, entries).failure.None? ==>
              forall k :: 0 <= k < |entries| ==> entries[k].Entry?
    ensures ReadInfos(fs, entries).failure.None? ==>
              forall k :: 0 <= k < |entries| && Exists(fs, entries[k].path) ==>
                FromPath(fs, entries[k].path).value in ReadInfos(fs, entries).infos
  {
    if entries != [] {
      var init := entries[..|entries| - 1];
      ReadInfosRecords(fs, init);
      assert forall k :: 0 <= k < |init| ==> entries[k] == init[k];
      forall fi | fi in ReadInfos(fs, entries).infos
        ensures Entry(fi.path) in entries && FromPath(fs, fi.path) == Ok(fi)
      {
        if fi in ReadInfos(fs, init).infos {
          assert Entry(fi.path) in init;
        } else {
          assert entries[|entries| - 1] == Entry(fi.path);
        }
      }
    }
  }

  /** After a successful refresh, directories come first and each group is ordered by name. */
  lemma RefreshedOrder(fs: Fs, dir: Path)
    requires RefreshSpec(fs, dir).outcome.Ok?
    ensures var files := RefreshSpec(fs, dir).files;
      (forall i, j :: 0 <= i < j < |files| && files[j].isDirectory ==> files[i].isDirectory)
      && (forall i, j :: 0 <= i < j < |files| && files[i].isDirectory == files[j].isDirectory ==>
            !StrLess(files[j].name, files[i].name))
  {
    var scan := ReadInfos(fs, ReadDir(fs, dir).value);
    DirsFirstIsStrictWeakOrder();
    Sorting.SortSpecSorted(scan.infos, DirsFirst);
  }

  /** A successful refresh lists exactly the records of the directory's readable entries. */
  lemma RefreshedContents(fs: Fs, dir: Path)
    requires RefreshSpec(fs, dir).outcome.Ok?
    ensures var entries := ReadDir(fs, dir).value;
      var files := RefreshSpec(fs, dir).files;
      (forall fi :: fi in files ==> Entry(fi.path) in entries && FromPath(fs, fi.path) == Ok(fi))
      && (forall k :: 0 <= k < |entries| ==> entries[k].Entry?)
      && (forall k :: 0 <= k < |entries| && Exists(fs, entries[k].path) ==>
            FromPath(fs, entries[k].path).value in files)
  {
    var entries := ReadDir(fs, dir).value;
    var scan := ReadInfos(fs, entries);
    ReadInfosRecords(fs, entries);
    forall fi ensures fi in RefreshSpec(fs, dir).files <==> fi in scan.infos {
      Sorting.SortSpecMembers(scan.infos, DirsFirst, fi);
    }
  }

  /** Where `navigate_to` leaves the explorer (directory, listing) and what it returns. */
  function NavigateSpec(fs: Fs, current: Path, files: seq<FileInfo>, path: Path)
    : (Path, seq<FileInfo>, Result<(), IoError>)
  {
    if !IsDir(fs, path) then (current, files, Ok(()))
    else
      match Canonicalize(fs, path)
      case Err(e) => (current, files, Err(e))
      case Ok(c) => (c, RefreshSpec(fs, c).files, RefreshSpec(fs, c).outcome)
  }

  /** Where `go_up` leaves the explorer and what it returns. */
  function GoUpSpec(fs: Fs, current: Path, files: seq<FileInfo>): (Path, seq<FileInfo>, Result<(), IoError>)
  {
    match Parent(current)
    case None => (current, files, Ok(()))
    case Some(parent) => (parent, RefreshSpec(fs, parent).files, RefreshSpec(fs, parent).outcome)
  }

  // ---------------------------------------------------------------- the explorer

  class FileExplorer {
    var currentPath: Path
    var files: seq<FileInfo>

    constructor Init(path: Path)
      ensures currentPath == path && files == []
    {
      currentPath := path;
      files := [];
    }

    /** `FileExplorer::new`: canonicalises the start path and lists it. */
    static method New(path: Path, fs: Fs) returns (r: Result<FileExplorer, IoError>)
      ensures match Canonicalize(fs, path)
        case Err(e) => r == Err(e)
        case Ok(c) =>
          if RefreshSpec(fs, c).outcome.Err? then r == Err(RefreshSpec(fs, c).outcome.error)
          else r.Ok? && fresh(r.value) && r.value.currentPath == c
               && r.value.files == RefreshSpec(fs, c).files
    {
      var canonical := Canonicalize(fs, path);
      if canonical.Err? {
        return Err(canonical.error);
      }
      var explorer := new FileExplorer.Init(canonical.value);
      var outcome := explorer.Refresh(fs);
      if outcome.Err? {
        return Err(outcome.error);
      }
      return Ok(explorer);
    }

    /** Replaces the listing with the entries of the current directory: the old listing
        is dropped first, an unreadable directory leaves it empty, an iterator error
        stops the scan (leaving the unsorted records gathered so far), and a complete
        scan is sorted directories-first. */
    method Refresh(fs: Fs) returns (r: Result<(), IoError>)
      modifies this
      ensures currentPath == old(currentPath)
      ensures files == RefreshSpec(fs, currentPath).files
      ensures r == RefreshSpec(fs, currentPath).outcome
    {
      files := [];
      match ReadDir(fs, currentPath)
      case Err(e) =>
        return Err(e);
      case Ok(entries) =>
        var i := 0;
        while i < |entries|
          invariant 0 <= i <= |entries|
          invariant currentPath == old(currentPath)
          invariant ReadInfos(fs, entries[..i]) == Scan(files, None)
        {
          assert entries[..i + 1][..i] == entries[..i];
          match entries[i]
          case EntryError(e) =>
            assert ReadInfos(fs, entries[..i + 1]) == Scan(files, Some(e));
            ReadInfosStops(fs, entries, i + 1);
            return Err(e);
          case Entry(p) =>
            var info := FromPath(fs, p);
            if info.Ok? {
              files := files + [info.value];
            }
          i := i + 1;
        }
        assert entries[..|entries|] == entries;
        files := Sorting.SortSeq(files, DirsFirst);
        return Ok(());
    }

    /** `navigate_to`: a path that is not a directory is ignored; otherwise the explorer
        moves to its canonical form and refreshes. */
    method NavigateTo(path: Path, fs: Fs) returns (r: Result<(), IoError>)
      modifies this
      ensures !IsDir(fs, path) ==>
        r == Ok(()) && currentPath == old(currentPath) && files == old(files)
      ensures IsDir(fs, path) && Canonicalize(fs, path).Err? ==>
        r == Err(Canonicalize(fs, path).error)
        && currentPath == old(currentPath) && files == old(files)
      ensures IsDir(fs, path) && Canonicalize(fs, path).Ok? ==>
        currentPath == Canonicalize(fs, path).value
        && files == RefreshSpec(fs, currentPath).files
        && r == RefreshSpec(fs, currentPath).outcome
      ensures (currentPath, files, r) == NavigateSpec(fs, old(currentPath), old(files), path)
    {
      if IsDir(fs, path) {
        match Canonicalize(fs, path)
        case Err(e) =>
          return Err(e);
        case Ok(c) =>
          currentPath := c;
          r := Refresh(fs);
          return r;
      }
      return Ok(());
    }

    /** `go_up`: moves to the parent directory and refreshes; at a path without a parent
        nothing happens. */
    method GoUp(fs: Fs) returns (r: Result<(), IoError>)
      modifies this
      ensures old(currentPath).parts == [] ==>
        r == Ok(()) && currentPath == old(currentPath) && files == old(files)
      ensures old(currentPath).parts != [] ==>
        currentPath.absolute == old(currentPath).absolute
        && currentPath.parts == old(currentPath).parts[..|old(currentPath).parts| - 1]
        && files == RefreshSpec(fs, currentPath).files
        && r == RefreshSpec(fs, currentPath).outcome
      ensures (currentPath, files, r) == GoUpSpec(fs, old(currentPath), old(files))
    {
      match Parent(currentPath)
      case None =>
        return Ok(());
      case Some(parent) =>
        currentPath := parent;
        r := Refresh(fs);
        return r;
    }

    /** `open_file`: a directory is refused before the opener is consulted; otherwise
        the outcome is the opener's. `launch` stands for `open::that`. */
    function OpenFile(fi: FileInfo, launch: Path -> Result<(), string>): (r: Result<(), IoError>)
      ensures fi.isDirectory ==>
        r == Err(IoError(InvalidInput, "Cannot open directory as file. Use navigate_to instead."))
      ensures !fi.isDirectory ==> (r.Ok? <==> launch(fi.path).Ok?)
    {
      if fi.isDirectory then
        Err(IoError(InvalidInput, "Cannot open directory as file. Use navigate_to instead."))
      else
        match launch(fi.path)
        case Ok(_) => Ok(())
        case Err(e) => Err(IoError(Other, "Failed to open file: " + e))
    }

    /** The path `reveal_in_file_manager` hands to the opener: a directory itself; for a
        file its parent directory, or the path itself when it has no parent. */
    function RevealTarget(fi: FileInfo): (t: Path)
      ensures fi.isDirectory || fi.path.parts == [] ==> t == fi.path
      ensures !fi.isDirectory && fi.path.parts != [] ==>
        t.absolute == fi.path.absolute && t.parts == fi.path.parts[..|fi.path.parts| - 1]
    {
      if fi.isDirectory then fi.path else Parent(fi.path).GetOr(fi.path)
    }

    function RevealInFileManager(fi: FileInfo, launch: Path -> Result<(), string>): (r: Result<(), IoError>)
      ensures r.Ok? <==> launch(RevealTarget(fi)).Ok?
    {
      match launch(RevealTarget(fi))
      case Ok(_) => Ok(())
      case Err(e) => Err(IoError(Other, "Failed to reveal in file manager: " + e))
    }
  }

  /** Once an iterator error is met, later entries change nothing. */
  lemma {:induction false} ReadInfosStops(fs: Fs, entries: seq<DirEntry>, n: nat)
    requires n <= |entries|
    requires ReadInfos(fs, entries[..n]).failure.Some?
    ensures ReadInfos(fs, entries) == ReadInfos(fs, entries[..n])
    decreases |entries| - n
  {
    if n < |entries| {
      assert entries[..n + 1][..n] == entries[..n];
      ReadInfosStops(fs, entries, n + 1);
    } else {
      assert entries[..n] == entries;
    }
  }

  /** Opening a directory never depends on the opener: it is not called. */
  lemma OpenDirectoryIgnoresOpener(explorer: FileExplorer, fi: FileInfo,
                                   l1: Path -> Result<(), string>, l2: Path -> Result<(), string>)
    requires fi.isDirectory
    ensures explorer.OpenFile(fi, l1) == explorer.OpenFile(fi, l2)
    ensures explorer.OpenFile(fi, l1).Err? && explorer.OpenFile(fi, l1).error.kind == InvalidInput
  {
  }
}
