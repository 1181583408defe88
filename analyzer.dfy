/**
 * The directory aggregator: a summary per directory with the cumulative size,
 * the cumulative file count, the cumulative list of files and one summary per
 * subdirectory entry.
 */
module Analyzer {
  import opened FsTree

  /** One regular file; `folder` is the file's own path relative to the root. */
  datatype FileInfo = FileInfo(name: string, size: nat, folder: Path)

  /** The summary of one directory, of a skipped directory or of a non-directory. */
  datatype DirectorySummary = DirectorySummary(
    directory: Path,
    totalSize: nat,
    fileCount: nat,
    files: seq<FileInfo>,
    subdirectories: seq<DirectorySummary>)

  /** Whether a folder name is in the skip list: exact, case-sensitive equality. */
  function ShouldSkipFolder(folderName: string, skipFolders: seq<string>): (skip: bool)
    ensures skip <==> exists i :: 0 <= i < |skipFolders| && skipFolders[i] == folderName
  {
    if skipFolders == [] then false
    else if skipFolders[0] == folderName then true
    else
      var rest := ShouldSkipFolder(folderName, skipFolders[1..]);
      assert forall i :: 1 <= i < |skipFolders| ==> skipFolders[i] == skipFolders[1..][i - 1];
      rest
  }

  /** The sum of the sizes of a list of files. */
  function SumSizes(files: seq<FileInfo>): nat {
    if files == [] then 0 else SumSizes(files[..|files| - 1]) + files[|files| - 1].size
  }

  lemma {:induction false} SumSizesAppend(a: seq<FileInfo>, b: seq<FileInfo>)
    ensures SumSizes(a + b) == SumSizes(a) + SumSizes(b)
    decreases |b|
  {
    if b != [] {
      assert (a + b)[..|a + b| - 1] == a + b[..|b| - 1];
      SumSizesAppend(a, b[..|b| - 1]);
    } else {
      assert a + b == a;
    }
  }

  /** The zero summary: no size, no files, no subdirectories. */
  function EmptySummary(path: Path): DirectorySummary {
    DirectorySummary(path, 0, 0, [], [])
  }

  /** The information recorded for a regular file found at `entryPath`. */
  function FileInfoFor(name: string, size: nat, entryPath: Path, base: Path): (f: FileInfo)
    ensures f.name == name && f.size == size
    ensures base <= entryPath ==> base + f.folder == entryPath
  {
    FileInfo(name, size, StripPrefix(entryPath, base))
  }

  /**
   * The summary of the entry `node` found at `path`. A non-directory and a
   * directory whose base name is in the skip list give the zero summary;
   * any other directory the summary of its entries.
   */
  function Summarize(path: Path, node: Node, skips: seq<string>, base: Path): (s: DirectorySummary)
    ensures s.directory == path
    ensures s.fileCount == |s.files| && s.totalSize == SumSizes(s.files)
    decreases node, 1
  {
    if !node.Dir? || ShouldSkipFolder(BaseName(path), skips) then EmptySummary(path)
    else Entries(path, node.children, skips, base)
  }

  /**
   * The accumulated summary of directory `path` after its entries `entries`
   * have been visited in order: a file adds its size, one to the count and its
   * information; a directory adds its own summary's totals and files and the
   * summary itself; any other entry adds nothing.
   */
  function Entries(path: Path, entries: seq<Node>, skips: seq<string>, base: Path): (s: DirectorySummary)
    ensures s.directory == path
    ensures s.fileCount == |s.files| && s.totalSize == SumSizes(s.files)
    decreases entries, 0
  {
    if entries == [] then EmptySummary(path)
    else
      var acc := Entries(path, entries[..|entries| - 1], skips, base);
      var entry := entries[|entries| - 1];
      match entry
      case File(name, size) =>
        var info := FileInfoFor(name, size, path + [name], base);
        SumSizesAppend(acc.files, [info]);
        DirectorySummary(path, acc.totalSize + size, acc.fileCount + 1,
                         acc.files + [info], acc.subdirectories)
      case Dir(name, _) =>
        var sub := Summarize(path + [name], entry, skips, base);
        SumSizesAppend(acc.files, sub.files);
        DirectorySummary(path, acc.totalSize + sub.totalSize, acc.fileCount + sub.fileCount,
                         acc.files + sub.files, acc.subdirectories + [sub])
      case Other(_) => acc
  }

  /**
   * Summarizes the entry `node` at `path`, recursing into every subdirectory
   * entry; `base` is the root, passed down unchanged, against which every
   * file's folder is made relative.
   */
  method AnalyzeDirectory(path: Path, node: Node, skips: seq<string>, base: Path)
    returns (summary: DirectorySummary)
    ensures summary == Summarize(path, node, skips, base)
    ensures !node.Dir? ==> summary == EmptySummary(path)
    ensures ShouldSkipFolder(BaseName(path), skips) ==> summary == EmptySummary(path)
    decreases node
  {
    var totalSize: nat := 0;
    var fileCount: nat := 0;
    var files: seq<FileInfo> := [];
    var subdirectories: seq<DirectorySummary> := [];

    if node.Dir? {
      var folderName := BaseName(path);
      if ShouldSkipFolder(folderName, skips) {
        return DirectorySummary(path, 0, 0, [], []);
      }
      var entries := node.children;
      for i := 0 to |entries|
        invariant DirectorySummary(path, totalSize, fileCount, files, subdirectories)
               == Entries(path, entries[..i], skips, base)
      {
        var entry := entries[i];
        var entryPath := path + [entry.name];
        assert entries[..i + 1][..i] == entries[..i];
        match entry {
          case File(fileName, fileSize) =>
            totalSize := totalSize + fileSize;
            fileCount := fileCount + 1;
            files := files + [FileInfoFor(fileName, fileSize, entryPath, base)];
          case Dir(_, _) =>
            var subdirSummary := AnalyzeDirectory(entryPath, entry, skips, base);
            totalSize := totalSize + subdirSummary.totalSize;
            fileCount := fileCount + subdirSummary.fileCount;
            files := files + subdirSummary.files;
            subdirectories := subdirectories + [subdirSummary];
          case Other(_) =>
        }
      }
      assert entries[..|entries|] == entries;
    }

    summary := DirectorySummary(path, totalSize, fileCount, files, subdirectories);
  }
}
