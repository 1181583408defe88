# File system analyzer: the directory aggregator, in Dafny

This project models the core of a small command-line tool that walks a
directory tree and produces a nested report: for every directory, its path,
the cumulative byte size of all files below it, the cumulative file count,
the cumulative list of files (name, size, path relative to the analysed root)
and one summary per subdirectory. A directory whose own base name is in a
skip list is reported as a zero leaf and not entered.

The filesystem is replaced by a value: a tree of `Node`s (`File(name, size)`,
`Dir(name, children)`, `Other(name)` for symbolic links, devices and the like),
with the children of a directory in the order the operating system enumerates
them. Paths are sequences of components, as `Path::components` yields them.

Files:

- `fs_tree.dfy` (module `FsTree`): the tree, paths, the base name of a path,
  and component-wise prefix removal.
- `analyzer.dfy` (module `Analyzer`): `FileInfo`, `DirectorySummary`, the skip
  predicate, the specification functions `Summarize` / `Entries`, and
  `AnalyzeDirectory`, the recursive method with its loop over entries, proved
  equal to `Summarize`.
- `properties.dfy` (module `AnalyzerProperties`): the properties of the
  summaries, proved by induction over the tree and over the entry list.
- `file_system_analyzer.dfy` (module `FileSystemAnalyzer`): the call on the
  root, with the root as the base of relative paths, and the properties
  gathered for that call.

Points where the code's behaviour is easy to misread:

- A file's `folder` is the file's own path relative to the root, file name
  included, not the path of its containing directory: the prefix is stripped
  from the entry's path (`src/main.rs:82`).
- The skip test also applies to the root directory itself
  (`src/main.rs:59`, called on the root at `src/main.rs:155`).
- When the base is not a prefix of an entry's path, `folder` is the entry's
  whole path (`unwrap_or` at `src/main.rs:82`); on the root call this never
  happens, and `ListedFilesAreVisible` assumes the base is a prefix.
- The base name of a path is its last component, or the empty name when there
  is none or it is `/`, `.` or `..` (`file_name().unwrap_or_default()` at
  `src/main.rs:58`); an empty name in the skip list therefore skips such a root.

## Model

| member | source | states |
|---|---|---|
| `FsTree.BaseName` | src/main.rs:58 | the base name is the last path component when that is a normal name, and otherwise the empty name |
| `FsTree.StripPrefix` | src/main.rs:82 | when the base is a component prefix of the path, base followed by the result is the path; otherwise the path comes back unchanged |
| `Analyzer.ShouldSkipFolder` | src/main.rs:36-38 | true exactly when some element of the skip list equals the folder name (exact, case-sensitive, no patterns) |
| `Analyzer.FileInfoFor` | src/main.rs:82-87 | the record keeps the entry's name and size, and base followed by its folder is the entry's full path |
| `Analyzer.Summarize` | src/main.rs:45-111 | the summary carries the given path, its file count is the length of its file list and its total size the sum of the listed sizes |
| `Analyzer.Entries` | src/main.rs:71-101 | after any prefix of the entries, the accumulated count is the length of the accumulated list and the accumulated size the sum of its sizes |
| `Analyzer.AnalyzeDirectory` | src/main.rs:45-111 | the loop-and-recursion method returns exactly the specified summary; a non-directory and a skipped directory give path, zero size, zero count, no files, no subdirectories |
| `AnalyzerProperties.EntriesSubdirectories` | src/main.rs:88-99 | after any prefix of the entries, the subdirectory list has one summary per directory entry, in order, each the summary of that entry at its path |
| `AnalyzerProperties.SubdirectoriesMirrorEntries` | src/main.rs:57-99 | a descended directory has exactly one subdirectory summary per directory entry, in enumeration order, each the recursive summary of that entry; a skipped directory or non-directory has none |
| `AnalyzerProperties.EntriesTotalsSplit` | src/main.rs:77-98 | after any prefix of the entries, size and count equal the direct files' sizes and number plus the subdirectories' totals and counts |
| `AnalyzerProperties.TotalsSplit` | src/main.rs:78-80 | a directory's total size is its direct files' sizes plus its subdirectories' totals, and its count the number of direct files plus their counts |
| `AnalyzerProperties.SummaryConsistent` | src/main.rs:79-98 | at every node of the returned tree, the file count equals the length of the file list and the total size the sum of the listed sizes |
| `AnalyzerProperties.EntriesConsistent` | src/main.rs:71-101 | the accumulated summary after any prefix of the entries is consistent at every level |
| `AnalyzerProperties.EntriesCumulative` | src/main.rs:98-99 | after any prefix of the entries, each subdirectory's file list occurs as one contiguous block of the accumulated file list |
| `AnalyzerProperties.CumulativeFiles` | src/main.rs:98-99 | each subdirectory summary's files appear, contiguous and in order, in its parent's file list, so no file of a subdirectory is missing from its parent's list |
| `AnalyzerProperties.SummaryCumulativeEverywhere` | src/main.rs:89-99 | at every level of the returned tree, each subdirectory's file list occurs as one contiguous block of its parent's file list |
| `AnalyzerProperties.EntriesCumulativeEverywhere` | src/main.rs:71-101 | after any prefix of the entries, every accumulated subdirectory summary is cumulative at every level |
| `AnalyzerProperties.EntriesFilesFlatten` | src/main.rs:71-101 | after any prefix of the entries, the accumulated file list is exactly the concatenation, first entry first, of each file's record, each directory's whole file list and nothing for other entries |
| `AnalyzerProperties.FilesAreConcatenation` | src/main.rs:57-99 | a descended directory's file list is exactly the in-order concatenation of its direct files' records and its subdirectories' whole file lists (so no block is repeated or reordered); a skipped directory or non-directory lists no files |
| `AnalyzerProperties.EntriesIgnoreOthers` | src/main.rs:77-100 | removing the entries that are neither files nor directories leaves the accumulated summary unchanged |
| `AnalyzerProperties.OthersAddNothing` | src/main.rs:77-100 | a directory's summary is the same with and without its entries that are neither regular files nor directories |
| `AnalyzerProperties.OtherEntryChangesNothing` | src/main.rs:88 | inserting one entry that is neither a file nor a directory anywhere among the entries changes nothing in the summary |
| `AnalyzerProperties.ListedFilesAreVisible` | src/main.rs:82-98 | every listed file's folder is the directory's relative path followed by a non-empty path ending in the file's name, along which a file of that size is reachable through non-skipped directories |
| `AnalyzerProperties.EntriesFilesAreVisible` | src/main.rs:71-101 | the same for the accumulated file list after any prefix of the entries |
| `AnalyzerProperties.VisibleFilesAreListed` | src/main.rs:82-98 | every file reachable through non-skipped directories is listed with its name, its size and the directory's relative path followed by its relative path as folder |
| `AnalyzerProperties.EntriesVisibleFilesAreListed` | src/main.rs:71-101 | the same for the accumulated file list after any prefix of the entries |
| `FileSystemAnalyzer.AnalyzeRoot` | src/main.rs:153-155 | on the root, the result is the specified summary; it is consistent and cumulative at every level and a zero leaf when the root is skipped; otherwise it has one subdirectory summary per directory entry in order, totals equal to direct files plus subdirectories, a file list that is the in-order concatenation of what each entry adds, and it lists a file exactly when it is reachable through non-skipped directories, with its root-relative path (file name included) as folder |

## Left out

- Command-line parsing and the completion messages of `main` (`src/main.rs:113-165`): argument handling and console output. Only the call on the root (`src/main.rs:153-155`) is modelled.
- `export_to_yaml` (`src/main.rs:24-34`): serialisation through a YAML library and the choice between a file and standard output are I/O in a foreign library.
- `print_folder_tree` and its call (`src/main.rs:40-43`, `69`), with the `indent` parameter that only feeds it: console output only, not part of the returned summary.
- The real filesystem calls (`is_dir`, `read_dir`, `metadata`) and the panics of their `expect`s (`src/main.rs:57`, `71-73`): the tree is given as a value, so enumeration and metadata never fail. A root that is a symbolic link to a directory counts as a directory for `is_dir`; the model takes the root node as already resolved.
- Lossy string decoding (`to_string_lossy`, `into_string().unwrap_or_default()`): names are taken as valid strings, and `directory` and `folder` are kept as component sequences rather than rendered with a separator.
- The `parent_folder` string (`src/main.rs:48`, `92`): built but never read.
- `Analyzer.Summarize`: sizes and counts are unbounded naturals; the 64-bit overflow of `total_size +=` (`src/main.rs:79`, `96`) is not modelled.
- The operating system's enumeration order: taken as the order of the children in the tree.
