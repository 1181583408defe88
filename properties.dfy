/**
 * What the aggregator's summaries promise: counts and sizes agree with the file
 * lists at every level, totals split into direct files plus subdirectories,
 * subdirectories mirror the directory entries, file lists are cumulative, other
 * entries are ignored, and the file list holds exactly the reachable files
 * with their root-relative paths.
 */
module AnalyzerProperties {
  import opened FsTree
  import opened Analyzer

  /** The invariant of a summary tree: at every node the count is the length of the
      file list and the total is the sum of its sizes. */
  ghost predicate Consistent(s: DirectorySummary)
    decreases s
  {
    && s.fileCount == |s.files|
    && s.totalSize == SumSizes(s.files)
    && forall k :: 0 <= k < |s.subdirectories| ==> Consistent(s.subdirectories[k])
  }

  /** The directory entries among `entries`, in order. */
  function DirEntries(entries: seq<Node>): seq<Node> {
    if entries == [] then []
    else
      var rest := DirEntries(entries[..|entries| - 1]);
      if entries[|entries| - 1].Dir? then rest + [entries[|entries| - 1]] else rest
  }

  /** The entries that are regular files or directories, in order. */
  function WithoutOthers(entries: seq<Node>): seq<Node> {
    if entries == [] then []
    else
      var rest := WithoutOthers(entries[..|entries| - 1]);
      if entries[|entries| - 1].Other? then rest else rest + [entries[|entries| - 1]]
  }

  /** The sum of the sizes of the regular files among `entries`. */
  function DirectFileSizes(entries: seq<Node>): nat {
    if entries == [] then 0
    else
      DirectFileSizes(entries[..|entries| - 1])
        + (if entries[|entries| - 1].File? then entries[|entries| - 1].size else 0)
  }

  /** The number of regular files among `entries`. */
  function DirectFileCount(entries: seq<Node>): nat {
    if entries == [] then 0
    else
      DirectFileCount(entries[..|entries| - 1])
        + (if entries[|entries| - 1].File? then 1 else 0)
  }

  /** The sum of the totals of a list of summaries. */
  function SumTotals(subs: seq<DirectorySummary>): nat {
    if subs == [] then 0 else SumTotals(subs[..|subs| - 1]) + subs[|subs| - 1].totalSize
  }

  /** The sum of the file counts of a list of summaries. */
  function SumCounts(subs: seq<DirectorySummary>): nat {
    if subs == [] then 0 else SumCounts(subs[..|subs| - 1]) + subs[|subs| - 1].fileCount
  }

  /** `a` occurs in `b` as a contiguous block. */
  ghost predicate IsInfix(a: seq<FileInfo>, b: seq<FileInfo>) {
    exists i :: 0 <= i <= |b| && a <= b[i..]
  }

  /**
   * A regular file of size `size` is reachable from the entry `node` at `path`
   * along the relative path `rel`, and every directory on the way, `node`
   * included, is a directory that is not skipped.
   */
  ghost predicate FileVisible(path: Path, node: Node, rel: Path, size: nat, skips: seq<string>)
    decreases node, 1
  {
    && node.Dir?
    && !ShouldSkipFolder(BaseName(path), skips)
    && VisibleAmong(path, node.children, rel, size, skips)
  }

  /** The same, starting from the entries `entries` of the directory at `path`. */
  ghost predicate VisibleAmong(path: Path, entries: seq<Node>, rel: Path, size: nat, skips: seq<string>)
    decreases entries, 0
  {
    && |rel| > 0
    && exists j :: 0 <= j < |entries| && VisibleAt(path, entries, j, rel, size, skips)
  }

  /** The same, through the entry at index `j`. */
  ghost predicate VisibleAt(path: Path, entries: seq<Node>, j: int, rel: Path, size: nat, skips: seq<string>)
    requires 0 <= j < |entries| && |rel| > 0
    decreases entries, 0, j
  {
    && entries[j].name == rel[0]
    && if |rel| == 1 then entries[j].File? && entries[j].size == size
       else FileVisible(path + [entries[j].name], entries[j], rel[1..], size, skips)
  }

  /** Whether the directory at `path` is descended into at all. */
  predicate Descended(path: Path, node: Node, skips: seq<string>) {
    node.Dir? && !ShouldSkipFolder(BaseName(path), skips)
  }

  // ---------------------------------------------------------------------------
  // Subdirectories mirror the directory entries

  lemma {:induction false} EntriesSubdirectories(path: Path, entries: seq<Node>, skips: seq<string>, base: Path)
    ensures |Entries(path, entries, skips, base).subdirectories| == |DirEntries(entries)|
    ensures forall k :: 0 <= k < |DirEntries(entries)| ==>
              Entries(path, entries, skips, base).subdirectories[k]
                == Summarize(path + [DirEntries(entries)[k].name], DirEntries(entries)[k], skips, base)
    decreases |entries|
  {
    if entries != [] {
      EntriesSubdirectories(path, entries[..|entries| - 1], skips, base);
    }
  }

  /**
   * A descended directory has one subdirectory summary per directory entry, in
   * enumeration order, each the summary of that entry at its own path; a skipped
   * directory and a non-directory have none.
   */
  lemma SubdirectoriesMirrorEntries(path: Path, node: Node, skips: seq<string>, base: Path)
    ensures !Descended(path, node, skips) ==> Summarize(path, node, skips, base).subdirectories == []
    ensures Descended(path, node, skips) ==>
              var subs := Summarize(path, node, skips, base).subdirectories;
              var dirs := DirEntries(node.children);
              && |subs| == |dirs|
              && forall k :: 0 <= k < |dirs| ==> subs[k] == Summarize(path + [dirs[k].name], dirs[k], skips, base)
  {
    if Descended(path, node, skips) {
      EntriesSubdirectories(path, node.children, skips, base);
    }
  }

  // ---------------------------------------------------------------------------
  // Totals split into the direct files plus the subdirectories

  lemma {:induction false} EntriesTotalsSplit(path: Path, entries: seq<Node>, skips: seq<string>, base: Path)
    ensures Entries(path, entries, skips, base).totalSize
              == DirectFileSizes(entries) + SumTotals(Entries(path, entries, skips, base).subdirectories)
    ensures Entries(path, entries, skips, base).fileCount
              == DirectFileCount(entries) + SumCounts(Entries(path, entries, skips, base).subdirectories)
    decreases |entries|
  {
    if entries != [] {
      var prefix := entries[..|entries| - 1];
      EntriesTotalsSplit(path, prefix, skips, base);
      var subs := Entries(path, prefix, skips, base).subdirectories;
      var entry := entries[|entries| - 1];
      if entry.Dir? {
        var sub := Summarize(path + [entry.name], entry, skips, base);
        assert (subs + [sub])[..|subs|] == subs;
      }
    }
  }

  /**
   * The total size of a descended directory is the size of its direct files plus
   * the totals of its subdirectories, and likewise for the file count.
   */
  lemma TotalsSplit(path: Path, node: Node, skips: seq<string>, base: Path)
    requires Descended(path, node, skips)
    ensures Summarize(path, node, skips, base).totalSize
              == DirectFileSizes(node.children) + SumTotals(Summarize(path, node, skips, base).subdirectories)
    ensures Summarize(path, node, skips, base).fileCount
              == DirectFileCount(node.children) + SumCounts(Summarize(path, node, skips, base).subdirectories)
  {
    EntriesTotalsSplit(path, node.children, skips, base);
  }

  // ---------------------------------------------------------------------------
  // Every summary in the tree is consistent

  /** Every node of a summary tree has its count equal to the length of its file
      list and its total equal to the sum of its file sizes. */
  lemma {:induction false} SummaryConsistent(path: Path, node: Node, skips: seq<string>, base: Path)
    ensures Consistent(Summarize(path, node, skips, base))
    decreases node, 1
  {
    if Descended(path, node, skips) {
      EntriesConsistent(path, node.children, skips, base);
    }
  }

  lemma {:induction false} EntriesConsistent(path: Path, entries: seq<Node>, skips: seq<string>, base: Path)
    ensures Consistent(Entries(path, entries, skips, base))
    decreases entries, 0
  {
    if entries != [] {
      var prefix := entries[..|entries| - 1];
      EntriesConsistent(path, prefix, skips, base);
      var entry := entries[|entries| - 1];
      if entry.Dir? {
        SummaryConsistent(path + [entry.name], entry, skips, base);
        var acc := Entries(path, prefix, skips, base);
        var sub := Summarize(path + [entry.name], entry, skips, base);
        var subs := acc.subdirectories + [sub];
        forall k | 0 <= k < |subs| ensures Consistent(subs[k]) {
          if k < |acc.subdirectories| {
            assert subs[k] == acc.subdirectories[k];
          }
        }
      }
    }
  }

  // ---------------------------------------------------------------------------
  // File lists are cumulative

  lemma InfixOfLonger(a: seq<FileInfo>, b: seq<FileInfo>, c: seq<FileInfo>)
    requires IsInfix(a, b)
    ensures IsInfix(a, b + c)
  {
    var i :| 0 <= i <= |b| && a <= b[i..];
    assert (b + c)[i..] == b[i..] + c;
  }

  lemma InfixAtEnd(a: seq<FileInfo>, b: seq<FileInfo>)
    ensures IsInfix(a, b + a)
  {
    assert (b + a)[|b|..] == a;
  }

  /** The files of each subdirectory summary of `s` occur as one block in the files of `s`. */
  ghost predicate CumulativeAtTop(s: DirectorySummary) {
    forall k :: 0 <= k < |s.subdirectories| ==> IsInfix(s.subdirectories[k].files, s.files)
  }

  lemma {:induction false} EntriesCumulative(path: Path, entries: seq<Node>, skips: seq<string>, base: Path)
    ensures CumulativeAtTop(Entries(path, entries, skips, base))
    decreases |entries|
  {
    if entries != [] {
      var prefix := entries[..|entries| - 1];
      EntriesCumulative(path, prefix, skips, base);
      var acc := Entries(path, prefix, skips, base);
      var s := Entries(path, entries, skips, base);
      var entry := entries[|entries| - 1];
      if !entry.Other? {
        var added := s.files[|acc.files|..];
        assert s.files == acc.files + added;
        forall k | 0 <= k < |s.subdirectories| ensures IsInfix(s.subdirectories[k].files, s.files) {
          if k < |acc.subdirectories| {
            assert s.subdirectories[k] == acc.subdirectories[k];
            InfixOfLonger(acc.subdirectories[k].files, acc.files, added);
          } else {
            InfixAtEnd(s.subdirectories[k].files, acc.files);
          }
        }
      }
    }
  }

  /**
   * The files of each subdirectory summary appear, as one contiguous block and
   * in the same order, in the file list of its parent.
   */
  lemma CumulativeFiles(path: Path, node: Node, skips: seq<string>, base: Path)
    ensures CumulativeAtTop(Summarize(path, node, skips, base))
  {
    if Descended(path, node, skips) {
      EntriesCumulative(path, node.children, skips, base);
    }
  }

  /** A recursive strengthening: the files of each subdirectory occur as a block
      in its parent's file list at every level of the tree. */
  ghost predicate CumulativeEverywhere(s: DirectorySummary)
    decreases s
  {
    && CumulativeAtTop(s)
    && forall k :: 0 <= k < |s.subdirectories| ==> CumulativeEverywhere(s.subdirectories[k])
  }

  /** Every level of a summary tree is cumulative. */
  lemma {:induction false} SummaryCumulativeEverywhere(path: Path, node: Node, skips: seq<string>, base: Path)
    ensures CumulativeEverywhere(Summarize(path, node, skips, base))
    decreases node, 1
  {
    CumulativeFiles(path, node, skips, base);
    if Descended(path, node, skips) {
      EntriesCumulativeEverywhere(path, node.children, skips, base);
    }
  }

  lemma {:induction false} EntriesCumulativeEverywhere(path: Path, entries: seq<Node>, skips: seq<string>, base: Path)
    ensures forall k :: 0 <= k < |Entries(path, entries, skips, base).subdirectories| ==>
              CumulativeEverywhere(Entries(path, entries, skips, base).subdirectories[k])
    decreases entries, 0
  {
    if entries != [] {
      var prefix := entries[..|entries| - 1];
      EntriesCumulativeEverywhere(path, prefix, skips, base);
      var entry := entries[|entries| - 1];
      if entry.Dir? {
        SummaryCumulativeEverywhere(path + [entry.name], entry, skips, base);
        var acc := Entries(path, prefix, skips, base);
        var subs := Entries(path, entries, skips, base).subdirectories;
        forall k | 0 <= k < |subs| ensures CumulativeEverywhere(subs[k]) {
          if k < |acc.subdirectories| {
            assert subs[k] == acc.subdirectories[k];
          }
        }
      }
    }
  }

  // ---------------------------------------------------------------------------
  // The file list is exactly the in-order concatenation of what each entry adds

  /** What one entry of the directory at `path` adds to the file list: a regular
      file its own record, a directory that directory's whole file list, anything
      else nothing. */
  function Contribution(path: Path, entry: Node, skips: seq<string>, base: Path): seq<FileInfo> {
    match entry
    case File(name, size) => [FileInfoFor(name, size, path + [name], base)]
    case Dir(name, _) => Summarize(path + [name], entry, skips, base).files
    case Other(_) => []
  }

  /** The contributions of `entries`, first entry first, concatenated. */
  function Flatten(path: Path, entries: seq<Node>, skips: seq<string>, base: Path): seq<FileInfo> {
    if entries == [] then []
    else Contribution(path, entries[0], skips, base) + Flatten(path, entries[1..], skips, base)
  }

  lemma {:induction false} FlattenAppend(path: Path, entries: seq<Node>, entry: Node, skips: seq<string>, base: Path)
    ensures Flatten(path, entries + [entry], skips, base)
         == Flatten(path, entries, skips, base) + Contribution(path, entry, skips, base)
    decreases |entries|
  {
    if entries == [] {
      assert (entries + [entry])[1..] == [];
    } else {
      assert (entries + [entry])[1..] == entries[1..] + [entry];
      FlattenAppend(path, entries[1..], entry, skips, base);
    }
  }

  lemma {:induction false} EntriesFilesFlatten(path: Path, entries: seq<Node>, skips: seq<string>, base: Path)
    ensures Entries(path, entries, skips, base).files == Flatten(path, entries, skips, base)
    decreases |entries|
  {
    if entries != [] {
      var prefix := entries[..|entries| - 1];
      EntriesFilesFlatten(path, prefix, skips, base);
      FlattenAppend(path, prefix, entries[|entries| - 1], skips, base);
      assert prefix + [entries[|entries| - 1]] == entries;
    }
  }

  /**
   * The file list of a descended directory is exactly, in enumeration order, each
   * direct file's record and each subdirectory's whole file list, one after the
   * other; a skipped directory or a non-directory lists no files.
   */
  lemma FilesAreConcatenation(path: Path, node: Node, skips: seq<string>, base: Path)
    ensures !Descended(path, node, skips) ==> Summarize(path, node, skips, base).files == []
    ensures Descended(path, node, skips) ==>
              Summarize(path, node, skips, base).files == Flatten(path, node.children, skips, base)
  {
    if Descended(path, node, skips) {
      EntriesFilesFlatten(path, node.children, skips, base);
    }
  }

  // ---------------------------------------------------------------------------
  // Entries that are neither files nor directories add nothing

  lemma {:induction false} EntriesIgnoreOthers(path: Path, entries: seq<Node>, skips: seq<string>, base: Path)
    ensures Entries(path, WithoutOthers(entries), skips, base) == Entries(path, entries, skips, base)
    decreases |entries|
  {
    if entries != [] {
      var prefix := entries[..|entries| - 1];
      EntriesIgnoreOthers(path, prefix, skips, base);
      var entry := entries[|entries| - 1];
      if !entry.Other? {
        var kept := WithoutOthers(prefix) + [entry];
        assert kept[..|kept| - 1] == WithoutOthers(prefix);
      }
    }
  }

  lemma {:induction false} WithoutOthersAppend(a: seq<Node>, b: seq<Node>)
    ensures WithoutOthers(a + b) == WithoutOthers(a) + WithoutOthers(b)
    decreases |b|
  {
    if b == [] {
      assert a + b == a;
    } else {
      assert (a + b)[..|a + b| - 1] == a + b[..|b| - 1];
      WithoutOthersAppend(a, b[..|b| - 1]);
    }
  }

  /** Removing every entry that is neither a regular file nor a directory leaves
      the summary of a directory unchanged. */
  lemma OthersAddNothing(path: Path, name: string, children: seq<Node>, skips: seq<string>, base: Path)
    ensures Summarize(path, Dir(name, WithoutOthers(children)), skips, base)
         == Summarize(path, Dir(name, children), skips, base)
  {
    EntriesIgnoreOthers(path, children, skips, base);
  }

  /** An entry that is neither a regular file nor a directory, wherever it stands
      among the entries, changes nothing. */
  lemma OtherEntryChangesNothing(path: Path, before: seq<Node>, other: Node, after: seq<Node>,
                                 skips: seq<string>, base: Path)
    requires other.Other?
    ensures Entries(path, before + [other] + after, skips, base) == Entries(path, before + after, skips, base)
  {
    WithoutOthersAppend(before + [other], after);
    WithoutOthersAppend(before, [other]);
    WithoutOthersAppend(before, after);
    assert WithoutOthers([other]) == [];
    EntriesIgnoreOthers(path, before + [other] + after, skips, base);
    EntriesIgnoreOthers(path, before + after, skips, base);
  }

  // ---------------------------------------------------------------------------
  // The file list holds exactly the visible files, each with its relative path

  /**
   * Every file listed in the summary of the entry at `path` lies below `path`:
   * its folder is the path of `path` relative to `base` followed by a non-empty
   * relative path along which the file is visible, ending in the file's name.
   */
  lemma {:induction false} ListedFilesAreVisible(path: Path, node: Node, skips: seq<string>, base: Path, f: FileInfo)
    requires base <= path
    requires f in Summarize(path, node, skips, base).files
    ensures |f.folder| > |path| - |base|
    ensures f.folder[..|path| - |base|] == path[|base|..]
    ensures f.name == Last(f.folder)
    ensures FileVisible(path, node, f.folder[|path| - |base|..], f.size, skips)
    decreases node, 1
  {
    EntriesFilesAreVisible(path, node.children, skips, base, f);
  }

  lemma {:induction false} EntriesFilesAreVisible(path: Path, entries: seq<Node>, skips: seq<string>, base: Path, f: FileInfo)
    requires base <= path
    requires f in Entries(path, entries, skips, base).files
    ensures |f.folder| > |path| - |base|
    ensures f.folder[..|path| - |base|] == path[|base|..]
    ensures f.name == Last(f.folder)
    ensures VisibleAmong(path, entries, f.folder[|path| - |base|..], f.size, skips)
    decreases entries, 0
  {
    var n := |entries|;
    var prefix := entries[..n - 1];
    var entry := entries[n - 1];
    if f in Entries(path, prefix, skips, base).files {
      EntriesFilesAreVisible(path, prefix, skips, base, f);
      VisibleAmongLonger(path, prefix, entries, f.folder[|path| - |base|..], f.size, skips);
    } else if entry.File? {
      LastFileIsVisible(path, entries, skips, base, f);
    } else {
      StripChild(path, entry.name, base);
      ListedFilesAreVisible(path + [entry.name], entry, skips, base, f);
      LastDirFileIsVisible(path, entries, skips, base, f);
    }
  }

  /** Visibility through some entry of a prefix carries over to the longer entry list. */
  lemma VisibleAmongLonger(path: Path, prefix: seq<Node>, entries: seq<Node>, rel: Path, size: nat, skips: seq<string>)
    requires prefix <= entries
    requires VisibleAmong(path, prefix, rel, size, skips)
    ensures VisibleAmong(path, entries, rel, size, skips)
  {
    var j :| 0 <= j < |prefix| && VisibleAt(path, prefix, j, rel, size, skips);
    assert entries[j] == prefix[j];
    assert VisibleAt(path, entries, j, rel, size, skips);
  }

  /** The record added for a regular file that is the last entry names a visible file. */
  lemma LastFileIsVisible(path: Path, entries: seq<Node>, skips: seq<string>, base: Path, f: FileInfo)
    requires base <= path
    requires |entries| > 0 && entries[|entries| - 1].File?
    requires f == FileInfoFor(entries[|entries| - 1].name, entries[|entries| - 1].size,
                              path + [entries[|entries| - 1].name], base)
    ensures |f.folder| > |path| - |base|
    ensures f.folder[..|path| - |base|] == path[|base|..]
    ensures f.name == Last(f.folder)
    ensures VisibleAmong(path, entries, f.folder[|path| - |base|..], f.size, skips)
  {
    var entry := entries[|entries| - 1];
    StripChild(path, entry.name, base);
    var rel := f.folder[|path| - |base|..];
    assert rel == [entry.name];
    assert VisibleAt(path, entries, |entries| - 1, rel, f.size, skips);
  }

  /** A file listed by a directory that is the last entry is visible through that entry. */
  lemma LastDirFileIsVisible(path: Path, entries: seq<Node>, skips: seq<string>, base: Path, f: FileInfo)
    requires base <= path
    requires |entries| > 0
    requires var child := path + [entries[|entries| - 1].name];
             && base <= child
             && |f.folder| > |child| - |base|
             && f.folder[..|child| - |base|] == child[|base|..]
             && f.name == Last(f.folder)
             && FileVisible(child, entries[|entries| - 1], f.folder[|child| - |base|..], f.size, skips)
    ensures |f.folder| > |path| - |base|
    ensures f.folder[..|path| - |base|] == path[|base|..]
    ensures f.name == Last(f.folder)
    ensures VisibleAmong(path, entries, f.folder[|path| - |base|..], f.size, skips)
  {
    var entry := entries[|entries| - 1];
    var child := path + [entry.name];
    var rel := f.folder[|path| - |base|..];
    assert f.folder[..|path| - |base|] == child[|base|..][..|path| - |base|];
    assert rel[0] == entry.name;
    assert rel[1..] == f.folder[|child| - |base|..];
    assert VisibleAt(path, entries, |entries| - 1, rel, f.size, skips);
  }

  /**
   * Every file visible from the entry at `path` along `rel` is listed in its
   * summary, with its name, its size and `path` relative to `base` followed by
   * `rel` as its folder.
   */
  lemma {:induction false} VisibleFilesAreListed(path: Path, node: Node, rel: Path, size: nat,
                                                 skips: seq<string>, base: Path)
    requires base <= path
    requires FileVisible(path, node, rel, size, skips)
    ensures |rel| > 0
    ensures FileInfo(Last(rel), size, path[|base|..] + rel) in Summarize(path, node, skips, base).files
    decreases node, 1
  {
    EntriesVisibleFilesAreListed(path, node.children, rel, size, skips, base);
  }

  lemma {:induction false} EntriesVisibleFilesAreListed(path: Path, entries: seq<Node>, rel: Path, size: nat,
                                                        skips: seq<string>, base: Path)
    requires base <= path
    requires VisibleAmong(path, entries, rel, size, skips)
    ensures FileInfo(Last(rel), size, path[|base|..] + rel) in Entries(path, entries, skips, base).files
    decreases entries, 0
  {
    var n := |entries|;
    var prefix := entries[..n - 1];
    var entry := entries[n - 1];
    var j :| 0 <= j < n && VisibleAt(path, entries, j, rel, size, skips);
    if j < n - 1 {
      VisibleAmongShorter(path, entries, j, rel, size, skips);
      EntriesVisibleFilesAreListed(path, prefix, rel, size, skips, base);
      EntriesFilesGrow(path, entries, skips, base);
    } else if |rel| == 1 {
      LastVisibleFileIsListed(path, entries, rel, size, skips, base);
    } else {
      StripChild(path, entry.name, base);
      VisibleFilesAreListed(path + [entry.name], entry, rel[1..], size, skips, base);
      LastVisibleDirFileIsListed(path, entries, rel, size, skips, base);
    }
  }

  /** Visibility through an entry other than the last holds among the entries before the last. */
  lemma VisibleAmongShorter(path: Path, entries: seq<Node>, j: int, rel: Path, size: nat, skips: seq<string>)
    requires 0 <= j < |entries| - 1 && |rel| > 0
    requires VisibleAt(path, entries, j, rel, size, skips)
    ensures VisibleAmong(path, entries[..|entries| - 1], rel, size, skips)
  {
    var prefix := entries[..|entries| - 1];
    assert prefix[j] == entries[j];
    assert VisibleAt(path, prefix, j, rel, size, skips);
  }

  /** Visiting one more entry never drops a file already listed. */
  lemma EntriesFilesGrow(path: Path, entries: seq<Node>, skips: seq<string>, base: Path)
    requires |entries| > 0
    ensures Entries(path, entries[..|entries| - 1], skips, base).files <= Entries(path, entries, skips, base).files
  {
  }

  /** A visible regular file that is the last entry is listed. */
  lemma LastVisibleFileIsListed(path: Path, entries: seq<Node>, rel: Path, size: nat, skips: seq<string>, base: Path)
    requires base <= path
    requires |entries| > 0 && |rel| == 1
    requires VisibleAt(path, entries, |entries| - 1, rel, size, skips)
    ensures FileInfo(Last(rel), size, path[|base|..] + rel) in Entries(path, entries, skips, base).files
  {
    var entry := entries[|entries| - 1];
    StripChild(path, entry.name, base);
    assert rel == [entry.name];
    assert FileInfo(Last(rel), size, path[|base|..] + rel)
        == FileInfoFor(entry.name, entry.size, path + [entry.name], base);
  }

  /** A file listed by a directory that is the last entry is listed by its parent. */
  lemma LastVisibleDirFileIsListed(path: Path, entries: seq<Node>, rel: Path, size: nat, skips: seq<string>, base: Path)
    requires base <= path
    requires |entries| > 0 && |rel| > 1 && entries[|entries| - 1].Dir?
    requires rel[0] == entries[|entries| - 1].name
    requires var child := path + [entries[|entries| - 1].name];
             FileInfo(Last(rel[1..]), size, child[|base|..] + rel[1..])
               in Summarize(child, entries[|entries| - 1], skips, base).files
    ensures FileInfo(Last(rel), size, path[|base|..] + rel) in Entries(path, entries, skips, base).files
  {
    var entry := entries[|entries| - 1];
    var child := path + [entry.name];
    assert child[|base|..] + rel[1..] == path[|base|..] + rel;
    assert Last(rel[1..]) == Last(rel);
  }
}
