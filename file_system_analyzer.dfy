/**
 * The analysis of one root directory: the aggregator called on the root with
 * the root itself as the base for relative paths.
 */
module FileSystemAnalyzer {
  import opened FsTree
  import opened Analyzer
  import opened AnalyzerProperties

  /**
   * Summarizes the tree `tree` found at `root`. The summary is consistent at every
   * level and cumulative at every level, the root itself is subject to the skip
   * list, a descended root has one subdirectory summary per directory entry in
   * order, its totals split into direct files plus subdirectories, its file list
   * is the in-order concatenation of what each entry adds, and it holds exactly
   * the visible files, each with its path relative to the root (file name
   * included) as its folder.
   */
  method AnalyzeRoot(root: Path, tree: Node, skips: seq<string>) returns (summary: DirectorySummary)
    ensures summary == Summarize(root, tree, skips, root)
    ensures summary.directory == root
    ensures Consistent(summary)
    ensures CumulativeEverywhere(summary)
    ensures !Descended(root, tree, skips) ==> summary == EmptySummary(root)
    ensures Descended(root, tree, skips) ==>
              && |summary.subdirectories| == |DirEntries(tree.children)|
              && (forall k :: 0 <= k < |DirEntries(tree.children)| ==>
                    summary.subdirectories[k]
                      == Summarize(root + [DirEntries(tree.children)[k].name], DirEntries(tree.children)[k], skips, root))
              && summary.totalSize == DirectFileSizes(tree.children) + SumTotals(summary.subdirectories)
              && summary.fileCount == DirectFileCount(tree.children) + SumCounts(summary.subdirectories)
              && summary.files == Flatten(root, tree.children, skips, root)
    ensures forall f :: f in summary.files <==>
              (|f.folder| > 0 && f.name == Last(f.folder) && FileVisible(root, tree, f.folder, f.size, skips))
  {
    summary := AnalyzeDirectory(root, tree, skips, root);
    SummaryConsistent(root, tree, skips, root);
    SummaryCumulativeEverywhere(root, tree, skips, root);
    SubdirectoriesMirrorEntries(root, tree, skips, root);
    FilesAreConcatenation(root, tree, skips, root);
    if Descended(root, tree, skips) {
      TotalsSplit(root, tree, skips, root);
    }
    forall f
      ensures f in summary.files <==>
              (|f.folder| > 0 && f.name == Last(f.folder) && FileVisible(root, tree, f.folder, f.size, skips))
    {
      if f in summary.files {
        ListedFilesAreVisible(root, tree, skips, root, f);
      }
      if |f.folder| > 0 && f.name == Last(f.folder) && FileVisible(root, tree, f.folder, f.size, skips) {
        VisibleFilesAreListed(root, tree, f.folder, f.size, skips, root);
        assert root[|root|..] + f.folder == f.folder;
      }
    }
  }
}
