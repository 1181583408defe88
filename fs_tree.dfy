/**
 * The filesystem as the aggregator sees it: a tree of entries in the order the
 * operating system enumerates them, and paths as sequences of components.
 */
module FsTree {

  /** A path as the sequence of its components (`a/b/c.txt` is ["a", "b", "c.txt"]). */
  type Path = seq<string>

  /**
   * One directory entry. `File` is a regular file with its byte length, `Dir` a
   * directory with its entries in enumeration order, `Other` anything else
   * (a symbolic link, a device, a socket).
   */
  datatype Node =
    | File(name: string, size: nat)
    | Dir(name: string, children: seq<Node>)
    | Other(name: string)

  function Last(p: Path): string
    requires |p| > 0
  {
    p[|p| - 1]
  }

  /**
   * A component that names something: not the root marker and not the
   * current-directory or parent-directory markers.
   */
  predicate IsNormal(c: string) {
    c != "/" && c != "." && c != ".."
  }

  /**
   * The base name of a path: its last component when that is a normal one,
   * and the empty name otherwise (the empty path, "/", ".", a path ending in "..").
   */
  function BaseName(p: Path): (name: string)
    ensures !(|p| > 0 && IsNormal(Last(p))) ==> name == ""
    ensures |p| > 0 && IsNormal(Last(p)) ==> name == Last(p)
  {
    if |p| > 0 && IsNormal(p[|p| - 1]) then p[|p| - 1] else ""
  }

  /**
   * Removes the component prefix `base` from `p`; when `base` is not a prefix
   * of `p`, the path comes back whole.
   */
  function StripPrefix(p: Path, base: Path): (r: Path)
    ensures base <= p ==> base + r == p
    ensures !(base <= p) ==> r == p
  {
    if base <= p then p[|base|..] else p
  }

  /** The entry path of a child named `name` inside `dir`, and how it strips. */
  lemma StripChild(dir: Path, name: string, base: Path)
    requires base <= dir
    ensures base <= dir + [name]
    ensures StripPrefix(dir + [name], base) == StripPrefix(dir, base) + [name]
  {
  }
}
