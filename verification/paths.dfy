/** Names and relative paths, as used both inside the merge root and inside
    a fetched source tree. A path is the sequence of its components; the
    empty path is the root of the tree it is relative to. */
module Paths {

  /** One path component: non-empty, free of the separator, and not one of
      the special names `.` and `..` (paths in the model are already
      normalised, so they never walk upwards). */
  predicate ValidName(s: string) {
    |s| > 0 && '/' !in s && s != "." && s != ".."
  }

  type Name = s: string | ValidName(s) witness "a"

  type Path = seq<Name>

  /** A path that names an entry below the root, never the root itself. */
  type EntryPath = p: Path | |p| > 0 witness ["a"]

  /** `os.path.dirname` of a path below the root. */
  function Parent(p: Path): Path
    requires |p| > 0
  {
    p[..|p| - 1]
  }

  /** `os.path.basename` of a path below the root. */
  function Basename(p: Path): Name
    requires |p| > 0
  {
    p[|p| - 1]
  }

  /** `name.startswith('.git')`: the prefix that marks version-control
      metadata (`.git`, but also `.gitignore`, `.gitmodules`, ...). */
  predicate HasGitPrefix(name: string) {
    |name| >= 4 && name[..4] == ".git"
  }
}
