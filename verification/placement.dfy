/** The destination table of `_link_overlay_files`, one lemma per row:
    where a match ends up, what is created on the way, and which cases
    raise or do nothing. */
module Placement {
  import opened Paths
  import opened Results
  import opened FileSystem
  import opened Overlay

  /** `d` is a directory of the merge root already, or `os.makedirs` can
      create it. */
  predicate Reachable(fs: Fs, d: Path) {
    IsRealDir(fs, d) || Creatable(fs, d)
  }

  /** The location a regular-file match is linked at. */
  function FileLocation(fs: Fs, src: EntryPath, dst: Option<DstSpec>): Result<Path> {
    var dest :- FileDestination(fs, src, dst);
    Ok(dest.0 + [dest.1])
  }

  /** Creating a reachable directory and then forcing a link inside it
      leaves the link there, inside a directory of the merge root. */
  lemma EnsureThenLink(fs: Fs, target: Target, toDir: bool, dir: Path, slash: bool, name: Name)
    requires WF(fs) && Reachable(fs, dir)
    requires LStat(fs, dir + [name]) != Present(Dir)
    ensures EnsureDir(fs, dir, slash).Ok?
    ensures IsRealDir(EnsureDir(fs, dir, slash).value, dir)
    ensures ForceSymlink(EnsureDir(fs, dir, slash).value, target, toDir, dir + [name])
              == Ok(EnsureDir(fs, dir, slash).value[dir + [name] := Link(target, toDir)])
    ensures IsRealDir(EnsureDir(fs, dir, slash).value[dir + [name] := Link(target, toDir)], dir)
  {
    var loc := dir + [name];
    assert Parent(loc) == dir;
    var fs1 := EnsureDir(fs, dir, slash).value;
    if !IsRealDir(fs, dir) {
      assert loc !in fs by {
        if loc in fs {
          LStatOfEntry(fs, loc);
        }
      }
      assert LStat(fs1, loc) == Missing;
    }
    LStatBelowChange(fs1, fs1[loc := Link(target, toDir)], loc, dir);
  }

  /** The file branch once its destination is chosen: the directory is
      made when missing and the link is forced inside it. */
  lemma LinkFileInto(fs: Fs, tree: string, m: Match, dst: Option<DstSpec>, dir: Path, name: Name)
    requires WF(fs)
    requires m.kind == Regular && !HasGitPrefix(Basename(m.path))
    requires FileDestination(fs, m.path, dst) == Ok((dir, name))
    requires Reachable(fs, dir) && LStat(fs, dir + [name]) != Present(Dir)
    ensures LinkMatch(fs, tree, m, dst).Ok?
    ensures LinkMatch(fs, tree, m, dst).value
            == EnsureDir(fs, dir, Slashed(dst)).value[dir + [name] := Link(Target(tree, m.path), false)]
    ensures IsRealDir(LinkMatch(fs, tree, m, dst).value, dir)
  {
    var t := Target(tree, m.path);
    EnsureThenLink(fs, t, false, dir, Slashed(dst), name);
    var fs1 := EnsureDir(fs, dir, Slashed(dst)).value;
    assert LinkFile(fs, t, m.path, dst) == ForceSymlink(fs1, t, false, dir + [name]);
  }

  /** A regular file with no or an empty `dst` is linked at its own path
      relative to the fetched tree, and that directory is created when
      missing. */
  lemma FileWithoutDst(fs: Fs, tree: string, m: Match, dst: Option<DstSpec>)
    requires WF(fs)
    requires m.kind == Regular && !HasGitPrefix(Basename(m.path)) && NoDst(dst)
    requires Reachable(fs, Parent(m.path))
    requires LStat(fs, m.path) != Present(Dir)
    ensures LinkMatch(fs, tree, m, dst).Ok?
    ensures IsRealDir(LinkMatch(fs, tree, m, dst).value, Parent(m.path))
    ensures m.path in LinkMatch(fs, tree, m, dst).value
    ensures LinkMatch(fs, tree, m, dst).value[m.path] == Link(Target(tree, m.path), false)
  {
    assert Parent(m.path) + [Basename(m.path)] == m.path;
    LinkFileInto(fs, tree, m, dst, Parent(m.path), Basename(m.path));
  }

  /** A regular file whose `dst` is a directory of the merge root, or ends
      in `/`, is linked inside `dst` under its own name; `dst` is created
      first when missing. */
  lemma FileIntoDirectory(fs: Fs, tree: string, m: Match, dst: Option<DstSpec>)
    requires WF(fs)
    requires m.kind == Regular && !HasGitPrefix(Basename(m.path)) && !NoDst(dst)
    requires IsRealDir(fs, dst.value.path) || (dst.value.slash && Creatable(fs, dst.value.path))
    requires LStat(fs, dst.value.path + [Basename(m.path)]) != Present(Dir)
    ensures LinkMatch(fs, tree, m, dst).Ok?
    ensures IsRealDir(LinkMatch(fs, tree, m, dst).value, dst.value.path)
    ensures dst.value.path + [Basename(m.path)] in LinkMatch(fs, tree, m, dst).value
    ensures LinkMatch(fs, tree, m, dst).value[dst.value.path + [Basename(m.path)]]
              == Link(Target(tree, m.path), false)
  {
    LinkFileInto(fs, tree, m, dst, dst.value.path, Basename(m.path));
  }

  /** A regular file whose `dst` is neither a directory nor ends in `/` is
      linked at exactly `dst` (a rename), replacing what was there, after
      the containing directory is created when missing. */
  lemma FileRename(fs: Fs, tree: string, m: Match, dst: Option<DstSpec>)
    requires WF(fs)
    requires m.kind == Regular && !HasGitPrefix(Basename(m.path)) && !NoDst(dst) && !dst.value.slash
    requires LStat(fs, dst.value.path).Missing? || (LStat(fs, dst.value.path).Present? && !IsDir(fs, dst.value.path))
    requires Reachable(fs, Parent(dst.value.path))
    ensures LinkMatch(fs, tree, m, dst).Ok?
    ensures IsRealDir(LinkMatch(fs, tree, m, dst).value, Parent(dst.value.path))
    ensures dst.value.path in LinkMatch(fs, tree, m, dst).value
    ensures LinkMatch(fs, tree, m, dst).value[dst.value.path] == Link(Target(tree, m.path), false)
  {
    var d := dst.value.path;
    assert Parent(d) + [Basename(d)] == d;
    LinkFileInto(fs, tree, m, dst, Parent(d), Basename(d));
  }

  /** A regular file whose `dst` ends in `/` but names a file or a link to
      a file: `os.path.exists` of `dst/` is false, so `os.makedirs` runs,
      and its `os.mkdir` raises EEXIST. */
  lemma FileIntoNonDirectory(fs: Fs, tree: string, m: Match, dst: Option<DstSpec>)
    requires m.kind == Regular && !HasGitPrefix(Basename(m.path)) && dst.Some? && dst.value.slash
    requires LStat(fs, dst.value.path).Present? && !IsDir(fs, dst.value.path)
    ensures LinkMatch(fs, tree, m, dst) == Err(AlreadyExists(dst.value.path))
  {
  }

  /** A directory whose `dst` is a directory of the merge root (the empty
      `dst` names the root) is linked inside it under its own name, and no
      directory is created. */
  lemma DirIntoDirectory(fs: Fs, tree: string, m: Match, dst: Option<DstSpec>)
    requires m.kind == Directory && !HasGitPrefix(Basename(m.path)) && dst.Some?
    requires IsRealDir(fs, dst.value.path)
    requires LStat(fs, dst.value.path + [Basename(m.path)]) != Present(Dir)
    ensures LinkMatch(fs, tree, m, dst)
              == Ok(fs[dst.value.path + [Basename(m.path)] := Link(Target(tree, m.path), true)])
  {
    assert Parent(dst.value.path + [Basename(m.path)]) == dst.value.path;
  }

  /** A directory whose `dst` ends in `/` but does not exist: the link fails
      with ENOENT inside `_force_symlink`, which swallows it, so nothing is
      linked and nothing is raised. */
  lemma DirIntoMissingDirectory(fs: Fs, tree: string, m: Match, dst: Option<DstSpec>)
    requires m.kind == Directory && !HasGitPrefix(Basename(m.path)) && dst.Some? && dst.value.slash
    requires LStat(fs, dst.value.path) == Missing
    ensures LinkMatch(fs, tree, m, dst) == Ok(fs)
  {
    var loc := dst.value.path + [Basename(m.path)];
    assert Parent(loc) == dst.value.path;
  }

  /** A directory with no `dst`: `os.path.join(root, None)` raises. */
  lemma DirWithoutDst(fs: Fs, tree: string, m: Match)
    requires m.kind == Directory && !HasGitPrefix(Basename(m.path))
    ensures LinkMatch(fs, tree, m, None) == Err(NotAString("dst"))
  {
  }

  /** A directory whose `dst` is missing and does not end in `/`: `dst` is
      created as a directory and `_force_symlink` then fails to remove it,
      so the merge raises. */
  lemma DirRenameToMissing(fs: Fs, tree: string, m: Match, dst: Option<DstSpec>)
    requires m.kind == Directory && !HasGitPrefix(Basename(m.path)) && dst.Some? && !dst.value.slash
    requires LStat(fs, dst.value.path) == Missing
    ensures LinkMatch(fs, tree, m, dst).Err?
  {
  }

  /** A directory whose `dst` holds a file or a link to a file, and does not
      end in `/`: that entry is replaced by a link to the directory. */
  lemma DirRenameReplaces(fs: Fs, tree: string, m: Match, dst: Option<DstSpec>)
    requires m.kind == Directory && !HasGitPrefix(Basename(m.path)) && dst.Some? && !dst.value.slash
    requires LStat(fs, dst.value.path).Present? && !IsDir(fs, dst.value.path)
    ensures LinkMatch(fs, tree, m, dst) == Ok(fs[dst.value.path := Link(Target(tree, m.path), true)])
  {
  }

  /** A directory matched by a pattern ending in `/` has an empty basename,
      so a `.git/` match is not skipped. */
  lemma SlashedMatchNotSkipped(m: Match)
    requires m.kind == SlashedDirectory
    ensures Linkable(m)
  {
  }

  /** A `/`-spelled directory match whose `dst` is present and is a
      directory or ends in `/` (the empty `dst` names the root): the link
      would be `dst/` itself, `os.symlink` raises EEXIST, and the `os.remove`
      of `dst/` raises, for a directory and for anything else. */
  lemma SlashedDirOntoExisting(fs: Fs, tree: string, m: Match, dst: Option<DstSpec>)
    requires m.kind == SlashedDirectory && dst.Some?
    requires IsDir(fs, dst.value.path) || (dst.value.slash && LStat(fs, dst.value.path).Present?)
    ensures LinkMatch(fs, tree, m, dst).Err?
    ensures IsRealDir(fs, dst.value.path) ==> LinkMatch(fs, tree, m, dst) == Err(IsADirectory(dst.value.path))
  {
  }

  /** A `/`-spelled directory match whose `dst` ends in `/` and is missing:
      `os.symlink` of `dst/` fails with ENOENT, which is swallowed. */
  lemma SlashedDirIntoMissing(fs: Fs, tree: string, m: Match, dst: Option<DstSpec>)
    requires m.kind == SlashedDirectory && dst.Some? && dst.value.slash
    requires LStat(fs, dst.value.path) == Missing
    ensures LinkMatch(fs, tree, m, dst) == Ok(fs)
  {
  }

  /** Last write wins: a regular-file match whose location already holds a
      link or a file (from an earlier overlay or repository) replaces it, and
      nothing else changes. */
  lemma LaterLinkReplaces(fs: Fs, tree: string, m: Match, dst: Option<DstSpec>, loc: Path)
    requires WF(fs)
    requires m.kind == Regular && !HasGitPrefix(Basename(m.path))
    requires FileLocation(fs, m.path, dst) == Ok(loc)
    requires loc in fs && fs[loc] != Dir
    ensures LinkMatch(fs, tree, m, dst) == Ok(fs[loc := Link(Target(tree, m.path), false)])
  {
    var dest := FileDestination(fs, m.path, dst).value;
    assert Parent(loc) == dest.0;
    LStatOfEntry(fs, loc);
  }
}
