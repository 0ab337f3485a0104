/** `_link_overlay_files`: links every match of one overlay pattern into the
    merge root, choosing the location from the match's kind, the overlay's
    `dst`, and what already exists in the merge root. */
module Overlay {
  import opened Paths
  import opened Results
  import opened FileSystem

  /** What `os.path.exists` and `os.path.isfile` say about a glob match.
      A pattern ending in `/` matches only directories, and `glob` returns
      them with that trailing `/` kept: `SlashedDirectory`. */
  datatype Kind = Absent | Regular | Directory | SlashedDirectory

  /** One result of `glob.glob(srcdir/pattern)`, relative to the fetched tree. */
  datatype Match = Match(path: EntryPath, kind: Kind)

  /** `os.path.basename` of the match as `glob` spells it: empty after a
      trailing `/`. */
  function MatchName(m: Match): string {
    if m.kind == SlashedDirectory then "" else Basename(m.path)
  }

  /** A relative `dst` string: its components and whether it ends in `/`.
      The empty string is `Dst([], false)`; `"docs/"` is `Dst(["docs"], true)`. */
  datatype Dst = Dst(path: Path, slash: bool)

  /** Only a relative `dst` is modelled, so a trailing `/` follows a component. */
  type DstSpec = d: Dst | d.slash ==> |d.path| > 0 witness Dst([], false)

  /** One entry of a repository's `files` list. */
  datatype FileOverlay = FileOverlay(src: Option<string>, dst: Option<DstSpec>)

  /** `not dst`: the key is absent or the string is empty. */
  predicate NoDst(dst: Option<DstSpec>) {
    dst.None? || |dst.value.path| == 0
  }

  /** `dst.endswith('/')`. */
  predicate Slashed(dst: Option<DstSpec>) {
    dst.Some? && dst.value.slash
  }

  /** A match the code acts on: it exists and its name, as `glob` spells
      it, does not start with `.git`. */
  predicate Linkable(m: Match) {
    m.kind != Absent && !HasGitPrefix(MatchName(m))
  }

  /** The paths of the matches the code acts on. */
  function Sources(ms: seq<Match>): set<Path> {
    set m | m in ms && Linkable(m) :: m.path
  }

  /** How a step of the overlay may change the merge root: it keeps every
      entry path and every directory, adds directories only where nothing
      was, and otherwise adds or replaces entries only with links into
      `tree` at one of `sources`. */
  ghost predicate OverlayChange(before: Fs, after: Fs, tree: string, sources: set<Path>) {
    && (forall p :: p in before ==> p in after && (before[p] == Dir ==> after[p] == Dir))
    && (forall p :: p in after && (p !in before || after[p] != before[p]) ==>
          (after[p] == Dir && p !in before)
          || (after[p].Link? && after[p].target.tree == tree && after[p].target.path in sources))
  }

  lemma OverlayChangeTrans(a: Fs, b: Fs, c: Fs, tree: string, s1: set<Path>, s2: set<Path>, s: set<Path>)
    requires OverlayChange(a, b, tree, s1) && OverlayChange(b, c, tree, s2)
    requires s1 <= s && s2 <= s
    ensures OverlayChange(a, c, tree, s)
  {
  }

  /** What `_force_symlink` may do, in the terms of an overlay step. */
  lemma ForceSymlinkChange(fs: Fs, target: Target, toDir: bool, p: Path)
    ensures ForceSymlink(fs, target, toDir, p).Ok? ==>
              OverlayChange(fs, ForceSymlink(fs, target, toDir, p).value, target.tree, {target.path})
  {
    var r := ForceSymlink(fs, target, toDir, p);
    if r.Ok? && r.value != fs {
      assert r.value == fs[p := Link(target, toDir)];
    }
  }

  /** `if not os.path.exists(root/d): os.makedirs(root/d)`, where `slash`
      says that the string `root/d` ends in `/`. Then a file or a link to a
      file at `d` does not exist for `os.path.exists`, and the final
      `os.mkdir` of `os.makedirs` raises EEXIST on it. */
  function EnsureDir(fs: Fs, d: Path, slash: bool): (r: Result<Fs>)
    ensures WF(fs) ==> (r.Ok? <==> ExistsSpelled(fs, d, slash) || Creatable(fs, d))
    ensures ExistsSpelled(fs, d, slash) ==> r == Ok(fs)
    ensures slash && LStat(fs, d).Present? && !IsDir(fs, d) ==> r == Err(AlreadyExists(d))
    ensures r.Ok? && !Exists(fs, d) ==> IsRealDir(r.value, d)
    ensures r.Ok? ==> OverlayChange(fs, r.value, "", {})
    ensures r.Ok? ==> forall q :: q in r.value && q !in fs ==> q <= d
    ensures WF(fs) && r.Ok? ==> WF(r.value)
  {
    if LStat(fs, d).Beyond? then Err(ThroughLink(d))
    else if ExistsSpelled(fs, d, slash) then Ok(fs)
    else if Exists(fs, d) then
      MakeDirsExisting(fs, d);
      MakeDirs(fs, d)
    else MakeDirs(fs, d)
  }

  /** The directory and the link name chosen for a regular-file match: its
      own relative place when `dst` is empty, inside `dst` when `dst` is a
      directory or ends in `/`, and `dst` itself (a rename) otherwise. */
  function FileDestination(fs: Fs, src: EntryPath, dst: Option<DstSpec>): Result<(Path, Name)> {
    if NoDst(dst) then Ok((Parent(src), Basename(src)))
    else if LStat(fs, dst.value.path).Beyond? then Err(ThroughLink(dst.value.path))
    else if IsDir(fs, dst.value.path) || dst.value.slash then Ok((dst.value.path, Basename(src)))
    else Ok((Parent(dst.value.path), Basename(dst.value.path)))
  }

  /** The file branch: create the chosen directory when missing, then
      force the link. */
  function LinkFile(fs: Fs, target: Target, src: EntryPath, dst: Option<DstSpec>): (r: Result<Fs>)
    ensures r.Ok? ==> OverlayChange(fs, r.value, target.tree, {target.path})
    ensures WF(fs) && r.Ok? ==> WF(r.value)
  {
    var dest :- FileDestination(fs, src, dst);
    var fs1 :- EnsureDir(fs, dest.0, Slashed(dst));
    var r := ForceSymlink(fs1, target, false, dest.0 + [dest.1]);
    if r.Ok? then
      ForceSymlinkChange(fs1, target, false, dest.0 + [dest.1]);
      OverlayChangeTrans(fs, fs1, r.value, target.tree, {}, {target.path}, {target.path});
      r
    else r
  }

  /** The directory branch. `os.path.join(root, None)` raises before
      `not dst` is tested, so a directory match with no `dst` is an error;
      an empty `dst` names the root, which is a directory. Otherwise the
      match is linked inside `dst` when that is a directory or ends in `/`;
      if not, `dst` is created as a directory when missing and then handed to
      `_force_symlink`, whose removal of that directory raises.
      For a match spelled with a trailing `/` (`slashed`) the basename is
      empty, so "inside `dst`" is `dst/` itself: `os.symlink` raises EEXIST on
      any entry there and the `os.remove` of `dst/` then raises, while a
      missing `dst` gives ENOENT, which `_force_symlink` swallows. */
  function LinkDir(fs: Fs, target: Target, src: EntryPath, dst: Option<DstSpec>, slashed: bool): (r: Result<Fs>)
    ensures r.Ok? ==> OverlayChange(fs, r.value, target.tree, {target.path})
    ensures WF(fs) && r.Ok? ==> WF(r.value)
  {
    if dst.None? then Err(NotAString("dst"))
    else
      var d := dst.value.path;
      if LStat(fs, d).Beyond? then Err(ThroughLink(d))
      else if (IsDir(fs, d) || dst.value.slash) && slashed then
        match LStat(fs, d)
        case Present(Dir) => Err(IsADirectory(d))
        case Present(_) => Err(NotFound(d))
        case _ => Ok(fs)
      else if IsDir(fs, d) || dst.value.slash then
        ForceSymlinkChange(fs, target, true, d + [Basename(src)]);
        ForceSymlink(fs, target, true, d + [Basename(src)])
      else
        var fs1 :- EnsureDir(fs, d, false);
        var r := ForceSymlink(fs1, target, true, d);
        if r.Ok? then
          ForceSymlinkChange(fs1, target, true, d);
          OverlayChangeTrans(fs, fs1, r.value, target.tree, {}, {target.path}, {target.path});
          r
        else r
  }

  /** One iteration of the loop of `_link_overlay_files`: a missing match
      (a warning) and a match whose name starts with `.git` are skipped. */
  function LinkMatch(fs: Fs, tree: string, m: Match, dst: Option<DstSpec>): (r: Result<Fs>)
    ensures !Linkable(m) ==> r == Ok(fs)
    ensures r.Ok? ==> OverlayChange(fs, r.value, tree, Sources([m]))
    ensures WF(fs) && r.Ok? ==> WF(r.value)
  {
    if m.kind == Absent || HasGitPrefix(MatchName(m)) then Ok(fs)
    else
      assert Sources([m]) == {m.path};
      var target := Target(tree, m.path);
      if m.kind == Regular then LinkFile(fs, target, m.path, dst)
      else LinkDir(fs, target, m.path, dst, m.kind == SlashedDirectory)
  }

  /** `_link_overlay_files` over the matches of the pattern, in glob order;
      the first exception ends the merge. */
  function LinkOverlayFiles(fs: Fs, tree: string, ms: seq<Match>, dst: Option<DstSpec>): (r: Result<Fs>)
    ensures r.Ok? ==> OverlayChange(fs, r.value, tree, Sources(ms))
    ensures WF(fs) && r.Ok? ==> WF(r.value)
    decreases |ms|
  {
    if |ms| == 0 then Ok(fs)
    else
      var fs1 :- LinkMatch(fs, tree, ms[0], dst);
      var r := LinkOverlayFiles(fs1, tree, ms[1..], dst);
      if r.Ok? then
        assert Sources([ms[0]]) <= Sources(ms);
        assert Sources(ms[1..]) <= Sources(ms) by {
          forall p | p in Sources(ms[1..]) ensures p in Sources(ms) {
            var m :| m in ms[1..] && Linkable(m) && m.path == p;
            assert m in ms;
          }
        }
        OverlayChangeTrans(fs, fs1, r.value, tree, Sources([ms[0]]), Sources(ms[1..]), Sources(ms));
        r
      else r
  }

  /** `_link_overlay_files(srcdir, src, root, dst)` for one overlay entry:
      `glob` stands for the expansion of patterns in the fetched tree, and a
      missing `src` makes `os.path.join` raise. */
  function LinkOverlay(fs: Fs, tree: string, glob: string -> seq<Match>, o: FileOverlay): (r: Result<Fs>)
    ensures o.src.None? ==> r.Err?
    ensures o.src.Some? && r.Ok? ==> OverlayChange(fs, r.value, tree, Sources(glob(o.src.value)))
    ensures WF(fs) && r.Ok? ==> WF(r.value)
  {
    if o.src.None? then Err(NotAString("src"))
    else LinkOverlayFiles(fs, tree, glob(o.src.value), o.dst)
  }
}
