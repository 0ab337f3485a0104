/** The per-repository loop of `_create_merged_repository`: every entry of
    the configuration is fetched into the clone cache and then either
    mirrored whole into the merge root or overlaid pattern by pattern, in
    configuration order, into one merge root that starts empty. */
module Merge {
  import opened Paths
  import opened Results
  import opened FileSystem
  import opened Overlay
  import opened Mirror
  import opened CacheName
  import opened Placement

  /** A checked-out tree as the merge reads it: its `os.walk` listing, and
      the expansion of a glob pattern relative to its top. */
  datatype Source = Source(walk: seq<WalkStep>, glob: string -> seq<Match>)

  /** Cloning `locator` and checking out `ref`: the tree, or `None` when git
      fails. The model treats git as this function and nothing more. */
  type Fetch = (string, string) -> Option<Source>

  /** One entry of the configuration; a key that is absent (or null) is `None`. */
  datatype RepoEntry = RepoEntry(git: Option<string>, ref: Option<string>, files: Option<seq<FileOverlay>>)

  /** The clone cache, from directory name to the locator first cloned
      there, and the merge root. */
  datatype State = State(cache: map<string, string>, root: Fs)

  /** `item.get('ref', 'master')`. */
  function RefOf(e: RepoEntry): string {
    e.ref.GetOr("master")
  }

  /** The cache only grows, and an entry once made never changes. */
  predicate CacheGrows(before: map<string, string>, after: map<string, string>) {
    forall k :: k in before ==> k in after && after[k] == before[k]
  }

  /** Every entry of the merge root is a directory or a link into a tree
      checked out in one of the cache's directories. */
  ghost predicate LinksIntoCache(root: Fs, cache: map<string, string>) {
    forall p :: p in root ==> root[p] == Dir || (root[p].Link? && root[p].target.tree in cache)
  }

  /** The result of `_fetch_git_repo`: the cache afterwards, the cache
      directory used and the tree checked out there. */
  datatype Fetched = Fetched(cache: map<string, string>, dir: string, src: Source)

  /** `_fetch_git_repo(locator, ref)`: the directory is named from the
      locator's basename and `ref`; it is cloned only when it does not
      exist yet, and `ref` is then checked out in whatever clone it holds. */
  function FetchRepo(cache: map<string, string>, fetch: Fetch, locator: string, ref: string): (r: Result<Fetched>)
    ensures r.Ok? ==> r.value.dir == CacheDirName(locator, ref)
    ensures r.Ok? ==> CacheGrows(cache, r.value.cache) && r.value.cache.Keys == cache.Keys + {r.value.dir}
    ensures r.Ok? && r.value.dir !in cache ==> r.value.cache[r.value.dir] == locator
    ensures r.Ok? ==> fetch(r.value.cache[r.value.dir], ref) == Some(r.value.src)
    ensures r.Err? <==> fetch(if CacheDirName(locator, ref) in cache then cache[CacheDirName(locator, ref)] else locator, ref).None?
    ensures r.Err? ==> r.error == FetchFailed(CacheDirName(locator, ref), ref)
  {
    var dir := CacheDirName(locator, ref);
    var cache' := if dir in cache then cache else cache[dir := locator];
    match fetch(cache'[dir], ref)
    case None => Err(FetchFailed(dir, ref))
    case Some(src) => Ok(Fetched(cache', dir, src))
  }

  /** The paths that the overlays `os` may link, over the trees `glob`
      expands their patterns in. */
  function OverlaySources(glob: string -> seq<Match>, os: seq<FileOverlay>): set<Path>
    decreases |os|
  {
    if |os| == 0 then {}
    else (if os[0].src.Some? then Sources(glob(os[0].src.value)) else {}) + OverlaySources(glob, os[1..])
  }

  /** The inner loop: the overlays of one repository in declared order. */
  function LinkOverlays(fs: Fs, tree: string, glob: string -> seq<Match>, os: seq<FileOverlay>): (r: Result<Fs>)
    ensures r.Ok? ==> OverlayChange(fs, r.value, tree, OverlaySources(glob, os))
    ensures WF(fs) && r.Ok? ==> WF(r.value)
    decreases |os|
  {
    if |os| == 0 then Ok(fs)
    else
      var fs1 :- LinkOverlay(fs, tree, glob, os[0]);
      var r := LinkOverlays(fs1, tree, glob, os[1..]);
      if r.Ok? then
        OverlayChangeTrans(fs, fs1, r.value, tree,
                           Sources(glob(os[0].src.value)), OverlaySources(glob, os[1..]), OverlaySources(glob, os));
        r
      else r
  }

  /** The mirror branch, with what it keeps for the loop invariant. */
  function MirrorInto(fs: Fs, tree: string, walk: seq<WalkStep>): (r: Result<Fs>)
    ensures r.Ok? ==> forall p :: p in fs ==> p in r.value && r.value[p] == fs[p]
    ensures r.Ok? ==> forall p :: p in r.value && p !in fs ==>
              r.value[p] == Dir || r.value[p] == Link(Target(tree, p), false)
    ensures WF(fs) && r.Ok? ==> WF(r.value)
  {
    var r := MirrorTree(fs, tree, walk);
    if r.Ok? then
      MirrorCopiesTree(fs, tree, walk);
      MirrorKeepsWF(fs, tree, walk);
      r
    else r
  }

  lemma MirrorKeepsWF(fs: Fs, tree: string, walk: seq<WalkStep>)
    ensures WF(fs) && MirrorTree(fs, tree, walk).Ok? ==> WF(MirrorTree(fs, tree, walk).value)
  {
    if WF(fs) {
      MirrorRefusesOccupied(fs, tree, walk);
    }
  }

  /** What a step of the loop may do to the merge root: every entry it adds
      or replaces is a directory or a link into the tree `tree`. */
  ghost predicate AddsOnly(before: Fs, after: Fs, tree: string) {
    forall p :: p in after && (p !in before || after[p] != before[p]) ==>
      after[p] == Dir || (after[p].Link? && after[p].target.tree == tree)
  }

  /** The body of the loop once the tree is fetched: `not fileoverlays`
      chooses the mirror, otherwise the overlays are applied in order. */
  function LinkRepo(root: Fs, f: Fetched, files: Option<seq<FileOverlay>>): (r: Result<Fs>)
    ensures r.Ok? ==> AddsOnly(root, r.value, f.dir)
    ensures WF(root) && r.Ok? ==> WF(r.value)
  {
    if files.None? || |files.value| == 0 then MirrorInto(root, f.dir, f.src.walk)
    else LinkOverlays(root, f.dir, f.src.glob, files.value)
  }

  /** One iteration of the loop: a missing `git` makes `os.path.basename`
      raise; otherwise fetch, then mirror or overlay into the merge root. */
  function ApplyRepo(st: State, fetch: Fetch, e: RepoEntry): (r: Result<State>)
    ensures e.git.None? ==> r == Err(NotAString("git"))
    ensures r.Ok? ==> CacheGrows(st.cache, r.value.cache)
    ensures WF(st.root) && r.Ok? ==> WF(r.value.root)
  {
    if e.git.None? then Err(NotAString("git"))
    else
      var f :- FetchRepo(st.cache, fetch, e.git.value, RefOf(e));
      var root :- LinkRepo(st.root, f, e.files);
      Ok(State(f.cache, root))
  }

  /** A repository that was merged has its cache directory recorded. */
  lemma ApplyRepoRecordsClone(st: State, fetch: Fetch, e: RepoEntry)
    requires ApplyRepo(st, fetch, e).Ok?
    ensures e.git.Some? && CacheDirName(e.git.value, RefOf(e)) in ApplyRepo(st, fetch, e).value.cache
  {
    var f := FetchRepo(st.cache, fetch, e.git.value, RefOf(e)).value;
    assert ApplyRepo(st, fetch, e).value.cache == f.cache;
  }

  /** A repository adds only directories and links into its own cache
      directory, and keeps every entry it does not replace. */
  lemma ApplyRepoLinksIntoCache(st: State, fetch: Fetch, e: RepoEntry)
    requires LinksIntoCache(st.root, st.cache)
    requires ApplyRepo(st, fetch, e).Ok?
    ensures LinksIntoCache(ApplyRepo(st, fetch, e).value.root, ApplyRepo(st, fetch, e).value.cache)
  {
    var f := FetchRepo(st.cache, fetch, e.git.value, RefOf(e)).value;
    var root := LinkRepo(st.root, f, e.files).value;
    assert ApplyRepo(st, fetch, e).value == State(f.cache, root);
    assert f.dir in f.cache;
    forall p | p in root
      ensures root[p] == Dir || (root[p].Link? && root[p].target.tree in f.cache)
    {
      if p in st.root && root[p] == st.root[p] {
        assert st.root[p] == Dir || (st.root[p].Link? && st.root[p].target.tree in st.cache);
      }
    }
  }

  /** The loop over the configuration; the first exception ends the merge. */
  function Merge(st: State, fetch: Fetch, config: seq<RepoEntry>): Result<State>
    decreases |config|
  {
    if |config| == 0 then Ok(st)
    else
      var st1 :- ApplyRepo(st, fetch, config[0]);
      Merge(st1, fetch, config[1..])
  }

  /** What every repository of the loop keeps: a well-formed merge root
      holding only directories and links into cached checkouts, and a
      cache that only grows. */
  lemma {:induction false} MergeInvariants(st: State, fetch: Fetch, config: seq<RepoEntry>)
    requires WF(st.root) && LinksIntoCache(st.root, st.cache)
    ensures Merge(st, fetch, config).Ok? ==> WF(Merge(st, fetch, config).value.root)
    ensures Merge(st, fetch, config).Ok? ==>
              LinksIntoCache(Merge(st, fetch, config).value.root, Merge(st, fetch, config).value.cache)
    ensures Merge(st, fetch, config).Ok? ==> CacheGrows(st.cache, Merge(st, fetch, config).value.cache)
    decreases |config|
  {
    if |config| > 0 && ApplyRepo(st, fetch, config[0]).Ok? {
      ApplyRepoLinksIntoCache(st, fetch, config[0]);
      MergeInvariants(ApplyRepo(st, fetch, config[0]).value, fetch, config[1..]);
    }
  }

  /** `_create_merged_repository` up to the disposition of the result: the
      loop starts from an empty temporary directory and the cache as found. */
  function CreateMergedRepository(cache: map<string, string>, fetch: Fetch, config: seq<RepoEntry>): (r: Result<State>)
    ensures r.Ok? ==> WF(r.value.root) && LinksIntoCache(r.value.root, r.value.cache)
    ensures r.Ok? ==> CacheGrows(cache, r.value.cache)
  {
    MergeInvariants(State(cache, map[]), fetch, config);
    Merge(State(cache, map[]), fetch, config)
  }

  /** Repositories are applied in configuration order: merging `a + b` is
      merging `a` and then `b` into the result. */
  lemma {:induction false} MergeAppend(st: State, fetch: Fetch, a: seq<RepoEntry>, b: seq<RepoEntry>)
    ensures Merge(st, fetch, a + b) ==
              match Merge(st, fetch, a)
              case Ok(st1) => Merge(st1, fetch, b)
              case Err(e) => Err(e)
    decreases |a|
  {
    if |a| > 0 {
      assert (a + b)[0] == a[0] && (a + b)[1..] == a[1..] + b;
      if ApplyRepo(st, fetch, a[0]).Ok? {
        MergeAppend(ApplyRepo(st, fetch, a[0]).value, fetch, a[1..], b);
      }
    } else {
      assert a + b == b;
    }
  }

  /** The overlays of a repository are applied in declared order. */
  lemma {:induction false} LinkOverlaysAppend(fs: Fs, tree: string, glob: string -> seq<Match>,
                                              a: seq<FileOverlay>, b: seq<FileOverlay>)
    ensures LinkOverlays(fs, tree, glob, a + b) ==
              match LinkOverlays(fs, tree, glob, a)
              case Ok(fs1) => LinkOverlays(fs1, tree, glob, b)
              case Err(e) => Err(e)
    decreases |a|
  {
    if |a| > 0 {
      assert (a + b)[0] == a[0] && (a + b)[1..] == a[1..] + b;
      if LinkOverlay(fs, tree, glob, a[0]).Ok? {
        LinkOverlaysAppend(LinkOverlay(fs, tree, glob, a[0]).value, tree, glob, a[1..], b);
      }
    } else {
      assert a + b == b;
    }
  }

  /** The matches of one pattern are linked in glob order. */
  lemma {:induction false} LinkOverlayFilesAppend(fs: Fs, tree: string, a: seq<Match>, b: seq<Match>, dst: Option<DstSpec>)
    ensures LinkOverlayFiles(fs, tree, a + b, dst) ==
              match LinkOverlayFiles(fs, tree, a, dst)
              case Ok(fs1) => LinkOverlayFiles(fs1, tree, b, dst)
              case Err(e) => Err(e)
    decreases |a|
  {
    if |a| > 0 {
      assert (a + b)[0] == a[0] && (a + b)[1..] == a[1..] + b;
      if LinkMatch(fs, tree, a[0], dst).Ok? {
        LinkOverlayFilesAppend(LinkMatch(fs, tree, a[0], dst).value, tree, a[1..], b, dst);
      }
    } else {
      assert a + b == b;
    }
  }

  /** An entry without `ref` is the same entry with `ref: master`. */
  lemma RefDefaultsToMaster(st: State, fetch: Fetch, git: Option<string>, files: Option<seq<FileOverlay>>)
    ensures ApplyRepo(st, fetch, RepoEntry(git, None, files))
            == ApplyRepo(st, fetch, RepoEntry(git, Some("master"), files))
  {
  }

  /** An absent `files` key and an empty list both mirror the whole tree. */
  lemma AbsentFilesMirror(st: State, fetch: Fetch, git: string, ref: Option<string>)
    ensures ApplyRepo(st, fetch, RepoEntry(Some(git), ref, None))
            == ApplyRepo(st, fetch, RepoEntry(Some(git), ref, Some([])))
    ensures var f := FetchRepo(st.cache, fetch, git, ref.GetOr("master"));
            f.Ok? ==> ApplyRepo(st, fetch, RepoEntry(Some(git), ref, None))
                      == match MirrorTree(st.root, f.value.dir, f.value.src.walk)
                         case Ok(root) => Ok(State(f.value.cache, root))
                         case Err(e) => Err(e)
  {
  }

  /** With its directory already in the cache, fetching a locator is
      fetching whatever locator was cloned there first. */
  lemma CachedFetchReused(cache: map<string, string>, fetch: Fetch, a: string, b: string, ref: string)
    requires LastSegment(a) == LastSegment(b) && CacheDirName(a, ref) in cache
    ensures FetchRepo(cache, fetch, b, ref) == FetchRepo(cache, fetch, a, ref)
  {
    SameBasenameCollides(a, b, ref);
  }

  /** An entry depends on its locator only through what is fetched. */
  lemma ApplyRepoByFetch(st: State, fetch: Fetch, a: RepoEntry, b: RepoEntry)
    requires a.git.Some? && b.git.Some? && a.files == b.files && RefOf(a) == RefOf(b)
    requires FetchRepo(st.cache, fetch, a.git.value, RefOf(a)) == FetchRepo(st.cache, fetch, b.git.value, RefOf(b))
    ensures ApplyRepo(st, fetch, a) == ApplyRepo(st, fetch, b)
  {
    var fa := FetchRepo(st.cache, fetch, a.git.value, RefOf(a));
    if fa.Ok? {
      var root := LinkRepo(st.root, fa.value, a.files);
      if root.Ok? {
        assert ApplyRepo(st, fetch, a) == Ok(State(fa.value.cache, root.value));
        assert ApplyRepo(st, fetch, b) == Ok(State(fa.value.cache, root.value));
      } else {
        assert ApplyRepo(st, fetch, a) == Err(root.error);
        assert ApplyRepo(st, fetch, b) == Err(root.error);
      }
    } else {
      assert ApplyRepo(st, fetch, a) == Err(fa.error);
      assert ApplyRepo(st, fetch, b) == Err(fa.error);
    }
  }

  /** Equal basenames collide: a later entry whose locator has the same
      basename and `ref` as an earlier one is served from the earlier
      clone, as if it named the earlier locator. */
  lemma CollidingLocatorIgnored(st: State, fetch: Fetch, first: RepoEntry, later: RepoEntry)
    requires first.git.Some? && later.git.Some?
    requires LastSegment(later.git.value) == LastSegment(first.git.value) && RefOf(later) == RefOf(first)
    ensures Merge(st, fetch, [first, later])
            == Merge(st, fetch, [first, later.(git := first.git)])
  {
    var later' := later.(git := first.git);
    assert [first, later][1..] == [later];
    assert [first, later'][1..] == [later'];
    if ApplyRepo(st, fetch, first).Ok? {
      var st1 := ApplyRepo(st, fetch, first).value;
      ApplyRepoRecordsClone(st, fetch, first);
      CachedFetchReused(st1.cache, fetch, first.git.value, later.git.value, RefOf(first));
      ApplyRepoByFetch(st1, fetch, later, later');
      assert Merge(st1, fetch, [later]) == Merge(st1, fetch, [later']);
    }
  }

  /** In the empty temporary directory nothing but the root exists. */
  lemma {:induction false} EmptyRootMissing(p: Path)
    requires |p| > 0
    ensures LStat(map[], p) == Missing
    decreases |p|
  {
    if |Parent(p)| > 0 {
      EmptyRootMissing(Parent(p));
    }
  }

  /** One overlay whose pattern matches one entry links just that entry. */
  lemma SingleMatchOverlay(fs: Fs, tree: string, glob: string -> seq<Match>, pattern: string, m: Match)
    requires glob(pattern) == [m]
    ensures LinkOverlays(fs, tree, glob, [FileOverlay(Some(pattern), None)]) == LinkMatch(fs, tree, m, None)
  {
    var os := [FileOverlay(Some(pattern), None)];
    assert os[0].src.value == pattern && os[1..] == [];
    assert [m][0] == m && [m][1..] == [];
    if LinkMatch(fs, tree, m, None).Ok? {
      var fs1 := LinkMatch(fs, tree, m, None).value;
      assert LinkOverlayFiles(fs1, tree, [], None) == Ok(fs1);
      assert LinkOverlayFiles(fs, tree, [m], None) == Ok(fs1);
      assert LinkOverlay(fs, tree, glob, os[0]) == Ok(fs1);
      assert LinkOverlays(fs1, tree, glob, []) == Ok(fs1);
    }
  }

  /** `ApplyRepo` once `git` is known: fetch, then link the fetched tree. */
  lemma ApplyRepoSteps(st: State, fetch: Fetch, e: RepoEntry)
    requires e.git.Some? && FetchRepo(st.cache, fetch, e.git.value, RefOf(e)).Ok?
    ensures var f := FetchRepo(st.cache, fetch, e.git.value, RefOf(e)).value;
            ApplyRepo(st, fetch, e) ==
              match LinkRepo(st.root, f, e.files)
              case Ok(root) => Ok(State(f.cache, root))
              case Err(x) => Err(x)
  {
  }

  /** A repository with one overlay (without `dst`) whose pattern matches
      one entry links just that entry. */
  lemma SingleOverlayRepo(root: Fs, f: Fetched, pattern: string, m: Match)
    requires f.src.glob(pattern) == [m]
    ensures LinkRepo(root, f, Some([FileOverlay(Some(pattern), None)])) == LinkMatch(root, f.dir, m, None)
  {
    SingleMatchOverlay(root, f.dir, f.src.glob, pattern, m);
  }

  /** A repository whose one overlay (without `dst`) matches a regular file
      links that file at its own path; into an empty merge root, that
      succeeds. */
  lemma OverlayIntoEmptyRoot(st: State, fetch: Fetch, e: RepoEntry, pattern: string, path: EntryPath)
    requires st.root == map[] && e.git.Some? && e.files == Some([FileOverlay(Some(pattern), None)])
    requires !HasGitPrefix(Basename(path))
    requires forall l, r :: fetch(l, r).Some? && fetch(l, r).value.glob(pattern) == [Match(path, Regular)]
    ensures ApplyRepo(st, fetch, e).Ok?
    ensures path in ApplyRepo(st, fetch, e).value.root
    ensures ApplyRepo(st, fetch, e).value.root[path] == Link(Target(CacheDirName(e.git.value, RefOf(e)), path), false)
  {
    var m := Match(path, Regular);
    var fs0: Fs := map[];
    var f := FetchRepo(st.cache, fetch, e.git.value, RefOf(e)).value;
    assert f.src.glob(pattern) == [m];
    if |Parent(path)| > 0 {
      EmptyRootMissing(Parent(path));
      forall i | 0 < i < |Parent(path)| ensures LStat(fs0, Parent(path)[..i]) == Missing {
        EmptyRootMissing(Parent(path)[..i]);
      }
    }
    EmptyRootMissing(path);
    FileWithoutDst(fs0, f.dir, m, None);
    SingleOverlayRepo(fs0, f, pattern, m);
    ApplyRepoSteps(st, fetch, e);
  }

  /** The same overlay over a merge root that already holds a non-directory
      at that path replaces it with a link into the later tree. */
  lemma OverlayReplacesEntry(root: Fs, f: Fetched, pattern: string, path: EntryPath)
    requires WF(root) && path in root && root[path] != Dir
    requires !HasGitPrefix(Basename(path))
    requires f.src.glob(pattern) == [Match(path, Regular)]
    ensures LinkRepo(root, f, Some([FileOverlay(Some(pattern), None)]))
            == Ok(root[path := Link(Target(f.dir, path), false)])
  {
    var m := Match(path, Regular);
    assert LinkMatch(root, f.dir, m, None) == Ok(root[path := Link(Target(f.dir, path), false)]) by {
      assert Parent(path) + [Basename(path)] == path;
      assert FileLocation(root, path, None) == Ok(path);
      LaterLinkReplaces(root, f.dir, m, None, path);
    }
    SingleOverlayRepo(root, f, pattern, m);
  }

  /** Last write wins across repositories: when two repositories both
      overlay the same file at its own path, the merge root ends up linking
      it from the later one. */
  lemma LaterRepositoryWins(cache: map<string, string>, fetch: Fetch, a: string, b: string,
                            pattern: string, path: EntryPath)
    requires !HasGitPrefix(Basename(path))
    requires forall l, r :: fetch(l, r).Some? && fetch(l, r).value.glob(pattern) == [Match(path, Regular)]
    ensures var files := Some([FileOverlay(Some(pattern), None)]);
            var r := CreateMergedRepository(cache, fetch, [RepoEntry(Some(a), None, files), RepoEntry(Some(b), None, files)]);
            && r.Ok? && path in r.value.root
            && r.value.root[path] == Link(Target(CacheDirName(b, "master"), path), false)
  {
    var files := Some([FileOverlay(Some(pattern), None)]);
    var ea := RepoEntry(Some(a), None, files);
    var eb := RepoEntry(Some(b), None, files);
    var st0 := State(cache, map[]);
    OverlayIntoEmptyRoot(st0, fetch, ea, pattern, path);
    var st1 := ApplyRepo(st0, fetch, ea).value;
    assert WF(st1.root) by {
      assert WF(st0.root);
    }
    var fb := FetchRepo(st1.cache, fetch, b, "master").value;
    assert fb.src.glob(pattern) == [Match(path, Regular)];
    OverlayReplacesEntry(st1.root, fb, pattern, path);
    ApplyRepoSteps(st1, fetch, eb);
    MergePair(st0, fetch, ea, eb);
  }

  /** Merging two entries is applying one and then the other. */
  lemma MergePair(st: State, fetch: Fetch, first: RepoEntry, second: RepoEntry)
    requires ApplyRepo(st, fetch, first).Ok?
    ensures Merge(st, fetch, [first, second]) == ApplyRepo(ApplyRepo(st, fetch, first).value, fetch, second)
  {
    var st1 := ApplyRepo(st, fetch, first).value;
    assert [first, second][1..] == [second];
    assert [second][1..] == [];
    if ApplyRepo(st1, fetch, second).Ok? {
      assert Merge(st1, fetch, [second]) == ApplyRepo(st1, fetch, second);
    }
  }
}
