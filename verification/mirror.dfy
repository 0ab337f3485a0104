/** `_symlink_all_content`: the whole-tree mirror used for a repository
    that lists no overlays. Every subdirectory is recreated with
    `os.makedirs` and every file is linked with a plain `os.symlink` at the
    same relative path, skipping names that start with `.git`. */
module Mirror {
  import opened Paths
  import opened Results
  import opened FileSystem

  /** One triple `(dirname, subdirs, filenames)` produced by
      `os.walk(srcdir)`, with `dirname` relative to `srcdir`. */
  datatype WalkStep = WalkStep(dir: Path, subdirs: seq<Name>, files: seq<Name>)

  /** The locations below `dir` of the names that are not skipped. */
  function Locations(dir: Path, names: seq<Name>): set<Path>
    decreases |names|
  {
    if |names| == 0 then {}
    else (if HasGitPrefix(names[0]) then {} else {dir + [names[0]]}) + Locations(dir, names[1..])
  }

  /** The directories the mirror creates explicitly. */
  function DirLocations(walk: seq<WalkStep>): set<Path>
    decreases |walk|
  {
    if |walk| == 0 then {}
    else Locations(walk[0].dir, walk[0].subdirs) + DirLocations(walk[1..])
  }

  /** The locations the mirror links. */
  function FileLocations(walk: seq<WalkStep>): set<Path>
    decreases |walk|
  {
    if |walk| == 0 then {}
    else Locations(walk[0].dir, walk[0].files) + FileLocations(walk[1..])
  }

  /** Every non-empty prefix of a path of `locs`. */
  function Prefixes(locs: set<Path>): set<Path> {
    set q, i | q in locs && 0 < i <= |q| :: q[..i]
  }

  /** How the mirror may change the merge root: no entry is removed or
      changed, new directories lie on the way to one of `dirs`, and new
      links sit at one of `files` and point at the same relative path in
      `tree`. */
  ghost predicate MirrorChange(before: Fs, after: Fs, tree: string, dirs: set<Path>, files: set<Path>) {
    && (forall p :: p in before ==> p in after && after[p] == before[p])
    && (forall p :: p in after && p !in before ==>
          (after[p] == Dir && p in Prefixes(dirs))
          || (p in files && after[p] == Link(Target(tree, p), false)))
  }

  lemma MirrorChangeTrans(a: Fs, b: Fs, c: Fs, tree: string,
                          d1: set<Path>, f1: set<Path>, d2: set<Path>, f2: set<Path>)
    requires MirrorChange(a, b, tree, d1, f1) && MirrorChange(b, c, tree, d2, f2)
    ensures MirrorChange(a, c, tree, d1 + d2, f1 + f2)
  {
    assert Prefixes(d1) <= Prefixes(d1 + d2) && Prefixes(d2) <= Prefixes(d1 + d2);
  }

  /** The new directories of one `os.makedirs(root/p)`: all on the way to `p`. */
  lemma MakeDirsIsMirrorChange(fs: Fs, p: Path)
    requires MakeDirs(fs, p).Ok?
    ensures MirrorChange(fs, MakeDirs(fs, p).value, "", {p}, {})
  {
    var fs' := MakeDirs(fs, p).value;
    forall q | q in fs' && q !in fs
      ensures q in Prefixes({p})
    {
      assert p in {p} && 0 < |q| <= |p| && q == p[..|q|];
    }
  }

  /** The first loop of a walk step: `os.makedirs(root/dir/name)` for every
      subdirectory not starting with `.git`. */
  function MakeSubdirs(fs: Fs, dir: Path, names: seq<Name>): Result<Fs>
    decreases |names|
  {
    if |names| == 0 then Ok(fs)
    else if HasGitPrefix(names[0]) then MakeSubdirs(fs, dir, names[1..])
    else
      var fs1 :- MakeDirs(fs, dir + [names[0]]);
      MakeSubdirs(fs1, dir, names[1..])
  }

  /** The second loop of a walk step: a plain `os.symlink` for every file
      not starting with `.git`, at the same relative path. */
  function LinkFiles(fs: Fs, tree: string, dir: Path, names: seq<Name>): Result<Fs>
    decreases |names|
  {
    if |names| == 0 then Ok(fs)
    else if HasGitPrefix(names[0]) then LinkFiles(fs, tree, dir, names[1..])
    else
      var loc := dir + [names[0]];
      var fs1 :- Symlink(fs, Target(tree, loc), false, loc);
      LinkFiles(fs1, tree, dir, names[1..])
  }

  /** One pass of the `os.walk` loop. */
  function MirrorStep(fs: Fs, tree: string, s: WalkStep): Result<Fs> {
    var fs1 :- MakeSubdirs(fs, s.dir, s.subdirs);
    LinkFiles(fs1, tree, s.dir, s.files)
  }

  /** `_symlink_all_content(srcdir, root)` over the walk of the fetched tree
      `tree`. The walk is not pruned: a skipped `.git` directory is still
      descended into. */
  function MirrorTree(fs: Fs, tree: string, walk: seq<WalkStep>): Result<Fs>
    decreases |walk|
  {
    if |walk| == 0 then Ok(fs)
    else
      var fs1 :- MirrorStep(fs, tree, walk[0]);
      MirrorTree(fs1, tree, walk[1..])
  }

  /** The subdirectory loop creates every listed subdirectory not starting
      with `.git`, and changes nothing else but directories on the way. */
  lemma {:induction false} MakeSubdirsCreates(fs: Fs, dir: Path, names: seq<Name>)
    requires MakeSubdirs(fs, dir, names).Ok?
    ensures MirrorChange(fs, MakeSubdirs(fs, dir, names).value, "", Locations(dir, names), {})
    ensures forall p :: p in Locations(dir, names) ==>
              p in MakeSubdirs(fs, dir, names).value && MakeSubdirs(fs, dir, names).value[p] == Dir
    decreases |names|
  {
    if |names| > 0 {
      if HasGitPrefix(names[0]) {
        MakeSubdirsCreates(fs, dir, names[1..]);
      } else {
        var loc := dir + [names[0]];
        var fs1 := MakeDirs(fs, loc).value;
        MakeDirsIsMirrorChange(fs, loc);
        MakeSubdirsCreates(fs1, dir, names[1..]);
        MirrorChangeTrans(fs, fs1, MakeSubdirs(fs, dir, names).value, "",
                          {loc}, {}, Locations(dir, names[1..]), {});
        assert Locations(dir, names) == {loc} + Locations(dir, names[1..]);
      }
    }
  }

  /** The subdirectory loop keeps the merge root well formed, and raises
      when a listed subdirectory is already present. */
  lemma {:induction false} MakeSubdirsRefusesOccupied(fs: Fs, dir: Path, names: seq<Name>)
    requires WF(fs)
    ensures MakeSubdirs(fs, dir, names).Ok? ==> WF(MakeSubdirs(fs, dir, names).value)
    ensures forall p :: p in fs && p in Locations(dir, names) ==> MakeSubdirs(fs, dir, names).Err?
    decreases |names|
  {
    if |names| > 0 {
      if HasGitPrefix(names[0]) {
        MakeSubdirsRefusesOccupied(fs, dir, names[1..]);
      } else {
        var loc := dir + [names[0]];
        if loc in fs {
          LStatOfEntry(fs, loc);
        }
        if MakeDirs(fs, loc).Ok? {
          MakeSubdirsRefusesOccupied(MakeDirs(fs, loc).value, dir, names[1..]);
        }
      }
    }
  }

  /** The file loop links every listed file not starting with `.git` at
      its own relative path, and adds nothing else. */
  lemma {:induction false} LinkFilesLinks(fs: Fs, tree: string, dir: Path, names: seq<Name>)
    requires LinkFiles(fs, tree, dir, names).Ok?
    ensures MirrorChange(fs, LinkFiles(fs, tree, dir, names).value, tree, {}, Locations(dir, names))
    ensures forall p :: p in Locations(dir, names) ==>
              p in LinkFiles(fs, tree, dir, names).value
              && LinkFiles(fs, tree, dir, names).value[p] == Link(Target(tree, p), false)
    decreases |names|
  {
    if |names| > 0 {
      if HasGitPrefix(names[0]) {
        LinkFilesLinks(fs, tree, dir, names[1..]);
      } else {
        var loc := dir + [names[0]];
        var fs1 := Symlink(fs, Target(tree, loc), false, loc).value;
        LinkFilesLinks(fs1, tree, dir, names[1..]);
        MirrorChangeTrans(fs, fs1, LinkFiles(fs, tree, dir, names).value, tree,
                          {}, {loc}, {}, Locations(dir, names[1..]));
        assert Locations(dir, names) == {loc} + Locations(dir, names[1..]);
      }
    }
  }

  /** The file loop keeps the merge root well formed, and raises when a
      listed file's location is already taken: a plain `os.symlink` does not
      replace. */
  lemma {:induction false} LinkFilesRefusesOccupied(fs: Fs, tree: string, dir: Path, names: seq<Name>)
    requires WF(fs)
    ensures LinkFiles(fs, tree, dir, names).Ok? ==> WF(LinkFiles(fs, tree, dir, names).value)
    ensures forall p :: p in fs && p in Locations(dir, names) ==> LinkFiles(fs, tree, dir, names).Err?
    decreases |names|
  {
    if |names| > 0 {
      if HasGitPrefix(names[0]) {
        LinkFilesRefusesOccupied(fs, tree, dir, names[1..]);
      } else {
        var loc := dir + [names[0]];
        if loc in fs {
          LStatOfEntry(fs, loc);
        }
        var r1 := Symlink(fs, Target(tree, loc), false, loc);
        if r1.Ok? {
          LinkFilesRefusesOccupied(r1.value, tree, dir, names[1..]);
        }
      }
    }
  }

  /** The mirror recreates every listed subdirectory and links every listed
      file at the same relative path, except names starting with `.git`;
      nothing present before is changed, and the only other new entries are
      directories on the way to a listed subdirectory. */
  lemma {:induction false} MirrorCopiesTree(fs: Fs, tree: string, walk: seq<WalkStep>)
    requires MirrorTree(fs, tree, walk).Ok?
    ensures MirrorChange(fs, MirrorTree(fs, tree, walk).value, tree, DirLocations(walk), FileLocations(walk))
    ensures forall p :: p in DirLocations(walk) ==>
              p in MirrorTree(fs, tree, walk).value && MirrorTree(fs, tree, walk).value[p] == Dir
    ensures forall p :: p in FileLocations(walk) ==>
              p in MirrorTree(fs, tree, walk).value
              && MirrorTree(fs, tree, walk).value[p] == Link(Target(tree, p), false)
    decreases |walk|
  {
    if |walk| > 0 {
      var s := walk[0];
      var fs1 := MakeSubdirs(fs, s.dir, s.subdirs).value;
      var fs2 := LinkFiles(fs1, tree, s.dir, s.files).value;
      var r := MirrorTree(fs, tree, walk).value;
      MakeSubdirsCreates(fs, s.dir, s.subdirs);
      LinkFilesLinks(fs1, tree, s.dir, s.files);
      MirrorCopiesTree(fs2, tree, walk[1..]);
      MirrorChangeTrans(fs, fs1, fs2, tree, Locations(s.dir, s.subdirs), {}, {}, Locations(s.dir, s.files));
      MirrorChangeTrans(fs, fs2, r, tree,
                        Locations(s.dir, s.subdirs), Locations(s.dir, s.files),
                        DirLocations(walk[1..]), FileLocations(walk[1..]));
    }
  }

  /** The mirror keeps the merge root well formed, and raises instead of
      replacing when any listed location is already present, so mirroring
      into a root that already holds one of its paths fails. */
  lemma {:induction false} MirrorRefusesOccupied(fs: Fs, tree: string, walk: seq<WalkStep>)
    requires WF(fs)
    ensures MirrorTree(fs, tree, walk).Ok? ==> WF(MirrorTree(fs, tree, walk).value)
    ensures forall p :: p in fs && (p in DirLocations(walk) || p in FileLocations(walk)) ==>
              MirrorTree(fs, tree, walk).Err?
    decreases |walk|
  {
    if |walk| > 0 {
      var s := walk[0];
      MakeSubdirsRefusesOccupied(fs, s.dir, s.subdirs);
      if MakeSubdirs(fs, s.dir, s.subdirs).Ok? {
        var fs1 := MakeSubdirs(fs, s.dir, s.subdirs).value;
        MakeSubdirsCreates(fs, s.dir, s.subdirs);
        LinkFilesRefusesOccupied(fs1, tree, s.dir, s.files);
        if LinkFiles(fs1, tree, s.dir, s.files).Ok? {
          var fs2 := LinkFiles(fs1, tree, s.dir, s.files).value;
          LinkFilesLinks(fs1, tree, s.dir, s.files);
          MirrorRefusesOccupied(fs2, tree, walk[1..]);
        }
      }
    }
  }

  /** No name occurs twice, as in a directory listing. */
  predicate Distinct(names: seq<Name>) {
    forall i, j :: 0 <= i < j < |names| ==> names[i] != names[j]
  }

  /** The directories a walk visits. */
  function Visited(walk: seq<WalkStep>): set<Path> {
    set i | 0 <= i < |walk| :: walk[i].dir
  }

  /** Every location lies directly in `dir`, under one of `names`. */
  lemma {:induction false} LocationsIn(dir: Path, names: seq<Name>, p: Path)
    requires p in Locations(dir, names)
    ensures |p| > 0 && Parent(p) == dir && Basename(p) in names
    decreases |names|
  {
    if HasGitPrefix(names[0]) || p != dir + [names[0]] {
      LocationsIn(dir, names[1..], p);
    }
  }

  /** Every location of a walk lies directly in a visited directory. */
  lemma {:induction false} LocationsVisited(walk: seq<WalkStep>, p: Path)
    requires p in DirLocations(walk) || p in FileLocations(walk)
    ensures |p| > 0 && Parent(p) in Visited(walk)
    decreases |walk|
  {
    if p in Locations(walk[0].dir, walk[0].subdirs) {
      LocationsIn(walk[0].dir, walk[0].subdirs, p);
    } else if p in Locations(walk[0].dir, walk[0].files) {
      LocationsIn(walk[0].dir, walk[0].files, p);
    } else {
      LocationsVisited(walk[1..], p);
      var i :| 0 <= i < |walk[1..]| && walk[1..][i].dir == Parent(p);
      assert walk[i + 1].dir == Parent(p);
    }
  }

  /** Directories of the merge root stay directories when entries are only
      added. */
  lemma RealDirKept(fs: Fs, fs': Fs, d: Path)
    requires WF(fs') && IsRealDir(fs, d)
    requires forall q :: q in fs ==> q in fs' && fs'[q] == fs[q]
    ensures IsRealDir(fs', d)
  {
    if |d| > 0 {
      LStatOfEntry(fs', d);
    }
  }

  /** A free location directly in a directory of the merge root can be
      created there, and the directory stays. */
  lemma AddChild(fs: Fs, dir: Path, n: Name, node: Node)
    requires WF(fs) && IsRealDir(fs, dir) && dir + [n] !in fs
    ensures Create(fs, dir + [n], node) == Ok(fs[dir + [n] := node])
    ensures WF(fs[dir + [n] := node])
    ensures IsRealDir(fs[dir + [n] := node], dir)
    ensures LStat(fs[dir + [n] := node], dir + [n]) == Present(node)
  {
    assert Parent(dir + [n]) == dir;
    LStatBelowChange(fs, fs[dir + [n] := node], dir + [n], dir);
  }

  /** A free first name directly in a directory of the merge root becomes
      a directory there, and the loop goes on from that tree. */
  lemma MakeSubdirsFirst(fs: Fs, dir: Path, names: seq<Name>)
    requires WF(fs) && IsRealDir(fs, dir) && |names| > 0 && !HasGitPrefix(names[0])
    requires dir + [names[0]] !in fs
    ensures MakeSubdirs(fs, dir, names) == MakeSubdirs(fs[dir + [names[0]] := Dir], dir, names[1..])
    ensures WF(fs[dir + [names[0]] := Dir])
    ensures IsRealDir(fs[dir + [names[0]] := Dir], dir)
    ensures IsRealDir(fs[dir + [names[0]] := Dir], dir + [names[0]])
  {
    AddChild(fs, dir, names[0], Dir);
    assert Parent(dir + [names[0]]) == dir;
  }

  /** Dropping the first name keeps the rest distinct and, once only the
      first name's location has been added, still free. */
  lemma NamesTailFree(fs: Fs, fs1: Fs, dir: Path, names: seq<Name>)
    requires |names| > 0 && Distinct(names)
    requires forall p :: p in Locations(dir, names) ==> p !in fs
    requires forall q :: q in fs1 ==> q in fs || q == dir + [names[0]]
    ensures Distinct(names[1..])
    ensures forall p :: p in Locations(dir, names[1..]) ==> p !in fs1
  {
    var rest := names[1..];
    forall i, j | 0 <= i < j < |rest| ensures rest[i] != rest[j] {
      assert rest[i] == names[i + 1] && rest[j] == names[j + 1];
    }
    forall p | p in Locations(dir, rest) ensures p !in fs1 {
      LocationsIn(dir, rest, p);
      var k :| 0 <= k < |rest| && rest[k] == Basename(p);
      assert names[k + 1] != names[0];
    }
  }

  /** `after` is `before` with exactly the entries `added` put in, and is
      still well formed. */
  ghost predicate Grown(before: Fs, after: Fs, added: set<Path>) {
    && WF(after)
    && after.Keys == before.Keys + added
    && forall q :: q in before ==> q in after && after[q] == before[q]
  }

  lemma GrownTrans(a: Fs, b: Fs, c: Fs, s1: set<Path>, s2: set<Path>)
    requires Grown(a, b, s1) && Grown(b, c, s2)
    ensures Grown(a, c, s1 + s2)
  {
  }

  /** From a directory of the merge root, the subdirectory loop succeeds
      when the names are distinct and none of their locations is present:
      it adds exactly those locations, as directories. */
  lemma {:induction false} MakeSubdirsSucceeds(fs: Fs, dir: Path, names: seq<Name>)
    requires WF(fs) && IsRealDir(fs, dir) && Distinct(names)
    requires forall p :: p in Locations(dir, names) ==> p !in fs
    ensures MakeSubdirs(fs, dir, names).Ok?
    ensures Grown(fs, MakeSubdirs(fs, dir, names).value, Locations(dir, names))
    ensures forall p :: p in Locations(dir, names) ==> IsRealDir(MakeSubdirs(fs, dir, names).value, p)
    decreases |names|
  {
    if |names| > 0 {
      var rest := names[1..];
      if HasGitPrefix(names[0]) {
        NamesTailFree(fs, fs, dir, names);
        MakeSubdirsSucceeds(fs, dir, rest);
      } else {
        var loc := dir + [names[0]];
        MakeSubdirsFirst(fs, dir, names);
        var fs1 := fs[loc := Dir];
        NamesTailFree(fs, fs1, dir, names);
        MakeSubdirsSucceeds(fs1, dir, rest);
        var r := MakeSubdirs(fs1, dir, rest).value;
        assert Locations(dir, names) == {loc} + Locations(dir, rest);
        GrownTrans(fs, fs1, r, {loc}, Locations(dir, rest));
        RealDirKept(fs1, r, loc);
      }
    }
  }

  /** From a directory of the merge root, the file loop succeeds when the
      names are distinct and none of their locations is present: it adds
      exactly those locations, as links. */
  lemma {:induction false} LinkFilesSucceeds(fs: Fs, tree: string, dir: Path, names: seq<Name>)
    requires WF(fs) && IsRealDir(fs, dir) && Distinct(names)
    requires forall p :: p in Locations(dir, names) ==> p !in fs
    ensures LinkFiles(fs, tree, dir, names).Ok?
    ensures Grown(fs, LinkFiles(fs, tree, dir, names).value, Locations(dir, names))
    decreases |names|
  {
    if |names| > 0 {
      var rest := names[1..];
      if HasGitPrefix(names[0]) {
        NamesTailFree(fs, fs, dir, names);
        LinkFilesSucceeds(fs, tree, dir, rest);
      } else {
        var loc := dir + [names[0]];
        AddChild(fs, dir, names[0], Link(Target(tree, loc), false));
        var fs1 := fs[loc := Link(Target(tree, loc), false)];
        NamesTailFree(fs, fs1, dir, names);
        LinkFilesSucceeds(fs1, tree, dir, rest);
        assert LinkFiles(fs, tree, dir, names) == LinkFiles(fs1, tree, dir, rest);
        assert Locations(dir, names) == {loc} + Locations(dir, rest);
        GrownTrans(fs, fs1, LinkFiles(fs1, tree, dir, rest).value, {loc}, Locations(dir, rest));
      }
    }
  }

  /** `Distinct(a + b)` splits into both halves and no shared name. */
  lemma DistinctAppend(a: seq<Name>, b: seq<Name>)
    requires Distinct(a + b)
    ensures Distinct(a) && Distinct(b)
    ensures forall n :: n in a ==> n !in b
  {
    assert forall i :: 0 <= i < |a| ==> (a + b)[i] == a[i];
    assert forall j :: 0 <= j < |b| ==> (a + b)[|a| + j] == b[j];
  }

  /** One walk step from a visited directory of the merge root succeeds when
      its names are distinct and none of its locations is present. */
  lemma MirrorStepSucceeds(fs: Fs, tree: string, s: WalkStep)
    requires WF(fs) && IsRealDir(fs, s.dir) && Distinct(s.subdirs + s.files)
    requires forall p :: p in Locations(s.dir, s.subdirs) || p in Locations(s.dir, s.files) ==> p !in fs
    ensures MirrorStep(fs, tree, s).Ok?
    ensures Grown(fs, MirrorStep(fs, tree, s).value, Locations(s.dir, s.subdirs) + Locations(s.dir, s.files))
    ensures forall p :: p in Locations(s.dir, s.subdirs) ==> IsRealDir(MirrorStep(fs, tree, s).value, p)
  {
    DistinctAppend(s.subdirs, s.files);
    MakeSubdirsSucceeds(fs, s.dir, s.subdirs);
    var fs1 := MakeSubdirs(fs, s.dir, s.subdirs).value;
    RealDirKept(fs, fs1, s.dir);
    forall p | p in Locations(s.dir, s.files) ensures p !in fs1 {
      if p in Locations(s.dir, s.subdirs) {
        LocationsIn(s.dir, s.subdirs, p);
        LocationsIn(s.dir, s.files, p);
      }
    }
    LinkFilesSucceeds(fs1, tree, s.dir, s.files);
    var fs2 := LinkFiles(fs1, tree, s.dir, s.files).value;
    GrownTrans(fs, fs1, fs2, Locations(s.dir, s.subdirs), Locations(s.dir, s.files));
    forall p | p in Locations(s.dir, s.subdirs) ensures IsRealDir(fs2, p) {
      RealDirKept(fs1, fs2, p);
    }
  }

  /** A walk the mirror can replay without meeting anything in its way:
      every step visits a directory of the merge root or one an earlier step
      created, no directory is visited twice, the names of a step are
      distinct, and no location of the walk is present in the merge root.
      This is sufficient, not necessary: a walk of a real checkout visits
      `.git`, which no step creates, and then `MirrorLeaksMetadataDirectory`
      and `MirrorFailsOnFlatMetadataDirectory` say what happens. */
  ghost predicate Replayable(fs: Fs, walk: seq<WalkStep>) {
    && (forall i :: 0 <= i < |walk| ==> IsRealDir(fs, walk[i].dir) || walk[i].dir in DirLocations(walk[..i]))
    && (forall i, j :: 0 <= i < j < |walk| ==> walk[i].dir != walk[j].dir)
    && (forall i :: 0 <= i < |walk| ==> Distinct(walk[i].subdirs + walk[i].files))
    && (forall p :: p in DirLocations(walk) || p in FileLocations(walk) ==> p !in fs)
  }

  /** The directories a walk creates are those its first step creates and
      those the rest creates. */
  lemma DirLocationsCons(walk: seq<WalkStep>)
    requires |walk| > 0
    ensures DirLocations(walk) == Locations(walk[0].dir, walk[0].subdirs) + DirLocations(walk[1..])
  {
  }

  /** After the first step, step `i + 1` still visits a directory: one the
      merge root had, or one the first step created, or one a step between
      them creates. */
  lemma TailVisitsDirectory(fs: Fs, fs1: Fs, walk: seq<WalkStep>, i: nat)
    requires i + 1 < |walk| && WF(fs1)
    requires IsRealDir(fs, walk[i + 1].dir) || walk[i + 1].dir in DirLocations(walk[..i + 1])
    requires forall q :: q in fs ==> q in fs1 && fs1[q] == fs[q]
    requires forall p :: p in Locations(walk[0].dir, walk[0].subdirs) ==> IsRealDir(fs1, p)
    ensures IsRealDir(fs1, walk[i + 1].dir) || walk[i + 1].dir in DirLocations(walk[1..][..i])
  {
    var d := walk[i + 1].dir;
    if IsRealDir(fs, d) {
      RealDirKept(fs, fs1, d);
    } else {
      var pre := walk[..i + 1];
      DirLocationsCons(pre);
      assert pre[0] == walk[0] && pre[1..] == walk[1..][..i];
    }
  }

  /** After the first step, each later step still visits a directory. */
  lemma TailVisitsDirectories(fs: Fs, fs1: Fs, walk: seq<WalkStep>)
    requires |walk| > 0 && WF(fs1)
    requires forall i :: 0 <= i < |walk| ==> IsRealDir(fs, walk[i].dir) || walk[i].dir in DirLocations(walk[..i])
    requires forall q :: q in fs ==> q in fs1 && fs1[q] == fs[q]
    requires forall p :: p in Locations(walk[0].dir, walk[0].subdirs) ==> IsRealDir(fs1, p)
    ensures forall i :: 0 <= i < |walk[1..]| ==>
              IsRealDir(fs1, walk[1..][i].dir) || walk[1..][i].dir in DirLocations(walk[1..][..i])
  {
    forall i | 0 <= i < |walk[1..]|
      ensures IsRealDir(fs1, walk[1..][i].dir) || walk[1..][i].dir in DirLocations(walk[1..][..i])
    {
      TailVisitsDirectory(fs, fs1, walk, i);
    }
  }

  /** After the first step, no later location is present: each lies in a
      directory other than the first step's, and the first step adds only
      locations in its own directory. */
  lemma TailLocationsFree(fs: Fs, fs1: Fs, walk: seq<WalkStep>)
    requires |walk| > 0
    requires forall i :: 1 <= i < |walk| ==> walk[0].dir != walk[i].dir
    requires forall p :: p in DirLocations(walk) || p in FileLocations(walk) ==> p !in fs
    requires fs1.Keys == fs.Keys + Locations(walk[0].dir, walk[0].subdirs) + Locations(walk[0].dir, walk[0].files)
    ensures forall p :: p in DirLocations(walk[1..]) || p in FileLocations(walk[1..]) ==> p !in fs1
  {
    var s := walk[0];
    var rest := walk[1..];
    forall p | p in DirLocations(rest) || p in FileLocations(rest) ensures p !in fs1 {
      LocationsVisited(rest, p);
      var k :| 0 <= k < |rest| && rest[k].dir == Parent(p);
      assert walk[k + 1].dir == Parent(p);
      if p in Locations(s.dir, s.subdirs) {
        LocationsIn(s.dir, s.subdirs, p);
      }
      if p in Locations(s.dir, s.files) {
        LocationsIn(s.dir, s.files, p);
      }
    }
  }

  /** What is left of a replayable walk after its first step is replayable
      from the tree that step leaves. */
  lemma ReplayableTail(fs: Fs, fs1: Fs, walk: seq<WalkStep>)
    requires |walk| > 0 && Replayable(fs, walk) && WF(fs1)
    requires Grown(fs, fs1, Locations(walk[0].dir, walk[0].subdirs) + Locations(walk[0].dir, walk[0].files))
    requires forall p :: p in Locations(walk[0].dir, walk[0].subdirs) ==> IsRealDir(fs1, p)
    ensures Replayable(fs1, walk[1..])
  {
    var rest := walk[1..];
    TailVisitsDirectories(fs, fs1, walk);
    TailLocationsFree(fs, fs1, walk);
    forall i, j | 0 <= i < j < |rest| ensures rest[i].dir != rest[j].dir {
      assert rest[i] == walk[i + 1] && rest[j] == walk[j + 1];
    }
    forall i | 0 <= i < |rest| ensures Distinct(rest[i].subdirs + rest[i].files) {
      assert rest[i] == walk[i + 1];
    }
  }

  /** The mirror succeeds on a replayable walk, and adds exactly the
      walk's locations, changing nothing already there. */
  lemma {:induction false} MirrorSucceeds(fs: Fs, tree: string, walk: seq<WalkStep>)
    requires WF(fs) && Replayable(fs, walk)
    ensures MirrorTree(fs, tree, walk).Ok?
    ensures Grown(fs, MirrorTree(fs, tree, walk).value, DirLocations(walk) + FileLocations(walk))
    decreases |walk|
  {
    if |walk| > 0 {
      var s := walk[0];
      var rest := walk[1..];
      assert walk[..0] == [];
      MirrorStepSucceeds(fs, tree, s);
      var fs1 := MirrorStep(fs, tree, s).value;
      ReplayableTail(fs, fs1, walk);
      MirrorSucceeds(fs1, tree, rest);
      GrownTrans(fs, fs1, MirrorTree(fs1, tree, rest).value,
                 Locations(s.dir, s.subdirs) + Locations(s.dir, s.files), DirLocations(rest) + FileLocations(rest));
    }
  }

  /** A name that does not start with `.` has no metadata prefix. */
  lemma NoDotNoPrefix(s: string)
    requires |s| > 0 && s[0] != '.'
    ensures !HasGitPrefix(s)
  {
  }

  /** No component of `p` starts with `.git`. */
  predicate NoMetadata(p: Path) {
    forall j :: 0 <= j < |p| ==> !HasGitPrefix(p[j])
  }

  lemma {:induction false} LocationsNoMetadata(dir: Path, names: seq<Name>)
    requires NoMetadata(dir)
    ensures forall p :: p in Locations(dir, names) ==> NoMetadata(p)
    decreases |names|
  {
    if |names| > 0 {
      LocationsNoMetadata(dir, names[1..]);
    }
  }

  lemma {:induction false} WalkLocationsNoMetadata(walk: seq<WalkStep>)
    requires forall i :: 0 <= i < |walk| ==> NoMetadata(walk[i].dir)
    ensures forall p :: p in DirLocations(walk) ==> NoMetadata(p)
    ensures forall p :: p in FileLocations(walk) ==> NoMetadata(p)
    decreases |walk|
  {
    if |walk| > 0 {
      LocationsNoMetadata(walk[0].dir, walk[0].subdirs);
      LocationsNoMetadata(walk[0].dir, walk[0].files);
      WalkLocationsNoMetadata(walk[1..]);
    }
  }

  /** When no directory the walk visits lies inside a skipped `.git`
      directory, the mirror adds no entry with a `.git` component. A walk
      of a real checkout never meets this condition, because every checkout
      holds `.git` and the walk is not pruned; the lemma covers only trees
      without metadata. */
  lemma MirrorSkipsMetadata(fs: Fs, tree: string, walk: seq<WalkStep>)
    requires MirrorTree(fs, tree, walk).Ok?
    requires forall i :: 0 <= i < |walk| ==> NoMetadata(walk[i].dir)
    ensures forall p :: p in MirrorTree(fs, tree, walk).value && p !in fs ==> NoMetadata(p)
  {
    MirrorCopiesTree(fs, tree, walk);
    WalkLocationsNoMetadata(walk);
    var r := MirrorTree(fs, tree, walk).value;
    forall p | p in r && p !in fs
      ensures NoMetadata(p)
    {
      if p !in FileLocations(walk) {
        var q, i :| q in DirLocations(walk) && 0 < i <= |q| && p == q[..i];
        assert NoMetadata(q);
      }
    }
  }

  /** Names used by the example walks below. */
  const GitDir: Name := ".git"
  const ObjectsDir: Name := "objects"
  const HeadFile: Name := "HEAD"
  const Readme: Name := "README"
  const SrcDir: Name := "src"
  const MainFile: Name := "main.c"

  lemma GitDirIsMetadata()
    ensures HasGitPrefix(GitDir)
  {
    assert GitDir[..4] == GitDir;
  }

  /** The second step of the leaking walk below: the subdirectory of the
      skipped `.git` directory is created together with `.git` itself. */
  lemma MetadataSubdirCreated(tree: string, fs1: Fs)
    requires fs1 == map[[Readme] := Link(Target(tree, [Readme]), false)]
    ensures MakeSubdirs(fs1, [GitDir], [ObjectsDir])
              == Ok(fs1[[GitDir] := Dir][[GitDir, ObjectsDir] := Dir])
  {
    NoDotNoPrefix(ObjectsDir);
    var git: Path := [GitDir];
    var objects: Path := [GitDir, ObjectsDir];
    var fsA := fs1[git := Dir];
    var fs2 := fsA[objects := Dir];
    assert LStat(fs1, git) == Missing;
    assert MakeDirs(fs1, git) == Ok(fsA);
    assert Parent(objects) == git;
    assert LStat(fsA, git) == Present(Dir);
    assert LStat(fsA, objects) == Missing;
    assert Mkdir(fsA, objects) == Ok(fs2);
    assert MakeDirs(fs1, objects) == Ok(fs2);
    assert git + [ObjectsDir] == objects;
  }

  /** The file of the skipped `.git` directory is linked into the merge root
      once that directory exists there. */
  lemma MetadataFileLinked(tree: string, fs2: Fs)
    requires [GitDir] in fs2 && fs2[[GitDir]] == Dir
    requires [GitDir, HeadFile] !in fs2
    ensures LinkFiles(fs2, tree, [GitDir], [HeadFile])
              == Ok(fs2[[GitDir, HeadFile] := Link(Target(tree, [GitDir, HeadFile]), false)])
  {
    NoDotNoPrefix(HeadFile);
    var git: Path := [GitDir];
    var head: Path := [GitDir, HeadFile];
    var fs3 := fs2[head := Link(Target(tree, head), false)];
    assert Parent(head) == git && git + [HeadFile] == head;
    assert LStat(fs2, git) == Present(Dir);
    assert LStat(fs2, head) == Missing;
    assert Symlink(fs2, Target(tree, head), false, head) == Ok(fs3);
  }

  /** The first step of the leaking walk below: `.git` is skipped at the
      top and the top-level file is linked. */
  lemma TopLevelStep(tree: string)
    ensures MirrorStep(map[], tree, WalkStep([], [GitDir], [Readme]))
            == Ok(map[[Readme] := Link(Target(tree, [Readme]), false)])
  {
    var fs0: Fs := map[];
    var fs1 := fs0[[Readme] := Link(Target(tree, [Readme]), false)];
    GitDirIsMetadata();
    NoDotNoPrefix(Readme);
    assert [GitDir][1..] == [] && [Readme][1..] == [];
    assert MakeSubdirs(fs0, [], []) == Ok(fs0);
    assert MakeSubdirs(fs0, [], [GitDir]) == Ok(fs0);
    var readme: Path := [Readme];
    assert Parent(readme) == [] && [] + readme == readme;
    assert LStat(fs0, readme) == Missing;
    assert Symlink(fs0, Target(tree, readme), false, readme) == Ok(fs1);
    assert LinkFiles(fs0, tree, [], [Readme]) == Ok(fs1);
  }

  /** The root the leaking walk below produces: the top-level file, the
      `.git` directory and its subdirectory, and a link to `.git/HEAD`. */
  function LeakedRoot(tree: string): Fs {
    map[[Readme] := Link(Target(tree, [Readme]), false)]
      [[GitDir] := Dir][[GitDir, ObjectsDir] := Dir]
      [[GitDir, HeadFile] := Link(Target(tree, [GitDir, HeadFile]), false)]
  }

  lemma LeakingWalk(tree: string)
    ensures MirrorTree(map[], tree,
                       [WalkStep([], [GitDir], [Readme]), WalkStep([GitDir], [ObjectsDir], [HeadFile])])
            == Ok(LeakedRoot(tree))
  {
    var s0 := WalkStep([], [GitDir], [Readme]);
    var s1 := WalkStep([GitDir], [ObjectsDir], [HeadFile]);
    var fs0: Fs := map[];
    var fs1 := fs0[[Readme] := Link(Target(tree, [Readme]), false)];
    var fs2 := fs1[[GitDir] := Dir][[GitDir, ObjectsDir] := Dir];
    var fs3 := fs2[[GitDir, HeadFile] := Link(Target(tree, [GitDir, HeadFile]), false)];
    assert fs3 == LeakedRoot(tree);
    assert MirrorStep(fs0, tree, s0) == Ok(fs1) by {
      TopLevelStep(tree);
    }
    assert MirrorStep(fs1, tree, s1) == Ok(fs3) by {
      MetadataSubdirCreated(tree, fs1);
      MetadataFileLinked(tree, fs2);
    }
    assert MirrorTree(fs1, tree, [s1]) == Ok(fs3) by {
      assert MirrorTree(fs3, tree, []) == Ok(fs3);
      assert [s1][1..] == [];
    }
    assert [s0, s1][1..] == [s1];
  }

  /** The walk is not pruned: below a skipped `.git` directory the mirror
      still creates subdirectories, and `os.makedirs` creates the `.git`
      directory itself on the way, so metadata reaches the merge root. */
  lemma MirrorLeaksMetadataDirectory(tree: string)
    ensures
      var walk := [WalkStep([], [GitDir], [Readme]), WalkStep([GitDir], [ObjectsDir], [HeadFile])];
      var r := MirrorTree(map[], tree, walk);
      && r.Ok?
      && [GitDir] in r.value && r.value[[GitDir]] == Dir
      && [GitDir, HeadFile] in r.value
      && r.value[[GitDir, HeadFile]] == Link(Target(tree, [GitDir, HeadFile]), false)
  {
    LeakingWalk(tree);
    var git: Path := [GitDir];
    var head: Path := [GitDir, HeadFile];
    assert git != head && git != [GitDir, ObjectsDir];
    assert LeakedRoot(tree)[git] == Dir;
  }

  /** A `.git` directory without subdirectories is never created, so
      linking the files inside it raises ENOENT and the whole merge fails. */
  lemma MirrorFailsOnFlatMetadataDirectory(tree: string)
    ensures
      var walk := [WalkStep([], [GitDir], []), WalkStep([GitDir], [], [HeadFile])];
      MirrorTree(map[], tree, walk) == Err(NotFound([GitDir, HeadFile]))
  {
    var fs0: Fs := map[];
    GitDirIsMetadata();
    NoDotNoPrefix(HeadFile);
    assert [GitDir][1..] == [] && [HeadFile][1..] == [];
    assert MakeSubdirs(fs0, [], []) == Ok(fs0);
    assert MakeSubdirs(fs0, [], [GitDir]) == Ok(fs0);
    assert MirrorStep(fs0, tree, WalkStep([], [GitDir], [])) == Ok(fs0);
    var git: Path := [GitDir];
    assert Parent([GitDir, HeadFile]) == git && Parent(git) == [];
    assert LStat(fs0, git) == Missing;
    assert LStat(fs0, [GitDir, HeadFile]) == Missing;
    assert Symlink(fs0, Target(tree, [GitDir, HeadFile]), false, [GitDir, HeadFile])
           == Err(NotFound([GitDir, HeadFile]));
    var loc: Path := [GitDir] + [HeadFile];
    assert loc == [GitDir, HeadFile];
    assert LinkFiles(fs0, tree, [GitDir], [HeadFile]) == Err(NotFound([GitDir, HeadFile]));
    assert MirrorStep(fs0, tree, WalkStep([GitDir], [], [HeadFile])) == Err(NotFound([GitDir, HeadFile]));
  }

  /** A checkout-shaped walk without metadata, a `src` directory beside a
      README, is replayable into an empty merge root, so the mirror
      succeeds on it. */
  lemma PlainWalkSucceeds(tree: string)
    ensures MirrorTree(map[], tree, [WalkStep([], [SrcDir], [Readme]), WalkStep([SrcDir], [], [MainFile])]).Ok?
  {
    var s0 := WalkStep([], [SrcDir], [Readme]);
    var s1 := WalkStep([SrcDir], [], [MainFile]);
    var walk := [s0, s1];
    var fs0: Fs := map[];
    NoDotNoPrefix(SrcDir);
    NoDotNoPrefix(Readme);
    NoDotNoPrefix(MainFile);
    assert [SrcDir][1..] == [] && [Readme][1..] == [] && [MainFile][1..] == [];
    assert walk[1..] == [s1] && [s1][1..] == [];
    assert walk[..0] == [] && walk[..1] == [s0];
    assert DirLocations([s0]) == {[SrcDir]} by {
      assert Locations([], [SrcDir]) == {[] + [SrcDir]};
      assert [] + [SrcDir] == [SrcDir];
    }
    assert Replayable(fs0, walk);
    MirrorSucceeds(fs0, tree, walk);
  }
}
