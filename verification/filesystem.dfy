/** The merge root as an abstract file system, and the system calls the
    merge makes on it: `os.path.exists`/`isdir` probes, `os.mkdir`,
    `os.makedirs`, `os.symlink`, `os.remove`, and the replace-a-link
    primitive `_force_symlink` built from them. */
module FileSystem {
  import opened Paths
  import opened Results

  /** An absolute path into a fetched tree: `path` below the cache
      directory named `tree`. */
  datatype Target = Target(tree: string, path: Path)

  /** An entry of the merge root. A link records whether its target was a
      directory when the link was made. A later checkout into the same cache
      directory can change that; the model keeps the recorded kind. */
  datatype Node = Dir | File | Link(target: Target, toDir: bool)

  /** The merge root: every entry below it, keyed by its relative path. The
      root itself is not a key; it is always a directory. */
  type Fs = map<Path, Node>

  /** What `lstat` finds at a path: nothing, an entry of the merge root, or
      a location reached through a link to a directory, which lies inside a
      fetched tree and outside the merge root. */
  datatype Entry = Missing | Present(node: Node) | Beyond

  /** Resolves every component but the last, following links, as the
      operating system does for `lstat`, `mkdir`, `symlink` and `unlink`. */
  function LStat(fs: Fs, p: Path): (e: Entry)
    ensures |p| > 0 && e.Present? ==> p in fs && e.node == fs[p]
    ensures |p| > 0 && e.Present? ==> LStat(fs, Parent(p)) == Present(Dir)
    decreases |p|
  {
    if |p| == 0 then Present(Dir)
    else
      match LStat(fs, Parent(p))
      case Present(Dir) => if p in fs then Present(fs[p]) else Missing
      case Present(Link(_, toDir)) => if toDir then Beyond else Missing
      case Present(File) => Missing
      case Missing => Missing
      case Beyond => Beyond
  }

  /** `os.path.exists`. A link is taken to resolve: its target existed when it
      was made, and the model does not follow later checkouts. */
  predicate Exists(fs: Fs, p: Path) {
    LStat(fs, p).Present?
  }

  /** `os.path.exists(root/p)`, with `root/p` spelled with a trailing `/`
      when `slash` holds: then `stat` follows a link at the last component
      and succeeds only on a directory. */
  predicate ExistsSpelled(fs: Fs, p: Path, slash: bool) {
    if slash then IsDir(fs, p) else Exists(fs, p)
  }

  /** `os.path.isdir`, which follows a link at the last component. */
  predicate IsDir(fs: Fs, p: Path) {
    match LStat(fs, p)
    case Present(Dir) => true
    case Present(Link(_, toDir)) => toDir
    case _ => false
  }

  /** A real directory of the merge root (the root included). */
  predicate IsRealDir(fs: Fs, p: Path) {
    LStat(fs, p) == Present(Dir)
  }

  /** The shape every merge root has: the root is not a key, and the parent
      of every entry below the top level is a directory of the merge root. */
  ghost predicate WF(fs: Fs) {
    && [] !in fs
    && forall p :: p in fs && |p| > 1 ==> Parent(p) in fs && fs[Parent(p)] == Dir
  }

  /** In a well-formed root, `lstat` finds every entry at its own path. */
  lemma {:induction false} LStatOfEntry(fs: Fs, p: Path)
    requires WF(fs)
    requires p in fs
    ensures LStat(fs, p) == Present(fs[p])
    decreases |p|
  {
    if |p| > 1 {
      LStatOfEntry(fs, Parent(p));
    }
  }

  /** Whatever `lstat` finds, every shorter prefix on the way is a directory
      of the merge root. */
  lemma {:induction false} PresentMeansDirPrefixes(fs: Fs, p: Path, i: nat)
    requires LStat(fs, p).Present?
    requires i < |p|
    ensures LStat(fs, p[..i]) == Present(Dir)
    decreases |p|
  {
    assert LStat(fs, Parent(p)) == Present(Dir);
    if i < |p| - 1 {
      PresentMeansDirPrefixes(fs, Parent(p), i);
      assert Parent(p)[..i] == p[..i];
    } else {
      assert p[..i] == Parent(p);
    }
  }

  /** `lstat` of `q` depends only on the entries at the non-empty prefixes
      of `q`. */
  lemma {:induction false} LStatFrame(fs: Fs, fs': Fs, q: Path)
    requires forall i :: 0 < i <= |q| ==> (q[..i] in fs <==> q[..i] in fs')
    requires forall i :: 0 < i <= |q| && q[..i] in fs ==> fs[q[..i]] == fs'[q[..i]]
    ensures LStat(fs, q) == LStat(fs', q)
    decreases |q|
  {
    if |q| > 0 {
      forall i | 0 < i <= |Parent(q)|
        ensures Parent(q)[..i] == q[..i]
      {
      }
      LStatFrame(fs, fs', Parent(q));
      assert q[..|q|] == q;
    }
  }

  /** Changing the entry at `p` does not change what `lstat` finds at a
      path shorter than `p`. */
  lemma LStatBelowChange(fs: Fs, fs': Fs, p: Path, q: Path)
    requires |q| < |p|
    requires forall r :: r != p ==> (r in fs <==> r in fs')
    requires forall r :: r != p && r in fs ==> fs[r] == fs'[r]
    ensures LStat(fs, q) == LStat(fs', q)
  {
    forall i | 0 < i <= |q|
      ensures q[..i] != p
    {
    }
    LStatFrame(fs, fs', q);
  }

  /** Creates one new entry at `p`, as `os.mkdir` and `os.symlink` do: the
      containing directory must be a directory of the merge root and `p`
      must be free. */
  function Create(fs: Fs, p: Path, n: Node): (r: Result<Fs>)
    ensures r.Ok? <==> |p| > 0 && LStat(fs, p) == Missing && IsRealDir(fs, Parent(p))
    ensures r.Ok? ==> p !in fs && r.value == fs[p := n] && LStat(r.value, p) == Present(n)
    ensures LStat(fs, p).Present? ==> r == Err(AlreadyExists(p))
    ensures LStat(fs, p).Beyond? ==> r == Err(ThroughLink(p))
    ensures WF(fs) && r.Ok? ==> WF(r.value)
  {
    if |p| == 0 then Err(AlreadyExists(p))
    else
      match LStat(fs, p)
      case Beyond => Err(ThroughLink(p))
      case Present(_) => Err(AlreadyExists(p))
      case Missing =>
        if IsRealDir(fs, Parent(p)) then
          LStatBelowChange(fs, fs[p := n], p, Parent(p));
          Ok(fs[p := n])
        else Err(NotFound(p))
  }

  /** `os.mkdir`. */
  function Mkdir(fs: Fs, p: Path): Result<Fs> {
    Create(fs, p, Dir)
  }

  /** `os.symlink(target, root/p)`. */
  function Symlink(fs: Fs, target: Target, toDir: bool, p: Path): Result<Fs> {
    Create(fs, p, Link(target, toDir))
  }

  /** `os.remove` (unlink): removes anything but a directory. */
  function Remove(fs: Fs, p: Path): (r: Result<Fs>)
    ensures r.Ok? <==> LStat(fs, p).Present? && LStat(fs, p).node != Dir
    ensures r.Ok? ==> p in fs && r.value == fs - {p}
    ensures LStat(fs, p) == Present(Dir) ==> r.Err? && r.error.IsADirectory?
    ensures WF(fs) && r.Ok? ==> WF(r.value)
  {
    if |p| == 0 then Err(IsADirectory(p))
    else
      match LStat(fs, p)
      case Beyond => Err(ThroughLink(p))
      case Missing => Err(NotFound(p))
      case Present(n) => if n == Dir then Err(IsADirectory(p)) else Ok(fs - {p})
  }

  /** `_force_symlink`: tries `os.symlink`; on EEXIST removes what is there
      and links again; any other `OSError` of the first attempt is swallowed.
      So an existing link or file at `p` is replaced, an existing directory
      makes the removal raise, and a missing or non-directory parent leaves
      the root as it was. */
  function ForceSymlink(fs: Fs, target: Target, toDir: bool, p: Path): (r: Result<Fs>)
    ensures r.Err? <==> LStat(fs, p) == Present(Dir) || LStat(fs, p).Beyond?
    ensures |p| > 0 && IsRealDir(fs, Parent(p)) && LStat(fs, p) != Present(Dir) ==>
              r == Ok(fs[p := Link(target, toDir)])
    ensures LStat(fs, p).Missing? && !IsRealDir(fs, Parent(p)) ==> r == Ok(fs)
    ensures r.Ok? ==> r.value == fs || r.value == fs[p := Link(target, toDir)]
    ensures WF(fs) && r.Ok? ==> WF(r.value)
  {
    match Symlink(fs, target, toDir, p)
    case Ok(fs1) => Ok(fs1)
    case Err(AlreadyExists(_)) =>
      (match Remove(fs, p)
       case Ok(fs2) =>
         LStatBelowChange(fs, fs2, p, Parent(p));
         assert fs2[p := Link(target, toDir)] == fs[p := Link(target, toDir)];
         Symlink(fs2, target, toDir, p)
       case Err(e) => Err(e))
    case Err(ThroughLink(q)) => Err(ThroughLink(q))
    case Err(_) => Ok(fs)
  }

  /** No path component of `p` blocks `os.makedirs(root/p)`: `p` itself is
      free, and every shorter prefix is a directory or free. */
  predicate Creatable(fs: Fs, p: Path) {
    && |p| > 0
    && LStat(fs, p) == Missing
    && forall i :: 0 < i < |p| ==> LStat(fs, p[..i]) == Missing || LStat(fs, p[..i]) == Present(Dir)
  }

  /** `os.makedirs(root/p)` (Python 2.7): creates the missing parent first
      when it does not exist (ignoring EEXIST from that inner call), then
      `os.mkdir(root/p)`, which raises if `p` exists. */
  function MakeDirs(fs: Fs, p: Path): (r: Result<Fs>)
    ensures WF(fs) ==> (r.Ok? <==> Creatable(fs, p))
    ensures r.Ok? ==> IsRealDir(r.value, p)
    ensures r.Ok? ==> forall q :: q in fs ==> q in r.value && r.value[q] == fs[q]
    ensures r.Ok? ==> forall q :: q in r.value && q !in fs ==> r.value[q] == Dir && 0 < |q| <= |p| && q == p[..|q|]
    ensures WF(fs) && r.Ok? ==> WF(r.value)
    decreases |p|
  {
    if |p| == 0 then Mkdir(fs, p)
    else
      var head := Parent(p);
      if |head| > 0 && LStat(fs, head).Beyond? then Err(ThroughLink(head))
      else if |head| > 0 && !Exists(fs, head) then
        CreatableViaParent(fs, p);
        match MakeDirs(fs, head)
        case Ok(fs1) =>
          MakeDirsStep(fs, fs1, p);
          Mkdir(fs1, p)
        case Err(AlreadyExists(_)) => Mkdir(fs, p)
        case Err(e) => Err(e)
      else
        MakeDirsLast(fs, p);
        Mkdir(fs, p)
  }

  /** The last `os.mkdir` of `MakeDirs` when the parent exists already. */
  lemma MakeDirsLast(fs: Fs, p: Path)
    requires |p| > 0
    requires |Parent(p)| == 0 || Exists(fs, Parent(p))
    ensures Creatable(fs, p) <==> LStat(fs, p) == Missing && IsRealDir(fs, Parent(p))
  {
    if LStat(fs, p) == Missing && IsRealDir(fs, Parent(p)) {
      forall i | 0 < i < |p|
        ensures LStat(fs, p[..i]) == Present(Dir)
      {
        if i < |Parent(p)| {
          PresentMeansDirPrefixes(fs, Parent(p), i);
          assert Parent(p)[..i] == p[..i];
        } else {
          assert p[..i] == Parent(p);
        }
      }
    }
    if Creatable(fs, p) && |Parent(p)| > 0 {
      assert p[..|p| - 1] == Parent(p);
    }
  }

  /** Below a missing parent, `p` can be created exactly when the parent
      can. */
  lemma CreatableViaParent(fs: Fs, p: Path)
    requires |p| > 1 && LStat(fs, Parent(p)) == Missing
    ensures Creatable(fs, p) <==> Creatable(fs, Parent(p))
  {
    var head := Parent(p);
    assert LStat(fs, p) == Missing;
    assert p[..|head|] == head;
    if Creatable(fs, head) {
      forall i | 0 < i < |p|
        ensures LStat(fs, p[..i]) == Missing || LStat(fs, p[..i]) == Present(Dir)
      {
        if i < |head| {
          assert head[..i] == p[..i];
        }
      }
    }
    if Creatable(fs, p) {
      forall i | 0 < i < |head|
        ensures LStat(fs, head[..i]) == Missing || LStat(fs, head[..i]) == Present(Dir)
      {
        assert head[..i] == p[..i];
      }
    }
  }

  /** The last `os.mkdir` of `MakeDirs` after the missing parent has been
      created: in a well-formed root nothing was at `p`. */
  lemma MakeDirsStep(fs: Fs, fs1: Fs, p: Path)
    requires |p| > 1 && LStat(fs, Parent(p)) == Missing
    requires forall q :: q in fs1 && q !in fs ==> q <= Parent(p)
    ensures WF(fs) && IsRealDir(fs1, Parent(p)) ==> p !in fs1 && LStat(fs1, p) == Missing
  {
    if WF(fs) && p in fs {
      LStatOfEntry(fs, p);
    }
  }

  /** `os.makedirs` of a path that is present raises EEXIST from its final
      `os.mkdir`. */
  lemma MakeDirsExisting(fs: Fs, p: Path)
    requires LStat(fs, p).Present?
    ensures MakeDirs(fs, p) == Err(AlreadyExists(p))
  {
  }
}
