# reponimous overlay merge, modelled in Dafny

reponimous builds one merged directory tree out of several git repositories.
A configuration lists repositories in order. Each entry has a `git` locator, a
`ref` that defaults to `master`, and an optional `files` list of overlays, each
with a glob pattern `src` and an optional destination `dst`. Every repository is
cloned into a cache directory whose name is computed from the locator's basename
and the ref. It is then linked into a temporary merge root:

- with no overlays, the whole checkout is mirrored (directories recreated, files
  symlinked);
- otherwise each overlay pattern is expanded and every match is symlinked at a
  place chosen from `dst` and from what the merge root already holds.

Later overlays, from the same or a later repository, replace the links of
earlier ones; a mirrored repository instead raises on any path already present.

This project models that core, `reponimous/client.py`, as pure functions over an
abstract file system, and proves what the code guarantees, including behaviours
that are easy to miss.

Modules, one per concern, in dependency order:

- `Paths` (paths.dfy): relative paths as sequences of components, `Parent`,
  `Basename`, and the `.git` name-prefix test.
- `Results` (results.dfy): the error kinds the merge can raise, `Result` and
  `Option`.
- `FileSystem` (filesystem.dfy): the merge root as a map from relative path to
  directory, file or symbolic link, with `lstat` path resolution and the system
  calls the merge makes: `os.mkdir`, `os.makedirs`, `os.symlink`, `os.remove`
  and `_force_symlink`.
- `CacheName` (cachename.dfy): the cache directory name, with
  `os.path.basename` and Python's `re.sub(".git$", '', …)` given independent
  reference definitions.
- `Overlay` (overlay.dfy): `_link_overlay_files`.
- `Placement` (placement.dfy): the destination table of `_link_overlay_files`,
  one lemma per case.
- `Mirror` (mirror.dfy): `_symlink_all_content`.
- `Merge` (merge.dfy): `_fetch_git_repo` as seen by the merge, and the
  repository loop of `_create_merged_repository`.

Six behaviours of the code are easy to miss:

- The walk is not pruned, so the contents of a skipped `.git` directory reach
  the merge root (`Mirror.MirrorLeaksMetadataDirectory`). If that directory has
  no subdirectories, the merge fails instead (`Mirror.MirrorFailsOnFlatMetadataDirectory`).
- The mirror uses plain `os.makedirs` and `os.symlink`, so a path that an earlier
  repository already created makes the merge raise (`Mirror.MirrorRefusesOccupied`).
- The pattern `.git$` has an unescaped dot, so `widgit` and `wi.git` share a
  cache directory (`CacheName.UnescapedDotCollides`).
- A directory match with no `dst` raises. A directory match whose `dst` does not
  exist and does not end in `/` also raises, after the directory is created
  (`Placement.DirWithoutDst`, `Placement.DirRenameToMissing`).
- A file match whose `dst` ends in `/` but names a file makes `os.makedirs`
  raise EEXIST, because `os.path.exists` of that path with its trailing `/`
  is false (`Placement.FileIntoNonDirectory`).
- A pattern ending in `/` matches directories spelled with the slash, so their
  basename is empty: a `.git/` match is not skipped, and such a match linked into
  a directory `dst` raises, because the link would land on `dst` itself
  (`Placement.SlashedMatchNotSkipped`, `Placement.SlashedDirOntoExisting`).

## Model

| member | source | states |
|---|---|---|
| `FileSystem.LStat` | reponimous/client.py:84-124 | a path found present is an entry of the root, and its parent is found to be a directory |
| `FileSystem.Create` | reponimous/client.py:56 | creation succeeds exactly when the path is free and its parent is a real directory; it then adds just that entry; an existing path gives EEXIST |
| `FileSystem.Remove` | reponimous/client.py:59 | removal succeeds exactly on an existing non-directory and deletes just that entry; a directory makes it raise |
| `FileSystem.ForceSymlink` | reponimous/client.py:54-60 | fails exactly when a directory sits at the path or the path lies beyond a link to a directory; replaces a link or file there; swallows errors other than EEXIST, leaving the root unchanged; at most the one entry changes |
| `FileSystem.MakeDirsExisting` | reponimous/client.py:107 | `os.makedirs` of a path that is already present raises EEXIST |
| `FileSystem.MakeDirs` | reponimous/client.py:107 | `os.makedirs` succeeds exactly when no component blocks it and the path itself is free; it creates the directory, keeps every entry, and adds only directories on the way |
| `Overlay.ForceSymlinkChange` | reponimous/client.py:54-60 | a successful forced link changes the root only by a link to its target |
| `Overlay.EnsureDir` | reponimous/client.py:106-107 | the directory step succeeds exactly when `os.path.exists` holds or the path can be created; a path spelled with a trailing `/` exists only as a directory, and a file there makes it raise EEXIST; an existing path leaves the root unchanged; a new directory is a real directory and only prefixes of it are added |
| `Overlay.LinkFile` | reponimous/client.py:91-107 | the file branch only adds directories or links to the match, and keeps the root well formed |
| `Overlay.FileDestination` | reponimous/client.py:94-103 | where a file match is linked; characterised case by case by `Placement.FileWithoutDst`, `Placement.FileIntoDirectory` and `Placement.FileRename` |
| `Overlay.LinkDir` | reponimous/client.py:109-124 | the directory branch, including a match spelled with a trailing `/` whose basename is empty, only adds directories or links to the match, and keeps the root well formed |
| `Overlay.LinkMatch` | reponimous/client.py:82-126 | missing matches and names starting with `.git` (by the basename of the match as spelled, so a `.git/` match is not skipped) change nothing; otherwise every change is a directory where nothing was or a link to this match |
| `Overlay.LinkOverlayFiles` | reponimous/client.py:78-126 | one pattern keeps every entry and directory, and adds or replaces entries only with links to its linkable matches |
| `Overlay.LinkOverlay` | reponimous/client.py:166-170 | an overlay without `src` raises; otherwise it changes the root only by links to the matches of its pattern |
| `Placement.FileWithoutDst` | reponimous/client.py:94-97 | a file with empty or absent `dst` is linked at its own relative path, and its directory is created |
| `Placement.FileIntoDirectory` | reponimous/client.py:98-100 | a file whose `dst` is a directory of the root, or is missing, creatable and ends in `/`, is linked inside `dst` under its own name |
| `Placement.FileRename` | reponimous/client.py:101-103 | a file whose `dst` is not a directory is linked at `dst` itself |
| `Placement.FileIntoNonDirectory` | reponimous/client.py:98-107 | a file whose `dst` ends in `/` but names a file or a link to a file raises EEXIST |
| `Placement.DirIntoDirectory` | reponimous/client.py:110-113 | a directory whose `dst` is a directory is linked inside it, and nothing else changes |
| `Placement.DirIntoMissingDirectory` | reponimous/client.py:110-113 | a directory whose `dst` ends in `/` but is missing changes nothing |
| `Placement.DirWithoutDst` | reponimous/client.py:110 | a directory with no `dst` raises |
| `Placement.DirRenameToMissing` | reponimous/client.py:119-126 | a directory renamed to a missing `dst` raises |
| `Placement.DirRenameReplaces` | reponimous/client.py:119-126 | a directory renamed onto a file replaces that file with a link to itself |
| `Placement.SlashedMatchNotSkipped` | reponimous/client.py:88 | a directory match spelled with a trailing `/`, `.git/` included, has an empty basename and is not skipped |
| `Placement.SlashedDirOntoExisting` | reponimous/client.py:110-112 | a slash-spelled directory match whose `dst` is a directory, or ends in `/` and is present, raises: the link would land on `dst` itself, and a directory there makes the removal raise |
| `Placement.SlashedDirIntoMissing` | reponimous/client.py:110-113 | a slash-spelled directory match whose `dst` ends in `/` and is missing changes nothing, since the failed link is swallowed |
| `Placement.LaterLinkReplaces` | reponimous/client.py:105-126 | a file linked where a link or file already is replaces just that entry |
| `Mirror.MakeSubdirs` | reponimous/client.py:67-70 | the subdirectory loop; characterised by `Mirror.MakeSubdirsCreates`, `Mirror.MakeSubdirsRefusesOccupied` and `Mirror.MakeSubdirsSucceeds` |
| `Mirror.LinkFiles` | reponimous/client.py:71-75 | the file loop; characterised by `Mirror.LinkFilesLinks`, `Mirror.LinkFilesRefusesOccupied` and `Mirror.LinkFilesSucceeds` |
| `Mirror.MirrorTree` | reponimous/client.py:63-75 | the whole-tree mirror; characterised by `Mirror.MirrorCopiesTree`, `Mirror.MirrorRefusesOccupied` and `Mirror.MirrorSucceeds` |
| `Mirror.MakeSubdirsCreates` | reponimous/client.py:67-70 | every listed subdirectory not starting with `.git` becomes a directory; nothing else is added but directories on the way |
| `Mirror.MakeSubdirsRefusesOccupied` | reponimous/client.py:70 | an already present subdirectory makes the loop raise; success keeps the root well formed |
| `Mirror.LinkFilesLinks` | reponimous/client.py:71-75 | every listed file not starting with `.git` is linked to the same relative path in the tree, and nothing else is added |
| `Mirror.LinkFilesRefusesOccupied` | reponimous/client.py:74-75 | an already present file location makes the loop raise; success keeps the root well formed |
| `Mirror.MirrorCopiesTree` | reponimous/client.py:63-75 | the mirror keeps every entry, creates every listed subdirectory, links every listed file to itself, and adds nothing else |
| `Mirror.MirrorRefusesOccupied` | reponimous/client.py:63-75 | a mirror into a root that already holds one of its paths raises; success keeps the root well formed |
| `Mirror.MakeSubdirsSucceeds` | reponimous/client.py:67-70 | from an existing directory, distinct names whose locations are free are all created as directories, and nothing else changes |
| `Mirror.LinkFilesSucceeds` | reponimous/client.py:71-75 | from an existing directory, distinct names whose locations are free are all linked, and nothing else changes |
| `Mirror.MirrorStepSucceeds` | reponimous/client.py:64-75 | one directory of the walk, with distinct names and free locations, is mirrored without error |
| `Mirror.MirrorSucceeds` | reponimous/client.py:63-75 | a walk whose directories exist or are created by earlier steps, visited once each, with distinct names and no location already present, is mirrored without error, adding exactly its locations |
| `Mirror.PlainWalkSucceeds` | reponimous/client.py:63-75 | a `src` directory beside a README, holding one file, mirrors into an empty root |
| `Mirror.MirrorSkipsMetadata` | reponimous/client.py:68-73 | when the walk visits no `.git` directory, nothing with a `.git` component is added; a real checkout always holds `.git`, which the unpruned walk visits, so this covers only trees without metadata |
| `Mirror.MirrorLeaksMetadataDirectory` | reponimous/client.py:64-70 | the unpruned walk creates `.git` and links the files inside it |
| `Mirror.MirrorFailsOnFlatMetadataDirectory` | reponimous/client.py:64-75 | a `.git` directory without subdirectories makes the mirror raise |
| `CacheName.LastSegment` | reponimous/client.py:38 | `os.path.basename`; characterised by `CacheName.LastSegmentSpec` and `CacheName.LastSegmentUnique` |
| `CacheName.StripGitSuffix` | reponimous/client.py:39 | the `.git$` substitution; shown equal to Python's `re.sub` by `CacheName.StripGitSuffixIsReSub` |
| `CacheName.CacheDirName` | reponimous/client.py:38-41 | the cache directory name; its collisions are stated by `CacheName.SameBasenameCollides`, `CacheName.HyphenCollides` and `CacheName.UnescapedDotCollides` |
| `CacheName.LastSegmentSpec` | reponimous/client.py:38 | the basename is a slash-free suffix that starts the locator or follows a slash |
| `CacheName.LastSegmentUnique` | reponimous/client.py:38 | no other suffix has those properties |
| `CacheName.StripGitSuffixIsReSub` | reponimous/client.py:39 | removing the suffix agrees with the left-to-right substitution of Python's `re.sub` for `.git$` |
| `CacheName.DotGitStripped` | reponimous/client.py:38-41 | `name.git` at the default ref is cached as `name-master` |
| `CacheName.SameBasenameCollides` | reponimous/client.py:38-41 | locators with equal basenames share a cache directory for the same ref |
| `CacheName.UnescapedDotCollides` | reponimous/client.py:39 | `widgit` is cached as `wi-master`, the same directory as `wi.git` |
| `CacheName.StrippedToWi` | reponimous/client.py:38-41 | a basename of `wi`, one character other than `/` or a newline, then `git`, is cached as `wi-master` at the default ref |
| `CacheName.HyphenCollides` | reponimous/client.py:41 | `x/a-b` at ref `c` and `x/a` at ref `b-c` share the cache directory `a-b-c` |
| `Merge.FetchRepo` | reponimous/client.py:38-50 | the directory is the cache name; the cache only gains that directory; a new directory records the locator; the tree checked out is what was first cloned there; fetching fails exactly when git fails |
| `Merge.LinkOverlays` | reponimous/client.py:166-170 | the overlays change the root only by links to matches of their patterns, and keep it well formed |
| `Merge.MirrorInto` | reponimous/client.py:163-164 | the mirror branch keeps every entry and adds only directories and links to the same path in the tree |
| `Merge.LinkRepo` | reponimous/client.py:163-170 | whichever branch runs adds only directories and links into this repository's cache directory |
| `Merge.ApplyRepo` | reponimous/client.py:157-170 | a missing `git` raises; the cache only grows; the root stays well formed |
| `Merge.ApplyRepoRecordsClone` | reponimous/client.py:161 | a merged repository's cache directory is in the cache |
| `Merge.ApplyRepoLinksIntoCache` | reponimous/client.py:156-170 | after a repository, every entry is a directory or a link into a cached checkout |
| `Merge.Merge` | reponimous/client.py:156-170 | the repository loop; characterised by `Merge.MergeInvariants`, `Merge.MergeAppend` and `Merge.LaterRepositoryWins` |
| `Merge.MergeInvariants` | reponimous/client.py:156-170 | across the whole loop the root stays well formed, links only into the cache, and the cache only grows |
| `Merge.CreateMergedRepository` | reponimous/client.py:155-170 | a merge from an empty temporary directory yields a well-formed root of directories and links into cached checkouts |
| `Merge.MergeAppend` | reponimous/client.py:156 | repositories are applied in configuration order, and the first error ends the merge |
| `Merge.LinkOverlaysAppend` | reponimous/client.py:166 | overlays are applied in declared order |
| `Merge.LinkOverlayFilesAppend` | reponimous/client.py:82 | matches are linked in glob order |
| `Merge.RefDefaultsToMaster` | reponimous/client.py:158 | an entry without `ref` is the same as one with `ref: master` |
| `Merge.AbsentFilesMirror` | reponimous/client.py:159-164 | an absent and an empty `files` both mirror the whole tree |
| `Merge.CachedFetchReused` | reponimous/client.py:44-47 | a locator whose directory is cached fetches what was cloned there first |
| `Merge.CollidingLocatorIgnored` | reponimous/client.py:38-50 | a later entry with the same basename and ref is served from the earlier clone |
| `Merge.OverlayIntoEmptyRoot` | reponimous/client.py:94-107 | an overlay matching one file links it at its own path in an empty root |
| `Merge.OverlayReplacesEntry` | reponimous/client.py:105-126 | an overlay matching one file replaces an earlier link at that path |
| `Merge.LaterRepositoryWins` | reponimous/client.py:156-170 | when two repositories overlay the same file, the root links it from the later one |

## Left out

- Git is not modelled. Cloning and checking out are a function from
  (locator, ref) to the checked-out tree, or to failure. Remotes, the ref
  namespace, and the state a failed clone leaves behind are not modelled.
- Glob expansion and `os.walk` are inputs: a tree is given as its walk listing
  and as its pattern expansion. The listing is read as produced, so walk order is
  an input too.
- Creating `~/.reponimous` (lines 33-36) is not modelled; the cache is the map
  of its subdirectories.
- The temporary directory from `tempfile.mkdtemp` is an empty map.
- `_archive`, `_create_timestamp_name`, the move to `--path`, `shutil.rmtree` and
  `sys.exit`: they act only after the merge root is complete.
- YAML parsing, the command line, `install` and `main`, and packaging (setup.py)
  are not part of this model.
- The warning printed for a missing glob match is not modelled; the match is
  skipped.
- Only a relative `dst` without `.` or `..` components is modelled. An absolute
  `dst` would leave the merge root.
- Any path that resolves through a link to a directory lies inside a fetched
  checkout. The model reports every probe or write of such a path as a separate
  error, `ThroughLink`, rather than following it, even where the code would
  only probe or would swallow the failure.
- ENOENT and ENOTDIR are one error kind, `NotFound`; the code treats them alike.
- Special files (sockets, devices) are not modelled; every non-directory is a
  file or a link.
- A configuration value of a wrong type (a null `ref`, a non-string `dst`) is
  not modelled beyond an absent key.
- Merge.FetchRepo: checking out a second ref in a cache directory that already
  holds a clone (the name `"%s-%s"` gives `a-b-c` for both `x/a-b` at `c` and
  `x/a` at `b-c`, `CacheName.HyphenCollides`) changes the tree that earlier
  links point into. The model keeps each link's recorded target kind and does
  not update the trees behind earlier links, so `os.path.isdir` probes through
  such links can differ from the code.
- What the cache holds after a failed merge is not stated; the loop's
  invariants are about a merge that succeeds.
