/** Paths as Rust's `Path::components` yields them, and the three folders the
    tool keeps under the workspace root. */
module Paths {
  import opened Wrappers

  datatype Component = RootDir | CurDir | ParentDir | Normal(name: string)

  type Path = seq<Component>

  /** `Path::file_name`: the final component when it is a plain name. */
  function FileName(p: Path): Option<string>
  {
    if |p| > 0 && p[|p| - 1].Normal? then Some(p[|p| - 1].name) else None
  }

  /** `Path::join` with a single plain name. */
  function Join(p: Path, name: string): Path
  {
    p + [Normal(name)]
  }

  predicate IsPrefix(a: Path, b: Path)
  {
    |a| <= |b| && b[..|a|] == a
  }

  /** `patches/`: the durable `.patch` files. */
  function PatchesFolder(root: Path): Path
  {
    root + [Normal("patches")]
  }

  /** `target/patch/`: the staged copies, one per slug. */
  function PatchTargetFolder(root: Path): Path
  {
    root + [Normal("target"), Normal("patch")]
  }

  /** `target/patch-tmp/`: scratch space of create mode. */
  function PatchTargetTmpFolder(root: Path): Path
  {
    root + [Normal("target"), Normal("patch-tmp")]
  }

  /** No folder lies inside another one, so removing one of them recursively
      leaves the other two untouched (which is why the store keeps them apart). */
  lemma FoldersDisjoint(root: Path)
    ensures !IsPrefix(PatchTargetFolder(root), PatchTargetTmpFolder(root))
    ensures !IsPrefix(PatchTargetTmpFolder(root), PatchTargetFolder(root))
    ensures !IsPrefix(PatchesFolder(root), PatchTargetFolder(root))
    ensures !IsPrefix(PatchesFolder(root), PatchTargetTmpFolder(root))
    ensures !IsPrefix(PatchTargetFolder(root), PatchesFolder(root))
    ensures !IsPrefix(PatchTargetTmpFolder(root), PatchesFolder(root))
  {
    var n := |root|;
    assert PatchTargetFolder(root)[n + 1] == Normal("patch");
    assert PatchTargetTmpFolder(root)[n + 1] == Normal("patch-tmp");
    assert PatchesFolder(root)[n] == Normal("patches");
    assert PatchTargetFolder(root)[n] == Normal("target");
  }

  /** A name joined to a folder lies directly inside that folder and is the
      joined path's final name: `folder.join(slug)` is found again by `file_name`. */
  lemma JoinedName(folder: Path, name: string)
    ensures IsPrefix(folder, Join(folder, name)) && |Join(folder, name)| == |folder| + 1
    ensures FileName(Join(folder, name)) == Some(name)
  {
    assert Join(folder, name)[..|folder|] == folder;
  }
}
