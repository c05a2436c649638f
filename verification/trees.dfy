/** Directory trees as values. A staged copy, a tmp copy or a package's source
    is a `Dir`: its files, and the snapshot of the last commit when a `.git`
    entry is present. Diffs are pairs of trees; what `git apply` does with one
    is `ApplyDiff`. */
module Trees {
  import opened Wrappers

  /** Relative file path to file text. */
  type Tree = map<string, string>

  /** `git`: `Some(snapshot)` while the directory holds a `.git` entry whose
      last commit recorded `snapshot`; `None` when there is no `.git` entry. */
  datatype Dir = Dir(files: Tree, git: Option<Tree>)

  /** Contents of a regular file: a unified diff from one tree to another, or
      any other text. */
  datatype FileContent = Diff(before: Tree, after: Tree) | Text(text: string)

  /** An entry of the `patches/` folder. */
  datatype Entry = RegularFile(content: FileContent) | Directory

  /** `git apply`: a diff applies to the tree it was taken from; anything else
      fails, and the failure leaves the tree as it was. */
  function ApplyDiff(files: Tree, patch: FileContent): Tree
  {
    match patch
    case Diff(before, after) => if files == before then after else files
    case Text(_) => files
  }

  /** `fs_extra::dir::copy` with `overwrite` into an existing directory: every
      file of `src` replaces or joins those of `dst`; files only in `dst` stay. */
  function Overlay(dst: Dir, src: Dir): Dir
  {
    Dir(dst.files + src.files, if src.git.Some? then src.git else dst.git)
  }

  /** A diff applied to the tree it was taken from gives back the later tree. */
  lemma ApplyTakenDiff(before: Tree, after: Tree)
    ensures ApplyDiff(before, Diff(before, after)) == after
  {
  }

  /** Overlaying onto a tree gives back the overlaid tree exactly when no file
      of the tree is missing from the overlay. */
  lemma OverlayRestores(base: Tree, top: Tree)
    ensures base + top == top <==> base.Keys <= top.Keys
  {
    if base.Keys <= top.Keys {
      assert (base + top).Keys == top.Keys;
    }
  }
}
