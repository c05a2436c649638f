/** The on-disk state the tool works on (`WorkspaceExt` and `copy_package`):
    the `patches/` folder, the `target/patch/` folder of staged copies and the
    `target/patch-tmp/` scratch folder. `Paths.FoldersDisjoint` shows none of
    them lies inside another, so each is a field of its own; `None` is a
    folder that does not exist. */
module Store {
  import opened Wrappers
  import opened Paths
  import opened Trees
  import opened Packages

  /** The two folders that hold package copies, named by slug. */
  datatype Area = Target | Tmp

  function Other(a: Area): Area
  {
    if a == Target then Tmp else Target
  }

  /** What a folder lists: nothing when it does not exist. */
  function Listing(folder: Option<map<string, Dir>>): map<string, Dir>
  {
    if folder.Some? then folder.value else map[]
  }

  function EntriesOf(folder: Option<map<string, Entry>>): map<string, Entry>
  {
    if folder.Some? then folder.value else map[]
  }

  class Workspace {
    const root: Path
    var patches: Option<map<string, Entry>>
    var target: Option<map<string, Dir>>
    var tmp: Option<map<string, Dir>>

    constructor (root: Path, patches: Option<map<string, Entry>>,
                 target: Option<map<string, Dir>>, tmp: Option<map<string, Dir>>)
      ensures this.root == root && this.patches == patches
      ensures this.target == target && this.tmp == tmp
    {
      this.root := root;
      this.patches := patches;
      this.target := target;
      this.tmp := tmp;
    }

    function Folder(a: Area): Option<map<string, Dir>>
      reads this
    {
      if a == Target then target else tmp
    }

    /** `patch_target_folder` and `patch_target_tmp_folder`. */
    function FolderPath(a: Area): Path
    {
      if a == Target then PatchTargetFolder(root) else PatchTargetTmpFolder(root)
    }

    /** `folder.join(slug).exists()`. */
    predicate Exists(a: Area, slug: string)
      reads this
    {
      Folder(a).Some? && slug in Folder(a).value
    }

    method SetFolder(a: Area, f: Option<map<string, Dir>>)
      modifies this
      ensures Folder(a) == f && Folder(Other(a)) == old(Folder(Other(a)))
      ensures patches == old(patches)
    {
      if a == Target { target := f; } else { tmp := f; }
    }

    /** `fs::create_dir_all(folder)`. */
    method CreateFolder(a: Area)
      modifies this
      ensures Folder(a) == Some(Listing(old(Folder(a))))
      ensures Folder(Other(a)) == old(Folder(Other(a))) && patches == old(patches)
    {
      if Folder(a).None? {
        SetFolder(a, Some(map[]));
      }
    }

    /** `fs::remove_dir_all(folder)`: fails when the folder does not exist. */
    method RemoveFolder(a: Area) returns (r: Outcome<Error>)
      modifies this
      ensures old(Folder(a)).None? ==> r == Fail(NoSuchDirectory(FolderPath(a)))
      ensures old(Folder(a)).Some? ==> r == Pass
      ensures Folder(a).None?
      ensures Folder(Other(a)) == old(Folder(Other(a))) && patches == old(patches)
    {
      if Folder(a).None? {
        return Fail(NoSuchDirectory(FolderPath(a)));
      }
      SetFolder(a, None);
      r := Pass;
    }

    /** `clean_patch_folder`: removes `target/patch` and every staged copy in
        it; fails when the folder does not exist. */
    method CleanPatchFolder() returns (r: Outcome<Error>)
      modifies this
      ensures r.Pass? <==> old(target).Some?
      ensures r.Fail? ==> r.error == NoSuchDirectory(PatchTargetFolder(root))
      ensures target.None?
      ensures tmp == old(tmp) && patches == old(patches)
    {
      r := RemoveFolder(Target);
    }

    /** `copy_package`: create the folder, then keep an existing copy unless
        `overwrite`, otherwise put a fresh copy of the package source at
        `folder/slug`; returns `folder/slug`. */
    method CopyPackage(p: Package, a: Area, overwrite: bool) returns (r: Result<Path, Error>)
      modifies this
      ensures Folder(Other(a)) == old(Folder(Other(a))) && patches == old(patches)
      ensures Folder(a).Some?
      ensures Slug(p).Failure? ==> r == Failure(Slug(p).error) && Folder(a).value == Listing(old(Folder(a)))
      ensures Slug(p).Success? ==> r == Success(Join(FolderPath(a), Slug(p).value))
      ensures Slug(p).Success? && Slug(p).value in Listing(old(Folder(a))) && !overwrite ==>
                Folder(a).value == Listing(old(Folder(a)))
      ensures Slug(p).Success? && (Slug(p).value !in Listing(old(Folder(a))) || overwrite) ==>
                Folder(a).value == Listing(old(Folder(a)))[Slug(p).value := p.source]
    {
      CreateFolder(a);
      var slug := Slug(p);
      if slug.Failure? {
        return Failure(slug.error);
      }
      var path := Join(FolderPath(a), slug.value);
      if Exists(a, slug.value) {
        if overwrite {
          SetFolder(a, Some(Folder(a).value - {slug.value}));
        } else {
          return Success(path);
        }
      }
      // the directory copy names the copy after the source root's final
      // component, which is the slug
      SetFolder(a, Some(Folder(a).value[slug.value := p.source]));
      r := Success(path);
    }
  }
}
