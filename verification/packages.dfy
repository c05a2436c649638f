/** Packages as the resolver hands them out, the errors of a run, and the
    slug and staged path of a package (`PackageExt` in the tool). */
module Packages {
  import opened Wrappers
  import opened Paths
  import opened Trees

  /** A resolved dependency: its id (name and version), its source root and
      the directory found there. */
  datatype Package = Package(name: string, version: string, root: Path, source: Dir)

  datatype Error =
    | NotFound(name: string)          // the resolver knows no such crate
    | NoFolderName(crate: string)     // "Dependency Folder does not have a name"
    | NoSuchDirectory(path: Path)     // a directory to remove, copy or enter is missing

  /** The resolved dependency graph: `resolve.query(name)` then `get_one`. */
  type Resolver = map<string, Package>

  /** Looking one crate up: an unknown name is `NotFound`. */
  function Query(resolver: Resolver, name: string): Result<Package, Error>
  {
    if name in resolver then Success(resolver[name]) else Failure(NotFound(name))
  }

  /** `slug`: the final name of the package's source root. */
  function Slug(p: Package): Result<string, Error>
  {
    match FileName(p.root)
    case Some(name) => Success(name)
    case None => Failure(NoFolderName(p.name))
  }

  /** `patch_target_path`: `target/patch/<slug>`. */
  function PatchTargetPath(root: Path, p: Package): Result<Path, Error>
  {
    match Slug(p)
    case Success(slug) => Success(Join(PatchTargetFolder(root), slug))
    case Failure(e) => Failure(e)
  }

  /** The slug fails exactly for a root with no final plain name (the file
      system root, an empty path, a path ending in `..`); otherwise it is
      that name, and the staged path is that name directly under
      `target/patch`, the same name the directory copy gives the copy. */
  lemma SlugIsFinalName(root: Path, p: Package)
    ensures Slug(p).Failure? <==> |p.root| == 0 || !p.root[|p.root| - 1].Normal?
    ensures Slug(p).Failure? ==>
              Slug(p).error == NoFolderName(p.name) && PatchTargetPath(root, p) == Failure(Slug(p).error)
    ensures Slug(p).Success? ==>
              Slug(p).value == p.root[|p.root| - 1].name
              && PatchTargetPath(root, p).Success?
              && IsPrefix(PatchTargetFolder(root), PatchTargetPath(root, p).value)
              && |PatchTargetPath(root, p).value| == |PatchTargetFolder(root)| + 1
              && FileName(PatchTargetPath(root, p).value) == FileName(p.root)
  {
    if Slug(p).Success? {
      JoinedName(PatchTargetFolder(root), Slug(p).value);
    }
  }

  /** Collecting `resolve.query(n)` over the declared names into a set: the
      first unknown name stops the collection with its error. */
  function ResolveAll(names: seq<string>, resolver: Resolver): (r: Result<set<Package>, Error>)
    ensures r.Success? <==> forall i :: 0 <= i < |names| ==> names[i] in resolver
    ensures r.Success? ==> r.value == set n | n in names && n in resolver :: resolver[n]
    ensures r.Failure? ==>
              exists i :: 0 <= i < |names| && names[i] !in resolver && r.error == NotFound(names[i])
                          && forall j :: 0 <= j < i ==> names[j] in resolver
  {
    if |names| == 0 then Success({})
    else match Query(resolver, names[0])
      case Failure(e) => Failure(e)
      case Success(p) =>
        match ResolveAll(names[1..], resolver)
        case Failure(e) =>
          assert forall j :: 0 <= j < |names| - 1 ==> names[1..][j] == names[j + 1];
          Failure(e)
        case Success(rest) =>
          assert forall n :: n in names <==> n == names[0] || n in names[1..];
          Success({p} + rest)
  }
}
