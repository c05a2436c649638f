/** The patch lifecycle of `cargo patch-crate` (`run`): argument
    normalisation, create mode (write `patches/<name>+<version>.patch` for each
    named crate) and apply mode (reconcile the declared crates, the patch
    files and the staged copies under `target/patch`). */
module PatchCrate {
  import opened Wrappers
  import opened Paths
  import opened PatchFiles
  import opened Trees
  import opened Packages
  import opened Store
  import Git

  /** The token cargo passes first when it runs the tool as a subcommand. */
  const ToolName := "patch-crate"

  /** Drops the first `patch-crate` argument, and only that one; the
      remaining list is empty (apply mode) exactly when the arguments were
      none or that token alone. */
  method NormaliseArgs(args: seq<string>) returns (crates: seq<string>)
    ensures ToolName !in args ==> crates == args
    ensures ToolName in args ==>
              exists i :: 0 <= i < |args| && args[i] == ToolName && ToolName !in args[..i]
                          && crates == args[..i] + args[i + 1..]
    ensures |crates| == if ToolName in args then |args| - 1 else |args|
    ensures crates == [] <==> args == [] || args == [ToolName]
    ensures forall c :: c in crates ==> c in args
    ensures forall c :: c in args && c != ToolName ==> c in crates
  {
    var i := 0;
    while i < |args| && args[i] != ToolName
      invariant 0 <= i <= |args|
      invariant ToolName !in args[..i]
    {
      i := i + 1;
    }
    if i < |args| {
      crates := args[..i] + args[i + 1..];
      if crates == [] {
        assert args == [ToolName];
      }
      forall c | c in args && c != ToolName
        ensures c in crates
      {
        var k :| 0 <= k < |args| && args[k] == c;
        if k < i {
          assert crates[k] == c;
        } else {
          assert crates[k - 1] == c;
        }
      }
    } else {
      assert args[..i] == args;
      crates := args;
    }
  }

  // ---------------------------------------------------------------------
  // Create mode

  /** A crate create mode can make a patch for: known to the resolver, with
      a slug, and with a staged copy under `target/patch`. */
  predicate Creatable(n: string, resolver: Resolver, staged: map<string, Dir>)
  {
    n in resolver && Slug(resolver[n]).Success? && Slug(resolver[n]).value in staged
  }

  /** The error create mode stops with on a crate that is not `Creatable`. */
  function CreateError(n: string, resolver: Resolver, root: Path): Error
  {
    if n !in resolver then NotFound(n)
    else match Slug(resolver[n])
      case Failure(e) => e
      case Success(slug) => NoSuchDirectory(Join(PatchTargetFolder(root), slug))
  }

  /** The patch create mode writes for `p` when its staged copy holds `edited`:
      the diff from the pristine package source to that source with the
      staged files copied over it. */
  function CreatedPatch(p: Package, edited: Tree): FileContent
  {
    Diff(p.source.files, p.source.files + edited)
  }

  function PatchFileOf(p: Package): string
  {
    PatchFileName(p.name, p.version)
  }

  /** The patch files create mode writes for `crates`, a later crate's file
      replacing an earlier one of the same name. */
  function WrittenPatches(crates: seq<string>, resolver: Resolver, staged: map<string, Dir>): map<string, Entry>
    requires forall i :: 0 <= i < |crates| ==> Creatable(crates[i], resolver, staged)
  {
    if |crates| == 0 then map[]
    else
      assert Creatable(crates[|crates| - 1], resolver, staged);
      var p := resolver[crates[|crates| - 1]];
      WrittenPatches(crates[..|crates| - 1], resolver, staged)
        [PatchFileOf(p) := RegularFile(CreatedPatch(p, staged[Slug(p).value].files))]
  }

  /** Each crate gets its file; unless a later crate writes a file of the same
      name, that file holds the crate's created patch. */
  lemma {:induction false} WrittenPatchFor(crates: seq<string>, resolver: Resolver, staged: map<string, Dir>, i: nat)
    requires forall j :: 0 <= j < |crates| ==> Creatable(crates[j], resolver, staged)
    requires i < |crates|
    ensures Creatable(crates[i], resolver, staged)
    ensures PatchFileOf(resolver[crates[i]]) in WrittenPatches(crates, resolver, staged)
    ensures (forall j :: i < j < |crates| ==> PatchFileOf(resolver[crates[j]]) != PatchFileOf(resolver[crates[i]])) ==>
              var p := resolver[crates[i]];
              WrittenPatches(crates, resolver, staged)[PatchFileOf(p)]
              == RegularFile(CreatedPatch(p, staged[Slug(p).value].files))
  {
    var last := |crates| - 1;
    var prefix := crates[..last];
    assert Creatable(crates[i], resolver, staged);
    if i < last {
      assert forall j :: 0 <= j < last ==> prefix[j] == crates[j];
      WrittenPatchFor(prefix, resolver, staged, i);
    }
  }

  /** Nothing is written but the crates' own files. */
  lemma {:induction false} WrittenPatchKeys(crates: seq<string>, resolver: Resolver, staged: map<string, Dir>)
    requires forall j :: 0 <= j < |crates| ==> Creatable(crates[j], resolver, staged)
    ensures forall f :: f in WrittenPatches(crates, resolver, staged) ==>
              exists j :: 0 <= j < |crates| && f == PatchFileOf(resolver[crates[j]])
  {
    if |crates| > 0 {
      var last := |crates| - 1;
      var prefix := crates[..last];
      assert forall j :: 0 <= j < last ==> prefix[j] == crates[j];
      WrittenPatchKeys(prefix, resolver, staged);
      var p := resolver[crates[last]];
      assert WrittenPatches(crates, resolver, staged)
             == WrittenPatches(prefix, resolver, staged)[PatchFileOf(p) := RegularFile(CreatedPatch(p, staged[Slug(p).value].files))];
      forall f | f in WrittenPatches(crates, resolver, staged)
        ensures exists j :: 0 <= j < |crates| && f == PatchFileOf(resolver[crates[j]])
      {
        if f != PatchFileOf(resolver[crates[last]]) {
          var j :| 0 <= j < |prefix| && f == PatchFileOf(resolver[prefix[j]]);
          assert prefix[j] == crates[j];
        }
      }
    }
  }

  /** The slugs of the crates of `crates` that the resolver knows and that
      have one. */
  function SlugsOf(crates: seq<string>, resolver: Resolver): set<string>
  {
    if |crates| == 0 then {}
    else
      var n := crates[|crates| - 1];
      var slug := if n in resolver then Slug(resolver[n]) else Failure(NotFound(n));
      SlugsOf(crates[..|crates| - 1], resolver) + (if slug.Success? then {slug.value} else {})
  }

  /** `staged` after `git::destroy` has run on the copies named in `slugs`:
      same copies, same files, no `.git` entry in those. */
  function ClearGit(staged: Option<map<string, Dir>>, slugs: set<string>): (r: Option<map<string, Dir>>)
    ensures r.Some? <==> staged.Some?
    ensures Listing(r).Keys == Listing(staged).Keys
    ensures forall s :: s in Listing(staged) ==>
              Listing(r)[s].files == Listing(staged)[s].files
              && Listing(r)[s].git == (if s in slugs then None else Listing(staged)[s].git)
  {
    if staged.None? then None
    else Some(map s | s in staged.value :: if s in slugs then Dir(staged.value[s].files, None) else staged.value[s])
  }

  lemma ClearGitNothing(staged: Option<map<string, Dir>>)
    ensures ClearGit(staged, {}) == staged
  {
    if staged.Some? {
      assert forall s :: s in staged.value ==> ClearGit(staged, {}).value[s] == staged.value[s];
      assert ClearGit(staged, {}).value == staged.value;
    }
  }

  /** The steps of create mode for one resolved crate with slug `slug`. */
  method CreateOne(ws: Workspace, pkg: Package, slug: string) returns (r: Outcome<Error>)
    requires Slug(pkg) == Success(slug) && ws.patches.Some?
    modifies ws
    ensures !old(ws.Exists(Target, slug)) ==>
              r == Fail(NoSuchDirectory(Join(PatchTargetFolder(ws.root), slug)))
              && ws.patches == old(ws.patches) && ws.target == old(ws.target) && ws.tmp.Some?
    ensures old(ws.Exists(Target, slug)) ==>
              var staged := old(ws.target).value[slug];
              r == Pass && ws.tmp.None?
              && ws.target == Some(old(ws.target).value[slug := Dir(staged.files, None)])
              && ws.patches == Some(old(ws.patches).value[PatchFileOf(pkg) := RegularFile(CreatedPatch(pkg, staged.files))])
  {
    var tmpPath := ws.CopyPackage(pkg, Tmp, true);
    var init := Git.Init(ws, Tmp, slug);
    assert init == Pass;
    Git.Destroy(ws, Target, slug);
    // the directory copy of `target/patch/<slug>` over the tmp copy
    if !ws.Exists(Target, slug) {
      return Fail(NoSuchDirectory(Join(PatchTargetFolder(ws.root), slug)));
    }
    ws.tmp := Some(ws.tmp.value[slug := Overlay(ws.tmp.value[slug], ws.target.value[slug])]);
    var written := Git.CreatePatch(ws, Tmp, slug, PatchFileOf(pkg));
    assert written == Pass;
    var removed := ws.RemoveFolder(Tmp);
    assert removed == Pass;
    r := Pass;
  }

  /** Create mode for one named crate: resolve it, find its slug and run
      `CreateOne`. A crate that is not `Creatable` stops with `CreateError`;
      only a missing staged copy leaves the tmp folder behind. */
  method CreateFor(ws: Workspace, n: string, resolver: Resolver) returns (r: Outcome<Error>)
    requires ws.patches.Some?
    modifies ws
    ensures !Creatable(n, resolver, Listing(old(ws.target))) ==>
              r == Fail(CreateError(n, resolver, ws.root))
              && ws.patches == old(ws.patches) && ws.target == old(ws.target)
              && (r.error.NoSuchDirectory? ==> ws.tmp.Some?)
              // an unknown crate or one without a slug stops before the tmp copy
              && (!r.error.NoSuchDirectory? ==> ws.tmp == old(ws.tmp))
    ensures Creatable(n, resolver, Listing(old(ws.target))) ==>
              var p := resolver[n];
              var slug := Slug(p).value;
              var staged := old(ws.target).value[slug];
              r == Pass && ws.tmp.None?
              && ws.target == Some(old(ws.target).value[slug := Dir(staged.files, None)])
              && ws.patches == Some(old(ws.patches).value[PatchFileOf(p) := RegularFile(CreatedPatch(p, staged.files))])
  {
    var q := Query(resolver, n);
    if q.Failure? {
      return Fail(q.error);
    }
    var path := PatchTargetPath(ws.root, q.value);
    if path.Failure? {
      return Fail(path.error);
    }
    r := CreateOne(ws, q.value, Slug(q.value).value);
  }

  /** One more crate done: the written patches grow by that crate's file. */
  lemma PatchesStep(crates: seq<string>, resolver: Resolver, staged: map<string, Dir>, i: nat,
                    existing: map<string, Entry>)
    requires i < |crates| && forall j :: 0 <= j <= i ==> Creatable(crates[j], resolver, staged)
    requires Creatable(crates[i], resolver, staged)
    ensures var p := resolver[crates[i]];
            (existing + WrittenPatches(crates[..i], resolver, staged))
              [PatchFileOf(p) := RegularFile(CreatedPatch(p, staged[Slug(p).value].files))]
            == existing + WrittenPatches(crates[..i + 1], resolver, staged)
  {
    assert crates[..i + 1][..i] == crates[..i];
  }

  /** One more crate done: its staged copy loses its `.git` entry. */
  lemma ClearStep(crates: seq<string>, resolver: Resolver, staged: map<string, Dir>, i: nat,
                  target0: Option<map<string, Dir>>)
    requires i < |crates| && Listing(target0) == staged
    requires Creatable(crates[i], resolver, staged)
    ensures var slug := Slug(resolver[crates[i]]).value;
            var cleared := ClearGit(target0, SlugsOf(crates[..i], resolver));
            && cleared.Some?
            && Some(cleared.value[slug := Dir(cleared.value[slug].files, None)])
               == ClearGit(target0, SlugsOf(crates[..i + 1], resolver))
            && cleared.value[slug].files == staged[slug].files
  {
    var slug := Slug(resolver[crates[i]]).value;
    assert crates[..i + 1][..i] == crates[..i];
    assert SlugsOf(crates[..i + 1], resolver) == SlugsOf(crates[..i], resolver) + {slug};
    var cleared := ClearGit(target0, SlugsOf(crates[..i], resolver));
    var next := ClearGit(target0, SlugsOf(crates[..i + 1], resolver));
    assert forall s :: s in next.value ==> cleared.value[slug := Dir(cleared.value[slug].files, None)][s] == next.value[s];
    assert cleared.value[slug := Dir(cleared.value[slug].files, None)] == next.value;
  }

  /** The state of create mode after the first `i` crates: all of them were
      creatable against the staged copies `target0` it began with, their patch
      files are written over `patches0`, and their copies lost `.git`. */
  ghost predicate CreatedUpTo(patches: Option<map<string, Entry>>, target: Option<map<string, Dir>>,
                              patches0: Option<map<string, Entry>>, target0: Option<map<string, Dir>>,
                              crates: seq<string>, resolver: Resolver, i: nat)
  {
    && i <= |crates|
    && (forall j :: 0 <= j < i ==> Creatable(crates[j], resolver, Listing(target0)))
    && patches == Some(EntriesOf(patches0) + WrittenPatches(crates[..i], resolver, Listing(target0)))
    && target == ClearGit(target0, SlugsOf(crates[..i], resolver))
  }

  /** One turn of create mode's loop, on the `i`-th crate. */
  method CreateNext(ws: Workspace, crates: seq<string>, resolver: Resolver, i: nat,
                    ghost patches0: Option<map<string, Entry>>, ghost target0: Option<map<string, Dir>>)
    returns (r: Outcome<Error>)
    requires i < |crates| && CreatedUpTo(ws.patches, ws.target, patches0, target0, crates, resolver, i)
    modifies ws
    ensures r.Pass? <==> Creatable(crates[i], resolver, Listing(target0))
    ensures r.Pass? ==> CreatedUpTo(ws.patches, ws.target, patches0, target0, crates, resolver, i + 1) && ws.tmp.None?
    ensures r.Fail? ==>
              r.error == CreateError(crates[i], resolver, ws.root)
              && ws.patches == old(ws.patches) && ws.target == old(ws.target)
              && (r.error.NoSuchDirectory? ==> ws.tmp.Some?)
              && (!r.error.NoSuchDirectory? ==> ws.tmp == old(ws.tmp))
  {
    ghost var staged := Listing(target0);
    var n := crates[i];
    assert Creatable(n, resolver, staged) <==> Creatable(n, resolver, Listing(ws.target));
    ghost var patches1 := ws.patches.value;
    ghost var target1 := ws.target;
    r := CreateFor(ws, n, resolver);
    if r.Fail? {
      return;
    }
    ghost var p := resolver[n];
    ghost var slug := Slug(p).value;
    PatchesStep(crates, resolver, staged, i, EntriesOf(patches0));
    ClearStep(crates, resolver, staged, i, target0);
    assert ws.patches == Some(patches1[PatchFileOf(p) := RegularFile(CreatedPatch(p, staged[slug].files))]);
    assert ws.target == Some(target1.value[slug := Dir(target1.value[slug].files, None)]);
  }

  /** Create mode. For each crate: copy the pristine package source to
      `target/patch-tmp/<slug>`, commit it there, drop the `.git` entry of the
      staged copy, copy the staged copy over the tmp copy, write the staged
      diff to `patches/<name>+<version>.patch` and remove the tmp folder. The
      first crate that fails stops the run. */
  method CreatePatches(ws: Workspace, crates: seq<string>, resolver: Resolver) returns (r: Outcome<Error>)
    modifies ws
    ensures r.Pass? <==> forall i :: 0 <= i < |crates| ==> Creatable(crates[i], resolver, Listing(old(ws.target)))
    ensures r.Pass? ==>
              ws.patches == Some(EntriesOf(old(ws.patches)) + WrittenPatches(crates, resolver, Listing(old(ws.target))))
              && ws.target == ClearGit(old(ws.target), SlugsOf(crates, resolver))
              && (if |crates| == 0 then ws.tmp == old(ws.tmp) else ws.tmp.None?)
    ensures r.Fail? ==>
              exists i :: 0 <= i < |crates|
                          && !Creatable(crates[i], resolver, Listing(old(ws.target)))
                          && r.error == CreateError(crates[i], resolver, ws.root)
                          && CreatedUpTo(ws.patches, ws.target, old(ws.patches), old(ws.target), crates, resolver, i)
                          && (!r.error.NoSuchDirectory? ==> if i == 0 then ws.tmp == old(ws.tmp) else ws.tmp.None?)
    ensures r.Fail? && r.error.NoSuchDirectory? ==> ws.tmp.Some?
  {
    if ws.patches.None? {
      ws.patches := Some(map[]);
    }
    assert EntriesOf(old(ws.patches)) + map[] == ws.patches.value;
    ClearGitNothing(old(ws.target));
    assert SlugsOf(crates[..0], resolver) == {};
    var i := 0;
    while i < |crates|
      invariant CreatedUpTo(ws.patches, ws.target, old(ws.patches), old(ws.target), crates, resolver, i)
      invariant if i == 0 then ws.tmp == old(ws.tmp) else ws.tmp.None?
    {
      r := CreateNext(ws, crates, resolver, i, old(ws.patches), old(ws.target));
      if r.Fail? {
        return;
      }
      i := i + 1;
    }
    assert crates[..i] == crates;
    r := Pass;
  }

  // ---------------------------------------------------------------------
  // Apply mode

  /** The package an entry of `patches/` is the patch of, if any: a regular
      `.patch` file whose crate name the resolver knows. */
  function Owner(name: string, e: Entry, resolver: Resolver): Option<Package>
  {
    match Classify(name, e.RegularFile?)
    case Skip => None
    case PatchFor(c) => if c in resolver then Some(resolver[c]) else None
  }

  /** Every patch file of `patches/` names a crate the resolver knows. */
  predicate NamesResolve(entries: map<string, Entry>, resolver: Resolver)
  {
    forall n :: n in entries && Classify(n, entries[n].RegularFile?).PatchFor? ==>
      Classify(n, entries[n].RegularFile?).crate in resolver
  }

  /** The files of `patches/` apply mode takes as patches of `p`. */
  function PatchFilesFor(p: Package, entries: map<string, Entry>, resolver: Resolver): set<string>
  {
    set n | n in entries && Owner(n, entries[n], resolver) == Some(p)
  }

  /** A fresh copy of `p` with the patch applied and no `.git` entry left. */
  function PatchedCopy(p: Package, patch: FileContent): Dir
  {
    Dir(ApplyDiff(p.source.files, patch), None)
  }

  /** A staged copy apply mode may make for `p`: a plain copy of its source,
      or that source patched with one of its patch files. */
  predicate StagedFrom(d: Dir, p: Package, entries: map<string, Entry>, resolver: Resolver)
  {
    d == p.source
    || exists n :: n in PatchFilesFor(p, entries, resolver) && entries[n].RegularFile?
                   && d == PatchedCopy(p, entries[n].content)
  }

  predicate IsStaged(target: Option<map<string, Dir>>, p: Package)
  {
    Slug(p).Success? && Slug(p).value in Listing(target)
  }

  /** No two declared packages share a slug. */
  predicate DistinctSlugs(declared: set<Package>)
  {
    forall p, q ::
      p in declared && q in declared && Slug(p).Success? && Slug(q).Success? && Slug(p).value == Slug(q).value
      ==> p == q
  }

  /** The staged copies apply mode starts reconciling from: none after
      `--force` has removed `target/patch`, otherwise the existing ones. */
  function StartCopies(target: Option<map<string, Dir>>, force: bool): map<string, Dir>
  {
    if force then map[] else Listing(target)
  }

  /** A staged copy of `p` is patched exactly when `p` has a patch file. */
  predicate PatchedWhereDue(copy: Dir, p: Package, entries: map<string, Entry>, resolver: Resolver)
  {
    && (PatchFilesFor(p, entries, resolver) == {} ==> copy == p.source)
    && (PatchFilesFor(p, entries, resolver) != {} ==>
          exists n :: n in PatchFilesFor(p, entries, resolver) && entries[n].RegularFile?
                      && copy == PatchedCopy(p, entries[n].content))
  }

  /** Every crate no longer remaining has a staged copy. */
  ghost predicate StagedDone(target: map<string, Dir>, declared: set<Package>, remaining: set<Package>)
  {
    forall p :: p in declared && p !in remaining ==> Slug(p).Success? && Slug(p).value in target
  }

  /** The copies apply mode began with are still there, unchanged. */
  ghost predicate KeepsStart(target: map<string, Dir>, start: map<string, Dir>)
  {
    forall s :: s in start ==> s in target && target[s] == start[s]
  }

  /** Every other copy was staged for a crate no longer remaining. */
  ghost predicate FromDeclared(target: map<string, Dir>, start: map<string, Dir>, declared: set<Package>,
                               remaining: set<Package>, entries: map<string, Entry>, resolver: Resolver)
  {
    forall s :: s in target ==>
      s in start
      || exists p :: p in declared && p !in remaining && Slug(p) == Success(s)
                     && StagedFrom(target[s], p, entries, resolver)
  }

  /** With distinct slugs, each copy staged for a crate is patched where due. */
  ghost predicate PatchedDone(target: map<string, Dir>, start: map<string, Dir>, declared: set<Package>,
                              remaining: set<Package>, entries: map<string, Entry>, resolver: Resolver)
  {
    DistinctSlugs(declared) ==>
      forall p :: p in declared && p !in remaining && Slug(p).Success? && Slug(p).value !in start ==>
        Slug(p).value in target && PatchedWhereDue(target[Slug(p).value], p, entries, resolver)
  }

  /** What apply mode keeps true of `target/patch` while it reconciles:
      `start` holds the copies it began with, `remaining` the declared
      crates it has not staged yet. */
  ghost predicate Reconciled(target: map<string, Dir>, start: map<string, Dir>, declared: set<Package>,
                             remaining: set<Package>, entries: map<string, Entry>, resolver: Resolver)
  {
    && remaining <= declared
    && StagedDone(target, declared, remaining)
    && KeepsStart(target, start)
    && FromDeclared(target, start, declared, remaining, entries, resolver)
    && PatchedDone(target, start, declared, remaining, entries, resolver)
  }

  /** Staging `d` at `pkg`'s fresh slug, for `pkg`, keeps every copy's origin. */
  lemma FromDeclaredStep(target: map<string, Dir>, start: map<string, Dir>, declared: set<Package>,
                         remaining: set<Package>, entries: map<string, Entry>, resolver: Resolver,
                         pkg: Package, d: Dir)
    requires FromDeclared(target, start, declared, remaining, entries, resolver)
    requires pkg in declared && Slug(pkg).Success? && StagedFrom(d, pkg, entries, resolver)
    ensures FromDeclared(target[Slug(pkg).value := d], start, declared, remaining - {pkg}, entries, resolver)
  {
    var slug := Slug(pkg).value;
    var target' := target[slug := d];
    forall s | s in target'
      ensures s in start
              || exists p :: p in declared && p !in remaining - {pkg} && Slug(p) == Success(s)
                             && StagedFrom(target'[s], p, entries, resolver)
    {
      if s == slug {
        assert StagedFrom(target'[s], pkg, entries, resolver);
      } else if s !in start {
        var p :| p in declared && p !in remaining && Slug(p) == Success(s)
                 && StagedFrom(target[s], p, entries, resolver);
        assert p !in remaining - {pkg} && target'[s] == target[s];
      }
    }
  }

  /** Staging `d` at `pkg`'s slug, where `d` is patched as due for `pkg`,
      keeps the other crates' copies as they were. */
  lemma PatchedDoneStep(target: map<string, Dir>, start: map<string, Dir>, declared: set<Package>,
                        remaining: set<Package>, entries: map<string, Entry>, resolver: Resolver,
                        pkg: Package, d: Dir)
    requires PatchedDone(target, start, declared, remaining, entries, resolver)
    requires pkg in declared && Slug(pkg).Success? && PatchedWhereDue(d, pkg, entries, resolver)
    ensures PatchedDone(target[Slug(pkg).value := d], start, declared, remaining - {pkg}, entries, resolver)
  {
    var slug := Slug(pkg).value;
    var target' := target[slug := d];
    if DistinctSlugs(declared) {
      forall p | p in declared && p !in remaining - {pkg} && Slug(p).Success? && Slug(p).value !in start
        ensures Slug(p).value in target' && PatchedWhereDue(target'[Slug(p).value], p, entries, resolver)
      {
        if p != pkg {
          assert Slug(p).value != slug;
        }
      }
    }
  }

  /** A crate without a staged copy gets one, patched with one of its files. */
  lemma StagePatchedStep(target: map<string, Dir>, start: map<string, Dir>, declared: set<Package>,
                         remaining: set<Package>, entries: map<string, Entry>, resolver: Resolver,
                         pkg: Package, name: string)
    requires Reconciled(target, start, declared, remaining, entries, resolver)
    requires pkg in remaining && Slug(pkg).Success? && Slug(pkg).value !in target
    requires name in entries && entries[name].RegularFile? && Owner(name, entries[name], resolver) == Some(pkg)
    ensures Reconciled(target[Slug(pkg).value := PatchedCopy(pkg, entries[name].content)], start,
                       declared, remaining - {pkg}, entries, resolver)
  {
    var d := PatchedCopy(pkg, entries[name].content);
    assert name in PatchFilesFor(pkg, entries, resolver);
    assert StagedFrom(d, pkg, entries, resolver);
    assert PatchedWhereDue(d, pkg, entries, resolver);
    FromDeclaredStep(target, start, declared, remaining, entries, resolver, pkg, d);
    PatchedDoneStep(target, start, declared, remaining, entries, resolver, pkg, d);
  }

  /** A crate whose slug is already taken is left as it is. */
  lemma AlreadyStagedStep(target: map<string, Dir>, start: map<string, Dir>, declared: set<Package>,
                          remaining: set<Package>, entries: map<string, Entry>, resolver: Resolver,
                          pkg: Package)
    requires Reconciled(target, start, declared, remaining, entries, resolver)
    requires pkg in remaining && Slug(pkg).Success? && Slug(pkg).value in target
    ensures Reconciled(target, start, declared, remaining - {pkg}, entries, resolver)
  {
  }

  /** A crate without patch files gets a plain copy of its source. */
  lemma PlainCopyStep(target: map<string, Dir>, start: map<string, Dir>, declared: set<Package>,
                      remaining: set<Package>, entries: map<string, Entry>, resolver: Resolver,
                      pkg: Package)
    requires Reconciled(target, start, declared, remaining, entries, resolver)
    requires pkg in remaining && Slug(pkg).Success? && Slug(pkg).value !in start
    requires PatchFilesFor(pkg, entries, resolver) == {}
    ensures Reconciled(target[Slug(pkg).value := pkg.source], start, declared, remaining - {pkg}, entries, resolver)
  {
    assert StagedFrom(pkg.source, pkg, entries, resolver);
    FromDeclaredStep(target, start, declared, remaining, entries, resolver, pkg, pkg.source);
    PatchedDoneStep(target, start, declared, remaining, entries, resolver, pkg, pkg.source);
  }

  /** `copy_package`, `git::init`, `git::apply` and `git::destroy` on a crate
      with no staged copy yet: the copy ends up patched, without `.git`. */
  method StagePatched(ws: Workspace, pkg: Package, slug: string, patchName: string, force: bool)
    requires Slug(pkg) == Success(slug) && !ws.Exists(Target, slug)
    requires ws.patches.Some? && patchName in ws.patches.value && ws.patches.value[patchName].RegularFile?
    modifies ws
    ensures ws.patches == old(ws.patches) && ws.tmp == old(ws.tmp)
    ensures ws.target == Some(Listing(old(ws.target))[slug := PatchedCopy(pkg, ws.patches.value[patchName].content)])
  {
    var before := Listing(ws.target);
    var copied := ws.CopyPackage(pkg, Target, force);
    assert ws.target == Some(before[slug := pkg.source]);
    assert ws.Exists(Target, slug) && ws.Folder(Target).value[slug] == pkg.source;
    var init := Git.Init(ws, Target, slug);
    assert init == Pass;
    assert before[slug := pkg.source][slug := Git.Snapshot(pkg.source)] == before[slug := Git.Snapshot(pkg.source)];
    assert ws.target == Some(before[slug := Git.Snapshot(pkg.source)]);
    assert ws.Exists(Target, slug) && ws.Folder(Target).value[slug] == Git.Snapshot(pkg.source);
    var applied := Git.Apply(ws, Target, slug, patchName);
    assert applied == Pass;
    var files := ApplyDiff(pkg.source.files, ws.patches.value[patchName].content);
    var applied' := Dir(files, Some(pkg.source.files));
    assert before[slug := Git.Snapshot(pkg.source)][slug := applied'] == before[slug := applied'];
    assert ws.target == Some(before[slug := applied']);
    assert ws.Exists(Target, slug) && ws.Folder(Target).value[slug] == applied';
    Git.Destroy(ws, Target, slug);
    assert before[slug := applied'][slug := Dir(files, None)] == before[slug := Dir(files, None)];
  }

  /** Apply mode, after the declared crates are resolved. With `force` the
      staged copies are removed first. Each patch file of a declared crate
      without a staged copy gets one, patched; a crate met through a patch
      file leaves the set of crates still to stage, whether it was patched or
      already staged; a patch file of an undeclared crate is passed over with
      a warning. The crates left over get a plain copy. */
  method ApplyPatches(ws: Workspace, declared: set<Package>, force: bool, resolver: Resolver) returns (r: Outcome<Error>)
    modifies ws
    ensures ws.patches == old(ws.patches) && ws.tmp == old(ws.tmp)
    // `clean_patch_folder` fails when there is no `target/patch`
    ensures force && old(ws.target).None? ==>
              r == Fail(NoSuchDirectory(PatchTargetFolder(ws.root))) && ws.target.None?
    ensures r.Pass? <==>
              (force ==> old(ws.target).Some?)
              && NamesResolve(EntriesOf(ws.patches), resolver)
              && forall p :: p in declared ==> Slug(p).Success?
    // completeness: every declared crate has a staged copy
    ensures r.Pass? ==> forall p :: p in declared ==> IsStaged(ws.target, p)
    // an existing copy is never touched (all are gone first with `force`)
    ensures forall s :: s in StartCopies(old(ws.target), force) ==>
              s in Listing(ws.target) && Listing(ws.target)[s] == StartCopies(old(ws.target), force)[s]
    // every new copy is a copy of a declared crate, plain or patched
    ensures forall s :: s in Listing(ws.target) ==>
              s in StartCopies(old(ws.target), force)
              || exists p :: p in declared && Slug(p) == Success(s)
                             && StagedFrom(Listing(ws.target)[s], p, EntriesOf(ws.patches), resolver)
    // idempotence: without `force`, crates that all have a copy change nothing
    ensures !force && (forall p :: p in declared ==> IsStaged(old(ws.target), p)) ==>
              Listing(ws.target) == Listing(old(ws.target))
    // patched exactly where a patch file exists
    ensures r.Pass? && DistinctSlugs(declared) ==>
              forall p :: p in declared && Slug(p).value !in StartCopies(old(ws.target), force) ==>
                IsStaged(ws.target, p)
                && PatchedWhereDue(Listing(ws.target)[Slug(p).value], p, EntriesOf(ws.patches), resolver)
  {
    if force {
      r := ws.CleanPatchFolder();
      if r.Fail? {
        return;
      }
    }
    ghost var start := Listing(ws.target);
    var remaining;
    r, remaining := ApplyPatchFiles(ws, declared, force, resolver, start);
    if r.Pass? {
      ghost var left;
      r, left := CopyRemaining(ws, declared, remaining, force, resolver, start);
    }
  }

  /** The walk over `patches/` (in whatever order `read_dir` lists it): each
      patch file of a declared crate still to stage stages it, patched when it
      has no copy yet; `remaining` is what is left to stage. An unknown crate
      name or a crate without a slug stops the walk. */
  method ApplyPatchFiles(ws: Workspace, declared: set<Package>, force: bool, resolver: Resolver,
                         ghost start: map<string, Dir>)
    returns (r: Outcome<Error>, remaining: set<Package>)
    requires Reconciled(Listing(ws.target), start, declared, declared, EntriesOf(ws.patches), resolver)
    modifies ws
    ensures ws.patches == old(ws.patches) && ws.tmp == old(ws.tmp)
    ensures Reconciled(Listing(ws.target), start, declared, remaining, EntriesOf(ws.patches), resolver)
    ensures r.Pass? ==>
              NamesResolve(EntriesOf(ws.patches), resolver)
              && forall p :: p in remaining ==> PatchFilesFor(p, EntriesOf(ws.patches), resolver) == {}
    ensures r.Fail? ==>
              !NamesResolve(EntriesOf(ws.patches), resolver) || exists p :: p in declared && Slug(p).Failure?
  {
    remaining := declared;
    // `read_dir(patches)` when the folder exists
    var entries := EntriesOf(ws.patches);
    var toVisit := entries.Keys;
    while toVisit != {}
      invariant toVisit <= entries.Keys
      invariant ws.patches == old(ws.patches) && ws.tmp == old(ws.tmp)
      invariant forall n :: n in entries && n !in toVisit && Classify(n, entries[n].RegularFile?).PatchFor? ==>
                  Classify(n, entries[n].RegularFile?).crate in resolver
      invariant forall p, n :: p in remaining && n in entries && n !in toVisit ==> Owner(n, entries[n], resolver) != Some(p)
      invariant Reconciled(Listing(ws.target), start, declared, remaining, entries, resolver)
      decreases toVisit
    {
      var name :| name in toVisit;
      toVisit := toVisit - {name};
      var action := Classify(name, entries[name].RegularFile?);
      if action.PatchFor? {
        var q := Query(resolver, action.crate);
        if q.Failure? {
          r := Fail(q.error);
          return;
        }
        var pkg := q.value;
        if pkg !in remaining {
          // warn: not declared in the patch metadata
          continue;
        }
        var path := PatchTargetPath(ws.root, pkg);
        if path.Failure? {
          r := Fail(path.error);
          return;
        }
        var slug := Slug(pkg).value;
        assert Owner(name, entries[name], resolver) == Some(pkg);
        if !ws.Exists(Target, slug) {
          StagePatchedStep(Listing(ws.target), start, declared, remaining, entries, resolver, pkg, name);
          StagePatched(ws, pkg, slug, name, force);
        } else {
          AlreadyStagedStep(Listing(ws.target), start, declared, remaining, entries, resolver, pkg);
        }
        remaining := remaining - {pkg};
      }
    }
    r := Pass;
  }

  /** The final loop: every crate still to stage gets a plain copy (kept if
      one exists, unless `force`). A crate without a slug stops the loop. */
  method CopyRemaining(ws: Workspace, declared: set<Package>, remaining: set<Package>, force: bool,
                       resolver: Resolver, ghost start: map<string, Dir>)
    returns (r: Outcome<Error>, ghost left: set<Package>)
    requires Reconciled(Listing(ws.target), start, declared, remaining, EntriesOf(ws.patches), resolver)
    requires forall p :: p in remaining ==> PatchFilesFor(p, EntriesOf(ws.patches), resolver) == {}
    requires force ==> start == map[]
    modifies ws
    ensures ws.patches == old(ws.patches) && ws.tmp == old(ws.tmp)
    ensures Reconciled(Listing(ws.target), start, declared, left, EntriesOf(ws.patches), resolver)
    ensures r.Pass? ==> left == {}
    ensures r.Fail? ==> exists p :: p in declared && Slug(p).Failure?
  {
    var entries := EntriesOf(ws.patches);
    var toCopy := remaining;
    left := remaining;
    // in whatever order the `HashSet` yields them
    while toCopy != {}
      invariant left == toCopy && left <= remaining
      invariant ws.patches == old(ws.patches) && ws.tmp == old(ws.tmp)
      invariant Reconciled(Listing(ws.target), start, declared, left, entries, resolver)
      decreases toCopy
    {
      var pkg :| pkg in toCopy;
      ghost var before := Listing(ws.target);
      var copied := ws.CopyPackage(pkg, Target, force);
      if copied.Failure? {
        r := Fail(copied.error);
        return;
      }
      var slug := Slug(pkg).value;
      if slug in before && !force {
        AlreadyStagedStep(before, start, declared, left, entries, resolver, pkg);
      } else {
        PlainCopyStep(before, start, declared, left, entries, resolver, pkg);
      }
      toCopy := toCopy - {pkg};
      left := toCopy;
    }
    r := Pass;
  }

  // ---------------------------------------------------------------------
  // Create, then apply

  /** The patch create mode writes for a crate, applied by apply mode to a
      fresh copy, gives back the edited files exactly when no file of the
      package source was deleted from the staged copy. */
  lemma CreateThenApplyRestores(p: Package, edited: Tree)
    ensures PatchedCopy(p, CreatedPatch(p, edited)).files == edited <==> p.source.files.Keys <= edited.Keys
  {
    ApplyTakenDiff(p.source.files, p.source.files + edited);
    OverlayRestores(p.source.files, edited);
  }

  /** A resolver that answers each crate name with a package of that name. */
  predicate NamesMatch(resolver: Resolver)
  {
    forall n :: n in resolver ==> resolver[n].name == n
  }

  /** Apply mode takes the patch file create mode wrote for `p` as a patch of
      `p` exactly when the crate name has no `+`. */
  lemma CreatedPatchIsFound(p: Package, entries: map<string, Entry>, resolver: Resolver, content: FileContent)
    requires NamesMatch(resolver) && p.name in resolver && resolver[p.name] == p
    requires PatchFileOf(p) in entries && entries[PatchFileOf(p)] == RegularFile(content)
    ensures PatchFileOf(p) in PatchFilesFor(p, entries, resolver) <==> '+' !in p.name
  {
    var f := PatchFileOf(p);
    PatchFileNameRoundTrip(p.name, p.version);
    assert Owner(f, entries[f], resolver) == match Classify(f, true)
      case Skip => None
      case PatchFor(c) => if c in resolver then Some(resolver[c]) else None;
    if f in PatchFilesFor(p, entries, resolver) {
      var c := Classify(f, true).crate;
      assert c in resolver && resolver[c] == p;
      assert c == p.name;
    }
  }

  /** When the file create mode wrote is the only patch file of `p`, the copy
      apply mode stages for `p` holds the edited files exactly when no file
      of the package source was deleted from the staged copy. */
  lemma CreateThenApply(p: Package, edited: Tree, entries: map<string, Entry>, resolver: Resolver, d: Dir)
    requires NamesMatch(resolver) && p.name in resolver && resolver[p.name] == p && '+' !in p.name
    requires PatchFileOf(p) in entries && entries[PatchFileOf(p)] == RegularFile(CreatedPatch(p, edited))
    requires PatchFilesFor(p, entries, resolver) <= {PatchFileOf(p)}
    requires PatchedWhereDue(d, p, entries, resolver)
    ensures d == PatchedCopy(p, CreatedPatch(p, edited))
    ensures d.files == edited <==> p.source.files.Keys <= edited.Keys
  {
    CreatedPatchIsFound(p, entries, resolver, CreatedPatch(p, edited));
    CreateThenApplyRestores(p, edited);
  }

  // ---------------------------------------------------------------------
  // The command

  /** One run of the command. `cli` holds the crate arguments, `force` the
      `--force` flag, `declaredNames` the crate names listed under
      `[package.metadata.patch] crates` in the workspace and its members, and
      `resolver` the resolved dependency graph. Crate arguments left after
      dropping the tool's own name select create mode; otherwise the
      declared names are resolved and apply mode runs. */
  method Run(ws: Workspace, cli: seq<string>, force: bool, declaredNames: seq<string>, resolver: Resolver)
    returns (r: Outcome<Error>)
    modifies ws
    // create mode
    ensures !(cli == [] || cli == [ToolName]) ==>
              (r.Pass? ==> forall c :: c in cli && c != ToolName ==> Creatable(c, resolver, Listing(old(ws.target))))
              && (r.Pass? ==> ws.patches.Some? && ws.tmp.None?)
    // apply mode: a declared name the resolver does not know stops the run
    ensures (cli == [] || cli == [ToolName]) && ResolveAll(declaredNames, resolver).Failure? ==>
              r == Fail(ResolveAll(declaredNames, resolver).error)
              && ws.patches == old(ws.patches) && ws.target == old(ws.target) && ws.tmp == old(ws.tmp)
    ensures (cli == [] || cli == [ToolName]) && ResolveAll(declaredNames, resolver).Success? ==>
              var declared := ResolveAll(declaredNames, resolver).value;
              ws.patches == old(ws.patches) && ws.tmp == old(ws.tmp)
              && (r.Pass? <==>
                    (force ==> old(ws.target).Some?)
                    && NamesResolve(EntriesOf(ws.patches), resolver)
                    && forall p :: p in declared ==> Slug(p).Success?)
              && (r.Pass? ==> forall n :: n in declaredNames ==> IsStaged(ws.target, resolver[n]))
              && (forall s :: s in StartCopies(old(ws.target), force) ==>
                    s in Listing(ws.target) && Listing(ws.target)[s] == StartCopies(old(ws.target), force)[s])
              && (forall s :: s in Listing(ws.target) ==>
                    s in StartCopies(old(ws.target), force)
                    || exists p :: p in declared && Slug(p) == Success(s)
                                   && StagedFrom(Listing(ws.target)[s], p, EntriesOf(ws.patches), resolver))
              && (!force && (forall p :: p in declared ==> IsStaged(old(ws.target), p)) ==>
                    Listing(ws.target) == Listing(old(ws.target)))
              && (r.Pass? && DistinctSlugs(declared) ==>
                    forall p :: p in declared && Slug(p).value !in StartCopies(old(ws.target), force) ==>
                      IsStaged(ws.target, p)
                      && PatchedWhereDue(Listing(ws.target)[Slug(p).value], p, EntriesOf(ws.patches), resolver))
  {
    var crates := NormaliseArgs(cli);
    if crates != [] {
      r := CreatePatches(ws, crates, resolver);
      if r.Pass? {
        forall c | c in cli && c != ToolName
          ensures Creatable(c, resolver, Listing(old(ws.target)))
        {
          var k :| 0 <= k < |crates| && crates[k] == c;
        }
      }
    } else {
      var resolved := ResolveAll(declaredNames, resolver);
      if resolved.Failure? {
        return Fail(resolved.error);
      }
      r := ApplyPatches(ws, resolved.value, force, resolver);
      if r.Pass? {
        forall n | n in declaredNames
          ensures IsStaged(ws.target, resolver[n])
        {
          assert resolver[n] in resolved.value;
        }
      }
    }
  }
}
