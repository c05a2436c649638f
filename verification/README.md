# patch-crate: the patch lifecycle, modelled in Dafny

`cargo patch-crate` keeps local fixes to crate dependencies. It has two modes.

- **Apply mode.** Run with no crate arguments, it stages the crates listed under `[package.metadata.patch] crates` in `target/patch/<slug>`:
  - a crate with a `patches/<name>+<version>.patch` file and no copy yet gets a fresh copy of its source with that patch applied;
  - a crate that already has a copy keeps it as it is, patch file or not;
  - any other crate gets a plain copy of its source;
  - `--force` first wipes `target/patch`, so every crate gets a fresh copy.
- **Create mode.** Run with crate names, it diffs each crate's staged copy against the pristine package source. The result goes to `patches/<name>+<version>.patch`.

The model covers the decision logic of `src/lib.rs`. Everything else is abstract:

- **Resolver.** The cargo resolver is a map from crate name to package. Looking a crate up (`Packages.Query`) gives its package, or `NotFound(name)` for a name the map does not hold.
- **Store.** The file system is a class `Store.Workspace` with three folder fields. Each is `None` while the folder does not exist:
  - `patches/`;
  - `target/patch/`;
  - `target/patch-tmp/`.
- **Directories.** A directory is a `Trees.Dir` value: its files, plus the last commit's snapshot while a `.git` entry is present. Copying one directory over another with overwrite (`Trees.Overlay`, the `fs_extra` copy of src/lib.rs:213-217) is the union of their files in which the copied directory's files win; no file is removed.
- **Git.** The `git` subprocesses are effects on such a value:
  - `git init; git add .; git commit` (`Git.Snapshot`) leaves the files as they are and records them as the last commit;
  - a patch file holds a `Diff(before, after)` pair of trees, and `git apply` (`Trees.ApplyDiff`) turns the `before` tree into the `after` tree and leaves any other tree alone.
- **Order.** The order of `read_dir` and of the `HashSet` of declared crates is left open: each loop picks its next element with `:|`.

Modules:

- `Paths`: path components and the three folder paths.
- `PatchFiles`: the patch file name, and Rust's `file_stem`, `extension` and `split_once`.
- `Trees`: directory values, `git apply`, and the `fs_extra` overwrite copy.
- `Packages`: packages, errors, `slug` and `patch_target_path`.
- `Store`: the workspace folders, `copy_package` and `clean_patch_folder`.
- `Git`: `init`, `apply`, `destroy` and `create_patch`.
- `PatchCrate`: argument normalisation, the two modes and `run`.

### Behaviours of the code worth knowing

- **What a created patch records.** Create mode copies the *pristine* package root into the tmp folder (`copy_package(pkg, tmp, true)`, src/lib.rs:210), commits it, and then copies the staged copy over it with overwrite (src/lib.rs:213-217). The written patch is therefore the diff from the pristine source to "the source overlaid with the staged files". Files the user deleted from the staged copy reappear from the source, so the patch does not record their deletion. `PatchCrate.CreateThenApplyRestores` states the round trip for text changes: a fresh copy patched with the written file holds the edited files exactly when no source file was deleted. A change to a file git treats as binary is not carried by the patch (see "## Left out").
- **The tmp folder after a failure.** Create mode removes `target/patch-tmp` only after a crate succeeds (src/lib.rs:225). When a crate's staged copy is missing, the copy over the tmp copy fails (src/lib.rs:213-217) and `target/patch-tmp` is left behind. An unknown crate or one without a slug stops the run before the tmp copy is made (src/lib.rs:207-209), so the tmp folder is as the previous crate left it. `PatchCrate.CreatePatches` states both cases.
- **An unreachable error.** The "Patch file does not have a name" error (src/lib.rs:264-267) cannot arise for a name that is a string. A directory entry always has a file name, and so a stem. Only non-UTF-8 names reach it, and those are left out.

## Model

| member | source | states |
|---|---|---|
| Paths.FoldersDisjoint | src/lib.rs:113-121 | `patches/`, `target/patch/` and `target/patch-tmp/` lie under the root and none is inside another, so removing one recursively leaves the others alone |
| Paths.JoinedName | src/lib.rs:98-102 | `folder.join(name)` lies directly inside `folder`, and its final name is `name` |
| Packages.SlugIsFinalName | src/lib.rs:90-102 | the slug fails with "no folder name" exactly when the package root has no final plain component. Otherwise the slug is that component, and `patch_target_path` is `target/patch/<slug>`, whose final name is the root's final name |
| Packages.ResolveAll | src/lib.rs:249-250 | collecting the declared names succeeds exactly when every name resolves, and yields the set of their packages. On failure it gives the `NotFound` of the first unknown name |
| PatchFiles.FirstIndexOf | src/lib.rs:269 | the result is `None` exactly when the character is absent; otherwise it is an occurrence with none before it |
| PatchFiles.LastIndexOf | src/lib.rs:264-265 | the result is `None` exactly when the character is absent; otherwise it is an occurrence with none after it |
| PatchFiles.SplitOnce | src/lib.rs:269 | `split_once('+')` fails exactly when there is no `+`; otherwise the parts rebuild the string around the first `+` |
| PatchFiles.SplitExtension | src/lib.rs:261-265 | the extension is absent exactly for `..` or a name with no dot after its first character. Otherwise stem, dot and extension rebuild the name, with a non-empty stem and a dot-free extension |
| PatchFiles.PatchFileNameParts | src/lib.rs:218-223 | the written name `name+version.patch` has extension `patch` and stem `name+version`, whatever the name and version contain |
| PatchFiles.PatchFileNameRoundTrip | src/lib.rs:264-269 | parsing the patch file name written at src/lib.rs:218-223 gives back the crate name exactly when that name has no `+` |
| PatchFiles.ClassifyInvertsFormat | src/lib.rs:260-269 | a regular file is taken as a patch of crate `c` exactly when `c` has no `+` and the file is named `c+<v>.patch` for some `v` |
| PatchFiles.SkippedEntries | src/lib.rs:260-269 | an entry is passed over exactly when it is not a regular file, its extension is not `patch`, or its stem holds no `+` |
| Trees.OverlayRestores | src/lib.rs:210-217 | overlaying a tree gives back exactly the overlay when no file of the tree is missing from the overlay |
| Store.Workspace.CreateFolder | src/lib.rs:151 | `create_dir_all` makes the folder exist and keeps its contents; the other folders do not change |
| Store.Workspace.RemoveFolder | src/lib.rs:225 | `remove_dir_all` fails on a missing folder and leaves it missing in every case; nothing else changes |
| Store.Workspace.CleanPatchFolder | src/lib.rs:123-126 | wiping `target/patch` succeeds exactly when it exists, fails with its path otherwise, and leaves it gone; `patches/` and the tmp folder do not change |
| Store.Workspace.CopyPackage | src/lib.rs:150-169 | the folder exists afterwards. A root with no final name fails with that error and copies nothing. Otherwise the result is `folder/slug`: an existing copy is kept unless `overwrite`, and in every other case `folder/slug` holds a fresh copy of the package source |
| Git.Init | src/lib.rs:315-329 | a missing directory fails with its path; otherwise the directory gets a `.git` entry whose commit is its current files |
| Git.Apply | src/lib.rs:331-337 | a missing directory fails. Otherwise the files change as `git apply` of the patch file says, and the `.git` entry is kept; a diff that does not apply leaves the files as they were |
| Git.Destroy | src/lib.rs:338-344 | the `.git` entry is gone afterwards and the files are kept; a directory without one, or a missing directory, is left as it was |
| Git.CreatePatch | src/lib.rs:345-360 | a missing directory fails. Without a `.git` entry nothing is written. Otherwise `patches/<file>` holds the diff from the last commit to the current files, and writing into a missing `patches/` fails |
| PatchCrate.NormaliseArgs | src/lib.rs:176-182 | only the first `patch-crate` argument is removed and the other arguments keep their order, so every other argument stays and none is added; the list is empty exactly when the arguments were empty or just `patch-crate` |
| PatchCrate.WrittenPatchFor | src/lib.rs:204-227 | every crate's patch file is among those create mode writes, and it holds that crate's diff unless a later crate has the same file name |
| PatchCrate.WrittenPatchKeys | src/lib.rs:204-227 | create mode writes no file but the named crates' own patch files |
| PatchCrate.ClearGit | src/lib.rs:212 | the staged copies of the handled crates lose their `.git` entry and keep their files; every other copy is untouched |
| PatchCrate.CreateOne | src/lib.rs:207-226 | for one crate with a known slug: a missing staged copy fails with its path and leaves the tmp folder behind. Otherwise the staged copy loses `.git`, `patches/<name>+<version>.patch` holds the diff from the package source to the source overlaid with the staged files, and the tmp folder is gone |
| PatchCrate.CreateFor | src/lib.rs:207-226 | for one named crate: a crate that is not creatable (unknown, no slug, no staged copy) stops with that crate's error, writes nothing and leaves the staged copies alone. A missing staged copy leaves the tmp folder behind; an unknown crate or a crate without a slug leaves the tmp folder as it was. Otherwise it does what `CreateOne` does |
| PatchCrate.CreateNext | src/lib.rs:204-227 | one turn of the create loop succeeds exactly when the crate is creatable against the staged copies the run began with, and then extends the written patches and cleared copies by that crate and removes the tmp folder. On failure it gives that crate's error and changes nothing but the tmp folder, which remains only when the staged copy was missing |
| PatchCrate.CreatePatches | src/lib.rs:199-227 | create mode succeeds exactly when every named crate resolves and has a staged copy. On success the patch files of all crates are written, their copies lose `.git`, and the tmp folder is gone. On failure it stops at the first failing crate with that crate's error, after writing the patches of the crates before it. A missing staged copy leaves the tmp folder behind. Any other failure leaves the tmp folder as it was when no crate was done yet, and removed otherwise |
| PatchCrate.StagePatched | src/lib.rs:281-290 | a crate without a staged copy gets a fresh copy of its source with its patch file applied and no `.git` entry |
| PatchCrate.ApplyPatchFiles | src/lib.rs:257-298 | the walk over `patches/` keeps the reconciliation invariant. Success means every patch file names a known crate, and no crate left to stage has a patch file; a failure means an unknown crate name or a declared crate without a slug |
| PatchCrate.CopyRemaining | src/lib.rs:299-301 | the final loop keeps the reconciliation invariant. Success leaves no declared crate unstaged, and a failure means a declared crate without a slug |
| PatchCrate.StagePatchedStep | src/lib.rs:280-294 | patching a crate's new copy and dropping it from the crates still to stage keeps the reconciliation invariant |
| PatchCrate.AlreadyStagedStep | src/lib.rs:291-294 | a crate whose copy already exists is dropped from the crates still to stage with the store untouched, and the invariant still holds |
| PatchCrate.PlainCopyStep | src/lib.rs:299-301 | a plain copy of a crate with no patch file keeps the reconciliation invariant |
| PatchCrate.ApplyPatches | src/lib.rs:252-301 | described in the paragraph after this table |
| PatchCrate.CreateThenApplyRestores | src/lib.rs:210-217 | for text changes (the diff is taken as lossless), a fresh copy patched (src/lib.rs:282-286) with the file create mode wrote holds exactly the edited files when no source file was deleted from the staged copy, and otherwise does not |
| PatchCrate.CreatedPatchIsFound | src/lib.rs:264-271 | apply mode takes the file create mode wrote at src/lib.rs:218-223 for a crate as that crate's patch exactly when the crate name has no `+` |
| PatchCrate.CreateThenApply | src/lib.rs:280-286 | when that file is the crate's only patch file, the copy apply mode stages is the patched source. For text changes (the diff is taken as lossless), it holds the edited files exactly when none were deleted |
| PatchCrate.Run | src/lib.rs:175-306 | arguments left after dropping `patch-crate` select create mode, whose success means every named crate was creatable. Otherwise an unknown declared name stops the run with the store untouched. Apply mode then runs on the declared packages, with everything `PatchCrate.ApplyPatches` states: the success condition, completeness, unchanged existing copies, the origin of every copy, idempotence and patching where due |

`PatchCrate.ApplyPatches` states the following:

- `patches/` and the tmp folder never change.
- With `--force` and no `target/patch`, the run fails with that folder's path.
- The run succeeds exactly when all three of these hold:
  - without `--force`, or with `target/patch` present;
  - every `name+version.patch` file names a crate the resolver knows;
  - every declared crate has a slug.
- On success, every declared crate has a staged copy.
- A copy that existed beforehand is kept unchanged. With `--force` no copy existed beforehand.
- Every other copy belongs to a declared crate. It is either a plain copy of the crate's source or the source patched with one of the crate's patch files.
- When declared crates have distinct slugs, a crate's new copy is patched exactly when the crate has a patch file.
- Idempotence: without `--force`, when every declared crate already has a copy, `target/patch` is unchanged. In particular a second run right after a successful one changes nothing.

## Left out

- `resolve_ws`, `find_cargo_toml`, the cargo `Config`, `Workspace` construction and the package-cache lock (src/lib.rs:129-148, 171-174, 184-197) are cargo library calls. The resolver is the `Packages.Resolver` map passed to `PatchCrate.Run`.
- The walk over `[package.metadata.patch] crates` in the TOML metadata (src/lib.rs:232-248) traverses foreign values. Its result, the list of declared names, is a parameter of `PatchCrate.Run`.
- Command-line parsing with `clap`, logging, and `src/main.rs` (error printing and the exit code) are I/O only.
- The content of a diff is not modelled. A patch file holds a `Diff(before, after)` pair of trees, and `git apply` succeeds only on the `before` tree. Its exit code is ignored, as in the code, so a patch that does not apply leaves the copy unpatched without an error.
- The diff is taken as lossless: `Git.CreatePatch` records the whole change as `Diff(before, after)`. The code runs `git diff --staged` without `--binary` (src/lib.rs:351-354), so for a file git treats as binary the patch only says the files differ. `git apply` then rejects the whole patch, and its ignored exit status hides that. A staged copy with an edited or added binary file thus yields a patch that restores nothing, which the model does not capture; the round-trip rows above hold for text changes only.
- Failures of the copy, `read_dir`, metadata, write and subprocess-spawn calls beyond those modelled (a missing directory, a missing `patches/` on write) are left out. So are permission and disk errors.
- Git.Init: assumes that `git init; git add .; git commit -m zero` commits every file of the directory. The code ignores all three exit statuses (src/lib.rs:315-329) and the status of `git add .` in `create_patch` (src/lib.rs:346-349). A commit that fails, for instance with no git identity configured, is not modelled. Nor are files a `.gitignore` inside the crate keeps out of the commit. Either would change the baseline of the diff, and the create-then-apply round trip holds only under this assumption.
- Git.CreatePatch: a directory without `.git` writes nothing. The real `git diff` would run inside any enclosing repository. Create mode always runs `git init` first, so this case does not arise there.
- File names that are not valid UTF-8, and the "Patch file does not have a name" error only they could reach, are left out. Names are `string`s.
- Symbolic links are left out. An entry of `patches/` is a regular file or a directory (`Trees.Entry`), and a directory is passed over like any non-file.
- PatchCrate.ApplyPatches: the "patched exactly where a patch file exists" clause requires distinct slugs among the declared crates. Two declared crates with one slug share one copy, and which crate it comes from depends on the iteration order.
- PatchCrate.Run: for create mode it states success only in one direction. Repeated `patch-crate` arguments after the first stay crate names, and its full contract is that of `PatchCrate.CreatePatches`.
