/** The `git` subprocesses the tool runs, as effects on one directory of the
    store: what they do to its files and to its `.git` entry. Exit codes of
    `git` are not looked at by the tool; only a directory that cannot be
    entered makes a call fail. */
module Git {
  import opened Wrappers
  import opened Paths
  import opened Trees
  import opened Packages
  import opened Store

  /** The state `git init; git add .; git commit -m zero` leaves: a `.git`
      entry whose last commit is the directory's current files. */
  function Snapshot(d: Dir): Dir
  {
    Dir(d.files, Some(d.files))
  }

  /** `git::init`. */
  method Init(ws: Workspace, a: Area, slug: string) returns (r: Outcome<Error>)
    modifies ws
    ensures ws.patches == old(ws.patches) && ws.Folder(Other(a)) == old(ws.Folder(Other(a)))
    ensures !old(ws.Exists(a, slug)) ==>
              r == Fail(NoSuchDirectory(Join(ws.FolderPath(a), slug))) && ws.Folder(a) == old(ws.Folder(a))
    ensures old(ws.Exists(a, slug)) ==>
              r == Pass && ws.Folder(a) == Some(old(ws.Folder(a)).value[slug := Snapshot(old(ws.Folder(a)).value[slug])])
  {
    if !ws.Exists(a, slug) {
      return Fail(NoSuchDirectory(Join(ws.FolderPath(a), slug)));
    }
    var folder := ws.Folder(a).value;
    ws.SetFolder(a, Some(folder[slug := Snapshot(folder[slug])]));
    r := Pass;
  }

  /** `git::apply` with the patch file `patches/<patchName>`: the working
      files change as `ApplyDiff` says; a missing or unusable patch file
      leaves them as they were. The `.git` entry is left alone. */
  method Apply(ws: Workspace, a: Area, slug: string, patchName: string) returns (r: Outcome<Error>)
    modifies ws
    ensures ws.patches == old(ws.patches) && ws.Folder(Other(a)) == old(ws.Folder(Other(a)))
    ensures !old(ws.Exists(a, slug)) ==>
              r == Fail(NoSuchDirectory(Join(ws.FolderPath(a), slug))) && ws.Folder(a) == old(ws.Folder(a))
    ensures old(ws.Exists(a, slug)) ==>
              var d := old(ws.Folder(a)).value[slug];
              var entries := EntriesOf(ws.patches);
              var files := if patchName in entries && entries[patchName].RegularFile?
                           then ApplyDiff(d.files, entries[patchName].content) else d.files;
              r == Pass && ws.Folder(a) == Some(old(ws.Folder(a)).value[slug := Dir(files, d.git)])
  {
    if !ws.Exists(a, slug) {
      return Fail(NoSuchDirectory(Join(ws.FolderPath(a), slug)));
    }
    var folder := ws.Folder(a).value;
    var d := folder[slug];
    var entries := EntriesOf(ws.patches);
    var files := d.files;
    if patchName in entries && entries[patchName].RegularFile? {
      files := ApplyDiff(d.files, entries[patchName].content);
    }
    ws.SetFolder(a, Some(folder[slug := Dir(files, d.git)]));
    r := Pass;
  }

  /** `git::destroy`: removes the `.git` entry of the directory if it has
      one; a directory without one, or a missing directory, is left alone. */
  method Destroy(ws: Workspace, a: Area, slug: string)
    modifies ws
    ensures ws.patches == old(ws.patches) && ws.Folder(Other(a)) == old(ws.Folder(Other(a)))
    ensures !old(ws.Exists(a, slug)) ==> ws.Folder(a) == old(ws.Folder(a))
    ensures old(ws.Exists(a, slug)) ==>
              ws.Folder(a) == Some(old(ws.Folder(a)).value[slug := Dir(old(ws.Folder(a)).value[slug].files, None)])
    ensures old(ws.Exists(a, slug)) && old(ws.Folder(a)).value[slug].git.None? ==>
              ws.Folder(a) == old(ws.Folder(a))
  {
    if ws.Exists(a, slug) && ws.Folder(a).value[slug].git.Some? {
      var folder := ws.Folder(a).value;
      ws.SetFolder(a, Some(folder[slug := Dir(folder[slug].files, None)]));
    } else if ws.Exists(a, slug) {
      var folder := ws.Folder(a).value;
      assert folder[slug := Dir(folder[slug].files, None)] == folder;
    }
  }

  /** `git::create_patch`: `git add .` and `git diff --staged`, written to
      `patches/<fileName>`: the diff from the last commit to the current
      files. Writing into a missing `patches/` folder fails. */
  method CreatePatch(ws: Workspace, a: Area, slug: string, fileName: string) returns (r: Outcome<Error>)
    modifies ws
    ensures ws.target == old(ws.target) && ws.tmp == old(ws.tmp)
    ensures !ws.Exists(a, slug) ==>
              r == Fail(NoSuchDirectory(Join(ws.FolderPath(a), slug))) && ws.patches == old(ws.patches)
    ensures ws.Exists(a, slug) && ws.Folder(a).value[slug].git.None? ==>
              r == Pass && ws.patches == old(ws.patches)
    ensures ws.Exists(a, slug) && ws.Folder(a).value[slug].git.Some? ==>
              var d := ws.Folder(a).value[slug];
              if old(ws.patches).None?
              then r == Fail(NoSuchDirectory(PatchesFolder(ws.root))) && ws.patches == old(ws.patches)
              else r == Pass && ws.patches == Some(old(ws.patches).value[fileName := RegularFile(Diff(d.git.value, d.files))])
  {
    if !ws.Exists(a, slug) {
      return Fail(NoSuchDirectory(Join(ws.FolderPath(a), slug)));
    }
    var d := ws.Folder(a).value[slug];
    if d.git.None? {
      return Pass;
    }
    if ws.patches.None? {
      return Fail(NoSuchDirectory(PatchesFolder(ws.root)));
    }
    ws.patches := Some(ws.patches.value[fileName := RegularFile(Diff(d.git.value, d.files))]);
    r := Pass;
  }
}
