/** Naming of patch files: `<name>+<version>.patch` is written by create mode
    and parsed back by apply mode with `file_stem`, `extension` and
    `split_once('+')`. The functions below follow Rust's definitions of those. */
module PatchFiles {
  import opened Wrappers

  const PatchExt := "patch"

  function FirstIndexOf(s: string, c: char): (r: Option<nat>)
    ensures r.None? <==> c !in s
    ensures r.Some? ==> r.value < |s| && s[r.value] == c && c !in s[..r.value]
  {
    if |s| == 0 then None
    else if s[0] == c then Some(0)
    else match FirstIndexOf(s[1..], c)
      case None => None
      case Some(k) =>
        assert s[..k + 1] == [s[0]] + s[1..][..k];
        Some(k + 1)
  }

  function LastIndexOf(s: string, c: char): (r: Option<nat>)
    ensures r.None? <==> c !in s
    ensures r.Some? ==> r.value < |s| && s[r.value] == c && c !in s[r.value + 1..]
  {
    if |s| == 0 then None
    else if s[|s| - 1] == c then Some(|s| - 1)
    else
      var r := LastIndexOf(s[..|s| - 1], c);
      assert s == s[..|s| - 1] + [s[|s| - 1]];
      assert r.Some? ==> s[r.value + 1..] == s[..|s| - 1][r.value + 1..] + [s[|s| - 1]];
      r
  }

  /** `str::split_once`: the parts before and after the first `c`. */
  function SplitOnce(s: string, c: char): (r: Option<(string, string)>)
    ensures r.None? <==> c !in s
    ensures r.Some? ==> s == r.value.0 + [c] + r.value.1 && c !in r.value.0
  {
    match FirstIndexOf(s, c)
    case None => None
    case Some(i) =>
      assert s == s[..i] + [c] + s[i + 1..];
      Some((s[..i], s[i + 1..]))
  }

  datatype StemAndExtension = StemAndExtension(stem: string, extension: Option<string>)

  /** `Path::file_stem` and `Path::extension` of a file name: split at the last
      dot, unless that dot is the first character or the name is `..`. */
  function SplitExtension(fileName: string): (r: StemAndExtension)
    ensures r.extension.None? <==>
              fileName == ".." || forall i :: 0 < i < |fileName| ==> fileName[i] != '.'
    ensures r.extension.None? ==> r.stem == fileName
    ensures r.extension.Some? ==>
              r.stem != [] && fileName == r.stem + "." + r.extension.value && '.' !in r.extension.value
  {
    if fileName == ".." then StemAndExtension(fileName, None)
    else match LastIndexOf(fileName, '.')
      case None => StemAndExtension(fileName, None)
      case Some(k) =>
        if k == 0 then StemAndExtension(fileName, None)
        else
          assert fileName == fileName[..k] + "." + fileName[k + 1..];
          StemAndExtension(fileName[..k], Some(fileName[k + 1..]))
  }

  /** The name create mode gives a patch file: `format!("{}+{}.{}", name, version, "patch")`. */
  function PatchFileName(name: string, version: string): string
  {
    name + "+" + version + "." + PatchExt
  }

  /** What apply mode does with one entry of `patches/`. */
  datatype EntryAction = Skip | PatchFor(crate: string)

  /** The filter of apply mode: a regular file with extension `patch` whose
      stem holds a `+` names the crate before the first `+`; anything else is
      passed over without a word. */
  function Classify(fileName: string, isFile: bool): EntryAction
  {
    var parts := SplitExtension(fileName);
    if isFile && parts.extension == Some(PatchExt) then
      match SplitOnce(parts.stem, '+')
      case None => Skip
      case Some(split) => PatchFor(split.0)
    else Skip
  }

  /** The entries passed over silently are exactly the non-files, the files
      without the `patch` extension and the patch files whose stem has no `+`. */
  lemma SkippedEntries(fileName: string, isFile: bool)
    ensures Classify(fileName, isFile) == Skip <==>
              !isFile || SplitExtension(fileName).extension != Some(PatchExt)
              || '+' !in SplitExtension(fileName).stem
  {
  }

  /** The index characterised by `FirstIndexOf`'s contract is unique. */
  lemma FirstIndexIs(s: string, c: char, k: nat)
    requires k < |s| && s[k] == c && c !in s[..k]
    ensures FirstIndexOf(s, c) == Some(k)
  {
  }

  /** The index characterised by `LastIndexOf`'s contract is unique. */
  lemma LastIndexIs(s: string, c: char, k: nat)
    requires k < |s| && s[k] == c && c !in s[k + 1..]
    ensures LastIndexOf(s, c) == Some(k)
  {
  }

  /** The stem and extension of a written patch file, whatever `+` or `.` the
      name and the version hold. */
  lemma {:induction false} PatchFileNameParts(name: string, version: string)
    ensures SplitExtension(PatchFileName(name, version))
            == StemAndExtension(name + "+" + version, Some(PatchExt))
  {
    var stem := name + "+" + version;
    var f := PatchFileName(name, version);
    var k := |stem|;
    assert f == stem + "." + PatchExt;
    assert f[k + 1..] == PatchExt;
    LastIndexIs(f, '.', k);
    assert f[..k] == stem;
  }

  /** Round trip: the name of a written patch file is parsed back to the crate
      name exactly when that name has no `+`. */
  lemma {:induction false} PatchFileNameRoundTrip(name: string, version: string)
    ensures Classify(PatchFileName(name, version), true) == PatchFor(name) <==> '+' !in name
  {
    PatchFileNameParts(name, version);
    var stem := name + "+" + version;
    assert stem[|name|] == '+';
    if '+' !in name {
      assert stem[..|name|] == name;
      FirstIndexIs(stem, '+', |name|);
    } else {
      assert '+' !in SplitOnce(stem, '+').value.0;
    }
  }

  /** Parsing inverts formatting: an entry is taken as the patch of crate `c`
      exactly when its name is `c+<version>.patch` for some version and `c`
      has no `+`. */
  lemma {:induction false} ClassifyInvertsFormat(fileName: string, c: string)
    ensures Classify(fileName, true) == PatchFor(c) <==>
              '+' !in c && exists v :: fileName == PatchFileName(c, v)
  {
    if Classify(fileName, true) == PatchFor(c) {
      var parts := SplitExtension(fileName);
      var split := SplitOnce(parts.stem, '+').value;
      assert fileName == PatchFileName(c, split.1);
    }
    if '+' !in c && exists v :: fileName == PatchFileName(c, v) {
      var v :| fileName == PatchFileName(c, v);
      PatchFileNameRoundTrip(c, v);
    }
  }
}
