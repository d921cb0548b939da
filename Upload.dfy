/** The upload filter of the recipe form (`allowed_file`): a photo is kept only
    when the text after the last dot of its file name, lower-cased, is one of
    the allowed image extensions. */
module Upload {
  import opened Wrappers
  import opened Text

  /** The allowed extensions (`ALLOWED_EXT`). */
  const AllowedExtensions: set<string> := {"png", "jpg", "jpeg", "gif"}

  /** The position of the last dot, if there is one. */
  function LastDot(s: string): (r: Option<nat>)
    ensures r.None? <==> forall k :: 0 <= k < |s| ==> s[k] != '.'
    ensures r.Some? ==> r.value < |s| && s[r.value] == '.' && forall k :: r.value < k < |s| ==> s[k] != '.'
  {
    if s == [] then None
    else if s[|s| - 1] == '.' then Some(|s| - 1)
    else LastDot(s[..|s| - 1])
  }

  /** The extension: the text after the last dot. */
  function Extension(filename: string): string
    requires '.' in filename
  {
    filename[LastDot(filename).value + 1..]
  }

  /** `allowed_file(filename)`. */
  predicate AllowedFile(filename: string): (ok: bool)
    ensures ok ==> '.' in filename && 3 <= |Extension(filename)| <= 4
  {
    '.' in filename && PyLower(Extension(filename)) in AllowedExtensions
  }

  /** Position `i` holds a dot and no dot follows it. */
  predicate IsLastDot(s: string, i: int) {
    0 <= i < |s| && s[i] == '.' && forall k :: i < k < |s| ==> s[k] != '.'
  }

  /** A file name is accepted exactly when it has a last dot and the text after
      it lower-cases to an allowed extension; in particular a name without a
      dot is always refused. */
  lemma AllowedFileIff(filename: string)
    ensures AllowedFile(filename) <==>
      exists i :: IsLastDot(filename, i) && PyLower(filename[i + 1..]) in AllowedExtensions
    ensures '.' !in filename ==> !AllowedFile(filename)
  {
    if '.' in filename {
      var i := LastDot(filename).value;
      assert IsLastDot(filename, i);
      assert Extension(filename) == filename[i + 1..];
      forall j | IsLastDot(filename, j) ensures j == i {
        LastDotUnique(filename, j);
      }
    } else {
      forall j | 0 <= j < |filename| ensures !IsLastDot(filename, j) {
        assert filename[j] in filename;
      }
    }
  }

  /** Only one dot has no dot after it. */
  lemma LastDotUnique(s: string, i: nat)
    requires IsLastDot(s, i)
    ensures LastDot(s) == Some(i)
  {
  }

  /** Only the part after the last dot matters: whatever precedes it, a name
      ending in `"." + ext` (with `ext` dot-free) is accepted exactly when
      `ext` lower-cases to an allowed extension. */
  lemma AllowedFileByExtension(stem: string, ext: string)
    requires '.' !in ext
    ensures AllowedFile(stem + "." + ext) <==> PyLower(ext) in AllowedExtensions
  {
    var f := stem + "." + ext;
    assert f[|stem|] == '.';
    assert f[|stem| + 1..] == ext;
    assert forall k :: |stem| < k < |f| ==> f[k] == ext[k - |stem| - 1];
    assert IsLastDot(f, |stem|);
    LastDotUnique(f, |stem|);
  }
}
