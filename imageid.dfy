/** Resolution of an image identifier given on the command line into the
    `.mat` file to load and the name the image is reported under. An
    identifier in the `cued-sf2://` namespace names a sample bundled with the
    package; any other identifier is a path, with `.mat` added when missing. */
module ImageId {

  const Scheme: string := "cued-sf2://"
  const MatExt: string := ".mat"

  predicate EndsWith(s: string, suffix: string)
  {
    |suffix| <= |s| && s[|s| - |suffix|..] == suffix
  }

  /** Python's `str.removeprefix`: acts only when the prefix is there. */
  function RemovePrefix(s: string, prefix: string): (r: string)
    ensures prefix <= s ==> prefix + r == s
    ensures !(prefix <= s) ==> r == s
  {
    if prefix <= s then s[|prefix|..] else s
  }

  /** Python's `str.removesuffix`: acts only when the suffix is there, and once. */
  function RemoveSuffix(s: string, suffix: string): (r: string)
    ensures EndsWith(s, suffix) ==> r + suffix == s
    ensures !EndsWith(s, suffix) ==> r == s
  {
    if EndsWith(s, suffix) then s[..|s| - |suffix|] else s
  }

  /** `str(Path(base) / rest)`: an empty component adds nothing and an absolute
      one replaces the base; otherwise the two are joined by a separator. */
  function JoinPath(base: string, rest: string): string
  {
    if rest == "" then base
    else if rest[0] == '/' then rest
    else base + "/" + rest
  }

  /** The directory of bundled sample images, `images` beside the package. */
  function ImagesDir(pkgDir: string): string
  {
    JoinPath(pkgDir, "images")
  }

  datatype Resolved = Resolved(fileName: string, name: string)

  /** The identifier branch of `collect`: which file to load, and the name shown. */
  function Resolve(id: string, pkgDir: string): (r: Resolved)
    // a bundled sample: the rest of the identifier, verbatim, under the images directory
    ensures Scheme <= id ==> r.fileName == JoinPath(ImagesDir(pkgDir), id[|Scheme|..])
    // ... shown without one trailing `.mat`, if it has one
    ensures Scheme <= id && EndsWith(id[|Scheme|..], MatExt) ==> Scheme + r.name + MatExt == id
    ensures Scheme <= id && !EndsWith(id[|Scheme|..], MatExt) ==> Scheme + r.name == id
    // any other identifier: shown as given, loaded with `.mat` added unless it is there
    ensures !(Scheme <= id) ==> r.name == id
    ensures !(Scheme <= id) ==> (r.fileName == id <==> EndsWith(id, MatExt))
    ensures !(Scheme <= id) && !EndsWith(id, MatExt) ==> r.fileName == id + MatExt
    ensures !(Scheme <= id) ==> EndsWith(r.fileName, MatExt)
  {
    if Scheme <= id then
      var rest := RemovePrefix(id, Scheme);
      Resolved(JoinPath(ImagesDir(pkgDir), rest), RemoveSuffix(rest, MatExt))
    else if !EndsWith(id, MatExt) then
      Resolved(id + MatExt, id)
    else
      Resolved(id, id)
  }

  /** A file name resolved from a path identifier resolves to itself: adding
      `.mat` never creates the bundled-sample scheme, and is done at most once. */
  lemma ResolveLocalIdempotent(id: string, pkgDir: string)
    requires !(Scheme <= id)
    ensures !(Scheme <= Resolve(id, pkgDir).fileName)
    ensures Resolve(Resolve(id, pkgDir).fileName, pkgDir).fileName == Resolve(id, pkgDir).fileName
  {
    var f := Resolve(id, pkgDir).fileName;
    if f != id {
      assert f == id + MatExt;
      if |id| >= |Scheme| {
        assert f[..|Scheme|] == id[..|Scheme|];
      } else {
        assert |f| < |Scheme| || f[|id|] != Scheme[|id|];
      }
    }
  }
}
