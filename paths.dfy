/** Paths as sequences of components, and the parts of `std::path` the stores
    rely on: `join`, `file_stem`, `extension` and `set_extension`. */
module Paths {
  import opened Base

  /** A path is its list of components; `PathBuf::new()` is the empty path. */
  type Path = seq<string>

  function Join(p: Path, name: string): Path
  {
    p + [name]
  }

  /** `q` lies at or below `p`. */
  predicate Under(p: Path, q: Path)
  {
    |p| <= |q| && q[..|p|] == p
  }

  /** The index of the last '.' in a file name. */
  function LastDot(s: string): (r: Option<nat>)
    ensures r.Some? ==> r.value < |s| && s[r.value] == '.'
    ensures r.Some? ==> forall k :: r.value < k < |s| ==> s[k] != '.'
    ensures r.None? ==> forall k :: 0 <= k < |s| ==> s[k] != '.'
  {
    if s == [] then None
    else if s[|s| - 1] == '.' then Some(|s| - 1)
    else LastDot(s[..|s| - 1])
  }

  /** Rust's split of a file name into stem and extension: the split is at the
      last '.', a leading '.' starts no extension, and ".." has none. */
  function SplitExtension(name: string): (r: (string, Option<string>))
  {
    if name == ".." then (name, None)
    else match LastDot(name)
      case None => (name, None)
      case Some(i) => if i == 0 then (name, None) else (name[..i], Some(name[i + 1..]))
  }

  /** `Path::file_stem`: the name without its last extension. */
  function FileStem(name: string): string
  {
    SplitExtension(name).0
  }

  /** `Path::extension`: what follows the last '.', if anything does. */
  function Extension(name: string): Option<string>
  {
    SplitExtension(name).1
  }

  /** A name built as `stem.ext` with no '.' in `ext` splits back into `stem` and `ext`. */
  lemma SplitJoined(stem: string, ext: string)
    requires stem != [] && stem != "."
    requires forall k :: 0 <= k < |ext| ==> ext[k] != '.'
    ensures FileStem(stem + "." + ext) == stem
    ensures Extension(stem + "." + ext) == Some(ext)
  {
    var name := stem + "." + ext;
    assert name[|stem|] == '.';
    var i := LastDot(name);
    assert forall k :: |stem| < k < |name| ==> name[k] == ext[k - |stem| - 1];
    assert i.Some? && i.value == |stem|;
    assert name[..|stem|] == stem && name[|stem| + 1..] == ext;
    assert |stem| == 1 ==> stem == [name[0]];
  }

  /** Two names with the same extension are equal only if their stems are. */
  lemma StemsEqual(x: string, y: string, ext: string)
    requires x + "." + ext == y + "." + ext
    ensures x == y
  {
    assert |x| == |y|;
    assert x == (x + "." + ext)[..|x|] && y == (y + "." + ext)[..|y|];
  }

  /** `PathBuf::set_extension`: replaces the last component's extension; a path
      with no file name is left as it is. */
  function WithExtension(p: Path, ext: string): (r: Path)
    ensures |r| == |p|
    ensures p != [] ==> r[..|p| - 1] == p[..|p| - 1]
  {
    if p == [] || p[|p| - 1] == ".." then p
    else p[..|p| - 1] + [FileStem(p[|p| - 1]) + (if ext == "" then "" else "." + ext)]
  }

  /** Where the archival worker writes the archive of `p`. */
  function ArchivePath(p: Path): Path
  {
    WithExtension(p, "tar.gz")
  }
}
