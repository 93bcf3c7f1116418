/** The filename test `get_module_file` applies to each entry of the working directory. */
module ModuleFile {
  import opened Wrappers

  const ManifestName: string := "MODULE.bazel"

  /** Index of the last '.' in `f`, if any. */
  function LastDot(f: string): (r: Option<nat>)
    ensures r.Some? ==> r.value < |f| && f[r.value] == '.' && '.' !in f[r.value + 1..]
    ensures r.None? ==> '.' !in f
    decreases |f|
  {
    if |f| == 0 then None
    else if f[|f| - 1] == '.' then Some(|f| - 1)
    else
      var r := LastDot(f[..|f| - 1]);
      assert f == f[..|f| - 1] + [f[|f| - 1]];
      if r.Some? then
        assert f[r.value + 1..] == f[..|f| - 1][r.value + 1..] + [f[|f| - 1]];
        r
      else r
  }

  /**
   * path::extension() of a filename: from its last '.' on, except that "."
   * and "..", and a leading '.' (".profile"), give no extension.
   */
  function Extension(f: string): (e: string)
    ensures e != [] <==> f != ".." && exists k :: 1 <= k < |f| && f[k] == '.'
    ensures e != [] ==> e[0] == '.' && '.' !in e[1..] && |e| < |f| && f[|f| - |e|..] == e
  {
    if f == "." || f == ".." then []
    else
      match LastDot(f)
      case None => []
      case Some(k) => if k == 0 then [] else f[k..]
  }

  /**
   * The test of get_module_file: has_extension(), filename() == "MODULE.bazel"
   * and extension() == ".bazel". The extension tests add nothing: an entry
   * passes exactly when its name is MODULE.bazel.
   */
  predicate IsModuleFile(f: string): (b: bool)
    ensures b <==> f == ManifestName
  {
    assert f == ManifestName ==> LastDot(f) == Some(6);
    Extension(f) != [] && f == ManifestName && Extension(f) == ".bazel"
  }
}
