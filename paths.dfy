/** The working-directory prefix built at source/main.cpp:82-83: the
    current path with '/' appended, then every backslash replaced by '/'.
    The current path itself is an input (the process's working directory
    is not part of this model). */
module Paths {

  /** `std::replace(path.begin(), path.end(), '\\', '/')`, as a value. */
  function ReplaceBackslashes(s: string): (r: string)
    ensures |r| == |s|
    ensures '\\' !in r
    ensures forall i :: 0 <= i < |s| && s[i] != '\\' ==> r[i] == s[i]
    ensures forall i :: 0 <= i < |s| && s[i] == '\\' ==> r[i] == '/'
  {
    if s == [] then [] else [if s[0] == '\\' then '/' else s[0]] + ReplaceBackslashes(s[1..])
  }

  /** The prefix for the model files: one character longer than the
      current path, ending in '/', with no backslash left and every other
      character unchanged in place. A path that already uses only '/' just
      gains the trailing '/'. */
  function NormalisePath(cwd: string): (p: string)
    ensures |p| == |cwd| + 1 && p[|cwd|] == '/'
    ensures '\\' !in p
    ensures forall i :: 0 <= i < |cwd| && cwd[i] != '\\' ==> p[i] == cwd[i]
    ensures forall i :: 0 <= i < |cwd| && cwd[i] == '\\' ==> p[i] == '/'
    ensures '\\' !in cwd ==> p == cwd + "/"
  {
    var p := ReplaceBackslashes(cwd + "/");
    assert forall i :: 0 <= i < |cwd| ==> (cwd + "/")[i] == cwd[i];
    p
  }
}
