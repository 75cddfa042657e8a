/** `System.IO.Path.GetExtension`, the only path operation whose result
    reaches the model (it names the copied image). */
module Paths {
  import opened Wrappers

  /** Directory separators on the Windows host the catalogue targets. */
  predicate IsSeparator(c: char) {
    c == '/' || c == '\\'
  }

  /** The index of the last '.' in `s[..n]` that lies after every separator
      of `s[..n]`, scanning backwards as `GetExtension` does. */
  function LastDot(s: string, n: nat): (r: Option<nat>)
    requires n <= |s|
    ensures r.Some? ==>
      && r.value < n && s[r.value] == '.'
      && forall k :: r.value < k < n ==> s[k] != '.' && !IsSeparator(s[k])
    ensures r.None? ==> forall k :: 0 <= k < n && s[k] == '.' ==>
      exists b :: k < b < n && IsSeparator(s[b])
    decreases n
  {
    if n == 0 then None
    else if s[n - 1] == '.' then Some(n - 1)
    else if IsSeparator(s[n - 1]) then None
    else LastDot(s, n - 1)
  }

  /** A '.' at `i` begins the extension of `path` when no '.' and no
      separator follows it. */
  predicate StartsExtension(path: string, i: nat)
    requires i < |path|
  {
    && path[i] == '.'
    && forall k :: i < k < |path| ==> path[k] != '.' && !IsSeparator(path[k])
  }

  /** `Path.GetExtension`: from the last '.' of the final path component to
      the end; empty when that component has no '.' or ends with one. */
  function Extension(path: string): (ext: string)
    ensures ext == "" || (|ext| >= 2 && ext[0] == '.')
    ensures ext != "" <==> exists i :: 0 <= i < |path| - 1 && StartsExtension(path, i)
    ensures forall i :: 0 <= i < |path| - 1 && StartsExtension(path, i) ==> ext == path[i..]
  {
    match LastDot(path, |path|)
    case None =>
      assert forall i :: 0 <= i < |path| - 1 && path[i] == '.' ==> !StartsExtension(path, i);
      ""
    case Some(i) =>
      assert StartsExtension(path, i);
      assert forall i' :: 0 <= i' < |path| && i' != i && path[i'] == '.' ==> !StartsExtension(path, i');
      if i == |path| - 1 then "" else path[i..]
  }
}
