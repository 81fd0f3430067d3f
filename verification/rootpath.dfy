/**
 * `root_rel_path`: with an alternate root directory in use, a path is made
 * relative to it by dropping its leading '/' characters (an `openat` ignores
 * its directory for an absolute path), and a path left empty becomes ".".
 * Whether the root is the current directory (`root_fd == AT_FDCWD`) is a
 * parameter.
 */
module RootPath {
  import opened Bytes

  const DOT: CStr := "."

  /** The number of '/' characters the path starts with. */
  function LeadingSlashes(path: CStr): (k: nat)
    ensures k <= |path|
    ensures forall i :: 0 <= i < k ==> path[i] == SLASH
    ensures k == |path| || path[k] != SLASH
  {
    if |path| == 0 || path[0] != SLASH then 0 else 1 + LeadingSlashes(path[1..])
  }

  /** A run of `n` slashes. */
  function Slashes(n: nat): (s: CStr)
    ensures |s| == n && forall i :: 0 <= i < n ==> s[i] == SLASH
  {
    seq(n, i => SLASH)
  }

  /** The path relative to the root, stated without a loop. */
  function RootRel(path: CStr, rootIsCwd: bool): (r: CStr)
    ensures rootIsCwd ==> r == path
    ensures !rootIsCwd ==> |r| > 0 && r[0] != SLASH
    ensures !rootIsCwd && (forall i :: 0 <= i < |path| ==> path[i] == SLASH) ==> r == DOT
    ensures !rootIsCwd && (exists i :: 0 <= i < |path| && path[i] != SLASH) ==>
      |r| <= |path| && path == Slashes(|path| - |r|) + r
  {
    if rootIsCwd then path
    else
      var k := LeadingSlashes(path);
      if k == |path| then DOT else path[k..]
  }

  /** The source's form: step past each leading '/', then map "" to ".". */
  method RootRelPath(path: CStr, rootIsCwd: bool) returns (r: CStr)
    ensures r == RootRel(path, rootIsCwd)
    ensures !rootIsCwd ==> |r| > 0 && r[0] != SLASH
  {
    r := path;
    if !rootIsCwd {
      var i := 0;
      while i < |path| && path[i] == SLASH
        invariant 0 <= i <= LeadingSlashes(path)
      {
        i := i + 1;
      }
      if i == |path| {
        r := DOT;
      } else {
        r := path[i..];
      }
    }
  }

  /** Extra leading slashes make no difference to the result. */
  lemma {:induction false} RootRelIgnoresSlashes(n: nat, path: CStr)
    ensures RootRel(Slashes(n) + path, false) == RootRel(path, false)
  {
    var s := Slashes(n) + path;
    var k := LeadingSlashes(path);
    assert forall i :: 0 <= i < n + k ==> s[i] == SLASH;
    assert n + k == |s| || s[n + k] != SLASH;
    LeadingSlashesExact(s, n + k);
    assert s[n + k..] == path[k..];
  }

  /** The slash count is fixed by where the slashes stop. */
  lemma {:induction false} LeadingSlashesExact(path: CStr, k: nat)
    requires k <= |path|
    requires forall i :: 0 <= i < k ==> path[i] == SLASH
    requires k == |path| || path[k] != SLASH
    ensures LeadingSlashes(path) == k
  {
    if k > 0 {
      assert path[0] == SLASH;
      assert forall i :: 0 <= i < k - 1 ==> path[1..][i] == path[i + 1];
      LeadingSlashesExact(path[1..], k - 1);
    }
  }

  /** A path already made relative is left as it is. */
  lemma {:induction false} RootRelIdempotent(path: CStr)
    ensures RootRel(RootRel(path, false), false) == RootRel(path, false)
  {
    var r := RootRel(path, false);
    LeadingSlashesExact(r, 0);
    assert r[0..] == r;
  }
}
