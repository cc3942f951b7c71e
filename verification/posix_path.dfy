/**
 The POSIX `os.path.dirname` used to find the directory of the target
 catalog's self href: everything up to the last '/', with the trailing run of
 slashes removed unless that prefix consists of slashes only.
 */
module PosixPath {

  /** `p.rfind('/') + 1`: the length of the longest prefix of `p` ending in '/', or 0. */
  function AfterLastSlash(p: string): (i: nat)
    ensures i <= |p|
    ensures i > 0 ==> p[i - 1] == '/'
    ensures forall j :: i <= j < |p| ==> p[j] != '/'
    decreases |p|
  {
    if |p| == 0 then 0
    else if p[|p| - 1] == '/' then |p|
    else AfterLastSlash(p[..|p| - 1])
  }

  predicate AllSlashes(s: string) {
    forall i :: 0 <= i < |s| ==> s[i] == '/'
  }

  /** `s.rstrip('/')`. */
  function StripTrailingSlashes(s: string): (r: string)
    ensures r <= s
    ensures |r| > 0 ==> r[|r| - 1] != '/'
    ensures forall j :: |r| <= j < |s| ==> s[j] == '/'
    decreases |s|
  {
    if |s| == 0 || s[|s| - 1] != '/' then s
    else StripTrailingSlashes(s[..|s| - 1])
  }

  /** `os.path.dirname(p)` for a POSIX path or URL. */
  function Dirname(p: string): (r: string)
    ensures r <= p
    ensures |r| <= AfterLastSlash(p)
    ensures '/' !in p ==> r == []
    ensures AllSlashes(p[|r|..AfterLastSlash(p)])
    ensures !AllSlashes(r) ==> r[|r| - 1] != '/'
    ensures AllSlashes(p[..AfterLastSlash(p)]) ==> r == p[..AfterLastSlash(p)]
  {
    var head := p[..AfterLastSlash(p)];
    if |head| > 0 && !AllSlashes(head) then
      var r := StripTrailingSlashes(head);
      assert p[|r|..AfterLastSlash(p)] == head[|r|..];
      r
    else head
  }

  /** `dirname` undoes joining a directory and a file name. */
  lemma DirnameOfJoin(dir: string, name: string)
    requires |dir| > 0 && dir[|dir| - 1] != '/'
    requires '/' !in name
    ensures Dirname(dir + "/" + name) == dir
  {
    var p := dir + "/" + name;
    assert p[|dir|] == '/';
    assert AfterLastSlash(p) == |dir| + 1;
    assert p[..|dir| + 1] == dir + "/";
    assert (dir + "/")[|dir| - 1] == dir[|dir| - 1];
    assert (dir + "/")[..|dir|] == dir;
  }

  /** A file directly under the root has the root as its directory. */
  lemma DirnameAtRoot(name: string)
    requires '/' !in name
    ensures Dirname("/" + name) == "/"
  {
    var p := "/" + name;
    assert p[0] == '/';
    assert AfterLastSlash(p) == 1;
    assert p[..1] == "/";
  }
}
