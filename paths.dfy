/**
 * `filepath.Join` and `filepath.Dir` on slash-separated paths, without the lexical cleaning
 * (`..`, `.`, repeated separators) that Go applies.
 */
module Paths {

  /** The index of the last '/' in `p`, or -1. */
  function LastSlash(p: string): (k: int)
    ensures -1 <= k < |p|
    ensures 0 <= k ==> p[k] == '/' && '/' !in p[k + 1..]
    ensures k == -1 ==> '/' !in p
  {
    if p == [] then -1
    else if p[|p| - 1] == '/' then |p| - 1
    else
      var k := LastSlash(p[..|p| - 1]);
      assert p[k + 1..] == p[..|p| - 1][k + 1..] + [p[|p| - 1]];
      k
  }

  function Join(dir: string, name: string): string {
    if dir == "" || dir == "." then name else dir + "/" + name
  }

  function Dir(path: string): string {
    var k := LastSlash(path);
    if k < 0 then "." else if k == 0 then "/" else path[..k]
  }

  /**
   * A file named in a directory has that directory as its own: this is what makes the
   * directives of an included file resolve against the included file's directory.
   */
  lemma DirOfJoin(dir: string, name: string)
    requires dir != "" && '/' !in name
    ensures Dir(Join(dir, name)) == dir
  {
    if dir != "." {
      var p := dir + "/" + name;
      assert p[|dir|] == '/' && p[|dir| + 1..] == name;
      assert LastSlash(p) == |dir|;
      assert p[..|dir|] == dir;
    }
  }
}
