/** Path text: the "%s/%s" composition used throughout the file utility,
    and its inverse, splitting at the last '/'. */
module Paths {

  /** g_strdup_printf("%s/%s", parent, name). */
  function JoinPath(parent: string, name: string): string
  {
    parent + "/" + name
  }

  /** The text after the last '/' (all of p when it has none). */
  function BaseName(p: string): string
  {
    if p == [] then []
    else if p[|p| - 1] == '/' then []
    else BaseName(p[..|p| - 1]) + [p[|p| - 1]]
  }

  /** The text before the last '/' (empty when p has none). */
  function DirName(p: string): string
  {
    if p == [] then []
    else if p[|p| - 1] == '/' then p[..|p| - 1]
    else DirName(p[..|p| - 1])
  }

  /** Splitting a composed path at its last '/' gives back the parent and
      the name, provided the name itself holds no '/'. */
  lemma {:induction false} SplitJoinPath(parent: string, name: string)
    requires '/' !in name
    ensures BaseName(JoinPath(parent, name)) == name
    ensures DirName(JoinPath(parent, name)) == parent
    decreases |name|
  {
    var p := JoinPath(parent, name);
    if name == [] {
      assert p[|p| - 1] == '/' && p[..|p| - 1] == parent;
    } else {
      var init := name[..|name| - 1];
      assert '/' !in init by {
        forall i | 0 <= i < |init| ensures init[i] != '/' {
          assert init[i] == name[i];
        }
      }
      SplitJoinPath(parent, init);
      assert p[|p| - 1] == name[|name| - 1];
      assert p[..|p| - 1] == JoinPath(parent, init);
      assert init + [name[|name| - 1]] == name;
    }
  }
}
