/** Building entry lists: the flat lstat-based fileutil_dir_list and the
    GIO-based enumeration fileutil_ls / fileutil_ls_dir / fileutil_get_prop. */
module Listing {
  import opened FileTypes
  import opened Probe
  import opened Paths

  // ---------------------------------------------------------------------
  // fileutil_dir_list
  // ---------------------------------------------------------------------

  /** The entry fileutil_dir_list builds for one name read from the
      directory at path: the composed path, and what lstat says about it. */
  function DirEntry(fs: map<string, Stat>, path: string, name: string): FileProp
  {
    var p := JoinPath(path, name);
    FileProp(name, p, GetSize(fs, p), GetType(fs, p))
  }

  /** fileutil_dir_list(path, recursive): one entry per name the directory
      listing yields, in listing order; an unopenable directory (None) gives
      no entries. The recursive flag is ignored, so it never descends.
      The listing and lstat are the filesystem, given as inputs. */
  method DirList(path: string, recursive: bool, listing: Option<seq<string>>, fs: map<string, Stat>)
    returns (r: seq<FileProp>)
    ensures listing.None? ==> r == []
    ensures listing.Some? ==> |r| == |listing.value|
    ensures listing.Some? ==> forall k :: 0 <= k < |r| ==>
      r[k].name == listing.value[k] && r[k].path == JoinPath(path, listing.value[k])
    ensures listing.Some? ==> forall k :: 0 <= k < |r| ==> r[k] == DirEntry(fs, path, listing.value[k])
  {
    r := [];
    if listing.None? {
      return;
    }
    var names := listing.value;
    var fid := 0;
    while fid < |names|
      invariant 0 <= fid <= |names|
      invariant |r| == fid
      invariant forall k :: 0 <= k < fid ==> r[k] == DirEntry(fs, path, names[k])
    {
      var fname := names[fid];
      var filePath := JoinPath(path, fname);
      var file := FileProp(fname, filePath, GetSize(fs, filePath), GetType(fs, filePath));
      r := r + [file];
      fid := fid + 1;
    }
  }

  // ---------------------------------------------------------------------
  // fileutil_get_prop
  // ---------------------------------------------------------------------

  /** fileutil_get_prop(info, parent): name, size and type as the info
      reports them, and the path "parent/name", or "./name" without a parent. */
  function GetProp(info: Node, parent: Option<string>): (e: FileProp2)
    ensures e.name == info.name && e.size == info.size && e.kind == info.kind
    ensures parent.Some? ==> e.path == JoinPath(parent.value, info.name)
    ensures parent.None? ==> e.path == "./" + info.name
  {
    var path := if parent.Some? then JoinPath(parent.value, info.name) else "./" + info.name;
    FileProp2(info.name, path, info.size, info.kind)
  }

  /** The path get_prop builds splits back into the parent ("." without one)
      and the entry's name, when the name holds no '/'. */
  lemma GetPropPathSplits(info: Node, parent: Option<string>)
    requires '/' !in info.name
    ensures var e := GetProp(info, parent);
      e.name == info.name && e.size == info.size && e.kind == info.kind
      && BaseName(e.path) == info.name
      && DirName(e.path) == (if parent.Some? then parent.value else ".")
  {
    if parent.Some? {
      SplitJoinPath(parent.value, info.name);
    } else {
      assert "./" + info.name == JoinPath(".", info.name);
      SplitJoinPath(".", info.name);
    }
  }

  // ---------------------------------------------------------------------
  // fileutil_ls_dir: specification
  // ---------------------------------------------------------------------

  /** Whether ls_dir descends into a child with entry e. */
  predicate Descends(e: FileProp2, recursive: bool)
  {
    e.kind == TypeDirectory && recursive
  }

  /** What ls_dir appends for one child of the directory at parentPath:
      the child's own entry, then (pre-order) everything below it when it
      reports itself as a directory and the walk is recursive. */
  function Visit(child: Node, parentPath: string, recursive: bool): seq<FileProp2>
    decreases child, |child.children| + 1
  {
    var e := GetProp(child, Some(parentPath));
    [e] + if Descends(e, recursive) then ListChildren(child, e.path, recursive, |child.children|) else []
  }

  /** What ls_dir appends for the first i children of dir, whose path is
      dirPath: each child's Visit, one after the other. */
  function ListChildren(dir: Node, dirPath: string, recursive: bool, i: nat): seq<FileProp2>
    requires i <= |dir.children|
    decreases dir, i
  {
    if i == 0 then []
    else ListChildren(dir, dirPath, recursive, i - 1) + Visit(dir.children[i - 1], dirPath, recursive)
  }

  /** Everything ls_dir appends for dir. */
  function Walk(dir: Node, dirPath: string, recursive: bool): seq<FileProp2>
  {
    ListChildren(dir, dirPath, recursive, |dir.children|)
  }

  // ---------------------------------------------------------------------
  // fileutil_ls_dir and fileutil_ls
  // ---------------------------------------------------------------------

  /** fileutil_ls_dir(dir, recursive, acc): the incoming list is kept as it
      is, and the walk of dir is appended after it. */
  method LsDir(dir: Node, dirPath: string, recursive: bool, acc: seq<FileProp2>)
    returns (r: seq<FileProp2>)
    ensures r == acc + Walk(dir, dirPath, recursive)
    decreases dir
  {
    r := acc;
    var i := 0;
    while i < |dir.children|
      invariant 0 <= i <= |dir.children|
      invariant r == acc + ListChildren(dir, dirPath, recursive, i)
    {
      var child := dir.children[i];
      var prop := GetProp(child, Some(dirPath));
      r := r + [prop];
      if prop.kind == TypeDirectory && recursive {
        r := LsDir(child, prop.path, recursive, r);
      }
      assert Visit(child, dirPath, recursive) == [prop] +
        if Descends(prop, recursive) then Walk(child, prop.path, recursive) else [];
      i := i + 1;
    }
  }

  /** What fileutil_ls returns for a root: the walk of the root when it
      queries as a directory, and otherwise the root's own entry alone. */
  function Listed(root: Node, rootPath: string, recursive: bool): seq<FileProp2>
  {
    if root.kind == TypeDirectory then Walk(root, rootPath, recursive)
    else [GetProp(root, None)]
  }

  /** fileutil_ls(path, recursive). rootPath is the path GIO reports for the
      root (g_file_get_path); the root's type is its queried type. */
  method Ls(root: Node, rootPath: string, recursive: bool) returns (r: seq<FileProp2>)
    ensures r == Listed(root, rootPath, recursive)
    ensures root.kind != TypeDirectory ==> |r| == 1 && r[0].path == "./" + root.name
  {
    if root.kind == TypeDirectory {
      r := LsDir(root, rootPath, recursive, []);
    } else {
      var prop := GetProp(root, None);
      r := [prop];
    }
  }

  // ---------------------------------------------------------------------
  // Properties of the enumeration
  // ---------------------------------------------------------------------

  /** Without recursion, the listing is exactly the immediate children, in
      enumerator order, each with path "dirPath/name". */
  lemma {:induction false} NonRecursiveIsChildren(dir: Node, dirPath: string, i: nat)
    requires i <= |dir.children|
    ensures |ListChildren(dir, dirPath, false, i)| == i
    ensures forall k :: 0 <= k < i ==>
      ListChildren(dir, dirPath, false, i)[k] == GetProp(dir.children[k], Some(dirPath))
  {
    if i > 0 {
      NonRecursiveIsChildren(dir, dirPath, i - 1);
    }
  }

  /** An entry path starts with "dirPath/" and ends with "/name". */
  predicate Below(e: FileProp2, dirPath: string)
  {
    && dirPath + "/" <= e.path
    && |"/" + e.name| <= |e.path|
    && e.path[|e.path| - |"/" + e.name|..] == "/" + e.name
  }

  lemma PrefixOfLonger<T>(a: seq<T>, b: seq<T>, c: seq<T>)
    requires a <= b
    ensures a <= b + c
  {
  }

  /** Every entry the walk of dir appends lies below dirPath: its path
      never escapes the directory, and ends with its own name. */
  lemma {:induction false} ListedBelow(dir: Node, dirPath: string, recursive: bool, i: nat)
    requires i <= |dir.children|
    ensures forall e :: e in ListChildren(dir, dirPath, recursive, i) ==> Below(e, dirPath)
    decreases dir, i
  {
    if i > 0 {
      ListedBelow(dir, dirPath, recursive, i - 1);
      VisitedBelow(dir.children[i - 1], dirPath, recursive);
    }
  }

  lemma {:induction false} VisitedBelow(child: Node, parentPath: string, recursive: bool)
    ensures forall e :: e in Visit(child, parentPath, recursive) ==> Below(e, parentPath)
    decreases child, |child.children| + 1
  {
    var e := GetProp(child, Some(parentPath));
    assert e.path == (parentPath + "/") + child.name;
    assert Below(e, parentPath);
    if Descends(e, recursive) {
      ListedBelow(child, e.path, recursive, |child.children|);
      forall x | x in Walk(child, e.path, recursive) ensures Below(x, parentPath) {
        PrefixOfLonger(parentPath + "/", e.path, "/");
      }
    }
  }

  /** Entries are only ever appended: the listing of the first k children
      is a prefix of the listing of the first i >= k children. */
  lemma {:induction false} ListingGrows(dir: Node, dirPath: string, recursive: bool, k: nat, i: nat)
    requires k <= i <= |dir.children|
    ensures ListChildren(dir, dirPath, recursive, k) <= ListChildren(dir, dirPath, recursive, i)
    decreases i
  {
    if k < i {
      ListingGrows(dir, dirPath, recursive, k, i - 1);
      PrefixOfLonger(ListChildren(dir, dirPath, recursive, k), ListChildren(dir, dirPath, recursive, i - 1),
        Visit(dir.children[i - 1], dirPath, recursive));
    }
  }

  /** Pre-order: child k's own entry stands right after everything listed
      for the children before it, so it precedes its own subtree, and that
      subtree ends before child k+1's entry. In the listing of the first i
      children the children's entries appear at strictly increasing places. */
  lemma ChildEntryAt(dir: Node, dirPath: string, recursive: bool, k: nat, i: nat)
    requires k < i <= |dir.children|
    ensures |ListChildren(dir, dirPath, recursive, k)| < |ListChildren(dir, dirPath, recursive, k + 1)|
    ensures |ListChildren(dir, dirPath, recursive, k + 1)| <= |ListChildren(dir, dirPath, recursive, i)|
    ensures ListChildren(dir, dirPath, recursive, i)[|ListChildren(dir, dirPath, recursive, k)|]
      == GetProp(dir.children[k], Some(dirPath))
  {
    var before := ListChildren(dir, dirPath, recursive, k);
    var upto := ListChildren(dir, dirPath, recursive, k + 1);
    assert upto == before + Visit(dir.children[k], dirPath, recursive);
    assert upto[|before|] == GetProp(dir.children[k], Some(dirPath));
    ListingGrows(dir, dirPath, recursive, k + 1, i);
  }

  /** The walk of a directory is empty exactly when it has no children. */
  lemma WalkEmptyIff(dir: Node, dirPath: string, recursive: bool, i: nat)
    requires i <= |dir.children|
    ensures ListChildren(dir, dirPath, recursive, i) == [] <==> i == 0
  {
  }

  /** fileutil_ls yields nothing exactly for a root that queries as a
      directory and has no children; any other root gives at least one entry. */
  lemma LsEmptyIff(root: Node, rootPath: string, recursive: bool)
    ensures Listed(root, rootPath, recursive) == [] <==> root.kind == TypeDirectory && root.children == []
  {
    if root.kind == TypeDirectory {
      WalkEmptyIff(root, rootPath, recursive, |root.children|);
    }
  }
}
