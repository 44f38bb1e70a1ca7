/** The driver loop of fileutil_cp: one g_file_copy per listed entry. */
module Copy {
  import opened FileTypes
  import opened Paths
  import opened Listing

  /** What one pass of the copy loop does: the source and destination paths
      handed to g_file_copy, the result it reports, and which GError (named
      by the number of the pass that created it) the pass frees, if any. */
  datatype CopyStep = CopyStep(src: string, dest: string, ok: bool, freed: Option<nat>)

  /** The destination of an entry: the destination directory and the entry's
      base name, so nested entries all land directly in dest. */
  function DestPath(dest: string, e: FileProp2): string
  {
    JoinPath(dest, e.name)
  }

  /** No GError is freed twice over the whole run. */
  predicate FreedOnce(trace: seq<CopyStep>)
  {
    forall i, j :: 0 <= i < j < |trace| && trace[i].freed.Some? ==> trace[j].freed != trace[i].freed
  }

  /** The loop of fileutil_cp with the error variable cleared after each
      free (g_clear_error). Every entry is attempted, in list order, whatever
      earlier copies reported; g_file_copy's result for pass k is outcome(k),
      and it sets a fresh GError exactly when it reports failure. */
  method CopyEntries(entries: seq<FileProp2>, dest: string, outcome: nat -> bool)
    returns (trace: seq<CopyStep>)
    ensures |trace| == |entries|
    ensures forall k :: 0 <= k < |entries| ==>
      && trace[k].src == entries[k].path
      && trace[k].dest == DestPath(dest, entries[k])
      && trace[k].ok == outcome(k)
    ensures forall k :: 0 <= k < |entries| ==> (trace[k].freed.Some? <==> !outcome(k))
    ensures FreedOnce(trace)
  {
    trace := [];
    var error: Option<nat> := None;
    var k := 0;
    while k < |entries|
      invariant 0 <= k <= |entries|
      invariant error == None
      invariant |trace| == k
      invariant forall j :: 0 <= j < k ==>
        trace[j] == CopyStep(entries[j].path, DestPath(dest, entries[j]), outcome(j),
                             if outcome(j) then None else Some(j))
    {
      var prop := entries[k];
      var pathSrc := prop.path;
      var pathDest := JoinPath(dest, prop.name);
      var res := outcome(k);
      if !res {
        error := Some(k);
      }
      var freed := error;
      error := None;
      trace := trace + [CopyStep(pathSrc, pathDest, res, freed)];
      k := k + 1;
    }
  }

  /** The first pass, up to pass k, whose copy failed. */
  function FirstFailure(outcome: nat -> bool, k: nat): Option<nat>
  {
    if k > 0 && FirstFailure(outcome, k - 1).Some? then FirstFailure(outcome, k - 1)
    else if outcome(k) then None
    else Some(k)
  }

  /** The loop of fileutil_cp as written: the GError is freed but the
      variable keeps pointing at it. From the first failed pass on, the
      variable is never NULL again, no later GError is stored in it
      (GLib does not overwrite a set error), and every later pass frees that
      same first GError again. */
  method CopyEntriesAsWritten(entries: seq<FileProp2>, dest: string, outcome: nat -> bool)
    returns (trace: seq<CopyStep>)
    ensures |trace| == |entries|
    ensures forall k :: 0 <= k < |entries| ==>
      && trace[k].src == entries[k].path
      && trace[k].dest == DestPath(dest, entries[k])
      && trace[k].ok == outcome(k)
    ensures forall k :: 0 <= k < |entries| ==> trace[k].freed == FirstFailure(outcome, k)
  {
    trace := [];
    var error: Option<nat> := None;
    var k := 0;
    while k < |entries|
      invariant 0 <= k <= |entries|
      invariant |trace| == k
      invariant k > 0 ==> error == FirstFailure(outcome, k - 1)
      invariant k == 0 ==> error == None
      invariant forall j :: 0 <= j < k ==>
        trace[j] == CopyStep(entries[j].path, DestPath(dest, entries[j]), outcome(j), FirstFailure(outcome, j))
    {
      var prop := entries[k];
      var pathSrc := prop.path;
      var pathDest := JoinPath(dest, prop.name);
      var res := outcome(k);
      if error == None && !res {
        error := Some(k);
      }
      trace := trace + [CopyStep(pathSrc, pathDest, res, error)];
      k := k + 1;
    }
  }

  /** Once pass j has failed with every earlier pass succeeding, every pass
      from j on frees the GError of pass j. */
  lemma {:induction false} FirstFailureSticks(outcome: nat -> bool, j: nat, k: nat)
    requires j <= k
    requires !outcome(j)
    requires forall i :: 0 <= i < j ==> outcome(i)
    ensures FirstFailure(outcome, k) == Some(j)
  {
    if k == j {
      if j > 0 {
        NoFailureYet(outcome, j - 1);
      }
    } else {
      FirstFailureSticks(outcome, j, k - 1);
    }
  }

  lemma {:induction false} NoFailureYet(outcome: nat -> bool, k: nat)
    requires forall i :: 0 <= i <= k ==> outcome(i)
    ensures FirstFailure(outcome, k) == None
  {
    if k > 0 {
      NoFailureYet(outcome, k - 1);
    }
  }

  /** Two entries whose first copy fails: the as-written loop frees the
      first pass's GError on both passes. */
  lemma StaleErrorFreedTwice(outcome: nat -> bool)
    requires !outcome(0)
    ensures FirstFailure(outcome, 0) == Some(0) && FirstFailure(outcome, 1) == Some(0)
  {
  }

  /** fileutil_cp(src, dest) with the error cleared after each free: list
      the source tree recursively; an empty listing does nothing; otherwise
      every entry is copied by the corrected loop.
      srcRoot is the tree at src and srcPath the path GIO reports for it. */
  method Cp(srcRoot: Node, srcPath: string, dest: string, outcome: nat -> bool)
    returns (trace: seq<CopyStep>)
    ensures var entries := Listed(srcRoot, srcPath, true);
      && |trace| == |entries|
      && forall k :: 0 <= k < |entries| ==>
        && trace[k].src == entries[k].path
        && trace[k].dest == DestPath(dest, entries[k])
        && trace[k].ok == outcome(k)
    ensures trace == [] <==> srcRoot.kind == TypeDirectory && srcRoot.children == []
    ensures FreedOnce(trace)
  {
    var list := Ls(srcRoot, srcPath, true);
    LsEmptyIff(srcRoot, srcPath, true);
    if list == [] {
      return [];
    }
    trace := CopyEntries(list, dest, outcome);
  }

  /** fileutil_cp(src, dest) as written: the same listing and the same
      passes as Cp, but with the error variable never cleared, so every pass
      from the first failed one on frees that pass's GError again. */
  method CpAsWritten(srcRoot: Node, srcPath: string, dest: string, outcome: nat -> bool)
    returns (trace: seq<CopyStep>)
    ensures var entries := Listed(srcRoot, srcPath, true);
      && |trace| == |entries|
      && forall k :: 0 <= k < |entries| ==>
        && trace[k].src == entries[k].path
        && trace[k].dest == DestPath(dest, entries[k])
        && trace[k].ok == outcome(k)
        && trace[k].freed == FirstFailure(outcome, k)
    ensures trace == [] <==> srcRoot.kind == TypeDirectory && srcRoot.children == []
  {
    var list := Ls(srcRoot, srcPath, true);
    LsEmptyIff(srcRoot, srcPath, true);
    if list == [] {
      return [];
    }
    trace := CopyEntriesAsWritten(list, dest, outcome);
  }

  /** Flattening: a file "x" beside a directory "a" holding another "x" gives
      two entries with different source paths and the same destination. */
  lemma NestedEntriesCollide(dest: string)
    ensures var inner := Node("x", TypeRegular, 0, []);
      var sub := Node("a", TypeDirectory, 0, [inner]);
      var root := Node("r", TypeDirectory, 0, [sub, inner]);
      var entries := Listed(root, "/r", true);
      && |entries| == 3
      && entries[1].path == "/r/a/x" && entries[2].path == "/r/x"
      && DestPath(dest, entries[1]) == DestPath(dest, entries[2])
  {
    var inner := Node("x", TypeRegular, 0, []);
    var sub := Node("a", TypeDirectory, 0, [inner]);
    var root := Node("r", TypeDirectory, 0, [sub, inner]);
    assert GetProp(sub, Some("/r")).path == "/r/a";
    assert Visit(inner, "/r/a", true) == [GetProp(inner, Some("/r/a"))];
    assert ListChildren(sub, "/r/a", true, 1) == ListChildren(sub, "/r/a", true, 0) + Visit(inner, "/r/a", true);
    assert Walk(sub, "/r/a", true) == [GetProp(inner, Some("/r/a"))];
    assert Visit(sub, "/r", true) == [GetProp(sub, Some("/r")), GetProp(inner, Some("/r/a"))];
    assert ListChildren(root, "/r", true, 1) == Visit(sub, "/r", true);
    assert Visit(inner, "/r", true) == [GetProp(inner, Some("/r"))];
    assert GetProp(inner, Some("/r/a")).path == "/r/a/x";
    assert GetProp(inner, Some("/r")).path == "/r/x";
  }
}
