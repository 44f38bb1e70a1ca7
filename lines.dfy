/** strip_newline: pick one line of a text split on '\n'. */
module Lines {
  import opened FileTypes

  /** The pieces of s between '\n' characters, for any s (one more piece
      than there are newlines). */
  function SplitLines(s: string): (segs: seq<string>)
    ensures |segs| >= 1
  {
    if s == [] then [[]]
    else
      var rest := SplitLines(s[1..]);
      if s[0] == '\n' then [[]] + rest
      else [[s[0]] + rest[0]] + rest[1..]
  }

  /** g_strsplit_set(s, "\n", -1): the pieces between '\n', except that the
      empty string splits into no pieces at all. */
  function Segments(s: string): (segs: seq<string>)
    ensures segs == [] <==> s == []
    ensures s != [] ==> Join(segs) == s && |segs| == CountNewlines(s) + 1
  {
    if s == [] then [] else SplitJoin(s); SplitLines(s)
  }

  /** The pieces put back together with '\n' between them. */
  function Join(segs: seq<string>): string
    requires |segs| >= 1
  {
    if |segs| == 1 then segs[0] else segs[0] + "\n" + Join(segs[1..])
  }

  function CountNewlines(s: string): nat
  {
    if s == [] then 0 else (if s[0] == '\n' then 1 else 0) + CountNewlines(s[1..])
  }

  predicate NoNewline(s: string)
  {
    forall i :: 0 <= i < |s| ==> s[i] != '\n'
  }

  /** Splitting loses nothing: the pieces joined with '\n' give back the text,
      no piece holds a '\n', and there is one piece more than newlines. */
  lemma {:induction false} SplitJoin(s: string)
    ensures Join(SplitLines(s)) == s
    ensures |SplitLines(s)| == CountNewlines(s) + 1
    ensures forall k :: 0 <= k < |SplitLines(s)| ==> NoNewline(SplitLines(s)[k])
  {
    if s != [] {
      var rest := SplitLines(s[1..]);
      SplitJoin(s[1..]);
      if s[0] == '\n' {
        assert SplitLines(s) == [[]] + rest;
        assert ([[]] + rest)[1..] == rest;
        assert s == [] + "\n" + s[1..];
      } else {
        var segs := [[s[0]] + rest[0]] + rest[1..];
        assert SplitLines(s) == segs;
        if |rest| == 1 {
          assert s == [s[0]] + rest[0];
        } else {
          assert segs[1..] == rest[1..];
          assert Join(rest) == rest[0] + "\n" + Join(rest[1..]);
          assert s == [s[0]] + s[1..];
        }
        forall k | 0 <= k < |segs| ensures NoNewline(segs[k]) {
          if k == 0 {
            assert NoNewline(rest[0]);
          } else {
            assert segs[k] == rest[k];
          }
        }
      }
    }
  }

  /** The other direction: newline-free pieces joined with '\n' split back
      into exactly those pieces. */
  lemma {:induction false} JoinSplit(segs: seq<string>)
    requires |segs| >= 1
    requires forall k :: 0 <= k < |segs| ==> NoNewline(segs[k])
    ensures SplitLines(Join(segs)) == segs
    decreases |segs|, |segs[0]|
  {
    var j := Join(segs);
    if segs[0] == [] {
      if |segs| > 1 {
        JoinSplit(segs[1..]);
        assert j == "\n" + Join(segs[1..]);
        assert j[1..] == Join(segs[1..]);
        assert [[]] + segs[1..] == segs;
      }
    } else {
      var c := segs[0][0];
      var tail := [segs[0][1..]] + segs[1..];
      assert NoNewline(segs[0][1..]) by {
        assert forall i :: 0 <= i < |segs[0][1..]| ==> segs[0][1..][i] == segs[0][i + 1];
      }
      assert forall k :: 0 <= k < |tail| ==> NoNewline(tail[k]) by {
        forall k | 0 <= k < |tail| ensures NoNewline(tail[k]) {
          if k > 0 { assert tail[k] == segs[k]; }
        }
      }
      JoinSplit(tail);
      assert tail[1..] == segs[1..];
      if |segs| == 1 {
        assert j == [c] + Join(tail);
      } else {
        assert Join(tail) == segs[0][1..] + "\n" + Join(segs[1..]);
        assert j == [c] + Join(tail);
      }
      assert j[0] == c && j[1..] == Join(tail);
      assert c != '\n';
      assert [c] + tail[0] == segs[0];
      assert [[c] + tail[0]] + tail[1..] == segs;
    }
  }

  /** strip_newline(s, line): a copy of piece number line of s split on '\n'
      (the first piece when line <= 0, because the counting loop never
      advances), or nothing when there is no such piece. */
  method StripNewline(s: string, line: int) returns (r: Option<string>)
    ensures r.Some? <==> |Segments(s)| > 0 && line < |Segments(s)|
    ensures r.Some? ==> r.value == Segments(s)[if line < 0 then 0 else line]
    ensures r.Some? ==> NoNewline(r.value)
  {
    var sl := Segments(s);
    var k := 0;
    while k < line && k < |sl|
      invariant 0 <= k <= |sl|
      invariant k == 0 || k <= line
    {
      k := k + 1;
    }
    if k < |sl| {
      SplitJoin(s);
      r := Some(sl[k]);
    } else {
      r := None;
    }
  }
}
