/** Text as lines: splitting at line feeds and joining again. */
module Lines {

  function SplitLF(src: string): seq<string>
  {
    if src == [] then [[]]
    else
      var n := |src| - 1;
      var segs := SplitLF(src[..n]);
      if src[n] == '\n' then segs + [[]] else segs[..|segs| - 1] + [segs[|segs| - 1] + [src[n]]]
  }

  function JoinLF(segs: seq<string>): string
  {
    if segs == [] then []
    else if |segs| == 1 then segs[0]
    else JoinLF(segs[..|segs| - 1]) + "\n" + segs[|segs| - 1]
  }

  lemma {:induction false} SplitShape(src: string)
    ensures |SplitLF(src)| > 0 && forall seg <- SplitLF(src) :: '\n' !in seg
  {
    if src != [] { SplitShape(src[..|src| - 1]); }
  }

  lemma JoinSnoc(segs: seq<string>, seg: string)
    requires segs != []
    ensures JoinLF(segs + [seg]) == JoinLF(segs) + "\n" + seg
  {
    assert (segs + [seg])[..|segs|] == segs;
  }

  lemma JoinLast(front: seq<string>, last: string, more: string)
    ensures JoinLF(front + [last + more]) == JoinLF(front + [last]) + more
  {
    if front != [] {
      JoinSnoc(front, last + more);
      JoinSnoc(front, last);
    }
  }

  /** MAIN: joining the split lines gives the text back. */
  lemma {:induction false} JoinAfterSplit(src: string)
    ensures JoinLF(SplitLF(src)) == src
  {
    hide JoinLF;
    if src == [] {
      assert JoinLF([[]]) == [] by { JoinSingle([]); }
    } else {
      var n := |src| - 1;
      var segs := SplitLF(src[..n]);
      SplitShape(src[..n]);
      JoinAfterSplit(src[..n]);
      assert src == src[..n] + [src[n]];
      var m := |segs| - 1;
      if src[n] == '\n' {
        JoinSnoc(segs, []);
      } else {
        assert segs == segs[..m] + [segs[m]];
        JoinLast(segs[..m], segs[m], [src[n]]);
      }
    }
  }

  lemma JoinSingle(seg: string)
    ensures JoinLF([seg]) == seg
  {
  }

  lemma SplitStep(src: string, c: char, segs: seq<string>, last: string)
    requires SplitLF(src) == segs + [last]
    ensures SplitLF(src + [c]) == if c == '\n' then segs + [last] + [[]] else segs + [last + [c]]
  {
    assert (src + [c])[..|src|] == src && (segs + [last])[..|segs|] == segs;
  }

  lemma {:induction false} SplitAppend(src: string, seg: string)
    requires '\n' !in seg
    ensures |SplitLF(src)| > 0
    ensures var s := SplitLF(src); SplitLF(src + seg) == s[..|s| - 1] + [s[|s| - 1] + seg]
  {
    hide SplitLF;
    var s := SplitLF(src);
    SplitShape(src);
    var m := |s| - 1;
    if seg == [] {
      assert src + seg == src && s[m] + seg == s[m];
    } else {
      var n := |seg| - 1;
      assert seg[n] in seg;
      SplitAppend(src, seg[..n]);
      SplitStep(src + seg[..n], seg[n], s[..m], s[m] + seg[..n]);
      assert src + seg == src + seg[..n] + [seg[n]] && s[m] + seg[..n] + [seg[n]] == s[m] + seg;
    }
  }

  lemma SplitNewline(src: string)
    ensures SplitLF(src + "\n") == SplitLF(src) + [[]]
  {
    assert (src + "\n")[..|src|] == src;
  }

  /** MAIN: splitting joined lines gives the lines back. */
  lemma {:induction false} SplitAfterJoin(segs: seq<string>)
    requires segs != [] && forall seg <- segs :: '\n' !in seg
    ensures SplitLF(JoinLF(segs)) == segs
  {
    hide JoinLF, SplitLF;
    var n := |segs| - 1;
    assert segs[n] in segs && segs == segs[..n] + [segs[n]];
    if n == 0 {
      JoinSingle(segs[0]);
      SplitSingle(segs[0]);
    } else {
      SplitAfterJoin(segs[..n]);
      JoinSnoc(segs[..n], segs[n]);
      var front := JoinLF(segs[..n]);
      SplitNewline(front);
      SplitAppend(front + "\n", segs[n]);
      assert (segs[..n] + [[]])[..n] == segs[..n] && [] + segs[n] == segs[n];
    }
  }

  lemma SplitSingle(seg: string)
    requires '\n' !in seg
    ensures SplitLF(seg) == [seg]
  {
    SplitAppend("", seg);
    assert "" + seg == seg;
  }

}
