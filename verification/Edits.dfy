/**
  Rename edits: single-line replacements, grouped by line in a map, applied right to left on each row.
  Rows are sequences of code points; an edit's positions are counted in UTF-16 units.
 */
module Edits {

  import opened Wrappers
  import opened Lines
  import opened Sequences
  import opened Escapes
  import opened Quoting

  datatype Edit = Edit(line: int, endLine: int, start: int, end: int, text: string)

  // ----- Lines -----

  lemma PrefixSnoc(src: string, i: nat)
    requires i < |src|
    ensures src[..i + 1] == src[..i] + [src[i]]
  {
  }

  lemma SliceSnoc(src: string, lo: nat, i: nat)
    requires lo <= i < |src|
    ensures src[lo..i + 1] == src[lo..i] + [src[i]]
  {
  }

  lemma SplitNothing(src: string)
    ensures SplitLF(src[..0]) == [] + [src[0..0]]
  {
  }

  lemma WholeSlice(src: string, lo: nat)
    requires lo <= |src|
    ensures src[..|src|] == src && src[lo..|src|] == src[lo..]
  {
  }

  lemma EmptySlice(src: string, i: nat)
    requires i <= |src|
    ensures src[i..i] == []
  {
  }

  method SplitKeepCR(src: string) returns (segs: seq<string>)
    ensures segs == SplitLF(src)
  {
    hide *;
    segs := [];
    var start := 0;
    SplitNothing(src);
    for i := 0 to |src|
      invariant 0 <= start <= i
      invariant SplitLF(src[..i]) == segs + [src[start..i]]
    {
      SplitStep(src[..i], src[i], segs, src[start..i]);
      PrefixSnoc(src, i);
      if src[i] == '\n' {
        segs := segs + [src[start..i]];
        start := i + 1;
        EmptySlice(src, start);
      } else {
        SliceSnoc(src, start, i);
      }
    }
    WholeSlice(src, start);
    segs := segs + [src[start..]];
  }

  method JoinSegments(segs: seq<string>) returns (out: string)
    ensures out == JoinLF(segs)
  {
    out := [];
    for i := 0 to |segs|
      invariant out == JoinLF(segs[..i])
    {
      assert segs[..i + 1][..i] == segs[..i];
      if i > 0 { out := out + "\n"; }
      out := out + segs[i];
    }
    assert segs[..|segs|] == segs;
  }

  // ----- Positions -----

  /** UTF-16 units of one code point. */
  function Units(c: char): nat
  {
    if c as int >= 0x10000 then 2 else 1
  }

  /** The index of the first code point at or after `target` units, the row's length if there is none. */
  function Offset(row: string, target: int): (i: nat)
    ensures i <= |row|
  {
    if target <= 0 || row == [] then 0 else 1 + Offset(row[1..], target - Units(row[0]))
  }

  /** The UTF-16 units of a code point: itself, or a surrogate pair beyond the basic plane. */
  function CharUnits(c: char): seq<nat>
  {
    var v := c as int;
    if v < 0x10000 then [v] else [HighHalf(v), LowHalf(v)]
  }

  function Utf16(row: string): seq<nat>
  {
    if row == "" then [] else CharUnits(row[0]) + Utf16(row[1..])
  }

  /** A cut of the row at i reaches the target, or one past it when the target falls inside a pair. */
  predicate CutsAt(row: string, target: nat, i: nat)
    requires i <= |row|
  {
    var units := Utf16(row[..i]);
    && Utf16(row) == units + Utf16(row[i..]) && target <= |units| <= target + 1
    && (|units| == target + 1 ==> target > 0 && IsLowSurrogate(Utf16(row)[target]))
  }

  lemma CutAtStart(row: string)
    ensures CutsAt(row, 0, 0)
  {
    assert row[..0] == "" && row[0..] == row;
  }

  lemma CutInside(row: string, target: nat)
    requires row != "" && 0 < target < |CharUnits(row[0])|
    ensures CutsAt(row, target, 1)
  {
    FirstUnits(row);
    hide Utf16;
    assert Utf16(row)[target] == CharUnits(row[0])[target];
  }

  lemma FirstUnits(row: string)
    requires row != ""
    ensures Utf16(row[..1]) == CharUnits(row[0]) && Utf16(row) == CharUnits(row[0]) + Utf16(row[1..])
  {
    hide CharUnits;
    assert row[..1][1..] == "" && row[..1][0] == row[0];
    assert Utf16("") == [] && CharUnits(row[0]) + [] == CharUnits(row[0]);
  }

  lemma CutLater(row: string, target: nat, i: nat)
    requires row != "" && |CharUnits(row[0])| <= target && i <= |row| - 1 && CutsAt(row[1..], target - |CharUnits(row[0])|, i)
    ensures CutsAt(row, target, 1 + i)
  {
    hide CharUnits;
    var head := CharUnits(row[0]);
    assert row[..1 + i][1..] == row[1..][..i] && row[..1 + i][0] == row[0] && row[1 + i..] == row[1..][i..];
    assert Utf16(row[..1 + i]) == head + Utf16(row[1..][..i]);
    if |Utf16(row[1..][..i])| == target - |head| + 1 {
      assert Utf16(row)[target] == Utf16(row[1..])[target - |head|];
    }
  }

  /** MAIN: an offset in a row counts UTF-16 units; one inside a surrogate pair cuts after the pair. */
  lemma {:induction false} OffsetCuts(row: string, target: nat)
    requires target <= |Utf16(row)|
    ensures CutsAt(row, target, Offset(row, target))
  {
    hide CutsAt;
    if target == 0 {
      CutAtStart(row);
    } else {
      UnitsAre(row[0]);
      if target < |CharUnits(row[0])| {
        assert Offset(row[1..], target - Units(row[0])) == 0;
        CutInside(row, target);
      } else {
        OffsetCuts(row[1..], target - Units(row[0]));
        CutLater(row, target, Offset(row[1..], target - Units(row[0])));
      }
    }
  }

  lemma UnitsAre(c: char)
    ensures Units(c) == |CharUnits(c)|
  {
  }

  lemma {:induction false} OffsetGrows(row: string, a: int, b: int)
    requires a <= b
    ensures Offset(row, a) <= Offset(row, b)
  {
    if a > 0 && row != [] { OffsetGrows(row[1..], a - Units(row[0]), b - Units(row[0])); }
  }

  // ----- One row -----

  function InsertDesc(ds: seq<Edit>, e: Edit): seq<Edit>
  {
    if ds == [] then [e]
    else if e.start > ds[|ds| - 1].start then InsertDesc(ds[..|ds| - 1], e) + [ds[|ds| - 1]]
    else ds + [e]
  }

  /** The stable sort by descending start. */
  function SortDesc(es: seq<Edit>): seq<Edit>
  {
    if es == [] then [] else InsertDesc(SortDesc(es[..|es| - 1]), es[|es| - 1])
  }

  /** The edits that start at a position, in their order. */
  function StartingAt(es: seq<Edit>, start: int): seq<Edit>
  {
    if es == [] then [] else StartingAt(es[..|es| - 1], start) + (if es[|es| - 1].start == start then [es[|es| - 1]] else [])
  }

  lemma {:induction false} InsertKeepsOrder(ds: seq<Edit>, e: Edit, start: int)
    ensures StartingAt(InsertDesc(ds, e), start) == StartingAt(ds, start) + (if e.start == start then [e] else [])
  {
    InsertStep(ds, e);
    hide InsertDesc, StartingAt;
    if ds == [] {
      StartingSnoc([], e, start);
      assert [] + [e] == [e];
    } else if e.start > ds[|ds| - 1].start {
      var n := |ds| - 1;
      InsertKeepsOrder(ds[..n], e, start);
      StartingSnoc(InsertDesc(ds[..n], e), ds[n], start);
      StartingSnoc(ds[..n], ds[n], start);
      assert ds[..n] + [ds[n]] == ds;
    } else {
      StartingSnoc(ds, e, start);
    }
  }

  lemma StartingSnoc(es: seq<Edit>, e: Edit, start: int)
    ensures StartingAt(es + [e], start) == StartingAt(es, start) + (if e.start == start then [e] else [])
  {
    assert (es + [e])[..|es|] == es;
  }

  lemma InsertStep(ds: seq<Edit>, e: Edit)
    ensures InsertDesc(ds, e) ==
      if ds != [] && e.start > ds[|ds| - 1].start then InsertDesc(ds[..|ds| - 1], e) + [ds[|ds| - 1]] else ds + [e]
  {
  }

  /** MAIN: edits that start at the same position stay in the order they are listed in. */
  lemma {:induction false} SortIsStable(es: seq<Edit>, start: int)
    ensures StartingAt(SortDesc(es), start) == StartingAt(es, start)
  {
    if es != [] {
      SortIsStable(es[..|es| - 1], start);
      InsertKeepsOrder(SortDesc(es[..|es| - 1]), es[|es| - 1], start);
    }
  }

  /** Splices the edits in the given order into a buffer, offsets taken from the original row. */
  function Spliced(row: string, buf: string, ds: seq<Edit>): Option<string>
    decreases |ds|
  {
    if ds == [] then Some(buf)
    else
      var s, e := Offset(row, ds[0].start), Offset(row, ds[0].end);
      if e > |buf| || s > e then None
      else Spliced(row, buf[..s] + ds[0].text + buf[e..], ds[1..])
  }

  function EndsInCR(seg: string): bool
  {
    |seg| > 0 && seg[|seg| - 1] == '\r'
  }

  function RowOf(seg: string): string
  {
    if EndsInCR(seg) then seg[..|seg| - 1] else seg
  }

  function SplicedLine(seg: string, es: seq<Edit>): Option<string>
  {
    match Spliced(RowOf(seg), RowOf(seg), SortDesc(es))
    case None => None
    case Some(buf) => Some(if EndsInCR(seg) then buf + "\r" else buf)
  }

  /** All replacements at once: the text between the ranges is the row's own. */
  function Replaced(row: string, asc: seq<Edit>, from: nat, upto: nat): string
    requires from <= upto <= |row| && InOrder(row, asc, from, upto)
  {
    if asc == [] then row[from..upto]
    else
      row[from..Offset(row, asc[0].start)] + asc[0].text + Replaced(row, asc[1..], Offset(row, asc[0].end), upto)
  }

  /** The ranges lie between the two offsets, one after the other. */
  predicate InOrder(row: string, asc: seq<Edit>, from: nat, upto: nat)
  {
    if asc == [] then from <= upto
    else from <= Offset(row, asc[0].start) <= Offset(row, asc[0].end) <= upto && InOrder(row, asc[1..], Offset(row, asc[0].end), upto)
  }

  function Reversed(es: seq<Edit>): (r: seq<Edit>)
    ensures |r| == |es|
  {
    if es == [] then [] else Reversed(es[1..]) + [es[0]]
  }

  lemma {:induction false} InOrderSnoc(row: string, asc: seq<Edit>, e: Edit, from: nat, upto: nat)
    ensures InOrder(row, asc + [e], from, upto) <==>
            InOrder(row, asc, from, Offset(row, e.start)) && Offset(row, e.start) <= Offset(row, e.end) <= upto
  {
    if asc != [] {
      InOrderSnoc(row, asc[1..], e, Offset(row, asc[0].end), upto);
      assert (asc + [e])[1..] == asc[1..] + [e];
    } else {
      assert ([] + [e])[1..] == [];
    }
  }

  lemma {:induction false} ReplacedSnoc(row: string, asc: seq<Edit>, e: Edit, from: nat, upto: nat)
    requires from <= upto <= |row| && InOrder(row, asc + [e], from, upto)
    ensures InOrder(row, asc, from, Offset(row, e.start)) && from <= Offset(row, e.start) && Offset(row, e.end) <= upto
    ensures Replaced(row, asc + [e], from, upto) ==
            Replaced(row, asc, from, Offset(row, e.start)) + e.text + row[Offset(row, e.end)..upto]
  {
    hide Offset;
    InOrderSnoc(row, asc, e, from, upto);
    if asc == [] {
      assert ([] + [e])[1..] == [];
    } else {
      var mid := Offset(row, asc[0].end);
      var head := row[from..Offset(row, asc[0].start)] + asc[0].text;
      assert (asc + [e])[1..] == asc[1..] + [e] && (asc + [e])[0] == asc[0];
      ReplacedSnoc(row, asc[1..], e, mid, upto);
      var rest, tail := Replaced(row, asc[1..], mid, Offset(row, e.start)), row[Offset(row, e.end)..upto];
      hide *;
      Assoc(rest, e.text, tail);
      Assoc(head, rest, e.text + tail);
      Assoc(head + rest, e.text, tail);
    }
  }

  /** What lies to the right of the ranges still to do does not disturb them. */
  lemma {:induction false} SplicedIsReplaced(row: string, ds: seq<Edit>, upto: nat, tail: string)
    requires upto <= |row| && InOrder(row, Reversed(ds), 0, upto)
    ensures Spliced(row, row[..upto] + tail, ds) == Some(Replaced(row, Reversed(ds), 0, upto) + tail)
  {
    if ds != [] {
      var s, e := Offset(row, ds[0].start), Offset(row, ds[0].end);
      var rest := Reversed(ds[1..]);
      InOrderSnoc(row, rest, ds[0], 0, upto);
      ReplacedSnoc(row, rest, ds[0], 0, upto);
      var buf := row[..upto] + tail;
      var more := ds[0].text + row[e..upto] + tail;
      assert buf[..s] + ds[0].text + buf[e..] == row[..s] + more;
      SplicedIsReplaced(row, ds[1..], s, more);
      assert Replaced(row, rest, 0, s) + more == Replaced(row, Reversed(ds), 0, upto) + tail;
    }
  }

  // ----- Sorting -----

  /** Starts differ, and of two ranges one ends before the other starts. */
  predicate Apart(a: Edit, b: Edit)
  {
    a.start != b.start && (a.end <= b.start || b.end <= a.start)
  }

  predicate Separate(es: seq<Edit>)
  {
    && (forall e <- es :: e.start <= e.end)
    && (forall i, j | 0 <= i < |es| && 0 <= j < |es| && i != j :: Apart(es[i], es[j]))
  }

  predicate Descending(ds: seq<Edit>)
  {
    forall i, j | 0 <= i < j < |ds| :: ds[i].start > ds[j].start
  }

  lemma {:induction false} InsertMembers(ds: seq<Edit>, e: Edit)
    ensures multiset(InsertDesc(ds, e)) == multiset(ds) + multiset{e}
    ensures forall d <- InsertDesc(ds, e) :: d == e || d in ds
  {
    if ds != [] {
      var n := |ds| - 1;
      assert ds == ds[..n] + [ds[n]];
      InsertMembers(ds[..n], e);
    }
  }

  lemma DescendingSnoc(ds: seq<Edit>, e: Edit)
    requires Descending(ds) && forall d <- ds :: d.start > e.start
    ensures Descending(ds + [e])
  {
  }

  lemma DescendingSplit(ds: seq<Edit>, n: nat)
    requires Descending(ds) && n + 1 == |ds|
    ensures Descending(ds[..n]) && ds[n] in ds && ds == ds[..n] + [ds[n]]
    ensures forall d <- ds[..n] :: d in ds && d.start > ds[n].start
  {
  }

  lemma {:induction false} InsertSorts(ds: seq<Edit>, e: Edit)
    requires Descending(ds) && forall d <- ds :: d.start != e.start
    ensures Descending(InsertDesc(ds, e))
  {
    if ds == [] {
      assert Descending([e]);
    } else {
      var n := |ds| - 1;
      DescendingSplit(ds, n);
      hide Descending;
      if e.start > ds[n].start {
        InsertSorts(ds[..n], e);
        InsertMembers(ds[..n], e);
        DescendingSnoc(InsertDesc(ds[..n], e), ds[n]);
      } else {
        assert ds[n].start > e.start;
        DescendingSnoc(ds, e);
      }
    }
  }

  lemma {:induction false} SortSorts(es: seq<Edit>)
    requires forall i, j | 0 <= i < |es| && 0 <= j < |es| && i != j :: es[i].start != es[j].start
    ensures Descending(SortDesc(es)) && multiset(SortDesc(es)) == multiset(es)
  {
    if es != [] {
      var n := |es| - 1;
      SortSorts(es[..n]);
      assert es == es[..n] + [es[n]];
      forall d <- SortDesc(es[..n]) ensures d.start != es[n].start {
        assert d in multiset(es[..n]);
        var i :| 0 <= i < n && es[i] == d;
      }
      InsertSorts(SortDesc(es[..n]), es[n]);
      InsertMembers(SortDesc(es[..n]), es[n]);
    }
  }

  lemma FirstIsGreatest(ds: seq<Edit>, e: Edit)
    requires Descending(ds) && e in ds
    ensures e == ds[0] || e.start < ds[0].start
  {
  }

  lemma SameTails(a: seq<Edit>, b: seq<Edit>)
    requires a != [] && b != [] && a[0] == b[0] && multiset(a) == multiset(b)
    ensures multiset(a[1..]) == multiset(b[1..])
  {
    assert a == [a[0]] + a[1..] && b == [b[0]] + b[1..];
    assert multiset(a[1..]) == multiset(a) - multiset{a[0]};
  }

  lemma SameFirst(a: seq<Edit>, b: seq<Edit>)
    requires Descending(a) && Descending(b) && a != [] && b != [] && multiset(a) == multiset(b)
    ensures a[0] == b[0]
  {
    assert a[0] in multiset(b) && b[0] in multiset(a);
    FirstIsGreatest(a, b[0]);
    FirstIsGreatest(b, a[0]);
  }

  lemma SameFromTail(a: seq<Edit>, b: seq<Edit>)
    requires a != [] && b != [] && a[0] == b[0] && a[1..] == b[1..]
    ensures a == b
  {
    assert a == [a[0]] + a[1..] && b == [b[0]] + b[1..];
  }

  lemma DescendingTail(ds: seq<Edit>)
    requires Descending(ds) && ds != []
    ensures Descending(ds[1..])
  {
  }

  lemma SameLength(a: seq<Edit>, b: seq<Edit>)
    requires multiset(a) == multiset(b)
    ensures |a| == |b|
  {
    assert |multiset(a)| == |a| && |multiset(b)| == |b|;
  }

  /** Descending order determines the sequence. */
  lemma {:induction false} DescendingUnique(a: seq<Edit>, b: seq<Edit>)
    requires Descending(a) && Descending(b) && multiset(a) == multiset(b)
    ensures a == b
  {
    hide Descending;
    SameLength(a, b);
    if a != [] {
      SameFirst(a, b);
      SameTails(a, b);
      DescendingTail(a);
      DescendingTail(b);
      DescendingUnique(a[1..], b[1..]);
      SameFromTail(a, b);
    }
  }

  /** Separate edits, rightmost first, are in order when read backwards. */
  lemma {:induction false} DescendingInOrder(row: string, ds: seq<Edit>, upto: nat)
    requires Descending(ds) && Separate(ds) && (ds != [] ==> Offset(row, ds[0].end) <= upto)
    ensures InOrder(row, Reversed(ds), 0, upto)
  {
    if ds != [] {
      assert ds[0] in ds;
      OffsetGrows(row, ds[0].start, ds[0].end);
      if |ds| > 1 {
        assert Apart(ds[0], ds[1]) && ds[1] in ds && ds[0].start > ds[1].start;
        OffsetGrows(row, ds[1].end, ds[0].start);
      }
      DescendingInOrder(row, ds[1..], Offset(row, ds[0].start));
      InOrderSnoc(row, Reversed(ds[1..]), ds[0], 0, upto);
    }
  }

  lemma SortKeepsSeparate(es: seq<Edit>)
    requires Separate(es)
    ensures Descending(SortDesc(es)) && Separate(SortDesc(es)) && multiset(SortDesc(es)) == multiset(es)
  {
    var ds := SortDesc(es);
    forall i, j | 0 <= i < |es| && 0 <= j < |es| && i != j ensures es[i].start != es[j].start { assert Apart(es[i], es[j]); }
    SortSorts(es);
    forall e <- ds ensures e.start <= e.end { assert e in multiset(es); }
    forall i, j | 0 <= i < |ds| && 0 <= j < |ds| && i != j ensures Apart(ds[i], ds[j]) {
      assert ds[i] in multiset(es) && ds[j] in multiset(es);
      var a :| 0 <= a < |es| && es[a] == ds[i];
      var b :| 0 <= b < |es| && es[b] == ds[j];
      assert ds[i].start != ds[j].start;
      assert Apart(es[a], es[b]);
    }
  }

  /** The row with all its ranges replaced at once, its carriage return kept. */
  function EditedLine(seg: string, es: seq<Edit>): string
    requires InOrder(RowOf(seg), Reversed(SortDesc(es)), 0, |RowOf(seg)|)
  {
    Replaced(RowOf(seg), Reversed(SortDesc(es)), 0, |RowOf(seg)|) + (if EndsInCR(seg) then "\r" else "")
  }

  /** MAIN: on one line right-to-left splicing succeeds and is simultaneous replacement. */
  lemma LineIsEdited(seg: string, es: seq<Edit>)
    requires Separate(es)
    ensures InOrder(RowOf(seg), Reversed(SortDesc(es)), 0, |RowOf(seg)|)
    ensures SplicedLine(seg, es) == Some(EditedLine(seg, es))
  {
    var row := RowOf(seg);
    SortKeepsSeparate(es);
    DescendingInOrder(row, SortDesc(es), |row|);
    SplicedIsReplaced(row, SortDesc(es), |row|, "");
    assert row[..|row|] + "" == row;
    var out := Replaced(row, Reversed(SortDesc(es)), 0, |row|);
    assert out + "" == out;
  }

  /** MAIN: a carriage return that ends a line is no part of the row: edits leave it where it is. */
  lemma CarriageReturnStays(row: string, es: seq<Edit>)
    requires !EndsInCR(row)
    ensures SplicedLine(row + "\r", es) == match SplicedLine(row, es) case None => None case Some(out) => Some(out + "\r")
  {
    assert (row + "\r")[..|row|] == row && EndsInCR(row + "\r");
    hide Spliced, SortDesc;
  }

  lemma UneditedLine(seg: string)
    ensures SplicedLine(seg, []) == Some(seg)
  {
    if EndsInCR(seg) { assert RowOf(seg) + "\r" == seg; }
  }

  // ----- The whole text -----

  function OnLine(es: seq<Edit>, line: int): seq<Edit>
  {
    if es == [] then []
    else OnLine(es[..|es| - 1], line) + (if es[|es| - 1].line == line then [es[|es| - 1]] else [])
  }

  ghost predicate LineFails(segs: seq<string>, es: seq<Edit>, line: int)
  {
    OnLine(es, line) != [] && (line < 0 || line >= |segs| || SplicedLine(segs[line], OnLine(es, line)).None?)
  }

  /** An edit spans lines, or some line's edits cannot be applied. */
  ghost predicate Fails(segs: seq<string>, es: seq<Edit>)
  {
    (exists e <- es :: e.line != e.endLine) || (exists line: int :: LineFails(segs, es, line))
  }

  function LineAfter(segs: seq<string>, es: seq<Edit>, k: nat): string
    requires k < |segs|
  {
    var done := SplicedLine(segs[k], OnLine(es, k));
    if done.Some? then done.value else segs[k]
  }

  function LinesAfter(segs: seq<string>, es: seq<Edit>): seq<string>
  {
    seq(|segs|, k requires 0 <= k < |segs| => LineAfter(segs, es, k))
  }

  lemma {:induction false} OnLineMembers(es: seq<Edit>, line: int)
    ensures OnLine(es, line) != [] <==> exists e <- es :: e.line == line
    ensures forall e <- OnLine(es, line) :: e in es && e.line == line
  {
    if es != [] {
      var n := |es| - 1;
      OnLineMembers(es[..n], line);
      assert es == es[..n] + [es[n]];
      if es[n].line == line { assert es[n] in es; }
    }
  }

  ghost predicate Grouped(byLine: map<int, seq<Edit>>, done: seq<Edit>)
  {
    forall line :: if line in byLine then byLine[line] == OnLine(done, line) != [] else OnLine(done, line) == []
  }

  lemma OnLineSnoc(done: seq<Edit>, e: Edit, line: int)
    ensures OnLine(done + [e], line) == if e.line == line then OnLine(done, line) + [e] else OnLine(done, line)
  {
    assert (done + [e])[..|done|] == done;
  }

  lemma GroupStep(byLine: map<int, seq<Edit>>, done: seq<Edit>, e: Edit)
    requires Grouped(byLine, done)
    ensures Grouped(byLine[e.line := (if e.line in byLine then byLine[e.line] else []) + [e]], done + [e])
  {
    hide OnLine;
    forall line { OnLineSnoc(done, e, line); }
  }

  method GroupByLine(es: seq<Edit>) returns (byLine: map<int, seq<Edit>>, ok: bool)
    ensures ok <==> forall e <- es :: e.line == e.endLine
    ensures ok ==> Grouped(byLine, es)
  {
    byLine := map[];
    for i := 0 to |es|
      invariant forall j | 0 <= j < i :: es[j].line == es[j].endLine
      invariant Grouped(byLine, es[..i])
    {
      hide Grouped;
      var e := es[i];
      if e.line != e.endLine {
        assert e in es;
        return byLine, false;
      }
      GroupStep(byLine, es[..i], e);
      assert es[..i + 1] == es[..i] + [e];
      byLine := byLine[e.line := (if e.line in byLine then byLine[e.line] else []) + [e]];
    }
    assert es[..|es|] == es;
    ok := true;
  }

  lemma SomeMember(lines: set<int>)
    requires lines != {}
    ensures exists line :: line in lines
  {
    if forall line :: line !in lines { assert false; }
  }

  /** The lines still to do are untouched, the others edited, without an error so far. */
  ghost predicate Partly(original: seq<string>, es: seq<Edit>, byLine: map<int, seq<Edit>>, lines: set<int>, segs: seq<string>)
  {
    && Grouped(byLine, es) && lines <= byLine.Keys && |segs| == |original|
    && (forall line | line in byLine && line !in lines :: !LineFails(original, es, line))
    && (forall k: nat | k < |segs| ::
          segs[k] == if k in byLine && k !in lines then LineAfter(original, es, k) else original[k])
  }

  lemma PartlyFails(original: seq<string>, es: seq<Edit>, byLine: map<int, seq<Edit>>, lines: set<int>, segs: seq<string>, line: int)
    requires Partly(original, es, byLine, lines, segs) && line in lines
    requires line < 0 || line >= |segs| || SplicedLine(segs[line], byLine[line]).None?
    ensures Fails(original, es)
  {
    hide SplicedLine;
    assert LineFails(original, es, line);
  }

  lemma PartlyStep(original: seq<string>, es: seq<Edit>, byLine: map<int, seq<Edit>>, lines: set<int>, segs: seq<string>, line: int)
    requires Partly(original, es, byLine, lines, segs) && line in lines
    requires 0 <= line < |segs| && SplicedLine(segs[line], byLine[line]).Some?
    ensures Partly(original, es, byLine, lines - {line}, segs[line := SplicedLine(segs[line], byLine[line]).value])
  {
    hide SplicedLine, OnLine;
  }

  lemma PartlyDone(original: seq<string>, es: seq<Edit>, byLine: map<int, seq<Edit>>, segs: seq<string>)
    requires Partly(original, es, byLine, {}, segs) && forall e <- es :: e.line == e.endLine
    ensures !Fails(original, es) && segs == LinesAfter(original, es)
  {
    hide SplicedLine, OnLine;
    forall line: int ensures !LineFails(original, es, line) {}
    forall k: nat | k < |segs| ensures segs[k] == LineAfter(original, es, k) {
      if k !in byLine { UneditedLine(original[k]); }
    }
  }

  /** MAIN: whichever line the map yields next, the result is the lines edited one by one, or an error. */
  method ApplyEdits(src: string, es: seq<Edit>) returns (r: Option<string>)
    ensures r == if Fails(SplitLF(src), es) then None else Some(JoinLF(LinesAfter(SplitLF(src), es)))
  {
    hide SplicedLine, OnLine, SplitLF, JoinLF, LinesAfter;
    var segs := SplitKeepCR(src);
    ghost var original := segs;
    var byLine, ok := GroupByLine(es);
    if !ok { return None; }
    var lines := byLine.Keys;
    assert Partly(original, es, byLine, lines, segs);
    while lines != {}
      invariant lines <= byLine.Keys && Partly(original, es, byLine, lines, segs)
      decreases |lines|
    {
      hide Partly, Fails;
      SomeMember(lines);
      var line :| line in lines;
      if line < 0 || line >= |segs| {
        PartlyFails(original, es, byLine, lines, segs, line);
        return None;
      }
      var done := SplicedLine(segs[line], byLine[line]);
      if done.None? {
        PartlyFails(original, es, byLine, lines, segs, line);
        return None;
      }
      PartlyStep(original, es, byLine, lines, segs, line);
      segs := segs[line := done.value];
      lines := lines - {line};
    }
    PartlyDone(original, es, byLine, segs);
    var out := JoinSegments(segs);
    return Some(out);
  }

  /** Edits a rename may ask for: on one existing line each, apart from the others on that line. */
  predicate WellPlaced(es: seq<Edit>, lines: nat)
  {
    && (forall e <- es :: e.line == e.endLine && 0 <= e.line < lines && e.start <= e.end)
    && (forall i, j | 0 <= i < |es| && 0 <= j < |es| && i != j && es[i].line == es[j].line :: Apart(es[i], es[j]))
  }

  lemma SeparateSnoc(front: seq<Edit>, e: Edit)
    requires Separate(front) && e.start <= e.end
    requires forall f <- front :: Apart(f, e) && Apart(e, f)
    ensures Separate(front + [e])
  {
    hide Apart;
    forall i | 0 <= i < |front| ensures Apart(front[i], e) && Apart(e, front[i]) { assert front[i] in front; }
  }

  lemma WellPlacedFront(es: seq<Edit>, lines: nat)
    requires WellPlaced(es, lines) && es != []
    ensures var n := |es| - 1; WellPlaced(es[..n], lines) && es[n].start <= es[n].end
    ensures var n := |es| - 1;
      forall f <- es[..n] :: f.line == es[n].line ==> Apart(f, es[n]) && Apart(es[n], f)
  {
    hide Apart;
    var n := |es| - 1;
    assert es[n] in es;
    forall f | f in es[..n] ensures f in es && (f.line == es[n].line ==> Apart(f, es[n]) && Apart(es[n], f)) {
      var k :| 0 <= k < n && es[..n][k] == f;
      assert es[k] == f;
    }
  }

  lemma {:induction false} LineSeparate(es: seq<Edit>, lines: nat, line: int)
    requires WellPlaced(es, lines)
    ensures Separate(OnLine(es, line))
  {
    if es != [] {
      hide WellPlaced, Separate, Apart;
      var n := |es| - 1;
      WellPlacedFront(es, lines);
      LineSeparate(es[..n], lines, line);
      OnLineMembers(es[..n], line);
      if es[n].line == line {
        SeparateSnoc(OnLine(es[..n], line), es[n]);
      } else {
        EmptyRight(OnLine(es[..n], line));
      }
    }
  }

  /** MAIN: well-placed edits never fail, and every row is its original with all ranges replaced at once. */
  lemma WellPlacedSucceeds(src: string, es: seq<Edit>, k: nat)
    requires WellPlaced(es, |SplitLF(src)|) && k < |SplitLF(src)|
    ensures !Fails(SplitLF(src), es)
    ensures InOrder(RowOf(SplitLF(src)[k]), Reversed(SortDesc(OnLine(es, k))), 0, |RowOf(SplitLF(src)[k])|)
    ensures LinesAfter(SplitLF(src), es)[k] == EditedLine(SplitLF(src)[k], OnLine(es, k))
    ensures OnLine(es, k) == [] ==> LinesAfter(SplitLF(src), es)[k] == SplitLF(src)[k]
  {
    hide SplicedLine, EditedLine, InOrder, SortDesc;
    var segs := SplitLF(src);
    forall line: int ensures !LineFails(segs, es, line) {
      if OnLine(es, line) != [] {
        OnLineMembers(es, line);
        LineSeparate(es, |segs|, line);
        LineIsEdited(segs[line], OnLine(es, line));
      }
    }
    LineSeparate(es, |segs|, k);
    LineIsEdited(segs[k], OnLine(es, k));
    UneditedLine(segs[k]);
  }

  lemma {:induction false} OnLineCount(es: seq<Edit>, line: int, e: Edit)
    ensures multiset(OnLine(es, line))[e] == if e.line == line then multiset(es)[e] else 0
  {
    if es != [] {
      var n := |es| - 1;
      OnLineCount(es[..n], line, e);
      assert es == es[..n] + [es[n]];
      OnLineSnoc(es[..n], es[n], line);
      hide OnLine;
    }
  }

  lemma SameOnLine(a: seq<Edit>, b: seq<Edit>, line: int)
    requires multiset(a) == multiset(b)
    ensures multiset(OnLine(a, line)) == multiset(OnLine(b, line))
  {
    hide OnLine;
    forall e: Edit ensures multiset(OnLine(a, line))[e] == multiset(OnLine(b, line))[e] {
      OnLineCount(a, line, e);
      OnLineCount(b, line, e);
    }
  }

  lemma SameSorted(a: seq<Edit>, b: seq<Edit>)
    requires Separate(a) && Separate(b) && multiset(a) == multiset(b)
    ensures SortDesc(a) == SortDesc(b)
  {
    SortKeepsSeparate(a);
    SortKeepsSeparate(b);
    DescendingUnique(SortDesc(a), SortDesc(b));
  }

  /** MAIN: the order in which well-placed edits are listed does not matter. */
  lemma OrderIrrelevant(src: string, a: seq<Edit>, b: seq<Edit>)
    requires WellPlaced(a, |SplitLF(src)|) && WellPlaced(b, |SplitLF(src)|) && multiset(a) == multiset(b)
    ensures LinesAfter(SplitLF(src), a) == LinesAfter(SplitLF(src), b)
  {
    hide OnLine, SortDesc, WellPlaced, SplitLF, Spliced, Separate;
    var segs := SplitLF(src);
    forall k: nat | k < |segs| ensures LineAfter(segs, a, k) == LineAfter(segs, b, k) {
      LineSeparate(a, |segs|, k);
      LineSeparate(b, |segs|, k);
      SameOnLine(a, b, k);
      SameSorted(OnLine(a, k), OnLine(b, k));
    }
  }

}
