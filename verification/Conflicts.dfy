/**
  The merge driver's line machine: conflict markers inside regenerable sections are dropped, every
  other line is kept as it is.
 */
module Conflicts {

  import opened Lines
  import Multiline

  // ----- Markers -----

  /** The white space the trimming removes. */
  predicate IsSpace(c: char)
  {
    var u := c as int;
    || 0x09 <= u <= 0x0d || u == 0x20 || u == 0x85 || u == 0xa0 || u == 0x1680
    || 0x2000 <= u <= 0x200a || u == 0x2028 || u == 0x2029 || u == 0x202f || u == 0x205f || u == 0x3000
  }

  /** The white space of the labels' indentation, and no other. */
  lemma SpacesAre(c: char)
    ensures IsSpace(c) <==> Multiline.IsSpace(c)
  {
  }

  function TrimLeft(s: string): string
  {
    if s != [] && IsSpace(s[0]) then TrimLeft(s[1..]) else s
  }

  function TrimRight(s: string): string
  {
    if s != [] && IsSpace(s[|s| - 1]) then TrimRight(s[..|s| - 1]) else s
  }

  function Trim(s: string): string
  {
    TrimRight(TrimLeft(s))
  }

  predicate IsStartOf(line: string, name: string)
  {
    var t, prefix := Trim(line), "<?" + name;
    && prefix <= t
    && var rest := t[|prefix|..];
      rest == [] || "?>" <= rest || rest[0] == ' ' || rest[0] == '\t'
  }

  predicate IsEndOf(line: string, name: string)
  {
    Trim(line) == "<?/" + name + "?>"
  }

  predicate IsStart(line: string, names: seq<string>)
  {
    exists name <- names :: IsStartOf(line, name)
  }

  predicate IsEnd(line: string, names: seq<string>)
  {
    exists name <- names :: IsEndOf(line, name)
  }

  predicate IsOpen(line: string) { "<<<<<<<" <= Trim(line) }

  predicate IsBase(line: string) { "|||||||" <= Trim(line) }

  predicate IsSeparator(line: string) { "=======" <= Trim(line) }

  predicate IsClose(line: string) { ">>>>>>>" <= Trim(line) }

  /** A line is at most one kind of marker; section markers are no conflict markers. */
  lemma MarkersDiffer(line: string, names: seq<string>)
    ensures IsStart(line, names) || IsEnd(line, names) ==> !IsOpen(line) && !IsBase(line) && !IsSeparator(line) && !IsClose(line)
  {
    var t := Trim(line);
    forall name <- names
      ensures IsStartOf(line, name) || IsEndOf(line, name) ==> |t| >= 2 && t[0] == '<' && t[1] == '?'
    {
      assert ("<?" + name)[..2] == "<?" && ("<?/" + name + "?>")[..2] == "<?";
    }
  }

  // ----- Recognising markers as they are written -----

  predicate AllBlank(s: string)
  {
    forall c <- s :: IsSpace(c)
  }

  /** Neither end of the text is white space. */
  predicate Solid(s: string)
  {
    s != "" && !IsSpace(s[0]) && !IsSpace(s[|s| - 1])
  }

  lemma {:induction false} TrimLeftPads(pad: string, s: string)
    requires AllBlank(pad) && s != "" && !IsSpace(s[0])
    ensures TrimLeft(pad + s) == s
    decreases |pad|
  {
    if pad == "" {
      assert pad + s == s;
    } else {
      assert pad[0] in pad && (pad + s)[1..] == pad[1..] + s;
      TrimLeftPads(pad[1..], s);
    }
  }

  lemma {:induction false} TrimRightPads(s: string, pad: string)
    requires AllBlank(pad) && s != "" && !IsSpace(s[|s| - 1])
    ensures TrimRight(s + pad) == s
    decreases |pad|
  {
    if pad == "" {
      assert s + pad == s;
    } else {
      assert pad[|pad| - 1] in pad && (s + pad)[..|s + pad| - 1] == s + pad[..|pad| - 1];
      TrimRightPads(s, pad[..|pad| - 1]);
    }
  }

  /** Trimming takes the white space around a text and no more. */
  lemma TrimPads(left: string, s: string, right: string)
    requires AllBlank(left) && AllBlank(right) && Solid(s)
    ensures Trim(left + s + right) == s
  {
    assert left + s + right == left + (s + right) && (s + right)[0] == s[0];
    TrimLeftPads(left, s + right);
    TrimRightPads(s, right);
  }

  /** MAIN: indented or not, a line starting with seven of a kind is that conflict marker and no other. */
  lemma MarkersRecognised(left: string, rest: string, right: string)
    requires AllBlank(left) && AllBlank(right) && (rest == "" || !IsSpace(rest[|rest| - 1]))
    ensures var line := left + "<<<<<<<" + rest + right; IsOpen(line) && !IsBase(line) && !IsSeparator(line) && !IsClose(line)
    ensures var line := left + "|||||||" + rest + right; !IsOpen(line) && IsBase(line) && !IsSeparator(line) && !IsClose(line)
    ensures var line := left + "=======" + rest + right; !IsOpen(line) && !IsBase(line) && IsSeparator(line) && !IsClose(line)
    ensures var line := left + ">>>>>>>" + rest + right; !IsOpen(line) && !IsBase(line) && !IsSeparator(line) && IsClose(line)
  {
    hide Trim;
    MarkedLine(left, "<<<<<<<", rest, right);
    MarkedLine(left, "|||||||", rest, right);
    MarkedLine(left, "=======", rest, right);
    MarkedLine(left, ">>>>>>>", rest, right);
  }

  lemma MarkedLine(left: string, mark: string, rest: string, right: string)
    requires AllBlank(left) && AllBlank(right) && (rest == "" || !IsSpace(rest[|rest| - 1]))
    requires mark != "" && !IsSpace(mark[0]) && !IsSpace(mark[|mark| - 1])
    ensures var t := Trim(left + mark + rest + right); t == mark + rest && t[0] == mark[0] && mark <= t
  {
    var s := mark + rest;
    assert s[|s| - 1] == if rest == "" then mark[|mark| - 1] else rest[|rest| - 1];
    assert left + mark + rest + right == left + s + right;
    TrimPads(left, s, right);
  }

  /** MAIN: a line that starts with anything else, or with six of a kind, is no conflict marker. */
  lemma OthersAreNoMarkers(left: string, s: string, right: string)
    requires AllBlank(left) && AllBlank(right) && Solid(s) && (|s| < 7 || exists i | 0 < i < 7 :: s[i] != s[0] || s[0] !in "<|=>")
    ensures var line := left + s + right; !IsOpen(line) && !IsBase(line) && !IsSeparator(line) && !IsClose(line)
  {
    hide Trim;
    TrimPads(left, s, right);
    if |s| >= 7 {
      var i :| 0 < i < 7 && (s[i] != s[0] || s[0] !in "<|=>");
      assert forall mark: string | mark <= s && |mark| == 7 :: mark[0] == s[0] && mark[i] == s[i];
    }
  }

  /** MAIN: a section starts at its name followed by its close, a blank or nothing, and ends at its closing tag. */
  lemma SectionsRecognised(left: string, name: string, tail: string, right: string)
    requires AllBlank(left) && AllBlank(right) && (tail == "" || !IsSpace(tail[|tail| - 1]))
    requires name != "" && !IsSpace(name[|name| - 1])
    ensures IsStartOf(left + ("<?" + name + tail) + right, name) <==> tail == "" || "?>" <= tail || tail[0] == ' ' || tail[0] == '\t'
    ensures IsEndOf(left + ("<?/" + name + "?>") + right, name)
  {
    hide Trim;
    var s := "<?" + name + tail;
    assert s[|s| - 1] == if tail == "" then name[|name| - 1] else tail[|tail| - 1];
    TrimPads(left, s, right);
    assert ("<?" + name) <= s && s[|"<?" + name|..] == tail;
    TrimPads(left, "<?/" + name + "?>", right);
  }

  // ----- What is dropped, without a machine -----

  /** Line i is in a section: the last start marker up to it has no end marker between. */
  ghost predicate InSection(lines: seq<string>, names: seq<string>, i: nat)
    requires i < |lines|
  {
    exists j | 0 <= j <= i :: IsStart(lines[j], names) && forall k | j <= k < i :: !IsEnd(lines[k], names)
  }

  ghost predicate Reopens(lines: seq<string>, names: seq<string>, k: nat)
    requires k < |lines|
  {
    IsEnd(lines[k], names) || (IsClose(lines[k]) && InSection(lines, names, k))
  }

  /** A conflict opened in a section is still open when line i is reached. */
  ghost predicate InConflict(lines: seq<string>, names: seq<string>, i: nat)
    requires i <= |lines|
  {
    exists j | 0 <= j < i :: IsOpen(lines[j]) && InSection(lines, names, j) && forall k | j < k < i :: !Reopens(lines, names, k)
  }

  /** An opening marker in a section, or another marker while a conflict is open there. */
  ghost predicate Dropped(lines: seq<string>, names: seq<string>, i: nat)
    requires i < |lines|
  {
    && InSection(lines, names, i)
    && (IsOpen(lines[i]) || (InConflict(lines, names, i) && (IsClose(lines[i]) || IsBase(lines[i]) || IsSeparator(lines[i]))))
  }

  /** The lines kept among the first n, in order. */
  ghost function Kept(lines: seq<string>, names: seq<string>, n: nat): seq<string>
    requires n <= |lines|
  {
    if n == 0 then [] else Kept(lines, names, n - 1) + (if Dropped(lines, names, n - 1) then [] else [lines[n - 1]])
  }

  /** The section flag before line i. */
  ghost predicate SectionBefore(lines: seq<string>, names: seq<string>, i: nat)
    requires i <= |lines|
  {
    i > 0 && InSection(lines, names, i - 1) && !IsEnd(lines[i - 1], names)
  }

  lemma SectionStep(lines: seq<string>, names: seq<string>, i: nat)
    requires i < |lines|
    ensures InSection(lines, names, i) <==> IsStart(lines[i], names) || SectionBefore(lines, names, i)
  {
    hide IsStart, IsEnd;
    if InSection(lines, names, i) && !IsStart(lines[i], names) {
      var j :| 0 <= j <= i && IsStart(lines[j], names) && forall k | j <= k < i :: !IsEnd(lines[k], names);
      assert InSection(lines, names, i - 1);
    }
    if SectionBefore(lines, names, i) {
      var j :| 0 <= j <= i - 1 && IsStart(lines[j], names) && forall k | j <= k < i - 1 :: !IsEnd(lines[k], names);
      assert forall k | j <= k < i :: !IsEnd(lines[k], names);
    }
  }

  lemma ConflictStep(lines: seq<string>, names: seq<string>, i: nat)
    requires i < |lines|
    ensures InConflict(lines, names, i + 1) <==>
            (IsOpen(lines[i]) && InSection(lines, names, i)) || (InConflict(lines, names, i) && !Reopens(lines, names, i))
  {
    hide InSection, Reopens;
    if InConflict(lines, names, i + 1) && !(IsOpen(lines[i]) && InSection(lines, names, i)) {
      var j :| 0 <= j < i + 1 && IsOpen(lines[j]) && InSection(lines, names, j) && forall k | j < k < i + 1 :: !Reopens(lines, names, k);
      assert j < i;
    }
    if InConflict(lines, names, i) && !Reopens(lines, names, i) {
      var j :| 0 <= j < i && IsOpen(lines[j]) && InSection(lines, names, j) && forall k | j < k < i :: !Reopens(lines, names, k);
      assert forall k | j < k < i + 1 :: !Reopens(lines, names, k);
    }
  }

  /** The flags after line i from the flags before it. */
  lemma FlagsStep(lines: seq<string>, names: seq<string>, i: nat)
    requires i < |lines|
    ensures var line := lines[i];
      var inSection := IsStart(line, names) || SectionBefore(lines, names, i);
      var inConflict := InConflict(lines, names, i);
      && SectionBefore(lines, names, i + 1) == (inSection && !IsEnd(line, names))
      && InConflict(lines, names, i + 1) ==
         ((inSection && IsOpen(line)) || (inConflict && !IsEnd(line, names) && !(inSection && IsClose(line))))
      && Dropped(lines, names, i) ==
         (inSection && (IsOpen(line) || (inConflict && (IsClose(line) || IsBase(line) || IsSeparator(line)))))
  {
    hide IsStart, IsEnd, IsOpen, IsClose, IsBase, IsSeparator, InSection, InConflict;
    SectionStep(lines, names, i);
    ConflictStep(lines, names, i);
  }

  /** MAIN: the line machine keeps exactly the lines that are not dropped. */
  method StripLines(lines: seq<string>, names: seq<string>) returns (out: seq<string>)
    ensures out == Kept(lines, names, |lines|)
  {
    out := [];
    var inSection, inConflict := false, false;
    for i := 0 to |lines|
      invariant inSection == SectionBefore(lines, names, i)
      invariant inConflict == InConflict(lines, names, i)
      invariant out == Kept(lines, names, i)
    {
      hide *;
      var line := lines[i];
      FlagsStep(lines, names, i);
      KeptStep(lines, names, i);
      MarkersDiffer(line, names);
      if IsStart(line, names) { inSection := true; }
      if inSection {
        if IsOpen(line) {
          inConflict := true;
          continue;
        }
        if inConflict && IsClose(line) {
          inConflict := false;
          continue;
        }
        if inConflict && IsBase(line) { continue; }
        if inConflict && IsSeparator(line) { continue; }
      }
      out := out + [line];
      if IsEnd(line, names) {
        inSection := false;
        inConflict := false;
      }
    }
  }

  ghost function Stripped(content: string, names: seq<string>): string
  {
    var lines := SplitLF(content);
    JoinLF(Kept(lines, names, |lines|))
  }

  method StripSectionConflicts(content: string, names: seq<string>) returns (out: string)
    ensures out == Stripped(content, names)
  {
    var lines := StripLines(SplitLF(content), names);
    out := JoinLF(lines);
  }

  // ----- Dropped lines are conflict markers in a section -----

  ghost predicate SectionRuns(lines: seq<string>, names: seq<string>, from: nat, to: nat)
    requires from <= to < |lines|
  {
    IsStart(lines[from], names) && forall k | from <= k <= to :: !IsEnd(lines[k], names)
  }

  ghost predicate ConflictRuns(lines: seq<string>, names: seq<string>, from: nat, to: nat)
    requires from <= to < |lines|
  {
    && IsOpen(lines[from]) && Dropped(lines, names, from)
    && forall k | from < k < to :: !IsEnd(lines[k], names) && !IsClose(lines[k])
  }

  /**
    MAIN: only conflict markers are dropped, only in a section that has not ended, and all but opening
    ones only after a dropped opening one with neither a close nor the section's end between.
   */
  lemma OnlyMarkersDropped(lines: seq<string>, names: seq<string>, i: nat)
    requires i < |lines| && Dropped(lines, names, i)
    ensures !IsStart(lines[i], names) && !IsEnd(lines[i], names)
    ensures IsOpen(lines[i]) || IsBase(lines[i]) || IsSeparator(lines[i]) || IsClose(lines[i])
    ensures exists j :: 0 <= j < i && SectionRuns(lines, names, j, i)
    ensures !IsOpen(lines[i]) ==> exists j :: 0 <= j < i && ConflictRuns(lines, names, j, i)
  {
    hide IsStart, IsEnd, IsOpen, IsBase, IsSeparator, IsClose;
    MarkersDiffer(lines[i], names);
    var s :| 0 <= s <= i && IsStart(lines[s], names) && forall k | s <= k < i :: !IsEnd(lines[k], names);
    assert SectionRuns(lines, names, s, i);
    if !IsOpen(lines[i]) {
      hide InSection;
      var j :| 0 <= j < i && IsOpen(lines[j]) && InSection(lines, names, j) && forall k | j < k < i :: !Reopens(lines, names, k);
      assert Dropped(lines, names, j);
      MarkersDiffer(lines[j], names);
      forall k | j < k < i ensures !IsEnd(lines[k], names) && !IsClose(lines[k]) {
        assert !Reopens(lines, names, k);
        assert forall l | j <= l < k :: !IsEnd(lines[l], names) by {
          forall l | j <= l < k ensures !IsEnd(lines[l], names) { assert l > j ==> !Reopens(lines, names, l); }
        }
        SectionLasts(lines, names, j, k);
      }
      assert ConflictRuns(lines, names, j, i);
    }
  }

  lemma SectionLasts(lines: seq<string>, names: seq<string>, j: nat, k: nat)
    requires j <= k < |lines| && InSection(lines, names, j) && forall l | j <= l < k :: !IsEnd(lines[l], names)
    ensures InSection(lines, names, k)
  {
    hide IsStart, IsEnd;
    var s :| 0 <= s <= j && IsStart(lines[s], names) && forall l | s <= l < j :: !IsEnd(lines[l], names);
    assert forall l | s <= l < k :: !IsEnd(lines[l], names);
  }

  // ----- A second pass drops nothing -----

  /** The section flag at the end of a list of lines. */
  ghost predicate SectionAfter(lines: seq<string>, names: seq<string>)
  {
    SectionBefore(lines, names, |lines|)
  }

  lemma {:induction false} SectionLocal(lines: seq<string>, more: seq<string>, names: seq<string>, i: nat)
    requires i <= |lines|
    ensures SectionBefore(lines + more, names, i) == SectionBefore(lines, names, i)
    ensures i < |lines| ==> InSection(lines + more, names, i) == InSection(lines, names, i)
  {
    if i < |lines| {
      assert (lines + more)[i] == lines[i];
    }
    if i > 0 {
      SectionLocal(lines, more, names, i - 1);
    }
    if i < |lines| {
      SectionStep(lines, names, i);
      SectionStep(lines + more, names, i);
    }
  }

  lemma SectionSnoc(lines: seq<string>, line: string, names: seq<string>)
    ensures InSection(lines + [line], names, |lines|) <==> IsStart(line, names) || SectionAfter(lines, names)
    ensures SectionAfter(lines + [line], names) <==> (IsStart(line, names) || SectionAfter(lines, names)) && !IsEnd(line, names)
  {
    hide InSection;
    SectionLocal(lines, [line], names, |lines|);
    SectionStep(lines + [line], names, |lines|);
  }

  lemma KeptSectionStep(lines: seq<string>, names: seq<string>, n: nat)
    requires n < |lines| && SectionAfter(Kept(lines, names, n), names) == SectionBefore(lines, names, n)
    ensures SectionAfter(Kept(lines, names, n + 1), names) == SectionBefore(lines, names, n + 1)
  {
    hide *;
    KeptStep(lines, names, n);
    FlagsStep(lines, names, n);
    MarkersDiffer(lines[n], names);
    if !Dropped(lines, names, n) { SectionSnoc(Kept(lines, names, n), lines[n], names); }
  }

  /** Dropping markers does not move the section boundaries. */
  lemma {:induction false} KeptSection(lines: seq<string>, names: seq<string>, n: nat)
    requires n <= |lines|
    ensures SectionAfter(Kept(lines, names, n), names) == SectionBefore(lines, names, n)
  {
    hide InSection, IsEnd, Dropped;
    if n > 0 {
      hide *;
      KeptSection(lines, names, n - 1);
      KeptSectionStep(lines, names, n - 1);
    }
  }

  /** No opening marker is left in a section. */
  lemma {:induction false} NoOpenKept(lines: seq<string>, names: seq<string>, n: nat, i: nat)
    requires n <= |lines| && i < |Kept(lines, names, n)|
    ensures !(IsOpen(Kept(lines, names, n)[i]) && InSection(Kept(lines, names, n), names, i))
  {
    if n > 0 {
      hide Kept, InSection, InConflict, IsStart, IsEnd, IsOpen, IsClose, IsBase, IsSeparator, SectionAfter;
      var before := Kept(lines, names, n - 1);
      KeptStep(lines, names, n - 1);
      if i < |before| {
        NoOpenKept(lines, names, n - 1, i);
        if !Dropped(lines, names, n - 1) { SectionLocal(before, [lines[n - 1]], names, i); }
      } else {
        KeptSection(lines, names, n - 1);
        SectionSnoc(before, lines[n - 1], names);
        SectionStep(lines, names, n - 1);
      }
    }
  }

  lemma KeptStep(lines: seq<string>, names: seq<string>, n: nat)
    requires n < |lines|
    ensures Dropped(lines, names, n) ==> Kept(lines, names, n + 1) == Kept(lines, names, n)
    ensures !Dropped(lines, names, n) ==> Kept(lines, names, n + 1) == Kept(lines, names, n) + [lines[n]]
  {
    hide Dropped;
  }

  lemma {:induction false} KeptAll(lines: seq<string>, names: seq<string>, n: nat)
    requires n <= |lines| && forall i: nat | i < |lines| :: !(IsOpen(lines[i]) && InSection(lines, names, i))
    ensures Kept(lines, names, n) == lines[..n]
  {
    if n > 0 {
      hide InSection, IsOpen;
      KeptAll(lines, names, n - 1);
      assert !InConflict(lines, names, n - 1);
      assert lines[..n] == lines[..n - 1] + [lines[n - 1]];
    }
  }

  /** MAIN: what has been stripped is left alone by a second pass. */
  lemma StripTwice(content: string, names: seq<string>)
    ensures Stripped(Stripped(content, names), names) == Stripped(content, names)
  {
    hide Kept, InSection, IsOpen, SplitLF, JoinLF, Dropped;
    var lines := SplitLF(content);
    var out := Kept(lines, names, |lines|);
    var again := SplitLF(JoinLF(out));
    OutputLines(content, names);
    if out == [] {
      BlankLine(names);
      JoinSingle([]);
      JoinNone();
    } else {
      forall i: nat | i < |out| ensures !(IsOpen(out[i]) && InSection(out, names, i)) {
        NoOpenKept(lines, names, |lines|, i);
      }
      KeptAll(out, names, |out|);
      assert out[..|out|] == out;
    }
  }

  lemma JoinNone()
    ensures JoinLF([]) == []
  {
  }

  lemma BlankLine(names: seq<string>)
    ensures Kept([[]], names, 1) == [[]]
  {
    assert !IsOpen([]);
    assert Kept([[]], names, 0) == [];
    assert !InConflict([[]], names, 0);
  }

  /** Every kept line comes from a line not dropped. */
  lemma {:induction false} KeptFrom(lines: seq<string>, names: seq<string>, n: nat, k: nat) returns (i: nat)
    requires n <= |lines| && k < |Kept(lines, names, n)|
    ensures i < n && lines[i] == Kept(lines, names, n)[k] && !Dropped(lines, names, i)
  {
    hide Dropped;
    var before := Kept(lines, names, n - 1);
    if k < |before| {
      i := KeptFrom(lines, names, n - 1, k);
    } else {
      i := n - 1;
    }
  }

  /** Every line not dropped is kept. */
  lemma {:induction false} KeptHas(lines: seq<string>, names: seq<string>, n: nat, i: nat) returns (k: nat)
    requires i < n <= |lines| && !Dropped(lines, names, i)
    ensures k < |Kept(lines, names, n)| && Kept(lines, names, n)[k] == lines[i]
  {
    hide Dropped;
    if i == n - 1 {
      k := |Kept(lines, names, n - 1)|;
    } else {
      k := KeptHas(lines, names, n - 1, i);
    }
  }

  /** The lines of the stripped text are the kept lines. */
  lemma OutputLines(content: string, names: seq<string>)
    ensures var lines := SplitLF(content);
      var out := Kept(lines, names, |lines|);
      SplitLF(Stripped(content, names)) == if out == [] then [[]] else out
  {
    var lines := SplitLF(content);
    var out := Kept(lines, names, |lines|);
    SplitShape(content);
    forall k: nat | k < |out| ensures '\n' !in out[k] {
      var i := KeptFrom(lines, names, |lines|, k);
      assert lines[i] in lines;
    }
    if out != [] { SplitAfterJoin(out); }
  }

  // ----- What a clean check means -----

  ghost predicate MarkerIn(lines: seq<string>)
  {
    exists i :: 0 <= i < |lines| && (IsOpen(lines[i]) || IsClose(lines[i]))
  }

  method HasConflictMarkers(content: string) returns (found: bool)
    ensures found == MarkerIn(SplitLF(content))
  {
    var lines := SplitLF(content);
    for i := 0 to |lines|
      invariant forall j | 0 <= j < i :: !IsOpen(lines[j]) && !IsClose(lines[j])
    {
      if IsOpen(lines[i]) || IsClose(lines[i]) { return true; }
    }
    return false;
  }

  /** An opening marker outside every section, or a closing one with no conflict open around it. */
  ghost predicate LeftOver(lines: seq<string>, names: seq<string>, i: nat)
    requires i < |lines|
  {
    || (IsOpen(lines[i]) && !InSection(lines, names, i))
    || (IsClose(lines[i]) && !(InSection(lines, names, i) && InConflict(lines, names, i)))
  }

  /** MAIN: the stripped text has markers exactly when the content had some outside the sections' own conflicts. */
  lemma CleanMeansNoLeftOver(content: string, names: seq<string>)
    ensures MarkerIn(SplitLF(Stripped(content, names))) <==>
            exists i: nat :: i < |SplitLF(content)| && LeftOver(SplitLF(content), names, i)
  {
    hide InSection, InConflict, Kept, SplitLF, JoinLF;
    var lines := SplitLF(content);
    var out := Kept(lines, names, |lines|);
    OutputLines(content, names);
    if MarkerIn(SplitLF(Stripped(content, names))) {
      var s := SplitLF(Stripped(content, names));
      var k :| 0 <= k < |s| && (IsOpen(s[k]) || IsClose(s[k]));
      assert s == out;
      var i := KeptFrom(lines, names, |lines|, k);
      OpenIsNotClose(lines[i]);
      assert LeftOver(lines, names, i);
    }
    if i: nat :| i < |lines| && LeftOver(lines, names, i) {
      OpenIsNotClose(lines[i]);
      assert !Dropped(lines, names, i);
      var k := KeptHas(lines, names, |lines|, i);
    }
  }

  lemma OpenIsNotClose(line: string)
    ensures !(IsOpen(line) && IsClose(line)) && !(IsOpen(line) && (IsBase(line) || IsSeparator(line)))
    ensures !(IsClose(line) && (IsBase(line) || IsSeparator(line)))
  {
    var t := Trim(line);
    assert "<<<<<<<" <= t ==> t[0] == '<';
    assert ">>>>>>>" <= t ==> t[0] == '>';
    assert "|||||||" <= t ==> t[0] == '|';
    assert "=======" <= t ==> t[0] == '=';
  }

}
