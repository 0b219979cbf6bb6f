/** Printing a text as an indented triple-quoted label, line by line and in any escape styles, and reading it back. */
module MultilineQuoting {

  import opened Wrappers
  import opened Escapes
  import opened Sequences
  import opened Quoting
  import opened Multiline

  /** Indentation: blanks that end no line and are not carriage returns. */
  predicate IsIndent(ws: string)
  {
    forall c <- ws :: IsSpace(c) && c != '\n' && c != '\r'
  }

  /** The lines, each indented, escaped and ended by a newline. */
  function EncodeLines(lines: seq<string>, styles: seq<seq<Style>>, ws: string, n: nat): string
    requires |styles| == |lines| && forall k | 0 <= k < |lines| :: |styles[k]| == |lines[k]|
  {
    if lines == [] then ""
    else ws + Encode(lines[0], styles[0], n) + "\n" + EncodeLines(lines[1..], styles[1..], ws, n)
  }

  /** Every line with its newline: the value the decoder holds before it drops the last newline. */
  function Terminated(lines: seq<string>): string
  {
    if lines == [] then "" else lines[0] + "\n" + Terminated(lines[1..])
  }

  /** The text the lines spell: a newline between them. */
  function Join(lines: seq<string>): string
    requires lines != []
  {
    if |lines| == 1 then lines[0] else lines[0] + "\n" + Join(lines[1..])
  }

  lemma {:induction false} TerminatedIsJoin(lines: seq<string>)
    requires lines != []
    ensures Terminated(lines) == Join(lines) + "\n"
  {
    if |lines| > 1 {
      TerminatedIsJoin(lines[1..]);
      assert lines[0] + "\n" + (Join(lines[1..]) + "\n") == lines[0] + "\n" + Join(lines[1..]) + "\n";
    } else {
      assert Terminated(lines[1..]) == "";
      assert lines[0] + "\n" + "" == lines[0] + "\n";
    }
  }

  // ----- No carriage return is ever printed -----

  lemma {:induction false} EncodeHasNoCR(s: string, styles: seq<Style>, n: nat)
    requires |styles| == |s|
    ensures '\r' !in Encode(s, styles, n)
  {
    if s != "" {
      EncodeHasNoCR(s[1..], styles[1..], n);
      CharHasNoCR(s[0], styles[0], n);
    }
  }

  lemma CodePointHasNoCR(v: nat, big: bool, upper: bool, n: nat)
    ensures '\r' !in CodePoint(v, big, upper, n)
  {
    var digits := HexDigits(v, if big then 8 else 4, upper);
    assert forall c <- digits :: c != '\r';
    assert '\r' !in Intro(n);
  }

  lemma CharHasNoCR(c: char, style: Style, n: nat)
    ensures '\r' !in EncodeChar(c, style, n)
  {
    if style.Verbatim? && IsPlain(c) {
    } else if style.Short? && ShortSelector(c).Some? {
      assert '\r' !in Intro(n);
    } else if style.Hex4? && c as int <= 0xFFFF {
      CodePointHasNoCR(c as int, false, style.upper, n);
    } else if style.Surrogates? && c as int > 0xFFFF {
      CodePointHasNoCR(HighHalf(c as int), style.bigHi, style.upper, n);
      CodePointHasNoCR(LowHalf(c as int), style.bigLo, style.upper, n);
    } else {
      CodePointHasNoCR(c as int, true, style.Hex8? && style.upper, n);
    }
  }

  lemma {:induction false} LinesHaveNoCR(lines: seq<string>, styles: seq<seq<Style>>, ws: string, n: nat)
    requires |styles| == |lines| && forall k | 0 <= k < |lines| :: |styles[k]| == |lines[k]|
    requires '\r' !in ws
    ensures '\r' !in EncodeLines(lines, styles, ws, n)
  {
    if lines != [] {
      EncodeHasNoCR(lines[0], styles[0], n);
      LinesHaveNoCR(lines[1..], styles[1..], ws, n);
    }
  }

  // ----- The raw check passes -----

  lemma CodePointRaw(pre: string, v: nat, big: bool, upper: bool, n: nat, post: string)
    requires v <= MAX_RUNE && (!big ==> v <= 0xFFFF)
    ensures var e := CodePoint(v, big, upper, n); var s := pre + e + post;
            IsIntro(s, |pre|, n) && RawEscapeScan(s, |pre|, n) == Some(|e|)
  {
    var count := if big then 8 else 4;
    var head := Intro(n) + [if big then 'U' else 'u'];
    var s := pre + CodePoint(v, big, upper, n) + post;
    CodePointRead(pre, v, big, upper, n, post);
    assert s == (pre + head) + HexDigits(v, count, upper) + post;
    assert Pow16(4) == 0x10000 && Pow16(8) == 0x1_0000_0000;
    HexDigitsRead(pre + head, v, count, upper, post);
    assert s[|pre| + 1 + n] == head[1 + n];
  }

  /** The raw check walks over s from i to j without complaint. */
  ghost predicate RawWalks(s: string, i: nat, j: nat, n: nat)
    requires i <= j <= |s|
  {
    Aligned(s, i, n) ==> Aligned(s, j, n) && RawEscapesOk(s, i, n) == RawEscapesOk(s, j, n)
  }

  lemma RawStep(s: string, i: nat, n: nat)
    requires i < |s| && IsIntro(s, i, n) && i + 2 + n <= |s| && RawEscapeScan(s, i, n).Some?
    ensures RawWalks(s, i, i + RawEscapeScan(s, i, n).value, n)
  {
    if Aligned(s, i, n) { RawEscapeStaysAligned(s, i, n); }
  }

  lemma {:induction false} RawPlain(s: string, i: nat, j: nat, n: nat)
    requires i <= j <= |s| && forall k | i <= k < j :: s[k] != '\\'
    ensures RawWalks(s, i, j, n)
    decreases j - i
  {
    if i < j { RawPlain(s, i + 1, j, n); }
  }

  lemma ShortRaw(pre: string, c: char, n: nat, post: string)
    requires ShortSelector(c).Some?
    ensures var e := Intro(n) + [ShortSelector(c).value]; RawWalks(pre + e + post, |pre|, |pre + e|, n)
  {
    hide RawWalks, ShortSelector, Aligned, RawEscapesOk;
    var sel := [ShortSelector(c).value];
    var s := pre + (Intro(n) + sel) + post;
    assert s == pre + Intro(n) + (sel + post);
    IntroIsIntro(pre, n, sel + post);
    assert s[|pre| + 1 + n] == sel[0];
    RawStep(s, |pre|, n);
  }

  lemma ScalarRaw(pre: string, v: nat, big: bool, upper: bool, n: nat, post: string)
    requires v <= MAX_RUNE && (!big ==> v <= 0xFFFF)
    ensures var e := CodePoint(v, big, upper, n); RawWalks(pre + e + post, |pre|, |pre + e|, n)
  {
    hide RawWalks, CodePoint, RawEscapeScan, IsIntro;
    var e := CodePoint(v, big, upper, n);
    CodePointRaw(pre, v, big, upper, n, post);
    CodePointLength(pre, v, big, upper, n, post);
    RawStep(pre + e + post, |pre|, n);
  }

  lemma CharRaw(pre: string, c: char, style: Style, n: nat, post: string)
    ensures var e := EncodeChar(c, style, n); RawWalks(pre + e + post, |pre|, |pre + e|, n)
  {
    hide RawWalks, CodePoint, ShortSelector;
    if style.Verbatim? && IsPlain(c) {
      RawPlain(pre + [c] + post, |pre|, |pre| + 1, n);
    } else if style.Short? && ShortSelector(c).Some? {
      ShortRaw(pre, c, n, post);
    } else if style.Hex4? && c as int <= 0xFFFF {
      ScalarRaw(pre, c as int, false, style.upper, n, post);
    } else if style.Surrogates? && c as int > 0xFFFF {
      PairRaw(pre, c as int, style, n, post);
    } else {
      ScalarRaw(pre, c as int, true, style.Hex8? && style.upper, n, post);
    }
  }

  lemma RawTransitive(s: string, i: nat, j: nat, k: nat, n: nat)
    requires i <= j <= k <= |s| && RawWalks(s, i, j, n) && RawWalks(s, j, k, n)
    ensures RawWalks(s, i, k, n)
  {
  }

  lemma PairRaw(pre: string, v: nat, style: Style, n: nat, post: string)
    requires 0x10000 <= v <= MAX_RUNE && style.Surrogates?
    ensures var hi := CodePoint(HighHalf(v), style.bigHi, style.upper, n);
            var lo := CodePoint(LowHalf(v), style.bigLo, style.upper, n);
            RawWalks(pre + (hi + lo) + post, |pre|, |pre + (hi + lo)|, n)
  {
    hide RawWalks, CodePoint;
    var hi := CodePoint(HighHalf(v), style.bigHi, style.upper, n);
    var lo := CodePoint(LowHalf(v), style.bigLo, style.upper, n);
    ScalarRaw(pre, HighHalf(v), style.bigHi, style.upper, n, lo + post);
    ScalarRaw(pre + hi, LowHalf(v), style.bigLo, style.upper, n, post);
    Assoc(pre, hi, lo);
    Assoc(pre + hi, lo, post);
    RawTransitive(pre + hi + lo + post, |pre|, |pre + hi|, |pre + hi + lo|, n);
  }

  // ----- One line -----

  lemma {:induction false} EncodedPasses(pre: string, t: string, styles: seq<Style>, n: nat, post: string)
    requires |styles| == |t|
    ensures var s, i, j := pre + Encode(t, styles, n) + post, |pre|, |pre + Encode(t, styles, n)|;
            CloseIndex(s, i, n, Quotes(n)) == CloseIndex(s, j, n, Quotes(n)) && RawWalks(s, i, j, n)
    decreases |t|
  {
    if t != "" {
      hide CloseIndex, RawEscapesOk, Aligned, EncodeChar;
      var e, rest := EncodeChar(t[0], styles[0], n), Encode(t[1..], styles[1..], n);
      var s := pre + Encode(t, styles, n) + post;
      assert s == pre + e + (rest + post) && s == (pre + e) + rest + post;
      assert |pre + Encode(t, styles, n)| == |pre + e + rest|;
      CharScan(pre, t[0], styles[0], n, rest + post, Quotes(n));
      CharRaw(pre, t[0], styles[0], n, rest + post);
      EncodedPasses(pre + e, t[1..], styles[1..], n, post);
    }
  }

  /** One character read by the decoder, escaped or not. */
  lemma CharDecodes(s: string, i: nat, n: nat, c: char, w: nat, ws: string, out: string, newline: bool)
    requires i < |s| && i + w <= |s| && ReadsAs(s, i, n, c, w) && Aligned(s, i, n) && Blank(ws)
    ensures Aligned(s, i + w, n)
    ensures DecodeLines(s, i, ws, n, out, newline, false) == DecodeLines(s, i + w, ws, n, out + [c], false, false)
  {
    if IsIntro(s, i, n) {
      EscapeStaysAligned(s, i, n);
      SelectorIsNoNewline(s, i, n);
      hide DecodeEscapeAt;
    }
  }

  lemma SelectorIsNoNewline(s: string, i: nat, n: nat)
    requires i + 2 + n <= |s| && DecodeEscapeAt(s, i, n).Some?
    ensures s[i + 1 + n] != '\n'
  {
  }

  lemma {:induction false} EncodedDecodes(pre: string, t: string, styles: seq<Style>, n: nat, post: string,
                                          ws: string, out: string, newline: bool)
    requires |styles| == |t| && Blank(ws)
    requires Aligned(pre + Encode(t, styles, n) + post, |pre|, n)
    ensures Aligned(pre + Encode(t, styles, n) + post, |pre + Encode(t, styles, n)|, n)
    ensures DecodeLines(pre + Encode(t, styles, n) + post, |pre|, ws, n, out, newline, false) ==
            DecodeLines(pre + Encode(t, styles, n) + post, |pre + Encode(t, styles, n)|, ws, n, out + t,
                        newline && t == "", false)
    decreases |t|
  {
    hide DecodeEscapeAt, EncodeChar, DecodeLines, Aligned, ReadsAs;
    var s := pre + Encode(t, styles, n) + post;
    if t == "" {
      assert out + t == out && pre + "" == pre;
    } else {
      var e, rest := EncodeChar(t[0], styles[0], n), Encode(t[1..], styles[1..], n);
      assert s == pre + e + (rest + post) && s == (pre + e) + rest + post;
      assert |pre + e + rest| == |pre + Encode(t, styles, n)|;
      CharRead(pre, t[0], styles[0], n, rest + post);
      CharDecodes(s, |pre|, n, t[0], |e|, ws, out, newline);
      EncodedDecodes(pre + e, t[1..], styles[1..], n, post, ws, out + [t[0]], false);
      assert out + [t[0]] + t[1..] == out + t;
    }
  }

  // ----- All lines -----

  lemma {:induction false} LinesPass(pre: string, lines: seq<string>, styles: seq<seq<Style>>, ws: string, n: nat, post: string)
    requires |styles| == |lines| && forall k | 0 <= k < |lines| :: |styles[k]| == |lines[k]|
    requires IsIndent(ws)
    ensures var e := EncodeLines(lines, styles, ws, n); var s, i, j := pre + e + post, |pre|, |pre + e|;
            CloseIndex(s, i, n, Quotes(n)) == CloseIndex(s, j, n, Quotes(n)) && RawWalks(s, i, j, n)
    decreases |lines|
  {
    hide CloseIndex, RawEscapesOk, Aligned, Encode;
    if lines != [] {
      var e, rest := Encode(lines[0], styles[0], n), EncodeLines(lines[1..], styles[1..], ws, n);
      var s := pre + EncodeLines(lines, styles, ws, n) + post;
      assert s == (pre + ws) + e + ("\n" + rest + post) && s == (pre + ws + e + "\n") + rest + post;
      assert |pre + ws + e + "\n" + rest| == |pre + EncodeLines(lines, styles, ws, n)|;
      forall k | |pre| <= k < |pre + ws| ensures s[k] != '\\' && s[k] != '"' { assert s[k] == ws[k - |pre|] && s[k] in ws; }
      PlainPasses(s, |pre|, |pre + ws|, n);
      EncodedPasses(pre + ws, lines[0], styles[0], n, "\n" + rest + post);
      assert s[|pre + ws + e|] == '\n';
      PlainPasses(s, |pre + ws + e|, |pre + ws + e + "\n"|, n);
      LinesPass(pre + ws + e + "\n", lines[1..], styles[1..], ws, n, post);
    }
  }

  lemma PlainPasses(s: string, i: nat, j: nat, n: nat)
    requires i <= j <= |s| && forall k | i <= k < j :: s[k] != '\\' && s[k] != '"'
    ensures CloseIndex(s, i, n, Quotes(n)) == CloseIndex(s, j, n, Quotes(n)) && RawWalks(s, i, j, n)
  {
    ScanPlain(s, i, j, n, Quotes(n));
    RawPlain(s, i, j, n);
  }

  /** A newline and the indentation of the line it starts. */
  lemma NewlineDecodes(s: string, i: nat, n: nat, ws: string, out: string, newline: bool)
    requires i < |s| && s[i] == '\n' && Aligned(s, i, n) && Blank(ws)
    requires i + 1 + |ws| <= |s| && s[i + 1..i + 1 + |ws|] == ws
    ensures Aligned(s, i + 1 + |ws|, n)
    ensures DecodeLines(s, i, ws, n, out, newline, false) == DecodeLines(s, i + 1 + |ws|, ws, n, out + "\n", true, false)
  {
    assert SkipIndent(s, i + 1, ws) == Some(i + 1 + |ws|);
    IndentStaysAligned(s, i + 1, ws, n);
  }

  /** One line, its newline, and the indentation after it. */
  lemma LineDecodes(pre: string, t: string, styles: seq<Style>, n: nat, ws: string, post: string, out: string, newline: bool)
    requires |styles| == |t| && Blank(ws)
    requires Aligned(pre + Encode(t, styles, n) + "\n" + ws + post, |pre|, n)
    ensures var s, j := pre + Encode(t, styles, n) + "\n" + ws + post, |pre + Encode(t, styles, n) + "\n" + ws|;
            && Aligned(s, j, n)
            && DecodeLines(s, |pre|, ws, n, out, newline, false) == DecodeLines(s, j, ws, n, out + t + "\n", true, false)
  {
    hide DecodeLines, Aligned, Encode;
    var e := Encode(t, styles, n);
    var s := pre + e + "\n" + ws + post;
    assert s == pre + e + ("\n" + ws + post);
    EncodedDecodes(pre, t, styles, n, "\n" + ws + post, ws, out, newline);
    var i := |pre + e|;
    assert s[i] == '\n' && s[i + 1..i + 1 + |ws|] == ws;
    NewlineDecodes(s, i, n, ws, out + t, newline && t == "");
  }

  /** Whatever follows a line break begins with the indentation. */
  lemma RestIndented(lines: seq<string>, styles: seq<seq<Style>>, ws: string, n: nat) returns (post: string)
    requires |styles| == |lines| && forall k | 0 <= k < |lines| :: |styles[k]| == |lines[k]|
    ensures EncodeLines(lines, styles, ws, n) + ws == ws + post
  {
    hide Encode;
    if lines == [] {
      post := "";
    } else {
      var e, rest := Encode(lines[0], styles[0], n), EncodeLines(lines[1..], styles[1..], ws, n);
      post := e + "\n" + rest + ws;
      LineShape("", ws, e, rest);
    }
  }

  lemma LineShape(pre: string, ws: string, e: string, rest: string)
    ensures pre + (ws + e + "\n" + rest) + ws == pre + (ws + (e + "\n" + rest + ws))
    ensures pre + (ws + e + "\n" + rest) + ws == (pre + ws + e + "\n") + rest + ws
  {
  }

  lemma LinesShape(pre: string, ws: string, e: string, rest: string, post: string)
    requires rest + ws == ws + post
    ensures pre + (ws + e + "\n" + rest) + ws == (pre + ws) + e + "\n" + ws + post
    ensures |(pre + ws) + e + "\n" + ws| == |(pre + ws + e + "\n") + ws|
  {
    var front := pre + ws + e + "\n";
    LineShape(pre, ws, e, rest);
    Assoc(front, rest, ws);
    Assoc(front, ws, post);
  }

  /** From the first character of a line: every line is read, each newline and indentation skipped. */
  lemma {:induction false} LinesDecode(pre: string, lines: seq<string>, styles: seq<seq<Style>>, ws: string, n: nat,
                                       out: string, newline: bool)
    requires |styles| == |lines| && forall k | 0 <= k < |lines| :: |styles[k]| == |lines[k]|
    requires Blank(ws) && (lines == [] ==> newline)
    requires Aligned(pre + EncodeLines(lines, styles, ws, n) + ws, |pre + ws|, n)
    ensures DecodeLines(pre + EncodeLines(lines, styles, ws, n) + ws, |pre + ws|, ws, n, out, newline, false) ==
            DecodeLines(pre + EncodeLines(lines, styles, ws, n) + ws, |pre + EncodeLines(lines, styles, ws, n) + ws|, ws, n,
                        out + Terminated(lines), true, false)
    decreases |lines|
  {
    hide DecodeLines, Aligned, Encode, Blank;
    if lines == [] {
      EmptyRight(pre);
      EmptyRight(out);
    } else {
      var e, rest := Encode(lines[0], styles[0], n), EncodeLines(lines[1..], styles[1..], ws, n);
      var last, more := lines[0], Terminated(lines[1..]);
      var post := RestIndented(lines[1..], styles[1..], ws, n);
      LineShape(pre, ws, e, rest);
      LinesShape(pre, ws, e, rest, post);
      Assoc(out, last + "\n", more);
      Assoc(out, last, "\n");
      hide EncodeLines, Terminated;
      LineDecodes(pre + ws, last, styles[0], n, ws, post, out, newline);
      LinesDecode(pre + ws + e + "\n", lines[1..], styles[1..], ws, n, out + last + "\n", true);
    }
  }

  // ----- The whole label -----

  /** The text between the quotes. */
  function Body(lines: seq<string>, styles: seq<seq<Style>>, ws: string, n: nat): string
    requires |styles| == |lines| && forall k | 0 <= k < |lines| :: |styles[k]| == |lines[k]|
  {
    "\n" + EncodeLines(lines, styles, ws, n) + ws
  }

  lemma BodyParts(e: string, ws: string, q: string, post: string)
    ensures "\n" + e + ws + q + post == "\n" + e + (ws + q + post)
  {
    Assoc("\n" + e, ws, q);
    Assoc("\n" + e, ws + q, post);
  }

  lemma IndentIsBlank(ws: string)
    requires IsIndent(ws)
    ensures Blank(ws)
  {
  }

  lemma IndentChars(ws: string)
    requires IsIndent(ws)
    ensures forall j | 0 <= j < |ws| :: IsSpace(ws[j]) && ws[j] != '\n' && ws[j] != '\\' && ws[j] != '"'
  {
    forall j | 0 <= j < |ws| ensures IsSpace(ws[j]) && ws[j] != '\n' && ws[j] != '\\' && ws[j] != '"' {
      assert ws[j] in ws;
    }
  }

  /** Nothing happens in the scan or in the raw check over the indentation. */
  lemma IndentPasses(front: string, ws: string, rest: string, n: nat)
    requires IsIndent(ws)
    ensures var s := front + (ws + rest);
            && CloseIndex(s, |front|, n, Quotes(n)) == CloseIndex(s, |front| + |ws|, n, Quotes(n))
            && RawWalks(s, |front|, |front| + |ws|, n)
  {
    hide *;
    var s := front + (ws + rest);
    IndentChars(ws);
    forall k | |front| <= k < |front| + |ws| ensures s[k] != '\\' && s[k] != '"' {
      ConcatAt(front, ws + rest, k - |front|);
      assert (ws + rest)[k - |front|] == ws[k - |front|];
    }
    PlainPasses(s, |front|, |front| + |ws|, n);
  }

  lemma FirstNewlinePasses(rest: string, n: nat)
    ensures var s := "\n" + rest; CloseIndex(s, 0, n, Quotes(n)) == CloseIndex(s, 1, n, Quotes(n)) && RawWalks(s, 0, 1, n)
  {
    PlainPasses("\n" + rest, 0, 1, n);
  }

  lemma BodyScans(lines: seq<string>, styles: seq<seq<Style>>, ws: string, n: nat, post: string)
    requires |styles| == |lines| && forall k | 0 <= k < |lines| :: |styles[k]| == |lines[k]|
    requires IsIndent(ws)
    ensures var body := Body(lines, styles, ws, n);
            CloseIndex(body + Quotes(n) + post, 0, n, Quotes(n)) == Some(|body|)
  {
    var body, e, q := Body(lines, styles, ws, n), EncodeLines(lines, styles, ws, n), Quotes(n);
    assert body == "\n" + e + ws;
    hide EncodeLines, Body, CloseIndex, RawWalks, Quotes, IsIndent;
    BodyParts(e, ws, q, post);
    Assoc("\n", e, ws + q + post);
    FirstNewlinePasses(e + (ws + q + post), n);
    LinesPass("\n", lines, styles, ws, n, ws + q + post);
    Assoc(ws, q, post);
    IndentPasses("\n" + e, ws, q + post, n);
    CloseHere(body, n, q, post);
  }

  lemma BodyRawOk(lines: seq<string>, styles: seq<seq<Style>>, ws: string, n: nat)
    requires |styles| == |lines| && forall k | 0 <= k < |lines| :: |styles[k]| == |lines[k]|
    requires IsIndent(ws) && Aligned(Body(lines, styles, ws, n), 0, n)
    ensures RawEscapesOk(Body(lines, styles, ws, n), 0, n)
  {
    var body, e := Body(lines, styles, ws, n), EncodeLines(lines, styles, ws, n);
    assert body == "\n" + e + ws;
    assert Aligned(body, |body|, n) ==> RawEscapesOk(body, |body|, n);
    hide EncodeLines, Body, CloseIndex, RawEscapesOk, Quotes, IsIndent, Aligned;
    Assoc("\n", e, ws);
    FirstNewlinePasses(e + ws, n);
    LinesPass("\n", lines, styles, ws, n, ws);
    EmptyRight(ws);
    IndentPasses("\n" + e, ws, "", n);
  }

  lemma {:induction false} IndentStartIs(s: string, k: nat, i: nat)
    requires k <= i <= |s| && (forall j | k <= j < i :: IsSpace(s[j]) && s[j] != '\n') && k > 0 && s[k - 1] == '\n'
    ensures IndentStart(s, i) == k
    decreases i
  {
    if i > k { IndentStartIs(s, k, i - 1); }
  }

  lemma {:induction false} LinesEndInNewline(lines: seq<string>, styles: seq<seq<Style>>, ws: string, n: nat)
    requires lines != [] && |styles| == |lines| && forall k | 0 <= k < |lines| :: |styles[k]| == |lines[k]|
    ensures var e := EncodeLines(lines, styles, ws, n);
            |e| > |ws| && e[|e| - 1] == '\n' && e[..|ws|] == ws && (e[0] == '\n' ==> ws == "" || ws[0] == '\n')
  {
    var head := ws + Encode(lines[0], styles[0], n) + "\n";
    var rest := EncodeLines(lines[1..], styles[1..], ws, n);
    assert EncodeLines(lines, styles, ws, n) == head + rest;
    if |lines| > 1 { LinesEndInNewline(lines[1..], styles[1..], ws, n); }
  }

  lemma BodyIndentation(lines: seq<string>, styles: seq<seq<Style>>, ws: string, n: nat)
    requires lines != [] && |styles| == |lines| && forall k | 0 <= k < |lines| :: |styles[k]| == |lines[k]|
    requires IsIndent(ws)
    ensures Indentation(Body(lines, styles, ws, n), n) == Some((ws, 1 + |ws|))
  {
    LinesEndInNewline(lines, styles, ws, n);
    var e := EncodeLines(lines, styles, ws, n);
    hide EncodeLines;
    if ws != "" { assert ws[0] in ws; }
    IndentationOf(e, ws, n);
  }

  lemma IndentationOf(e: string, ws: string, n: nat)
    requires IsIndent(ws) && |e| > |ws| && e[|e| - 1] == '\n' && e[..|ws|] == ws && (e[0] == '\n' ==> ws == "")
    ensures Indentation("\n" + e + ws, n) == Some((ws, 1 + |ws|))
  {
    hide *;
    IndentChars(ws);
    var body, k := "\n" + e + ws, 1 + |e|;
    BodyAt(e, ws);
    IndentStartIs(body, k, |body|);
    IndentationIs(body, ws, k, n);
  }

  lemma IndentationIs(body: string, ws: string, k: nat, n: nat)
    requires body != "" && body[0] == '\n' && 1 + |ws| <= |body| && body[1..1 + |ws|] == ws
    requires IndentStart(body, |body|) == k && 0 < k <= |body| && body[k - 1] == '\n' && body[k..] == ws
    requires |body| > 1 && body[1] == '\n' ==> ws == ""
    ensures Indentation(body, n) == Some((ws, 1 + |ws|))
  {
    hide IndentStart, Blank, IsSpace, Aligned;
    if body[1..] == "" || body[1] != '\n' {
      assert HasPrefixAt(body, 1, ws);
      hide HasPrefixAt;
    }
  }

  lemma BodyAt(e: string, ws: string)
    requires |e| > |ws|
    ensures var body := "\n" + e + ws;
            && |body| == 1 + |e| + |ws| && body[0] == '\n' && body[1] == e[0] && body[|e|] == e[|e| - 1]
            && body[1 + |e|..] == ws && body[1..1 + |ws|] == e[..|ws|]
            && (forall j | 1 + |e| <= j < |body| :: body[j] == ws[j - 1 - |e|])
  {
  }

  lemma BodyDecodes(lines: seq<string>, styles: seq<seq<Style>>, ws: string, n: nat)
    requires lines != [] && |styles| == |lines| && forall k | 0 <= k < |lines| :: |styles[k]| == |lines[k]|
    requires IsIndent(ws) && Aligned(Body(lines, styles, ws, n), 0, n)
    ensures Blank(ws) && 1 + |ws| <= |Body(lines, styles, ws, n)| && Aligned(Body(lines, styles, ws, n), 1 + |ws|, n)
    ensures DecodeLines(Body(lines, styles, ws, n), 1 + |ws|, ws, n, "", false, false) == Some(Join(lines))
  {
    var body, e := Body(lines, styles, ws, n), EncodeLines(lines, styles, ws, n);
    BodyIndentation(lines, styles, ws, n);
    IndentIsBlank(ws);
    SkipPlain(body, 0, 1 + |ws|, n);
    assert body == "\n" + e + ws && |"\n" + ws| == 1 + |ws|;
    LinesDecode("\n", lines, styles, ws, n, "", false);
    TerminatedIsJoin(lines);
    assert "" + Terminated(lines) == Terminated(lines);
    assert Terminated(lines)[..|Terminated(lines)| - 1] == Join(lines);
  }

  lemma RawBodyDecodes(lines: seq<string>, styles: seq<seq<Style>>, ws: string, n: nat)
    requires lines != [] && |styles| == |lines| && forall k | 0 <= k < |lines| :: |styles[k]| == |lines[k]|
    requires IsIndent(ws) && Aligned(Body(lines, styles, ws, n), 0, n)
    ensures DecodeRawBody(Body(lines, styles, ws, n), n) == Some(Join(lines))
  {
    hide CloseIndex, DecodeLines, RawEscapesOk, EncodeLines, Indentation, Aligned;
    var body, q := Body(lines, styles, ws, n), Quotes(n);
    BodyRawOk(lines, styles, ws, n);
    LinesHaveNoCR(lines, styles, ws, n);
    assert '\r' !in body by { assert forall c <- ws :: c != '\r'; }
    StripNothing(body);
    BodyScans(lines, styles, ws, n, "");
    assert body + q + "" == body + q;
    BodyIndentation(lines, styles, ws, n);
    BodyDecodes(lines, styles, ws, n);
    StrippedIsAligned(body, n);
  }

  /** MAIN: an indented triple-quoted label ends where it was closed and decodes to its lines joined by newlines. */
  lemma MultilineRoundTrip(pre: string, lines: seq<string>, styles: seq<seq<Style>>, ws: string, n: nat, post: string)
    requires lines != [] && |styles| == |lines| && forall k | 0 <= k < |lines| :: |styles[k]| == |lines[k]|
    requires IsIndent(ws)
    ensures var token := Opener(n) + Body(lines, styles, ws, n) + Quotes(n);
            ParseMultiline(pre + token + post, |pre|, n) == Some((Join(lines), |pre + token|))
  {
    hide CloseIndex, DecodeRawBody, Body, Aligned;
    var body, q := Body(lines, styles, ws, n), Quotes(n);
    var expr := pre + (Opener(n) + body + q) + post;
    assert expr[|pre| + n + 3..] == body + q + post;
    BodyScans(lines, styles, ws, n, post);
    CloseLeavesAligned(body + q + post, 0, n, q);
    assert (body + q + post)[..|body|] == body;
    RawBodyDecodes(lines, styles, ws, n);
  }

}
