/**
  Printing any sequence of non-empty labels as a path, and parsing it back: identifiers, quoted, raw and
  triple-quoted labels, dots and brackets, with blanks, newlines and comments wherever they may stand.
 */
module PathQuoting {

  import opened Wrappers
  import opened Escapes
  import opened Sequences
  import opened Quoting
  import opened Multiline
  import opened MultilineQuoting
  import opened Paths

  // ----- What may be printed -----

  /** The characters that count: three blanks, `$` and letters to start an identifier, `_` and digits to go on. */
  lemma CharactersAre(u: Classes, c: char)
    ensures IsPathSpace(c) <==> c in " \t\r"
    ensures IsIdentStart(u, c) <==> c == '$' || 'a' <= c <= 'z' || 'A' <= c <= 'Z' || (c > '\U{7F}' && u.letter(c))
    ensures IsIdentCont(u, c) <==> IsIdentStart(u, c) || c == '_' || '0' <= c <= '9' || (c > '\U{7F}' && u.digit(c))
  {
  }

  /** A blank or newline, or a comment with the newline that ends it. */
  datatype Piece = Blank(c: char) | Comment(text: string)

  predicate PieceOk(p: Piece)
  {
    match p
    case Blank(c) => IsPathSpace(c) || c == '\n'
    case Comment(text) => '\n' !in text && Clean(text)
  }

  function PrintPiece(p: Piece): string
  {
    match p
    case Blank(c) => [c]
    case Comment(text) => "//" + text + "\n"
  }

  function PrintFiller(f: seq<Piece>): string
  {
    if f == [] then "" else PrintPiece(f[0]) + PrintFiller(f[1..])
  }

  predicate FillerOk(f: seq<Piece>)
  {
    forall p <- f :: PieceOk(p)
  }

  /** Blanks that end no line. */
  predicate GapOk(s: string)
  {
    forall c <- s :: IsPathSpace(c)
  }

  /** Neither a NUL nor a byte order mark, wherever the text has them, is printed raw. */
  predicate Clean(s: string)
  {
    BOM !in s && '\U{00}' !in s
  }

  /**
    An identifier as it is; a label on one line, quoted or raw, with a style for each character; or a
    triple-quoted block of indented lines.
   */
  datatype Form = Bare
                | Line(level: nat, styles: seq<Style>)
                | Block(level: nat, lines: seq<string>, lineStyles: seq<seq<Style>>, indent: string)

  /** How one selector is printed: bracketed or dotted, in which form, and what stands between its parts. */
  datatype Print = Print(bracket: bool, form: Form, gap: string, fill: seq<Piece>, inner: string)

  /** What follows the last selector: blanks, then perhaps a newline or comment and any filler. */
  datatype Trailer = Trailer(gap: string, fill: seq<Piece>)

  predicate IsIdentifier(u: Classes, text: string)
  {
    text != "" && IsIdentStart(u, text[0]) && forall c <- text :: IsIdentCont(u, c)
  }

  /** The names the grammar reads as values at the head. */
  predicate IsKeyword(text: string)
  {
    text == "true" || text == "false" || text == "null"
  }

  /** The form prints the text: an identifier, a style for each character, or lines that the text joins. */
  predicate Spells(u: Classes, text: string, f: Form)
  {
    match f
    case Bare => IsIdentifier(u, text)
    case Line(_, styles) => |styles| == |text|
    case Block(_, lines, styles, indent) =>
      && lines != [] && Join(lines) == text && IsIndent(indent)
      && |styles| == |lines| && forall k | 0 <= k < |lines| :: |styles[k]| == |lines[k]|
  }

  /**
    A selector after a dot is an identifier or a plain quoted string; in brackets it is a string of any kind;
    the head may be any form, but no keyword as an identifier.
   */
  predicate Fits(u: Classes, text: string, p: Print, head: bool)
  {
    && text != "" && Spells(u, text, p.form) && GapOk(p.gap) && FillerOk(p.fill) && GapOk(p.inner)
    && (head ==> p.form.Bare? ==> !IsKeyword(text))
    && (!head && p.bracket ==> !p.form.Bare?)
    && (!head && !p.bracket ==> p.form.Bare? || (p.form.Line? && p.form.level == 0))
  }

  predicate TrailerOk(t: Trailer)
  {
    && GapOk(t.gap) && FillerOk(t.fill)
    && (t.fill != [] ==> t.fill[0] == Blank('\n') || t.fill[0].Comment?)
  }

  function PrintLine(text: string, level: nat, styles: seq<Style>): string
    requires |styles| == |text|
  {
    Hashes(level) + "\"" + Encode(text, styles, level) + "\"" + Hashes(level)
  }

  function PrintString(u: Classes, text: string, f: Form): string
    requires Spells(u, text, f)
  {
    match f
    case Bare => text
    case Line(level, styles) => PrintLine(text, level, styles)
    case Block(level, lines, styles, indent) => Opener(level) + Body(lines, styles, indent, level) + Quotes(level)
  }

  function PrintNext(u: Classes, text: string, p: Print): string
    requires Spells(u, text, p.form)
  {
    var shown := PrintFiller(p.fill) + PrintString(u, text, p.form);
    if p.bracket then p.gap + "[" + shown + p.inner + "]" else p.gap + "." + shown
  }

  /** The selectors after the head, and whatever follows them. */
  function PrintOn(u: Classes, texts: seq<string>, ps: seq<Print>, more: string): string
    requires |ps| == |texts| && forall k | 0 <= k < |texts| :: Fits(u, texts[k], ps[k], false)
  {
    if texts == [] then more
    else
      assert Fits(u, texts[0], ps[0], false);
      PrintNext(u, texts[0], ps[0]) + PrintOn(u, texts[1..], ps[1..], more)
  }

  function PrintTrailer(t: Trailer): string
  {
    t.gap + PrintFiller(t.fill)
  }

  function PrintHead(u: Classes, text: string, p: Print): string
    requires Spells(u, text, p.form)
  {
    PrintFiller(p.fill) + PrintString(u, text, p.form)
  }

  function PrintPath(u: Classes, texts: seq<string>, ps: seq<Print>, t: Trailer): string
    requires texts != [] && |ps| == |texts| && Fits(u, texts[0], ps[0], true)
    requires forall k | 1 <= k < |texts| :: Fits(u, texts[k], ps[k], false)
  {
    PrintHead(u, texts[0], ps[0]) + PrintOn(u, texts[1..], ps[1..], PrintTrailer(t))
  }

  // ----- One string -----

  lemma {:induction false} CountHashesIs(e: string, pos: nat, n: nat)
    requires pos + n < |e| && HashRun(e, pos, n) && e[pos + n] != '#'
    ensures CountHashes(e, pos) == n
    decreases n
  {
    if n > 0 { CountHashesIs(e, pos + 1, n - 1); }
  }

  lemma EncodedHead(text: string, styles: seq<Style>, n: nat)
    requires text != "" && |styles| == |text|
    ensures Encode(text, styles, n)[0] != '"'
  {
    assert Encode(text, styles, n)[0] == EncodeChar(text[0], styles[0], n)[0];
  }

  lemma PrintedParts(pre: string, text: string, n: nat, styles: seq<Style>, post: string)
    requires |styles| == |text|
    ensures pre + PrintLine(text, n, styles) + post ==
            pre + (Hashes(n) + ("\"" + (Encode(text, styles, n) + ("\"" + Hashes(n) + post))))
  {
    var hs, body := Hashes(n), Encode(text, styles, n);
    hide *;
    Assoc(pre, hs + "\"" + body + "\"" + hs, post);
    Assoc(hs + "\"" + body + "\"", hs, post);
    Assoc(hs + "\"" + body, "\"", hs + post);
    Assoc(hs + "\"", body, "\"" + (hs + post));
    Assoc(hs, "\"", body + ("\"" + (hs + post)));
    Assoc("\"", hs, post);
  }

  /** The printed line, character by character as far as it matters where it starts. */
  lemma LineShape(pre: string, text: string, n: nat, styles: seq<Style>, post: string)
    requires text != "" && |styles| == |text|
    ensures var e := pre + PrintLine(text, n, styles) + post; var at := |pre| + n;
            && at + 1 < |e| && HashRun(e, |pre|, n) && e[at] == '"' && e[at + 1] != '"'
  {
    PrintedParts(pre, text, n, styles, post);
    EncodedHead(text, styles, n);
    var hs, body := Hashes(n), Encode(text, styles, n);
    var tail := "\"" + hs + post;
    var e := pre + PrintLine(text, n, styles) + post;
    hide Encode, Hashes, PrintLine;
    ConcatAt(pre, hs + ("\"" + (body + tail)), n);
    ConcatAt(pre, hs + ("\"" + (body + tail)), n + 1);
    ConcatAt(hs, "\"" + (body + tail), 0);
    ConcatAt(hs, "\"" + (body + tail), 1);
    forall k | |pre| <= k < |pre| + n ensures e[k] == '#' {
      ConcatAt(pre, hs + ("\"" + (body + tail)), k - |pre|);
      assert hs[k - |pre|] in hs;
    }
  }

  /** A printed line at pos is neither filler nor the start of a triple quote. */
  lemma LineStart(pre: string, text: string, n: nat, styles: seq<Style>, post: string)
    requires text != "" && |styles| == |text|
    ensures var e := pre + PrintLine(text, n, styles) + post; var pos := |pre|;
            && SkipExprSpace(e, pos) == pos < |e|
            && CountHashes(e, pos) == n && pos + n < |e| && e[pos + n] == '"'
            && !IsMultilineStart(e, pos) && (IsRawStart(e, pos) <==> n > 0)
  {
    LineShape(pre, text, n, styles, post);
    QuoteStart(pre + PrintLine(text, n, styles) + post, |pre|, n);
  }

  lemma QuoteStart(e: string, pos: nat, n: nat)
    requires pos + n + 1 < |e| && HashRun(e, pos, n) && e[pos + n] == '"' && e[pos + n + 1] != '"'
    ensures SkipExprSpace(e, pos) == pos && CountHashes(e, pos) == n
    ensures !IsMultilineStart(e, pos) && (IsRawStart(e, pos) <==> n > 0)
  {
    CountHashesIs(e, pos, n);
    hide CountHashes;
    if pos + n + 3 <= |e| { assert e[pos + n..pos + n + 3][1] == e[pos + n + 1]; }
  }

  lemma LineRead(pre: string, text: string, n: nat, styles: seq<Style>, post: string)
    requires text != "" && |styles| == |text|
    requires |pre| + n < |pre + PrintLine(text, n, styles) + post|
    ensures ConsumeString(pre + PrintLine(text, n, styles) + post, |pre|, n) == Some((text, |pre + PrintLine(text, n, styles)|))
  {
    var body, close := Encode(text, styles, n), "\"" + Hashes(n);
    var e := pre + PrintLine(text, n, styles) + post;
    assert e == pre + Hashes(n) + "\"" + (body + close + post);
    assert e[|pre| + n + 1..] == body + close + post;
    LabelRoundTrip(text, styles, n, close, post);
    assert (body + close + post)[..|body|] == body;
  }

  // ----- One block -----

  lemma OpenerShape(pre: string, n: nat, rest: string)
    ensures var e := pre + Opener(n) + rest; var pos := |pre|;
            && pos + n + 3 <= |e| && HashRun(e, pos, n) && e[pos + n..pos + n + 3] == "\"\"\""
            && (e[pos] == '#' || e[pos] == '"')
  {
    var e, hs, pos := pre + Opener(n) + rest, Hashes(n), |pre|;
    hide Hashes, CountHashes, SkipExprSpace;
    assert e == pre + hs + ("\"\"\"" + rest);
    forall k | pos <= k < pos + n ensures e[k] == '#' { assert e[k] == hs[k - pos] && hs[k - pos] in hs; }
    assert n == 0 ==> e[pos] == '"';
  }

  /** A printed block at pos is no filler and starts a triple quote. */
  lemma BlockStart(pre: string, n: nat, rest: string)
    ensures var e := pre + Opener(n) + rest;
            && SkipExprSpace(e, |pre|) == |pre| < |e| && CountHashes(e, |pre|) == n && IsMultilineStart(e, |pre|)
  {
    hide Opener, CountHashes, Hashes;
    var e, pos := pre + Opener(n) + rest, |pre|;
    OpenerShape(pre, n, rest);
    assert e[pos + n] == e[pos + n..pos + n + 3][0];
    CountHashesIs(e, pos, n);
  }

  lemma BlockRead(u: Classes, pre: string, text: string, f: Form, post: string)
    requires text != "" && f.Block? && Spells(u, text, f)
    ensures var e := pre + PrintString(u, text, f) + post;
            && SkipExprSpace(e, |pre|) == |pre| < |e| && IsMultilineStart(e, |pre|)
            && ConsumeMultiline(e, |pre|) == Some((text, |pre + PrintString(u, text, f)|))
  {
    var n, body := f.level, Body(f.lines, f.lineStyles, f.indent, f.level);
    var e := pre + PrintString(u, text, f) + post;
    hide Body, Quotes, Opener, ParseMultiline, CountHashes, SkipExprSpace, Join, IsIndent;
    assert e == pre + Opener(n) + (body + Quotes(n) + post);
    BlockStart(pre, n, body + Quotes(n) + post);
    MultilineRoundTrip(pre, f.lines, f.lineStyles, f.indent, n, post);
  }

  // ----- Filler and gaps -----

  /** Filler is skipped where a label is expected. */
  lemma {:induction false} FillerSkips(pre: string, f: seq<Piece>, rest: string)
    requires FillerOk(f)
    ensures var e := pre + PrintFiller(f) + rest;
      SkipExprSpace(e, |pre|) == SkipExprSpace(e, |pre + PrintFiller(f)|)
    decreases |f|
  {
    if f == [] {
      assert pre + "" == pre;
    } else {
      var piece, more := PrintPiece(f[0]), PrintFiller(f[1..]);
      var e := pre + PrintFiller(f) + rest;
      assert PieceOk(f[0]) by { assert f[0] in f; }
      assert e == pre + piece + (more + rest) && e == (pre + piece) + more + rest;
      FillerSkips(pre + piece, f[1..], rest);
      assert |pre + PrintFiller(f)| == |(pre + piece) + more|;
      hide FillerOk;
      match f[0]
      case Blank(c) => BlankSkips(pre, c, more + rest);
      case Comment(text) => CommentSkips(pre, text, more + rest);
    }
  }

  lemma BlankSkips(pre: string, c: char, rest: string)
    requires IsPathSpace(c) || c == '\n'
    ensures var e := pre + [c] + rest; SkipExprSpace(e, |pre|) == SkipExprSpace(e, |pre + [c]|)
  {
    var e := pre + [c] + rest;
    assert e[|pre|] == c;
  }

  lemma {:induction false} LineEndAt(e: string, pos: nat, n: nat)
    requires pos + n < |e| && e[pos + n] == '\n' && forall k | pos <= k < pos + n :: e[k] != '\n'
    ensures LineEnd(e, pos) == pos + n
    decreases n
  {
    if n > 0 { LineEndAt(e, pos + 1, n - 1); }
  }

  lemma CommentSkips(pre: string, text: string, rest: string)
    requires '\n' !in text
    ensures var e := pre + ("//" + text + "\n") + rest; SkipExprSpace(e, |pre|) == SkipExprSpace(e, |pre + ("//" + text + "\n")|)
  {
    var e, p := pre + ("//" + text + "\n") + rest, |pre|;
    assert e[p] == '/' && e[p + 1] == '/';
    forall k | p + 2 <= k < p + 2 + |text| ensures e[k] != '\n' { assert e[k] == text[k - p - 2] && text[k - p - 2] in text; }
    assert e[p + 2 + |text|] == '\n';
    LineEndAt(e, p + 2, |text|);
    assert SkipExprSpace(e, p) == SkipExprSpace(e, p + 2 + |text|);
    assert !IsLineComment(e, p + 2 + |text|);
  }

  lemma {:induction false} GapSkips(pre: string, gap: string, rest: string)
    requires GapOk(gap)
    ensures var e := pre + gap + rest; SkipPathSpace(e, |pre|) == SkipPathSpace(e, |pre + gap|)
    decreases |gap|
  {
    if gap == "" {
      assert pre + "" == pre;
    } else {
      var e := pre + gap + rest;
      assert gap == [gap[0]] + gap[1..] && gap[0] in gap;
      assert e == (pre + [gap[0]]) + gap[1..] + rest;
      GapSkips(pre + [gap[0]], gap[1..], rest);
      assert e[|pre|] == gap[0];
      assert |pre + gap| == |(pre + [gap[0]]) + gap[1..]|;
    }
  }

  // ----- Identifiers -----

  /** What follows a label never continues an identifier. */
  predicate Ends(u: Classes, post: string)
  {
    post == "" || !IsIdentCont(u, post[0])
  }

  lemma {:induction false} IdentEndIs(u: Classes, e: string, pos: nat, n: nat)
    requires pos + n <= |e| && (forall k | pos <= k < pos + n :: IsIdentCont(u, e[k])) && (pos + n < |e| ==> !IsIdentCont(u, e[pos + n]))
    ensures IdentEnd(u, e, pos) == pos + n
    decreases n
  {
    if n > 0 { IdentEndIs(u, e, pos + 1, n - 1); }
  }

  /** An identifier starts neither filler nor a string. */
  lemma BareStart(u: Classes, pre: string, text: string, post: string)
    requires IsIdentifier(u, text)
    ensures var e := pre + text + post;
      && SkipExprSpace(e, |pre|) == |pre| < |e| && IsIdentStart(u, e[|pre|])
      && !IsMultilineStart(e, |pre|) && !IsRawStart(e, |pre|) && e[|pre|] != '"'
  {
    var e, p := pre + text + post, |pre|;
    assert e[p] == text[0];
    assert e[p] != '#' && e[p] != '"' && e[p] != '/';
    assert CountHashes(e, p) == 0;
    if p + 3 <= |e| { assert e[p..p + 3][0] == e[p]; }
  }

  lemma BareEnd(u: Classes, pre: string, text: string, post: string)
    requires IsIdentifier(u, text) && Ends(u, post)
    ensures var e := pre + text + post; IdentEnd(u, e, |pre| + 1) == |pre + text| && e[|pre|..|pre + text|] == text
  {
    var e, p := pre + text + post, |pre|;
    forall k | p <= k < p + |text| ensures IsIdentCont(u, e[k]) { assert e[k] == text[k - p] && text[k - p] in text; }
    if post != "" { assert e[p + |text|] == post[0]; }
    IdentEndIs(u, e, p + 1, |text| - 1);
  }

  lemma BareRead(u: Classes, pre: string, text: string, post: string, leading: bool)
    requires IsIdentifier(u, text) && Ends(u, post) && (leading ==> !IsKeyword(text))
    ensures ConsumeSegment(u, pre + text + post, |pre|, leading) == Some((text, |pre + text|))
  {
    BareStart(u, pre, text, post);
    BareEnd(u, pre, text, post);
    hide SkipExprSpace, IsMultilineStart, IsRawStart, IdentEnd, ConsumeString, IsIdentStart, IsIdentifier;
  }

  /** MAIN: a keyword at the head, whatever filler precedes it and whatever follows, is refused. */
  lemma KeywordRefused(u: Classes, f: seq<Piece>, text: string, post: string)
    requires FillerOk(f) && IsKeyword(text) && Ends(u, post)
    ensures ParsePath(u, PrintFiller(f) + text + post) == None
  {
    var pre := PrintFiller(f);
    var e := pre + text + post;
    assert IsIdentifier(u, text);
    hide IsKeyword, IsIdentifier, TrimBOM;
    NoMark(f, text, post);
    KeywordSegment(u, f, text, post);
    hide ConsumeSegment;
  }

  /** The text starts with no byte order mark. */
  lemma NoMark(f: seq<Piece>, text: string, post: string)
    requires FillerOk(f) && text != "" && text[0] != BOM
    ensures TrimBOM(PrintFiller(f) + text + post) == PrintFiller(f) + text + post
  {
    if f != [] {
      assert PieceOk(f[0]) by { assert f[0] in f; }
      assert PrintFiller(f)[0] == PrintPiece(f[0])[0];
    }
  }

  lemma KeywordSegment(u: Classes, f: seq<Piece>, text: string, post: string)
    requires FillerOk(f) && IsKeyword(text) && IsIdentifier(u, text) && Ends(u, post)
    ensures ConsumeSegment(u, PrintFiller(f) + text + post, 0, true) == None
  {
    hide *;
    var pre := PrintFiller(f);
    var e := pre + text + post;
    assert "" + pre + (text + post) == e && "" + pre == pre;
    FillerSkips("", f, text + post);
    KeywordRead(u, pre, text, post);
    SegmentMoves(u, e, 0, |pre|, true);
  }

  lemma KeywordRead(u: Classes, pre: string, text: string, post: string)
    requires IsKeyword(text) && IsIdentifier(u, text) && Ends(u, post)
    ensures ConsumeSegment(u, pre + text + post, |pre|, true) == None
  {
    BareStart(u, pre, text, post);
    BareEnd(u, pre, text, post);
    hide SkipExprSpace, IsMultilineStart, IsRawStart, IdentEnd, ConsumeString, IsIdentStart;
  }

  // ----- Parts of a text, by where they stand -----

  predicate Stands(e: string, pos: nat, s: string)
  {
    pos <= |e| && HasPrefixAt(e, pos, s)
  }

  lemma StandsConcat(e: string, pos: nat, a: string, b: string)
    requires Stands(e, pos, a + b)
    ensures Stands(e, pos, a) && Stands(e, pos + |a|, b)
  {
    assert e[pos..pos + |a|] == (a + b)[..|a|];
    assert e[pos + |a|..pos + |a| + |b|] == (a + b)[|a|..];
  }

  lemma StandsAround(e: string, pos: nat, s: string)
    requires Stands(e, pos, s)
    ensures e == e[..pos] + s + e[pos + |s|..] && |e[..pos] + s| == pos + |s|
  {
  }

  lemma FillerStands(e: string, pos: nat, f: seq<Piece>)
    requires FillerOk(f) && Stands(e, pos, PrintFiller(f))
    ensures SkipExprSpace(e, pos) == SkipExprSpace(e, pos + |PrintFiller(f)|)
  {
    hide *;
    StandsAround(e, pos, PrintFiller(f));
    FillerSkips(e[..pos], f, e[pos + |PrintFiller(f)|..]);
  }

  lemma GapStands(e: string, pos: nat, gap: string)
    requires GapOk(gap) && Stands(e, pos, gap)
    ensures SkipPathSpace(e, pos) == SkipPathSpace(e, pos + |gap|)
  {
    hide *;
    StandsAround(e, pos, gap);
    GapSkips(e[..pos], gap, e[pos + |gap|..]);
  }

  /** A single character that is no blank stands where the blanks before it end. */
  lemma MarkStands(e: string, pos: nat, c: char)
    requires Stands(e, pos, [c]) && !IsPathSpace(c)
    ensures pos < |e| && e[pos] == c && SkipPathSpace(e, pos) == pos
  {
    assert e[pos..pos + 1][0] == c;
  }

  // ----- One selector -----

  /** Only where filler ends matters to the selector after it. */
  lemma SegmentMoves(u: Classes, e: string, start: nat, pos: nat, leading: bool)
    requires start <= |e| && pos <= |e| && SkipExprSpace(e, start) == SkipExprSpace(e, pos)
    ensures ConsumeSegment(u, e, start, leading) == ConsumeSegment(u, e, pos, leading)
  {
    hide SkipExprSpace, ConsumeMultiline, ConsumeString, IsMultilineStart, IsRawStart, IdentEnd;
  }

  /** The string label that starts at pos, in whichever form. */
  function StringAt(e: string, pos: nat): Option<(string, nat)>
    requires pos <= |e|
  {
    if IsMultilineStart(e, pos) then ConsumeMultiline(e, pos)
    else if IsRawStart(e, pos) then ConsumeString(e, pos, CountHashes(e, pos))
    else if pos < |e| && e[pos] == '"' then ConsumeString(e, pos, 0)
    else None
  }

  /** A printed string label, read where it stands. */
  lemma StringRead(u: Classes, pre: string, text: string, f: Form, post: string)
    requires text != "" && !f.Bare? && Spells(u, text, f)
    ensures var s := PrintString(u, text, f); var e := pre + s + post;
            && SkipExprSpace(e, |pre|) == |pre| < |e| && StringAt(e, |pre|) == Some((text, |pre + s|))
            && (f.Line? && f.level == 0 ==> e[|pre|] == '"' && !IsMultilineStart(e, |pre|))
  {
    hide ConsumeString, ConsumeMultiline, CountHashes, SkipExprSpace, PrintLine, IsMultilineStart, IsRawStart, Body, Quotes, Opener, Join;
    match f
    case Line(level, styles) =>
      LineStart(pre, text, level, styles, post);
      LineRead(pre, text, level, styles, post);
    case Block(_, _, _, _) =>
      BlockRead(u, pre, text, f, post);
      hide PrintString;
  }

  lemma StringSegment(u: Classes, e: string, pos: nat, leading: bool)
    requires pos < |e| && SkipExprSpace(e, pos) == pos && StringAt(e, pos).Some?
    requires leading || (e[pos] == '"' && !IsMultilineStart(e, pos))
    ensures ConsumeSegment(u, e, pos, leading) == StringAt(e, pos)
  {
    hide ConsumeString, ConsumeMultiline, SkipExprSpace, IsMultilineStart, IdentEnd, HasPrefixAt;
  }

  lemma StringBracket(e: string, start: nat, pos: nat, r: (string, nat), close: nat)
    requires start <= |e| && pos < |e| && SkipExprSpace(e, start) == pos && StringAt(e, pos) == Some(r)
    requires r.1 <= |e| && SkipPathSpace(e, r.1) == close < |e| && e[close] == ']'
    ensures ConsumeBracket(e, start) == Some((r.0, close + 1))
  {
    hide ConsumeString, ConsumeMultiline, SkipExprSpace, SkipPathSpace, IsMultilineStart, IsRawStart, CountHashes;
  }

  lemma StringStands(u: Classes, e: string, pos: nat, text: string, f: Form)
    requires text != "" && !f.Bare? && Spells(u, text, f) && Stands(e, pos, PrintString(u, text, f))
    ensures SkipExprSpace(e, pos) == pos < |e| && StringAt(e, pos) == Some((text, pos + |PrintString(u, text, f)|))
    ensures f.Line? && f.level == 0 ==> e[pos] == '"' && !IsMultilineStart(e, pos)
  {
    hide *;
    var s := PrintString(u, text, f);
    StandsAround(e, pos, s);
    StringRead(u, e[..pos], text, f, e[pos + |s|..]);
  }

  lemma BareStands(u: Classes, e: string, pos: nat, text: string, leading: bool)
    requires IsIdentifier(u, text) && (leading ==> !IsKeyword(text))
    requires Stands(e, pos, text) && pos + |text| <= |e| && Ends(u, e[pos + |text|..])
    ensures ConsumeSegment(u, e, pos, leading) == Some((text, pos + |text|))
  {
    hide *;
    StandsAround(e, pos, text);
    BareRead(u, e[..pos], text, e[pos + |text|..], leading);
  }

  /** A label where one is expected at the head or after a dot. */
  lemma ShownRead(u: Classes, e: string, pos: nat, text: string, p: Print, leading: bool)
    requires Fits(u, text, p, leading) && (leading || !p.bracket)
    requires var s := PrintString(u, text, p.form); Stands(e, pos, s) && pos + |s| <= |e| && Ends(u, e[pos + |s|..])
    ensures ConsumeSegment(u, e, pos, leading) == Some((text, pos + |PrintString(u, text, p.form)|))
  {
    hide *;
    FitsForm(u, text, p, leading);
    if p.form.Bare? {
      BareStands(u, e, pos, text, leading);
    } else {
      StringStands(u, e, pos, text, p.form);
      StringSegment(u, e, pos, leading);
    }
  }

  /** A label where one is expected at the head or after a dot, filler before it. */
  lemma LabelRead(u: Classes, e: string, pos: nat, text: string, p: Print, leading: bool)
    requires Fits(u, text, p, leading) && (leading || !p.bracket)
    requires var h := PrintHead(u, text, p); Stands(e, pos, h) && pos + |h| <= |e| && Ends(u, e[pos + |h|..])
    ensures ConsumeSegment(u, e, pos, leading) == Some((text, pos + |PrintHead(u, text, p)|))
  {
    hide *;
    FitsParts(u, text, p, leading);
    var f, s := PrintFiller(p.fill), PrintString(u, text, p.form);
    HeadShape(u, text, p);
    StandsConcat(e, pos, f, s);
    FillerStands(e, pos, p.fill);
    ShownRead(u, e, pos + |f|, text, p, leading);
    SegmentMoves(u, e, pos, pos + |f|, leading);
  }

  /** A label in brackets, filler before it and blanks after it. */
  lemma BracketRead(u: Classes, e: string, pos: nat, text: string, p: Print)
    requires Fits(u, text, p, false) && p.bracket && Stands(e, pos, PrintHead(u, text, p) + (p.inner + "]"))
    ensures ConsumeBracket(e, pos) == Some((text, pos + |PrintHead(u, text, p) + (p.inner + "]")|))
  {
    hide *;
    FitsForm(u, text, p, false);
    FitsParts(u, text, p, false);
    HeadShape(u, text, p);
    var f, s := PrintFiller(p.fill), PrintString(u, text, p.form);
    var at := pos + |f|;
    var end := at + |s|;
    StandsConcat(e, pos, f + s, p.inner + "]");
    StandsConcat(e, pos, f, s);
    StandsConcat(e, end, p.inner, "]");
    FillerStands(e, pos, p.fill);
    StringStands(u, e, at, text, p.form);
    GapStands(e, end, p.inner);
    CloseStands(e, end + |p.inner|);
    StringBracket(e, pos, at, (text, end), end + |p.inner|);
  }

  lemma FitsForm(u: Classes, text: string, p: Print, head: bool)
    requires Fits(u, text, p, head)
    ensures text != "" && Spells(u, text, p.form) && (head ==> p.form.Bare? ==> !IsKeyword(text))
    ensures p.form.Bare? ==> IsIdentifier(u, text) && PrintString(u, text, p.form) == text
    ensures !head && p.bracket ==> !p.form.Bare?
    ensures !head && !p.bracket ==> p.form.Bare? || (p.form.Line? && p.form.level == 0)
  {
  }

  function SelectorAt(u: Classes, e: string, after: nat, bracket: bool): Option<(string, nat)>
    requires after <= |e|
  {
    if bracket then ConsumeBracket(e, after) else ConsumeSegment(u, e, after, false)
  }

  lemma CloseStands(e: string, pos: nat)
    requires Stands(e, pos, "]")
    ensures pos < |e| && e[pos] == ']' && SkipPathSpace(e, pos) == pos
  {
    MarkStands(e, pos, ']');
  }

  lemma HeadShape(u: Classes, text: string, p: Print)
    requires Spells(u, text, p.form)
    ensures PrintHead(u, text, p) == PrintFiller(p.fill) + PrintString(u, text, p.form)
    ensures p.form.Bare? ==> PrintString(u, text, p.form) == text
  {
    hide PrintLine, Body, PrintFiller;
  }

  lemma NextShape(u: Classes, text: string, p: Print)
    requires Spells(u, text, p.form)
    ensures var h := PrintHead(u, text, p);
      PrintNext(u, text, p) == p.gap + (if p.bracket then "[" + (h + (p.inner + "]")) else "." + h)
  {
    hide PrintString, PrintFiller;
  }

  lemma MarkRead(e: string, pos: nat, gap: string, bracket: bool)
    requires GapOk(gap) && Stands(e, pos, gap) && Stands(e, pos + |gap|, if bracket then "[" else ".")
    ensures pos + |gap| + 1 <= |e|
    ensures ConsumeSeparator(e, pos) == Some((if bracket then SepBracket else SepDot, pos + |gap| + 1))
  {
    GapStands(e, pos, gap);
    MarkStands(e, pos + |gap|, if bracket then '[' else '.');
    hide SkipPathSpace, SkipExprSpace, GapOk, Stands;
  }

  lemma SelectorIs(u: Classes, e: string, after: nat, bracket: bool)
    requires after <= |e|
    ensures SelectorAt(u, e, after, bracket) == if bracket then ConsumeBracket(e, after) else ConsumeSegment(u, e, after, false)
  {
  }

  lemma NextRead(u: Classes, e: string, pos: nat, text: string, p: Print)
    requires Fits(u, text, p, false)
    requires var s := PrintNext(u, text, p); Stands(e, pos, s) && pos + |s| <= |e| && Ends(u, e[pos + |s|..])
    ensures ConsumeSeparator(e, pos) == Some((if p.bracket then SepBracket else SepDot, pos + |p.gap| + 1))
    ensures pos + |p.gap| + 1 <= |e|
    ensures SelectorAt(u, e, pos + |p.gap| + 1, p.bracket) == Some((text, pos + |PrintNext(u, text, p)|))
  {
    hide *;
    FitsParts(u, text, p, false);
    NextShape(u, text, p);
    var h, mark := PrintHead(u, text, p), if p.bracket then "[" else ".";
    var body := if p.bracket then h + (p.inner + "]") else h;
    StandsConcat(e, pos, p.gap, mark + body);
    StandsConcat(e, pos + |p.gap|, mark, body);
    MarkRead(e, pos, p.gap, p.bracket);
    SelectorIs(u, e, pos + |p.gap| + 1, p.bracket);
    if p.bracket {
      BracketRead(u, e, pos + |p.gap| + 1, text, p);
    } else {
      LabelRead(u, e, pos + |p.gap| + 1, text, p, false);
    }
  }

  lemma FitsParts(u: Classes, text: string, p: Print, head: bool)
    requires Fits(u, text, p, head)
    ensures Spells(u, text, p.form) && GapOk(p.gap) && GapOk(p.inner) && FillerOk(p.fill) && text != ""
  {
  }

  // ----- What follows a label -----

  /** What comes after a selector starts with no identifier character, if the end does not. */
  lemma NextEnds(u: Classes, texts: seq<string>, ps: seq<Print>, more: string)
    requires |ps| == |texts| && (forall k | 0 <= k < |texts| :: Fits(u, texts[k], ps[k], false)) && Ends(u, more)
    ensures Ends(u, PrintOn(u, texts, ps, more))
  {
    var rest := PrintOn(u, texts, ps, more);
    if texts != [] {
      FitsParts(u, texts[0], ps[0], false);
      var gap := ps[0].gap;
      assert rest != "" && (if gap != "" then rest[0] == gap[0] && gap[0] in gap else rest[0] == '[' || rest[0] == '.');
    }
    hide PrintNext;
  }

  /** A trailer starts with a blank, a newline or a slash. */
  lemma TrailerEnds(u: Classes, t: Trailer)
    requires TrailerOk(t)
    ensures Ends(u, PrintTrailer(t))
  {
    if t.gap != "" {
      assert PrintTrailer(t)[0] == t.gap[0] && t.gap[0] in t.gap;
    } else if t.fill != [] {
      FillerStart(t);
    }
  }

  /** Blanks, newlines and comments after the last selector end the path. */
  lemma TrailerRead(e: string, pos: nat, t: Trailer)
    requires TrailerOk(t) && Stands(e, pos, PrintTrailer(t)) && |e| == pos + |PrintTrailer(t)|
    ensures ConsumeSeparator(e, pos) == Some((SepEnd, |e|))
  {
    var f, at := PrintFiller(t.fill), pos + |t.gap|;
    StandsConcat(e, pos, t.gap, f);
    GapStands(e, pos, t.gap);
    if t.fill != [] {
      FillerStands(e, at, t.fill);
      FillerStart(t);
      assert e[at..at + |f|][0] == f[0] && (f[0] == '/' ==> e[at..at + |f|][1] == f[1]);
    }
    hide PrintFiller, FillerOk, GapOk, Stands;
  }

  lemma FillerStart(t: Trailer)
    requires TrailerOk(t) && t.fill != []
    ensures var f := PrintFiller(t.fill); f != "" && (f[0] == '\n' || (|f| >= 2 && f[0] == '/' && f[1] == '/'))
  {
    var f := PrintFiller(t.fill);
    assert f == PrintPiece(t.fill[0]) + PrintFiller(t.fill[1..]);
    if t.fill[0].Comment? { assert f[0] == PrintPiece(t.fill[0])[0] && f[1] == PrintPiece(t.fill[0])[1]; }
  }

  /** The selectors are read back, and reading goes on with what follows them. */
  lemma {:induction false} RestReads(u: Classes, e: string, pos: nat, texts: seq<string>, ps: seq<Print>, more: string)
    requires |ps| == |texts| && (forall k | 0 <= k < |texts| :: Fits(u, texts[k], ps[k], false)) && Ends(u, more)
    requires Stands(e, pos, PrintOn(u, texts, ps, more)) && |e| == pos + |PrintOn(u, texts, ps, more)|
    ensures |more| <= |e| && ParseRest(u, e, pos) == Prefixed(texts, ParseRest(u, e, |e| - |more|))
    decreases |texts|
  {
    hide ConsumeBracket, ConsumeSegment, ConsumeSeparator, PrintNext, Fits, Ends, Stands, ParseRest;
    if texts == [] {
      PrefixedSnoc([], "", ParseRest(u, e, pos));
      PrefixedNone(ParseRest(u, e, pos));
    } else {
      FitsParts(u, texts[0], ps[0], false);
      var next, rest := PrintNext(u, texts[0], ps[0]), PrintOn(u, texts[1..], ps[1..], more);
      StandsConcat(e, pos, next, rest);
      NextEnds(u, texts[1..], ps[1..], more);
      StandsEnds(e, pos + |next|, rest);
      NextRead(u, e, pos, texts[0], ps[0]);
      RestReads(u, e, pos + |next|, texts[1..], ps[1..], more);
      RestStep(u, e, pos);
      SelectorIs(u, e, pos + |ps[0].gap| + 1, ps[0].bracket);
      PrefixedTwice(texts, ParseRest(u, e, |e| - |more|));
    }
  }

  lemma PrefixedNone(rest: Option<seq<string>>)
    ensures Prefixed([], rest) == rest
  {
    if rest.Some? { assert [] + rest.value == rest.value; }
  }

  lemma PrefixedTwice(texts: seq<string>, rest: Option<seq<string>>)
    requires texts != []
    ensures Prefixed([texts[0]], Prefixed(texts[1..], rest)) == Prefixed(texts, rest)
  {
    if rest.Some? { assert [texts[0]] + (texts[1..] + rest.value) == texts + rest.value; }
  }

  lemma StandsEnds(e: string, pos: nat, s: string)
    requires Stands(e, pos, s) && |e| == pos + |s|
    ensures e[pos..] == s
  {
  }

  // ----- The characters of a printed path -----

  lemma CodePointClean(v: nat, big: bool, upper: bool, n: nat)
    ensures Clean(CodePoint(v, big, upper, n))
  {
    var digits := HexDigits(v, if big then 8 else 4, upper);
    assert forall c <- digits :: HexVal(c).Some?;
    assert Clean(Hashes(n)) && Clean(Intro(n));
  }

  lemma CharClean(c: char, style: Style, n: nat)
    ensures Clean(EncodeChar(c, style, n))
  {
    assert Clean(Hashes(n)) && Clean(Intro(n));
    if style.Verbatim? && IsPlain(c) {
    } else if style.Short? && ShortSelector(c).Some? {
    } else if style.Hex4? && c as int <= 0xFFFF {
      CodePointClean(c as int, false, style.upper, n);
    } else if style.Surrogates? && c as int > 0xFFFF {
      CodePointClean(HighHalf(c as int), style.bigHi, style.upper, n);
      CodePointClean(LowHalf(c as int), style.bigLo, style.upper, n);
    } else {
      CodePointClean(c as int, true, style.Hex8? && style.upper, n);
    }
  }

  lemma {:induction false} EncodeClean(s: string, styles: seq<Style>, n: nat)
    requires |styles| == |s|
    ensures Clean(Encode(s, styles, n))
  {
    if s != "" {
      CharClean(s[0], styles[0], n);
      EncodeClean(s[1..], styles[1..], n);
    }
  }

  lemma LineClean(text: string, n: nat, styles: seq<Style>)
    requires |styles| == |text|
    ensures Clean(PrintLine(text, n, styles)) && PrintLine(text, n, styles) != ""
    ensures PrintLine(text, n, styles)[0] == '"' || PrintLine(text, n, styles)[0] == '#'
  {
    EncodeClean(text, styles, n);
    assert Clean(Hashes(n));
    if n > 0 { assert PrintLine(text, n, styles)[0] == Hashes(n)[0]; }
  }

  lemma {:induction false} LinesClean(lines: seq<string>, styles: seq<seq<Style>>, ws: string, n: nat)
    requires |styles| == |lines| && forall k | 0 <= k < |lines| :: |styles[k]| == |lines[k]|
    requires Clean(ws)
    ensures Clean(EncodeLines(lines, styles, ws, n))
  {
    if lines != [] {
      EncodeClean(lines[0], styles[0], n);
      LinesClean(lines[1..], styles[1..], ws, n);
    }
  }

  lemma BlockClean(u: Classes, f: Form)
    requires f.Block? && f.lines != [] && Spells(u, Join(f.lines), f)
    ensures Clean(Opener(f.level) + Body(f.lines, f.lineStyles, f.indent, f.level) + Quotes(f.level))
    ensures Opener(f.level)[0] == '"' || Opener(f.level)[0] == '#'
  {
    assert Clean(f.indent);
    LinesClean(f.lines, f.lineStyles, f.indent, f.level);
    assert Clean(Hashes(f.level));
    if f.level > 0 { assert Opener(f.level)[0] == Hashes(f.level)[0]; }
  }

  /** Letters and digits are no white space and no byte order mark. */
  ghost predicate Sane(u: Classes)
  {
    forall c :: u.letter(c) || u.digit(c) ==> !IsSpace(c) && c != BOM
  }

  lemma IdentifierClean(u: Classes, text: string)
    requires Sane(u) && IsIdentifier(u, text)
    ensures Clean(text) && !IsSpace(text[0])
  {
    forall c <- text ensures c != BOM && c != '\U{00}' {}
    assert text[0] in text;
  }

  /** A label is clean and starts with a character that is no white space. */
  lemma StringClean(u: Classes, text: string, f: Form)
    requires Sane(u) && Spells(u, text, f)
    ensures Clean(PrintString(u, text, f)) && PrintString(u, text, f) != "" && !IsSpace(PrintString(u, text, f)[0])
  {
    hide PrintLine, Clean, Body, Opener, Quotes, IsIdentifier, Sane;
    match f
    case Bare => IdentifierClean(u, text); assert text != "" by { IdentifierHas(u, text); }
    case Line(level, styles) => LineClean(text, level, styles);
    case Block(level, _, _, _) => BlockClean(u, f);
  }

  lemma IdentifierHas(u: Classes, text: string)
    requires IsIdentifier(u, text)
    ensures text != ""
  {
  }

  lemma CleanConcat(a: string, b: string)
    requires Clean(a) && Clean(b)
    ensures Clean(a + b)
  {
  }

  lemma GapClean(s: string)
    requires GapOk(s)
    ensures Clean(s)
  {
  }

  lemma {:induction false} FillerClean(f: seq<Piece>)
    requires FillerOk(f)
    ensures Clean(PrintFiller(f))
  {
    if f != [] {
      assert PieceOk(f[0]) by { assert f[0] in f; }
      assert Clean(PrintPiece(f[0]));
      FillerClean(f[1..]);
    }
  }

  lemma HeadClean(u: Classes, text: string, p: Print, head: bool)
    requires Sane(u) && Fits(u, text, p, head)
    ensures Clean(PrintHead(u, text, p)) && exists c <- PrintHead(u, text, p) :: !IsSpace(c)
  {
    FitsParts(u, text, p, head);
    hide Clean, Spells, PrintString, Sane, FillerOk, GapOk, PrintFiller;
    FillerClean(p.fill);
    StringClean(u, text, p.form);
    var s := PrintString(u, text, p.form);
    CleanConcat(PrintFiller(p.fill), s);
    assert PrintHead(u, text, p)[|PrintFiller(p.fill)|] == s[0];
  }

  lemma NextClean(u: Classes, text: string, p: Print)
    requires Sane(u) && Fits(u, text, p, false)
    ensures Clean(PrintNext(u, text, p))
  {
    FitsParts(u, text, p, false);
    HeadClean(u, text, p, false);
    GapClean(p.gap);
    GapClean(p.inner);
    hide Spells, PrintString, Sane, FillerOk, GapOk, PrintFiller;
    var h := PrintHead(u, text, p);
    assert PrintNext(u, text, p) == if p.bracket then p.gap + "[" + h + p.inner + "]" else p.gap + "." + h;
  }

  lemma {:induction false} RestClean(u: Classes, texts: seq<string>, ps: seq<Print>, more: string)
    requires Sane(u) && |ps| == |texts| && (forall k | 0 <= k < |texts| :: Fits(u, texts[k], ps[k], false)) && Clean(more)
    ensures Clean(PrintOn(u, texts, ps, more))
    decreases |texts|
  {
    if texts != [] {
      FitsParts(u, texts[0], ps[0], false);
      hide Fits, PrintNext, Clean, Sane;
      NextClean(u, texts[0], ps[0]);
      RestClean(u, texts[1..], ps[1..], more);
      CleanConcat(PrintNext(u, texts[0], ps[0]), PrintOn(u, texts[1..], ps[1..], more));
    }
  }

  lemma TrailerClean(t: Trailer)
    requires TrailerOk(t)
    ensures Clean(PrintTrailer(t))
  {
    GapClean(t.gap);
    FillerClean(t.fill);
    CleanConcat(t.gap, PrintFiller(t.fill));
  }

  /** Nothing in a printed path is refused before the segments are read. */
  lemma CleanPath(u: Classes, head: string, rest: string)
    requires Clean(head) && Clean(rest) && exists c <- head :: !IsSpace(c)
    ensures ParsePath(u, head + rest) == ParseSegments(u, head + rest)
  {
    hide ParseSegments;
    var e := head + rest;
    var c :| c in head && !IsSpace(c);
    assert c in e;
    assert e[0] in e;
  }

  lemma PathShape(u: Classes, texts: seq<string>, ps: seq<Print>, t: Trailer)
    requires texts != [] && |ps| == |texts| && Fits(u, texts[0], ps[0], true)
    requires forall k | 1 <= k < |texts| :: Fits(u, texts[k], ps[k], false)
    ensures Spells(u, texts[0], ps[0].form)
    ensures PrintPath(u, texts, ps, t) == PrintHead(u, texts[0], ps[0]) + PrintOn(u, texts[1..], ps[1..], PrintTrailer(t))
  {
  }

  /** A printed path, or the start of one: its labels are read, and what follows decides. */
  lemma PathReads(u: Classes, texts: seq<string>, ps: seq<Print>, more: string)
    requires Sane(u) && Clean(more) && Ends(u, more)
    requires texts != [] && |ps| == |texts| && Fits(u, texts[0], ps[0], true)
    requires forall k | 1 <= k < |texts| :: Fits(u, texts[k], ps[k], false)
    ensures Spells(u, texts[0], ps[0].form)
    ensures var e := PrintHead(u, texts[0], ps[0]) + PrintOn(u, texts[1..], ps[1..], more);
      |more| <= |e| && ParsePath(u, e) == Prefixed(texts, ParseRest(u, e, |e| - |more|))
  {
    hide *;
    FitsParts(u, texts[0], ps[0], true);
    var head, rest := PrintHead(u, texts[0], ps[0]), PrintOn(u, texts[1..], ps[1..], more);
    var e := head + rest;
    HeadClean(u, texts[0], ps[0], true);
    RestClean(u, texts[1..], ps[1..], more);
    NextEnds(u, texts[1..], ps[1..], more);
    CleanPath(u, head, rest);
    StandsWhole(head, rest);
    LabelRead(u, e, 0, texts[0], ps[0], true);
    RestReads(u, e, |head|, texts[1..], ps[1..], more);
    SegmentsRead(u, e, texts[0], |head|);
    PrefixedTwice(texts, ParseRest(u, e, |e| - |more|));
  }

  lemma SegmentsRead(u: Classes, e: string, first: string, pos: nat)
    requires pos <= |e| && ConsumeSegment(u, e, 0, true) == Some((first, pos))
    ensures ParseSegments(u, e) == Prefixed([first], ParseRest(u, e, pos))
  {
    hide ConsumeSegment, ParseRest;
  }

  /** MAIN: any non-empty path of non-empty labels, printed in any of these forms, parses back to itself. */
  lemma PathRoundTrip(u: Classes, texts: seq<string>, ps: seq<Print>, t: Trailer)
    requires Sane(u) && TrailerOk(t)
    requires texts != [] && |ps| == |texts| && Fits(u, texts[0], ps[0], true)
    requires forall k | 1 <= k < |texts| :: Fits(u, texts[k], ps[k], false)
    ensures ParsePath(u, PrintPath(u, texts, ps, t)) == Some(texts)
  {
    hide *;
    var more := PrintTrailer(t);
    TrailerEnds(u, t);
    TrailerClean(t);
    PathReads(u, texts, ps, more);
    PathShape(u, texts, ps, t);
    var e := PrintPath(u, texts, ps, t);
    OnEnds(u, texts[1..], ps[1..], more, PrintHead(u, texts[0], ps[0]));
    TrailerRead(e, |e| - |more|, t);
    RestStep(u, e, |e| - |more|);
    PrefixedSnoc(texts, "", None);
  }

  /** The text that follows the selectors stands at the end. */
  lemma {:induction false} OnEnds(u: Classes, texts: seq<string>, ps: seq<Print>, more: string, before: string)
    requires |ps| == |texts| && forall k | 0 <= k < |texts| :: Fits(u, texts[k], ps[k], false)
    ensures var e := before + PrintOn(u, texts, ps, more); |more| <= |e| && Stands(e, |e| - |more|, more)
    decreases |texts|
  {
    hide PrintNext, Fits;
    if texts != [] {
      FitsParts(u, texts[0], ps[0], false);
      var next := PrintNext(u, texts[0], ps[0]);
      OnEnds(u, texts[1..], ps[1..], more, before + next);
      assert before + (next + PrintOn(u, texts[1..], ps[1..], more)) == before + next + PrintOn(u, texts[1..], ps[1..], more);
    }
  }

  lemma StandsWhole(a: string, b: string)
    ensures Stands(a + b, 0, a) && Stands(a + b, |a|, b) && (a + b)[|a|..] == b
  {
  }

}
