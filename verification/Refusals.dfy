/**
  What a path expression may not be: raw newlines and unknown escapes in a label, empty labels, stray text after
  a selector or after the end, and selectors of the wrong kind after a dot or in brackets.
 */
module Refusals {

  import opened Wrappers
  import opened Escapes
  import opened Multiline
  import opened Paths
  import opened PathQuoting

  // ----- Labels -----

  const SELECTORS := "abfnrtv/\\\"uU"

  /** An escape the decoder accepts has one of the grammar's selectors, and spans no newline. */
  lemma KnownEscape(body: string, i: nat, n: nat)
    requires i + 2 + n <= |body| && IsIntro(body, i, n) && DecodeEscapeAt(body, i, n).Some?
    ensures body[i + 1 + n] in SELECTORS
    ensures forall k | i <= k < i + DecodeEscapeAt(body, i, n).value.1 :: body[k] != '\n' && body[k] != '\r'
  {
    var sel := body[i + 1 + n];
    assert forall k | i <= k < i + 1 + n :: body[k] == '\\' || body[k] == '#';
    if IsUnicodeSelector(sel) {
      var (v, w) := DecodeCodePoint(body, i, n).value;
      CodePointSpan(body, i, n);
      if IsHighSurrogate(v) || IsLowSurrogate(v) {
        assert forall k | i + w <= k < i + w + 1 + n :: body[k] == '\\' || body[k] == '#';
        CodePointSpan(body, i + w, n);
      }
    }
    hide DecodeCodePoint;
  }

  lemma {:induction false} HexSpan(s: string, i: nat, n: nat)
    requires i + n <= |s| && HexNumber(s, i, n).Some?
    ensures forall k | i <= k < i + n :: HexVal(s[k]).Some?
  {
    if n > 0 { HexSpan(s, i, n - 1); }
  }

  lemma CodePointSpan(body: string, i: nat, n: nat)
    requires i + 2 + n <= |body| && DecodeCodePoint(body, i, n).Some?
    ensures forall k | i + 2 + n <= k < i + DecodeCodePoint(body, i, n).value.1 :: body[k] != '\n' && body[k] != '\r'
  {
    HexSpan(body, i + 2 + n, DecodeCodePoint(body, i, n).value.1 - 2 - n);
    hide HexNumber;
  }

  /** MAIN: a label on one line holds no newline and no carriage return, raw or escaped. */
  lemma {:induction false} OneLineOnly(body: string, i: nat, n: nat)
    requires i <= |body| && Aligned(body, i, n) && Decode(body, i, n).Some?
    ensures forall k | i <= k < |body| :: body[k] != '\n' && body[k] != '\r'
    decreases |body| - i
  {
    if i < |body| {
      hide DecodeEscapeAt;
      if IsIntro(body, i, n) {
        KnownEscape(body, i, n);
        EscapeStaysAligned(body, i, n);
        OneLineOnly(body, i + DecodeEscapeAt(body, i, n).value.1, n);
      } else {
        OneLineOnly(body, i + 1, n);
      }
    }
  }

  /** The line after a newline at k carries the indentation, or is empty. */
  predicate LineOk(body: string, ws: string, k: nat)
    requires k < |body|
  {
    HasPrefixAt(body, k + 1, ws) || (k + 1 < |body| && body[k + 1] == '\n')
  }

  predicate LinesOk(body: string, ws: string, i: nat, j: nat)
    requires j <= |body|
  {
    forall k | i <= k < j && body[k] == '\n' :: LineOk(body, ws, k)
  }

  lemma SkippedLine(body: string, k: nat, ws: string)
    requires k < |body| && body[k] == '\n' && '\n' !in ws && SkipIndent(body, k + 1, ws).Some?
    ensures LineOk(body, ws, k) && LinesOk(body, ws, k, SkipIndent(body, k + 1, ws).value)
  {
    var j := SkipIndent(body, k + 1, ws).value;
    forall x | k + 1 <= x < j ensures body[x] != '\n' { assert ws[x - k - 1] in ws; }
    hide HasPrefixAt;
  }

  /** One step of the decoder that succeeds, whatever it reads. */
  lemma DecodeStep(body: string, i: nat, ws: string, n: nat, out: string, newline: bool, elided: bool)
    returns (j: nat, more: string, nl: bool, el: bool)
    requires i < |body| && Aligned(body, i, n) && Multiline.Blank(ws) && '\n' !in ws
    requires DecodeLines(body, i, ws, n, out, newline, elided).Some?
    ensures i < j <= |body| && Aligned(body, j, n) && DecodeLines(body, j, ws, n, more, nl, el).Some? && LinesOk(body, ws, i, j)
  {
    hide DecodeEscapeAt, SkipIndent, LineOk;
    if body[i] == '\n' {
      IndentStaysAligned(body, i + 1, ws, n);
      SkippedLine(body, i, ws);
      j, more, nl, el := SkipIndent(body, i + 1, ws).value, out + "\n", true, false;
    } else if IsIntro(body, i, n) && body[i + 1 + n] == '\n' {
      IndentStaysAligned(body, i + 2 + n, ws, n);
      SkippedLine(body, i + 1 + n, ws);
      j, more, nl, el := SkipIndent(body, i + 2 + n, ws).value, out, false, true;
      assert forall k | i <= k < i + 1 + n :: body[k] == '\\' || body[k] == '#';
    } else if IsIntro(body, i, n) {
      KnownEscape(body, i, n);
      EscapeStaysAligned(body, i, n);
      var e := DecodeEscapeAt(body, i, n).value;
      j, more, nl, el := i + e.1, out + [e.0], false, false;
    } else {
      j, more, nl, el := i + 1, out + [body[i]], false, false;
    }
  }

  /** Every line of a block that is read carries the indentation, or is empty. */
  lemma {:induction false} LinesIndented(body: string, i: nat, ws: string, n: nat, out: string, newline: bool, elided: bool)
    requires i <= |body| && Aligned(body, i, n) && Multiline.Blank(ws) && '\n' !in ws
    requires DecodeLines(body, i, ws, n, out, newline, elided).Some?
    ensures LinesOk(body, ws, i, |body|)
    decreases |body| - i
  {
    hide DecodeLines, Aligned, LineOk;
    if i < |body| {
      var j, more, nl, el := DecodeStep(body, i, ws, n, out, newline, elided);
      LinesIndented(body, j, ws, n, more, nl, el);
    }
  }

  /** The blanks before the close, from the newline before them. */
  lemma CloseLine(body: string)
    requires body != ""
    ensures var k := IndentStart(body, |body|); k <= |body| && forall c <- body[k..] :: IsSpace(c) && c != '\n'
  {
    hide IsSpace;
    var k := IndentStart(body, |body|);
    forall c <- body[k..] ensures IsSpace(c) && c != '\n' {
      var j :| 0 <= j < |body| - k && body[k..][j] == c;
      assert body[k + j] == c;
    }
  }

  lemma PrefixChars(body: string, i: nat, p: string)
    requires i <= |body| && HasPrefixAt(body, i, p)
    ensures i + |p| <= |body| && forall x | i <= x < i + |p| :: body[x] == p[x - i]
  {
    forall x | i <= x < i + |p| ensures body[x] == p[x - i] { assert body[i..i + |p|][x - i] == body[x]; }
  }

  lemma IndentIs(body: string, n: nat)
    requires body != "" && body[0] == '\n' && Indentation(body, n).Some?
    ensures var r := Indentation(body, n).value; var k := IndentStart(body, |body|);
      && 0 < k <= |body| && body[k - 1] == '\n' && r.0 == body[k..]
      && ((|body| > 1 && body[1] == '\n' && r.1 == 1) || (HasPrefixAt(body, 1, r.0) && r.1 == 1 + |r.0|))
  {
    hide IsSpace, IndentStart, HasPrefixAt, Multiline.Blank;
  }

  lemma IndentParts(body: string, n: nat)
    requires body != "" && body[0] == '\n' && Indentation(body, n).Some?
    ensures var (ws, start) := Indentation(body, n).value;
      && ws == body[IndentStart(body, |body|)..] && '\n' !in ws && (forall c <- ws :: IsSpace(c) && c != '\n')
      && |ws| < |body| && body[|body| - |ws| - 1] == '\n'
      && Multiline.Blank(ws) && start <= |body| && (forall k | 0 <= k < start :: body[k] != '\\')
      && (start == 1 || (start == 1 + |ws| && forall x | 1 <= x < start :: body[x] == ws[x - 1]))
      && (HasPrefixAt(body, 1, ws) || (1 < |body| && body[1] == '\n'))
  {
    hide *;
    IndentIs(body, n);
    var (ws, start) := Indentation(body, n).value;
    CloseLine(body);
    if HasPrefixAt(body, 1, ws) { PrefixChars(body, 1, ws); }
  }

  lemma DecodedParts(raw: string, n: nat)
    requires Aligned(raw, 0, n) && DecodeRawBody(raw, n).Some?
    ensures var body := StripCR(raw);
      && Aligned(body, 0, n) && body != "" && body[0] == '\n' && Indentation(body, n).Some?
      && var (ws, start) := Indentation(body, n).value;
         start <= |body| && Aligned(body, start, n) && Multiline.Blank(ws) && DecodeLines(body, start, ws, n, "", false, false).Some?
  {
    hide StripCR, CloseIndex, RawEscapesOk, DecodeLines, Aligned, Indentation, NewlineFirst;
    StrippedIsAligned(raw, n);
    var body := StripCR(raw);
    var (ws, start) := Indentation(body, n).value;
    SkipPlain(body, 0, start, n);
  }

  /** MAIN: in a block that is read, blanks alone precede the close, and every line is empty or starts with them. */
  lemma BlockLinesIndented(raw: string, n: nat)
    requires Aligned(raw, 0, n) && DecodeRawBody(raw, n).Some?
    ensures var body := StripCR(raw); var ws := body[IndentStart(body, |body|)..];
      && body != "" && body[0] == '\n' && (forall c <- ws :: IsSpace(c) && c != '\n')
      && (|ws| < |body| && body[|body| - |ws| - 1] == '\n')
      && LinesOk(body, ws, 0, |body|)
  {
    hide *;
    var body := StripCR(raw);
    DecodedParts(raw, n);
    IndentParts(body, n);
    var (ws, start) := Indentation(body, n).value;
    LinesIndented(body, start, ws, n, "", false, false);
    if start > 1 { NoNewlineBetween(body, ws, start); }
    FirstLineOk(body, ws, start);
  }

  lemma NoNewlineBetween(body: string, ws: string, start: nat)
    requires '\n' !in ws && start <= |body| && start <= 1 + |ws| && forall x | 1 <= x < start :: body[x] == ws[x - 1]
    ensures forall x | 1 <= x < start :: body[x] != '\n'
  {
    forall x | 1 <= x < start ensures body[x] != '\n' { assert ws[x - 1] in ws; }
  }

  lemma FirstLineOk(body: string, ws: string, start: nat)
    requires body != "" && 1 <= start <= |body| && LinesOk(body, ws, start, |body|)
    requires (forall x | 1 <= x < start :: body[x] != '\n') && (HasPrefixAt(body, 1, ws) || (1 < |body| && body[1] == '\n'))
    ensures LinesOk(body, ws, 0, |body|)
  {
    hide HasPrefixAt;
  }

  /** MAIN: a newline elided right before the closing line elides nothing: the block is refused. */
  lemma {:induction false} ElidedCloseRefused(body: string, i: nat, p: nat, ws: string, n: nat, out: string, newline: bool, elided: bool)
    requires i <= p && p + 2 + n <= |body| && Aligned(body, i, n) && Multiline.Blank(ws)
    requires (forall k | i <= k < p :: body[k] != '\\') && IsIntro(body, p, n) && body[p + 1 + n] == '\n' && body[p + 2 + n..] == ws
    ensures DecodeLines(body, i, ws, n, out, newline, elided) == None
    decreases p - i
  {
    if i == p {
      assert HasPrefixAt(body, p + 2 + n, ws);
      assert SkipIndent(body, p + 2 + n, ws) == Some(|body|);
    } else if body[i] == '\n' {
      if SkipIndent(body, i + 1, ws).Some? {
        var j := SkipIndent(body, i + 1, ws).value;
        IndentStaysAligned(body, i + 1, ws, n);
        NoIntroSkipped(body, i + 1, j, p, ws);
        ElidedCloseRefused(body, j, p, ws, n, out + "\n", true, false);
      }
    } else {
      ElidedCloseRefused(body, i + 1, p, ws, n, out + [body[i]], false, false);
    }
    hide DecodeEscapeAt, HasPrefixAt;
  }

  /** Indentation holds no backslash, so skipping it stops before one. */
  lemma NoIntroSkipped(body: string, from: nat, j: nat, p: nat, ws: string)
    requires from <= j <= |body| && from <= p < |body| && body[p] == '\\' && Multiline.Blank(ws) && j <= from + |ws|
    requires forall k | from <= k < j :: body[k] == ws[k - from]
    ensures j <= p
  {
    forall k | from <= k < j ensures body[k] != '\\' { assert ws[k - from] in ws; }
  }

  // ----- Whole paths -----

  lemma {:induction false} RestNonEmpty(u: Classes, e: string, pos: nat)
    requires pos <= |e| && ParseRest(u, e, pos).Some?
    ensures forall text <- ParseRest(u, e, pos).value :: text != ""
    decreases |e| - pos
  {
    hide *;
    RestStep(u, e, pos);
    var sep := ConsumeSeparator(e, pos);
    if sep.Some? && !sep.value.0.SepEnd? {
      var next := if sep.value.0.SepDot? then ConsumeSegment(u, e, sep.value.1, false) else ConsumeBracket(e, sep.value.1);
      SegmentNonEmpty(u, e, sep.value.1, false);
      BracketNonEmpty(e, sep.value.1);
      if next.Some? {
        PrefixedParts(next.value.0, ParseRest(u, e, next.value.1));
        if ParseRest(u, e, next.value.1).Some? { RestNonEmpty(u, e, next.value.1); }
      }
    }
  }

  lemma PrefixedParts(text: string, rest: Option<seq<string>>)
    ensures Prefixed([text], rest).Some? <==> rest.Some?
    ensures rest.Some? ==> forall x <- Prefixed([text], rest).value :: x == text || x in rest.value
  {
  }

  lemma SegmentNonEmpty(u: Classes, e: string, start: nat, leading: bool)
    requires start <= |e|
    ensures var r := ConsumeSegment(u, e, start, leading); r.Some? ==> r.value.0 != ""
  {
    hide SkipExprSpace, IsMultilineStart, IsRawStart, CloseIndex, Decode, Aligned, ParseMultiline, CountHashes;
  }

  lemma BracketNonEmpty(e: string, start: nat)
    requires start <= |e|
    ensures var r := ConsumeBracket(e, start); r.Some? ==> r.value.0 != ""
  {
    hide SkipExprSpace, SkipPathSpace, IsMultilineStart, IsRawStart, CloseIndex, Decode, Aligned, ParseMultiline, CountHashes;
  }

  /** MAIN: a path that parses has a label, no empty one, and neither a NUL nor a byte order mark past its start. */
  lemma ParsedPathIsSound(u: Classes, expr: string)
    requires ParsePath(u, expr).Some?
    ensures ParsePath(u, expr).value != [] && forall text <- ParsePath(u, expr).value :: text != ""
    ensures '\U{00}' !in expr && (forall i | 0 < i < |expr| :: expr[i] != BOM)
  {
    hide ConsumeSegment, ParseRest;
    var e := TrimBOM(expr);
    SegmentNonEmpty(u, e, 0, true);
    var (head, pos) := ConsumeSegment(u, e, 0, true).value;
    RestNonEmpty(u, e, pos);
    PrefixedParts(head, ParseRest(u, e, pos));
    forall i | 0 < i < |expr| ensures expr[i] != BOM { assert expr[i] in e; }
    forall i | 0 <= i < |expr| ensures expr[i] != '\U{00}' { assert expr[i] in e || expr[i] == BOM; }
  }

  /** A byte order mark at the start is passed over. */
  lemma LeadingMarkIgnored(u: Classes, expr: string)
    requires expr != "" && expr[0] != BOM
    ensures ParsePath(u, [BOM] + expr) == ParsePath(u, expr)
  {
    assert ([BOM] + expr)[1..] == expr;
    hide ParseSegments, AllSpace;
  }

  // ----- What may not follow a selector -----

  /** A character that starts neither filler nor a label of the kind wanted. */
  predicate Alien(u: Classes, c: char, bracket: bool)
  {
    !IsPathSpace(c) && c != '\n' && c != '/' && c != '"' && (bracket ==> c != '#') && (!bracket ==> !IsIdentStart(u, c))
  }

  /** What may not follow a selector, or the start of a path. */
  datatype Stray =
    | Junk(gap: string, c: char, post: string)
    | AfterEnd(gap: string, fill: seq<Piece>, c: char, post: string)
    | NoLabel(gap: string, bracket: bool, fill: seq<Piece>, c: char, post: string)

  predicate StrayOk(u: Classes, s: Stray)
  {
    match s
    case Junk(gap, c, _) => GapOk(gap) && !IsPathSpace(c) && c !in "\n/.[" && (gap == "" ==> !IsIdentCont(u, c))
    case AfterEnd(gap, fill, c, _) =>
      GapOk(gap) && TrailerOk(Trailer(gap, fill)) && fill != [] && !IsPathSpace(c) && c != '\n' && c != '/'
    case NoLabel(gap, bracket, fill, c, _) => GapOk(gap) && FillerOk(fill) && Alien(u, c, bracket)
  }

  function PrintStray(s: Stray): string
  {
    match s
    case Junk(gap, c, post) => gap + ([c] + post)
    case AfterEnd(gap, fill, c, post) => gap + (PrintFiller(fill) + ([c] + post))
    case NoLabel(gap, bracket, fill, c, post) => gap + ((if bracket then "[" else ".") + (PrintFiller(fill) + ([c] + post)))
  }

  lemma SolidStands(e: string, pos: nat, c: char, post: string)
    requires Stands(e, pos, [c] + post) && !IsPathSpace(c)
    ensures pos < |e| && e[pos] == c && SkipPathSpace(e, pos) == pos
    ensures c != '\n' && c != '/' ==> SkipExprSpace(e, pos) == pos
  {
    assert e[pos..pos + |[c] + post|][0] == c;
  }

  lemma JunkRefused(u: Classes, e: string, pos: nat, s: Stray)
    requires s.Junk? && StrayOk(u, s) && Stands(e, pos, PrintStray(s))
    ensures ConsumeSeparator(e, pos) == None
  {
    StandsConcat(e, pos, s.gap, [s.c] + s.post);
    GapStands(e, pos, s.gap);
    SolidStands(e, pos + |s.gap|, s.c, s.post);
    hide SkipPathSpace, SkipExprSpace, Stands, GapOk;
  }

  lemma StrayParts(u: Classes, s: Stray)
    requires StrayOk(u, s)
    ensures GapOk(s.gap)
    ensures s.AfterEnd? ==> TrailerOk(Trailer(s.gap, s.fill)) && FillerOk(s.fill) && s.fill != []
    ensures s.AfterEnd? ==> !IsPathSpace(s.c) && s.c != '\n' && s.c != '/' && PrintStray(s) == s.gap + (PrintFiller(s.fill) + ([s.c] + s.post))
    ensures s.NoLabel? ==> FillerOk(s.fill) && Alien(u, s.c, s.bracket) && !IsPathSpace(s.c) && s.c != '\n' && s.c != '/'
    ensures s.NoLabel? ==> PrintStray(s) == s.gap + ((if s.bracket then "[" else ".") + (PrintFiller(s.fill) + ([s.c] + s.post)))
  {
    hide PrintFiller, GapOk, FillerOk;
  }

  lemma FillerOpens(e: string, at: nat, t: Trailer)
    requires TrailerOk(t) && t.fill != [] && Stands(e, at, PrintFiller(t.fill))
    ensures at < |e| && !IsPathSpace(e[at]) && (e[at] == '\n' || IsLineComment(e, at))
  {
    var f := PrintFiller(t.fill);
    FillerStart(t);
    hide PrintFiller, FillerOk, GapOk;
    assert e[at..at + |f|][0] == f[0] && (f[0] == '/' ==> e[at..at + |f|][1] == f[1]);
  }

  lemma NotTheEnd(e: string, pos: nat, at: nat, q: nat)
    requires pos <= |e| && at < |e| && SkipPathSpace(e, pos) == SkipPathSpace(e, at) && !IsPathSpace(e[at])
    requires (e[at] == '\n' || IsLineComment(e, at)) && SkipExprSpace(e, at) == q < |e|
    ensures ConsumeSeparator(e, pos) == None
  {
    hide SkipExprSpace;
  }

  lemma EndRefused(u: Classes, e: string, pos: nat, s: Stray)
    requires s.AfterEnd? && StrayOk(u, s) && Stands(e, pos, PrintStray(s))
    ensures ConsumeSeparator(e, pos) == None
  {
    hide *;
    StrayParts(u, s);
    var f, at := PrintFiller(s.fill), pos + |s.gap|;
    StandsConcat(e, pos, s.gap, f + ([s.c] + s.post));
    StandsConcat(e, at, f, [s.c] + s.post);
    GapStands(e, pos, s.gap);
    FillerOpens(e, at, Trailer(s.gap, s.fill));
    FillerStands(e, at, s.fill);
    SolidStands(e, at + |f|, s.c, s.post);
    NotTheEnd(e, pos, at, at + |f|);
  }

  lemma NoLabelRefused(u: Classes, e: string, pos: nat, s: Stray)
    requires s.NoLabel? && StrayOk(u, s) && Stands(e, pos, PrintStray(s))
    ensures ParseRest(u, e, pos) == None
  {
    hide *;
    StrayParts(u, s);
    var f, mark := PrintFiller(s.fill), if s.bracket then "[" else ".";
    var after := pos + |s.gap| + 1;
    StandsConcat(e, pos, s.gap, mark + (f + ([s.c] + s.post)));
    StandsConcat(e, pos + |s.gap|, mark, f + ([s.c] + s.post));
    StandsConcat(e, after, f, [s.c] + s.post);
    MarkRead(e, pos, s.gap, s.bracket);
    FillerStands(e, after, s.fill);
    SolidStands(e, after + |f|, s.c, s.post);
    if s.bracket { AlienBracket(u, e, after, after + |f|); } else { AlienSegment(u, e, after, after + |f|); }
    RestStep(u, e, pos);
  }

  lemma AlienStart(e: string, pos: nat)
    requires pos < |e| && e[pos] != '#' && e[pos] != '"'
    ensures !IsMultilineStart(e, pos) && !IsRawStart(e, pos)
  {
    assert CountHashes(e, pos) == 0;
    if pos + 3 <= |e| { assert e[pos..pos + 3][0] == e[pos]; }
  }

  lemma AlienSegment(u: Classes, e: string, start: nat, pos: nat)
    requires start <= |e| && pos < |e| && SkipExprSpace(e, start) == pos && Alien(u, e[pos], false)
    ensures ConsumeSegment(u, e, start, false) == None
  {
    if e[pos] != '#' { AlienStart(e, pos); }
    hide SkipExprSpace, IsMultilineStart, IsRawStart, IdentEnd, ConsumeString, ConsumeMultiline, IsIdentStart;
  }

  lemma AlienBracket(u: Classes, e: string, start: nat, pos: nat)
    requires start <= |e| && pos < |e| && SkipExprSpace(e, start) == pos && Alien(u, e[pos], true)
    ensures ConsumeBracket(e, start) == None
  {
    AlienStart(e, pos);
    hide SkipExprSpace, SkipPathSpace, IsMultilineStart, IsRawStart, ConsumeString, ConsumeMultiline;
  }

  lemma StrayEnds(u: Classes, s: Stray)
    requires StrayOk(u, s)
    ensures Ends(u, PrintStray(s))
  {
    var more := PrintStray(s);
    if s.gap != "" {
      assert more[0] == s.gap[0] && s.gap[0] in s.gap;
    } else if s.AfterEnd? {
      FillerStart(Trailer("", s.fill));
      assert more[0] == PrintFiller(s.fill)[0];
    }
  }

  /** MAIN: after any printed start of a path, text that belongs to no selector and ends nothing refuses the path. */
  lemma StrayRefused(u: Classes, texts: seq<string>, ps: seq<Print>, s: Stray)
    requires Sane(u) && StrayOk(u, s) && Clean(PrintStray(s))
    requires texts != [] && |ps| == |texts| && Fits(u, texts[0], ps[0], true)
    requires forall k | 1 <= k < |texts| :: Fits(u, texts[k], ps[k], false)
    ensures Spells(u, texts[0], ps[0].form)
    ensures ParsePath(u, PrintHead(u, texts[0], ps[0]) + PrintOn(u, texts[1..], ps[1..], PrintStray(s))) == None
  {
    hide *;
    var more := PrintStray(s);
    StrayEnds(u, s);
    PathReads(u, texts, ps, more);
    var e := PrintHead(u, texts[0], ps[0]) + PrintOn(u, texts[1..], ps[1..], more);
    OnEnds(u, texts[1..], ps[1..], more, PrintHead(u, texts[0], ps[0]));
    var pos := |e| - |more|;
    RestStep(u, e, pos);
    PrefixedSnoc(texts, "", None);
    match s
    case Junk(_, _, _) => JunkRefused(u, e, pos, s);
    case AfterEnd(_, _, _, _) => EndRefused(u, e, pos, s);
    case NoLabel(_, _, _, _, _) => NoLabelRefused(u, e, pos, s);
  }

}
