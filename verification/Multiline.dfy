/**
  Triple-quoted labels. Four passes read the same text: the raw scan for the close, the raw check of
  the escapes, the search for the close again once carriage returns are gone, and the decoder. Each
  later pass indexes on the strength of an earlier one; the preconditions here say which.
 */
module Multiline {

  import opened Wrappers
  import opened Escapes
  import opened Sequences

  function Quotes(n: nat): (s: string)
    ensures |s| == 3 + n && s[0] == '"'
  {
    "\"\"\"" + Hashes(n)
  }

  function Opener(n: nat): (s: string)
    ensures |s| == 3 + n
  {
    Hashes(n) + "\"\"\""
  }

  // ----- The raw escapes -----

  predicate IsSelector(c: char)
  {
    c in "abfnrtv\\/\""
  }

  /** The width of a well-formed raw escape at i; a carriage return is neither a selector nor a digit. */
  function RawEscapeScan(body: string, i: nat, n: nat): (r: Option<nat>)
    requires i + 2 + n <= |body|
    ensures r.Some? ==> 2 + n <= r.value <= |body| - i
  {
    var c := body[i + 1 + n];
    if IsSelector(c) then Some(2 + n)
    else if !IsUnicodeSelector(c) then None
    else
      var count := if c == 'U' then 8 else 4;
      if i + 2 + n + count > |body| || HexNumber(body, i + 2 + n, count).None? then None else Some(2 + n + count)
  }

  lemma RawEscapeStaysAligned(body: string, i: nat, n: nat)
    requires i < |body| && IsIntro(body, i, n) && Aligned(body, i, n) && RawEscapeScan(body, i, n).Some?
    ensures Aligned(body, i + RawEscapeScan(body, i, n).value, n)
  {
    SkipPlain(body, i + 2 + n, i + RawEscapeScan(body, i, n).value, n);
  }

  predicate RawEscapesOk(body: string, i: nat, n: nat)
    requires i <= |body| && Aligned(body, i, n)
    decreases |body| - i
  {
    if i == |body| then true
    else if IsIntro(body, i, n) then
      match RawEscapeScan(body, i, n)
      case None => false
      case Some(w) => RawEscapeStaysAligned(body, i, n); RawEscapesOk(body, i + w, n)
    else RawEscapesOk(body, i + 1, n)
  }

  method RawEscapesOkLoop(body: string, n: nat) returns (ok: bool)
    requires Aligned(body, 0, n)
    ensures ok == RawEscapesOk(body, 0, n)
  {
    var i := 0;
    while i < |body|
      invariant 0 <= i <= |body| && Aligned(body, i, n) && RawEscapesOk(body, 0, n) == RawEscapesOk(body, i, n)
    {
      if !IsIntro(body, i, n) {
        i := i + 1;
      } else {
        var w := RawEscapeScan(body, i, n);
        if w.None? { return false; }
        RawEscapeStaysAligned(body, i, n);
        i := i + w.value;
      }
    }
    ok := true;
  }

  // ----- Carriage returns -----

  function StripCR(s: string): (r: string)
    ensures '\r' !in r && |r| <= |s|
  {
    if s == "" then "" else StripCR(s[..|s| - 1]) + (if s[|s| - 1] == '\r' then "" else [s[|s| - 1]])
  }

  method StripCRLoop(s: string) returns (r: string)
    ensures r == StripCR(s)
  {
    r := "";
    for i := 0 to |s|
      invariant r == StripCR(s[..i])
    {
      assert s[..i + 1][..i] == s[..i];
      if s[i] != '\r' { r := r + [s[i]]; }
    }
    assert s[..|s|] == s;
  }

  lemma StripSnoc(s: string, c: char)
    ensures StripCR(s + [c]) == StripCR(s) + (if c == '\r' then "" else [c])
  {
    assert (s + [c])[..|s|] == s;
  }

  lemma {:induction false} StripConcat(a: string, b: string)
    ensures StripCR(a + b) == StripCR(a) + StripCR(b)
  {
    if b == "" {
      EmptyRight(a);
      EmptyRight(StripCR(a));
    } else {
      hide StripCR;
      var m := |b| - 1;
      var last := [b[m]];
      var keep := if b[m] == '\r' then "" else last;
      StripConcat(a, b[..m]);
      StripSnoc(a + b[..m], b[m]);
      StripSnoc(b[..m], b[m]);
      Snoc(b);
      Assoc(a, b[..m], last);
      Assoc(StripCR(a), StripCR(b[..m]), keep);
    }
  }

  lemma {:induction false} StripNothing(s: string)
    requires '\r' !in s
    ensures StripCR(s) == s
  {
    if s != "" {
      hide StripCR;
      var m := |s| - 1;
      assert s[m] in s && s == s[..m] + [s[m]];
      StripNothing(s[..m]);
      StripSnoc(s[..m], s[m]);
    }
  }

  // ----- The indentation -----

  /** White space as Unicode defines it. */
  predicate IsSpace(c: char)
  {
    || '\t' <= c <= '\r' || c == ' ' || c == '\U{85}' || c == '\U{A0}' || c == '\U{1680}'
    || '\U{2000}' <= c <= '\U{200A}' || c == '\U{2028}' || c == '\U{2029}' || c == '\U{202F}'
    || c == '\U{205F}' || c == '\U{3000}'
  }

  /** These twenty-five and no others. */
  lemma SpacesAre(c: char)
    ensures IsSpace(c) <==> c as int in {
              0x09, 0x0A, 0x0B, 0x0C, 0x0D, 0x20, 0x85, 0xA0, 0x1680, 0x2000, 0x2001, 0x2002, 0x2003, 0x2004, 0x2005,
              0x2006, 0x2007, 0x2008, 0x2009, 0x200A, 0x2028, 0x2029, 0x202F, 0x205F, 0x3000}
  {
  }

  /** Where the blanks that end s[..i] begin; they stop at a newline. */
  function IndentStart(s: string, i: nat): (k: nat)
    requires i <= |s|
    ensures k <= i && forall j | k <= j < i :: IsSpace(s[j]) && s[j] != '\n'
    ensures k > 0 ==> s[k - 1] == '\n' || !IsSpace(s[k - 1])
  {
    if i == 0 || s[i - 1] == '\n' || !IsSpace(s[i - 1]) then i else IndentStart(s, i - 1)
  }

  method IndentStartLoop(s: string, end: nat) returns (k: nat)
    requires end <= |s|
    ensures k == IndentStart(s, end)
  {
    k := end;
    while k > 0
      invariant 0 <= k <= end && IndentStart(s, end) == IndentStart(s, k)
    {
      if s[k - 1] == '\n' || !IsSpace(s[k - 1]) { break; }
      k := k - 1;
    }
  }

  ghost predicate Blank(ws: string)
  {
    forall c <- ws :: c != '\\' && c != '"'
  }

  /**
    The body is the text between the opening and closing quotes. Its closing line must be blank: that
    is the indentation, and the first line must carry it unless it is empty.
   */
  function Indentation(body: string, n: nat): (r: Option<(string, nat)>)
    requires body != "" && body[0] == '\n'
    ensures r.Some? ==> Blank(r.value.0) && r.value.1 <= |body|
    ensures r.Some? ==> forall k | 0 <= k < r.value.1 :: body[k] != '\\'
  {
    var k := IndentStart(body, |body|);
    if k == 0 || body[k - 1] != '\n' then None
    else
      var ws := body[k..];
      if |body| > 1 && body[1] == '\n' then Some((ws, 1))
      else if HasPrefixAt(body, 1, ws) then
        assert forall j | 1 <= j < 1 + |ws| :: body[j] == body[1..1 + |ws|][j - 1] == ws[j - 1];
        Some((ws, 1 + |ws|))
      else None
  }

  method IndentationLoop(body: string, n: nat) returns (r: Option<(string, nat)>)
    requires body != "" && body[0] == '\n'
    ensures r == Indentation(body, n)
  {
    hide IndentStart, HasPrefixAt;
    var k := IndentStartLoop(body, |body|);
    if k == 0 || body[k - 1] != '\n' { return None; }
    var ws := body[k..];
    if |body| > 1 && body[1] == '\n' { return Some((ws, 1)); }
    r := if HasPrefixAt(body, 1, ws) then Some((ws, 1 + |ws|)) else None;
  }

  // ----- Decoding -----

  /** Past the indentation of the line at j; a blank line needs none. */
  function SkipIndent(body: string, j: nat, ws: string): (r: Option<nat>)
    requires j <= |body|
    ensures r.Some? ==> j <= r.value <= |body| && r.value <= j + |ws|
    ensures r.Some? ==> forall k | j <= k < r.value :: body[k] == ws[k - j]
  {
    if HasPrefixAt(body, j, ws) then
      assert forall k | j <= k < j + |ws| :: body[k] == body[j..j + |ws|][k - j];
      Some(j + |ws|)
    else if j < |body| && body[j] == '\n' then Some(j)
    else None
  }

  lemma IndentStaysAligned(body: string, j: nat, ws: string, n: nat)
    requires j <= |body| && Aligned(body, j, n) && Blank(ws) && SkipIndent(body, j, ws).Some?
    ensures Aligned(body, SkipIndent(body, j, ws).value, n)
  {
    var k := SkipIndent(body, j, ws).value;
    forall x | j <= x < k ensures body[x] != '\\' { assert ws[x - j] in ws; }
    SkipPlain(body, j, k, n);
  }

  /** What the rest of the body adds to `out`; the flags say what the last thing read was. */
  function DecodeLines(body: string, i: nat, ws: string, n: nat, out: string, newline: bool, elided: bool): Option<string>
    requires i <= |body| && Aligned(body, i, n) && Blank(ws)
    decreases |body| - i
  {
    if i == |body| then
      if elided then None else Some(if newline && |out| > 0 then out[..|out| - 1] else out)
    else if body[i] == '\n' then
      match SkipIndent(body, i + 1, ws)
      case None => None
      case Some(j) => IndentStaysAligned(body, i + 1, ws, n); DecodeLines(body, j, ws, n, out + "\n", true, false)
    else if IsIntro(body, i, n) then
      if body[i + 1 + n] == '\n' then
        match SkipIndent(body, i + 2 + n, ws)
        case None => None
        case Some(j) => IndentStaysAligned(body, i + 2 + n, ws, n); DecodeLines(body, j, ws, n, out, false, true)
      else
        match DecodeEscapeAt(body, i, n)
        case None => None
        case Some((c, w)) => EscapeStaysAligned(body, i, n); DecodeLines(body, i + w, ws, n, out + [c], false, false)
    else DecodeLines(body, i + 1, ws, n, out + [body[i]], false, false)
  }

  method DecodeLinesLoop(body: string, start: nat, ws: string, n: nat) returns (r: Option<string>)
    requires start <= |body| && Aligned(body, start, n) && Blank(ws)
    ensures r == DecodeLines(body, start, ws, n, "", false, false)
  {
    var i, out, newline, elided := start, "", false, false;
    while i < |body|
      invariant i <= |body| && Aligned(body, i, n)
      invariant DecodeLines(body, start, ws, n, "", false, false) == DecodeLines(body, i, ws, n, out, newline, elided)
      decreases |body| - i
    {
      if body[i] == '\n' {
        var j := SkipIndent(body, i + 1, ws);
        if j.None? { return None; }
        IndentStaysAligned(body, i + 1, ws, n);
        i, out, newline, elided := j.value, out + "\n", true, false;
      } else if IsIntro(body, i, n) && body[i + 1 + n] == '\n' {
        var j := SkipIndent(body, i + 2 + n, ws);
        if j.None? { return None; }
        IndentStaysAligned(body, i + 2 + n, ws, n);
        i, newline, elided := j.value, false, true;
      } else if IsIntro(body, i, n) {
        var e := DecodeEscapeAt(body, i, n);
        if e.None? { return None; }
        EscapeStaysAligned(body, i, n);
        i, out, newline, elided := i + e.value.1, out + [e.value.0], false, false;
      } else {
        i, out, newline, elided := i + 1, out + [body[i]], false, false;
      }
    }
    if elided { return None; }
    if newline && |out| > 0 { out := out[..|out| - 1]; }
    r := Some(out);
  }

  // ----- The whole label -----

  predicate NewlineFirst(body: string)
  {
    body != "" && (body[0] == '\n' || (body[0] == '\r' && |body| > 1 && body[1] == '\n'))
  }

  /**
    The text of the raw body between the quotes, or none when the label is malformed. The close is
    searched again in the stripped body and its quotes: only a close at the very end is accepted.
   */
  function DecodeRawBody(raw: string, n: nat): Option<string>
    requires Aligned(raw, 0, n)
  {
    if !NewlineFirst(raw) || !RawEscapesOk(raw, 0, n) then None
    else
      var body := StripCR(raw);
      if CloseIndex(body + Quotes(n), 0, n, Quotes(n)) != Some(|body|) then None
      else
        StrippedIsAligned(raw, n);
        match Indentation(body, n)
        case None => None
        case Some((ws, start)) =>
          SkipPlain(body, 0, start, n);
          DecodeLines(body, start, ws, n, "", false, false)
  }

  /** MAIN: when the second search agrees, the stripped body is aligned and starts with its newline. */
  lemma StrippedIsAligned(raw: string, n: nat)
    requires NewlineFirst(raw)
    requires CloseIndex(StripCR(raw) + Quotes(n), 0, n, Quotes(n)) == Some(|StripCR(raw)|)
    ensures var body := StripCR(raw); Aligned(body, 0, n) && body != "" && body[0] == '\n'
  {
    hide *;
    var body := StripCR(raw);
    CloseLeavesAligned(body + Quotes(n), 0, n, Quotes(n));
    assert (body + Quotes(n))[..|body|] == body;
    StripKeepsNewline(raw);
  }

  lemma StripOne(c: char)
    ensures StripCR([c]) == if c == '\r' then "" else [c]
  {
    assert [c][..0] == [];
  }

  lemma StripKeepsNewline(raw: string)
    requires NewlineFirst(raw)
    ensures StripCR(raw) != "" && StripCR(raw)[0] == '\n'
  {
    hide StripCR;
    assert raw == [raw[0]] + raw[1..];
    StripOne(raw[0]);
    StripConcat([raw[0]], raw[1..]);
    if raw[0] == '\r' {
      assert raw[1..] == [raw[1]] + raw[2..];
      StripOne(raw[1]);
      StripConcat([raw[1]], raw[2..]);
    }
  }

  method DecodeRawBodyLoop(raw: string, n: nat) returns (r: Option<string>)
    requires Aligned(raw, 0, n)
    ensures r == DecodeRawBody(raw, n)
  {
    hide CloseIndex, RawEscapesOk, StripCR, Indentation, DecodeLines, Aligned, NewlineFirst;
    if !NewlineFirst(raw) { return None; }
    var ok := RawEscapesOkLoop(raw, n);
    if !ok { return None; }
    var body := StripCRLoop(raw);
    var again := CloseIndexLoop(body + Quotes(n), n, Quotes(n));
    if again != Some(|body|) { return None; }
    StrippedIsAligned(raw, n);
    var ind := IndentationLoop(body, n);
    if ind.None? { return None; }
    SkipPlain(body, 0, ind.value.1, n);
    r := DecodeLinesLoop(body, ind.value.1, ind.value.0, n);
  }

  /** The label opened at pos by n hashes and three quotes: its text and the position past its close. */
  function ParseMultiline(expr: string, pos: nat, n: nat): (r: Option<(string, nat)>)
    requires pos + n + 3 <= |expr|
    ensures r.Some? ==> pos + n + 3 < r.value.1 <= |expr|
  {
    var rest := expr[pos + n + 3..];
    match CloseIndex(rest, 0, n, Quotes(n))
    case None => None
    case Some(rel) =>
      CloseLeavesAligned(rest, 0, n, Quotes(n));
      match DecodeRawBody(rest[..rel], n)
      case None => Some(("", pos + n + 3 + rel + |Quotes(n)|))
      case Some(text) => Some((text, pos + n + 3 + rel + |Quotes(n)|))
  }

  method ParseMultilineLoop(expr: string, pos: nat, n: nat) returns (r: Option<(string, nat)>)
    requires pos + n + 3 <= |expr|
    ensures r == ParseMultiline(expr, pos, n)
  {
    hide CloseIndex, DecodeRawBody;
    var rest := expr[pos + n + 3..];
    var rel := CloseIndexLoop(rest, n, Quotes(n));
    if rel.None? { return None; }
    CloseLeavesAligned(rest, 0, n, Quotes(n));
    var text := DecodeRawBodyLoop(rest[..rel.value], n);
    r := Some((if text.Some? then text.value else "", pos + n + 3 + rel.value + 3 + n));
  }

  // ----- The second search can fail outright -----

  /**
    A backslash, a carriage return and a hash end a level-1 body: raw, the backslash is literal and the
    close follows; stripped, the backslash and the hash become an introducer that swallows the first
    closing quote, and no close is left. The label is refused all the same.
   */
  lemma StrippedCloseCanVanish()
    ensures var raw := "\n\\\r#";
            && Aligned(raw, 0, 1) && NewlineFirst(raw) && RawEscapesOk(raw, 0, 1)
            && CloseIndex(raw + Quotes(1), 0, 1, Quotes(1)) == Some(|raw|)
            && CloseIndex(StripCR(raw) + Quotes(1), 0, 1, Quotes(1)) == None
            && DecodeRawBody(raw, 1) == None
  {
    var raw := "\n\\\r#";
    StrippedExample();
    RawExample();
    StrippedCloseIsLost();
    hide CloseIndex, StripCR, RawEscapesOk, Aligned;
  }

  lemma StrippedExample()
    ensures StripCR("\n\\\r#") == "\n\\#"
  {
    hide StripCR;
    assert "\n\\\r#" == "\n\\" + ("\r" + "#");
    StripConcat("\n\\", "\r" + "#");
    StripConcat("\r", "#");
    StripNothing("\n\\");
    StripNothing("#");
    StripSnoc("", '\r');
    StripNothing("");
    assert "" + ['\r'] == "\r";
  }

  lemma RawExample()
    ensures CloseIndex("\n\\\r#" + Quotes(1), 0, 1, Quotes(1)) == Some(4)
    ensures Aligned("\n\\\r#", 0, 1) && RawEscapesOk("\n\\\r#", 0, 1)
  {
    var raw := "\n\\\r#";
    assert raw[2] == '\r' && !IsIntro(raw, 1, 1);
    assert Aligned(raw, 3, 1) && RawEscapesOk(raw, 3, 1);
    assert Aligned(raw, 2, 1) && RawEscapesOk(raw, 2, 1);
    assert Aligned(raw, 1, 1) && RawEscapesOk(raw, 1, 1);
    var t, q := "\n\\\r#" + Quotes(1), Quotes(1);
    assert t[2] == '\r' && !IsIntro(t, 1, 1);
    assert q[0] == '"' && t[4..8] == q;
    assert CloseIndex(t, 4, 1, q) == Some(4);
    assert CloseIndex(t, 3, 1, q) == Some(4);
    assert CloseIndex(t, 2, 1, q) == Some(4);
    assert CloseIndex(t, 1, 1, q) == Some(4);
  }

  lemma StrippedCloseIsLost()
    ensures CloseIndex("\n\\#" + Quotes(1), 0, 1, Quotes(1)) == None
  {
    var s, q := "\n\\#" + Quotes(1), Quotes(1);
    assert q == "\"\"\"#" && s == "\n\\#\"\"\"#";
    assert IsIntro(s, 1, 1) && !IsIntro(s, 4, 1);
    assert CloseIndex(s, 6, 1, q) == None;
    assert CloseIndex(s, 5, 1, q) == None;
    assert CloseIndex(s, 4, 1, q) == None;
    assert CloseIndex(s, 1, 1, q) == None;
  }

}
