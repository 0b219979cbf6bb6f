/**
  Printing a label in any of the escape styles the grammar offers, and reading it back. Every text
  survives, whatever style each character is written in.
 */
module Quoting {

  import opened Wrappers
  import opened Escapes
  import opened Sequences

  /** How to write one character; a style that does not apply falls back to an eight-digit escape. */
  datatype Style =
    | Verbatim
    | Short
    | Hex4(upper: bool)
    | Hex8(upper: bool)
    | Surrogates(upper: bool, bigHi: bool, bigLo: bool)

  function HexDigit(v: nat, upper: bool): (c: char)
    requires v < 16
    ensures HexVal(c) == Some(v)
  {
    if v < 10 then '0' + v as char else if upper then 'A' + (v - 10) as char else 'a' + (v - 10) as char
  }

  function HexDigits(v: nat, n: nat, upper: bool): (s: string)
    ensures |s| == n
    ensures forall c <- s :: HexVal(c).Some?
  {
    if n == 0 then "" else HexDigits(v / 16, n - 1, upper) + [HexDigit(v % 16, upper)]
  }

  function Pow16(n: nat): nat
  {
    if n == 0 then 1 else 16 * Pow16(n - 1)
  }

  lemma {:induction false} HexDigitsRead(pre: string, v: nat, n: nat, upper: bool, post: string)
    requires v < Pow16(n)
    ensures HexNumber(pre + HexDigits(v, n, upper) + post, |pre|, n) == Some(v)
  {
    if n > 0 {
      var last := [HexDigit(v % 16, upper)];
      HexDigitsRead(pre, v / 16, n - 1, upper, last + post);
      assert pre + HexDigits(v, n, upper) + post == pre + HexDigits(v / 16, n - 1, upper) + (last + post);
    }
  }

  function Intro(n: nat): (s: string)
    ensures |s| == 1 + n
  {
    "\\" + Hashes(n)
  }

  /** An escaped code point of four or eight digits at level n. */
  function CodePoint(v: nat, big: bool, upper: bool, n: nat): (s: string)
    ensures |s| == 2 + n + (if big then 8 else 4)
  {
    Intro(n) + [if big then 'U' else 'u'] + HexDigits(v, if big then 8 else 4, upper)
  }

  /** Characters that stand for themselves in every string form and may occur anywhere in a path. */
  predicate IsPlain(c: char)
  {
    c != '"' && c != '\\' && c != '\n' && c != '\r' && c != '\U{00}' && c != '\U{FEFF}'
  }

  function ShortSelector(c: char): (r: Option<char>)
    ensures r.Some? ==> ShortEscape(r.value) == Some(c) && !IsUnicodeSelector(r.value)
  {
    if c == '\U{07}' then Some('a') else if c == '\U{08}' then Some('b') else if c == '\U{0C}' then Some('f')
    else if c == '\n' then Some('n') else if c == '\r' then Some('r') else if c == '\t' then Some('t')
    else if c == '\U{0B}' then Some('v') else if c == '\\' then Some('\\') else if c == '"' then Some('"')
    else if c == '/' then Some('/') else None
  }

  function HighHalf(v: nat): (h: nat)
    requires 0x10000 <= v <= MAX_RUNE
    ensures IsHighSurrogate(h)
  {
    0xD800 + (v - 0x10000) / 0x400
  }

  function LowHalf(v: nat): (l: nat)
    requires 0x10000 <= v <= MAX_RUNE
    ensures IsLowSurrogate(l)
  {
    0xDC00 + (v - 0x10000) % 0x400
  }

  /** Splitting into halves per section 2.1 of RFC 2781 is undone by joining them. */
  lemma HalvesJoin(v: nat)
    requires 0x10000 <= v <= MAX_RUNE
    ensures PairValue(HighHalf(v), LowHalf(v)) == v
  {
  }

  function EncodeChar(c: char, style: Style, n: nat): (s: string)
    ensures s != ""
  {
    if style.Verbatim? && IsPlain(c) then [c]
    else if style.Short? && ShortSelector(c).Some? then Intro(n) + [ShortSelector(c).value]
    else if style.Hex4? && c as int <= 0xFFFF then CodePoint(c as int, false, style.upper, n)
    else if style.Surrogates? && c as int > 0xFFFF then
      CodePoint(HighHalf(c as int), style.bigHi, style.upper, n) + CodePoint(LowHalf(c as int), style.bigLo, style.upper, n)
    else CodePoint(c as int, true, style.Hex8? && style.upper, n)
  }

  function Encode(s: string, styles: seq<Style>, n: nat): (body: string)
    requires |styles| == |s|
    ensures s != "" ==> body != ""
  {
    if s == "" then "" else EncodeChar(s[0], styles[0], n) + Encode(s[1..], styles[1..], n)
  }

  // ----- Reading one character back -----

  lemma IntroIsIntro(pre: string, n: nat, post: string)
    ensures var s := pre + Intro(n) + post; IsIntro(s, |pre|, n)
  {
  }

  /** A code point written at position |pre| is read as itself, with its width. */
  lemma CodePointRead(pre: string, v: nat, big: bool, upper: bool, n: nat, post: string)
    requires v <= MAX_RUNE && (!big ==> v <= 0xFFFF)
    ensures var s := pre + CodePoint(v, big, upper, n) + post;
            && IsIntro(s, |pre|, n) && IsUnicodeSelector(s[|pre| + 1 + n])
            && DecodeCodePoint(s, |pre|, n) == Some((v, |CodePoint(v, big, upper, n)|))
  {
    var count := if big then 8 else 4;
    var head := Intro(n) + [if big then 'U' else 'u'];
    var s := pre + CodePoint(v, big, upper, n) + post;
    assert s == (pre + head) + HexDigits(v, count, upper) + post;
    assert Pow16(4) == 0x10000 && Pow16(8) == 0x1_0000_0000;
    HexDigitsRead(pre + head, v, count, upper, post);
    assert s[|pre| + 1 + n] == head[1 + n];
    assert s == pre + Intro(n) + ([if big then 'U' else 'u'] + HexDigits(v, count, upper) + post);
    IntroIsIntro(pre, n, [if big then 'U' else 'u'] + HexDigits(v, count, upper) + post);
  }

  /** An escape is introduced at |pre| and spells c over the width it was written with. */
  ghost predicate ReadsAs(s: string, i: nat, n: nat, c: char, w: nat)
    requires i < |s|
  {
    if IsIntro(s, i, n) then i + 2 + n <= |s| && DecodeEscapeAt(s, i, n) == Some((c, w))
    else s[i] == c && w == 1 && c != '\n' && c != '\r' && c != '\\' && c != '"'
  }

  /** Two halves read one after the other are read as the pair. */
  lemma HalvesRead(s: string, i: nat, n: nat, v: nat, hiWidth: nat, loWidth: nat)
    requires 0x10000 <= v <= MAX_RUNE && i + 2 + n <= |s| && i + hiWidth + 2 + n <= |s|
    requires IsIntro(s, i, n) && IsUnicodeSelector(s[i + 1 + n]) && DecodeCodePoint(s, i, n) == Some((HighHalf(v), hiWidth))
    requires IsIntro(s, i + hiWidth, n) && IsUnicodeSelector(s[i + hiWidth + 1 + n])
    requires DecodeCodePoint(s, i + hiWidth, n) == Some((LowHalf(v), loWidth))
    ensures ReadsAs(s, i, n, v as char, hiWidth + loWidth)
  {
    HalvesJoin(v);
    hide DecodeCodePoint, HighHalf, LowHalf, PairValue, IsHighSurrogate, IsLowSurrogate, Aligned, Decode, ShortEscape;
    HalvesAreHalves(v);
    assert CombineSurrogate(s, i, n, HighHalf(v), hiWidth) == Some((v as char, hiWidth + loWidth));
  }

  lemma HalvesAreHalves(v: nat)
    requires 0x10000 <= v <= MAX_RUNE
    ensures IsHighSurrogate(HighHalf(v)) && IsLowSurrogate(LowHalf(v))
  {
  }

  lemma PairRead(pre: string, v: nat, style: Style, n: nat, post: string)
    requires 0x10000 <= v <= MAX_RUNE && style.Surrogates?
    ensures var hi := CodePoint(HighHalf(v), style.bigHi, style.upper, n);
            var lo := CodePoint(LowHalf(v), style.bigLo, style.upper, n);
            ReadsAs(pre + (hi + lo) + post, |pre|, n, v as char, |hi + lo|)
  {
    hide CodePoint, DecodeCodePoint, DecodeEscapeAt, IsIntro, ReadsAs;
    var hi := CodePoint(HighHalf(v), style.bigHi, style.upper, n);
    var lo := CodePoint(LowHalf(v), style.bigLo, style.upper, n);
    CodePointRead(pre, HighHalf(v), style.bigHi, style.upper, n, lo + post);
    CodePointRead(pre + hi, LowHalf(v), style.bigLo, style.upper, n, post);
    Assoc(pre, hi, lo);
    Assoc(pre + hi, lo, post);
    CodePointLength(pre, HighHalf(v), style.bigHi, style.upper, n, lo + post);
    CodePointLength(pre + hi, LowHalf(v), style.bigLo, style.upper, n, post);
    HalvesRead(pre + hi + lo + post, |pre|, n, v, |hi|, |lo|);
  }

  lemma CodePointLength(pre: string, v: nat, big: bool, upper: bool, n: nat, post: string)
    ensures |pre| + 2 + n <= |pre + CodePoint(v, big, upper, n) + post|
  {
    hide HexDigits;
  }

  lemma PlainRead(pre: string, c: char, n: nat, post: string)
    requires IsPlain(c)
    ensures ReadsAs(pre + [c] + post, |pre|, n, c, 1)
  {
    assert (pre + [c] + post)[|pre|] == c;
  }

  lemma ShortRead(pre: string, c: char, n: nat, post: string)
    requires ShortSelector(c).Some?
    ensures ReadsAs(pre + (Intro(n) + [ShortSelector(c).value]) + post, |pre|, n, c, 2 + n)
  {
    hide ShortSelector, Decode, Aligned, CombineSurrogate, DecodeCodePoint;
    var sel := [ShortSelector(c).value];
    var s := pre + (Intro(n) + sel) + post;
    assert s == pre + Intro(n) + (sel + post);
    IntroIsIntro(pre, n, sel + post);
    assert s[|pre| + 1 + n] == sel[0];
  }

  lemma ScalarRead(pre: string, c: char, big: bool, upper: bool, n: nat, post: string)
    requires !big ==> c as int <= 0xFFFF
    ensures ReadsAs(pre + CodePoint(c as int, big, upper, n) + post, |pre|, n, c, |CodePoint(c as int, big, upper, n)|)
  {
    hide CodePoint, Decode, Aligned, CombineSurrogate, DecodeCodePoint;
    CodePointRead(pre, c as int, big, upper, n, post);
  }

  lemma CharRead(pre: string, c: char, style: Style, n: nat, post: string)
    ensures ReadsAs(pre + EncodeChar(c, style, n) + post, |pre|, n, c, |EncodeChar(c, style, n)|)
  {
    hide ReadsAs, CodePoint, ShortSelector, IsPlain;
    if style.Verbatim? && IsPlain(c) {
      PlainRead(pre, c, n, post);
    } else if style.Short? && ShortSelector(c).Some? {
      ShortRead(pre, c, n, post);
    } else if style.Hex4? && c as int <= 0xFFFF {
      ScalarRead(pre, c, false, style.upper, n, post);
    } else if style.Surrogates? && c as int > 0xFFFF {
      PairRead(pre, c as int, style, n, post);
    } else {
      ScalarRead(pre, c, true, style.Hex8? && style.upper, n, post);
    }
  }

  // ----- Reading a whole label back -----

  lemma {:induction false} EncodedRead(pre: string, s: string, styles: seq<Style>, n: nat)
    requires |styles| == |s|
    requires Aligned(pre + Encode(s, styles, n), |pre|, n)
    ensures Decode(pre + Encode(s, styles, n), |pre|, n) == Some(s)
    decreases |s|
  {
    hide DecodeEscapeAt, EncodeChar;
    var whole := pre + Encode(s, styles, n);
    if s != "" {
      var e, rest := EncodeChar(s[0], styles[0], n), Encode(s[1..], styles[1..], n);
      assert whole == pre + e + rest == (pre + e) + rest;
      CharRead(pre, s[0], styles[0], n, rest);
      if IsIntro(whole, |pre|, n) { EscapeStaysAligned(whole, |pre|, n); }
      EncodedRead(pre + e, s[1..], styles[1..], n);
      assert s == [s[0]] + s[1..];
    }
  }

  /** No closing quote is seen inside an encoded label: the scan runs to the delimiter that ends it. */
  lemma {:induction false} EncodedScan(pre: string, s: string, styles: seq<Style>, n: nat, close: string, post: string)
    requires |styles| == |s| && close != "" && close[0] == '"'
    ensures var body := Encode(s, styles, n);
            CloseIndex(pre + body + close + post, |pre|, n, close) == Some(|pre + body|)
    decreases |s|
  {
    if s == "" {
      EmptyRight(pre);
      CloseHere(pre, n, close, post);
    } else {
      var e, rest := EncodeChar(s[0], styles[0], n), Encode(s[1..], styles[1..], n);
      hide Encode, CloseIndex;
      EncodedScan(pre + e, s[1..], styles[1..], n, close, post);
      CharScan(pre, s[0], styles[0], n, rest + close + post, close);
      Assoc(pre, e, rest);
      Assoc(pre + e, rest + close, post);
      Assoc(pre + e, rest, close);
    }
  }

  lemma CloseHere(pre: string, n: nat, close: string, post: string)
    requires close != "" && close[0] == '"'
    ensures CloseIndex(pre + close + post, |pre|, n, close) == Some(|pre|)
  {
    var whole := pre + close + post;
    SliceOf(pre, close, post);
    assert whole[|pre|] == '"';
  }

  lemma {:induction false} ScanPlain(s: string, i: nat, j: nat, n: nat, close: string)
    requires i <= j <= |s| && close != "" && close[0] == '"'
    requires forall k | i <= k < j :: s[k] != '\\' && s[k] != '"'
    ensures CloseIndex(s, i, n, close) == CloseIndex(s, j, n, close)
    decreases j - i
  {
    if i < j { ScanPlain(s, i + 1, j, n, close); }
  }

  lemma DigitsArePlain(front: string, v: nat, count: nat, upper: bool, post: string)
    ensures var digits := HexDigits(v, count, upper); var s := front + (digits + post);
            forall k | |front| <= k < |front| + |digits| :: s[k] != '\\' && s[k] != '"'
  {
    var digits := HexDigits(v, count, upper);
    var s := front + (digits + post);
    forall k | |front| <= k < |front| + |digits| ensures s[k] != '\\' && s[k] != '"' {
      assert s[k] == digits[k - |front|] && digits[k - |front|] in digits;
    }
  }

  lemma CodePointIs(v: nat, big: bool, upper: bool, n: nat)
    ensures CodePoint(v, big, upper, n) == Intro(n) + [if big then 'U' else 'u'] + HexDigits(v, if big then 8 else 4, upper)
  {
  }

  /** The scan passes an introducer and its selector in one step. */
  lemma IntroSkips(pre: string, n: nat, post: string, close: string)
    requires post != ""
    ensures var s := pre + Intro(n) + post;
            |pre| + 2 + n <= |s| && CloseIndex(s, |pre|, n, close) == CloseIndex(s, |pre| + 2 + n, n, close)
  {
    IntroIsIntro(pre, n, post);
  }

  lemma CodePointScan(pre: string, v: nat, big: bool, upper: bool, n: nat, post: string, close: string)
    requires close != "" && close[0] == '"'
    ensures var e := CodePoint(v, big, upper, n);
            CloseIndex(pre + e + post, |pre|, n, close) == CloseIndex(pre + e + post, |pre + e|, n, close)
  {
    hide *;
    var e, sel := CodePoint(v, big, upper, n), [if big then 'U' else 'u'];
    var digits := HexDigits(v, if big then 8 else 4, upper);
    var tail := digits + post;
    CodePointIs(v, big, upper, n);
    Assoc(pre, e, post);
    Assoc(Intro(n) + sel, digits, post);
    Assoc(Intro(n), sel, tail);
    Assoc(pre, Intro(n), sel + tail);
    Assoc(pre + Intro(n), sel, tail);
    IntroSkips(pre, n, sel + tail, close);
    DigitsArePlain(pre + Intro(n) + sel, v, if big then 8 else 4, upper, post);
    ScanPlain(pre + e + post, |pre + Intro(n) + sel|, |pre + e|, n, close);
  }

  lemma ShortScan(pre: string, sel: char, n: nat, post: string, close: string)
    requires close != "" && close[0] == '"'
    ensures var e := Intro(n) + [sel];
            CloseIndex(pre + e + post, |pre|, n, close) == CloseIndex(pre + e + post, |pre + e|, n, close)
  {
    assert pre + (Intro(n) + [sel]) + post == pre + Intro(n) + ([sel] + post);
    IntroIsIntro(pre, n, [sel] + post);
  }

  lemma PairScan(pre: string, hi: string, lo: string, n: nat, post: string, close: string)
    requires CloseIndex(pre + hi + (lo + post), |pre|, n, close) == CloseIndex(pre + hi + (lo + post), |pre + hi|, n, close)
    requires CloseIndex((pre + hi) + lo + post, |pre + hi|, n, close) == CloseIndex((pre + hi) + lo + post, |pre + hi + lo|, n, close)
    ensures CloseIndex(pre + (hi + lo) + post, |pre|, n, close) == CloseIndex(pre + (hi + lo) + post, |pre + (hi + lo)|, n, close)
  {
    hide CloseIndex;
    assert pre + (hi + lo) + post == pre + hi + (lo + post) && pre + (hi + lo) + post == (pre + hi) + lo + post;
    assert |pre + hi + lo| == |pre + (hi + lo)|;
  }

  lemma CharScan(pre: string, c: char, style: Style, n: nat, post: string, close: string)
    requires close != "" && close[0] == '"'
    ensures var e := EncodeChar(c, style, n);
            CloseIndex(pre + e + post, |pre|, n, close) == CloseIndex(pre + e + post, |pre + e|, n, close)
  {
    if style.Verbatim? && IsPlain(c) {
      ScanPlain(pre + [c] + post, |pre|, |pre| + 1, n, close);
    } else if style.Short? && ShortSelector(c).Some? {
      ShortScan(pre, ShortSelector(c).value, n, post, close);
    } else if style.Hex4? && c as int <= 0xFFFF {
      CodePointScan(pre, c as int, false, style.upper, n, post, close);
    } else if style.Surrogates? && c as int > 0xFFFF {
      var hi := CodePoint(HighHalf(c as int), style.bigHi, style.upper, n);
      var lo := CodePoint(LowHalf(c as int), style.bigLo, style.upper, n);
      CodePointScan(pre, HighHalf(c as int), style.bigHi, style.upper, n, lo + post, close);
      CodePointScan(pre + hi, LowHalf(c as int), style.bigLo, style.upper, n, post, close);
      PairScan(pre, hi, lo, n, post, close);
    } else {
      CodePointScan(pre, c as int, true, style.Hex8? && style.upper, n, post, close);
    }
  }

  /** MAIN: a label written in any mix of styles is delimited where it ends and decodes to itself. */
  lemma LabelRoundTrip(s: string, styles: seq<Style>, n: nat, close: string, post: string)
    requires |styles| == |s| && close != "" && close[0] == '"'
    ensures var body := Encode(s, styles, n);
            && CloseIndex(body + close + post, 0, n, close) == Some(|body|)
            && Aligned(body, 0, n) && Decode(body, 0, n) == Some(s)
  {
    var body := Encode(s, styles, n);
    EncodedScan("", s, styles, n, close, post);
    assert "" + body == body && "" + body + close + post == body + close + post;
    CloseLeavesAligned(body + close + post, 0, n, close);
    assert (body + close + post)[..|body|] == body;
    EncodedRead("", s, styles, n);
  }

  /** MAIN: a surrogate half that is not completed by its other half in the same dialect is refused. */
  lemma LoneHalfRefused(v: nat, big: bool, upper: bool, n: nat, post: string)
    requires IsHighSurrogate(v) || IsLowSurrogate(v)
    requires var body := CodePoint(v, big, upper, n) + post; var w := |CodePoint(v, big, upper, n)|;
             !(IsHighSurrogate(v) && w + 2 + n <= |body| && IsIntro(body, w, n) && IsUnicodeSelector(body[w + 1 + n])
               && DecodeCodePoint(body, w, n).Some? && IsLowSurrogate(DecodeCodePoint(body, w, n).value.0))
    ensures DecodeEscapeAt(CodePoint(v, big, upper, n) + post, 0, n).None?
  {
    CodePointRead("", v, big, upper, n, post);
    assert "" + CodePoint(v, big, upper, n) + post == CodePoint(v, big, upper, n) + post;
  }

}
