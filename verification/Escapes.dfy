/**
  String labels: finding the closing delimiter and decoding the escapes are separate passes, and the
  decoder indexes past each introducer without looking, because the scan already did. Texts are
  sequences of Unicode scalar values, as a validated UTF-8 expression is. Level 0 is a plain quoted
  string; at level n the introducer is a backslash and n hashes.
 */
module Escapes {

  import opened Wrappers

  // ----- Scanning -----

  function Hashes(n: nat): (s: string)
    ensures |s| == n && forall c <- s :: c == '#'
  {
    seq(n, i => '#')
  }

  predicate HashRun(s: string, i: nat, n: nat)
  {
    i + n <= |s| && forall k | i <= k < i + n :: s[k] == '#'
  }

  predicate HasPrefixAt(s: string, i: nat, p: string)
    requires i <= |s|
  {
    |p| <= |s| - i && s[i..i + |p|] == p
  }

  /** An escape introducer of level n stands at i; its selector may still be missing. */
  predicate IsIntro(s: string, i: nat, n: nat)
    requires i < |s|
  {
    s[i] == '\\' && HashRun(s, i + 1, n)
  }

  /** Where the closing delimiter is, skipping each introducer together with its selector. */
  function CloseIndex(s: string, i: nat, n: nat, close: string): (r: Option<nat>)
    requires i <= |s|
    ensures r.Some? ==> i <= r.value <= |s| && HasPrefixAt(s, r.value, close)
    decreases |s| - i
  {
    if i == |s| then None
    else if IsIntro(s, i, n) then
      if i + 1 + n >= |s| then None else CloseIndex(s, i + 2 + n, n, close)
    else if HasPrefixAt(s, i, close) then Some(i)
    else CloseIndex(s, i + 1, n, close)
  }

  /** A scan of the body from i reaches its end without running over it: every introducer has its selector. */
  predicate Aligned(body: string, i: nat, n: nat)
    requires i <= |body|
    decreases |body| - i
  {
    if i == |body| then true
    else if IsIntro(body, i, n) then i + 2 + n <= |body| && Aligned(body, i + 2 + n, n)
    else Aligned(body, i + 1, n)
  }

  /** MAIN: what lies before the delimiter the scan found is aligned, so its decoder can trust each selector. */
  lemma {:induction false} CloseLeavesAligned(s: string, i: nat, n: nat, close: string)
    requires i <= |s| && CloseIndex(s, i, n, close).Some?
    ensures Aligned(s[..CloseIndex(s, i, n, close).value], i, n)
    decreases |s| - i
  {
    var body := s[..CloseIndex(s, i, n, close).value];
    if IsIntro(s, i, n) {
      CloseLeavesAligned(s, i + 2 + n, n, close);
    } else if !HasPrefixAt(s, i, close) {
      CloseLeavesAligned(s, i + 1, n, close);
      assert IsIntro(body, i, n) ==> IsIntro(s, i, n);
    }
  }

  // ----- Decoding one escape -----

  function HexVal(c: char): (r: Option<nat>)
    ensures r.Some? ==> r.value < 16 && c != '\\' && c != '"'
  {
    if '0' <= c <= '9' then Some((c - '0') as nat)
    else if 'a' <= c <= 'f' then Some((c - 'a') as nat + 10)
    else if 'A' <= c <= 'F' then Some((c - 'A') as nat + 10)
    else None
  }

  /** The number n hex digits at i spell, if they all are hex digits. */
  function HexNumber(s: string, i: nat, n: nat): (r: Option<nat>)
    requires i + n <= |s|
    ensures r.Some? ==> forall k | i <= k < i + n :: s[k] != '\\'
  {
    if n == 0 then Some(0)
    else
      match (HexNumber(s, i, n - 1), HexVal(s[i + n - 1]))
      case (Some(v), Some(d)) => Some(16 * v + d)
      case _ => None
  }

  predicate IsHighSurrogate(v: nat) { 0xD800 <= v <= 0xDBFF }

  predicate IsLowSurrogate(v: nat) { 0xDC00 <= v <= 0xDFFF }

  const MAX_RUNE := 0x10FFFF

  /** A \u or \U escape at i: its code point, a surrogate half included, and the width it takes. */
  function DecodeCodePoint(s: string, i: nat, n: nat): (r: Option<(nat, nat)>)
    requires i + 2 + n <= |s|
    ensures r.Some? ==> r.value.0 <= MAX_RUNE && 2 + n < r.value.1 <= |s| - i
    ensures r.Some? ==> forall k | i + 2 + n <= k < i + r.value.1 :: s[k] != '\\'
  {
    var digits := i + 2 + n;
    var count := if s[i + 1 + n] == 'U' then 8 else 4;
    if |s| < digits + count then None
    else
      match HexNumber(s, digits, count)
      case None => None
      case Some(v) => if v > MAX_RUNE then None else Some((v, 2 + n + count))
  }

  function ShortEscape(c: char): Option<char>
  {
    match c
    case 'a' => Some('\U{07}')
    case 'b' => Some('\U{08}')
    case 'f' => Some('\U{0C}')
    case 'n' => Some('\n')
    case 'r' => Some('\r')
    case 't' => Some('\t')
    case 'v' => Some('\U{0B}')
    case '\\' => Some('\\')
    case '"' => Some('"')
    case '/' => Some('/')
    case _ => None
  }

  /** The scalar value a surrogate pair encodes, per section 2.2 of RFC 2781. */
  function PairValue(hi: nat, lo: nat): (v: nat)
    requires IsHighSurrogate(hi) && IsLowSurrogate(lo)
    ensures 0x10000 <= v <= MAX_RUNE
  {
    (hi - 0xD800) * 0x400 + (lo - 0xDC00) + 0x10000
  }

  predicate IsUnicodeSelector(c: char) { c == 'u' || c == 'U' }

  /** The second half of a pair must use the same introducer. */
  function CombineSurrogate(body: string, i: nat, n: nat, hi: nat, hiWidth: nat): (r: Option<(char, nat)>)
    requires i + hiWidth <= |body|
    ensures r.Some? ==> hiWidth < r.value.1 <= |body| - i
  {
    var next := i + hiWidth;
    if next + 1 + n >= |body| || body[next] != '\\' || !HashRun(body, next + 1, n) || !IsUnicodeSelector(body[next + 1 + n]) then None
    else
      match DecodeCodePoint(body, next, n)
      case None => None
      case Some((lo, loWidth)) =>
        if IsHighSurrogate(hi) && IsLowSurrogate(lo) then Some((PairValue(hi, lo) as char, hiWidth + loWidth)) else None
  }

  /** The escape introduced at i. The selector is in range by precondition, not by a check. */
  function DecodeEscapeAt(body: string, i: nat, n: nat): (r: Option<(char, nat)>)
    requires i + 2 + n <= |body|
    ensures r.Some? ==> 2 + n <= r.value.1 <= |body| - i
  {
    var sel := body[i + 1 + n];
    if !IsUnicodeSelector(sel) then
      match ShortEscape(sel)
      case None => None
      case Some(c) => Some((c, 2 + n))
    else
      match DecodeCodePoint(body, i, n)
      case None => None
      case Some((v, w)) =>
        if IsHighSurrogate(v) || IsLowSurrogate(v) then CombineSurrogate(body, i, n, v, w)
        else Some((v as char, w))
  }

  // ----- The decoder stays on the scan's track -----

  lemma {:induction false} SkipPlain(body: string, i: nat, j: nat, n: nat)
    requires i <= j <= |body| && Aligned(body, i, n)
    requires forall k | i <= k < j :: body[k] != '\\'
    ensures Aligned(body, j, n)
    decreases j - i
  {
    if i < j { SkipPlain(body, i + 1, j, n); }
  }

  /** MAIN: after any escape it accepts, a pair included, the decoder stands where the scan also stood. */
  lemma EscapeStaysAligned(body: string, i: nat, n: nat)
    requires i < |body| && IsIntro(body, i, n) && Aligned(body, i, n)
    requires DecodeEscapeAt(body, i, n).Some?
    ensures Aligned(body, i + DecodeEscapeAt(body, i, n).value.1, n)
  {
    var w := DecodeEscapeAt(body, i, n).value.1;
    if IsUnicodeSelector(body[i + 1 + n]) {
      var (v, first) := DecodeCodePoint(body, i, n).value;
      var next := i + first;
      SkipPlain(body, i + 2 + n, next, n);
      if w != first {
        assert IsIntro(body, next, n);
        SkipPlain(body, next + 2 + n, i + w, n);
      }
    }
  }

  /** The text a single-line body spells; a raw newline or carriage return is refused. */
  function Decode(body: string, i: nat, n: nat): (r: Option<string>)
    requires i <= |body| && Aligned(body, i, n)
    decreases |body| - i
  {
    if i == |body| then Some("")
    else if body[i] == '\n' || body[i] == '\r' then None
    else if IsIntro(body, i, n) then
      match DecodeEscapeAt(body, i, n)
      case None => None
      case Some((c, w)) =>
        EscapeStaysAligned(body, i, n);
        Prepend(c, Decode(body, i + w, n))
    else Prepend(body[i], Decode(body, i + 1, n))
  }

  function Prepend(c: char, rest: Option<string>): Option<string>
  {
    match rest case None => None case Some(s) => Some([c] + s)
  }

  // ----- The loops -----

  method CloseIndexLoop(s: string, n: nat, close: string) returns (r: Option<nat>)
    ensures r == CloseIndex(s, 0, n, close)
  {
    var i := 0;
    while i < |s|
      invariant 0 <= i <= |s| && CloseIndex(s, 0, n, close) == CloseIndex(s, i, n, close)
    {
      if IsIntro(s, i, n) {
        if i + 1 + n >= |s| { return None; }
        i := i + 2 + n;
      } else if HasPrefixAt(s, i, close) {
        return Some(i);
      } else {
        i := i + 1;
      }
    }
    r := None;
  }

  /** The scan and the decoder in one call, as for a raw string: the body's decoder needs no range check. */
  method Unquote(body: string, n: nat) returns (r: Option<string>)
    requires Aligned(body, 0, n)
    ensures r == Decode(body, 0, n)
  {
    var out := "";
    var i := 0;
    PrependNothing(Decode(body, 0, n));
    while i < |body|
      invariant 0 <= i <= |body| && Aligned(body, i, n)
      invariant Decode(body, 0, n) == PrependAll(out, Decode(body, i, n))
    {
      if body[i] == '\n' || body[i] == '\r' { return None; }
      hide DecodeEscapeAt, CombineSurrogate, DecodeCodePoint;
      var c, w := body[i], 1;
      if IsIntro(body, i, n) {
        var e := DecodeEscapeAt(body, i, n);
        if e.None? { return None; }
        EscapeStaysAligned(body, i, n);
        c, w := e.value.0, e.value.1;
      }
      ghost var rest := Decode(body, i + w, n);
      assert rest.Some? ==> out + ([c] + rest.value) == (out + [c]) + rest.value;
      out := out + [c];
      i := i + w;
    }
    assert out + "" == out;
    r := Some(out);
  }

  lemma PrependNothing(r: Option<string>)
    ensures PrependAll("", r) == r
  {
    if r.Some? { assert "" + r.value == r.value; }
  }

  function PrependAll(s: string, rest: Option<string>): Option<string>
  {
    match rest case None => None case Some(t) => Some(s + t)
  }

}
