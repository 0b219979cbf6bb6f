/**
  Path expressions: a head selector and dot or bracket selectors, each an identifier or a string
  label. `letter` and `digit` classify the characters beyond ASCII.
 */
module Paths {

  import opened Wrappers
  import opened Escapes
  import opened Multiline

  datatype Separator = SepEnd | SepDot | SepBracket

  datatype Classes = Classes(letter: char -> bool, digit: char -> bool)

  // ----- Filler -----

  predicate IsPathSpace(c: char) { c == ' ' || c == '\t' || c == '\r' }

  function SkipPathSpace(e: string, pos: nat): (r: nat)
    requires pos <= |e|
    ensures pos <= r <= |e|
    decreases |e| - pos
  {
    if pos < |e| && IsPathSpace(e[pos]) then SkipPathSpace(e, pos + 1) else pos
  }

  predicate IsLineComment(e: string, pos: nat) { pos + 1 < |e| && e[pos] == '/' && e[pos + 1] == '/' }

  function LineEnd(e: string, pos: nat): (r: nat)
    requires pos <= |e|
    ensures pos <= r <= |e|
    decreases |e| - pos
  {
    if pos < |e| && e[pos] != '\n' then LineEnd(e, pos + 1) else pos
  }

  /** Blanks, newlines and line comments, insignificant where a selector is expected. */
  function SkipExprSpace(e: string, pos: nat): (r: nat)
    requires pos <= |e|
    ensures pos <= r <= |e|
    decreases |e| - pos
  {
    if pos == |e| then pos
    else if IsLineComment(e, pos) then SkipExprSpace(e, LineEnd(e, pos + 2))
    else if IsPathSpace(e[pos]) || e[pos] == '\n' then SkipExprSpace(e, pos + 1)
    else pos
  }

  method SkipPathSpaceLoop(e: string, start: nat) returns (pos: nat)
    requires start <= |e|
    ensures pos == SkipPathSpace(e, start)
  {
    pos := start;
    while pos < |e| && IsPathSpace(e[pos])
      invariant pos <= |e| && SkipPathSpace(e, start) == SkipPathSpace(e, pos)
    {
      pos := pos + 1;
    }
  }

  method SkipExprSpaceLoop(e: string, start: nat) returns (pos: nat)
    requires start <= |e|
    ensures pos == SkipExprSpace(e, start)
  {
    pos := start;
    while pos < |e|
      invariant pos <= |e| && SkipExprSpace(e, start) == SkipExprSpace(e, pos)
      decreases |e| - pos
    {
      if IsLineComment(e, pos) {
        ghost var line := pos + 2;
        pos := pos + 2;
        while pos < |e| && e[pos] != '\n'
          invariant line <= pos <= |e| && LineEnd(e, line) == LineEnd(e, pos)
        {
          pos := pos + 1;
        }
      } else if IsPathSpace(e[pos]) || e[pos] == '\n' {
        pos := pos + 1;
      } else {
        break;
      }
    }
  }

  // ----- Selectors -----

  function CountHashes(e: string, pos: nat): (n: nat)
    requires pos <= |e|
    ensures pos + n <= |e| && HashRun(e, pos, n) && (pos + n < |e| ==> e[pos + n] != '#')
    decreases |e| - pos
  {
    if pos < |e| && e[pos] == '#' then 1 + CountHashes(e, pos + 1) else 0
  }

  predicate IsRawStart(e: string, pos: nat)
    requires pos <= |e|
  {
    var n := CountHashes(e, pos);
    n > 0 && pos + n < |e| && e[pos + n] == '"'
  }

  predicate IsMultilineStart(e: string, pos: nat)
    requires pos <= |e|
  {
    HasPrefixAt(e, pos + CountHashes(e, pos), "\"\"\"")
  }

  predicate IsLetter(u: Classes, c: char)
  {
    if c < '\U{80}' then 'a' <= c <= 'z' || 'A' <= c <= 'Z' else u.letter(c)
  }

  predicate IsDigit(u: Classes, c: char)
  {
    if c < '\U{80}' then '0' <= c <= '9' else u.digit(c)
  }

  predicate IsIdentStart(u: Classes, c: char) { c == '$' || IsLetter(u, c) }

  predicate IsIdentCont(u: Classes, c: char) { IsIdentStart(u, c) || c == '_' || IsDigit(u, c) }

  function IdentEnd(u: Classes, e: string, pos: nat): (r: nat)
    requires pos <= |e|
    ensures pos <= r <= |e|
    decreases |e| - pos
  {
    if pos < |e| && IsIdentCont(u, e[pos]) then IdentEnd(u, e, pos + 1) else pos
  }

  /** A quoted label of level n whose opening quote is at pos + n: its text and the position past its close. */
  function ConsumeString(e: string, pos: nat, n: nat): (r: Option<(string, nat)>)
    requires pos + n < |e|
    ensures r.Some? ==> pos < r.value.1 <= |e|
  {
    var rest := e[pos + n + 1..];
    match CloseIndex(rest, 0, n, "\"" + Hashes(n))
    case None => None
    case Some(rel) =>
      CloseLeavesAligned(rest, 0, n, "\"" + Hashes(n));
      match Decode(rest[..rel], 0, n)
      case None => None
      case Some(text) => if text == "" then None else Some((text, pos + n + 1 + rel + 1 + n))
  }

  method ConsumeStringLoop(e: string, pos: nat, n: nat) returns (r: Option<(string, nat)>)
    requires pos + n < |e|
    ensures r == ConsumeString(e, pos, n)
  {
    var rest := e[pos + n + 1..];
    var rel := CloseIndexLoop(rest, n, "\"" + Hashes(n));
    if rel.None? { return None; }
    CloseLeavesAligned(rest, 0, n, "\"" + Hashes(n));
    var text := Unquote(rest[..rel.value], n);
    if text.None? || text.value == "" { return None; }
    r := Some((text.value, pos + n + 1 + rel.value + 1 + n));
  }

  function ConsumeMultiline(e: string, pos: nat): (r: Option<(string, nat)>)
    requires pos <= |e| && IsMultilineStart(e, pos)
    ensures r.Some? ==> pos < r.value.1 <= |e|
  {
    match ParseMultiline(e, pos, CountHashes(e, pos))
    case None => None
    case Some((text, end)) => if text == "" then None else Some((text, end))
  }

  /** A head or dot selector; a raw or triple-quoted string is a label only at the head. */
  function ConsumeSegment(u: Classes, e: string, start: nat, leading: bool): (r: Option<(string, nat)>)
    requires start <= |e|
    ensures r.Some? ==> start < r.value.1 <= |e|
  {
    var pos := SkipExprSpace(e, start);
    if pos == |e| then None
    else if IsMultilineStart(e, pos) then if leading then ConsumeMultiline(e, pos) else None
    else if leading && IsRawStart(e, pos) then ConsumeString(e, pos, CountHashes(e, pos))
    else if e[pos] == '"' then ConsumeString(e, pos, 0)
    else if IsIdentStart(u, e[pos]) then
      var end := IdentEnd(u, e, pos + 1);
      var seg := e[pos..end];
      if leading && (seg == "true" || seg == "false" || seg == "null") then None else Some((seg, end))
    else None
  }

  /** The string operand of a bracket selector and its closing bracket. */
  function ConsumeBracket(e: string, start: nat): (r: Option<(string, nat)>)
    requires start <= |e|
    ensures r.Some? ==> start < r.value.1 <= |e|
  {
    var pos := SkipExprSpace(e, start);
    var seg :=
      if pos < |e| && IsMultilineStart(e, pos) then ConsumeMultiline(e, pos)
      else if pos < |e| && IsRawStart(e, pos) then ConsumeString(e, pos, CountHashes(e, pos))
      else if pos < |e| && e[pos] == '"' then ConsumeString(e, pos, 0)
      else None;
    match seg
    case None => None
    case Some((text, end)) =>
      var close := SkipPathSpace(e, end);
      if close == |e| || e[close] != ']' then None else Some((text, close + 1))
  }

  /** What follows a selector; none when the expression goes on where it may not. */
  function ConsumeSeparator(e: string, start: nat): (r: Option<(Separator, nat)>)
    requires start <= |e|
    ensures r.Some? ==> r.value.1 <= |e| && (!r.value.0.SepEnd? ==> start < r.value.1)
  {
    var pos := SkipPathSpace(e, start);
    if pos == |e| then Some((SepEnd, pos))
    else if e[pos] == '\n' || IsLineComment(e, pos) then
      if SkipExprSpace(e, pos) == |e| then Some((SepEnd, |e|)) else None
    else if e[pos] == '.' then Some((SepDot, pos + 1))
    else if e[pos] == '[' then Some((SepBracket, pos + 1))
    else None
  }

  function Prefixed(front: seq<string>, rest: Option<seq<string>>): Option<seq<string>>
  {
    if rest.None? then None else Some(front + rest.value)
  }

  /** The selectors after the one that ends at pos. */
  function ParseRest(u: Classes, e: string, pos: nat): Option<seq<string>>
    requires pos <= |e|
    decreases |e| - pos
  {
    match ConsumeSeparator(e, pos)
    case None => None
    case Some((sep, after)) =>
      if sep.SepEnd? then Some([])
      else
        match (if sep.SepDot? then ConsumeSegment(u, e, after, false) else ConsumeBracket(e, after))
        case None => None
        case Some((seg, end)) =>
          Prefixed([seg], ParseRest(u, e, end))
  }

  function ParseSegments(u: Classes, e: string): Option<seq<string>>
  {
    match ConsumeSegment(u, e, 0, true)
    case None => None
    case Some((seg, pos)) => Prefixed([seg], ParseRest(u, e, pos))
  }

  const BOM := '\U{FEFF}'

  /** The expression without a byte order mark at its start. */
  function TrimBOM(expr: string): string
  {
    if expr != "" && expr[0] == BOM then expr[1..] else expr
  }

  predicate AllSpace(e: string)
  {
    forall c <- e :: IsSpace(c)
  }

  function ParsePath(u: Classes, expr: string): Option<seq<string>>
  {
    var e := TrimBOM(expr);
    if BOM in e || '\U{00}' in e || AllSpace(e) then None else ParseSegments(u, e)
  }

  // ----- The loops -----

  method CountHashesLoop(e: string, pos: nat) returns (n: nat)
    requires pos <= |e|
    ensures n == CountHashes(e, pos)
  {
    n := 0;
    while pos + n < |e| && e[pos + n] == '#'
      invariant pos + n <= |e| && CountHashes(e, pos) == n + CountHashes(e, pos + n)
    {
      n := n + 1;
    }
  }

  method IdentEndLoop(u: Classes, e: string, start: nat) returns (pos: nat)
    requires start <= |e|
    ensures pos == IdentEnd(u, e, start)
  {
    pos := start;
    while pos < |e| && IsIdentCont(u, e[pos])
      invariant pos <= |e| && IdentEnd(u, e, start) == IdentEnd(u, e, pos)
    {
      pos := pos + 1;
    }
  }

  method ConsumeMultilineLoop(e: string, pos: nat) returns (r: Option<(string, nat)>)
    requires pos <= |e| && IsMultilineStart(e, pos)
    ensures r == ConsumeMultiline(e, pos)
  {
    var n := CountHashesLoop(e, pos);
    r := ParseMultilineLoop(e, pos, n);
    if r.Some? && r.value.0 == "" { r := None; }
  }

  method ConsumeSegmentLoop(u: Classes, e: string, start: nat, leading: bool) returns (r: Option<(string, nat)>)
    requires start <= |e|
    ensures r == ConsumeSegment(u, e, start, leading)
  {
    hide ConsumeString, ConsumeMultiline, CountHashes, SkipExprSpace, IdentEnd;
    var pos := SkipExprSpaceLoop(e, start);
    if pos == |e| { return None; }
    if IsMultilineStart(e, pos) {
      if !leading { return None; }
      r := ConsumeMultilineLoop(e, pos);
    } else if leading && IsRawStart(e, pos) {
      var n := CountHashesLoop(e, pos);
      r := ConsumeStringLoop(e, pos, n);
    } else if e[pos] == '"' {
      r := ConsumeStringLoop(e, pos, 0);
    } else if IsIdentStart(u, e[pos]) {
      var end := IdentEndLoop(u, e, pos + 1);
      var seg := e[pos..end];
      r := if leading && (seg == "true" || seg == "false" || seg == "null") then None else Some((seg, end));
    } else {
      r := None;
    }
  }

  method ConsumeBracketLoop(e: string, start: nat) returns (r: Option<(string, nat)>)
    requires start <= |e|
    ensures r == ConsumeBracket(e, start)
  {
    hide ConsumeString, ConsumeMultiline, CountHashes, SkipExprSpace, SkipPathSpace;
    var pos := SkipExprSpaceLoop(e, start);
    if pos < |e| && IsMultilineStart(e, pos) {
      r := ConsumeMultilineLoop(e, pos);
    } else if pos < |e| && IsRawStart(e, pos) {
      var n := CountHashesLoop(e, pos);
      r := ConsumeStringLoop(e, pos, n);
    } else if pos < |e| && e[pos] == '"' {
      r := ConsumeStringLoop(e, pos, 0);
    } else {
      r := None;
    }
    if r.None? { return; }
    var close := SkipPathSpaceLoop(e, r.value.1);
    r := if close == |e| || e[close] != ']' then None else Some((r.value.0, close + 1));
  }

  lemma PrefixedSnoc(front: seq<string>, seg: string, rest: Option<seq<string>>)
    ensures Prefixed(front, Prefixed([seg], rest)) == Prefixed(front + [seg], rest)
    ensures Prefixed(front, Some([])) == Some(front) && Prefixed(front, None) == None
  {
    if rest.Some? { assert front + ([seg] + rest.value) == front + [seg] + rest.value; }
    assert front + [] == front;
  }

  lemma RestStep(u: Classes, e: string, pos: nat)
    requires pos <= |e|
    ensures var sep := ConsumeSeparator(e, pos);
      if sep.None? then ParseRest(u, e, pos) == None
      else if sep.value.0.SepEnd? then ParseRest(u, e, pos) == Some([])
      else
        var next := if sep.value.0.SepDot? then ConsumeSegment(u, e, sep.value.1, false) else ConsumeBracket(e, sep.value.1);
        ParseRest(u, e, pos) == if next.None? then None else Prefixed([next.value.0], ParseRest(u, e, next.value.1))
  {
    hide ConsumeSeparator, ConsumeSegment, ConsumeBracket;
  }

  /** The selectors after those already read. */
  method ParseRestLoop(u: Classes, e: string, front: seq<string>, start: nat) returns (r: Option<seq<string>>)
    requires start <= |e|
    ensures r == Prefixed(front, ParseRest(u, e, start))
  {
    hide *;
    var segments, pos := front, start;
    while true
      invariant pos <= |e| && Prefixed(front, ParseRest(u, e, start)) == Prefixed(segments, ParseRest(u, e, pos))
      decreases |e| - pos
    {
      RestStep(u, e, pos);
      PrefixedSnoc(segments, "", None);
      var sep := ConsumeSeparator(e, pos);
      if sep.None? { return None; }
      if sep.value.0.SepEnd? { return Some(segments); }
      var next: Option<(string, nat)>;
      if sep.value.0.SepDot? {
        next := ConsumeSegmentLoop(u, e, sep.value.1, false);
      } else {
        next := ConsumeBracketLoop(e, sep.value.1);
      }
      if next.None? { return None; }
      PrefixedSnoc(segments, next.value.0, ParseRest(u, e, next.value.1));
      segments, pos := segments + [next.value.0], next.value.1;
    }
  }

  method ParsePathLoop(u: Classes, expr: string) returns (r: Option<seq<string>>)
    ensures r == ParsePath(u, expr)
  {
    hide ConsumeSegment, ParseRest;
    var e := TrimBOM(expr);
    if BOM in e || '\U{00}' in e || AllSpace(e) { return None; }
    var head := ConsumeSegmentLoop(u, e, 0, true);
    if head.None? { return None; }
    r := ParseRestLoop(u, e, [head.value.0], head.value.1);
  }

}
