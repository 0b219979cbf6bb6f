/**
  The second search for a triple-quoted label's close, after carriage returns are gone. It finds the first
  place where the scan stands and the close follows, and finds none exactly if the stripped body ends in
  an introducer without its selector.
 */
module SecondSearch {

  import opened Wrappers
  import opened Escapes
  import opened Multiline

  // ----- What a search finds -----

  /** The scan stands at j and the close follows. */
  ghost predicate Stops(s: string, j: nat, from: nat, n: nat, close: string)
    requires from <= j <= |s|
  {
    Aligned(s[..j], from, n) && HasPrefixAt(s, j, close)
  }

  lemma StopStep(s: string, i: nat, j: nat, n: nat, close: string)
    requires i < j <= |s| && close != "" && close[0] == '"' && HasPrefixAt(s, j, close)
    ensures IsIntro(s, i, n) && i + 2 + n <= j ==> Aligned(s[..j], i, n) == Aligned(s[..j], i + 2 + n, n)
    ensures IsIntro(s, i, n) && i + 2 + n > j ==> !Aligned(s[..j], i, n)
    ensures !IsIntro(s, i, n) ==> Aligned(s[..j], i, n) == Aligned(s[..j], i + 1, n)
  {
    assert s[j] == s[j..j + |close|][0] == '"';
    if IsIntro(s, i, n) {
      assert j > i + n;
      assert IsIntro(s[..j], i, n);
    } else {
      assert !IsIntro(s[..j], i, n);
    }
  }

  lemma PrefixHead(s: string, i: nat, close: string)
    requires i <= |s| && close != "" && HasPrefixAt(s, i, close)
    ensures i < |s| && s[i] == close[0]
  {
    assert s[i..i + |close|][0] == s[i];
  }

  /** The search returns the first place where the scan stops, if there is one. */
  lemma {:induction false} FirstStop(s: string, i: nat, n: nat, close: string)
    requires i <= |s| && close != "" && close[0] == '"'
    ensures var r := CloseIndex(s, i, n, close);
      && (r.Some? ==> Stops(s, r.value, i, n, close))
      && forall j | i <= j <= |s| && Stops(s, j, i, n, close) :: r.Some? && r.value <= j
    decreases |s| - i
  {
    var r := CloseIndex(s, i, n, close);
    if i < |s| {
      var next := if IsIntro(s, i, n) then i + 2 + n else i + 1;
      if next <= |s| && (IsIntro(s, i, n) || !HasPrefixAt(s, i, close)) {
        FirstStop(s, next, n, close);
        if r.Some? { StopStep(s, i, r.value, n, close); }
      }
      forall j | i <= j <= |s| && Stops(s, j, i, n, close) ensures r.Some? && r.value <= j {
        PrefixHead(s, j, close);
        if i < j {
          StopStep(s, i, j, n, close);
          assert next <= j ==> Stops(s, j, next, n, close);
        }
      }
    } else {
      if HasPrefixAt(s, i, close) { PrefixHead(s, i, close); }
    }
  }

  // ----- Bodies that end inside an introducer -----

  /** The body ends in an introducer the scan stands at, with no selector behind it. */
  predicate Hangs(body: string, i: nat, n: nat)
    requires i <= |body|
  {
    var h := |body| - 1 - n;
    i <= h && IsIntro(body, h, n) && Aligned(body[..h], i, n)
  }

  lemma {:induction false} AlignedUnlessHanging(body: string, i: nat, n: nat)
    requires i <= |body|
    ensures Aligned(body, i, n) <==> !Hangs(body, i, n)
    decreases |body| - i
  {
    var h := |body| - 1 - n;
    if i < |body| {
      if IsIntro(body, i, n) {
        if i + 2 + n <= |body| {
          AlignedUnlessHanging(body, i + 2 + n, n);
          if i < h && IsIntro(body, h, n) { HangStep(body, i, h, n); }
        } else {
          assert i == h;
        }
      } else {
        AlignedUnlessHanging(body, i + 1, n);
        if i < h && IsIntro(body, h, n) { HangStep(body, i, h, n); }
      }
    }
  }

  lemma HangStep(s: string, i: nat, h: nat, n: nat)
    requires i < h < |s| && s[h] == '\\'
    ensures IsIntro(s, i, n) && i + 2 + n <= h ==> Aligned(s[..h], i, n) == Aligned(s[..h], i + 2 + n, n)
    ensures IsIntro(s, i, n) && i + 2 + n > h ==> !Aligned(s[..h], i, n)
    ensures !IsIntro(s, i, n) ==> Aligned(s[..h], i, n) == Aligned(s[..h], i + 1, n)
  {
    if IsIntro(s, i, n) {
      assert h > i + n;
      assert IsIntro(s[..h], i, n);
    } else {
      assert !IsIntro(s[..h], i, n);
    }
  }

  // ----- The search over a body and its close -----

  /** A close the scan would take before the body's end. */
  ghost predicate ClosesEarly(body: string, n: nat)
  {
    exists j | 0 <= j < |body| :: Stops(body + Quotes(n), j, 0, n, Quotes(n))
  }

  lemma StopsInside(body: string, n: nat, j: nat)
    requires j <= |body + Quotes(n)| && Stops(body + Quotes(n), j, 0, n, Quotes(n))
    ensures j <= |body|
  {
  }

  lemma StopsAtEnd(body: string, n: nat)
    ensures Stops(body + Quotes(n), |body|, 0, n, Quotes(n)) <==> Aligned(body, 0, n)
  {
    var s := body + Quotes(n);
    assert s[..|body|] == body && s[|body|..|body| + |Quotes(n)|] == Quotes(n);
  }

  /** MAIN: for any body, where the search over it and its close ends. */
  lemma SearchOf(body: string, n: nat)
    ensures var r := CloseIndex(body + Quotes(n), 0, n, Quotes(n));
      && (r == Some(|body|) <==> !ClosesEarly(body, n) && !Hangs(body, 0, n))
      && (r == None <==> !ClosesEarly(body, n) && Hangs(body, 0, n))
      && (r.Some? && r.value != |body| <==> ClosesEarly(body, n))
      && (r.Some? ==> r.value <= |body|)
  {
    hide CloseIndex, Hangs, Aligned, Quotes;
    var s, r := body + Quotes(n), CloseIndex(body + Quotes(n), 0, n, Quotes(n));
    FirstStop(s, 0, n, Quotes(n));
    AlignedUnlessHanging(body, 0, n);
    StopsAtEnd(body, n);
    hide Stops;
    if r.Some? { StopsInside(body, n, r.value); }
  }

  // ----- Stripping keeps level-0 bodies aligned -----

  lemma {:induction false} PlainThen(a: string, b: string, n: nat)
    requires '\\' !in a && Aligned(b, 0, n)
    ensures Aligned(a + b, 0, n)
  {
    if a == "" {
      assert a + b == b;
    } else {
      PlainThen(a[1..], b, n);
      Shifted(a[..1], a[1..] + b, 0, n);
      assert a + b == a[..1] + (a[1..] + b);
      assert (a + b)[0] == a[0] && a[0] in a;
    }
  }

  lemma {:induction false} Shifted(a: string, b: string, i: nat, n: nat)
    requires i <= |b|
    ensures Aligned(a + b, |a| + i, n) == Aligned(b, i, n)
    decreases |b| - i
  {
    var s := a + b;
    if i < |b| {
      assert IsIntro(s, |a| + i, n) <==> IsIntro(b, i, n) by {
        if IsIntro(s, |a| + i, n) { forall k | i + 1 <= k < i + 1 + n ensures b[k] == '#' { assert b[k] == s[|a| + k]; } }
      }
      if IsIntro(b, i, n) {
        if i + 2 + n <= |b| { Shifted(a, b, i + 2 + n, n); }
      } else {
        Shifted(a, b, i + 1, n);
      }
    }
  }

  lemma StripHead(s: string, i: nat, j: nat)
    requires i <= j <= |s|
    ensures StripCR(s[i..]) == StripCR(s[i..j]) + StripCR(s[j..])
  {
    assert s[i..] == s[i..j] + s[j..];
    StripConcat(s[i..j], s[j..]);
  }

  /** Two plain characters that are an introducer and its selector, and plain text, before an aligned rest. */
  lemma EscapeThen(escape: string, rest: string)
    requires |escape| >= 2 && escape[0] == '\\' && '\\' !in escape[2..] && Aligned(rest, 0, 0)
    ensures Aligned(escape + rest, 0, 0)
  {
    var tail := escape[2..] + rest;
    PlainThen(escape[2..], rest, 0);
    Shifted(escape[..2], tail, 0, 0);
    assert escape + rest == escape[..2] + tail;
    assert IsIntro(escape + rest, 0, 0);
  }

  lemma {:induction false} StrippedLevelZero(raw: string, i: nat)
    requires i <= |raw| && Aligned(raw, i, 0) && RawEscapesOk(raw, i, 0)
    ensures Aligned(StripCR(raw[i..]), 0, 0)
    decreases |raw| - i
  {
    hide StripCR, RawEscapeScan, HexNumber;
    if i < |raw| {
      if IsIntro(raw, i, 0) {
        var w := RawEscapeScan(raw, i, 0).value;
        RawEscapeStaysAligned(raw, i, 0);
        StrippedLevelZero(raw, i + w);
        EscapeText(raw, i, w);
        StripHead(raw, i, i + w);
        StripNothing(raw[i..i + w]);
        EscapeThen(raw[i..i + w], StripCR(raw[i + w..]));
      } else {
        StrippedLevelZero(raw, i + 1);
        StripHead(raw, i, i + 1);
        StripOne(raw[i]);
        assert raw[i..i + 1] == [raw[i]] && raw[i] != '\\';
        PlainThen(StripCR([raw[i]]), StripCR(raw[i + 1..]), 0);
      }
    } else {
      assert raw[i..] == "";
      StripNothing("");
    }
  }

  /** A raw escape is a backslash, its selector and digits: no carriage return and no second introducer. */
  lemma EscapeText(raw: string, i: nat, w: nat)
    requires i + 2 <= |raw| && raw[i] == '\\' && RawEscapeScan(raw, i, 0) == Some(w)
    ensures i + w <= |raw| && w >= 2 && '\r' !in raw[i..i + w] && '\\' !in raw[i..i + w][2..]
  {
    var c := raw[i + 1];
    assert c != '\r';
    if !IsSelector(c) {
      var count := if c == 'U' then 8 else 4;
      DigitChars(raw, i + 2, count);
      assert raw[i..i + w][2..] == raw[i + 2..i + 2 + count];
    }
    assert forall k | i <= k < i + w :: raw[k] != '\r';
  }

  lemma {:induction false} DigitChars(s: string, i: nat, n: nat)
    requires i + n <= |s| && HexNumber(s, i, n).Some?
    ensures forall k | i <= k < i + n :: s[k] != '\r' && s[k] != '\\'
  {
    if n > 0 { DigitChars(s, i, n - 1); }
  }

  /**
    MAIN: the second search over an accepted raw body finds the close at the end, an earlier one, or none,
    and each exactly as the stripped text says; none only at a level above 0 and after a carriage return
    was removed.
   */
  lemma SecondSearchIff(raw: string, n: nat)
    requires Aligned(raw, 0, n) && RawEscapesOk(raw, 0, n)
    ensures var body := StripCR(raw);
      var r := CloseIndex(body + Quotes(n), 0, n, Quotes(n));
      && (r == Some(|body|) <==> !ClosesEarly(body, n) && !Hangs(body, 0, n))
      && (r == None <==> !ClosesEarly(body, n) && Hangs(body, 0, n))
      && (r == None ==> n >= 1 && '\r' in raw)
  {
    var body := StripCR(raw);
    SearchOf(body, n);
    AlignedUnlessHanging(body, 0, n);
    if n == 0 {
      StrippedLevelZero(raw, 0);
      assert raw[0..] == raw;
    }
    if '\r' !in raw { StripNothing(raw); }
    hide CloseIndex, Hangs, StripCR, ClosesEarly, RawEscapesOk;
  }

}
