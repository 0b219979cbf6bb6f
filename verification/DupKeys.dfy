/**
  Strict JSON objects: a token-driven stack of levels reports the first repeated key of a document,
  and the first key written with an unpaired surrogate escape. The stack machine is proved equal to
  the recursive reading of the tree.
 */
module DupKeys {

  import opened Wrappers
  import Quoting

  const REPLACEMENT := '\U{FFFD}'

  // ----- Trees, tokens, verdicts -----

  /** A string carries its decoded text and its source characters. */
  datatype Json = Leaf | Text(s: string, raw: string) | Obj(members: seq<Member>) | Arr(elems: seq<Json>)

  datatype Member = Member(key: string, raw: string, val: Json)

  datatype Token = OpenObj | OpenArr | Close | StrTok(s: string, raw: string) | OtherTok

  datatype Verdict = Fine | LoneSurrogateKey | Duplicate(key: string)

  function Tokens(j: Json): (ts: seq<Token>)
    ensures ts != []
    decreases j, 0
  {
    match j
    case Leaf => [OtherTok]
    case Text(s, raw) => [StrTok(s, raw)]
    case Obj(ms) => [OpenObj] + MemberTokens(ms) + [Close]
    case Arr(es) => [OpenArr] + ElemTokens(es) + [Close]
  }

  function MemberTokens(ms: seq<Member>): seq<Token>
    decreases ms, 1
  {
    if ms == [] then []
    else
      var m := ms[0];
      assert m.val < m;
      [StrTok(m.key, m.raw)] + Tokens(m.val) + MemberTokens(ms[1..])
  }

  function ElemTokens(es: seq<Json>): seq<Token>
    decreases es, 1
  {
    if es == [] then [] else Tokens(es[0]) + ElemTokens(es[1..])
  }

  // ----- The recursive meaning -----

  /** The first fault in document order: keys before values, an object's members left to right. */
  function FirstFault(j: Json): Verdict
    decreases j, 0
  {
    match j
    case Obj(ms) => MembersFault(ms, {})
    case Arr(es) => ElemsFault(es)
    case _ => Fine
  }

  /** A key holding U+FFFD is a fault if an unpaired escape put it there, and is never tracked. */
  function KeyFault(key: string, raw: string, seen: set<string>): Verdict
  {
    if REPLACEMENT in key then if RawHasLoneSurrogate(raw, 0) then LoneSurrogateKey else Fine
    else if key in seen then Duplicate(key)
    else Fine
  }

  function Track(key: string, seen: set<string>): set<string>
  {
    if REPLACEMENT in key then seen else seen + {key}
  }

  function MembersFault(ms: seq<Member>, seen: set<string>): Verdict
    decreases ms, 1
  {
    if ms == [] then Fine
    else
      var m := ms[0];
      assert m.val < m;
      var k := KeyFault(m.key, m.raw, seen);
      if !k.Fine? then k
      else
        var v := FirstFault(m.val);
        if !v.Fine? then v else MembersFault(ms[1..], Track(m.key, seen))
  }

  function ElemsFault(es: seq<Json>): Verdict
    decreases es, 1
  {
    if es == [] then Fine
    else
      var v := FirstFault(es[0]);
      if !v.Fine? then v else ElemsFault(es[1..])
  }

  // ----- The machine on values -----

  datatype Level = Level(isObj: bool, keys: set<string>, seenKey: bool)

  predicate AtKey(stack: seq<Level>)
  {
    stack != [] && stack[|stack| - 1].isObj && !stack[|stack| - 1].seenKey
  }

  /** A value just ended inside the top level: an object is ready for its next key. */
  function AfterValue(stack: seq<Level>): seq<Level>
    requires stack != []
  {
    var k := |stack| - 1;
    if stack[k].isObj then stack[k := stack[k].(seenKey := false)] else stack
  }

  /** One token: the verdict that ends the scan, or the stack it goes on with. */
  function Step(stack: seq<Level>, tok: Token): (Option<Verdict>, seq<Level>)
  {
    if AtKey(stack) && tok.StrTok? then
      var k := |stack| - 1;
      var fault := KeyFault(tok.s, tok.raw, stack[k].keys);
      if !fault.Fine? then (Some(fault), stack)
      else (None, stack[k := Level(true, Track(tok.s, stack[k].keys), true)])
    else
      match tok
      case OpenObj => (None, stack + [Level(true, {}, false)])
      case OpenArr => (None, stack + [Level(false, {}, false)])
      case Close => if |stack| <= 1 then (Some(Fine), stack) else (None, AfterValue(stack[..|stack| - 1]))
      case _ => if stack == [] then (Some(Fine), stack) else (None, AfterValue(stack))
  }

  function Run(stack: seq<Level>, toks: seq<Token>): Verdict
    decreases |toks|
  {
    if toks == [] then Fine
    else
      match Step(stack, toks[0])
      case (Some(verdict), _) => verdict
      case (None, next) => Run(next, toks[1..])
  }

  /** What running the tokens of a value in value position comes to. */
  function Continue(fault: Verdict, stack: seq<Level>, rest: seq<Token>): Verdict
  {
    if !fault.Fine? then fault else if stack == [] then Fine else Run(AfterValue(stack), rest)
  }

  lemma {:induction false} ObjRuns(ms: seq<Member>, stack: seq<Level>, rest: seq<Token>)
    requires !AtKey(stack)
    ensures Run(stack, Tokens(Obj(ms)) + rest) == Continue(FirstFault(Obj(ms)), stack, rest)
    decreases ms, 2
  {
    assert Tokens(Obj(ms)) + rest == [OpenObj] + (MemberTokens(ms) + ([Close] + rest));
    MembersRun(ms, stack, {}, rest);
    assert (Tokens(Obj(ms)) + rest)[1..] == MemberTokens(ms) + ([Close] + rest);
  }

  lemma {:induction false} ArrRuns(es: seq<Json>, stack: seq<Level>, rest: seq<Token>)
    requires !AtKey(stack)
    ensures Run(stack, Tokens(Arr(es)) + rest) == Continue(FirstFault(Arr(es)), stack, rest)
    decreases es, 2
  {
    assert Tokens(Arr(es)) + rest == [OpenArr] + (ElemTokens(es) + ([Close] + rest));
    ElemsRun(es, stack, rest);
    assert (Tokens(Arr(es)) + rest)[1..] == ElemTokens(es) + ([Close] + rest);
  }

  lemma {:induction false} ValueRuns(j: Json, stack: seq<Level>, rest: seq<Token>)
    requires !AtKey(stack)
    ensures Run(stack, Tokens(j) + rest) == Continue(FirstFault(j), stack, rest)
    decreases j, 2
  {
    match j
    case Obj(ms) => hide *; ObjRuns(ms, stack, rest);
    case Arr(es) => hide *; ArrRuns(es, stack, rest);
    case Text(s, raw) => assert (Tokens(j) + rest)[1..] == rest;
    case Leaf => assert (Tokens(j) + rest)[1..] == rest;
  }

  lemma CloseRuns(stack: seq<Level>, top: Level, rest: seq<Token>)
    ensures Run(stack + [top], [Close] + rest) == Continue(Fine, stack, rest)
  {
    assert ([Close] + rest)[1..] == rest;
    assert (stack + [top])[..|stack|] == stack;
  }

  lemma {:induction false} MembersRun(ms: seq<Member>, stack: seq<Level>, seen: set<string>, rest: seq<Token>)
    ensures Run(stack + [Level(true, seen, false)], MemberTokens(ms) + ([Close] + rest)) ==
            Continue(MembersFault(ms, seen), stack, rest)
    decreases ms, 1
  {
    var start := stack + [Level(true, seen, false)];
    if ms == [] {
      assert MemberTokens(ms) + ([Close] + rest) == [Close] + rest;
      CloseRuns(stack, Level(true, seen, false), rest);
    } else {
      hide FirstFault, Tokens;
      var m := ms[0];
      assert m.val < m;
      var tail := MemberTokens(ms[1..]) + ([Close] + rest);
      assert MemberTokens(ms) + ([Close] + rest) == [StrTok(m.key, m.raw)] + (Tokens(m.val) + tail);
      KeyRuns(stack, seen, m.key, m.raw, Tokens(m.val) + tail);
      if KeyFault(m.key, m.raw, seen).Fine? {
        var keyed := stack + [Level(true, Track(m.key, seen), true)];
        ValueRuns(m.val, keyed, tail);
        assert AfterValue(keyed) == stack + [Level(true, Track(m.key, seen), false)];
        MembersRun(ms[1..], stack, Track(m.key, seen), rest);
      }
    }
  }

  lemma KeyRuns(stack: seq<Level>, seen: set<string>, key: string, raw: string, rest: seq<Token>)
    ensures Run(stack + [Level(true, seen, false)], [StrTok(key, raw)] + rest) ==
            var fault := KeyFault(key, raw, seen);
            if fault.Fine? then Run(stack + [Level(true, Track(key, seen), true)], rest) else fault
  {
    var start := stack + [Level(true, seen, false)];
    assert ([StrTok(key, raw)] + rest)[1..] == rest;
    assert start[|stack| := Level(true, Track(key, seen), true)] == stack + [Level(true, Track(key, seen), true)];
  }

  lemma {:induction false} ElemsRun(es: seq<Json>, stack: seq<Level>, rest: seq<Token>)
    ensures Run(stack + [Level(false, {}, false)], ElemTokens(es) + ([Close] + rest)) ==
            Continue(ElemsFault(es), stack, rest)
    decreases es, 1
  {
    var start := stack + [Level(false, {}, false)];
    if es == [] {
      assert ElemTokens(es) + ([Close] + rest) == [Close] + rest;
      CloseRuns(stack, Level(false, {}, false), rest);
    } else {
      var tail := ElemTokens(es[1..]) + ([Close] + rest);
      assert ElemTokens(es) + ([Close] + rest) == Tokens(es[0]) + tail;
      ValueRuns(es[0], start, tail);
      assert AfterValue(start) == start;
      ElemsRun(es[1..], stack, rest);
    }
  }

  /** MAIN: on the tokens of any document, trailing tokens or not, the machine reports the document's first fault. */
  lemma MachineIsMeaning(j: Json, trailing: seq<Token>)
    ensures Run([], Tokens(j) + trailing) == FirstFault(j)
  {
    ValueRuns(j, [], trailing);
  }

  // ----- What a verdict says about the tree -----

  /** Some object of the tree, at any depth, has two members of this key. */
  ghost predicate Repeats(j: Json, key: string)
    decreases j
  {
    match j
    case Obj(ms) =>
      || (exists a, b :: 0 <= a < b < |ms| && ms[a].key == ms[b].key == key)
      || (exists i :: 0 <= i < |ms| && Repeats(ms[i].val, key))
    case Arr(es) => exists i :: 0 <= i < |es| && Repeats(es[i], key)
    case _ => false
  }

  /** Some object has a key written with an unpaired surrogate escape. */
  ghost predicate HasLoneKey(j: Json)
    decreases j
  {
    match j
    case Obj(ms) =>
      exists i :: 0 <= i < |ms| &&
        ((REPLACEMENT in ms[i].key && RawHasLoneSurrogate(ms[i].raw, 0)) || HasLoneKey(ms[i].val))
    case Arr(es) => exists i :: 0 <= i < |es| && HasLoneKey(es[i])
    case _ => false
  }

  /** MAIN: a document is fine exactly when no object repeats a U+FFFD-free key and no key has an unpaired escape. */
  lemma {:induction false} FineIffStrict(j: Json)
    ensures FirstFault(j).Fine? <==> !HasLoneKey(j) && forall key :: REPLACEMENT !in key ==> !Repeats(j, key)
    ensures FirstFault(j).Duplicate? ==> REPLACEMENT !in FirstFault(j).key && Repeats(j, FirstFault(j).key)
    ensures FirstFault(j).LoneSurrogateKey? ==> HasLoneKey(j)
    decreases j
  {
    match j
    case Obj(ms) => MembersStrict(ms, {});
    case Arr(es) => ElemsStrict(es);
    case _ =>
  }

  lemma {:induction false} ElemsStrict(es: seq<Json>)
    ensures ElemsFault(es).Fine? <==> forall i :: 0 <= i < |es| ==> FirstFault(es[i]).Fine?
    ensures forall i | 0 <= i < |es| ::
              FirstFault(es[i]).Fine? <==> !HasLoneKey(es[i]) && forall key :: REPLACEMENT !in key ==> !Repeats(es[i], key)
    ensures ElemsFault(es).Duplicate? ==> REPLACEMENT !in ElemsFault(es).key && exists i :: 0 <= i < |es| && Repeats(es[i], ElemsFault(es).key)
    ensures ElemsFault(es).LoneSurrogateKey? ==> exists i :: 0 <= i < |es| && HasLoneKey(es[i])
    decreases es
  {
    if es != [] {
      FineIffStrict(es[0]);
      ElemsStrict(es[1..]);
      forall i | 1 <= i < |es| ensures es[i] == es[1..][i - 1] { }
    }
  }

  /** No member's key is among the seen ones or among the keys before it, U+FFFD keys aside. */
  ghost predicate FreshKeys(ms: seq<Member>, seen: set<string>)
  {
    && (forall i :: 0 <= i < |ms| && REPLACEMENT !in ms[i].key ==> ms[i].key !in seen)
    && (forall a, b :: 0 <= a < b < |ms| && REPLACEMENT !in ms[a].key ==> ms[a].key != ms[b].key)
  }

  ghost predicate CleanMembers(ms: seq<Member>)
  {
    forall i :: 0 <= i < |ms| ==>
      FirstFault(ms[i].val).Fine? && !(REPLACEMENT in ms[i].key && RawHasLoneSurrogate(ms[i].raw, 0))
  }

  lemma {:induction false} MembersFineIff(ms: seq<Member>, seen: set<string>)
    ensures MembersFault(ms, seen).Fine? <==> FreshKeys(ms, seen) && CleanMembers(ms)
    decreases ms
  {
    if ms != [] {
      var m, tail := ms[0], ms[1..];
      MembersFineIff(tail, Track(m.key, seen));
      assert forall i | 1 <= i < |ms| :: ms[i] == tail[i - 1];
      if FreshKeys(ms, seen) && CleanMembers(ms) {
        assert FreshKeys(tail, Track(m.key, seen)) && CleanMembers(tail);
      }
      if KeyFault(m.key, m.raw, seen).Fine? && FirstFault(m.val).Fine? && FreshKeys(tail, Track(m.key, seen)) && CleanMembers(tail) {
        forall a, b | 0 <= a < b < |ms| && REPLACEMENT !in ms[a].key ensures ms[a].key != ms[b].key {
          if a == 0 { assert ms[b] == tail[b - 1]; } else { assert ms[a] == tail[a - 1] && ms[b] == tail[b - 1]; }
        }
        assert FreshKeys(ms, seen) && CleanMembers(ms);
      }
    }
  }

  /** The key is used by a member and seen before, or used by two members, or repeated inside a member's value. */
  ghost predicate RepeatWitness(ms: seq<Member>, seen: set<string>, key: string)
  {
    || (key in seen && exists i :: 0 <= i < |ms| && ms[i].key == key)
    || (exists a, b :: 0 <= a < b < |ms| && ms[a].key == ms[b].key == key)
    || (exists i :: 0 <= i < |ms| && Repeats(ms[i].val, key))
  }

  lemma {:induction false} MembersWitness(ms: seq<Member>, seen: set<string>)
    requires forall i | 0 <= i < |ms| :: FirstFault(ms[i].val).Duplicate? ==>
               REPLACEMENT !in FirstFault(ms[i].val).key && Repeats(ms[i].val, FirstFault(ms[i].val).key)
    requires forall i | 0 <= i < |ms| :: FirstFault(ms[i].val).LoneSurrogateKey? ==> HasLoneKey(ms[i].val)
    ensures var f := MembersFault(ms, seen);
            && (f.Duplicate? ==> REPLACEMENT !in f.key && RepeatWitness(ms, seen, f.key))
            && (f.LoneSurrogateKey? ==>
                  exists i :: 0 <= i < |ms| &&
                    ((REPLACEMENT in ms[i].key && RawHasLoneSurrogate(ms[i].raw, 0)) || HasLoneKey(ms[i].val)))
    decreases ms
  {
    if ms != [] {
      var m, tail := ms[0], ms[1..];
      assert forall i | 0 <= i < |tail| :: tail[i] == ms[i + 1];
      MembersWitness(tail, Track(m.key, seen));
      var f := MembersFault(ms, seen);
      if KeyFault(m.key, m.raw, seen).Fine? && FirstFault(m.val).Fine? {
        if f.Duplicate? {
          if i :| 0 <= i < |tail| && Repeats(tail[i].val, f.key) {
            assert Repeats(ms[i + 1].val, f.key);
          } else if a, b :| 0 <= a < b < |tail| && tail[a].key == tail[b].key == f.key {
            assert ms[a + 1].key == ms[b + 1].key == f.key;
          } else {
            var i :| 0 <= i < |tail| && tail[i].key == f.key;
            assert ms[i + 1].key == f.key;
          }
        } else if f.LoneSurrogateKey? {
          var i :| 0 <= i < |tail| && ((REPLACEMENT in tail[i].key && RawHasLoneSurrogate(tail[i].raw, 0)) || HasLoneKey(tail[i].val));
          assert ms[i + 1] == tail[i];
        }
      }
    }
  }

  lemma {:induction false} MembersStrict(ms: seq<Member>, seen: set<string>)
    requires seen == {}
    ensures var j := Obj(ms);
            && (FirstFault(j).Fine? <==> !HasLoneKey(j) && forall key :: REPLACEMENT !in key ==> !Repeats(j, key))
            && (FirstFault(j).Duplicate? ==> REPLACEMENT !in FirstFault(j).key && Repeats(j, FirstFault(j).key))
            && (FirstFault(j).LoneSurrogateKey? ==> HasLoneKey(j))
    decreases ms
  {
    forall i | 0 <= i < |ms|
      ensures FirstFault(ms[i].val).Fine? <==> !HasLoneKey(ms[i].val) && forall key :: REPLACEMENT !in key ==> !Repeats(ms[i].val, key)
      ensures FirstFault(ms[i].val).Duplicate? ==> REPLACEMENT !in FirstFault(ms[i].val).key && Repeats(ms[i].val, FirstFault(ms[i].val).key)
      ensures FirstFault(ms[i].val).LoneSurrogateKey? ==> HasLoneKey(ms[i].val)
    {
      var m := ms[i];
      assert m.val < m;
      FineIffStrict(ms[i].val);
    }
    MembersFineIff(ms, seen);
    MembersWitness(ms, seen);
  }

  // ----- Unpaired surrogate escapes -----

  function HexDigitVal(c: char): Option<nat>
  {
    if '0' <= c <= '9' then Some((c - '0') as nat)
    else if 'a' <= c <= 'f' then Some((c - 'a') as nat + 10)
    else if 'A' <= c <= 'F' then Some((c - 'A') as nat + 10)
    else None
  }

  /** The code unit four hex digits at i spell. */
  function Hex4(raw: string, i: nat): Option<nat>
    requires i + 4 <= |raw|
  {
    match (HexDigitVal(raw[i]), HexDigitVal(raw[i + 1]), HexDigitVal(raw[i + 2]), HexDigitVal(raw[i + 3]))
    case (Some(a), Some(b), Some(c), Some(d)) => Some(((a * 16 + b) * 16 + c) * 16 + d)
    case _ => None
  }

  lemma DigitRead(v: nat, upper: bool)
    requires v < 16
    ensures HexDigitVal(Quoting.HexDigit(v, upper)) == Some(v)
  {
  }

  /** MAIN: four hex digits, of either case each, are read as the number they spell. */
  lemma DigitsRead(raw: string, i: nat, digits: seq<nat>, upper: seq<bool>)
    requires i + 4 <= |raw| && |digits| == |upper| == 4
    requires forall k | 0 <= k < 4 :: digits[k] < 16 && raw[i + k] == Quoting.HexDigit(digits[k], upper[k])
    ensures Hex4(raw, i) == Some(digits[0] * 0x1000 + digits[1] * 0x100 + digits[2] * 0x10 + digits[3])
  {
    hide HexDigitVal, Quoting.HexDigit;
    forall k | 0 <= k < 4 ensures HexDigitVal(raw[i + k]) == Some(digits[k]) { DigitRead(digits[k], upper[k]); }
    assert raw[i] == raw[i + 0];
  }

  predicate IsHigh(v: nat) { 0xD800 <= v <= 0xDBFF }

  predicate IsLow(v: nat) { 0xDC00 <= v <= 0xDFFF }

  /** The code unit of a complete \u escape at i. */
  function UnitAt(raw: string, i: nat): (r: Option<nat>)
    requires i <= |raw|
    ensures r.Some? ==> i + 6 <= |raw|
  {
    if i + 6 <= |raw| && raw[i] == '\\' && raw[i + 1] == 'u' then Hex4(raw, i + 2) else None
  }

  /** A backslash escape of any other kind is consumed whole, so its second character introduces nothing. */
  function StepAt(raw: string, i: nat): (w: nat)
    requires i < |raw|
    ensures 1 <= w <= |raw| - i
  {
    if UnitAt(raw, i).Some? then 6
    else if raw[i] == '\\' && i + 1 < |raw| && raw[i + 1] != 'u' then 2
    else 1
  }

  function RawHasLoneSurrogate(raw: string, i: nat): bool
    requires i <= |raw|
    decreases |raw| - i
  {
    if i == |raw| then false
    else
      match UnitAt(raw, i)
      case None => RawHasLoneSurrogate(raw, i + StepAt(raw, i))
      case Some(v) =>
        if IsLow(v) then true
        else if !IsHigh(v) then RawHasLoneSurrogate(raw, i + 6)
        else
          match UnitAt(raw, i + 6)
          case None => true
          case Some(lo) => if IsLow(lo) then RawHasLoneSurrogate(raw, i + 12) else true
  }

  /** The escapes of the text in order; anything that is not a complete \u escape separates them. */
  function Units(raw: string, i: nat): seq<Option<nat>>
    requires i <= |raw|
    decreases |raw| - i
  {
    if i == |raw| then [] else [UnitAt(raw, i)] + Units(raw, i + StepAt(raw, i))
  }

  predicate HighAt(us: seq<Option<nat>>, k: int)
  {
    0 <= k < |us| && us[k].Some? && IsHigh(us[k].value)
  }

  predicate LowAt(us: seq<Option<nat>>, k: int)
  {
    0 <= k < |us| && us[k].Some? && IsLow(us[k].value)
  }

  /** A half without the other half right beside it. */
  predicate UnpairedAt(us: seq<Option<nat>>, k: int)
  {
    (HighAt(us, k) && !LowAt(us, k + 1)) || (LowAt(us, k) && !HighAt(us, k - 1))
  }

  ghost predicate Unpaired(us: seq<Option<nat>>)
  {
    exists k :: UnpairedAt(us, k)
  }

  lemma UnitsStep(raw: string, i: nat)
    requires i < |raw|
    ensures i + StepAt(raw, i) <= |raw| && Units(raw, i) == [UnitAt(raw, i)] + Units(raw, i + StepAt(raw, i))
  {
  }

  lemma FirstUnpaired(us: seq<Option<nat>>, rest: seq<Option<nat>>, v: nat)
    requires us == [Some(v)] + rest
    requires IsLow(v) || (IsHigh(v) && (rest == [] || rest[0].None? || !IsLow(rest[0].value)))
    ensures Unpaired(us)
  {
    assert us[0] == Some(v) && (rest != [] ==> us[1] == rest[0]);
    assert UnpairedAt(us, 0);
  }

  lemma StepOfUnit(raw: string, i: nat)
    requires i < |raw| && UnitAt(raw, i).Some?
    ensures StepAt(raw, i) == 6
  {
  }

  /** A high surrogate is decided by the unit after it. */
  lemma HighDecided(raw: string, i: nat)
    requires i < |raw| && UnitAt(raw, i).Some? && IsHigh(UnitAt(raw, i).value)
    ensures var lo := UnitAt(raw, i + 6);
      if lo.Some? && IsLow(lo.value) then Unpaired(Units(raw, i)) == Unpaired(Units(raw, i + 12)) else Unpaired(Units(raw, i))
  {
    hide Units, Unpaired, UnitAt, StepAt;
    var us, next := Units(raw, i), Units(raw, i + 6);
    var hi, lo := UnitAt(raw, i), UnitAt(raw, i + 6);
    UnitsStep(raw, i);
    StepOfUnit(raw, i);
    if i + 6 < |raw| { UnitsStep(raw, i + 6); } else { NoUnits(raw); }
    if lo.Some? && IsLow(lo.value) {
      StepOfUnit(raw, i + 6);
      assert us == [hi, lo] + Units(raw, i + 12);
      PairSkips(us, Units(raw, i + 12), hi.value, lo.value);
    } else {
      FirstUnpaired(us, next, hi.value);
    }
  }

  /** MAIN: the raw scan is true exactly when tokenising the escapes leaves an unpaired surrogate. */
  lemma {:induction false} RawScanFindsUnpaired(raw: string, i: nat)
    requires i <= |raw|
    ensures RawHasLoneSurrogate(raw, i) <==> Unpaired(Units(raw, i))
    decreases |raw| - i
  {
    if i == |raw| {
      assert Units(raw, i) == [] && !Unpaired([]);
    } else {
      hide Units, Unpaired, UnitAt, StepAt;
      var v, w := UnitAt(raw, i), StepAt(raw, i);
      UnitsStep(raw, i);
      if v.Some? { StepOfUnit(raw, i); }
      if v.Some? && IsHigh(v.value) {
        HighDecided(raw, i);
        var lo := UnitAt(raw, i + 6);
        if lo.Some? && IsLow(lo.value) { RawScanFindsUnpaired(raw, i + 12); }
      } else if v.Some? && IsLow(v.value) {
        FirstUnpaired(Units(raw, i), Units(raw, i + w), v.value);
      } else {
        RawScanFindsUnpaired(raw, i + w);
        OtherSkips(Units(raw, i), Units(raw, i + w), v);
      }
    }
  }

  lemma NoUnits(raw: string)
    ensures Units(raw, |raw|) == []
  {
  }

  lemma PairSkips(us: seq<Option<nat>>, rest: seq<Option<nat>>, hi: nat, lo: nat)
    requires us == [Some(hi), Some(lo)] + rest && IsHigh(hi) && IsLow(lo)
    ensures Unpaired(us) <==> Unpaired(rest)
  {
    assert !UnpairedAt(us, 0) && !UnpairedAt(us, 1);
    forall k | k >= 2 ensures UnpairedAt(us, k) <==> UnpairedAt(rest, k - 2) {
      assert k > 2 ==> (HighAt(us, k - 1) <==> HighAt(rest, k - 3));
    }
    if k :| UnpairedAt(us, k) { assert UnpairedAt(rest, k - 2); }
    if k :| UnpairedAt(rest, k) { assert UnpairedAt(us, k + 2); }
  }

  lemma OtherSkips(us: seq<Option<nat>>, rest: seq<Option<nat>>, v: Option<nat>)
    requires us == [v] + rest && (v.Some? ==> !IsHigh(v.value) && !IsLow(v.value))
    ensures Unpaired(us) <==> Unpaired(rest)
  {
    assert !UnpairedAt(us, 0);
    forall k | k >= 1 ensures UnpairedAt(us, k) <==> UnpairedAt(rest, k - 1) {
      assert k > 1 ==> (HighAt(us, k - 1) <==> HighAt(rest, k - 2));
    }
    if k :| UnpairedAt(us, k) { assert UnpairedAt(rest, k - 1); }
    if k :| UnpairedAt(rest, k) { assert UnpairedAt(us, k + 1); }
  }

  method RawHasLoneSurrogateLoop(raw: string) returns (lone: bool)
    ensures lone == RawHasLoneSurrogate(raw, 0)
  {
    var i := 0;
    while i < |raw|
      invariant 0 <= i <= |raw| && RawHasLoneSurrogate(raw, 0) == RawHasLoneSurrogate(raw, i)
    {
      hide UnitAt, StepAt;
      var v := UnitAt(raw, i);
      if v.None? {
        i := i + StepAt(raw, i);
      } else if IsLow(v.value) {
        return true;
      } else if !IsHigh(v.value) {
        i := i + 6;
      } else {
        var lo := UnitAt(raw, i + 6);
        if lo.None? || !IsLow(lo.value) { return true; }
        i := i + 12;
      }
    }
    lone := false;
  }

  // ----- The machine on objects -----

  /** One open container; keys is meaningful for an object only. */
  class DupLevel {
    const isObj: bool
    var keys: set<string>
    var seenKey: bool

    constructor (isObj: bool)
      ensures this.isObj == isObj && keys == {} && !seenKey
    {
      this.isObj, keys, seenKey := isObj, {}, false;
    }

    function Abs(): Level
      reads this
    {
      Level(isObj, keys, seenKey)
    }

    /** Takes the token if it is a key here, and reports its fault. */
    method RecordKey(tok: Token) returns (handled: bool, fault: Verdict)
      modifies this
      ensures handled <==> isObj && !old(seenKey) && tok.StrTok?
      ensures fault == if handled then KeyFault(tok.s, tok.raw, old(keys)) else Fine
      ensures !handled ==> keys == old(keys) && seenKey == old(seenKey)
      ensures handled && fault.Fine? ==> seenKey && keys == Track(tok.s, old(keys))
    {
      handled, fault := false, Fine;
      if !isObj || seenKey || !tok.StrTok? { return; }
      handled := true;
      if REPLACEMENT in tok.s {
        var lone := RawHasLoneSurrogateLoop(tok.raw);
        if lone { fault := LoneSurrogateKey; return; }
      }
      seenKey := true;
      if REPLACEMENT in tok.s { return; }
      if tok.s in keys { fault := Duplicate(tok.s); return; }
      keys := keys + {tok.s};
    }

    method EndValue()
      modifies this
      ensures keys == old(keys) && seenKey == (old(seenKey) && !isObj)
    {
      if isObj { seenKey := false; }
    }
  }

  function AbsStack(stack: seq<DupLevel>): (ls: seq<Level>)
    reads stack
    ensures |ls| == |stack|
  {
    seq(|stack|, i requires 0 <= i < |stack| reads stack => stack[i].Abs())
  }

  ghost predicate Separate(stack: seq<DupLevel>)
  {
    forall i, j :: 0 <= i < j < |stack| ==> stack[i] != stack[j]
  }

  /** One token on the stack of mutable levels; at most the top two levels are written. */
  method HandleToken(stack: seq<DupLevel>, tok: Token) returns (halt: Option<Verdict>, next: seq<DupLevel>)
    requires Separate(stack)
    modifies stack
    ensures halt == Step(old(AbsStack(stack)), tok).0
    ensures halt.None? ==> AbsStack(next) == Step(old(AbsStack(stack)), tok).1 && Separate(next)
    ensures forall i | 0 <= i < |next| :: next[i] in stack || fresh(next[i])
  {
    ghost var before := AbsStack(stack);
    halt, next := None, stack;
    if |stack| > 0 {
      var handled, fault := stack[|stack| - 1].RecordKey(tok);
      if !fault.Fine? { halt := Some(fault); return; }
      if handled {
        assert AbsStack(stack) == before[|stack| - 1 := Level(true, Track(tok.s, before[|stack| - 1].keys), true)];
        return;
      }
      assert AbsStack(stack) == before;
    }
    match tok {
      case OpenObj =>
        var level := new DupLevel(true);
        next := stack + [level];
        assert AbsStack(next) == before + [Level(true, {}, false)];
      case OpenArr =>
        var level := new DupLevel(false);
        next := stack + [level];
        assert AbsStack(next) == before + [Level(false, {}, false)];
      case Close =>
        if |stack| <= 1 { halt := Some(Fine); return; }
        next := stack[..|stack| - 1];
        assert AbsStack(next) == before[..|next|];
        EndTop(next);
      case _ =>
        if |stack| == 0 { halt := Some(Fine); return; }
        EndTop(next);
    }
  }

  method EndTop(stack: seq<DupLevel>)
    requires Separate(stack) && stack != []
    modifies stack[|stack| - 1]
    ensures AbsStack(stack) == AfterValue(old(AbsStack(stack)))
  {
    stack[|stack| - 1].EndValue();
    assert AbsStack(stack) == AfterValue(old(AbsStack(stack)));
  }

  /** MAIN: the scan with a stack of mutable levels reports what the machine on values reports. */
  method ScanDuplicateKeys(toks: seq<Token>) returns (verdict: Verdict)
    ensures verdict == Run([], toks)
  {
    var stack: seq<DupLevel> := [];
    for t := 0 to |toks|
      invariant Separate(stack) && forall i | 0 <= i < |stack| :: fresh(stack[i])
      invariant Run([], toks) == Run(AbsStack(stack), toks[t..])
    {
      assert toks[t..][0] == toks[t] && toks[t..][1..] == toks[t + 1..];
      var halt;
      halt, stack := HandleToken(stack, toks[t]);
      if halt.Some? { return halt.value; }
    }
    verdict := Fine;
  }

}
