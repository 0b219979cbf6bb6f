/**
  The key under which a file's effective configuration is memoised: its kinds in order, then the
  numbers of the overrides that match its path.
 */
module MemoKey {

  import opened ConfigLayers

  const UNIT := '\U{1f}'
  const RECORD := '\U{1e}'

  function Digit(d: nat): char
    requires d < 10
  {
    ('0' as int + d) as char
  }

  function Decimal(n: nat): string
  {
    if n < 10 then [Digit(n)] else Decimal(n / 10) + [Digit(n % 10)]
  }

  function KindPart(kinds: seq<string>): string
  {
    if kinds == [] then [] else kinds[0] + [UNIT] + KindPart(kinds[1..])
  }

  function IndexPart(indices: seq<nat>): string
  {
    if indices == [] then [] else Decimal(indices[0]) + [','] + IndexPart(indices[1..])
  }

  function Key(kinds: seq<string>, indices: seq<nat>): string
  {
    KindPart(kinds) + [RECORD] + IndexPart(indices)
  }

  function MatchingIndices(env: Env, cfg: Config, path: string, n: nat): seq<nat>
    requires n <= |cfg.overrides|
  {
    if n == 0 then []
    else MatchingIndices(env, cfg, path, n - 1) + (if env.matches(cfg.overrides[n - 1].patterns, path) then [n - 1] else [])
  }

  /** The key of a file, from its resolved kinds and its path. */
  function Signature(env: Env, cfg: Config, path: string, kinds: seq<string>): string
  {
    Key(kinds, MatchingIndices(env, cfg, path, |cfg.overrides|))
  }

  lemma {:induction false} KindPartSnoc(kinds: seq<string>, k: string)
    ensures KindPart(kinds + [k]) == KindPart(kinds) + (k + [UNIT])
  {
    if kinds == [] {
      assert ([] + [k])[1..] == [] && ([] + [k])[0] == k;
      assert KindPart([]) == [];
    } else {
      KindPartSnoc(kinds[1..], k);
      assert (kinds + [k])[1..] == kinds[1..] + [k];
    }
  }

  lemma {:induction false} IndexPartSnoc(indices: seq<nat>, i: nat)
    ensures IndexPart(indices + [i]) == IndexPart(indices) + (Decimal(i) + [','])
  {
    if indices == [] {
      assert ([] + [i])[1..] == [] && ([] + [i])[0] == i;
      assert IndexPart([]) == [];
    } else {
      IndexPartSnoc(indices[1..], i);
      assert (indices + [i])[1..] == indices[1..] + [i];
    }
  }

  method EffectiveSignature(env: Env, cfg: Config, path: string, fm: seq<string>, fields: set<string>)
    returns (key: string, kinds: seq<string>)
    ensures kinds == Names(ResolvedKinds(env, cfg, path, fm, fields)) && key == Signature(env, cfg, path, kinds)
  {
    hide *;
    kinds := ResolveEffectiveKinds(env, cfg, path, fm, fields);
    key := WriteKinds(kinds);
    key := key + [RECORD];
    ghost var front := key;
    EmptyParts(env, cfg, path);
    assert front + [] == front;
    for i := 0 to |cfg.overrides|
      invariant key == front + IndexPart(MatchingIndices(env, cfg, path, i))
    {
      IndexStep(env, cfg, path, i);
      if env.matches(cfg.overrides[i].patterns, path) {
        IndexPartSnoc(MatchingIndices(env, cfg, path, i), i);
        key := key + (Decimal(i) + [',']);
      }
    }
    KeyIs(env, cfg, path, kinds);
  }

  method WriteKinds(kinds: seq<string>) returns (b: string)
    ensures b == KindPart(kinds)
  {
    b := [];
    for i := 0 to |kinds|
      invariant b == KindPart(kinds[..i])
    {
      hide KindPart;
      KindPartSnoc(kinds[..i], kinds[i]);
      assert kinds[..i + 1] == kinds[..i] + [kinds[i]];
      b := b + (kinds[i] + [UNIT]);
    }
    assert kinds[..|kinds|] == kinds;
  }

  lemma EmptyParts(env: Env, cfg: Config, path: string)
    ensures IndexPart(MatchingIndices(env, cfg, path, 0)) == []
  {
  }

  lemma IndexStep(env: Env, cfg: Config, path: string, i: nat)
    requires i < |cfg.overrides|
    ensures MatchingIndices(env, cfg, path, i + 1) ==
            MatchingIndices(env, cfg, path, i) + (if env.matches(cfg.overrides[i].patterns, path) then [i] else [])
    ensures MatchingIndices(env, cfg, path, i) + [] == MatchingIndices(env, cfg, path, i)
  {
  }

  lemma KeyIs(env: Env, cfg: Config, path: string, kinds: seq<string>)
    ensures Signature(env, cfg, path, kinds) ==
            KindPart(kinds) + [RECORD] + IndexPart(MatchingIndices(env, cfg, path, |cfg.overrides|))
  {
  }

  // ----- The key determines what it was made from -----

  lemma {:induction false} DecimalShape(n: nat)
    ensures |Decimal(n)| >= 1 && (n >= 10 ==> |Decimal(n)| >= 2)
    ensures ',' !in Decimal(n) && UNIT !in Decimal(n)
  {
    assert ',' as int == 44 && '0' as int == 48 && UNIT as int == 31;
    if n >= 10 { DecimalShape(n / 10); }
  }

  lemma {:induction false} DecimalInjective(a: nat, b: nat)
    requires Decimal(a) == Decimal(b)
    ensures a == b
  {
    DecimalShape(a);
    DecimalShape(b);
    var x, y := Decimal(a), Decimal(b);
    assert x[|x| - 1] == Digit(a % 10) && y[|y| - 1] == Digit(b % 10);
    assert Digit(a % 10) as int == 48 + a % 10 && Digit(b % 10) as int == 48 + b % 10;
    if a >= 10 && b >= 10 {
      assert x[..|x| - 1] == Decimal(a / 10) && y[..|y| - 1] == Decimal(b / 10);
      DecimalInjective(a / 10, b / 10);
    }
  }

  /** Two texts cut at the first separator. */
  lemma CutAt(a: string, b: string, sep: char, restA: string, restB: string)
    requires a + [sep] + restA == b + [sep] + restB && sep !in a && sep !in b
    ensures a == b && restA == restB
  {
    var s := a + [sep] + restA;
    assert s[|a|] == sep && s[|b|] == sep;
    assert forall i | 0 <= i < |a| :: s[i] == a[i] && a[i] in a;
    assert forall i | 0 <= i < |b| :: s[i] == b[i] && b[i] in b;
    assert |a| == |b|;
    assert a == s[..|a|] && b == s[..|b|];
    assert restA == s[|a| + 1..] && restB == s[|b| + 1..];
  }

  lemma {:induction false} IndicesInjective(a: seq<nat>, b: seq<nat>)
    requires IndexPart(a) == IndexPart(b)
    ensures a == b
  {
    if a != [] { DecimalShape(a[0]); }
    if b != [] { DecimalShape(b[0]); }
    if a != [] && b != [] {
      CutAt(Decimal(a[0]), Decimal(b[0]), ',', IndexPart(a[1..]), IndexPart(b[1..]));
      DecimalInjective(a[0], b[0]);
      IndicesInjective(a[1..], b[1..]);
      assert a == [a[0]] + a[1..] && b == [b[0]] + b[1..];
    }
  }

  lemma {:induction false} IndexPartPlain(indices: seq<nat>)
    ensures UNIT !in IndexPart(indices)
  {
    if indices != [] {
      DecimalShape(indices[0]);
      IndexPartPlain(indices[1..]);
    }
  }

  predicate Plain(kinds: seq<string>)
  {
    forall k <- kinds :: UNIT !in k
  }

  lemma KeyCons(kinds: seq<string>, indices: seq<nat>)
    requires kinds != []
    ensures Key(kinds, indices) == kinds[0] + [UNIT] + Key(kinds[1..], indices)
  {
  }

  lemma KeyNil(indices: seq<nat>)
    ensures Key([], indices) == [RECORD] + IndexPart(indices) && UNIT !in Key([], indices)
  {
    assert UNIT as int == 31 && RECORD as int == 30;
    IndexPartPlain(indices);
  }

  /** MAIN: keys of plain kind names are equal only for equal kinds and equal override sets. */
  lemma {:induction false} KeyInjective(a: seq<string>, b: seq<string>, x: seq<nat>, y: seq<nat>)
    requires Plain(a) && Plain(b) && Key(a, x) == Key(b, y)
    ensures a == b && x == y
  {
    hide Key, IndexPart;
    if a == [] {
      KeyNil(x);
      if b == [] {
        KeyNil(y);
        TailEqual(IndexPart(x), IndexPart(y));
        IndicesInjective(x, y);
      } else {
        KeyCons(b, y);
        HasUnit(b[0], Key(b[1..], y));
      }
    } else {
      KeyCons(a, x);
      HasUnit(a[0], Key(a[1..], x));
      if b == [] {
        KeyNil(y);
      } else {
        KeyCons(b, y);
        assert a[0] in a && b[0] in b;
        CutAt(a[0], b[0], UNIT, Key(a[1..], x), Key(b[1..], y));
        KeyInjective(a[1..], b[1..], x, y);
        assert a == [a[0]] + a[1..] && b == [b[0]] + b[1..];
      }
    }
  }

  lemma HasUnit(k: string, rest: string)
    ensures UNIT in k + [UNIT] + rest
  {
    assert (k + [UNIT] + rest)[|k|] == UNIT;
  }

  lemma TailEqual(a: string, b: string)
    requires [RECORD] + a == [RECORD] + b
    ensures a == b
  {
    assert a == ([RECORD] + a)[1..] && b == ([RECORD] + b)[1..];
  }

  /** The separator must not occur in a name: a name containing it reads as two. */
  lemma SeparatorInNameCollides(x: string, y: string, indices: seq<nat>)
    ensures Key([x + [UNIT] + y], indices) == Key([x, y], indices) && [x + [UNIT] + y] != [x, y]
  {
    hide Key;
    KeyCons([x + [UNIT] + y], indices);
    KeyCons([x, y], indices);
    KeyCons([y], indices);
    assert [x + [UNIT] + y][1..] == [] && [x, y][1..] == [y] && [y][1..] == [];
    assert x + [UNIT] + y + [UNIT] + Key([], indices) == x + [UNIT] + (y + [UNIT] + Key([], indices));
    assert |[x + [UNIT] + y]| != |[x, y]|;
  }

  // ----- The configuration depends on nothing else -----

  lemma {:induction false} MatchingIff(env: Env, cfg: Config, path: string, n: nat, i: nat)
    requires n <= |cfg.overrides| && i < |cfg.overrides|
    ensures i in MatchingIndices(env, cfg, path, n) <==> i < n && env.matches(cfg.overrides[i].patterns, path)
  {
    if n > 0 { MatchingIff(env, cfg, path, n - 1, i); }
  }

  lemma {:induction false} SameOverrides(env: Env, cfg: Config, p: string, q: string, start: Rules, n: nat)
    requires n <= |cfg.overrides|
    requires MatchingIndices(env, cfg, p, |cfg.overrides|) == MatchingIndices(env, cfg, q, |cfg.overrides|)
    ensures AfterOverrides(env, cfg, p, start, n) == AfterOverrides(env, cfg, q, start, n)
    ensures MatchingOverrides(env, cfg, p, n) == MatchingOverrides(env, cfg, q, n)
  {
    if n > 0 {
      SameOverrides(env, cfg, p, q, start, n - 1);
      MatchingIff(env, cfg, p, |cfg.overrides|, n - 1);
      MatchingIff(env, cfg, q, |cfg.overrides|, n - 1);
    }
  }

  /** MAIN: files with the same key have the same rules, categories and explicit rules. */
  lemma SameKeySameConfiguration(env: Env, cfg: Config, valid: set<string>, p: string, q: string, kp: seq<string>, kq: seq<string>)
    requires Plain(kp) && Plain(kq) && Signature(env, cfg, p, kp) == Signature(env, cfg, q, kq)
    ensures kp == kq
    ensures EffectiveRules(env, cfg, p, kp) == EffectiveRules(env, cfg, q, kq)
    ensures EffectiveCategories(env, cfg, valid, p, kp) == EffectiveCategories(env, cfg, valid, q, kq)
    ensures EffectiveExplicit(env, cfg, p, kp) == EffectiveExplicit(env, cfg, q, kq)
  {
    hide Key, KindPart, IndexPart, MatchingIndices, ApplyLayer, AfterKinds, AfterOverrides, Expanded;
    var n := |cfg.overrides|;
    KeyInjective(kp, kq, MatchingIndices(env, cfg, p, n), MatchingIndices(env, cfg, q, n));
    var base := ApplyLayer(env, ApplyLayer(env, TranslatedAll(env, DefaultRules(cfg)), cfg.preset), UserRules(cfg));
    SameOverrides(env, cfg, p, q, AfterKinds(env, cfg, base, kp), n);
    assert BeforeExpansion(env, cfg, p, kp) == BeforeExpansion(env, cfg, q, kq);
  }

}
