/**
  The structure rule. A kind's schema and path pattern are pushed onto the rule's settings: when the
  configuration is applied, before the kind's own settings for the rule are merged; when it is explained,
  on top of them. Only the applied entry names the schema's file. This module says exactly when the two
  still agree.
 */
module StructureRule {

  import opened Wrappers
  import opened Settings
  import opened ConfigLayers

  const SOURCES := "schema-sources"
  const PATTERNS := "path-patterns"

  predicate IsPushed(key: string)
  {
    key == SOURCES || key == PATTERNS
  }

  /** The rule appends both of its lists. */
  predicate ListModes(env: Env)
  {
    Appends(env.modes(REQUIRED), SOURCES) && Appends(env.modes(REQUIRED), PATTERNS)
  }

  // ----- One setting of the rule -----

  function Get(rc: Option<RuleCfg>, key: string): Option<Val>
  {
    if HasKey(rc, key) then Some(rc.value.settings.value[key]) else None
  }

  function ListOf(v: Option<Val>): seq<Val>
  {
    if v.Some? && v.value.Items? then v.value.xs else []
  }

  function ListAt(rc: Option<RuleCfg>, key: string): seq<Val>
  {
    ListOf(Get(rc, key))
  }

  predicate Loaded(rc: Option<RuleCfg>)
  {
    rc.Some? && rc.value.settings.Some?
  }

  /** The rule refuses anything else. */
  predicate ListValued(rc: Option<RuleCfg>)
  {
    (Get(rc, SOURCES).Some? ==> Get(rc, SOURCES).value.Items?) && (Get(rc, PATTERNS).Some? ==> Get(rc, PATTERNS).value.Items?)
  }

  function Merged(env: Env, x: Option<RuleCfg>, y: Option<RuleCfg>): Option<RuleCfg>
  {
    if y.Some? then Some(Onto(env, REQUIRED, x, y.value)) else x
  }

  lemma MergedGet(env: Env, x: Option<RuleCfg>, y: Option<RuleCfg>, key: string)
    ensures Get(Merged(env, x, y), key) ==
            if Get(y, key).None? then Get(x, key)
            else if Get(x, key).None? then Get(y, key)
            else Some(MergeVal(env.modes(REQUIRED), key, Get(x, key).value, Get(y, key).value))
    ensures Loaded(Merged(env, x, y)) <==> Loaded(x) || Loaded(y)
  {
    if Loaded(x) && Loaded(y) {
      var app, e, l := env.modes(REQUIRED), x.value.settings.value, y.value.settings.value;
      MergedKeys(app, "", e, l);
      if key in e || key in l { MergedAt(app, "", e, l, key); }
    }
  }

  lemma MergedList(env: Env, x: Option<RuleCfg>, y: Option<RuleCfg>, key: string)
    requires ListModes(env) && ListValued(x) && ListValued(y) && IsPushed(key)
    ensures ListAt(Merged(env, x, y), key) == ListAt(x, key) + ListAt(y, key)
    ensures Get(Merged(env, x, y), key).Some? ==> Get(Merged(env, x, y), key).value.Items?
  {
    MergedGet(env, x, y, key);
    assert ListAt(x, key) + [] == ListAt(x, key) && [] + ListAt(y, key) == ListAt(y, key);
    hide Get, Merged;
  }

  /** What a kind declares outside its rules, pushed onto the rule. */
  function Declared(rc: Option<RuleCfg>, name: string, k: Kind, entry: Val): Option<RuleCfg>
  {
    var withSchema := if k.schema != map[] then Some(Push(rc, SOURCES, entry)) else rc;
    if k.pathPattern != "" then Some(Push(withSchema, PATTERNS, PathEntry(name, k))) else withSchema
  }

  predicate Declares(k: Kind)
  {
    k.schema != map[] || k.pathPattern != ""
  }

  function SchemasOf(k: Kind, entry: Val): seq<Val>
  {
    if k.schema != map[] then [entry] else []
  }

  function PathsOf(name: string, k: Kind): seq<Val>
  {
    if k.pathPattern != "" then [PathEntry(name, k)] else []
  }

  lemma DeclaredGet(rc: Option<RuleCfg>, name: string, k: Kind, entry: Val, key: string)
    requires ListValued(rc)
    ensures !IsPushed(key) ==> Get(Declared(rc, name, k, entry), key) == Get(rc, key)
    ensures ListAt(Declared(rc, name, k, entry), SOURCES) == ListAt(rc, SOURCES) + SchemasOf(k, entry)
    ensures ListAt(Declared(rc, name, k, entry), PATTERNS) == ListAt(rc, PATTERNS) + PathsOf(name, k)
    ensures Loaded(Declared(rc, name, k, entry)) <==> Loaded(rc) || Declares(k)
    ensures Declared(rc, name, k, entry).Some? <==> rc.Some? || Declares(k)
    ensures ListValued(Declared(rc, name, k, entry))
    ensures Get(Declared(rc, name, k, entry), SOURCES).Some? <==> Get(rc, SOURCES).Some? || k.schema != map[]
    ensures Get(Declared(rc, name, k, entry), PATTERNS).Some? <==> Get(rc, PATTERNS).Some? || k.pathPattern != ""
    ensures Declares(k) ==> Declared(rc, name, k, entry).value.enabled
    ensures !Declares(k) ==> Declared(rc, name, k, entry) == rc
  {
    var withSchema := if k.schema != map[] then Some(Push(rc, SOURCES, entry)) else rc;
    if k.schema != map[] { PushGet(rc, SOURCES, entry, key); PushGet(rc, SOURCES, entry, PATTERNS); }
    if k.pathPattern != "" { PushGet(withSchema, PATTERNS, PathEntry(name, k), key); PushGet(withSchema, PATTERNS, PathEntry(name, k), SOURCES); }
    assert ListAt(rc, SOURCES) + [] == ListAt(rc, SOURCES) && ListAt(rc, PATTERNS) + [] == ListAt(rc, PATTERNS);
    hide Get, Push;
  }

  lemma PushGet(rc: Option<RuleCfg>, key: string, entry: Val, other: string)
    ensures Get(Some(Push(rc, key, entry)), key) == Some(Items(ListAt(rc, key) + [entry]))
    ensures other != key ==> Get(Some(Push(rc, key, entry)), other) == Get(rc, other)
    ensures Loaded(Some(Push(rc, key, entry))) && Push(rc, key, entry).enabled
  {
  }

  // ----- Entries that differ in little -----

  /** Equal but for the flag and the entries of the pushed lists, which are as many. */
  ghost predicate Twin(a: Option<RuleCfg>, e: Option<RuleCfg>)
  {
    && (a.Some? <==> e.Some?) && (Loaded(a) <==> Loaded(e)) && ListValued(a) && ListValued(e)
    && (forall key :: Get(a, key).Some? <==> Get(e, key).Some?)
    && (forall key :: !IsPushed(key) ==> Get(a, key) == Get(e, key))
    && |ListAt(a, SOURCES)| == |ListAt(e, SOURCES)| && |ListAt(a, PATTERNS)| == |ListAt(e, PATTERNS)|
  }

  predicate ListsAgree(a: Option<RuleCfg>, e: Option<RuleCfg>)
  {
    ListAt(a, SOURCES) == ListAt(e, SOURCES) && ListAt(a, PATTERNS) == ListAt(e, PATTERNS)
  }

  predicate FlagsAgree(a: Option<RuleCfg>, e: Option<RuleCfg>)
  {
    a.Some? && e.Some? ==> a.value.enabled == e.value.enabled
  }

  lemma TwinsEqual(a: Option<RuleCfg>, e: Option<RuleCfg>)
    requires Twin(a, e)
    ensures a == e <==> ListsAgree(a, e) && FlagsAgree(a, e)
  {
    if Loaded(a) && ListsAgree(a, e) && FlagsAgree(a, e) {
      var x, y := a.value.settings.value, e.value.settings.value;
      forall key ensures key in x <==> key in y { assert Get(a, key).Some? <==> Get(e, key).Some?; }
      forall key | key in x ensures x[key] == y[key] {
        assert Get(a, key) == Some(x[key]) && Get(e, key) == Some(y[key]);
      }
      assert x == y;
    }
  }

  lemma SameSuffix(a: seq<Val>, b: seq<Val>, c: seq<Val>)
    requires |a| == |b|
    ensures a + c == b + c <==> a == b
  {
    if a + c == b + c { assert a == (a + c)[..|a|] && b == (b + c)[..|b|]; }
  }

  /** Merging the same layer into twins: the lists differ as before and the flags agree. */
  lemma MergedTwin(env: Env, a: Option<RuleCfg>, e: Option<RuleCfg>, rc: Option<RuleCfg>)
    requires ListModes(env) && Twin(a, e) && ListValued(rc)
    ensures var a', e' := Merged(env, a, rc), Merged(env, e, rc);
      && Twin(a', e') && (ListsAgree(a', e') <==> ListsAgree(a, e))
      && (FlagsAgree(a', e') <==> rc.Some? || FlagsAgree(a, e))
  {
    var a', e' := Merged(env, a, rc), Merged(env, e, rc);
    forall key ensures (Get(a', key).Some? <==> Get(e', key).Some?) && (!IsPushed(key) ==> Get(a', key) == Get(e', key)) {
      MergedGet(env, a, rc, key);
      MergedGet(env, e, rc, key);
    }
    MergedGet(env, a, rc, SOURCES);
    MergedGet(env, e, rc, SOURCES);
    MergedList(env, a, rc, SOURCES);
    MergedList(env, e, rc, SOURCES);
    MergedList(env, a, rc, PATTERNS);
    MergedList(env, e, rc, PATTERNS);
    SameSuffix(ListAt(a, SOURCES), ListAt(e, SOURCES), ListAt(rc, SOURCES));
    SameSuffix(ListAt(a, PATTERNS), ListAt(e, PATTERNS), ListAt(rc, PATTERNS));
    hide Get, ListOf, ListAt;
  }

  // ----- One kind -----

  function OwnRule(env: Env, k: Kind): Option<RuleCfg>
  {
    At(TranslatedAll(env, k.rules), REQUIRED)
  }

  function PlainEntry(k: Kind): Val
  {
    Dict(map["inline" := Dict(k.schema)])
  }

  function AppliedKind(env: Env, a: Option<RuleCfg>, name: string, k: Kind): Option<RuleCfg>
  {
    Merged(env, Declared(a, name, k, SchemaEntry(k)), OwnRule(env, k))
  }

  function ExplainedKind(env: Env, e: Option<RuleCfg>, name: string, k: Kind): Option<RuleCfg>
  {
    Merged(env, e, Declared(OwnRule(env, k), name, k, PlainEntry(k)))
  }

  predicate AllAre(xs: seq<Val>, v: Val)
  {
    forall x <- xs :: x == v
  }

  /**
    The schema comes from no named file, and whatever the kind's own settings for the rule list beside
    the schema or the path pattern repeats its entry.
   */
  predicate KindMirrors(env: Env, name: string, k: Kind)
  {
    && (k.schema != map[] ==> k.schemaSource == "" && AllAre(ListAt(OwnRule(env, k), SOURCES), SchemaEntry(k)))
    && (k.pathPattern != "" ==> AllAre(ListAt(OwnRule(env, k), PATTERNS), PathEntry(name, k)))
  }

  /** Putting one entry before a list is putting another behind it. */
  lemma {:induction false} Rotated(x: Val, y: Val, own: seq<Val>)
    ensures [x] + own == own + [y] <==> x == y && AllAre(own, x)
  {
    hide AllAre;
    var left, right := [x] + own, own + [y];
    if left == right {
      AllEqual(x, y, own);
    }
    if x == y && AllAre(own, x) {
      forall i | 0 <= i < |left| ensures left[i] == right[i] {
        AllAt(own, x);
        assert left[i] == if i == 0 then x else own[i - 1];
      }
    }
  }

  lemma AllAt(own: seq<Val>, x: Val)
    ensures AllAre(own, x) <==> forall i | 0 <= i < |own| :: own[i] == x
  {
    if AllAre(own, x) { forall i | 0 <= i < |own| ensures own[i] == x { assert own[i] in own; } }
  }

  lemma AllEqual(x: Val, y: Val, own: seq<Val>)
    requires [x] + own == own + [y]
    ensures x == y && AllAre(own, x)
  {
    hide AllAre;
    var left, right := [x] + own, own + [y];
    AllBefore(x, y, own, |own|);
    AllAt(own, x);
    assert left[|own|] == right[|own|] == y;
    assert left[|own|] == if own == [] then x else own[|own| - 1];
  }

  lemma {:induction false} AllBefore(x: Val, y: Val, own: seq<Val>, n: nat)
    requires [x] + own == own + [y] && n <= |own|
    ensures forall i | 0 <= i < n :: own[i] == x
  {
    if n > 0 {
      AllBefore(x, y, own, n - 1);
      var left, right := [x] + own, own + [y];
      assert left[n - 1] == right[n - 1] == own[n - 1];
      assert left[n - 1] == if n == 1 then x else own[n - 2];
    }
  }

  lemma Shifted(a: seq<Val>, e: seq<Val>, x: seq<Val>, y: seq<Val>, own: seq<Val>)
    requires |a| == |e| && |x| == |y| <= 1
    ensures |a + x + own| == |e + (own + y)|
    ensures a + x + own == e + (own + y) <==> a == e && (x != [] ==> x[0] == y[0] && AllAre(own, x[0]))
  {
    assert a + x + own == a + (x + own);
    if a + x + own == e + (own + y) {
      assert a == (a + (x + own))[..|a|] && e == (e + (own + y))[..|e|];
      assert x + own == (a + (x + own))[|a|..] && own + y == (e + (own + y))[|e|..];
    }
    if x != [] {
      assert x == [x[0]] && y == [y[0]];
      Rotated(x[0], y[0], own);
    } else {
      assert x + own == own && own + y == own;
    }
  }

  /** One kind, applied and explained: the entries stay as close as the kind lets them. */
  lemma KindTwin(env: Env, a: Option<RuleCfg>, e: Option<RuleCfg>, name: string, k: Kind)
    requires ListModes(env) && Twin(a, e) && ListValued(OwnRule(env, k))
    ensures var a', e' := AppliedKind(env, a, name, k), ExplainedKind(env, e, name, k);
      && Twin(a', e')
      && (ListsAgree(a', e') <==> ListsAgree(a, e) && KindMirrors(env, name, k))
      && (FlagsAgree(a', e') <==>
            if Declares(k) then OwnRule(env, k).Some? ==> OwnRule(env, k).value.enabled
            else OwnRule(env, k).Some? || FlagsAgree(a, e))
  {
    var own := OwnRule(env, k);
    if Declares(k) {
      KindLists(env, a, e, name, k);
      KindRest(env, a, e, name, k);
      KindFlags(env, a, e, name, k);
      hide Get, ListOf, ListAt, AppliedKind, ExplainedKind;
    } else {
      MergedTwin(env, a, e, own);
      hide Twin, Merged, ListAt;
      assert Declared(a, name, k, SchemaEntry(k)) == a && Declared(own, name, k, PlainEntry(k)) == own;
    }
  }

  lemma KindLists(env: Env, a: Option<RuleCfg>, e: Option<RuleCfg>, name: string, k: Kind)
    requires ListModes(env) && Twin(a, e) && ListValued(OwnRule(env, k))
    ensures var a', e' := AppliedKind(env, a, name, k), ExplainedKind(env, e, name, k);
      && ListValued(a') && ListValued(e')
      && |ListAt(a', SOURCES)| == |ListAt(e', SOURCES)| && |ListAt(a', PATTERNS)| == |ListAt(e', PATTERNS)|
      && (ListsAgree(a', e') <==> ListsAgree(a, e) && KindMirrors(env, name, k))
  {
    var own := OwnRule(env, k);
    var pushed, layer := Declared(a, name, k, SchemaEntry(k)), Declared(own, name, k, PlainEntry(k));
    DeclaredGet(a, name, k, SchemaEntry(k), SOURCES);
    DeclaredGet(own, name, k, PlainEntry(k), SOURCES);
    MergedList(env, pushed, own, SOURCES);
    MergedList(env, e, layer, SOURCES);
    MergedList(env, pushed, own, PATTERNS);
    MergedList(env, e, layer, PATTERNS);
    Shifted(ListAt(a, SOURCES), ListAt(e, SOURCES), SchemasOf(k, SchemaEntry(k)), SchemasOf(k, PlainEntry(k)), ListAt(own, SOURCES));
    Shifted(ListAt(a, PATTERNS), ListAt(e, PATTERNS), PathsOf(name, k), PathsOf(name, k), ListAt(own, PATTERNS));
    NamesFile(k);
    hide Get, ListOf, ListAt, Declared, Merged, PathEntry, SchemaEntry, PlainEntry, OwnRule, AllAre;
  }

  lemma NamesFile(k: Kind)
    ensures SchemaEntry(k) == PlainEntry(k) <==> k.schemaSource == ""
  {
    if k.schemaSource != "" { assert "source" in SchemaEntry(k).m && "source" !in PlainEntry(k).m; }
  }

  lemma KindRest(env: Env, a: Option<RuleCfg>, e: Option<RuleCfg>, name: string, k: Kind)
    requires ListModes(env) && Twin(a, e) && ListValued(OwnRule(env, k))
    ensures var a', e' := AppliedKind(env, a, name, k), ExplainedKind(env, e, name, k);
      && (a'.Some? <==> e'.Some?) && (Loaded(a') <==> Loaded(e'))
      && (forall key :: Get(a', key).Some? <==> Get(e', key).Some?)
      && (forall key :: !IsPushed(key) ==> Get(a', key) == Get(e', key))
  {
    var own := OwnRule(env, k);
    var pushed, layer := Declared(a, name, k, SchemaEntry(k)), Declared(own, name, k, PlainEntry(k));
    var a', e' := AppliedKind(env, a, name, k), ExplainedKind(env, e, name, k);
    MergedGet(env, pushed, own, SOURCES);
    MergedGet(env, e, layer, SOURCES);
    DeclaredGet(a, name, k, SchemaEntry(k), SOURCES);
    DeclaredGet(own, name, k, PlainEntry(k), SOURCES);
    hide Get, Declared, Loaded, ListAt, ListOf, Onto, PathEntry, SchemaEntry, PlainEntry, OwnRule, ListValued, ListModes, MergeVal;
    forall key ensures (Get(a', key).Some? <==> Get(e', key).Some?) && (!IsPushed(key) ==> Get(a', key) == Get(e', key)) {
      KindGet(env, a, e, name, k, key);
    }
  }

  lemma KindGet(env: Env, a: Option<RuleCfg>, e: Option<RuleCfg>, name: string, k: Kind, key: string)
    requires Twin(a, e) && ListValued(OwnRule(env, k))
    ensures var a', e' := AppliedKind(env, a, name, k), ExplainedKind(env, e, name, k);
      (Get(a', key).Some? <==> Get(e', key).Some?) && (!IsPushed(key) ==> Get(a', key) == Get(e', key))
  {
    var own := OwnRule(env, k);
    var pushed, layer := Declared(a, name, k, SchemaEntry(k)), Declared(own, name, k, PlainEntry(k));
    assert Get(a, key).Some? <==> Get(e, key).Some?;
    assert !IsPushed(key) ==> Get(a, key) == Get(e, key);
    assert ListValued(a);
    hide Twin;
    MergedGet(env, pushed, own, key);
    MergedGet(env, e, layer, key);
    DeclaredGet(a, name, k, SchemaEntry(k), key);
    DeclaredGet(own, name, k, PlainEntry(k), key);
    hide Get, Declared, Merged, PathEntry, SchemaEntry, PlainEntry, OwnRule, ListAt, ListOf, ListValued;
  }

  lemma KindFlags(env: Env, a: Option<RuleCfg>, e: Option<RuleCfg>, name: string, k: Kind)
    requires Declares(k) && ListValued(a) && ListValued(OwnRule(env, k))
    ensures FlagsAgree(AppliedKind(env, a, name, k), ExplainedKind(env, e, name, k)) <==>
            (OwnRule(env, k).Some? ==> OwnRule(env, k).value.enabled)
  {
    var own := OwnRule(env, k);
    DeclaredGet(a, name, k, SchemaEntry(k), SOURCES);
    DeclaredGet(own, name, k, PlainEntry(k), SOURCES);
    hide Declared, Get, ListAt, OwnRule, MergeMap;
  }

  // ----- All kinds -----

  lemma AppliedKindAt(env: Env, result: Rules, name: string, k: Kind)
    ensures At(ApplyLayer(env, Injected(result, name, k), k.rules), REQUIRED) == AppliedKind(env, At(result, REQUIRED), name, k)
  {
    hide Onto, Push, SchemaEntry, PathEntry, Translated;
    assert At(Injected(result, name, k), REQUIRED) == Declared(At(result, REQUIRED), name, k, SchemaEntry(k));
  }

  lemma ExplainedKindAt(env: Env, e: Option<RuleCfg>, name: string, k: Kind)
    ensures FinalFrom(env, REQUIRED, e, [Layer(FromKind(name), KindLayerRules(env, name, k))]) == ExplainedKind(env, e, name, k)
  {
    hide Onto, Push, PathEntry, Translated, FinalFrom;
    FinalOne(env, REQUIRED, e, Layer(FromKind(name), KindLayerRules(env, name, k)));
    assert At(KindLayerRules(env, name, k), REQUIRED) == Declared(OwnRule(env, k), name, k, PlainEntry(k));
  }

  predicate Mirrored(env: Env, cfg: Config, kinds: seq<string>)
  {
    forall name <- kinds :: name in cfg.kinds ==> KindMirrors(env, name, cfg.kinds[name])
  }

  /**
    The last kind that touches the rule declares a schema or a path pattern while its own settings
    disable the rule.
   */
  predicate LastDisables(env: Env, cfg: Config, kinds: seq<string>)
  {
    if kinds == [] then false
    else
      var name := kinds[|kinds| - 1];
      if name in cfg.kinds && Declares(cfg.kinds[name]) then
        OwnRule(env, cfg.kinds[name]).Some? && !OwnRule(env, cfg.kinds[name]).value.enabled
      else
        !(name in cfg.kinds && OwnRule(env, cfg.kinds[name]).Some?) && LastDisables(env, cfg, kinds[..|kinds| - 1])
  }

  lemma MirroredSnoc(env: Env, cfg: Config, kinds: seq<string>)
    requires kinds != []
    ensures var name := kinds[|kinds| - 1];
      Mirrored(env, cfg, kinds) <==>
      Mirrored(env, cfg, kinds[..|kinds| - 1]) && (name in cfg.kinds ==> KindMirrors(env, name, cfg.kinds[name]))
  {
    hide KindMirrors;
    var front := kinds[..|kinds| - 1];
    assert forall name <- kinds :: name == kinds[|kinds| - 1] || name in front;
  }

  ghost predicate KindsTyped(env: Env, cfg: Config)
  {
    forall name <- cfg.kinds :: ListValued(OwnRule(env, cfg.kinds[name]))
  }

  lemma TwinSelf(a: Option<RuleCfg>)
    requires ListValued(a)
    ensures Twin(a, a) && ListsAgree(a, a) && FlagsAgree(a, a)
  {
  }

  lemma {:induction false} KindsTwin(env: Env, cfg: Config, start: Rules, kinds: seq<string>)
    requires ListModes(env) && KindsTyped(env, cfg) && ListValued(At(start, REQUIRED))
    ensures var a := At(AfterKinds(env, cfg, start, kinds), REQUIRED);
      var e := FinalFrom(env, REQUIRED, At(start, REQUIRED), KindLayers(env, cfg, kinds));
      && Twin(a, e)
      && (ListsAgree(a, e) <==> Mirrored(env, cfg, kinds))
      && (FlagsAgree(a, e) <==> !LastDisables(env, cfg, kinds))
  {
    if kinds != [] {
      hide At, ApplyLayer, Injected, KindLayerRules, Twin, ListsAgree, FlagsAgree, ListValued, OwnRule, KindMirrors, Mirrored, Declares, ListModes;
      var name := kinds[|kinds| - 1];
      var front := kinds[..|kinds| - 1];
      var before := AfterKinds(env, cfg, start, front);
      var e := FinalFrom(env, REQUIRED, At(start, REQUIRED), KindLayers(env, cfg, front));
      KindsTwin(env, cfg, start, front);
      MirroredSnoc(env, cfg, kinds);
      if name in cfg.kinds {
        var k := cfg.kinds[name];
        AppliedKindAt(env, before, name, k);
        ExplainedKindAt(env, e, name, k);
        KindTwin(env, At(before, REQUIRED), e, name, k);
        FinalSnoc(env, REQUIRED, At(start, REQUIRED), KindLayers(env, cfg, front), Layer(FromKind(name), KindLayerRules(env, name, k)));
      } else {
        assert KindLayers(env, cfg, kinds) == KindLayers(env, cfg, front);
      }
      hide FinalFrom;
    } else {
      TwinSelf(At(start, REQUIRED));
      assert FinalFrom(env, REQUIRED, At(start, REQUIRED), []) == At(start, REQUIRED);
    }
  }

  // ----- All layers -----

  predicate LayerTyped(l: Layer)
  {
    ListValued(At(l.rules, REQUIRED))
  }

  predicate Touches(l: Layer)
  {
    REQUIRED in l.rules
  }

  lemma {:induction false} LayersTwin(env: Env, a: Option<RuleCfg>, e: Option<RuleCfg>, ls: seq<Layer>)
    requires ListModes(env) && Twin(a, e) && forall l <- ls :: LayerTyped(l)
    ensures var a', e' := FinalFrom(env, REQUIRED, a, ls), FinalFrom(env, REQUIRED, e, ls);
      && Twin(a', e')
      && (ListsAgree(a', e') <==> ListsAgree(a, e))
      && (FlagsAgree(a', e') <==> FlagsAgree(a, e) || exists l <- ls :: Touches(l))
  {
    if ls != [] {
      hide Twin, ListsAgree, FlagsAgree, ListValued, ListModes;
      var l := ls[|ls| - 1];
      var front := ls[..|ls| - 1];
      assert forall m <- ls :: m == l || m in front;
      assert l in ls && forall m <- front :: m in ls;
      LayersTwin(env, a, e, front);
      assert LayerTyped(l);
      MergedTwin(env, FinalFrom(env, REQUIRED, a, front), FinalFrom(env, REQUIRED, e, front), At(l.rules, REQUIRED));
      hide Onto;
    }
  }

  /** The rule's two lists are lists wherever they are set. */
  ghost predicate Typed(env: Env, cfg: Config, path: string)
  {
    && KindsTyped(env, cfg)
    && (forall l <- BaseLayers(env, cfg) :: LayerTyped(l))
    && (forall l <- OverrideLayers(env, cfg, path, |cfg.overrides|) :: LayerTyped(l))
  }

  predicate Overridden(env: Env, cfg: Config, path: string)
  {
    exists l <- OverrideLayers(env, cfg, path, |cfg.overrides|) :: Touches(l)
  }

  /**
    Every listed kind mirrors its schema and path pattern, and if the last of them leaves the rule
    disabled on one side only, a matching override sets it again.
   */
  predicate StructureMirrored(env: Env, cfg: Config, path: string, kinds: seq<string>)
  {
    Mirrored(env, cfg, kinds) && (LastDisables(env, cfg, kinds) ==> Overridden(env, cfg, path))
  }

  lemma StructureTwin(env: Env, cfg: Config, path: string, kinds: seq<string>)
    requires ListModes(env) && Typed(env, cfg, path) && (cfg.preset != map[] ==> cfg.convention != "")
    ensures var a := At(BeforeExpansion(env, cfg, path, kinds), REQUIRED);
      var e := FinalFrom(env, REQUIRED, None, Layers(env, cfg, path, kinds));
      && Twin(a, e)
      && (a == e <==> StructureMirrored(env, cfg, path, kinds))
  {
    var base := ApplyLayer(env, ApplyLayer(env, TranslatedAll(env, DefaultRules(cfg)), cfg.preset), UserRules(cfg));
    var os := OverrideLayers(env, cfg, path, |cfg.overrides|);
    assert ListModes(env) && KindsTyped(env, cfg);
    assert forall l <- BaseLayers(env, cfg) :: LayerTyped(l);
    assert forall l <- os :: LayerTyped(l);
    TwinSelf(None);
    LayersTwin(env, None, None, BaseLayers(env, cfg));
    BaseAt(env, cfg, REQUIRED);
    assert ListValued(At(base, REQUIRED));
    KindsTwin(env, cfg, base, kinds);
    var a, e := At(AfterKinds(env, cfg, base, kinds), REQUIRED), FinalFrom(env, REQUIRED, At(base, REQUIRED), KindLayers(env, cfg, kinds));
    LayersTwin(env, a, e, os);
    TwinsEqual(FinalFrom(env, REQUIRED, a, os), FinalFrom(env, REQUIRED, e, os));
    OverridesAt(env, cfg, path, REQUIRED, AfterKinds(env, cfg, base, kinds), |cfg.overrides|);
    FinalConcat(env, REQUIRED, None, BaseLayers(env, cfg), KindLayers(env, cfg, kinds));
    FinalConcat(env, REQUIRED, None, BaseLayers(env, cfg) + KindLayers(env, cfg, kinds), os);
    hide ApplyLayer, TranslatedAll, FinalFrom, At, BaseLayers, KindLayers, OverrideLayers, AfterKinds, AfterOverrides;
    hide Twin, ListsAgree, FlagsAgree, ListValued, Mirrored, LastDisables, LayerTyped, KindsTyped, ListModes;
  }

  /**
    MAIN: the explained structure rule is there exactly when the applied one is, and equals it exactly
    when its kinds are mirrored, the flag is set last by both, and no layer of the rule uses word lists.
   */
  lemma StructureRuleIff(env: Env, cfg: Config, path: string, kinds: seq<string>)
    requires ListModes(env) && Typed(env, cfg, path) && (cfg.preset != map[] ==> cfg.convention != "") && TargetsOk(env)
    ensures var final := FinalFrom(env, REQUIRED, None, Layers(env, cfg, path, kinds));
      var applied := EffectiveRules(env, cfg, path, kinds);
      && (REQUIRED in applied <==> final.Some?)
      && (REQUIRED in applied ==>
            (applied[REQUIRED] == final.value <==>
               StructureMirrored(env, cfg, path, kinds) && !exists l <- Layers(env, cfg, path, kinds) :: Sets(l, REQUIRED, LISTS)))
  {
    var merged := BeforeExpansion(env, cfg, path, kinds);
    var a, e := At(merged, REQUIRED), FinalFrom(env, REQUIRED, None, Layers(env, cfg, path, kinds));
    StructureTwin(env, cfg, path, kinds);
    FinalKeys(env, REQUIRED, Layers(env, cfg, path, kinds), LISTS);
    assert Get(a, LISTS).Some? <==> Get(e, LISTS).Some?;
    if a.Some? {
      ExpansionIff(env, REQUIRED, a.value);
      Stripped(env, a.value);
    }
    hide BeforeExpansion, Layers, FinalFrom, Expanded, Sets, Twin, StructureMirrored, ListModes, Typed;
  }

  lemma Stripped(env: Env, rc: RuleCfg)
    requires TargetsOk(env)
    ensures !HasKey(Some(Expanded(env, REQUIRED, rc)), LISTS)
  {
    assert env.target(REQUIRED) != Some(LISTS);
  }

  lemma {:induction false} UndeclaredMirrored(env: Env, cfg: Config, kinds: seq<string>)
    requires forall name <- kinds :: name in cfg.kinds ==> !Declares(cfg.kinds[name])
    ensures Mirrored(env, cfg, kinds) && !LastDisables(env, cfg, kinds)
  {
    if kinds != [] {
      var front := kinds[..|kinds| - 1];
      assert kinds[|kinds| - 1] in kinds && forall name <- front :: name in kinds;
      UndeclaredMirrored(env, cfg, front);
    }
  }

  /** Files whose kinds declare neither schema nor path pattern see one structure rule. */
  lemma UndeclaredAgree(env: Env, cfg: Config, path: string, kinds: seq<string>)
    requires ListModes(env) && Typed(env, cfg, path) && (cfg.preset != map[] ==> cfg.convention != "")
    requires forall name <- kinds :: name in cfg.kinds ==> !Declares(cfg.kinds[name])
    ensures At(BeforeExpansion(env, cfg, path, kinds), REQUIRED) == FinalFrom(env, REQUIRED, None, Layers(env, cfg, path, kinds))
  {
    StructureTwin(env, cfg, path, kinds);
    UndeclaredMirrored(env, cfg, kinds);
    hide BeforeExpansion, Layers, FinalFrom, Twin, Mirrored, LastDisables, ListModes, Typed;
  }

  /** A kind with a path pattern that turns the rule off itself, and nothing else. */
  predicate PatternOff(k: Kind)
  {
    k.schema == map[] && k.pathPattern != "" && k.rules == map[REQUIRED := RuleCfg(false, None)]
  }

  /** No schema is needed for the two to differ: the flag alone can. */
  lemma PatternOffDiffers(env: Env, name: string, k: Kind)
    requires ListModes(env) && TargetsOk(env) && PatternOff(k)
    ensures var final := FinalFrom(env, REQUIRED, None, Layers(env, OneKind(name, k), "", [name]));
      && REQUIRED in EffectiveRules(env, OneKind(name, k), "", [name]) && final.Some?
      && EffectiveRules(env, OneKind(name, k), "", [name])[REQUIRED] != final.value
  {
    var cfg := OneKind(name, k);
    assert OwnRule(env, k) == Some(RuleCfg(false, None));
    assert DefaultRules(cfg) == map[] && UserRules(cfg) == map[];
    assert OverrideLayers(env, cfg, "", 0) == [] && BaseLayers(env, cfg) == [];
    assert [name][..0] == [];
    assert LastDisables(env, cfg, [name]);
    StructureRuleIff(env, cfg, "", [name]);
    var l := Layer(FromKind(name), KindLayerRules(env, name, k));
    assert KindLayers(env, cfg, [name]) == [] + [l] by { assert KindLayers(env, cfg, []) == []; }
    assert Layers(env, cfg, "", [name]) == [l];
    FinalOne(env, REQUIRED, None, l);
    hide FinalFrom, Layers, EffectiveRules;
  }

}
