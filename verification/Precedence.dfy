/**
  Which layer decides a rule's flag or setting, read off the configuration itself: a matching override
  before a listed kind, a kind before the user's explicit rule, that before the convention, and the
  convention before a rule that is not explicit; among overrides and among kinds the later one.
 */
module Precedence {

  import opened Wrappers
  import opened Settings
  import opened ConfigLayers

  /** What a set of rules says about the flag of a rule, or about one of its settings. */
  function Says(env: Env, rules: Rules, name: string, leaf: Option<string>): Option<LeafValue>
  {
    if name in rules then LeafIn(Translated(env, name, rules[name]), leaf) else None
  }

  function OverrideSays(env: Env, cfg: Config, path: string, name: string, leaf: Option<string>, n: nat): Option<LeafValue>
    requires n <= |cfg.overrides|
  {
    if n == 0 then None
    else
      var o := cfg.overrides[n - 1];
      if env.matches(o.patterns, path) && Says(env, o.rules, name, leaf).Some? then Says(env, o.rules, name, leaf)
      else OverrideSays(env, cfg, path, name, leaf, n - 1)
  }

  function KindSays(env: Env, cfg: Config, kinds: seq<string>, name: string, leaf: Option<string>): Option<LeafValue>
  {
    if kinds == [] then None
    else
      var kind := kinds[|kinds| - 1];
      if kind in cfg.kinds && Says(env, cfg.kinds[kind].rules, name, leaf).Some? then Says(env, cfg.kinds[kind].rules, name, leaf)
      else KindSays(env, cfg, kinds[..|kinds| - 1], name, leaf)
  }

  /** An explicit rule of the user's, else the convention's, else the rule as it was when nobody set it. */
  function BaseSays(env: Env, cfg: Config, name: string, leaf: Option<string>): Option<LeafValue>
  {
    var own, preset := Says(env, cfg.rules, name, leaf), Says(env, cfg.preset, name, leaf);
    if own.Some? && name in cfg.explicit then own
    else if preset.Some? then preset
    else if name in cfg.explicit then None
    else own
  }

  function Decided(env: Env, cfg: Config, path: string, kinds: seq<string>, name: string, leaf: Option<string>): Option<LeafValue>
  {
    var byOverride := OverrideSays(env, cfg, path, name, leaf, |cfg.overrides|);
    var byKind := KindSays(env, cfg, kinds, name, leaf);
    if byOverride.Some? then byOverride else if byKind.Some? then byKind else BaseSays(env, cfg, name, leaf)
  }

  // ----- The newest layer that sets a leaf -----

  function Newest(name: string, ls: seq<Layer>, leaf: Option<string>): Option<LeafValue>
  {
    if ls == [] then None
    else
      var rules := ls[|ls| - 1].rules;
      if name in rules && LeafIn(rules[name], leaf).Some? then LeafIn(rules[name], leaf)
      else Newest(name, ls[..|ls| - 1], leaf)
  }

  lemma {:induction false} NewestIsLast(name: string, ls: seq<Layer>, leaf: Option<string>)
    ensures var c := LeafChain(leaf, ChainOf(name, ls)); Newest(name, ls, leaf) == if c == [] then None else Some(Last(c))
  {
    if ls != [] {
      NewestIsLast(name, ls[..|ls| - 1], leaf);
      LeafSnoc(name, ls, leaf);
      hide LeafIn, LeafChain, ChainOf;
    }
  }

  lemma {:induction false} NewestConcat(name: string, a: seq<Layer>, b: seq<Layer>, leaf: Option<string>)
    ensures Newest(name, a + b, leaf) == if Newest(name, b, leaf).Some? then Newest(name, b, leaf) else Newest(name, a, leaf)
  {
    hide LeafIn;
    if b == [] {
      assert a + b == a;
    } else {
      NewestConcat(name, a, b[..|b| - 1], leaf);
      assert (a + b)[..|a + b| - 1] == a + b[..|b| - 1];
    }
  }

  lemma NewestOne(env: Env, name: string, source: Source, rules: Rules, leaf: Option<string>, shown: bool)
    requires !shown ==> Says(env, rules, name, leaf).None?
    ensures Newest(name, if shown then [Layer(source, TranslatedAll(env, rules))] else [], leaf) == Says(env, rules, name, leaf)
  {
    hide LeafIn, Translated;
    var l := Layer(source, TranslatedAll(env, rules));
    assert [l][..0] == [];
    assert Newest(name, [], leaf) == None;
  }

  lemma {:induction false} NewestOverride(env: Env, cfg: Config, path: string, name: string, leaf: Option<string>, n: nat)
    requires n <= |cfg.overrides|
    ensures Newest(name, OverrideLayers(env, cfg, path, n), leaf) == OverrideSays(env, cfg, path, name, leaf, n)
  {
    if n > 0 {
      hide LeafIn, Translated;
      var o := cfg.overrides[n - 1];
      var before := OverrideLayers(env, cfg, path, n - 1);
      NewestOverride(env, cfg, path, name, leaf, n - 1);
      if env.matches(o.patterns, path) {
        NewestOne(env, name, FromOverride(n - 1), o.rules, leaf, true);
        NewestConcat(name, before, [Layer(FromOverride(n - 1), TranslatedAll(env, o.rules))], leaf);
      } else {
        assert before + [] == before;
      }
      hide Newest, Says;
    }
  }

  lemma KindLayerSays(env: Env, name: string, kindName: string, k: Kind, leaf: Option<string>)
    requires name != REQUIRED
    ensures Newest(name, [Layer(FromKind(kindName), KindLayerRules(env, kindName, k))], leaf) == Says(env, k.rules, name, leaf)
  {
    hide LeafIn, Translated, Push, PathEntry;
    var l := Layer(FromKind(kindName), KindLayerRules(env, kindName, k));
    assert [l][..0] == [];
    assert Newest(name, [], leaf) == None;
    assert name in l.rules <==> name in k.rules;
  }

  lemma {:induction false} NewestKind(env: Env, cfg: Config, kinds: seq<string>, name: string, leaf: Option<string>)
    requires name != REQUIRED
    ensures Newest(name, KindLayers(env, cfg, kinds), leaf) == KindSays(env, cfg, kinds, name, leaf)
  {
    if kinds != [] {
      hide LeafIn, Translated, KindLayerRules;
      var kind, front := kinds[|kinds| - 1], kinds[..|kinds| - 1];
      var before := KindLayers(env, cfg, front);
      NewestKind(env, cfg, front, name, leaf);
      if kind in cfg.kinds {
        KindLayerSays(env, name, kind, cfg.kinds[kind], leaf);
        NewestConcat(name, before, [Layer(FromKind(kind), KindLayerRules(env, kind, cfg.kinds[kind]))], leaf);
      } else {
        assert before + [] == before;
      }
      hide Newest, Says;
    }
  }

  lemma NewestBase(env: Env, cfg: Config, name: string, leaf: Option<string>)
    requires cfg.preset != map[] ==> cfg.convention != ""
    ensures Newest(name, BaseLayers(env, cfg), leaf) == BaseSays(env, cfg, name, leaf)
  {
    hide LeafIn, Translated, TranslatedAll, Newest;
    var a := if DefaultRules(cfg) != map[] then [Layer(FromDefault, TranslatedAll(env, DefaultRules(cfg)))] else [];
    var b := if cfg.convention != "" && cfg.preset != map[] then [Layer(FromConvention, TranslatedAll(env, cfg.preset))] else [];
    var c := if UserRules(cfg) != map[] then [Layer(FromUser, TranslatedAll(env, UserRules(cfg)))] else [];
    NewestOne(env, name, FromDefault, DefaultRules(cfg), leaf, DefaultRules(cfg) != map[]);
    NewestOne(env, name, FromConvention, cfg.preset, leaf, cfg.convention != "" && cfg.preset != map[]);
    NewestOne(env, name, FromUser, UserRules(cfg), leaf, UserRules(cfg) != map[]);
    NewestConcat(name, a + b, c, leaf);
    NewestConcat(name, a, b, leaf);
  }

  lemma NewestIsDecided(env: Env, cfg: Config, path: string, kinds: seq<string>, name: string, leaf: Option<string>)
    requires name != REQUIRED && (cfg.preset != map[] ==> cfg.convention != "")
    ensures Newest(name, Layers(env, cfg, path, kinds), leaf) == Decided(env, cfg, path, kinds, name, leaf)
  {
    hide Newest, BaseLayers, KindLayers, OverrideLayers, BaseSays, KindSays, OverrideSays;
    NewestBase(env, cfg, name, leaf);
    NewestKind(env, cfg, kinds, name, leaf);
    NewestOverride(env, cfg, path, name, leaf, |cfg.overrides|);
    NewestConcat(name, BaseLayers(env, cfg), KindLayers(env, cfg, kinds), leaf);
    NewestConcat(name, BaseLayers(env, cfg) + KindLayers(env, cfg, kinds), OverrideLayers(env, cfg, path, |cfg.overrides|), leaf);
  }

  // ----- The effective rules -----

  /** Word lists are expanded into the rule's target setting, and only there. */
  predicate Expandable(env: Env, name: string, leaf: Option<string>)
  {
    leaf.Some? && (leaf.value == LISTS || env.target(name) == leaf)
  }

  lemma ExpandedLeaf(env: Env, name: string, rc: RuleCfg, leaf: Option<string>)
    requires !Expandable(env, name, leaf)
    ensures LeafIn(Expanded(env, name, rc), leaf) == LeafIn(rc, leaf)
  {
  }

  lemma NoLayerSets(env: Env, name: string, ls: seq<Layer>, leaf: Option<string>)
    requires FinalFrom(env, name, None, ls).None?
    ensures Newest(name, ls, leaf).None?
  {
    NoChain(env, name, ls, leaf);
    NewestIsLast(name, ls, leaf);
  }

  /**
    MAIN: a flag or setting of a rule is there exactly if something in the configuration sets it, and is what the
    strongest says of it, where values are replaced as a whole.
   */
  lemma StrongestDecides(env: Env, cfg: Config, path: string, kinds: seq<string>, name: string, leaf: Option<string>)
    requires name != REQUIRED && (cfg.preset != map[] ==> cfg.convention != "") && !Expandable(env, name, leaf)
    ensures var v := Decided(env, cfg, path, kinds, name, leaf);
      var rules := EffectiveRules(env, cfg, path, kinds);
      && (v.None? <==> name !in rules || LeafIn(rules[name], leaf).None?)
      && (v.Some? && (leaf.Some? ==> v.value.Setting? && Replaced(env.modes(name), leaf.value, v.value.v)) ==>
            LeafIn(rules[name], leaf) == v)
  {
    var ls, merged := Layers(env, cfg, path, kinds), BeforeExpansion(env, cfg, path, kinds);
    hide BeforeExpansion, Layers, Expanded, LeafIn, Decided, FinalFrom, LeafChain, ChainOf, Newest;
    MergedIsFinal(env, cfg, path, kinds, name);
    NewestIsDecided(env, cfg, path, kinds, name, leaf);
    NewestIsLast(name, ls, leaf);
    if name in merged {
      ExpandedLeaf(env, name, merged[name], leaf);
      LeafWins(env, name, ls, leaf);
    } else {
      NoLayerSets(env, name, ls, leaf);
    }
  }

  // ----- Layer by layer -----

  predicate OverrideMentions(env: Env, cfg: Config, path: string, name: string, from: nat)
  {
    exists i | from <= i < |cfg.overrides| :: env.matches(cfg.overrides[i].patterns, path) && name in cfg.overrides[i].rules
  }

  predicate KindMentions(cfg: Config, kinds: seq<string>, name: string, from: nat)
  {
    exists i | from <= i < |kinds| :: kinds[i] in cfg.kinds && name in cfg.kinds[kinds[i]].rules
  }

  /** The effective rule has the flag of `rc` and its settings, as far as values are replaced and no word list goes into them. */
  ghost predicate Takes(env: Env, rules: Rules, name: string, rc: RuleCfg)
  {
    && name in rules && rules[name].enabled == rc.enabled
    && (rc.settings.Some? ==>
          forall key, v | key in env.translate(name, rc.settings.value) && v == env.translate(name, rc.settings.value)[key] &&
                          Replaced(env.modes(name), key, v) && !Expandable(env, name, Some(key)) ::
            rules[name].settings.Some? && key in rules[name].settings.value && rules[name].settings.value[key] == v)
  }

  lemma {:induction false} OverridesSilent(env: Env, cfg: Config, path: string, name: string, leaf: Option<string>, n: nat)
    requires n <= |cfg.overrides|
    requires forall i | 0 <= i < n :: !(env.matches(cfg.overrides[i].patterns, path) && name in cfg.overrides[i].rules)
    ensures OverrideSays(env, cfg, path, name, leaf, n) == None
  {
    if n > 0 { OverridesSilent(env, cfg, path, name, leaf, n - 1); }
  }

  lemma {:induction false} OverrideSpeaks(env: Env, cfg: Config, path: string, name: string, leaf: Option<string>, i: nat, n: nat)
    requires i < n <= |cfg.overrides| && env.matches(cfg.overrides[i].patterns, path) && Says(env, cfg.overrides[i].rules, name, leaf).Some?
    requires forall j | i < j < n :: !(env.matches(cfg.overrides[j].patterns, path) && name in cfg.overrides[j].rules)
    ensures OverrideSays(env, cfg, path, name, leaf, n) == Says(env, cfg.overrides[i].rules, name, leaf)
  {
    if i < n - 1 { OverrideSpeaks(env, cfg, path, name, leaf, i, n - 1); }
  }

  lemma {:induction false} KindsSilent(env: Env, cfg: Config, kinds: seq<string>, name: string, leaf: Option<string>)
    requires !KindMentions(cfg, kinds, name, 0)
    ensures KindSays(env, cfg, kinds, name, leaf) == None
  {
    if kinds != [] {
      var n := |kinds| - 1;
      assert !(kinds[n] in cfg.kinds && name in cfg.kinds[kinds[n]].rules);
      forall i | 0 <= i < n ensures !(kinds[..n][i] in cfg.kinds && name in cfg.kinds[kinds[..n][i]].rules) { assert kinds[..n][i] == kinds[i]; }
      KindsSilent(env, cfg, kinds[..n], name, leaf);
    }
  }

  lemma {:induction false} KindSpeaks(env: Env, cfg: Config, kinds: seq<string>, name: string, leaf: Option<string>, i: nat)
    requires i < |kinds| && kinds[i] in cfg.kinds && Says(env, cfg.kinds[kinds[i]].rules, name, leaf).Some?
    requires !KindMentions(cfg, kinds, name, i + 1)
    ensures KindSays(env, cfg, kinds, name, leaf) == Says(env, cfg.kinds[kinds[i]].rules, name, leaf)
  {
    var n := |kinds| - 1;
    if i < n {
      assert !(kinds[n] in cfg.kinds && name in cfg.kinds[kinds[n]].rules);
      forall j | i + 1 <= j < n ensures !(kinds[..n][j] in cfg.kinds && name in cfg.kinds[kinds[..n][j]].rules) { assert kinds[..n][j] == kinds[j]; }
      assert kinds[..n][i] == kinds[i];
      KindSpeaks(env, cfg, kinds[..n], name, leaf, i);
    }
  }

  /** If what decides each leaf of `rc` is `rc` itself, the effective rule takes it. */
  lemma DecidedIsTaken(env: Env, cfg: Config, path: string, kinds: seq<string>, name: string, layer: Rules)
    requires name != REQUIRED && (cfg.preset != map[] ==> cfg.convention != "") && name in layer
    requires forall leaf | Says(env, layer, name, leaf).Some? :: Decided(env, cfg, path, kinds, name, leaf) == Says(env, layer, name, leaf)
    ensures Takes(env, EffectiveRules(env, cfg, path, kinds), name, layer[name])
  {
    var rules, rc := EffectiveRules(env, cfg, path, kinds), layer[name];
    hide Decided, EffectiveRules;
    assert Says(env, layer, name, None) == Some(Flag(rc.enabled));
    StrongestDecides(env, cfg, path, kinds, name, None);
    assert LeafIn(rules[name], None) == Some(Flag(rules[name].enabled));
    if rc.settings.Some? {
      var settings := env.translate(name, rc.settings.value);
      forall key, v | key in settings && v == settings[key] && Replaced(env.modes(name), key, v) && !Expandable(env, name, Some(key))
        ensures rules[name].settings.Some? && key in rules[name].settings.value && rules[name].settings.value[key] == v
      {
        assert Says(env, layer, name, Some(key)) == Some(Setting(v));
        StrongestDecides(env, cfg, path, kinds, name, Some(key));
      }
    }
  }

  /** MAIN: the last matching override that mentions a rule wins over everything. */
  lemma OverrideWins(env: Env, cfg: Config, path: string, kinds: seq<string>, name: string, i: nat)
    requires name != REQUIRED && (cfg.preset != map[] ==> cfg.convention != "")
    requires i < |cfg.overrides| && env.matches(cfg.overrides[i].patterns, path) && name in cfg.overrides[i].rules
    requires !OverrideMentions(env, cfg, path, name, i + 1)
    ensures Takes(env, EffectiveRules(env, cfg, path, kinds), name, cfg.overrides[i].rules[name])
  {
    hide Says, Takes, OverrideSays, EffectiveRules;
    forall leaf | Says(env, cfg.overrides[i].rules, name, leaf).Some?
      ensures Decided(env, cfg, path, kinds, name, leaf) == Says(env, cfg.overrides[i].rules, name, leaf)
    {
      OverrideSpeaks(env, cfg, path, name, leaf, i, |cfg.overrides|);
    }
    DecidedIsTaken(env, cfg, path, kinds, name, cfg.overrides[i].rules);
  }

  /** MAIN: the last listed kind that mentions a rule wins over the user's rules, the convention and the defaults. */
  lemma KindWins(env: Env, cfg: Config, path: string, kinds: seq<string>, name: string, i: nat)
    requires name != REQUIRED && (cfg.preset != map[] ==> cfg.convention != "")
    requires i < |kinds| && kinds[i] in cfg.kinds && name in cfg.kinds[kinds[i]].rules
    requires !KindMentions(cfg, kinds, name, i + 1) && !OverrideMentions(env, cfg, path, name, 0)
    ensures Takes(env, EffectiveRules(env, cfg, path, kinds), name, cfg.kinds[kinds[i]].rules[name])
  {
    hide Says, Takes, EffectiveRules, KindMentions;
    forall leaf | Says(env, cfg.kinds[kinds[i]].rules, name, leaf).Some?
      ensures Decided(env, cfg, path, kinds, name, leaf) == Says(env, cfg.kinds[kinds[i]].rules, name, leaf)
    {
      OverridesSilent(env, cfg, path, name, leaf, |cfg.overrides|);
      KindSpeaks(env, cfg, kinds, name, leaf, i);
    }
    DecidedIsTaken(env, cfg, path, kinds, name, cfg.kinds[kinds[i]].rules);
  }

  /** No kind or override of the file mentions the rule. */
  predicate OnlyBase(env: Env, cfg: Config, path: string, kinds: seq<string>, name: string)
  {
    !KindMentions(cfg, kinds, name, 0) && !OverrideMentions(env, cfg, path, name, 0)
  }

  lemma BaseDecides(env: Env, cfg: Config, path: string, kinds: seq<string>, name: string, leaf: Option<string>)
    requires OnlyBase(env, cfg, path, kinds, name)
    ensures Decided(env, cfg, path, kinds, name, leaf) == BaseSays(env, cfg, name, leaf)
  {
    hide KindMentions, BaseSays;
    OverridesSilent(env, cfg, path, name, leaf, |cfg.overrides|);
    KindsSilent(env, cfg, kinds, name, leaf);
  }

  /** MAIN: a rule the user set explicitly wins over the convention. */
  lemma ExplicitWins(env: Env, cfg: Config, path: string, kinds: seq<string>, name: string)
    requires name != REQUIRED && (cfg.preset != map[] ==> cfg.convention != "") && OnlyBase(env, cfg, path, kinds, name)
    requires name in cfg.rules && name in cfg.explicit
    ensures Takes(env, EffectiveRules(env, cfg, path, kinds), name, cfg.rules[name])
  {
    hide Says, Takes, EffectiveRules, Decided, OnlyBase;
    forall leaf | Says(env, cfg.rules, name, leaf).Some?
      ensures Decided(env, cfg, path, kinds, name, leaf) == Says(env, cfg.rules, name, leaf)
    {
      BaseDecides(env, cfg, path, kinds, name, leaf);
    }
    DecidedIsTaken(env, cfg, path, kinds, name, cfg.rules);
  }

  /** MAIN: the convention wins over a rule that is not explicit. */
  lemma ConventionWins(env: Env, cfg: Config, path: string, kinds: seq<string>, name: string)
    requires name != REQUIRED && cfg.convention != "" && OnlyBase(env, cfg, path, kinds, name)
    requires name in cfg.preset && !(name in cfg.rules && name in cfg.explicit)
    ensures Takes(env, EffectiveRules(env, cfg, path, kinds), name, cfg.preset[name])
  {
    assert forall leaf :: Says(env, cfg.rules, name, leaf).Some? ==> name in cfg.rules;
    hide Says, Takes, EffectiveRules, Decided, OnlyBase;
    forall leaf | Says(env, cfg.preset, name, leaf).Some?
      ensures Decided(env, cfg, path, kinds, name, leaf) == Says(env, cfg.preset, name, leaf)
    {
      BaseDecides(env, cfg, path, kinds, name, leaf);
    }
    DecidedIsTaken(env, cfg, path, kinds, name, cfg.preset);
  }

  /** MAIN: a rule nobody else mentions is as it was configured, explicit or not. */
  lemma RuleStands(env: Env, cfg: Config, path: string, kinds: seq<string>, name: string)
    requires name != REQUIRED && (cfg.preset != map[] ==> cfg.convention != "") && OnlyBase(env, cfg, path, kinds, name)
    requires name in cfg.rules && name !in cfg.preset
    ensures Takes(env, EffectiveRules(env, cfg, path, kinds), name, cfg.rules[name])
  {
    assert forall leaf :: Says(env, cfg.preset, name, leaf).None?;
    hide Says, Takes, EffectiveRules, Decided, OnlyBase;
    forall leaf | Says(env, cfg.rules, name, leaf).Some?
      ensures Decided(env, cfg, path, kinds, name, leaf) == Says(env, cfg.rules, name, leaf)
    {
      BaseDecides(env, cfg, path, kinds, name, leaf);
    }
    DecidedIsTaken(env, cfg, path, kinds, name, cfg.rules);
  }

  lemma {:induction false} KindsMention(env: Env, cfg: Config, kinds: seq<string>, name: string)
    ensures KindSays(env, cfg, kinds, name, None).Some? <==> KindMentions(cfg, kinds, name, 0)
  {
    if KindMentions(cfg, kinds, name, 0) {
      var n := |kinds| - 1;
      if !(kinds[n] in cfg.kinds && name in cfg.kinds[kinds[n]].rules) {
        var i :| 0 <= i < |kinds| && kinds[i] in cfg.kinds && name in cfg.kinds[kinds[i]].rules;
        assert kinds[..n][i] == kinds[i];
        KindsMention(env, cfg, kinds[..n], name);
      }
    } else {
      KindsSilent(env, cfg, kinds, name, None);
    }
  }

  lemma {:induction false} OverridesMention(env: Env, cfg: Config, path: string, name: string, n: nat)
    requires n <= |cfg.overrides|
    ensures OverrideSays(env, cfg, path, name, None, n).Some? <==>
            exists i | 0 <= i < n :: env.matches(cfg.overrides[i].patterns, path) && name in cfg.overrides[i].rules
  {
    if n > 0 { OverridesMention(env, cfg, path, name, n - 1); }
  }

  /** MAIN: effective are exactly the rules that the user, the convention, a listed kind or a matching override mentions. */
  lemma EffectiveNames(env: Env, cfg: Config, path: string, kinds: seq<string>, name: string)
    requires name != REQUIRED && (cfg.preset != map[] ==> cfg.convention != "")
    ensures name in EffectiveRules(env, cfg, path, kinds) <==>
            name in cfg.rules || name in cfg.preset || KindMentions(cfg, kinds, name, 0) || OverrideMentions(env, cfg, path, name, 0)
  {
    hide EffectiveRules, OverrideSays, KindSays;
    StrongestDecides(env, cfg, path, kinds, name, None);
    KindsMention(env, cfg, kinds, name);
    OverridesMention(env, cfg, path, name, |cfg.overrides|);
  }

  // ----- Categories -----

  function OverrideCategory(env: Env, cfg: Config, path: string, c: string, n: nat): Option<bool>
    requires n <= |cfg.overrides|
  {
    if n == 0 then None
    else if env.matches(cfg.overrides[n - 1].patterns, path) && c in cfg.overrides[n - 1].categories then
      Some(cfg.overrides[n - 1].categories[c])
    else OverrideCategory(env, cfg, path, c, n - 1)
  }

  function KindCategory(cfg: Config, kinds: seq<string>, c: string): Option<bool>
  {
    if kinds == [] then None
    else
      var kind := kinds[|kinds| - 1];
      if kind in cfg.kinds && c in cfg.kinds[kind].categories then Some(cfg.kinds[kind].categories[c])
      else KindCategory(cfg, kinds[..|kinds| - 1], c)
  }

  function CategoryDecided(env: Env, cfg: Config, path: string, kinds: seq<string>, c: string): Option<bool>
  {
    var byOverride, byKind := OverrideCategory(env, cfg, path, c, |cfg.overrides|), KindCategory(cfg, kinds, c);
    if byOverride.Some? then byOverride else if byKind.Some? then byKind
    else if c in cfg.categories then Some(cfg.categories[c]) else None
  }

  function SwitchOf(m: map<string, bool>, c: string): Option<bool>
  {
    if c in m then Some(m[c]) else None
  }

  lemma WithinSnoc(cfg: Config, kinds: seq<string>)
    requires kinds != []
    ensures var kind, front, all := kinds[|kinds| - 1], KindsWithin(cfg, kinds[..|kinds| - 1]), KindsWithin(cfg, kinds);
      if kind in cfg.kinds then all != [] && all[..|all| - 1] == front && all[|all| - 1] == cfg.kinds[kind] else all == front
  {
    var front := KindsWithin(cfg, kinds[..|kinds| - 1]);
    assert front + [] == front;
  }

  lemma {:induction false} KindsSwitch(cfg: Config, kinds: seq<string>, start: map<string, bool>, c: string)
    ensures SwitchOf(CategoriesOf(KindsWithin(cfg, kinds), start), c) ==
            if KindCategory(cfg, kinds, c).Some? then KindCategory(cfg, kinds, c) else SwitchOf(start, c)
  {
    if kinds != [] {
      hide KindsWithin;
      KindsSwitch(cfg, kinds[..|kinds| - 1], start, c);
      WithinSnoc(cfg, kinds);
    }
  }

  lemma {:induction false} OverridesSwitch(env: Env, cfg: Config, path: string, start: map<string, bool>, c: string, n: nat)
    requires n <= |cfg.overrides|
    ensures SwitchOf(OverrideCategories(MatchingOverrides(env, cfg, path, n), start), c) ==
            if OverrideCategory(env, cfg, path, c, n).Some? then OverrideCategory(env, cfg, path, c, n) else SwitchOf(start, c)
  {
    if n > 0 {
      var front := MatchingOverrides(env, cfg, path, n - 1);
      OverridesSwitch(env, cfg, path, start, c, n - 1);
      var all := MatchingOverrides(env, cfg, path, n);
      if env.matches(cfg.overrides[n - 1].patterns, path) { assert all[..|all| - 1] == front; } else { assert front + [] == front; }
    }
  }

  /** MAIN: a category is switched by the strongest that mentions it; one nobody mentions is on if it is a valid one. */
  lemma StrongestSwitches(env: Env, cfg: Config, valid: set<string>, path: string, kinds: seq<string>, c: string)
    ensures var v, m := CategoryDecided(env, cfg, path, kinds, c), EffectiveCategories(env, cfg, valid, path, kinds);
      && (c in m <==> v.Some? || c in valid)
      && (c in m ==> m[c] == if v.Some? then v.value else true)
  {
    hide CategoriesOf, KindsWithin, OverrideCategories, MatchingOverrides, OverrideCategory, KindCategory;
    var base := (map k | k in valid :: true) + cfg.categories;
    var byKinds := CategoriesOf(KindsWithin(cfg, kinds), base);
    KindsSwitch(cfg, kinds, base, c);
    OverridesSwitch(env, cfg, path, byKinds, c, |cfg.overrides|);
    assert SwitchOf(EffectiveCategories(env, cfg, valid, path, kinds), c) ==
           if CategoryDecided(env, cfg, path, kinds, c).Some? then CategoryDecided(env, cfg, path, kinds, c)
           else if c in valid then Some(true) else None;
  }

  // ----- Explicit rules -----

  /** A listed kind mentions the rule, or brings the structure rule by a schema or path pattern of its own. */
  predicate KindBrings(cfg: Config, kind: string, name: string)
  {
    kind in cfg.kinds && var k := cfg.kinds[kind];
    name in k.rules || (name == REQUIRED && (k.ownSchema != map[] || k.pathPattern != ""))
  }

  lemma {:induction false} KindsBring(cfg: Config, kinds: seq<string>, start: set<string>, name: string)
    ensures name in ExplicitOf(KindsWithin(cfg, kinds), start) <==> name in start || exists kind <- kinds :: KindBrings(cfg, kind, name)
  {
    if kinds != [] {
      var n := |kinds| - 1;
      hide KindsWithin;
      KindsBring(cfg, kinds[..n], start, name);
      WithinSnoc(cfg, kinds);
      assert kinds == kinds[..n] + [kinds[n]];
      var before := ExplicitOf(KindsWithin(cfg, kinds[..n]), start);
      assert name in ExplicitOf(KindsWithin(cfg, kinds), start) <==> name in before || KindBrings(cfg, kinds[n], name);
    }
  }

  lemma {:induction false} OverridesBring(env: Env, cfg: Config, path: string, start: set<string>, name: string, n: nat)
    requires n <= |cfg.overrides|
    ensures name in OverrideExplicit(MatchingOverrides(env, cfg, path, n), start) <==>
            name in start || exists i | 0 <= i < n :: env.matches(cfg.overrides[i].patterns, path) && name in cfg.overrides[i].rules
  {
    if n > 0 {
      var front := MatchingOverrides(env, cfg, path, n - 1);
      OverridesBring(env, cfg, path, start, name, n - 1);
      var all := MatchingOverrides(env, cfg, path, n);
      if env.matches(cfg.overrides[n - 1].patterns, path) { assert all[..|all| - 1] == front; } else { assert front + [] == front; }
    }
  }

  /** MAIN: explicit are the user's explicit rules and those a listed kind or a matching override mentions. */
  lemma ExplicitIff(env: Env, cfg: Config, path: string, kinds: seq<string>, name: string)
    ensures name in EffectiveExplicit(env, cfg, path, kinds) <==>
            name in cfg.explicit || (exists kind <- kinds :: KindBrings(cfg, kind, name)) || OverrideMentions(env, cfg, path, name, 0)
  {
    hide ExplicitOf, KindsWithin, OverrideExplicit, MatchingOverrides, KindBrings;
    KindsBring(cfg, kinds, cfg.explicit, name);
    OverridesBring(env, cfg, path, ExplicitOf(KindsWithin(cfg, kinds), cfg.explicit), name, |cfg.overrides|);
  }

}
