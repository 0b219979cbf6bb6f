/**
  The configuration a file ends up with: defaults, convention, user rules, kinds and overrides merged
  rule by rule. Computed once to be applied and once more, layer by layer, to be explained.
 */
module ConfigLayers {

  import opened Wrappers
  import opened Settings

  type Rules = map<string, RuleCfg>

  /** A kind; `schema` is its schema after following `extends`, `ownSchema` the block written in it. */
  datatype Kind = Kind(rules: Rules, categories: map<string, bool>, ownSchema: map<string, Val>, schema: map<string, Val>,
                       schemaSource: string, pathPattern: string)

  datatype Override = Override(patterns: seq<string>, rules: Rules, categories: map<string, bool>)

  datatype Assignment = Assignment(patterns: seq<string>, fields: seq<string>, kinds: seq<string>)

  datatype Config = Config(rules: Rules, explicit: set<string>, categories: map<string, bool>, convention: string, preset: Rules,
                           kinds: map<string, Kind>, overrides: seq<Override>, assignments: seq<Assignment>)

  /** What the rules and the glob matcher contribute. */
  datatype Env = Env(matches: (seq<string>, string) -> bool,
                     translate: (string, map<string, Val>) -> map<string, Val>,
                     modes: string -> Modes,
                     target: string -> Option<string>,
                     expand: (Val, Option<Val>) -> Option<Val>)

  const REQUIRED := "required-structure"

  // ----- Kinds -----

  datatype KindSource = FrontMatter | Assigned(i: nat)

  datatype KindPick = KindPick(name: string, source: KindSource)

  /** An entry without selectors matches nothing; several selectors must all match. */
  predicate EntryMatches(env: Env, e: Assignment, path: string, fields: set<string>)
  {
    && (e.patterns != [] || e.fields != [])
    && (e.patterns != [] ==> env.matches(e.patterns, path))
    && (forall f <- e.fields :: f in fields)
  }

  function Picks(names: seq<string>, source: KindSource): seq<KindPick>
  {
    seq(|names|, i requires 0 <= i < |names| => KindPick(names[i], source))
  }

  /** Every kind named for the file, front matter first, then the matching assignments in order. */
  function AllPicks(env: Env, cfg: Config, path: string, fm: seq<string>, fields: set<string>, n: nat): seq<KindPick>
    requires n <= |cfg.assignments|
  {
    if n == 0 then Picks(fm, FrontMatter)
    else
      var e := cfg.assignments[n - 1];
      AllPicks(env, cfg, path, fm, fields, n - 1) + (if EntryMatches(env, e, path, fields) then Picks(e.kinds, Assigned(n - 1)) else [])
  }

  function Names(ps: seq<KindPick>): seq<string>
  {
    seq(|ps|, i requires 0 <= i < |ps| => ps[i].name)
  }

  /** The first pick of every name. */
  function FirstPicks(ps: seq<KindPick>): seq<KindPick>
  {
    if ps == [] then []
    else
      var n := |ps| - 1;
      var front := FirstPicks(ps[..n]);
      if ps[n].name in Names(front) then front else front + [ps[n]]
  }

  function ResolvedKinds(env: Env, cfg: Config, path: string, fm: seq<string>, fields: set<string>): seq<KindPick>
  {
    FirstPicks(AllPicks(env, cfg, path, fm, fields, |cfg.assignments|))
  }

  lemma FirstPicksSnoc(ps: seq<KindPick>, p: KindPick)
    ensures FirstPicks(ps + [p]) == if p.name in Names(FirstPicks(ps)) then FirstPicks(ps) else FirstPicks(ps) + [p]
  {
    assert (ps + [p])[..|ps|] == ps;
  }

  lemma NamesSnoc(ps: seq<KindPick>, p: KindPick)
    ensures Names(ps + [p]) == Names(ps) + [p.name]
  {
  }

  /** The places of the picks that no earlier pick has the name of. */
  predicate IsFirst(ps: seq<KindPick>, i: nat)
    requires i < |ps|
  {
    forall j | 0 <= j < i :: ps[j].name != ps[i].name
  }

  /** The picks at those of the first `n` places, in order. */
  function FirstAt(ps: seq<KindPick>, n: nat): seq<KindPick>
    requires n <= |ps|
  {
    if n == 0 then [] else FirstAt(ps, n - 1) + (if IsFirst(ps, n - 1) then [ps[n - 1]] else [])
  }

  lemma {:induction false} NamesOfFirst(ps: seq<KindPick>, n: nat, name: string)
    requires n <= |ps|
    ensures name in Names(FirstAt(ps, n)) <==> exists i | 0 <= i < n :: ps[i].name == name
  {
    if n > 0 {
      NamesOfFirst(ps, n - 1, name);
      if IsFirst(ps, n - 1) {
        NamesSnoc(FirstAt(ps, n - 1), ps[n - 1]);
      } else {
        assert FirstAt(ps, n) == FirstAt(ps, n - 1);
        var j :| 0 <= j < n - 1 && ps[j].name == ps[n - 1].name;
      }
    }
  }

  lemma {:induction false} FirstAtPrefix(ps: seq<KindPick>, m: nat, n: nat)
    requires n <= m <= |ps|
    ensures FirstAt(ps[..m], n) == FirstAt(ps, n)
  {
    if n > 0 {
      FirstAtPrefix(ps, m, n - 1);
      assert IsFirst(ps[..m], n - 1) <==> IsFirst(ps, n - 1);
    }
  }

  /** MAIN: exactly the first pick of every name is kept, in the order picked. */
  lemma {:induction false} FirstPicksAreFirst(ps: seq<KindPick>)
    ensures FirstPicks(ps) == FirstAt(ps, |ps|)
  {
    if ps != [] {
      var n := |ps| - 1;
      FirstPicksAreFirst(ps[..n]);
      FirstAtPrefix(ps, n, n);
      NamesOfFirst(ps, n, ps[n].name);
    }
  }

  /** MAIN: each name once, and every name that was picked. */
  lemma {:induction false} FirstPicksDistinct(ps: seq<KindPick>)
    ensures forall i, j | 0 <= i < j < |FirstPicks(ps)| :: FirstPicks(ps)[i].name != FirstPicks(ps)[j].name
    ensures forall p <- ps :: p.name in Names(FirstPicks(ps))
    ensures forall p <- FirstPicks(ps) :: p in ps
  {
    if ps != [] {
      var n := |ps| - 1;
      var front := FirstPicks(ps[..n]);
      FirstPicksDistinct(ps[..n]);
      assert ps == ps[..n] + [ps[n]];
      NamesSnoc(front, ps[n]);
      if ps[n].name !in Names(front) {
        forall i | 0 <= i < |front| ensures front[i].name != ps[n].name { assert Names(front)[i] == front[i].name; }
      }
    }
  }

  lemma PickAt(names: seq<string>, source: KindSource, p: KindPick)
    ensures p in Picks(names, source) <==> p.source == source && p.name in names
  {
    if p.source == source && p.name in names {
      var i :| 0 <= i < |names| && names[i] == p.name;
      assert Picks(names, source)[i] == p;
    }
  }

  /** Assignment i names the kind for the file: some selector, its patterns match and the file has all its fields. */
  predicate Assigns(env: Env, cfg: Config, path: string, fields: set<string>, i: nat, kind: string)
  {
    i < |cfg.assignments| && var e := cfg.assignments[i];
    && kind in e.kinds && |e.patterns| + |e.fields| > 0
    && (e.patterns == [] || env.matches(e.patterns, path)) && (set f | f in e.fields) <= fields
  }

  lemma {:induction false} PickedBefore(env: Env, cfg: Config, path: string, fm: seq<string>, fields: set<string>, n: nat, p: KindPick)
    requires n <= |cfg.assignments|
    ensures p in AllPicks(env, cfg, path, fm, fields, n) <==>
            match p.source
            case FrontMatter => p.name in fm
            case Assigned(i) => i < n && Assigns(env, cfg, path, fields, i, p.name)
  {
    if n == 0 {
      PickAt(fm, FrontMatter, p);
    } else {
      var e := cfg.assignments[n - 1];
      PickedBefore(env, cfg, path, fm, fields, n - 1, p);
      PickAt(e.kinds, Assigned(n - 1), p);
      assert (set f | f in e.fields) <= fields <==> forall f <- e.fields :: f in fields;
    }
  }

  /** MAIN: a kind applies to a file exactly if its front matter or some assignment that selects the file names it. */
  lemma KindAppliesIff(env: Env, cfg: Config, path: string, fm: seq<string>, fields: set<string>, kind: string)
    ensures kind in Names(FirstPicks(AllPicks(env, cfg, path, fm, fields, |cfg.assignments|))) <==>
            kind in fm || exists i: nat :: Assigns(env, cfg, path, fields, i, kind)
  {
    hide FirstPicks, AllPicks, Assigns;
    var all := AllPicks(env, cfg, path, fm, fields, |cfg.assignments|);
    FirstPicksDistinct(all);
    if kind in Names(FirstPicks(all)) {
      var k :| 0 <= k < |FirstPicks(all)| && Names(FirstPicks(all))[k] == kind;
      assert FirstPicks(all)[k] in FirstPicks(all);
      PickedBefore(env, cfg, path, fm, fields, |cfg.assignments|, FirstPicks(all)[k]);
    }
    if kind in fm { PickedBefore(env, cfg, path, fm, fields, |cfg.assignments|, KindPick(kind, FrontMatter)); }
    forall i: nat | Assigns(env, cfg, path, fields, i, kind) ensures kind in Names(FirstPicks(all)) {
      InRange(env, cfg, path, fields, i, kind);
      PickedBefore(env, cfg, path, fm, fields, |cfg.assignments|, KindPick(kind, Assigned(i)));
    }
  }

  lemma InRange(env: Env, cfg: Config, path: string, fields: set<string>, i: nat, kind: string)
    requires Assigns(env, cfg, path, fields, i, kind)
    ensures i < |cfg.assignments|
  {
  }

  function NameSet(ps: seq<KindPick>): set<string>
  {
    set k | k in Names(ps)
  }

  lemma NameSetSnoc(ps: seq<KindPick>, p: KindPick)
    ensures NameSet(ps + [p]) == NameSet(ps) + {p.name}
    ensures p.name in NameSet(ps) <==> p.name in Names(ps)
  {
    NamesSnoc(ps, p);
  }

  lemma PicksSnoc(all: seq<KindPick>, names: seq<string>, source: KindSource, i: nat)
    requires i < |names|
    ensures all + Picks(names[..i + 1], source) == all + Picks(names[..i], source) + [KindPick(names[i], source)]
  {
  }

  lemma PicksEnds(all: seq<KindPick>, names: seq<string>, source: KindSource)
    ensures all + Picks(names[..0], source) == all && names[..|names|] == names
  {
  }

  /** Adds the names of one source; `seen` are the names already there. */
  method AddKinds(before: seq<KindPick>, ghost all: seq<KindPick>, seen: set<string>, names: seq<string>, source: KindSource)
    returns (result: seq<KindPick>, known: set<string>)
    requires before == FirstPicks(all) && seen == NameSet(before)
    ensures result == FirstPicks(all + Picks(names, source)) && known == NameSet(result)
  {
    hide *;
    result, known := before, seen;
    PicksEnds(all, names, source);
    for i := 0 to |names|
      invariant result == FirstPicks(all + Picks(names[..i], source)) && known == NameSet(result)
    {
      var p := KindPick(names[i], source);
      PicksSnoc(all, names, source, i);
      FirstPicksSnoc(all + Picks(names[..i], source), p);
      NameSetSnoc(result, p);
      if names[i] !in known {
        known := known + {names[i]};
        result := result + [p];
      }
    }
  }

  lemma AllPicksStep(env: Env, cfg: Config, path: string, fm: seq<string>, fields: set<string>, n: nat)
    requires n < |cfg.assignments|
    ensures EntryMatches(env, cfg.assignments[n], path, fields) ==>
              AllPicks(env, cfg, path, fm, fields, n + 1) == AllPicks(env, cfg, path, fm, fields, n) + Picks(cfg.assignments[n].kinds, Assigned(n))
    ensures !EntryMatches(env, cfg.assignments[n], path, fields) ==>
              AllPicks(env, cfg, path, fm, fields, n + 1) == AllPicks(env, cfg, path, fm, fields, n)
  {
    hide EntryMatches, Picks;
  }

  lemma PicksStart(env: Env, cfg: Config, path: string, fm: seq<string>, fields: set<string>)
    ensures FirstPicks([]) == [] && NameSet([]) == {} && Names([]) == []
    ensures [] + Picks(fm, FrontMatter) == AllPicks(env, cfg, path, fm, fields, 0)
  {
  }

  /** The resolver behind the explanation: kinds with where each came from. */
  method ResolveKindsWithSources(env: Env, cfg: Config, path: string, fm: seq<string>, fields: set<string>)
    returns (result: seq<KindPick>)
    ensures result == ResolvedKinds(env, cfg, path, fm, fields)
  {
    hide FirstPicks, Picks, NameSet, Names, AllPicks;
    var seen: set<string>;
    PicksStart(env, cfg, path, fm, fields);
    result, seen := AddKinds([], [], {}, fm, FrontMatter);
    for n := 0 to |cfg.assignments|
      invariant result == FirstPicks(AllPicks(env, cfg, path, fm, fields, n)) && seen == NameSet(result)
    {
      hide *;
      AllPicksStep(env, cfg, path, fm, fields, n);
      var e := cfg.assignments[n];
      if !EntryMatches(env, e, path, fields) { continue; }
      result, seen := AddKinds(result, AllPicks(env, cfg, path, fm, fields, n), seen, e.kinds, Assigned(n));
    }
  }

  method AddNames(before: seq<string>, ghost all: seq<KindPick>, seen: set<string>, names: seq<string>, ghost source: KindSource)
    returns (result: seq<string>, known: set<string>)
    requires before == Names(FirstPicks(all)) && seen == NameSet(FirstPicks(all))
    ensures result == Names(FirstPicks(all + Picks(names, source))) && known == NameSet(FirstPicks(all + Picks(names, source)))
  {
    hide *;
    result, known := before, seen;
    PicksEnds(all, names, source);
    for i := 0 to |names|
      invariant result == Names(FirstPicks(all + Picks(names[..i], source)))
      invariant known == NameSet(FirstPicks(all + Picks(names[..i], source)))
    {
      ghost var p := KindPick(names[i], source);
      ghost var done := FirstPicks(all + Picks(names[..i], source));
      PicksSnoc(all, names, source, i);
      FirstPicksSnoc(all + Picks(names[..i], source), p);
      NameSetSnoc(done, p);
      NamesSnoc(done, p);
      if names[i] !in known {
        known := known + {names[i]};
        result := result + [names[i]];
      }
    }
  }

  /** The resolver behind the applied configuration: the same kinds in the same order, names only. */
  method ResolveEffectiveKinds(env: Env, cfg: Config, path: string, fm: seq<string>, fields: set<string>)
    returns (result: seq<string>)
    ensures result == Names(ResolvedKinds(env, cfg, path, fm, fields))
  {
    hide FirstPicks, Picks, NameSet, Names, AllPicks;
    var seen: set<string>;
    PicksStart(env, cfg, path, fm, fields);
    result, seen := AddNames([], [], {}, fm, FrontMatter);
    for n := 0 to |cfg.assignments|
      invariant result == Names(FirstPicks(AllPicks(env, cfg, path, fm, fields, n)))
      invariant seen == NameSet(FirstPicks(AllPicks(env, cfg, path, fm, fields, n)))
    {
      hide *;
      AllPicksStep(env, cfg, path, fm, fields, n);
      var e := cfg.assignments[n];
      if !EntryMatches(env, e, path, fields) { continue; }
      result, seen := AddNames(result, AllPicks(env, cfg, path, fm, fields, n), seen, e.kinds, Assigned(n));
    }
  }

  // ----- Layers applied -----

  function Translated(env: Env, name: string, rc: RuleCfg): RuleCfg
  {
    if rc.settings.None? then rc else rc.(settings := Some(env.translate(name, rc.settings.value)))
  }

  function TranslatedAll(env: Env, rules: Rules): Rules
  {
    map name | name in rules :: Translated(env, name, rules[name])
  }

  function Onto(env: Env, name: string, existing: Option<RuleCfg>, rc: RuleCfg): RuleCfg
  {
    if existing.Some? then MergeRule(env.modes(name), existing.value, rc) else rc
  }

  function At(result: Rules, name: string): Option<RuleCfg>
  {
    if name in result then Some(result[name]) else None
  }

  function ApplyLayer(env: Env, result: Rules, layer: Rules): Rules
  {
    map name | name in result.Keys + layer.Keys ::
      if name in layer then Onto(env, name, At(result, name), Translated(env, name, layer[name])) else result[name]
  }

  ghost predicate PartApplied(env: Env, before: Rules, layer: Rules, keys: set<string>, out: Rules)
  {
    && keys <= layer.Keys && out.Keys == before.Keys + (layer.Keys - keys)
    && forall name | name in out ::
         out[name] == if name in keys || name !in layer then before[name]
                      else Onto(env, name, At(before, name), Translated(env, name, layer[name]))
  }

  lemma ApplyStep(env: Env, before: Rules, layer: Rules, keys: set<string>, out: Rules, name: string)
    requires PartApplied(env, before, layer, keys, out) && name in keys
    ensures PartApplied(env, before, layer, keys - {name},
                        out[name := Onto(env, name, At(out, name), Translated(env, name, layer[name]))])
  {
    hide Onto, Translated;
  }

  lemma ApplyDone(env: Env, before: Rules, layer: Rules, out: Rules)
    requires PartApplied(env, before, layer, {}, out)
    ensures out == ApplyLayer(env, before, layer)
  {
    hide Onto, Translated, At;
  }

  /** Merges a layer in place, rule by rule in whatever order its map yields them. */
  method Apply(env: Env, before: Rules, layer: Rules) returns (result: Rules)
    ensures result == ApplyLayer(env, before, layer)
  {
    hide Onto, Translated, ApplyLayer, At;
    result := before;
    var keys := layer.Keys;
    assert PartApplied(env, before, layer, keys, result);
    while keys != {}
      invariant keys <= layer.Keys && PartApplied(env, before, layer, keys, result)
      decreases |keys|
    {
      hide *;
      SomeKey(keys);
      var name :| name in keys;
      ApplyStep(env, before, layer, keys, result, name);
      result := result[name := Onto(env, name, At(result, name), Translated(env, name, layer[name]))];
      keys := keys - {name};
    }
    ApplyDone(env, before, layer, result);
  }

  function DefaultRules(cfg: Config): Rules
  {
    map name | name in cfg.rules && name !in cfg.explicit :: cfg.rules[name]
  }

  function UserRules(cfg: Config): Rules
  {
    map name | name in cfg.rules && name in cfg.explicit :: cfg.rules[name]
  }

  /** Appends to a list setting of the structure rule, creating and enabling the rule where needed. */
  function Push(rc: Option<RuleCfg>, key: string, entry: Val): RuleCfg
  {
    var settings := if rc.Some? && rc.value.settings.Some? then rc.value.settings.value else map[];
    var existing := if key in settings && settings[key].Items? then settings[key].xs else [];
    RuleCfg(true, Some(settings[key := Items(existing + [entry])]))
  }

  function SchemaEntry(k: Kind): Val
  {
    var entry := map["inline" := Dict(k.schema)];
    Dict(if k.schemaSource != "" then entry["source" := Scalar(k.schemaSource)] else entry)
  }

  function PathEntry(name: string, k: Kind): Val
  {
    Dict(map["kind" := Scalar(name), "pattern" := Scalar(k.pathPattern)])
  }

  function Injected(result: Rules, name: string, k: Kind): Rules
  {
    var withSchema := if k.schema != map[] then result[REQUIRED := Push(At(result, REQUIRED), "schema-sources", SchemaEntry(k))] else result;
    if k.pathPattern != "" then withSchema[REQUIRED := Push(At(withSchema, REQUIRED), "path-patterns", PathEntry(name, k))] else withSchema
  }

  function AfterKinds(env: Env, cfg: Config, start: Rules, kinds: seq<string>): Rules
  {
    if kinds == [] then start
    else
      var name := kinds[|kinds| - 1];
      var before := AfterKinds(env, cfg, start, kinds[..|kinds| - 1]);
      if name in cfg.kinds then ApplyLayer(env, Injected(before, name, cfg.kinds[name]), cfg.kinds[name].rules) else before
  }

  function AfterOverrides(env: Env, cfg: Config, path: string, start: Rules, n: nat): Rules
    requires n <= |cfg.overrides|
  {
    if n == 0 then start
    else
      var before := AfterOverrides(env, cfg, path, start, n - 1);
      var o := cfg.overrides[n - 1];
      if env.matches(o.patterns, path) then ApplyLayer(env, before, o.rules) else before
  }

  /** Word lists are expanded into the rule's target setting and the key is removed. */
  function Expanded(env: Env, name: string, rc: RuleCfg): RuleCfg
  {
    if rc.settings.None? || LISTS !in rc.settings.value then rc
    else
      var stripped := rc.settings.value - {LISTS};
      match env.target(name)
      case None => rc.(settings := Some(stripped))
      case Some(t) =>
        var more := env.expand(rc.settings.value[LISTS], if t in stripped then Some(stripped[t]) else None);
        rc.(settings := Some(if more.Some? then stripped[t := more.value] else stripped))
  }

  function BeforeExpansion(env: Env, cfg: Config, path: string, kinds: seq<string>): Rules
  {
    var base := ApplyLayer(env, ApplyLayer(env, TranslatedAll(env, DefaultRules(cfg)), cfg.preset), UserRules(cfg));
    AfterOverrides(env, cfg, path, AfterKinds(env, cfg, base, kinds), |cfg.overrides|)
  }

  function EffectiveRules(env: Env, cfg: Config, path: string, kinds: seq<string>): Rules
  {
    var merged := BeforeExpansion(env, cfg, path, kinds);
    map name | name in merged :: Expanded(env, name, merged[name])
  }

  method ComputeEffectiveRules(env: Env, cfg: Config, path: string, kinds: seq<string>) returns (result: Rules)
    ensures result == EffectiveRules(env, cfg, path, kinds)
  {
    hide ApplyLayer, TranslatedAll, Injected, Expanded;
    result := TranslatedAll(env, DefaultRules(cfg));
    result := Apply(env, result, cfg.preset);
    result := Apply(env, result, UserRules(cfg));
    ghost var base := result;
    for i := 0 to |kinds|
      invariant result == AfterKinds(env, cfg, base, kinds[..i])
    {
      assert kinds[..i + 1][..i] == kinds[..i];
      if kinds[i] !in cfg.kinds { continue; }
      var body := cfg.kinds[kinds[i]];
      result := Injected(result, kinds[i], body);
      result := Apply(env, result, body.rules);
    }
    assert kinds[..|kinds|] == kinds;
    ghost var start := result;
    for i := 0 to |cfg.overrides|
      invariant result == AfterOverrides(env, cfg, path, start, i)
    {
      if env.matches(cfg.overrides[i].patterns, path) { result := Apply(env, result, cfg.overrides[i].rules); }
    }
    result := map name | name in result :: Expanded(env, name, result[name]);
  }

  // ----- Categories and explicit rules -----

  function KindsWithin(cfg: Config, kinds: seq<string>): seq<Kind>
  {
    if kinds == [] then []
    else
      var name := kinds[|kinds| - 1];
      KindsWithin(cfg, kinds[..|kinds| - 1]) + (if name in cfg.kinds then [cfg.kinds[name]] else [])
  }

  function CategoriesOf(ks: seq<Kind>, start: map<string, bool>): map<string, bool>
  {
    if ks == [] then start else CategoriesOf(ks[..|ks| - 1], start) + ks[|ks| - 1].categories
  }

  function ExplicitOf(ks: seq<Kind>, start: set<string>): set<string>
  {
    if ks == [] then start
    else
      var k := ks[|ks| - 1];
      ExplicitOf(ks[..|ks| - 1], start) + k.rules.Keys + (if k.ownSchema != map[] || k.pathPattern != "" then {REQUIRED} else {})
  }

  function MatchingOverrides(env: Env, cfg: Config, path: string, n: nat): seq<Override>
    requires n <= |cfg.overrides|
  {
    if n == 0 then []
    else MatchingOverrides(env, cfg, path, n - 1) + (if env.matches(cfg.overrides[n - 1].patterns, path) then [cfg.overrides[n - 1]] else [])
  }

  function OverrideCategories(os: seq<Override>, start: map<string, bool>): map<string, bool>
  {
    if os == [] then start else OverrideCategories(os[..|os| - 1], start) + os[|os| - 1].categories
  }

  function OverrideExplicit(os: seq<Override>, start: set<string>): set<string>
  {
    if os == [] then start else OverrideExplicit(os[..|os| - 1], start) + os[|os| - 1].rules.Keys
  }

  /** All categories on, then the top level's, the kinds' and the matching overrides' settings. */
  function EffectiveCategories(env: Env, cfg: Config, valid: set<string>, path: string, kinds: seq<string>): map<string, bool>
  {
    var base := (map c | c in valid :: true) + cfg.categories;
    OverrideCategories(MatchingOverrides(env, cfg, path, |cfg.overrides|), CategoriesOf(KindsWithin(cfg, kinds), base))
  }

  function EffectiveExplicit(env: Env, cfg: Config, path: string, kinds: seq<string>): set<string>
  {
    OverrideExplicit(MatchingOverrides(env, cfg, path, |cfg.overrides|), ExplicitOf(KindsWithin(cfg, kinds), cfg.explicit))
  }

  // ----- Layers explained -----

  datatype Source = FromDefault | FromConvention | FromUser | FromKind(name: string) | FromOverride(i: nat)

  datatype Layer = Layer(source: Source, rules: Rules)

  function KindLayerRules(env: Env, name: string, k: Kind): Rules
  {
    var rules := TranslatedAll(env, k.rules);
    if k.schema == map[] && k.pathPattern == "" then rules
    else
      var rc := At(rules, REQUIRED);
      var withSchema := if k.schema != map[] then Some(Push(rc, "schema-sources", Dict(map["inline" := Dict(k.schema)]))) else rc;
      var withPath := if k.pathPattern != "" then Some(Push(withSchema, "path-patterns", PathEntry(name, k))) else withSchema;
      rules[REQUIRED := withPath.value]
  }

  function KindLayers(env: Env, cfg: Config, kinds: seq<string>): seq<Layer>
  {
    if kinds == [] then []
    else
      var name := kinds[|kinds| - 1];
      KindLayers(env, cfg, kinds[..|kinds| - 1]) +
      (if name in cfg.kinds then [Layer(FromKind(name), KindLayerRules(env, name, cfg.kinds[name]))] else [])
  }

  function OverrideLayers(env: Env, cfg: Config, path: string, n: nat): seq<Layer>
    requires n <= |cfg.overrides|
  {
    if n == 0 then []
    else
      OverrideLayers(env, cfg, path, n - 1) +
      (if env.matches(cfg.overrides[n - 1].patterns, path) then [Layer(FromOverride(n - 1), TranslatedAll(env, cfg.overrides[n - 1].rules))] else [])
  }

  function BaseLayers(env: Env, cfg: Config): seq<Layer>
  {
    (if DefaultRules(cfg) != map[] then [Layer(FromDefault, TranslatedAll(env, DefaultRules(cfg)))] else []) +
    (if cfg.convention != "" && cfg.preset != map[] then [Layer(FromConvention, TranslatedAll(env, cfg.preset))] else []) +
    (if UserRules(cfg) != map[] then [Layer(FromUser, TranslatedAll(env, UserRules(cfg)))] else [])
  }

  function Layers(env: Env, cfg: Config, path: string, kinds: seq<string>): seq<Layer>
  {
    BaseLayers(env, cfg) + KindLayers(env, cfg, kinds) + OverrideLayers(env, cfg, path, |cfg.overrides|)
  }

  /** The rule's configuration after the layers, on top of what it was before them. */
  function FinalFrom(env: Env, name: string, start: Option<RuleCfg>, ls: seq<Layer>): Option<RuleCfg>
  {
    if ls == [] then start
    else
      var before := FinalFrom(env, name, start, ls[..|ls| - 1]);
      var rules := ls[|ls| - 1].rules;
      if name in rules then Some(Onto(env, name, before, rules[name])) else before
  }

  /** What each layer says about the rule. */
  function ChainOf(name: string, ls: seq<Layer>): seq<(Source, Option<RuleCfg>)>
  {
    seq(|ls|, i requires 0 <= i < |ls| => (ls[i].source, At(ls[i].rules, name)))
  }

  method BuildRuleResolution(env: Env, name: string, ls: seq<Layer>)
    returns (final: Option<RuleCfg>, chain: seq<(Source, Option<RuleCfg>)>)
    ensures final == FinalFrom(env, name, None, ls) && chain == ChainOf(name, ls)
  {
    chain := [];
    final := None;
    for i := 0 to |ls|
      invariant chain == ChainOf(name, ls[..i]) && final == FinalFrom(env, name, None, ls[..i])
    {
      hide Onto;
      assert ls[..i + 1][..i] == ls[..i];
      var l := ls[i];
      if name in l.rules {
        chain := chain + [(l.source, Some(l.rules[name]))];
        final := Some(Onto(env, name, final, l.rules[name]));
      } else {
        chain := chain + [(l.source, None)];
      }
    }
    assert ls[..|ls|] == ls;
  }

  // ----- Explained and applied are the same fold -----

  lemma {:induction false} FinalConcat(env: Env, name: string, start: Option<RuleCfg>, a: seq<Layer>, b: seq<Layer>)
    ensures FinalFrom(env, name, start, a + b) == FinalFrom(env, name, FinalFrom(env, name, start, a), b)
  {
    hide Onto;
    if b == [] {
      assert a + b == a;
    } else {
      FinalConcat(env, name, start, a, b[..|b| - 1]);
      assert (a + b)[..|a + b| - 1] == a + b[..|b| - 1];
    }
  }

  lemma FinalOne(env: Env, name: string, start: Option<RuleCfg>, l: Layer)
    ensures FinalFrom(env, name, start, [l]) == if name in l.rules then Some(Onto(env, name, start, l.rules[name])) else start
  {
    hide Onto;
    assert [l][..0] == [];
    assert FinalFrom(env, name, start, []) == start;
  }

  lemma FinalSnoc(env: Env, name: string, start: Option<RuleCfg>, ls: seq<Layer>, l: Layer)
    ensures FinalFrom(env, name, start, ls + [l]) == FinalFrom(env, name, FinalFrom(env, name, start, ls), [l])
  {
    FinalConcat(env, name, start, ls, [l]);
  }

  /** Applying a layer's own rules is adding its translated layer. */
  lemma AppliedAt(env: Env, name: string, result: Rules, source: Source, rules: Rules)
    ensures At(ApplyLayer(env, result, rules), name) == FinalFrom(env, name, At(result, name), [Layer(source, TranslatedAll(env, rules))])
  {
    hide Onto, Translated, FinalFrom;
    FinalOne(env, name, At(result, name), Layer(source, TranslatedAll(env, rules)));
  }

  lemma EmptyLayer(env: Env, name: string, start: Option<RuleCfg>, source: Source)
    ensures FinalFrom(env, name, start, [Layer(source, TranslatedAll(env, map[]))]) == start
  {
    hide Onto, Translated;
    assert name !in TranslatedAll(env, map[]);
    FinalOne(env, name, start, Layer(source, TranslatedAll(env, map[])));
  }

  /** Outside the structure rule a kind contributes just its own rules. */
  lemma KindLayerAt(env: Env, name: string, result: Rules, kindName: string, k: Kind)
    requires name != REQUIRED
    ensures At(ApplyLayer(env, Injected(result, kindName, k), k.rules), name) ==
            FinalFrom(env, name, At(result, name), [Layer(FromKind(kindName), KindLayerRules(env, kindName, k))])
  {
    hide Onto, Translated, FinalFrom, Push, SchemaEntry, PathEntry;
    AppliedAt(env, name, Injected(result, kindName, k), FromKind(kindName), k.rules);
    assert At(Injected(result, kindName, k), name) == At(result, name);
    FinalOne(env, name, At(result, name), Layer(FromKind(kindName), TranslatedAll(env, k.rules)));
    FinalOne(env, name, At(result, name), Layer(FromKind(kindName), KindLayerRules(env, kindName, k)));
    assert At(KindLayerRules(env, kindName, k), name) == At(TranslatedAll(env, k.rules), name);
  }

  lemma {:induction false} KindsAt(env: Env, cfg: Config, name: string, start: Rules, kinds: seq<string>)
    requires name != REQUIRED
    ensures At(AfterKinds(env, cfg, start, kinds), name) == FinalFrom(env, name, At(start, name), KindLayers(env, cfg, kinds))
  {
    if kinds != [] {
      hide At, ApplyLayer, Injected, KindLayerRules;
      var kindName := kinds[|kinds| - 1];
      var front := kinds[..|kinds| - 1];
      KindsAt(env, cfg, name, start, front);
      if kindName in cfg.kinds {
        var k := cfg.kinds[kindName];
        KindLayerAt(env, name, AfterKinds(env, cfg, start, front), kindName, k);
        FinalSnoc(env, name, At(start, name), KindLayers(env, cfg, front), Layer(FromKind(kindName), KindLayerRules(env, kindName, k)));
      } else {
        assert KindLayers(env, cfg, kinds) == KindLayers(env, cfg, front);
      }
      hide FinalFrom;
    } else {
      assert FinalFrom(env, name, At(start, name), []) == At(start, name);
    }
  }

  lemma {:induction false} OverridesAt(env: Env, cfg: Config, path: string, name: string, start: Rules, n: nat)
    requires n <= |cfg.overrides|
    ensures At(AfterOverrides(env, cfg, path, start, n), name) ==
            FinalFrom(env, name, At(start, name), OverrideLayers(env, cfg, path, n))
  {
    if n > 0 {
      hide At, ApplyLayer, TranslatedAll;
      OverridesAt(env, cfg, path, name, start, n - 1);
      var o := cfg.overrides[n - 1];
      if env.matches(o.patterns, path) {
        AppliedAt(env, name, AfterOverrides(env, cfg, path, start, n - 1), FromOverride(n - 1), o.rules);
        FinalSnoc(env, name, At(start, name), OverrideLayers(env, cfg, path, n - 1), Layer(FromOverride(n - 1), TranslatedAll(env, o.rules)));
      } else {
        assert OverrideLayers(env, cfg, path, n) == OverrideLayers(env, cfg, path, n - 1);
      }
      hide FinalFrom;
    } else {
      assert FinalFrom(env, name, At(start, name), []) == At(start, name);
    }
  }

  /** A layer left out because it is empty makes no difference. */
  lemma OptionalLayer(env: Env, name: string, start: Option<RuleCfg>, source: Source, rules: Rules, shown: bool)
    requires !shown ==> rules == map[]
    ensures FinalFrom(env, name, start, if shown then [Layer(source, TranslatedAll(env, rules))] else []) ==
            FinalFrom(env, name, start, [Layer(source, TranslatedAll(env, rules))])
  {
    if !shown {
      EmptyLayer(env, name, start, source);
      assert FinalFrom(env, name, start, []) == start;
    }
  }

  lemma BaseAt(env: Env, cfg: Config, name: string)
    requires cfg.preset != map[] ==> cfg.convention != ""
    ensures At(ApplyLayer(env, ApplyLayer(env, TranslatedAll(env, DefaultRules(cfg)), cfg.preset), UserRules(cfg)), name) ==
            FinalFrom(env, name, None, BaseLayers(env, cfg))
  {
    hide ApplyLayer, TranslatedAll, Onto, FinalFrom, At;
    var defaults := TranslatedAll(env, DefaultRules(cfg));
    var a := if DefaultRules(cfg) != map[] then [Layer(FromDefault, defaults)] else [];
    var b := if cfg.convention != "" && cfg.preset != map[] then [Layer(FromConvention, TranslatedAll(env, cfg.preset))] else [];
    var c := if UserRules(cfg) != map[] then [Layer(FromUser, TranslatedAll(env, UserRules(cfg)))] else [];
    FinalConcat(env, name, None, a + b, c);
    FinalConcat(env, name, None, a, b);
    OptionalLayer(env, name, None, FromDefault, DefaultRules(cfg), DefaultRules(cfg) != map[]);
    DefaultAt(env, cfg, name);
    OptionalLayer(env, name, At(defaults, name), FromConvention, cfg.preset, cfg.convention != "" && cfg.preset != map[]);
    AppliedAt(env, name, defaults, FromConvention, cfg.preset);
    var withPreset := ApplyLayer(env, defaults, cfg.preset);
    OptionalLayer(env, name, At(withPreset, name), FromUser, UserRules(cfg), UserRules(cfg) != map[]);
    AppliedAt(env, name, withPreset, FromUser, UserRules(cfg));
  }

  lemma DefaultAt(env: Env, cfg: Config, name: string)
    ensures FinalFrom(env, name, None, [Layer(FromDefault, TranslatedAll(env, DefaultRules(cfg)))]) ==
            At(TranslatedAll(env, DefaultRules(cfg)), name)
  {
    FinalOne(env, name, None, Layer(FromDefault, TranslatedAll(env, DefaultRules(cfg))));
  }

  lemma MergedIsFinal(env: Env, cfg: Config, path: string, kinds: seq<string>, name: string)
    requires name != REQUIRED && (cfg.preset != map[] ==> cfg.convention != "")
    ensures At(BeforeExpansion(env, cfg, path, kinds), name) == FinalFrom(env, name, None, Layers(env, cfg, path, kinds))
  {
    hide ApplyLayer, TranslatedAll, Onto, FinalFrom, At, BaseLayers, KindLayers, OverrideLayers, AfterKinds, AfterOverrides;
    var base := ApplyLayer(env, ApplyLayer(env, TranslatedAll(env, DefaultRules(cfg)), cfg.preset), UserRules(cfg));
    BaseAt(env, cfg, name);
    KindsAt(env, cfg, name, base, kinds);
    OverridesAt(env, cfg, path, name, AfterKinds(env, cfg, base, kinds), |cfg.overrides|);
    FinalConcat(env, name, None, BaseLayers(env, cfg), KindLayers(env, cfg, kinds));
    FinalConcat(env, name, None, BaseLayers(env, cfg) + KindLayers(env, cfg, kinds), OverrideLayers(env, cfg, path, |cfg.overrides|));
  }

  predicate Sets(l: Layer, name: string, key: string)
  {
    name in l.rules && l.rules[name].settings.Some? && key in l.rules[name].settings.value
  }

  predicate HasKey(rc: Option<RuleCfg>, key: string)
  {
    rc.Some? && rc.value.settings.Some? && key in rc.value.settings.value
  }

  /** A setting is there exactly when some layer set it. */
  lemma {:induction false} FinalKeys(env: Env, name: string, ls: seq<Layer>, key: string)
    ensures HasKey(FinalFrom(env, name, None, ls), key) <==> exists l <- ls :: Sets(l, name, key)
  {
    if ls != [] {
      var n := |ls| - 1;
      FinalKeys(env, name, ls[..n], key);
      assert ls == ls[..n] + [ls[n]];
      assert (exists l <- ls :: Sets(l, name, key)) <==> (exists l <- ls[..n] :: Sets(l, name, key)) || Sets(ls[n], name, key);
      var before := FinalFrom(env, name, None, ls[..n]);
      if name in ls[n].rules { OntoKeys(env, name, before, ls[n].rules[name], key); }
    }
  }

  lemma OntoKeys(env: Env, name: string, before: Option<RuleCfg>, rc: RuleCfg, key: string)
    ensures HasKey(Some(Onto(env, name, before, rc)), key) <==> HasKey(before, key) || HasKey(Some(rc), key)
  {
    if before.Some? && before.value.settings.Some? && rc.settings.Some? {
      MergedKeys(env.modes(name), "", before.value.settings.value, rc.settings.value);
    }
  }

  /** No rule expands its word lists into the setting that names them. */
  ghost predicate TargetsOk(env: Env)
  {
    forall name :: env.target(name) != Some(LISTS)
  }

  lemma ExpansionIff(env: Env, name: string, rc: RuleCfg)
    requires TargetsOk(env)
    ensures Expanded(env, name, rc) == rc <==> !HasKey(Some(rc), LISTS)
  {
    assert env.target(name) != Some(LISTS);
    if HasKey(Some(rc), LISTS) {
      assert LISTS !in Expanded(env, name, rc).settings.value;
    }
  }

  /**
    MAIN: apart from the structure rule, the explained configuration covers the same rules as the
    applied one and equals it exactly when no layer of the rule uses word lists.
   */
  lemma ExplainedIffApplied(env: Env, cfg: Config, path: string, kinds: seq<string>, name: string)
    requires name != REQUIRED && (cfg.preset != map[] ==> cfg.convention != "") && TargetsOk(env)
    ensures var final := FinalFrom(env, name, None, Layers(env, cfg, path, kinds));
      var applied := EffectiveRules(env, cfg, path, kinds);
      && (name in applied <==> final.Some?)
      && (name in applied ==>
            (applied[name] == final.value <==> !exists l <- Layers(env, cfg, path, kinds) :: Sets(l, name, LISTS)))
  {
    hide BeforeExpansion, Layers, FinalFrom, Expanded, Sets;
    MergedIsFinal(env, cfg, path, kinds, name);
    FinalKeys(env, name, Layers(env, cfg, path, kinds), LISTS);
    var merged := BeforeExpansion(env, cfg, path, kinds);
    if name in merged { ExpansionIff(env, name, merged[name]); }
  }

  /** A kind with a schema from a named file and nothing else. */
  predicate SchemaOnly(k: Kind)
  {
    k.rules == map[] && k.schema != map[] && k.schemaSource != "" && k.pathPattern == ""
  }

  function OneKind(name: string, k: Kind): Config
  {
    Config(map[], {}, map[], "", map[], map[name := k], [], [])
  }

  lemma OneKindApplied(env: Env, name: string, k: Kind)
    requires SchemaOnly(k)
    ensures BeforeExpansion(env, OneKind(name, k), "", [name]) ==
            map[REQUIRED := RuleCfg(true, Some(map["schema-sources" := Items([SchemaEntry(k)])]))]
  {
    hide Onto, Translated;
    var cfg := OneKind(name, k);
    assert TranslatedAll(env, DefaultRules(cfg)) == map[] && UserRules(cfg) == map[];
    assert ApplyLayer(env, map[], map[]) == map[];
    assert [name][..0] == [];
    assert AfterKinds(env, cfg, map[], []) == map[];
    var pushed := Push(None, "schema-sources", SchemaEntry(k));
    assert Injected(map[], name, k) == map[REQUIRED := pushed];
    assert pushed.settings.value == map["schema-sources" := Items([] + [SchemaEntry(k)])];
    assert [] + [SchemaEntry(k)] == [SchemaEntry(k)];
    assert ApplyLayer(env, map[REQUIRED := pushed], map[]) == map[REQUIRED := pushed];
  }

  lemma OneKindExplained(env: Env, name: string, k: Kind)
    requires SchemaOnly(k)
    ensures FinalFrom(env, REQUIRED, None, Layers(env, OneKind(name, k), "", [name])) ==
            Some(RuleCfg(true, Some(map["schema-sources" := Items([Dict(map["inline" := Dict(k.schema)])])])))
  {
    hide Translated;
    var cfg := OneKind(name, k);
    assert DefaultRules(cfg) == map[] && UserRules(cfg) == map[];
    assert [name][..0] == [];
    var entry := Dict(map["inline" := Dict(k.schema)]);
    assert [] + [entry] == [entry];
    var l := Layer(FromKind(name), KindLayerRules(env, name, k));
    assert TranslatedAll(env, k.rules) == map[];
    assert KindLayers(env, cfg, []) == [];
    assert KindLayers(env, cfg, [name]) == [] + [l];
    assert Layers(env, cfg, "", [name]) == [l];
    FinalOne(env, REQUIRED, None, l);
  }

  /** The structure rule is excluded with reason: the applied entry names the schema's file, the explained one does not. */
  lemma StructureRuleDiffers(env: Env, name: string, k: Kind)
    requires SchemaOnly(k)
    ensures REQUIRED in EffectiveRules(env, OneKind(name, k), "", [name])
    ensures Some(EffectiveRules(env, OneKind(name, k), "", [name])[REQUIRED]) !=
            FinalFrom(env, REQUIRED, None, Layers(env, OneKind(name, k), "", [name]))
  {
    OneKindApplied(env, name, k);
    OneKindExplained(env, name, k);
    hide BeforeExpansion, FinalFrom, Layers, Expanded;
    var settings := map["schema-sources" := Items([SchemaEntry(k)])];
    NoLists(env, settings);
    assert "source" in SchemaEntry(k).m;
    var explained := map["schema-sources" := Items([Dict(map["inline" := Dict(k.schema)])])];
    assert settings["schema-sources"].xs[0] != explained["schema-sources"].xs[0];
    assert settings != explained;
  }

  lemma NoLists(env: Env, settings: map<string, Val>)
    requires settings.Keys == {"schema-sources"}
    ensures Expanded(env, REQUIRED, RuleCfg(true, Some(settings))) == RuleCfg(true, Some(settings))
  {
    assert |LISTS| != |"schema-sources"|;
  }

  // ----- Leaves -----

  datatype LeafValue = Flag(b: bool) | Setting(v: Val)

  /** None is the path of the enabled flag, Some(k) that of setting k. */
  function LeafIn(rc: RuleCfg, path: Option<string>): Option<LeafValue>
  {
    match path
    case None => Some(Flag(rc.enabled))
    case Some(k) => if rc.settings.Some? && k in rc.settings.value then Some(Setting(rc.settings.value[k])) else None
  }

  function LeafChain(path: Option<string>, chain: seq<(Source, Option<RuleCfg>)>): seq<(Source, LeafValue)>
  {
    if chain == [] then []
    else
      var entry := chain[|chain| - 1];
      LeafChain(path, chain[..|chain| - 1]) +
      (if entry.1.Some? && LeafIn(entry.1.value, path).Some? then [(entry.0, LeafIn(entry.1.value, path).value)] else [])
  }

  method BuildLeaf(path: Option<string>, chain: seq<(Source, Option<RuleCfg>)>)
    returns (winning: Option<LeafValue>, leafChain: seq<(Source, LeafValue)>)
    ensures leafChain == LeafChain(path, chain)
    ensures winning == if leafChain == [] then None else Some(leafChain[|leafChain| - 1].1)
  {
    leafChain := [];
    winning := None;
    for i := 0 to |chain|
      invariant leafChain == LeafChain(path, chain[..i])
      invariant winning == if leafChain == [] then None else Some(leafChain[|leafChain| - 1].1)
    {
      assert chain[..i + 1][..i] == chain[..i];
      var entry := chain[i];
      if entry.1.None? { continue; }
      var v := LeafIn(entry.1.value, path);
      if v.None? { continue; }
      leafChain := leafChain + [(entry.0, v.value)];
      winning := Some(v.value);
    }
    assert chain[..|chain|] == chain;
  }

  lemma ChainSnoc(name: string, ls: seq<Layer>)
    requires ls != []
    ensures ChainOf(name, ls)[..|ls| - 1] == ChainOf(name, ls[..|ls| - 1])
    ensures ChainOf(name, ls)[|ls| - 1] == (ls[|ls| - 1].source, At(ls[|ls| - 1].rules, name))
  {
  }

  function Last(c: seq<(Source, LeafValue)>): LeafValue
    requires c != []
  {
    c[|c| - 1].1
  }

  /** A value that a later layer replaces as a whole. */
  predicate Replaced(app: Modes, key: string, v: Val)
  {
    v.Scalar? || (v.Items? && !Appends(app, key))
  }

  function MergedLeaf(app: Modes, path: Option<string>, earlier: LeafValue, later: LeafValue): LeafValue
  {
    if path.Some? && earlier.Setting? && later.Setting? then Setting(MergeVal(app, path.value, earlier.v, later.v)) else later
  }

  /** All values of a chain merged, oldest first. */
  function FoldedChain(app: Modes, path: Option<string>, c: seq<(Source, LeafValue)>): LeafValue
    requires c != []
  {
    if |c| == 1 then Last(c) else MergedLeaf(app, path, FoldedChain(app, path, c[..|c| - 1]), Last(c))
  }

  /** The newest value of the chain overwrites everything the older ones leave. */
  predicate NewestOverwrites(app: Modes, path: Option<string>, c: seq<(Source, LeafValue)>)
    requires c != []
  {
    if path.None? || |c| == 1 then true
    else
      var older := FoldedChain(app, path, c[..|c| - 1]);
      older.Setting? && Last(c).Setting? ==> Absorbed(app, path.value, older.v, Last(c).v)
  }

  /** The chain of a leaf merges to the leaf's final value; a leaf without a chain has none. */
  lemma {:induction false} ChainFolds(env: Env, name: string, ls: seq<Layer>, path: Option<string>)
    requires FinalFrom(env, name, None, ls).Some?
    ensures var c := LeafChain(path, ChainOf(name, ls));
      LeafIn(FinalFrom(env, name, None, ls).value, path) ==
      if c == [] then None else Some(FoldedChain(env.modes(name), path, c))
  {
    hide Onto, LeafIn, LeafChain, ChainOf, FoldedChain;
    var n := |ls| - 1;
    var before := FinalFrom(env, name, None, ls[..n]);
    LeafSnoc(name, ls, path);
    if name in ls[n].rules {
      if before.Some? {
        ChainFolds(env, name, ls[..n], path);
        OntoLeaf(env, name, before.value, ls[n].rules[name], path);
        if LeafIn(ls[n].rules[name], path).Some? {
          ChainGrows(env, name, LeafChain(path, ChainOf(name, ls[..n])), path, ls[n].source, ls[n].rules[name]);
        }
      } else {
        NoChain(env, name, ls[..n], path);
        OntoNothing(env, name, ls[n].rules[name]);
        if LeafIn(ls[n].rules[name], path).Some? { ChainGrows(env, name, [], path, ls[n].source, ls[n].rules[name]); }
      }
    } else {
      ChainFolds(env, name, ls[..n], path);
    }
  }

  lemma LeafSnoc(name: string, ls: seq<Layer>, path: Option<string>)
    requires ls != []
    ensures var l := ls[|ls| - 1];
      var front := LeafChain(path, ChainOf(name, ls[..|ls| - 1]));
      LeafChain(path, ChainOf(name, ls)) ==
      if name in l.rules && LeafIn(l.rules[name], path).Some? then front + [(l.source, LeafIn(l.rules[name], path).value)] else front
  {
    ChainSnoc(name, ls);
    hide LeafIn;
    var front := LeafChain(path, ChainOf(name, ls[..|ls| - 1]));
    assert front + [] == front;
    hide ChainOf;
  }

  lemma ChainGrows(env: Env, name: string, c: seq<(Source, LeafValue)>, path: Option<string>, source: Source, rc: RuleCfg)
    requires LeafIn(rc, path).Some?
    ensures var v := LeafIn(rc, path).value;
      FoldedChain(env.modes(name), path, c + [(source, v)]) ==
      if c == [] then v else MergedLeaf(env.modes(name), path, FoldedChain(env.modes(name), path, c), v)
  {
    var longer := c + [(source, LeafIn(rc, path).value)];
    assert longer[..|longer| - 1] == c;
  }

  /**
    MAIN: every leaf of an explained rule has a non-empty chain that merges to its final value, and the
    chain's newest value is that final value exactly when it overwrites what the older ones leave; for
    the flag and for values replaced as a whole it always does.
   */
  lemma LeafWins(env: Env, name: string, ls: seq<Layer>, path: Option<string>)
    requires FinalFrom(env, name, None, ls).Some?
    ensures var final := FinalFrom(env, name, None, ls).value;
      var c := LeafChain(path, ChainOf(name, ls));
      && (LeafIn(final, path).Some? <==> c != [])
      && (c != [] ==> LeafIn(final, path) == Some(FoldedChain(env.modes(name), path, c)))
      && (c != [] ==> (LeafIn(final, path) == Some(Last(c)) <==> NewestOverwrites(env.modes(name), path, c)))
      && (c != [] && (path.Some? ==> Last(c).Setting? && Replaced(env.modes(name), path.value, Last(c).v)) ==>
            LeafIn(final, path) == Some(Last(c)))
  {
    ChainFolds(env, name, ls, path);
    var c := LeafChain(path, ChainOf(name, ls));
    hide LeafIn, FinalFrom, LeafChain, ChainOf;
    if path.Some? && |c| > 1 {
      var older := FoldedChain(env.modes(name), path, c[..|c| - 1]);
      if older.Setting? && Last(c).Setting? { AbsorbedIff(env.modes(name), path.value, older.v, Last(c).v); }
    }
  }

  lemma OntoNothing(env: Env, name: string, rc: RuleCfg)
    ensures Onto(env, name, None, rc) == rc
  {
  }

  lemma {:induction false} NoChain(env: Env, name: string, ls: seq<Layer>, path: Option<string>)
    requires FinalFrom(env, name, None, ls).None?
    ensures LeafChain(path, ChainOf(name, ls)) == []
  {
    if ls != [] {
      ChainSnoc(name, ls);
      NoChain(env, name, ls[..|ls| - 1], path);
    }
  }

  lemma OntoLeaf(env: Env, name: string, before: RuleCfg, rc: RuleCfg, path: Option<string>)
    ensures LeafIn(Onto(env, name, Some(before), rc), path) ==
            if LeafIn(rc, path).None? then LeafIn(before, path)
            else if LeafIn(before, path).None? then LeafIn(rc, path)
            else Some(MergedLeaf(env.modes(name), path, LeafIn(before, path).value, LeafIn(rc, path).value))
  {
    if path.Some? && before.settings.Some? && rc.settings.Some? {
      var k := path.value;
      MergedKeys(env.modes(name), "", before.settings.value, rc.settings.value);
      if k in before.settings.value || k in rc.settings.value {
        MergedAt(env.modes(name), "", before.settings.value, rc.settings.value, k);
      }
    }
  }

}
