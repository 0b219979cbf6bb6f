/**
  Settings whose lists append: layer by layer the lists are joined, oldest first. The word lists of a rule are
  such a setting, and are then expanded into the setting the rule names as their target.
 */
module WordLists {

  import opened Wrappers
  import opened Settings
  import opened ConfigLayers

  predicate AllLists(c: seq<(Source, LeafValue)>)
  {
    forall e <- c :: e.1.Setting? && e.1.v.Items?
  }

  /** The lists of a chain one after the other. */
  function Joined(c: seq<(Source, LeafValue)>): seq<Val>
    requires AllLists(c)
  {
    if c == [] then [] else assert c[|c| - 1] in c; Joined(c[..|c| - 1]) + c[|c| - 1].1.v.xs
  }

  lemma {:induction false} FoldedIsJoined(app: Modes, key: string, c: seq<(Source, LeafValue)>)
    requires c != [] && AllLists(c) && (key == LISTS || app(key))
    ensures FoldedChain(app, Some(key), c) == Setting(Items(Joined(c)))
  {
    var n := |c| - 1;
    assert c[n] in c;
    if n == 0 {
      assert Joined(c[..0]) == [];
    } else {
      FoldedIsJoined(app, key, c[..n]);
    }
  }

  /** MAIN: a setting that appends ends up as the lists of all layers that set it, in layer order. */
  lemma ListsAccumulate(env: Env, name: string, ls: seq<Layer>, key: string)
    requires FinalFrom(env, name, None, ls).Some? && (key == LISTS || env.modes(name)(key))
    requires AllLists(LeafChain(Some(key), ChainOf(name, ls)))
    ensures var c := LeafChain(Some(key), ChainOf(name, ls));
      LeafIn(FinalFrom(env, name, None, ls).value, Some(key)) == if c == [] then None else Some(Setting(Items(Joined(c))))
  {
    hide FinalFrom, LeafChain, ChainOf, LeafIn, FoldedChain, Joined;
    var c := LeafChain(Some(key), ChainOf(name, ls));
    ChainFolds(env, name, ls, Some(key));
    if c != [] { FoldedIsJoined(env.modes(name), key, c); }
  }

  /** The rule's entry before and after expansion: the word lists go, and only their target may change. */
  ghost predicate Expands(env: Env, name: string, before: RuleCfg, after: RuleCfg)
  {
    && after.enabled == before.enabled && (env.target(name) != Some(LISTS) ==> LeafIn(after, Some(LISTS)) == None)
    && forall key | key != LISTS :: LeafIn(after, Some(key)) ==
         if LeafIn(before, Some(LISTS)).Some? && env.target(name) == Some(key) then TargetAfter(env, before, key) else LeafIn(before, Some(key))
  }

  /** What the word lists make of the target setting, which stays as it was if they make nothing of it. */
  function TargetAfter(env: Env, before: RuleCfg, key: string): Option<LeafValue>
    requires LeafIn(before, Some(LISTS)).Some?
  {
    var existing := LeafIn(before, Some(key));
    var more := env.expand(LeafIn(before, Some(LISTS)).value.v, if existing.Some? then Some(existing.value.v) else None);
    if more.Some? then Some(Setting(more.value)) else existing
  }

  lemma ExpandedExpands(env: Env, name: string, before: RuleCfg)
    ensures Expands(env, name, before, Expanded(env, name, before))
  {
  }

  /** MAIN: in the effective rules every rule's word lists, joined over the layers, are expanded into its target. */
  lemma WordListsExpand(env: Env, cfg: Config, path: string, kinds: seq<string>, name: string)
    requires name != REQUIRED && (cfg.preset != map[] ==> cfg.convention != "")
    ensures var ls, rules := Layers(env, cfg, path, kinds), EffectiveRules(env, cfg, path, kinds);
      var final, c := FinalFrom(env, name, None, ls), LeafChain(Some(LISTS), ChainOf(name, ls));
      && (name in rules <==> final.Some?)
      && (name in rules ==> Expands(env, name, final.value, rules[name]))
      && (name in rules && c != [] && AllLists(c) ==> LeafIn(final.value, Some(LISTS)) == Some(Setting(Items(Joined(c)))))
  {
    var ls, merged := Layers(env, cfg, path, kinds), BeforeExpansion(env, cfg, path, kinds);
    hide FinalFrom, LeafChain, ChainOf, LeafIn, Joined, Layers, BeforeExpansion, Expanded, Expands, AllLists;
    MergedIsFinal(env, cfg, path, kinds, name);
    if name in merged {
      ExpandedExpands(env, name, merged[name]);
      if AllLists(LeafChain(Some(LISTS), ChainOf(name, ls))) { ListsAccumulate(env, name, ls, LISTS); }
    }
  }

}
