/**
  Merging one rule's configuration from two layers: maps key by key, lists by the key's mode,
  everything else replaced. A nil list and an empty one are not told apart.
 */
module Settings {

  import opened Wrappers

  datatype Val = Scalar(s: string) | Dict(m: map<string, Val>) | Items(xs: seq<Val>)

  datatype RuleCfg = RuleCfg(enabled: bool, settings: Option<map<string, Val>>)

  /** Which settings of the rule at hand append; word-list references always do. */
  type Modes = string -> bool

  const LISTS := "lists"

  predicate Appends(app: Modes, key: string)
  {
    key == LISTS || app(key)
  }

  function MergeVal(app: Modes, key: string, earlier: Val, later: Val): Val
    decreases later
  {
    match (earlier, later)
    case (Dict(e), Dict(l)) =>
      Dict(map k | k in e.Keys + l.Keys ::
             if k in e && k in l then MergeVal(app, k, e[k], l[k]) else if k in l then l[k] else e[k])
    case (Items(e), Items(l)) => if Appends(app, key) then Items(e + l) else later
    case _ => later
  }

  function MergeMap(app: Modes, earlier: map<string, Val>, later: map<string, Val>): map<string, Val>
  {
    MergeVal(app, "", Dict(earlier), Dict(later)).m
  }

  function MergeRule(app: Modes, earlier: RuleCfg, later: RuleCfg): RuleCfg
  {
    RuleCfg(later.enabled,
            if later.settings.None? then earlier.settings
            else if earlier.settings.None? then later.settings
            else Some(MergeMap(app, earlier.settings.value, later.settings.value)))
  }

  /** The keys still to do are as in the earlier map. */
  ghost predicate PartMerged(app: Modes, earlier: map<string, Val>, later: map<string, Val>, keys: set<string>, out: map<string, Val>)
  {
    && keys <= later.Keys && out.Keys == earlier.Keys + (later.Keys - keys)
    && forall k | k in out ::
         out[k] == if k in keys || k !in later then earlier[k]
                   else if k in earlier then MergeVal(app, k, earlier[k], later[k]) else later[k]
  }

  lemma PartStep(app: Modes, earlier: map<string, Val>, later: map<string, Val>, keys: set<string>, out: map<string, Val>, k: string)
    requires PartMerged(app, earlier, later, keys, out) && k in keys
    ensures PartMerged(app, earlier, later, keys - {k}, out[k := if k in out then MergeVal(app, k, out[k], later[k]) else later[k]])
  {
    hide MergeVal;
  }

  lemma PartDone(app: Modes, earlier: map<string, Val>, later: map<string, Val>, out: map<string, Val>)
    requires PartMerged(app, earlier, later, {}, out)
    ensures out == MergeMap(app, earlier, later)
  {
    MergedKeys(app, "", earlier, later);
    forall k | k in out ensures out[k] == MergeMap(app, earlier, later)[k] { MergedAt(app, "", earlier, later, k); }
    hide MergeVal;
  }

  /** Key by key over the later map, in whatever order its keys come. */
  method MergeSettingsMap(app: Modes, earlier: map<string, Val>, later: map<string, Val>) returns (out: map<string, Val>)
    ensures out == MergeMap(app, earlier, later)
  {
    hide MergeVal, MergeMap;
    out := earlier;
    var keys := later.Keys;
    assert PartMerged(app, earlier, later, keys, out);
    while keys != {}
      invariant keys <= later.Keys && PartMerged(app, earlier, later, keys, out)
      decreases |keys|
    {
      hide *;
      SomeKey(keys);
      var k :| k in keys;
      PartStep(app, earlier, later, keys, out, k);
      out := out[k := if k in out then MergeVal(app, k, out[k], later[k]) else later[k]];
      keys := keys - {k};
    }
    PartDone(app, earlier, later, out);
  }

  lemma SomeKey(keys: set<string>)
    requires keys != {}
    ensures exists k :: k in keys
  {
    if forall k :: k !in keys { assert false; }
  }

  // ----- When merging is associative -----

  predicate SameShape(a: Val, b: Val)
  {
    (a.Scalar? <==> b.Scalar?) && (a.Dict? <==> b.Dict?)
  }

  /** Everything in `a` is overwritten by `c`. */
  predicate Absorbed(app: Modes, key: string, a: Val, c: Val)
    decreases c
  {
    match (a, c)
    case (Dict(e), Dict(l)) => forall k | k in e :: k in l && Absorbed(app, k, e[k], l[k])
    case (Items(e), Items(_)) => Appends(app, key) ==> e == []
    case _ => true
  }

  lemma {:induction false} AbsorbedIff(app: Modes, key: string, a: Val, c: Val)
    ensures Absorbed(app, key, a, c) <==> MergeVal(app, key, a, c) == c
    decreases c
  {
    match (a, c)
    case (Dict(e), Dict(l)) =>
      forall k | k in e && k in l { AbsorbedIff(app, k, e[k], l[k]); }
      var merged := MergeVal(app, key, a, c).m;
      if merged == l {
        forall k | k in e ensures k in l && Absorbed(app, k, e[k], l[k]) { assert k in merged && merged[k] == l[k]; }
      }
      if Absorbed(app, key, a, c) { assert merged == l; }
    case (Items(e), Items(l)) =>
      if e + l == l { assert |e + l| == |e| + |l|; }
      if e == [] { assert e + l == l; }
    case _ =>
  }

  /**
    The middle layer agrees in shape with the last, or the first is overwritten by the last anyway;
    and so on at every key that all three set.
   */
  predicate Regroups(app: Modes, key: string, a: Val, b: Val, c: Val)
    decreases b
  {
    if !SameShape(b, c) then Absorbed(app, key, a, c)
    else if a.Dict? && b.Dict? then forall k | k in a.m && k in b.m && k in c.m :: Regroups(app, k, a.m[k], b.m[k], c.m[k])
    else true
  }

  lemma MergedAt(app: Modes, key: string, e: map<string, Val>, l: map<string, Val>, k: string)
    requires k in e || k in l
    ensures k in MergeVal(app, key, Dict(e), Dict(l)).m
    ensures MergeVal(app, key, Dict(e), Dict(l)).m[k] ==
            if k in e && k in l then MergeVal(app, k, e[k], l[k]) else if k in l then l[k] else e[k]
  {
  }

  lemma MergedShape(app: Modes, key: string, a: Val, b: Val)
    ensures SameShape(MergeVal(app, key, a, b), b)
  {
  }

  /** MAIN: three layers may be merged in either grouping exactly when the condition holds. */
  lemma {:induction false} AssociatesIff(app: Modes, key: string, a: Val, b: Val, c: Val)
    ensures MergeVal(app, key, MergeVal(app, key, a, b), c) == MergeVal(app, key, a, MergeVal(app, key, b, c)) <==>
            Regroups(app, key, a, b, c)
    decreases b
  {
    MergedShape(app, key, a, b);
    MergedShape(app, key, b, c);
    if !SameShape(b, c) {
      AbsorbedIff(app, key, a, c);
    } else if a.Dict? && b.Dict? {
      AssociatesAtKeys(app, key, a.m, b.m, c.m);
    } else if a.Items? && b.Items? {
      assert a.xs + b.xs + c.xs == a.xs + (b.xs + c.xs);
    }
  }

  lemma {:induction false} AssociatesAtKey(app: Modes, key: string, a: map<string, Val>, b: map<string, Val>, c: map<string, Val>, k: string)
    requires k in a || k in b || k in c
    ensures var left := MergeVal(app, key, MergeVal(app, key, Dict(a), Dict(b)), Dict(c));
      var right := MergeVal(app, key, Dict(a), MergeVal(app, key, Dict(b), Dict(c)));
      && left.Dict? && right.Dict? && k in left.m && k in right.m
      && (left.m[k] == right.m[k] <==> (k in a && k in b && k in c ==> Regroups(app, k, a[k], b[k], c[k])))
    decreases Dict(b), 0
  {
    MergedShape(app, key, Dict(a), Dict(b));
    MergedShape(app, key, Dict(b), Dict(c));
    var ab, bc := MergeVal(app, key, Dict(a), Dict(b)).m, MergeVal(app, key, Dict(b), Dict(c)).m;
    MergedShape(app, key, Dict(ab), Dict(c));
    MergedShape(app, key, Dict(a), Dict(bc));
    MergedKeys(app, key, a, b);
    MergedKeys(app, key, b, c);
    if k in a || k in b { MergedAt(app, key, a, b, k); }
    if k in b || k in c { MergedAt(app, key, b, c, k); }
    MergedAt(app, key, ab, c, k);
    MergedAt(app, key, a, bc, k);
    if k in a && k in b && k in c { AssociatesIff(app, k, a[k], b[k], c[k]); }
    hide *;
  }

  lemma MergedKeys(app: Modes, key: string, e: map<string, Val>, l: map<string, Val>)
    ensures MergeVal(app, key, Dict(e), Dict(l)).Dict?
    ensures MergeVal(app, key, Dict(e), Dict(l)).m.Keys == e.Keys + l.Keys
  {
  }

  lemma {:induction false} AssociatesAtKeys(app: Modes, key: string, a: map<string, Val>, b: map<string, Val>, c: map<string, Val>)
    ensures MergeVal(app, key, MergeVal(app, key, Dict(a), Dict(b)), Dict(c)) ==
            MergeVal(app, key, Dict(a), MergeVal(app, key, Dict(b), Dict(c))) <==>
            forall k | k in a && k in b && k in c :: Regroups(app, k, a[k], b[k], c[k])
    decreases Dict(b), 1
  {
    hide MergeVal, Regroups;
    MergedKeys(app, key, a, b);
    MergedKeys(app, key, b, c);
    var ab, bc := MergeVal(app, key, Dict(a), Dict(b)).m, MergeVal(app, key, Dict(b), Dict(c)).m;
    MergedKeys(app, key, ab, c);
    MergedKeys(app, key, a, bc);
    var left, right := MergeVal(app, key, Dict(ab), Dict(c)).m, MergeVal(app, key, Dict(a), Dict(bc)).m;
    assert left.Keys == right.Keys;
    forall k | k in left
      ensures left[k] == right[k] <==> (k in a && k in b && k in c ==> Regroups(app, k, a[k], b[k], c[k]))
    {
      AssociatesAtKey(app, key, a, b, c, k);
    }
    if forall k | k in a && k in b && k in c :: Regroups(app, k, a[k], b[k], c[k]) {
      assert left == right;
    }
    if left == right {
      forall k | k in a && k in b && k in c ensures Regroups(app, k, a[k], b[k], c[k]) { assert k in left; }
    }
  }

  /** Two layers agree on the shape of every key path both set. */
  predicate Agree(a: Val, b: Val)
    decreases b
  {
    && SameShape(a, b)
    && (a.Dict? && b.Dict? ==> forall k | k in a.m && k in b.m :: Agree(a.m[k], b.m[k]))
  }

  lemma {:induction false} AgreeRegroups(app: Modes, key: string, a: Val, b: Val, c: Val)
    requires Agree(a, b) && Agree(b, c) && Agree(a, c)
    ensures Regroups(app, key, a, b, c)
    decreases b
  {
    if a.Dict? && b.Dict? {
      forall k | k in a.m && k in b.m && k in c.m ensures Regroups(app, k, a.m[k], b.m[k], c.m[k]) {
        AgreeRegroups(app, k, a.m[k], b.m[k], c.m[k]);
      }
    }
  }

  /** MAIN: whole rule configurations; a layer without settings keeps the inherited ones and never gets in the way. */
  lemma RuleAssociatesIff(app: Modes, a: RuleCfg, b: RuleCfg, c: RuleCfg)
    ensures MergeRule(app, MergeRule(app, a, b), c) == MergeRule(app, a, MergeRule(app, b, c)) <==>
            (a.settings.Some? && b.settings.Some? && c.settings.Some? ==>
               Regroups(app, "", Dict(a.settings.value), Dict(b.settings.value), Dict(c.settings.value)))
  {
    if a.settings.Some? && b.settings.Some? && c.settings.Some? {
      AssociatesIff(app, "", Dict(a.settings.value), Dict(b.settings.value), Dict(c.settings.value));
      MergedShape(app, "", Dict(a.settings.value), Dict(b.settings.value));
      MergedShape(app, "", Dict(b.settings.value), Dict(c.settings.value));
    }
  }

  /** MAIN: layers that agree on shapes merge associatively. */
  lemma AgreeingLayersAssociate(app: Modes, a: RuleCfg, b: RuleCfg, c: RuleCfg)
    requires a.settings.Some? && b.settings.Some? ==> Agree(Dict(a.settings.value), Dict(b.settings.value))
    requires b.settings.Some? && c.settings.Some? ==> Agree(Dict(b.settings.value), Dict(c.settings.value))
    requires a.settings.Some? && c.settings.Some? ==> Agree(Dict(a.settings.value), Dict(c.settings.value))
    ensures MergeRule(app, MergeRule(app, a, b), c) == MergeRule(app, a, MergeRule(app, b, c))
  {
    RuleAssociatesIff(app, a, b, c);
    if a.settings.Some? && b.settings.Some? && c.settings.Some? {
      AgreeRegroups(app, "", Dict(a.settings.value), Dict(b.settings.value), Dict(c.settings.value));
    }
  }

}
