/**
  Settings as the nested mutable maps and slices they are. Copying and merging leave every existing node
  alone and build their result from new nodes only, so the merge code may go on and write into it.
 */
module SettingsHeap {

  import opened Wrappers
  import opened Settings
  import opened ConfigLayers

  class MapNode {
    var entries: map<string, Ref>

    constructor ()
      ensures entries == map[]
    {
      entries := map[];
    }
  }

  datatype Ref = Leaf(s: string) | MapRef(node: MapNode) | SliceRef(cells: array<Ref>)

  datatype RuleRef = RuleRef(enabled: bool, settings: Option<MapNode>)

  /** The reference stands for the value, by way of nodes in the footprint only. */
  ghost predicate Rep(r: Ref, v: Val, fp: set<object>)
    reads fp
    decreases v
  {
    match (r, v)
    case (Leaf(s), Scalar(t)) => s == t
    case (MapRef(node), Dict(m)) =>
      && node in fp && node.entries.Keys == m.Keys
      && forall k | k in m :: Rep(node.entries[k], m[k], fp)
    case (SliceRef(cells), Items(xs)) =>
      && cells in fp && cells.Length == |xs|
      && forall i | 0 <= i < |xs| :: Rep(cells[i], xs[i], fp)
    case _ => false
  }

  ghost predicate RepRule(r: RuleRef, rc: RuleCfg, fp: set<object>)
    reads fp
  {
    && r.enabled == rc.enabled && (r.settings.Some? <==> rc.settings.Some?)
    && (r.settings.Some? ==> Rep(MapRef(r.settings.value), Dict(rc.settings.value), fp))
  }

  lemma {:induction false} RepGrows(r: Ref, v: Val, fp: set<object>, larger: set<object>)
    requires Rep(r, v, fp) && fp <= larger
    ensures Rep(r, v, larger)
    decreases v
  {
    match v
    case Scalar(_) =>
    case Dict(m) => forall k | k in m ensures Rep(r.node.entries[k], m[k], larger) { RepGrows(r.node.entries[k], m[k], fp, larger); }
    case Items(xs) => forall i | 0 <= i < |xs| ensures Rep(r.cells[i], xs[i], larger) { RepGrows(r.cells[i], xs[i], fp, larger); }
  }

  /** Entries of a node under construction. */
  ghost predicate RepEntries(entries: map<string, Ref>, m: map<string, Val>, fp: set<object>)
    reads fp
  {
    entries.Keys == m.Keys && forall k | k in m :: Rep(entries[k], m[k], fp)
  }

  ghost predicate RepCells(cells: seq<Ref>, xs: seq<Val>, fp: set<object>)
    reads fp
  {
    |cells| == |xs| && forall i | 0 <= i < |xs| :: Rep(cells[i], xs[i], fp)
  }

  /** The node stands for the settings and is not among the nodes below it. */
  ghost predicate Settled(node: MapNode, m: map<string, Val>, fp: set<object>)
    reads fp
  {
    node in fp && RepEntries(node.entries, m, fp - {node})
  }

  /** A rule's configuration whose settings may be written to. */
  ghost predicate OwnRule(r: RuleRef, rc: RuleCfg, fp: set<object>)
    reads fp
  {
    && r.enabled == rc.enabled && (r.settings.Some? <==> rc.settings.Some?)
    && (r.settings.Some? ==> Settled(r.settings.value, rc.settings.value, fp))
  }

  lemma SettledRep(node: MapNode, m: map<string, Val>, fp: set<object>)
    requires Settled(node, m, fp)
    ensures Rep(MapRef(node), Dict(m), fp)
  {
    EntriesGrow(node.entries, m, fp - {node}, fp);
    hide Rep;
    NodeOf(node, m, fp);
  }

  lemma NodeSettled(node: MapNode, m: map<string, Val>, below: set<object>)
    requires RepEntries(node.entries, m, below) && node !in below
    ensures Settled(node, m, below + {node}) && Rep(MapRef(node), Dict(m), below + {node})
  {
    assert below + {node} - {node} == below;
    SettledRep(node, m, below + {node});
  }

  // ----- Copying -----

  function Restricted(m: map<string, Val>, keys: set<string>): map<string, Val>
  {
    map k | k in m && k in keys :: m[k]
  }

  method CloneAny(r: Ref, ghost v: Val, ghost fp: set<object>) returns (out: Ref, ghost ofp: set<object>)
    requires Rep(r, v, fp)
    ensures Rep(out, v, ofp) && fresh(ofp)
    decreases v, 2
  {
    match r
    case Leaf(_) => out, ofp := r, {};
    case MapRef(node) =>
      var copy;
      copy, ofp := CloneSettings(node, v.m, fp);
      out := MapRef(copy);
    case SliceRef(cells) =>
      var copy;
      copy, ofp := CloneSlice(cells, v.xs, fp);
      out := SliceRef(copy);
  }

  method CloneSettings(node: MapNode, ghost m: map<string, Val>, ghost fp: set<object>) returns (out: MapNode, ghost ofp: set<object>)
    requires Rep(MapRef(node), Dict(m), fp)
    ensures Rep(MapRef(out), Dict(m), ofp) && Settled(out, m, ofp) && fresh(ofp)
    decreases Dict(m), 1
  {
    hide *;
    ghost var below;
    out, below := CloneEntries(node, m, fp);
    NodeSettled(out, m, below);
    ofp := below + {out};
  }

  /** A new node with copies of all entries; `below` is what the copies are made of. */
  method CloneEntries(node: MapNode, ghost m: map<string, Val>, ghost fp: set<object>) returns (out: MapNode, ghost below: set<object>)
    requires Rep(MapRef(node), Dict(m), fp)
    ensures RepEntries(out.entries, m, below) && fresh(out) && fresh(below) && out !in below
    decreases Dict(m), 0
  {
    hide *;
    out := new MapNode();
    below := {};
    var keys := node.entries.Keys;
    KeysOf(node, m, fp);
    RestrictedEnds(m);
    NoEntries(below);
    while keys != {}
      invariant keys <= m.Keys && node.entries == old(node.entries) && Rep(MapRef(node), Dict(m), fp)
      invariant fresh(out) && fresh(below) && out !in below
      invariant RepEntries(out.entries, Restricted(m, m.Keys - keys), below)
      decreases |keys|
    {
      SomeKey(keys);
      var k :| k in keys;
      EntryOf(node, m, fp, k);
      var c, cfp := CloneAny(node.entries[k], m[k], fp);
      EntriesExtend(out.entries, Restricted(m, m.Keys - keys), below, k, c, m[k], cfp);
      below := below + cfp;
      RestrictedStep(m, keys, k);
      Store(out, k, c, Restricted(m, m.Keys - (keys - {k})), below);
      keys := keys - {k};
    }
    assert m.Keys - keys == m.Keys;
  }

  lemma NoEntries(fp: set<object>)
    ensures RepEntries(map[], map[], fp)
  {
  }

  lemma EntryOf(node: MapNode, m: map<string, Val>, fp: set<object>, k: string)
    requires Rep(MapRef(node), Dict(m), fp) && k in m
    ensures k in node.entries && Rep(node.entries[k], m[k], fp)
  {
  }

  lemma NodeOf(node: MapNode, m: map<string, Val>, fp: set<object>)
    requires node in fp && RepEntries(node.entries, m, fp)
    ensures Rep(MapRef(node), Dict(m), fp)
  {
  }

  lemma EntriesPut(entries: map<string, Ref>, m: map<string, Val>, fp: set<object>, k: string, c: Ref, v: Val)
    requires RepEntries(entries, m, fp) && Rep(c, v, fp)
    ensures RepEntries(entries[k := c], m[k := v], fp)
  {
    hide Rep;
  }

  lemma RestrictedEnds(m: map<string, Val>)
    ensures Restricted(m, m.Keys) == m && Restricted(m, m.Keys - m.Keys) == map[]
  {
  }

  lemma RestrictedStep(m: map<string, Val>, keys: set<string>, k: string)
    requires keys <= m.Keys && k in keys
    ensures Restricted(m, m.Keys - (keys - {k})) == Restricted(m, m.Keys - keys)[k := m[k]]
  {
  }

  lemma EntriesGrow(entries: map<string, Ref>, m: map<string, Val>, fp: set<object>, larger: set<object>)
    requires RepEntries(entries, m, fp) && fp <= larger
    ensures RepEntries(entries, m, larger)
  {
    forall k | k in m ensures Rep(entries[k], m[k], larger) { RepGrows(entries[k], m[k], fp, larger); }
  }

  lemma CellsGrow(cells: seq<Ref>, xs: seq<Val>, fp: set<object>, larger: set<object>)
    requires RepCells(cells, xs, fp) && fp <= larger
    ensures RepCells(cells, xs, larger)
  {
    forall i | 0 <= i < |xs| ensures Rep(cells[i], xs[i], larger) { RepGrows(cells[i], xs[i], fp, larger); }
  }

  lemma CellOf(cells: array<Ref>, xs: seq<Val>, fp: set<object>, i: nat)
    requires Rep(SliceRef(cells), Items(xs), fp) && i < |xs|
    ensures i < cells.Length && Rep(cells[i], xs[i], fp)
  {
  }

  lemma CellsPut(cells: seq<Ref>, xs: seq<Val>, fp: set<object>, c: Ref, v: Val)
    requires RepCells(cells, xs, fp) && Rep(c, v, fp)
    ensures RepCells(cells + [c], xs + [v], fp)
  {
    hide Rep;
  }

  method CloneSlice(cells: array<Ref>, ghost xs: seq<Val>, ghost fp: set<object>) returns (out: array<Ref>, ghost ofp: set<object>)
    requires Rep(SliceRef(cells), Items(xs), fp)
    ensures Rep(SliceRef(out), Items(xs), ofp) && fresh(ofp)
    decreases Items(xs), 0
  {
    out := new Ref[cells.Length](_ => Leaf(""));
    ghost var below: set<object> := {};
    assert cells.Length == |xs|;
    for i := 0 to cells.Length
      invariant Rep(SliceRef(cells), Items(xs), fp) && out.Length == cells.Length
      invariant fresh(out) && fresh(below) && out !in below
      invariant RepCells(out[..i], xs[..i], below)
    {
      hide *;
      CellOf(cells, xs, fp, i);
      var c, cfp := CloneAny(cells[i], xs[i], fp);
      CellsGrow(out[..i], xs[..i], below, below + cfp);
      RepGrows(c, xs[i], cfp, below + cfp);
      below := below + cfp;
      CellsPut(out[..i], xs[..i], below, c, xs[i]);
      assert out[..i] + [c] == out[..i + 1][i := c] && xs[..i] + [xs[i]] == xs[..i + 1];
      ghost var next := out[..i] + [c];
      out[i] := c;
      assert out[..i + 1] == next;
    }
    assert out[..out.Length] == out[..] && xs[..|xs|] == xs;
    CellsGrow(out[..], xs, below, below + {out});
    ofp := below + {out};
  }

  // ----- Merging -----

  lemma PresentOf(entries: map<string, Ref>, m: map<string, Val>, fp: set<object>, k: string)
    requires RepEntries(entries, m, fp)
    ensures k in entries <==> k in m
    ensures k in m ==> Rep(entries[k], m[k], fp)
  {
  }

  lemma PartStart(app: Modes, e: map<string, Val>, l: map<string, Val>)
    ensures PartMerged(app, e, l, l.Keys, e)
  {
  }

  /** Copies the earlier entries and merges the later ones into the copy, in whatever order they come. */
  method MergeSettingsMap(app: Modes, earlier: MapNode, later: MapNode, ghost e: map<string, Val>, ghost l: map<string, Val>, ghost fp: set<object>)
    returns (out: MapNode, ghost ofp: set<object>)
    requires Rep(MapRef(earlier), Dict(e), fp) && Rep(MapRef(later), Dict(l), fp)
    ensures Rep(MapRef(out), Dict(MergeMap(app, e, l)), ofp) && Settled(out, MergeMap(app, e, l), ofp) && fresh(ofp)
    decreases Dict(l), 1
  {
    hide *;
    ghost var below;
    out, below := CloneEntries(earlier, e, fp);
    below := MergeLater(app, out, later, e, l, fp, below);
    NodeSettled(out, MergeMap(app, e, l), below);
    ofp := below + {out};
  }

  /** Merges the later entries into the copy of the earlier ones. */
  method MergeLater(app: Modes, node: MapNode, later: MapNode, ghost e: map<string, Val>, ghost l: map<string, Val>,
                    ghost fp: set<object>, ghost below: set<object>)
    returns (ghost larger: set<object>)
    requires RepEntries(node.entries, e, below) && Rep(MapRef(later), Dict(l), fp) && node !in below && node !in fp
    modifies node
    ensures RepEntries(node.entries, MergeMap(app, e, l), larger)
    ensures below <= larger && fresh(larger - below) && node !in larger
    decreases Dict(l), 0
  {
    hide *;
    var keys := later.entries.Keys;
    ghost var merged := e;
    larger := below;
    PartStart(app, e, l);
    KeysOf(later, l, fp);
    while keys != {}
      invariant keys <= l.Keys && Rep(MapRef(later), Dict(l), fp)
      invariant below <= larger && fresh(larger - below) && node !in larger
      invariant RepEntries(node.entries, merged, larger) && PartMerged(app, e, l, keys, merged)
      decreases |keys|
    {
      SomeKey(keys);
      var k :| k in keys;
      EntryOf(later, l, fp, k);
      PartStep(app, e, l, keys, merged, k);
      larger := MergeInto(app, k, node, later.entries[k], merged, l[k], fp, larger);
      merged := merged[k := if k in merged then MergeVal(app, k, merged[k], l[k]) else l[k]];
      keys := keys - {k};
    }
    PartDone(app, e, l, merged);
  }

  lemma EntriesExtend(entries: map<string, Ref>, m: map<string, Val>, below: set<object>, k: string, c: Ref, v: Val, cfp: set<object>)
    requires RepEntries(entries, m, below) && Rep(c, v, cfp)
    ensures RepEntries(entries[k := c], m[k := v], below + cfp)
  {
    hide *;
    EntriesGrow(entries, m, below, below + cfp);
    RepGrows(c, v, cfp, below + cfp);
    EntriesPut(entries, m, below + cfp, k, c, v);
  }

  /** Writes an entry into a node that is not among those below it. */
  method Store(node: MapNode, k: string, c: Ref, ghost m: map<string, Val>, ghost below: set<object>)
    requires RepEntries(node.entries[k := c], m, below) && node !in below
    modifies node
    ensures RepEntries(node.entries, m, below)
  {
    hide *;
    var next := node.entries[k := c];
    assert RepEntries(next, m, below);
    node.entries := next;
  }

  /** One later entry, merged with the copy of the earlier one if there is one. */
  method MergeEntry(app: Modes, k: string, entries: map<string, Ref>, later: Ref, ghost m: map<string, Val>, ghost l: Val,
                    ghost fp: set<object>, ghost below: set<object>)
    returns (c: Ref, ghost cfp: set<object>)
    requires RepEntries(entries, m, below) && Rep(later, l, fp)
    ensures Rep(c, if k in m then MergeVal(app, k, m[k], l) else l, cfp) && fresh(cfp)
    decreases l, 3
  {
    hide *;
    PresentOf(entries, m, below, k);
    if k !in entries {
      c, cfp := CloneAny(later, l, fp);
    } else {
      RepGrows(later, l, fp, fp + below);
      RepGrows(entries[k], m[k], below, fp + below);
      c, cfp := MergeAny(app, k, entries[k], later, m[k], l, fp + below);
    }
  }

  /** One step of the merge: the entry is merged and written into the node being built. */
  method MergeInto(app: Modes, k: string, node: MapNode, later: Ref, ghost m: map<string, Val>, ghost l: Val,
                   ghost fp: set<object>, ghost below: set<object>)
    returns (ghost larger: set<object>)
    requires RepEntries(node.entries, m, below) && Rep(later, l, fp) && node !in below
    modifies node
    ensures RepEntries(node.entries, m[k := if k in m then MergeVal(app, k, m[k], l) else l], larger)
    ensures below <= larger && fresh(larger - below) && node !in larger
    decreases l, 4
  {
    hide *;
    ghost var v := if k in m then MergeVal(app, k, m[k], l) else l;
    var c, cfp := MergeEntry(app, k, node.entries, later, m, l, fp, below);
    EntriesExtend(node.entries, m, below, k, c, v, cfp);
    larger := below + cfp;
    Store(node, k, c, m[k := v], larger);
  }

  lemma KeysOf(node: MapNode, m: map<string, Val>, fp: set<object>)
    requires Rep(MapRef(node), Dict(m), fp)
    ensures node.entries.Keys == m.Keys
  {
  }

  method Joined(first: array<Ref>, second: array<Ref>, ghost xs: seq<Val>, ghost ys: seq<Val>, ghost fp: set<object>)
    returns (out: array<Ref>, ghost ofp: set<object>)
    requires Rep(SliceRef(first), Items(xs), fp) && Rep(SliceRef(second), Items(ys), fp)
    ensures Rep(SliceRef(out), Items(xs + ys), ofp) && fresh(ofp - fp) && fp <= ofp
  {
    var n := first.Length;
    out := new Ref[n + second.Length](i requires 0 <= i < n + second.Length reads first, second =>
                                        if i < n then first[i] else second[i - n]);
    ofp := fp + {out};
    forall i | 0 <= i < |xs + ys| ensures Rep(out[i], (xs + ys)[i], ofp) {
      RepGrows(out[i], (xs + ys)[i], fp, ofp);
    }
  }

  method MergeAny(app: Modes, key: string, earlier: Ref, later: Ref, ghost e: Val, ghost l: Val, ghost fp: set<object>)
    returns (out: Ref, ghost ofp: set<object>)
    requires Rep(earlier, e, fp) && Rep(later, l, fp)
    ensures Rep(out, MergeVal(app, key, e, l), ofp) && fresh(ofp)
    decreases l, 2
  {
    if earlier.MapRef? && later.MapRef? {
      var node;
      node, ofp := MergeSettingsMap(app, earlier.node, later.node, e.m, l.m, fp);
      out := MapRef(node);
    } else if earlier.SliceRef? && later.SliceRef? && Appends(app, key) {
      var first, ffp := CloneSlice(earlier.cells, e.xs, fp);
      var second, sfp := CloneSlice(later.cells, l.xs, fp);
      RepGrows(SliceRef(first), e, ffp, ffp + sfp);
      RepGrows(SliceRef(second), l, sfp, ffp + sfp);
      var both;
      both, ofp := Joined(first, second, e.xs, l.xs, ffp + sfp);
      out := SliceRef(both);
    } else {
      out, ofp := CloneAny(later, l, fp);
    }
  }

  /** The whole of one rule's merge; a layer without settings keeps the inherited ones, copied all the same. */
  method MergeRuleCfg(app: Modes, earlier: RuleRef, later: RuleRef, ghost e: RuleCfg, ghost l: RuleCfg, ghost fp: set<object>)
    returns (out: RuleRef, ghost ofp: set<object>)
    requires RepRule(earlier, e, fp) && RepRule(later, l, fp)
    ensures RepRule(out, MergeRule(app, e, l), ofp) && OwnRule(out, MergeRule(app, e, l), ofp) && fresh(ofp)
  {
    hide Rep, Settled;
    ofp := {};
    if later.settings.None? && earlier.settings.None? {
      out := RuleRef(later.enabled, None);
    } else {
      var node;
      if later.settings.None? {
        node, ofp := CloneSettings(earlier.settings.value, e.settings.value, fp);
      } else if earlier.settings.None? {
        node, ofp := CloneSettings(later.settings.value, l.settings.value, fp);
      } else {
        node, ofp := MergeSettingsMap(app, earlier.settings.value, later.settings.value, e.settings.value, l.settings.value, fp);
      }
      out := RuleRef(later.enabled, Some(node));
    }
  }

  // ----- Writing into the result -----

  /** Appends an entry to a list setting, in a new slice stored in the node itself. */
  method AppendEntry(node: MapNode, key: string, entry: Ref, ghost m: map<string, Val>, ghost v: Val, ghost below: set<object>)
    returns (ghost larger: set<object>)
    requires RepEntries(node.entries, m, below) && Rep(entry, v, below) && node !in below
    modifies node
    ensures RepEntries(node.entries, m[key := Items(ListIn(m, key) + [v])], larger)
    ensures below <= larger && fresh(larger - below) && node !in larger
  {
    var existing := if key in node.entries && node.entries[key].SliceRef? then Some(node.entries[key].cells) else None;
    PresentOf(node.entries, m, below, key);
    var cells;
    cells, larger := Extended(existing, entry, ListIn(m, key), v, below);
    EntriesGrow(node.entries, m, below, larger);
    EntriesPut(node.entries, m, larger, key, SliceRef(cells), Items(ListIn(m, key) + [v]));
    Store(node, key, SliceRef(cells), m[key := Items(ListIn(m, key) + [v])], larger);
  }

  function ListIn(m: map<string, Val>, key: string): seq<Val>
  {
    if key in m && m[key].Items? then m[key].xs else []
  }

  method Extended(cells: Option<array<Ref>>, entry: Ref, ghost xs: seq<Val>, ghost v: Val, ghost below: set<object>)
    returns (out: array<Ref>, ghost larger: set<object>)
    requires if cells.Some? then Rep(SliceRef(cells.value), Items(xs), below) else xs == []
    requires Rep(entry, v, below)
    ensures Rep(SliceRef(out), Items(xs + [v]), larger) && below <= larger && fresh(larger - below) && fresh(out)
  {
    var first := if cells.Some? then cells.value[..] else [];
    out := new Ref[|first| + 1](i requires 0 <= i < |first| + 1 => if i < |first| then first[i] else entry);
    larger := below + {out};
    forall i | 0 <= i < |xs + [v]| ensures Rep(out[i], (xs + [v])[i], larger) {
      RepGrows(out[i], (xs + [v])[i], below, larger);
    }
  }

  /** Pushes an entry onto the rule in place, creating and enabling the rule and its settings where needed. */
  method PushEntry(rule: Option<RuleRef>, key: string, entry: Ref, ghost rc: Option<RuleCfg>, ghost v: Val, ghost fp: set<object>, ghost efp: set<object>)
    returns (out: RuleRef, ghost ofp: set<object>)
    requires rule.Some? <==> rc.Some?
    requires rule.Some? ==> OwnRule(rule.value, rc.value, fp)
    requires Rep(entry, v, efp) && fp !! efp
    modifies if rule.Some? && rule.value.settings.Some? then {rule.value.settings.value} else {}
    ensures OwnRule(out, Push(rc, key, v), ofp) && ofp >= efp && fresh(ofp - fp - efp)
  {
    var node;
    ghost var m, below := map[], {};
    if rule.Some? && rule.value.settings.Some? {
      node, m, below := rule.value.settings.value, rc.value.settings.value, fp - {rule.value.settings.value};
    } else {
      node := new MapNode();
      NoEntries({});
    }
    hide Rep;
    EntriesGrow(node.entries, m, below, below + efp);
    RepGrows(entry, v, efp, below + efp);
    ghost var larger := AppendEntry(node, key, entry, m, v, below + efp);
    ofp := larger + {node};
    NodeSettled(node, m[key := Items(ListIn(m, key) + [v])], larger);
    out := RuleRef(true, Some(node));
  }

  lemma OwnNode(r: RuleRef, rc: RuleCfg, fp: set<object>)
    requires OwnRule(r, rc, fp)
    ensures r.settings.Some? ==> r.settings.value in fp
  {
  }

  /**
    MAIN: merging two layers and pushing onto the result in place writes to new nodes only: both layers
    still stand for what they did, and the result for the merge with the entry pushed.
   */
  method MergeThenPush(app: Modes, earlier: RuleRef, later: RuleRef, key: string, entry: Ref,
                       ghost e: RuleCfg, ghost l: RuleCfg, ghost v: Val, ghost fp: set<object>)
    returns (out: RuleRef, ghost ofp: set<object>)
    requires RepRule(earlier, e, fp) && RepRule(later, l, fp) && Rep(entry, v, fp)
    ensures OwnRule(out, Push(Some(MergeRule(app, e, l)), key, v), ofp) && fresh(ofp - fp)
    ensures RepRule(earlier, e, fp) && RepRule(later, l, fp)
  {
    hide *;
    ghost var mfp;
    var merged;
    merged, mfp := MergeRuleCfg(app, earlier, later, e, l, fp);
    OwnNode(merged, MergeRule(app, e, l), mfp);
    out, ofp := PushEntry(Some(merged), key, entry, Some(MergeRule(app, e, l)), v, mfp, fp);
  }

}
