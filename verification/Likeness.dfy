/**
  When two values are the same for every later meet and validation: structs by name, lists by position,
  bounds as a set, and disjunctions by how often they hold each branch, marked and unmarked.
 */
module Likeness {

  import opened Wrappers
  import opened Values
  import opened Meet
  import opened MeetFacts
  import opened MeetLaws
  import opened Defaults
  import opened Semantics

  ghost predicate Alike(a: Value, b: Value)
    decreases a, 0, 0
  {
    match a
    case Bounded(k, bs) => b.Bounded? && k == b.base && SameBounds(bs, b.bounds)
    case Struct(fs, closed) =>
      && b.Struct? && closed == b.closed
      && (forall i :: 0 <= i < |fs| ==>
            && Find(b.fields, fs[i].name).Some?
            && fs[i].optional == Find(b.fields, fs[i].name).value.optional
            && Alike(fs[i].val, Find(b.fields, fs[i].name).value.val))
      && (forall f <- b.fields :: HasField(fs, f.name))
    case List(p, t) =>
      && b.List? && |p| == |b.prefix|
      && (forall i :: 0 <= i < |p| ==> Alike(p[i], b.prefix[i]))
      && (match t case Closed => b.tail.Closed? case Open(e) => b.tail.Open? && Alike(e, b.tail.elem))
    case Disj(bs) =>
      && b.Disj?
      && (forall i, m :: 0 <= i < |bs| ==> Tally(bs[i].v, bs, m) == Tally(bs[i].v, b.branches, m))
      && (forall j :: 0 <= j < |b.branches| ==> Offered(bs, b.branches[j].v))
    case _ => a == b
  }

  /** Some branch is like v. */
  ghost predicate Offered(bs: seq<Branch>, v: Value)
    decreases bs, 0, 0
  {
    exists i :: 0 <= i < |bs| && (assert bs[i].v < bs[i]; Alike(bs[i].v, v))
  }

  /** How many branches v is like, among the marked or the unmarked ones. */
  ghost function Tally(v: Value, bs: seq<Branch>, marked: bool): nat
    decreases v, 1, |bs|
  {
    if bs == [] then 0
    else
      var last := bs[|bs| - 1];
      Tally(v, bs[..|bs| - 1], marked) + (if Alike(v, last.v) && last.mode.Is? == marked then 1 else 0)
  }

  ghost predicate WfBranches(bs: seq<Branch>)
  {
    forall i | 0 <= i < |bs| :: Wf(bs[i].v)
  }

  // ----- Tallies -----

  lemma {:induction false} TallyAt(v: Value, bs: seq<Branch>, i: nat)
    requires i < |bs| && Alike(v, bs[i].v)
    ensures Tally(v, bs, bs[i].mode.Is?) >= 1
  {
    hide Alike;
    if i < |bs| - 1 { TallyAt(v, bs[..|bs| - 1], i); }
  }

  lemma {:induction false} TalliedAt(v: Value, bs: seq<Branch>, m: bool) returns (i: nat)
    requires Tally(v, bs, m) >= 1
    ensures i < |bs| && Alike(v, bs[i].v) && bs[i].mode.Is? == m
  {
    hide Alike;
    i := |bs| - 1;
    if !(Alike(v, bs[i].v) && bs[i].mode.Is? == m) { i := TalliedAt(v, bs[..|bs| - 1], m); }
  }

  lemma {:induction false} TallyTwo(v: Value, bs: seq<Branch>, i: nat, j: nat, m: bool)
    requires i < j < |bs| && Alike(v, bs[i].v) && Alike(v, bs[j].v) && bs[i].mode.Is? == bs[j].mode.Is? == m
    ensures Tally(v, bs, m) >= 2
  {
    hide Alike;
    if j == |bs| - 1 {
      assert bs[..j][i] == bs[i];
      TallyAt(v, bs[..j], i);
    } else {
      TallyTwo(v, bs[..|bs| - 1], i, j, m);
    }
  }

  /** Two values like the same branches have the same tallies. */
  lemma {:induction false} TallySame(v: Value, w: Value, bs: seq<Branch>, m: bool)
    requires forall i | 0 <= i < |bs| :: Alike(v, bs[i].v) == Alike(w, bs[i].v)
    ensures Tally(v, bs, m) == Tally(w, bs, m)
  {
    hide *;
    if bs == [] {
      TallyNone(v, m);
      TallyNone(w, m);
    } else {
      var n := |bs| - 1;
      TallyStep(v, bs, m);
      TallyStep(w, bs, m);
      assert forall i | 0 <= i < n :: bs[..n][i] == bs[i];
      TallySame(v, w, bs[..n], m);
    }
  }

  lemma TallyNone(v: Value, m: bool)
    ensures Tally(v, [], m) == 0
  {
  }

  lemma TallyStep(v: Value, bs: seq<Branch>, m: bool)
    requires bs != []
    ensures var last := bs[|bs| - 1];
      Tally(v, bs, m) == Tally(v, bs[..|bs| - 1], m) + (if Alike(v, last.v) && last.mode.Is? == m then 1 else 0)
  {
    hide Alike;
  }

  // ----- Reflexivity -----

  lemma {:induction false} AlikeRefl(a: Value)
    requires Wf(a)
    ensures Alike(a, a)
  {
    match a
    case Struct(fs, _) =>
      forall i | 0 <= i < |fs| ensures Alike(fs[i].val, fs[i].val) && Find(fs, fs[i].name) == Some(fs[i]) {
        AlikeRefl(fs[i].val);
        FindAt(fs, i);
      }
    case List(p, t) =>
      forall i | 0 <= i < |p| ensures Alike(p[i], p[i]) { AlikeRefl(p[i]); }
      if t.Open? { AlikeRefl(t.elem); }
    case Disj(bs) =>
      forall i | 0 <= i < |bs| ensures Alike(bs[i].v, bs[i].v) { AlikeRefl(bs[i].v); }
    case _ =>
  }

  // ----- Depth: alike values are equally deep -----

  function Max(a: nat, b: nat): nat { if a < b then b else a }

  ghost function Depth(v: Value): nat
  {
    match v
    case Disj(bs) => 1 + DepthOfBranches(bs)
    case Struct(fs, _) => 1 + DepthOfFields(fs)
    case List(p, t) => 1 + Max(DepthOfValues(p), match t case Closed => 0 case Open(e) => Depth(e))
    case _ => 0
  }

  ghost function DepthOfBranches(bs: seq<Branch>): nat
  {
    if bs == [] then 0
    else
      var last := bs[|bs| - 1];
      assert last.v < last;
      Max(DepthOfBranches(bs[..|bs| - 1]), Depth(last.v))
  }

  ghost function DepthOfFields(fs: seq<Field>): nat
  {
    if fs == [] then 0 else Max(DepthOfFields(fs[..|fs| - 1]), Depth(fs[|fs| - 1].val))
  }

  ghost function DepthOfValues(vs: seq<Value>): nat
  {
    if vs == [] then 0 else Max(DepthOfValues(vs[..|vs| - 1]), Depth(vs[|vs| - 1]))
  }

  lemma {:induction false} BranchDepth(bs: seq<Branch>, i: nat)
    requires i < |bs|
    ensures Depth(bs[i].v) <= DepthOfBranches(bs)
  {
    hide Depth;
    if i < |bs| - 1 { BranchDepth(bs[..|bs| - 1], i); }
  }

  lemma {:induction false} FieldDepth(fs: seq<Field>, i: nat)
    requires i < |fs|
    ensures Depth(fs[i].val) <= DepthOfFields(fs)
  {
    hide Depth;
    if i < |fs| - 1 { FieldDepth(fs[..|fs| - 1], i); }
  }

  lemma {:induction false} ValueDepth(vs: seq<Value>, i: nat)
    requires i < |vs|
    ensures Depth(vs[i]) <= DepthOfValues(vs)
  {
    hide Depth;
    if i < |vs| - 1 { ValueDepth(vs[..|vs| - 1], i); }
  }

  lemma {:induction false} BranchesWithin(bs: seq<Branch>, n: nat)
    requires forall i | 0 <= i < |bs| :: Depth(bs[i].v) <= n
    ensures DepthOfBranches(bs) <= n
  {
    hide Depth;
    if bs != [] {
      assert forall i | 0 <= i < |bs| - 1 :: bs[..|bs| - 1][i] == bs[i];
      BranchesWithin(bs[..|bs| - 1], n);
    }
  }

  lemma {:induction false} FieldsWithin(fs: seq<Field>, n: nat)
    requires forall i | 0 <= i < |fs| :: Depth(fs[i].val) <= n
    ensures DepthOfFields(fs) <= n
  {
    hide Depth;
    if fs != [] {
      assert forall i | 0 <= i < |fs| - 1 :: fs[..|fs| - 1][i] == fs[i];
      FieldsWithin(fs[..|fs| - 1], n);
    }
  }

  lemma {:induction false} ValuesWithin(vs: seq<Value>, n: nat)
    requires forall i | 0 <= i < |vs| :: Depth(vs[i]) <= n
    ensures DepthOfValues(vs) <= n
  {
    hide Depth;
    if vs != [] {
      assert forall i | 0 <= i < |vs| - 1 :: vs[..|vs| - 1][i] == vs[i];
      ValuesWithin(vs[..|vs| - 1], n);
    }
  }

  /** A branch of the first disjunction is like one of the second. */
  lemma Counterpart(a: Value, b: Value, i: nat) returns (j: nat)
    requires Wf(a) && a.Disj? && Alike(a, b) && i < |a.branches|
    ensures j < |b.branches| && Alike(a.branches[i].v, b.branches[j].v)
    ensures b.branches[j].mode.Is? == a.branches[i].mode.Is?
  {
    var bs, v := a.branches, a.branches[i].v;
    AlikeRefl(v);
    TallyAt(v, bs, i);
    j := TalliedAt(v, b.branches, bs[i].mode.Is?);
  }

  lemma {:induction false} AlikeDepth(a: Value, b: Value)
    requires Wf(a) && Wf(b) && Alike(a, b)
    ensures Depth(a) == Depth(b)
    decreases a
  {
    match a
    case Struct(fs, _) =>
      forall i | 0 <= i < |fs| ensures Depth(fs[i].val) <= DepthOfFields(b.fields) {
        AlikeDepth(fs[i].val, Find(b.fields, fs[i].name).value.val);
        FieldDepth(b.fields, IndexOf(b.fields, fs[i].name));
      }
      FieldsWithin(fs, DepthOfFields(b.fields));
      forall j | 0 <= j < |b.fields| ensures Depth(b.fields[j].val) <= DepthOfFields(fs) {
        assert b.fields[j] in b.fields;
        var i := IndexOf(fs, b.fields[j].name);
        FindAt(b.fields, j);
        AlikeDepth(fs[i].val, b.fields[j].val);
        FieldDepth(fs, i);
      }
      FieldsWithin(b.fields, DepthOfFields(fs));
    case List(p, t) =>
      forall i | 0 <= i < |p| ensures Depth(p[i]) == Depth(b.prefix[i]) { AlikeDepth(p[i], b.prefix[i]); }
      forall i | 0 <= i < |p| ensures Depth(p[i]) <= DepthOfValues(b.prefix) { ValueDepth(b.prefix, i); }
      forall i | 0 <= i < |p| ensures Depth(b.prefix[i]) <= DepthOfValues(p) { ValueDepth(p, i); }
      ValuesWithin(p, DepthOfValues(b.prefix));
      ValuesWithin(b.prefix, DepthOfValues(p));
      if t.Open? { AlikeDepth(t.elem, b.tail.elem); }
    case Disj(bs) =>
      forall i | 0 <= i < |bs| ensures Depth(bs[i].v) <= DepthOfBranches(b.branches) {
        var j := Counterpart(a, b, i);
        AlikeDepth(bs[i].v, b.branches[j].v);
        BranchDepth(b.branches, j);
      }
      BranchesWithin(bs, DepthOfBranches(b.branches));
      forall j | 0 <= j < |b.branches| ensures Depth(b.branches[j].v) <= DepthOfBranches(bs) {
        assert Offered(bs, b.branches[j].v);
        var i :| 0 <= i < |bs| && Alike(bs[i].v, b.branches[j].v);
        AlikeDepth(bs[i].v, b.branches[j].v);
        BranchDepth(bs, i);
      }
      BranchesWithin(b.branches, DepthOfBranches(bs));
    case _ =>
  }

  // ----- Symmetry and transitivity -----

  /** Alike values are like the same branches. */
  lemma {:induction false} TallyClass(v: Value, w: Value, bs: seq<Branch>, m: bool)
    requires Wf(v) && Wf(w) && WfBranches(bs) && Alike(v, w)
    ensures Tally(v, bs, m) == Tally(w, bs, m)
    decreases Depth(v), 2
  {
    hide Alike, Wf, Depth;
    AlikeDepth(v, w);
    AlikeSymmetric(v, w);
    forall i | 0 <= i < |bs| ensures Alike(v, bs[i].v) == Alike(w, bs[i].v) {
      if Alike(v, bs[i].v) { AlikeTransitive(w, v, bs[i].v); }
      if Alike(w, bs[i].v) { AlikeTransitive(v, w, bs[i].v); }
    }
    TallySame(v, w, bs, m);
  }

  lemma {:induction false} AlikeSymmetric(a: Value, b: Value)
    requires Wf(a) && Wf(b) && Alike(a, b)
    ensures Alike(b, a)
    decreases Depth(a), 1
  {
    match a
    case Struct(fs, _) =>
      forall j | 0 <= j < |b.fields|
        ensures var f := Find(fs, b.fields[j].name);
          f.Some? && f.value.optional == b.fields[j].optional && Alike(b.fields[j].val, f.value.val)
      {
        assert b.fields[j] in b.fields;
        var i := IndexOf(fs, b.fields[j].name);
        FindAt(b.fields, j);
        FieldDepth(fs, i);
        AlikeSymmetric(fs[i].val, b.fields[j].val);
      }
      forall f <- fs ensures HasField(b.fields, f.name) {
        var i :| 0 <= i < |fs| && fs[i] == f;
        assert Find(b.fields, fs[i].name).Some?;
      }
    case List(p, t) =>
      forall i | 0 <= i < |p| ensures Alike(b.prefix[i], p[i]) {
        ValueDepth(p, i);
        AlikeSymmetric(p[i], b.prefix[i]);
      }
      if t.Open? { AlikeSymmetric(t.elem, b.tail.elem); }
    case Disj(_) => DisjSymmetric(a, b);
    case _ =>
  }

  lemma {:induction false} DisjSymmetric(a: Value, b: Value)
    requires Wf(a) && Wf(b) && a.Disj? && Alike(a, b)
    ensures Alike(b, a)
    decreases Depth(a), 0
  {
    var bs, cs := a.branches, b.branches;
    forall j, m | 0 <= j < |cs| ensures Tally(cs[j].v, cs, m) == Tally(cs[j].v, bs, m) {
      assert Offered(bs, cs[j].v);
      var i :| 0 <= i < |bs| && Alike(bs[i].v, cs[j].v);
      BranchDepth(bs, i);
      TallyClass(bs[i].v, cs[j].v, cs, m);
      TallyClass(bs[i].v, cs[j].v, bs, m);
    }
    forall i | 0 <= i < |bs| ensures Offered(cs, bs[i].v) {
      var j := Counterpart(a, b, i);
      BranchDepth(bs, i);
      AlikeSymmetric(bs[i].v, cs[j].v);
    }
  }

  lemma {:induction false} AlikeTransitive(a: Value, b: Value, c: Value)
    requires Wf(a) && Wf(b) && Wf(c) && Alike(a, b) && Alike(b, c)
    ensures Alike(a, c)
    decreases Depth(a), 1
  {
    match a
    case Struct(fs, _) =>
      forall i | 0 <= i < |fs|
        ensures var f := Find(c.fields, fs[i].name);
          f.Some? && f.value.optional == fs[i].optional && Alike(fs[i].val, f.value.val)
      {
        var j := IndexOf(b.fields, fs[i].name);
        FieldDepth(fs, i);
        AlikeTransitive(fs[i].val, b.fields[j].val, Find(c.fields, b.fields[j].name).value.val);
      }
      forall f <- c.fields ensures HasField(fs, f.name) {
        var j := IndexOf(b.fields, f.name);
        assert b.fields[j] in b.fields;
      }
    case List(p, t) =>
      forall i | 0 <= i < |p| ensures Alike(p[i], c.prefix[i]) {
        ValueDepth(p, i);
        AlikeTransitive(p[i], b.prefix[i], c.prefix[i]);
      }
      if t.Open? { AlikeTransitive(t.elem, b.tail.elem, c.tail.elem); }
    case Disj(_) => DisjTransitive(a, b, c);
    case _ =>
  }

  lemma {:induction false} DisjTransitive(a: Value, b: Value, c: Value)
    requires Wf(a) && Wf(b) && Wf(c) && a.Disj? && Alike(a, b) && Alike(b, c)
    ensures Alike(a, c)
    decreases Depth(a), 0
  {
    var bs, cs, ds := a.branches, b.branches, c.branches;
    forall i, m | 0 <= i < |bs| ensures Tally(bs[i].v, bs, m) == Tally(bs[i].v, ds, m) {
      var j := Counterpart(a, b, i);
      BranchDepth(bs, i);
      TallyClass(bs[i].v, cs[j].v, cs, m);
      TallyClass(bs[i].v, cs[j].v, ds, m);
    }
    forall k | 0 <= k < |ds| ensures Offered(bs, ds[k].v) {
      assert Offered(cs, ds[k].v);
      var j :| 0 <= j < |cs| && Alike(cs[j].v, ds[k].v);
      assert Offered(bs, cs[j].v);
      var i :| 0 <= i < |bs| && Alike(bs[i].v, cs[j].v);
      BranchDepth(bs, i);
      AlikeTransitive(bs[i].v, cs[j].v, ds[k].v);
    }
  }

  // ----- What alike values share -----

  /** Marked exactly once, and by a branch like that one, in both. */
  lemma DefaultsAlike(a: Value, b: Value)
    requires Wf(a) && Wf(b) && a.Disj? && Alike(a, b) && DefaultIndex(a.branches).Some?
    ensures DefaultIndex(b.branches).Some?
    ensures Alike(a.branches[DefaultIndex(a.branches).value].v, b.branches[DefaultIndex(b.branches).value].v)
  {
    hide Depth, DefaultIndex, Wf;
    var bs, cs := a.branches, b.branches;
    var i := DefaultIndex(bs).value;
    WfParts(a);
    WfParts(b);
    OnlyMark(bs);
    var j := Counterpart(a, b, i);
    forall k | 0 <= k < |cs| && cs[k].mode.Is? ensures k == j { SecondMark(a, b, i, j, k); }
    MarkedOnce(cs, j);
  }

  lemma WfParts(a: Value)
    requires Wf(a) && a.Disj?
    ensures WfBranches(a.branches)
  {
  }

  lemma OnlyMark(bs: seq<Branch>)
    requires DefaultIndex(bs).Some?
    ensures bs[DefaultIndex(bs).value].mode.Is?
    ensures forall k | 0 <= k < |bs| && bs[k].mode.Is? :: k == DefaultIndex(bs).value
  {
    MarkedIncreases(bs);
    forall k | 0 <= k < |bs| && bs[k].mode.Is? ensures k == DefaultIndex(bs).value {
      assert k in Marked(bs);
    }
  }

  lemma MarkedOnce(bs: seq<Branch>, j: nat)
    requires j < |bs| && bs[j].mode.Is? && forall k | 0 <= k < |bs| && bs[k].mode.Is? :: k == j
    ensures DefaultIndex(bs) == Some(j)
  {
    OneMark(bs);
  }

  /** A second marked branch of b would be a second marked branch of a. */
  lemma SecondMark(a: Value, b: Value, i: nat, j: nat, k: nat)
    requires Wf(a) && Wf(b) && a.Disj? && Alike(a, b)
    requires i < |a.branches| && a.branches[i].mode.Is?
    requires forall l | 0 <= l < |a.branches| && a.branches[l].mode.Is? :: l == i
    requires j < |b.branches| && k < |b.branches| && b.branches[j].mode.Is? && b.branches[k].mode.Is?
    requires Alike(a.branches[i].v, b.branches[j].v)
    ensures j == k
  {
    hide Wf, Depth;
    var bs, cs := a.branches, b.branches;
    WfParts(a);
    WfParts(b);
    assert Offered(bs, cs[k].v);
    var l :| 0 <= l < |bs| && Alike(bs[l].v, cs[k].v);
    assert Tally(bs[l].v, bs, true) == Tally(bs[l].v, cs, true);
    assert Tally(bs[i].v, bs, true) == Tally(bs[i].v, cs, true);
    hide Alike, Tally;
    TallyAt(bs[l].v, cs, k);
    var q := TalliedAt(bs[l].v, bs, true);
    AlikeSymmetric(bs[l].v, bs[i].v);
    AlikeTransitive(bs[i].v, bs[l].v, cs[k].v);
    TallyOnce(bs[i].v, bs, i);
    if j < k { TallyTwo(bs[i].v, cs, j, k, true); }
    if k < j { TallyTwo(bs[i].v, cs, k, j, true); }
  }

  lemma {:induction false} TallyOnce(v: Value, bs: seq<Branch>, i: nat)
    requires i < |bs| && forall l | 0 <= l < |bs| && bs[l].mode.Is? :: l == i
    ensures Tally(v, bs, true) <= 1
  {
    hide Alike;
    var n := |bs| - 1;
    if i == n {
      assert forall l | 0 <= l < n :: bs[..n][l] == bs[l];
      TallyUnmarked(v, bs[..n]);
    } else {
      assert forall l | 0 <= l < n :: bs[..n][l] == bs[l];
      TallyOnce(v, bs[..n], i);
    }
  }

  lemma {:induction false} TallyUnmarked(v: Value, bs: seq<Branch>)
    requires forall l | 0 <= l < |bs| :: !bs[l].mode.Is?
    ensures Tally(v, bs, true) == 0
  {
    hide Alike;
    if bs != [] {
      assert forall l | 0 <= l < |bs| - 1 :: bs[..|bs| - 1][l] == bs[l];
      TallyUnmarked(v, bs[..|bs| - 1]);
    }
  }

  lemma {:induction false} HasBottomCarries(a: Value, b: Value)
    requires Wf(a) && Wf(b) && Alike(a, b) && HasBottom(a)
    ensures HasBottom(b)
    decreases a
  {
    match a
    case Struct(fs, _) =>
      var i :| 0 <= i < |fs| && HasBottom(fs[i].val);
      HasBottomCarries(fs[i].val, Find(b.fields, fs[i].name).value.val);
      assert HasBottom(b.fields[IndexOf(b.fields, fs[i].name)].val);
    case List(p, t) =>
      if i :| 0 <= i < |p| && HasBottom(p[i]) { HasBottomCarries(p[i], b.prefix[i]); }
    case _ =>
  }

  lemma {:induction false} HasBottomLeafCarries(a: Value, b: Value)
    requires Wf(a) && Wf(b) && Alike(a, b) && HasBottomLeaf(a)
    ensures HasBottomLeaf(b)
    decreases a
  {
    match a
    case Struct(fs, _) =>
      var i :| 0 <= i < |fs| && HasBottomLeaf(fs[i].val);
      HasBottomLeafCarries(fs[i].val, Find(b.fields, fs[i].name).value.val);
      assert HasBottomLeaf(b.fields[IndexOf(b.fields, fs[i].name)].val);
    case List(p, t) =>
      if i :| 0 <= i < |p| && HasBottomLeaf(p[i]) { HasBottomLeafCarries(p[i], b.prefix[i]); }
      if t.Open? && HasBottomLeaf(t.elem) { HasBottomLeafCarries(t.elem, b.tail.elem); }
    case _ =>
  }

  lemma AlikeHasBottom(a: Value, b: Value)
    requires Wf(a) && Wf(b) && Alike(a, b)
    ensures HasBottom(a) == HasBottom(b) && HasBottomLeaf(a) == HasBottomLeaf(b)
  {
    hide *;
    AlikeSymmetric(a, b);
    if HasBottom(a) { HasBottomCarries(a, b); }
    if HasBottom(b) { HasBottomCarries(b, a); }
    if HasBottomLeaf(a) { HasBottomLeafCarries(a, b); }
    if HasBottomLeaf(b) { HasBottomLeafCarries(b, a); }
  }

  lemma {:induction false} ConcreteCarries(a: Value, b: Value)
    requires Wf(a) && Wf(b) && Alike(a, b) && IsConcrete(a)
    ensures IsConcrete(b)
    decreases Depth(a)
  {
    match a
    case Struct(fs, _) =>
      forall j | 0 <= j < |b.fields| ensures Absent(b.fields[j]) || IsConcrete(b.fields[j].val) {
        assert b.fields[j] in b.fields;
        var i := IndexOf(fs, b.fields[j].name);
        FindAt(b.fields, j);
        FieldDepth(fs, i);
        AlikeHasBottom(fs[i].val, b.fields[j].val);
        AlikeSymmetric(fs[i].val, b.fields[j].val);
        AlikeDepth(fs[i].val, b.fields[j].val);
        if IsConcrete(fs[i].val) { ConcreteCarries(fs[i].val, b.fields[j].val); }
      }
    case List(p, t) =>
      forall i | 0 <= i < |p| ensures IsConcrete(b.prefix[i]) {
        ValueDepth(p, i);
        ConcreteCarries(p[i], b.prefix[i]);
      }
    case Disj(bs) =>
      DefaultsAlike(a, b);
      var i, j := DefaultIndex(bs).value, DefaultIndex(b.branches).value;
      BranchDepth(bs, i);
      ConcreteCarries(bs[i].v, b.branches[j].v);
    case _ =>
  }

  lemma AlikeConcrete(a: Value, b: Value)
    requires Wf(a) && Wf(b) && Alike(a, b)
    ensures IsConcrete(a) == IsConcrete(b)
  {
    hide *;
    if IsConcrete(a) { ConcreteCarries(a, b); }
    AlikeSymmetric(a, b);
    if IsConcrete(b) { ConcreteCarries(b, a); }
  }

  // ----- Concrete equality -----

  lemma AlikeFieldCount(a: Value, b: Value)
    requires Wf(a) && Wf(b) && a.Struct? && Alike(a, b)
    ensures b.Struct? && |a.fields| == |b.fields|
  {
    assert b.Struct?;
    hide Alike;
    NameCount(a.fields);
    NameCount(b.fields);
    forall n ensures n in NameSet(a.fields) <==> n in NameSet(b.fields) { AlikeNames(a, b, n); }
    assert NameSet(a.fields) == NameSet(b.fields);
  }

  lemma AlikeNames(a: Value, b: Value, n: string)
    requires a.Struct? && Alike(a, b)
    ensures n in NameSet(a.fields) <==> n in NameSet(b.fields)
  {
    if n in NameSet(a.fields) {
      var f :| f in a.fields && f.name == n;
      var i :| 0 <= i < |a.fields| && a.fields[i] == f;
      assert Find(b.fields, a.fields[i].name).value in b.fields;
    }
    if n in NameSet(b.fields) {
      var f :| f in b.fields && f.name == n;
      assert a.fields[IndexOf(a.fields, n)] in a.fields;
    }
  }

  lemma {:induction false} EqualCarries(a: Value, b: Value, c: Value)
    requires Wf(a) && Wf(b) && Alike(a, b) && ConcreteEqual(a, c)
    ensures ConcreteEqual(b, c)
    decreases a
  {
    match a
    case Struct(fs, _) =>
      AlikeFieldCount(a, b);
      forall j | 0 <= j < |b.fields|
        ensures HasField(c.fields, b.fields[j].name)
        ensures ConcreteEqual(b.fields[j].val, c.fields[IndexOf(c.fields, b.fields[j].name)].val)
      {
        assert b.fields[j] in b.fields;
        var i := IndexOf(fs, b.fields[j].name);
        FindAt(b.fields, j);
        EqualCarries(fs[i].val, b.fields[j].val, c.fields[IndexOf(c.fields, fs[i].name)].val);
      }
    case List(p, _) =>
      forall i | 0 <= i < |p| ensures ConcreteEqual(b.prefix[i], c.prefix[i]) {
        EqualCarries(p[i], b.prefix[i], c.prefix[i]);
      }
    case _ =>
  }

  /** Concrete equality cannot tell alike values apart, on either side. */
  lemma SameConcreteCarries(a: Value, b: Value, c: Value)
    requires Wf(a) && Wf(b) && Wf(c) && Alike(a, b)
    ensures SameConcrete(a, c) == SameConcrete(b, c)
    ensures SameConcrete(c, a) == SameConcrete(c, b)
  {
    hide Wf, Alike, ConcreteEqual, IsConcrete;
    AlikeSymmetric(a, b);
    AlikeConcrete(a, b);
    if SameConcrete(a, c) { EqualCarries(a, b, c); }
    if SameConcrete(b, c) { EqualCarries(b, a, c); }
    if SameConcrete(c, a) { ConcreteEqualSymmetric(c, a); EqualCarries(a, b, c); ConcreteEqualSymmetric(b, c); }
    if SameConcrete(c, b) { ConcreteEqualSymmetric(c, b); EqualCarries(b, a, c); ConcreteEqualSymmetric(a, c); }
  }

  /** Equally closed, and equally optional field by field, wherever both have a struct. */
  predicate FlagsAgree(a: Value, b: Value)
    decreases a
  {
    match a
    case Struct(fs, closed) =>
      b.Struct? ==>
        && closed == b.closed
        && forall i | 0 <= i < |fs| && HasField(b.fields, fs[i].name) ::
             var f := b.fields[IndexOf(b.fields, fs[i].name)];
             fs[i].optional == f.optional && FlagsAgree(fs[i].val, f.val)
    case List(p, _) => b.List? ==> forall i | 0 <= i < |p| && i < |b.prefix| :: FlagsAgree(p[i], b.prefix[i])
    case _ => true
  }

  /** Equal concrete values are alike exactly if their flags agree. */
  lemma {:induction false} AlikeIffFlags(a: Value, b: Value)
    requires Wf(a) && Wf(b) && ConcreteEqual(a, b)
    ensures Alike(a, b) <==> FlagsAgree(a, b)
    decreases a
  {
    match a
    case Struct(fs, _) =>
      forall i | 0 <= i < |fs|
        ensures var f := b.fields[IndexOf(b.fields, fs[i].name)];
          Find(b.fields, fs[i].name) == Some(f) && (Alike(fs[i].val, f.val) <==> FlagsAgree(fs[i].val, f.val))
      {
        AlikeIffFlags(fs[i].val, b.fields[IndexOf(b.fields, fs[i].name)].val);
      }
      SameNames(fs, b.fields);
      forall f <- b.fields ensures HasField(fs, f.name) {
        var j :| 0 <= j < |b.fields| && b.fields[j] == f;
      }
    case List(p, _) =>
      forall i | 0 <= i < |p| ensures Alike(p[i], b.prefix[i]) <==> FlagsAgree(p[i], b.prefix[i]) {
        AlikeIffFlags(p[i], b.prefix[i]);
      }
    case _ =>
  }

}
