/**
  When the two places where the evaluator may lose documents lose none: a meet of two compiled values, and
  the folding of equal concrete alternatives of a choice.
 */
module Combining {

  import opened Values
  import opened Meet
  import opened MeetFacts
  import opened MeetWf
  import opened MeetExact
  import opened Defaults
  import opened Semantics
  import opened Thunks
  import opened Eval
  import opened Acceptance
  import opened DefaultMeets

  // ----- Meets -----

  /** A scalar, type or bound, or a choice among such. */
  predicate ScalarChoice(v: Value)
  {
    if v.Disj? then forall i | 0 <= i < |v.branches| :: Simple(v.branches[i].v) else Simple(v)
  }

  /** Choices of scalars, or no choices and every optional field that faces a closed struct declared there. */
  predicate Combines(a: Value, b: Value)
  {
    (ScalarChoice(a) && ScalarChoice(b)) || (DisjFree(a) && DisjFree(b) && Harmonious(a, b))
  }

  lemma SimpleMeets(a: Value, b: Value, g: Ground)
    requires Wf(a) && Wf(b) && Simple(a) && Simple(b) && Member(g, a) && Member(g, b)
    ensures Member(g, Unify(a, b)) && Simple(Unify(a, b)) && !HasBottomLeaf(Unify(a, b))
  {
    MeetIsIntersection(a, b, g);
    SimpleStays(a, b);
  }

  lemma SimpleStays(a: Value, b: Value)
    requires Simple(a) && Simple(b)
    ensures Simple(Unify(a, b))
  {
  }

  lemma SimpleSame(a: Value, b: Value)
    requires Simple(b) && SameConcrete(a, b)
    ensures a == b
  {
  }

  lemma OwnOr(o: Value, g: Ground) returns (j: nat)
    requires Member(g, o) && ScalarChoice(o) && Wf(o)
    ensures j < |BranchesOf(o)| && Member(g, BranchesOf(o)[j].v) && Simple(BranchesOf(o)[j].v) && Wf(BranchesOf(o)[j].v)
  {
    if o.Disj? {
      j :| 0 <= j < |o.branches| && Member(g, o.branches[j].v);
    } else {
      j := 0;
    }
  }

  lemma ChoiceMeets(d: Value, o: Value, g: Ground)
    requires Wf(d) && Wf(o) && d.Disj? && ScalarChoice(d) && ScalarChoice(o) && Member(g, d) && Member(g, o)
    ensures Member(g, UnifyDisjunction(d, o))
  {
    hide *;
    OwnBranches(d);
    var i := OwnOr(d, g);
    var j := OwnOr(o, g);
    var m := Unify(d.branches[i].v, BranchesOf(o)[j].v);
    SimpleMeets(d.branches[i].v, BranchesOf(o)[j].v, g);
    CleanMeetSurvives(d, o, i, j);
    var met := MeetBranches(d, o);
    var x :| 0 <= x < |met| && met[x].v == m;
    DedupeKeeps(met, x);
    var k :| 0 <= k < |Dedupe(met)| && (Dedupe(met)[k].v == m || SameConcrete(Dedupe(met)[k].v, m));
    if Dedupe(met)[k].v != m { SimpleSame(Dedupe(met)[k].v, m); }
    SurvivorAdmits(d, o, k, g);
  }

  lemma OwnBranches(d: Value)
    requires d.Disj?
    ensures BranchesOf(d) == d.branches
  {
  }

  lemma SurvivorAdmits(d: Value, o: Value, k: nat, g: Ground)
    requires d.Disj? && k < |Dedupe(MeetBranches(d, o))| && Member(g, Dedupe(MeetBranches(d, o))[k].v)
    ensures Member(g, UnifyDisjunction(d, o))
  {
    hide Dedupe, MeetBranches, MeetDefault;
    var survivors := Dedupe(MeetBranches(d, o));
    var r := Remark(survivors, MeetDefault(d, o));
    assert |survivors| != 1 ==> r[k].v == survivors[k].v && UnifyDisjunction(d, o) == Disj(r);
  }

  /** Under the condition a meet admits what both operands admit. */
  lemma CombinesKeeps(a: Value, b: Value, g: Ground)
    requires Wf(a) && Wf(b) && Combines(a, b) && Member(g, a) && Member(g, b)
    ensures Member(g, Unify(a, b))
  {
    hide *;
    CombinesBy(a, b);
    BottomAdmits(g, a);
    BottomAdmits(g, b);
    if DisjFree(a) && DisjFree(b) && Harmonious(a, b) {
      MeetIsIntersection(a, b, g);
    } else if a.Top? || b.Top? {
      TopIsUnit(a, b);
    } else if a.Disj? {
      ChoiceMeets(a, b, g);
      DisjunctionFirst(a, b);
    } else if b.Disj? {
      ChoiceMeets(b, a, g);
      DisjunctionFirst(a, b);
    } else {
      SimpleMeets(a, b, g);
    }
  }

  lemma CombinesBy(a: Value, b: Value)
    requires Combines(a, b)
    ensures (DisjFree(a) && DisjFree(b) && Harmonious(a, b)) || (ScalarChoice(a) && ScalarChoice(b))
    ensures ScalarChoice(a) && !a.Disj? ==> Simple(a)
    ensures ScalarChoice(b) && !b.Disj? ==> Simple(b)
  {
    hide DisjFree, Harmonious;
  }

  lemma TopIsUnit(a: Value, b: Value)
    requires (a.Top? || b.Top?) && !a.Bottom? && !b.Bottom?
    ensures Unify(a, b) == if a.Top? then b else a
  {
  }

  lemma DisjunctionFirst(a: Value, b: Value)
    requires (a.Disj? || b.Disj?) && !a.Bottom? && !b.Bottom? && !a.Top? && !b.Top? && !a.Thunk? && !b.Thunk?
    ensures Unify(a, b) == if a.Disj? then UnifyDisjunction(a, b) else UnifyDisjunction(b, a)
  {
    hide UnifyDisjunction;
  }

  // ----- Folding -----

  /** Where two equal concrete values differ in flags, the first is the more permissive. */
  predicate Laxer(a: Value, b: Value)
    decreases a
  {
    match a
    case Struct(fs, closed) =>
      b.Struct? ==>
        && (closed ==> b.closed)
        && forall i | 0 <= i < |fs| :: HasField(b.fields, fs[i].name) ==>
             var h := b.fields[IndexOf(b.fields, fs[i].name)];
             (h.optional ==> fs[i].optional) && Laxer(fs[i].val, h.val)
    case List(p, _) => b.List? ==> forall i | 0 <= i < |p| && i < |b.prefix| :: Laxer(p[i], b.prefix[i])
    case _ => true
  }

  lemma {:induction false} LaxerAdmits(a: Value, b: Value, g: Ground)
    requires Wf(a) && Wf(b) && ConcreteEqual(a, b) && Laxer(a, b) && Member(g, b)
    ensures Member(g, a)
    decreases a
  {
    match a
    case List(p, _) =>
      forall i | 0 <= i < |p| ensures Member(g.xs[i], p[i]) { LaxerAdmits(p[i], b.prefix[i], g.xs[i]); }
    case Struct(fs, closed) =>
      forall i | 0 <= i < |fs| ensures if fs[i].name in g.m then Member(g.m[fs[i].name], fs[i].val) else fs[i].optional {
        var h := b.fields[IndexOf(b.fields, fs[i].name)];
        if fs[i].name in g.m { LaxerAdmits(fs[i].val, h.val, g.m[fs[i].name]); }
      }
      SameNames(fs, b.fields);
    case _ =>
  }

  predicate FoldsInto(a: Value, b: Value)
  {
    SameConcrete(a, b) ==> Laxer(a, b)
  }

  /** Of two alternatives that fold the earlier, which stays, is the more permissive. */
  predicate Folds(bs: seq<Branch>)
  {
    forall i, j | 0 <= i < j < |bs| :: FoldsInto(bs[i].v, bs[j].v)
  }

  /** An alternative stays, or folds into one before it. */
  ghost predicate KeptAs(bs: seq<Branch>, i: nat, k: nat, j: nat)
    requires i < |bs|
  {
    k < |Dedupe(bs)| && j <= i && Dedupe(bs)[k].v == bs[j].v && (j == i || SameConcrete(bs[j].v, bs[i].v))
  }

  lemma {:induction false} DedupeEarlier(bs: seq<Branch>, i: nat) returns (k: nat, j: nat)
    requires i < |bs|
    ensures KeptAs(bs, i, k, j)
  {
    hide SameConcrete;
    var n := |bs| - 1;
    var before := Dedupe(bs[..n]);
    AbsorbKeeps(before, bs[n]);
    assert Dedupe(bs) == Absorb(before, bs[n]);
    if i < n {
      k, j := DedupeEarlier(bs[..n], i);
    } else {
      match FirstSame(before, bs[n].v)
      case None => k, j := |before|, n;
      case Some(x) =>
        k := x;
        DedupeOrigin(bs[..n], x);
        j :| 0 <= j < n && before[x].v == bs[..n][j].v;
    }
  }

  lemma {:induction false} LiveFolds(bs: seq<Branch>)
    requires Folds(bs)
    ensures Folds(LiveOf(bs))
  {
    hide FoldsInto;
    if bs != [] {
      var n := |bs| - 1;
      LiveFolds(bs[..n]);
      var live := LiveOf(bs[..n]);
      forall i | 0 <= i < |live| ensures FoldsInto(live[i].v, bs[n].v) { LastFolds(bs, live[i]); }
    }
  }

  lemma LastFolds(bs: seq<Branch>, b: Branch)
    requires bs != [] && Folds(bs) && b in bs[..|bs| - 1]
    ensures FoldsInto(b.v, bs[|bs| - 1].v)
  {
    hide FoldsInto;
    var x :| 0 <= x < |bs| - 1 && bs[..|bs| - 1][x] == b;
    assert bs[x] == b;
  }

  ghost predicate SomeAdmits(g: Ground, bs: seq<Branch>)
  {
    exists i :: 0 <= i < |bs| && Member(g, bs[i].v)
  }

  lemma {:induction false} LiveHas(bs: seq<Branch>, i: nat)
    requires i < |bs| && !bs[i].v.Bottom?
    ensures bs[i] in LiveOf(bs)
  {
    if i < |bs| - 1 { LiveHas(bs[..|bs| - 1], i); }
  }

  lemma LiveAdmits(g: Ground, bs: seq<Branch>)
    ensures SomeAdmits(g, LiveOf(bs)) <==> SomeAdmits(g, bs)
  {
    hide Member, LiveOf;
    var live := LiveOf(bs);
    if SomeAdmits(g, bs) {
      var i :| 0 <= i < |bs| && Member(g, bs[i].v);
      BottomAdmits(g, bs[i].v);
      LiveHas(bs, i);
      var k :| 0 <= k < |live| && live[k] == bs[i];
    }
    if SomeAdmits(g, live) {
      var k :| 0 <= k < |live| && Member(g, live[k].v);
      assert live[k] in bs;
      var i :| 0 <= i < |bs| && bs[i] == live[k];
    }
  }

  lemma BottomAdmits(g: Ground, v: Value)
    ensures Member(g, v) ==> !v.Bottom? && !v.Thunk?
  {
  }

  lemma DedupeAdmits(g: Ground, bs: seq<Branch>)
    requires forall b <- bs :: Wf(b.v)
    ensures SomeAdmits(g, Dedupe(bs)) ==> SomeAdmits(g, bs)
    ensures Folds(bs) && SomeAdmits(g, bs) ==> SomeAdmits(g, Dedupe(bs))
  {
    hide Dedupe, Laxer, Member, Wf;
    if SomeAdmits(g, Dedupe(bs)) {
      var k :| 0 <= k < |Dedupe(bs)| && Member(g, Dedupe(bs)[k].v);
      DedupeOrigin(bs, k);
    }
    if Folds(bs) && SomeAdmits(g, bs) {
      var i :| 0 <= i < |bs| && Member(g, bs[i].v);
      var k, j := DedupeEarlier(bs, i);
      assert j != i ==> FoldsInto(bs[j].v, bs[i].v);
      if j != i { LaxerAdmits(bs[j].v, bs[i].v, g); }
    }
  }

  lemma DedupeOfAll(bs: seq<Branch>, p: Value -> bool)
    requires forall b <- bs :: p(b.v)
    ensures forall b <- Dedupe(bs) :: p(b.v)
  {
    forall b <- Dedupe(bs) ensures p(b.v) {
      var k :| 0 <= k < |Dedupe(bs)| && Dedupe(bs)[k] == b;
      DedupeOrigin(bs, k);
    }
  }

  /** What a built choice of well-formed alternatives admits. */
  lemma BuildAdmits(bs: seq<Branch>, hasMark: bool)
    requires forall b <- bs :: Wf(b.v) && !b.v.Disj?
    ensures Wf(BuildDisjunction(bs, hasMark))
    ensures forall g :: Member(g, BuildDisjunction(bs, hasMark)) ==> SomeAdmits(g, bs)
    ensures Folds(bs) ==> forall g :: SomeAdmits(g, bs) ==> Member(g, BuildDisjunction(bs, hasMark))
  {
    hide Dedupe, LiveOf, Folds, Laxer;
    var live := LiveOf(bs);
    DedupeOfAll(live, v => Wf(v) && !v.Disj? && !v.Bottom?);
    if Folds(bs) { LiveFolds(bs); }
    var r := BuildDisjunction(bs, hasMark);
    forall g ensures Member(g, r) <==> SomeAdmits(g, Dedupe(live)) { BuiltAdmits(bs, hasMark, g); }
    forall g ensures Member(g, r) ==> SomeAdmits(g, bs) { DedupeAdmits(g, live); LiveAdmits(g, bs); }
    if Folds(bs) {
      forall g ensures SomeAdmits(g, bs) ==> Member(g, r) { DedupeAdmits(g, live); LiveAdmits(g, bs); }
    }
  }

  lemma BuiltAdmits(bs: seq<Branch>, hasMark: bool, g: Ground)
    ensures Member(g, BuildDisjunction(bs, hasMark)) <==> SomeAdmits(g, Dedupe(LiveOf(bs)))
  {
    hide Dedupe, LiveOf;
    var live := Dedupe(LiveOf(bs));
    var raised := if hasMark then RaiseMaybe(live) else live;
    assert |raised| == |live| && forall i | 0 <= i < |live| :: raised[i].v == live[i].v;
    if |raised| == 1 {
      assert SomeAdmits(g, live) <==> Member(g, live[0].v);
    } else if |raised| > 1 {
      assert BuildDisjunction(bs, hasMark) == Disj(raised);
    }
  }

}
