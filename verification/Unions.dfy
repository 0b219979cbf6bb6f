/**
  Documents against a choice of any branches, structs included. One clean branch decides alone, so
  tagged unions accept what the tagged branch accepts; several clean branches accept exactly if they
  agree or the reconciled default is among them.
 */
module Unions {

  import opened Wrappers
  import opened Values
  import opened Meet
  import opened MeetFacts
  import opened MeetWf
  import opened Semantics
  import opened Validate
  import opened Defaults
  import opened Acceptance
  import opened Likeness
  import MeetOrder

  // ----- Branches that fold -----

  /** All branches are one concrete value, or there is just one. */
  predicate AllSame(bs: seq<Branch>)
  {
    forall i | 1 <= i < |bs| :: SameConcrete(bs[0].v, bs[i].v)
  }

  lemma {:induction false} DedupeFirst(bs: seq<Branch>)
    requires bs != []
    ensures Dedupe(bs)[0].v == bs[0].v
    ensures |Dedupe(bs)| == 1 <==> AllSame(bs)
  {
    hide SameConcrete;
    var n := |bs| - 1;
    if n == 0 {
      assert bs[..0] == [] && Dedupe([]) == [];
      assert FirstSame([], bs[0].v).None?;
    } else {
      DedupeFirst(bs[..n]);
      AbsorbKeeps(Dedupe(bs[..n]), bs[n]);
      assert Dedupe(bs) == Absorb(Dedupe(bs[..n]), bs[n]);
      assert AllSame(bs) <==> AllSame(bs[..n]) && SameConcrete(bs[0].v, bs[n].v);
    }
  }

  /** A concrete value is among the branches after folding exactly if it was before. */
  lemma FoldedHas(bs: seq<Branch>, v: Value)
    requires Wf(v) && forall b <- bs :: Wf(b.v)
    ensures (exists k | 0 <= k < |Dedupe(bs)| :: SameConcrete(Dedupe(bs)[k].v, v)) <==>
            exists i | 0 <= i < |bs| :: SameConcrete(bs[i].v, v)
  {
    hide Wf, IsConcrete, ConcreteEqual, Dedupe;
    if k :| 0 <= k < |Dedupe(bs)| && SameConcrete(Dedupe(bs)[k].v, v) {
      DedupeOrigin(bs, k);
    }
    if i :| 0 <= i < |bs| && SameConcrete(bs[i].v, v) {
      DedupeKeeps(bs, i);
      var k :| 0 <= k < |Dedupe(bs)| && (Dedupe(bs)[k].v == bs[i].v || SameConcrete(Dedupe(bs)[k].v, bs[i].v));
      if Dedupe(bs)[k].v != bs[i].v { ConcreteEqualTransitive(Dedupe(bs)[k].v, bs[i].v, v); }
      assert SameConcrete(Dedupe(bs)[k].v, v);
    }
  }

  ghost predicate Has(bs: seq<Branch>, v: Value)
  {
    exists i | 0 <= i < |bs| :: SameConcrete(bs[i].v, v)
  }

  lemma MetWf(s: Value, o: Value)
    requires Wf(s) && Wf(o) && s.Disj?
    ensures forall b <- MeetBranches(s, o) :: Wf(b.v)
  {
    hide HasBottomLeaf, Unify;
    BranchesSize(o);
    var met, cross, os := MeetBranches(s, o), MeetCross(s.branches, BranchesOf(o)), BranchesOf(o);
    forall k | 0 <= k < |met| ensures Wf(met[k].v) {
      if CleanOf(cross) != [] { CleanOrigin(cross, k); } else { DirtyOrigin(cross, k); }
      var c :| 0 <= c < |cross| && cross[c] == met[k];
      CrossOrigin(s.branches, os, c);
      var i, j :| 0 <= i < |s.branches| && 0 <= j < |os| && met[k].v == Unify(s.branches[i].v, os[j].v);
      MeetIsWf(s.branches[i].v, os[j].v);
    }
  }

  /** Several survivors: concrete exactly if one is the reconciled default. */
  lemma ManySurvivors(s: Value, o: Value)
    requires Wf(s) && Wf(o) && s.Disj? && MeetBranches(s, o) != [] && |Dedupe(MeetBranches(s, o))| > 1
    ensures IsConcrete(UnifyDisjunction(s, o)) <==> MeetDefault(s, o).Some? && Has(MeetBranches(s, o), MeetDefault(s, o).value)
  {
    hide *;
    var met, def := MeetBranches(s, o), MeetDefault(s, o);
    var survivors := Dedupe(met);
    ManyRemain(s, o);
    MetWf(s, o);
    MeetDefaultIsUnambiguous(s, o);
    if def.Some? {
      MeetDefaultWf(s, o);
      FoldedHas(met, def.value);
      HasIff(met, def.value);
    }
    DisjConcrete(survivors, def);
  }

  lemma ManyRemain(s: Value, o: Value)
    requires s.Disj? && MeetBranches(s, o) != [] && |Dedupe(MeetBranches(s, o))| > 1
    ensures UnifyDisjunction(s, o) == Disj(Remark(Dedupe(MeetBranches(s, o)), MeetDefault(s, o)))
  {
    hide Dedupe, MeetBranches, MeetDefault, Remark;
  }

  lemma HasIff(bs: seq<Branch>, v: Value)
    ensures Has(bs, v) <==> exists i | 0 <= i < |bs| :: SameConcrete(bs[i].v, v)
  {
  }

  lemma DisjConcrete(bs: seq<Branch>, def: Option<Value>)
    requires forall k | 0 <= k < |bs| ::
               DefaultIndex(Remark(bs, def)) == Some(k) <==> def.Some? && SameConcrete(bs[k].v, def.value)
    ensures IsConcrete(Disj(Remark(bs, def))) <==> def.Some? && exists k | 0 <= k < |bs| :: SameConcrete(bs[k].v, def.value)
  {
    var rs := Remark(bs, def);
    if def.Some? {
      if k :| 0 <= k < |bs| && SameConcrete(bs[k].v, def.value) { assert DefaultIndex(rs) == Some(k) && rs[k].v == bs[k].v; }
    }
    if DefaultIndex(rs).Some? { assert SameConcrete(bs[DefaultIndex(rs).value].v, def.value); }
    hide ConcreteEqual, DefaultIndex;
  }

  /** The meet of a disjunction is concrete exactly if its surviving meets agree on one, or hold the reconciled default. */
  lemma UnionConcrete(s: Value, o: Value)
    requires Wf(s) && Wf(o) && s.Disj?
    ensures var met, def := MeetBranches(s, o), MeetDefault(s, o);
      IsConcrete(UnifyDisjunction(s, o)) <==>
      met != [] && ((AllSame(met) && IsConcrete(met[0].v)) || (def.Some? && Has(met, def.value)))
  {
    var met, def := MeetBranches(s, o), MeetDefault(s, o);
    hide IsConcrete;
    if met != [] {
      DedupeFirst(met);
      if |Dedupe(met)| == 1 {
        OneValue(met, def);
        assert UnifyDisjunction(s, o) == met[0].v;
      } else {
        hide UnifyDisjunction, MeetBranches, MeetDefault, Dedupe;
        ManySurvivors(s, o);
      }
    } else {
      assert !IsConcrete(Bottom);
    }
    hide *;
  }

  lemma OneValue(met: seq<Branch>, def: Option<Value>)
    requires met != [] && AllSame(met)
    ensures def.Some? && Has(met, def.value) ==> IsConcrete(met[0].v)
  {
  }

  // ----- Which branches survive a document -----

  ghost predicate CleanAt(s: Value, d: Value, i: nat)
    requires s.Disj? && i < |s.branches|
  {
    !HasBottomLeaf(Unify(s.branches[i].v, d))
  }

  /** Branches whose meet holds no bottom; only if there is none, those whose meet is not bottom itself. */
  ghost predicate Survives(s: Value, d: Value, i: nat)
    requires s.Disj? && i < |s.branches|
  {
    if exists j | 0 <= j < |s.branches| :: CleanAt(s, d, j) then CleanAt(s, d, i) else !Unify(s.branches[i].v, d).Bottom?
  }

  /** The meets of the listed branches, in order. */
  ghost predicate MeetsAt(bs: seq<Branch>, s: Value, d: Value, ks: seq<nat>)
    requires s.Disj?
  {
    && |bs| == |ks|
    && (forall x, y | 0 <= x < y < |ks| :: ks[x] < ks[y])
    && forall x | 0 <= x < |ks| :: ks[x] < |s.branches| && bs[x].v == Unify(s.branches[ks[x]].v, d)
  }

  ghost predicate CrossAt(bs: seq<Branch>, s: Value, d: Value)
    requires s.Disj?
  {
    |bs| <= |s.branches| && forall i | 0 <= i < |bs| :: bs[i].v == Unify(s.branches[i].v, d)
  }

  ghost predicate DirtyAt(s: Value, d: Value, i: nat)
    requires s.Disj? && i < |s.branches|
  {
    !CleanAt(s, d, i) && !Unify(s.branches[i].v, d).Bottom?
  }

  lemma MeetsAtSnoc(bs: seq<Branch>, s: Value, d: Value, ks: seq<nat>, b: Branch, k: nat)
    requires s.Disj? && MeetsAt(bs, s, d, ks) && k < |s.branches| && b.v == Unify(s.branches[k].v, d)
    requires forall x <- ks :: x < k
    ensures MeetsAt(bs + [b], s, d, ks + [k])
  {
    hide Unify;
    assert forall x | 0 <= x < |ks| :: ks[x] in ks;
  }

  lemma {:induction false} CleanPlaces(bs: seq<Branch>, s: Value, d: Value) returns (ks: seq<nat>)
    requires s.Disj? && CrossAt(bs, s, d)
    ensures MeetsAt(CleanOf(bs), s, d, ks)
    ensures forall i | 0 <= i < |s.branches| :: i in ks <==> i < |bs| && CleanAt(s, d, i)
    ensures forall x <- ks :: x < |bs|
  {
    hide Unify, HasBottomLeaf;
    ks := [];
    if bs != [] {
      var n := |bs| - 1;
      var front := CleanPlaces(bs[..n], s, d);
      var b := bs[n];
      assert b.v == Unify(s.branches[n].v, d);
      assert CleanAt(s, d, n) <==> !HasBottomLeaf(b.v);
      assert CleanOf(bs) == CleanOf(bs[..n]) + if HasBottomLeaf(b.v) then [] else [b];
      var before := CleanOf(bs[..n]);
      hide *;
      if HasBottomLeaf(b.v) {
        assert before + [] == before;
        ks := front;
      } else {
        MeetsAtSnoc(before, s, d, front, b, n);
        ks := front + [n];
      }
    }
  }

  lemma {:induction false} DirtyPlaces(bs: seq<Branch>, s: Value, d: Value) returns (ks: seq<nat>)
    requires s.Disj? && CrossAt(bs, s, d)
    ensures MeetsAt(DirtyOf(bs), s, d, ks)
    ensures forall i | 0 <= i < |s.branches| :: i in ks <==> i < |bs| && DirtyAt(s, d, i)
    ensures forall x <- ks :: x < |bs|
  {
    hide Unify, HasBottomLeaf;
    ks := [];
    if bs != [] {
      var n := |bs| - 1;
      var front := DirtyPlaces(bs[..n], s, d);
      var b := bs[n];
      var keep := !b.v.Bottom? && HasBottomLeaf(b.v);
      assert b.v == Unify(s.branches[n].v, d);
      assert DirtyAt(s, d, n) <==> keep;
      assert DirtyOf(bs) == DirtyOf(bs[..n]) + if keep then [b] else [];
      var before := DirtyOf(bs[..n]);
      hide *;
      if keep {
        MeetsAtSnoc(before, s, d, front, b, n);
        ks := front + [n];
      } else {
        assert before + [] == before;
        ks := front;
      }
    }
  }

  /** The list holds the meets of exactly the surviving branches, in order. */
  ghost predicate Places(bs: seq<Branch>, s: Value, d: Value, ks: seq<nat>)
    requires s.Disj?
  {
    && MeetsAt(bs, s, d, ks)
    && (forall i | 0 <= i < |s.branches| :: i in ks <==> Survives(s, d, i))
  }

  /** The surviving meets with a value that is no disjunction are those of the surviving branches, in order. */
  lemma MetPlaces(s: Value, d: Value) returns (ks: seq<nat>)
    requires s.Disj? && !d.Disj?
    ensures Places(MeetBranches(s, d), s, d, ks)
  {
    var cross := MeetCross(s.branches, [Branch(d, Maybe)]);
    assert CrossAt(cross, s, d) && |cross| == |s.branches| by { hide Unify; CrossSingle(s.branches, d); }
    assert MeetBranches(s, d) == if CleanOf(cross) != [] then CleanOf(cross) else DirtyOf(cross) by {
      hide MeetCross, CleanOf, DirtyOf;
    }
    hide *;
    ks := CleanPlaces(cross, s, d);
    if CleanOf(cross) == [] {
      CleanNowhere(s, d, ks);
      ks := DirtyPlaces(cross, s, d);
      DirtySurvive(s, d, ks);
    } else {
      CleanSurvive(CleanOf(cross), s, d, ks);
    }
    PlacesIs(MeetBranches(s, d), s, d, ks);
  }

  lemma PlacesIs(bs: seq<Branch>, s: Value, d: Value, ks: seq<nat>)
    requires s.Disj? && MeetsAt(bs, s, d, ks) && forall i | 0 <= i < |s.branches| :: i in ks <==> Survives(s, d, i)
    ensures Places(bs, s, d, ks)
  {
    hide MeetsAt, Survives;
  }

  lemma CleanNowhere(s: Value, d: Value, ks: seq<nat>)
    requires s.Disj? && MeetsAt([], s, d, ks)
    ensures ks == []
  {
  }

  lemma DirtySurvive(s: Value, d: Value, ks: seq<nat>)
    requires s.Disj? && forall i | 0 <= i < |s.branches| :: !CleanAt(s, d, i)
    requires forall i | 0 <= i < |s.branches| :: i in ks <==> DirtyAt(s, d, i)
    ensures forall i | 0 <= i < |s.branches| :: i in ks <==> Survives(s, d, i)
  {
    hide CleanAt, Unify;
  }

  lemma CleanSurvive(bs: seq<Branch>, s: Value, d: Value, ks: seq<nat>)
    requires s.Disj? && bs != [] && MeetsAt(bs, s, d, ks)
    requires forall i | 0 <= i < |s.branches| :: i in ks <==> CleanAt(s, d, i)
    ensures forall i | 0 <= i < |s.branches| :: i in ks <==> Survives(s, d, i)
  {
    hide CleanAt, Unify;
    assert ks[0] in ks;
    assert CleanAt(s, d, ks[0]);
  }

  // ----- Which documents a union accepts -----

  function MeetAt(s: Value, d: Value, i: nat): Value
    requires s.Disj? && i < |s.branches|
  {
    Unify(s.branches[i].v, d)
  }

  /** The meets of the surviving branches are concrete and pairwise the same. */
  ghost predicate SurvivorsAgree(s: Value, d: Value)
    requires s.Disj?
  {
    && (forall i | 0 <= i < |s.branches| && Survives(s, d, i) :: IsConcrete(MeetAt(s, d, i)))
    && (forall i, j | 0 <= i < j < |s.branches| && Survives(s, d, i) && Survives(s, d, j) ::
          SameConcrete(MeetAt(s, d, i), MeetAt(s, d, j)))
  }

  /** The default branch still stands, and its meet is that of some survivor. */
  ghost predicate DefaultSurvives(s: Value, d: Value)
    requires s.Disj?
  {
    var def := DefaultIndex(s.branches);
    && def.Some? && IsConcrete(MeetAt(s, d, def.value))
    && exists i | 0 <= i < |s.branches| :: Survives(s, d, i) && SameConcrete(MeetAt(s, d, i), MeetAt(s, d, def.value))
  }

  lemma PlaceAt(bs: seq<Branch>, s: Value, d: Value, ks: seq<nat>, x: nat)
    requires s.Disj? && Places(bs, s, d, ks) && x < |bs|
    ensures x < |ks| && ks[x] < |s.branches| && bs[x].v == MeetAt(s, d, ks[x]) && Survives(s, d, ks[x])
    ensures forall y | x < y < |ks| :: ks[x] < ks[y]
  {
    hide Survives, Unify;
    assert ks[x] in ks;
  }

  lemma PlaceOf(bs: seq<Branch>, s: Value, d: Value, ks: seq<nat>, i: nat) returns (x: nat)
    requires s.Disj? && Places(bs, s, d, ks) && i < |s.branches| && Survives(s, d, i)
    ensures x < |bs| && x < |ks| && ks[x] == i && bs[x].v == MeetAt(s, d, i)
  {
    hide Survives, Unify;
    assert i in ks;
    x :| 0 <= x < |ks| && ks[x] == i;
  }

  lemma SameEverywhere(bs: seq<Branch>, s: Value, d: Value, ks: seq<nat>)
    requires s.Disj? && bs != [] && Places(bs, s, d, ks) && forall b <- bs :: Wf(b.v)
    requires AllSame(bs) && IsConcrete(bs[0].v)
    ensures SurvivorsAgree(s, d)
  {
    hide Survives, SameConcrete, Wf, IsConcrete, MeetAt, Places, AllSame;
    forall i | 0 <= i < |s.branches| && Survives(s, d, i) ensures IsConcrete(MeetAt(s, d, i)) {
      var x := PlaceOf(bs, s, d, ks, i);
      AllConcrete(bs, x);
    }
    forall i, j | 0 <= i < j < |s.branches| && Survives(s, d, i) && Survives(s, d, j)
      ensures SameConcrete(MeetAt(s, d, i), MeetAt(s, d, j))
    {
      var x := PlaceOf(bs, s, d, ks, i);
      var y := PlaceOf(bs, s, d, ks, j);
      SamePair(bs, x, y);
    }
  }

  lemma AgreedAtFirst(bs: seq<Branch>, s: Value, d: Value, ks: seq<nat>)
    requires s.Disj? && bs != [] && Places(bs, s, d, ks) && SurvivorsAgree(s, d)
    ensures AllSame(bs) && IsConcrete(bs[0].v)
  {
    hide Survives, SameConcrete, IsConcrete, MeetAt, Places;
    PlaceAt(bs, s, d, ks, 0);
    forall x | 1 <= x < |bs| ensures SameConcrete(bs[0].v, bs[x].v) { PlaceAt(bs, s, d, ks, x); }
  }

  lemma AllConcrete(bs: seq<Branch>, x: nat)
    requires x < |bs| && AllSame(bs) && IsConcrete(bs[0].v)
    ensures IsConcrete(bs[x].v)
  {
    if x > 0 { assert SameConcrete(bs[0].v, bs[x].v); }
  }

  lemma SamePair(bs: seq<Branch>, x: nat, y: nat)
    requires x < |bs| && y < |bs| && x != y && AllSame(bs) && Wf(bs[0].v) && Wf(bs[x].v) && Wf(bs[y].v)
    ensures SameConcrete(bs[x].v, bs[y].v)
  {
    hide IsConcrete, ConcreteEqual, Wf;
    if x == 0 {
      assert SameConcrete(bs[0].v, bs[y].v);
    } else {
      assert SameConcrete(bs[0].v, bs[x].v);
      ConcreteEqualSymmetric(bs[0].v, bs[x].v);
      if y > 0 {
        assert SameConcrete(bs[0].v, bs[y].v);
        ConcreteEqualTransitive(bs[x].v, bs[0].v, bs[y].v);
      }
    }
  }

  /** The reconciled default with a value that is no disjunction. */
  lemma DefaultMeet(s: Value, d: Value)
    requires s.Disj? && !d.Disj?
    ensures MeetDefault(s, d) ==
            match DefaultIndex(s.branches)
            case None => None
            case Some(k) => if IsConcrete(MeetAt(s, d, k)) then Some(MeetAt(s, d, k)) else None
  {
    hide Unify, DefaultIndex;
    BottomIsOpen();
    assert OperandDefault(d).None?;
    hide IsConcrete;
  }

  lemma PlacesHave(bs: seq<Branch>, s: Value, d: Value, ks: seq<nat>)
    requires s.Disj? && !d.Disj? && Places(bs, s, d, ks)
    ensures MeetDefault(s, d).Some? && Has(bs, MeetDefault(s, d).value) <==> DefaultSurvives(s, d)
  {
    hide Survives, SameConcrete, IsConcrete, MeetAt, MeetDefault, Places, DefaultIndex;
    DefaultMeet(s, d);
    var def := MeetDefault(s, d);
    if def.Some? && Has(bs, def.value) {
      var x :| 0 <= x < |bs| && SameConcrete(bs[x].v, def.value);
      PlaceAt(bs, s, d, ks, x);
    }
    if DefaultSurvives(s, d) {
      var i :| 0 <= i < |s.branches| && Survives(s, d, i) && SameConcrete(MeetAt(s, d, i), MeetAt(s, d, DefaultIndex(s.branches).value));
      var x := PlaceOf(bs, s, d, ks, i);
    }
  }

  lemma BottomIsOpen()
    ensures !IsConcrete(Bottom)
  {
  }

  /**
    MAIN: a document passes a choice of any branches exactly if some branch survives it and the survivors
    agree on one concrete value or hold what the default branch makes of the document.
   */
  lemma AcceptedIffSurvivors(d: Value, g: Ground, s: Value)
    requires Lifts(d, g) && Wf(s) && s.Disj?
    ensures Leaves(Unify(d, s), []) == [] <==>
            && (exists i | 0 <= i < |s.branches| :: Survives(s, d, i))
            && (SurvivorsAgree(s, d) || DefaultSurvives(s, d))
  {
    hide *;
    LiftedIsWf(d, g);
    NoLeavesIffConcrete(Unify(d, s), []);
    UnionMeet(d, g, s);
    UnionConcrete(s, d);
    MetWf(s, d);
    var met := MeetBranches(s, d);
    var ks := MetPlaces(s, d);
    PlacesHave(met, s, d, ks);
    if met != [] {
      PlaceAt(met, s, d, ks, 0);
      if AllSame(met) && IsConcrete(met[0].v) { SameEverywhere(met, s, d, ks); }
      if SurvivorsAgree(s, d) { AgreedAtFirst(met, s, d, ks); }
    }
    if i :| 0 <= i < |s.branches| && Survives(s, d, i) { var x := PlaceOf(met, s, d, ks, i); }
  }

  lemma UnionMeet(d: Value, g: Ground, s: Value)
    requires Lifts(d, g) && s.Disj?
    ensures !d.Disj? && Unify(d, s) == UnifyDisjunction(s, d) == Unify(s, d)
  {
    hide UnifyDisjunction;
    LiftedIsPlain(d, g);
  }

  lemma OneCleanMeet(s: Value, d: Value, i: nat)
    requires s.Disj? && !d.Disj? && i < |s.branches|
    requires forall j | 0 <= j < |s.branches| :: CleanAt(s, d, j) <==> j == i
    ensures UnifyDisjunction(s, d) == MeetAt(s, d, i)
  {
    hide MeetAt, CleanAt, MeetBranches, MeetDefault, Places;
    var met := MeetBranches(s, d);
    var ks := MetPlaces(s, d);
    assert CleanAt(s, d, i);
    assert Survives(s, d, i);
    var x := PlaceOf(met, s, d, ks, i);
    if |met| > 1 {
      PlaceAt(met, s, d, ks, 0);
      PlaceAt(met, s, d, ks, 1);
      assert false;
    }
    DedupeFirst(met);
  }

  /** A branch is met from the left; whether it accepts the document does not depend on that. */
  lemma BranchAccepts(d: Value, g: Ground, s: Value, i: nat)
    requires Lifts(d, g) && Wf(s) && s.Disj? && i < |s.branches|
    ensures IsConcrete(MeetAt(s, d, i)) <==> Leaves(Unify(d, s.branches[i].v), []) == []
  {
    var b := s.branches[i].v;
    assert Wf(b);
    hide *;
    assert MeetAt(s, d, i) == Unify(b, d) by { MeetAtIs(s, d, i); }
    LiftedIsWf(d, g);
    NoLeavesIffConcrete(Unify(d, b), []);
    MeetOrder.DataInEitherOrder(d, g, b);
    MeetIsWf(d, b);
    MeetIsWf(b, d);
    AlikeConcrete(Unify(d, b), Unify(b, d));
  }

  lemma MeetAtIs(s: Value, d: Value, i: nat)
    requires s.Disj? && i < |s.branches|
    ensures MeetAt(s, d, i) == Unify(s.branches[i].v, d)
  {
  }

  /** MAIN: when one branch alone meets the document without a bottom, the choice accepts what that branch accepts. */
  lemma OneCleanBranch(d: Value, g: Ground, s: Value, i: nat)
    requires Lifts(d, g) && Wf(s) && s.Disj? && i < |s.branches|
    requires forall j | 0 <= j < |s.branches| :: CleanAt(s, d, j) <==> j == i
    ensures Unify(d, s) == Unify(s.branches[i].v, d)
    ensures Leaves(Unify(d, s), []) == [] <==> Leaves(Unify(d, s.branches[i].v), []) == []
  {
    hide *;
    NoLeavesIffConcrete(Unify(d, s), []);
    UnionMeet(d, g, s);
    OneCleanMeet(s, d, i);
    MeetAtIs(s, d, i);
    BranchAccepts(d, g, s, i);
  }

  // ----- Tagged unions -----

  /** The scalar a struct requires under the name. */
  predicate HasTag(v: Value, n: string, tag: Scalar)
  {
    v.Struct? && Find(v.fields, n) == Some(Field(n, Con(tag), false))
  }

  /** Every branch requires its own scalar under the name. */
  ghost predicate Tagged(s: Value, n: string, tags: seq<Scalar>)
    requires s.Disj?
  {
    && |tags| == |s.branches|
    && (forall i, j | 0 <= i < j < |tags| :: tags[i] != tags[j])
    && forall i | 0 <= i < |tags| :: HasTag(s.branches[i].v, n, tags[i])
  }

  lemma WrongTag(d: Value, g: Ground, b: Value, n: string, tag: Scalar)
    requires Lifts(d, g) && Wf(b) && HasTag(b, n, tag) && g.GStruct? && n in g.m && g.m[n] != GScalar(tag)
    ensures HasBottomLeaf(Unify(b, d)) && !IsConcrete(Unify(b, d))
  {
    LiftedIsWf(d, g);
    assert d.Struct?;
    StructMeetByName(b, d, n);
    var x := Find(d.fields, n);
    assert x == Some(d.fields[IndexOf(d.fields, n)]);
    assert Lifts(x.value.val, g.m[n]) && !x.value.optional;
    TagClash(x.value.val, g.m[n], tag);
    var out := UnifyStruct(b, d);
    assert Unify(b, d) == out;
    hide Unify, UnifyStruct, Lifts, Wf;
    assert Find(out.fields, n) == Some(Field(n, Bottom, false));
    BadField(out, n);
  }

  lemma TagClash(x: Value, g: Ground, tag: Scalar)
    requires Lifts(x, g) && g != GScalar(tag)
    ensures Unify(Con(tag), x) == Bottom
  {
  }

  lemma BadField(v: Value, n: string)
    requires v.Struct? && Find(v.fields, n) == Some(Field(n, Bottom, false))
    ensures HasBottomLeaf(v) && !IsConcrete(v)
  {
    var i := IndexOf(v.fields, n);
    assert v.fields[i] == Field(n, Bottom, false);
    assert HasBottomLeaf(v.fields[i].val) && !Absent(v.fields[i]) && !IsConcrete(v.fields[i].val);
  }

  lemma OtherBranches(d: Value, g: Ground, s: Value, n: string, tags: seq<Scalar>, j: nat)
    requires Lifts(d, g) && Wf(s) && s.Disj? && Tagged(s, n, tags) && g.GStruct? && n in g.m
    requires j < |s.branches| && g.m[n] != GScalar(tags[j])
    ensures !CleanAt(s, d, j) && !IsConcrete(MeetAt(s, d, j))
  {
    assert Wf(s.branches[j].v) && HasTag(s.branches[j].v, n, tags[j]);
    hide Unify, Wf, Lifts, HasTag, HasBottomLeaf, IsConcrete;
    WrongTag(d, g, s.branches[j].v, n, tags[j]);
  }

  /** A choice accepts only documents that some branch accepts. */
  lemma SomeBranchAccepts(d: Value, g: Ground, s: Value)
    requires Lifts(d, g) && Wf(s) && s.Disj? && Leaves(Unify(d, s), []) == []
    ensures exists i | 0 <= i < |s.branches| :: IsConcrete(MeetAt(s, d, i))
  {
    hide Unify, Leaves, Lifts, Wf, MeetAt, Survives, IsConcrete;
    AcceptedIffSurvivors(d, g, s);
    if SurvivorsAgree(s, d) {
      var i :| 0 <= i < |s.branches| && Survives(s, d, i);
      assert IsConcrete(MeetAt(s, d, i));
    }
  }

  /**
    MAIN: a tagged union refuses a document with no branch's tag, and otherwise accepts only what the
    tagged branch accepts; and all of that, as long as the branch's meet buries no bottom.
   */
  lemma TaggedUnion(d: Value, g: Ground, s: Value, n: string, tags: seq<Scalar>)
    requires Lifts(d, g) && Wf(s) && s.Disj? && Tagged(s, n, tags) && g.GStruct? && n in g.m
    ensures (forall i | 0 <= i < |tags| :: g.m[n] != GScalar(tags[i])) ==> Leaves(Unify(d, s), []) != []
    ensures forall i | 0 <= i < |tags| && g.m[n] == GScalar(tags[i]) ::
              && (Leaves(Unify(d, s), []) == [] ==> Leaves(Unify(d, s.branches[i].v), []) == [])
              && (CleanAt(s, d, i) ==> (Leaves(Unify(d, s), []) == [] <==> Leaves(Unify(d, s.branches[i].v), []) == []))
  {
    assert |tags| == |s.branches| && forall i, j | 0 <= i < j < |tags| :: tags[i] != tags[j];
    hide *;
    forall j | 0 <= j < |tags| && g.m[n] != GScalar(tags[j]) ensures !CleanAt(s, d, j) && !IsConcrete(MeetAt(s, d, j)) {
      OtherBranches(d, g, s, n, tags, j);
    }
    if Leaves(Unify(d, s), []) == [] { SomeBranchAccepts(d, g, s); }
    forall i | 0 <= i < |tags| && g.m[n] == GScalar(tags[i])
      ensures Leaves(Unify(d, s), []) == [] ==> Leaves(Unify(d, s.branches[i].v), []) == []
      ensures CleanAt(s, d, i) ==> (Leaves(Unify(d, s), []) == [] <==> Leaves(Unify(d, s.branches[i].v), []) == [])
    {
      assert forall j | 0 <= j < |tags| && j != i :: tags[j] != tags[i];
      BranchAccepts(d, g, s, i);
      if CleanAt(s, d, i) { OneCleanBranch(d, g, s, i); }
    }
  }

}
