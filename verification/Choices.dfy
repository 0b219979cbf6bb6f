/**
  Does the order of the operands of a meet matter? It does exactly where, of several equal concrete
  branches, the one met first is closed or optional where the one met first the other way round is not:
  folding equal branches ignores these flags and keeps the first.
 */
module Choices {

  import opened Wrappers
  import opened Values
  import opened Meet
  import opened MeetFacts
  import opened MeetWf
  import opened Defaults
  import opened Likeness
  import opened Semantics
  import opened Sequences

  // ----- Counting branches -----

  /** How many branches x is like, marked or not. */
  ghost function Count(x: Value, bs: seq<Branch>): nat
  {
    if bs == [] then 0 else Count(x, bs[..|bs| - 1]) + (if Alike(x, bs[|bs| - 1].v) then 1 else 0)
  }

  ghost predicate SameCounts(bs: seq<Branch>, cs: seq<Branch>)
  {
    forall x | Wf(x) :: Count(x, bs) == Count(x, cs)
  }

  lemma CountOne(x: Value, b: Branch)
    ensures Count(x, [b]) == if Alike(x, b.v) then 1 else 0
  {
    hide Alike;
    assert [b][..0] == [];
  }

  lemma {:induction false} CountConcat(x: Value, bs: seq<Branch>, cs: seq<Branch>)
    ensures Count(x, bs + cs) == Count(x, bs) + Count(x, cs)
  {
    hide Alike;
    if cs == [] {
      EmptyRight(bs);
    } else {
      var n := |cs| - 1;
      CountConcat(x, bs, cs[..n]);
      assert (bs + cs)[..|bs| + n] == bs + cs[..n];
    }
  }

  lemma {:induction false} CountAt(x: Value, bs: seq<Branch>, i: nat)
    requires i < |bs| && Alike(x, bs[i].v)
    ensures Count(x, bs) >= 1
  {
    hide Alike;
    if i < |bs| - 1 { CountAt(x, bs[..|bs| - 1], i); }
  }

  lemma {:induction false} CountedAt(x: Value, bs: seq<Branch>) returns (i: nat)
    requires Count(x, bs) >= 1
    ensures i < |bs| && Alike(x, bs[i].v)
  {
    hide Alike;
    i := |bs| - 1;
    if !Alike(x, bs[i].v) { i := CountedAt(x, bs[..|bs| - 1]); }
  }

  lemma {:induction false} CountTwo(x: Value, bs: seq<Branch>) returns (i: nat, j: nat)
    requires Count(x, bs) >= 2
    ensures i < j < |bs| && Alike(x, bs[i].v) && Alike(x, bs[j].v)
  {
    hide Alike;
    var n := |bs| - 1;
    if Alike(x, bs[n].v) {
      j := n;
      i := CountedAt(x, bs[..n]);
    } else {
      i, j := CountTwo(x, bs[..n]);
    }
  }

  lemma {:induction false} CountAll(x: Value, bs: seq<Branch>)
    requires forall i | 0 <= i < |bs| :: Alike(x, bs[i].v)
    ensures Count(x, bs) == |bs|
  {
    hide Alike;
    if bs != [] {
      assert forall i | 0 <= i < |bs| - 1 :: bs[..|bs| - 1][i] == bs[i];
      CountAll(x, bs[..|bs| - 1]);
    }
  }

  lemma CountSelf(bs: seq<Branch>, i: nat)
    requires WfBranches(bs) && i < |bs|
    ensures Count(bs[i].v, bs) >= 1
  {
    AlikeRefl(bs[i].v);
    CountAt(bs[i].v, bs, i);
  }

  lemma NoneIfNone(bs: seq<Branch>, cs: seq<Branch>)
    requires WfBranches(bs) && WfBranches(cs) && SameCounts(bs, cs)
    ensures bs == [] <==> cs == []
  {
    hide Wf;
    if bs != [] {
      CountSelf(bs, 0);
      assert Count(bs[0].v, cs) >= 1;
    }
    if cs != [] {
      CountSelf(cs, 0);
      assert Count(cs[0].v, bs) >= 1;
    }
  }

  // ----- The cross product, transposed -----

  /** Every pair of branches meets alike in both orders. */
  ghost predicate PairsCommute(ds: seq<Branch>, os: seq<Branch>)
  {
    forall i, j | 0 <= i < |ds| && 0 <= j < |os| :: Alike(Unify(ds[i].v, os[j].v), Unify(os[j].v, ds[i].v))
  }

  lemma ClassCommutes(x: Value, a: Value, b: Value)
    requires Wf(x) && Wf(a) && Wf(b) && Alike(Unify(a, b), Unify(b, a))
    ensures Alike(x, Unify(a, b)) == Alike(x, Unify(b, a))
  {
    hide *;
    var p, q := Unify(a, b), Unify(b, a);
    MeetIsWf(a, b);
    MeetIsWf(b, a);
    AlikeSymmetric(p, q);
    if Alike(x, p) { AlikeTransitive(x, p, q); }
    if Alike(x, q) { AlikeTransitive(x, q, p); }
  }

  lemma CrossWf(ds: seq<Branch>, os: seq<Branch>)
    requires WfBranches(ds) && WfBranches(os)
    ensures WfBranches(MeetCross(ds, os))
  {
    hide Wf;
    var cross := MeetCross(ds, os);
    forall k | 0 <= k < |cross| ensures Wf(cross[k].v) {
      CrossOrigin(ds, os, k);
      var i, j :| 0 <= i < |ds| && 0 <= j < |os| && cross[k].v == Unify(ds[i].v, os[j].v);
      MeetIsWf(ds[i].v, os[j].v);
    }
  }

  lemma RowSnoc(x: Value, d: Branch, os: seq<Branch>)
    requires os != []
    ensures Count(x, MeetRow(d, os)) ==
            Count(x, MeetRow(d, os[..|os| - 1])) + (if Alike(x, Unify(d.v, os[|os| - 1].v)) then 1 else 0)
  {
    hide Alike, Unify;
    var n := |os| - 1;
    var last := Branch(Unify(d.v, os[n].v), CombineMode(d.mode, os[n].mode));
    assert MeetRow(d, os) == MeetRow(d, os[..n]) + [last];
    CountConcat(x, MeetRow(d, os[..n]), [last]);
    CountOne(x, last);
  }

  lemma CrossSnoc(x: Value, ds: seq<Branch>, os: seq<Branch>)
    requires ds != []
    ensures Count(x, MeetCross(ds, os)) == Count(x, MeetCross(ds[..|ds| - 1], os)) + Count(x, MeetRow(ds[|ds| - 1], os))
  {
    hide Alike, Unify, Count;
    CountConcat(x, MeetCross(ds[..|ds| - 1], os), MeetRow(ds[|ds| - 1], os));
  }

  lemma CrossNone(x: Value, d: Branch, ds: seq<Branch>)
    ensures Count(x, MeetCross([], ds)) == 0 && Count(x, MeetRow(d, [])) == 0
  {
  }

  lemma PairsFront(ds: seq<Branch>, os: seq<Branch>, n: nat, m: nat)
    requires PairsCommute(ds, os) && n <= |ds| && m <= |os|
    ensures PairsCommute(ds[..n], os[..m]) && PairsCommute(ds[..n], os) && PairsCommute(ds, os[..m])
  {
    hide Alike, Unify;
  }

  lemma WfFront(bs: seq<Branch>, n: nat)
    requires WfBranches(bs) && n <= |bs|
    ensures WfBranches(bs[..n])
  {
    hide Wf;
  }

  /** The branches the last branch of ds contributes, as a column of the product the other way round. */
  lemma {:induction false} CrossColumn(x: Value, os: seq<Branch>, ds: seq<Branch>)
    requires Wf(x) && WfBranches(ds) && WfBranches(os) && PairsCommute(ds, os) && ds != []
    ensures Count(x, MeetCross(os, ds)) == Count(x, MeetCross(os, ds[..|ds| - 1])) + Count(x, MeetRow(ds[|ds| - 1], os))
  {
    var n := |ds| - 1;
    if os == [] {
      hide Alike, Unify;
      CrossNone(x, ds[n], ds);
      CrossNone(x, ds[n], ds[..n]);
    } else {
      var m := |os| - 1;
      PairsFront(ds, os, n, m);
      WfFront(os, m);
      assert Alike(Unify(ds[n].v, os[m].v), Unify(os[m].v, ds[n].v)) && Wf(ds[n].v) && Wf(os[m].v);
      hide *;
      CrossColumn(x, os[..m], ds);
      CrossSnoc(x, os, ds);
      CrossSnoc(x, os, ds[..n]);
      RowSnoc(x, os[m], ds);
      RowSnoc(x, ds[n], os);
      ClassCommutes(x, ds[n].v, os[m].v);
    }
  }

  lemma {:induction false} CrossTransposed(x: Value, ds: seq<Branch>, os: seq<Branch>)
    requires Wf(x) && WfBranches(ds) && WfBranches(os) && PairsCommute(ds, os)
    ensures Count(x, MeetCross(ds, os)) == Count(x, MeetCross(os, ds))
  {
    if ds == [] {
      hide Alike, Unify;
      CrossEmpty(x, os);
    } else {
      var n := |ds| - 1;
      PairsFront(ds, os, n, |os|);
      WfFront(ds, n);
      hide *;
      CrossTransposed(x, ds[..n], os);
      CrossSnoc(x, ds, os);
      CrossColumn(x, os, ds);
    }
  }

  lemma {:induction false} CrossEmpty(x: Value, os: seq<Branch>)
    ensures Count(x, MeetCross(os, [])) == 0
  {
    hide Alike, Unify;
    if os != [] {
      CrossEmpty(x, os[..|os| - 1]);
      assert MeetRow(os[|os| - 1], []) == [];
      EmptyRight(MeetCross(os[..|os| - 1], []));
    }
  }

  // ----- Pruning -----

  lemma {:induction false} CountClean(x: Value, bs: seq<Branch>)
    requires Wf(x) && WfBranches(bs)
    ensures Count(x, CleanOf(bs)) == if HasBottomLeaf(x) then 0 else Count(x, bs)
  {
    hide Alike, Wf, HasBottomLeaf;
    if bs != [] {
      var n := |bs| - 1;
      CountClean(x, bs[..n]);
      CountConcat(x, CleanOf(bs[..n]), if HasBottomLeaf(bs[n].v) then [] else [bs[n]]);
      CountOne(x, bs[n]);
      if Alike(x, bs[n].v) { AlikeHasBottom(x, bs[n].v); }
    }
  }

  lemma {:induction false} CountDirty(x: Value, bs: seq<Branch>)
    requires Wf(x) && WfBranches(bs)
    ensures Count(x, DirtyOf(bs)) == if !x.Bottom? && HasBottomLeaf(x) then Count(x, bs) else 0
  {
    hide Alike, Wf, HasBottomLeaf;
    if bs != [] {
      var n := |bs| - 1;
      CountDirty(x, bs[..n]);
      CountConcat(x, DirtyOf(bs[..n]), if !bs[n].v.Bottom? && HasBottomLeaf(bs[n].v) then [bs[n]] else []);
      CountOne(x, bs[n]);
      if Alike(x, bs[n].v) {
        AlikeHasBottom(x, bs[n].v);
        BottomIsAlone(x, bs[n].v);
      }
    }
  }

  lemma BottomIsAlone(a: Value, b: Value)
    requires Alike(a, b)
    ensures a.Bottom? == b.Bottom?
  {
  }

  lemma PrunedWf(bs: seq<Branch>)
    requires WfBranches(bs)
    ensures WfBranches(CleanOf(bs)) && WfBranches(DirtyOf(bs))
  {
    hide Wf, HasBottomLeaf;
    forall k | 0 <= k < |CleanOf(bs)| ensures Wf(CleanOf(bs)[k].v) { CleanOrigin(bs, k); }
    forall k | 0 <= k < |DirtyOf(bs)| ensures Wf(DirtyOf(bs)[k].v) { DirtyOrigin(bs, k); }
  }

  lemma MetWf(d: Value, o: Value)
    requires Wf(d) && Wf(o) && d.Disj? && o.Disj?
    ensures WfBranches(d.branches) && WfBranches(o.branches) && WfBranches(MeetBranches(d, o))
  {
    CrossWf(d.branches, o.branches);
    PrunedWf(MeetCross(d.branches, o.branches));
  }

  /** Pruning keeps the same branches whichever operand comes first. */
  lemma PrunedAlike(d: Value, o: Value)
    requires Wf(d) && Wf(o) && d.Disj? && o.Disj? && PairsCommute(d.branches, o.branches)
    ensures SameCounts(MeetBranches(d, o), MeetBranches(o, d))
  {
    MetWf(d, o);
    hide Alike, Wf, HasBottomLeaf, Unify, CleanOf, DirtyOf, PairsCommute, WfBranches;
    var xs, ys := MeetCross(d.branches, o.branches), MeetCross(o.branches, d.branches);
    CrossWf(d.branches, o.branches);
    CrossWf(o.branches, d.branches);
    PrunedWf(xs);
    PrunedWf(ys);
    forall x | Wf(x)
      ensures Count(x, CleanOf(xs)) == Count(x, CleanOf(ys)) && Count(x, DirtyOf(xs)) == Count(x, DirtyOf(ys))
    {
      CrossTransposed(x, d.branches, o.branches);
      CountClean(x, xs);
      CountClean(x, ys);
      CountDirty(x, xs);
      CountDirty(x, ys);
    }
    NoneIfNone(CleanOf(xs), CleanOf(ys));
  }

  // ----- Folding -----

  lemma DedupeWf(bs: seq<Branch>)
    requires WfBranches(bs)
    ensures WfBranches(Dedupe(bs))
  {
    hide Wf;
    forall k | 0 <= k < |Dedupe(bs)| ensures Wf(Dedupe(bs)[k].v) { DedupeOrigin(bs, k); }
  }

  /** Equal concrete values are equal to themselves. */
  lemma FoldsBoth(a: Value, b: Value)
    requires Wf(a) && Wf(b) && SameConcrete(a, b)
    ensures SameConcrete(a, a) && SameConcrete(b, b) && SameConcrete(b, a)
  {
    hide ConcreteEqual, IsConcrete, Wf;
    ConcreteEqualSymmetric(a, b);
    ConcreteEqualTransitive(a, b, a);
    ConcreteEqualTransitive(b, a, b);
  }

  lemma SameConcreteTransitive(a: Value, b: Value, c: Value)
    requires SameConcrete(a, b) && SameConcrete(b, c)
    ensures SameConcrete(a, c)
  {
    ConcreteEqualTransitive(a, b, c);
  }

  lemma {:induction false} CountSameValues(x: Value, bs: seq<Branch>, cs: seq<Branch>)
    requires |bs| == |cs| && forall i | 0 <= i < |bs| :: bs[i].v == cs[i].v
    ensures Count(x, bs) == Count(x, cs)
  {
    hide Alike;
    if bs != [] { CountSameValues(x, bs[..|bs| - 1], cs[..|cs| - 1]); }
  }

  lemma AbsorbUnfolded(x: Value, out: seq<Branch>, b: Branch)
    requires Wf(x) && Wf(b.v) && WfBranches(out) && !SameConcrete(x, x)
    ensures Count(x, Absorb(out, b)) == Count(x, out + [b])
  {
    hide Alike, Wf, SameConcrete, Count;
    CountConcat(x, out, [b]);
    CountOne(x, b);
    match FirstSame(out, b.v)
    case Some(i) =>
      CountSameValues(x, Absorb(out, b), out);
      if Alike(x, b.v) {
        FoldsBoth(out[i].v, b.v);
        SameConcreteCarries(x, b.v, x);
        SameConcreteCarries(x, b.v, b.v);
      }
    case None =>
  }

  /** Folding leaves the branches alone that are not equal to themselves. */
  lemma {:induction false} CountUnfolded(x: Value, bs: seq<Branch>)
    requires Wf(x) && WfBranches(bs) && !SameConcrete(x, x)
    ensures Count(x, Dedupe(bs)) == Count(x, bs)
  {
    hide Alike, Wf, SameConcrete, Absorb, Count;
    if bs != [] {
      var n := |bs| - 1;
      WfFront(bs, n);
      DedupeWf(bs[..n]);
      CountUnfolded(x, bs[..n]);
      AbsorbUnfolded(x, Dedupe(bs[..n]), bs[n]);
      CountConcat(x, Dedupe(bs[..n]), [bs[n]]);
      CountConcat(x, bs[..n], [bs[n]]);
      Snoc(bs);
    }
  }

  /** Of equal concrete branches one survives. */
  lemma CountFolded(x: Value, bs: seq<Branch>)
    requires Wf(x) && WfBranches(bs) && SameConcrete(x, x)
    ensures Count(x, Dedupe(bs)) <= 1
  {
    hide Alike, Wf, SameConcrete, Dedupe, Count;
    var xs := Dedupe(bs);
    DedupeWf(bs);
    DedupeDistinct(bs);
    if Count(x, xs) >= 2 {
      var i, j := CountTwo(x, xs);
      SameConcreteCarries(x, xs[i].v, x);
      SameConcreteCarries(x, xs[j].v, xs[i].v);
    }
  }

  // ----- The condition -----

  /** Of equal concrete branches the one each list holds first has the same flags. */
  predicate FirstsMatch(xs: seq<Branch>, ys: seq<Branch>)
  {
    forall i, j | 0 <= i < |xs| && 0 <= j < |ys| && SameConcrete(xs[i].v, ys[j].v) :: FlagsAgree(xs[i].v, ys[j].v)
  }

  /** What survives of a survivor's class on the other side. */
  lemma OtherFirst(xs: seq<Branch>, bs: seq<Branch>, cs: seq<Branch>, i: nat) returns (j: nat)
    requires xs == Dedupe(bs) && WfBranches(bs) && WfBranches(cs) && SameCounts(bs, cs)
    requires i < |xs| && SameConcrete(xs[i].v, xs[i].v)
    ensures j < |Dedupe(cs)| && SameConcrete(xs[i].v, Dedupe(cs)[j].v)
  {
    hide Wf, Alike, SameConcrete, Dedupe, Count;
    DedupeWf(bs);
    DedupeOrigin(bs, i);
    var k :| 0 <= k < |bs| && bs[k].v == xs[i].v;
    CountSelf(bs, k);
    assert Count(bs[k].v, cs) >= 1;
    var l := CountedAt(bs[k].v, cs);
    SameConcreteCarries(bs[k].v, cs[l].v, bs[k].v);
    DedupeKeeps(cs, l);
    var ys := Dedupe(cs);
    j :| 0 <= j < |ys| && (ys[j].v == cs[l].v || SameConcrete(ys[j].v, cs[l].v));
    DedupeWf(cs);
    if ys[j].v != cs[l].v {
      FoldsBoth(ys[j].v, cs[l].v);
      SameConcreteTransitive(xs[i].v, cs[l].v, ys[j].v);
    }
  }

  lemma FoldsAtMost(x: Value, bs: seq<Branch>, cs: seq<Branch>)
    requires Wf(x) && WfBranches(bs) && WfBranches(cs) && SameCounts(bs, cs)
    requires FirstsMatch(Dedupe(bs), Dedupe(cs)) && SameConcrete(x, x)
    ensures Count(x, Dedupe(bs)) <= Count(x, Dedupe(cs))
  {
    hide Wf, Alike, SameConcrete, Dedupe, Count, FlagsAgree;
    var xs, ys := Dedupe(bs), Dedupe(cs);
    CountFolded(x, bs);
    DedupeWf(bs);
    DedupeWf(cs);
    if Count(x, xs) >= 1 {
      var i := CountedAt(x, xs);
      SameConcreteCarries(x, xs[i].v, x);
      SameConcreteCarries(x, xs[i].v, xs[i].v);
      var j := OtherFirst(xs, bs, cs, i);
      SameConcreteIsEqual(xs[i].v, ys[j].v);
      AlikeIffFlags(xs[i].v, ys[j].v);
      AlikeTransitive(x, xs[i].v, ys[j].v);
      CountAt(x, ys, j);
    }
  }

  lemma SameConcreteIsEqual(a: Value, b: Value)
    requires SameConcrete(a, b)
    ensures ConcreteEqual(a, b)
  {
  }

  lemma FirstsMatchBack(xs: seq<Branch>, ys: seq<Branch>)
    requires WfBranches(xs) && WfBranches(ys) && FirstsMatch(xs, ys)
    ensures FirstsMatch(ys, xs)
  {
    hide Wf, Alike, SameConcrete, FlagsAgree;
    forall j, i | 0 <= j < |ys| && 0 <= i < |xs| && SameConcrete(ys[j].v, xs[i].v) ensures FlagsAgree(ys[j].v, xs[i].v) {
      FoldsBoth(ys[j].v, xs[i].v);
      SameConcreteIsEqual(ys[j].v, xs[i].v);
      SameConcreteIsEqual(xs[i].v, ys[j].v);
      AlikeIffFlags(xs[i].v, ys[j].v);
      AlikeSymmetric(xs[i].v, ys[j].v);
      AlikeIffFlags(ys[j].v, xs[i].v);
    }
  }

  /** Two lists with the same branches fold to lists with the same branches exactly if their firsts match. */
  lemma FoldedAlike(bs: seq<Branch>, cs: seq<Branch>)
    requires WfBranches(bs) && WfBranches(cs) && SameCounts(bs, cs)
    ensures FirstsMatch(Dedupe(bs), Dedupe(cs)) <==> SameCounts(Dedupe(bs), Dedupe(cs))
  {
    DedupeWf(bs);
    DedupeWf(cs);
    if FirstsMatch(Dedupe(bs), Dedupe(cs)) {
      hide Wf, Alike, SameConcrete, Dedupe, Count, FirstsMatch;
      FirstsMatchBack(Dedupe(bs), Dedupe(cs));
      forall x | Wf(x) ensures Count(x, Dedupe(bs)) == Count(x, Dedupe(cs)) {
        if SameConcrete(x, x) {
          FoldsAtMost(x, bs, cs);
          FoldsAtMost(x, cs, bs);
        } else {
          CountUnfolded(x, bs);
          CountUnfolded(x, cs);
        }
      }
    }
    if SameCounts(Dedupe(bs), Dedupe(cs)) { CountsMatch(bs, cs); }
  }

  lemma CountsMatch(bs: seq<Branch>, cs: seq<Branch>)
    requires WfBranches(bs) && WfBranches(cs) && SameCounts(Dedupe(bs), Dedupe(cs))
    ensures FirstsMatch(Dedupe(bs), Dedupe(cs))
  {
    hide Wf, Alike, SameConcrete, Dedupe, Count, FlagsAgree;
    var xs, ys := Dedupe(bs), Dedupe(cs);
    DedupeWf(bs);
    DedupeWf(cs);
    DedupeDistinct(cs);
    forall i, j | 0 <= i < |xs| && 0 <= j < |ys| && SameConcrete(xs[i].v, ys[j].v) ensures FlagsAgree(xs[i].v, ys[j].v) {
      CountSelf(xs, i);
      assert Count(xs[i].v, ys) >= 1;
      var k := CountedAt(xs[i].v, ys);
      SameConcreteCarries(xs[i].v, ys[k].v, ys[j].v);
      if k < j { } else if j < k { FoldsBoth(ys[k].v, ys[j].v); }
      SameConcreteIsEqual(xs[i].v, ys[j].v);
      AlikeIffFlags(xs[i].v, ys[j].v);
    }
  }

  // ----- Marking -----

  /** Is x, were it a branch, the default? */
  ghost predicate Picked(x: Value, def: Option<Value>)
  {
    def.Some? && SameConcrete(x, def.value)
  }

  lemma OperandDefaultAt(d: Value)
    requires Wf(d) && d.Disj? && OperandDefault(d).Some?
    ensures Wf(OperandDefault(d).value)
    ensures exists i :: 0 <= i < |d.branches| && d.branches[i].v == OperandDefault(d).value
  {
  }

  lemma DefaultsMeetAlike(d: Value, o: Value)
    requires Wf(d) && Wf(o) && d.Disj? && o.Disj? && PairsCommute(d.branches, o.branches)
    requires OperandDefault(d).Some? && OperandDefault(o).Some?
    ensures var dd, od := OperandDefault(d).value, OperandDefault(o).value;
      Wf(dd) && Wf(od) && Alike(Unify(dd, od), Unify(od, dd))
  {
    hide Wf, Alike, Unify, OperandDefault;
    OperandDefaultAt(d);
    OperandDefaultAt(o);
    var dd, od := OperandDefault(d).value, OperandDefault(o).value;
    var i :| 0 <= i < |d.branches| && d.branches[i].v == dd;
    var j :| 0 <= j < |o.branches| && o.branches[j].v == od;
  }

  /** The default reconciled for d & o picks the same branches as the one for o & d. */
  lemma DefaultCommutes(x: Value, d: Value, o: Value)
    requires Wf(x) && Wf(d) && Wf(o) && d.Disj? && o.Disj? && PairsCommute(d.branches, o.branches)
    ensures Picked(x, MeetDefault(d, o)) == Picked(x, MeetDefault(o, d))
  {
    var dd, od := OperandDefault(d), OperandDefault(o);
    hide Wf, Unify, Alike, IsConcrete, SameConcrete, OperandDefault, PairsCommute;
    if dd.Some? && od.Some? {
      var p, q := Unify(dd.value, od.value), Unify(od.value, dd.value);
      DefaultsMeetAlike(d, o);
      MeetIsWf(dd.value, od.value);
      MeetIsWf(od.value, dd.value);
      AlikeConcrete(p, q);
      SameConcreteCarries(p, q, x);
    }
  }

  lemma {:induction false} TallyRemark(x: Value, bs: seq<Branch>, def: Option<Value>, m: bool)
    requires Wf(x) && WfBranches(bs) && (def.Some? ==> Wf(def.value) && IsConcrete(def.value))
    ensures Tally(x, Remark(bs, def), m) == if Picked(x, def) == m then Count(x, bs) else 0
  {
    hide Alike, Wf, Picked, IsConcrete;
    if bs != [] {
      var n := |bs| - 1;
      WfFront(bs, n);
      TallyRemark(x, bs[..n], def, m);
      assert Remark(bs, def)[..n] == Remark(bs[..n], def);
      MarkIsPicked(bs, def, n);
      if Alike(x, bs[n].v) { PickedAlike(x, bs[n].v, def); }
    }
  }

  lemma PickedAlike(x: Value, y: Value, def: Option<Value>)
    requires Wf(x) && Wf(y) && (def.Some? ==> Wf(def.value)) && Alike(x, y)
    ensures Picked(x, def) == Picked(y, def)
  {
    hide SameConcrete;
    if def.Some? { SameConcreteCarries(x, y, def.value); }
  }

  lemma MarkIsPicked(bs: seq<Branch>, def: Option<Value>, i: nat)
    requires i < |bs| && (def.Some? ==> IsConcrete(def.value))
    ensures Remark(bs, def)[i].v == bs[i].v && (Remark(bs, def)[i].mode.Is? == Picked(bs[i].v, def))
  {
    hide ConcreteEqual;
  }

  lemma DefaultIsWf(d: Value, o: Value)
    requires Wf(d) && Wf(o) && d.Disj? && MeetDefault(d, o).Some?
    ensures Wf(MeetDefault(d, o).value) && IsConcrete(MeetDefault(d, o).value)
  {
    MeetDefaultWf(d, o);
  }

  /** Each branch is marked in one of the two ways. */
  lemma {:induction false} CountIsTallies(x: Value, bs: seq<Branch>)
    ensures Count(x, bs) == Tally(x, bs, true) + Tally(x, bs, false)
  {
    hide Alike;
    if bs != [] { CountIsTallies(x, bs[..|bs| - 1]); }
  }

  /** Two re-marked disjunctions are alike exactly if they hold the same branches. */
  lemma RemarkedAlike(xs: seq<Branch>, ys: seq<Branch>, dx: Option<Value>, dy: Option<Value>)
    requires WfBranches(xs) && WfBranches(ys)
    requires (dx.Some? ==> Wf(dx.value) && IsConcrete(dx.value)) && (dy.Some? ==> Wf(dy.value) && IsConcrete(dy.value))
    requires forall x | Wf(x) :: Picked(x, dx) == Picked(x, dy)
    ensures Alike(Disj(Remark(xs, dx)), Disj(Remark(ys, dy))) <==> SameCounts(xs, ys)
  {
    var bs, cs := Remark(xs, dx), Remark(ys, dy);
    hide Wf, Picked, Count, Tally, Remark;
    if SameCounts(xs, ys) {
      forall i, m | 0 <= i < |bs| ensures Tally(bs[i].v, bs, m) == Tally(bs[i].v, cs, m) {
        TallyRemark(xs[i].v, xs, dx, m);
        TallyRemark(xs[i].v, ys, dy, m);
      }
      forall j | 0 <= j < |cs| ensures Offered(bs, cs[j].v) {
        CountSelf(ys, j);
        assert Count(ys[j].v, xs) >= 1;
        var i := CountedAt(ys[j].v, xs);
        AlikeSymmetric(ys[j].v, xs[i].v);
        assert Alike(bs[i].v, cs[j].v);
      }
    }
    if Alike(Disj(bs), Disj(cs)) {
      forall x | Wf(x) ensures Count(x, xs) == Count(x, ys) { RemarkedCounts(x, xs, ys, bs, cs); }
    }
  }

  lemma RemarkedCounts(x: Value, xs: seq<Branch>, ys: seq<Branch>, bs: seq<Branch>, cs: seq<Branch>)
    requires Wf(x) && WfBranches(xs) && WfBranches(ys) && |bs| == |xs| && |cs| == |ys|
    requires forall i | 0 <= i < |xs| :: bs[i].v == xs[i].v
    requires forall j | 0 <= j < |ys| :: cs[j].v == ys[j].v
    requires Alike(Disj(bs), Disj(cs))
    ensures Count(x, xs) == Count(x, ys)
  {
    DisjParts(bs, cs);
    hide *;
    CountSameValues(x, xs, bs);
    CountSameValues(x, ys, cs);
    SameWf(xs, bs);
    SameWf(ys, cs);
    CountsFromTallies(x, bs, cs);
  }

  lemma SameWf(xs: seq<Branch>, bs: seq<Branch>)
    requires WfBranches(xs) && |bs| == |xs| && forall i | 0 <= i < |xs| :: bs[i].v == xs[i].v
    ensures WfBranches(bs)
  {
    hide Wf;
  }

  lemma DisjParts(bs: seq<Branch>, cs: seq<Branch>)
    requires Alike(Disj(bs), Disj(cs))
    ensures forall i, m | 0 <= i < |bs| :: Tally(bs[i].v, bs, m) == Tally(bs[i].v, cs, m)
    ensures forall j | 0 <= j < |cs| :: Offered(bs, cs[j].v)
  {
    hide Tally, Offered;
  }

  lemma CountsFromTallies(x: Value, bs: seq<Branch>, cs: seq<Branch>)
    requires Wf(x) && WfBranches(bs) && WfBranches(cs)
    requires forall i, m | 0 <= i < |bs| :: Tally(bs[i].v, bs, m) == Tally(bs[i].v, cs, m)
    requires forall j | 0 <= j < |cs| :: Offered(bs, cs[j].v)
    ensures Count(x, bs) == Count(x, cs)
  {
    hide Wf, Alike, Count, Tally, Offered;
    if Count(x, bs) >= 1 {
      var i := CountedAt(x, bs);
      LikeBranch(x, bs, cs, i);
    } else if Count(x, cs) >= 1 {
      var j := CountedAt(x, cs);
      var i := OfferedAt(bs, cs[j].v);
      AlikeSymmetric(bs[i].v, cs[j].v);
      AlikeTransitive(x, cs[j].v, bs[i].v);
      CountAt(x, bs, i);
    }
  }

  lemma OfferedAt(bs: seq<Branch>, v: Value) returns (i: nat)
    requires Offered(bs, v)
    ensures i < |bs| && Alike(bs[i].v, v)
  {
    hide Alike;
    i :| i < |bs| && Alike(bs[i].v, v);
  }

  lemma LikeBranch(x: Value, bs: seq<Branch>, cs: seq<Branch>, i: nat)
    requires Wf(x) && WfBranches(bs) && WfBranches(cs) && i < |bs| && Alike(x, bs[i].v)
    requires forall m :: Tally(bs[i].v, bs, m) == Tally(bs[i].v, cs, m)
    ensures Count(x, bs) == Count(x, cs)
  {
    hide Wf, Alike, Count, Tally;
    CountClass(x, bs[i].v, bs);
    CountClass(x, bs[i].v, cs);
    CountIsTallies(bs[i].v, bs);
    CountIsTallies(bs[i].v, cs);
  }

  lemma CountClass(v: Value, w: Value, bs: seq<Branch>)
    requires Wf(v) && Wf(w) && WfBranches(bs) && Alike(v, w)
    ensures Count(v, bs) == Count(w, bs)
  {
    hide Wf, Alike, Count;
    CountIsTallies(v, bs);
    CountIsTallies(w, bs);
    TallyClass(v, w, bs, true);
    TallyClass(v, w, bs, false);
  }

  // ----- Disjunctions -----

  lemma OneAlike(bs: seq<Branch>, cs: seq<Branch>)
    requires WfBranches(bs) && WfBranches(cs) && |bs| == 1 && SameCounts(bs, cs)
    ensures |cs| == 1 && Alike(bs[0].v, cs[0].v)
  {
    hide Alike, Wf, Count;
    NoneIfNone(bs, cs);
    assert bs == [bs[0]];
    forall i | 0 <= i < |cs| ensures Alike(bs[0].v, cs[i].v) {
      CountSelf(cs, i);
      assert Count(cs[i].v, bs) >= 1;
      CountOne(cs[i].v, bs[0]);
      AlikeSymmetric(cs[i].v, bs[0].v);
    }
    CountAll(bs[0].v, cs);
    CountOne(bs[0].v, bs[0]);
    assert Count(bs[0].v, bs) == Count(bs[0].v, cs);
  }

  lemma OneEach(b: Branch, c: Branch)
    requires Wf(b.v) && Wf(c.v) && Alike(b.v, c.v)
    ensures SameCounts([b], [c])
  {
    hide Alike, Wf, Count;
    forall x | Wf(x) ensures Count(x, [b]) == Count(x, [c]) {
      CountOne(x, b);
      CountOne(x, c);
      AlikeSymmetric(b.v, c.v);
      if Alike(x, b.v) { AlikeTransitive(x, b.v, c.v); }
      if Alike(x, c.v) { AlikeTransitive(x, c.v, b.v); }
    }
  }

  /** What survives a meet of disjunctions. */
  function Survivors(d: Value, o: Value): seq<Branch>
    requires d.Disj?
  {
    Dedupe(MeetBranches(d, o))
  }

  /** Of equal concrete branches, the one met first has the same flags in both orders. */
  predicate FirstsAgree(d: Value, o: Value)
    requires d.Disj? && o.Disj?
  {
    FirstsMatch(Survivors(d, o), Survivors(o, d))
  }

  lemma MeetIs(d: Value, o: Value)
    requires d.Disj? && o.Disj?
    ensures var xs := Survivors(d, o);
      Unify(d, o) == if xs == [] then Bottom else if |xs| == 1 then xs[0].v else Disj(Remark(xs, MeetDefault(d, o)))
  {
    hide MeetBranches, MeetDefault;
    assert Unify(d, o) == UnifyDisjunction(d, o);
  }

  lemma SurvivorFacts(d: Value, o: Value)
    requires Wf(d) && Wf(o) && d.Disj? && o.Disj?
    ensures WfBranches(Survivors(d, o)) && forall i | 0 <= i < |Survivors(d, o)| :: !Survivors(d, o)[i].v.Disj?
  {
    hide Wf;
    SurvivorsWf(d, o);
    var xs := Survivors(d, o);
    forall i | 0 <= i < |xs| ensures Wf(xs[i].v) && !xs[i].v.Disj? { assert xs[i] in xs; }
  }

  lemma NoChoice(a: Value, b: Value)
    requires Alike(a, b)
    ensures a.Disj? == b.Disj? && a.Bottom? == b.Bottom?
  {
  }

  /** MAIN: provided their branches meet alike in both orders, so do two disjunctions, exactly if their firsts agree. */
  lemma DisjunctionsCommute(d: Value, o: Value)
    requires Wf(d) && Wf(o) && d.Disj? && o.Disj? && PairsCommute(d.branches, o.branches)
    ensures Alike(Unify(d, o), Unify(o, d)) <==> FirstsAgree(d, o)
  {
    var xs, ys := Survivors(d, o), Survivors(o, d);
    SurvivorsMatch(d, o);
    var dx, dy := MeetDefault(d, o), MeetDefault(o, d);
    SurvivorFacts(d, o);
    SurvivorFacts(o, d);
    MeetIs(d, o);
    MeetIs(o, d);
    if dx.Some? { DefaultIsWf(d, o); }
    if dy.Some? { DefaultIsWf(o, d); }
    forall x | Wf(x) ensures Picked(x, dx) == Picked(x, dy) { DefaultCommutes(x, d, o); }
    hide *;
    ResultsAlike(xs, ys, dx, dy, Unify(d, o), Unify(o, d));
  }

  lemma SurvivorsMatch(d: Value, o: Value)
    requires Wf(d) && Wf(o) && d.Disj? && o.Disj? && PairsCommute(d.branches, o.branches)
    ensures FirstsAgree(d, o) <==> SameCounts(Survivors(d, o), Survivors(o, d))
    ensures Survivors(d, o) == [] <==> Survivors(o, d) == []
  {
    hide Wf, Unify, Alike, Count, MeetBranches, PairsCommute, FirstsMatch;
    MetWf(d, o);
    MetWf(o, d);
    PrunedAlike(d, o);
    NoneIfNone(MeetBranches(d, o), MeetBranches(o, d));
    FoldedAlike(MeetBranches(d, o), MeetBranches(o, d));
  }

  /** The result of a meet, as MeetIs gives it, from the survivors and the default. */
  function ResultOf(xs: seq<Branch>, def: Option<Value>): Value
  {
    if xs == [] then Bottom else if |xs| == 1 then xs[0].v else Disj(Remark(xs, def))
  }

  lemma ResultsAlike(xs: seq<Branch>, ys: seq<Branch>, dx: Option<Value>, dy: Option<Value>, a: Value, b: Value)
    requires WfBranches(xs) && WfBranches(ys) && (xs == [] <==> ys == [])
    requires forall i | 0 <= i < |xs| :: !xs[i].v.Disj?
    requires forall j | 0 <= j < |ys| :: !ys[j].v.Disj?
    requires (dx.Some? ==> Wf(dx.value) && IsConcrete(dx.value)) && (dy.Some? ==> Wf(dy.value) && IsConcrete(dy.value))
    requires forall x | Wf(x) :: Picked(x, dx) == Picked(x, dy)
    requires a == ResultOf(xs, dx) && b == ResultOf(ys, dy)
    ensures Alike(a, b) <==> SameCounts(xs, ys)
  {
    hide Wf, Alike, Count, Picked, IsConcrete, Remark;
    if Alike(a, b) { NoChoice(a, b); }
    if SameCounts(xs, ys) && |xs| == 1 { OneAlike(xs, ys); }
    if SameCounts(xs, ys) && |ys| == 1 { SameCountsBack(xs, ys); OneAlike(ys, xs); }
    if xs == [] {
      assert xs == ys;
      AlikeRefl(Bottom);
    } else if |xs| == 1 && |ys| == 1 {
      assert xs == [xs[0]] && ys == [ys[0]];
      if Alike(a, b) { OneEach(xs[0], ys[0]); }
    } else if |xs| > 1 && |ys| > 1 {
      RemarkedAlike(xs, ys, dx, dy);
    }
  }

  lemma SameCountsBack(bs: seq<Branch>, cs: seq<Branch>)
    requires SameCounts(bs, cs)
    ensures SameCounts(cs, bs)
  {
    hide Wf, Count;
  }

}
