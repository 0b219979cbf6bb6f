/**
  What becomes of defaults when disjunctions meet. If the default of each operand survives the other
  operand, the defaults' own meet is the default of the result; if one survives, its meet with the other
  operand is.
 */
module DefaultMeets {

  import opened Wrappers
  import opened Values
  import opened Meet
  import opened MeetFacts
  import opened MeetWf
  import opened MeetLaws
  import opened Semantics
  import opened Validate
  import opened Defaults
  import opened Acceptance
  import opened Likeness
  import opened Unions

  // ----- Equal concrete values resolve alike -----

  lemma {:induction false} EqualIsConcrete(a: Value, b: Value)
    requires ConcreteEqual(a, b)
    ensures IsConcrete(a)
    decreases a
  {
    match a
    case List(p, _) => forall i | 0 <= i < |p| ensures IsConcrete(p[i]) { EqualIsConcrete(p[i], b.prefix[i]); }
    case Struct(fs, _) =>
      forall i | 0 <= i < |fs| ensures IsConcrete(fs[i].val) {
        EqualIsConcrete(fs[i].val, b.fields[IndexOf(b.fields, fs[i].name)].val);
      }
    case _ =>
  }

  lemma AllPresent(fs: seq<Field>)
    requires UniqueNames(fs) && forall i | 0 <= i < |fs| :: IsConcrete(fs[i].val)
    ensures forall n :: n in PresentNames(fs) <==> HasField(fs, n)
    ensures forall n | n in PresentNames(fs) :: PresentIndex(fs, n) == IndexOf(fs, n)
  {
  }

  lemma {:induction false} EqualResolves(a: Value, b: Value)
    requires Wf(a) && Wf(b) && ConcreteEqual(a, b)
    ensures IsConcrete(a) && IsConcrete(b) && Resolve(a) == Resolve(b)
    decreases a, 1
  {
    EqualIsConcrete(a, b);
    ConcreteEqualSymmetric(a, b);
    EqualIsConcrete(b, a);
    match a
    case List(_, _) => ListsResolve(a, b);
    case Struct(_, _) => StructsResolve(a, b);
    case _ =>
  }

  lemma {:induction false} ListsResolve(a: Value, b: Value)
    requires Wf(a) && Wf(b) && ConcreteEqual(a, b) && a.List? && IsConcrete(a) && IsConcrete(b)
    ensures Resolve(a) == Resolve(b)
    decreases a, 0
  {
    forall i | 0 <= i < |a.prefix| ensures Resolve(a).xs[i] == Resolve(b).xs[i] { EqualResolves(a.prefix[i], b.prefix[i]); }
    assert Resolve(a).xs == Resolve(b).xs;
  }

  lemma StructResolves(fs: seq<Field>, closed: bool)
    requires UniqueNames(fs) && forall i | 0 <= i < |fs| :: IsConcrete(fs[i].val)
    ensures IsConcrete(Struct(fs, closed)) && Resolve(Struct(fs, closed)).GStruct?
    ensures forall n :: n in Resolve(Struct(fs, closed)).m <==> HasField(fs, n)
    ensures forall n | HasField(fs, n) ::
              n in Resolve(Struct(fs, closed)).m && Resolve(Struct(fs, closed)).m[n] == Resolve(fs[IndexOf(fs, n)].val)
  {
    AllPresent(fs);
    hide IsConcrete;
    assert IsConcrete(Struct(fs, closed)) by { FieldsMakeConcrete(fs, closed); }
  }

  lemma FieldsMakeConcrete(fs: seq<Field>, closed: bool)
    requires forall i | 0 <= i < |fs| :: IsConcrete(fs[i].val)
    ensures IsConcrete(Struct(fs, closed))
  {
  }

  lemma EqualStructs(a: Value, b: Value)
    requires Wf(a) && Wf(b) && ConcreteEqual(a, b) && a.Struct?
    ensures b.Struct? && UniqueNames(a.fields) && UniqueNames(b.fields)
  {
  }

  lemma EqualAt(a: Value, b: Value, i: nat)
    requires ConcreteEqual(a, b) && a.Struct? && i < |a.fields|
    ensures b.Struct? && HasField(b.fields, a.fields[i].name)
    ensures ConcreteEqual(a.fields[i].val, b.fields[IndexOf(b.fields, a.fields[i].name)].val)
  {
  }

  /** A struct with an equal resolves field by field. */
  lemma EqualStructResolves(a: Value, b: Value)
    requires Wf(a) && ConcreteEqual(a, b) && a.Struct? && IsConcrete(a)
    ensures Resolve(a).GStruct?
    ensures forall n :: n in Resolve(a).m <==> HasField(a.fields, n)
    ensures forall n | HasField(a.fields, n) ::
              n in Resolve(a).m && IsConcrete(a.fields[IndexOf(a.fields, n)].val) &&
              Resolve(a).m[n] == Resolve(a.fields[IndexOf(a.fields, n)].val)
  {
    assert UniqueNames(a.fields);
    hide *;
    forall i | 0 <= i < |a.fields| ensures IsConcrete(a.fields[i].val) {
      EqualAt(a, b, i);
      EqualIsConcrete(a.fields[i].val, b.fields[IndexOf(b.fields, a.fields[i].name)].val);
    }
    assert a == Struct(a.fields, a.closed);
    StructResolves(a.fields, a.closed);
  }

  lemma {:induction false} NameResolves(a: Value, b: Value, n: string)
    requires Wf(a) && Wf(b) && ConcreteEqual(a, b) && a.Struct? && HasField(a.fields, n)
    ensures b.Struct? && HasField(b.fields, n)
    ensures var x, y := a.fields[IndexOf(a.fields, n)].val, b.fields[IndexOf(b.fields, n)].val;
      IsConcrete(x) && IsConcrete(y) && Resolve(x) == Resolve(y)
    decreases a, 0, 0
  {
    EqualAt(a, b, IndexOf(a.fields, n));
    FieldsWf(a, IndexOf(a.fields, n));
    FieldsWf(b, IndexOf(b.fields, n));
    hide ConcreteEqual, IsConcrete, Resolve, Wf;
    EqualResolves(a.fields[IndexOf(a.fields, n)].val, b.fields[IndexOf(b.fields, n)].val);
  }

  lemma {:induction false} StructsResolve(a: Value, b: Value)
    requires Wf(a) && Wf(b) && ConcreteEqual(a, b) && a.Struct? && IsConcrete(a) && IsConcrete(b)
    ensures Resolve(a) == Resolve(b)
    decreases a, 0
  {
    hide *;
    EqualStructs(a, b);
    ConcreteEqualSymmetric(a, b);
    EqualStructResolves(a, b);
    EqualStructResolves(b, a);
    var l, r := Resolve(a).m, Resolve(b).m;
    forall n ensures n in l <==> n in r {
      if HasField(a.fields, n) { EqualAt(a, b, IndexOf(a.fields, n)); }
      if HasField(b.fields, n) { EqualAt(b, a, IndexOf(b.fields, n)); }
    }
    forall n | n in l ensures l[n] == r[n] { NameResolves(a, b, n); }
    assert l == r;
  }

  lemma FieldsWf(v: Value, i: nat)
    requires Wf(v) && v.Struct? && i < |v.fields|
    ensures Wf(v.fields[i].val)
  {
  }

  // ----- A value among the surviving branches -----

  lemma {:induction false} CrossHas(ds: seq<Branch>, os: seq<Branch>, i: nat, j: nat)
    requires i < |ds| && j < |os|
    ensures exists k :: 0 <= k < |MeetCross(ds, os)| && MeetCross(ds, os)[k].v == Unify(ds[i].v, os[j].v)
  {
    hide Unify;
    var n := |ds| - 1;
    var before, row := MeetCross(ds[..n], os), MeetRow(ds[n], os);
    if i < n {
      CrossHas(ds[..n], os, i, j);
      var k :| 0 <= k < |before| && before[k].v == Unify(ds[..n][i].v, os[j].v);
      assert MeetCross(ds, os)[k] == before[k];
    } else {
      RowAt(ds[n], os, j);
      assert MeetCross(ds, os)[|before| + j] == row[j];
    }
  }

  /** The meet of two branches survives if no bottom is buried in it. */
  lemma CleanMeetSurvives(d: Value, o: Value, i: nat, j: nat)
    requires d.Disj? && i < |d.branches| && j < |BranchesOf(o)|
    requires !HasBottomLeaf(Unify(d.branches[i].v, BranchesOf(o)[j].v))
    ensures exists k :: 0 <= k < |MeetBranches(d, o)| && MeetBranches(d, o)[k].v == Unify(d.branches[i].v, BranchesOf(o)[j].v)
  {
    hide Unify, HasBottomLeaf, MeetCross;
    BranchesSize(o);
    var cross := MeetCross(d.branches, BranchesOf(o));
    CrossHas(d.branches, BranchesOf(o), i, j);
    var k :| 0 <= k < |cross| && cross[k].v == Unify(d.branches[i].v, BranchesOf(o)[j].v);
    CleanKeeps(cross, k);
    var m :| 0 <= m < |CleanOf(cross)| && CleanOf(cross)[m] == cross[k];
    assert MeetBranches(d, o) == CleanOf(cross);
  }

  // ----- The result, given the reconciled default -----

  /** What a default must be to stand: no bottom buried in it, and equal to itself, so without an open list. */
  predicate Stands(c: Value)
  {
    IsConcrete(c) && !HasBottomLeaf(c) && ConcreteEqual(c, c)
  }

  /** If a survivor is the same as the reconciled default, the result resolves as the default does. */
  lemma DefaultIsTaken(d: Value, o: Value, c: Value)
    requires Wf(d) && Wf(o) && d.Disj? && MeetDefault(d, o) == Some(c) && Has(MeetBranches(d, o), c)
    ensures Wf(c) && IsConcrete(c) && IsConcrete(UnifyDisjunction(d, o)) && Resolve(UnifyDisjunction(d, o)) == Resolve(c)
  {
    hide *;
    var met := MeetBranches(d, o);
    MeetDefaultWf(d, o);
    MetWf(d, o);
    assert met != [] by { HasIff(met, c); }
    UnionConcrete(d, o);
    DedupeFirst(met);
    FoldedHas(met, c);
    HasIff(met, c);
    var k :| 0 <= k < |Dedupe(met)| && SameConcrete(Dedupe(met)[k].v, c);
    SurvivorsWf(d, o);
    assert Dedupe(met)[k] in Dedupe(met);
    SameIsEqual(Dedupe(met)[k].v, c);
    EqualResolves(Dedupe(met)[k].v, c);
    if |Dedupe(met)| == 1 {
      OneRemains(d, o);
    } else {
      ManyRemain(d, o);
      MeetDefaultIsUnambiguous(d, o);
      MarkedResolves(Dedupe(met), MeetDefault(d, o), k);
    }
  }

  lemma SameIsEqual(a: Value, b: Value)
    requires SameConcrete(a, b)
    ensures ConcreteEqual(a, b)
  {
  }

  lemma OneRemains(d: Value, o: Value)
    requires d.Disj? && MeetBranches(d, o) != [] && |Dedupe(MeetBranches(d, o))| == 1
    ensures UnifyDisjunction(d, o) == Dedupe(MeetBranches(d, o))[0].v
  {
    hide Dedupe, MeetBranches, MeetDefault, Remark;
  }

  lemma MarkedResolves(bs: seq<Branch>, def: Option<Value>, k: nat)
    requires k < |bs| && IsConcrete(bs[k].v) && DefaultIndex(Remark(bs, def)) == Some(k)
    ensures IsConcrete(Disj(Remark(bs, def))) && Resolve(Disj(Remark(bs, def))) == Resolve(bs[k].v)
  {
  }

  // ----- Both defaults survive -----

  /** The branch is its disjunction's default and some meet with the other operand is no bottom. */
  predicate Lives(d: Value, i: nat, o: Value)
    requires d.Disj?
  {
    DefaultIndex(d.branches) == Some(i) && !Unify(d.branches[i].v, o).Bottom?
  }

  lemma BothReconcile(d: Value, o: Value, i: nat, j: nat)
    requires d.Disj? && o.Disj? && Lives(d, i, o) && Lives(o, j, d)
    ensures i < |d.branches| && j < |o.branches|
    ensures var c := Unify(d.branches[i].v, o.branches[j].v); MeetDefault(d, o) == if IsConcrete(c) then Some(c) else None
  {
    hide Unify, IsConcrete;
  }

  /**
    MAIN: where the default of each operand survives the other operand and the two meet to a concrete value
    that stands, the meet of the disjunctions is concrete and resolves to what that value resolves to.
   */
  lemma BothDefaultsMeet(d: Value, o: Value, i: nat, j: nat)
    requires Wf(d) && Wf(o) && d.Disj? && o.Disj? && Lives(d, i, o) && Lives(o, j, d)
    requires Stands(Unify(d.branches[i].v, o.branches[j].v))
    ensures var c := Unify(d.branches[i].v, o.branches[j].v);
      IsConcrete(c) && IsConcrete(Unify(d, o)) && Resolve(Unify(d, o)) == Resolve(c)
  {
    hide *;
    BothReconcile(d, o, i, j);
    var c := Unify(d.branches[i].v, o.branches[j].v);
    StandsIs(c);
    OwnBranch(o, j);
    CleanMeetSurvives(d, o, i, j);
    StandsAmong(MeetBranches(d, o), c);
    DefaultIsTaken(d, o, c);
    DisjMeet(d, o);
  }

  lemma StandsIs(c: Value)
    requires Stands(c)
    ensures IsConcrete(c) && !HasBottomLeaf(c) && SameConcrete(c, c)
  {
  }

  lemma OwnBranch(o: Value, j: nat)
    requires o.Disj?
    ensures BranchesOf(o) == o.branches
  {
  }

  lemma StandsAmong(bs: seq<Branch>, c: Value)
    requires SameConcrete(c, c) && exists k :: 0 <= k < |bs| && bs[k].v == c
    ensures Has(bs, c)
  {
    hide SameConcrete;
  }

  lemma DisjMeet(d: Value, o: Value)
    requires d.Disj? && !o.Bottom? && !o.Top? && !o.Thunk?
    ensures Unify(d, o) == UnifyDisjunction(d, o)
  {
    hide UnifyDisjunction;
  }

  // ----- One default survives -----

  /** The operand has no default, or its default meets the other operand to bottom. */
  predicate NoneLives(o: Value, d: Value)
  {
    o.Disj? && DefaultIndex(o.branches).Some? ==> Unify(o.branches[DefaultIndex(o.branches).value].v, d).Bottom?
  }

  lemma FirstReconciles(d: Value, o: Value, i: nat)
    requires d.Disj? && Lives(d, i, o) && NoneLives(o, d)
    ensures i < |d.branches|
    ensures var c := Unify(d.branches[i].v, o); MeetDefault(d, o) == if IsConcrete(c) then Some(c) else None
  {
    hide Unify, IsConcrete;
  }

  lemma SecondReconciles(d: Value, o: Value, j: nat)
    requires d.Disj? && o.Disj? && NoneLives(d, o) && Lives(o, j, d)
    ensures j < |o.branches|
    ensures var c := Unify(o.branches[j].v, d); MeetDefault(d, o) == if IsConcrete(c) then Some(c) else None
  {
    hide Unify, IsConcrete;
  }

  /** A value that is neither a disjunction nor decided before its meet is looked at. */
  predicate Single(v: Value)
  {
    !v.Disj? && !v.Bottom? && !v.Top? && !v.Thunk?
  }

  /** If a disjunction meets the value to bottom, so does each of its branches. */
  lemma EachBranchFails(d: Value, v: Value, i: nat)
    requires Wf(d) && Wf(v) && d.Disj? && Single(v) && Unify(v, d).Bottom? && i < |d.branches|
    ensures Unify(d.branches[i].v, v).Bottom?
  {
    hide *;
    SingleMeet(d, v);
    var met, cross := MeetBranches(d, v), MeetCross(d.branches, BranchesOf(v));
    if met != [] { SurvivorIsNoBottom(d, v); }
    CrossHas(d.branches, BranchesOf(v), i, 0);
    var k :| 0 <= k < |cross| && cross[k].v == Unify(d.branches[i].v, BranchesOf(v)[0].v);
    NothingMet(d, v, k);
  }

  lemma SingleMeet(d: Value, v: Value)
    requires d.Disj? && Single(v)
    ensures Unify(v, d) == UnifyDisjunction(d, v) == Unify(d, v)
    ensures BranchesOf(v) == [Branch(v, Maybe)] && |BranchesOf(v)| == 1 && BranchesOf(v)[0].v == v && !v.Disj?
  {
    hide UnifyDisjunction;
  }

  lemma SurvivorIsNoBottom(d: Value, v: Value)
    requires Wf(d) && Wf(v) && d.Disj? && MeetBranches(d, v) != []
    ensures !UnifyDisjunction(d, v).Bottom?
  {
    SurvivorsWf(d, v);
    hide Wf, Unify, MeetBranches, MeetDefault;
    assert Dedupe(MeetBranches(d, v))[0] in Dedupe(MeetBranches(d, v));
  }

  lemma NothingMet(d: Value, o: Value, k: nat)
    requires d.Disj? && MeetBranches(d, o) == [] && k < |MeetCross(d.branches, BranchesOf(o))|
    ensures MeetCross(d.branches, BranchesOf(o))[k].v.Bottom?
  {
    var cross := MeetCross(d.branches, BranchesOf(o));
    hide MeetCross;
    PrunedOut(cross, k);
  }

  lemma {:induction false} PrunedOut(bs: seq<Branch>, k: nat)
    requires CleanOf(bs) == [] && DirtyOf(bs) == [] && k < |bs|
    ensures bs[k].v.Bottom?
  {
    hide HasBottomLeaf;
    var n := |bs| - 1;
    if k < n { PrunedOut(bs[..n], k); }
  }

  /** Without a surviving default a concrete meet with a single value is the meet of one branch. */
  lemma OneBranchMeets(o: Value, a: Value) returns (j: nat)
    requires Wf(o) && Wf(a) && o.Disj? && Single(a) && IsConcrete(UnifyDisjunction(o, a)) && MeetDefault(o, a).None?
    ensures j < |o.branches| && UnifyDisjunction(o, a) == Unify(o.branches[j].v, a)
  {
    hide *;
    SingleMeet(o, a);
    UnionConcrete(o, a);
    var met := MeetBranches(o, a);
    DedupeFirst(met);
    OneRemains(o, a);
    MetOrigin(o, a, 0);
    j :| 0 <= j < |o.branches| && met[0].v == Unify(o.branches[j].v, a);
  }

  lemma BranchWf(d: Value, i: nat)
    requires Wf(d) && d.Disj? && i < |d.branches|
    ensures Wf(d.branches[i].v) && !d.branches[i].v.Disj? && !d.branches[i].v.Bottom? && !d.branches[i].v.Thunk?
  {
  }

  /** A default of the other operand that fails against the disjunction fails against each branch, in either order. */
  lemma DeadDefaultFails(d: Value, o: Value, i: nat)
    requires Wf(d) && Wf(o) && d.Disj? && o.Disj? && NoneLives(o, d) && i < |d.branches| && DisjFree(d.branches[i].v)
    ensures MeetDefault(o, d.branches[i].v).None?
  {
    hide *;
    var a := d.branches[i].v;
    BranchWf(d, i);
    NotADisjunction(a);
    DefaultMeet(o, a);
    if DefaultIndex(o.branches).Some? {
      var j := DefaultIndex(o.branches).value;
      var b := o.branches[j].v;
      BranchWf(o, j);
      NoneLivesAt(o, d);
      MeetAtIs(o, a, j);
      BottomIsOpen();
      if b.Top? {
        TopMeets(d);
      } else {
        SingleIs(b);
        EachBranchFails(d, b, i);
        MeetOrder.DisjFreeAgrees(a, b);
        MeetOrder.AgreeingCommutes(a, b);
        AlikeBottom(Unify(a, b), Unify(b, a));
      }
    }
  }

  lemma NotADisjunction(a: Value)
    ensures DisjFree(a) ==> !a.Disj?
  {
  }

  lemma NoneLivesAt(o: Value, d: Value)
    requires NoneLives(o, d) && o.Disj? && DefaultIndex(o.branches).Some?
    ensures Unify(o.branches[DefaultIndex(o.branches).value].v, d).Bottom?
  {
    hide Unify;
  }

  lemma TopMeets(d: Value)
    requires d.Disj?
    ensures Unify(Top, d) == d
  {
  }

  lemma SingleIs(v: Value)
    requires !v.Disj? && !v.Bottom? && !v.Top? && !v.Thunk?
    ensures Single(v)
  {
  }

  lemma AlikeBottom(a: Value, b: Value)
    requires Alike(a, b)
    ensures a.Bottom? == b.Bottom?
  {
  }

  /** Alike to a value that stands: clean, and the same concrete value. */
  lemma AlikeStands(x: Value, c: Value)
    requires Wf(x) && Wf(c) && Alike(x, c) && Stands(c)
    ensures !HasBottomLeaf(x) && SameConcrete(x, c)
  {
    hide *;
    StandsIs(c);
    if HasBottomLeaf(x) { HasBottomLeafCarries(x, c); }
    SameConcreteCarries(x, c, c);
  }

  /**
    MAIN: where only the first operand's default survives, its meet with the other operand, if that is concrete
    and stands, decides what the meet resolves to. Against a disjunction the default must hold none itself.
   */
  lemma FirstDefaultMeets(d: Value, o: Value, i: nat)
    requires Wf(d) && Wf(o) && d.Disj? && Lives(d, i, o) && NoneLives(o, d) && i < |d.branches| && Stands(Unify(d.branches[i].v, o))
    requires o.Disj? ==> DisjFree(d.branches[i].v) && !d.branches[i].v.Top?
    ensures var c := Unify(d.branches[i].v, o);
      IsConcrete(c) && IsConcrete(Unify(d, o)) && Resolve(Unify(d, o)) == Resolve(c)
  {
    hide *;
    var a := d.branches[i].v;
    var c := Unify(a, o);
    StandsIs(c);
    FirstReconciles(d, o, i);
    BranchWf(d, i);
    MeetIsWf(a, o);
    if o.Disj? {
      SingleIs(a);
      SingleMeet(o, a);
      DeadDefaultFails(d, o, i);
      var j := OneBranchMeets(o, a);
      OwnBranch(o, j);
      BranchWf(o, j);
      var x := Unify(a, o.branches[j].v);
      MeetIsWf(a, o.branches[j].v);
      MeetOrder.DisjFreeAgrees(a, o.branches[j].v);
      MeetOrder.AgreeingCommutes(a, o.branches[j].v);
      AlikeStands(x, c);
      CleanMeetSurvives(d, o, i, j);
      SurvivorAmong(MeetBranches(d, o), x, c);
      DefaultIsTaken(d, o, c);
      DisjunctionIs(o);
      DisjMeet(d, o);
    } else if o.Top? {
      TopDecides(d, i);
    } else {
      PlainOperand(o, d, i);
      CleanMeetSurvives(d, o, i, 0);
      StandsAmong(MeetBranches(d, o), c);
      DefaultIsTaken(d, o, c);
      DisjMeet(d, o);
    }
  }

  lemma DisjunctionIs(o: Value)
    requires o.Disj?
    ensures !o.Bottom? && !o.Top? && !o.Thunk?
  {
  }

  lemma TopDecides(d: Value, i: nat)
    requires d.Disj? && Lives(d, i, Top) && i < |d.branches| && IsConcrete(Unify(d.branches[i].v, Top)) && !d.branches[i].v.Bottom?
    ensures IsConcrete(Unify(d, Top)) && Resolve(Unify(d, Top)) == Resolve(Unify(d.branches[i].v, Top))
  {
  }

  /** An operand some branch meets without bottom is no bottom itself. */
  lemma PlainOperand(o: Value, d: Value, i: nat)
    requires d.Disj? && Lives(d, i, o) && !o.Disj? && Wf(o) && !o.Top?
    ensures !o.Bottom? && !o.Thunk? && |BranchesOf(o)| == 1 && BranchesOf(o)[0].v == o
  {
  }

  lemma SurvivorAmong(bs: seq<Branch>, x: Value, c: Value)
    requires SameConcrete(x, c) && exists k :: 0 <= k < |bs| && bs[k].v == x
    ensures Has(bs, c)
  {
    hide SameConcrete;
  }

  /** MAIN: the same where only the second operand's default survives. */
  lemma SecondDefaultMeets(d: Value, o: Value, j: nat)
    requires Wf(d) && Wf(o) && d.Disj? && o.Disj? && NoneLives(d, o) && Lives(o, j, d) && j < |o.branches|
    requires Stands(Unify(o.branches[j].v, d)) && DisjFree(o.branches[j].v) && !o.branches[j].v.Top?
    ensures var c := Unify(o.branches[j].v, d);
      IsConcrete(c) && IsConcrete(Unify(d, o)) && Resolve(Unify(d, o)) == Resolve(c)
  {
    hide *;
    var b := o.branches[j].v;
    var c := Unify(b, d);
    StandsIs(c);
    SecondReconciles(d, o, j);
    BranchWf(o, j);
    SingleIs(b);
    SingleMeet(d, b);
    DeadDefaultFails(o, d, j);
    var i := OneBranchMeets(d, b);
    OwnBranch(o, j);
    CleanMeetSurvives(d, o, i, j);
    StandsAmong(MeetBranches(d, o), c);
    DefaultIsTaken(d, o, c);
    DisjunctionIs(o);
    DisjMeet(d, o);
  }

  // ----- No default is left -----

  /** The surviving defaults, one or both, meet to nothing concrete. */
  predicate Unreconciled(d: Value, o: Value, i: nat, j: nat)
    requires d.Disj?
  {
    || (NoneLives(d, o) && NoneLives(o, d))
    || (i < |d.branches| && Lives(d, i, o) && NoneLives(o, d) && !IsConcrete(Unify(d.branches[i].v, o)))
    || (o.Disj? && j < |o.branches| && NoneLives(d, o) && Lives(o, j, d) && !IsConcrete(Unify(o.branches[j].v, d)))
    || (o.Disj? && i < |d.branches| && j < |o.branches| && Lives(d, i, o) && Lives(o, j, d) &&
        !IsConcrete(Unify(d.branches[i].v, o.branches[j].v)))
  }

  /** MAIN: where no default survives, or the survivors meet to nothing concrete, only agreeing branches make a concrete meet. */
  lemma NoDefaultLeft(d: Value, o: Value, i: nat, j: nat)
    requires Wf(d) && Wf(o) && d.Disj? && !o.Bottom? && !o.Top? && !o.Thunk? && Unreconciled(d, o, i, j)
    ensures IsConcrete(Unify(d, o)) <==>
            MeetBranches(d, o) != [] && AllSame(MeetBranches(d, o)) && IsConcrete(MeetBranches(d, o)[0].v)
  {
    NothingReconciles(d, o, i, j);
    hide *;
    DisjMeet(d, o);
    UnionConcrete(d, o);
  }

  lemma NothingReconciles(d: Value, o: Value, i: nat, j: nat)
    requires d.Disj? && Unreconciled(d, o, i, j)
    ensures MeetDefault(d, o).None?
  {
    hide Unify, IsConcrete, NoneLives, Lives, MeetDefault;
    if NoneLives(d, o) && NoneLives(o, d) {
      NeitherReconciles(d, o);
    } else if i < |d.branches| && Lives(d, i, o) && NoneLives(o, d) && !IsConcrete(Unify(d.branches[i].v, o)) {
      FirstReconciles(d, o, i);
    } else if o.Disj? && j < |o.branches| && NoneLives(d, o) && Lives(o, j, d) && !IsConcrete(Unify(o.branches[j].v, d)) {
      SecondReconciles(d, o, j);
    } else {
      BothReconcile(d, o, i, j);
    }
  }

  lemma NeitherReconciles(d: Value, o: Value)
    requires d.Disj? && NoneLives(d, o) && NoneLives(o, d)
    ensures MeetDefault(d, o).None?
  {
    hide Unify, IsConcrete;
  }

  lemma {:induction false} SameIsAlike(a: Value, b: Value)
    requires DisjFree(b) && Same(a, b)
    ensures Alike(a, b)
  {
    match a
    case Struct(fs, _) =>
      forall i | 0 <= i < |fs| ensures Alike(fs[i].val, Find(b.fields, fs[i].name).value.val) {
        SameIsAlike(fs[i].val, Find(b.fields, fs[i].name).value.val);
      }
    case List(p, t) =>
      forall i | 0 <= i < |p| ensures Alike(p[i], b.prefix[i]) { SameIsAlike(p[i], b.prefix[i]); }
      if t.Open? { SameIsAlike(t.elem, b.tail.elem); }
    case _ =>
  }

  lemma ConcreteIsSingle(a: Value)
    requires IsConcrete(a) && !a.Disj?
    ensures Single(a)
  {
  }

  /** A value that stands still does after meeting itself. */
  lemma MeetsItself(a: Value)
    requires Wf(a) && DisjFree(a) && Stands(a)
    ensures Wf(Unify(a, a)) && Stands(Unify(a, a)) && Resolve(Unify(a, a)) == Resolve(a)
  {
    hide *;
    var x := Unify(a, a);
    MeetIsWf(a, a);
    MeetIsIdempotent(a);
    SameIsAlike(x, a);
    AlikeStands(x, a);
    SameIsEqual(x, a);
    ConcreteEqualSymmetric(x, a);
    ConcreteEqualTransitive(x, a, x);
    EqualResolves(x, a);
    StandsBy(x);
  }

  lemma StandsBy(c: Value)
    requires IsConcrete(c) && !HasBottomLeaf(c) && ConcreteEqual(c, c)
    ensures Stands(c)
  {
  }

  lemma MetWithItself(d: Value, a: Value, i: nat)
    requires Wf(d) && Wf(a) && d.Disj? && i < |d.branches| && d.branches[i].v == a && Single(a) && Stands(Unify(a, a))
    ensures !Unify(a, d).Bottom?
  {
    hide *;
    SingleMeet(d, a);
    StandsIs(Unify(a, a));
    CleanMeetSurvives(d, a, i, 0);
    SurvivorIsNoBottom(d, a);
  }

  lemma DefaultDecides(d: Value, i: nat)
    requires d.Disj? && DefaultIndex(d.branches) == Some(i) && IsConcrete(d.branches[i].v)
    ensures IsConcrete(d) && Resolve(d) == Resolve(d.branches[i].v)
  {
  }

  lemma LivesIs(d: Value, i: nat, o: Value)
    requires d.Disj? && DefaultIndex(d.branches) == Some(i) && i < |d.branches| && !Unify(d.branches[i].v, o).Bottom?
    ensures Lives(d, i, o)
  {
  }

  /** MAIN: a disjunction with a concrete default that stands, met with itself, keeps that default. */
  lemma SelfMeetKeepsDefault(d: Value, i: nat)
    requires Wf(d) && d.Disj? && DefaultIndex(d.branches) == Some(i) && i < |d.branches|
    requires Stands(d.branches[i].v) && DisjFree(d.branches[i].v)
    ensures IsConcrete(d) && IsConcrete(Unify(d, d)) && Resolve(Unify(d, d)) == Resolve(d)
  {
    hide *;
    var a := d.branches[i].v;
    StandsIs(a);
    BranchWf(d, i);
    ConcreteIsSingle(a);
    MeetsItself(a);
    MetWithItself(d, a, i);
    DefaultDecides(d, i);
    LivesIs(d, i, d);
    BothDefaultsMeet(d, d, i, i);
  }

  // ----- A default that does not stand -----

  /**
    MAIN: a clean default that is not equal to itself, because a list in it is open, is lost: the meet is
    concrete only if all surviving branches agree.
   */
  lemma OpenDefaultIsLost(d: Value, o: Value, i: nat, j: nat)
    requires Wf(d) && Wf(o) && d.Disj? && o.Disj? && Lives(d, i, o) && Lives(o, j, d) && i < |d.branches| && j < |o.branches|
    requires var c := Unify(d.branches[i].v, o.branches[j].v); IsConcrete(c) && !ConcreteEqual(c, c)
    ensures IsConcrete(Unify(d, o)) <==>
            MeetBranches(d, o) != [] && AllSame(MeetBranches(d, o)) && IsConcrete(MeetBranches(d, o)[0].v)
  {
    hide *;
    var c, met := Unify(d.branches[i].v, o.branches[j].v), MeetBranches(d, o);
    BothReconcile(d, o, i, j);
    MetWf(d, o);
    BranchWf(d, i);
    BranchWf(o, j);
    MeetIsWf(d.branches[i].v, o.branches[j].v);
    UnionConcrete(d, o);
    DisjunctionIs(o);
    DisjMeet(d, o);
    HasIff(met, c);
    if Has(met, c) {
      var k :| 0 <= k < |met| && SameConcrete(met[k].v, c);
      assert met[k] in met;
      SameIsEqual(met[k].v, c);
      ConcreteEqualSymmetric(met[k].v, c);
      ConcreteEqualTransitive(c, met[k].v, c);
      assert false;
    }
  }

}
