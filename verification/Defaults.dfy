/**
  Defaults of disjunctions. A meet never makes an ambiguous default: the branches of the disjunction
  it builds are pairwise different, concrete equality is an equivalence, and only branches equal to
  the one reconciled default are marked.
 */
module Defaults {

  import opened Wrappers
  import opened Values
  import opened Meet
  import opened MeetFacts
  import opened MeetWf
  import opened Semantics

  // ----- Concrete equality is an equivalence on well-formed values -----

  ghost function NameSet(fs: seq<Field>): set<string>
  {
    set f | f in fs :: f.name
  }

  lemma {:induction false} NameCount(fs: seq<Field>)
    requires UniqueNames(fs)
    ensures |NameSet(fs)| == |fs|
  {
    if fs != [] {
      var n := |fs| - 1;
      NameCount(fs[..n]);
      assert NameSet(fs) == NameSet(fs[..n]) + {fs[n].name};
      assert fs[n].name !in NameSet(fs[..n]);
    }
  }

  lemma SubsetOfSameSize<T>(xs: set<T>, ys: set<T>)
    requires xs <= ys && |xs| == |ys|
    ensures xs == ys
  {
    assert ys == xs + (ys - xs);
    assert |ys| == |xs| + |ys - xs|;
  }

  /** Two structs with equally many fields, all of the first named in the second, have the same names. */
  lemma SameNames(fs: seq<Field>, hs: seq<Field>)
    requires UniqueNames(fs) && UniqueNames(hs) && |fs| == |hs|
    requires forall i | 0 <= i < |fs| :: HasField(hs, fs[i].name)
    ensures forall j | 0 <= j < |hs| :: HasField(fs, hs[j].name)
  {
    NameCount(fs);
    NameCount(hs);
    SubsetOfSameSize(NameSet(fs), NameSet(hs));
    forall j | 0 <= j < |hs| ensures HasField(fs, hs[j].name) {
      assert hs[j].name in NameSet(fs);
    }
  }

  lemma {:induction false} ConcreteEqualSymmetric(a: Value, b: Value)
    requires Wf(a) && Wf(b) && ConcreteEqual(a, b)
    ensures ConcreteEqual(b, a)
    decreases a
  {
    match a
    case List(p, _) =>
      forall i | 0 <= i < |p| ensures ConcreteEqual(b.prefix[i], p[i]) { ConcreteEqualSymmetric(p[i], b.prefix[i]); }
    case Struct(fs, _) =>
      SameNames(fs, b.fields);
      forall j | 0 <= j < |b.fields|
        ensures HasField(fs, b.fields[j].name)
        ensures ConcreteEqual(b.fields[j].val, fs[IndexOf(fs, b.fields[j].name)].val)
      {
        var i := IndexOf(fs, b.fields[j].name);
        assert IndexOf(b.fields, fs[i].name) == j;
        ConcreteEqualSymmetric(fs[i].val, b.fields[j].val);
      }
    case _ =>
  }

  lemma {:induction false} ConcreteEqualTransitive(a: Value, b: Value, c: Value)
    requires ConcreteEqual(a, b) && ConcreteEqual(b, c)
    ensures ConcreteEqual(a, c)
    decreases a
  {
    match a
    case List(p, _) =>
      forall i | 0 <= i < |p| ensures ConcreteEqual(p[i], c.prefix[i]) {
        ConcreteEqualTransitive(p[i], b.prefix[i], c.prefix[i]);
      }
    case Struct(fs, _) =>
      forall i | 0 <= i < |fs|
        ensures HasField(c.fields, fs[i].name)
        ensures ConcreteEqual(fs[i].val, c.fields[IndexOf(c.fields, fs[i].name)].val)
      {
        var j := IndexOf(b.fields, fs[i].name);
        assert HasField(c.fields, b.fields[j].name);
        ConcreteEqualTransitive(fs[i].val, b.fields[j].val, c.fields[IndexOf(c.fields, fs[i].name)].val);
      }
    case _ =>
  }

  // ----- Deduplication -----

  /** No two surviving branches are equal concrete values. */
  ghost predicate Distinct(bs: seq<Branch>)
  {
    forall i, j :: 0 <= i < j < |bs| ==> !SameConcrete(bs[i].v, bs[j].v)
  }

  lemma AbsorbDistinct(out: seq<Branch>, b: Branch)
    requires Distinct(out)
    ensures Distinct(Absorb(out, b))
  {
    hide SameConcrete;
    AbsorbKeeps(out, b);
  }

  lemma {:induction false} DedupeDistinct(bs: seq<Branch>)
    ensures Distinct(Dedupe(bs))
  {
    hide Absorb, SameConcrete;
    if bs != [] {
      DedupeDistinct(bs[..|bs| - 1]);
      AbsorbDistinct(Dedupe(bs[..|bs| - 1]), bs[|bs| - 1]);
    }
  }

  lemma AbsorbKeeps(out: seq<Branch>, b: Branch)
    ensures |Absorb(out, b)| >= |out| && forall k | 0 <= k < |out| :: Absorb(out, b)[k].v == out[k].v
    ensures exists k :: 0 <= k < |Absorb(out, b)| && (Absorb(out, b)[k].v == b.v || SameConcrete(Absorb(out, b)[k].v, b.v))
  {
    hide SameConcrete;
    match FirstSame(out, b.v)
    case Some(k) => assert SameConcrete(Absorb(out, b)[k].v, b.v);
    case None => assert Absorb(out, b)[|out|] == b;
  }

  /** Deduplication drops no value: every branch is still there, or an equal concrete one is. */
  lemma {:induction false} DedupeKeeps(bs: seq<Branch>, i: nat)
    requires i < |bs|
    ensures exists k :: 0 <= k < |Dedupe(bs)| && (Dedupe(bs)[k].v == bs[i].v || SameConcrete(Dedupe(bs)[k].v, bs[i].v))
  {
    hide Absorb, SameConcrete;
    var n := |bs| - 1;
    var before := Dedupe(bs[..n]);
    AbsorbKeeps(before, bs[n]);
    assert Dedupe(bs) == Absorb(before, bs[n]);
    if i == n {
      var k :| 0 <= k < |Absorb(before, bs[n])| && (Absorb(before, bs[n])[k].v == bs[n].v || SameConcrete(Absorb(before, bs[n])[k].v, bs[n].v));
      assert Dedupe(bs)[k].v == Absorb(before, bs[n])[k].v;
    } else {
      DedupeKeeps(bs[..n], i);
      assert bs[..n][i] == bs[i];
      var k :| 0 <= k < |before| && (before[k].v == bs[i].v || SameConcrete(before[k].v, bs[i].v));
      assert Dedupe(bs)[k].v == before[k].v;
    }
  }

  // ----- Marks -----

  lemma {:induction false} MarkedIncreases(bs: seq<Branch>)
    ensures forall x, y | 0 <= x < y < |Marked(bs)| :: Marked(bs)[x] < Marked(bs)[y]
    ensures forall k | 0 <= k < |bs| && bs[k].mode.Is? :: k in Marked(bs)
  {
    if bs != [] {
      var n := |bs| - 1;
      MarkedIncreases(bs[..n]);
      var before := Marked(bs[..n]);
      assert forall x | 0 <= x < |before| :: before[x] in before && before[x] < n;
      assert forall k | 0 <= k < n :: bs[..n][k] == bs[k];
    }
  }

  lemma TwoMarks(bs: seq<Branch>)
    requires |Marked(bs)| >= 2
    ensures exists i, j :: 0 <= i < j < |bs| && bs[i].mode.Is? && bs[j].mode.Is?
  {
    MarkedIncreases(bs);
    var ks := Marked(bs);
    assert ks[0] in ks && ks[1] in ks && ks[0] < ks[1];
  }

  /** When no two branches are marked, the default is the marked branch. */
  lemma OneMark(bs: seq<Branch>)
    requires forall i, j | 0 <= i < j < |bs| :: !(bs[i].mode.Is? && bs[j].mode.Is?)
    ensures |Marked(bs)| <= 1
    ensures forall k | 0 <= k < |bs| :: DefaultIndex(bs) == Some(k) <==> bs[k].mode.Is?
  {
    MarkedIncreases(bs);
    if |Marked(bs)| >= 2 { TwoMarks(bs); }
    forall k | 0 <= k < |bs| && bs[k].mode.Is? ensures DefaultIndex(bs) == Some(k) {
      assert k in Marked(bs);
    }
  }

  lemma MeetDefaultWf(d: Value, o: Value)
    requires Wf(d) && Wf(o) && d.Disj? && MeetDefault(d, o).Some?
    ensures Wf(MeetDefault(d, o).value) && IsConcrete(MeetDefault(d, o).value)
  {
    var dd, od := OperandDefault(d), OperandDefault(o);
    if dd.Some? { MeetIsWf(dd.value, o); }
    if od.Some? { MeetIsWf(od.value, d); }
    if dd.Some? && od.Some? { MeetIsWf(dd.value, od.value); }
  }

  /**
    MAIN: the disjunction a meet builds has at most one default, and it has one exactly when some
    branch equals the default reconciled from the operands; that branch is it.
   */
  lemma MeetDefaultIsUnambiguous(d: Value, o: Value)
    requires Wf(d) && Wf(o) && d.Disj? && UnifyDisjunction(d, o).Disj?
    ensures var bs := UnifyDisjunction(d, o).branches;
            && |Marked(bs)| <= 1
            && (forall k | 0 <= k < |bs| ::
                  DefaultIndex(bs) == Some(k) <==>
                  MeetDefault(d, o).Some? && SameConcrete(bs[k].v, MeetDefault(d, o).value))
  {
    assert UnifyDisjunction(d, o).branches == Remark(Dedupe(MeetBranches(d, o)), MeetDefault(d, o)) by {
      if |Dedupe(MeetBranches(d, o))| == 1 { SingleSurvivor(d, o); }
    }
    var survivors := Dedupe(MeetBranches(d, o));
    var def := MeetDefault(d, o);
    SurvivorsWf(d, o);
    DedupeDistinct(MeetBranches(d, o));
    if def.Some? { MeetDefaultWf(d, o); }
    RemarkUnambiguous(survivors, def);
  }

  lemma RemarkUnambiguous(bs: seq<Branch>, def: Option<Value>)
    requires Distinct(bs) && forall i | 0 <= i < |bs| :: Wf(bs[i].v)
    requires def.Some? ==> Wf(def.value) && IsConcrete(def.value)
    ensures |Marked(Remark(bs, def))| <= 1
    ensures forall k | 0 <= k < |bs| ::
              DefaultIndex(Remark(bs, def)) == Some(k) <==> def.Some? && SameConcrete(bs[k].v, def.value)
  {
    var rs := Remark(bs, def);
    forall i, j | 0 <= i < j < |rs| ensures !(rs[i].mode.Is? && rs[j].mode.Is?) {
      if rs[i].mode.Is? && rs[j].mode.Is? {
        ConcreteEqualSymmetric(bs[j].v, def.value);
        ConcreteEqualTransitive(bs[i].v, def.value, bs[j].v);
      }
    }
    OneMark(rs);
  }

  /** A single survivor is returned bare, and it is not a disjunction. */
  lemma SingleSurvivor(d: Value, o: Value)
    requires Wf(d) && Wf(o) && d.Disj? && |Dedupe(MeetBranches(d, o))| == 1
    ensures !UnifyDisjunction(d, o).Disj?
  {
    SurvivorOrigin(d, o, 0);
    var os := BranchesOf(o);
    var v := Dedupe(MeetBranches(d, o))[0].v;
    var i, j :| 0 <= i < |d.branches| && 0 <= j < |os| && v == Unify(d.branches[i].v, os[j].v);
    MeetIsWf(d.branches[i].v, os[j].v);
  }

}
