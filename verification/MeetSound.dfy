/**
  The meet is sound: whatever satisfies Unify(a, b) satisfies both a and b. This holds for every
  pair of well-formed values, disjunctions with their pruning, deduplication and defaults included.
 */
module MeetSound {

  import opened Wrappers
  import opened Values
  import opened Meet
  import opened MeetFacts
  import opened Semantics

  ghost predicate FieldHolds(g: Ground, f: Field)
    requires g.GStruct?
  {
    if f.name in g.m then Member(g.m[f.name], f.val) else f.optional
  }

  /** Membership in a struct, name by name. */
  lemma StructMember(g: Ground, fs: seq<Field>, closed: bool)
    requires UniqueNames(fs) && g.GStruct?
    ensures Member(g, Struct(fs, closed)) <==>
            && (forall n :: Find(fs, n).Some? ==> FieldHolds(g, Find(fs, n).value))
            && (closed ==> forall n <- g.m :: Find(fs, n).Some?)
  {
    forall i | 0 <= i < |fs| ensures Find(fs, fs[i].name) == Some(fs[i]) { FindAt(fs, i); }
  }

  // ----- Soundness -----

  /** MAIN: every member of the meet is a member of both operands. */
  lemma {:induction false} MeetIsSound(a: Value, b: Value, g: Ground)
    requires Wf(a) && Wf(b) && Member(g, Unify(a, b))
    ensures Member(g, a) && Member(g, b)
    decreases Size(a) + Size(b), 2
  {
    if a.Bottom? || b.Bottom? || a.Top? || b.Top? {
    } else if a.Disj? {
      DisjunctionSound(a, b, g);
    } else if b.Disj? {
      DisjunctionSound(b, a, g);
    } else if a.Struct? {
      StructSound(a, b, g);
    } else if a.List? {
      ListSound(a, b, g);
    } else if g.GScalar? {
      ScalarSound(a, b, g);
    }
  }

  lemma ScalarSound(a: Value, b: Value, g: Ground)
    requires g.GScalar? && (a.Con? || a.Atom? || a.Bounded?) && !b.Disj? && !b.Bottom? && !b.Top?
    requires Member(g, Unify(a, b))
    ensures Member(g, a) && Member(g, b)
  {
    hide IsConcrete, ConcreteEqual, UnifyDisjunction, StrLt, SatisfiesBound;
    if a.Atom? && b.Atom? { MeetAtomExact(g.s, a.atom, b.atom); }
    if a.Atom? && b.Bounded? { MeetAtomExact(g.s, a.atom, b.base); }
    if a.Bounded? && b.Atom? { MeetAtomExact(g.s, a.base, b.atom); }
    if a.Bounded? && b.Bounded? {
      MeetAtomExact(g.s, a.base, b.base);
      BothBounds(g.s, a.bounds, b.bounds);
    }
  }

  lemma BothBounds(c: Scalar, a: seq<Bound>, b: seq<Bound>)
    ensures SatisfiesBounds(c, a + b) ==> SatisfiesBounds(c, a) && SatisfiesBounds(c, b)
  {
    var all := a + b;
    assert forall i | 0 <= i < |a| :: all[i] == a[i];
    assert forall i | 0 <= i < |b| :: all[|a| + i] == b[i];
  }

  lemma {:induction false} DisjunctionSound(d: Value, o: Value, g: Ground)
    requires Wf(d) && Wf(o) && d.Disj? && Member(g, UnifyDisjunction(d, o))
    ensures Member(g, d) && Member(g, o)
    decreases Size(d) + Size(o), 1
  {
    hide Unify, MeetBranches, Dedupe, IsConcrete, ConcreteEqual, MeetDefault, Remark;
    var survivors := Dedupe(MeetBranches(d, o));
    var k :| 0 <= k < |survivors| && Member(g, survivors[k].v);
    SurvivorOrigin(d, o, k);
    var os := BranchesOf(o);
    var i, j :| 0 <= i < |d.branches| && 0 <= j < |os| && survivors[k].v == Unify(d.branches[i].v, os[j].v);
    BranchSmaller(d.branches, i);
    if o.Disj? { BranchSmaller(os, j); }
    MeetIsSound(d.branches[i].v, os[j].v, g);
  }

  lemma {:induction false} StructSound(v: Value, o: Value, g: Ground)
    requires Wf(v) && Wf(o) && v.Struct? && Member(g, UnifyStruct(v, o))
    ensures Member(g, v) && Member(g, o)
    decreases Size(v) + Size(o), 1
  {
    hide IsConcrete, ConcreteEqual, HasBottomLeaf, MeetBranches, Dedupe, MeetDefault, Remark, UnifyDisjunction, HasBottom, SatisfiesBounds, SatisfiesAtom;
    var out := UnifyStruct(v, o);
    StructMeetByName(v, o, "");
    StructMember(g, out.fields, out.closed);
    forall n
      ensures Find(v.fields, n).Some? ==> FieldHolds(g, Find(v.fields, n).value)
      ensures Find(o.fields, n).Some? ==> FieldHolds(g, Find(o.fields, n).value)
      ensures n in g.m && v.closed ==> Find(v.fields, n).Some?
      ensures n in g.m && o.closed ==> Find(o.fields, n).Some?
    {
      StructMeetByName(v, o, n);
      var a, b := Find(v.fields, n), Find(o.fields, n);
      if a.Some? && b.Some? && n in g.m {
        FindSmaller(v.fields, n);
        FindSmaller(o.fields, n);
        MeetIsSound(a.value.val, b.value.val, g.m[n]);
      }
    }
    StructMember(g, v.fields, v.closed);
    StructMember(g, o.fields, o.closed);
  }

  lemma {:induction false} ListSound(v: Value, o: Value, g: Ground)
    requires Wf(v) && Wf(o) && v.List? && Member(g, UnifyList(v, o))
    ensures Member(g, v) && Member(g, o)
    decreases Size(v) + Size(o), 1
  {
    var n := Longest(v, o);
    var out := UnifyList(v, o);
    forall i | 0 <= i < |g.xs|
      ensures HasElem(v, i) && Member(g.xs[i], ElemAt(v, i))
      ensures HasElem(o, i) && Member(g.xs[i], ElemAt(o, i))
    {
      ElemSmaller(v, i);
      ElemSmaller(o, i);
      if i < n {
        MeetElemAt(v, o, n, i);
        assert Member(g.xs[i], out.prefix[i]);
      } else {
        assert Member(g.xs[i], out.tail.elem);
      }
      MeetIsSound(ElemAt(v, i), ElemAt(o, i), g.xs[i]);
    }
    forall i | 0 <= i < |v.prefix| ensures Member(g.xs[i], v.prefix[i]) { assert ElemAt(v, i) == v.prefix[i]; }
    forall i | 0 <= i < |o.prefix| ensures Member(g.xs[i], o.prefix[i]) { assert ElemAt(o, i) == o.prefix[i]; }
  }

}
