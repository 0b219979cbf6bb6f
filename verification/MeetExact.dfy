/**
  On values without disjunctions the meet denotes the intersection of its operands, less the
  documents that lean on an optional field the other, closed, struct does not declare: the code turns
  such a field into a required bottom. Both directions, for every pair of values.
 */
module MeetExact {

  import opened Values
  import opened Meet
  import opened MeetFacts
  import opened MeetSound
  import opened MeetWf
  import opened Semantics

  // ----- The exception -----

  /** Every field of fs is declared by the other struct, or that struct is open. */
  predicate AllDeclared(fs: seq<Field>, other: seq<Field>, otherClosed: bool)
  {
    otherClosed ==> forall i | 0 <= i < |fs| :: HasField(other, fs[i].name)
  }

  /** Wherever the document g goes, no struct on one side has a field the closed struct opposite lacks. */
  ghost predicate NoStray(g: Ground, a: Value, b: Value)
    decreases g
  {
    match g
    case GScalar(_) => true
    case GStruct(m) =>
      a.Struct? && b.Struct? ==>
        && AllDeclared(a.fields, b.fields, b.closed)
        && AllDeclared(b.fields, a.fields, a.closed)
        && forall n <- m :: Find(a.fields, n).Some? && Find(b.fields, n).Some? ==>
             NoStray(m[n], Find(a.fields, n).value.val, Find(b.fields, n).value.val)
    case GList(xs) =>
      a.List? && b.List? ==>
        forall i :: 0 <= i < |xs| && HasElem(a, i) && HasElem(b, i) ==>
          NoStray(xs[i], ElemAt(a, i), ElemAt(b, i))
  }

  /** The same condition read off the two values, without a document: every optional field is declared opposite. */
  predicate OptionalsDeclared(fs: seq<Field>, other: seq<Field>, otherClosed: bool)
  {
    otherClosed ==> forall i | 0 <= i < |fs| :: fs[i].optional ==> HasField(other, fs[i].name)
  }

  predicate Harmonious(a: Value, b: Value)
    decreases a
  {
    match a
    case Struct(fs, closed) =>
      b.Struct? ==>
        && OptionalsDeclared(fs, b.fields, b.closed)
        && OptionalsDeclared(b.fields, fs, closed)
        && forall i | 0 <= i < |fs| :: HasField(b.fields, fs[i].name) ==>
             Harmonious(fs[i].val, b.fields[IndexOf(b.fields, fs[i].name)].val)
    case List(p, t) =>
      b.List? ==>
        && (forall i | 0 <= i < |p| :: HasElem(b, i) ==> Harmonious(p[i], ElemAt(b, i)))
        && (t.Open? ==> forall j | |p| <= j < |b.prefix| :: Harmonious(t.elem, b.prefix[j]))
        && (t.Open? && b.tail.Open? ==> Harmonious(t.elem, b.tail.elem))
    case _ => true
  }

  // ----- Both directions -----

  /** MAIN: without disjunctions, the meet admits exactly what both operands admit and no stray field spoils. */
  lemma {:induction false} MeetIsExact(a: Value, b: Value, g: Ground)
    requires Wf(a) && Wf(b) && DisjFree(a) && DisjFree(b)
    ensures Member(g, Unify(a, b)) <==> Member(g, a) && Member(g, b) && NoStray(g, a, b)
    decreases Size(a) + Size(b), 2
  {
    if Member(g, Unify(a, b)) { MeetIsSound(a, b, g); }
    if a.Bottom? || b.Bottom? || a.Top? || b.Top? {
    } else if a.Struct? && b.Struct? {
      if g.GStruct? { StructExact(a, b, g); }
    } else if a.List? && b.List? {
      if g.GList? { ListExact(a, b, g); }
    } else if g.GScalar? && !a.Struct? && !a.List? && !b.Struct? && !b.List? {
      ScalarComplete(a, b, g);
    }
  }

  lemma ScalarComplete(a: Value, b: Value, g: Ground)
    requires Wf(a) && Wf(b) && g.GScalar?
    requires a.Con? || a.Atom? || a.Bounded?
    requires b.Con? || b.Atom? || b.Bounded?
    ensures Member(g, a) && Member(g, b) ==> Member(g, Unify(a, b))
  {
    if Member(g, a) && Member(g, b) {
      if a.Atom? && b.Atom? { MeetAtomExact(g.s, a.atom, b.atom); }
      if a.Atom? && b.Bounded? { MeetAtomExact(g.s, a.atom, b.base); }
      if a.Bounded? && b.Atom? { MeetAtomExact(g.s, a.base, b.atom); }
      if a.Bounded? && b.Bounded? {
        MeetAtomExact(g.s, a.base, b.base);
        var all := a.bounds + b.bounds;
        var k := MeetAtom(a.base, b.base).value;
        assert BoundsFit(k, a.bounds) && BoundsFit(k, b.bounds);
        assert BoundsFit(k, all) && SatisfiesBounds(g.s, all);
        if IncompatibleBounds(all) { IncompatibleHasNoScalar(g.s, k, all); }
      }
    }
  }

  /** A member of a struct meet leaves no field of either side undeclared in a closed opposite. */
  lemma MemberDeclares(v: Value, o: Value, g: Ground)
    requires Wf(v) && Wf(o) && v.Struct? && o.Struct? && g.GStruct? && Member(g, UnifyStruct(v, o))
    ensures AllDeclared(v.fields, o.fields, o.closed) && AllDeclared(o.fields, v.fields, v.closed)
  {
    var out := UnifyStruct(v, o);
    StructMeetUnique(v, o);
    StructMember(g, out.fields, out.closed);
    forall i | 0 <= i < |v.fields| && o.closed ensures HasField(o.fields, v.fields[i].name) {
      FindAt(v.fields, i);
      StructMeetByName(v, o, v.fields[i].name);
    }
    forall j | 0 <= j < |o.fields| && v.closed ensures HasField(v.fields, o.fields[j].name) {
      FindAt(o.fields, j);
      StructMeetByName(v, o, o.fields[j].name);
    }
  }

  /** A common member that meets no stray field is a member of the struct meet, if its fields' meets are exact. */
  lemma {:induction false} StructComplete(v: Value, o: Value, g: Ground)
    requires Wf(v) && Wf(o) && v.Struct? && o.Struct? && g.GStruct?
    requires Member(g, v) && Member(g, o) && NoStray(g, v, o)
    requires forall n | n in g.m && Find(v.fields, n).Some? && Find(o.fields, n).Some? ::
               Member(g.m[n], Unify(Find(v.fields, n).value.val, Find(o.fields, n).value.val))
    ensures Member(g, UnifyStruct(v, o))
  {
    var out := UnifyStruct(v, o);
    StructMeetUnique(v, o);
    StructMember(g, v.fields, v.closed);
    StructMember(g, o.fields, o.closed);
    forall n
      ensures Find(out.fields, n).Some? ==> FieldHolds(g, Find(out.fields, n).value)
      ensures n in g.m && out.closed ==> Find(out.fields, n).Some?
    {
      StructMeetByName(v, o, n);
    }
    StructMember(g, out.fields, out.closed);
  }

  lemma {:induction false} StructExact(v: Value, o: Value, g: Ground)
    requires Wf(v) && Wf(o) && DisjFree(v) && DisjFree(o) && v.Struct? && o.Struct? && g.GStruct?
    ensures Member(g, UnifyStruct(v, o)) <==> Member(g, v) && Member(g, o) && NoStray(g, v, o)
    decreases Size(v) + Size(o), 1
  {
    var out := UnifyStruct(v, o);
    if Member(g, out) {
      MeetIsSound(v, o, g);
      MemberDeclares(v, o, g);
      StructMeetUnique(v, o);
      StructMember(g, out.fields, out.closed);
    }
    forall n | n in g.m && Find(v.fields, n).Some? && Find(o.fields, n).Some?
      ensures Member(g, out) ==> NoStray(g.m[n], Find(v.fields, n).value.val, Find(o.fields, n).value.val)
      ensures Member(g, v) && Member(g, o) && NoStray(g, v, o) ==>
                Member(g.m[n], Unify(Find(v.fields, n).value.val, Find(o.fields, n).value.val))
    {
      FieldExact(v, o, g, n);
    }
    if Member(g, v) && Member(g, o) && NoStray(g, v, o) { StructComplete(v, o, g); }
  }

  lemma {:induction false} FieldExact(v: Value, o: Value, g: Ground, n: string)
    requires Wf(v) && Wf(o) && DisjFree(v) && DisjFree(o) && v.Struct? && o.Struct? && g.GStruct?
    requires n in g.m && Find(v.fields, n).Some? && Find(o.fields, n).Some?
    ensures Member(g, UnifyStruct(v, o)) ==> NoStray(g.m[n], Find(v.fields, n).value.val, Find(o.fields, n).value.val)
    ensures Member(g, v) && Member(g, o) && NoStray(g, v, o) ==>
              Member(g.m[n], Unify(Find(v.fields, n).value.val, Find(o.fields, n).value.val))
    decreases Size(v) + Size(o), 0
  {
    var a, b := Find(v.fields, n).value.val, Find(o.fields, n).value.val;
    FindSmaller(v.fields, n);
    FindSmaller(o.fields, n);
    MeetIsExact(a, b, g.m[n]);
    StructMember(g, v.fields, v.closed);
    StructMember(g, o.fields, o.closed);
    StructMeetByName(v, o, n);
    var out := UnifyStruct(v, o);
    StructMember(g, out.fields, out.closed);
  }

  /** Membership in a list, element by element. */
  lemma ListMember(g: Ground, l: Value)
    requires l.List? && g.GList?
    ensures Member(g, l) <==>
            && |l.prefix| <= |g.xs|
            && forall i: nat | i < |g.xs| :: HasElem(l, i) && Member(g.xs[i], ElemAt(l, i))
  {
    var elems := forall i: nat | i < |g.xs| :: HasElem(l, i) && Member(g.xs[i], ElemAt(l, i));
    if Member(g, l) {
      forall i: nat | i < |g.xs| ensures HasElem(l, i) && Member(g.xs[i], ElemAt(l, i)) {}
    }
    if |l.prefix| <= |g.xs| && elems {
      forall i | 0 <= i < |l.prefix| ensures Member(g.xs[i], l.prefix[i]) { assert ElemAt(l, i) == l.prefix[i]; }
      assert l.tail.Closed? ==> !HasElem(l, |l.prefix|);
      if l.tail.Open? {
        forall i | |l.prefix| <= i < |g.xs| ensures Member(g.xs[i], l.tail.elem) { assert ElemAt(l, i) == l.tail.elem; }
      }
    }
  }

  lemma UnifiedElem(v: Value, o: Value, i: nat)
    requires v.List? && o.List? && LengthsAgree(v, o)
    ensures UnifyList(v, o).List? && |UnifyList(v, o).prefix| == Longest(v, o)
    ensures HasElem(UnifyList(v, o), i) <==> HasElem(v, i) && HasElem(o, i)
    ensures HasElem(v, i) && HasElem(o, i) ==> ElemAt(UnifyList(v, o), i) == Unify(ElemAt(v, i), ElemAt(o, i))
  {
    hide Unify;
    if i < Longest(v, o) { MeetElemAt(v, o, Longest(v, o), i); }
  }

  lemma {:induction false} ListExact(v: Value, o: Value, g: Ground)
    requires Wf(v) && Wf(o) && DisjFree(v) && DisjFree(o) && v.List? && o.List? && g.GList?
    ensures Member(g, UnifyList(v, o)) <==> Member(g, v) && Member(g, o) && NoStray(g, v, o)
    decreases Size(v) + Size(o), 1
  {
    MembersAgree(v, o, g);
    if LengthsAgree(v, o) { ListExactAgreeing(v, o, g); }
  }

  lemma MembersAgree(v: Value, o: Value, g: Ground)
    requires v.List? && o.List? && g.GList?
    ensures Member(g, v) && Member(g, o) ==> LengthsAgree(v, o)
  {
    ListMember(g, v);
    ListMember(g, o);
    hide Member;
  }

  lemma {:induction false} ListExactAgreeing(v: Value, o: Value, g: Ground)
    requires Wf(v) && Wf(o) && DisjFree(v) && DisjFree(o) && v.List? && o.List? && g.GList? && LengthsAgree(v, o)
    ensures Member(g, UnifyList(v, o)) <==> Member(g, v) && Member(g, o) && NoStray(g, v, o)
    decreases Size(v) + Size(o), 0, 1
  {
    hide Unify, UnifyList, Member, ElemAt, HasElem;
    ListMember(g, v);
    ListMember(g, o);
    UnifiedElem(v, o, 0);
    ListMember(g, UnifyList(v, o));
    forall i: nat | i < |g.xs|
      ensures HasElem(UnifyList(v, o), i) <==> HasElem(v, i) && HasElem(o, i)
      ensures HasElem(v, i) && HasElem(o, i) ==>
                (Member(g.xs[i], ElemAt(UnifyList(v, o), i)) <==>
                   Member(g.xs[i], ElemAt(v, i)) && Member(g.xs[i], ElemAt(o, i)) && NoStray(g.xs[i], ElemAt(v, i), ElemAt(o, i)))
    {
      UnifiedElem(v, o, i);
      if HasElem(v, i) && HasElem(o, i) { ElemExact(v, o, g, i); }
    }
    NoStrayList(g, v, o);
    hide NoStray;
  }

  lemma NoStrayList(g: Ground, v: Value, o: Value)
    requires v.List? && o.List? && g.GList?
    ensures NoStray(g, v, o) <==>
            forall i: nat | i < |g.xs| :: HasElem(v, i) && HasElem(o, i) ==> NoStray(g.xs[i], ElemAt(v, i), ElemAt(o, i))
  {
  }

  lemma {:induction false} ElemExact(v: Value, o: Value, g: Ground, i: nat)
    requires Wf(v) && Wf(o) && DisjFree(v) && DisjFree(o) && v.List? && o.List? && g.GList? && i < |g.xs|
    requires HasElem(v, i) && HasElem(o, i)
    ensures Member(g.xs[i], Unify(ElemAt(v, i), ElemAt(o, i))) <==>
            Member(g.xs[i], ElemAt(v, i)) && Member(g.xs[i], ElemAt(o, i)) && NoStray(g.xs[i], ElemAt(v, i), ElemAt(o, i))
    decreases Size(v) + Size(o), 0, 0
  {
    ElemSmaller(v, i);
    ElemSmaller(o, i);
    MeetIsExact(ElemAt(v, i), ElemAt(o, i), g.xs[i]);
  }

  // ----- The condition on the values alone -----

  /** If every optional field is declared opposite, no common member meets a stray field. */
  lemma {:induction false} HarmoniousHasNoStray(a: Value, b: Value, g: Ground)
    requires Wf(a) && Wf(b) && Harmonious(a, b) && Member(g, a) && Member(g, b)
    ensures NoStray(g, a, b)
    decreases g
  {
    if g.GStruct? && a.Struct? && b.Struct? {
      StructMember(g, a.fields, a.closed);
      StructMember(g, b.fields, b.closed);
      forall i | 0 <= i < |a.fields| && b.closed ensures HasField(b.fields, a.fields[i].name) { FindAt(a.fields, i); }
      forall j | 0 <= j < |b.fields| && a.closed ensures HasField(a.fields, b.fields[j].name) { FindAt(b.fields, j); }
      forall n <- g.m | Find(a.fields, n).Some? && Find(b.fields, n).Some?
        ensures NoStray(g.m[n], Find(a.fields, n).value.val, Find(b.fields, n).value.val)
      {
        var i := IndexOf(a.fields, n);
        assert Harmonious(a.fields[i].val, b.fields[IndexOf(b.fields, a.fields[i].name)].val);
        HarmoniousHasNoStray(Find(a.fields, n).value.val, Find(b.fields, n).value.val, g.m[n]);
      }
    } else if g.GList? && a.List? && b.List? {
      forall i | 0 <= i < |g.xs| && HasElem(a, i) && HasElem(b, i)
        ensures NoStray(g.xs[i], ElemAt(a, i), ElemAt(b, i))
      {
        HarmoniousHasNoStray(ElemAt(a, i), ElemAt(b, i), g.xs[i]);
      }
    }
  }

  /** MAIN: on harmonious, disjunction-free values the meet denotes the intersection. */
  lemma MeetIsIntersection(a: Value, b: Value, g: Ground)
    requires Wf(a) && Wf(b) && DisjFree(a) && DisjFree(b) && Harmonious(a, b)
    ensures Member(g, Unify(a, b)) <==> Member(g, a) && Member(g, b)
  {
    MeetIsExact(a, b, g);
    if Member(g, a) && Member(g, b) { HarmoniousHasNoStray(a, b, g); }
  }

  /** The condition is needed: {a?: _} and close({}) share the empty document, their meet admits nothing. */
  lemma StrayOptionalLosesMembers()
    ensures var v := Struct([Field("a", Top, true)], false);
            var o := Struct([], true);
            var g := GStruct(map[]);
            Member(g, v) && Member(g, o) && !Member(g, Unify(v, o))
  {
    var v := Struct([Field("a", Top, true)], false);
    var o := Struct([], true);
    assert Unify(v, o) == UnifyStruct(v, o);
    StructMeetParts(v, o);
    assert UnifyStruct(v, o).fields[0] == Field("a", Bottom, false);
  }

}
