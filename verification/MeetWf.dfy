/** The meet keeps values well formed: no repeated field, no nested or one-branch disjunction, no clash of bounds. */
module MeetWf {

  import opened Values
  import opened Meet
  import opened MeetFacts
  import opened Semantics

  predicate DisjFree(v: Value)
  {
    match v
    case Disj(_) => false
    case Struct(fs, _) => forall i | 0 <= i < |fs| :: DisjFree(fs[i].val)
    case List(p, t) => (forall i | 0 <= i < |p| :: DisjFree(p[i])) && (t.Open? ==> DisjFree(t.elem))
    case _ => true
  }

  /** MAIN: a meet of well-formed values is well formed, and disjunctions arise only from disjunctions. */
  lemma {:induction false} MeetIsWf(a: Value, b: Value)
    requires Wf(a) && Wf(b)
    ensures Wf(Unify(a, b))
    ensures !a.Disj? && !b.Disj? ==> !Unify(a, b).Disj?
    ensures DisjFree(a) && DisjFree(b) ==> DisjFree(Unify(a, b))
    decreases Size(a) + Size(b), 2
  {
    if a.Bottom? || b.Bottom? || a.Top? || b.Top? {
    } else if a.Disj? {
      DisjunctionWf(a, b);
    } else if b.Disj? {
      DisjunctionWf(b, a);
    } else if a.Struct? && b.Struct? {
      StructWf(a, b);
    } else if a.List? && b.List? {
      ListWf(a, b);
    }
  }

  lemma {:induction false} DisjunctionWf(d: Value, o: Value)
    requires Wf(d) && Wf(o) && d.Disj?
    ensures Wf(UnifyDisjunction(d, o))
    decreases Size(d) + Size(o), 1
  {
    SurvivorsWf(d, o);
  }

  lemma {:induction false} SurvivorsWf(d: Value, o: Value)
    requires Wf(d) && Wf(o) && d.Disj?
    ensures forall b <- Dedupe(MeetBranches(d, o)) :: Wf(b.v) && !b.v.Disj? && !b.v.Bottom?
    decreases Size(d) + Size(o), 0
  {
    var survivors := Dedupe(MeetBranches(d, o));
    var os := BranchesOf(o);
    forall k | 0 <= k < |survivors|
      ensures Wf(survivors[k].v) && !survivors[k].v.Disj? && !survivors[k].v.Bottom?
    {
      SurvivorOrigin(d, o, k);
      var i, j :| 0 <= i < |d.branches| && 0 <= j < |os| && survivors[k].v == Unify(d.branches[i].v, os[j].v);
      BranchSmaller(d.branches, i);
      if o.Disj? { BranchSmaller(os, j); }
      MeetIsWf(d.branches[i].v, os[j].v);
    }
  }

  lemma {:induction false} StructWf(v: Value, o: Value)
    requires Wf(v) && Wf(o) && v.Struct? && o.Struct?
    ensures Wf(UnifyStruct(v, o))
    ensures DisjFree(v) && DisjFree(o) ==> DisjFree(UnifyStruct(v, o))
    decreases Size(v) + Size(o), 1
  {
    var out := UnifyStruct(v, o).fields;
    StructMeetUnique(v, o);
    forall i | 0 <= i < |out|
      ensures Wf(out[i].val)
      ensures DisjFree(v) && DisjFree(o) ==> DisjFree(out[i].val)
    {
      var n := out[i].name;
      FindAt(out, i);
      StructMeetByName(v, o, n);
      var a, b := Find(v.fields, n), Find(o.fields, n);
      if a.Some? && b.Some? {
        FindSmaller(v.fields, n);
        FindSmaller(o.fields, n);
        MeetIsWf(a.value.val, b.value.val);
      }
    }
  }

  lemma {:induction false} ListWf(v: Value, o: Value)
    requires Wf(v) && Wf(o) && v.List? && o.List?
    ensures Wf(UnifyList(v, o))
    ensures DisjFree(v) && DisjFree(o) ==> DisjFree(UnifyList(v, o))
    decreases Size(v) + Size(o), 1
  {
    if LengthsAgree(v, o) {
      var n := Longest(v, o);
      forall i | 0 <= i < n
        ensures Wf(MeetElems(v, o, n)[i])
        ensures DisjFree(v) && DisjFree(o) ==> DisjFree(MeetElems(v, o, n)[i])
      {
        MeetElemAt(v, o, n, i);
        ElemSmaller(v, i);
        ElemSmaller(o, i);
        MeetIsWf(ElemAt(v, i), ElemAt(o, i));
      }
      if v.tail.Open? && o.tail.Open? { MeetIsWf(v.tail.elem, o.tail.elem); }
    }
  }

}
