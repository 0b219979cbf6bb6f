/**
  On values without disjunctions the meet is a semilattice operation: commutative, associative and
  idempotent, up to the order of fields and of bounds. The laws run through closedness, optional
  fields, open tails and list lengths.
 */
module MeetLaws {

  import opened Wrappers
  import opened Values
  import opened Meet
  import opened MeetFacts
  import opened MeetWf
  import opened MeetExact
  import opened Semantics

  // ----- Equality up to the order of fields and bounds -----

  ghost predicate SameBounds(xs: seq<Bound>, ys: seq<Bound>)
  {
    (forall x <- xs :: x in ys) && (forall y <- ys :: y in xs)
  }

  ghost predicate Same(a: Value, b: Value)
    decreases a
  {
    match a
    case Bounded(k, bs) => b.Bounded? && k == b.base && SameBounds(bs, b.bounds)
    case Struct(fs, closed) =>
      && b.Struct? && closed == b.closed
      && (forall i :: 0 <= i < |fs| ==>
            && Find(b.fields, fs[i].name).Some?
            && fs[i].optional == Find(b.fields, fs[i].name).value.optional
            && Same(fs[i].val, Find(b.fields, fs[i].name).value.val))
      && (forall f <- b.fields :: HasField(fs, f.name))
    case List(p, t) =>
      && b.List? && |p| == |b.prefix|
      && (forall i :: 0 <= i < |p| ==> Same(p[i], b.prefix[i]))
      && (match t case Closed => b.tail.Closed? case Open(e) => b.tail.Open? && Same(e, b.tail.elem))
    case _ => a == b
  }

  ghost predicate SameOpt(a: Option<Field>, b: Option<Field>)
  {
    match (a, b)
    case (None, None) => true
    case (Some(f), Some(h)) => f.optional == h.optional && Same(f.val, h.val)
    case _ => false
  }

  lemma SameStructs(a: Value, b: Value)
    requires a.Struct? && b.Struct? && UniqueNames(a.fields) && a.closed == b.closed
    requires forall n :: SameOpt(Find(a.fields, n), Find(b.fields, n))
    ensures Same(a, b)
  {
    forall i | 0 <= i < |a.fields|
      ensures SameOpt(Some(a.fields[i]), Find(b.fields, a.fields[i].name))
    {
      FindAt(a.fields, i);
    }
    forall f <- b.fields ensures HasField(a.fields, f.name) {
      assert HasField(b.fields, f.name);
      assert SameOpt(Find(a.fields, f.name), Find(b.fields, f.name));
    }
  }

  lemma {:induction false} SameRefl(a: Value)
    requires Wf(a)
    ensures Same(a, a)
  {
    match a
    case Struct(fs, _) =>
      forall i | 0 <= i < |fs| ensures Same(fs[i].val, fs[i].val) { SameRefl(fs[i].val); }
      forall i | 0 <= i < |fs| ensures Find(fs, fs[i].name) == Some(fs[i]) { FindAt(fs, i); }
    case List(p, t) =>
      forall i | 0 <= i < |p| ensures Same(p[i], p[i]) { SameRefl(p[i]); }
      if t.Open? { SameRefl(t.elem); }
    case _ =>
  }

  lemma ListMeetAt(v: Value, o: Value, i: nat)
    requires v.List? && o.List? && UnifyList(v, o).List? && HasElem(UnifyList(v, o), i)
    ensures HasElem(v, i) && HasElem(o, i)
    ensures ElemAt(UnifyList(v, o), i) == Unify(ElemAt(v, i), ElemAt(o, i))
  {
    if i < Longest(v, o) { MeetElemAt(v, o, Longest(v, o), i); }
  }

  // ----- Commutativity -----

  lemma {:induction false} StructCommutes(a: Value, b: Value)
    requires Wf(a) && Wf(b) && DisjFree(a) && DisjFree(b) && a.Struct? && b.Struct?
    ensures Same(UnifyStruct(a, b), UnifyStruct(b, a))
    decreases Size(a) + Size(b), 1
  {
    hide Unify, IsConcrete, ConcreteEqual, HasBottom;
    StructMeetUnique(a, b);
    forall n ensures SameOpt(Find(UnifyStruct(a, b).fields, n), Find(UnifyStruct(b, a).fields, n)) {
      StructMeetByName(a, b, n);
      StructMeetByName(b, a, n);
      var f, h := Find(a.fields, n), Find(b.fields, n);
      if f.Some? && h.Some? {
        FindSmaller(a.fields, n);
        FindSmaller(b.fields, n);
        MeetCommutes(f.value.val, h.value.val);
      } else if f.Some? {
        SameRefl(f.value.val);
      } else if h.Some? {
        SameRefl(h.value.val);
      }
    }
    SameStructs(UnifyStruct(a, b), UnifyStruct(b, a));
  }

  lemma {:induction false} ListCommutes(a: Value, b: Value)
    requires Wf(a) && Wf(b) && DisjFree(a) && DisjFree(b) && a.List? && b.List?
    ensures Same(UnifyList(a, b), UnifyList(b, a))
    decreases Size(a) + Size(b), 1
  {
    hide IsConcrete, ConcreteEqual, HasBottom;
    if LengthsAgree(a, b) {
      var x, y := UnifyList(a, b), UnifyList(b, a);
      forall i | 0 <= i < |x.prefix| ensures Same(x.prefix[i], y.prefix[i]) {
        ListMeetAt(a, b, i);
        ListMeetAt(b, a, i);
        ElemSmaller(a, i);
        ElemSmaller(b, i);
        MeetCommutes(ElemAt(a, i), ElemAt(b, i));
      }
      if x.tail.Open? { MeetCommutes(a.tail.elem, b.tail.elem); }
    }
  }

  /** MAIN: the meet commutes. */
  lemma {:induction false} MeetCommutes(a: Value, b: Value)
    requires Wf(a) && Wf(b) && DisjFree(a) && DisjFree(b)
    ensures Same(Unify(a, b), Unify(b, a))
    decreases Size(a) + Size(b), 2
  {
    if a.Bottom? || b.Bottom? || a.Top? || b.Top? {
      SameRefl(a);
      SameRefl(b);
    } else if a.Struct? && b.Struct? {
      StructCommutes(a, b);
    } else if a.List? && b.List? {
      ListCommutes(a, b);
    } else if a.Bounded? && b.Bounded? {
      ClashesAgree(a.bounds + b.bounds, b.bounds + a.bounds);
    }
  }

  /** Whether bounds clash depends only on which bounds there are. */
  lemma ClashesAgree(xs: seq<Bound>, ys: seq<Bound>)
    requires SameBounds(xs, ys)
    ensures IncompatibleBounds(xs) <==> IncompatibleBounds(ys)
  {
    if IncompatibleBounds(xs) { ClashesGrow(xs, ys); }
    if IncompatibleBounds(ys) { ClashesGrow(ys, xs); }
  }

  lemma ClashesGrow(xs: seq<Bound>, ys: seq<Bound>)
    requires IncompatibleBounds(xs) && forall x <- xs :: x in ys
    ensures IncompatibleBounds(ys)
  {
    var i, j :| 0 <= i < |xs| && 0 <= j < |xs| && Clash(xs[i], xs[j]);
    assert xs[i] in ys && xs[j] in ys;
    var k :| 0 <= k < |ys| && ys[k] == xs[i];
    var l :| 0 <= l < |ys| && ys[l] == xs[j];
    assert Clash(ys[k], ys[l]);
  }

  // ----- Idempotence -----

  /** MAIN: meeting a value with itself changes nothing. */
  lemma {:induction false} MeetIsIdempotent(a: Value)
    requires Wf(a) && DisjFree(a)
    ensures Same(Unify(a, a), a)
  {
    match a
    case Struct(fs, _) =>
      StructMeetUnique(a, a);
      forall n ensures SameOpt(Find(UnifyStruct(a, a).fields, n), Find(fs, n)) {
        StructMeetByName(a, a, n);
        if Find(fs, n).Some? {
          var i := IndexOf(fs, n);
          MeetIsIdempotent(fs[i].val);
        }
      }
      SameStructs(UnifyStruct(a, a), a);
    case List(p, t) =>
      forall i | 0 <= i < |p| ensures Same(UnifyList(a, a).prefix[i], p[i]) {
        ListMeetAt(a, a, i);
        MeetIsIdempotent(p[i]);
      }
      if t.Open? { MeetIsIdempotent(t.elem); }
    case Bounded(_, bs) =>
      ClashesAgree(bs + bs, bs);
    case _ =>
  }

  // ----- Associativity -----

  predicate Scalarish(v: Value)
  {
    v.Con? || v.Atom? || v.Bounded?
  }

  lemma ConcreteMeets(c: Scalar, v: Value)
    requires Scalarish(v) && Wf(v)
    ensures Unify(Con(c), v) == if Member(GScalar(c), v) then Con(c) else Bottom
    ensures Unify(v, Con(c)) == if Member(GScalar(c), v) then Con(c) else Bottom
  {
  }

  /** The meet of two scalar constraints admits what both admit; a failed one admits nothing. */
  lemma ScalarMeet(s: Scalar, a: Value, b: Value)
    requires Scalarish(a) && Scalarish(b) && Wf(a) && Wf(b)
    ensures Unify(a, b) == Bottom || (Scalarish(Unify(a, b)) && Wf(Unify(a, b)))
    ensures Unify(a, b) == Bottom ==> !(Member(GScalar(s), a) && Member(GScalar(s), b))
    ensures Unify(a, b) != Bottom ==> (Member(GScalar(s), Unify(a, b)) <==> Member(GScalar(s), a) && Member(GScalar(s), b))
  {
    MeetIsWf(a, b);
    MeetIsExact(a, b, GScalar(s));
    hide SatisfiesBounds, SatisfiesAtom, IncompatibleBounds;
  }

  lemma BottomAbsorbs(v: Value)
    ensures Unify(Bottom, v) == Bottom && Unify(v, Bottom) == Bottom
  {
  }

  lemma ConIsScalarish(s: Scalar)
    ensures Scalarish(Con(s)) && Wf(Con(s))
  {
  }

  lemma ConcreteAssoc(a: Value, b: Value, c: Value)
    requires Scalarish(a) && Scalarish(b) && Scalarish(c) && Wf(a) && Wf(b) && Wf(c)
    requires a.Con? || b.Con? || c.Con?
    ensures Unify(Unify(a, b), c) == Unify(a, Unify(b, c))
  {
    hide *;
    var s := if a.Con? then a.s else if b.Con? then b.s else c.s;
    ConIsScalarish(s);
    BottomAbsorbs(a);
    BottomAbsorbs(c);
    ConcreteMeets(s, a);
    ConcreteMeets(s, b);
    ConcreteMeets(s, c);
    ScalarMeet(s, a, b);
    ScalarMeet(s, b, c);
    if Unify(a, b) != Bottom { ConcreteMeets(s, Unify(a, b)); }
    if Unify(b, c) != Bottom { ConcreteMeets(s, Unify(b, c)); }
  }

  /** The bounds a type carries: none for a bare type. */
  function BoundsOf(v: Value): seq<Bound>
    requires v.Atom? || v.Bounded?
  {
    if v.Bounded? then v.bounds else []
  }

  function BaseOf(v: Value): AtomKind
    requires v.Atom? || v.Bounded?
  {
    if v.Bounded? then v.base else v.atom
  }

  /** A type of the given base and bounds, or bottom when there is no base or the bounds clash. */
  function TypeOf(base: Option<AtomKind>, bounds: seq<Bound>, bounded: bool): Value
  {
    if base.None? || IncompatibleBounds(bounds) then Bottom
    else if bounded then Bounded(base.value, bounds)
    else Atom(base.value)
  }

  lemma TypeMeet(a: Value, b: Value)
    requires a.Atom? || a.Bounded?
    requires b.Atom? || b.Bounded?
    requires Wf(a) && Wf(b)
    ensures Unify(a, b) == TypeOf(MeetAtom(BaseOf(a), BaseOf(b)), BoundsOf(a) + BoundsOf(b), a.Bounded? || b.Bounded?)
  {
    assert BoundsOf(a) + [] == BoundsOf(a) && [] + BoundsOf(b) == BoundsOf(b);
  }

  function MeetAtomOpt(a: Option<AtomKind>, b: Option<AtomKind>): Option<AtomKind>
  {
    if a.Some? && b.Some? then MeetAtom(a.value, b.value) else None
  }

  lemma AtomAssoc(a: AtomKind, b: AtomKind, c: AtomKind)
    ensures MeetAtomOpt(MeetAtom(a, b), Some(c)) == MeetAtomOpt(Some(a), MeetAtom(b, c))
  {
  }

  lemma LeftTypeMeet(a: Value, b: Value, c: Value)
    requires a.Atom? || a.Bounded?
    requires b.Atom? || b.Bounded?
    requires c.Atom? || c.Bounded?
    requires Wf(a) && Wf(b) && Wf(c)
    ensures Unify(Unify(a, b), c) ==
            TypeOf(MeetAtomOpt(MeetAtom(BaseOf(a), BaseOf(b)), Some(BaseOf(c))),
                   BoundsOf(a) + BoundsOf(b) + BoundsOf(c), a.Bounded? || b.Bounded? || c.Bounded?)
  {
    TypeMeet(a, b);
    MeetIsWf(a, b);
    var bs := BoundsOf(a) + BoundsOf(b);
    if Unify(a, b).Bottom? {
      if IncompatibleBounds(bs) { ClashesGrow(bs, bs + BoundsOf(c)); }
    } else {
      if !a.Bounded? && !b.Bounded? { assert bs == []; }
      TypeMeet(Unify(a, b), c);
    }
  }

  lemma RightTypeMeet(a: Value, b: Value, c: Value)
    requires a.Atom? || a.Bounded?
    requires b.Atom? || b.Bounded?
    requires c.Atom? || c.Bounded?
    requires Wf(a) && Wf(b) && Wf(c)
    ensures Unify(a, Unify(b, c)) ==
            TypeOf(MeetAtomOpt(Some(BaseOf(a)), MeetAtom(BaseOf(b), BaseOf(c))),
                   BoundsOf(a) + (BoundsOf(b) + BoundsOf(c)), a.Bounded? || b.Bounded? || c.Bounded?)
  {
    TypeMeet(b, c);
    MeetIsWf(b, c);
    var bs := BoundsOf(b) + BoundsOf(c);
    if Unify(b, c).Bottom? {
      if IncompatibleBounds(bs) { ClashesGrow(bs, BoundsOf(a) + bs); }
    } else {
      if !b.Bounded? && !c.Bounded? { assert bs == []; }
      TypeMeet(a, Unify(b, c));
    }
  }

  lemma TypeAssoc(a: Value, b: Value, c: Value)
    requires a.Atom? || a.Bounded?
    requires b.Atom? || b.Bounded?
    requires c.Atom? || c.Bounded?
    requires Wf(a) && Wf(b) && Wf(c)
    ensures Unify(Unify(a, b), c) == Unify(a, Unify(b, c))
  {
    hide *;
    var bounded := a.Bounded? || b.Bounded? || c.Bounded?;
    var l, r := MeetAtomOpt(MeetAtom(BaseOf(a), BaseOf(b)), Some(BaseOf(c))),
                MeetAtomOpt(Some(BaseOf(a)), MeetAtom(BaseOf(b), BaseOf(c)));
    var bs, bs' := BoundsOf(a) + BoundsOf(b) + BoundsOf(c), BoundsOf(a) + (BoundsOf(b) + BoundsOf(c));
    calc {
      Unify(Unify(a, b), c);
      { LeftTypeMeet(a, b, c); }
      TypeOf(l, bs, bounded);
      { AtomAssoc(BaseOf(a), BaseOf(b), BaseOf(c)); assert bs == bs'; }
      TypeOf(r, bs', bounded);
      { RightTypeMeet(a, b, c); }
      Unify(a, Unify(b, c));
    }
  }

  /** MAIN: the meet associates. */
  lemma {:induction false} MeetAssociates(a: Value, b: Value, c: Value)
    requires Wf(a) && Wf(b) && Wf(c) && DisjFree(a) && DisjFree(b) && DisjFree(c)
    ensures Same(Unify(Unify(a, b), c), Unify(a, Unify(b, c)))
    decreases Size(a) + Size(b) + Size(c), 3
  {
    hide IsConcrete, ConcreteEqual, HasBottomLeaf, MeetBranches, Dedupe, MeetDefault, Remark, UnifyDisjunction, HasBottom, SatisfiesBounds, SatisfiesAtom;
    MeetIsWf(a, b);
    MeetIsWf(b, c);
    if a.Bottom? || b.Bottom? || c.Bottom? {
    } else if a.Top? || b.Top? || c.Top? {
      MeetIsWf(a, c);
      SameRefl(Unify(a, b));
      SameRefl(Unify(b, c));
      SameRefl(Unify(a, c));
    } else if a.Struct? && b.Struct? && c.Struct? {
      StructAssoc(a, b, c);
    } else if a.List? && b.List? && c.List? {
      ListAssoc(a, b, c);
    } else if Scalarish(a) && Scalarish(b) && Scalarish(c) {
      if a.Con? || b.Con? || c.Con? { ConcreteAssoc(a, b, c); } else { TypeAssoc(a, b, c); }
      MeetIsWf(Unify(a, b), c);
      SameRefl(Unify(Unify(a, b), c));
    } else {
      MixedMeet(a, b);
      MixedMeet(b, c);
    }
  }

  lemma MixedMeet(a: Value, b: Value)
    requires !a.Disj? && !b.Disj? && !a.Top? && !b.Top?
    ensures var m := Unify(a, b);
            m.Bottom? || (m.Struct? && a.Struct? && b.Struct?) || (m.List? && a.List? && b.List?)
            || (Scalarish(m) && Scalarish(a) && Scalarish(b))
  {
  }

  lemma {:induction false} StructAssoc(a: Value, b: Value, c: Value)
    requires Wf(a) && Wf(b) && Wf(c) && DisjFree(a) && DisjFree(b) && DisjFree(c)
    requires a.Struct? && b.Struct? && c.Struct?
    ensures Same(Unify(Unify(a, b), c), Unify(a, Unify(b, c)))
    decreases Size(a) + Size(b) + Size(c), 2
  {
    hide Unify, IsConcrete, ConcreteEqual, HasBottom, UnifyDisjunction, MeetOpt;
    var ab, bc := UnifyStruct(a, b), UnifyStruct(b, c);
    StructMeetUnique(a, b);
    StructMeetUnique(b, c);
    StructMeetUnique(ab, c);
    forall n ensures SameOpt(Find(UnifyStruct(ab, c).fields, n), Find(UnifyStruct(a, bc).fields, n)) {
      StructAssocAt(a, b, c, n);
    }
    SameStructs(UnifyStruct(ab, c), UnifyStruct(a, bc));
    UnifyStructs(a, b);
    UnifyStructs(b, c);
    UnifyStructs(ab, c);
    UnifyStructs(a, bc);
  }

  lemma UnifyStructs(a: Value, b: Value)
    requires a.Struct? && b.Struct?
    ensures Unify(a, b) == UnifyStruct(a, b)
  {
  }

  lemma {:induction false} StructAssocAt(a: Value, b: Value, c: Value, n: string)
    requires Wf(a) && Wf(b) && Wf(c) && DisjFree(a) && DisjFree(b) && DisjFree(c)
    requires a.Struct? && b.Struct? && c.Struct?
    ensures UnifyStruct(a, b).Struct? && UnifyStruct(b, c).Struct?
    ensures SameOpt(Find(UnifyStruct(UnifyStruct(a, b), c).fields, n), Find(UnifyStruct(a, UnifyStruct(b, c)).fields, n))
    decreases Size(a) + Size(b) + Size(c), 1
  {
    hide Unify, IsConcrete, ConcreteEqual, HasBottom, UnifyDisjunction;
    var ab, bc := UnifyStruct(a, b), UnifyStruct(b, c);
    StructMeetUnique(a, b);
    StructMeetUnique(b, c);
    StructMeetByName(a, b, n);
    StructMeetByName(b, c, n);
    StructMeetByName(ab, c, n);
    StructMeetByName(a, bc, n);
    var x, y, z := Find(a.fields, n), Find(b.fields, n), Find(c.fields, n);
    if x.Some? { FindSmaller(a.fields, n); SameRefl(x.value.val); }
    if y.Some? { FindSmaller(b.fields, n); SameRefl(y.value.val); }
    if z.Some? { FindSmaller(c.fields, n); SameRefl(z.value.val); }
    OptAssoc(n, x, a.closed, y, b.closed, z, c.closed, Size(a) + Size(b) + Size(c));
  }

  lemma {:induction false} OptAssoc(n: string, x: Option<Field>, xc: bool, y: Option<Field>, yc: bool,
                                    z: Option<Field>, zc: bool, bound: nat)
    requires x.Some? ==> Wf(x.value.val) && DisjFree(x.value.val) && Same(x.value.val, x.value.val)
    requires y.Some? ==> Wf(y.value.val) && DisjFree(y.value.val) && Same(y.value.val, y.value.val)
    requires z.Some? ==> Wf(z.value.val) && DisjFree(z.value.val) && Same(z.value.val, z.value.val)
    requires (if x.Some? then Size(x.value.val) else 0) + (if y.Some? then Size(y.value.val) else 0)
             + (if z.Some? then Size(z.value.val) else 0) < bound
    ensures SameOpt(MeetOpt(n, MeetOpt(n, x, xc, y, yc), xc || yc, z, zc),
                    MeetOpt(n, x, xc, MeetOpt(n, y, yc, z, zc), yc || zc))
    decreases bound, 0
  {
    if x.Some? && y.Some? && z.Some? {
      MeetAssociates(x.value.val, y.value.val, z.value.val);
    } else if x.Some? && y.Some? {
      MeetIsWf(x.value.val, y.value.val);
      SameRefl(Unify(x.value.val, y.value.val));
    } else if y.Some? && z.Some? {
      MeetIsWf(y.value.val, z.value.val);
      SameRefl(Unify(y.value.val, z.value.val));
    } else if x.Some? && z.Some? {
      MeetIsWf(x.value.val, z.value.val);
      SameRefl(Unify(x.value.val, z.value.val));
    }
  }

  lemma ListMeetShape(v: Value, o: Value)
    requires v.List? && o.List?
    ensures UnifyList(v, o).List? <==> LengthsAgree(v, o)
    ensures LengthsAgree(v, o) ==>
              && |UnifyList(v, o).prefix| == Longest(v, o)
              && (UnifyList(v, o).tail.Open? <==> v.tail.Open? && o.tail.Open?)
  {
  }

  lemma {:induction false} ListAssoc(a: Value, b: Value, c: Value)
    requires Wf(a) && Wf(b) && Wf(c) && DisjFree(a) && DisjFree(b) && DisjFree(c)
    requires a.List? && b.List? && c.List?
    ensures Same(Unify(Unify(a, b), c), Unify(a, Unify(b, c)))
    decreases Size(a) + Size(b) + Size(c), 1
  {
    var ab, bc := UnifyList(a, b), UnifyList(b, c);
    var l, r := Unify(ab, c), Unify(a, bc);
    ListMeetShape(a, b);
    ListMeetShape(b, c);
    if ab.List? { ListMeetShape(ab, c); }
    if bc.List? { ListMeetShape(a, bc); }
    assert l.List? <==> r.List?;
    if l.List? {
      forall i: nat | HasElem(l, i) ensures Same(ElemAt(l, i), ElemAt(r, i)) {
        ListMeetAt(ab, c, i);
        ListMeetAt(a, b, i);
        ListMeetAt(a, bc, i);
        ListMeetAt(b, c, i);
        ElemSmaller(a, i);
        ElemSmaller(b, i);
        ElemSmaller(c, i);
        MeetAssociates(ElemAt(a, i), ElemAt(b, i), ElemAt(c, i));
      }
      forall i | 0 <= i < |l.prefix| ensures Same(l.prefix[i], r.prefix[i]) {
        assert ElemAt(l, i) == l.prefix[i] && ElemAt(r, i) == r.prefix[i];
      }
      if l.tail.Open? { assert ElemAt(l, |l.prefix|) == l.tail.elem && ElemAt(r, |l.prefix|) == r.tail.elem; }
    }
  }

}
