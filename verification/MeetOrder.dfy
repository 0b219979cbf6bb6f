/**
  The order of the operands of a meet, for values with disjunctions at any depth: the condition under
  which it does not matter, two cases in which the condition always holds, and the smallest failure.
 */
module MeetOrder {

  import opened Wrappers
  import opened Values
  import opened Meet
  import opened MeetFacts
  import opened MeetWf
  import opened MeetLaws
  import opened Likeness
  import opened Choices
  import opened Semantics
  import opened Sequences
  import opened Validate

  /** Wherever the meet of a and b meets two disjunctions, their firsts agree. */
  predicate Agreeing(a: Value, b: Value)
    decreases Size(a) + Size(b)
  {
    if a.Disj? && b.Disj? then
      && (forall i, j | 0 <= i < |a.branches| && 0 <= j < |b.branches| ::
            BranchSmaller(a.branches, i); BranchSmaller(b.branches, j);
            Agreeing(a.branches[i].v, b.branches[j].v))
      && FirstsAgree(a, b)
    else if a.Struct? && b.Struct? then
      forall i, j | 0 <= i < |a.fields| && 0 <= j < |b.fields| && a.fields[i].name == b.fields[j].name ::
        FieldSmaller(a.fields, i); FieldSmaller(b.fields, j);
        Agreeing(a.fields[i].val, b.fields[j].val)
    else if a.List? && b.List? && LengthsAgree(a, b) then
      && (forall i: nat | HasElem(a, i) && HasElem(b, i) && i < Longest(a, b) ::
            ElemSmaller(a, i); ElemSmaller(b, i);
            Agreeing(ElemAt(a, i), ElemAt(b, i)))
      && (a.tail.Open? && b.tail.Open? ==> Agreeing(a.tail.elem, b.tail.elem))
    else true
  }

  ghost predicate AlikeOpt(a: Option<Field>, b: Option<Field>)
  {
    match (a, b)
    case (None, None) => true
    case (Some(f), Some(h)) => f.optional == h.optional && Alike(f.val, h.val)
    case _ => false
  }

  lemma AlikeStructs(a: Value, b: Value)
    requires a.Struct? && b.Struct? && UniqueNames(a.fields) && a.closed == b.closed
    requires forall n :: AlikeOpt(Find(a.fields, n), Find(b.fields, n))
    ensures Alike(a, b)
  {
    forall i | 0 <= i < |a.fields| ensures AlikeOpt(Some(a.fields[i]), Find(b.fields, a.fields[i].name)) {
      FindAt(a.fields, i);
      assert AlikeOpt(Find(a.fields, a.fields[i].name), Find(b.fields, a.fields[i].name));
    }
    forall f <- b.fields ensures HasField(a.fields, f.name) {
      assert HasField(b.fields, f.name);
      assert AlikeOpt(Find(a.fields, f.name), Find(b.fields, f.name));
    }
  }

  lemma AlikeAt(a: Value, b: Value, n: string)
    requires Wf(a) && Wf(b) && a.Struct? && Alike(a, b)
    ensures b.Struct? && AlikeOpt(Find(a.fields, n), Find(b.fields, n))
  {
    if HasField(b.fields, n) {
      assert b.fields[IndexOf(b.fields, n)] in b.fields;
      assert HasField(a.fields, n);
    }
    if HasField(a.fields, n) {
      var i := IndexOf(a.fields, n);
      assert a.fields[i].name == n;
    }
  }

  // ----- The condition suffices -----

  /** MAIN: wherever the firsts agree, at every depth, the order of the operands does not matter. */
  lemma {:induction false} AgreeingCommutes(a: Value, b: Value)
    requires Wf(a) && Wf(b) && Agreeing(a, b)
    ensures Alike(Unify(a, b), Unify(b, a))
    decreases Size(a) + Size(b), 1
  {
    if a.Bottom? || b.Bottom? || a.Top? || b.Top? {
      AlikeRefl(a);
      AlikeRefl(b);
    } else if a.Disj? && b.Disj? {
      hide Wf, Alike, Unify, FirstsAgree;
      forall i, j | 0 <= i < |a.branches| && 0 <= j < |b.branches|
        ensures Alike(Unify(a.branches[i].v, b.branches[j].v), Unify(b.branches[j].v, a.branches[i].v))
      {
        BranchSmaller(a.branches, i);
        BranchSmaller(b.branches, j);
        WfParts(a);
        WfParts(b);
        AgreeingCommutes(a.branches[i].v, b.branches[j].v);
      }
      DisjunctionsCommute(a, b);
    } else if a.Disj? || b.Disj? {
      OneDisjunction(a, b);
    } else if a.Struct? && b.Struct? {
      StructsCommute(a, b);
    } else if a.List? && b.List? {
      ListsCommute(a, b);
    } else {
      ScalarsCommute(a, b);
    }
  }

  lemma OneDisjunction(a: Value, b: Value)
    requires Wf(a) && Wf(b) && a.Disj? != b.Disj?
    ensures Alike(Unify(a, b), Unify(b, a))
  {
    MeetIsWf(a, b);
    AlikeRefl(Unify(a, b));
    hide Alike, UnifyDisjunction, Wf;
    assert Unify(a, b) == Unify(b, a);
  }

  lemma ScalarsCommute(a: Value, b: Value)
    requires Wf(a) && Wf(b) && !a.Disj? && !b.Disj? && !(a.Struct? && b.Struct?) && !(a.List? && b.List?)
    requires !a.Bottom? && !b.Bottom? && !a.Top? && !b.Top?
    ensures Alike(Unify(a, b), Unify(b, a))
  {
    if a.Bounded? && b.Bounded? { ClashesAgree(a.bounds + b.bounds, b.bounds + a.bounds); }
  }

  lemma {:induction false} StructsCommute(a: Value, b: Value)
    requires Wf(a) && Wf(b) && a.Struct? && b.Struct? && Agreeing(a, b)
    ensures Alike(Unify(a, b), Unify(b, a))
    decreases Size(a) + Size(b), 0
  {
    hide Unify, IsConcrete, ConcreteEqual, HasBottom, Alike;
    UnifyStructs(a, b);
    UnifyStructs(b, a);
    StructMeetUnique(a, b);
    forall n ensures AlikeOpt(Find(UnifyStruct(a, b).fields, n), Find(UnifyStruct(b, a).fields, n)) {
      StructMeetByName(a, b, n);
      StructMeetByName(b, a, n);
      var f, h := Find(a.fields, n), Find(b.fields, n);
      if f.Some? && h.Some? {
        FindSmaller(a.fields, n);
        FindSmaller(b.fields, n);
        AgreeingCommutes(f.value.val, h.value.val);
      } else if f.Some? {
        AlikeRefl(f.value.val);
      } else if h.Some? {
        AlikeRefl(h.value.val);
      }
      AlikeRefl(Bottom);
    }
    AlikeStructs(UnifyStruct(a, b), UnifyStruct(b, a));
  }

  lemma {:induction false} ListsCommute(a: Value, b: Value)
    requires Wf(a) && Wf(b) && a.List? && b.List? && Agreeing(a, b)
    ensures Alike(Unify(a, b), Unify(b, a))
    decreases Size(a) + Size(b), 0
  {
    hide IsConcrete, ConcreteEqual, HasBottom;
    if LengthsAgree(a, b) {
      var x, y := UnifyList(a, b), UnifyList(b, a);
      forall i | 0 <= i < |x.prefix| ensures Alike(x.prefix[i], y.prefix[i]) {
        ListMeetAt(a, b, i);
        ListMeetAt(b, a, i);
        ElemSmaller(a, i);
        ElemSmaller(b, i);
        AgreeingCommutes(ElemAt(a, i), ElemAt(b, i));
      }
      if x.tail.Open? { AgreeingCommutes(a.tail.elem, b.tail.elem); }
    }
  }

  // ----- The condition is needed -----

  /** At every depth disjunctions branch over values without further disjunctions. */
  predicate Shallow(v: Value)
  {
    match v
    case Disj(bs) => forall i | 0 <= i < |bs| :: DisjFree(bs[i].v)
    case Struct(fs, _) => forall i | 0 <= i < |fs| :: Shallow(fs[i].val)
    case List(p, t) => (forall i | 0 <= i < |p| :: Shallow(p[i])) && (t.Open? ==> Shallow(t.elem))
    case _ => true
  }

  lemma {:induction false} DisjFreeAgrees(a: Value, b: Value)
    requires DisjFree(a)
    ensures Agreeing(a, b)
    decreases Size(a) + Size(b)
  {
    if a.Struct? && b.Struct? {
      forall i, j | 0 <= i < |a.fields| && 0 <= j < |b.fields| && a.fields[i].name == b.fields[j].name
        ensures Agreeing(a.fields[i].val, b.fields[j].val)
      {
        FieldSmaller(a.fields, i);
        FieldSmaller(b.fields, j);
        DisjFreeAgrees(a.fields[i].val, b.fields[j].val);
      }
    } else if a.List? && b.List? {
      forall i: nat | HasElem(a, i) && HasElem(b, i) && i < Longest(a, b) ensures Agreeing(ElemAt(a, i), ElemAt(b, i)) {
        ElemSmaller(a, i);
        ElemSmaller(b, i);
        DisjFreeAgrees(ElemAt(a, i), ElemAt(b, i));
      }
      if a.tail.Open? && b.tail.Open? { DisjFreeAgrees(a.tail.elem, b.tail.elem); }
    }
  }

  lemma {:induction false} CommutesAgree(a: Value, b: Value)
    requires Wf(a) && Wf(b) && Shallow(a) && Shallow(b) && Alike(Unify(a, b), Unify(b, a))
    ensures Agreeing(a, b)
    decreases Size(a) + Size(b), 1
  {
    hide Alike, Unify, Wf, FirstsAgree;
    if a.Disj? && b.Disj? {
      BranchesAgree(a, b);
    } else if a.Struct? && b.Struct? {
      forall i, j | 0 <= i < |a.fields| && 0 <= j < |b.fields| && a.fields[i].name == b.fields[j].name
        ensures Agreeing(a.fields[i].val, b.fields[j].val)
      {
        FieldSmaller(a.fields, i);
        FieldSmaller(b.fields, j);
        FieldCommutes(a, b, i, j);
        CommutesAgree(a.fields[i].val, b.fields[j].val);
      }
    } else if a.List? && b.List? && LengthsAgree(a, b) {
      forall i: nat | HasElem(a, i) && HasElem(b, i) && i < Longest(a, b) ensures Agreeing(ElemAt(a, i), ElemAt(b, i)) {
        ElemSmaller(a, i);
        ElemSmaller(b, i);
        ElemCommutes(a, b, i);
        CommutesAgree(ElemAt(a, i), ElemAt(b, i));
      }
      if a.tail.Open? && b.tail.Open? {
        TailCommutes(a, b);
        CommutesAgree(a.tail.elem, b.tail.elem);
      }
    }
  }

  lemma BranchesAgree(a: Value, b: Value)
    requires Wf(a) && Wf(b) && Shallow(a) && Shallow(b) && Alike(Unify(a, b), Unify(b, a)) && a.Disj? && b.Disj?
    ensures Agreeing(a, b)
  {
    WfParts(a);
    WfParts(b);
    forall i, j | 0 <= i < |a.branches| && 0 <= j < |b.branches| ensures Agreeing(a.branches[i].v, b.branches[j].v) {
      DisjFreeAgrees(a.branches[i].v, b.branches[j].v);
    }
    hide Alike, Unify, Wf, FirstsAgree, Shallow, DisjFree;
    forall i, j | 0 <= i < |a.branches| && 0 <= j < |b.branches|
      ensures Alike(Unify(a.branches[i].v, b.branches[j].v), Unify(b.branches[j].v, a.branches[i].v))
    {
      AgreeingCommutes(a.branches[i].v, b.branches[j].v);
    }
    DisjunctionsCommute(a, b);
  }

  lemma FieldCommutes(a: Value, b: Value, i: nat, j: nat)
    requires Wf(a) && Wf(b) && Alike(Unify(a, b), Unify(b, a)) && a.Struct? && b.Struct?
    requires i < |a.fields| && j < |b.fields| && a.fields[i].name == b.fields[j].name
    ensures Wf(a.fields[i].val) && Wf(b.fields[j].val)
    ensures Alike(Unify(a.fields[i].val, b.fields[j].val), Unify(b.fields[j].val, a.fields[i].val))
  {
    var n := a.fields[i].name;
    FindAt(a.fields, i);
    FindAt(b.fields, j);
    hide Alike, Unify;
    UnifyStructs(a, b);
    UnifyStructs(b, a);
    MeetIsWf(a, b);
    MeetIsWf(b, a);
    AlikeAt(Unify(a, b), Unify(b, a), n);
    StructMeetByName(a, b, n);
    StructMeetByName(b, a, n);
  }

  lemma ElemCommutes(a: Value, b: Value, i: nat)
    requires Wf(a) && Wf(b) && Alike(Unify(a, b), Unify(b, a)) && a.List? && b.List? && LengthsAgree(a, b)
    requires HasElem(a, i) && HasElem(b, i) && i < Longest(a, b)
    ensures Wf(ElemAt(a, i)) && Wf(ElemAt(b, i))
    ensures Alike(Unify(ElemAt(a, i), ElemAt(b, i)), Unify(ElemAt(b, i), ElemAt(a, i)))
  {
    var x, y := UnifyList(a, b), UnifyList(b, a);
    assert Unify(a, b) == x && Unify(b, a) == y;
    ListMeetAt(a, b, i);
    ListMeetAt(b, a, i);
    hide Unify;
    assert Alike(x.prefix[i], y.prefix[i]);
  }

  lemma TailCommutes(a: Value, b: Value)
    requires Wf(a) && Wf(b) && Alike(Unify(a, b), Unify(b, a)) && a.List? && b.List? && LengthsAgree(a, b)
    requires a.tail.Open? && b.tail.Open?
    ensures Wf(a.tail.elem) && Wf(b.tail.elem)
    ensures Alike(Unify(a.tail.elem, b.tail.elem), Unify(b.tail.elem, a.tail.elem))
  {
    var x, y := UnifyList(a, b), UnifyList(b, a);
    assert Unify(a, b) == x && Unify(b, a) == y;
    hide Unify;
  }

  /** MAIN: on shallow values the order of the operands is irrelevant exactly where the firsts agree. */
  lemma CommutesIffAgreeing(a: Value, b: Value)
    requires Wf(a) && Wf(b) && Shallow(a) && Shallow(b)
    ensures Alike(Unify(a, b), Unify(b, a)) <==> Agreeing(a, b)
  {
    hide *;
    if Agreeing(a, b) { AgreeingCommutes(a, b); }
    if Alike(Unify(a, b), Unify(b, a)) { CommutesAgree(a, b); }
  }

  // ----- Two cases in which it always holds -----

  /** MAIN: data meets every schema alike in both orders. */
  lemma DataInEitherOrder(d: Value, g: Ground, s: Value)
    requires Lifts(d, g) && Wf(s)
    ensures Alike(Unify(d, s), Unify(s, d))
  {
    hide *;
    LiftedIsWf(d, g);
    DisjFreeAgrees(d, s);
    AgreeingCommutes(d, s);
  }

  /** No disjunction; every struct is open and requires all its fields. */
  predicate Regular(v: Value)
  {
    match v
    case Disj(_) => false
    case Struct(fs, closed) => !closed && forall i | 0 <= i < |fs| :: !fs[i].optional && Regular(fs[i].val)
    case List(p, t) => (forall i | 0 <= i < |p| :: Regular(p[i])) && (t.Open? ==> Regular(t.elem))
    case _ => true
  }

  /** At every depth disjunctions branch over regular values; elsewhere structs may be closed and fields optional. */
  predicate RegularChoices(v: Value)
  {
    match v
    case Disj(bs) => forall i | 0 <= i < |bs| :: Regular(bs[i].v)
    case Struct(fs, _) => forall i | 0 <= i < |fs| :: RegularChoices(fs[i].val)
    case List(p, t) => (forall i | 0 <= i < |p| :: RegularChoices(p[i])) && (t.Open? ==> RegularChoices(t.elem))
    case _ => true
  }

  lemma {:induction false} RegularMeet(a: Value, b: Value)
    requires Regular(a) && Regular(b)
    ensures Regular(Unify(a, b))
    decreases Size(a) + Size(b), 1
  {
    if a.Struct? && b.Struct? {
      RegularStructs(a, b);
    } else if a.List? && b.List? && LengthsAgree(a, b) {
      var out := UnifyList(a, b);
      forall i | 0 <= i < |out.prefix| ensures Regular(out.prefix[i]) {
        ListMeetAt(a, b, i);
        ElemSmaller(a, i);
        ElemSmaller(b, i);
        RegularMeet(ElemAt(a, i), ElemAt(b, i));
      }
      if out.tail.Open? { RegularMeet(a.tail.elem, b.tail.elem); }
    } else if a.Bottom? || b.Bottom? || a.Top? || b.Top? || a.Thunk? || b.Thunk? {
    } else {
      assert Unify(a, b).Bottom? || Unify(a, b).Con? || Unify(a, b).Atom? || Unify(a, b).Bounded?;
    }
  }

  lemma {:induction false} RegularStructs(a: Value, b: Value)
    requires Regular(a) && Regular(b) && a.Struct? && b.Struct?
    ensures Regular(Unify(a, b))
    decreases Size(a) + Size(b), 0
  {
    hide Unify, UnifyStruct, HasField;
    UnifyStructs(a, b);
    UnifyStructIs(a, b);
    StructMeetParts(a, b);
    var out := UnifyStruct(a, b).fields;
    forall i | 0 <= i < |out| ensures !out[i].optional && Regular(out[i].val) {
      if i < |a.fields| {
        var f := a.fields[i];
        if HasField(b.fields, f.name) {
          var k := IndexOf(b.fields, f.name);
          FieldSmaller(a.fields, i);
          FieldSmaller(b.fields, k);
          RegularMeet(f.val, b.fields[k].val);
        }
      } else {
        var k := i - |a.fields|;
        ExtraFrom(a.fields, a.closed, b.fields, k);
        assert out[|a.fields| + k] == ExtraFields(a.fields, a.closed, b.fields)[k];
      }
    }
  }

  lemma {:induction false} RegularFlags(a: Value, b: Value)
    requires Regular(a) && Regular(b)
    ensures FlagsAgree(a, b)
    decreases a
  {
    match a
    case Struct(fs, _) =>
      if b.Struct? {
        forall i | 0 <= i < |fs| && HasField(b.fields, fs[i].name)
          ensures FlagsAgree(fs[i].val, b.fields[IndexOf(b.fields, fs[i].name)].val)
        {
          RegularFlags(fs[i].val, b.fields[IndexOf(b.fields, fs[i].name)].val);
        }
      }
    case List(p, _) =>
      if b.List? {
        forall i | 0 <= i < |p| && i < |b.prefix| ensures FlagsAgree(p[i], b.prefix[i]) { RegularFlags(p[i], b.prefix[i]); }
      }
    case _ =>
  }

  lemma {:induction false} RegularIsDisjFree(v: Value)
    requires Regular(v)
    ensures DisjFree(v)
  {
    match v
    case Struct(fs, _) => forall i | 0 <= i < |fs| ensures DisjFree(fs[i].val) { RegularIsDisjFree(fs[i].val); }
    case List(p, t) =>
      forall i | 0 <= i < |p| ensures DisjFree(p[i]) { RegularIsDisjFree(p[i]); }
      if t.Open? { RegularIsDisjFree(t.elem); }
    case _ =>
  }

  lemma RegularSurvivor(d: Value, o: Value, k: nat)
    requires d.Disj? && o.Disj? && RegularChoices(d) && RegularChoices(o) && k < |Survivors(d, o)|
    ensures Regular(Survivors(d, o)[k].v)
  {
    hide Regular, Unify;
    SurvivorOrigin(d, o, k);
    var v := Survivors(d, o)[k].v;
    var i, j :| 0 <= i < |d.branches| && 0 <= j < |o.branches| && v == Unify(d.branches[i].v, o.branches[j].v);
    RegularMeet(d.branches[i].v, o.branches[j].v);
  }

  lemma {:induction false} RegularAgrees(a: Value, b: Value)
    requires RegularChoices(a) && RegularChoices(b)
    ensures Agreeing(a, b)
    decreases Size(a) + Size(b)
  {
    hide Regular, FlagsAgree, Unify, Survivors, SameConcrete;
    if a.Disj? && b.Disj? {
      forall i, j | 0 <= i < |a.branches| && 0 <= j < |b.branches| ensures Agreeing(a.branches[i].v, b.branches[j].v) {
        RegularIsDisjFree(a.branches[i].v);
        DisjFreeAgrees(a.branches[i].v, b.branches[j].v);
      }
      var xs, ys := Survivors(a, b), Survivors(b, a);
      forall i, j | 0 <= i < |xs| && 0 <= j < |ys| ensures FlagsAgree(xs[i].v, ys[j].v) {
        RegularSurvivor(a, b, i);
        RegularSurvivor(b, a, j);
        RegularFlags(xs[i].v, ys[j].v);
      }
    } else if a.Struct? && b.Struct? {
      forall i, j | 0 <= i < |a.fields| && 0 <= j < |b.fields| && a.fields[i].name == b.fields[j].name
        ensures Agreeing(a.fields[i].val, b.fields[j].val)
      {
        FieldSmaller(a.fields, i);
        FieldSmaller(b.fields, j);
        RegularAgrees(a.fields[i].val, b.fields[j].val);
      }
    } else if a.List? && b.List? {
      forall i: nat | HasElem(a, i) && HasElem(b, i) && i < Longest(a, b) ensures Agreeing(ElemAt(a, i), ElemAt(b, i)) {
        ElemSmaller(a, i);
        ElemSmaller(b, i);
        RegularAgrees(ElemAt(a, i), ElemAt(b, i));
      }
      if a.tail.Open? && b.tail.Open? { RegularAgrees(a.tail.elem, b.tail.elem); }
    }
  }

  /** MAIN: where all branches are regular, struct-free ones among them, the order of the operands does not matter. */
  lemma RegularChoicesCommute(a: Value, b: Value)
    requires Wf(a) && Wf(b) && RegularChoices(a) && RegularChoices(b)
    ensures Alike(Unify(a, b), Unify(b, a))
  {
    hide *;
    RegularAgrees(a, b);
    AgreeingCommutes(a, b);
  }

  // ----- The smallest failure -----

  function OnlyA(v: Value, closed: bool): Value
  {
    Struct([Field("a", v, false)], closed)
  }

  const ONE := Con(Int(1))
  const INT := Atom(AkInt)

  /** {a: int} | {a: 1}, and close({a: int}) | {a: 1}. */
  const LOOSE := Disj([Branch(OnlyA(INT, false), Maybe), Branch(OnlyA(ONE, false), Maybe)])
  const TIGHT := Disj([Branch(OnlyA(INT, true), Maybe), Branch(OnlyA(ONE, false), Maybe)])

  lemma OnlyAField(x: Value, y: Value, closed: bool)
    ensures var of := [Field("a", y, false)];
      MeetField(Field("a", x, false), of, closed) == Field("a", Unify(x, y), false)
  {
    hide Unify;
    var of := [Field("a", y, false)];
    assert of[0].name == "a";
    assert HasField(of, "a") && IndexOf(of, "a") == 0;
  }

  lemma OnlyANoExtra(x: Value, y: Value, closed: bool)
    ensures ExtraFields([Field("a", x, false)], closed, [Field("a", y, false)]) == []
  {
    var vf, of := [Field("a", x, false)], [Field("a", y, false)];
    assert vf[0].name == "a" && HasField(vf, "a") && of[..0] == [];
  }

  lemma OnlyAMeet(x: Value, xc: bool, y: Value, yc: bool)
    ensures Unify(OnlyA(x, xc), OnlyA(y, yc)) == OnlyA(Unify(x, y), xc || yc)
  {
    var v, o := OnlyA(x, xc), OnlyA(y, yc);
    OnlyAFields(v, o, x, y);
    hide *;
    UnifyStructs(v, o);
  }

  lemma OnlyAFields(v: Value, o: Value, x: Value, y: Value)
    requires v.Struct? && o.Struct? && v.fields == [Field("a", x, false)] && o.fields == [Field("a", y, false)]
    ensures UnifyStruct(v, o) == OnlyA(Unify(x, y), v.closed || o.closed)
  {
    hide Unify, UnifyStruct, MeetFields, MeetField, ExtraFields;
    UnifyStructIs(v, o);
    StructMeetParts(v, o);
    OnlyAField(x, y, o.closed);
    OnlyANoExtra(x, y, v.closed);
    var out := UnifyStruct(v, o).fields;
    assert |out| == 1 && out[0] == MeetField(v.fields[0], o.fields, o.closed);
  }

  lemma CrossFour(ds: seq<Branch>, os: seq<Branch>)
    requires |ds| == 2 && |os| == 2 && forall b <- ds + os :: b.mode.Maybe?
    ensures MeetCross(ds, os) ==
            [Branch(Unify(ds[0].v, os[0].v), Maybe), Branch(Unify(ds[0].v, os[1].v), Maybe),
             Branch(Unify(ds[1].v, os[0].v), Maybe), Branch(Unify(ds[1].v, os[1].v), Maybe)]
  {
    hide Unify;
    assert ds[0] in ds + os && ds[1] in ds + os && os[0] in ds + os && os[1] in ds + os;
    assert ds[..1][..0] == [] && os[..1][..0] == [];
    RowAt(ds[0], os, 0);
    RowAt(ds[0], os, 1);
    RowAt(ds[1], os, 0);
    RowAt(ds[1], os, 1);
    assert MeetCross(ds[..1], os) == [] + MeetRow(ds[0], os);
    assert MeetCross(ds, os) == MeetCross(ds[..1], os) + MeetRow(ds[1], os);
  }

  lemma {:induction false} AllClean(bs: seq<Branch>)
    requires forall i | 0 <= i < |bs| :: !HasBottomLeaf(bs[i].v)
    ensures CleanOf(bs) == bs
  {
    hide HasBottomLeaf;
    if bs != [] {
      AllClean(bs[..|bs| - 1]);
      Snoc(bs);
    }
  }

  /** The first of three equal structs is the one that stays. */
  lemma DedupeFour(bs: seq<Branch>)
    requires |bs| == 4 && forall b <- bs :: b.mode.Maybe?
    requires !IsConcrete(bs[0].v) && SameConcrete(bs[1].v, bs[2].v) && SameConcrete(bs[1].v, bs[3].v)
    ensures Dedupe(bs) == bs[..2]
  {
    hide IsConcrete, ConcreteEqual;
    assert bs[1] in bs && bs[2] in bs && bs[3] in bs;
    assert bs[..3][..2] == bs[..2] && bs[..2][..1] == bs[..1] && bs[..1][..0] == [];
    assert Dedupe(bs[..1]) == [bs[0]];
    assert Dedupe(bs[..2]) == Absorb([bs[0]], bs[1]) == [bs[0], bs[1]];
    FirstIsSecond([bs[0], bs[1]], bs[2].v);
    FirstIsSecond([bs[0], bs[1]], bs[3].v);
    assert Dedupe(bs[..3]) == Absorb([bs[0], bs[1]], bs[2]) == [bs[0], bs[1]];
    assert Dedupe(bs) == Absorb([bs[0], bs[1]], bs[3]) == [bs[0], bs[1]];
  }

  lemma FirstIsSecond(bs: seq<Branch>, v: Value)
    requires |bs| == 2 && !IsConcrete(bs[0].v) && SameConcrete(bs[1].v, v)
    ensures FirstSame(bs, v) == Some(1)
  {
    assert bs[..1][..0] == [];
    assert FirstSame(bs[..1], v) == None;
  }

  lemma FourClean(d: Value, o: Value, first: bool, second: bool, third: bool)
    requires d.Disj? && o.Disj?
    requires MeetCross(d.branches, o.branches) ==
      [Branch(OnlyA(INT, first), Maybe), Branch(OnlyA(ONE, second), Maybe),
       Branch(OnlyA(ONE, third), Maybe), Branch(OnlyA(ONE, false), Maybe)]
    ensures MeetBranches(d, o) == MeetCross(d.branches, o.branches)
  {
    hide Unify, MeetCross;
    AllClean(MeetCross(d.branches, o.branches));
  }

  /** What the meet of two such choices is: the closedness of {a: 1} is that of its first occurrence. */
  lemma ChoiceMeet(d: Value, o: Value, first: bool, second: bool, third: bool)
    requires d.Disj? && o.Disj? && |d.branches| == 2 && |o.branches| == 2
    requires forall b <- d.branches + o.branches :: b.mode.Maybe?
    requires Unify(d.branches[0].v, o.branches[0].v) == OnlyA(INT, first)
    requires Unify(d.branches[0].v, o.branches[1].v) == OnlyA(ONE, second)
    requires Unify(d.branches[1].v, o.branches[0].v) == OnlyA(ONE, third)
    requires Unify(d.branches[1].v, o.branches[1].v) == OnlyA(ONE, false)
    ensures Unify(d, o) == Disj([Branch(OnlyA(INT, first), Not), Branch(OnlyA(ONE, second), Not)])
  {
    var bs := [Branch(OnlyA(INT, first), Maybe), Branch(OnlyA(ONE, second), Maybe),
               Branch(OnlyA(ONE, third), Maybe), Branch(OnlyA(ONE, false), Maybe)];
    hide *;
    CrossFour(d.branches, o.branches);
    FourClean(d, o, first, second, third);
    OnesAreSame(second, third);
    OnesAreSame(second, false);
    OnesAreSame(first, false);
    DedupeFour(bs);
    NoOperandDefault(d, o);
    UnifyOfTwo(d, o);
    RemarkedTwo(bs[..2]);
  }

  lemma NoOperandDefault(d: Value, o: Value)
    requires d.Disj? && o.Disj? && |d.branches| == 2 && |o.branches| == 2
    requires forall b <- d.branches + o.branches :: b.mode.Maybe?
    ensures MeetDefault(d, o).None?
  {
    hide Unify;
    forall i | 0 <= i < 2 ensures d.branches[i].mode.Maybe? && o.branches[i].mode.Maybe? {
      assert d.branches[i] in d.branches + o.branches && o.branches[i] in d.branches + o.branches;
    }
  }

  lemma RemarkedTwo(bs: seq<Branch>)
    requires |bs| == 2
    ensures Remark(bs, None) == [Branch(bs[0].v, Not), Branch(bs[1].v, Not)]
  {
  }

  lemma UnifyOfTwo(d: Value, o: Value)
    requires d.Disj? && o.Disj? && |Dedupe(MeetBranches(d, o))| == 2 && MeetDefault(d, o).None?
    ensures Unify(d, o) == Disj(Remark(Dedupe(MeetBranches(d, o)), None))
  {
    hide MeetBranches, Dedupe, MeetDefault, Remark;
    assert Unify(d, o) == UnifyDisjunction(d, o);
  }

  lemma OnesAreSame(x: bool, y: bool)
    ensures SameConcrete(OnlyA(ONE, x), OnlyA(ONE, y)) && !IsConcrete(OnlyA(INT, x))
  {
    var v, o := OnlyA(ONE, x), OnlyA(ONE, y);
    assert v.fields[0].name == "a" && o.fields[0].name == "a";
    assert HasField(o.fields, "a") && IndexOf(o.fields, "a") == 0;
    assert !IsConcrete(OnlyA(INT, x).fields[0].val);
  }

  lemma OnlyAMember(g: Ground, v: Value, closed: bool)
    requires g == GStruct(map["a" := GScalar(Int(1)), "b" := GScalar(Int(1))]) && (v == INT || v == ONE)
    ensures Member(g, OnlyA(v, closed)) <==> !closed
  {
    var w := OnlyA(v, closed);
    assert "b" in g.m && !HasField(w.fields, "b");
    assert w.fields[0].name == "a";
    assert Member(g.m["a"], v);
  }

  /**
    LOOSE & TIGHT admits {a: 1, b: 1}, as both operands do; TIGHT & LOOSE does not. Which of two equal
    structs is kept depends on the order, and one of them is closed.
   */
  lemma StructChoicesDoNotCommute(g: Ground)
    requires g == GStruct(map["a" := GScalar(Int(1)), "b" := GScalar(Int(1))])
    ensures Wf(LOOSE) && Wf(TIGHT) && Member(g, LOOSE) && Member(g, TIGHT)
    ensures Member(g, Unify(LOOSE, TIGHT)) && !Member(g, Unify(TIGHT, LOOSE))
    ensures !Agreeing(LOOSE, TIGHT)
  {
    LooseAndTightDisagree();
    hide Unify, Wf, Member;
    OnlyAWf();
    OnlyAMember(g, INT, true);
    OnlyAMember(g, ONE, true);
    OnlyAMember(g, ONE, false);
    MeetsOfTwo();
    MemberOfBranch(g, LOOSE, 1);
    MemberOfBranch(g, TIGHT, 1);
    MemberOfBranch(g, Unify(LOOSE, TIGHT), 1);
    MemberOfNone(g, Unify(TIGHT, LOOSE));
  }

  lemma MemberOfBranch(g: Ground, v: Value, i: nat)
    requires v.Disj? && i < |v.branches| && Member(g, v.branches[i].v)
    ensures Member(g, v)
  {
  }

  lemma MemberOfNone(g: Ground, v: Value)
    requires v.Disj? && forall i | 0 <= i < |v.branches| :: !Member(g, v.branches[i].v)
    ensures !Member(g, v)
  {
  }

  lemma LooseAndTightDisagree()
    ensures !Agreeing(LOOSE, TIGHT)
  {
    hide Unify, Agreeing, Alike, Offered, Wf;
    OnlyAWf();
    MeetsOfTwo();
    TightIsNotOffered(Unify(LOOSE, TIGHT).branches);
    if Agreeing(LOOSE, TIGHT) {
      AgreeingCommutes(LOOSE, TIGHT);
      LastOffered(Unify(LOOSE, TIGHT), Unify(TIGHT, LOOSE));
    }
  }

  lemma LastOffered(a: Value, b: Value)
    requires a.Disj? && b.Disj? && b.branches != [] && Alike(a, b)
    ensures Offered(a.branches, b.branches[|b.branches| - 1].v)
  {
    hide Tally, Offered;
  }

  lemma TightIsNotOffered(bs: seq<Branch>)
    requires |bs| == 2 && bs[0].v == OnlyA(INT, true) && bs[1].v == OnlyA(ONE, false)
    ensures !Offered(bs, OnlyA(ONE, true))
  {
    var v := OnlyA(ONE, true);
    assert v.fields[0].name == "a" && Find(v.fields, "a") == Some(v.fields[0]);
    var w := bs[0].v;
    assert w.fields[0].name == "a" && !Alike(w.fields[0].val, Find(v.fields, "a").value.val);
    assert !Alike(w, v) && !Alike(bs[1].v, v);
  }

  lemma OnlyAWf()
    ensures Wf(LOOSE) && Wf(TIGHT)
  {
  }

  lemma MeetsOfTwo()
    ensures Unify(LOOSE, TIGHT) == Disj([Branch(OnlyA(INT, true), Not), Branch(OnlyA(ONE, false), Not)])
    ensures Unify(TIGHT, LOOSE) == Disj([Branch(OnlyA(INT, true), Not), Branch(OnlyA(ONE, true), Not)])
  {
    hide Unify;
    OnlyAMeet(INT, false, INT, true);
    OnlyAMeet(INT, false, ONE, false);
    OnlyAMeet(ONE, false, INT, true);
    OnlyAMeet(ONE, false, ONE, false);
    OnlyAMeet(INT, true, INT, false);
    OnlyAMeet(INT, true, ONE, false);
    OnlyAMeet(ONE, false, INT, false);
    AtomMeets();
    ChoiceMeet(LOOSE, TIGHT, true, false, true);
    ChoiceMeet(TIGHT, LOOSE, true, true, false);
  }

  lemma AtomMeets()
    ensures Unify(INT, INT) == INT && Unify(INT, ONE) == ONE && Unify(ONE, INT) == ONE && Unify(ONE, ONE) == ONE
  {
  }

}
