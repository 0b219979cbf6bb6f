/**
  The meet of two values, as a specification: the recursion of cue/cuelite/unify.go without its
  accumulating loops. Module MeetLoops has the loops, proved against these functions.
 */
module Meet {

  import opened Wrappers
  import opened Values

  function Unify(v: Value, o: Value): Value
    decreases Size(v) + Size(o), 3
  {
    if v.Bottom? then v
    else if o.Bottom? then o
    else if v.Top? then o
    else if o.Top? then v
    else if v.Thunk? || o.Thunk? then Bottom  // outside a force pass there is no scope to resolve it
    else if v.Disj? then UnifyDisjunction(v, o)
    else if o.Disj? then UnifyDisjunction(o, v)
    else match v
      case Con(_) => UnifyConcrete(v, o)
      case Atom(_) => UnifyAtomLeft(v, o)
      case Bounded(_, _) => UnifyBoundLeft(v, o)
      case Struct(_, _) => UnifyStruct(v, o)
      case List(_, _) => UnifyList(v, o)
  }

  // ----- Scalars, types, bounds -----

  /** Null needs no case of its own: it equals only itself and satisfies no type. */
  function UnifyConcrete(v: Value, o: Value): Value
    requires v.Con?
  {
    match o
    case Con(t) => if v.s == t then v else Bottom
    case Atom(a) => if SatisfiesAtom(v.s, a) then v else Bottom
    case Bounded(a, bs) => if SatisfiesAtom(v.s, a) && SatisfiesBounds(v.s, bs) then v else Bottom
    case _ => Bottom
  }

  function UnifyAtomLeft(v: Value, o: Value): Value
    requires v.Atom?
  {
    match o
    case Con(_) => UnifyConcrete(o, v)
    case Atom(a) => (match MeetAtom(v.atom, a) case None => Bottom case Some(k) => Atom(k))
    case Bounded(a, bs) => (match MeetAtom(v.atom, a) case None => Bottom case Some(k) => Bounded(k, bs))
    case _ => Bottom
  }

  function UnifyBoundLeft(v: Value, o: Value): Value
    requires v.Bounded?
  {
    match o
    case Con(_) => UnifyConcrete(o, v)
    case Atom(a) => (match MeetAtom(v.base, a) case None => Bottom case Some(k) => Bounded(k, v.bounds))
    case Bounded(a, bs) =>
      (match MeetAtom(v.base, a)
       case None => Bottom
       case Some(k) => if IncompatibleBounds(v.bounds + bs) then Bottom else Bounded(k, v.bounds + bs))
    case _ => Bottom
  }

  // ----- Structs -----

  function UnifyStruct(v: Value, o: Value): Value
    requires v.Struct?
    decreases Size(v) + Size(o), 2
  {
    if !o.Struct? then Bottom
    else
      Struct(MeetFields(v.fields, o.fields, o.closed) + ExtraFields(v.fields, v.closed, o.fields),
             v.closed || o.closed)
  }

  /** What each field of the left struct becomes, in its order. */
  function MeetFields(vf: seq<Field>, of: seq<Field>, oClosed: bool): (r: seq<Field>)
    ensures |r| == |vf|
    decreases SizeFields(vf) + SizeFields(of)
  {
    if vf == [] then []
    else
      var n := |vf| - 1;
      MeetFields(vf[..n], of, oClosed) + [MeetField(vf[n], of, oClosed)]
  }

  function MeetField(fv: Field, of: seq<Field>, oClosed: bool): Field
    decreases Size(fv.val) + SizeFields(of), 4
  {
    if HasField(of, fv.name) then
      var k := IndexOf(of, fv.name);
      FieldSmaller(of, k);
      Field(fv.name, Unify(fv.val, of[k].val), fv.optional && of[k].optional)
    else if oClosed then Field(fv.name, Bottom, false)
    else fv
  }

  /** The right struct's fields the left one does not declare: carried, or rejected if it is closed. */
  function ExtraFields(vf: seq<Field>, vClosed: bool, of: seq<Field>): seq<Field>
  {
    if of == [] then []
    else
      var n := |of| - 1;
      ExtraFields(vf, vClosed, of[..n]) +
      (if HasField(vf, of[n].name) then []
       else if vClosed then [Field(of[n].name, Bottom, false)]
       else [of[n]])
  }

  // ----- Lists -----

  /** A closed list cannot meet a longer prefix. */
  predicate LengthsAgree(v: Value, o: Value)
    requires v.List? && o.List?
  {
    (v.tail.Closed? ==> |o.prefix| <= |v.prefix|) && (o.tail.Closed? ==> |v.prefix| <= |o.prefix|)
  }

  predicate HasElem(l: Value, i: nat)
    requires l.List?
  {
    i < |l.prefix| || l.tail.Open?
  }

  function ElemAt(l: Value, i: nat): Value
    requires l.List? && HasElem(l, i)
  {
    if i < |l.prefix| then l.prefix[i] else l.tail.elem
  }

  lemma ElemSmaller(l: Value, i: nat)
    requires l.List? && HasElem(l, i)
    ensures Size(ElemAt(l, i)) < Size(l)
  {
    if i < |l.prefix| { ValueSmaller(l.prefix, i); }
  }

  function Longest(v: Value, o: Value): nat
    requires v.List? && o.List?
  {
    if |v.prefix| < |o.prefix| then |o.prefix| else |v.prefix|
  }

  function UnifyList(v: Value, o: Value): Value
    requires v.List?
    decreases Size(v) + Size(o), 2
  {
    if !o.List? || !LengthsAgree(v, o) then Bottom
    else
      List(MeetElems(v, o, Longest(v, o)),
           if v.tail.Open? && o.tail.Open? then Open(Unify(v.tail.elem, o.tail.elem)) else Closed)
  }

  /** The meets of the first n element constraints. Neither list can lack one of them. */
  function MeetElems(v: Value, o: Value, n: nat): (r: seq<Value>)
    requires v.List? && o.List? && LengthsAgree(v, o) && n <= Longest(v, o)
    ensures |r| == n
    decreases Size(v) + Size(o), 1, n
  {
    if n == 0 then []
    else
      ElemSmaller(v, n - 1);
      ElemSmaller(o, n - 1);
      MeetElems(v, o, n - 1) + [Unify(ElemAt(v, n - 1), ElemAt(o, n - 1))]
  }

  // ----- Disjunctions -----

  function BranchesOf(v: Value): seq<Branch>
  {
    if v.Disj? then v.branches else [Branch(v, Maybe)]
  }

  function CombineMode(a: DefaultMode, b: DefaultMode): DefaultMode
  {
    if a.Is? || b.Is? then Is else if a.Not? || b.Not? then Not else Maybe
  }

  function UnifyDisjunction(d: Value, o: Value): Value
    requires d.Disj?
    decreases Size(d) + Size(o), 2
  {
    var met := MeetBranches(d, o);
    if met == [] then Bottom
    else
      var survivors := Dedupe(met);
      if |survivors| == 1 then survivors[0].v
      else Disj(Remark(survivors, MeetDefault(d, o)))
  }

  /** Clean meets decide the disjunction; meets with a buried bottom are kept only if none is clean. */
  function MeetBranches(d: Value, o: Value): seq<Branch>
    requires d.Disj?
    decreases Size(d) + Size(o), 1
  {
    BranchesSize(o);
    var cross := MeetCross(d.branches, BranchesOf(o));
    var clean := CleanOf(cross);
    if clean != [] then clean else DirtyOf(cross)
  }

  lemma BranchesSize(o: Value)
    ensures SizeBranches(BranchesOf(o)) <= 1 + Size(o)
  {
    if !o.Disj? {
      assert BranchesOf(o)[..0] == [];
    }
  }

  function MeetCross(ds: seq<Branch>, os: seq<Branch>): seq<Branch>
    decreases SizeBranches(ds) + SizeBranches(os), 0
  {
    if ds == [] then []
    else
      var n := |ds| - 1;
      MeetCross(ds[..n], os) + MeetRow(ds[n], os)
  }

  function MeetRow(d: Branch, os: seq<Branch>): (r: seq<Branch>)
    ensures |r| == |os|
    decreases Size(d.v) + SizeBranches(os), 4
  {
    if os == [] then []
    else
      var n := |os| - 1;
      BranchSmaller(os, n);
      MeetRow(d, os[..n]) + [Branch(Unify(d.v, os[n].v), CombineMode(d.mode, os[n].mode))]
  }

  /** A bottom anywhere a meet can bury one, a list tail included; a disjunction counts as sound. */
  predicate HasBottomLeaf(v: Value)
  {
    match v
    case Bottom => true
    case Struct(fs, _) => exists i | 0 <= i < |fs| :: HasBottomLeaf(fs[i].val)
    case List(p, t) => (exists i | 0 <= i < |p| :: HasBottomLeaf(p[i])) || (t.Open? && HasBottomLeaf(t.elem))
    case _ => false
  }

  function CleanOf(bs: seq<Branch>): seq<Branch>
  {
    if bs == [] then []
    else
      var n := |bs| - 1;
      CleanOf(bs[..n]) + (if HasBottomLeaf(bs[n].v) then [] else [bs[n]])
  }

  function DirtyOf(bs: seq<Branch>): seq<Branch>
  {
    if bs == [] then []
    else
      var n := |bs| - 1;
      DirtyOf(bs[..n]) + (if !bs[n].v.Bottom? && HasBottomLeaf(bs[n].v) then [bs[n]] else [])
  }

  /** Equality of concrete values: closedness and optionality are not compared. */
  predicate ConcreteEqual(a: Value, b: Value)
    decreases a
  {
    match a
    case Con(s) => b.Con? && s == b.s
    case List(p, t) =>
      b.List? && t.Closed? && b.tail.Closed? && |p| == |b.prefix| &&
      forall i | 0 <= i < |p| :: ConcreteEqual(p[i], b.prefix[i])
    case Struct(fs, _) =>
      b.Struct? && |fs| == |b.fields| &&
      forall i | 0 <= i < |fs| ::
        HasField(b.fields, fs[i].name) && ConcreteEqual(fs[i].val, b.fields[IndexOf(b.fields, fs[i].name)].val)
    case _ => false
  }

  predicate SameConcrete(a: Value, b: Value)
  {
    IsConcrete(a) && IsConcrete(b) && ConcreteEqual(a, b)
  }

  /** The first earlier branch an equal later one folds into. */
  function FirstSame(bs: seq<Branch>, v: Value): (r: Option<nat>)
    ensures r.Some? ==> r.value < |bs| && SameConcrete(bs[r.value].v, v)
    ensures r.None? ==> forall i | 0 <= i < |bs| :: !SameConcrete(bs[i].v, v)
  {
    if bs == [] then None
    else
      var n := |bs| - 1;
      var r := FirstSame(bs[..n], v);
      if r.Some? then r else if SameConcrete(bs[n].v, v) then Some(n) else None
  }

  function Absorb(out: seq<Branch>, b: Branch): seq<Branch>
  {
    match FirstSame(out, b.v)
    case Some(i) => out[i := Branch(out[i].v, CombineMode(out[i].mode, b.mode))]
    case None => out + [b]
  }

  function Dedupe(bs: seq<Branch>): (r: seq<Branch>)
    ensures bs != [] ==> r != []
    ensures |r| <= |bs|
  {
    if bs == [] then [] else Absorb(Dedupe(bs[..|bs| - 1]), bs[|bs| - 1])
  }

  function Remark(bs: seq<Branch>, def: Option<Value>): (r: seq<Branch>)
    ensures |r| == |bs|
    ensures forall i | 0 <= i < |bs| ::
      r[i] == Branch(bs[i].v, if def.Some? && IsConcrete(bs[i].v) && ConcreteEqual(bs[i].v, def.value) then Is else Not)
  {
    if bs == [] then []
    else
      var n := |bs| - 1;
      Remark(bs[..n], def) +
      [Branch(bs[n].v, if def.Some? && IsConcrete(bs[n].v) && ConcreteEqual(bs[n].v, def.value) then Is else Not)]
  }

  function OperandDefault(v: Value): (r: Option<Value>)
    ensures r.Some? ==> Size(r.value) < Size(v)
  {
    if !v.Disj? then None
    else
      match DefaultIndex(v.branches)
      case None => None
      case Some(k) => BranchSmaller(v.branches, k); Some(v.branches[k].v)
  }

  /** The default of the meet: each operand's default survives if it does not conflict with the other operand. */
  function MeetDefault(d: Value, o: Value): Option<Value>
    requires d.Disj?
    decreases Size(d) + Size(o), 1
  {
    var dd := OperandDefault(d);
    var od := OperandDefault(o);
    var dLives := dd.Some? && !Unify(dd.value, o).Bottom?;
    var oLives := od.Some? && !Unify(od.value, d).Bottom?;
    if dLives && oLives then ConcreteOrNone(Unify(dd.value, od.value))
    else if dLives then ConcreteOrNone(Unify(dd.value, o))
    else if oLives then ConcreteOrNone(Unify(od.value, d))
    else None
  }

  function ConcreteOrNone(v: Value): Option<Value>
  {
    if IsConcrete(v) then Some(v) else None
  }

}
