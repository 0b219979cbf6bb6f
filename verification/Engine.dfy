/**
  The meet the evaluator really uses. A meet of structs first forces their deferred fields, forcing
  evaluates expressions, and an expression may meet structs again. The recursion is cut at a depth: every
  run that ends stays within some depth, and what is proved holds at all depths.
 */
module Engine {

  import opened Wrappers
  import opened Values
  import opened Meet
  import opened MeetFacts
  import opened Thunks
  import opened Eval
  import opened EvalLaws

  type Meeting = (Value, Value) -> Value

  // ----- One level of the meet -----

  function FieldBy(rec: Meeting, f: Field, of: seq<Field>, oClosed: bool): Field
  {
    if HasField(of, f.name) then
      var h := of[IndexOf(of, f.name)];
      Field(f.name, rec(f.val, h.val), f.optional && h.optional)
    else if oClosed then Field(f.name, Bottom, false)
    else f
  }

  function FieldsBy(rec: Meeting, vf: seq<Field>, of: seq<Field>, oClosed: bool): seq<Field>
  {
    seq(|vf|, i requires 0 <= i < |vf| => FieldBy(rec, vf[i], of, oClosed))
  }

  /** The two field passes, after the forcing. */
  function StructBy(rec: Meeting, v: Value, o: Value): Value
    requires v.Struct? && o.Struct?
  {
    Struct(FieldsBy(rec, v.fields, o.fields, o.closed) + ExtraFields(v.fields, v.closed, o.fields), v.closed || o.closed)
  }

  function ElemsBy(rec: Meeting, v: Value, o: Value): seq<Value>
    requires v.List? && o.List? && LengthsAgree(v, o)
  {
    seq(Longest(v, o), i requires 0 <= i < Longest(v, o) => rec(ElemAt(v, i), ElemAt(o, i)))
  }

  function ListBy(rec: Meeting, v: Value, o: Value): Value
    requires v.List? && o.List?
  {
    if !LengthsAgree(v, o) then Bottom
    else List(ElemsBy(rec, v, o), if v.tail.Open? && o.tail.Open? then Open(rec(v.tail.elem, o.tail.elem)) else Closed)
  }

  function RowBy(rec: Meeting, d: Branch, os: seq<Branch>): seq<Branch>
  {
    seq(|os|, j requires 0 <= j < |os| => Branch(rec(d.v, os[j].v), CombineMode(d.mode, os[j].mode)))
  }

  function CrossBy(rec: Meeting, ds: seq<Branch>, os: seq<Branch>): seq<Branch>
  {
    if ds == [] then [] else CrossBy(rec, ds[..|ds| - 1], os) + RowBy(rec, ds[|ds| - 1], os)
  }

  function PrunedBy(rec: Meeting, d: Value, o: Value): seq<Branch>
    requires d.Disj?
  {
    var cross := CrossBy(rec, d.branches, BranchesOf(o));
    if CleanOf(cross) != [] then CleanOf(cross) else DirtyOf(cross)
  }

  function DefaultBy(rec: Meeting, d: Value, o: Value): Option<Value>
    requires d.Disj?
  {
    var dd, od := OperandDefault(d), OperandDefault(o);
    var dLives := dd.Some? && !rec(dd.value, o).Bottom?;
    var oLives := od.Some? && !rec(od.value, d).Bottom?;
    if dLives && oLives then ConcreteOrNone(rec(dd.value, od.value))
    else if dLives then ConcreteOrNone(rec(dd.value, o))
    else if oLives then ConcreteOrNone(rec(od.value, d))
    else None
  }

  function DisjBy(rec: Meeting, d: Value, o: Value): Value
    requires d.Disj?
  {
    var met := PrunedBy(rec, d, o);
    var survivors := Dedupe(met);
    if met == [] then Bottom
    else if |survivors| == 1 then survivors[0].v
    else Disj(Remark(survivors, DefaultBy(rec, d, o)))
  }

  function PlainMeet(v: Value, o: Value): Value
  {
    match v
    case Con(_) => UnifyConcrete(v, o)
    case Atom(_) => UnifyAtomLeft(v, o)
    case Bounded(_, _) => UnifyBoundLeft(v, o)
    case _ => Bottom
  }

  /** One level of the meet with evaluation and all deeper meets left to `t`. */
  function Step(t: Tools, v: Value, o: Value): Value
  {
    if v.Bottom? then v
    else if o.Bottom? then o
    else if v.Top? then o
    else if o.Top? then v
    else if v.Thunk? || o.Thunk? then Bottom
    else if v.Disj? then DisjBy(t.meet, v, o)
    else if o.Disj? then DisjBy(t.meet, o, v)
    else if v.Struct? && o.Struct? then
      var (v1, o1) := Resolved(v, o, Forcing(t));
      StructBy(t.meet, v1, o1)
    else if v.List? && o.List? then ListBy(t.meet, v, o)
    else PlainMeet(v, o)
  }

  /** The evaluator with its own meet, to the given depth. */
  function ToolsAt(n: nat, regex: string -> Option<string -> bool>): Tools
  {
    if n == 0 then Tools((a: Value, b: Value) => Bottom, regex)
    else
      var t := ToolsAt(n - 1, regex);
      Tools((a: Value, b: Value) => Step(t, a, b), regex)
  }

  lemma EngineStep(n: nat, regex: string -> Option<string -> bool>, a: Value, b: Value)
    requires n > 0
    ensures ToolsAt(n, regex).meet(a, b) == Step(ToolsAt(n - 1, regex), a, b)
  {
  }

  /** The struct meet as it runs: the forcing loop, then both field passes. */
  method UnifyStructV(t: Tools, v: Value, o: Value) returns (r: Value)
    requires v.Struct? && o.Struct?
    ensures r == Step(t, v, o)
  {
    hide FieldBy, Resolved, Forcing;
    var v1, o1 := ForceThunkFixpoint(v, o, Forcing(t));
    var out: seq<Field> := [];
    var seen: set<string> := {};
    for i := 0 to |v1.fields|
      invariant out == FieldsBy(t.meet, v1.fields[..i], o1.fields, o1.closed)
      invariant seen == set f | f in v1.fields[..i] :: f.name
    {
      assert v1.fields[..i + 1] == v1.fields[..i] + [v1.fields[i]];
      out := out + [FieldBy(t.meet, v1.fields[i], o1.fields, o1.closed)];
      seen := seen + {v1.fields[i].name};
    }
    assert v1.fields[..|v1.fields|] == v1.fields;
    ghost var left := out;
    for j := 0 to |o1.fields|
      invariant out == left + ExtraFields(v1.fields, v1.closed, o1.fields[..j])
    {
      assert o1.fields[..j + 1][..j] == o1.fields[..j];
      var f := o1.fields[j];
      assert HasField(v1.fields, f.name) <==> f.name in seen;
      if f.name in seen { continue; }
      out := out + [if v1.closed then Field(f.name, Bottom, false) else f];
    }
    assert o1.fields[..|o1.fields|] == o1.fields;
    r := Struct(out, v1.closed || o1.closed);
  }

  // ----- Without thunks it is the plain meet -----

  /** No thunk at any depth, nested structs included. */
  predicate ThunkFree(v: Value)
  {
    match v
    case Thunk(_, _) => false
    case Struct(fs, _) => forall i | 0 <= i < |fs| :: ThunkFree(fs[i].val)
    case List(p, t) => (forall i | 0 <= i < |p| :: ThunkFree(p[i])) && (t.Open? ==> ThunkFree(t.elem))
    case Disj(bs) => forall i | 0 <= i < |bs| :: ThunkFree(bs[i].v)
    case _ => true
  }

  lemma {:induction false} FreeHasNoThunk(v: Value)
    requires ThunkFree(v)
    ensures !HasThunk(v)
  {
    match v
    case List(p, t) =>
      forall i | 0 <= i < |p| ensures !HasThunk(p[i]) { FreeHasNoThunk(p[i]); }
      if t.Open? { FreeHasNoThunk(t.elem); }
    case Disj(bs) => forall i | 0 <= i < |bs| ensures !HasThunk(bs[i].v) { FreeHasNoThunk(bs[i].v); }
    case _ =>
  }

  /** `rec` is the plain meet on thunk-free values that are together smaller than the bound. */
  ghost predicate Agrees(rec: Meeting, bound: nat)
  {
    forall a, b | ThunkFree(a) && ThunkFree(b) && Size(a) + Size(b) < bound :: rec(a, b) == Unify(a, b)
  }

  lemma AgreesAt(rec: Meeting, bound: nat, a: Value, b: Value)
    requires Agrees(rec, bound) && ThunkFree(a) && ThunkFree(b) && Size(a) + Size(b) < bound
    ensures rec(a, b) == Unify(a, b)
  {
    hide Unify, ThunkFree, Size;
  }

  lemma FieldAgrees(rec: Meeting, v: Value, o: Value, i: nat)
    requires v.Struct? && o.Struct? && ThunkFree(v) && ThunkFree(o) && Agrees(rec, Size(v) + Size(o)) && i < |v.fields|
    ensures FieldBy(rec, v.fields[i], o.fields, o.closed) == MeetField(v.fields[i], o.fields, o.closed)
  {
    hide Unify, ThunkFree, Agrees, Size;
    if HasField(o.fields, v.fields[i].name) {
      var k := IndexOf(o.fields, v.fields[i].name);
      FieldSizes(v, i);
      FieldSizes(o, k);
      AgreesAt(rec, Size(v) + Size(o), v.fields[i].val, o.fields[k].val);
    }
  }

  lemma FieldSizes(v: Value, i: nat)
    requires v.Struct? && i < |v.fields|
    ensures Size(v.fields[i].val) < Size(v) && (ThunkFree(v) ==> ThunkFree(v.fields[i].val))
  {
    FieldSmaller(v.fields, i);
  }

  lemma FieldsAgree(rec: Meeting, v: Value, o: Value)
    requires v.Struct? && o.Struct? && ThunkFree(v) && ThunkFree(o) && Agrees(rec, Size(v) + Size(o))
    ensures StructBy(rec, v, o) == UnifyStruct(v, o)
  {
    var left := MeetFields(v.fields, o.fields, o.closed);
    UnifyStructIs(v, o);
    hide *;
    forall i | 0 <= i < |v.fields| ensures FieldsBy(rec, v.fields, o.fields, o.closed)[i] == left[i] {
      FieldAgrees(rec, v, o, i);
      MeetFieldAt(v.fields, o.fields, o.closed, i);
      FieldsByAt(rec, v.fields, o.fields, o.closed, i);
    }
    FieldsByAt(rec, v.fields, o.fields, o.closed, 0);
    assert FieldsBy(rec, v.fields, o.fields, o.closed) == left;
    StructByIs(rec, v, o);
  }

  lemma FieldsByAt(rec: Meeting, vf: seq<Field>, of: seq<Field>, oClosed: bool, i: nat)
    ensures |FieldsBy(rec, vf, of, oClosed)| == |vf|
    ensures i < |vf| ==> FieldsBy(rec, vf, of, oClosed)[i] == FieldBy(rec, vf[i], of, oClosed)
  {
  }

  lemma StructByIs(rec: Meeting, v: Value, o: Value)
    requires v.Struct? && o.Struct?
    ensures StructBy(rec, v, o) ==
            Struct(FieldsBy(rec, v.fields, o.fields, o.closed) + ExtraFields(v.fields, v.closed, o.fields), v.closed || o.closed)
  {
  }

  lemma ElemsAgree(rec: Meeting, v: Value, o: Value)
    requires v.List? && o.List? && ThunkFree(v) && ThunkFree(o) && Agrees(rec, Size(v) + Size(o))
    ensures ListBy(rec, v, o) == UnifyList(v, o)
  {
    hide Unify;
    if LengthsAgree(v, o) {
      var n := Longest(v, o);
      forall i | 0 <= i < n ensures ElemsBy(rec, v, o)[i] == MeetElems(v, o, n)[i] {
        MeetElemAt(v, o, n, i);
        ElemSmaller(v, i);
        ElemSmaller(o, i);
        assert ThunkFree(ElemAt(v, i)) && ThunkFree(ElemAt(o, i));
      }
      assert ElemsBy(rec, v, o) == MeetElems(v, o, n);
    }
  }

  ghost predicate PairsAgree(rec: Meeting, ds: seq<Branch>, os: seq<Branch>)
  {
    forall d <- ds, o <- os :: rec(d.v, o.v) == Unify(d.v, o.v)
  }

  lemma RowAgrees(rec: Meeting, d: Branch, os: seq<Branch>)
    requires forall o <- os :: rec(d.v, o.v) == Unify(d.v, o.v)
    ensures RowBy(rec, d, os) == MeetRow(d, os)
  {
    hide Unify;
    forall j | 0 <= j < |os| ensures RowBy(rec, d, os)[j] == MeetRow(d, os)[j] { RowAt(d, os, j); }
  }

  lemma {:induction false} CrossAgrees(rec: Meeting, ds: seq<Branch>, os: seq<Branch>)
    requires PairsAgree(rec, ds, os)
    ensures CrossBy(rec, ds, os) == MeetCross(ds, os)
  {
    hide Unify, RowBy, MeetRow;
    if ds != [] {
      var n := |ds| - 1;
      assert ds[n] in ds && forall d <- ds[..n] :: d in ds;
      CrossAgrees(rec, ds[..n], os);
      RowAgrees(rec, ds[n], os);
    }
  }

  lemma BranchSizes(d: Value, i: nat)
    requires i < |BranchesOf(d)|
    ensures Size(BranchesOf(d)[i].v) <= Size(d) && (d.Disj? ==> Size(BranchesOf(d)[i].v) < Size(d))
    ensures ThunkFree(d) ==> ThunkFree(BranchesOf(d)[i].v)
  {
    if d.Disj? { BranchSmaller(d.branches, i); }
  }

  lemma DefaultAgrees(rec: Meeting, d: Value, o: Value)
    requires d.Disj? && ThunkFree(d) && ThunkFree(o) && Agrees(rec, Size(d) + Size(o))
    ensures DefaultBy(rec, d, o) == MeetDefault(d, o)
  {
    var dd, od := OperandDefault(d), OperandDefault(o);
    assert dd.Some? ==> ThunkFree(dd.value) && Size(dd.value) < Size(d);
    assert od.Some? ==> ThunkFree(od.value) && Size(od.value) < Size(o);
    hide Unify, ThunkFree, Size, OperandDefault, IsConcrete;
  }

  lemma BranchPair(rec: Meeting, d: Value, o: Value, x: Branch, y: Branch)
    requires d.Disj? && ThunkFree(d) && ThunkFree(o) && Agrees(rec, Size(d) + Size(o))
    requires x in BranchesOf(d) && y in BranchesOf(o)
    ensures rec(x.v, y.v) == Unify(x.v, y.v)
  {
    hide *;
    var i :| 0 <= i < |BranchesOf(d)| && BranchesOf(d)[i] == x;
    var j :| 0 <= j < |BranchesOf(o)| && BranchesOf(o)[j] == y;
    BranchSizes(d, i);
    BranchSizes(o, j);
    AgreesAt(rec, Size(d) + Size(o), x.v, y.v);
  }

  lemma BranchPairs(rec: Meeting, d: Value, o: Value)
    requires d.Disj? && ThunkFree(d) && ThunkFree(o) && Agrees(rec, Size(d) + Size(o))
    ensures PairsAgree(rec, d.branches, BranchesOf(o))
  {
    hide *;
    OwnBranches(d);
    forall x <- d.branches, y <- BranchesOf(o) ensures rec(x.v, y.v) == Unify(x.v, y.v) { BranchPair(rec, d, o, x, y); }
    PairsHold(rec, d.branches, BranchesOf(o));
  }

  lemma PairsHold(rec: Meeting, ds: seq<Branch>, os: seq<Branch>)
    requires forall d <- ds, o <- os :: rec(d.v, o.v) == Unify(d.v, o.v)
    ensures PairsAgree(rec, ds, os)
  {
    hide Unify;
  }

  lemma OwnBranches(d: Value)
    requires d.Disj?
    ensures BranchesOf(d) == d.branches
  {
  }

  lemma BranchesAgree(rec: Meeting, d: Value, o: Value)
    requires d.Disj? && ThunkFree(d) && ThunkFree(o) && Agrees(rec, Size(d) + Size(o))
    ensures DisjBy(rec, d, o) == UnifyDisjunction(d, o)
  {
    DefaultAgrees(rec, d, o);
    BranchPairs(rec, d, o);
    CrossAgrees(rec, d.branches, BranchesOf(o));
    hide Unify, Dedupe, CleanOf, DirtyOf, Remark, MeetDefault, DefaultBy, MeetCross, CrossBy, PairsAgree, Agrees, ThunkFree, Size, BranchesOf;
  }

  lemma NothingResolved(v: Value, o: Value, ev: Closures)
    requires v.Struct? && o.Struct? && !HasThunkField(v) && !HasThunkField(o)
    ensures Resolved(v, o, ev) == (v, o)
  {
    NothingToForce(v, ConcreteScope(v, o), false, ev);
    NothingToForce(o, ConcreteScope(v, o), false, ev);
  }

  lemma StepIsMeet(t: Tools, a: Value, b: Value)
    requires ThunkFree(a) && ThunkFree(b) && Agrees(t.meet, Size(a) + Size(b))
    ensures Step(t, a, b) == Unify(a, b)
  {
    hide Size, Agrees, StructBy, ListBy, DisjBy, Resolved, UnifyStruct, UnifyList, UnifyDisjunction, UnifyConcrete, UnifyAtomLeft, UnifyBoundLeft;
    if a.Bottom? || b.Bottom? || a.Top? || b.Top? {
    } else if a.Disj? {
      BranchesAgree(t.meet, a, b);
    } else if b.Disj? {
      assert Agrees(t.meet, Size(b) + Size(a));
      BranchesAgree(t.meet, b, a);
    } else if a.Struct? && b.Struct? {
      forall i | 0 <= i < |a.fields| ensures !HasThunk(a.fields[i].val) { FreeHasNoThunk(a.fields[i].val); }
      forall i | 0 <= i < |b.fields| ensures !HasThunk(b.fields[i].val) { FreeHasNoThunk(b.fields[i].val); }
      NothingResolved(a, b, Forcing(t));
      FieldsAgree(t.meet, a, b);
    } else if a.List? && b.List? {
      ElemsAgree(t.meet, a, b);
    } else {
      PlainIsMeet(a, b);
    }
  }

  lemma PlainIsMeet(a: Value, b: Value)
    requires !a.Bottom? && !b.Bottom? && !a.Top? && !b.Top? && !a.Thunk? && !b.Thunk? && !a.Disj? && !b.Disj?
    requires !(a.Struct? && b.Struct?) && !(a.List? && b.List?)
    ensures Unify(a, b) == PlainMeet(a, b)
  {
    hide UnifyConcrete, UnifyAtomLeft, UnifyBoundLeft;
  }

  /** MAIN: on values without thunks the evaluator's meet, deep enough, is the meet of module Meet. */
  lemma {:induction false} EngineIsMeet(n: nat, regex: string -> Option<string -> bool>, a: Value, b: Value)
    requires ThunkFree(a) && ThunkFree(b) && Size(a) + Size(b) < n
    ensures ToolsAt(n, regex).meet(a, b) == Unify(a, b)
  {
    hide Size, ThunkFree, Step, Unify;
    var t := ToolsAt(n - 1, regex);
    EngineStep(n, regex, a, b);
    forall x, y | ThunkFree(x) && ThunkFree(y) && Size(x) + Size(y) < Size(a) + Size(b) ensures t.meet(x, y) == Unify(x, y) {
      EngineIsMeet(n - 1, regex, x, y);
    }
    StepIsMeet(t, a, b);
  }

  // ----- It makes no thunk -----

  /** Whatever holds of every thunk of the operands holds of every thunk of the result. */
  ghost predicate Keeps(rec: Meeting, p: Value -> bool)
  {
    forall a, b | EachThunk(a, p) && EachThunk(b, p) :: EachThunk(rec(a, b), p)
  }

  lemma BottomHasNone(p: Value -> bool)
    ensures EachThunk(Bottom, p)
  {
  }

  lemma ListEach(l: Value, p: Value -> bool)
    requires l.List?
    ensures EachThunk(l, p) <==>
            (forall i | 0 <= i < |l.prefix| :: EachThunk(l.prefix[i], p)) && (l.tail.Open? ==> EachThunk(l.tail.elem, p))
  {
  }

  lemma DisjEach(bs: seq<Branch>, p: Value -> bool)
    ensures EachThunk(Disj(bs), p) <==> forall i | 0 <= i < |bs| :: EachThunk(bs[i].v, p)
  {
  }

  lemma ListKeeps(rec: Meeting, v: Value, o: Value, p: Value -> bool)
    requires v.List? && o.List? && EachThunk(v, p) && EachThunk(o, p) && Keeps(rec, p)
    ensures EachThunk(ListBy(rec, v, o), p)
  {
    hide EachThunk;
    BottomHasNone(p);
    if LengthsAgree(v, o) {
      var out := ListBy(rec, v, o);
      ListEach(v, p);
      ListEach(o, p);
      forall i | 0 <= i < |out.prefix| ensures EachThunk(out.prefix[i], p) {
        assert EachThunk(ElemAt(v, i), p) && EachThunk(ElemAt(o, i), p);
        assert out.prefix[i] == rec(ElemAt(v, i), ElemAt(o, i));
      }
      ListEach(out, p);
    }
  }

  /** A branch of the cross product is the meet of two branches. */
  lemma {:induction false} CrossByOrigin(rec: Meeting, ds: seq<Branch>, os: seq<Branch>, k: nat)
    requires k < |CrossBy(rec, ds, os)|
    ensures exists i, j :: 0 <= i < |ds| && 0 <= j < |os| && CrossBy(rec, ds, os)[k].v == rec(ds[i].v, os[j].v)
  {
    var n := |ds| - 1;
    var before := CrossBy(rec, ds[..n], os);
    if k < |before| {
      CrossByOrigin(rec, ds[..n], os, k);
      var i, j :| 0 <= i < n && 0 <= j < |os| && before[k].v == rec(ds[..n][i].v, os[j].v);
      assert ds[..n][i] == ds[i];
    } else {
      var j := k - |before|;
      assert CrossBy(rec, ds, os)[k] == RowBy(rec, ds[n], os)[j];
    }
  }

  /** The value is the meet of a branch of d and a branch of o, or of o itself. */
  ghost predicate IsBranchMeet(rec: Meeting, d: Value, o: Value, v: Value)
    requires d.Disj?
  {
    exists i, j :: 0 <= i < |d.branches| && 0 <= j < |BranchesOf(o)| && v == rec(d.branches[i].v, BranchesOf(o)[j].v)
  }

  lemma SurvivorByOrigin(rec: Meeting, d: Value, o: Value, k: nat)
    requires d.Disj? && k < |Dedupe(PrunedBy(rec, d, o))|
    ensures !Dedupe(PrunedBy(rec, d, o))[k].v.Bottom? && IsBranchMeet(rec, d, o, Dedupe(PrunedBy(rec, d, o))[k].v)
  {
    var cross, met := CrossBy(rec, d.branches, BranchesOf(o)), PrunedBy(rec, d, o);
    hide CrossBy, Dedupe;
    DedupeOrigin(met, k);
    var m :| 0 <= m < |met| && Dedupe(met)[k].v == met[m].v;
    if CleanOf(cross) != [] { CleanOrigin(cross, m); } else { DirtyOrigin(cross, m); }
    var c :| 0 <= c < |cross| && cross[c] == met[m];
    CrossByOrigin(rec, d.branches, BranchesOf(o), c);
  }

  lemma DisjKeeps(rec: Meeting, d: Value, o: Value, p: Value -> bool)
    requires d.Disj? && EachThunk(d, p) && EachThunk(o, p) && Keeps(rec, p)
    ensures EachThunk(DisjBy(rec, d, o), p)
  {
    var survivors := Dedupe(PrunedBy(rec, d, o));
    hide Dedupe, PrunedBy, DefaultBy, EachThunk;
    BottomHasNone(p);
    DisjEach(d.branches, p);
    if o.Disj? { DisjEach(o.branches, p); }
    forall k | 0 <= k < |survivors| ensures EachThunk(survivors[k].v, p) {
      SurvivorByOrigin(rec, d, o, k);
      var i, j :| 0 <= i < |d.branches| && 0 <= j < |BranchesOf(o)| && survivors[k].v == rec(d.branches[i].v, BranchesOf(o)[j].v);
      assert EachThunk(d.branches[i].v, p) && EachThunk(BranchesOf(o)[j].v, p);
    }
    DisjEach(Remark(survivors, DefaultBy(rec, d, o)), p);
  }

  /** Meets of scalars, types and bounds are such again, or bottom. */
  lemma PlainIsPlain(a: Value, b: Value)
    ensures var m := PlainMeet(a, b); m.Bottom? || m.Con? || m.Atom? || m.Bounded?
  {
    hide SatisfiesBounds, IncompatibleBounds;
  }

  lemma StepKeeps(t: Tools, a: Value, b: Value, p: Value -> bool)
    requires Keeps(t.meet, p) && EachThunk(a, p) && EachThunk(b, p)
    ensures EachThunk(Step(t, a, b), p)
  {
    hide ListBy, DisjBy, Resolved, PlainMeet;
    if a.Disj? { DisjKeeps(t.meet, a, b, p); }
    if b.Disj? { DisjKeeps(t.meet, b, a, p); }
    if a.List? && b.List? { ListKeeps(t.meet, a, b, p); }
    PlainIsPlain(a, b);
  }

  /** MAIN: at every depth the thunks of a meet, where a force pass looks, are thunks of its operands. */
  lemma {:induction false} EngineKeepsThunks(n: nat, regex: string -> Option<string -> bool>, p: Value -> bool)
    ensures Keeps(ToolsAt(n, regex).meet, p)
  {
    hide Step, EachThunk;
    if n > 0 {
      var t := ToolsAt(n - 1, regex);
      EngineKeepsThunks(n - 1, regex, p);
      forall a, b | EachThunk(a, p) && EachThunk(b, p) ensures EachThunk(ToolsAt(n, regex).meet(a, b), p) {
        EngineStep(n, regex, a, b);
        StepKeeps(t, a, b, p);
      }
    } else {
      BottomHasNone(p);
    }
  }

  lemma EngineAddsNoThunk(n: nat, regex: string -> Option<string -> bool>)
    ensures MeetAddsNoThunk(ToolsAt(n, regex))
  {
    hide ToolsAt, EachThunk, HasThunk;
    EngineKeepsThunks(n, regex, NoThunk());
    forall a, b | !HasThunk(a) && !HasThunk(b) ensures !HasThunk(ToolsAt(n, regex).meet(a, b)) {
      NoThunkIff(a);
      NoThunkIff(b);
      NoThunkIff(ToolsAt(n, regex).meet(a, b));
    }
  }

}
