/**
  Deferred expressions. Before two structs meet, their thunks are forced against the siblings that
  are already concrete, pass after pass, until a pass makes no further name concrete; whatever is
  left is then forced anyway. The loop is bounded by the number of fields, and never needs the bound.
 */
module Thunks {

  import opened Wrappers
  import opened Syntax
  import opened Values
  import opened Meet
  import opened Defaults

  type Scope = map<string, Value>

  /** What the deferred expressions evaluate to in a scope, bottom on failure. */
  type Closures = (Expr, Scope) -> Value

  // ----- One force -----

  predicate HasThunk(v: Value)
  {
    match v
    case Thunk(_, _) => true
    case List(p, t) => (exists i | 0 <= i < |p| :: HasThunk(p[i])) || (t.Open? && HasThunk(t.elem))
    case Disj(bs) => exists i | 0 <= i < |bs| :: HasThunk(bs[i].v)
    case _ => false  // a nested struct forces its own thunks against its own fields
  }

  predicate HasThunkField(v: Value)
    requires v.Struct?
  {
    exists i | 0 <= i < |v.fields| :: HasThunk(v.fields[i].val)
  }

  /** p holds of every thunk in v, through lists and disjunctions but not into nested structs. */
  ghost predicate EachThunk(v: Value, p: Value -> bool)
  {
    match v
    case Thunk(_, _) => p(v)
    case List(ps, tl) => (forall i | 0 <= i < |ps| :: EachThunk(ps[i], p)) && (tl.Open? ==> EachThunk(tl.elem, p))
    case Disj(bs) => forall i | 0 <= i < |bs| :: EachThunk(bs[i].v, p)
    case _ => true
  }

  ghost function NoThunk(): Value -> bool
  {
    (v: Value) => false
  }

  lemma {:induction false} NoThunkIff(v: Value)
    ensures !HasThunk(v) <==> EachThunk(v, NoThunk())
  {
    match v
    case List(ps, tl) =>
      forall i | 0 <= i < |ps| { NoThunkIff(ps[i]); }
      if tl.Open? { NoThunkIff(tl.elem); }
    case Disj(bs) =>
      forall i | 0 <= i < |bs| ensures !HasThunk(bs[i].v) <==> EachThunk(bs[i].v, NoThunk()) {
        assert bs[i].v < bs[i];
        NoThunkIff(bs[i].v);
      }
    case _ =>
  }

  lemma {:induction false} EachWeaker(v: Value, p: Value -> bool, q: Value -> bool)
    requires EachThunk(v, p) && forall x: Value | p(x) :: q(x)
    ensures EachThunk(v, q)
  {
    match v
    case List(ps, tl) =>
      forall i | 0 <= i < |ps| ensures EachThunk(ps[i], q) { EachWeaker(ps[i], p, q); }
      if tl.Open? { EachWeaker(tl.elem, p, q); }
    case Disj(bs) => forall i | 0 <= i < |bs| ensures EachThunk(bs[i].v, q) { EachWeaker(bs[i].v, p, q); }
    case _ =>
  }

  predicate Resolvable(refs: seq<string>, scope: Scope)
  {
    forall i | 0 <= i < |refs| :: refs[i] in scope && IsConcrete(scope[refs[i]])
  }

  function LiveOf(bs: seq<Branch>): (r: seq<Branch>)
    ensures forall b <- r :: b in bs && !b.v.Bottom?
  {
    if bs == [] then []
    else
      var n := |bs| - 1;
      LiveOf(bs[..n]) + (if bs[n].v.Bottom? then [] else [bs[n]])
  }

  /** Rebuilding a disjunction whose branches already carry their modes. */
  function RebuildDisjunction(bs: seq<Branch>): Value
  {
    var live := Dedupe(LiveOf(bs));
    if live == [] then Bottom else if |live| == 1 then live[0].v else Disj(live)
  }

  function ForceValue(v: Value, scope: Scope, soft: bool, ev: Closures): Value
    decreases v
  {
    match v
    case Thunk(refs, e) => if soft && !Resolvable(refs, scope) then v else ev(e, scope)
    case List(p, t) =>
      if !HasThunk(v) then v
      else
        List(seq(|p|, i requires 0 <= i < |p| => ForceValue(p[i], scope, soft, ev)),
             match t case Closed => Closed case Open(e) => Open(ForceValue(e, scope, soft, ev)))
    case Disj(bs) =>
      if !HasThunk(v) then v
      else RebuildDisjunction(seq(|bs|, i requires 0 <= i < |bs| => Branch(ForceValue(bs[i].v, scope, soft, ev), bs[i].mode)))
    case _ => v
  }

  function ForceFields(v: Value, scope: Scope, soft: bool, ev: Closures): (r: Value)
    requires v.Struct?
    ensures r.Struct? && |r.fields| == |v.fields| && r.closed == v.closed
    ensures forall i | 0 <= i < |v.fields| ::
              r.fields[i] == v.fields[i].(val := ForceValue(v.fields[i].val, scope, soft, ev))
  {
    Struct(seq(|v.fields|, i requires 0 <= i < |v.fields| =>
             v.fields[i].(val := ForceValue(v.fields[i].val, scope, soft, ev))), v.closed)
  }

  lemma {:induction false} NothingToForce(v: Value, scope: Scope, soft: bool, ev: Closures)
    requires v.Struct? && !HasThunkField(v)
    ensures ForceFields(v, scope, soft, ev) == v
  {
    assert ForceFields(v, scope, soft, ev).fields == v.fields;
  }

  // ----- The scope of concrete siblings -----

  /** Nothing in the scope still holds a thunk where a force pass would look. */
  ghost predicate Forceless(scope: Scope)
  {
    forall n <- scope :: !HasThunk(scope[n])
  }

  function BindConcrete(scope: Scope, fs: seq<Field>): Scope
  {
    if fs == [] then scope
    else
      var n := |fs| - 1;
      var before := BindConcrete(scope, fs[..n]);
      if IsConcrete(fs[n].val) then before[fs[n].name := fs[n].val] else before
  }

  /** The concrete fields of both structs by name; where both bind a name the second struct's value wins. */
  function ConcreteScope(a: Value, b: Value): Scope
    requires a.Struct? && b.Struct?
  {
    BindConcrete(BindConcrete(map[], a.fields), b.fields)
  }

  ghost predicate ConcreteAt(fs: seq<Field>, name: string)
  {
    exists i :: 0 <= i < |fs| && fs[i].name == name && IsConcrete(fs[i].val)
  }

  lemma {:induction false} BindConcreteNames(scope: Scope, fs: seq<Field>)
    requires forall n <- scope :: IsConcrete(scope[n])
    ensures forall n :: n in BindConcrete(scope, fs) <==> n in scope || ConcreteAt(fs, n)
    ensures forall n <- BindConcrete(scope, fs) :: IsConcrete(BindConcrete(scope, fs)[n])
    ensures |BindConcrete(scope, fs)| <= |scope| + |fs|
  {
    if fs != [] {
      var k := |fs| - 1;
      BindConcreteNames(scope, fs[..k]);
      forall n ensures ConcreteAt(fs, n) <==> ConcreteAt(fs[..k], n) || (fs[k].name == n && IsConcrete(fs[k].val)) {
        ConcreteSnoc(fs, n);
      }
      hide IsConcrete, ConcreteAt;
    }
  }

  lemma ConcreteSnoc(fs: seq<Field>, n: string)
    requires fs != []
    ensures var k := |fs| - 1;
      ConcreteAt(fs, n) <==> ConcreteAt(fs[..k], n) || (fs[k].name == n && IsConcrete(fs[k].val))
  {
    hide IsConcrete;
    var k := |fs| - 1;
    if ConcreteAt(fs, n) {
      var i :| 0 <= i < |fs| && fs[i].name == n && IsConcrete(fs[i].val);
      if i < k { assert fs[..k][i] == fs[i]; }
    }
    if ConcreteAt(fs[..k], n) {
      var i :| 0 <= i < k && fs[..k][i].name == n && IsConcrete(fs[..k][i].val);
      assert fs[i] == fs[..k][i];
    }
  }

  lemma ScopeNames(a: Value, b: Value)
    requires a.Struct? && b.Struct?
    ensures forall n :: n in ConcreteScope(a, b) <==> ConcreteAt(a.fields, n) || ConcreteAt(b.fields, n)
    ensures forall n <- ConcreteScope(a, b) :: IsConcrete(ConcreteScope(a, b)[n])
    ensures |ConcreteScope(a, b)| <= |a.fields| + |b.fields|
  {
    BindConcreteNames(map[], a.fields);
    BindConcreteNames(BindConcrete(map[], a.fields), b.fields);
  }

  // ----- A concrete value stays concrete when forced -----

  lemma {:induction false} MarkedOne(bs: seq<Branch>, k: nat)
    requires k < |bs| && bs[k].mode.Is?
    ensures DefaultIndex(bs) == Some(k) <==> forall i | 0 <= i < |bs| && i != k :: !bs[i].mode.Is?
  {
    MarkedIncreases(bs);
    if forall i | 0 <= i < |bs| && i != k :: !bs[i].mode.Is? { OneMark(bs); }
    if DefaultIndex(bs) == Some(k) {
      forall i | 0 <= i < |bs| && i != k ensures !bs[i].mode.Is? {
        assert bs[i].mode.Is? ==> i in Marked(bs);
      }
    }
  }

  /** Exactly one branch is marked, and it is concrete. */
  ghost predicate OneConcreteDefault(bs: seq<Branch>)
  {
    DefaultIndex(bs).Some? && IsConcrete(bs[DefaultIndex(bs).value].v)
  }

  /** No branch is marked. */
  ghost predicate NoMark(bs: seq<Branch>)
  {
    forall b <- bs :: !b.mode.Is?
  }

  lemma DefaultLast(bs: seq<Branch>, b: Branch)
    requires b.mode.Is? && NoMark(bs)
    ensures DefaultIndex(bs + [b]) == Some(|bs|)
  {
    forall i | 0 <= i < |bs + [b]| && i != |bs| ensures !(bs + [b])[i].mode.Is? { assert bs[i] in bs; }
    MarkedOne(bs + [b], |bs|);
  }

  lemma DefaultEarlier(bs: seq<Branch>, b: Branch)
    requires !b.mode.Is?
    ensures DefaultIndex(bs + [b]) == DefaultIndex(bs)
    ensures NoMark(bs + [b]) <==> NoMark(bs)
  {
    assert (bs + [b])[..|bs|] == bs;
    if NoMark(bs + [b]) { forall c <- bs ensures !c.mode.Is? { assert c in bs + [b]; } }
  }

  /** Splitting off the last branch: the single default is it, or lies before it. */
  lemma DefaultSplit(bs: seq<Branch>)
    requires bs != [] && DefaultIndex(bs).Some?
    ensures var n := |bs| - 1;
            if bs[n].mode.Is? then DefaultIndex(bs) == Some(n) && NoMark(bs[..n])
            else DefaultIndex(bs[..n]) == DefaultIndex(bs)
  {
    var n := |bs| - 1;
    var k := DefaultIndex(bs).value;
    MarkedOne(bs, k);
    if bs[n].mode.Is? {
      assert k == n;
    } else {
      DefaultEarlier(bs[..n], bs[n]);
      assert bs == bs[..n] + [bs[n]];
    }
  }

  lemma {:induction false} DedupeUnmarked(bs: seq<Branch>)
    requires NoMark(bs)
    ensures NoMark(Dedupe(bs))
  {
    hide Absorb;
    if bs != [] {
      var n := |bs| - 1;
      forall b <- bs[..n] ensures !b.mode.Is? { assert b in bs; }
      DedupeUnmarked(bs[..n]);
      assert bs[n] in bs;
      NoneMarked(Dedupe(bs[..n]), bs[n]);
    }
  }

  lemma NoneMarked(before: seq<Branch>, b: Branch)
    requires NoMark(before) && !b.mode.Is?
    ensures NoMark(Absorb(before, b))
  {
    hide SameConcrete;
    var out := Absorb(before, b);
    forall i | 0 <= i < |out| ensures !out[i].mode.Is? {
      if i < |before| { assert before[i] in before; }
    }
  }

  /** A later mark folds into an equal earlier branch, or stands for itself at the end. */
  lemma AbsorbMarked(before: seq<Branch>, b: Branch)
    requires NoMark(before) && b.mode.Is? && IsConcrete(b.v)
    ensures OneConcreteDefault(Absorb(before, b))
  {
    match FirstSame(before, b.v)
    case None => ConcreteDefaultLast(before, b);
    case Some(i) =>
      var out := before[i := Branch(before[i].v, Is)];
      forall j | 0 <= j < |out| && j != i ensures !out[j].mode.Is? { assert out[j] in before; }
      hide IsConcrete;
      MarkedOne(out, i);
  }

  /** An unmarked branch changes no mark, even when it folds into the default. */
  lemma AbsorbUnmarked(before: seq<Branch>, b: Branch)
    requires OneConcreteDefault(before) && !b.mode.Is?
    ensures OneConcreteDefault(Absorb(before, b))
  {
    hide IsConcrete;
    var k := DefaultIndex(before).value;
    match FirstSame(before, b.v)
    case None => ConcreteDefaultEarlier(before, b);
    case Some(i) =>
      MarkedOne(before, k);
      var out := Absorb(before, b);
      assert forall j | 0 <= j < |out| :: out[j].v == before[j].v && (out[j].mode.Is? <==> before[j].mode.Is?);
      MarkedOne(out, k);
  }

  /** Deduplication keeps the single concrete default: it stays, or folds into an equal branch that takes the mark. */
  lemma {:induction false} DedupeKeepsDefault(bs: seq<Branch>)
    requires OneConcreteDefault(bs)
    ensures OneConcreteDefault(Dedupe(bs))
  {
    var n := |bs| - 1;
    ConcreteDefaultSplit(bs);
    hide Absorb, IsConcrete, OneConcreteDefault, NoMark;
    if bs[n].mode.Is? {
      DedupeUnmarked(bs[..n]);
      AbsorbMarked(Dedupe(bs[..n]), bs[n]);
    } else {
      DedupeKeepsDefault(bs[..n]);
      AbsorbUnmarked(Dedupe(bs[..n]), bs[n]);
    }
  }

  lemma ConcreteDefaultLast(bs: seq<Branch>, b: Branch)
    requires b.mode.Is? && IsConcrete(b.v) && NoMark(bs)
    ensures OneConcreteDefault(bs + [b])
  {
    hide IsConcrete;
    DefaultLast(bs, b);
  }

  lemma ConcreteDefaultEarlier(bs: seq<Branch>, b: Branch)
    requires !b.mode.Is? && OneConcreteDefault(bs)
    ensures OneConcreteDefault(bs + [b])
  {
    hide IsConcrete;
    DefaultEarlier(bs, b);
  }

  lemma ConcreteDefaultSplit(bs: seq<Branch>)
    requires OneConcreteDefault(bs)
    ensures var n := |bs| - 1;
            if bs[n].mode.Is? then IsConcrete(bs[n].v) && !bs[n].v.Bottom? && NoMark(bs[..n])
            else OneConcreteDefault(bs[..n])
  {
    DefaultSplit(bs);
  }

  lemma {:induction false} LiveKeepsDefault(bs: seq<Branch>)
    requires OneConcreteDefault(bs)
    ensures OneConcreteDefault(LiveOf(bs))
  {
    var n := |bs| - 1;
    ConcreteDefaultSplit(bs);
    var live, b := LiveOf(bs[..n]), bs[n];
    if b.mode.Is? {
      forall c <- live ensures !c.mode.Is? { assert c in bs[..n]; }
      ConcreteDefaultLast(live, b);
    } else {
      hide OneConcreteDefault;
      LiveKeepsDefault(bs[..n]);
      ConcreteDefaultEarlier(live, b);
      assert live + [] == live;
    }
  }

  lemma RebuildIsConcrete(bs: seq<Branch>)
    requires OneConcreteDefault(bs)
    ensures IsConcrete(RebuildDisjunction(bs))
  {
    LiveKeepsDefault(bs);
    DedupeKeepsDefault(LiveOf(bs));
  }

  /** Forcing never makes a concrete value incomplete, whatever its thunks evaluate to. */
  lemma {:induction false} ForceKeepsConcrete(v: Value, scope: Scope, soft: bool, ev: Closures)
    requires IsConcrete(v)
    ensures IsConcrete(ForceValue(v, scope, soft, ev))
    decreases v
  {
    match v
    case List(p, _) =>
      forall i | 0 <= i < |p| ensures IsConcrete(ForceValue(p[i], scope, soft, ev)) {
        ForceKeepsConcrete(p[i], scope, soft, ev);
      }
    case Disj(bs) =>
      if HasThunk(v) {
        var k := DefaultIndex(bs).value;
        ForceKeepsConcrete(bs[k].v, scope, soft, ev);
        var forced := seq(|bs|, i requires 0 <= i < |bs| => Branch(ForceValue(bs[i].v, scope, soft, ev), bs[i].mode));
        MarkedOne(bs, k);
        MarkedOne(forced, k);
        RebuildIsConcrete(forced);
      }
    case _ =>
  }

  // ----- The fixpoint -----

  function Pass(v: Value, o: Value, ev: Closures): (r: (Value, Value))
    requires v.Struct? && o.Struct?
    ensures r.0.Struct? && r.1.Struct? && |r.0.fields| == |v.fields| && |r.1.fields| == |o.fields|
  {
    var scope := ConcreteScope(v, o);
    (ForceFields(v, scope, true, ev), ForceFields(o, scope, true, ev))
  }

  /** A pass only ever adds names to the scope. */
  lemma PassGrows(v: Value, o: Value, ev: Closures)
    requires v.Struct? && o.Struct?
    ensures var (v1, o1) := Pass(v, o, ev);
            && ConcreteScope(v, o).Keys <= ConcreteScope(v1, o1).Keys
            && |ConcreteScope(v, o)| <= |ConcreteScope(v1, o1)| <= |v.fields| + |o.fields|
            && (|ConcreteScope(v, o)| == |ConcreteScope(v1, o1)| ==> ConcreteScope(v, o).Keys == ConcreteScope(v1, o1).Keys)
  {
    var (v1, o1) := Pass(v, o, ev);
    var scope := ConcreteScope(v, o);
    ScopeNames(v, o);
    ScopeNames(v1, o1);
    forall n ensures ConcreteAt(v.fields, n) ==> ConcreteAt(v1.fields, n) { FieldsStayConcrete(v, scope, ev, n); }
    forall n ensures ConcreteAt(o.fields, n) ==> ConcreteAt(o1.fields, n) { FieldsStayConcrete(o, scope, ev, n); }
    KeysByCount(scope.Keys, ConcreteScope(v1, o1).Keys);
  }

  lemma FieldsStayConcrete(v: Value, scope: Scope, ev: Closures, n: string)
    requires v.Struct?
    ensures ConcreteAt(v.fields, n) ==> ConcreteAt(ForceFields(v, scope, true, ev).fields, n)
  {
    if ConcreteAt(v.fields, n) {
      var i :| 0 <= i < |v.fields| && v.fields[i].name == n && IsConcrete(v.fields[i].val);
      ForceKeepsConcrete(v.fields[i].val, scope, true, ev);
      assert ForceFields(v, scope, true, ev).fields[i].name == n;
    }
  }

  lemma KeysByCount<T>(xs: set<T>, ys: set<T>)
    requires xs <= ys
    ensures |xs| <= |ys| && (|xs| == |ys| ==> xs == ys)
  {
    assert ys == xs + (ys - xs);
  }

  /** Passes repeated until one makes no new name concrete. No bound on the passes is needed. */
  function Settle(v: Value, o: Value, ev: Closures): (r: (Value, Value))
    requires v.Struct? && o.Struct?
    ensures r.0.Struct? && r.1.Struct? && |r.0.fields| == |v.fields| && |r.1.fields| == |o.fields|
    decreases |v.fields| + |o.fields| - |ConcreteScope(v, o)|
  {
    ScopeNames(v, o);
    PassGrows(v, o, ev);
    if !HasThunkField(v) && !HasThunkField(o) then (v, o)
    else
      var (v1, o1) := Pass(v, o, ev);
      if |ConcreteScope(v1, o1)| == |ConcreteScope(v, o)| then (v1, o1) else Settle(v1, o1, ev)
  }

  /** Both structs with every thunk forced: settled first, then the leftovers against the final scope. */
  function Resolved(v: Value, o: Value, ev: Closures): (r: (Value, Value))
    requires v.Struct? && o.Struct?
    ensures r.0.Struct? && r.1.Struct? && |r.0.fields| == |v.fields| && |r.1.fields| == |o.fields|
  {
    var (v1, o1) := Settle(v, o, ev);
    var scope := ConcreteScope(v1, o1);
    (ForceFields(v1, scope, false, ev), ForceFields(o1, scope, false, ev))
  }

  /** MAIN: the bounded loop computes the unbounded fixpoint; it never runs out of passes early. */
  method ForceThunkFixpoint(v0: Value, o0: Value, ev: Closures) returns (v: Value, o: Value)
    requires v0.Struct? && o0.Struct?
    ensures (v, o) == Resolved(v0, o0, ev)
  {
    v, o := v0, o0;
    var bound := |v.fields| + |o.fields| + 1;
    var pass := 0;
    var settled := false;
    ScopeNames(v, o);
    while pass < bound && !settled
      invariant v.Struct? && o.Struct? && |v.fields| == |v0.fields| && |o.fields| == |o0.fields|
      invariant settled ==> Settle(v0, o0, ev) == (v, o)
      invariant !settled ==> Settle(v0, o0, ev) == Settle(v, o, ev)
      invariant !settled ==> 0 <= pass <= |ConcreteScope(v, o)| <= |v.fields| + |o.fields|
      decreases bound - pass, !settled
    {
      if !HasThunkField(v) && !HasThunkField(o) {
        NothingToForce(v, ConcreteScope(v, o), false, ev);
        NothingToForce(o, ConcreteScope(v, o), false, ev);
        return;
      }
      var scope := ConcreteScope(v, o);
      PassGrows(v, o, ev);
      ghost var (v1, o1) := Pass(v, o, ev);
      if HasThunkField(v) { v := ForceFields(v, scope, true, ev); } else { NothingToForce(v, scope, true, ev); }
      if HasThunkField(o) { o := ForceFields(o, scope, true, ev); } else { NothingToForce(o, scope, true, ev); }
      assert (v, o) == (v1, o1);
      settled := |ConcreteScope(v, o)| == |scope|;
      pass := pass + 1;
    }
    assert settled;
    var scope := ConcreteScope(v, o);
    ghost var v1, o1 := v, o;
    if HasThunkField(v) { v := ForceFields(v, scope, false, ev); } else { NothingToForce(v, scope, false, ev); }
    if HasThunkField(o) { o := ForceFields(o, scope, false, ev); } else { NothingToForce(o, scope, false, ev); }
  }

  // ----- What forcing leaves alone -----

  /** Forcing changes values only. */
  lemma {:induction false} SettleKeepsShape(v: Value, o: Value, ev: Closures)
    requires v.Struct? && o.Struct?
    ensures var (v1, o1) := Settle(v, o, ev);
      && v1.closed == v.closed && o1.closed == o.closed
      && (forall i | 0 <= i < |v.fields| :: v1.fields[i] == v.fields[i].(val := v1.fields[i].val))
      && (forall i | 0 <= i < |o.fields| :: o1.fields[i] == o.fields[i].(val := o1.fields[i].val))
      && (forall i | 0 <= i < |v.fields| && IsConcrete(v.fields[i].val) :: IsConcrete(v1.fields[i].val))
      && (forall i | 0 <= i < |o.fields| && IsConcrete(o.fields[i].val) :: IsConcrete(o1.fields[i].val))
    decreases |v.fields| + |o.fields| - |ConcreteScope(v, o)|
  {
    hide IsConcrete, ConcreteScope, HasThunkField;
    ScopeNames(v, o);
    PassGrows(v, o, ev);
    if HasThunkField(v) || HasThunkField(o) {
      ForceStaysConcrete(v, ConcreteScope(v, o), true, ev);
      ForceStaysConcrete(o, ConcreteScope(v, o), true, ev);
      var (v1, o1) := Pass(v, o, ev);
      if |ConcreteScope(v1, o1)| != |ConcreteScope(v, o)| { SettleKeepsShape(v1, o1, ev); }
    }
  }

  lemma ForceStaysConcrete(v: Value, scope: Scope, soft: bool, ev: Closures)
    requires v.Struct?
    ensures forall i | 0 <= i < |v.fields| && IsConcrete(v.fields[i].val) :: IsConcrete(ForceFields(v, scope, soft, ev).fields[i].val)
  {
    hide IsConcrete, ForceValue;
    forall i | 0 <= i < |v.fields| && IsConcrete(v.fields[i].val) ensures IsConcrete(ForceFields(v, scope, soft, ev).fields[i].val) {
      ForceKeepsConcrete(v.fields[i].val, scope, soft, ev);
    }
  }

  lemma ResolvedShape(v: Value, o: Value, ev: Closures)
    requires v.Struct? && o.Struct?
    ensures var (v1, o1) := Resolved(v, o, ev);
      && v1.closed == v.closed && o1.closed == o.closed
      && (forall i | 0 <= i < |v.fields| :: v1.fields[i] == v.fields[i].(val := v1.fields[i].val))
      && (forall i | 0 <= i < |o.fields| :: o1.fields[i] == o.fields[i].(val := o1.fields[i].val))
      && (forall i | 0 <= i < |v.fields| && IsConcrete(v.fields[i].val) :: IsConcrete(v1.fields[i].val))
      && (forall i | 0 <= i < |o.fields| && IsConcrete(o.fields[i].val) :: IsConcrete(o1.fields[i].val))
  {
    hide IsConcrete, ConcreteScope, Settle;
    SettleKeepsShape(v, o, ev);
    var (v1, o1) := Settle(v, o, ev);
    ForceStaysConcrete(v1, ConcreteScope(v1, o1), false, ev);
    ForceStaysConcrete(o1, ConcreteScope(v1, o1), false, ev);
  }

}
