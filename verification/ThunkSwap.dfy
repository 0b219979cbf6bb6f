/**
  Swapping two structs before their deferred fields are forced. It only swaps the results, if no name a
  thunk reads is bound differently by the two: at most one of them gives it a value that is or can become
  concrete, or both give it the same. Where both bind a name to different concrete values, reading
  that name tells the orders apart.
 */
module ThunkSwap {

  import opened Wrappers
  import opened Values
  import opened MeetFacts
  import opened Thunks
  import opened ThunkLaws
  import opened ThunkOrder
  import opened Syntax
  import opened Eval
  import opened EvalLaws

  /** A constraint that is not concrete and never becomes so. */
  predicate NeverConcrete(v: Value)
  {
    !IsConcrete(v) && !HasThunk(v)
  }

  /** The two structs cannot bind n to different values. */
  ghost predicate OneBinder(n: string, v: Value, o: Value)
    requires v.Struct? && o.Struct?
  {
    var f, h := Find(v.fields, n), Find(o.fields, n);
    f.Some? && h.Some? ==> f.value.val == h.value.val || NeverConcrete(f.value.val) || NeverConcrete(h.value.val)
  }

  ghost predicate Swappable(v: Value, o: Value, ev: Closures, names: set<string>)
  {
    && v.Struct? && o.Struct? && UniqueNames(v.fields) && UniqueNames(o.fields)
    && Evaluates(ev) && CleanPasses(v, o, ev) && ReadsWithin(v, ev, names) && ReadsWithin(o, ev, names)
    && forall n <- names :: OneBinder(n, v, o)
  }

  /** Both orders bind a name alike, if they bind it at all. */
  lemma SameScopes(v: Value, o: Value, n: string)
    requires v.Struct? && o.Struct? && UniqueNames(v.fields) && UniqueNames(o.fields) && OneBinder(n, v, o)
    ensures SameBinding(ConcreteScope(v, o), ConcreteScope(o, v), n)
  {
    hide ConcreteScope;
    ScopeAt(v, o, n);
    ScopeAt(o, v, n);
  }

  lemma SameKeys(v: Value, o: Value)
    requires v.Struct? && o.Struct?
    ensures ConcreteScope(v, o).Keys == ConcreteScope(o, v).Keys && |ConcreteScope(v, o)| == |ConcreteScope(o, v)|
  {
    hide ConcreteScope;
    ScopeNames(v, o);
    ScopeNames(o, v);
    assert ConcreteScope(v, o).Keys == ConcreteScope(o, v).Keys;
  }

  lemma {:induction false} SameForce(w: Value, s: Scope, s': Scope, soft: bool, ev: Closures, names: set<string>)
    requires EachThunk(w, LocalTo(ev, names)) && forall n <- names :: SameBinding(s, s', n)
    ensures ForceValue(w, s, soft, ev) == ForceValue(w, s', soft, ev)
    decreases w
  {
    match w
    case Thunk(refs, e) =>
      assert forall j | 0 <= j < |refs| :: refs[j] in names && SameBinding(s, s', refs[j]);
      assert ev(e, s) == ev(e, s');
    case List(ps, t) =>
      ListForce(ps, t, s, soft, ev);
      ListForce(ps, t, s', soft, ev);
      forall i | 0 <= i < |ps| ensures ForceValue(ps[i], s, soft, ev) == ForceValue(ps[i], s', soft, ev) {
        SameForce(ps[i], s, s', soft, ev, names);
      }
      if t.Open? { SameForce(t.elem, s, s', soft, ev, names); }
      assert ForceValue(w, s, soft, ev).prefix == ForceValue(w, s', soft, ev).prefix;
    case Disj(bs) =>
      forall i | 0 <= i < |bs| ensures ForceValue(bs[i].v, s, soft, ev) == ForceValue(bs[i].v, s', soft, ev) {
        SameForce(bs[i].v, s, s', soft, ev, names);
      }
      var l := seq(|bs|, i requires 0 <= i < |bs| => Branch(ForceValue(bs[i].v, s, soft, ev), bs[i].mode));
      var r := seq(|bs|, i requires 0 <= i < |bs| => Branch(ForceValue(bs[i].v, s', soft, ev), bs[i].mode));
      assert l == r;
    case _ =>
  }

  lemma SameForceFields(w: Value, s: Scope, s': Scope, soft: bool, ev: Closures, names: set<string>)
    requires w.Struct? && ReadsWithin(w, ev, names) && forall n <- names :: SameBinding(s, s', n)
    ensures ForceFields(w, s, soft, ev) == ForceFields(w, s', soft, ev)
  {
    hide EachThunk, LocalTo, ForceValue;
    var l, r := ForceFields(w, s, soft, ev), ForceFields(w, s', soft, ev);
    forall i | 0 <= i < |w.fields| ensures l.fields[i] == r.fields[i] {
      SameForce(w.fields[i].val, s, s', soft, ev, names);
    }
    assert l.fields == r.fields;
  }

  // ----- A pass, swapped -----

  lemma PassSwaps(v: Value, o: Value, ev: Closures, names: set<string>)
    requires Swappable(v, o, ev, names)
    ensures Pass(o, v, ev) == (Pass(v, o, ev).1, Pass(v, o, ev).0)
  {
    hide ReadsWithin, ConcreteScope, ForceFields, OneBinder, CleanPasses, Evaluates;
    forall n <- names ensures SameBinding(ConcreteScope(v, o), ConcreteScope(o, v), n) { SameScopes(v, o, n); }
    SameForceFields(v, ConcreteScope(v, o), ConcreteScope(o, v), true, ev, names);
    SameForceFields(o, ConcreteScope(v, o), ConcreteScope(o, v), true, ev, names);
  }

  lemma OneBinderAfter(v: Value, o: Value, ev: Closures, n: string)
    requires v.Struct? && o.Struct? && UniqueNames(v.fields) && UniqueNames(o.fields) && OneBinder(n, v, o)
    ensures OneBinder(n, Pass(v, o, ev).0, Pass(v, o, ev).1)
  {
    hide ForceFields, ConcreteScope, HasThunk, IsConcrete;
    var scope := ConcreteScope(v, o);
    FindForced(v, scope, true, ev, n);
    FindForced(o, scope, true, ev, n);
    FindUnthunked(v, scope, ev, n);
    FindUnthunked(o, scope, ev, n);
  }

  /** What a swap of settled structs still needs: the passes need not be clean any more. */
  ghost predicate Settled(v: Value, o: Value, ev: Closures, names: set<string>)
  {
    && v.Struct? && o.Struct? && UniqueNames(v.fields) && UniqueNames(o.fields)
    && ReadsWithin(v, ev, names) && ReadsWithin(o, ev, names) && forall n <- names :: OneBinder(n, v, o)
  }

  lemma PassSettles(v: Value, o: Value, ev: Closures, names: set<string>)
    requires Swappable(v, o, ev, names)
    ensures Settled(Pass(v, o, ev).0, Pass(v, o, ev).1, ev, names)
  {
    hide ReadsWithin, ConcreteScope, ForceFields, OneBinder, Evaluates;
    var scope := ConcreteScope(v, o);
    PassReads(v, scope, true, ev, names);
    PassReads(o, scope, true, ev, names);
    FindForced(v, scope, true, ev, "");
    FindForced(o, scope, true, ev, "");
    forall n <- names ensures OneBinder(n, Pass(v, o, ev).0, Pass(v, o, ev).1) { OneBinderAfter(v, o, ev, n); }
  }

  lemma SwappablePass(v: Value, o: Value, ev: Closures, names: set<string>)
    requires Swappable(v, o, ev, names) && |ConcreteScope(Pass(v, o, ev).0, Pass(v, o, ev).1)| != |ConcreteScope(v, o)|
    ensures Swappable(Pass(v, o, ev).0, Pass(v, o, ev).1, ev, names)
  {
    hide ReadsWithin, ConcreteScope, ForceFields, OneBinder, Evaluates;
    PassSettles(v, o, ev, names);
  }

  lemma {:induction false} SettleSwaps(v: Value, o: Value, ev: Closures, names: set<string>)
    requires Swappable(v, o, ev, names)
    ensures Settle(o, v, ev) == (Settle(v, o, ev).1, Settle(v, o, ev).0)
    ensures Settled(Settle(v, o, ev).0, Settle(v, o, ev).1, ev, names)
    decreases |v.fields| + |o.fields| - |ConcreteScope(v, o)|
  {
    hide Pass, ConcreteScope, HasThunkField, ReadsWithin, OneBinder, Evaluates, CleanPasses;
    ScopeNames(v, o);
    PassGrows(v, o, ev);
    SameKeys(v, o);
    if HasThunkField(v) || HasThunkField(o) {
      var (v1, o1) := Pass(v, o, ev);
      PassSwaps(v, o, ev, names);
      SameKeys(v1, o1);
      PassSettles(v, o, ev, names);
      if |ConcreteScope(v1, o1)| != |ConcreteScope(v, o)| {
        SwappablePass(v, o, ev, names);
        SettleSwaps(v1, o1, ev, names);
      }
    }
  }

  /** MAIN: under that condition, swapping the structs swaps what they resolve to, and nothing else. */
  lemma SwapOnlySwaps(v: Value, o: Value, ev: Closures, names: set<string>)
    requires Swappable(v, o, ev, names)
    ensures Resolved(o, v, ev) == (Resolved(v, o, ev).1, Resolved(v, o, ev).0)
  {
    hide Settle, ConcreteScope, ReadsWithin, OneBinder, Evaluates, CleanPasses, ForceFields;
    SettleSwaps(v, o, ev, names);
    var (v1, o1) := Settle(v, o, ev);
    forall n <- names ensures SameBinding(ConcreteScope(v1, o1), ConcreteScope(o1, v1), n) { SameScopes(v1, o1, n); }
    SameForceFields(v1, ConcreteScope(v1, o1), ConcreteScope(o1, v1), false, ev, names);
    SameForceFields(o1, ConcreteScope(v1, o1), ConcreteScope(o1, v1), false, ev, names);
  }

  // ----- Where the condition fails -----

  /** What reading a name takes of its value: the default of a disjunction. */
  function Taken(c: Value): Value
    requires IsConcrete(c)
  {
    if c.Disj? then c.branches[DefaultIndex(c.branches).value].v else c
  }

  /** An expression that reads n alone takes its value from what the scope binds n to. */
  lemma ReadsOneName(t: Tools, e: Expr, n: string, scope: Scope)
    requires FreeRefs(e) == [n] && n in scope
    ensures Forced(t, e, scope) == Forced(t, e, map[n := scope[n]])
  {
    hide EvalExpr, FreeRefs;
    DependsOnRefs(t, e, scope, map[n := scope[n]]);
  }

  lemma ForcedWithout(t: Tools, e: Expr, n: string, c: Value)
    requires MeetAddsNoThunk(t) && !HasThunk(c)
    ensures !HasThunk(Forced(t, e, map[n := c]))
  {
    hide EvalExpr, MeetAddsNoThunk;
    if EvalExpr(t, e, Some(map[n := c])).Ok? { ForcedHasNoThunk(t, e, map[n := c]); }
  }

  /** A field without thunks is what it was when everything has been forced. */
  lemma {:induction false} SettlesAsIs(v: Value, o: Value, ev: Closures, i: nat)
    requires v.Struct? && o.Struct?
    ensures i < |v.fields| && !HasThunk(v.fields[i].val) ==> Settle(v, o, ev).0.fields[i] == v.fields[i]
    ensures i < |o.fields| && !HasThunk(o.fields[i].val) ==> Settle(v, o, ev).1.fields[i] == o.fields[i]
    decreases |v.fields| + |o.fields| - |ConcreteScope(v, o)|
  {
    hide ConcreteScope, HasThunk;
    ScopeNames(v, o);
    PassGrows(v, o, ev);
    var (v1, o1) := Pass(v, o, ev);
    if i < |v.fields| && !HasThunk(v.fields[i].val) {
      Unthunked(v.fields[i].val, ConcreteScope(v, o), true, ev);
      assert v1.fields[i] == v.fields[i];
    }
    if i < |o.fields| && !HasThunk(o.fields[i].val) {
      Unthunked(o.fields[i].val, ConcreteScope(v, o), true, ev);
      assert o1.fields[i] == o.fields[i];
    }
    hide Pass, HasThunkField;
    if (HasThunkField(v) || HasThunkField(o)) && |ConcreteScope(v1, o1)| != |ConcreteScope(v, o)| {
      SettlesAsIs(v1, o1, ev, i);
    }
  }

  lemma PassFirst(v: Value, o: Value, ev: Closures)
    requires v.Struct? && o.Struct? && (HasThunkField(v) || HasThunkField(o))
    ensures var (v1, o1) := Pass(v, o, ev);
      Settle(v, o, ev) == (v1, o1) || Settle(v, o, ev) == Settle(v1, o1, ev)
  {
    hide Pass, HasThunkField, ConcreteScope;
    SettleStep(v, o, ev);
  }

  /** A field the first pass leaves without thunks is decided by it. */
  lemma FirstPassDecides(v: Value, o: Value, ev: Closures, i: nat, second: bool)
    requires v.Struct? && o.Struct? && (HasThunkField(v) || HasThunkField(o))
    requires var (v1, o1) := Pass(v, o, ev); var w1 := if second then o1 else v1;
      i < |w1.fields| && !HasThunk(w1.fields[i].val)
    ensures var (v1, o1) := Pass(v, o, ev); var r := Resolved(v, o, ev);
      (if second then r.1 else r.0).fields[i].val == (if second then o1 else v1).fields[i].val
  {
    hide ConcreteScope, HasThunk, HasThunkField, Pass, Settle;
    var (v1, o1) := Pass(v, o, ev);
    PassFirst(v, o, ev);
    SettlesAsIs(v1, o1, ev, i);
    var (v2, o2) := Settle(v, o, ev);
    Unthunked((if second then o2 else v2).fields[i].val, ConcreteScope(v2, o2), false, ev);
  }

  lemma ReaderForced(w: Value, scope: Scope, ev: Closures, n: string, e: Expr, i: nat)
    requires w.Struct? && n in scope && IsConcrete(scope[n])
    requires i < |w.fields| && w.fields[i].val == Thunk([n], e)
    ensures HasThunkField(w) && ForceFields(w, scope, true, ev).fields[i].val == ev(e, scope)
  {
    assert HasThunk(w.fields[i].val);
    hide IsConcrete;
    assert Resolvable([n], scope);
  }

  /** Field i reads n alone: it resolves to what its expression makes of the first pass's binding of n. */
  lemma ReaderResolves(t: Tools, v: Value, o: Value, n: string, e: Expr, i: nat, second: bool)
    requires v.Struct? && o.Struct? && FreeRefs(e) == [n] && MeetAddsNoThunk(t)
    requires n in ConcreteScope(v, o) && !HasThunk(ConcreteScope(v, o)[n])
    requires var w := if second then o else v; i < |w.fields| && w.fields[i].val == Thunk([n], e)
    ensures var r := Resolved(v, o, Forcing(t));
      (if second then r.1 else r.0).fields[i].val == Forced(t, e, map[n := ConcreteScope(v, o)[n]])
  {
    var ev, scope := Forcing(t), ConcreteScope(v, o);
    ScopeNames(v, o);
    assert ev(e, scope) == Forced(t, e, scope);
    hide ConcreteScope, IsConcrete, Forcing, Resolved, HasThunk, HasThunkField, ForceFields, Forced, FreeRefs, MeetAddsNoThunk;
    ReadsOneName(t, e, n, scope);
    ForcedWithout(t, e, n, scope[n]);
    ReaderForced(if second then o else v, scope, ev, n, e, i);
    FirstPassDecides(v, o, ev, i, second);
  }

  /**
    MAIN: where both structs bind n to concrete values, a field whose expression reads n alone resolves to
    what the expression makes of the second operand's value; swapping the operands changes the
    field exactly if the expression tells the two values apart.
   */
  lemma SharedNameTells(t: Tools, v: Value, o: Value, n: string, e: Expr, i: nat)
    requires v.Struct? && o.Struct? && UniqueNames(v.fields) && UniqueNames(o.fields) && MeetAddsNoThunk(t)
    requires ConcreteFind(v.fields, n) && ConcreteFind(o.fields, n)
    requires !HasThunkAt(v.fields, n) && !HasThunkAt(o.fields, n)
    requires FreeRefs(e) == [n] && i < |v.fields| && v.fields[i].val == Thunk([n], e)
    ensures Resolved(v, o, Forcing(t)).0.fields[i].val == Forced(t, e, map[n := Find(o.fields, n).value.val])
    ensures Resolved(o, v, Forcing(t)).1.fields[i].val == Forced(t, e, map[n := Find(v.fields, n).value.val])
  {
    hide ConcreteScope, Resolved, HasThunk, IsConcrete, Forcing, Forced, FreeRefs, MeetAddsNoThunk;
    ScopeAt(v, o, n);
    ScopeAt(o, v, n);
    ReaderResolves(t, v, o, n, e, i, false);
    ReaderResolves(t, o, v, n, e, i, true);
  }

  // ----- Two readers a source can have -----

  /** [n][0] */
  function FirstOf(n: string): Expr
  {
    Index(ListLit([Item(Ident(n))]), Basic(LitInt(0)))
  }

  /** n == l */
  function EqualTo(n: string, l: Lit): Expr
  {
    Binary(Eql, Ident(n), Basic(l))
  }

  lemma FirstNames(n: string)
    ensures Names(FirstOf(n)) == [n]
  {
    var es := [Item(Ident(n))];
    assert es[1..] == [] && ElemNames([]) == [];
    assert ElemNames(es) == [n] + [];
    assert Names(FirstOf(n)) == [n] + [];
  }

  lemma ReaderRefs(n: string, l: Lit)
    requires IsReference(n)
    ensures FreeRefs(FirstOf(n)) == [n] && FreeRefs(EqualTo(n, l)) == [n]
  {
    FirstNames(n);
    ComparisonNames(Eql, n, l);
    hide Names, Distinct, IsReference;
    OneReference(n);
  }

  /** The compiler defers both. */
  lemma ReadersCompile(t: Tools, n: string, l: Lit)
    requires IsReference(n) && EvalLit(l).Ok?
    ensures CompileExpr(t, FirstOf(n)) == Ok(Thunk([n], FirstOf(n)))
    ensures CompileExpr(t, EqualTo(n, l)) == Ok(Thunk([n], EqualTo(n, l)))
  {
    ReaderRefs(n, l);
    FirstWaits(t, n);
    EqualWaits(t, n, l);
    hide FreeRefs, EvalExpr, IsReference;
  }

  lemma FirstWaits(t: Tools, n: string)
    requires IsReference(n)
    ensures EvalExpr(t, FirstOf(n), None) == Unresolved
  {
    var es := [Item(Ident(n))];
    assert Keyword(n).None?;
    hide Keyword, IsReference;
    assert EvalExpr(t, Ident(n), None) == Unresolved;
    assert EvalExpr(t, Basic(LitInt(0)), None) == Ok(Con(Int(0)));
    assert es[1..] == [] && EvalItems(t, [], None) == Ok([]);
    assert EvalItems(t, es, None) == Unresolved;
  }

  lemma EqualWaits(t: Tools, n: string, l: Lit)
    requires IsReference(n) && EvalLit(l).Ok?
    ensures EvalExpr(t, EqualTo(n, l), None) == Unresolved
  {
    assert Keyword(n).None?;
    hide Keyword, IsReference;
    LiteralIsConcrete(l);
    assert EvalExpr(t, Ident(n), None) == Unresolved;
    assert EvalExpr(t, Basic(l), None) == EvalLit(l);
    hide EvalLit;
  }

  lemma LiteralIsConcrete(l: Lit)
    requires EvalLit(l).Ok?
    ensures EvalLit(l).v.Con? && IsConcrete(EvalLit(l).v)
  {
  }

  /** `[n][0]` reads what reading n takes of its value, and `n == l` whether that equals the literal. */
  lemma ReadersRead(t: Tools, n: string, l: Lit, c: Value)
    requires IsReference(n) && EvalLit(l).Ok? && IsConcrete(c) && IsConcrete(Taken(c))
    ensures Forced(t, FirstOf(n), map[n := c]) == Taken(c)
    ensures Forced(t, EqualTo(n, l), map[n := c]) == Con(Bool(NumericAwareEqual(Taken(c), EvalLit(l).v)))
  {
    var scope := map[n := c];
    assert Keyword(n).None?;
    LiteralIsConcrete(l);
    hide Keyword, IsReference, IsConcrete;
    assert EvalExpr(t, Ident(n), Some(scope)) == Ok(Taken(c));
    FirstReads(t, n, scope, Taken(c));
    EqualReads(t, n, l, scope, Taken(c));
    hide Taken, EvalLit, NumericAwareEqual, Forced;
  }

  lemma EqualReads(t: Tools, n: string, l: Lit, scope: Scope, x: Value)
    requires EvalExpr(t, Ident(n), Some(scope)) == Ok(x) && IsConcrete(x) && EvalLit(l).Ok?
    ensures Forced(t, EqualTo(n, l), scope) == Con(Bool(NumericAwareEqual(x, EvalLit(l).v)))
  {
    LiteralIsConcrete(l);
    hide LookUp, Keyword, IsConcrete, EvalLit, NumericAwareEqual;
    assert EvalExpr(t, Basic(l), Some(scope)) == EvalLit(l);
    assert EvalExpr(t, EqualTo(n, l), Some(scope)) == Ok(Con(Bool(NumericAwareEqual(x, EvalLit(l).v))));
  }

  lemma FirstReads(t: Tools, n: string, scope: Scope, x: Value)
    requires EvalExpr(t, Ident(n), Some(scope)) == Ok(x)
    ensures Forced(t, FirstOf(n), scope) == x
  {
    var es := [Item(Ident(n))];
    hide LookUp, Keyword;
    assert EvalExpr(t, Basic(LitInt(0)), Some(scope)) == Ok(Con(Int(0)));
    assert es[1..] == [] && EvalItems(t, [], Some(scope)) == Ok([]);
    assert EvalItems(t, es, Some(scope)) == Ok([x] + []);
    assert ([x] + [])[0] == x;
    hide EvalItems;
    assert EvalExpr(t, FirstOf(n), Some(scope)) == Ok(x);
  }

  /**
    MAIN: with both structs binding n to concrete values, a field `[n][0]` changes under a swap exactly if
    the values read differently, and a field `n == l` exactly if one of them alone equals the literal.
   */
  lemma ReadersTell(t: Tools, v: Value, o: Value, n: string, l: Lit, i: nat)
    requires v.Struct? && o.Struct? && UniqueNames(v.fields) && UniqueNames(o.fields) && MeetAddsNoThunk(t)
    requires IsReference(n) && EvalLit(l).Ok?
    requires ConcreteFind(v.fields, n) && ConcreteFind(o.fields, n)
    requires !HasThunkAt(v.fields, n) && !HasThunkAt(o.fields, n)
    requires i < |v.fields|
    ensures var x, y, c := Taken(Find(v.fields, n).value.val), Taken(Find(o.fields, n).value.val), EvalLit(l).v;
      var before, after := Resolved(v, o, Forcing(t)).0.fields[i].val, Resolved(o, v, Forcing(t)).1.fields[i].val;
      && (v.fields[i].val == Thunk([n], FirstOf(n)) ==> (before != after <==> x != y))
      && (v.fields[i].val == Thunk([n], EqualTo(n, l)) ==>
            (before != after <==> NumericAwareEqual(x, c) != NumericAwareEqual(y, c)))
  {
    var f, h := Find(v.fields, n).value.val, Find(o.fields, n).value.val;
    assert IsConcrete(Taken(f)) && IsConcrete(Taken(h));
    hide Resolved, HasThunk, IsConcrete, Forcing, Forced, FreeRefs, MeetAddsNoThunk, Taken, NumericAwareEqual, EvalLit, IsReference, UniqueNames;
    ReaderRefs(n, l);
    ReadersRead(t, n, l, f);
    ReadersRead(t, n, l, h);
    if v.fields[i].val == Thunk([n], FirstOf(n)) { SharedNameTells(t, v, o, n, FirstOf(n), i); }
    if v.fields[i].val == Thunk([n], EqualTo(n, l)) { SharedNameTells(t, v, o, n, EqualTo(n, l), i); }
  }

}
