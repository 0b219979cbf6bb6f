/**
  Where a compiled schema's references point. A source is neat if no alternative of a disjunction and no
  open tail of a list is deferred. Compiling a neat source, struct meets and their forcing included,
  leaves every thunk that a struct's force pass can reach reading only names of that same struct; so
  does forcing.
 */
module References {

  import opened Wrappers
  import opened Syntax
  import opened Values
  import opened Meet
  import opened MeetFacts
  import opened Thunks
  import opened ThunkLaws
  import opened Eval
  import opened EvalLaws
  import opened Engine

  // ----- What the thunks a force pass reaches read -----

  ghost function Reading(names: set<string>): Value -> bool
  {
    (v: Value) => v.Thunk? ==> forall r <- v.refs :: r in names
  }

  lemma {:induction false} ReadsIff(v: Value, names: set<string>)
    ensures Reads(v) <= names <==> EachThunk(v, Reading(names))
    decreases v, 1
  {
    match v
    case Thunk(refs, _) =>
      if Reads(v) <= names {
        forall r <- refs ensures r in names { assert r in Reads(v); }
      }
    case List(ps, tl) =>
      ReadsOfValuesIff(ps, names);
      if tl.Open? { ReadsIff(tl.elem, names); }
    case Disj(bs) => ReadsOfBranchesIff(bs, names);
    case _ =>
  }

  lemma {:induction false} ReadsOfValuesIff(vs: seq<Value>, names: set<string>)
    ensures ReadsOfValues(vs) <= names <==> forall i | 0 <= i < |vs| :: EachThunk(vs[i], Reading(names))
    decreases vs, 0
  {
    if vs != [] {
      var n := |vs| - 1;
      ReadsOfValuesIff(vs[..n], names);
      ReadsIff(vs[n], names);
      assert forall i | 0 <= i < n :: vs[..n][i] == vs[i];
    }
  }

  lemma {:induction false} ReadsOfBranchesIff(bs: seq<Branch>, names: set<string>)
    ensures ReadsOfBranches(bs) <= names <==> forall i | 0 <= i < |bs| :: EachThunk(bs[i].v, Reading(names))
    decreases bs, 0
  {
    if bs != [] {
      var n := |bs| - 1;
      var last := bs[n];
      assert last.v < last;
      ReadsOfBranchesIff(bs[..n], names);
      ReadsIff(last.v, names);
      assert forall i | 0 <= i < n :: bs[..n][i] == bs[i];
    }
  }

  /** A value without thunks reads nothing. */
  lemma NoThunkNoReads(v: Value, names: set<string>)
    requires !HasThunk(v)
    ensures Reads(v) <= names
  {
    NoThunkIff(v);
    EachWeaker(v, NoThunk(), Reading(names));
    ReadsIff(v, names);
  }

  // ----- Closed references -----

  /** Within each struct, at any depth, a thunk reads only the struct's own names. */
  ghost predicate Scoped(v: Value)
    decreases v
  {
    match v
    case Thunk(refs, e) => refs == FreeRefs(e)
    case List(ps, tl) => (forall i | 0 <= i < |ps| :: Scoped(ps[i])) && (tl.Open? ==> Scoped(tl.elem))
    case Disj(bs) => forall i | 0 <= i < |bs| :: Scoped(bs[i].v)
    case Struct(fs, _) => forall i | 0 <= i < |fs| :: Reads(fs[i].val) <= FieldNames(fs) && Scoped(fs[i].val)
    case _ => true
  }

  lemma {:induction false} FieldNamesIff(fs: seq<Field>, n: string)
    ensures n in FieldNames(fs) <==> HasField(fs, n)
  {
    if fs != [] {
      var k := |fs| - 1;
      FieldNamesIff(fs[..k], n);
      if HasField(fs[..k], n) {
        var i :| 0 <= i < k && fs[..k][i].name == n;
        assert fs[i].name == n;
      }
      if HasField(fs, n) && fs[k].name != n {
        var i :| 0 <= i < |fs| && fs[i].name == n;
        assert fs[..k][i].name == n;
      }
    }
  }

  // ----- Neat values -----

  /** A thunk or a bottom in its way keeps the value from ever being concrete before it is forced. */
  predicate Stuck(v: Value)
  {
    match v
    case Thunk(_, _) => true
    case Bottom => true
    case List(p, _) => exists i | 0 <= i < |p| :: Stuck(p[i])
    case Disj(bs) => bs != [] && forall i | 0 <= i < |bs| :: Stuck(bs[i].v)
    case _ => false
  }

  lemma {:induction false} StuckIsOpen(v: Value)
    requires Stuck(v)
    ensures !IsConcrete(v)
  {
    match v
    case List(p, _) =>
      var i :| 0 <= i < |p| && Stuck(p[i]);
      StuckIsOpen(p[i]);
    case Disj(bs) =>
      if DefaultIndex(bs).Some? { StuckIsOpen(bs[DefaultIndex(bs).value].v); }
    case _ =>
  }

  /** Where a thunk waits in a disjunction, all branches are stuck and none is a default. */
  ghost predicate Neat(v: Value)
  {
    match v
    case List(p, tl) => (forall i | 0 <= i < |p| :: Neat(p[i])) && (tl.Open? ==> !HasThunk(tl.elem))
    case Disj(bs) =>
      HasThunk(v) ==> NoMark(bs) && bs != [] && forall i | 0 <= i < |bs| :: Stuck(bs[i].v) && Neat(bs[i].v)
    case _ => true
  }

  lemma {:induction false} NoThunkIsNeat(v: Value)
    requires !HasThunk(v)
    ensures Neat(v)
  {
    if v.List? {
      forall i | 0 <= i < |v.prefix| ensures Neat(v.prefix[i]) { NoThunkIsNeat(v.prefix[i]); }
    }
  }

  lemma {:induction false} NeatIsQuiet(v: Value)
    requires Neat(v)
    ensures Quiet(v)
  {
    match v
    case List(p, _) => forall i | 0 <= i < |p| ensures Quiet(p[i]) { NeatIsQuiet(p[i]); }
    case Disj(bs) =>
      if HasThunk(v) { forall i | 0 <= i < |bs| ensures Quiet(bs[i].v) { NeatIsQuiet(bs[i].v); } }
    case _ =>
  }

  lemma {:induction false} NeatThunkIsStuck(v: Value)
    requires Neat(v) && HasThunk(v)
    ensures Stuck(v)
  {
    if v.List? {
      var i :| 0 <= i < |v.prefix| && HasThunk(v.prefix[i]);
      NeatThunkIsStuck(v.prefix[i]);
    }
  }

  /** At any depth: thunks of neat expressions, that read their own references only, in the fields of neat structs. */
  ghost predicate Core(v: Value)
    decreases v
  {
    match v
    case Thunk(refs, e) => refs == FreeRefs(e) && refs != [] && NeatExpr(e)
    case List(ps, tl) => (forall i | 0 <= i < |ps| :: Core(ps[i])) && (tl.Open? ==> Core(tl.elem))
    case Disj(bs) => forall i | 0 <= i < |bs| :: Core(bs[i].v)
    case Struct(fs, _) => forall i | 0 <= i < |fs| :: Reads(fs[i].val) <= FieldNames(fs) && Core(fs[i].val) && Neat(fs[i].val)
    case _ => true
  }

  ghost predicate Good(v: Value)
  {
    Core(v) && Neat(v)
  }

  lemma {:induction false} CoreIsScoped(v: Value)
    requires Core(v)
    ensures Scoped(v)
    decreases v
  {
    match v
    case List(ps, tl) =>
      forall i | 0 <= i < |ps| ensures Scoped(ps[i]) { CoreIsScoped(ps[i]); }
      if tl.Open? { CoreIsScoped(tl.elem); }
    case Disj(bs) => forall i | 0 <= i < |bs| ensures Scoped(bs[i].v) { CoreIsScoped(bs[i].v); }
    case Struct(fs, _) => forall i | 0 <= i < |fs| ensures Scoped(fs[i].val) { CoreIsScoped(fs[i].val); }
    case _ =>
  }

  lemma BottomIsGood()
    ensures Good(Bottom)
  {
  }

  lemma PlainIsGood(v: Value)
    requires v.Bottom? || v.Top? || v.Con? || v.Atom? || v.Bounded?
    ensures Good(v) && !HasThunk(v)
  {
  }

  lemma CoreList(l: Value)
    requires l.List?
    ensures Core(l) <==> (forall i | 0 <= i < |l.prefix| :: Core(l.prefix[i])) && (l.tail.Open? ==> Core(l.tail.elem))
    ensures Neat(l) <==> (forall i | 0 <= i < |l.prefix| :: Neat(l.prefix[i])) && (l.tail.Open? ==> !HasThunk(l.tail.elem))
  {
  }

  lemma CoreDisj(bs: seq<Branch>)
    ensures Core(Disj(bs)) <==> forall i | 0 <= i < |bs| :: Core(bs[i].v)
  {
  }

  /** Each branch of a good value is good. */
  lemma BranchIsGood(d: Value, i: nat)
    requires Good(d) && i < |BranchesOf(d)|
    ensures Good(BranchesOf(d)[i].v)
    ensures HasThunk(d) ==> Stuck(BranchesOf(d)[i].v)
    ensures Stuck(d) ==> Stuck(BranchesOf(d)[i].v)
  {
    if d.Disj? {
      if !HasThunk(d) { NoThunkIsNeat(d.branches[i].v); }
    } else if HasThunk(d) {
      NeatThunkIsStuck(d);
    }
  }

  // ----- What the evaluator needs of the meet -----

  ghost predicate FitAt(t: Tools, a: Value, b: Value)
  {
    Good(a) && Good(b) ==>
      var m := t.meet(a, b);
      && Good(m)
      && (Stuck(a) || Stuck(b) ==> Stuck(m))
      && (a.Struct? || b.Struct? ==> !HasThunk(m))
  }

  ghost predicate Fit(t: Tools)
  {
    && MeetAddsNoThunk(t)
    && (forall a, b :: FitAt(t, a, b))
    && (forall a, b, names | Reads(a) <= names && Reads(b) <= names :: Reads(t.meet(a, b)) <= names)
  }

  // ----- Compiling and forcing -----

  /** A scope to force in: none while compiling, otherwise free of thunks and of stray ones further in. */
  ghost predicate Sound(scope: Option<Scope>)
  {
    scope.Some? ==> Forceless(scope.value) && forall n <- scope.value :: Good(scope.value[n])
  }

  ghost function RefSet(names: seq<string>): set<string>
  {
    set n | n in names && IsReference(n)
  }

  /** A value made from these names: good, reading no other names, and without thunks when forced. */
  ghost predicate Made(v: Value, names: seq<string>, scope: Option<Scope>)
  {
    Good(v) && Reads(v) <= RefSet(names) && (scope.Some? ==> !HasThunk(v))
  }

  ghost predicate AllMade(vs: seq<Value>, names: seq<string>, scope: Option<Scope>)
  {
    forall i | 0 <= i < |vs| :: Made(vs[i], names, scope)
  }

  ghost predicate BranchesMade(bs: seq<Branch>, names: seq<string>, scope: Option<Scope>)
  {
    forall i | 0 <= i < |bs| :: Made(bs[i].v, names, scope)
  }

  lemma MadeFromMore(v: Value, a: seq<string>, b: seq<string>, scope: Option<Scope>)
    requires Made(v, a, scope) && forall n <- a :: n in b
    ensures Made(v, b, scope)
  {
  }

  lemma Sides(a: seq<string>, b: seq<string>)
    ensures (forall n <- a :: n in a + b) && (forall n <- b :: n in a + b)
  {
  }

  lemma MadeMeet(t: Tools, a: Value, b: Value, names: seq<string>, scope: Option<Scope>)
    requires Fit(t) && Made(a, names, scope) && Made(b, names, scope)
    ensures Made(t.meet(a, b), names, scope)
  {
    hide Good, Reads, HasThunk;
    assert FitAt(t, a, b);
  }

  lemma MadeThunk(e: Expr)
    requires FreeRefs(e) != [] && NeatExpr(e)
    ensures Made(Thunk(FreeRefs(e), e), Names(e), None)
  {
  }

  lemma {:induction false} ThunkReads(v: Value)
    requires Core(v) && HasThunk(v)
    ensures Reads(v) != {}
  {
    match v
    case Thunk(refs, _) => assert refs[0] in Reads(v);
    case List(ps, tl) =>
      ReadsOfValuesIff(ps, {});
      if i :| 0 <= i < |ps| && HasThunk(ps[i]) {
        ThunkReads(ps[i]);
        ReadsIff(ps[i], {});
      } else {
        ThunkReads(tl.elem);
      }
    case Disj(bs) =>
      ReadsOfBranchesIff(bs, {});
      var i :| 0 <= i < |bs| && HasThunk(bs[i].v);
      ThunkReads(bs[i].v);
      ReadsIff(bs[i].v, {});
    case _ =>
  }

  /** A good value that reads nothing holds no thunk. */
  lemma ReadsNothing(v: Value)
    requires Core(v) && Reads(v) == {}
    ensures !HasThunk(v)
  {
    if HasThunk(v) { ThunkReads(v); }
  }

  lemma MadeOfNothing(v: Value, e: Expr, scope: Option<Scope>)
    requires Made(v, Names(e), scope) && FreeRefs(e) == []
    ensures !HasThunk(v)
  {
    forall n ensures n !in RefSet(Names(e)) { assert n !in FreeRefs(e); }
    ReadsNothing(v);
  }

  lemma MadeLookUp(n: string, scope: Option<Scope>)
    requires Sound(scope) && LookUp(n, scope).Ok?
    ensures Made(LookUp(n, scope).v, [n], scope) && !HasThunk(LookUp(n, scope).v)
  {
    var v := scope.value[n];
    LookedUpHasNoThunk(n, scope.value);
    var r := LookUp(n, scope).v;
    NoThunkNoReads(r, RefSet([n]));
    if v.Disj? { BranchIsGood(v, DefaultIndex(v.branches).value); }
  }

  lemma MadeBuild(bs: seq<Branch>, hasMark: bool, names: seq<string>, scope: Option<Scope>)
    requires BranchesMade(bs, names, scope) && NoBranchHasThunk(bs)
    ensures Made(BuildDisjunction(bs, hasMark), names, scope) && !HasThunk(BuildDisjunction(bs, hasMark))
  {
    hide Made, Dedupe, HasThunk;
    BuildHasNoThunk(bs, hasMark);
    var live := Dedupe(LiveOf(bs));
    forall k | 0 <= k < |live| ensures Made(live[k].v, names, scope) {
      DedupeOrigin(LiveOf(bs), k);
      var i :| 0 <= i < |LiveOf(bs)| && live[k].v == LiveOf(bs)[i].v;
      assert LiveOf(bs)[i] in bs;
    }
    var raised := if hasMark then RaiseMaybe(live) else live;
    assert BranchesMade(raised, names, scope);
    if raised == [] { MadeConstant(Bottom, names, scope); } else if |raised| > 1 { MadeDisj(raised, names, scope); }
  }

  lemma MadeConstant(v: Value, names: seq<string>, scope: Option<Scope>)
    requires v.Bottom? || v.Top? || v.Con? || v.Atom? || v.Bounded?
    ensures Made(v, names, scope) && !HasThunk(v)
  {
  }

  lemma MadeDisj(bs: seq<Branch>, names: seq<string>, scope: Option<Scope>)
    requires BranchesMade(bs, names, scope) && !HasThunk(Disj(bs))
    ensures Made(Disj(bs), names, scope)
  {
    CoreDisj(bs);
    NoThunkIsNeat(Disj(bs));
    NoThunkNoReads(Disj(bs), RefSet(names));
    hide Core, Neat, Reads;
  }

  lemma MadeList(ps: seq<Value>, tl: Values.Tail, names: seq<string>, scope: Option<Scope>)
    requires AllMade(ps, names, scope) && (tl.Open? ==> Made(tl.elem, names, scope) && !HasThunk(tl.elem))
    ensures Made(List(ps, tl), names, scope)
  {
    CoreList(List(ps, tl));
    ReadsOfValuesIff(ps, RefSet(names));
    forall i | 0 <= i < |ps| { ReadsIff(ps[i], RefSet(names)); }
    hide EachThunk, Core, Neat;
  }

  lemma MadeFlatten(v: Value, marked: bool, names: seq<string>, scope: Option<Scope>)
    requires Made(v, names, scope)
    ensures BranchesMade(Flatten(v, marked), names, scope)
  {
    if v.Disj? {
      ReadsOfBranchesIff(v.branches, RefSet(names));
      forall i | 0 <= i < |v.branches| ensures Made(v.branches[i].v, names, scope) {
        BranchIsGood(v, i);
        ReadsIff(v.branches[i].v, RefSet(names));
      }
    }
    hide Made;
  }

  lemma MadeUnary(t: Tools, uop: UnOp, v: Value, names: seq<string>, scope: Option<Scope>)
    requires UnaryOf(t, uop, v).Ok?
    ensures Made(UnaryOf(t, uop, v).v, names, scope) && !HasThunk(UnaryOf(t, uop, v).v)
  {
    hide Made, HasThunk;
    MadeConstant(UnaryOf(t, uop, v).v, names, scope);
  }

  lemma MadeCall(v: Value, names: seq<string>, scope: Option<Scope>)
    requires Made(v, names, None)
    ensures Closing(v).Ok? ==> Made(Closing(v).v, names, scope) && !HasThunk(Closing(v).v)
    ensures MinRunes(v).Ok? ==> Made(MinRunes(v).v, names, scope) && !HasThunk(MinRunes(v).v)
  {
  }

  /**
    MAIN: what a neat expression evaluates to, compiling or forcing, is good and reads only its own
    references; an inert one holds no thunk.
   */
  lemma {:induction false} ExprIsMade(t: Tools, e: Expr, scope: Option<Scope>)
    requires Fit(t) && Sound(scope) && NeatExpr(e) && EvalExpr(t, e, scope).Ok?
    ensures Made(EvalExpr(t, e, scope).v, Names(e), scope)
    ensures Inert(e) ==> !HasThunk(EvalExpr(t, e, scope).v)
    decreases e, 0
  {
    hide Made, Fit, Sound, BuildDisjunction, Comparison, UnaryOf, HasThunk, LookUp, AllMade, BranchesMade, Closing, MinRunes, FreeRefs;
    var v := EvalExpr(t, e, scope).v;
    match e
    case Basic(_) => MadeConstant(v, Names(e), scope);
    case Ident(n) =>
      if Keyword(n).Some? { MadeConstant(v, Names(e), scope); } else { MadeLookUp(n, scope); }
    case Index(target, index) =>
      IndexIsMade(t, e, scope);
      if Inert(e) { MadeOfNothing(v, e, scope); }
    case Binary(op, x, y) =>
      if IsCompare(op) {
        ComparisonIsBool(t, op, x, y, EvalExpr(t, x, scope), EvalExpr(t, y, scope));
        MadeConstant(v, Names(e), scope);
      } else if op.And? {
        AndIsMade(t, e, scope);
      } else {
        OrIsMade(t, e, scope);
      }
    case Paren(x) => ExprIsMade(t, x, scope);
    case ListLit(es) =>
      ListIsMade(t, es, scope);
      var l := EvalList(t, es, scope).v;
      MadeList(l.0, l.1, ElemNames(es), scope);
      if FreeRefs(e) == [] {
        MadeOfNothing(v, e, scope);
      } else if InertElems(es) {
        ListHasNoThunk(l.0, l.1);
      }
    case StructLit(ds) => StructIsMade(t, ds, scope);
    case Unary(uop, x) => MadeUnary(t, uop, CompileExpr(t, x).v, Names(e), scope);
    case Call(fun, args) => CallIsMade(t, e, scope);
    case _ =>
  }

  lemma ComparisonIsBool(t: Tools, op: BinOp, x: Expr, y: Expr, l: Res<Value>, r: Res<Value>)
    requires IsCompare(op) && Comparison(t, op, x, y, l, r).Ok?
    ensures Comparison(t, op, x, y, l, r).v.Con?
  {
  }

  lemma {:induction false} CallIsMade(t: Tools, e: Expr, scope: Option<Scope>)
    requires Fit(t) && Sound(scope) && NeatExpr(e) && e.Call? && EvalExpr(t, e, scope).Ok?
    ensures Made(EvalExpr(t, e, scope).v, Names(e), scope) && !HasThunk(EvalExpr(t, e, scope).v)
    decreases e, 0, 0
  {
    hide Made, Fit, Sound, Closing, MinRunes, HasThunk;
    var args := e.args;
    assert NeatExprs(args);
    CompiledIsMade(t, args[0]);
    assert ExprNames(args) == Names(args[0]) + ExprNames(args[1..]);
    Sides(Names(args[0]), ExprNames(args[1..]));
    Sides(Names(e.fun), ExprNames(args));
    MadeFromMore(CompileExpr(t, args[0]).v, Names(args[0]), Names(e), None);
    MadeCall(CompileExpr(t, args[0]).v, Names(e), scope);
  }

  lemma {:induction false} IndexIsMade(t: Tools, e: Expr, scope: Option<Scope>)
    requires Fit(t) && Sound(scope) && NeatExpr(e) && e.Index? && EvalExpr(t, e, scope).Ok?
    ensures Made(EvalExpr(t, e, scope).v, Names(e), scope)
    decreases e, 0, 0
  {
    hide Made, Fit, Sound;
    ItemsAreMade(t, e.target.elems, scope);
    var vs := EvalItems(t, e.target.elems, scope).v;
    var k := EvalExpr(t, e.index, scope).v;
    if 0 <= k.s.i < |vs| {
      Sides(Names(e.target), Names(e.index));
      MadeFromMore(vs[k.s.i], ElemNames(e.target.elems), Names(e), scope);
    } else {
      MadeConstant(Bottom, Names(e), scope);
    }
  }

  lemma {:induction false} AndIsMade(t: Tools, e: Expr, scope: Option<Scope>)
    requires Fit(t) && Sound(scope) && NeatExpr(e) && e.Binary? && e.op.And? && EvalExpr(t, e, scope).Ok?
    ensures Made(EvalExpr(t, e, scope).v, Names(e), scope)
    ensures Inert(e) ==> !HasThunk(EvalExpr(t, e, scope).v)
    decreases e, 0, 0
  {
    hide Sound, HasThunk, Made, FitAt, FreeRefs;
    ExprIsMade(t, e.x, scope);
    ExprIsMade(t, e.y, scope);
    var l, r := EvalExpr(t, e.x, scope).v, EvalExpr(t, e.y, scope).v;
    MadeWithoutThunk(l, Names(e.x), scope);
    MadeWithoutThunk(r, Names(e.y), scope);
    Sides(Names(e.x), Names(e.y));
    MadeFromMore(l, Names(e.x), Names(e), scope);
    MadeFromMore(r, Names(e.y), Names(e), scope);
    if HasThunk(l) || HasThunk(r) {
      if FreeRefs(e) == [] {
        MadeOfNothing(l, e, scope);
        MadeOfNothing(r, e, scope);
      }
      MadeThunk(e);
    } else {
      MadeMeet(t, l, r, Names(e), scope);
    }
  }

  lemma MadeWithoutThunk(v: Value, names: seq<string>, scope: Option<Scope>)
    requires Made(v, names, scope)
    ensures HasThunk(v) ==> scope.None?
  {
  }

  lemma {:induction false} OrIsMade(t: Tools, e: Expr, scope: Option<Scope>)
    requires Fit(t) && Sound(scope) && NeatExpr(e) && e.Binary? && e.op.Or? && EvalExpr(t, e, scope).Ok?
    ensures Made(EvalExpr(t, e, scope).v, Names(e), scope) && !HasThunk(EvalExpr(t, e, scope).v)
    decreases e, 0, 0
  {
    hide Fit, Sound, Made, BuildDisjunction, BranchesMade, HasThunk;
    BranchesAreMade(t, e.x, false, scope);
    BranchesAreMade(t, e.y, false, scope);
    var a, b := EvalBranches(t, e.x, false, scope).v, EvalBranches(t, e.y, false, scope).v;
    BranchesTogether(a.0, b.0, Names(e.x), Names(e.y), scope);
    MadeBuild(a.0 + b.0, a.1 || b.1, Names(e), scope);
  }

  lemma BranchesTogether(a: seq<Branch>, b: seq<Branch>, na: seq<string>, nb: seq<string>, scope: Option<Scope>)
    requires BranchesMade(a, na, scope) && BranchesMade(b, nb, scope)
    ensures BranchesMade(a + b, na + nb, scope)
  {
    hide Made;
    Sides(na, nb);
    forall i | 0 <= i < |a + b| ensures Made((a + b)[i].v, na + nb, scope) {
      if i < |a| { MadeFromMore(a[i].v, na, na + nb, scope); } else { MadeFromMore(b[i - |a|].v, nb, na + nb, scope); }
    }
  }

  /** An inert list literal never has to wait. */
  lemma {:induction false} InertListResolves(t: Tools, es: seq<Elem>)
    requires InertElems(es)
    ensures !EvalList(t, es, None).Unresolved?
    decreases es
  {
    if es != [] {
      var n := |es| - 1;
      assert InertElem(es[n]) && forall i | 0 <= i < n :: es[..n][i] == es[i];
      InertListResolves(t, es[..n]);
      hide CompileExpr, InertElem;
    }
  }

  lemma {:induction false} InertResolves(t: Tools, e: Expr)
    requires Inert(e) && Deferrable(e) && FreeRefs(e) != []
    ensures !EvalExpr(t, e, None).Unresolved?
    decreases e
  {
    hide EvalList, InertElems;
    if e.Paren? {
      assert Names(e) == Names(e.inner);
      InertResolves(t, e.inner);
    } else if e.ListLit? {
      InertListResolves(t, e.elems);
    }
  }

  /** MAIN: the same of what the expression compiles to, a thunk included. */
  lemma {:induction false} CompiledIsMade(t: Tools, e: Expr)
    requires Fit(t) && NeatExpr(e) && CompileExpr(t, e).Ok?
    ensures Made(CompileExpr(t, e).v, Names(e), None)
    ensures Inert(e) ==> !HasThunk(CompileExpr(t, e).v)
    decreases e, 1
  {
    hide Made, Fit, EvalExpr, HasThunk, Inert, NeatExpr;
    if EvalExpr(t, e, None).Ok? {
      ExprIsMade(t, e, None);
    } else {
      MadeThunk(e);
      if Inert(e) { InertResolves(t, e); }
    }
  }

  lemma {:induction false} ChildIsMade(t: Tools, e: Expr, scope: Option<Scope>)
    requires Fit(t) && Sound(scope) && NeatExpr(e) && EvalChild(t, e, scope).Ok?
    ensures Made(EvalChild(t, e, scope).v, Names(e), scope)
    ensures Inert(e) ==> !HasThunk(EvalChild(t, e, scope).v)
    decreases e, 2
  {
    hide Made, Fit, EvalExpr, CompileExpr, HasThunk, Inert, NeatExpr;
    if scope.None? { CompiledIsMade(t, e); } else { ExprIsMade(t, e, scope); }
  }

  lemma {:induction false} BranchesAreMade(t: Tools, e: Expr, marked: bool, scope: Option<Scope>)
    requires Fit(t) && Sound(scope) && NeatExpr(e) && Inert(e) && EvalBranches(t, e, marked, scope).Ok?
    ensures BranchesMade(EvalBranches(t, e, marked, scope).v.0, Names(e), scope)
    ensures NoBranchHasThunk(EvalBranches(t, e, marked, scope).v.0)
    decreases e, 3
  {
    hide Fit, Sound, Made, BranchesMade, Flatten, EvalChild, HasThunk;
    if e.Unary? && e.uop.Mark? {
      BranchesAreMade(t, e.operand, true, scope);
    } else if e.Binary? && e.op.Or? {
      BranchesAreMade(t, e.x, marked, scope);
      BranchesAreMade(t, e.y, marked, scope);
      BranchesTogether(EvalBranches(t, e.x, marked, scope).v.0, EvalBranches(t, e.y, marked, scope).v.0, Names(e.x), Names(e.y), scope);
    } else {
      ChildIsMade(t, e, scope);
      MadeFlatten(EvalChild(t, e, scope).v, marked, Names(e), scope);
      FlattenHasNoThunk(EvalChild(t, e, scope).v, marked);
    }
  }

  lemma AllTogether(a: seq<Value>, b: seq<Value>, na: seq<string>, nb: seq<string>, scope: Option<Scope>)
    requires AllMade(a, na, scope) && AllMade(b, nb, scope)
    ensures AllMade(a + b, na + nb, scope)
  {
    hide Made;
    Sides(na, nb);
    forall i | 0 <= i < |a + b| ensures Made((a + b)[i], na + nb, scope) {
      if i < |a| { MadeFromMore(a[i], na, na + nb, scope); } else { MadeFromMore(b[i - |a|], nb, na + nb, scope); }
    }
  }

  lemma AllOfOne(v: Value, names: seq<string>, scope: Option<Scope>)
    requires Made(v, names, scope)
    ensures AllMade([v], names, scope) && AllMade([], names, scope)
  {
  }

  lemma NoneMade(names: seq<string>, scope: Option<Scope>)
    ensures AllMade([], names, scope)
  {
  }

  lemma {:induction false} ItemsAreMade(t: Tools, es: seq<Elem>, scope: Option<Scope>)
    requires Fit(t) && Sound(scope) && NeatElems(es) && EvalItems(t, es, scope).Ok?
    ensures AllMade(EvalItems(t, es, scope).v, ElemNames(es), scope)
    decreases es, 4
  {
    NoneMade(ElemNames(es), scope);
    if es != [] {
      hide Fit, Sound, Made, AllMade, EvalExpr, EvalComp, ElemNames, HasThunk;
      var el := es[0];
      var rest := EvalItems(t, es[1..], scope).v;
      ElemNamesCons(es);
      assert NeatElem(el);
      ItemsAreMade(t, es[1..], scope);
      match el
      case Ellipsis(_) =>
        NoneMade(NamesOf(el), scope);
        AllTogether([], rest, NamesOf(el), ElemNames(es[1..]), scope);
      case CompElem(c) =>
        assert c < el;
        CompIsMade(t, c, scope);
        AllTogether(EvalComp(t, c, scope).v, rest, NamesOf(el), ElemNames(es[1..]), scope);
      case Item(e) =>
        assert e < el;
        ExprIsMade(t, e, scope);
        AllOfOne(EvalExpr(t, e, scope).v, NamesOf(el), scope);
        AllTogether([EvalExpr(t, e, scope).v], rest, NamesOf(el), ElemNames(es[1..]), scope);
    }
  }

  ghost predicate TailMade(tl: Values.Tail, names: seq<string>, scope: Option<Scope>)
  {
    tl.Open? ==> Made(tl.elem, names, scope) && !HasThunk(tl.elem)
  }

  lemma TailFromMore(tl: Values.Tail, a: seq<string>, b: seq<string>, scope: Option<Scope>)
    requires TailMade(tl, a, scope)
    ensures TailMade(tl, a + b, scope)
  {
    Sides(a, b);
    if tl.Open? { MadeFromMore(tl.elem, a, a + b, scope); }
  }

  lemma {:induction false} ListIsMade(t: Tools, es: seq<Elem>, scope: Option<Scope>)
    requires Fit(t) && Sound(scope) && NeatElems(es) && EvalList(t, es, scope).Ok?
    ensures AllMade(EvalList(t, es, scope).v.0, ElemNames(es), scope)
    ensures TailMade(EvalList(t, es, scope).v.1, ElemNames(es), scope)
    ensures InertElems(es) ==> NoneHasThunk(EvalList(t, es, scope).v.0)
    decreases es, 4
  {
    NoneMade(ElemNames(es), scope);
    if es != [] {
      hide Fit, Sound, Made, AllMade, EvalChild, EvalComp, ElemNames, HasThunk;
      var n := |es| - 1;
      var el := es[n];
      var front, more := ElemNames(es[..n]), NamesOf(el);
      ElemNamesSnoc(es);
      assert NeatElem(el) && (InertElems(es) ==> InertElem(el));
      ListIsMade(t, es[..n], scope);
      var before := EvalList(t, es[..n], scope).v;
      TailFromMore(before.1, front, more, scope);
      NoneMade(more, scope);
      AllTogether(before.0, [], front, more, scope);
      assert before.0 + [] == before.0;
      match el
      case Ellipsis(None) => MadeConstant(Top, front + more, scope);
      case Ellipsis(Some(typ)) =>
        assert typ < el.typ && el.typ < el;
        ChildIsMade(t, typ, scope);
        Sides(front, more);
        MadeFromMore(EvalChild(t, typ, scope).v, more, front + more, scope);
      case CompElem(c) =>
        assert c < el;
        CompIsMade(t, c, scope);
        AllTogether(before.0, EvalComp(t, c, scope).v, front, more, scope);
      case Item(e) =>
        assert e < el;
        ChildIsMade(t, e, scope);
        AllOfOne(EvalChild(t, e, scope).v, more, scope);
        AllTogether(before.0, [EvalChild(t, e, scope).v], front, more, scope);
    }
  }

  lemma {:induction false} CompIsMade(t: Tools, c: Comprehension, scope: Option<Scope>)
    requires Fit(t) && Sound(scope) && NeatComp(c) && EvalComp(t, c, scope).Ok?
    ensures AllMade(EvalComp(t, c, scope).v, CompNames(c), scope)
    decreases c, 4
  {
    hide Fit, Sound, Made, AllMade, EvalExpr, EvalStruct;
    StructIsMade(t, c.body.decls, scope);
    var v := EvalStruct(t, c.body.decls, scope).v;
    Sides(ClauseNames(c.clauses), Names(c.body));
    MadeFromMore(v, DeclNames(c.body.decls), CompNames(c), scope);
    AllOfOne(v, CompNames(c), scope);
  }

  // ----- Struct literals -----

  /** The fields so far: each good, and without thunks when forced. */
  ghost predicate FieldsMade(fs: seq<Field>, scope: Option<Scope>)
  {
    forall i | 0 <= i < |fs| :: Good(fs[i].val) && (scope.Some? ==> !HasThunk(fs[i].val))
  }

  lemma {:induction false} AppendIsMade(t: Tools, fs: seq<Field>, f: Field, scope: Option<Scope>)
    requires Fit(t) && FieldsMade(fs, scope) && Good(f.val) && (scope.Some? ==> !HasThunk(f.val))
    ensures FieldsMade(AppendOrUnify(t, fs, f), scope)
  {
    hide Good, HasThunk;
    if fs != [] {
      if fs[0].name == f.name {
        assert MeetAddsNoThunk(t) && FitAt(t, fs[0].val, f.val);
      } else {
        AppendIsMade(t, fs[1..], f, scope);
        assert AppendOrUnify(t, fs, f) == [fs[0]] + AppendOrUnify(t, fs[1..], f);
      }
    }
  }

  lemma StructLitIsGood(fs: seq<Field>, closed: bool, names: seq<string>, scope: Option<Scope>)
    requires FieldsMade(fs, scope) && (scope.None? ==> RefsDeclared(fs))
    ensures Made(Struct(fs, closed), names, scope)
  {
    forall i | 0 <= i < |fs| ensures Reads(fs[i].val) <= FieldNames(fs) && Core(fs[i].val) && Neat(fs[i].val) {
      if scope.Some? { NoThunkNoReads(fs[i].val, FieldNames(fs)); }
    }
    hide Reads;
    StructReads(fs, closed);
  }

  lemma StructReads(fs: seq<Field>, closed: bool)
    ensures Reads(Struct(fs, closed)) == {} && !HasThunk(Struct(fs, closed))
  {
  }

  lemma FinishIsMade(t: Tools, b: Built, names: seq<string>, scope: Option<Scope>)
    requires Fit(t) && FieldsMade(b.fields, scope) && (b.embedded.Some? ==> Made(b.embedded.value, names, scope))
    requires Finish(t, b, scope.None?).Ok?
    ensures Made(Finish(t, b, scope.None?).v, names, scope) && !HasThunk(Finish(t, b, scope.None?).v)
  {
    var s := Struct(b.fields, false);
    StructLitIsGood(b.fields, false, names, scope);
    StructReads(b.fields, false);
    if b.embedded.Some? {
      var v := b.embedded.value;
      if b.fields == [] {
        if scope.None? { ReadsNothing(v); }
      } else {
        assert FitAt(t, s, v);
        hide Good, Fit, Reads, HasThunk;
        MadeMeet(t, s, v, names, scope);
      }
    }
  }

  lemma {:induction false} StructIsMade(t: Tools, ds: seq<Decl>, scope: Option<Scope>)
    requires Fit(t) && Sound(scope) && NeatDecls(ds) && EvalStruct(t, ds, scope).Ok?
    ensures Made(EvalStruct(t, ds, scope).v, DeclNames(ds), scope) && !HasThunk(EvalStruct(t, ds, scope).v)
    decreases ds, 5
  {
    hide Fit, Sound, Made, EvalDecls, FieldsMade, Finish, HasThunk;
    DeclsAreMade(t, ds, scope);
    FinishIsMade(t, EvalDecls(t, ds, scope).v, DeclNames(ds), scope);
  }

  lemma MadeIsFieldMade(v: Value, names: seq<string>, scope: Option<Scope>)
    requires Made(v, names, scope)
    ensures Good(v) && (scope.Some? ==> !HasThunk(v))
  {
  }

  lemma {:induction false} DeclsAreMade(t: Tools, ds: seq<Decl>, scope: Option<Scope>)
    requires Fit(t) && Sound(scope) && NeatDecls(ds) && EvalDecls(t, ds, scope).Ok?
    ensures var b := EvalDecls(t, ds, scope).v;
      && FieldsMade(b.fields, scope)
      && (b.embedded.Some? ==> Made(b.embedded.value, DeclNames(ds), scope))
    decreases ds, 4
  {
    if ds != [] {
      hide Fit, Sound, Made, EvalChild, DeclNames, AppendOrUnify, FieldsMade, Good, HasThunk;
      var n := |ds| - 1;
      var d := ds[n];
      var front, more := DeclNames(ds[..n]), NamesIn(d);
      DeclNamesSnoc(ds);
      assert NeatDecl(d);
      DeclsAreMade(t, ds[..n], scope);
      var before := EvalDecls(t, ds[..n], scope).v;
      Sides(front, more);
      if before.embedded.Some? { MadeFromMore(before.embedded.value, front, front + more, scope); }
      match d
      case FieldDecl(lab, optional, value) =>
        assert value < d;
        ChildIsMade(t, value, scope);
        var v := EvalChild(t, value, scope).v;
        MadeIsFieldMade(v, Names(value), scope);
        AppendIsMade(t, before.fields, Field(FieldLabel(lab).value, v, optional), scope);
      case Embed(e) =>
        assert e < d;
        ChildIsMade(t, e, scope);
        var v := EvalChild(t, e, scope).v;
        MadeFromMore(v, more, front + more, scope);
        if before.embedded.Some? { MadeMeet(t, before.embedded.value, v, front + more, scope); }
      case _ =>
    }
  }

  // ----- The evaluator's meet is what the evaluator needs -----

  lemma ListMeetIsGood(t: Tools, v: Value, o: Value)
    requires Fit(t) && v.List? && o.List? && Good(v) && Good(o)
    ensures var m := ListBy(t.meet, v, o); Good(m) && (Stuck(v) || Stuck(o) ==> Stuck(m))
  {
    hide Good, HasThunk, Stuck;
    BottomIsGood();
    BottomIsStuck();
    if LengthsAgree(v, o) {
      var out := ListBy(t.meet, v, o);
      forall i | 0 <= i < |out.prefix|
        ensures Good(out.prefix[i])
        ensures Stuck(ElemAt(v, i)) || Stuck(ElemAt(o, i)) ==> Stuck(out.prefix[i])
      {
        ElemIsGood(v, i);
        ElemIsGood(o, i);
        assert FitAt(t, ElemAt(v, i), ElemAt(o, i));
        assert out.prefix[i] == t.meet(ElemAt(v, i), ElemAt(o, i));
      }
      if out.tail.Open? {
        TailIsGood(v);
        TailIsGood(o);
        assert FitAt(t, v.tail.elem, o.tail.elem) && MeetAddsNoThunk(t);
      }
      GoodList(out);
      StuckList(v);
      StuckList(o);
      StuckList(out);
      hide Fit, FitAt;
      if Stuck(v) || Stuck(o) {
        var i :| 0 <= i < |out.prefix| && (Stuck(ElemAt(v, i)) || Stuck(ElemAt(o, i)));
        assert ElemAt(out, i) == out.prefix[i];
      }
    }
  }

  lemma BottomIsStuck()
    ensures Stuck(Bottom)
  {
  }

  lemma StuckList(l: Value)
    requires l.List?
    ensures Stuck(l) <==> exists i | 0 <= i < |l.prefix| :: Stuck(ElemAt(l, i))
  {
    if Stuck(l) {
      var i :| 0 <= i < |l.prefix| && Stuck(l.prefix[i]);
      assert Stuck(ElemAt(l, i));
    }
  }

  lemma GoodList(l: Value)
    requires l.List? && forall i | 0 <= i < |l.prefix| :: Good(l.prefix[i])
    requires l.tail.Open? ==> Good(l.tail.elem) && !HasThunk(l.tail.elem)
    ensures Good(l)
  {
  }

  lemma TailIsGood(l: Value)
    requires l.List? && l.tail.Open? && Good(l)
    ensures Good(l.tail.elem) && !HasThunk(l.tail.elem)
  {
    NoThunkIsNeat(l.tail.elem);
  }

  lemma ElemIsGood(l: Value, i: nat)
    requires l.List? && HasElem(l, i) && Good(l)
    ensures Good(ElemAt(l, i))
  {
    if i >= |l.prefix| { TailIsGood(l); }
  }

  /** A surviving branch of two good values. */
  lemma SurvivorIsGood(t: Tools, d: Value, o: Value, k: nat)
    requires Fit(t) && d.Disj? && Good(d) && Good(o) && k < |Dedupe(PrunedBy(t.meet, d, o))|
    ensures var s := Dedupe(PrunedBy(t.meet, d, o))[k].v;
      && Good(s)
      && (Stuck(d) || Stuck(o) || HasThunk(d) || HasThunk(o) ==> Stuck(s))
      && (o.Struct? ==> !HasThunk(s))
      && (!HasThunk(d) && !HasThunk(o) ==> !HasThunk(s))
  {
    hide Good, Stuck, HasThunk, Dedupe, PrunedBy;
    SurvivorByOrigin(t.meet, d, o, k);
    var i, j :| 0 <= i < |d.branches| && 0 <= j < |BranchesOf(o)| &&
      Dedupe(PrunedBy(t.meet, d, o))[k].v == t.meet(d.branches[i].v, BranchesOf(o)[j].v);
    BranchIsGood(d, i);
    BranchIsGood(o, j);
    BranchNoThunk(d, i);
    BranchNoThunk(o, j);
    assert FitAt(t, d.branches[i].v, BranchesOf(o)[j].v);
  }

  lemma BranchNoThunk(d: Value, i: nat)
    requires i < |BranchesOf(d)|
    ensures !HasThunk(d) ==> !HasThunk(BranchesOf(d)[i].v)
  {
  }

  lemma DisjMeetIsGood(t: Tools, d: Value, o: Value)
    requires Fit(t) && d.Disj? && Good(d) && Good(o)
    ensures var m := DisjBy(t.meet, d, o);
      && Good(m)
      && (Stuck(d) || Stuck(o) ==> Stuck(m))
      && (o.Struct? ==> !HasThunk(m))
  {
    hide Good, Stuck, HasThunk, Dedupe, PrunedBy, DefaultBy, Fit;
    var survivors := Dedupe(PrunedBy(t.meet, d, o));
    BottomIsGood();
    BottomIsStuck();
    BottomHasNoThunk();
    forall k | 0 <= k < |survivors|
      ensures Good(survivors[k].v)
      ensures Stuck(d) || Stuck(o) || HasThunk(d) || HasThunk(o) ==> Stuck(survivors[k].v)
      ensures o.Struct? || (!HasThunk(d) && !HasThunk(o)) ==> !HasThunk(survivors[k].v)
    {
      SurvivorIsGood(t, d, o, k);
    }
    var def := DefaultBy(t.meet, d, o);
    RemarkIsGood(survivors, def, HasThunk(d) || HasThunk(o) || Stuck(d) || Stuck(o), o.Struct? || !(HasThunk(d) || HasThunk(o)));
  }

  /** Good branches, all stuck or all without thunks, make a good disjunction. */
  lemma RemarkIsGood(bs: seq<Branch>, def: Option<Value>, stuck: bool, plain: bool)
    requires forall i | 0 <= i < |bs| :: Good(bs[i].v) && (stuck ==> Stuck(bs[i].v)) && (plain ==> !HasThunk(bs[i].v))
    requires stuck || plain
    ensures bs != [] ==> Good(Disj(Remark(bs, def))) && (stuck ==> Stuck(Disj(Remark(bs, def))))
    ensures plain ==> !HasThunk(Disj(Remark(bs, def)))
  {
    var r := Remark(bs, def);
    hide Stuck, Core, IsConcrete;
    CoreDisj(r);
    if plain {
      DisjHasNoThunk(r);
      NoThunkIsNeat(Disj(r));
    }
    if stuck {
      forall i | 0 <= i < |r| ensures Stuck(r[i].v) && !r[i].mode.Is? { StuckIsOpen(bs[i].v); }
      StuckDisj(r);
    }
  }

  lemma StuckDisj(bs: seq<Branch>)
    ensures Stuck(Disj(bs)) <==> bs != [] && forall i | 0 <= i < |bs| :: Stuck(bs[i].v)
  {
  }

  // ----- Forcing before a struct meet -----

  lemma ForcingEvaluates(t: Tools)
    requires MeetAddsNoThunk(t)
    ensures Evaluates(Forcing(t))
  {
    hide EvalExpr, HasThunk;
    forall x: Expr, s: Scope | Forceless(s) ensures !HasThunk(Forcing(t)(x, s)) {
      BottomHasNoThunk();
      if EvalExpr(t, x, Some(s)).Ok? { ForcedHasNoThunk(t, x, s); }
    }
  }

  lemma {:induction false} ForceIsCore(t: Tools, v: Value, scope: Scope, soft: bool)
    requires Fit(t) && Sound(Some(scope)) && Core(v)
    ensures Core(ForceValue(v, scope, soft, Forcing(t)))
    decreases v
  {
    hide Fit, Sound, EvalExpr, Dedupe;
    match v
    case Thunk(_, e) => ForcedIsGood(t, e, scope);
    case List(p, tl) =>
      if HasThunk(v) {
        forall i | 0 <= i < |p| ensures Core(ForceValue(p[i], scope, soft, Forcing(t))) { ForceIsCore(t, p[i], scope, soft); }
        if tl.Open? { ForceIsCore(t, tl.elem, scope, soft); }
      }
    case Disj(bs) =>
      if HasThunk(v) {
        var forced := seq(|bs|, i requires 0 <= i < |bs| => Branch(ForceValue(bs[i].v, scope, soft, Forcing(t)), bs[i].mode));
        forall i | 0 <= i < |bs| ensures Core(forced[i].v) { ForceIsCore(t, bs[i].v, scope, soft); }
        RebuildIsCore(forced);
      }
    case _ =>
  }

  lemma RebuildIsCore(bs: seq<Branch>)
    requires forall i | 0 <= i < |bs| :: Core(bs[i].v)
    ensures Core(RebuildDisjunction(bs))
  {
    hide Core, Dedupe;
    var live := Dedupe(LiveOf(bs));
    forall k | 0 <= k < |live| ensures Core(live[k].v) { LiveOrigin(bs, k); }
    CoreDisj(live);
    assert Core(Bottom) by { BottomIsGood(); assert Good(Bottom) ==> Core(Bottom); }
  }

  lemma ForcedIsGood(t: Tools, e: Expr, scope: Scope)
    requires Fit(t) && Sound(Some(scope)) && NeatExpr(e)
    ensures Good(Forced(t, e, scope)) && !HasThunk(Forced(t, e, scope))
  {
    hide EvalExpr, Fit, Sound, Core, Neat, HasThunk;
    BottomIsGood();
    BottomHasNoThunk();
    if EvalExpr(t, e, Some(scope)).Ok? { ExprIsMade(t, e, Some(scope)); }
  }

  /** A hard force leaves no thunk. */
  lemma {:induction false} HardForceLeavesNone(v: Value, scope: Scope, ev: Closures)
    requires Evaluates(ev) && Forceless(scope)
    ensures !HasThunk(ForceValue(v, scope, false, ev))
    decreases v
  {
    match v
    case List(p, tl) =>
      if HasThunk(v) {
        var r := ForceValue(v, scope, false, ev);
        forall i | 0 <= i < |p| ensures !HasThunk(r.prefix[i]) { HardForceLeavesNone(p[i], scope, ev); }
        if tl.Open? { HardForceLeavesNone(tl.elem, scope, ev); }
      }
    case Disj(bs) =>
      if HasThunk(v) {
        var forced := seq(|bs|, i requires 0 <= i < |bs| => Branch(ForceValue(bs[i].v, scope, false, ev), bs[i].mode));
        forall i | 0 <= i < |bs| ensures !HasThunk(forced[i].v) { HardForceLeavesNone(bs[i].v, scope, ev); }
        RebuildHasNone(forced);
      }
    case _ =>
  }

  lemma RebuildHasNone(bs: seq<Branch>)
    requires forall i | 0 <= i < |bs| :: !HasThunk(bs[i].v)
    ensures !HasThunk(RebuildDisjunction(bs))
  {
    hide HasThunk, Dedupe;
    var live := Dedupe(LiveOf(bs));
    forall k | 0 <= k < |live| ensures !HasThunk(live[k].v) { LiveOrigin(bs, k); }
    DisjHasNoThunk(live);
    BottomHasNoThunk();
  }

  /** The fields of a struct between passes. */
  ghost predicate CoreFields(v: Value)
    requires v.Struct?
  {
    forall i | 0 <= i < |v.fields| :: Core(v.fields[i].val) && Quiet(v.fields[i].val)
  }

  lemma {:induction false} BoundFrom(scope: Scope, fs: seq<Field>, n: string)
    requires n in BindConcrete(scope, fs)
    ensures (n in scope && BindConcrete(scope, fs)[n] == scope[n]) || exists i | 0 <= i < |fs| :: BindConcrete(scope, fs)[n] == fs[i].val
  {
    hide IsConcrete;
    if fs != [] {
      var k := |fs| - 1;
      if n in BindConcrete(scope, fs[..k]) { BoundFrom(scope, fs[..k], n); }
    }
  }

  lemma ScopeIsSound(v: Value, o: Value)
    requires v.Struct? && o.Struct? && CoreFields(v) && CoreFields(o)
    ensures Sound(Some(ConcreteScope(v, o)))
  {
    hide Core, Quiet, BindConcrete, HasThunk, Neat;
    QuietScope(v, o);
    var scope := ConcreteScope(v, o);
    forall n <- scope ensures Good(scope[n]) {
      BoundFrom(BindConcrete(map[], v.fields), o.fields, n);
      if n in BindConcrete(map[], v.fields) { BoundFrom(map[], v.fields, n); }
      assert Core(scope[n]);
      NoThunkIsNeat(scope[n]);
    }
  }

  lemma ForceKeepsCore(t: Tools, v: Value, scope: Scope, soft: bool)
    requires Fit(t) && v.Struct? && CoreFields(v) && Sound(Some(scope))
    ensures CoreFields(ForceFields(v, scope, soft, Forcing(t)))
    ensures !soft ==> forall f <- ForceFields(v, scope, soft, Forcing(t)).fields :: !HasThunk(f.val)
  {
    hide Core, Quiet, HasThunk, Neat, ForceValue;
    ForcingEvaluates(t);
    var r := ForceFields(v, scope, soft, Forcing(t));
    forall i | 0 <= i < |v.fields|
      ensures Core(r.fields[i].val) && Quiet(r.fields[i].val) && (!soft ==> !HasThunk(r.fields[i].val))
    {
      ForceIsCore(t, v.fields[i].val, scope, soft);
      QuietForce(v.fields[i].val, scope, soft, Forcing(t));
      if !soft { HardForceLeavesNone(v.fields[i].val, scope, Forcing(t)); }
    }
  }

  lemma {:induction false} SettleKeepsCore(t: Tools, v: Value, o: Value)
    requires Fit(t) && v.Struct? && o.Struct? && CoreFields(v) && CoreFields(o)
    ensures var (v1, o1) := Settle(v, o, Forcing(t)); CoreFields(v1) && CoreFields(o1)
    decreases |v.fields| + |o.fields| - |ConcreteScope(v, o)|
  {
    hide CoreFields, ConcreteScope, ForceFields, HasThunkField, Fit, Sound;
    ScopeNames(v, o);
    PassGrows(v, o, Forcing(t));
    if HasThunkField(v) || HasThunkField(o) {
      ScopeIsSound(v, o);
      ForceKeepsCore(t, v, ConcreteScope(v, o), true);
      ForceKeepsCore(t, o, ConcreteScope(v, o), true);
      var (v1, o1) := Pass(v, o, Forcing(t));
      if |ConcreteScope(v1, o1)| != |ConcreteScope(v, o)| { SettleKeepsCore(t, v1, o1); }
    }
  }

  /** After the forcing both structs have good fields without thunks. */
  lemma ResolvedIsCore(t: Tools, v: Value, o: Value)
    requires Fit(t) && v.Struct? && o.Struct? && CoreFields(v) && CoreFields(o)
    ensures var (v1, o1) := Resolved(v, o, Forcing(t));
      FieldsMade(v1.fields, Some(map[])) && FieldsMade(o1.fields, Some(map[]))
  {
    hide CoreFields, ConcreteScope, ForceFields, Settle, Fit, Sound, FieldsMade;
    SettleKeepsCore(t, v, o);
    var (v1, o1) := Settle(v, o, Forcing(t));
    var scope := ConcreteScope(v1, o1);
    ScopeIsSound(v1, o1);
    ForceKeepsCore(t, v1, scope, false);
    ForceKeepsCore(t, o1, scope, false);
    CoreIsMade(ForceFields(v1, scope, false, Forcing(t)));
    CoreIsMade(ForceFields(o1, scope, false, Forcing(t)));
  }

  lemma CoreIsMade(v: Value)
    requires v.Struct? && CoreFields(v) && forall f <- v.fields :: !HasThunk(f.val)
    ensures FieldsMade(v.fields, Some(map[]))
  {
    hide Core, Neat, HasThunk, Quiet;
    forall i | 0 <= i < |v.fields| ensures Good(v.fields[i].val) && !HasThunk(v.fields[i].val) {
      assert v.fields[i] in v.fields;
      NoThunkIsNeat(v.fields[i].val);
    }
  }

  lemma StructMeetIsGood(t: Tools, v: Value, o: Value)
    requires Fit(t) && v.Struct? && o.Struct? && FieldsMade(v.fields, Some(map[])) && FieldsMade(o.fields, Some(map[]))
    ensures Good(StructBy(t.meet, v, o)) && StructBy(t.meet, v, o).Struct?
  {
    hide Good, HasThunk, ExtraFields, Fit;
    var out := StructBy(t.meet, v, o);
    BottomIsGood();
    BottomHasNoThunk();
    forall i | 0 <= i < |out.fields| ensures Good(out.fields[i].val) && !HasThunk(out.fields[i].val) {
      if i < |v.fields| {
        FieldMeetIsGood(t, v, o, i);
        assert out.fields[i] == FieldBy(t.meet, v.fields[i], o.fields, o.closed);
      } else {
        var k := i - |v.fields|;
        ExtraFrom(v.fields, v.closed, o.fields, k);
        assert out.fields[i] == ExtraFields(v.fields, v.closed, o.fields)[k];
      }
    }
    StructLitIsGood(out.fields, out.closed, [], Some(map[]));
    assert Made(out, [], Some(map[])) ==> Good(out);
  }

  lemma FieldMeetIsGood(t: Tools, v: Value, o: Value, i: nat)
    requires Fit(t) && v.Struct? && o.Struct? && FieldsMade(v.fields, Some(map[])) && FieldsMade(o.fields, Some(map[])) && i < |v.fields|
    ensures var f := FieldBy(t.meet, v.fields[i], o.fields, o.closed); Good(f.val) && !HasThunk(f.val)
  {
    hide Good, HasThunk;
    BottomIsGood();
    BottomHasNoThunk();
    if HasField(o.fields, v.fields[i].name) {
      assert FitAt(t, v.fields[i].val, o.fields[IndexOf(o.fields, v.fields[i].name)].val) && MeetAddsNoThunk(t);
    }
  }

  lemma GoodStructFields(v: Value)
    requires v.Struct? && Good(v)
    ensures CoreFields(v)
  {
    forall i | 0 <= i < |v.fields| ensures Core(v.fields[i].val) && Quiet(v.fields[i].val) { NeatIsQuiet(v.fields[i].val); }
  }

  lemma StructStepIsGood(t: Tools, a: Value, b: Value)
    requires Fit(t) && a.Struct? && b.Struct? && Good(a) && Good(b)
    ensures var (v1, o1) := Resolved(a, b, Forcing(t)); Good(StructBy(t.meet, v1, o1)) && StructBy(t.meet, v1, o1).Struct?
  {
    hide *;
    GoodStructFields(a);
    GoodStructFields(b);
    ResolvedIsCore(t, a, b);
    var (v1, o1) := Resolved(a, b, Forcing(t));
    StructMeetIsGood(t, v1, o1);
  }

  lemma StepIsFit(t: Tools, a: Value, b: Value)
    requires Fit(t) && Good(a) && Good(b)
    ensures var m := Step(t, a, b);
      Good(m) && (Stuck(a) || Stuck(b) ==> Stuck(m)) && (a.Struct? || b.Struct? ==> !HasThunk(m))
  {
    hide Fit, ListBy, DisjBy, StructBy, Resolved, PlainMeet, Good;
    BottomIsGood();
    if a.Disj? { DisjMeetIsGood(t, a, b); }
    if b.Disj? { DisjMeetIsGood(t, b, a); }
    if a.Struct? && b.Struct? { StructStepIsGood(t, a, b); }
    if a.List? && b.List? { ListMeetIsGood(t, a, b); }
    PlainIsPlain(a, b);
    PlainMeetIsGood(a, b);
  }

  lemma PlainMeetIsGood(a: Value, b: Value)
    ensures Good(PlainMeet(a, b)) && !HasThunk(PlainMeet(a, b))
    ensures a.List? || b.List? ==> PlainMeet(a, b).Bottom?
  {
    PlainIsPlain(a, b);
    PlainIsGood(PlainMeet(a, b));
  }

  /** MAIN: at every depth the evaluator's meet keeps references closed, makes no thunk and no reference. */
  lemma {:induction false} EngineIsFit(n: nat, regex: string -> Option<string -> bool>)
    ensures Fit(ToolsAt(n, regex))
  {
    hide Step, Good, Stuck, HasThunk, Reads;
    var t := ToolsAt(n, regex);
    EngineAddsNoThunk(n, regex);
    forall a, b ensures FitAt(t, a, b) {
      if n == 0 {
        BottomIsGood();
        BottomIsStuck();
        BottomHasNoThunk();
      } else if Good(a) && Good(b) {
        EngineIsFit(n - 1, regex);
        EngineStep(n, regex, a, b);
        StepIsFit(ToolsAt(n - 1, regex), a, b);
      }
    }
    forall a, b, names | Reads(a) <= names && Reads(b) <= names ensures Reads(t.meet(a, b)) <= names {
      EngineKeepsThunks(n, regex, Reading(names));
      ReadsIff(a, names);
      ReadsIff(b, names);
      ReadsIff(t.meet(a, b), names);
    }
  }

  // ----- Whole sources -----

  /**
    MAIN: whenever a neat source compiles, no thunk is free, no bottom is buried, and every thunk in a struct
    reads only names of that struct.
   */
  lemma CompilingClosesReferences(n: nat, regex: string -> Option<string -> bool>, ds: seq<Decl>)
    requires NeatDecls(ds) && CompileSource(ToolsAt(n, regex), ds).Some?
    ensures var v := CompileSource(ToolsAt(n, regex), ds).value;
      Scoped(v) && Reads(v) == {} && !HasBottom(v)
  {
    hide EvalStruct, Made, Fit, CompileExpr, Scoped, Good, ToolsAt, Reads, HasBottom;
    var t := ToolsAt(n, regex);
    EngineIsFit(n, regex);
    if |ds| == 1 && ds[0].Embed? {
      assert NeatDecl(ds[0]);
      CompiledIsMade(t, ds[0].e);
      MadeIsScoped(CompileExpr(t, ds[0].e).v, Names(ds[0].e), None);
    } else {
      StructIsMade(t, ds, None);
      MadeIsScoped(EvalStruct(t, ds, None).v, DeclNames(ds), None);
    }
  }

  lemma MadeIsScoped(v: Value, names: seq<string>, scope: Option<Scope>)
    requires Made(v, names, scope)
    ensures Scoped(v)
  {
    CoreIsScoped(v);
  }

  /** MAIN: forcing a neat expression in a thunk-free scope of good values gives a scoped value without thunks. */
  lemma ForcingKeepsScoped(n: nat, regex: string -> Option<string -> bool>, e: Expr, scope: Scope)
    requires NeatExpr(e) && Sound(Some(scope))
    ensures Scoped(Forced(ToolsAt(n, regex), e, scope)) && !HasThunk(Forced(ToolsAt(n, regex), e, scope))
  {
    hide Forced, ToolsAt, Core, Scoped, Neat, Sound, HasThunk;
    EngineIsFit(n, regex);
    ForcedIsGood(ToolsAt(n, regex), e, scope);
    CoreIsScoped(Forced(ToolsAt(n, regex), e, scope));
  }

}
