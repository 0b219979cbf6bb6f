/**
  When the passes' order is irrelevant: if no name a thunk reads is bound on both sides with the second
  binding deferred, forcing every thunk once against the final scope gives what the passes gave. When
  a name is bound on both sides, swapping the operands can change the result.
 */
module ThunkOrder {

  import opened Wrappers
  import opened Values
  import opened Meet
  import opened MeetFacts
  import opened Thunks
  import opened ThunkLaws
  import opened Syntax
  import opened Eval
  import opened EvalLaws

  /** The closure reads only the recorded references. */
  ghost predicate Local(ev: Closures, refs: seq<string>, e: Expr)
  {
    forall s1: Scope, s2: Scope ::
      (forall i :: 0 <= i < |refs| ==> SameBinding(s1, s2, refs[i])) ==> ev(e, s1) == ev(e, s2)
  }

  ghost predicate SameBinding(s1: Scope, s2: Scope, n: string)
  {
    (n in s1 <==> n in s2) && (n in s1 ==> s1[n] == s2[n])
  }

  /** A thunk with a local closure that reads only the names. */
  ghost function LocalTo(ev: Closures, names: set<string>): Value -> bool
  {
    (th: Value) => th.Thunk? && Local(ev, th.refs, th.expr) && forall r <- th.refs :: r in names
  }

  /** Every thunk of the struct's own fields is such a thunk. */
  ghost predicate ReadsWithin(v: Value, ev: Closures, names: set<string>)
    requires v.Struct?
  {
    forall i :: 0 <= i < |v.fields| ==> EachThunk(v.fields[i].val, LocalTo(ev, names))
  }

  predicate HasThunkAt(fs: seq<Field>, n: string)
  {
    Find(fs, n).Some? && HasThunk(Find(fs, n).value.val)
  }

  /** Name n cannot be rebound: the second struct does not defer a field the first one also has. */
  predicate Steady(n: string, v: Value, o: Value)
    requires v.Struct? && o.Struct?
  {
    !(HasThunkAt(o.fields, n) && HasField(v.fields, n))
  }

  ghost predicate Orderly(v: Value, o: Value, ev: Closures, names: set<string>)
  {
    && v.Struct? && o.Struct? && UniqueNames(v.fields) && UniqueNames(o.fields) && TidyFields(v) && TidyFields(o)
    && Evaluates(ev) && ReadsWithin(v, ev, names) && ReadsWithin(o, ev, names)
    && forall n <- names :: Steady(n, v, o)
  }

  /** Orderly structs make thunk-free scopes. */
  lemma OrderlyIsClean(v: Value, o: Value, ev: Closures, names: set<string>)
    requires Orderly(v, o, ev, names)
    ensures Forceless(ConcreteScope(v, o))
  {
    TidyPassesAreClean(v, o, ev);
  }

  // ----- What the scope binds a name to -----

  predicate ConcreteFind(fs: seq<Field>, n: string)
  {
    Find(fs, n).Some? && IsConcrete(Find(fs, n).value.val)
  }

  lemma {:induction false} BindConcreteAt(scope: Scope, fs: seq<Field>, n: string)
    requires UniqueNames(fs)
    ensures n in BindConcrete(scope, fs) <==> n in scope || ConcreteFind(fs, n)
    ensures n in BindConcrete(scope, fs) ==>
              BindConcrete(scope, fs)[n] == if ConcreteFind(fs, n) then Find(fs, n).value.val else scope[n]
  {
    if fs != [] {
      var k := |fs| - 1;
      BindConcreteAt(scope, fs[..k], n);
      FindLast(fs, n);
    }
  }

  lemma FindLast(fs: seq<Field>, n: string)
    requires UniqueNames(fs) && fs != []
    ensures var k := |fs| - 1;
            Find(fs, n) == if fs[k].name == n then Some(fs[k]) else Find(fs[..k], n)
    ensures fs[|fs| - 1].name == n ==> Find(fs[..|fs| - 1], n).None?
  {
    var k := |fs| - 1;
    if HasField(fs[..k], n) {
      var i := IndexOf(fs[..k], n);
      assert fs[..k][i] == fs[i];
    }
  }

  lemma ScopeAt(v: Value, o: Value, n: string)
    requires v.Struct? && o.Struct? && UniqueNames(v.fields) && UniqueNames(o.fields)
    ensures n in ConcreteScope(v, o) <==> ConcreteFind(v.fields, n) || ConcreteFind(o.fields, n)
    ensures n in ConcreteScope(v, o) ==>
              ConcreteScope(v, o)[n] == Find(if ConcreteFind(o.fields, n) then o.fields else v.fields, n).value.val
  {
    BindConcreteAt(map[], v.fields, n);
    BindConcreteAt(BindConcrete(map[], v.fields), o.fields, n);
  }

  // ----- A pass keeps the structs orderly and every steady binding -----

  lemma FindForced(v: Value, scope: Scope, soft: bool, ev: Closures, n: string)
    requires v.Struct? && UniqueNames(v.fields)
    ensures UniqueNames(ForceFields(v, scope, soft, ev).fields)
    ensures HasField(ForceFields(v, scope, soft, ev).fields, n) <==> HasField(v.fields, n)
    ensures Find(v.fields, n).Some? ==>
              Find(ForceFields(v, scope, soft, ev).fields, n) ==
              Some(Find(v.fields, n).value.(val := ForceValue(Find(v.fields, n).value.val, scope, soft, ev)))
  {
    var r := ForceFields(v, scope, soft, ev).fields;
    if HasField(v.fields, n) {
      var i := IndexOf(v.fields, n);
      assert r[i].name == n;
      FindAt(r, i);
    }
    if HasField(r, n) {
      var i := IndexOf(r, n);
      assert v.fields[i].name == n;
    }
  }

  /** A field without thunks comes through a pass as it is, and no field comes or goes. */
  lemma FindUnthunked(w: Value, scope: Scope, ev: Closures, n: string)
    requires w.Struct? && UniqueNames(w.fields)
    ensures Find(w.fields, n).Some? && !HasThunkAt(w.fields, n) ==>
              Find(ForceFields(w, scope, true, ev).fields, n) == Find(w.fields, n)
    ensures Find(w.fields, n).None? <==> Find(ForceFields(w, scope, true, ev).fields, n).None?
  {
    FindForced(w, scope, true, ev, n);
    if Find(w.fields, n).Some? && !HasThunkAt(w.fields, n) { Unthunked(Find(w.fields, n).value.val, scope, true, ev); }
  }

  lemma SteadyPass(v: Value, o: Value, ev: Closures, n: string)
    requires v.Struct? && o.Struct? && UniqueNames(v.fields) && UniqueNames(o.fields) && Steady(n, v, o)
    ensures Steady(n, Pass(v, o, ev).0, Pass(v, o, ev).1)
  {
    hide ForceFields, ConcreteScope, HasThunk;
    var scope := ConcreteScope(v, o);
    FindForced(v, scope, true, ev, n);
    FindForced(o, scope, true, ev, n);
    FindUnthunked(o, scope, ev, n);
  }

  lemma {:induction false} ForceKeepsEach(val: Value, scope: Scope, soft: bool, ev: Closures, p: Value -> bool)
    requires EachThunk(val, p)
    requires forall th: Value | th.Thunk? && p(th) :: !HasThunk(ev(th.expr, scope))
    ensures EachThunk(ForceValue(val, scope, soft, ev), p)
    decreases val
  {
    match val
    case Thunk(refs, e) =>
      if !soft || Resolvable(refs, scope) {
        NoThunkIff(ev(e, scope));
        EachWeaker(ev(e, scope), NoThunk(), p);
      }
    case List(ps, t) =>
      if HasThunk(val) {
        forall i | 0 <= i < |ps| ensures EachThunk(ForceValue(ps[i], scope, soft, ev), p) {
          ForceKeepsEach(ps[i], scope, soft, ev, p);
        }
        if t.Open? { ForceKeepsEach(t.elem, scope, soft, ev, p); }
      }
    case Disj(bs) =>
      if HasThunk(val) {
        forall i | 0 <= i < |bs| ensures EachThunk(ForceValue(bs[i].v, scope, soft, ev), p) {
          ForceKeepsEach(bs[i].v, scope, soft, ev, p);
        }
        RebuiltEach(seq(|bs|, i requires 0 <= i < |bs| => Branch(ForceValue(bs[i].v, scope, soft, ev), bs[i].mode)), p);
      }
    case _ =>
  }

  lemma RebuiltEach(bs: seq<Branch>, p: Value -> bool)
    requires forall i | 0 <= i < |bs| :: EachThunk(bs[i].v, p)
    ensures EachThunk(RebuildDisjunction(bs), p)
  {
    var live := Dedupe(LiveOf(bs));
    forall k | 0 <= k < |live| ensures EachThunk(live[k].v, p) { LiveOrigin(bs, k); }
  }

  /** A pass in a thunk-free scope keeps what the thunks read. */
  lemma PassReads(v: Value, scope: Scope, soft: bool, ev: Closures, names: set<string>)
    requires v.Struct? && ReadsWithin(v, ev, names) && Evaluates(ev) && Forceless(scope)
    ensures ReadsWithin(ForceFields(v, scope, soft, ev), ev, names)
  {
    hide Local, HasThunk, EachThunk, LocalTo;
    forall i | 0 <= i < |v.fields| ensures EachThunk(ForceFields(v, scope, soft, ev).fields[i].val, LocalTo(ev, names)) {
      ForceKeepsEach(v.fields[i].val, scope, soft, ev, LocalTo(ev, names));
    }
  }

  lemma PassTidy(v: Value, scope: Scope, ev: Closures)
    requires v.Struct? && TidyFields(v) && Evaluates(ev) && Forceless(scope)
    ensures TidyFields(ForceFields(v, scope, true, ev))
  {
    hide Tidy, HasThunk;
    forall i | 0 <= i < |v.fields| ensures Tidy(ForceFields(v, scope, true, ev).fields[i].val) {
      TidyForce(v.fields[i].val, scope, true, ev);
    }
  }

  lemma OrderlyPass(v: Value, o: Value, ev: Closures, names: set<string>)
    requires Orderly(v, o, ev, names)
    ensures Orderly(Pass(v, o, ev).0, Pass(v, o, ev).1, ev, names)
  {
    hide Tidy, EachThunk, LocalTo, Steady, ForceFields, ConcreteScope, ReadsWithin, TidyFields, Evaluates;
    OrderlyIsClean(v, o, ev, names);
    var scope := ConcreteScope(v, o);
    PassReads(v, scope, true, ev, names);
    PassReads(o, scope, true, ev, names);
    PassTidy(v, scope, ev);
    PassTidy(o, scope, ev);
    FindForced(v, scope, true, ev, "");
    FindForced(o, scope, true, ev, "");
    forall n <- names ensures Steady(n, Pass(v, o, ev).0, Pass(v, o, ev).1) { SteadyPass(v, o, ev, n); }
  }

  lemma TidyAt(fs: seq<Field>, n: string)
    requires ConcreteFind(fs, n) && forall i | 0 <= i < |fs| :: Tidy(fs[i].val)
    ensures !HasThunkAt(fs, n)
  {
    TidyConcrete(Find(fs, n).value.val);
  }

  /** A steady name keeps its binding through a pass. */
  lemma SteadyBinding(v: Value, o: Value, ev: Closures, names: set<string>, n: string)
    requires Orderly(v, o, ev, names) && n in names && n in ConcreteScope(v, o)
    ensures var (v1, o1) := Pass(v, o, ev);
            n in ConcreteScope(v1, o1) && ConcreteScope(v1, o1)[n] == ConcreteScope(v, o)[n]
  {
    hide ForceFields, ConcreteScope, HasThunk, BindConcrete, UniqueNames, Local, EachThunk, Tidy;
    var scope := ConcreteScope(v, o);
    var (v1, o1) := Pass(v, o, ev);
    ScopeAt(v, o, n);
    FindForced(v, scope, true, ev, n);
    FindForced(o, scope, true, ev, n);
    if ConcreteFind(v.fields, n) { TidyAt(v.fields, n); }
    if ConcreteFind(o.fields, n) { TidyAt(o.fields, n); }
    FindUnthunked(v, scope, ev, n);
    FindUnthunked(o, scope, ev, n);
    ScopeAt(v1, o1, n);
  }

  lemma {:induction false} SteadyToTheEnd(v: Value, o: Value, ev: Closures, names: set<string>, n: string)
    requires Orderly(v, o, ev, names) && n in names && n in ConcreteScope(v, o)
    ensures var (v1, o1) := Settle(v, o, ev);
            n in ConcreteScope(v1, o1) && ConcreteScope(v1, o1)[n] == ConcreteScope(v, o)[n]
    decreases |v.fields| + |o.fields| - |ConcreteScope(v, o)|
  {
    hide Pass, ConcreteScope, HasThunkField, ReadsWithin, TidyFields, Steady;
    ScopeNames(v, o);
    PassGrows(v, o, ev);
    if HasThunkField(v) || HasThunkField(o) {
      var (v1, o1) := Pass(v, o, ev);
      SteadyBinding(v, o, ev, names, n);
      OrderlyPass(v, o, ev, names);
      if |ConcreteScope(v1, o1)| != |ConcreteScope(v, o)| { SteadyToTheEnd(v1, o1, ev, names, n); }
    }
  }

  // ----- Early or late -----

  /** Forcing a list is forcing its elements, thunks or not. */
  lemma ListForce(ps: seq<Value>, t: Values.Tail, scope: Scope, soft: bool, ev: Closures)
    ensures var r := ForceValue(List(ps, t), scope, soft, ev);
      && r.List? && |r.prefix| == |ps| && (forall i | 0 <= i < |ps| :: r.prefix[i] == ForceValue(ps[i], scope, soft, ev))
      && r.tail == (match t case Closed => Closed case Open(e) => Open(ForceValue(e, scope, soft, ev)))
  {
    if !HasThunk(List(ps, t)) {
      forall i | 0 <= i < |ps| ensures ForceValue(ps[i], scope, soft, ev) == ps[i] { Unthunked(ps[i], scope, soft, ev); }
      if t.Open? { Unthunked(t.elem, scope, soft, ev); }
    }
  }

  /** Forcing softly first and then hard against a scope that kept the bindings is forcing hard at once. */
  lemma {:induction false} ForceValueTwice(w: Value, scope: Scope, last: Scope, ev: Closures, names: set<string>)
    requires Tidy(w) && EachThunk(w, LocalTo(ev, names)) && Evaluates(ev) && Forceless(scope)
    requires forall n <- names :: n in scope ==> SameBinding(scope, last, n)
    ensures ForceValue(ForceValue(w, scope, true, ev), last, false, ev) == ForceValue(w, last, false, ev)
    decreases w
  {
    match w
    case Thunk(refs, e) =>
      if Resolvable(refs, scope) {
        assert forall j | 0 <= j < |refs| :: SameBinding(scope, last, refs[j]);
        assert ev(e, scope) == ev(e, last);
        Unthunked(ev(e, scope), last, false, ev);
      }
    case List(ps, t) =>
      ListForce(ps, t, scope, true, ev);
      ListForce(ps, t, last, false, ev);
      var r := ForceValue(w, scope, true, ev);
      ListForce(r.prefix, r.tail, last, false, ev);
      forall i | 0 <= i < |ps|
        ensures ForceValue(r.prefix[i], last, false, ev) == ForceValue(ps[i], last, false, ev)
      {
        ForceValueTwice(ps[i], scope, last, ev, names);
      }
      if t.Open? {
        Unthunked(t.elem, scope, true, ev);
      }
      assert ForceValue(r, last, false, ev).prefix == ForceValue(w, last, false, ev).prefix;
    case _ =>
      Unthunked(w, scope, true, ev);
  }

  lemma ForceTwice(w: Value, scope: Scope, last: Scope, ev: Closures, names: set<string>)
    requires w.Struct? && TidyFields(w) && ReadsWithin(w, ev, names) && Evaluates(ev) && Forceless(scope)
    requires forall n <- names :: n in scope ==> SameBinding(scope, last, n)
    ensures ForceFields(ForceFields(w, scope, true, ev), last, false, ev) == ForceFields(w, last, false, ev)
  {
    hide Tidy, EachThunk, LocalTo, ForceValue, Evaluates;
    var l, r := ForceFields(ForceFields(w, scope, true, ev), last, false, ev), ForceFields(w, last, false, ev);
    forall i | 0 <= i < |w.fields| ensures l.fields[i] == r.fields[i] {
      ForceValueTwice(w.fields[i].val, scope, last, ev, names);
    }
    assert l.fields == r.fields;
  }

  /** MAIN: the passes give every thunk the value it has in the final scope, whichever pass forced it. */
  lemma {:induction false} OrderDoesNotMatter(v: Value, o: Value, ev: Closures, names: set<string>)
    requires Orderly(v, o, ev, names)
    ensures var (v1, o1) := Settle(v, o, ev);
            var last := ConcreteScope(v1, o1);
            Resolved(v, o, ev) == (ForceFields(v, last, false, ev), ForceFields(o, last, false, ev))
    decreases |v.fields| + |o.fields| - |ConcreteScope(v, o)|
  {
    hide Steady, ReadsWithin, TidyFields, Evaluates;
    ScopeNames(v, o);
    PassGrows(v, o, ev);
    if HasThunkField(v) || HasThunkField(o) {
      var scope := ConcreteScope(v, o);
      var (v1, o1) := Pass(v, o, ev);
      var (v2, o2) := Settle(v, o, ev);
      var last := ConcreteScope(v2, o2);
      OrderlyIsClean(v, o, ev, names);
      OrderlyPass(v, o, ev, names);
      if |ConcreteScope(v1, o1)| != |scope| { OrderDoesNotMatter(v1, o1, ev, names); }
      forall n <- names ensures n in scope ==> SameBinding(scope, last, n) {
        if n in scope { SteadyToTheEnd(v, o, ev, names, n); }
      }
      ForceTwice(v, scope, last, ev, names);
      ForceTwice(o, scope, last, ev, names);
    }
  }

  /** MAIN: what the compiler defers is read through its references alone and never yields a thunk. */
  lemma CompiledThunksAreLocal(t: Tools, e: Expr)
    requires MeetAddsNoThunk(t)
    ensures Local(Forcing(t), FreeRefs(e), e) && Evaluates(Forcing(t))
  {
    var ev := Forcing(t);
    var refs := FreeRefs(e);
    forall s1: Scope, s2: Scope | forall i :: 0 <= i < |refs| ==> SameBinding(s1, s2, refs[i])
      ensures ev(e, s1) == ev(e, s2)
    {
      forall n <- refs ensures (n in s1 <==> n in s2) && (n in s1 ==> s1[n] == s2[n]) {
        var i :| 0 <= i < |refs| && refs[i] == n;
        assert SameBinding(s1, s2, refs[i]);
      }
      DependsOnRefs(t, e, s1, s2);
    }
    forall x: Expr, s: Scope | Forceless(s) ensures !HasThunk(ev(x, s)) {
      if EvalExpr(t, x, Some(s)).Ok? { ForcedHasNoThunk(t, x, s); }
    }
  }

  // ----- Where it does matter -----

  /** Data binds m; the schema m: *"p" | string, ok: m == "p" defaults m and derives ok from it. */
  const DATA := Struct([Field("m", Con(Str("a")), false)], false)
  const M_DEFAULT := Disj([Branch(Con(Str("p")), Is), Branch(Atom(AkString), Not)])
  const IS_P := Binary(Eql, Ident("m"), Basic(LitStr("p")))
  const SCHEMA := Struct([Field("m", M_DEFAULT, false), Field("ok", Thunk(["m"], IS_P), false)], false)

  const M_SOURCE := Binary(Or, Unary(Mark, Basic(LitStr("p"))), Ident("string"))

  lemma BuiltDefault()
    ensures BuildDisjunction([Branch(Con(Str("p")), Is)] + [Branch(Atom(AkString), Maybe)], true) == M_DEFAULT
  {
    var a, b := Branch(Con(Str("p")), Is), Branch(Atom(AkString), Maybe);
    assert [a] + [b] == [a, b];
    assert [a, b][..1] == [a] && [a][..0] == [];
    assert LiveOf([a]) == [a] && LiveOf([a, b]) == [a, b];
    assert Dedupe([a]) == [a];
    assert FirstSame([a], b.v).None?;
    assert Dedupe([a, b]) == [a, b];
    assert RaiseMaybe([a, b]) == M_DEFAULT.branches;
  }

  lemma SourceOfM(t: Tools)
    ensures CompileExpr(t, M_SOURCE) == Ok(M_DEFAULT)
  {
    assert EvalBranches(t, M_SOURCE.x, false, None) == Ok(([Branch(Con(Str("p")), Is)], true));
    assert EvalBranches(t, M_SOURCE.y, false, None) == Ok(([Branch(Atom(AkString), Maybe)], false));
    BuiltDefault();
  }

  lemma SourceOfOk(t: Tools)
    ensures CompileExpr(t, IS_P) == Ok(Thunk(["m"], IS_P))
  {
    assert EvalExpr(t, IS_P.x, None) == Unresolved && EvalExpr(t, IS_P.y, None) == Ok(Con(Str("p")));
    assert EvalExpr(t, IS_P, None) == Unresolved;
    hide EvalExpr;
    OkRefs();
    assert Deferrable(IS_P);
  }

  lemma OkRefs()
    ensures FreeRefs(IS_P) == ["m"]
  {
    assert Names(IS_P) == ["m"] + [];
    assert ["m"][..0] == [];
    assert Distinct(["m"]) == ["m"];
  }

  /** The schema's value is the one its source compiles to. */
  lemma SchemaCompiles(t: Tools)
    ensures CompileSource(t, [FieldDecl(Bare("m"), false, M_SOURCE), FieldDecl(Bare("ok"), false, IS_P)]) == Some(SCHEMA)
  {
    var first, second := FieldDecl(Bare("m"), false, M_SOURCE), FieldDecl(Bare("ok"), false, IS_P);
    var ds := [first, second];
    SourceOfM(t);
    SourceOfOk(t);
    hide CompileExpr, EvalExpr, HasBottom, RefsDeclared, Reads;
    assert ds[..1] == [first] && [first][..0] == [];
    assert EvalDecls(t, [], None) == Ok(Built([], None));
    var m, ok := SCHEMA.fields[0], SCHEMA.fields[1];
    assert EvalDecls(t, [first], None) == Ok(Built([m], None));
    assert [m][1..] == [] && [m] + [ok] == SCHEMA.fields;
    assert AppendOrUnify(t, [], ok) == [ok];
    assert AppendOrUnify(t, [m], ok) == [m, ok];
    assert EvalDecls(t, ds, None) == Ok(Built([m, ok], None));
    SchemaDeclared();
    assert EvalStruct(t, ds, None) == Ok(SCHEMA);
    SchemaIsSound();
  }

  lemma SchemaIsSound()
    ensures !HasBottom(SCHEMA) && Reads(SCHEMA) == {}
  {
  }

  lemma SchemaDeclared()
    ensures RefsDeclared(SCHEMA.fields)
  {
    var fs := SCHEMA.fields;
    assert fs[..1] == [fs[0]] && [fs[0]][..0] == [];
    assert FieldNames([fs[0]]) == {"m"};
    assert FieldNames(fs) == {"m", "ok"};
    var bs := M_DEFAULT.branches;
    assert bs[..1] == [bs[0]] && [bs[0]][..0] == [];
    assert ReadsOfBranches([bs[0]]) == {};
    assert Reads(fs[0].val) == {};
    assert Reads(fs[1].val) == {"m"};
  }

  lemma OkReads(t: Tools, scope: Scope)
    requires "m" in scope && IsConcrete(scope["m"])
    requires scope["m"] == M_DEFAULT || scope["m"] == Con(Str("a"))
    ensures Forced(t, IS_P, scope) == Con(Bool(scope["m"] == M_DEFAULT))
  {
    MarkedOne(M_DEFAULT.branches, 0);
    assert EvalExpr(t, IS_P.y, Some(scope)) == Ok(Con(Str("p")));
    assert EvalExpr(t, IS_P.x, Some(scope)) == LookUp("m", Some(scope));
    var l := LookUp("m", Some(scope)).v;
    assert l == if scope["m"] == M_DEFAULT then Con(Str("p")) else Con(Str("a"));
    assert "a" != "p";
  }

  lemma BindData(scope: Scope)
    ensures BindConcrete(scope, DATA.fields) == scope["m" := Con(Str("a"))]
  {
    assert DATA.fields[..0] == [];
  }

  lemma BindSchema(scope: Scope)
    ensures BindConcrete(scope, SCHEMA.fields) == scope["m" := M_DEFAULT]
  {
    var fs := SCHEMA.fields;
    MarkedOne(M_DEFAULT.branches, 0);
    assert IsConcrete(fs[0].val) && !IsConcrete(fs[1].val);
    assert fs[..1] == [fs[0]] && [fs[0]][..0] == [];
    assert BindConcrete(scope, [fs[0]]) == scope["m" := M_DEFAULT];
  }

  lemma ScopesDiffer()
    ensures ConcreteScope(DATA, SCHEMA) == map["m" := M_DEFAULT]
    ensures ConcreteScope(SCHEMA, DATA) == map["m" := Con(Str("a"))]
  {
    BindData(map[]);
    BindSchema(map[]);
    BindData(map["m" := M_DEFAULT]);
    BindSchema(map["m" := Con(Str("a"))]);
  }

  lemma SettleAtOnce(v: Value, o: Value, ev: Closures)
    requires v.Struct? && o.Struct? && !HasThunkField(v) && !HasThunkField(o)
    ensures Settle(v, o, ev) == (v, o)
  {
    hide Pass, HasThunkField, ConcreteScope;
  }

  lemma SettleStep(v: Value, o: Value, ev: Closures)
    requires v.Struct? && o.Struct? && (HasThunkField(v) || HasThunkField(o))
    ensures Settle(v, o, ev) == Pass(v, o, ev) || Settle(v, o, ev) == Settle(Pass(v, o, ev).0, Pass(v, o, ev).1, ev)
  {
    hide Pass, HasThunkField, ConcreteScope;
  }

  /** Once a pass leaves no thunk, it was the only one. */
  lemma OnePassSettles(v: Value, o: Value, ev: Closures)
    requires v.Struct? && o.Struct? && (HasThunkField(v) || HasThunkField(o))
    requires var (v1, o1) := Pass(v, o, ev); !HasThunkField(v1) && !HasThunkField(o1)
    ensures Resolved(v, o, ev) == Pass(v, o, ev)
  {
    var (v1, o1) := Pass(v, o, ev);
    var scope1 := ConcreteScope(v1, o1);
    NothingToForce(v1, scope1, false, ev);
    NothingToForce(o1, scope1, false, ev);
    hide Pass, HasThunkField, ConcreteScope, ForceFields;
    SettleAtOnce(v1, o1, ev);
    SettleStep(v, o, ev);
  }

  lemma DataStays(scope: Scope, ev: Closures)
    ensures !HasThunkField(ForceFields(DATA, scope, true, ev))
  {
    NothingToForce(DATA, scope, true, ev);
  }

  lemma SchemaForced(scope: Scope, ev: Closures)
    requires "m" in scope && IsConcrete(scope["m"]) && !HasThunk(ev(IS_P, scope))
    ensures ForceFields(SCHEMA, scope, true, ev).fields[1].val == ev(IS_P, scope)
    ensures HasThunkField(SCHEMA) && !HasThunkField(ForceFields(SCHEMA, scope, true, ev))
  {
    var out := ForceFields(SCHEMA, scope, true, ev);
    assert SCHEMA.fields[1].val == Thunk(["m"], IS_P) && HasThunk(SCHEMA.fields[1].val);
    DefaultHasNone();
    hide HasThunk;
    assert out.fields[0].val == M_DEFAULT;
    assert out.fields[1].val == ev(IS_P, scope) by {
      hide IsConcrete;
      assert Resolvable(["m"], scope);
    }
  }

  lemma DefaultHasNone()
    ensures !HasThunk(M_DEFAULT)
  {
    var bs := M_DEFAULT.branches;
    assert !HasThunk(bs[0].v) && !HasThunk(bs[1].v);
  }

  /** One pass resolves ok, a Boolean, and the second finds nothing to force. */
  lemma OnePass(t: Tools, v: Value, o: Value, w: Value, scope: Scope)
    requires (v == DATA && o == w == SCHEMA) || (v == w == SCHEMA && o == DATA)
    requires scope == ConcreteScope(v, o) && "m" in scope && (scope["m"] == M_DEFAULT || scope["m"] == Con(Str("a")))
    ensures var (v1, o1) := Resolved(v, o, Forcing(t));
            (if v == w then v1 else o1).fields[1].val == Con(Bool(scope["m"] == M_DEFAULT))
  {
    hide EvalExpr, Forced, Resolved, ConcreteScope, IsConcrete, HasThunkField, HasThunk, ForceFields;
    var ev := Forcing(t);
    ScopeNames(v, o);
    OkReads(t, scope);
    assert ev(IS_P, scope) == Con(Bool(scope["m"] == M_DEFAULT));
    BoolHasNoThunk(scope["m"] == M_DEFAULT);
    DataStays(scope, ev);
    SchemaForced(scope, ev);
    OnePassSettles(v, o, ev);
  }

  lemma BoolHasNoThunk(b: bool)
    ensures !HasThunk(Con(Bool(b)))
  {
  }

  /**
    The scope takes the second operand's concrete value, and a defaulted disjunction counts as one: with
    the data first, ok reads the schema's default "p"; with the schema first it reads the data's "a".
   */
  lemma OperandOrderMatters(t: Tools)
    ensures Resolved(DATA, SCHEMA, Forcing(t)).1.fields[1].val == Con(Bool(true))
    ensures Resolved(SCHEMA, DATA, Forcing(t)).0.fields[1].val == Con(Bool(false))
  {
    ScopesDiffer();
    OnePass(t, DATA, SCHEMA, SCHEMA, ConcreteScope(DATA, SCHEMA));
    OnePass(t, SCHEMA, DATA, SCHEMA, ConcreteScope(SCHEMA, DATA));
  }

}
