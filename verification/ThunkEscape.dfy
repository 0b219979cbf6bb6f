/**
  Where references escape. A sibling that is concrete but still holds a thunk lets a field be forced too
  early: a meet with that sibling, inside a struct literal, is deferred once more, and the inner struct
  now holds a thunk reading a name it does not declare. It happens when data meets the schema, and
  already in the compiler where the source meets two structs; and any expression that compiles to a
  concrete value with a thunk is enough.
 */
module ThunkEscape {

  import opened Wrappers
  import opened Syntax
  import opened Values
  import opened Meet
  import opened MeetFacts
  import opened Thunks
  import opened ThunkLaws
  import opened ThunkOrder
  import opened ThunkSwap
  import opened Eval
  import opened EvalLaws
  import opened Engine
  import opened References

  const ANY_LIST := ListLit([Ellipsis(None)])
  const MEETS_XS := Binary(And, Ident("xs"), ANY_LIST)
  const INNER_LIT := StructLit([FieldDecl(Bare("q"), false, MEETS_XS)])
  const WAITS_FOR_M := Index(ListLit([Item(Ident("m")), Item(Ident("_"))]), Basic(LitInt(1)))
  const GUARDED := Binary(And, WAITS_FOR_M, INNER_LIT)
  const Y_SOURCE := Index(ListLit([Item(GUARDED)]), Basic(LitInt(0)))

  const Y := Thunk(["m", "xs"], Y_SOURCE)

  /** n: string, m: string, xs: [e], y: [[m, _][1] & {q: xs & [...]}][0] */
  function Source(e: Expr): seq<Decl>
  {
    [FieldDecl(Bare("n"), false, Ident("string")), FieldDecl(Bare("m"), false, Ident("string")),
     FieldDecl(Bare("xs"), false, ListLit([Item(e)])), FieldDecl(Bare("y"), false, Y_SOURCE)]
  }

  function Xs(v: Value): Value
  {
    List([v], Closed)
  }

  function Compiled(v: Value): Value
  {
    Struct([Field("n", Atom(AkString), false), Field("m", Atom(AkString), false),
            Field("xs", Xs(v), false), Field("y", Y, false)], false)
  }

  /** The expression compiles to a value that is concrete though part of it waits for n. */
  ghost predicate Waits(t: Tools, e: Expr, v: Value)
  {
    CompileExpr(t, e) == Ok(v) && IsConcrete(v) && HasThunk(v) && Reads(v) <= {"n"}
  }

  /** m: "d" */
  const GIVEN := Struct([Field("m", Con(Str("d")), false)], false)

  // ----- The source compiles -----

  lemma XsCompiles(t: Tools, e: Expr, v: Value)
    requires CompileExpr(t, e) == Ok(v)
    ensures CompileExpr(t, ListLit([Item(e)])) == Ok(Xs(v))
  {
    assert EvalChild(t, e, None) == Ok(v);
    OneItem(t, e, v, None);
    hide EvalList, EvalChild;
    assert EvalExpr(t, ListLit([Item(e)]), None) == Ok(Xs(v));
  }

  lemma OneItem(t: Tools, e: Expr, v: Value, scope: Option<Scope>)
    requires EvalChild(t, e, scope) == Ok(v)
    ensures EvalList(t, [Item(e)], scope) == Ok(([v], Closed))
  {
    hide EvalChild;
    var es := [Item(e)];
    assert es[..0] == [];
    assert EvalList(t, [], scope) == Ok(([], Closed));
    assert [] + [v] == [v];
  }

  lemma GuardWaits(t: Tools)
    ensures EvalExpr(t, WAITS_FOR_M, None) == Unresolved
  {
    var es := WAITS_FOR_M.target.elems;
    assert EvalExpr(t, WAITS_FOR_M.index, None) == Ok(Con(Int(0 + 1)));
    assert EvalExpr(t, Ident("m"), None) == Unresolved;
    assert EvalExpr(t, Ident("_"), None) == Ok(Top);
    assert es[1..] == [Item(Ident("_"))] && es[1..][1..] == [];
    assert EvalItems(t, [], None) == Ok([]);
    assert EvalItems(t, es[1..], None) == Ok([Top] + []);
    assert EvalItems(t, es, None) == Unresolved;
  }

  lemma GuardNames()
    ensures Names(WAITS_FOR_M) == ["m", "_"]
  {
    var es := WAITS_FOR_M.target.elems;
    assert es[1..] == [Item(Ident("_"))] && es[1..][1..] == [];
    assert ElemNames(es[1..]) == ["_"] + [];
    assert ElemNames(es) == ["m"] + ["_"];
    assert Names(WAITS_FOR_M.index) == [];
  }

  lemma YReferences()
    ensures FreeRefs(Y_SOURCE) == ["m", "xs"]
  {
    GuardNames();
    XsIsRead();
    YNames();
    assert IsReference("m") && !IsReference("_") && IsReference("xs");
    assert FreeRefs(Y_SOURCE) == Distinct(Names(Y_SOURCE));
    hide *;
    OneReference("m");
    DistinctSnoc(["m"], "_");
    assert ["m"] + ["_"] == ["m", "_"];
    DistinctSnoc(["m", "_"], "xs");
    assert ["m", "_"] + ["xs"] == ["m", "_", "xs"] && ["m"] + ["xs"] == ["m", "xs"];
  }

  lemma XsIsRead()
    ensures Names(MEETS_XS) == ["xs"] && Names(INNER_LIT) == ["xs"]
  {
    assert ANY_LIST.elems[1..] == [];
    assert ElemNames(ANY_LIST.elems) == [];
    assert Names(MEETS_XS) == ["xs"] + [];
    var ds := INNER_LIT.decls;
    assert ds[1..] == [];
    assert DeclNames(ds) == ["xs"] + [];
  }

  lemma YNames()
    requires Names(WAITS_FOR_M) == ["m", "_"] && Names(INNER_LIT) == ["xs"]
    ensures Names(Y_SOURCE) == ["m", "_", "xs"]
  {
    hide Distinct;
    assert Names(GUARDED) == ["m", "_"] + ["xs"];
    var es := Y_SOURCE.target.elems;
    assert es[1..] == [];
    assert ElemNames(es) == Names(GUARDED) + [];
    assert Names(Y_SOURCE) == ElemNames(es) + [];
  }

  lemma YCompiles(t: Tools)
    ensures CompileExpr(t, Y_SOURCE) == Ok(Y)
  {
    GuardWaits(t);
    YReferences();
    var es := Y_SOURCE.target.elems;
    assert EvalExpr(t, Y_SOURCE.index, None) == Ok(Con(Int(0)));
    assert EvalExpr(t, GUARDED, None) == Unresolved;
    hide FreeRefs;
    assert es[1..] == [];
    assert EvalItems(t, [], None) == Ok([]);
    assert EvalItems(t, es, None) == Unresolved;
    assert EvalExpr(t, Y_SOURCE, None) == Unresolved;
  }

  lemma FieldStep(t: Tools, ds: seq<Decl>, fs: seq<Field>, name: string, e: Expr, v: Value)
    requires EvalDecls(t, ds, None) == Ok(Built(fs, None)) && CompileExpr(t, e) == Ok(v)
    requires FieldLabel(Bare(name)) == Some(name) && forall f <- fs :: f.name != name
    ensures EvalDecls(t, ds + [FieldDecl(Bare(name), false, e)], None) == Ok(Built(fs + [Field(name, v, false)], None))
  {
    hide CompileExpr, FieldLabel;
    var all := ds + [FieldDecl(Bare(name), false, e)];
    assert all[..|ds|] == ds && all[|ds|] == FieldDecl(Bare(name), false, e);
    assert EvalChild(t, e, None) == Ok(v);
    Appended(t, fs, Field(name, v, false));
    hide AppendOrUnify, EvalChild;
  }

  lemma {:induction false} Appended(t: Tools, fs: seq<Field>, f: Field)
    requires forall g <- fs :: g.name != f.name
    ensures AppendOrUnify(t, fs, f) == fs + [f]
  {
    if fs != [] {
      assert fs[0] in fs;
      forall g <- fs[1..] ensures g.name != f.name { assert g in fs; }
      Appended(t, fs[1..], f);
      assert fs == [fs[0]] + fs[1..];
      assert fs + [f] == [fs[0]] + (fs[1..] + [f]);
    }
  }

  lemma StringCompiles(t: Tools)
    ensures CompileExpr(t, Ident("string")) == Ok(Atom(AkString))
  {
  }

  function DeclsOf(ns: seq<string>, es: seq<Expr>): seq<Decl>
    requires |ns| == |es|
  {
    seq(|ns|, i requires 0 <= i < |ns| => FieldDecl(Bare(ns[i]), false, es[i]))
  }

  function FieldsOf(ns: seq<string>, vs: seq<Value>): seq<Field>
    requires |ns| == |vs|
  {
    seq(|ns|, i requires 0 <= i < |ns| => Field(ns[i], vs[i], false))
  }

  /** Distinct fields compile one by one. */
  lemma {:induction false} FieldsCompile(t: Tools, ns: seq<string>, es: seq<Expr>, vs: seq<Value>)
    requires |ns| == |es| == |vs| && forall i, j | 0 <= i < j < |ns| :: ns[i] != ns[j]
    requires forall i | 0 <= i < |ns| :: FieldLabel(Bare(ns[i])) == Some(ns[i]) && CompileExpr(t, es[i]) == Ok(vs[i])
    ensures EvalDecls(t, DeclsOf(ns, es), None) == Ok(Built(FieldsOf(ns, vs), None))
  {
    if ns == [] {
      assert EvalDecls(t, [], None) == Ok(Built([], None));
      assert DeclsOf(ns, es) == [] && FieldsOf(ns, vs) == [];
    } else {
      hide *;
      var n := |ns| - 1;
      FieldsCompile(t, ns[..n], es[..n], vs[..n]);
      DeclsSnoc(ns, es);
      FieldsSnoc(ns, vs);
      FieldStep(t, DeclsOf(ns[..n], es[..n]), FieldsOf(ns[..n], vs[..n]), ns[n], es[n], vs[n]);
    }
  }

  lemma DeclsSnoc(ns: seq<string>, es: seq<Expr>)
    requires |ns| == |es| > 0
    ensures var n := |ns| - 1; DeclsOf(ns, es) == DeclsOf(ns[..n], es[..n]) + [FieldDecl(Bare(ns[n]), false, es[n])]
  {
  }

  lemma FieldsSnoc(ns: seq<string>, vs: seq<Value>)
    requires |ns| == |vs| > 0 && forall i, j | 0 <= i < j < |ns| :: ns[i] != ns[j]
    ensures var n := |ns| - 1;
      && FieldsOf(ns, vs) == FieldsOf(ns[..n], vs[..n]) + [Field(ns[n], vs[n], false)]
      && forall f <- FieldsOf(ns[..n], vs[..n]) :: f.name != ns[n]
  {
    var n := |ns| - 1;
    var front := FieldsOf(ns[..n], vs[..n]);
    forall f | f in front ensures f.name != ns[n] {
      var i :| 0 <= i < n && front[i] == f;
      assert ns[..n][i] == ns[i];
    }
  }

  lemma Labels()
    ensures FieldLabel(Bare("n")) == Some("n") && FieldLabel(Bare("m")) == Some("m")
    ensures FieldLabel(Bare("xs")) == Some("xs") && FieldLabel(Bare("y")) == Some("y")
  {
  }

  lemma SourceShape(e: Expr, v: Value)
    ensures DeclsOf(["n", "m", "xs", "y"], [Ident("string"), Ident("string"), ListLit([Item(e)]), Y_SOURCE]) == Source(e)
    ensures FieldsOf(["n", "m", "xs", "y"], [Atom(AkString), Atom(AkString), Xs(v), Y]) == Compiled(v).fields
  {
  }

  lemma DeclsCompile(t: Tools, e: Expr, v: Value)
    requires CompileExpr(t, e) == Ok(v)
    ensures EvalDecls(t, Source(e), None) == Ok(Built(Compiled(v).fields, None))
  {
    hide *;
    StringCompiles(t);
    XsCompiles(t, e, v);
    YCompiles(t);
    Labels();
    SourceShape(e, v);
    var ns, es := ["n", "m", "xs", "y"], [Ident("string"), Ident("string"), ListLit([Item(e)]), Y_SOURCE];
    var vs := [Atom(AkString), Atom(AkString), Xs(v), Y];
    FieldsCompile(t, ns, es, vs);
  }

  /** A concrete value buries no bottom. */
  lemma {:induction false} ConcreteHasNoBottom(v: Value)
    requires IsConcrete(v)
    ensures !HasBottom(v)
  {
    match v
    case Struct(fs, _) =>
      forall i | 0 <= i < |fs| ensures !HasBottom(fs[i].val) {
        if !Absent(fs[i]) { ConcreteHasNoBottom(fs[i].val); }
      }
    case List(p, _) => forall i | 0 <= i < |p| ensures !HasBottom(p[i]) { ConcreteHasNoBottom(p[i]); }
    case _ =>
  }

  lemma XsReads(v: Value)
    requires Reads(v) <= {"n"}
    ensures Reads(Xs(v)) <= {"n"}
  {
    var xs := Xs(v);
    assert xs.prefix[..0] == [];
    assert ReadsOfValues(xs.prefix) == {} + Reads(v);
  }

  lemma XsIsConcrete(v: Value)
    requires IsConcrete(v) && HasThunk(v)
    ensures IsConcrete(Xs(v)) && HasThunk(Xs(v))
  {
    assert Xs(v).prefix[0] == v;
  }

  lemma NameDeclared(v: Value, name: string, i: nat)
    requires i < |Compiled(v).fields| && Compiled(v).fields[i].name == name
    ensures name in FieldNames(Compiled(v).fields)
  {
    hide FieldNames;
    FieldNamesIff(Compiled(v).fields, name);
  }

  lemma NoneBuried(v: Value)
    requires IsConcrete(v) && HasThunk(v)
    ensures Reads(Compiled(v)) == {} && !HasBottom(Compiled(v))
  {
    XsIsConcrete(v);
    ConcreteHasNoBottom(Xs(v));
    hide IsConcrete, HasThunk;
    var fs := Compiled(v).fields;
    assert !HasBottom(fs[0].val) && !HasBottom(fs[1].val) && !HasBottom(fs[3].val);
    assert fs[2].val == Xs(v);
    forall i | 0 <= i < |fs| ensures !HasBottom(fs[i].val) { assert i == 0 || i == 1 || i == 2 || i == 3; }
  }

  lemma CompiledDeclares(v: Value)
    requires Reads(v) <= {"n"}
    ensures RefsDeclared(Compiled(v).fields)
  {
    XsReads(v);
    NameDeclared(v, "n", 0);
    NameDeclared(v, "m", 1);
    NameDeclared(v, "xs", 2);
    hide FieldNames, ReadsOfValues;
    var fs, names := Compiled(v).fields, FieldNames(Compiled(v).fields);
    assert Reads(Atom(AkString)) == {} && Reads(Y) == {"m", "xs"};
    assert Reads(fs[0].val) <= names && Reads(fs[1].val) <= names;
    hide Reads;
    assert Reads(fs[2].val) <= names && Reads(fs[3].val) <= names;
    forall i | 0 <= i < |fs| ensures Reads(fs[i].val) <= names {
      assert i == 0 || i == 1 || i == 2 || i == 3;
    }
  }

  lemma SourceCompiles(t: Tools, e: Expr, v: Value)
    requires Waits(t, e, v)
    ensures EvalStruct(t, Source(e), None) == Ok(Compiled(v))
    ensures CompileSource(t, Source(e)) == Some(Compiled(v))
  {
    DeclsCompile(t, e, v);
    CompiledDeclares(v);
    NoneBuried(v);
    hide EvalDecls, Reads, RefsDeclared, HasBottom, IsConcrete, HasThunk;
    assert EvalStruct(t, Source(e), None) == Ok(Compiled(v));
    assert forall i | 0 <= i < |Source(e)| :: Source(e)[i].FieldDecl?;
  }

  // ----- Forcing y lets a reference escape -----

  lemma MeetOfXsWaits(t: Tools, scope: Scope)
    requires "xs" in scope && IsConcrete(scope["xs"]) && scope["xs"].List? && HasThunk(scope["xs"])
    ensures EvalExpr(t, MEETS_XS, Some(scope)) == Ok(Thunk(FreeRefs(MEETS_XS), MEETS_XS))
  {
    assert EvalExpr(t, Ident("xs"), Some(scope)) == Ok(scope["xs"]);
    hide IsConcrete, HasThunk;
    var es := ANY_LIST.elems;
    assert es[..0] == [];
    assert EvalList(t, [], Some(scope)) == Ok(([], Closed));
    assert EvalExpr(t, ANY_LIST, Some(scope)) == Ok(List([], Open(Top)));
  }

  lemma OneFieldDecl(t: Tools, name: string, e: Expr, v: Value, scope: Scope)
    requires FieldLabel(Bare(name)) == Some(name) && EvalChild(t, e, Some(scope)) == Ok(v)
    ensures EvalDecls(t, [FieldDecl(Bare(name), false, e)], Some(scope)) == Ok(Built([Field(name, v, false)], None))
  {
    hide EvalChild, FieldLabel;
    var ds := [FieldDecl(Bare(name), false, e)];
    assert ds[..0] == [];
    assert EvalDecls(t, [], Some(scope)) == Ok(Built([], None));
    assert AppendOrUnify(t, [], Field(name, v, false)) == [Field(name, v, false)];
  }

  lemma OneFieldLit(t: Tools, name: string, e: Expr, v: Value, scope: Scope)
    requires FieldLabel(Bare(name)) == Some(name) && EvalExpr(t, e, Some(scope)) == Ok(v)
    ensures EvalExpr(t, StructLit([FieldDecl(Bare(name), false, e)]), Some(scope)) == Ok(Struct([Field(name, v, false)], false))
  {
    hide FieldLabel, EvalDecls;
    var ds := [FieldDecl(Bare(name), false, e)];
    assert EvalChild(t, e, Some(scope)) == Ok(v);
    OneFieldDecl(t, name, e, v, scope);
    hide EvalChild;
    assert EvalExpr(t, StructLit(ds), Some(scope)) == EvalStruct(t, ds, Some(scope));
  }

  lemma UndeclaredReadIsNotScoped(name: string, th: Value, read: string)
    requires read in Reads(th) && read != name
    ensures !Scoped(Struct([Field(name, th, false)], false))
  {
    hide Reads;
    var fs := [Field(name, th, false)];
    assert fs[..0] == [] && FieldNames([]) == {};
    assert FieldNames(fs) == {name};
    assert fs[0].val == th;
  }

  /** Once m is known the guard is `_`. */
  lemma GuardOpens(t: Tools, scope: Scope)
    requires "m" in scope && IsConcrete(scope["m"])
    ensures EvalExpr(t, WAITS_FOR_M, Some(scope)) == Ok(Top)
  {
    var es := WAITS_FOR_M.target.elems;
    var m := LookUp("m", Some(scope)).v;
    assert EvalExpr(t, WAITS_FOR_M.index, Some(scope)) == Ok(Con(Int(0 + 1)));
    assert EvalExpr(t, Ident("m"), Some(scope)) == Ok(m);
    assert EvalExpr(t, Ident("_"), Some(scope)) == Ok(Top);
    hide LookUp, IsConcrete;
    assert es[1..] == [Item(Ident("_"))] && es[1..][1..] == [];
    assert EvalItems(t, [], Some(scope)) == Ok([]);
    assert [Top] + [] == [Top];
    assert EvalItems(t, es[1..], Some(scope)) == Ok([Top]);
    assert EvalItems(t, es, Some(scope)) == Ok([m] + [Top]);
    assert ([m] + [Top])[1] == Top;
  }

  /** m is known and xs is a concrete list that holds a thunk. */
  ghost predicate Ready(scope: Scope)
  {
    && "m" in scope && IsConcrete(scope["m"])
    && "xs" in scope && IsConcrete(scope["xs"]) && scope["xs"].List? && HasThunk(scope["xs"])
  }

  const DEFERRED := Thunk(FreeRefs(MEETS_XS), MEETS_XS)
  const ESCAPED := Struct([Field("q", DEFERRED, false)], false)

  lemma GuardedForces(t: Tools, scope: Scope)
    requires Ready(scope) && t.meet(Top, ESCAPED) == ESCAPED
    ensures EvalExpr(t, GUARDED, Some(scope)) == Ok(ESCAPED)
  {
    GuardOpens(t, scope);
    MeetOfXsWaits(t, scope);
    OneFieldLit(t, "q", MEETS_XS, DEFERRED, scope);
    hide EvalItems, EvalStruct, IsConcrete;
    assert !HasThunk(Top) && !HasThunk(ESCAPED);
  }

  lemma YForces(t: Tools, scope: Scope)
    requires Ready(scope) && t.meet(Top, ESCAPED) == ESCAPED
    ensures Forced(t, Y_SOURCE, scope) == ESCAPED
  {
    GuardedForces(t, scope);
    assert EvalExpr(t, Y_SOURCE.index, Some(scope)) == Ok(Con(Int(0)));
    hide IsConcrete;
    var es := Y_SOURCE.target.elems;
    assert es[0] == Item(GUARDED) && es[1..] == [];
    assert EvalItems(t, [], Some(scope)) == Ok([]);
    assert EvalItems(t, es, Some(scope)) == Ok([ESCAPED] + []);
    assert ([ESCAPED] + [])[0] == ESCAPED;
    hide EvalItems;
    assert EvalExpr(t, Y_SOURCE, Some(scope)) == Ok(ESCAPED);
  }

  lemma CompiledNames(v: Value)
    ensures UniqueNames(Compiled(v).fields) && UniqueNames(GIVEN.fields)
    ensures !HasField(GIVEN.fields, "xs")
  {
    var fs := Compiled(v).fields;
    assert fs[0].name == "n" && fs[1].name == "m" && fs[2].name == "xs" && fs[3].name == "y";
  }

  lemma ScopeOfPass(v: Value)
    requires IsConcrete(v) && HasThunk(v)
    ensures Ready(ConcreteScope(GIVEN, Compiled(v)))
  {
    XsIsConcrete(v);
    CompiledNames(v);
    var fs := Compiled(v).fields;
    assert IsConcrete(GIVEN.fields[0].val) && GIVEN.fields[0].name == "m";
    assert fs[2] == Field("xs", Xs(v), false);
    hide ConcreteScope, IsConcrete, HasThunk, UniqueNames, Compiled;
    ScopeNames(GIVEN, Compiled(v));
    assert ConcreteAt(GIVEN.fields, "m");
    assert ConcreteAt(fs, "xs");
    FindAt(fs, 2);
    ScopeAt(GIVEN, Compiled(v), "xs");
  }

  lemma YPassed(t: Tools, v: Value, scope: Scope)
    requires Ready(scope) && t.meet(Top, ESCAPED) == ESCAPED
    ensures ForceFields(Compiled(v), scope, true, Forcing(t)).fields[3].val == ESCAPED
  {
    hide EvalExpr, Forced, IsConcrete, HasThunk;
    YForces(t, scope);
    assert Resolvable(["m", "xs"], scope);
    assert Compiled(v).fields[3].val == Y;
  }

  lemma EscapedIsNotScoped()
    ensures !Scoped(ESCAPED)
  {
    hide Names, Scoped;
    XsIsRead();
    UndeclaredReadIsNotScoped("q", DEFERRED, "xs");
  }

  /**
    MAIN: with any expression that compiles to a concrete value holding a thunk, the source compiles; once m
    is given, the first pass forces y while xs is concrete, and y becomes a struct with a thunk that reads
    xs, a name it does not declare.
   */
  lemma DeferredMeetEscapes(t: Tools, e: Expr, v: Value)
    requires Waits(t, e, v) && t.meet(Top, ESCAPED) == ESCAPED
    ensures CompileSource(t, Source(e)) == Some(Compiled(v))
    ensures Pass(GIVEN, Compiled(v), Forcing(t)).1.fields[3].val == ESCAPED && !Scoped(ESCAPED)
  {
    hide ConcreteScope, EvalExpr, Forced, Scoped, IsConcrete, HasThunk, CompileSource, Reads, Ready;
    SourceCompiles(t, e, v);
    ScopeOfPass(v);
    YPassed(t, v, ConcreteScope(GIVEN, Compiled(v)));
    EscapedIsNotScoped();
  }

  // ----- In the compiler -----

  lemma YStays(t: Tools, v: Value)
    requires IsConcrete(v) && HasThunk(v) && t.meet(Top, ESCAPED) == ESCAPED
    ensures Resolved(GIVEN, Compiled(v), Forcing(t)).1.fields[3].val == ESCAPED
  {
    var c, ev := Compiled(v), Forcing(t);
    ScopeOfPass(v);
    YPassed(t, v, ConcreteScope(GIVEN, c));
    assert HasThunk(c.fields[3].val) && HasThunkField(c);
    assert !HasThunk(ESCAPED);
    hide Resolved, ConcreteScope, IsConcrete, HasThunk, HasThunkField, Ready, Forcing;
    FirstPassDecides(GIVEN, c, ev, 3, true);
  }

  lemma OtherFields(v: Value)
    requires IsConcrete(v)
    ensures var c := Compiled(v);
      && c.Struct? && |c.fields| == 4 && !c.closed && !HasThunk(c.fields[0].val) && !HasThunk(c.fields[1].val) && IsConcrete(c.fields[2].val)
      && c.fields[0] == Field("n", Atom(AkString), false) && c.fields[1] == Field("m", Atom(AkString), false)
      && c.fields[2].name == "xs" && !c.fields[2].optional && c.fields[3].name == "y" && !c.fields[3].optional
    ensures !HasThunk(GIVEN.fields[0].val)
  {
    assert Xs(v).prefix[0] == v;
  }

  /** What the two structs are when their fields are met. */
  lemma ResolvedWithEscape(t: Tools, v: Value)
    requires IsConcrete(v) && HasThunk(v) && t.meet(Top, ESCAPED) == ESCAPED
    ensures var (a, b) := Resolved(GIVEN, Compiled(v), Forcing(t));
      && a == GIVEN && !b.closed && |b.fields| == 4
      && b.fields[0] == Field("n", Atom(AkString), false) && b.fields[1] == Field("m", Atom(AkString), false)
      && b.fields[2] == Field("xs", b.fields[2].val, false) && IsConcrete(b.fields[2].val)
      && b.fields[3] == Field("y", ESCAPED, false)
  {
    hide Resolved, IsConcrete, HasThunk, Forcing, Compiled;
    var c, ev := Compiled(v), Forcing(t);
    YStays(t, v);
    OtherFields(v);
    ResolvedShape(GIVEN, c, ev);
    PlainFieldStays(GIVEN, c, ev, 0);
    PlainFieldStays(GIVEN, c, ev, 1);
    var (a, b) := Resolved(GIVEN, c, ev);
    assert a.fields == GIVEN.fields;
  }

  lemma PlainFieldStays(v: Value, o: Value, ev: Closures, i: nat)
    requires v.Struct? && o.Struct?
    ensures i < |v.fields| && !HasThunk(v.fields[i].val) ==> Resolved(v, o, ev).0.fields[i] == v.fields[i]
    ensures i < |o.fields| && !HasThunk(o.fields[i].val) ==> Resolved(v, o, ev).1.fields[i] == o.fields[i]
  {
    hide HasThunk, ConcreteScope, Settle;
    SettlesAsIs(v, o, ev, i);
    var (v1, o1) := Settle(v, o, ev);
    if i < |v.fields| && !HasThunk(v.fields[i].val) { Unthunked(v.fields[i].val, ConcreteScope(v1, o1), false, ev); }
    if i < |o.fields| && !HasThunk(o.fields[i].val) { Unthunked(o.fields[i].val, ConcreteScope(v1, o1), false, ev); }
  }

  /** The struct the compiler meets out of the two. */
  function Escaping(xs: Value): Value
  {
    Struct([Field("m", Con(Str("d")), false), Field("n", Atom(AkString), false), Field("xs", xs, false), Field("y", ESCAPED, false)], false)
  }

  lemma OnlyM(n: string)
    ensures HasField(GIVEN.fields, n) <==> n == "m"
  {
    assert GIVEN.fields[0].name == "m";
  }

  lemma ExtraSnoc(of: seq<Field>, f: Field)
    ensures ExtraFields(GIVEN.fields, false, of + [f]) == ExtraFields(GIVEN.fields, false, of) + (if f.name == "m" then [] else [f])
  {
    OnlyM(f.name);
    assert (of + [f])[..|of|] == of;
  }

  lemma ExtraTwo(a: Field, b: Field)
    requires a.name != "m" && b.name == "m"
    ensures ExtraFields(GIVEN.fields, false, [a, b]) == [a]
  {
    assert ExtraFields(GIVEN.fields, false, []) == [];
    hide *;
    ExtraSnoc([], a);
    assert [] + [a] == [a];
    ExtraSnoc([a], b);
    assert [a] + [b] == [a, b] && [a] + [] == [a];
  }

  lemma ExtraFour(a: Field, b: Field, c: Field, d: Field)
    requires a.name != "m" && b.name == "m" && c.name != "m" && d.name != "m"
    ensures ExtraFields(GIVEN.fields, false, [a, b, c, d]) == [a, c, d]
  {
    hide *;
    ExtraTwo(a, b);
    ExtraSnoc([a, b], c);
    assert [a, b] + [c] == [a, b, c] && [a] + [c] == [a, c];
    ExtraSnoc([a, b, c], d);
    assert [a, b, c] + [d] == [a, b, c, d] && [a, c] + [d] == [a, c, d];
  }

  lemma StructsMeet(rec: Meeting, o: Value, xs: Value)
    requires o == Struct([Field("n", Atom(AkString), false), Field("m", Atom(AkString), false), Field("xs", xs, false), Field("y", ESCAPED, false)], false)
    requires rec(Con(Str("d")), Atom(AkString)) == Con(Str("d"))
    ensures StructBy(rec, GIVEN, o) == Escaping(xs)
  {
    var of := o.fields;
    hide UniqueNames;
    assert of[0].name != "m" && of[1].name == "m";
    assert HasField(of, "m") && IndexOf(of, "m") == 1;
    assert FieldBy(rec, GIVEN.fields[0], of, false) == Field("m", Con(Str("d")), false);
    hide FieldBy, ExtraFields, HasField, IndexOf;
    assert FieldsBy(rec, GIVEN.fields, of, false) == [Field("m", Con(Str("d")), false)];
    ExtraFour(of[0], of[1], of[2], of[3]);
    assert of == [of[0], of[1], of[2], of[3]];
    assert [Field("m", Con(Str("d")), false)] + [of[0], of[2], of[3]] == Escaping(xs).fields;
  }

  lemma EscapingIsNotScoped(xs: Value)
    ensures !Scoped(Escaping(xs))
  {
    EscapedIsNotScoped();
    assert Escaping(xs).fields[3].val == ESCAPED;
  }

  lemma EscapingIsAccepted(xs: Value)
    requires IsConcrete(xs)
    ensures Reads(Escaping(xs)) == {} && !HasBottom(Escaping(xs))
  {
    ConcreteHasNoBottom(xs);
    var fs := Escaping(xs).fields;
    hide IsConcrete;
    assert !HasBottom(fs[0].val) && !HasBottom(fs[1].val) && !HasBottom(fs[3].val);
    assert fs[2].val == xs;
    forall i | 0 <= i < |fs| ensures !HasBottom(fs[i].val) { assert i == 0 || i == 1 || i == 2 || i == 3; }
  }

  const GIVEN_SOURCE := StructLit([FieldDecl(Bare("m"), false, Basic(LitStr("d")))])

  /** {m: "d"} & {n: string, m: string, xs: [e], y: ...} */
  function MeetSource(e: Expr): seq<Decl>
  {
    [Embed(Binary(And, GIVEN_SOURCE, StructLit(Source(e))))]
  }

  lemma GivenCompiles(t: Tools)
    ensures EvalExpr(t, GIVEN_SOURCE, None) == Ok(GIVEN)
  {
    var ds := GIVEN_SOURCE.decls;
    assert ds[..0] == [];
    assert EvalDecls(t, [], None) == Ok(Built([], None));
    assert CompileExpr(t, Basic(LitStr("d"))) == Ok(Con(Str("d")));
    assert FieldLabel(Bare("m")) == Some("m");
    FieldStep(t, [], [], "m", Basic(LitStr("d")), Con(Str("d")));
    assert [] + ds == ds && [] + GIVEN.fields == GIVEN.fields;
    assert FieldNames(GIVEN.fields) >= {};
    assert RefsDeclared(GIVEN.fields);
    hide EvalDecls, RefsDeclared;
    assert EvalStruct(t, ds, None) == Ok(GIVEN);
  }

  /** From depth 2 on the evaluator's meet does what the escape needs. */
  lemma MeetLetsEscape(n: nat, regex: string -> Option<string -> bool>)
    requires n >= 1
    ensures ToolsAt(n, regex).meet(Top, ESCAPED) == ESCAPED
    ensures ToolsAt(n, regex).meet(Con(Str("d")), Atom(AkString)) == Con(Str("d"))
  {
    hide DisjBy, ListBy, StructBy, Resolved;
    EngineStep(n, regex, Top, ESCAPED);
    EngineStep(n, regex, Con(Str("d")), Atom(AkString));
  }

  lemma MeetOfTheTwo(n: nat, regex: string -> Option<string -> bool>, v: Value)
    requires n >= 2 && IsConcrete(v) && HasThunk(v)
    ensures exists xs :: IsConcrete(xs) && ToolsAt(n, regex).meet(GIVEN, Compiled(v)) == Escaping(xs)
  {
    hide Resolved, StructBy, IsConcrete, HasThunk, Escaping, ToolsAt;
    var t := ToolsAt(n - 1, regex);
    MeetLetsEscape(n - 1, regex);
    EngineStep(n, regex, GIVEN, Compiled(v));
    ResolvedWithEscape(t, v);
    var (a, b) := Resolved(GIVEN, Compiled(v), Forcing(t));
    var xs := b.fields[2].val;
    assert b.fields == [b.fields[0], b.fields[1], b.fields[2], b.fields[3]];
    StructsMeet(t.meet, b, xs);
  }

  /**
    MAIN: with any such expression a source that meets two structs compiles, at every depth that suffices,
    to a value in which a struct holds a thunk reading a name it does not declare.
   */
  lemma CompilingCanEscape(n: nat, regex: string -> Option<string -> bool>, e: Expr, v: Value)
    requires n >= 2 && Waits(ToolsAt(n, regex), e, v)
    ensures var w := CompileSource(ToolsAt(n, regex), MeetSource(e)); w.Some? && !Scoped(w.value)
  {
    hide IsConcrete, HasThunk, Reads, HasBottom, ToolsAt, Scoped, EvalStruct, Escaping, Compiled;
    var t := ToolsAt(n, regex);
    GivenCompiles(t);
    SourceCompiles(t, e, v);
    MeetOfTheTwo(n, regex, v);
    var xs :| IsConcrete(xs) && t.meet(GIVEN, Compiled(v)) == Escaping(xs);
    assert EvalExpr(t, StructLit(Source(e)), None) == Ok(Compiled(v));
    StructsHaveNoThunk(v);
    assert EvalExpr(t, MeetSource(e)[0].e, None) == Ok(Escaping(xs));
    EscapingIsNotScoped(xs);
    EscapingIsAccepted(xs);
  }

  lemma StructsHaveNoThunk(v: Value)
    ensures !HasThunk(GIVEN) && !HasThunk(Compiled(v))
  {
  }

  // ----- Two such expressions -----

  const N_IS_A := Paren(Binary(Eql, Ident("n"), Basic(LitStr("a"))))
  const WAITING := Thunk(["n"], N_IS_A)

  /** (n == "a") | *"z" */
  const CHOICE_SOURCE := Binary(Or, N_IS_A, Unary(Mark, Basic(LitStr("z"))))
  const CHOICE := Disj([Branch(WAITING, Not), Branch(Con(Str("z")), Is)])

  /** [...(n == "a")] */
  const TAIL_SOURCE := ListLit([Ellipsis(Some(N_IS_A))])
  const TAIL := List([], Open(WAITING))

  lemma GuardCompiles(t: Tools)
    ensures CompileExpr(t, N_IS_A) == Ok(WAITING)
  {
    GuardUnresolved(t);
    GuardRefs();
    hide EvalExpr, FreeRefs;
    assert Deferrable(N_IS_A) == Deferrable(N_IS_A.inner);
  }

  lemma GuardUnresolved(t: Tools)
    ensures EvalExpr(t, N_IS_A, None) == Unresolved
  {
    var eq := N_IS_A.inner;
    assert EvalExpr(t, eq.x, None) == Unresolved && EvalExpr(t, eq.y, None) == Ok(Con(Str("a")));
    assert EvalExpr(t, eq, None) == Unresolved;
  }

  lemma GuardRefs()
    ensures FreeRefs(N_IS_A) == ["n"]
  {
    ComparisonNames(Eql, "n", LitStr("a"));
    assert Names(N_IS_A) == Names(N_IS_A.inner);
    assert IsReference("n");
    hide Names, Distinct, IsReference;
    OneReference("n");
  }

  lemma ChoiceBranches(t: Tools)
    ensures EvalBranches(t, N_IS_A, false, None) == Ok(([Branch(WAITING, Maybe)], false))
    ensures EvalBranches(t, Unary(Mark, Basic(LitStr("z"))), false, None) == Ok(([Branch(Con(Str("z")), Is)], true))
  {
    GuardCompiles(t);
    hide CompileExpr;
    var z := Basic(LitStr("z"));
    assert EvalChild(t, z, None) == Ok(Con(Str("z"))) by { ZCompiles(t); }
    assert EvalBranches(t, z, true, None) == Ok(([Branch(Con(Str("z")), Is)], true));
  }

  lemma ZCompiles(t: Tools)
    ensures CompileExpr(t, Basic(LitStr("z"))) == Ok(Con(Str("z")))
  {
  }

  /** An unmarked branch before a marked one. */
  lemma SecondMarked(v: Value, c: Value)
    requires !v.Bottom? && !c.Bottom? && !SameConcrete(v, c)
    ensures BuildDisjunction([Branch(v, Maybe)] + [Branch(c, Is)], true) == Disj([Branch(v, Not), Branch(c, Is)])
  {
    hide SameConcrete;
    var a, b := Branch(v, Maybe), Branch(c, Is);
    assert [a] + [b] == [a, b];
    assert [a, b][..1] == [a] && [a][..0] == [];
    assert LiveOf([a]) == [a] && LiveOf([a, b]) == [a, b];
    assert Dedupe([a]) == [a];
    assert FirstSame([a], b.v).None?;
    assert Dedupe([a, b]) == [a, b];
    assert RaiseMaybe([a, b]) == [Branch(v, Not), Branch(c, Is)];
  }

  lemma ChoiceCompiles(t: Tools)
    ensures CompileExpr(t, CHOICE_SOURCE) == Ok(CHOICE)
  {
    hide SameConcrete, BuildDisjunction, EvalBranches;
    ChoiceBranches(t);
    assert !SameConcrete(WAITING, Con(Str("z"))) by { WaitingDiffers(); }
    SecondMarked(WAITING, Con(Str("z")));
    assert EvalExpr(t, CHOICE_SOURCE, None) == Ok(CHOICE);
  }

  lemma WaitingDiffers()
    ensures !SameConcrete(WAITING, Con(Str("z")))
  {
  }

  lemma TailCompiles(t: Tools)
    ensures CompileExpr(t, TAIL_SOURCE) == Ok(TAIL)
  {
    GuardCompiles(t);
    hide CompileExpr;
    var es := TAIL_SOURCE.elems;
    assert es[..0] == [];
    assert EvalList(t, [], None) == Ok(([], Closed));
    assert EvalChild(t, N_IS_A, None) == Ok(WAITING);
    hide EvalChild;
    assert EvalList(t, es, None) == Ok(([], Open(WAITING)));
    assert CompileExpr(t, TAIL_SOURCE) == Ok(TAIL) by { TailIsList(t); }
  }

  lemma TailIsList(t: Tools)
    requires EvalList(t, TAIL_SOURCE.elems, None) == Ok(([], Open(WAITING)))
    ensures CompileExpr(t, TAIL_SOURCE) == Ok(TAIL)
  {
    hide EvalList;
    assert EvalExpr(t, TAIL_SOURCE, None) == Ok(TAIL);
  }

  lemma TailWaits()
    ensures Reads(TAIL) == {"n"} && IsConcrete(TAIL) && HasThunk(TAIL)
  {
  }

  lemma NeitherIsNeat()
    ensures !NeatExpr(CHOICE_SOURCE) && !NeatExpr(TAIL_SOURCE)
  {
    hide FreeRefs;
    GuardRefs();
    GuardIsNotInert();
    hide Inert;
    assert !NeatElem(TAIL_SOURCE.elems[0]);
  }

  /** A deferred alternative beside a default, and a deferred open tail: the two shapes a neat source excludes. */
  lemma ExcludedShapesWait(t: Tools)
    ensures Waits(t, CHOICE_SOURCE, CHOICE) && !NeatExpr(CHOICE_SOURCE)
    ensures Waits(t, TAIL_SOURCE, TAIL) && !NeatExpr(TAIL_SOURCE)
  {
    hide CompileExpr, FreeRefs, IsConcrete, HasThunk, Reads, NeatExpr;
    ChoiceCompiles(t);
    TailCompiles(t);
    ChoiceWaits();
    TailWaits();
    NeitherIsNeat();
  }

  lemma GuardIsNotInert()
    requires FreeRefs(N_IS_A) == ["n"]
    ensures !Inert(N_IS_A)
  {
    assert Names(N_IS_A) == Names(N_IS_A.inner);
    hide Names, Distinct;
    assert FreeRefs(N_IS_A.inner) == ["n"];
  }

  lemma ChoiceWaits()
    ensures IsConcrete(CHOICE) && HasThunk(CHOICE) && Reads(CHOICE) == {"n"}
  {
    var bs := CHOICE.branches;
    MarkedOne(bs, 1);
    assert HasThunk(bs[0].v);
    assert bs[..1] == [bs[0]] && [bs[0]][..0] == [];
    assert ReadsOfBranches([bs[0]]) == {"n"};
    assert ReadsOfBranches(bs) == {"n"} + {};
  }

}
