/**
  The evaluator's own meet, deep enough, compiles an expression without references as the plain meet does:
  so what the engine compiles means what is written, and what it accepts is what the source admits.
 */
module DeepMeaning {

  import opened Wrappers
  import opened Syntax
  import opened Values
  import opened Semantics
  import opened Meet
  import opened Thunks
  import opened Eval
  import opened Engine
  import opened Validate
  import opened Meaning
  import opened Constructs
  import opened Compounds
  import opened Denotes
  import opened Acceptance

  // ----- The same results -----

  ghost predicate Same(t: Tools, p: Tools, e: Expr)
  {
    EvalExpr(t, e, None) == EvalExpr(p, e, None)
  }

  /** From depth N on the engine's result is the plain one. */
  ghost predicate SameFrom(m: Regexes, e: Expr, N: nat)
  {
    forall n: nat | n >= N :: Same(ToolsAt(n, m), PlainTools(m), e)
  }

  ghost predicate BranchesFrom(m: Regexes, e: Expr, marked: bool, N: nat)
  {
    forall n: nat | n >= N :: EvalBranches(ToolsAt(n, m), e, marked, None) == EvalBranches(PlainTools(m), e, marked, None)
  }

  ghost predicate HereFrom(m: Regexes, el: Elem, N: nat)
  {
    forall n: nat | n >= N :: HereOf(ToolsAt(n, m), el) == HereOf(PlainTools(m), el)
  }

  ghost predicate ItemsFrom(m: Regexes, es: seq<Elem>, N: nat)
  {
    forall n: nat | n >= N :: EvalItems(ToolsAt(n, m), es, None) == EvalItems(PlainTools(m), es, None)
  }

  ghost predicate ListFrom(m: Regexes, es: seq<Elem>, N: nat)
  {
    forall n: nat | n >= N :: EvalList(ToolsAt(n, m), es, None) == EvalList(PlainTools(m), es, None)
  }

  ghost predicate DeclsFrom(m: Regexes, ds: seq<Decl>, N: nat)
  {
    forall n: nat | n >= N :: EvalDecls(ToolsAt(n, m), ds, None) == EvalDecls(PlainTools(m), ds, None)
  }

  function Max(a: nat, b: nat): nat
  {
    if a < b then b else a
  }

  lemma Regex(n: nat, m: Regexes)
    ensures ToolsAt(n, m).regex == m == PlainTools(m).regex
  {
  }

  lemma {:induction false} WfIsThunkFree(v: Value)
    requires Wf(v)
    ensures ThunkFree(v)
  {
    match v
    case Struct(fs, _) => forall i | 0 <= i < |fs| ensures ThunkFree(fs[i].val) { WfIsThunkFree(fs[i].val); }
    case List(p, t) =>
      forall i | 0 <= i < |p| ensures ThunkFree(p[i]) { WfIsThunkFree(p[i]); }
      if t.Open? { WfIsThunkFree(t.elem); }
    case Disj(bs) => forall i | 0 <= i < |bs| ensures ThunkFree(bs[i].v) { WfIsThunkFree(bs[i].v); }
    case _ =>
  }

  lemma MeetFrom(m: Regexes, a: Value, b: Value, n: nat)
    requires Wf(a) && Wf(b) && n > Size(a) + Size(b)
    ensures ToolsAt(n, m).meet(a, b) == PlainTools(m).meet(a, b) == Unify(a, b)
  {
    hide Size, Wf, ThunkFree, ToolsAt, Unify;
    WfIsThunkFree(a);
    WfIsThunkFree(b);
    EngineIsMeet(n, m, a, b);
  }

  lemma SameCompiled(t: Tools, p: Tools, e: Expr)
    requires Same(t, p, e)
    ensures CompileExpr(t, e) == CompileExpr(p, e)
  {
    hide EvalExpr;
  }

  // ----- One construct at a time -----

  lemma LeafSame(t: Tools, p: Tools, e: Expr)
    requires e.Basic? || e.Ident? || Refused(e)
    ensures Same(t, p, e)
  {
  }

  lemma ParenSame(t: Tools, p: Tools, x: Expr)
    requires Same(t, p, x)
    ensures Same(t, p, Paren(x))
  {
    assert EvalExpr(t, Paren(x), None) == EvalExpr(t, x, None);
    assert EvalExpr(p, Paren(x), None) == EvalExpr(p, x, None);
    hide EvalExpr;
  }

  lemma CompareSame(t: Tools, p: Tools, op: BinOp, x: Expr, y: Expr)
    requires t.regex == p.regex && Same(t, p, x) && Same(t, p, y) && IsCompare(op)
    ensures Same(t, p, Binary(op, x, y))
  {
    BinaryCompares(t, op, x, y);
    BinaryCompares(p, op, x, y);
    hide EvalExpr;
  }

  lemma UnarySame(t: Tools, p: Tools, uop: UnOp, x: Expr)
    requires t.regex == p.regex && Same(t, p, x) && !uop.Mark? && !uop.OtherUnary?
    ensures Same(t, p, Unary(uop, x))
  {
    SameCompiled(t, p, x);
    UnaryCompiles(t, uop, x);
    UnaryCompiles(p, uop, x);
    hide EvalExpr, CompileExpr;
  }

  lemma CallSame(t: Tools, p: Tools, fun: Expr, x: Expr)
    requires Same(t, p, x)
    ensures Same(t, p, Call(fun, [x]))
  {
    SameCompiled(t, p, x);
    CallCompiles(t, fun, x);
    CallCompiles(p, fun, x);
    hide EvalExpr, CompileExpr;
  }

  lemma IndexSame(t: Tools, p: Tools, es: seq<Elem>, index: Expr)
    requires Same(t, p, index) && EvalItems(t, es, None) == EvalItems(p, es, None)
    ensures Same(t, p, Expr.Index(ListLit(es), index))
  {
    IndexPicks(t, es, index);
    IndexPicks(p, es, index);
    hide EvalExpr, EvalItems;
  }

  lemma OrSame(t: Tools, p: Tools, x: Expr, y: Expr)
    requires EvalBranches(t, x, false, None) == EvalBranches(p, x, false, None)
    requires EvalBranches(t, y, false, None) == EvalBranches(p, y, false, None)
    ensures Same(t, p, Binary(Or, x, y))
  {
    BinaryChooses(t, x, y);
    BinaryChooses(p, x, y);
    hide EvalExpr, EvalBranches;
  }

  lemma MeetsBy(t: Tools, x: Expr, y: Expr)
    ensures var e := Binary(And, x, y); var l, r := EvalExpr(t, x, None), EvalExpr(t, y, None);
      EvalExpr(t, e, None) ==
      if l.Hard? then Hard else if l.Unresolved? then Unresolved
      else if r.Hard? then Hard else if r.Unresolved? then Unresolved
      else if HasThunk(l.v) || HasThunk(r.v) then Ok(Thunk(FreeRefs(e), e)) else Ok(t.meet(l.v, r.v))
  {
    hide HasThunk, FreeRefs;
  }

  lemma AndSame(t: Tools, p: Tools, x: Expr, y: Expr)
    requires Same(t, p, x) && Same(t, p, y)
    requires var l, r := EvalExpr(p, x, None), EvalExpr(p, y, None); l.Ok? && r.Ok? ==> t.meet(l.v, r.v) == p.meet(l.v, r.v)
    ensures Same(t, p, Binary(And, x, y))
  {
    MeetsBy(t, x, y);
    MeetsBy(p, x, y);
    hide EvalExpr, HasThunk;
  }

  lemma ListSame(t: Tools, p: Tools, es: seq<Elem>)
    requires EvalList(t, es, None) == EvalList(p, es, None)
    ensures Same(t, p, ListLit(es))
  {
    ListIs(t, es);
    ListIs(p, es);
    hide EvalExpr, EvalList;
  }

  lemma ListIs(t: Tools, es: seq<Elem>)
    ensures var r := EvalList(t, es, None);
      EvalExpr(t, ListLit(es), None) == if r.Hard? then Hard else if r.Unresolved? then Unresolved else Ok(List(r.v.0, r.v.1))
  {
    hide EvalList;
  }

  lemma StructIs(t: Tools, ds: seq<Decl>)
    ensures var b := EvalDecls(t, ds, None);
      EvalExpr(t, StructLit(ds), None) == EvalStruct(t, ds, None)
      == if b.Hard? then Hard else if b.Unresolved? then Unresolved else Finish(t, b.v, true)
  {
    hide EvalDecls, Finish;
  }

  lemma StructSame(t: Tools, p: Tools, ds: seq<Decl>)
    requires EvalDecls(t, ds, None) == EvalDecls(p, ds, None)
    requires var b := EvalDecls(p, ds, None); b.Ok? && b.v.embedded.Some? ==>
      t.meet(Struct(b.v.fields, false), b.v.embedded.value) == p.meet(Struct(b.v.fields, false), b.v.embedded.value)
    ensures Same(t, p, StructLit(ds))
  {
    StructIs(t, ds);
    StructIs(p, ds);
    hide EvalExpr, EvalDecls, RefsDeclared, Reads, FieldNames;
  }

  lemma BranchesSame(t: Tools, p: Tools, e: Expr, marked: bool)
    requires if e.Unary? && e.uop.Mark? then EvalBranches(t, e.operand, true, None) == EvalBranches(p, e.operand, true, None)
             else if e.Binary? && e.op.Or? then
               && EvalBranches(t, e.x, marked, None) == EvalBranches(p, e.x, marked, None)
               && EvalBranches(t, e.y, marked, None) == EvalBranches(p, e.y, marked, None)
             else Same(t, p, e)
    ensures EvalBranches(t, e, marked, None) == EvalBranches(p, e, marked, None)
  {
    BranchesStep(t, e, marked);
    BranchesStep(p, e, marked);
    if Same(t, p, e) { SameCompiled(t, p, e); }
    hide EvalExpr, EvalBranches, CompileExpr, Flatten;
  }

  lemma CompSame(t: Tools, p: Tools, c: Comprehension)
    requires |c.clauses| == 1 && c.clauses[0].If? && c.body.StructLit? ==> Same(t, p, c.clauses[0].cond) && Same(t, p, c.body)
    ensures HereOf(t, CompElem(c)) == HereOf(p, CompElem(c))
  {
    if |c.clauses| == 1 && c.clauses[0].If? && c.body.StructLit? {
      CompStep(t, c);
      CompStep(p, c);
      hide EvalExpr, EvalComp;
    }
  }

  lemma ItemSame(t: Tools, p: Tools, e: Expr)
    requires Same(t, p, e)
    ensures HereOf(t, Item(e)) == HereOf(p, Item(e))
  {
    hide EvalExpr;
  }

  lemma EllipsisSame(t: Tools, p: Tools, typ: Option<Expr>)
    ensures HereOf(t, Ellipsis(typ)) == HereOf(p, Ellipsis(typ))
  {
  }

  lemma ItemsSame(t: Tools, p: Tools, es: seq<Elem>)
    requires es != [] ==> HereOf(t, es[0]) == HereOf(p, es[0]) && EvalItems(t, es[1..], None) == EvalItems(p, es[1..], None)
    ensures EvalItems(t, es, None) == EvalItems(p, es, None)
  {
    ItemsStep(t, es);
    ItemsStep(p, es);
    hide EvalItems, HereOf;
  }

  lemma ExtendedSame(t: Tools, p: Tools, es: seq<Elem>)
    requires es != [] ==> EvalList(t, es[..|es| - 1], None) == EvalList(p, es[..|es| - 1], None)
    requires es != [] && es[|es| - 1].CompElem? ==> HereOf(t, es[|es| - 1]) == HereOf(p, es[|es| - 1])
    requires es != [] && es[|es| - 1].Item? ==> Same(t, p, es[|es| - 1].e)
    requires es != [] && es[|es| - 1].Ellipsis? && es[|es| - 1].typ.Some? ==> Same(t, p, es[|es| - 1].typ.value)
    ensures EvalList(t, es, None) == EvalList(p, es, None)
  {
    ListStep(t, es);
    ListStep(p, es);
    if es != [] {
      var el := es[|es| - 1];
      if el.Item? { SameCompiled(t, p, el.e); }
      if el.Ellipsis? && el.typ.Some? { SameCompiled(t, p, el.typ.value); }
    }
    hide EvalExpr, EvalList, HereOf, CompileExpr;
  }

  lemma {:induction false} AppendSame(t: Tools, p: Tools, fs: seq<Field>, f: Field)
    requires forall i | 0 <= i < |fs| :: t.meet(fs[i].val, f.val) == p.meet(fs[i].val, f.val)
    ensures AppendOrUnify(t, fs, f) == AppendOrUnify(p, fs, f)
    decreases |fs|
  {
    if fs != [] && fs[0].name != f.name { AppendSame(t, p, fs[1..], f); }
  }

  /** Deep enough for one more declaration after b. */
  lemma DeclaredFrom(m: Regexes, b: Built, ds: seq<Decl>, d: Decl, n: nat) returns (N: nat)
    requires BuiltMeans(m, b, ds, false)
    requires d.FieldDecl? ==> Answers(m, EvalExpr(PlainTools(m), d.value, None), d.value, false) && SameFrom(m, d.value, n)
    requires d.Embed? ==> Answers(m, EvalExpr(PlainTools(m), d.e, None), d.e, false) && SameFrom(m, d.e, n)
    ensures N >= n && forall k: nat | k >= N :: Declared(ToolsAt(k, m), b, d) == Declared(PlainTools(m), b, d)
  {
    hide *;
    var p := PlainTools(m);
    N := n;
    if d.FieldDecl? {
      CompiledWf(m, d.value, d.value);
      var r := CompileExpr(p, d.value);
      if r.Ok? { N := Max(n, SizeFields(b.fields) + Size(r.v) + 1); }
      MaxIs(n, if r.Ok? then SizeFields(b.fields) + Size(r.v) + 1 else 0);
      forall k: nat | k >= N ensures Declared(ToolsAt(k, m), b, d) == Declared(p, b, d) { FieldSame(m, b, ds, d, n, k); }
    } else if d.Embed? {
      CompiledWf(m, d.e, d.e);
      var r := CompileExpr(p, d.e);
      if r.Ok? && b.embedded.Some? { N := Max(n, Size(b.embedded.value) + Size(r.v) + 1); }
      MaxIs(n, if r.Ok? && b.embedded.Some? then Size(b.embedded.value) + Size(r.v) + 1 else 0);
      forall k: nat | k >= N ensures Declared(ToolsAt(k, m), b, d) == Declared(p, b, d) { EmbedSame(m, b, ds, d, n, k); }
    } else {
      forall k: nat | k >= N ensures Declared(ToolsAt(k, m), b, d) == Declared(p, b, d) { OtherSame(ToolsAt(k, m), p, b, d); }
    }
  }

  lemma MaxIs(a: nat, b: nat)
    ensures Max(a, b) >= a && Max(a, b) >= b
  {
  }

  lemma CompiledWf(m: Regexes, x: Expr, e: Expr)
    requires Answers(m, EvalExpr(PlainTools(m), x, None), e, false)
    ensures CompileExpr(PlainTools(m), x) == EvalExpr(PlainTools(m), x, None)
    ensures CompileExpr(PlainTools(m), x).Ok? ==> Wf(CompileExpr(PlainTools(m), x).v)
  {
    hide EvalExpr, CompileExpr, Wf, Means;
    Compiled(PlainTools(m), x);
  }

  lemma OtherSame(t: Tools, p: Tools, b: Built, d: Decl)
    requires !d.FieldDecl? && !d.Embed?
    ensures Declared(t, b, d) == Declared(p, b, d)
  {
  }

  lemma FieldsAre(m: Regexes, b: Built, ds: seq<Decl>)
    requires BuiltMeans(m, b, ds, false)
    ensures (forall i | 0 <= i < |b.fields| :: Wf(b.fields[i].val)) && (b.embedded.Some? ==> Wf(b.embedded.value))
  {
    hide Wf;
  }

  lemma FieldSame(m: Regexes, b: Built, ds: seq<Decl>, d: Decl, n: nat, k: nat)
    requires BuiltMeans(m, b, ds, false) && d.FieldDecl? && SameFrom(m, d.value, n) && k >= n
    requires var r := CompileExpr(PlainTools(m), d.value); r.Ok? ==> Wf(r.v) && k > SizeFields(b.fields) + Size(r.v)
    ensures Declared(ToolsAt(k, m), b, d) == Declared(PlainTools(m), b, d)
  {
    var t, p := ToolsAt(k, m), PlainTools(m);
    assert Same(t, p, d.value) by { hide Same, ToolsAt, PlainTools; }
    SameCompiled(t, p, d.value);
    var r := CompileExpr(p, d.value);
    FieldsAre(m, b, ds);
    hide BuiltMeans, CompileExpr, Wf, Size, SizeFields, ToolsAt, PlainTools, SameFrom, Same;
    if r.Ok? && FieldLabel(d.lab).Some? {
      var f := Field(FieldLabel(d.lab).value, r.v, d.optional);
      forall i | 0 <= i < |b.fields| ensures t.meet(b.fields[i].val, f.val) == p.meet(b.fields[i].val, f.val) {
        FieldSmaller(b.fields, i);
        MeetFrom(m, b.fields[i].val, f.val, k);
      }
      AppendSame(t, p, b.fields, f);
    }
    hide AppendOrUnify;
  }

  lemma EmbedSame(m: Regexes, b: Built, ds: seq<Decl>, d: Decl, n: nat, k: nat)
    requires BuiltMeans(m, b, ds, false) && d.Embed? && SameFrom(m, d.e, n) && k >= n
    requires var r := CompileExpr(PlainTools(m), d.e); r.Ok? ==> Wf(r.v) && (b.embedded.Some? ==> k > Size(b.embedded.value) + Size(r.v))
    ensures Declared(ToolsAt(k, m), b, d) == Declared(PlainTools(m), b, d)
  {
    var t, p := ToolsAt(k, m), PlainTools(m);
    assert Same(t, p, d.e) by { hide Same, ToolsAt, PlainTools; }
    SameCompiled(t, p, d.e);
    var r := CompileExpr(p, d.e);
    FieldsAre(m, b, ds);
    hide BuiltMeans, CompileExpr, Wf, Size, ToolsAt, PlainTools, SameFrom, Same;
    if r.Ok? && b.embedded.Some? { MeetFrom(m, b.embedded.value, r.v, k); }
  }

  // ----- Every expression settles at some depth -----

  lemma {:induction false} EvalSettles(m: Regexes, e: Expr, strict: bool) returns (N: nat)
    requires Fits(PlainTools(m), e, strict)
    ensures SameFrom(m, e, N)
    decreases e, 1
  {
    hide *;
    var p := PlainTools(m);
    FitsParts(p, e, strict);
    RefusedIs(e);
    if e.Basic? || e.Ident? || Refused(e) {
      N := 0;
      forall n: nat ensures Same(ToolsAt(n, m), p, e) { LeafSame(ToolsAt(n, m), p, e); }
      FromAll(m, e, N);
    } else {
      match e
      case Paren(x) =>
        N := EvalSettles(m, x, strict);
        forall n: nat | n >= N ensures Same(ToolsAt(n, m), p, e) { SameAt(m, x, N, n); ParenSame(ToolsAt(n, m), p, x); }
        FromAll(m, e, N);
      case Index(target, index) =>
        var a := EvalSettles(m, index, strict);
        var b := ItemsSettle(m, target.elems, strict);
        N := Max(a, b);
        MaxIs(a, b);
        assert e == Expr.Index(ListLit(target.elems), index);
        forall n: nat | n >= N ensures Same(ToolsAt(n, m), p, e) {
          SameAt(m, index, a, n);
          ItemsAt(m, target.elems, b, n);
          IndexSame(ToolsAt(n, m), p, target.elems, index);
        }
        FromAll(m, e, N);
      case Binary(op, x, y) =>
        Operators(op);
        N := BinarySettles(m, op, x, y, strict);
      case ListLit(es) =>
        N := ListSettles(m, es, strict);
        forall n: nat | n >= N ensures Same(ToolsAt(n, m), p, e) { ListAt(m, es, N, n); ListSame(ToolsAt(n, m), p, es); }
        FromAll(m, e, N);
      case StructLit(ds) => N := StructSettles(m, ds, strict);
      case Unary(uop, x) =>
        N := EvalSettles(m, x, strict);
        forall n: nat | n >= N ensures Same(ToolsAt(n, m), p, e) {
          SameAt(m, x, N, n);
          Regex(n, m);
          UnarySame(ToolsAt(n, m), p, uop, x);
        }
        FromAll(m, e, N);
      case Call(fun, args) =>
        N := EvalSettles(m, args[0], strict);
        assert e == Call(fun, [args[0]]);
        forall n: nat | n >= N ensures Same(ToolsAt(n, m), p, e) { SameAt(m, args[0], N, n); CallSame(ToolsAt(n, m), p, fun, args[0]); }
        FromAll(m, e, N);
    }
  }

  lemma FromAll(m: Regexes, e: Expr, N: nat)
    requires forall n: nat | n >= N :: Same(ToolsAt(n, m), PlainTools(m), e)
    ensures SameFrom(m, e, N)
  {
    hide Same, ToolsAt, PlainTools;
  }

  lemma SameAt(m: Regexes, e: Expr, N: nat, n: nat)
    requires SameFrom(m, e, N) && n >= N
    ensures Same(ToolsAt(n, m), PlainTools(m), e)
  {
    hide Same, ToolsAt, PlainTools;
  }

  lemma ItemsAt(m: Regexes, es: seq<Elem>, N: nat, n: nat)
    requires ItemsFrom(m, es, N) && n >= N
    ensures EvalItems(ToolsAt(n, m), es, None) == EvalItems(PlainTools(m), es, None)
  {
    hide EvalItems, ToolsAt, PlainTools;
  }

  lemma ListAt(m: Regexes, es: seq<Elem>, N: nat, n: nat)
    requires ListFrom(m, es, N) && n >= N
    ensures EvalList(ToolsAt(n, m), es, None) == EvalList(PlainTools(m), es, None)
  {
    hide EvalList, ToolsAt, PlainTools;
  }

  lemma BranchesAt(m: Regexes, e: Expr, marked: bool, N: nat, n: nat)
    requires BranchesFrom(m, e, marked, N) && n >= N
    ensures EvalBranches(ToolsAt(n, m), e, marked, None) == EvalBranches(PlainTools(m), e, marked, None)
  {
    hide EvalBranches, ToolsAt, PlainTools;
  }

  lemma DeclsAt(m: Regexes, ds: seq<Decl>, N: nat, n: nat)
    requires DeclsFrom(m, ds, N) && n >= N
    ensures EvalDecls(ToolsAt(n, m), ds, None) == EvalDecls(PlainTools(m), ds, None)
  {
    hide EvalDecls, ToolsAt, PlainTools;
  }

  lemma {:induction false} BinarySettles(m: Regexes, op: BinOp, x: Expr, y: Expr, strict: bool) returns (N: nat)
    requires Fits(PlainTools(m), Binary(op, x, y), strict) && !op.OtherOp?
    ensures SameFrom(m, Binary(op, x, y), N)
    decreases Binary(op, x, y), 0
  {
    hide *;
    var p, e := PlainTools(m), Binary(op, x, y);
    FitsParts(p, e, strict);
    Operators(op);
    assert x < e && y < e;
    if op.Or? {
      var a := BranchesSettle(m, x, false, strict);
      var b := BranchesSettle(m, y, false, strict);
      N := Max(a, b);
      MaxIs(a, b);
      forall n: nat | n >= N ensures Same(ToolsAt(n, m), p, e) {
        BranchesAt(m, x, false, a, n);
        BranchesAt(m, y, false, b, n);
        OrSame(ToolsAt(n, m), p, x, y);
      }
    } else {
      var s := if op.And? then strict else true;
      var a := EvalSettles(m, x, s);
      var b := EvalSettles(m, y, s);
      EvalDenotes(m, x, s);
      EvalDenotes(m, y, s);
      AnswerWf(m, x, s);
      AnswerWf(m, y, s);
      var l, r := EvalExpr(p, x, None), EvalExpr(p, y, None);
      var c: nat := if l.Ok? && r.Ok? then Size(l.v) + Size(r.v) + 1 else 0;
      N := Max(Max(a, b), c);
      MaxIs(a, b);
      MaxIs(Max(a, b), c);
      forall n: nat | n >= N ensures Same(ToolsAt(n, m), p, e) {
        SameAt(m, x, a, n);
        SameAt(m, y, b, n);
        Regex(n, m);
        if op.And? {
          if l.Ok? && r.Ok? { MeetFrom(m, l.v, r.v, n); }
          AndSame(ToolsAt(n, m), p, x, y);
        } else {
          CompareSame(ToolsAt(n, m), p, op, x, y);
        }
      }
    }
    FromAll(m, e, N);
  }

  lemma Operators(op: BinOp)
    ensures op.Or? || op.And? || op.OtherOp? || IsCompare(op)
    ensures op.OtherOp? ==> !op.Or? && !op.And? && !IsCompare(op)
  {
  }

  lemma AnswerWf(m: Regexes, x: Expr, strict: bool)
    requires Answers(m, EvalExpr(PlainTools(m), x, None), x, strict)
    ensures EvalExpr(PlainTools(m), x, None).Ok? ==> Wf(EvalExpr(PlainTools(m), x, None).v)
  {
    hide EvalExpr, Wf, Means;
  }

  lemma {:induction false} BranchesSettle(m: Regexes, e: Expr, marked: bool, strict: bool) returns (N: nat)
    requires FitsBranch(PlainTools(m), e, strict)
    ensures BranchesFrom(m, e, marked, N)
    decreases e, 2
  {
    hide *;
    var p := PlainTools(m);
    BranchParts(p, e, strict);
    if e.Unary? && e.uop.Mark? {
      N := BranchesSettle(m, e.operand, true, strict);
      forall n: nat | n >= N ensures EvalBranches(ToolsAt(n, m), e, marked, None) == EvalBranches(p, e, marked, None) {
        BranchesAt(m, e.operand, true, N, n);
        BranchesSame(ToolsAt(n, m), p, e, marked);
      }
    } else if e.Binary? && e.op.Or? {
      var a := BranchesSettle(m, e.x, marked, strict);
      var b := BranchesSettle(m, e.y, marked, strict);
      N := Max(a, b);
      MaxIs(a, b);
      forall n: nat | n >= N ensures EvalBranches(ToolsAt(n, m), e, marked, None) == EvalBranches(p, e, marked, None) {
        BranchesAt(m, e.x, marked, a, n);
        BranchesAt(m, e.y, marked, b, n);
        BranchesSame(ToolsAt(n, m), p, e, marked);
      }
    } else {
      N := EvalSettles(m, e, strict);
      forall n: nat | n >= N ensures EvalBranches(ToolsAt(n, m), e, marked, None) == EvalBranches(p, e, marked, None) {
        SameAt(m, e, N, n);
        BranchesSame(ToolsAt(n, m), p, e, marked);
      }
    }
    BranchesAll(m, e, marked, N);
  }

  lemma BranchesAll(m: Regexes, e: Expr, marked: bool, N: nat)
    requires forall n: nat | n >= N :: EvalBranches(ToolsAt(n, m), e, marked, None) == EvalBranches(PlainTools(m), e, marked, None)
    ensures BranchesFrom(m, e, marked, N)
  {
    hide EvalBranches, ToolsAt, PlainTools;
  }

  lemma {:induction false} ElemSettles(m: Regexes, el: Elem, strict: bool) returns (N: nat)
    requires FitsElem(PlainTools(m), el, strict)
    ensures HereFrom(m, el, N) && (el.Item? ==> SameFrom(m, el.e, N))
    ensures el.Ellipsis? && el.typ.Some? ==> SameFrom(m, el.typ.value, N)
    decreases el, 0
  {
    hide *;
    var p := PlainTools(m);
    ElemParts(p, el, strict);
    N := 0;
    match el {
      case Ellipsis(typ) =>
        if typ.Some? {
          assert typ.value < el.typ && el.typ < el;
          N := EvalSettles(m, typ.value, strict);
        }
        forall n: nat ensures HereOf(ToolsAt(n, m), el) == HereOf(p, el) { EllipsisSame(ToolsAt(n, m), p, typ); }
      case Item(x) =>
        N := EvalSettles(m, x, strict);
        forall n: nat | n >= N ensures HereOf(ToolsAt(n, m), el) == HereOf(p, el) { SameAt(m, x, N, n); ItemSame(ToolsAt(n, m), p, x); }
      case CompElem(c) =>
        if |c.clauses| == 1 && c.clauses[0].If? && c.body.StructLit? {
          assert c.clauses[0].cond < c.clauses[0];
          var a := EvalSettles(m, c.clauses[0].cond, true);
          var b := EvalSettles(m, c.body, strict);
          N := Max(a, b);
          MaxIs(a, b);
          forall n: nat | n >= N ensures HereOf(ToolsAt(n, m), el) == HereOf(p, el) {
            SameAt(m, c.clauses[0].cond, a, n);
            SameAt(m, c.body, b, n);
            CompSame(ToolsAt(n, m), p, c);
          }
        } else {
          forall n: nat ensures HereOf(ToolsAt(n, m), el) == HereOf(p, el) { CompSame(ToolsAt(n, m), p, c); }
        }
    }
    HereAll(m, el, N);
  }

  lemma HereAll(m: Regexes, el: Elem, N: nat)
    requires forall n: nat | n >= N :: HereOf(ToolsAt(n, m), el) == HereOf(PlainTools(m), el)
    ensures HereFrom(m, el, N)
  {
    hide HereOf, ToolsAt, PlainTools;
  }

  lemma HereAt(m: Regexes, el: Elem, N: nat, n: nat)
    requires HereFrom(m, el, N) && n >= N
    ensures HereOf(ToolsAt(n, m), el) == HereOf(PlainTools(m), el)
  {
    hide HereOf, ToolsAt, PlainTools;
  }

  lemma {:induction false} ItemsSettle(m: Regexes, es: seq<Elem>, strict: bool) returns (N: nat)
    requires FitsElems(PlainTools(m), es, strict)
    ensures ItemsFrom(m, es, N)
    decreases es, 0
  {
    hide *;
    var p := PlainTools(m);
    N := 0;
    if es == [] {
      forall n: nat ensures EvalItems(ToolsAt(n, m), es, None) == EvalItems(p, es, None) { ItemsSame(ToolsAt(n, m), p, es); }
    } else {
      ElemsAt(p, es, strict, 1, |es|);
      assert es[1..] == es[1..|es|] && es[0] in es;
      var a := ElemSettles(m, es[0], strict);
      var b := ItemsSettle(m, es[1..], strict);
      N := Max(a, b);
      MaxIs(a, b);
      forall n: nat | n >= N ensures EvalItems(ToolsAt(n, m), es, None) == EvalItems(p, es, None) {
        HereAt(m, es[0], a, n);
        ItemsAt(m, es[1..], b, n);
        ItemsSame(ToolsAt(n, m), p, es);
      }
    }
    ItemsAll(m, es, N);
  }

  lemma ItemsAll(m: Regexes, es: seq<Elem>, N: nat)
    requires forall n: nat | n >= N :: EvalItems(ToolsAt(n, m), es, None) == EvalItems(PlainTools(m), es, None)
    ensures ItemsFrom(m, es, N)
  {
    hide EvalItems, ToolsAt, PlainTools;
  }

  lemma {:induction false} ListSettles(m: Regexes, es: seq<Elem>, strict: bool) returns (N: nat)
    requires FitsElems(PlainTools(m), es, strict)
    ensures ListFrom(m, es, N)
    decreases es, 0
  {
    hide *;
    var p := PlainTools(m);
    N := 0;
    if es == [] {
      forall n: nat ensures EvalList(ToolsAt(n, m), es, None) == EvalList(p, es, None) { ExtendedSame(ToolsAt(n, m), p, es); }
    } else {
      var k := |es| - 1;
      ElemsAt(p, es, strict, 0, k);
      assert es[..k] == es[0..k] && es[k] in es;
      var a := ListSettles(m, es[..k], strict);
      var b := ElemSettles(m, es[k], strict);
      N := Max(a, b);
      MaxIs(a, b);
      forall n: nat | n >= N ensures EvalList(ToolsAt(n, m), es, None) == EvalList(p, es, None) {
        ListAt(m, es[..k], a, n);
        HereAt(m, es[k], b, n);
        if es[k].Item? { SameAt(m, es[k].e, b, n); }
        if es[k].Ellipsis? && es[k].typ.Some? { SameAt(m, es[k].typ.value, b, n); }
        ExtendedSame(ToolsAt(n, m), p, es);
      }
    }
    ListAll(m, es, N);
  }

  lemma ListAll(m: Regexes, es: seq<Elem>, N: nat)
    requires forall n: nat | n >= N :: EvalList(ToolsAt(n, m), es, None) == EvalList(PlainTools(m), es, None)
    ensures ListFrom(m, es, N)
  {
    hide EvalList, ToolsAt, PlainTools;
  }

  lemma DeclsSame(t: Tools, p: Tools, ds: seq<Decl>)
    requires ds != [] && EvalDecls(t, ds[..|ds| - 1], None) == EvalDecls(p, ds[..|ds| - 1], None)
    requires var b := EvalDecls(p, ds[..|ds| - 1], None); b.Ok? ==> Declared(t, b.v, ds[|ds| - 1]) == Declared(p, b.v, ds[|ds| - 1])
    ensures EvalDecls(t, ds, None) == EvalDecls(p, ds, None)
  {
    DeclsStep(t, ds);
    DeclsStep(p, ds);
    hide EvalDecls, Declared;
  }

  lemma {:induction false} DeclsSettle(m: Regexes, ds: seq<Decl>, strict: bool) returns (N: nat)
    requires FitsDecls(PlainTools(m), ds, strict)
    ensures DeclsFrom(m, ds, N)
    decreases ds, 0
  {
    hide *;
    var p := PlainTools(m);
    N := 0;
    if ds == [] {
      forall n: nat ensures EvalDecls(ToolsAt(n, m), ds, None) == EvalDecls(p, ds, None) {
        DeclsStep(ToolsAt(n, m), ds);
        DeclsStep(p, ds);
      }
    } else {
      var k := |ds| - 1;
      var d := ds[k];
      DeclsParts(p, ds, strict);
      N := DeclsSettle(m, ds[..k], strict);
      var a, c := N, 0;
      StructDenotes(m, ds[..k], strict);
      BuiltLoosely(m, ds[..k], strict);
      if d.FieldDecl? {
        assert d.value < d;
        c := EvalSettles(m, d.value, strict);
        EvalDenotes(m, d.value, strict);
        AnswersLoosely(m, EvalExpr(p, d.value, None), d.value, strict);
      }
      if d.Embed? {
        assert d.e < d;
        c := EvalSettles(m, d.e, strict);
        EvalDenotes(m, d.e, strict);
        AnswersLoosely(m, EvalExpr(p, d.e, None), d.e, strict);
      }
      var before := EvalDecls(p, ds[..k], None);
      if before.Ok? {
        var b := DeclaredFrom(m, before.v, ds[..k], d, c);
        N := Max(a, b);
        MaxIs(a, b);
      }
      forall n: nat | n >= N ensures EvalDecls(ToolsAt(n, m), ds, None) == EvalDecls(p, ds, None) {
        DeclsAt(m, ds[..k], a, n);
        DeclsSame(ToolsAt(n, m), p, ds);
      }
    }
    DeclsAll(m, ds, N);
  }

  lemma DeclsAll(m: Regexes, ds: seq<Decl>, N: nat)
    requires forall n: nat | n >= N :: EvalDecls(ToolsAt(n, m), ds, None) == EvalDecls(PlainTools(m), ds, None)
    ensures DeclsFrom(m, ds, N)
  {
    hide EvalDecls, ToolsAt, PlainTools;
  }

  lemma AnswersLoosely(m: Regexes, r: Res<Value>, e: Expr, strict: bool)
    requires Answers(m, r, e, strict)
    ensures Answers(m, r, e, false)
  {
    hide Wf, Member, Admits;
  }

  lemma BuiltLoosely(m: Regexes, ds: seq<Decl>, strict: bool)
    requires BuiltAnswers(m, EvalDecls(PlainTools(m), ds, None), ds, strict)
    ensures var b := EvalDecls(PlainTools(m), ds, None); b.Ok? ==> BuiltMeans(m, b.v, ds, false)
  {
    hide EvalDecls, Wf, WfFields, Member, AllHold, KeysAdmit, EmbedsAdmit, HasField, NamesKey, HasKeys, HasEmbed, Meaning.Admits;
  }

  lemma {:induction false} StructSettles(m: Regexes, ds: seq<Decl>, strict: bool) returns (N: nat)
    requires Fits(PlainTools(m), StructLit(ds), strict)
    ensures SameFrom(m, StructLit(ds), N)
    decreases ds, 1
  {
    hide *;
    var p, e := PlainTools(m), StructLit(ds);
    FitsParts(p, e, strict);
    var a := DeclsSettle(m, ds, strict);
    StructDenotes(m, ds, strict);
    BuiltLoosely(m, ds, strict);
    var b := EvalDecls(p, ds, None);
    var c: nat := if b.Ok? && b.v.embedded.Some? then Size(Struct(b.v.fields, false)) + Size(b.v.embedded.value) + 1 else 0;
    N := Max(a, c);
    MaxIs(a, c);
    forall n: nat | n >= N ensures Same(ToolsAt(n, m), p, e) {
      DeclsAt(m, ds, a, n);
      if b.Ok? && b.v.embedded.Some? {
        FinishedWf(m, b.v, ds, false);
        MeetFrom(m, Struct(b.v.fields, false), b.v.embedded.value, n);
      }
      StructSame(ToolsAt(n, m), p, ds);
    }
    FromAll(m, e, N);
  }

  // ----- Whole sources -----

  /** From depth N on the engine compiles the source alike. */
  ghost predicate SourceFrom(m: Regexes, ds: seq<Decl>, N: nat)
  {
    forall n: nat | n >= N :: CompileSource(ToolsAt(n, m), ds) == CompileSource(PlainTools(m), ds)
  }

  predicate IsLoneEmbed(ds: seq<Decl>)
  {
    |ds| == 1 && ds[0].Embed?
  }

  /** The expression a source stands for: the one it holds, or a struct of its fields. */
  function SourceExpr(ds: seq<Decl>): Expr
  {
    if IsLoneEmbed(ds) then ds[0].e else StructLit(ds)
  }

  lemma FileIs(t: Tools, ds: seq<Decl>)
    ensures var r := CompileFile(t, ds);
      if IsLoneEmbed(ds) then r == CompileExpr(t, ds[0].e) else r.Hard? || r == EvalExpr(t, StructLit(ds), None)
  {
    if !IsLoneEmbed(ds) { StructIs(t, ds); }
    hide EvalExpr, EvalStruct, CompileExpr;
  }

  lemma FileSame(t: Tools, p: Tools, ds: seq<Decl>)
    requires Same(t, p, SourceExpr(ds))
    ensures CompileSource(t, ds) == CompileSource(p, ds)
  {
    if IsLoneEmbed(ds) {
      SameCompiled(t, p, ds[0].e);
    } else {
      StructIs(t, ds);
      StructIs(p, ds);
    }
    hide EvalExpr, EvalStruct, CompileExpr, Reads, HasBottom;
  }

  lemma SourceSettles(m: Regexes, ds: seq<Decl>, strict: bool) returns (N: nat)
    requires Fits(PlainTools(m), SourceExpr(ds), strict)
    ensures SourceFrom(m, ds, N)
  {
    hide *;
    N := EvalSettles(m, SourceExpr(ds), strict);
    forall n: nat | n >= N ensures CompileSource(ToolsAt(n, m), ds) == CompileSource(PlainTools(m), ds) {
      SameAt(m, SourceExpr(ds), N, n);
      FileSame(ToolsAt(n, m), PlainTools(m), ds);
    }
    SourceAll(m, ds, N);
  }

  lemma SourceAll(m: Regexes, ds: seq<Decl>, N: nat)
    requires forall n: nat | n >= N :: CompileSource(ToolsAt(n, m), ds) == CompileSource(PlainTools(m), ds)
    ensures SourceFrom(m, ds, N)
  {
    hide CompileSource, ToolsAt, PlainTools;
  }

  lemma SourceAnswers(m: Regexes, ds: seq<Decl>, strict: bool)
    requires Fits(PlainTools(m), SourceExpr(ds), strict)
    ensures var s := CompileSource(PlainTools(m), ds); s.Some? ==> Wf(s.value) && Means(m, s.value, SourceExpr(ds), strict)
  {
    var p := PlainTools(m);
    EvalDenotes(m, SourceExpr(ds), strict);
    Compiled(p, SourceExpr(ds));
    FileIs(p, ds);
    hide EvalExpr, CompileExpr, CompileFile, Wf, Means, Reads, HasBottom, PlainTools, Fits;
  }

  /** MAIN: what the engine, deep enough, compiles a source to admits what is written, and strictly so exactly that. */
  lemma SourceMeans(m: Regexes, ds: seq<Decl>, strict: bool) returns (N: nat)
    requires Fits(PlainTools(m), SourceExpr(ds), strict)
    ensures forall n: nat, g | n >= N && CompileSource(ToolsAt(n, m), ds).Some? ::
              var v := CompileSource(ToolsAt(n, m), ds).value;
              (Member(g, v) ==> Admits(m, g, SourceExpr(ds))) && (strict && Admits(m, g, SourceExpr(ds)) ==> Member(g, v))
  {
    hide *;
    N := SourceSettles(m, ds, strict);
    SourceAnswers(m, ds, strict);
    forall n: nat, g | n >= N && CompileSource(ToolsAt(n, m), ds).Some?
      ensures var v := CompileSource(ToolsAt(n, m), ds).value;
              (Member(g, v) ==> Admits(m, g, SourceExpr(ds))) && (strict && Admits(m, g, SourceExpr(ds)) ==> Member(g, v))
    {
      SourceAt(m, ds, N, n);
      MeansAt(m, CompileSource(ToolsAt(n, m), ds).value, SourceExpr(ds), strict, g);
    }
  }

  lemma SourceAt(m: Regexes, ds: seq<Decl>, N: nat, n: nat)
    requires SourceFrom(m, ds, N) && n >= N
    ensures CompileSource(ToolsAt(n, m), ds) == CompileSource(PlainTools(m), ds)
  {
    hide CompileSource, ToolsAt, PlainTools;
  }

  /** What validation of the document g against the compiled source s says, as the source is written. */
  ghost predicate JudgedBy(m: Regexes, n: nat, ds: seq<Decl>, strict: bool, d: Value, g: Ground, s: Value)
  {
    var met := ToolsAt(n, m).meet(d, s);
    && (Leaves(met, []) == [] <==> IsConcrete(met))
    && (IsConcrete(met) ==> Extends(Resolve(met), g) && Admits(m, Resolve(met), SourceExpr(ds)))
    && (strict && Tame(s) && OptionalsSound(s) && Admits(m, g, SourceExpr(ds)) ==> IsConcrete(met))
  }

  /**
    MAIN: a document that passes, completed with the defaults, is what the source admits; and, strictly and on
    tame schemas, every document the source admits passes.
   */
  lemma ValidationMeans(m: Regexes, ds: seq<Decl>, strict: bool, d: Value, g: Ground) returns (N: nat)
    requires Fits(PlainTools(m), SourceExpr(ds), strict) && Lifts(d, g)
    ensures forall n: nat | n >= N && CompileSource(ToolsAt(n, m), ds).Some? ::
              JudgedBy(m, n, ds, strict, d, g, CompileSource(ToolsAt(n, m), ds).value)
  {
    hide *;
    var a := SourceSettles(m, ds, strict);
    SourceAnswers(m, ds, strict);
    var s := CompileSource(PlainTools(m), ds);
    var b: nat := if s.Some? then Size(d) + Size(s.value) + 1 else 0;
    N := Max(a, b);
    MaxIs(a, b);
    LiftedIsWf(d, g);
    forall n: nat | n >= N && CompileSource(ToolsAt(n, m), ds).Some?
      ensures JudgedBy(m, n, ds, strict, d, g, CompileSource(ToolsAt(n, m), ds).value)
    {
      SourceAt(m, ds, a, n);
      MeetFrom(m, d, s.value, n);
      Judged(m, n, ds, strict, d, g, s.value);
    }
  }

  lemma Judged(m: Regexes, n: nat, ds: seq<Decl>, strict: bool, d: Value, g: Ground, s: Value)
    requires Lifts(d, g) && Wf(s) && Means(m, s, SourceExpr(ds), strict) && ToolsAt(n, m).meet(d, s) == Unify(d, s)
    ensures JudgedBy(m, n, ds, strict, d, g, s)
  {
    hide Unify, Wf, Member, Admits, Tame, OptionalsSound, Lifts, Extends, ToolsAt, Leaves, Resolve, IsConcrete;
    NoLeavesIffConcrete(Unify(d, s), []);
    if Leaves(Unify(d, s), []) == [] { ValidationIsSound(d, g, s); }
    if strict && Tame(s) && OptionalsSound(s) && Admits(m, g, SourceExpr(ds)) { MembersAreAccepted(d, g, s); }
  }

}
