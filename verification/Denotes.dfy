/**
  What a compiled expression admits is what the expression means, for every expression without references.
  Compiled values never admit more, and they admit all of it wherever the meets and folds on the way lose
  nothing, which can be read off the operands' values.
 */
module Denotes {

  import opened Wrappers
  import opened Syntax
  import opened Values
  import opened Semantics
  import opened Meet
  import opened MeetFacts
  import opened Thunks
  import opened Eval
  import opened Meaning
  import opened Combining
  import opened Constructs
  import opened Compounds

  // ----- The expressions covered -----

  predicate CombineIn(l: Res<Value>, r: Res<Value>)
  {
    l.Ok? && r.Ok? ==> Combines(l.v, r.v)
  }

  predicate FoldIn(a: Res<(seq<Branch>, bool)>, b: Res<(seq<Branch>, bool)>)
  {
    a.Ok? && b.Ok? ==> Folds(a.v.0 + b.v.0)
  }

  /** Written as a struct, so that its keys can be read off. */
  predicate IsStructExpr(e: Expr)
    decreases e, 0
  {
    match e
    case Paren(x) => IsStructExpr(x)
    case Binary(op, x, y) => op.And? && IsStructExpr(x) && IsStructExpr(y)
    case StructLit(ds) => forall i | 0 <= i < |ds| && ds[i].Embed? :: IsStructExpr(ds[i].e)
    case Call(fun, args) => fun == Ident("close") && |args| == 1 && IsStructExpr(args[0])
    case _ => false
  }

  /**
    No references; comparisons and conditions between values that are no choices; `close` of what is written
    as a struct. Strict: no meet or fold on the way loses a document.
   */
  predicate Fits(t: Tools, e: Expr, strict: bool)
    decreases e, 0
  {
    match e
    case Ident(n) => !IsReference(n)
    case Paren(x) => Fits(t, x, strict)
    case Index(target, index) => target.ListLit? ==> Fits(t, index, strict) && FitsElems(t, target.elems, strict)
    case Binary(op, x, y) =>
      if op.Or? then
        && FitsBranch(t, x, strict) && FitsBranch(t, y, strict)
        && (strict ==> FoldIn(EvalBranches(t, x, false, None), EvalBranches(t, y, false, None)))
      else if op.And? then
        && Fits(t, x, strict) && Fits(t, y, strict)
        && (strict ==> CombineIn(EvalExpr(t, x, None), EvalExpr(t, y, None)))
      else
        IsCompare(op) ==>
          && Fits(t, x, true) && Fits(t, y, true)
          && NoChoice(EvalExpr(t, x, None)) && NoChoice(EvalExpr(t, y, None))
    case ListLit(es) => FitsElems(t, es, strict)
    case StructLit(ds) => FitsDecls(t, ds, strict) && (strict ==> WholeFits(t, ds))
    case Unary(uop, x) => !uop.Mark? && !uop.OtherUnary? ==> Fits(t, x, strict)
    case Call(fun, args) => |args| == 1 ==> Fits(t, args[0], strict) && (fun == Ident("close") ==> IsStructExpr(args[0]))
    case _ => true
  }

  predicate FitsBranch(t: Tools, e: Expr, strict: bool)
    decreases e, 1
  {
    if e.Unary? && e.uop.Mark? then FitsBranch(t, e.operand, strict)
    else if e.Binary? && e.op.Or? then FitsBranch(t, e.x, strict) && FitsBranch(t, e.y, strict)
    else Fits(t, e, strict)
  }

  predicate FitsElem(t: Tools, el: Elem, strict: bool)
    decreases el, 0
  {
    match el
    case Item(e) => Fits(t, e, strict)
    case Ellipsis(typ) => typ.Some? ==> Fits(t, typ.value, strict)
    case CompElem(c) =>
      |c.clauses| == 1 && c.clauses[0].If? && c.body.StructLit? ==>
        var cond := (assert c.clauses[0].cond < c.clauses[0]; c.clauses[0].cond);
        Fits(t, cond, true) && Settles(EvalExpr(t, cond, None)) && Fits(t, c.body, strict)
  }

  /** A condition evaluates to something concrete. */
  predicate Settles(r: Res<Value>)
  {
    r.Ok? ==> IsConcrete(r.v)
  }

  predicate FitsElems(t: Tools, es: seq<Elem>, strict: bool)
    decreases es, 1
  {
    forall i | 0 <= i < |es| :: FitsElem(t, es[i], strict)
  }

  predicate FitsDecl(t: Tools, d: Decl, strict: bool)
    decreases d, 0
  {
    match d
    case FieldDecl(_, _, x) => Fits(t, x, strict)
    case Embed(x) => Fits(t, x, strict)
    case _ => true
  }

  /** The declaration, compiled, combines with what was built before it. */
  predicate ContinuesWith(before: Built, d: Decl, v: Value)
  {
    match d
    case FieldDecl(lab, optional, _) => FieldLabel(lab).Some? ==> Joins(before.fields, Field(FieldLabel(lab).value, v, optional))
    case Embed(_) => before.embedded.Some? ==> Combines(before.embedded.value, v)
    case _ => true
  }

  predicate Continues(t: Tools, before: Res<Built>, d: Decl)
  {
    && (before.Ok? && d.FieldDecl? && CompileExpr(t, d.value).Ok? ==> ContinuesWith(before.v, d, CompileExpr(t, d.value).v))
    && (before.Ok? && d.Embed? && CompileExpr(t, d.e).Ok? ==> ContinuesWith(before.v, d, CompileExpr(t, d.e).v))
  }

  predicate FitsDecls(t: Tools, ds: seq<Decl>, strict: bool)
    decreases ds, 1
  {
    ds == [] ||
    var n := |ds| - 1;
    && FitsDecls(t, ds[..n], strict) && FitsDecl(t, ds[n], strict)
    && (strict ==> Continues(t, EvalDecls(t, ds[..n], None), ds[n]))
  }

  predicate WholeFits(t: Tools, ds: seq<Decl>)
  {
    var b := EvalDecls(t, ds, None);
    b.Ok? ==> Closes(b.v)
  }

  // ----- What is shown of a result -----

  /** It never waits, and what it is it means. */
  ghost predicate Answers(m: Regexes, r: Res<Value>, e: Expr, strict: bool)
  {
    !r.Unresolved? && (r.Ok? ==> Wf(r.v) && Means(m, r.v, e, strict))
  }

  /** If it is anything, it is a struct with the keys it is written with. */
  ghost predicate NamesAnswer(r: Res<Value>, x: Expr)
  {
    r.Ok? ==> NamesOf(r.v, x)
  }

  lemma Compiled(t: Tools, e: Expr)
    requires !EvalExpr(t, e, None).Unresolved?
    ensures CompileExpr(t, e) == EvalExpr(t, e, None) && EvalChild(t, e, None) == EvalExpr(t, e, None)
  {
    hide EvalExpr;
  }

  lemma {:induction false} WfHasNoThunk(v: Value)
    requires Wf(v)
    ensures !HasThunk(v)
  {
    match v
    case List(p, t) =>
      forall i | 0 <= i < |p| ensures !HasThunk(p[i]) { WfHasNoThunk(p[i]); }
      if t.Open? { WfHasNoThunk(t.elem); }
    case Disj(bs) => forall i | 0 <= i < |bs| ensures !HasThunk(bs[i].v) { WfHasNoThunk(bs[i].v); }
    case _ =>
  }

  // ----- The evaluator, one construct at a time -----

  lemma CompareAnswers(m: Regexes, op: BinOp, x: Expr, y: Expr, strict: bool)
    requires IsCompare(op)
    requires var t := PlainTools(m); var l, r := EvalExpr(t, x, None), EvalExpr(t, y, None);
      Answers(m, l, x, true) && Answers(m, r, y, true) && NoChoice(l) && NoChoice(r)
    ensures Answers(m, EvalExpr(PlainTools(m), Binary(op, x, y), None), Binary(op, x, y), strict)
  {
    var t := PlainTools(m);
    var l, r := EvalExpr(t, x, None), EvalExpr(t, y, None);
    BinaryCompares(t, op, x, y);
    hide EvalExpr, Means, CompareConcrete, PlainTools, IsConcrete;
    var v := Comparison(t, op, x, y, l, r);
    if v.Ok? {
      assert CompareConcrete(t, op, l.v, r.v).Ok?;
      CompareMeans(m, op, x, y, l.v, r.v, strict);
    }
  }

  lemma BinaryCompares(t: Tools, op: BinOp, x: Expr, y: Expr)
    requires IsCompare(op)
    ensures EvalExpr(t, Binary(op, x, y), None) == Comparison(t, op, x, y, EvalExpr(t, x, None), EvalExpr(t, y, None))
  {
    hide Comparison;
  }

  lemma AndAnswers(m: Regexes, x: Expr, y: Expr, strict: bool)
    requires var t := PlainTools(m); var l, r := EvalExpr(t, x, None), EvalExpr(t, y, None);
      Answers(m, l, x, strict) && Answers(m, r, y, strict) && (strict ==> CombineIn(l, r))
    ensures Answers(m, EvalExpr(PlainTools(m), Binary(And, x, y), None), Binary(And, x, y), strict)
  {
    var t := PlainTools(m);
    var l, r := EvalExpr(t, x, None), EvalExpr(t, y, None);
    BinaryMeets(m, x, y);
    hide EvalExpr, Means, Unify, Wf, Combines, HasThunk;
    if l.Ok? && r.Ok? {
      WfHasNoThunk(l.v);
      WfHasNoThunk(r.v);
      AndMeans(m, x, y, l.v, r.v, strict);
    }
  }

  lemma BinaryMeets(m: Regexes, x: Expr, y: Expr)
    ensures var t, e := PlainTools(m), Binary(And, x, y); var l, r := EvalExpr(t, x, None), EvalExpr(t, y, None);
      EvalExpr(t, e, None) ==
      if l.Hard? then Hard else if l.Unresolved? then Unresolved
      else if r.Hard? then Hard else if r.Unresolved? then Unresolved
      else if HasThunk(l.v) || HasThunk(r.v) then Ok(Thunk(FreeRefs(e), e)) else Ok(Unify(l.v, r.v))
  {
    hide Unify, HasThunk, FreeRefs;
  }

  ghost predicate BranchesAnswer(m: Regexes, r: Res<(seq<Branch>, bool)>, e: Expr, strict: bool)
  {
    !r.Unresolved? && (r.Ok? ==> BranchesMean(m, r.v.0, e, strict))
  }

  lemma OrAnswers(m: Regexes, x: Expr, y: Expr, strict: bool)
    requires var t := PlainTools(m); var a, b := EvalBranches(t, x, false, None), EvalBranches(t, y, false, None);
      BranchesAnswer(m, a, x, strict) && BranchesAnswer(m, b, y, strict) && (strict ==> FoldIn(a, b))
    ensures Answers(m, EvalExpr(PlainTools(m), Binary(Or, x, y), None), Binary(Or, x, y), strict)
  {
    var t := PlainTools(m);
    var a, b := EvalBranches(t, x, false, None), EvalBranches(t, y, false, None);
    BinaryChooses(t, x, y);
    hide EvalExpr, EvalBranches, Means, Wf, Folds, BranchesMean, BuildDisjunction;
    if a.Ok? && b.Ok? {
      JoinMeans(m, a.v.0, b.v.0, x, y, strict);
      OrMeans(m, a.v.0 + b.v.0, a.v.1 || b.v.1, Binary(Or, x, y), strict);
    }
  }

  lemma BinaryChooses(t: Tools, x: Expr, y: Expr)
    ensures var a, b := EvalBranches(t, x, false, None), EvalBranches(t, y, false, None);
      EvalExpr(t, Binary(Or, x, y), None) ==
      if a.Hard? then Hard else if a.Unresolved? then Unresolved
      else if b.Hard? then Hard else if b.Unresolved? then Unresolved
      else Ok(BuildDisjunction(a.v.0 + b.v.0, a.v.1 || b.v.1))
  {
    hide BuildDisjunction, EvalBranches;
  }

  lemma UnaryAnswers(m: Regexes, uop: UnOp, x: Expr, strict: bool)
    requires !uop.Mark? && !uop.OtherUnary? && Answers(m, EvalExpr(PlainTools(m), x, None), x, strict)
    ensures Answers(m, EvalExpr(PlainTools(m), Unary(uop, x), None), Unary(uop, x), strict)
  {
    var t := PlainTools(m);
    Compiled(t, x);
    UnaryCompiles(t, uop, x);
    var r := EvalExpr(t, x, None);
    hide EvalExpr, CompileExpr, Means, Wf, PlainTools, BoundFromOperand;
    if r.Ok? && UnaryOf(t, uop, r.v).Ok? {
      match uop
      case BoundBy(op) => BoundMeans(m, op, x, r.v, strict);
      case Minus => MinusMeans(m, x, r.v, strict);
      case Plus => PlusMeans(m, x, r.v, strict);
    }
    BoundNeverWaits(t, uop, r);
  }

  lemma BoundNeverWaits(t: Tools, uop: UnOp, r: Res<Value>)
    ensures r.Ok? ==> !UnaryOf(t, uop, r.v).Unresolved?
  {
  }

  lemma UnaryCompiles(t: Tools, uop: UnOp, x: Expr)
    requires !uop.Mark? && !uop.OtherUnary?
    ensures EvalExpr(t, Unary(uop, x), None) == if CompileExpr(t, x).Ok? then UnaryOf(t, uop, CompileExpr(t, x).v) else Hard
  {
    hide UnaryOf, CompileExpr;
  }

  lemma CallAnswers(m: Regexes, fun: Expr, x: Expr, strict: bool)
    requires var r := EvalExpr(PlainTools(m), x, None);
      Answers(m, r, x, strict) && (fun == Ident("close") ==> NamesAnswer(r, x))
    ensures Answers(m, EvalExpr(PlainTools(m), Call(fun, [x]), None), Call(fun, [x]), strict)
  {
    var t := PlainTools(m);
    Compiled(t, x);
    CallCompiles(t, fun, x);
    var r := EvalExpr(t, x, None);
    hide EvalExpr, CompileExpr, Means, Wf, PlainTools, NamesOf;
    if r.Ok? {
      if fun == Ident("close") {
        if r.v.Struct? { CloseMeans(m, x, r.v, strict); }
      } else if IsMinRunes(fun) {
        if MinRunes(r.v).Ok? { MinRunesMeans(m, fun, x, r.v, strict); }
      }
    }
  }

  predicate IsMinRunes(fun: Expr)
  {
    fun.Selector? && fun.base == Ident("strings") && fun.sel == Bare("MinRunes")
  }

  lemma CallCompiles(t: Tools, fun: Expr, x: Expr)
    ensures var r := CompileExpr(t, x);
      EvalExpr(t, Call(fun, [x]), None) ==
      if !r.Ok? then Hard else if fun == Ident("close") then Closing(r.v) else if IsMinRunes(fun) then MinRunes(r.v) else Hard
  {
    assert [x][0] == x;
    hide CompileExpr, MinRunes;
  }

  lemma IndexAnswers(m: Regexes, es: seq<Elem>, index: Expr, strict: bool)
    requires Answers(m, EvalExpr(PlainTools(m), index, None), index, strict)
    requires var vs := EvalItems(PlainTools(m), es, None); !vs.Unresolved? && (vs.Ok? ==> PrefixMeans(m, vs.v, es, strict))
    ensures var e := Index(ListLit(es), index); Answers(m, EvalExpr(PlainTools(m), e, None), e, strict)
  {
    var t := PlainTools(m);
    IndexPicks(t, es, index);
    var k, vs := EvalExpr(t, index, None), EvalItems(t, es, None);
    hide EvalExpr, EvalItems, Means, Wf, PrefixMeans;
    if k.Ok? && vs.Ok? && k.v.Con? && k.v.s.Int? { IndexMeans(m, es, index, k.v.s.i, vs.v, strict); }
  }

  lemma IndexPicks(t: Tools, es: seq<Elem>, index: Expr)
    ensures var k, vs := EvalExpr(t, index, None), EvalItems(t, es, None);
      EvalExpr(t, Index(ListLit(es), index), None) ==
      if k.Hard? then Hard else if k.Unresolved? then Unresolved
      else if !(k.v.Con? && k.v.s.Int?) then Hard
      else if vs.Hard? then Hard else if vs.Unresolved? then Unresolved
      else Ok(Picked(vs.v, k.v.s.i))
  {
    hide EvalItems;
  }

  // ----- All constructs together -----

  /** MAIN: without references what is compiled means what is written. */
  lemma {:induction false} EvalDenotes(m: Regexes, e: Expr, strict: bool)
    requires Fits(PlainTools(m), e, strict)
    ensures Answers(m, EvalExpr(PlainTools(m), e, None), e, strict)
    decreases e, 0
  {
    hide *;
    var t := PlainTools(m);
    FitsParts(t, e, strict);
    RefusedIs(e);
    match e
    case Basic(l) => BasicAnswers(m, l, strict);
    case Ident(n) => NameAnswers(m, n, strict);
    case Paren(x) =>
      EvalDenotes(m, x, strict);
      ParenAnswers(m, x, strict);
    case Index(target, index) =>
      if target.ListLit? {
        EvalDenotes(m, index, strict);
        ItemsDenote(m, target.elems, strict);
        assert target == ListLit(target.elems);
        IndexAnswers(m, target.elems, index, strict);
      } else {
        RefusedAnswers(m, e, strict);
      }
    case Binary(op, x, y) =>
      if op.Or? {
        BranchesDenote(m, x, false, strict);
        BranchesDenote(m, y, false, strict);
        OrAnswers(m, x, y, strict);
      } else if op.And? {
        EvalDenotes(m, x, strict);
        EvalDenotes(m, y, strict);
        AndAnswers(m, x, y, strict);
      } else if IsCompare(op) {
        EvalDenotes(m, x, true);
        EvalDenotes(m, y, true);
        CompareAnswers(m, op, x, y, strict);
      } else {
        RefusedAnswers(m, e, strict);
      }
    case ListLit(es) =>
      ListDenotes(m, es, strict);
      ListAnswers(m, es, strict);
    case StructLit(ds) =>
      StructDenotes(m, ds, strict);
      StructAnswers(m, ds, strict);
    case Unary(uop, x) =>
      if uop.Mark? || uop.OtherUnary? {
        RefusedAnswers(m, e, strict);
      } else {
        EvalDenotes(m, x, strict);
        UnaryAnswers(m, uop, x, strict);
      }
    case Call(fun, args) =>
      if |args| == 1 {
        assert args == [args[0]];
        EvalDenotes(m, args[0], strict);
        if fun == Ident("close") { NamesDenote(m, args[0], strict); }
        CallAnswers(m, fun, args[0], strict);
      } else {
        RefusedAnswers(m, e, strict);
      }
    case _ => RefusedAnswers(m, e, strict);
  }

  lemma RefusedIs(e: Expr)
    ensures e.Index? ==> (Refused(e) <==> !e.target.ListLit?)
    ensures e.Binary? ==> (Refused(e) <==> !e.op.Or? && !e.op.And? && !IsCompare(e.op))
    ensures e.Unary? ==> (Refused(e) <==> e.uop.Mark? || e.uop.OtherUnary?)
    ensures e.Call? ==> (Refused(e) <==> |e.args| != 1)
    ensures e.Selector? || e.Interpolation? ==> Refused(e)
  {
  }

  lemma FitsParts(t: Tools, e: Expr, strict: bool)
    requires Fits(t, e, strict)
    ensures e.Ident? ==> !IsReference(e.name)
    ensures e.Paren? ==> Fits(t, e.inner, strict)
    ensures e.Index? && e.target.ListLit? ==> Fits(t, e.index, strict) && FitsElems(t, e.target.elems, strict)
    ensures e.Binary? && e.op.Or? ==> FitsBranch(t, e.x, strict) && FitsBranch(t, e.y, strict)
    ensures e.Binary? && e.op.Or? && strict ==> FoldIn(EvalBranches(t, e.x, false, None), EvalBranches(t, e.y, false, None))
    ensures e.Binary? && e.op.And? ==> Fits(t, e.x, strict) && Fits(t, e.y, strict)
    ensures e.Binary? && e.op.And? && strict ==> CombineIn(EvalExpr(t, e.x, None), EvalExpr(t, e.y, None))
    ensures e.Binary? && IsCompare(e.op) ==> Fits(t, e.x, true) && Fits(t, e.y, true)
    ensures e.Binary? && IsCompare(e.op) ==> NoChoice(EvalExpr(t, e.x, None)) && NoChoice(EvalExpr(t, e.y, None))
    ensures e.ListLit? ==> FitsElems(t, e.elems, strict)
    ensures e.StructLit? ==> FitsDecls(t, e.decls, strict) && (strict ==> WholeFits(t, e.decls))
    ensures e.Unary? && !e.uop.Mark? && !e.uop.OtherUnary? ==> Fits(t, e.operand, strict)
    ensures e.Call? && |e.args| == 1 ==> Fits(t, e.args[0], strict) && (e.fun == Ident("close") ==> IsStructExpr(e.args[0]))
  {
    hide FitsElems, FitsDecls, FitsBranch, FoldIn, CombineIn, NoChoice, WholeFits, IsStructExpr, EvalExpr, EvalBranches, IsReference;
  }

  lemma BasicAnswers(m: Regexes, l: Lit, strict: bool)
    ensures Answers(m, EvalExpr(PlainTools(m), Basic(l), None), Basic(l), strict)
  {
    if EvalLit(l).Ok? { LiteralMeans(m, l, strict); }
    hide Means, Wf;
  }

  lemma NameAnswers(m: Regexes, n: string, strict: bool)
    requires !IsReference(n)
    ensures Answers(m, EvalExpr(PlainTools(m), Ident(n), None), Ident(n), strict)
  {
    hide Means, Wf, Keyword, IsReference;
    NameMeans(m, n, strict);
  }

  lemma ParenAnswers(m: Regexes, x: Expr, strict: bool)
    requires Answers(m, EvalExpr(PlainTools(m), x, None), x, strict)
    ensures Answers(m, EvalExpr(PlainTools(m), Paren(x), None), Paren(x), strict)
  {
    assert EvalExpr(PlainTools(m), Paren(x), None) == EvalExpr(PlainTools(m), x, None);
    hide Wf, EvalExpr, Member;
    forall g ensures Admits(m, g, Paren(x)) <==> Admits(m, g, x) {}
    hide Admits;
  }

  /** What the evaluator supports nowhere, or not where it stands. */
  predicate Refused(e: Expr)
  {
    match e
    case Index(target, _) => !target.ListLit?
    case Binary(op, _, _) => op.OtherOp?
    case Unary(uop, _) => uop.Mark? || uop.OtherUnary?
    case Call(_, args) => |args| != 1
    case Selector(_, _) => true
    case Interpolation(_) => true
    case _ => false
  }

  lemma RefusedAnswers(m: Regexes, e: Expr, strict: bool)
    requires Refused(e)
    ensures Answers(m, EvalExpr(PlainTools(m), e, None), e, strict)
  {
  }

  // ----- Alternatives -----

  lemma {:induction false} BranchesDenote(m: Regexes, e: Expr, marked: bool, strict: bool)
    requires FitsBranch(PlainTools(m), e, strict)
    ensures BranchesAnswer(m, EvalBranches(PlainTools(m), e, marked, None), e, strict)
    decreases e, 1
  {
    hide *;
    var t := PlainTools(m);
    BranchParts(t, e, strict);
    BranchesStep(t, e, marked);
    if e.Unary? && e.uop.Mark? {
      BranchesDenote(m, e.operand, true, strict);
      MarkAnswers(m, EvalBranches(t, e.operand, true, None), e.operand, strict);
    } else if e.Binary? && e.op.Or? {
      BranchesDenote(m, e.x, marked, strict);
      BranchesDenote(m, e.y, marked, strict);
      JoinAnswers(m, EvalBranches(t, e.x, marked, None), EvalBranches(t, e.y, marked, None), e.x, e.y, strict);
    } else {
      EvalDenotes(m, e, strict);
      FlatAnswers(m, e, marked, strict);
    }
  }

  lemma BranchParts(t: Tools, e: Expr, strict: bool)
    requires FitsBranch(t, e, strict)
    ensures e.Unary? && e.uop.Mark? ==> FitsBranch(t, e.operand, strict)
    ensures e.Binary? && e.op.Or? ==> FitsBranch(t, e.x, strict) && FitsBranch(t, e.y, strict)
    ensures !(e.Unary? && e.uop.Mark?) && !(e.Binary? && e.op.Or?) ==> Fits(t, e, strict)
  {
    hide Fits;
  }

  function JoinedBranches(a: Res<(seq<Branch>, bool)>, b: Res<(seq<Branch>, bool)>): Res<(seq<Branch>, bool)>
  {
    if a.Hard? then Hard else if a.Unresolved? then Unresolved
    else if b.Hard? then Hard else if b.Unresolved? then Unresolved
    else Ok((a.v.0 + b.v.0, a.v.1 || b.v.1))
  }

  lemma BranchesStep(t: Tools, e: Expr, marked: bool)
    ensures EvalBranches(t, e, marked, None) ==
      if e.Unary? && e.uop.Mark? then EvalBranches(t, e.operand, true, None)
      else if e.Binary? && e.op.Or? then JoinedBranches(EvalBranches(t, e.x, marked, None), EvalBranches(t, e.y, marked, None))
      else if CompileExpr(t, e).Ok? then Ok((Flatten(CompileExpr(t, e).v, marked), marked))
      else Hard
  {
    hide CompileExpr, Flatten;
  }

  lemma MarkAnswers(m: Regexes, r: Res<(seq<Branch>, bool)>, x: Expr, strict: bool)
    requires BranchesAnswer(m, r, x, strict)
    ensures BranchesAnswer(m, r, Unary(Mark, x), strict)
  {
    hide BranchesMean;
    if r.Ok? { MarkMeans(m, r.v.0, x, strict); }
  }

  lemma JoinAnswers(m: Regexes, a: Res<(seq<Branch>, bool)>, b: Res<(seq<Branch>, bool)>, x: Expr, y: Expr, strict: bool)
    requires BranchesAnswer(m, a, x, strict) && BranchesAnswer(m, b, y, strict)
    ensures BranchesAnswer(m, JoinedBranches(a, b), Binary(Or, x, y), strict)
  {
    hide BranchesMean;
    if a.Ok? && b.Ok? { JoinMeans(m, a.v.0, b.v.0, x, y, strict); }
  }

  lemma FlatAnswers(m: Regexes, e: Expr, marked: bool, strict: bool)
    requires Answers(m, EvalExpr(PlainTools(m), e, None), e, strict)
    requires !(e.Unary? && e.uop.Mark?) && !(e.Binary? && e.op.Or?)
    ensures BranchesAnswer(m, EvalBranches(PlainTools(m), e, marked, None), e, strict)
  {
    var t := PlainTools(m);
    hide BranchesMean, EvalExpr, CompileExpr, EvalBranches, Flatten, Means, Wf;
    Compiled(t, e);
    BranchesStep(t, e, marked);
    if EvalExpr(t, e, None).Ok? { FlatMeans(m, EvalExpr(t, e, None).v, marked, e, strict); }
  }

  // ----- Elements -----

  /** What one element contributes. */
  function HereOf(t: Tools, el: Elem): Res<seq<Value>>
  {
    match el
    case Ellipsis(_) => Ok([])
    case CompElem(c) => EvalComp(t, c, None)
    case Item(e) => match EvalExpr(t, e, None) case Ok(v) => Ok([v]) case Hard => Hard case Unresolved => Unresolved
  }

  ghost predicate HereMeans(m: Regexes, vs: seq<Value>, el: Elem, strict: bool)
  {
    if Counts(m, el) then |vs| == 1 && ElemMeans(m, vs[0], el, strict) else vs == []
  }

  ghost predicate HereAnswers(m: Regexes, r: Res<seq<Value>>, el: Elem, strict: bool)
  {
    !r.Unresolved? && (r.Ok? ==> HereMeans(m, r.v, el, strict))
  }

  lemma {:induction false} ElemDenotes(m: Regexes, el: Elem, strict: bool)
    requires FitsElem(PlainTools(m), el, strict)
    ensures HereAnswers(m, HereOf(PlainTools(m), el), el, strict)
    decreases el, 0
  {
    hide *;
    var t := PlainTools(m);
    ElemParts(t, el, strict);
    match el
    case Ellipsis(typ) => EllipsisAnswers(m, typ, strict);
    case Item(e) =>
      EvalDenotes(m, e, strict);
      ItemAnswers(m, e, strict);
    case CompElem(c) =>
      if |c.clauses| == 1 && c.clauses[0].If? && c.body.StructLit? {
        assert c.clauses[0].cond < c.clauses[0];
        EvalDenotes(m, c.clauses[0].cond, true);
        EvalDenotes(m, c.body, strict);
        CompAnswers(m, c, strict);
      } else {
        CompRefused(m, c, strict);
      }
  }

  lemma ElemParts(t: Tools, el: Elem, strict: bool)
    requires FitsElem(t, el, strict)
    ensures el.Item? ==> Fits(t, el.e, strict)
    ensures el.Ellipsis? && el.typ.Some? ==> Fits(t, el.typ.value, strict)
    ensures el.CompElem? && |el.comp.clauses| == 1 && el.comp.clauses[0].If? && el.comp.body.StructLit? ==>
              var cond := el.comp.clauses[0].cond; Fits(t, cond, true) && Settles(EvalExpr(t, cond, None)) && Fits(t, el.comp.body, strict)
  {
    hide Fits, EvalExpr, IsConcrete;
  }

  lemma EllipsisAnswers(m: Regexes, typ: Option<Expr>, strict: bool)
    ensures HereAnswers(m, HereOf(PlainTools(m), Ellipsis(typ)), Ellipsis(typ), strict)
  {
    hide ElemMeans;
  }

  lemma ItemAnswers(m: Regexes, e: Expr, strict: bool)
    requires Answers(m, EvalExpr(PlainTools(m), e, None), e, strict)
    ensures HereAnswers(m, HereOf(PlainTools(m), Item(e)), Item(e), strict)
  {
    hide ElemMeans, EvalExpr, Means, Wf;
    var r := EvalExpr(PlainTools(m), e, None);
    if r.Ok? { ItemMeans(m, r.v, e, strict); }
  }

  lemma CompRefused(m: Regexes, c: Comprehension, strict: bool)
    requires !(|c.clauses| == 1 && c.clauses[0].If? && c.body.StructLit?)
    ensures HereAnswers(m, HereOf(PlainTools(m), CompElem(c)), CompElem(c), strict)
  {
  }

  lemma CompAnswers(m: Regexes, c: Comprehension, strict: bool)
    requires |c.clauses| == 1 && c.clauses[0].If? && c.body.StructLit?
    requires var r := EvalExpr(PlainTools(m), c.clauses[0].cond, None); Answers(m, r, c.clauses[0].cond, true) && Settles(r)
    requires Answers(m, EvalExpr(PlainTools(m), c.body, None), c.body, strict)
    ensures HereAnswers(m, HereOf(PlainTools(m), CompElem(c)), CompElem(c), strict)
  {
    var t := PlainTools(m);
    CompStep(t, c);
    var cond, body := EvalExpr(t, c.clauses[0].cond, None), EvalExpr(t, c.body, None);
    hide ElemMeans, EvalExpr, EvalComp, Means, Wf, Counts, IsConcrete;
    if cond.Ok? && body.Ok? && cond.v.Con? && cond.v.s.Bool? { CompMeans(m, c, cond.v, body.v, strict); }
  }

  lemma CompStep(t: Tools, c: Comprehension)
    requires |c.clauses| == 1 && c.clauses[0].If? && c.body.StructLit?
    ensures var cond, body := EvalExpr(t, c.clauses[0].cond, None), EvalExpr(t, c.body, None);
      EvalComp(t, c, None) ==
      if cond.Hard? then Hard
      else if cond.Unresolved? then if body.Hard? then Hard else Unresolved
      else if !(cond.v.Con? && cond.v.s.Bool?) then if IsConcrete(cond.v) || body.Hard? then Hard else Unresolved
      else if body.Hard? then Hard else if body.Unresolved? then Unresolved
      else Ok(if cond.v.s.b then [body.v] else [])
  {
    assert EvalExpr(t, c.body, None) == EvalStruct(t, c.body.decls, None);
    hide EvalExpr, EvalStruct, IsConcrete;
  }

  lemma ElemsAt(t: Tools, es: seq<Elem>, strict: bool, a: nat, b: nat)
    requires FitsElems(t, es, strict) && a <= b <= |es|
    ensures FitsElems(t, es[a..b], strict) && forall el <- es :: FitsElem(t, el, strict)
  {
    hide FitsElem;
  }

  lemma {:induction false} ItemsDenote(m: Regexes, es: seq<Elem>, strict: bool)
    requires FitsElems(PlainTools(m), es, strict)
    ensures var r := EvalItems(PlainTools(m), es, None); !r.Unresolved? && (r.Ok? ==> PrefixMeans(m, r.v, es, strict))
    decreases es, 0
  {
    hide *;
    var t := PlainTools(m);
    ItemsStep(t, es);
    if es == [] {
      NoElements(m, strict);
    } else {
      ElemsAt(t, es, strict, 1, |es|);
      assert es[1..] == es[1..|es|] && es[0] in es;
      ElemDenotes(m, es[0], strict);
      ItemsDenote(m, es[1..], strict);
      var here, rest := HereOf(t, es[0]), EvalItems(t, es[1..], None);
      HereIs(m, here, es[0], strict);
      if here.Ok? && rest.Ok? { ConsMeans(m, here.v, rest.v, es, strict); }
    }
  }

  lemma HereIs(m: Regexes, r: Res<seq<Value>>, el: Elem, strict: bool)
    requires HereAnswers(m, r, el, strict)
    ensures !r.Unresolved? && (r.Ok? ==> if Counts(m, el) then |r.v| == 1 && ElemMeans(m, r.v[0], el, strict) else r.v == [])
  {
    hide ElemMeans, Counts;
  }

  lemma ItemsStep(t: Tools, es: seq<Elem>)
    ensures EvalItems(t, es, None) ==
      if es == [] then Ok([])
      else
        var here, rest := HereOf(t, es[0]), EvalItems(t, es[1..], None);
        if here.Hard? || rest.Hard? then Hard
        else if here.Unresolved? || rest.Unresolved? then Unresolved
        else Ok(here.v + rest.v)
  {
    hide EvalExpr, EvalComp;
  }

  /** The list so far with one more element. */
  function Extended(t: Tools, before: (seq<Value>, Values.Tail), el: Elem): Res<(seq<Value>, Values.Tail)>
  {
    match el
    case Ellipsis(None) => Ok((before.0, Open(Top)))
    case Ellipsis(Some(typ)) =>
      (match CompileExpr(t, typ) case Hard => Hard case Unresolved => Unresolved case Ok(v) => Ok((before.0, Open(v))))
    case CompElem(_) =>
      (match HereOf(t, el) case Hard => Hard case Unresolved => Unresolved case Ok(vs) => Ok((before.0 + vs, before.1)))
    case Item(e) => match CompileExpr(t, e) case Hard => Hard case Unresolved => Unresolved case Ok(v) => Ok((before.0 + [v], before.1))
  }

  lemma ListStep(t: Tools, es: seq<Elem>)
    ensures EvalList(t, es, None) ==
      if es == [] then Ok(([], Closed))
      else
        var before := EvalList(t, es[..|es| - 1], None);
        if before.Hard? then Hard else if before.Unresolved? then Unresolved
        else Extended(t, before.v, es[|es| - 1])
  {
    hide CompileExpr, EvalComp;
  }

  ghost predicate ListAnswer(m: Regexes, r: Res<(seq<Value>, Values.Tail)>, es: seq<Elem>, strict: bool)
  {
    !r.Unresolved? && (r.Ok? ==> PrefixMeans(m, r.v.0, es, strict) && TailMeans(m, r.v.1, es, strict))
  }

  lemma {:induction false} ListDenotes(m: Regexes, es: seq<Elem>, strict: bool)
    requires FitsElems(PlainTools(m), es, strict)
    ensures ListAnswer(m, EvalList(PlainTools(m), es, None), es, strict)
    decreases es, 0
  {
    hide *;
    var t := PlainTools(m);
    ListStep(t, es);
    if es == [] {
      NoElements(m, strict);
      EmptyAnswers(m, strict);
    } else {
      var n := |es| - 1;
      ElemsAt(t, es, strict, 0, n);
      assert es[..n] == es[0..n] && es[n] in es;
      ListDenotes(m, es[..n], strict);
      ElemDenotes(m, es[n], strict);
      if es[n].Ellipsis? && es[n].typ.Some? {
        ElemParts(t, es[n], strict);
        assert es[n].typ.value < es[n].typ < es[n];
        EvalDenotes(m, es[n].typ.value, strict);
      }
      ExtendAnswers(m, EvalList(t, es[..n], None), es, strict);
    }
  }

  lemma EmptyAnswers(m: Regexes, strict: bool)
    requires PrefixMeans(m, [], [], strict) && TailMeans(m, Closed, [], strict)
    ensures ListAnswer(m, Ok(([], Closed)), [], strict)
  {
  }

  lemma ExtendAnswers(m: Regexes, before: Res<(seq<Value>, Values.Tail)>, es: seq<Elem>, strict: bool)
    requires es != [] && ListAnswer(m, before, es[..|es| - 1], strict)
    requires var el := es[|es| - 1];
      && HereAnswers(m, HereOf(PlainTools(m), el), el, strict)
      && (el.Ellipsis? && el.typ.Some? ==> Answers(m, EvalExpr(PlainTools(m), el.typ.value, None), el.typ.value, strict))
    ensures ListAnswer(m, if before.Ok? then Extended(PlainTools(m), before.v, es[|es| - 1]) else before, es, strict)
  {
    var t, el := PlainTools(m), es[|es| - 1];
    hide EvalExpr, EvalComp, CompileExpr, PrefixMeans, TailMeans, ElemMeans, Counts, Means, Wf, PlainTools;
    if before.Ok? {
      match el
      case Ellipsis(typ) =>
        if typ.None? {
          TopMeans(m, strict);
          OpenAnswers(m, before.v, Top, es, strict);
        } else {
          Compiled(t, typ.value);
          var r := EvalExpr(t, typ.value, None);
          if r.Ok? {
            TypeMeans(m, r.v, typ, strict);
            OpenAnswers(m, before.v, r.v, es, strict);
          }
        }
      case CompElem(_) => KeepAnswers(m, before.v, HereOf(t, el), es, strict);
      case Item(e) =>
        KeepAnswers(m, before.v, HereOf(t, el), es, strict);
        assert !EvalExpr(t, e, None).Unresolved?;
        Compiled(t, e);
    }
  }

  lemma TopMeans(m: Regexes, strict: bool)
    ensures ElemMeans(m, Top, Ellipsis(None), strict)
  {
  }

  lemma OpenAnswers(m: Regexes, before: (seq<Value>, Values.Tail), v: Value, es: seq<Elem>, strict: bool)
    requires es != [] && es[|es| - 1].Ellipsis? && PrefixMeans(m, before.0, es[..|es| - 1], strict)
    requires ElemMeans(m, v, es[|es| - 1], strict)
    ensures ListAnswer(m, Ok((before.0, Open(v))), es, strict)
  {
    hide PrefixMeans, TailMeans, ElemMeans, Counts;
    TailOpens(m, v, es, strict);
    SnocMeans(m, before.0, [], es, strict);
    assert before.0 + [] == before.0;
  }

  lemma KeepAnswers(m: Regexes, before: (seq<Value>, Values.Tail), here: Res<seq<Value>>, es: seq<Elem>, strict: bool)
    requires es != [] && !es[|es| - 1].Ellipsis? && HereAnswers(m, here, es[|es| - 1], strict)
    requires PrefixMeans(m, before.0, es[..|es| - 1], strict) && TailMeans(m, before.1, es[..|es| - 1], strict)
    ensures here.Ok? ==> ListAnswer(m, Ok((before.0 + here.v, before.1)), es, strict)
  {
    hide PrefixMeans, TailMeans, ElemMeans, Counts;
    if here.Ok? {
      SnocMeans(m, before.0, here.v, es, strict);
      TailStays(m, before.1, es, strict);
    }
  }

  lemma ListAnswers(m: Regexes, es: seq<Elem>, strict: bool)
    requires ListAnswer(m, EvalList(PlainTools(m), es, None), es, strict)
    ensures Answers(m, EvalExpr(PlainTools(m), ListLit(es), None), ListLit(es), strict)
  {
    var t := PlainTools(m);
    var r := EvalList(t, es, None);
    assert EvalExpr(t, ListLit(es), None) ==
           if r.Hard? then Hard else if r.Unresolved? then Unresolved else Ok(List(r.v.0, r.v.1)) by { hide EvalList; }
    hide EvalExpr, EvalList, PrefixMeans, TailMeans, Means, Wf;
    if r.Ok? { ListMeans(m, r.v.0, r.v.1, es, strict); }
  }

  // ----- Structs -----

  ghost predicate BuiltAnswers(m: Regexes, r: Res<Built>, ds: seq<Decl>, strict: bool)
  {
    !r.Unresolved? && (r.Ok? ==> BuiltMeans(m, r.v, ds, strict))
  }

  /** What was built so far with one more declaration. */
  function Declared(t: Tools, b: Built, d: Decl): Res<Built>
  {
    match d
    case FieldDecl(lab, optional, x) =>
      if FieldLabel(lab).None? then Hard
      else
        (match CompileExpr(t, x)
         case Hard => Hard
         case Unresolved => Unresolved
         case Ok(v) => Ok(b.(fields := AppendOrUnify(t, b.fields, Field(FieldLabel(lab).value, v, optional)))))
    case Embed(x) =>
      (match CompileExpr(t, x)
       case Hard => Hard
       case Unresolved => Unresolved
       case Ok(v) => Ok(b.(embedded := Some(if b.embedded.None? then v else t.meet(b.embedded.value, v)))))
    case OpenDecl => Ok(b)
    case CompDecl(_) => Hard
  }

  lemma DeclsStep(t: Tools, ds: seq<Decl>)
    ensures EvalDecls(t, ds, None) ==
      if ds == [] then Ok(Built([], None))
      else
        var before := EvalDecls(t, ds[..|ds| - 1], None);
        if before.Hard? then Hard else if before.Unresolved? then Unresolved
        else Declared(t, before.v, ds[|ds| - 1])
  {
    hide CompileExpr, AppendOrUnify;
  }

  lemma DeclsParts(t: Tools, ds: seq<Decl>, strict: bool)
    requires ds != [] && FitsDecls(t, ds, strict)
    ensures var n := |ds| - 1;
      && FitsDecls(t, ds[..n], strict) && (strict ==> Continues(t, EvalDecls(t, ds[..n], None), ds[n]))
      && (ds[n].FieldDecl? ==> Fits(t, ds[n].value, strict)) && (ds[n].Embed? ==> Fits(t, ds[n].e, strict))
  {
    hide Fits, Continues, EvalDecls;
  }

  lemma {:induction false} StructDenotes(m: Regexes, ds: seq<Decl>, strict: bool)
    requires FitsDecls(PlainTools(m), ds, strict)
    ensures BuiltAnswers(m, EvalDecls(PlainTools(m), ds, None), ds, strict)
    decreases ds, 0
  {
    hide *;
    var t := PlainTools(m);
    DeclsStep(t, ds);
    if ds == [] {
      NoDecls(m, strict);
      NothingAnswers(m, strict);
    } else {
      var n := |ds| - 1;
      var d := ds[n];
      DeclsParts(t, ds, strict);
      StructDenotes(m, ds[..n], strict);
      if d.FieldDecl? {
        assert d.value < d;
        EvalDenotes(m, d.value, strict);
      }
      if d.Embed? {
        assert d.e < d;
        EvalDenotes(m, d.e, strict);
      }
      DeclareAnswers(m, EvalDecls(t, ds[..n], None), ds, strict);
    }
  }

  lemma NothingAnswers(m: Regexes, strict: bool)
    requires BuiltMeans(m, Built([], None), [], strict)
    ensures BuiltAnswers(m, Ok(Built([], None)), [], strict)
  {
    hide BuiltMeans;
  }

  lemma DeclareAnswers(m: Regexes, before: Res<Built>, ds: seq<Decl>, strict: bool)
    requires ds != [] && BuiltAnswers(m, before, ds[..|ds| - 1], strict)
    requires var d := ds[|ds| - 1];
      && (strict ==> Continues(PlainTools(m), before, d))
      && (d.FieldDecl? ==> Answers(m, EvalExpr(PlainTools(m), d.value, None), d.value, strict))
      && (d.Embed? ==> Answers(m, EvalExpr(PlainTools(m), d.e, None), d.e, strict))
    ensures BuiltAnswers(m, if before.Ok? then Declared(PlainTools(m), before.v, ds[|ds| - 1]) else before, ds, strict)
  {
    hide *;
    if before.Ok? {
      var d := ds[|ds| - 1];
      BuiltIs(m, before, ds[..|ds| - 1], strict);
      if d.FieldDecl? {
        FieldAnswers(m, before.v, ds, strict);
      } else if d.Embed? {
        EmbedAnswers(m, before.v, ds, strict);
      } else {
        OtherAnswers(m, before.v, ds, strict);
      }
    } else {
      NotBuilt(m, before, ds, strict);
    }
  }

  lemma BuiltIs(m: Regexes, r: Res<Built>, ds: seq<Decl>, strict: bool)
    requires BuiltAnswers(m, r, ds, strict) && r.Ok?
    ensures BuiltMeans(m, r.v, ds, strict)
  {
    hide BuiltMeans;
  }

  lemma NotBuilt(m: Regexes, r: Res<Built>, ds: seq<Decl>, strict: bool)
    requires exists es :: BuiltAnswers(m, r, es, strict)
    requires !r.Ok?
    ensures BuiltAnswers(m, r, ds, strict)
  {
    hide BuiltMeans;
  }

  lemma FieldAnswers(m: Regexes, b: Built, ds: seq<Decl>, strict: bool)
    requires ds != [] && ds[|ds| - 1].FieldDecl? && BuiltMeans(m, b, ds[..|ds| - 1], strict)
    requires strict ==> Continues(PlainTools(m), Ok(b), ds[|ds| - 1])
    requires Answers(m, EvalExpr(PlainTools(m), ds[|ds| - 1].value, None), ds[|ds| - 1].value, strict)
    ensures BuiltAnswers(m, Declared(PlainTools(m), b, ds[|ds| - 1]), ds, strict)
  {
    var t, d := PlainTools(m), ds[|ds| - 1];
    hide EvalExpr, CompileExpr, FieldsMean, EmbedsMean, Means, Wf, PlainTools, AppendOrUnify, Joins;
    Compiled(t, d.value);
    var r := EvalExpr(t, d.value, None);
    LabelIsKey(d.lab);
    if FieldLabel(d.lab).Some? && r.Ok? {
      FieldStep(m, b.fields, ds, r.v, strict);
      EmbedsStay(m, b.embedded, ds, strict);
    }
    NoComps(ds);
  }

  lemma LabelIsKey(lab: Label)
    ensures FieldLabel(lab).Some? ==> KeyOf(lab) == FieldLabel(lab)
  {
  }

  lemma NoComps(ds: seq<Decl>)
    requires ds != [] && !ds[|ds| - 1].CompDecl?
    ensures Plain(ds[..|ds| - 1]) ==> Plain(ds)
  {
    var n := |ds| - 1;
    assert forall i | 0 <= i < n :: ds[..n][i] == ds[i];
  }

  lemma EmbedAnswers(m: Regexes, b: Built, ds: seq<Decl>, strict: bool)
    requires ds != [] && ds[|ds| - 1].Embed? && BuiltMeans(m, b, ds[..|ds| - 1], strict)
    requires strict ==> Continues(PlainTools(m), Ok(b), ds[|ds| - 1])
    requires Answers(m, EvalExpr(PlainTools(m), ds[|ds| - 1].e, None), ds[|ds| - 1].e, strict)
    ensures BuiltAnswers(m, Declared(PlainTools(m), b, ds[|ds| - 1]), ds, strict)
  {
    var t, d := PlainTools(m), ds[|ds| - 1];
    hide EvalExpr, CompileExpr, FieldsMean, EmbedsMean, Means, Wf, Unify, Combines;
    Compiled(t, d.e);
    var r := EvalExpr(t, d.e, None);
    if r.Ok? {
      EmbedStep(m, b.embedded, ds, r.v, strict);
      FieldsStay(m, b.fields, ds, strict);
    }
    NoComps(ds);
  }

  lemma OtherAnswers(m: Regexes, b: Built, ds: seq<Decl>, strict: bool)
    requires ds != [] && !ds[|ds| - 1].FieldDecl? && !ds[|ds| - 1].Embed? && BuiltMeans(m, b, ds[..|ds| - 1], strict)
    ensures BuiltAnswers(m, Declared(PlainTools(m), b, ds[|ds| - 1]), ds, strict)
  {
    hide FieldsMean, EmbedsMean;
    if ds[|ds| - 1].OpenDecl? {
      FieldsStay(m, b.fields, ds, strict);
      EmbedsStay(m, b.embedded, ds, strict);
      NoComps(ds);
    }
  }

  lemma StructAnswers(m: Regexes, ds: seq<Decl>, strict: bool)
    requires BuiltAnswers(m, EvalDecls(PlainTools(m), ds, None), ds, strict) && (strict ==> WholeFits(PlainTools(m), ds))
    ensures Answers(m, EvalExpr(PlainTools(m), StructLit(ds), None), StructLit(ds), strict)
  {
    var t := PlainTools(m);
    StructStep(m, ds);
    var b := EvalDecls(t, ds, None);
    hide EvalExpr, EvalDecls, BuiltMeans, Means, Wf, Closes;
    if b.Ok? { FinishMeans(m, b.v, ds, strict); }
  }

  /** Compiling a struct refuses it or gives the built value. */
  lemma StructStep(m: Regexes, ds: seq<Decl>)
    ensures var r, b := EvalExpr(PlainTools(m), StructLit(ds), None), EvalDecls(PlainTools(m), ds, None);
      if b.Ok? then r.Hard? || r == Ok(Finished(b.v)) else r.Hard? == b.Hard? && r.Unresolved? == b.Unresolved?
  {
    hide EvalDecls, RefsDeclared, Reads, FieldNames, Unify;
  }

  // ----- The names of a closed struct -----

  /** The fields of what a struct expression compiles to are the keys it is written with. */
  lemma {:induction false} NamesDenote(m: Regexes, x: Expr, strict: bool)
    requires Fits(PlainTools(m), x, strict) && IsStructExpr(x)
    ensures NamesAnswer(EvalExpr(PlainTools(m), x, None), x)
    decreases x, 1
  {
    hide *;
    var t := PlainTools(m);
    FitsParts(t, x, strict);
    StructParts(x);
    match x
    case Paren(y) =>
      NamesDenote(m, y, strict);
      ParenNames(t, y);
    case Binary(op, y, z) =>
      EvalDenotes(m, y, strict);
      EvalDenotes(m, z, strict);
      NamesDenote(m, y, strict);
      NamesDenote(m, z, strict);
      MeetNames(m, y, z, strict);
    case StructLit(ds) =>
      StructDenotes(m, ds, strict);
      EmbedNames(m, ds, strict);
      StructNames(m, ds, strict);
    case Call(fun, args) =>
      EvalDenotes(m, args[0], strict);
      NamesDenote(m, args[0], strict);
      assert args == [args[0]];
      CloseNames(m, args[0], strict);
  }

  lemma StructParts(x: Expr)
    requires IsStructExpr(x)
    ensures x.Paren? || x.Binary? || x.StructLit? || x.Call?
    ensures x.Paren? ==> IsStructExpr(x.inner)
    ensures x.Binary? ==> x.op.And? && IsStructExpr(x.x) && IsStructExpr(x.y)
    ensures x.StructLit? ==> forall i | 0 <= i < |x.decls| && x.decls[i].Embed? :: IsStructExpr(x.decls[i].e)
    ensures x.Call? ==> x.fun == Ident("close") && |x.args| == 1 && IsStructExpr(x.args[0])
  {
  }

  lemma ParenNames(t: Tools, y: Expr)
    requires NamesAnswer(EvalExpr(t, y, None), y)
    ensures NamesAnswer(EvalExpr(t, Paren(y), None), Paren(y))
  {
    assert EvalExpr(t, Paren(y), None) == EvalExpr(t, y, None);
    hide EvalExpr;
    forall n ensures Declares(Paren(y), n) <==> Declares(y, n) {}
  }

  lemma UnionNames(a: Value, b: Value)
    requires a.Struct? && b.Struct? && Wf(a) && Wf(b)
    ensures Unify(a, b).Struct? && forall n :: HasField(Unify(a, b).fields, n) <==> HasField(a.fields, n) || HasField(b.fields, n)
  {
    assert Unify(a, b) == UnifyStruct(a, b);
    assert UniqueNames(a.fields) && UniqueNames(b.fields);
    hide Unify, UnifyStruct, Wf;
    forall n ensures HasField(UnifyStruct(a, b).fields, n) <==> HasField(a.fields, n) || HasField(b.fields, n) {
      StructMeetByName(a, b, n);
    }
  }

  lemma MeetNames(m: Regexes, y: Expr, z: Expr, strict: bool)
    requires var t := PlainTools(m); var l, r := EvalExpr(t, y, None), EvalExpr(t, z, None);
      Answers(m, l, y, strict) && Answers(m, r, z, strict) && NamesAnswer(l, y) && NamesAnswer(r, z)
    ensures NamesAnswer(EvalExpr(PlainTools(m), Binary(And, y, z), None), Binary(And, y, z))
  {
    var t := PlainTools(m);
    var l, r := EvalExpr(t, y, None), EvalExpr(t, z, None);
    BinaryMeets(m, y, z);
    hide EvalExpr, Means, Unify, Wf, HasThunk, HasField;
    if l.Ok? && r.Ok? {
      WfHasNoThunk(l.v);
      WfHasNoThunk(r.v);
      UnionNames(l.v, r.v);
      forall n ensures Declares(Binary(And, y, z), n) <==> Declares(y, n) || Declares(z, n) {}
    }
    hide Declares;
  }

  /** The names of the embedded structs together. */
  ghost predicate EmbeddedNames(v: Option<Value>, ds: seq<Decl>)
  {
    v.Some? ==> v.value.Struct? && forall n :: HasField(v.value.fields, n) <==> EmbedDeclares(ds, n)
  }

  predicate EmbedDeclares(ds: seq<Decl>, n: string)
  {
    exists i | 0 <= i < |ds| :: ds[i].Embed? && Declares(ds[i].e, n)
  }

  lemma {:induction false} EmbedNames(m: Regexes, ds: seq<Decl>, strict: bool)
    requires FitsDecls(PlainTools(m), ds, strict) && forall i | 0 <= i < |ds| && ds[i].Embed? :: IsStructExpr(ds[i].e)
    ensures EvalDecls(PlainTools(m), ds, None).Ok? ==> EmbeddedNames(EvalDecls(PlainTools(m), ds, None).v.embedded, ds)
    decreases ds, 0
  {
    hide *;
    var t := PlainTools(m);
    DeclsStep(t, ds);
    if ds == [] {
      NothingEmbedded();
    } else {
      var n := |ds| - 1;
      DeclsParts(t, ds, strict);
      assert forall i | 0 <= i < n :: ds[..n][i] == ds[i];
      StructDenotes(m, ds[..n], strict);
      EmbedNames(m, ds[..n], strict);
      if ds[n].Embed? {
        assert ds[n].e < ds[n];
        EvalDenotes(m, ds[n].e, strict);
        NamesDenote(m, ds[n].e, strict);
      }
      DeclareNames(m, EvalDecls(t, ds[..n], None), ds, strict);
    }
  }

  lemma NothingEmbedded()
    ensures EmbeddedNames(None, [])
  {
  }

  lemma LastNames(ds: seq<Decl>, n: string)
    requires ds != []
    ensures EmbedDeclares(ds, n) <==> EmbedDeclares(ds[..|ds| - 1], n) || (ds[|ds| - 1].Embed? && Declares(ds[|ds| - 1].e, n))
  {
    hide Declares;
    var k := |ds| - 1;
    assert forall i | 0 <= i < k :: ds[..k][i] == ds[i];
  }

  lemma DeclareNames(m: Regexes, before: Res<Built>, ds: seq<Decl>, strict: bool)
    requires ds != [] && BuiltAnswers(m, before, ds[..|ds| - 1], strict)
    requires before.Ok? ==> EmbeddedNames(before.v.embedded, ds[..|ds| - 1])
    requires var d := ds[|ds| - 1]; d.Embed? ==>
      && Answers(m, EvalExpr(PlainTools(m), d.e, None), d.e, strict)
      && NamesAnswer(EvalExpr(PlainTools(m), d.e, None), d.e)
    ensures before.Ok? && Declared(PlainTools(m), before.v, ds[|ds| - 1]).Ok? ==>
              EmbeddedNames(Declared(PlainTools(m), before.v, ds[|ds| - 1]).v.embedded, ds)
  {
    var t, d := PlainTools(m), ds[|ds| - 1];
    hide EvalExpr, CompileExpr, Means, Wf, Unify, EmbedDeclares, Declares, HasField, FieldsMean, AppendOrUnify;
    forall n ensures EmbedDeclares(ds, n) <==> EmbedDeclares(ds[..|ds| - 1], n) || (d.Embed? && Declares(d.e, n)) { LastNames(ds, n); }
    if before.Ok? && d.Embed? {
      Compiled(t, d.e);
      var r := EvalExpr(t, d.e, None);
      if r.Ok? && before.v.embedded.Some? { UnionNames(before.v.embedded.value, r.v); }
      if before.v.embedded.None? { NoneDeclared(m, before.v, ds[..|ds| - 1], strict); }
    }
  }

  lemma NoneDeclared(m: Regexes, b: Built, ds: seq<Decl>, strict: bool)
    requires BuiltMeans(m, b, ds, strict) && b.embedded.None?
    ensures forall n :: !EmbedDeclares(ds, n)
  {
    hide FieldsMean, Declares;
  }

  lemma StructNames(m: Regexes, ds: seq<Decl>, strict: bool)
    requires var b := EvalDecls(PlainTools(m), ds, None);
      BuiltAnswers(m, b, ds, strict) && (b.Ok? ==> EmbeddedNames(b.v.embedded, ds))
    ensures NamesAnswer(EvalExpr(PlainTools(m), StructLit(ds), None), StructLit(ds))
  {
    StructStep(m, ds);
    var t := PlainTools(m);
    var b := EvalDecls(t, ds, None);
    hide EvalExpr, EvalDecls, Declares, Finished, BuiltMeans, EmbeddedNames;
    if b.Ok? {
      FinishedNames(m, b.v, ds, strict);
      forall n ensures Declares(StructLit(ds), n) <==> NamesKey(ds, n) || EmbedDeclares(ds, n) { StructDeclares(ds, n); }
    }
  }

  lemma StructDeclares(ds: seq<Decl>, n: string)
    ensures Declares(StructLit(ds), n) <==> NamesKey(ds, n) || EmbedDeclares(ds, n)
  {
    if NamesKey(ds, n) {
      var i :| 0 <= i < |ds| && ds[i].FieldDecl? && KeyOf(ds[i].lab) == Some(n);
      assert DeclDeclares(ds[i], n);
    }
    if EmbedDeclares(ds, n) {
      var i :| 0 <= i < |ds| && ds[i].Embed? && Declares(ds[i].e, n);
      assert DeclDeclares(ds[i], n);
    }
  }

  lemma FinishedNames(m: Regexes, b: Built, ds: seq<Decl>, strict: bool)
    requires BuiltMeans(m, b, ds, strict) && EmbeddedNames(b.embedded, ds)
    ensures Finished(b).Struct?
    ensures forall n :: HasField(Finished(b).fields, n) <==> NamesKey(ds, n) || EmbedDeclares(ds, n)
  {
    FinishedWf(m, b, ds, strict);
    assert forall n :: HasField(b.fields, n) <==> NamesKey(ds, n);
    if b.embedded.None? {
      NoneDeclared(m, b, ds, strict);
    } else {
      UnionNames(Struct(b.fields, false), b.embedded.value);
      assert b.fields == [] ==> forall n :: !HasField(b.fields, n);
    }
    hide Wf, Unify, NamesKey, EmbedDeclares, FieldsMean, EmbedsMean, HasField;
  }

  lemma CloseNames(m: Regexes, x: Expr, strict: bool)
    requires var r := EvalExpr(PlainTools(m), x, None); Answers(m, r, x, strict) && NamesAnswer(r, x)
    ensures var e := Call(Ident("close"), [x]); NamesAnswer(EvalExpr(PlainTools(m), e, None), e)
  {
    var t := PlainTools(m);
    Compiled(t, x);
    CallCompiles(t, Ident("close"), x);
    assert [x][0] == x;
    forall n ensures Declares(Call(Ident("close"), [x]), n) <==> Declares(x, n) {}
    hide EvalExpr, CompileExpr, Means, Wf, HasField, Declares;
  }

}
