/**
  Which expressions without references compile: constants have a sort, and operators want operands of certain
  sorts. What the rules allow compiles; what they rule out is refused at once, even while another part must wait.
 */
module Typing {

  import opened Wrappers
  import opened Syntax
  import opened Values
  import opened Semantics
  import opened Meet
  import opened Thunks
  import opened Eval
  import opened Meaning
  import opened Constructs
  import opened Compounds
  import opened Denotes

  datatype Sort = SInt | SFloat | SStr | SBool | SNull

  predicate IsNumeric(s: Option<Sort>) { s == Some(SInt) || s == Some(SFloat) }

  /** The text of a string literal: what a pattern must be. */
  function PatternOf(e: Expr): Option<string>
  {
    match e
    case Basic(LitStr(p)) => Some(p)
    case Paren(x) => PatternOf(x)
    case _ => None
  }

  predicate IsPattern(m: Regexes, e: Expr)
  {
    PatternOf(e).Some? && m(PatternOf(e).value).Some?
  }

  /** The sort of a constant: a literal, a sign before a number, or a comparison of constants. */
  function SortOf(m: Regexes, e: Expr): Option<Sort>
  {
    match e
    case Basic(LitInt(_)) => Some(SInt)
    case Basic(LitFloat(_)) => Some(SFloat)
    case Basic(LitStr(_)) => Some(SStr)
    case Basic(LitBool(_)) => Some(SBool)
    case Basic(LitNull) => Some(SNull)
    case Ident(n) => if n == "true" || n == "false" then Some(SBool) else if n == "null" then Some(SNull) else None
    case Paren(x) => SortOf(m, x)
    case Unary(uop, x) => if (uop.Minus? || uop.Plus?) && IsNumeric(SortOf(m, x)) then SortOf(m, x) else None
    case Binary(op, x, y) => if Relates(m, op, x, y, SortOf(m, x), SortOf(m, y)) then Some(SBool) else None
    case _ => None
  }

  /** Constants of these sorts may be compared. */
  predicate Relates(m: Regexes, op: BinOp, x: Expr, y: Expr, l: Option<Sort>, r: Option<Sort>)
  {
    match op
    case Eql => l.Some? && r.Some?
    case Neq => l.Some? && r.Some?
    case Mat => l == Some(SStr) && IsPattern(m, y)
    case Nmat => l == Some(SStr) && IsPattern(m, y)
    case And => false
    case Or => false
    case OtherOp => false
    case _ => (IsNumeric(l) && IsNumeric(r)) || (l == Some(SStr) && r == Some(SStr))
  }

  /** A label that stands for its name: quoted, or bare and neither hidden, a definition nor a type. */
  predicate Allowed(lab: Label)
  {
    match lab
    case Quoted(_) => true
    case Bare(n) =>
      && n !in {"string", "int", "float", "number", "bool", "bytes", "_"}
      && (n == "" || (n[0] != '_' && n[0] != '#'))
    case LabelBad => false
  }

  predicate WellFormed(m: Regexes, e: Expr)
    decreases e, 0
  {
    match e
    case Basic(l) => !l.LitBad?
    case Ident(n) => !IsReference(n)
    case Paren(x) => WellFormed(m, x)
    case Unary(uop, x) =>
      (match uop
       case BoundBy(op) =>
         if op.Mat? || op.Nmat? then IsPattern(m, x)
         else IsCompare(op) && !op.Eql? && (IsNumeric(SortOf(m, x)) || SortOf(m, x) == Some(SStr))
       case _ => SortOf(m, e).Some?)
    case Binary(op, x, y) =>
      if op.Or? then FormedBranch(m, x) && FormedBranch(m, y)
      else if op.And? then WellFormed(m, x) && WellFormed(m, y)
      else SortOf(m, e).Some?
    case ListLit(es) => forall i | 0 <= i < |es| :: FormedElem(m, es[i])
    case Index(target, index) =>
      target.ListLit? && SortOf(m, index) == Some(SInt) && forall i | 0 <= i < |target.elems| :: FormedElem(m, target.elems[i])
    case StructLit(ds) => forall i | 0 <= i < |ds| :: FormedDecl(m, ds[i])
    case Call(fun, args) =>
      && |args| == 1
      && (if fun == Ident("close") then IsStructExpr(args[0]) && WellFormed(m, args[0])
          else IsMinRunes(fun) && SortOf(m, args[0]) == Some(SInt))
    case _ => false
  }

  predicate FormedBranch(m: Regexes, e: Expr)
    decreases e, 1
  {
    if e.Unary? && e.uop.Mark? then FormedBranch(m, e.operand)
    else if e.Binary? && e.op.Or? then FormedBranch(m, e.x) && FormedBranch(m, e.y)
    else WellFormed(m, e)
  }

  predicate FormedElem(m: Regexes, el: Elem)
    decreases el, 0
  {
    match el
    case Item(e) => WellFormed(m, e)
    case Ellipsis(typ) => typ.Some? ==> WellFormed(m, typ.value)
    case CompElem(c) =>
      && |c.clauses| == 1 && c.clauses[0].If? && SortOf(m, c.clauses[0].cond) == Some(SBool)
      && c.body.StructLit? && WellFormed(m, c.body)
  }

  predicate FormedDecl(m: Regexes, d: Decl)
    decreases d, 0
  {
    match d
    case FieldDecl(lab, _, x) => Allowed(lab) && WellFormed(m, x)
    case Embed(x) => WellFormed(m, x)
    case OpenDecl => true
    case CompDecl(_) => false
  }

  // ----- Constants -----

  predicate HasSort(c: Scalar, s: Sort)
  {
    match s
    case SInt => c.Int?
    case SFloat => c.Float?
    case SStr => c.Str?
    case SBool => c.Bool?
    case SNull => c.Null?
  }

  lemma PatternText(m: Regexes, t: Tools, e: Expr)
    requires PatternOf(e).Some?
    ensures EvalExpr(t, e, None) == Ok(Con(Str(PatternOf(e).value)))
    ensures forall strict :: Fits(t, e, strict)
  {
    match e
    case Basic(_) =>
    case Paren(x) => PatternText(m, t, x);
  }

  /** A constant evaluates to a scalar of its sort. */
  ghost predicate Evaluates(t: Tools, e: Expr, s: Sort)
  {
    var r := EvalExpr(t, e, None);
    r.Ok? && r.v.Con? && HasSort(r.v.s, s) && forall strict :: Fits(t, e, strict)
  }

  lemma {:induction false} ConstantEvaluates(m: Regexes, e: Expr)
    requires SortOf(m, e).Some?
    ensures Evaluates(PlainTools(m), e, SortOf(m, e).value)
    decreases e
  {
    hide *;
    SortParts(m, e);
    match e
    case Paren(x) =>
      ConstantEvaluates(m, x);
      ParenEvaluates(PlainTools(m), x, SortOf(m, x).value);
    case Unary(uop, x) =>
      ConstantEvaluates(m, x);
      SignEvaluates(m, uop, x);
    case Binary(op, x, y) =>
      if op.Mat? || op.Nmat? {
        ConstantEvaluates(m, x);
        MatchEvaluates(m, op, x, y);
      } else {
        ConstantEvaluates(m, x);
        ConstantEvaluates(m, y);
        CompareEvaluates(m, op, x, y);
      }
    case _ => AtomEvaluates(m, e);
  }

  lemma SortParts(m: Regexes, e: Expr)
    requires SortOf(m, e).Some?
    ensures e.Basic? || e.Ident? || e.Paren? || e.Unary? || e.Binary?
    ensures e.Paren? ==> SortOf(m, e.inner) == SortOf(m, e)
    ensures e.Unary? ==> (e.uop.Minus? || e.uop.Plus?) && IsNumeric(SortOf(m, e.operand)) && SortOf(m, e.operand) == SortOf(m, e)
    ensures e.Unary? ==> SortOf(m, e.operand).Some?
    ensures e.Binary? ==> SortOf(m, e) == Some(SBool) && IsCompare(e.op) && SortOf(m, e.x).Some?
    ensures e.Binary? ==> Relates(m, e.op, e.x, e.y, SortOf(m, e.x), SortOf(m, e.y))
    ensures e.Binary? && (e.op.Mat? || e.op.Nmat?) ==> SortOf(m, e.x) == Some(SStr) && IsPattern(m, e.y)
    ensures e.Binary? && !e.op.Mat? && !e.op.Nmat? ==> SortOf(m, e.y).Some?
  {
  }

  lemma AtomEvaluates(m: Regexes, e: Expr)
    requires (e.Basic? || e.Ident?) && SortOf(m, e).Some?
    ensures Evaluates(PlainTools(m), e, SortOf(m, e).value)
  {
  }

  lemma ParenEvaluates(t: Tools, x: Expr, s: Sort)
    requires Evaluates(t, x, s)
    ensures Evaluates(t, Paren(x), s)
  {
    assert EvalExpr(t, Paren(x), None) == EvalExpr(t, x, None);
    forall strict ensures Fits(t, Paren(x), strict) { assert Fits(t, x, strict); }
    hide EvalExpr, Fits;
  }

  lemma SignEvaluates(m: Regexes, uop: UnOp, x: Expr)
    requires (uop.Minus? || uop.Plus?) && IsNumeric(SortOf(m, x)) && Evaluates(PlainTools(m), x, SortOf(m, x).value)
    ensures Evaluates(PlainTools(m), Unary(uop, x), SortOf(m, x).value)
  {
    hide EvalExpr, CompileExpr, SortOf;
    var t := PlainTools(m);
    Compiled(t, x);
    UnaryCompiles(t, uop, x);
    forall strict ensures Fits(t, Unary(uop, x), strict) { assert Fits(t, x, strict); }
  }

  lemma CompareEvaluates(m: Regexes, op: BinOp, x: Expr, y: Expr)
    requires IsCompare(op) && !op.Mat? && !op.Nmat? && SortOf(m, x).Some? && SortOf(m, y).Some?
    requires Relates(m, op, x, y, SortOf(m, x), SortOf(m, y))
    requires Evaluates(PlainTools(m), x, SortOf(m, x).value) && Evaluates(PlainTools(m), y, SortOf(m, y).value)
    ensures Evaluates(PlainTools(m), Binary(op, x, y), SBool)
  {
    hide EvalExpr, Fits, SortOf, IsComparison, StrLt, BoundOpOf;
    var t := PlainTools(m);
    BinaryCompares(t, op, x, y);
    ComparisonSort(m, x);
    ComparisonSort(m, y);
    CompareFits(t, op, x, y);
  }

  /** A comparison is a bool, so no operand of an ordered one. */
  lemma ComparisonSort(m: Regexes, x: Expr)
    requires SortOf(m, x).Some?
    ensures IsComparison(x) ==> SortOf(m, x) == Some(SBool)
  {
  }

  lemma CompareFits(t: Tools, op: BinOp, x: Expr, y: Expr)
    requires IsCompare(op) && Fits(t, x, true) && Fits(t, y, true)
    requires NoChoice(EvalExpr(t, x, None)) && NoChoice(EvalExpr(t, y, None))
    ensures forall strict :: Fits(t, Binary(op, x, y), strict)
  {
    hide EvalExpr;
  }

  lemma MatchEvaluates(m: Regexes, op: BinOp, x: Expr, y: Expr)
    requires (op.Mat? || op.Nmat?) && IsPattern(m, y) && Evaluates(PlainTools(m), x, SStr)
    ensures Evaluates(PlainTools(m), Binary(op, x, y), SBool)
  {
    hide EvalExpr, Fits, IsComparison, StrLt;
    var t := PlainTools(m);
    BinaryCompares(t, op, x, y);
    PatternText(m, t, y);
    CompareFits(t, op, x, y);
  }

  // ----- What is allowed compiles -----

  lemma {:induction false} WfReadsNothing(v: Value)
    requires Wf(v)
    ensures Reads(v) == {}
    decreases v, 0
  {
    match v
    case List(p, tl) =>
      WfValuesRead(p);
      if tl.Open? { WfReadsNothing(tl.elem); }
    case Disj(bs) => WfBranchesRead(bs);
    case _ =>
  }

  lemma {:induction false} WfValuesRead(vs: seq<Value>)
    requires forall v <- vs :: Wf(v)
    ensures ReadsOfValues(vs) == {}
    decreases vs, 0
  {
    if vs != [] {
      assert forall v <- vs[..|vs| - 1] :: v in vs;
      WfValuesRead(vs[..|vs| - 1]);
      assert vs[|vs| - 1] in vs;
      WfReadsNothing(vs[|vs| - 1]);
    }
  }

  lemma {:induction false} WfBranchesRead(bs: seq<Branch>)
    requires forall b <- bs :: Wf(b.v)
    ensures ReadsOfBranches(bs) == {}
    decreases bs, 0
  {
    if bs != [] {
      var last := bs[|bs| - 1];
      assert last.v < last && last in bs;
      assert forall b <- bs[..|bs| - 1] :: b in bs;
      WfBranchesRead(bs[..|bs| - 1]);
      WfReadsNothing(last.v);
    }
  }

  /** It compiles, and to what it means. */
  ghost predicate Compiles(m: Regexes, e: Expr)
  {
    EvalExpr(PlainTools(m), e, None).Ok? && Fits(PlainTools(m), e, false)
  }

  lemma {:induction false} EvalCompiles(m: Regexes, e: Expr)
    requires WellFormed(m, e)
    ensures Compiles(m, e)
    decreases e, 0
  {
    hide *;
    var t := PlainTools(m);
    FormedParts(m, e);
    match e
    case Paren(x) =>
      EvalCompiles(m, x);
      ParenCompiles(m, x);
    case Binary(op, x, y) =>
      if op.Or? {
        BranchesCompile(m, x, false);
        BranchesCompile(m, y, false);
        OrCompiles(m, x, y);
      } else if op.And? {
        EvalCompiles(m, x);
        EvalCompiles(m, y);
        AndCompiles(m, x, y);
      } else {
        ConstantEvaluates(m, e);
        ConstantCompiles(m, e);
      }
    case Unary(uop, x) =>
      if uop.BoundBy? {
        BoundCompiles(m, uop.op, x);
      } else {
        ConstantEvaluates(m, e);
        ConstantCompiles(m, e);
      }
    case ListLit(es) =>
      ListCompiles(m, es);
      ListLitCompiles(m, es);
    case Index(target, index) =>
      ItemsCompile(m, target.elems);
      ConstantEvaluates(m, index);
      assert e == Expr.Index(ListLit(target.elems), index);
      IndexCompiles(m, target.elems, index);
    case StructLit(ds) =>
      DeclsCompile(m, ds);
      StructCompiles(m, ds);
    case Call(fun, args) =>
      assert args == [args[0]];
      if fun == Ident("close") {
        EvalCompiles(m, args[0]);
        CloseCompiles(m, args[0]);
      } else {
        ConstantEvaluates(m, args[0]);
        MinRunesCompiles(m, fun, args[0]);
      }
    case _ => AtomCompiles(m, e);
  }

  lemma FormedParts(m: Regexes, e: Expr)
    requires WellFormed(m, e)
    ensures !e.Selector? && !e.Interpolation?
    ensures e.Paren? ==> WellFormed(m, e.inner)
    ensures e.Binary? && e.op.Or? ==> FormedBranch(m, e.x) && FormedBranch(m, e.y)
    ensures e.Binary? && e.op.And? ==> WellFormed(m, e.x) && WellFormed(m, e.y)
    ensures e.Binary? && !e.op.Or? && !e.op.And? ==> SortOf(m, e).Some?
    ensures e.Unary? && !e.uop.BoundBy? ==> SortOf(m, e).Some?
    ensures e.Unary? && e.uop.BoundBy? ==> BoundFormed(m, e.uop.op, e.operand)
    ensures e.ListLit? ==> ElemsFormed(m, e.elems)
    ensures e.Index? ==> e.target.ListLit? && SortOf(m, e.index) == Some(SInt) && ElemsFormed(m, e.target.elems)
    ensures e.StructLit? ==> forall i | 0 <= i < |e.decls| :: FormedDecl(m, e.decls[i])
    ensures e.Call? ==> |e.args| == 1 && (e.fun == Ident("close") ==> IsStructExpr(e.args[0]) && WellFormed(m, e.args[0]))
    ensures e.Call? && e.fun != Ident("close") ==> IsMinRunes(e.fun) && SortOf(m, e.args[0]) == Some(SInt)
  {
    hide FormedElem, FormedDecl, FormedBranch, SortOf, IsStructExpr;
  }

  predicate ElemsFormed(m: Regexes, es: seq<Elem>)
  {
    forall i | 0 <= i < |es| :: FormedElem(m, es[i])
  }

  predicate BoundFormed(m: Regexes, op: BinOp, x: Expr)
  {
    if op.Mat? || op.Nmat? then IsPattern(m, x)
    else IsCompare(op) && !op.Eql? && (IsNumeric(SortOf(m, x)) || SortOf(m, x) == Some(SStr))
  }

  lemma AtomCompiles(m: Regexes, e: Expr)
    requires (e.Basic? || e.Ident?) && WellFormed(m, e)
    ensures Compiles(m, e)
  {
  }

  lemma ParenCompiles(m: Regexes, x: Expr)
    requires Compiles(m, x)
    ensures Compiles(m, Paren(x))
  {
    assert EvalExpr(PlainTools(m), Paren(x), None) == EvalExpr(PlainTools(m), x, None);
    hide EvalExpr;
  }

  lemma ConstantCompiles(m: Regexes, e: Expr)
    requires SortOf(m, e).Some? && Evaluates(PlainTools(m), e, SortOf(m, e).value)
    ensures Compiles(m, e)
  {
    assert Fits(PlainTools(m), e, false);
    hide EvalExpr, Fits, SortOf;
  }

  lemma BoundCompiles(m: Regexes, op: BinOp, x: Expr)
    requires BoundFormed(m, op, x)
    ensures Compiles(m, Unary(BoundBy(op), x))
  {
    hide *;
    var t := PlainTools(m);
    OperandEvaluates(m, op, x);
    Compiled(t, x);
    UnaryCompiles(t, BoundBy(op), x);
    OperandBounds(m, op, x);
    UnaryFits(m, op, x);
  }

  lemma OperandEvaluates(m: Regexes, op: BinOp, x: Expr)
    requires BoundFormed(m, op, x)
    ensures var r := EvalExpr(PlainTools(m), x, None); r.Ok? && r.v.Con? && Fits(PlainTools(m), x, false)
    ensures var s := EvalExpr(PlainTools(m), x, None).v.s;
      if op.Mat? || op.Nmat? then s.Str? && m(s.str).Some? else IsCompare(op) && !op.Eql? && (s.Int? || s.Float? || s.Str?)
  {
    hide EvalExpr, SortOf, Fits;
    if op.Mat? || op.Nmat? { PatternText(m, PlainTools(m), x); } else { ConstantEvaluates(m, x); }
    assert Fits(PlainTools(m), x, false);
  }

  lemma OperandBounds(m: Regexes, op: BinOp, x: Expr)
    requires BoundFormed(m, op, x) && EvalExpr(PlainTools(m), x, None).Ok?
    ensures UnaryOf(PlainTools(m), BoundBy(op), EvalExpr(PlainTools(m), x, None).v).Ok?
  {
    OperandEvaluates(m, op, x);
    hide EvalExpr, SortOf, PatternOf, BoundOpOf;
  }

  lemma UnaryFits(m: Regexes, op: BinOp, x: Expr)
    requires Fits(PlainTools(m), x, false) && EvalExpr(PlainTools(m), Unary(BoundBy(op), x), None).Ok?
    ensures Compiles(m, Unary(BoundBy(op), x))
  {
    hide EvalExpr;
  }

  lemma CloseCompiles(m: Regexes, x: Expr)
    requires Compiles(m, x) && IsStructExpr(x)
    ensures var e := Call(Ident("close"), [x]); Compiles(m, e)
  {
    hide EvalExpr, CompileExpr, Declares, HasField, IsStructExpr;
    var t := PlainTools(m);
    Compiled(t, x);
    CallCompiles(t, Ident("close"), x);
    NamesDenote(m, x, false);
    assert [x][0] == x;
  }

  lemma MinRunesCompiles(m: Regexes, fun: Expr, x: Expr)
    requires IsMinRunes(fun) && SortOf(m, x) == Some(SInt) && Evaluates(PlainTools(m), x, SInt)
    ensures Compiles(m, Call(fun, [x]))
  {
    hide EvalExpr, CompileExpr, SortOf;
    var t := PlainTools(m);
    assert Fits(t, x, false);
    Compiled(t, x);
    CallCompiles(t, fun, x);
    assert [x][0] == x;
  }

  lemma AndCompiles(m: Regexes, x: Expr, y: Expr)
    requires Compiles(m, x) && Compiles(m, y)
    ensures Compiles(m, Binary(And, x, y))
  {
    hide EvalExpr, Wf, HasThunk, Unify;
    var t := PlainTools(m);
    BinaryMeets(m, x, y);
    CompiledIsWf(m, x);
    CompiledIsWf(m, y);
    WfHasNoThunk(EvalExpr(t, x, None).v);
    WfHasNoThunk(EvalExpr(t, y, None).v);
  }

  lemma CompiledIsWf(m: Regexes, x: Expr)
    requires Compiles(m, x)
    ensures EvalExpr(PlainTools(m), x, None).Ok? && Wf(EvalExpr(PlainTools(m), x, None).v)
  {
    hide EvalExpr, Wf, Fits, Means;
    EvalDenotes(m, x, false);
  }

  ghost predicate CompilesBranches(m: Regexes, e: Expr, marked: bool)
  {
    EvalBranches(PlainTools(m), e, marked, None).Ok? && FitsBranch(PlainTools(m), e, false)
  }

  lemma OrCompiles(m: Regexes, x: Expr, y: Expr)
    requires CompilesBranches(m, x, false) && CompilesBranches(m, y, false)
    ensures Compiles(m, Binary(Or, x, y))
  {
    hide EvalExpr, EvalBranches, BuildDisjunction;
    BinaryChooses(PlainTools(m), x, y);
  }

  lemma {:induction false} BranchesCompile(m: Regexes, e: Expr, marked: bool)
    requires FormedBranch(m, e)
    ensures CompilesBranches(m, e, marked)
    decreases e, 1
  {
    var t := PlainTools(m);
    BranchesStep(t, e, marked);
    hide EvalExpr, EvalBranches, CompileExpr, Fits, WellFormed, Flatten;
    if e.Unary? && e.uop.Mark? {
      BranchesCompile(m, e.operand, true);
    } else if e.Binary? && e.op.Or? {
      BranchesCompile(m, e.x, marked);
      BranchesCompile(m, e.y, marked);
    } else {
      EvalCompiles(m, e);
      Compiled(t, e);
    }
  }

  ghost predicate CompilesElem(m: Regexes, el: Elem)
  {
    && HereOf(PlainTools(m), el).Ok? && FitsElem(PlainTools(m), el, false)
    && (el.Ellipsis? && el.typ.Some? ==> Compiles(m, el.typ.value)) && (el.Item? ==> Compiles(m, el.e))
  }

  lemma {:induction false} ElemCompiles(m: Regexes, el: Elem)
    requires FormedElem(m, el)
    ensures CompilesElem(m, el)
    decreases el, 0
  {
    var t := PlainTools(m);
    hide EvalExpr, Fits, WellFormed, SortOf;
    match el
    case Item(e) => EvalCompiles(m, e);
    case Ellipsis(typ) =>
      if typ.Some? {
        assert typ.value < el.typ && el.typ < el;
        EvalCompiles(m, typ.value);
      }
    case CompElem(c) =>
      assert c.clauses[0].cond < c.clauses[0];
      ConstantEvaluates(m, c.clauses[0].cond);
      EvalCompiles(m, c.body);
      CompStep(t, c);
      assert Fits(t, c.clauses[0].cond, true);
      hide EvalComp;
  }

  lemma {:induction false} ItemsCompile(m: Regexes, es: seq<Elem>)
    requires ElemsFormed(m, es)
    ensures EvalItems(PlainTools(m), es, None).Ok? && FitsElems(PlainTools(m), es, false)
    decreases es, 0
  {
    var t := PlainTools(m);
    ItemsStep(t, es);
    hide EvalItems, FormedElem, FitsElem, HereOf, Compiles;
    if es != [] {
      ElemCompiles(m, es[0]);
      ItemsCompile(m, es[1..]);
      forall i | 0 <= i < |es| ensures FitsElem(t, es[i], false) { if i > 0 { assert es[1..][i - 1] == es[i]; } }
    }
  }

  lemma {:induction false} ListCompiles(m: Regexes, es: seq<Elem>)
    requires ElemsFormed(m, es)
    ensures EvalList(PlainTools(m), es, None).Ok? && FitsElems(PlainTools(m), es, false)
    decreases es, 0
  {
    var t := PlainTools(m);
    ListStep(t, es);
    hide EvalList, FormedElem, FitsElem, CompileExpr, EvalExpr, EvalComp;
    if es != [] {
      var n := |es| - 1;
      ListCompiles(m, es[..n]);
      ElemCompiles(m, es[n]);
      if es[n].Item? { Compiled(t, es[n].e); }
      if es[n].Ellipsis? && es[n].typ.Some? { Compiled(t, es[n].typ.value); }
      forall i | 0 <= i < |es| ensures FitsElem(t, es[i], false) { if i < n { assert es[..n][i] == es[i]; } }
    }
  }

  lemma ListLitCompiles(m: Regexes, es: seq<Elem>)
    requires EvalList(PlainTools(m), es, None).Ok? && FitsElems(PlainTools(m), es, false)
    ensures Compiles(m, ListLit(es))
  {
    hide EvalList, FitsElems;
  }

  lemma IndexCompiles(m: Regexes, es: seq<Elem>, index: Expr)
    requires EvalItems(PlainTools(m), es, None).Ok? && FitsElems(PlainTools(m), es, false)
    requires SortOf(m, index) == Some(SInt) && Evaluates(PlainTools(m), index, SInt)
    ensures Compiles(m, Expr.Index(ListLit(es), index))
  {
    hide EvalItems, EvalExpr, FitsElems, SortOf;
    IndexPicks(PlainTools(m), es, index);
    assert Fits(PlainTools(m), index, false);
  }

  ghost predicate CompilesDecls(m: Regexes, ds: seq<Decl>)
  {
    EvalDecls(PlainTools(m), ds, None).Ok? && FitsDecls(PlainTools(m), ds, false)
  }

  /** The declaration's expression compiles. */
  ghost predicate CompilesDecl(m: Regexes, d: Decl)
  {
    match d
    case FieldDecl(lab, _, x) => Allowed(lab) && Compiles(m, x)
    case Embed(x) => Compiles(m, x)
    case OpenDecl => true
    case CompDecl(_) => false
  }

  lemma {:induction false} DeclsCompile(m: Regexes, ds: seq<Decl>)
    requires forall i | 0 <= i < |ds| :: FormedDecl(m, ds[i])
    ensures CompilesDecls(m, ds)
    decreases ds, 0
  {
    hide *;
    var t := PlainTools(m);
    if ds == [] {
      NoDeclsCompile(m);
    } else {
      var n := |ds| - 1;
      DeclsCompile(m, ds[..n]);
      DeclCompiles(m, ds[n]);
      LastCompiles(m, ds);
    }
  }

  lemma NoDeclsCompile(m: Regexes)
    ensures CompilesDecls(m, [])
  {
  }

  lemma {:induction false} DeclCompiles(m: Regexes, d: Decl)
    requires FormedDecl(m, d)
    ensures CompilesDecl(m, d)
    decreases d, 0
  {
    hide WellFormed, Compiles;
    match d
    case FieldDecl(_, _, x) => EvalCompiles(m, x);
    case Embed(x) => EvalCompiles(m, x);
    case _ =>
  }

  lemma LastCompiles(m: Regexes, ds: seq<Decl>)
    requires ds != [] && CompilesDecls(m, ds[..|ds| - 1]) && CompilesDecl(m, ds[|ds| - 1])
    ensures CompilesDecls(m, ds)
  {
    var t := PlainTools(m);
    var n := |ds| - 1;
    var d := ds[n];
    DeclsStep(t, ds);
    hide EvalDecls, Fits, CompileExpr, EvalExpr, AppendOrUnify, Allowed, FieldLabel, Continues;
    var before := EvalDecls(t, ds[..n], None).v;
    match d {
      case FieldDecl(lab, _, x) =>
        Compiled(t, x);
        AllowedLabel(lab);
        assert Declared(t, before, d).Ok?;
      case Embed(x) =>
        Compiled(t, x);
        assert Declared(t, before, d).Ok?;
      case OpenDecl => assert Declared(t, before, d).Ok?;
    }
    assert EvalDecls(t, ds, None).Ok?;
    assert FitsDecl(t, d, false);
    assert FitsDecls(t, ds, false);
  }

  lemma AllowedLabel(lab: Label)
    ensures Allowed(lab) <==> FieldLabel(lab).Some?
  {
  }

  lemma StructCompiles(m: Regexes, ds: seq<Decl>)
    requires CompilesDecls(m, ds)
    ensures Compiles(m, StructLit(ds))
  {
    hide EvalExpr, EvalDecls, FitsDecls, RefsDeclared, Reads, FieldNames, BuiltMeans, Unify;
    var t := PlainTools(m);
    StructDenotes(m, ds, false);
    StructIsFinish(t, ds);
    var b := EvalDecls(t, ds, None).v;
    NoRefs(m, b, ds);
  }

  lemma StructIsFinish(t: Tools, ds: seq<Decl>)
    ensures EvalDecls(t, ds, None).Ok? ==> EvalExpr(t, StructLit(ds), None) == Finish(t, EvalDecls(t, ds, None).v, true)
  {
    hide EvalDecls, Finish;
  }

  lemma NoRefs(m: Regexes, b: Built, ds: seq<Decl>)
    requires BuiltMeans(m, b, ds, false)
    ensures RefsDeclared(b.fields) && (b.embedded.Some? ==> Reads(b.embedded.value) <= FieldNames(b.fields))
  {
    hide Wf, Reads, FieldNames;
    forall i | 0 <= i < |b.fields| ensures Reads(b.fields[i].val) == {} { WfReadsNothing(b.fields[i].val); }
    if b.embedded.Some? { WfReadsNothing(b.embedded.value); }
  }

  /** MAIN: a well-formed expression compiles, and what it compiles to admits only what it means. */
  lemma WellFormedCompiles(m: Regexes, e: Expr)
    requires WellFormed(m, e)
    ensures var r := CompileExpr(PlainTools(m), e); r.Ok? && forall g :: Member(g, r.v) ==> Admits(m, g, e)
  {
    hide *;
    EvalCompiles(m, e);
    CompiledMeans(m, e);
  }

  lemma CompiledMeans(m: Regexes, e: Expr)
    requires Compiles(m, e)
    ensures var r := CompileExpr(PlainTools(m), e); r.Ok? && forall g :: Member(g, r.v) ==> Admits(m, g, e)
  {
    hide EvalExpr, CompileExpr, Fits, Member, Admits, Wf;
    EvalDenotes(m, e, false);
    Compiled(PlainTools(m), e);
  }

  // ----- What is refused at once -----

  /** MAIN: a field under a label that is not allowed refuses the struct, in any scope. */
  lemma {:induction false} LabelsAllowed(t: Tools, ds: seq<Decl>, scope: Option<Scope>, i: nat)
    requires i < |ds| && ds[i].FieldDecl? && !Allowed(ds[i].lab)
    ensures !EvalDecls(t, ds, scope).Ok?
    decreases |ds|
  {
    hide EvalChild, AppendOrUnify;
    AllowedLabel(ds[i].lab);
    if i < |ds| - 1 {
      assert ds[..|ds| - 1][i] == ds[i];
      LabelsAllowed(t, ds[..|ds| - 1], scope, i);
    }
  }

  /** An operand that no data can make right for the comparison. */
  predicate Hopeless(op: BinOp, x: Expr, r: Res<Value>)
  {
    || r.Hard? || (r.Ok? && !IsConcrete(r.v))
    || (op in {Geq, Leq, Gtr, Lss} && (IsComparison(x) || (r.Ok? && !(r.v.Con? && (r.v.s.Int? || r.v.s.Float? || r.v.s.Str?)))))
  }

  /** MAIN: a comparison with a hopeless operand is refused even while the other operand waits. */
  lemma HopelessIsRefused(t: Tools, op: BinOp, x: Expr, y: Expr, scope: Option<Scope>)
    requires IsCompare(op) && (Hopeless(op, x, EvalExpr(t, x, scope)) || Hopeless(op, y, EvalExpr(t, y, scope)))
    ensures EvalExpr(t, Binary(op, x, y), scope).Hard?
  {
    assert EvalExpr(t, Binary(op, x, y), scope) ==
           Comparison(t, op, x, y, EvalExpr(t, x, scope), EvalExpr(t, y, scope)) by { hide Comparison; }
    hide EvalExpr, IsConcrete, IsComparison, CompareConcrete;
  }

  /** MAIN: an element that can never evaluate refuses the list picked from, whatever the other elements wait for. */
  lemma {:induction false} BadElementRefused(t: Tools, es: seq<Elem>, i: nat)
    requires i < |es| && HereOf(t, es[i]).Hard?
    ensures EvalItems(t, es, None).Hard?
    decreases |es|
  {
    ItemsStep(t, es);
    hide EvalItems, HereOf;
    if i > 0 {
      assert es[1..][i - 1] == es[i];
      BadElementRefused(t, es[1..], i - 1);
    }
  }

  /** MAIN: an `if` element whose body can never evaluate is refused, whatever its condition waits for. */
  lemma BadBodyRefused(t: Tools, c: Comprehension)
    requires c.body.StructLit? && EvalExpr(t, c.body, None).Hard?
    ensures EvalComp(t, c, None).Hard?
  {
    if |c.clauses| == 1 && c.clauses[0].If? {
      CompStep(t, c);
      hide EvalExpr, EvalComp;
    }
  }

}
