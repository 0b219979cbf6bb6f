/**
  Building a value from an expression. At compile time there is no scope and a deferrable expression
  that reads a sibling becomes a thunk; when a thunk is forced there is one, and the same evaluation
  must succeed or fail for good. The meet and the regular-expression compiler are parameters.
 */
module Eval {

  import opened Wrappers
  import opened Syntax
  import opened Values
  import opened Meet
  import opened Thunks

  datatype Tools = Tools(meet: (Value, Value) -> Value, regex: string -> Option<string -> bool>)

  /** Ok, an unresolved reference, or an error no scope can repair. */
  datatype Res<+T> = Ok(v: T) | Unresolved | Hard

  // ----- Literals and identifiers -----

  function EvalLit(l: Lit): Res<Value>
  {
    match l
    case LitStr(s) => Ok(Con(Str(s)))
    case LitInt(i) => Ok(Con(Int(i)))
    case LitFloat(f) => Ok(Con(Float(f)))
    case LitBool(b) => Ok(Con(Bool(b)))
    case LitNull => Ok(Con(Null))
    case LitBad => Hard
  }

  /** The value of a keyword. */
  function Keyword(name: string): Option<Value>
  {
    if name == "_" then Some(Top)
    else if name == "null" then Some(Con(Null))
    else if name == "true" then Some(Con(Bool(true)))
    else if name == "false" then Some(Con(Bool(false)))
    else if name == "string" then Some(Atom(AkString))
    else if name == "int" then Some(Atom(AkInt))
    else if name == "float" then Some(Atom(AkFloat))
    else if name == "number" then Some(Atom(AkNumber))
    else if name == "bool" then Some(Atom(AkBool))
    else if name == "bytes" then Some(Atom(AkBytes))
    else None
  }

  /** A sibling must be concrete; a defaulted disjunction reads as its default. */
  function LookUp(name: string, scope: Option<Scope>): Res<Value>
  {
    if scope.None? || name !in scope.value then Unresolved
    else
      var v := scope.value[name];
      if !IsConcrete(v) then Unresolved
      else if v.Disj? then Ok(v.branches[DefaultIndex(v.branches).value].v)
      else Ok(v)
  }

  // ----- Comparisons -----

  predicate Orderable(v: Value)
  {
    v.Con? && (v.s.Int? || v.s.Float? || v.s.Str?)
  }

  /** Numbers compare across int and float; everything else only with its own kind. */
  predicate NumericAwareEqual(a: Value, b: Value)
  {
    a.Con? && b.Con? &&
    if NumericValue(a.s).Some? && NumericValue(b.s).Some? then NumericValue(a.s) == NumericValue(b.s) else a.s == b.s
  }

  function BoundOpOf(op: BinOp): BoundOp
    requires IsCompare(op) && !op.Eql?
  {
    match op
    case Geq => OpGe
    case Leq => OpLe
    case Gtr => OpGt
    case Lss => OpLt
    case Neq => OpNe
    case Mat => OpMatch
    case Nmat => OpNotMatch
  }

  function CompareConcrete(t: Tools, op: BinOp, l: Value, r: Value): Res<bool>
    requires IsCompare(op)
  {
    if op.Eql? then Ok(NumericAwareEqual(l, r))
    else if op.Neq? then Ok(!NumericAwareEqual(l, r))
    else if op.Mat? || op.Nmat? then
      if !(l.Con? && l.s.Str? && r.Con? && r.s.Str?) then Hard
      else
        match t.regex(r.s.str)
        case None => Hard
        case Some(re) => Ok(re(l.s.str) == op.Mat?)
    else if !l.Con? || !r.Con? then Hard
    else if l.s.Str? && r.s.Str? then Ok(CompareStr(l.s.str, BoundOpOf(op), r.s.str))
    else if NumericValue(l.s).None? || NumericValue(r.s).None? then Hard
    else Ok(CompareNum(NumericValue(l.s).value, BoundOpOf(op), NumericValue(r.s).value))
  }

  /** A comparison of two evaluated operands; what can never resolve is refused before waiting. */
  function Comparison(t: Tools, op: BinOp, x: Expr, y: Expr, l: Res<Value>, r: Res<Value>): Res<Value>
    requires IsCompare(op)
  {
    if l.Hard? || r.Hard? then Hard
    else if (l.Ok? && !IsConcrete(l.v)) || (r.Ok? && !IsConcrete(r.v)) then Hard
    else if IsOrdered(op) && (IsComparison(x) || (l.Ok? && !Orderable(l.v)) || IsComparison(y) || (r.Ok? && !Orderable(r.v))) then Hard
    else if l.Unresolved? || r.Unresolved? then Unresolved
    else
      match CompareConcrete(t, op, l.v, r.v)
      case Ok(b) => Ok(Con(Bool(b)))
      case _ => Hard
  }

  // ----- Bounds and builtins -----

  const NO_PATTERN: string -> bool := s => false

  function BoundFromOperand(t: Tools, op: BinOp, operand: Value): Res<Value>
  {
    if !IsCompare(op) || op.Eql? then Hard
    else if op.Mat? || op.Nmat? then
      if !(operand.Con? && operand.s.Str?) then Hard
      else
        match t.regex(operand.s.str)
        case None => Hard
        case Some(re) => Ok(Bounded(AkString, [Bound(BoundOpOf(op), 0.0, operand.s.str, false, re)]))
    else
      match operand
      case Con(Int(i)) => Ok(Bounded(AkNumber, [Bound(BoundOpOf(op), i as real, "", false, NO_PATTERN)]))
      case Con(Float(f)) => Ok(Bounded(AkNumber, [Bound(BoundOpOf(op), f, "", false, NO_PATTERN)]))
      case Con(Str(s)) => Ok(Bounded(AkString, [Bound(BoundOpOf(op), 0.0, s, true, NO_PATTERN)]))
      case _ => Hard
  }

  function Negated(v: Value): Res<Value>
  {
    match v
    case Con(Int(i)) => Ok(Con(Int(-i)))
    case Con(Float(f)) => Ok(Con(Float(-f)))
    case _ => Hard
  }

  function UnaryOf(t: Tools, uop: UnOp, operand: Value): Res<Value>
  {
    match uop
    case BoundBy(op) => BoundFromOperand(t, op, operand)
    case Mark => Hard
    case Minus => Negated(operand)
    case Plus => if operand.Con? && (operand.s.Int? || operand.s.Float?) then Ok(operand) else Hard
    case OtherUnary => Hard
  }

  function Closing(v: Value): Res<Value>
  {
    if v.Struct? then Ok(v.(closed := true)) else Hard
  }

  function MinRunes(v: Value): Res<Value>
  {
    if v.Con? && v.s.Int? then Ok(Bounded(AkString, [Bound(OpMinRunes, v.s.i as real, "", false, NO_PATTERN)])) else Hard
  }

  // ----- Disjunctions -----

  /** A nested disjunction gives its branches, each with its mode unless the whole is marked. */
  function Flatten(v: Value, marked: bool): seq<Branch>
  {
    if v.Disj? then seq(|v.branches|, i requires 0 <= i < |v.branches| => Branch(v.branches[i].v, if marked then Is else v.branches[i].mode))
    else [Branch(v, if marked then Is else Maybe)]
  }

  function RaiseMaybe(bs: seq<Branch>): (r: seq<Branch>)
    ensures |r| == |bs|
  {
    seq(|bs|, i requires 0 <= i < |bs| => if bs[i].mode.Maybe? then Branch(bs[i].v, Not) else bs[i])
  }

  function BuildDisjunction(bs: seq<Branch>, hasMark: bool): Value
  {
    var live := Dedupe(LiveOf(bs));
    var raised := if hasMark then RaiseMaybe(live) else live;
    if raised == [] then Bottom else if |raised| == 1 then raised[0].v else Disj(raised)
  }

  // ----- Structs -----

  /** A repeated key meets what it already has, at its first place. */
  function AppendOrUnify(t: Tools, fs: seq<Field>, f: Field): seq<Field>
  {
    if fs == [] then [f]
    else if fs[0].name == f.name then [Field(f.name, t.meet(fs[0].val, f.val), fs[0].optional && f.optional)] + fs[1..]
    else [fs[0]] + AppendOrUnify(t, fs[1..], f)
  }

  /** The names read by thunks within v, through lists and disjunctions but not into nested structs. */
  function Reads(v: Value): set<string>
  {
    match v
    case Thunk(refs, _) => set r | r in refs
    case List(p, tl) => ReadsOfValues(p) + (match tl case Closed => {} case Open(e) => Reads(e))
    case Disj(bs) => ReadsOfBranches(bs)
    case _ => {}
  }

  function ReadsOfValues(vs: seq<Value>): set<string>
  {
    if vs == [] then {} else ReadsOfValues(vs[..|vs| - 1]) + Reads(vs[|vs| - 1])
  }

  function ReadsOfBranches(bs: seq<Branch>): set<string>
  {
    if bs == [] then {}
    else
      var last := bs[|bs| - 1];
      assert last.v < last;
      ReadsOfBranches(bs[..|bs| - 1]) + Reads(last.v)
  }

  function FieldNames(fs: seq<Field>): set<string>
  {
    if fs == [] then {} else FieldNames(fs[..|fs| - 1]) + {fs[|fs| - 1].name}
  }

  /** Every thunk of the fields reads only names among them. */
  predicate RefsDeclared(fs: seq<Field>)
  {
    forall i | 0 <= i < |fs| :: Reads(fs[i].val) <= FieldNames(fs)
  }

  function FieldLabel(l: Label): Option<string>
  {
    match l
    case Quoted(n) => Some(n)
    case Bare(n) => if n == "_" || (n != "" && (n[0] == '#' || n[0] == '_')) || IsTypeKeyword(n) then None else Some(n)
    case LabelBad => None
  }

  /** The struct built so far: its fields, and the meet of what was embedded. */
  datatype Built = Built(fields: seq<Field>, embedded: Option<Value>)

  function Finish(t: Tools, b: Built, compiling: bool): Res<Value>
  {
    if compiling && !RefsDeclared(b.fields) then Hard
    else if b.embedded.None? then Ok(Struct(b.fields, false))
    else if compiling && !(Reads(b.embedded.value) <= FieldNames(b.fields)) then Hard
    else if b.fields == [] then Ok(b.embedded.value)
    else Ok(t.meet(Struct(b.fields, false), b.embedded.value))
  }

  // ----- The evaluator -----

  function EvalExpr(t: Tools, e: Expr, scope: Option<Scope>): Res<Value>
    decreases e, 0
  {
    match e
    case Basic(l) => EvalLit(l)
    case Ident(n) => if Keyword(n).Some? then Ok(Keyword(n).value) else LookUp(n, scope)
    case Index(target, index) =>
      if !target.ListLit? then Hard
      else
        (match EvalExpr(t, index, scope)
         case Hard => Hard
         case Unresolved => Unresolved
         case Ok(k) =>
           if !(k.Con? && k.s.Int?) then Hard
           else
             match EvalItems(t, target.elems, scope)
             case Hard => Hard
             case Unresolved => Unresolved
             case Ok(vs) => if 0 <= k.s.i < |vs| then Ok(vs[k.s.i]) else Ok(Bottom))
    case Binary(op, x, y) =>
      if IsCompare(op) then Comparison(t, op, x, y, EvalExpr(t, x, scope), EvalExpr(t, y, scope))
      else if op.And? then
        (match EvalExpr(t, x, scope)
         case Hard => Hard
         case Unresolved => Unresolved
         case Ok(l) =>
           match EvalExpr(t, y, scope)
           case Hard => Hard
           case Unresolved => Unresolved
           case Ok(r) => if HasThunk(l) || HasThunk(r) then Ok(Thunk(FreeRefs(e), e)) else Ok(t.meet(l, r)))
      else if op.Or? then
        (match EvalBranches(t, x, false, scope)
         case Hard => Hard
         case Unresolved => Unresolved
         case Ok(a) =>
           match EvalBranches(t, y, false, scope)
           case Hard => Hard
           case Unresolved => Unresolved
           case Ok(b) => Ok(BuildDisjunction(a.0 + b.0, a.1 || b.1)))
      else Hard
    case Paren(x) => EvalExpr(t, x, scope)
    case ListLit(es) =>
      (match EvalList(t, es, scope)
       case Hard => Hard
       case Unresolved => Unresolved
       case Ok(l) => Ok(List(l.0, l.1)))
    case StructLit(ds) => EvalStruct(t, ds, scope)
    case Unary(uop, x) =>
      if uop.Mark? || uop.OtherUnary? then Hard
      else
        (match CompileExpr(t, x)
         case Ok(v) => UnaryOf(t, uop, v)
         case _ => Hard)
    case Call(fun, args) =>
      if |args| != 1 then Hard
      else
        (match CompileExpr(t, args[0])
         case Ok(v) =>
           if fun == Ident("close") then Closing(v)
           else if fun.Selector? && fun.base == Ident("strings") && fun.sel == Bare("MinRunes") then MinRunes(v)
           else Hard
         case _ => Hard)
    case Selector(_, _) => Hard
    case Interpolation(_) => Hard
  }

  /** Without a scope: what cannot resolve is deferred if it may be and reads some name, and refused otherwise. */
  function CompileExpr(t: Tools, e: Expr): (r: Res<Value>)
    ensures !r.Unresolved?
    decreases e, 1
  {
    match EvalExpr(t, e, None)
    case Ok(v) => Ok(v)
    case Hard => Hard
    case Unresolved => if Deferrable(e) && FreeRefs(e) != [] then Ok(Thunk(FreeRefs(e), e)) else Hard
  }

  /** A field value, list element or branch: it may be deferred at compile time only. */
  function EvalChild(t: Tools, e: Expr, scope: Option<Scope>): Res<Value>
    decreases e, 2
  {
    if scope.None? then CompileExpr(t, e) else EvalExpr(t, e, scope)
  }

  /** The branches under e, and whether a mark was met; a mark covers its whole operand. */
  function EvalBranches(t: Tools, e: Expr, marked: bool, scope: Option<Scope>): Res<(seq<Branch>, bool)>
    decreases e, 3
  {
    if e.Unary? && e.uop.Mark? then EvalBranches(t, e.operand, true, scope)
    else if e.Binary? && e.op.Or? then
      match EvalBranches(t, e.x, marked, scope)
      case Hard => Hard
      case Unresolved => Unresolved
      case Ok(a) =>
        match EvalBranches(t, e.y, marked, scope)
        case Hard => Hard
        case Unresolved => Unresolved
        case Ok(b) => Ok((a.0 + b.0, a.1 || b.1))
    else
      match EvalChild(t, e, scope)
      case Hard => Hard
      case Unresolved => Unresolved
      case Ok(v) => Ok((Flatten(v, marked), marked))
  }

  /** The elements an index may pick; an error anywhere outranks an element that must wait. */
  function EvalItems(t: Tools, es: seq<Elem>, scope: Option<Scope>): Res<seq<Value>>
    decreases es, 4
  {
    if es == [] then Ok([])
    else
      var el := es[0];
      var here: Res<seq<Value>> :=
        match el
        case Ellipsis(_) => Ok([])
        case CompElem(c) => assert c < el; EvalComp(t, c, scope)
        case Item(e) => assert e < el; match EvalExpr(t, e, scope) case Ok(v) => Ok([v]) case Hard => Hard case Unresolved => Unresolved;
      var rest := EvalItems(t, es[1..], scope);
      if here.Hard? || rest.Hard? then Hard
      else if here.Unresolved? || rest.Unresolved? then Unresolved
      else Ok(here.v + rest.v)
  }

  /** A list's prefix and tail, element by element up to the first failure. */
  function EvalList(t: Tools, es: seq<Elem>, scope: Option<Scope>): Res<(seq<Value>, Values.Tail)>
    decreases es, 4
  {
    if es == [] then Ok(([], Closed))
    else
      var n := |es| - 1;
      var el := es[n];
      match EvalList(t, es[..n], scope)
      case Hard => Hard
      case Unresolved => Unresolved
      case Ok(before) =>
        match el
        case Ellipsis(None) => Ok((before.0, Open(Top)))
        case Ellipsis(Some(typ)) =>
          assert typ < el.typ && el.typ < el;
          (match EvalChild(t, typ, scope)
           case Hard => Hard
           case Unresolved => Unresolved
           case Ok(v) => Ok((before.0, Open(v))))
        case CompElem(c) =>
          assert c < el;
          (match EvalComp(t, c, scope)
           case Hard => Hard
           case Unresolved => Unresolved
           case Ok(vs) => Ok((before.0 + vs, before.1)))
        case Item(e) =>
          assert e < el;
          match EvalChild(t, e, scope)
          case Hard => Hard
          case Unresolved => Unresolved
          case Ok(v) => Ok((before.0 + [v], before.1))
  }

  /** An `if` comprehension: its body, or nothing. A body that can never evaluate is refused while the condition waits. */
  function EvalComp(t: Tools, c: Comprehension, scope: Option<Scope>): Res<seq<Value>>
    decreases c, 4
  {
    if |c.clauses| != 1 || !c.clauses[0].If? || !c.body.StructLit? then Hard
    else
      var first := c.clauses[0];
      assert first.cond < first;
      match EvalExpr(t, first.cond, scope)
      case Hard => Hard
      case Unresolved => if EvalStruct(t, c.body.decls, scope).Hard? then Hard else Unresolved
      case Ok(b) =>
        if !(b.Con? && b.s.Bool?) then
          if IsConcrete(b) || EvalStruct(t, c.body.decls, scope).Hard? then Hard else Unresolved
        else
          match EvalStruct(t, c.body.decls, scope)
          case Hard => Hard
          case Unresolved => Unresolved
          case Ok(v) => Ok(if b.s.b then [v] else [])
  }

  function EvalStruct(t: Tools, ds: seq<Decl>, scope: Option<Scope>): Res<Value>
    decreases ds, 5
  {
    match EvalDecls(t, ds, scope)
    case Hard => Hard
    case Unresolved => Unresolved
    case Ok(b) => Finish(t, b, scope.None?)
  }

  function EvalDecls(t: Tools, ds: seq<Decl>, scope: Option<Scope>): Res<Built>
    decreases ds, 4
  {
    if ds == [] then Ok(Built([], None))
    else
      var n := |ds| - 1;
      var d := ds[n];
      match EvalDecls(t, ds[..n], scope)
      case Hard => Hard
      case Unresolved => Unresolved
      case Ok(b) =>
        match d
        case FieldDecl(lab, optional, value) =>
          assert value < d;
          if FieldLabel(lab).None? then Hard
          else
            (match EvalChild(t, value, scope)
             case Hard => Hard
             case Unresolved => Unresolved
             case Ok(v) => Ok(b.(fields := AppendOrUnify(t, b.fields, Field(FieldLabel(lab).value, v, optional)))))
        case Embed(e) =>
          assert e < d;
          (match EvalChild(t, e, scope)
           case Hard => Hard
           case Unresolved => Unresolved
           case Ok(v) => Ok(b.(embedded := Some(if b.embedded.None? then v else t.meet(b.embedded.value, v)))))
        case OpenDecl => Ok(b)
        case CompDecl(_) => Hard
  }

  // ----- A whole source -----

  /** A file is one embedded expression, or the fields of an implicit struct. */
  function CompileFile(t: Tools, ds: seq<Decl>): Res<Value>
  {
    if |ds| == 1 && ds[0].Embed? then CompileExpr(t, ds[0].e)
    else if exists i | 0 <= i < |ds| :: !ds[i].FieldDecl? then Hard
    else EvalStruct(t, ds, None)
  }

  /** The compiled value, unless some thunk has no struct to resolve in or a bottom is buried in it. */
  function CompileSource(t: Tools, ds: seq<Decl>): Option<Value>
  {
    match CompileFile(t, ds)
    case Ok(v) => if Reads(v) != {} || HasBottom(v) then None else Some(v)
    case _ => None
  }

  /** What a thunk's expression gives when forced in a scope. */
  function Forced(t: Tools, e: Expr, scope: Scope): Value
  {
    match EvalExpr(t, e, Some(scope))
    case Ok(v) => v
    case _ => Bottom
  }

  /** The closures of the thunks the compiler makes. */
  function Forcing(t: Tools): Closures
  {
    (e: Expr, s: Scope) => Forced(t, e, s)
  }

}
