/** The expressions of a schema source, as the parser hands them over, and the sibling names they read. */
module Syntax {

  import opened Wrappers

  /** A literal; LitBad is one the subset refuses (bytes, out of range, malformed). */
  datatype Lit = LitStr(s: string) | LitInt(i: int) | LitFloat(f: real) | LitBool(b: bool) | LitNull | LitBad

  datatype BinOp = Eql | Neq | Geq | Leq | Gtr | Lss | Mat | Nmat | And | Or | OtherOp

  datatype UnOp = BoundBy(op: BinOp) | Mark | Minus | Plus | OtherUnary

  /** A label; LabelBad is a quoted one that does not decode. */
  datatype Label = Bare(name: string) | Quoted(name: string) | LabelBad

  datatype Expr =
    | Basic(lit: Lit)
    | Ident(name: string)
    | Index(target: Expr, index: Expr)
    | Binary(op: BinOp, x: Expr, y: Expr)
    | Paren(inner: Expr)
    | ListLit(elems: seq<Elem>)
    | StructLit(decls: seq<Decl>)
    | Unary(uop: UnOp, operand: Expr)
    | Call(fun: Expr, args: seq<Expr>)
    | Selector(base: Expr, sel: Label)
    | Interpolation(parts: seq<Expr>)

  /** A list element: an open tail, a comprehension, or an expression. */
  datatype Elem = Ellipsis(typ: Option<Expr>) | CompElem(comp: Comprehension) | Item(e: Expr)

  datatype Comprehension = Comprehension(clauses: seq<Clause>, body: Expr)

  datatype Clause = If(cond: Expr) | Let(name: string, e: Expr) | For(vars: seq<string>, source: Expr)

  datatype Decl = FieldDecl(lab: Label, optional: bool, value: Expr) | Embed(e: Expr) | OpenDecl | CompDecl(comp: Comprehension)

  // ----- Names -----

  /** Every identifier of the expression in order; labels and selected members are keys, not names. */
  function Names(e: Expr): seq<string>
    decreases e, 0
  {
    match e
    case Basic(_) => []
    case Ident(n) => [n]
    case Index(t, i) => Names(t) + Names(i)
    case Binary(_, x, y) => Names(x) + Names(y)
    case Paren(x) => Names(x)
    case ListLit(es) => ElemNames(es)
    case StructLit(ds) => DeclNames(ds)
    case Unary(_, x) => Names(x)
    case Call(f, args) => Names(f) + ExprNames(args)
    case Selector(x, _) => Names(x)
    case Interpolation(ps) => ExprNames(ps)
  }

  function ExprNames(es: seq<Expr>): seq<string>
    decreases es, 1
  {
    if es == [] then [] else Names(es[0]) + ExprNames(es[1..])
  }

  function ElemNames(es: seq<Elem>): seq<string>
    decreases es, 1
  {
    if es == [] then []
    else
      var el := es[0];
      (match el
       case Ellipsis(None) => []
       case Ellipsis(Some(e)) => assert e < el.typ && el.typ < el; Names(e)
       case CompElem(c) => assert c < el; CompNames(c)
       case Item(e) => assert e < el; Names(e)) + ElemNames(es[1..])
  }

  function CompNames(c: Comprehension): seq<string>
    decreases c, 1
  {
    ClauseNames(c.clauses) + Names(c.body)
  }

  function ClauseNames(cs: seq<Clause>): seq<string>
    decreases cs, 1
  {
    if cs == [] then []
    else
      var c := cs[0];
      (match c
       case If(e) => assert e < c; Names(e)
       case Let(n, e) => assert e < c; [n] + Names(e)
       case For(vs, e) => assert e < c; vs + Names(e)) + ClauseNames(cs[1..])
  }

  function DeclNames(ds: seq<Decl>): seq<string>
    decreases ds, 1
  {
    if ds == [] then []
    else
      var d := ds[0];
      (match d
       case FieldDecl(_, _, e) => assert e < d; Names(e)
       case Embed(e) => assert e < d; Names(e)
       case OpenDecl => []
       case CompDecl(c) => assert c < d; CompNames(c)) + DeclNames(ds[1..])
  }

  predicate IsReference(name: string)
  {
    name !in {"_", "null", "true", "false", "string", "int", "float", "number", "bool", "bytes"}
  }

  predicate IsTypeKeyword(name: string)
  {
    name in {"string", "int", "float", "number", "bool", "bytes"}
  }

  /** The distinct references in order of first occurrence. */
  function Distinct(names: seq<string>): (r: seq<string>)
    ensures forall n :: n in r <==> n in names && IsReference(n)
  {
    if names == [] then []
    else
      var last := names[|names| - 1];
      var front := Distinct(names[..|names| - 1]);
      assert names == names[..|names| - 1] + [last];
      if IsReference(last) && last !in front then front + [last] else front
  }

  /** The sibling fields a deferred expression depends on. */
  function FreeRefs(e: Expr): (r: seq<string>)
    ensures forall n :: n in r <==> n in Names(e) && IsReference(n)
  {
    Distinct(Names(e))
  }

  predicate IsCompare(op: BinOp)
  {
    !op.And? && !op.Or? && !op.OtherOp?
  }

  predicate IsOrdered(op: BinOp)
  {
    op.Geq? || op.Leq? || op.Gtr? || op.Lss?
  }

  /** Syntactically a comparison, hence a bool whatever its operands are. */
  predicate IsComparison(e: Expr)
  {
    match e
    case Paren(x) => IsComparison(x)
    case Binary(op, _, _) => IsCompare(op)
    case _ => false
  }

  /** May wait for a sibling: an index expression, a list literal or a comparison. */
  predicate Deferrable(e: Expr)
  {
    match e
    case Paren(x) => Deferrable(x)
    case Index(_, _) => true
    case ListLit(_) => true
    case Binary(op, _, _) => IsCompare(op)
    case _ => false
  }

  // ----- Where deferred expressions may stay -----

  /** Compiled, the expression is no deferred one and holds none as a list element or branch. */
  predicate Inert(e: Expr)
    decreases e, 0
  {
    match e
    case Paren(x) => Inert(x)
    case Index(_, _) => FreeRefs(e) == []
    case Binary(op, x, y) => if IsCompare(op) then FreeRefs(e) == [] else Inert(x) && Inert(y)
    case Unary(uop, x) => uop.Mark? ==> Inert(x)
    case ListLit(es) => FreeRefs(e) == [] || InertElems(es)
    case _ => true
  }

  predicate InertElem(el: Elem)
    decreases el, 1
  {
    match el
    case Ellipsis(None) => true
    case Ellipsis(Some(typ)) => assert typ < el.typ && el.typ < el; Inert(typ)
    case CompElem(_) => false
    case Item(x) => assert x < el; Inert(x)
  }

  predicate InertElems(es: seq<Elem>)
    decreases es, 2
  {
    forall i | 0 <= i < |es| :: InertElem(es[i])
  }

  /**
    Deferred expressions stand only as fields or list elements, directly or within lists: no alternative
    of a disjunction is or holds one, and no open tail of a list.
   */
  predicate NeatExpr(e: Expr)
    decreases e, 0
  {
    match e
    case Index(t, i) => NeatExpr(t) && NeatExpr(i)
    case Binary(op, x, y) => NeatExpr(x) && NeatExpr(y) && (op.Or? ==> Inert(x) && Inert(y))
    case Paren(x) => NeatExpr(x)
    case ListLit(es) => NeatElems(es)
    case StructLit(ds) => NeatDecls(ds)
    case Unary(_, x) => NeatExpr(x)
    case Call(f, args) => NeatExpr(f) && NeatExprs(args)
    case Selector(x, _) => NeatExpr(x)
    case Interpolation(ps) => NeatExprs(ps)
    case _ => true
  }

  predicate NeatExprs(es: seq<Expr>)
    decreases es, 1
  {
    es != [] ==> NeatExpr(es[0]) && NeatExprs(es[1..])
  }

  predicate NeatElem(el: Elem)
    decreases el, 1
  {
    match el
    case Ellipsis(None) => true
    case Ellipsis(Some(typ)) => assert typ < el.typ && el.typ < el; NeatExpr(typ) && Inert(typ)
    case CompElem(c) => assert c < el; NeatComp(c)
    case Item(x) => assert x < el; NeatExpr(x)
  }

  predicate NeatElems(es: seq<Elem>)
    decreases es, 2
  {
    forall i | 0 <= i < |es| :: NeatElem(es[i])
  }

  predicate NeatComp(c: Comprehension)
    decreases c, 1
  {
    && NeatExpr(c.body)
    && forall i | 0 <= i < |c.clauses| ::
         var cl := c.clauses[i];
         match cl
         case If(x) => assert x < cl; NeatExpr(x)
         case _ => true
  }

  predicate NeatDecl(d: Decl)
    decreases d, 1
  {
    match d
    case FieldDecl(_, _, x) => assert x < d; NeatExpr(x)
    case Embed(x) => assert x < d; NeatExpr(x)
    case OpenDecl => true
    case CompDecl(c) => assert c < d; NeatComp(c)
  }

  predicate NeatDecls(ds: seq<Decl>)
    decreases ds, 2
  {
    forall i | 0 <= i < |ds| :: NeatDecl(ds[i])
  }

}
