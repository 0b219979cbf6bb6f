/**
  What an expression without references means, apart from how it is evaluated: the documents it admits.
  A relation holds of its operands' values, a choice admits what an alternative admits whatever its default,
  `&` what both sides admit, an `if` element counts when its condition does, and a field list constrains
  each key it names. `Regexes` compiles a pattern.
 */
module Meaning {

  import opened Wrappers
  import opened Syntax
  import opened Values
  import opened Semantics

  type Regexes = string -> Option<string -> bool>

  // ----- Scalars -----

  function Literal(l: Lit): Option<Scalar>
  {
    match l
    case LitStr(s) => Some(Str(s))
    case LitInt(i) => Some(Int(i))
    case LitFloat(f) => Some(Float(f))
    case LitBool(b) => Some(Bool(b))
    case LitNull => Some(Null)
    case LitBad => None
  }

  predicate NamedAdmits(name: string, g: Ground)
  {
    name == "_" || (g.GScalar? &&
      match g.s
      case Null => name == "null"
      case Bool(b) => name == "bool" || name == (if b then "true" else "false")
      case Str(_) => name == "string"
      case Int(_) => name == "int" || name == "number"
      case Float(_) => name == "float" || name == "number"
      case Bytes(_) => name == "bytes")
  }

  /** The order of a dictionary: a common start, then the end of x or a smaller character. */
  ghost predicate Before(x: string, y: string)
  {
    exists k: nat :: CutsAt(x, y, k)
  }

  predicate CutsAt(x: string, y: string, k: nat)
  {
    k <= |x| && k < |y| && x[..k] == y[..k] && (k == |x| || x[k] < y[k])
  }

  predicate IsNumber(a: Scalar) { a.Int? || a.Float? }

  function AsReal(a: Scalar): real
    requires IsNumber(a)
  {
    if a.Int? then a.i as real else a.f
  }

  predicate Comparable(a: Scalar, b: Scalar)
  {
    (IsNumber(a) && IsNumber(b)) || (a.Str? && b.Str?)
  }

  predicate Equal(a: Scalar, b: Scalar)
  {
    if IsNumber(a) && IsNumber(b) then AsReal(a) == AsReal(b) else a == b
  }

  ghost predicate Less(a: Scalar, b: Scalar)
    requires Comparable(a, b)
  {
    if a.Str? then Before(a.str, b.str) else AsReal(a) < AsReal(b)
  }

  ghost predicate Matches(m: Regexes, a: Scalar, b: Scalar)
    requires a.Str? && b.Str?
  {
    m(b.str).Some? && m(b.str).value(a.str)
  }

  /** `a op b` of two scalars. */
  ghost predicate Holds(m: Regexes, op: BinOp, a: Scalar, b: Scalar)
  {
    match op
    case Eql => Equal(a, b)
    case Neq => !Equal(a, b)
    case Lss => Comparable(a, b) && Less(a, b)
    case Leq => Comparable(a, b) && (Less(a, b) || Equal(a, b))
    case Gtr => Comparable(a, b) && Less(b, a)
    case Geq => Comparable(a, b) && (Less(b, a) || Equal(a, b))
    case Mat => a.Str? && b.Str? && Matches(m, a, b)
    case Nmat => a.Str? && b.Str? && m(b.str).Some? && !Matches(m, a, b)
    case _ => false
  }

  predicate Opposite(a: Scalar, b: Scalar)
  {
    IsNumber(a) && IsNumber(b) && a.Int? == b.Int? && AsReal(a) + AsReal(b) == 0.0
  }

  // ----- Expressions -----

  ghost predicate Admits(m: Regexes, g: Ground, e: Expr)
    decreases e, 0
  {
    match e
    case Basic(l) => Literal(l).Some? && g == GScalar(Literal(l).value)
    case Ident(n) => NamedAdmits(n, g)
    case Paren(x) => Admits(m, g, x)
    case Binary(op, x, y) =>
      if op.Or? then Admits(m, g, x) || Admits(m, g, y)
      else if op.And? then Admits(m, g, x) && Admits(m, g, y)
      else if !IsCompare(op) || !g.GScalar? || !g.s.Bool? then false
      else if op.Neq? then g.s.b == !(exists a, b :: Admits(m, GScalar(a), x) && Admits(m, GScalar(b), y) && Equal(a, b))
      else g.s.b == (exists a, b :: Admits(m, GScalar(a), x) && Admits(m, GScalar(b), y) && Holds(m, op, a, b))
    case Unary(uop, x) =>
      (match uop
       case Mark => Admits(m, g, x)
       case BoundBy(op) => g.GScalar? && exists k :: Admits(m, GScalar(k), x) && Comparable(g.s, k) && Holds(m, op, g.s, k)
       case Minus => g.GScalar? && exists k :: Admits(m, GScalar(k), x) && Opposite(g.s, k)
       case Plus => g.GScalar? && IsNumber(g.s) && Admits(m, g, x)
       case OtherUnary => false)
    case ListLit(es) =>
      && g.GList? && Count(m, es) <= |g.xs|
      && forall i :: 0 <= i < |g.xs| ==> if i < Count(m, es) then PickAdmits(m, g.xs[i], es, i) else TailAdmits(m, g.xs[i], es)
    case Index(target, index) =>
      target.ListLit? && exists k: nat :: Admits(m, GScalar(Int(k)), index) && PickAdmits(m, g, target.elems, k)
    case StructLit(ds) =>
      && (HasKeys(ds) || !HasEmbed(ds) ==> g.GStruct?)
      && forall i :: 0 <= i < |ds| ==> DeclAdmits(m, g, ds[i])
    case Call(fun, args) =>
      |args| == 1 &&
      if fun == Ident("close") then g.GStruct? && Admits(m, g, args[0]) && forall n <- g.m :: Declares(args[0], n)
      else
        fun == Selector(Ident("strings"), Bare("MinRunes")) && g.GScalar? && g.s.Str? &&
        exists n :: Admits(m, GScalar(Int(n)), args[0]) && |g.s.str| >= n
    case _ => false
  }

  /** An `if` element counts when its condition is true. */
  ghost predicate Kept(m: Regexes, c: Comprehension)
    decreases c, 0
  {
    |c.clauses| == 1 && c.clauses[0].If? && (assert c.clauses[0].cond < c.clauses[0]; Admits(m, GScalar(Bool(true)), c.clauses[0].cond))
  }

  ghost predicate Counts(m: Regexes, el: Elem)
    decreases el, 0
  {
    el.Item? || (el.CompElem? && Kept(m, el.comp))
  }

  ghost function Count(m: Regexes, es: seq<Elem>): nat
    decreases es, 0
  {
    if es == [] then 0 else (if Counts(m, es[0]) then 1 else 0) + Count(m, es[1..])
  }

  ghost predicate ElemAdmits(m: Regexes, g: Ground, el: Elem)
    decreases el, 0
  {
    match el
    case Item(e) => Admits(m, g, e)
    case CompElem(c) => Admits(m, g, c.body)
    case Ellipsis(typ) => typ.None? || Admits(m, g, typ.value)
  }

  /** The k-th element that counts admits g. */
  ghost predicate PickAdmits(m: Regexes, g: Ground, es: seq<Elem>, k: nat)
    decreases es, 0
  {
    es != [] &&
    if !Counts(m, es[0]) then PickAdmits(m, g, es[1..], k)
    else if k == 0 then ElemAdmits(m, g, es[0])
    else PickAdmits(m, g, es[1..], k - 1)
  }

  /** The last open tail admits g. */
  ghost predicate TailAdmits(m: Regexes, g: Ground, es: seq<Elem>)
    decreases es, 0
  {
    es != [] && if es[|es| - 1].Ellipsis? then ElemAdmits(m, g, es[|es| - 1]) else TailAdmits(m, g, es[..|es| - 1])
  }

  // ----- Field lists -----

  function KeyOf(lab: Label): Option<string>
  {
    if lab.LabelBad? then None else Some(lab.name)
  }

  predicate HasKeys(ds: seq<Decl>)
  {
    exists i | 0 <= i < |ds| :: ds[i].FieldDecl?
  }

  predicate HasEmbed(ds: seq<Decl>)
  {
    exists i | 0 <= i < |ds| :: ds[i].Embed?
  }

  ghost predicate DeclAdmits(m: Regexes, g: Ground, d: Decl)
    decreases d, 0
  {
    match d
    case FieldDecl(lab, optional, value) =>
      g.GStruct? && KeyOf(lab).Some? &&
      if KeyOf(lab).value in g.m then Admits(m, g.m[KeyOf(lab).value], value) else optional
    case Embed(e) => Admits(m, g, e)
    case OpenDecl => true
    case CompDecl(_) => false
  }

  /** The struct expression names the key n. */
  predicate Declares(e: Expr, n: string)
    decreases e, 0
  {
    match e
    case Paren(x) => Declares(x, n)
    case Binary(op, x, y) => op.And? && (Declares(x, n) || Declares(y, n))
    case StructLit(ds) => exists i | 0 <= i < |ds| :: DeclDeclares(ds[i], n)
    case Call(fun, args) => fun == Ident("close") && |args| == 1 && Declares(args[0], n)
    case _ => false
  }

  predicate DeclDeclares(d: Decl, n: string)
    decreases d, 0
  {
    match d
    case FieldDecl(lab, _, _) => KeyOf(lab) == Some(n)
    case Embed(e) => Declares(e, n)
    case _ => false
  }

  // ----- The order of strings -----

  /** The recursive order of the evaluator is the order of a dictionary. */
  lemma {:induction false} StrLtIsBefore(x: string, y: string)
    ensures StrLt(x, y) <==> Before(x, y)
  {
    if x == "" || y == "" {
      if y != "" { assert CutsAt(x, y, 0); }
    } else {
      StrLtIsBefore(x[1..], y[1..]);
      if x[0] < y[0] { assert CutsAt(x, y, 0); }
      if x[0] == y[0] {
        if Before(x[1..], y[1..]) {
          var k: nat :| CutsAt(x[1..], y[1..], k);
          assert x[..k + 1] == [x[0]] + x[1..][..k] && y[..k + 1] == [y[0]] + y[1..][..k];
          assert CutsAt(x, y, k + 1);
        }
      }
      if Before(x, y) {
        var k: nat :| CutsAt(x, y, k);
        if k > 0 {
          assert x[..k][0] == y[..k][0] && x[1..][..k - 1] == x[..k][1..] && y[1..][..k - 1] == y[..k][1..];
          assert CutsAt(x[1..], y[1..], k - 1);
        }
      }
    }
  }

}
