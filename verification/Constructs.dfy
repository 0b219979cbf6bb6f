/**
  Construct by construct: if the operands of an expression evaluate to what they mean, so does the expression.
  `strict` asks for both directions; without it what is evaluated may admit fewer documents.
 */
module Constructs {

  import opened Wrappers
  import opened Syntax
  import opened Values
  import opened Semantics
  import opened Meet
  import opened MeetSound
  import opened MeetWf
  import opened Eval
  import opened Meaning
  import opened Combining

  function PlainTools(m: Regexes): Tools
  {
    Tools((a: Value, b: Value) => Unify(a, b), m)
  }

  /** The value admits only what the expression means, and all of it if strict. */
  ghost predicate Means(m: Regexes, v: Value, e: Expr, strict: bool)
  {
    forall g :: (Member(g, v) ==> Admits(m, g, e)) && (strict && Admits(m, g, e) ==> Member(g, v))
  }

  lemma MeansAt(m: Regexes, v: Value, e: Expr, strict: bool, g: Ground)
    requires Means(m, v, e, strict)
    ensures Member(g, v) ==> Admits(m, g, e)
    ensures strict && Admits(m, g, e) ==> Member(g, v)
  {
    hide Member, Admits;
  }

  // ----- Literals and names -----

  lemma LiteralMeans(m: Regexes, l: Lit, strict: bool)
    requires EvalLit(l).Ok?
    ensures Wf(EvalLit(l).v) && Means(m, EvalLit(l).v, Basic(l), strict)
  {
  }

  /** The names that are no references are exactly the keywords. */
  lemma KeywordsAreNoReferences(n: string)
    ensures IsReference(n) <==> Keyword(n).None?
    ensures IsTypeKeyword(n) <==> Keyword(n).Some? && Keyword(n).value.Atom?
  {
  }

  lemma NameIs(n: string)
    requires !IsReference(n)
    ensures Keyword(n).Some? && !Keyword(n).value.Thunk? && Wf(Keyword(n).value)
    ensures Keyword(n).value.Top? || Keyword(n).value.Con? || Keyword(n).value.Atom?
  {
  }

  lemma NameAdmits(n: string, g: Ground)
    requires !IsReference(n) && Keyword(n).Some?
    ensures Member(g, Keyword(n).value) <==> NamedAdmits(n, g)
  {
    if n == "_" {
    } else if n == "null" || n == "true" || n == "false" {
    } else if g.GScalar? {
      assert Keyword(n).value.Atom?;
    }
    hide IsConcrete;
  }

  lemma NameMeans(m: Regexes, n: string, strict: bool)
    requires !IsReference(n)
    ensures Keyword(n).Some? && Wf(Keyword(n).value) && Means(m, Keyword(n).value, Ident(n), strict)
  {
    hide Keyword, NamedAdmits, Member, Wf;
    NameIs(n);
    forall g ensures Member(g, Keyword(n).value) <==> Admits(m, g, Ident(n)) { NameAdmits(n, g); }
  }

  // ----- Bounds and signs -----

  /** What a scalar operand of a larger expression admits. */
  lemma OnlyScalar(m: Regexes, k: Scalar, x: Expr, strict: bool)
    requires Means(m, Con(k), x, strict)
    ensures Admits(m, GScalar(k), x) && (strict ==> forall j :: Admits(m, GScalar(j), x) ==> j == k)
  {
    hide Admits;
    assert Member(GScalar(k), Con(k));
  }

  lemma NumberBound(m: Regexes, op: BinOp, s: Scalar, k: Scalar, bd: Bound)
    requires IsNumber(k) && IsCompare(op) && !op.Eql? && !op.Mat? && !op.Nmat?
    requires bd.op == BoundOpOf(op) && bd.num == AsReal(k) && !bd.isStr
    ensures SatisfiesAtom(s, AkNumber) && SatisfiesBound(s, bd) <==> Comparable(s, k) && Holds(m, op, s, k)
  {
    hide Before;
  }

  lemma StringBound(m: Regexes, op: BinOp, s: Scalar, k: Scalar, bd: Bound)
    requires k.Str? && IsCompare(op) && !op.Eql? && !op.Mat? && !op.Nmat?
    requires bd.op == BoundOpOf(op) && bd.str == k.str && bd.isStr
    ensures SatisfiesAtom(s, AkString) && SatisfiesBound(s, bd) <==> Comparable(s, k) && Holds(m, op, s, k)
  {
    if s.Str? {
      StrLtIsBefore(s.str, k.str);
      StrLtIsBefore(k.str, s.str);
      StrLtTotal(s.str, k.str);
    }
    hide Before, StrLt;
  }

  lemma PatternBound(m: Regexes, op: BinOp, s: Scalar, k: Scalar, bd: Bound)
    requires k.Str? && (op.Mat? || op.Nmat?) && m(k.str) == Some(bd.re) && bd.op == BoundOpOf(op)
    ensures SatisfiesAtom(s, AkString) && SatisfiesBound(s, bd) <==> Comparable(s, k) && Holds(m, op, s, k)
  {
  }

  lemma OneBound(a: AtomKind, bd: Bound)
    requires BoundFits(a, bd)
    ensures Wf(Bounded(a, [bd]))
    ensures forall s :: SatisfiesBounds(s, [bd]) <==> SatisfiesBound(s, bd)
  {
    hide SatisfiesBound;
    forall s ensures SatisfiesBounds(s, [bd]) <==> SatisfiesBound(s, bd) { assert [bd][0] == bd; }
  }

  /** A bound admits the scalars of its kind that stand in the relation to the operand. */
  lemma BoundAdmits(m: Regexes, op: BinOp, k: Scalar)
    requires BoundFromOperand(PlainTools(m), op, Con(k)).Ok?
    ensures var v := BoundFromOperand(PlainTools(m), op, Con(k)).v;
            && Wf(v) && v.Bounded?
            && forall g :: Member(g, v) <==> g.GScalar? && Comparable(g.s, k) && Holds(m, op, g.s, k)
  {
    hide SatisfiesBound, SatisfiesAtom, Holds, Comparable, SatisfiesBounds;
    var v := BoundFromOperand(PlainTools(m), op, Con(k)).v;
    OneBound(v.base, v.bounds[0]);
    assert v == Bounded(v.base, [v.bounds[0]]);
    forall s ensures SatisfiesAtom(s, v.base) && SatisfiesBounds(s, v.bounds) <==> Comparable(s, k) && Holds(m, op, s, k) {
      if op.Mat? || op.Nmat? {
        PatternBound(m, op, s, k, v.bounds[0]);
      } else if k.Str? {
        StringBound(m, op, s, k, v.bounds[0]);
      } else {
        NumberBound(m, op, s, k, v.bounds[0]);
      }
    }
  }

  lemma BoundMeans(m: Regexes, op: BinOp, x: Expr, operand: Value, strict: bool)
    requires Means(m, operand, x, strict) && BoundFromOperand(PlainTools(m), op, operand).Ok?
    ensures var v := BoundFromOperand(PlainTools(m), op, operand).v;
            Wf(v) && Means(m, v, Unary(BoundBy(op), x), strict)
  {
    assert operand.Con?;
    var k, v := operand.s, BoundFromOperand(PlainTools(m), op, operand).v;
    var e := Unary(BoundBy(op), x);
    BoundAdmits(m, op, k);
    OnlyScalar(m, k, x, strict);
    hide Wf, Member, Holds, Comparable, BoundFromOperand, Means;
    forall g ensures Member(g, v) ==> Admits(m, g, e) { if Member(g, v) { assert Admits(m, GScalar(k), x); } }
    forall g | strict && Admits(m, g, e) ensures Member(g, v) {
      var j :| Admits(m, GScalar(j), x) && Comparable(g.s, j) && Holds(m, op, g.s, j);
    }
    MeansBy(m, v, e, strict);
  }

  lemma MeansBy(m: Regexes, v: Value, e: Expr, strict: bool)
    requires forall g :: Member(g, v) ==> Admits(m, g, e)
    requires strict ==> forall g :: Admits(m, g, e) ==> Member(g, v)
    ensures Means(m, v, e, strict)
  {
    hide Member, Admits;
  }

  lemma MinusMeans(m: Regexes, x: Expr, operand: Value, strict: bool)
    requires Means(m, operand, x, strict) && Negated(operand).Ok?
    ensures Wf(Negated(operand).v) && Means(m, Negated(operand).v, Unary(Minus, x), strict)
  {
    var k, r, e := operand.s, Negated(operand).v, Unary(Minus, x);
    OnlyScalar(m, k, x, strict);
    assert Opposite(r.s, k) && forall j :: Opposite(j, k) ==> j == r.s;
    hide Means, Opposite;
    forall g ensures Member(g, r) ==> Admits(m, g, e) { if Member(g, r) { assert Admits(m, GScalar(k), x); } }
    forall g | strict && Admits(m, g, e) ensures Member(g, r) {
      var j :| Admits(m, GScalar(j), x) && Opposite(g.s, j);
    }
    MeansBy(m, r, e, strict);
  }

  lemma PlusMeans(m: Regexes, x: Expr, operand: Value, strict: bool)
    requires Means(m, operand, x, strict) && operand.Con? && (operand.s.Int? || operand.s.Float?)
    ensures Means(m, operand, Unary(Plus, x), strict)
  {
    var e := Unary(Plus, x);
    forall g ensures (Member(g, operand) ==> Admits(m, g, e)) && (strict && Admits(m, g, e) ==> Member(g, operand)) {
      MeansAt(m, operand, x, strict, g);
    }
  }

  lemma MinRunesMeans(m: Regexes, fun: Expr, x: Expr, operand: Value, strict: bool)
    requires Means(m, operand, x, strict) && MinRunes(operand).Ok? && fun == Selector(Ident("strings"), Bare("MinRunes"))
    ensures Wf(MinRunes(operand).v) && Means(m, MinRunes(operand).v, Call(fun, [x]), strict)
  {
    var n, v, e := operand.s.i, MinRunes(operand).v, Call(fun, [x]);
    OnlyScalar(m, operand.s, x, strict);
    OneBound(v.base, v.bounds[0]);
    assert v == Bounded(v.base, [v.bounds[0]]);
    forall g ensures Member(g, v) <==> g.GScalar? && g.s.Str? && |g.s.str| >= n {}
    hide Means, Member;
    assert [x][0] == x;
    forall g ensures Member(g, v) ==> Admits(m, g, e) { if Member(g, v) { assert Admits(m, GScalar(Int(n)), x); } }
    forall g | strict && Admits(m, g, e) ensures Member(g, v) {
      var j :| Admits(m, GScalar(Int(j)), x) && |g.s.str| >= j;
      assert Int(j) == operand.s;
    }
    MeansBy(m, v, e, strict);
  }

  // ----- Comparisons -----

  predicate NoChoice(r: Res<Value>)
  {
    r.Ok? ==> !r.v.Disj?
  }

  lemma NoScalars(m: Regexes, v: Value, x: Expr)
    requires Means(m, v, x, true) && IsConcrete(v) && !v.Disj? && !v.Con?
    ensures forall k :: !Admits(m, GScalar(k), x)
  {
    hide Admits;
    forall k ensures !Member(GScalar(k), v) {}
  }

  lemma EqualIs(a: Scalar, b: Scalar)
    ensures NumericAwareEqual(Con(a), Con(b)) <==> Equal(a, b)
  {
  }

  ghost predicate SomeEqual(m: Regexes, x: Expr, y: Expr)
  {
    exists a, b :: Admits(m, GScalar(a), x) && Admits(m, GScalar(b), y) && Equal(a, b)
  }

  ghost predicate SomeHold(m: Regexes, op: BinOp, x: Expr, y: Expr)
  {
    exists a, b :: Admits(m, GScalar(a), x) && Admits(m, GScalar(b), y) && Holds(m, op, a, b)
  }

  lemma EqualMeans(m: Regexes, x: Expr, y: Expr, l: Value, r: Value)
    requires Means(m, l, x, true) && Means(m, r, y, true) && IsConcrete(l) && IsConcrete(r) && !l.Disj? && !r.Disj?
    ensures NumericAwareEqual(l, r) <==> SomeEqual(m, x, y)
  {
    hide *;
    if l.Con? && r.Con? {
      OnlyScalar(m, l.s, x, true);
      OnlyScalar(m, r.s, y, true);
      EqualIs(l.s, r.s);
      OnlyPair(m, x, y, l.s, r.s);
    } else {
      if !l.Con? { NoScalars(m, l, x); } else { NoScalars(m, r, y); }
      NoPair(m, x, y);
      OnlyScalarsEqual(l, r);
    }
  }

  lemma OnlyPair(m: Regexes, x: Expr, y: Expr, a: Scalar, b: Scalar)
    requires Admits(m, GScalar(a), x) && forall j :: Admits(m, GScalar(j), x) ==> j == a
    requires Admits(m, GScalar(b), y) && forall j :: Admits(m, GScalar(j), y) ==> j == b
    ensures SomeEqual(m, x, y) <==> Equal(a, b)
  {
    hide Admits, Equal;
  }

  lemma NoPair(m: Regexes, x: Expr, y: Expr)
    requires (forall k :: !Admits(m, GScalar(k), x)) || (forall k :: !Admits(m, GScalar(k), y))
    ensures !SomeEqual(m, x, y)
  {
    hide Admits, Equal;
  }

  lemma OnlyScalarsEqual(l: Value, r: Value)
    requires !l.Con? || !r.Con?
    ensures !NumericAwareEqual(l, r)
  {
  }

  lemma HoldsIs(m: Regexes, op: BinOp, a: Scalar, b: Scalar)
    requires IsCompare(op) && CompareConcrete(PlainTools(m), op, Con(a), Con(b)).Ok?
    ensures CompareConcrete(PlainTools(m), op, Con(a), Con(b)).v <==> Holds(m, op, a, b)
  {
    EqualIs(a, b);
    if a.Str? && b.Str? {
      StrLtIsBefore(a.str, b.str);
      StrLtIsBefore(b.str, a.str);
      StrLtTotal(a.str, b.str);
    }
    hide Before, StrLt;
  }

  lemma OrderMeans(m: Regexes, op: BinOp, x: Expr, y: Expr, l: Value, r: Value)
    requires Means(m, l, x, true) && Means(m, r, y, true) && IsCompare(op) && !op.Neq? && !op.Eql?
    requires CompareConcrete(PlainTools(m), op, l, r).Ok?
    ensures CompareConcrete(PlainTools(m), op, l, r).v <==> SomeHold(m, op, x, y)
  {
    assert l.Con? && r.Con?;
    OnlyScalar(m, l.s, x, true);
    OnlyScalar(m, r.s, y, true);
    HoldsIs(m, op, l.s, r.s);
    hide Admits, Means, Holds, CompareConcrete;
  }

  /** A comparison of closed operands is the truth of the relation between their values. */
  lemma CompareMeans(m: Regexes, op: BinOp, x: Expr, y: Expr, l: Value, r: Value, strict: bool)
    requires IsCompare(op) && Means(m, l, x, true) && Means(m, r, y, true)
    requires IsConcrete(l) && IsConcrete(r) && !l.Disj? && !r.Disj? && CompareConcrete(PlainTools(m), op, l, r).Ok?
    ensures Means(m, Con(Bool(CompareConcrete(PlainTools(m), op, l, r).v)), Binary(op, x, y), strict)
  {
    var e, v := Binary(op, x, y), Con(Bool(CompareConcrete(PlainTools(m), op, l, r).v));
    if op.Eql? || op.Neq? {
      EqualMeans(m, x, y, l, r);
    } else {
      OrderMeans(m, op, x, y, l, r);
    }
    assert op.Eql? ==> (SomeHold(m, op, x, y) <==> SomeEqual(m, x, y));
    hide Means, IsConcrete, Holds, Equal;
    forall g ensures Admits(m, g, e) <==> Member(g, v) {
      TruthAdmits(m, g, op, x, y);
    }
    MeansBy(m, v, e, strict);
  }

  lemma TruthAdmits(m: Regexes, g: Ground, op: BinOp, x: Expr, y: Expr)
    requires IsCompare(op)
    ensures Admits(m, g, Binary(op, x, y)) <==>
            g == GScalar(Bool(if op.Neq? then !SomeEqual(m, x, y) else SomeHold(m, op, x, y)))
  {
    hide Holds, Equal;
  }

  // ----- Meets and choices -----

  lemma AndMeans(m: Regexes, x: Expr, y: Expr, l: Value, r: Value, strict: bool)
    requires Wf(l) && Wf(r) && Means(m, l, x, strict) && Means(m, r, y, strict) && (strict ==> Combines(l, r))
    ensures Wf(Unify(l, r)) && Means(m, Unify(l, r), Binary(And, x, y), strict)
  {
    hide *;
    var v, e := Unify(l, r), Binary(And, x, y);
    MeetIsWf(l, r);
    forall g ensures Member(g, v) ==> Admits(m, g, e) {
      AndAdmits(m, g, x, y);
      if Member(g, v) {
        MeetIsSound(l, r, g);
        MeansAt(m, l, x, strict, g);
        MeansAt(m, r, y, strict, g);
      }
    }
    forall g | strict && Admits(m, g, e) ensures Member(g, v) {
      AndAdmits(m, g, x, y);
      MeansAt(m, l, x, strict, g);
      MeansAt(m, r, y, strict, g);
      CombinesKeeps(l, r, g);
    }
    MeansBy(m, v, e, strict);
  }

  lemma AndAdmits(m: Regexes, g: Ground, x: Expr, y: Expr)
    ensures Admits(m, g, Binary(And, x, y)) <==> Admits(m, g, x) && Admits(m, g, y)
  {
  }

  /** What is said of branches: well-formed, not nested, and together what the expression means. */
  ghost predicate BranchesMean(m: Regexes, bs: seq<Branch>, e: Expr, strict: bool)
  {
    && (forall b <- bs :: Wf(b.v) && !b.v.Disj?)
    && forall g :: (SomeAdmits(g, bs) ==> Admits(m, g, e)) && (strict && Admits(m, g, e) ==> SomeAdmits(g, bs))
  }

  lemma FlatMeans(m: Regexes, v: Value, marked: bool, e: Expr, strict: bool)
    requires Wf(v) && Means(m, v, e, strict)
    ensures BranchesMean(m, Flatten(v, marked), e, strict)
  {
    var bs := Flatten(v, marked);
    assert v.Disj? ==> |bs| == |v.branches| && forall i | 0 <= i < |bs| :: bs[i].v == v.branches[i].v;
    assert !v.Disj? ==> |bs| == 1 && bs[0].v == v;
    forall g ensures SomeAdmits(g, bs) <==> Member(g, v) {
      if v.Disj? && Member(g, v) {
        var i :| 0 <= i < |v.branches| && Member(g, v.branches[i].v);
        assert Member(g, bs[i].v);
      }
      if !v.Disj? && Member(g, v) { assert Member(g, bs[0].v); }
    }
    hide Member, Admits;
  }

  lemma JoinAdmits(g: Ground, a: seq<Branch>, b: seq<Branch>)
    ensures SomeAdmits(g, a + b) <==> SomeAdmits(g, a) || SomeAdmits(g, b)
  {
    hide Member;
    if SomeAdmits(g, a) {
      var i :| 0 <= i < |a| && Member(g, a[i].v);
      assert (a + b)[i] == a[i];
    }
    if SomeAdmits(g, b) {
      var i :| 0 <= i < |b| && Member(g, b[i].v);
      assert (a + b)[|a| + i] == b[i];
    }
  }

  lemma JoinMeans(m: Regexes, a: seq<Branch>, b: seq<Branch>, x: Expr, y: Expr, strict: bool)
    requires BranchesMean(m, a, x, strict) && BranchesMean(m, b, y, strict)
    ensures BranchesMean(m, a + b, Binary(Or, x, y), strict)
  {
    hide Member, Wf, SomeAdmits;
    var e := Binary(Or, x, y);
    forall g ensures (SomeAdmits(g, a + b) ==> Admits(m, g, e)) && (strict && Admits(m, g, e) ==> SomeAdmits(g, a + b)) {
      JoinAdmits(g, a, b);
    }
  }

  lemma MarkMeans(m: Regexes, bs: seq<Branch>, x: Expr, strict: bool)
    requires BranchesMean(m, bs, x, strict)
    ensures BranchesMean(m, bs, Unary(Mark, x), strict)
  {
    hide Wf, SomeAdmits;
    forall g ensures Admits(m, g, Unary(Mark, x)) <==> Admits(m, g, x) {}
    hide Admits;
  }

  lemma OrMeans(m: Regexes, bs: seq<Branch>, hasMark: bool, e: Expr, strict: bool)
    requires BranchesMean(m, bs, e, strict) && (strict ==> Folds(bs))
    ensures Wf(BuildDisjunction(bs, hasMark)) && Means(m, BuildDisjunction(bs, hasMark), e, strict)
  {
    BuildAdmits(bs, hasMark);
    hide Wf, Member, Admits, SomeAdmits, BuildDisjunction, Folds;
  }

}
