/**
  An independent meaning for values: the set of ground documents each one admits.
  Also the well-formedness every compiled or lifted value has, and the string-order facts
  that make a clash of bounds a genuine contradiction.
 */
module Semantics {

  import opened Values

  /** A document: what a front-matter decoder produces. */
  datatype Ground = GScalar(s: Scalar) | GStruct(m: map<string, Ground>) | GList(xs: seq<Ground>)

  /**
    g satisfies the constraint v. An optional field may be absent; a closed struct admits no other
    key; a disjunction admits what any branch admits, whatever its default.
   */
  ghost predicate Member(g: Ground, v: Value)
    decreases v
  {
    match v
    case Bottom => false
    case Thunk(_, _) => false
    case Top => true
    case Con(s) => g == GScalar(s)
    case Atom(a) => g.GScalar? && SatisfiesAtom(g.s, a)
    case Bounded(a, bs) => g.GScalar? && SatisfiesAtom(g.s, a) && SatisfiesBounds(g.s, bs)
    case Disj(bs) => exists i :: 0 <= i < |bs| && Member(g, bs[i].v)
    case Struct(fs, closed) =>
      && g.GStruct?
      && (forall i :: 0 <= i < |fs| ==>
            if fs[i].name in g.m then Member(g.m[fs[i].name], fs[i].val) else fs[i].optional)
      && (closed ==> forall k <- g.m :: HasField(fs, k))
    case List(p, t) =>
      && g.GList?
      && |p| <= |g.xs|
      && (forall i :: 0 <= i < |p| ==> Member(g.xs[i], p[i]))
      && (match t
          case Closed => |p| == |g.xs|
          case Open(e) => forall i :: |p| <= i < |g.xs| ==> Member(g.xs[i], e))
  }

  // ----- Well-formed values -----

  /** A bound compares against its base type's operands: strings for string, numbers for the rest. */
  predicate BoundFits(a: AtomKind, bd: Bound)
  {
    if a.AkString? then !bd.IsRelational() || bd.isStr
    else (a.AkInt? || a.AkFloat? || a.AkNumber?) && bd.IsRelational() && !bd.isStr
  }

  predicate BoundsFit(a: AtomKind, bs: seq<Bound>)
  {
    forall i | 0 <= i < |bs| :: BoundFits(a, bs[i])
  }

  /** Free of thunks, names unique, disjunctions of at least two live branches, bounds that fit and do not clash. */
  predicate Wf(v: Value)
  {
    match v
    case Bounded(a, bs) => BoundsFit(a, bs) && !IncompatibleBounds(bs)
    case Disj(bs) => |bs| >= 2 && forall i | 0 <= i < |bs| :: Wf(bs[i].v) && !bs[i].v.Disj? && !bs[i].v.Bottom?
    case Struct(fs, _) => UniqueNames(fs) && forall i | 0 <= i < |fs| :: Wf(fs[i].val)
    case List(p, t) => (forall i | 0 <= i < |p| :: Wf(p[i])) && (t.Open? ==> Wf(t.elem))
    case Thunk(_, _) => false
    case _ => true
  }

  // ----- The order of strings -----

  lemma {:induction false} StrLtTrans(x: string, y: string, z: string)
    requires StrLt(x, y) && StrLt(y, z)
    ensures StrLt(x, z)
  {
    if x != "" && x[0] == y[0] && y[0] == z[0] { StrLtTrans(x[1..], y[1..], z[1..]); }
  }

  lemma {:induction false} StrLtTotal(x: string, y: string)
    ensures x != y ==> StrLt(x, y) || StrLt(y, x)
    ensures !(StrLt(x, y) && StrLt(y, x)) && !StrLt(x, x)
  {
    if x != "" && y != "" {
      StrLtTotal(x[1..], y[1..]);
      StrLtTotal(x[1..], x[1..]);
      if x[0] == y[0] && x[1..] == y[1..] {
        assert x == [x[0]] + x[1..] && y == [y[0]] + y[1..];
      }
    } else if x != "" {
      StrLtTotal(x[1..], x[1..]);
    }
  }

  /** No scalar lies between a lower and an upper bound whose interval is empty. */
  lemma ClashHasNoScalar(c: Scalar, a: AtomKind, lo: Bound, hi: Bound)
    requires Clash(lo, hi) && BoundFits(a, lo) && BoundFits(a, hi)
    ensures !(SatisfiesBound(c, lo) && SatisfiesBound(c, hi))
  {
    if lo.isStr && c.Str? {
      StrLtTotal(lo.str, hi.str);
      StrLtTotal(c.str, lo.str);
      StrLtTotal(c.str, hi.str);
      if StrLt(hi.str, lo.str) && StrLt(c.str, hi.str) { StrLtTrans(c.str, hi.str, lo.str); }
    }
  }

  /** A scalar between two bounds that do not clash. */
  function Between(lo: Bound, hi: Bound): Scalar
  {
    if lo.isStr then Str(if lo.op.OpGt? then hi.str else lo.str)
    else Float((lo.num + hi.num) / 2.0)
  }

  /**
    MAIN: two numeric bounds clash exactly if no number satisfies both. So do two bounds on strings, unless both
    are strict: between a string and the next one there is none, which is not looked for.
   */
  lemma ClashIff(a: AtomKind, lo: Bound, hi: Bound)
    requires BoundFits(a, lo) && BoundFits(a, hi) && lo.IsLower() && hi.IsUpper() && !(lo.isStr && lo.op.OpGt? && hi.op.OpLt?)
    ensures Clash(lo, hi) <==> forall c :: !(SatisfiesBound(c, lo) && SatisfiesBound(c, hi))
  {
    if Clash(lo, hi) {
      forall c ensures !(SatisfiesBound(c, lo) && SatisfiesBound(c, hi)) { ClashHasNoScalar(c, a, lo, hi); }
    } else {
      var c := Between(lo, hi);
      if lo.isStr {
        StrLtTotal(lo.str, hi.str);
        StrLtTotal(hi.str, lo.str);
      }
      assert SatisfiesBound(c, lo) && SatisfiesBound(c, hi);
    }
  }

  /** Bounds that clash pairwise have no common scalar, so rejecting the meet loses nothing. */
  lemma IncompatibleHasNoScalar(c: Scalar, a: AtomKind, bs: seq<Bound>)
    requires BoundsFit(a, bs) && IncompatibleBounds(bs)
    ensures !SatisfiesBounds(c, bs)
  {
    var i, j :| 0 <= i < |bs| && 0 <= j < |bs| && Clash(bs[i], bs[j]);
    ClashHasNoScalar(c, a, bs[i], bs[j]);
  }

  /** A meet of atom kinds admits exactly what both admit. */
  lemma MeetAtomExact(c: Scalar, a: AtomKind, b: AtomKind)
    ensures (SatisfiesAtom(c, a) && SatisfiesAtom(c, b)) <==>
            (MeetAtom(a, b).Some? && SatisfiesAtom(c, MeetAtom(a, b).value))
  {
  }

}
