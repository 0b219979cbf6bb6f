/**
  The value model of the schema evaluator: the node kinds an expression compiles to,
  and the scalar facts (type membership, bounds, string order) every meet is built on.
  Strings are sequences of Unicode scalar values, so |s| is the rune count; floats are reals.
 */
module Values {

  import opened Wrappers
  import opened Syntax

  datatype AtomKind = AkString | AkInt | AkFloat | AkNumber | AkBool | AkBytes

  /** A concrete leaf. Null belongs to no atom kind. */
  datatype Scalar =
    | Null
    | Str(str: string)
    | Int(i: int)
    | Float(f: real)
    | Bool(b: bool)
    | Bytes(bytes: seq<bv8>)

  datatype BoundOp = OpGe | OpLe | OpGt | OpLt | OpNe | OpMatch | OpNotMatch | OpMinRunes

  /** One constraint on a bounded scalar; `re` is the compiled pattern of a =~ or !~ bound. */
  datatype Bound = Bound(op: BoundOp, num: real, str: string, isStr: bool, re: string -> bool) {

    predicate IsLower() { op.OpGe? || op.OpGt? }

    predicate IsUpper() { op.OpLe? || op.OpLt? }

    predicate IsRelational() { IsLower() || IsUpper() || op.OpNe? }
  }

  datatype DefaultMode = Maybe | Not | Is

  datatype Branch = Branch(v: Value, mode: DefaultMode)

  datatype Field = Field(name: string, val: Value, optional: bool)

  /** A closed list has exactly its prefix; an open one continues with `elem`. */
  datatype Tail = Closed | Open(elem: Value)

  /**
    An engine value. A thunk is a deferred expression with the sibling names it reads.
   */
  datatype Value =
    | Bottom
    | Top
    | Con(s: Scalar)
    | Atom(atom: AtomKind)
    | Bounded(base: AtomKind, bounds: seq<Bound>)
    | Disj(branches: seq<Branch>)
    | Struct(fields: seq<Field>, closed: bool)
    | List(prefix: seq<Value>, tail: Tail)
    | Thunk(refs: seq<string>, expr: Expr)

  // ----- Termination measure -----

  ghost function Size(v: Value): (n: nat)
    ensures n >= 1
  {
    match v
    case Disj(bs) => 1 + SizeBranches(bs)
    case Struct(fs, _) => 1 + SizeFields(fs)
    case List(p, t) => 1 + SizeValues(p) + (match t case Closed => 0 case Open(e) => Size(e))
    case _ => 1
  }

  ghost function SizeBranches(bs: seq<Branch>): nat
  {
    if bs == [] then 0
    else
      var last := bs[|bs| - 1];
      assert last.v < last;
      SizeBranches(bs[..|bs| - 1]) + 1 + Size(last.v)
  }

  ghost function SizeFields(fs: seq<Field>): nat
  {
    if fs == [] then 0 else SizeFields(fs[..|fs| - 1]) + 1 + Size(fs[|fs| - 1].val)
  }

  ghost function SizeValues(vs: seq<Value>): nat
  {
    if vs == [] then 0 else SizeValues(vs[..|vs| - 1]) + 1 + Size(vs[|vs| - 1])
  }

  lemma {:induction false} BranchSmaller(bs: seq<Branch>, i: nat)
    requires i < |bs|
    ensures Size(bs[i].v) < SizeBranches(bs)
  {
    if i < |bs| - 1 { BranchSmaller(bs[..|bs| - 1], i); }
  }

  lemma {:induction false} FieldSmaller(fs: seq<Field>, i: nat)
    requires i < |fs|
    ensures Size(fs[i].val) < SizeFields(fs)
  {
    if i < |fs| - 1 { FieldSmaller(fs[..|fs| - 1], i); }
  }

  lemma {:induction false} ValueSmaller(vs: seq<Value>, i: nat)
    requires i < |vs|
    ensures Size(vs[i]) < SizeValues(vs)
  {
    if i < |vs| - 1 { ValueSmaller(vs[..|vs| - 1], i); }
  }

  // ----- Scalars, types and bounds -----

  function AtomKindOf(c: Scalar): Option<AtomKind>
  {
    match c
    case Null => None
    case Str(_) => Some(AkString)
    case Int(_) => Some(AkInt)
    case Float(_) => Some(AkFloat)
    case Bool(_) => Some(AkBool)
    case Bytes(_) => Some(AkBytes)
  }

  predicate SatisfiesAtom(c: Scalar, ak: AtomKind)
  {
    match AtomKindOf(c)
    case None => false
    case Some(ck) => if ak.AkNumber? then ck.AkInt? || ck.AkFloat? else ck == ak
  }

  /** Number meets Int or Float to the narrower kind; unequal kinds are otherwise disjoint. */
  function MeetAtom(a: AtomKind, b: AtomKind): Option<AtomKind>
  {
    if a == b then Some(a)
    else if a.AkNumber? && (b.AkInt? || b.AkFloat?) then Some(b)
    else if b.AkNumber? && (a.AkInt? || a.AkFloat?) then Some(a)
    else None
  }

  /** Lexicographic order by code point, which is the byte order of the UTF-8 encodings. */
  predicate StrLt(x: string, y: string)
  {
    if y == "" then false
    else if x == "" then true
    else x[0] < y[0] || (x[0] == y[0] && StrLt(x[1..], y[1..]))
  }

  predicate CompareStr(x: string, op: BoundOp, y: string)
  {
    match op
    case OpGe => !StrLt(x, y)
    case OpLe => !StrLt(y, x)
    case OpGt => StrLt(y, x)
    case OpLt => StrLt(x, y)
    case OpNe => x != y
    case _ => false
  }

  predicate CompareNum(x: real, op: BoundOp, y: real)
  {
    match op
    case OpGe => x >= y
    case OpLe => x <= y
    case OpGt => x > y
    case OpLt => x < y
    case OpNe => x != y
    case _ => false
  }

  function NumericValue(c: Scalar): Option<real>
  {
    match c
    case Int(i) => Some(i as real)
    case Float(f) => Some(f)
    case _ => None
  }

  predicate SatisfiesBound(c: Scalar, bd: Bound)
  {
    match bd.op
    case OpMatch => c.Str? && bd.re(c.str)
    case OpNotMatch => c.Str? && !bd.re(c.str)
    case OpMinRunes => c.Str? && |c.str| as real >= bd.num
    case _ =>
      if bd.isStr then c.Str? && CompareStr(c.str, bd.op, bd.str)
      else NumericValue(c).Some? && CompareNum(NumericValue(c).value, bd.op, bd.num)
  }

  predicate SatisfiesBounds(c: Scalar, bounds: seq<Bound>)
  {
    forall i | 0 <= i < |bounds| :: SatisfiesBound(c, bounds[i])
  }

  predicate EmptyInterval(lo: Bound, hi: Bound)
  {
    var strict := lo.op.OpGt? || hi.op.OpLt?;
    if lo.isStr then StrLt(hi.str, lo.str) || (lo.str == hi.str && strict)
    else lo.num > hi.num || (lo.num == hi.num && strict)
  }

  /** Some lower bound and some upper bound of the set leave no value between them. */
  predicate IncompatibleBounds(bounds: seq<Bound>)
  {
    exists i, j | 0 <= i < |bounds| && 0 <= j < |bounds| :: Clash(bounds[i], bounds[j])
  }

  predicate Clash(lo: Bound, hi: Bound)
  {
    lo.IsLower() && hi.IsUpper() && EmptyInterval(lo, hi)
  }

  // ----- Fields -----

  predicate HasField(fs: seq<Field>, name: string)
  {
    exists i | 0 <= i < |fs| :: fs[i].name == name
  }

  /** The index of the last field called `name`, as the name-to-index table records it. */
  function IndexOf(fs: seq<Field>, name: string): (k: nat)
    requires HasField(fs, name)
    ensures k < |fs| && fs[k].name == name
    ensures forall i | k < i < |fs| :: fs[i].name != name
  {
    if fs[|fs| - 1].name == name then |fs| - 1 else IndexOf(fs[..|fs| - 1], name)
  }

  predicate UniqueNames(fs: seq<Field>)
  {
    forall i, j | 0 <= i < j < |fs| :: fs[i].name != fs[j].name
  }

  // ----- Concreteness, defaults, bottoms -----

  /** The positions of the branches marked as defaults. */
  function Marked(bs: seq<Branch>): (ks: seq<nat>)
    ensures forall k | k in ks :: k < |bs| && bs[k].mode.Is?
  {
    if bs == [] then []
    else
      var n := |bs| - 1;
      Marked(bs[..n]) + (if bs[n].mode.Is? then [n] else [])
  }

  /** A disjunction's usable default: its only marked branch. Several marks are ambiguous. */
  function DefaultIndex(bs: seq<Branch>): (r: Option<nat>)
    ensures r.Some? ==> r.value < |bs| && bs[r.value].mode.Is?
  {
    var ks := Marked(bs);
    if |ks| == 1 then assert ks[0] in ks; Some(ks[0]) else None
  }

  predicate HasBottom(v: Value)
  {
    match v
    case Bottom => true
    case Struct(fs, _) => exists i | 0 <= i < |fs| :: HasBottom(fs[i].val)
    case List(p, _) => exists i | 0 <= i < |p| :: HasBottom(p[i])
    case _ => false
  }

  predicate IsConcrete(v: Value)
  {
    match v
    case Con(_) => true
    case Disj(bs) =>
      var d := DefaultIndex(bs);
      d.Some? && IsConcrete(bs[d.value].v)
    case Struct(fs, _) =>
      forall i | 0 <= i < |fs| :: Absent(fs[i]) || IsConcrete(fs[i].val)
    case List(p, _) => forall i | 0 <= i < |p| :: IsConcrete(p[i])
    case _ => false
  }

  /** An optional field still carrying its declared constraint: data never provided it. */
  predicate Absent(f: Field)
  {
    f.optional && !HasBottom(f.val) && !IsConcrete(f.val)
  }

}
