/**
  Defaults as they are written: a choice with one marked concrete alternative resolves to it, whatever folds,
  and without a mark it stays open. Also where writing a default, or an equal alternative, has no effect.
 */
module Alternatives {

  import opened Wrappers
  import opened Syntax
  import opened Values
  import opened Semantics
  import opened Meet
  import opened Defaults
  import opened Thunks
  import opened Eval
  import opened Validate
  import opened DefaultMeets
  import opened Meaning
  import opened Combining
  import opened Constructs
  import opened Denotes

  // ----- One marked branch -----

  ghost predicate MarkAt(bs: seq<Branch>, k: nat, g: Ground)
  {
    && k < |bs| && bs[k].mode.Is? && (forall i | 0 <= i < |bs| && i != k :: !bs[i].mode.Is?)
    && ResolvesTo(bs[k].v, g)
  }

  ghost predicate ResolvesTo(v: Value, g: Ground)
  {
    IsConcrete(v) && Resolve(v) == g
  }

  /** Exactly one branch is marked, and it resolves to g. */
  ghost predicate DefaultIs(bs: seq<Branch>, g: Ground)
  {
    exists k: nat :: MarkAt(bs, k, g)
  }

  lemma DefaultAdded(bs: seq<Branch>, b: Branch, g: Ground)
    ensures DefaultIs(bs, g) && !b.mode.Is? ==> DefaultIs(bs + [b], g)
    ensures NoMark(bs) && b.mode.Is? && ResolvesTo(b.v, g) ==> DefaultIs(bs + [b], g)
  {
    hide ResolvesTo;
    if DefaultIs(bs, g) && !b.mode.Is? {
      var k: nat :| MarkAt(bs, k, g);
      assert MarkAt(bs + [b], k, g);
    }
    if NoMark(bs) && b.mode.Is? && ResolvesTo(b.v, g) {
      forall i | 0 <= i < |bs| ensures !(bs + [b])[i].mode.Is? { assert bs[i] in bs; }
      assert MarkAt(bs + [b], |bs|, g);
    }
  }

  lemma DefaultTaken(bs: seq<Branch>, g: Ground)
    requires DefaultIs(bs, g)
    ensures bs != []
    ensures var n := |bs| - 1; if bs[n].mode.Is? then NoMark(bs[..n]) && ResolvesTo(bs[n].v, g) else DefaultIs(bs[..n], g)
  {
    hide ResolvesTo;
    var n := |bs| - 1;
    var k: nat :| MarkAt(bs, k, g);
    if k < n { assert MarkAt(bs[..n], k, g); }
  }

  lemma AbsorbStays(out: seq<Branch>, b: Branch, g: Ground)
    requires DefaultIs(out, g) && !b.mode.Is?
    ensures DefaultIs(Absorb(out, b), g)
  {
    hide ResolvesTo, SameConcrete;
    var k: nat :| MarkAt(out, k, g);
    if FirstSame(out, b.v).None? {
      DefaultAdded(out, b, g);
    } else {
      assert MarkAt(Absorb(out, b), k, g);
    }
  }

  lemma AbsorbTakes(out: seq<Branch>, b: Branch, g: Ground)
    requires NoMark(out) && b.mode.Is? && ResolvesTo(b.v, g) && Wf(b.v) && forall c <- out :: Wf(c.v)
    ensures DefaultIs(Absorb(out, b), g)
  {
    match FirstSame(out, b.v)
    case None => DefaultAdded(out, b, g);
    case Some(i) =>
      assert out[i] in out;
      EqualResolves(out[i].v, b.v);
      forall j | 0 <= j < |out| && j != i ensures !Absorb(out, b)[j].mode.Is? { assert out[j] in out; }
      assert MarkAt(Absorb(out, b), i, g);
  }

  lemma {:induction false} DedupeDefault(bs: seq<Branch>, g: Ground)
    requires DefaultIs(bs, g) && forall b <- bs :: Wf(b.v)
    ensures DefaultIs(Dedupe(bs), g)
  {
    hide Absorb, ResolvesTo, DefaultIs, Wf;
    DefaultTaken(bs, g);
    var n := |bs| - 1;
    var before := Dedupe(bs[..n]);
    assert bs[n] in bs && forall b <- bs[..n] :: b in bs;
    if bs[n].mode.Is? {
      DedupeUnmarked(bs[..n]);
      DedupeOfAll(bs[..n], v => Wf(v));
      AbsorbTakes(before, bs[n], g);
    } else {
      DedupeDefault(bs[..n], g);
      AbsorbStays(before, bs[n], g);
    }
  }

  lemma {:induction false} LiveDefault(bs: seq<Branch>, g: Ground)
    requires DefaultIs(bs, g)
    ensures DefaultIs(LiveOf(bs), g)
  {
    DefaultTaken(bs, g);
    var n := |bs| - 1;
    var live := LiveOf(bs[..n]);
    if bs[n].mode.Is? {
      assert !bs[n].v.Bottom?;
      forall c <- live ensures !c.mode.Is? { assert c in bs[..n]; }
    } else {
      LiveDefault(bs[..n], g);
      assert live + [] == live;
    }
    hide DefaultIs, ResolvesTo;
    DefaultAdded(live, bs[n], g);
  }

  function Raised(bs: seq<Branch>, hasMark: bool): (r: seq<Branch>)
    ensures |r| == |bs| && forall i | 0 <= i < |bs| :: r[i].v == bs[i].v && r[i].mode.Is? == bs[i].mode.Is?
  {
    if hasMark then RaiseMaybe(bs) else bs
  }

  lemma BuildIs(bs: seq<Branch>, hasMark: bool)
    ensures var live := Dedupe(LiveOf(bs));
      BuildDisjunction(bs, hasMark) == if live == [] then Bottom else if |live| == 1 then live[0].v else Disj(Raised(live, hasMark))
  {
    hide Dedupe, LiveOf;
  }

  lemma RaisedDefault(live: seq<Branch>, hasMark: bool, g: Ground)
    requires DefaultIs(live, g)
    ensures live != [] && (|live| == 1 ==> ResolvesTo(live[0].v, g)) && ResolvesTo(Disj(Raised(live, hasMark)), g)
  {
    hide Raised;
    var k: nat :| MarkAt(live, k, g);
    MarkedOne(Raised(live, hasMark), k);
  }

  /** A built choice with one marked concrete branch resolves as the branch does. */
  lemma BuildDefault(bs: seq<Branch>, hasMark: bool, g: Ground)
    requires DefaultIs(bs, g) && forall b <- bs :: Wf(b.v)
    ensures ResolvesTo(BuildDisjunction(bs, hasMark), g)
  {
    hide *;
    LiveDefault(bs, g);
    assert forall b <- LiveOf(bs) :: Wf(b.v);
    DedupeDefault(LiveOf(bs), g);
    RaisedDefault(Dedupe(LiveOf(bs)), hasMark, g);
    BuildIs(bs, hasMark);
  }

  lemma RaisedOpen(live: seq<Branch>, hasMark: bool)
    requires NoMark(live)
    ensures !IsConcrete(Disj(Raised(live, hasMark)))
  {
    var r := Raised(live, hasMark);
    forall i | 0 <= i < |r| ensures !r[i].mode.Is? { assert live[i] in live; }
    hide Raised;
  }

  /** Without a mark a choice of several is open. */
  lemma BuildOpen(bs: seq<Branch>, hasMark: bool)
    requires NoMark(bs) && |Dedupe(LiveOf(bs))| > 1
    ensures !IsConcrete(BuildDisjunction(bs, hasMark))
  {
    hide *;
    LiveUnmarked(bs);
    DedupeUnmarked(LiveOf(bs));
    RaisedOpen(Dedupe(LiveOf(bs)), hasMark);
    BuildIs(bs, hasMark);
  }

  lemma LiveUnmarked(bs: seq<Branch>)
    requires NoMark(bs)
    ensures NoMark(LiveOf(bs))
  {
    hide LiveOf;
  }

  // ----- As written -----

  lemma JoinDefault(a: seq<Branch>, b: Branch, g: Ground)
    requires NoMark(a) && b.mode.Is? && ResolvesTo(b.v, g)
    ensures DefaultIs(a + [b], g) && DefaultIs([b] + a, g)
  {
    hide ResolvesTo;
    DefaultAdded(a, b, g);
    forall i | 0 < i < |[b] + a| ensures !([b] + a)[i].mode.Is? { assert a[i - 1] in a; }
    assert MarkAt([b] + a, 0, g);
  }

  lemma MarkedBranches(m: Regexes, y: Expr)
    requires !(y.Unary? && y.uop.Mark?) && !(y.Binary? && y.op.Or?)
    requires Fits(PlainTools(m), y, false) && EvalExpr(PlainTools(m), y, None).Ok? && !EvalExpr(PlainTools(m), y, None).v.Disj?
    ensures var c := EvalExpr(PlainTools(m), y, None).v;
      Wf(c) && EvalBranches(PlainTools(m), Unary(Mark, y), false, None) == Ok(([Branch(c, Is)], true))
  {
    hide *;
    var t := PlainTools(m);
    EvalDenotes(m, y, false);
    AnswerOk(m, y);
    Compiled(t, y);
    BranchesStep(t, Unary(Mark, y), false);
    BranchesStep(t, y, true);
    FlatOne(EvalExpr(t, y, None).v);
  }

  lemma AnswerOk(m: Regexes, y: Expr)
    requires var r := EvalExpr(PlainTools(m), y, None); Answers(m, r, y, false) && r.Ok?
    ensures !EvalExpr(PlainTools(m), y, None).Unresolved? && Wf(EvalExpr(PlainTools(m), y, None).v)
  {
    hide EvalExpr, Wf, Means;
  }

  lemma FlatOne(c: Value)
    requires !c.Disj?
    ensures Flatten(c, true) == [Branch(c, Is)]
  {
  }

  /** MAIN: `x | *y` and `*y | x` resolve to y, if x marks nothing and y is concrete and no choice itself. */
  lemma MarkedIsDefault(m: Regexes, x: Expr, y: Expr)
    requires FitsBranch(PlainTools(m), x, false) && Fits(PlainTools(m), y, false)
    requires var a := EvalBranches(PlainTools(m), x, false, None); a.Ok? && NoMark(a.v.0)
    requires !(y.Unary? && y.uop.Mark?) && !(y.Binary? && y.op.Or?)
    requires var c := EvalExpr(PlainTools(m), y, None); c.Ok? && !c.v.Disj? && IsConcrete(c.v)
    ensures var t := PlainTools(m); var g := Resolve(EvalExpr(t, y, None).v);
      var l, r := EvalExpr(t, Binary(Or, x, Unary(Mark, y)), None), EvalExpr(t, Binary(Or, Unary(Mark, y), x), None);
      l.Ok? && ResolvesTo(l.v, g) && r.Ok? && ResolvesTo(r.v, g)
  {
    hide *;
    var t := PlainTools(m);
    var a, c := EvalBranches(t, x, false, None).v.0, EvalExpr(t, y, None).v;
    var g := Resolve(c);
    var b := Branch(c, Is);
    MarkedBranches(m, y);
    BranchesDenote(m, x, false, false);
    UnmarkedWf(m, x);
    Resolving(c);
    JoinDefault(a, b, g);
    BinaryChooses(t, x, Unary(Mark, y));
    BinaryChooses(t, Unary(Mark, y), x);
    BuildDefault(a + [b], true, g);
    BuildDefault([b] + a, true, g);
  }

  lemma Resolving(c: Value)
    requires IsConcrete(c)
    ensures ResolvesTo(c, Resolve(c))
  {
  }

  lemma UnmarkedWf(m: Regexes, x: Expr)
    requires var r := EvalBranches(PlainTools(m), x, false, None); r.Ok? && BranchesAnswer(m, r, x, false)
    ensures forall b <- EvalBranches(PlainTools(m), x, false, None).v.0 :: Wf(b.v)
  {
    hide EvalBranches, Wf, SomeAdmits;
  }

  // ----- Choices within choices -----

  lemma FlatDefault(v: Value)
    requires v.Disj? && IsConcrete(v)
    ensures DefaultIs(Flatten(v, false), Resolve(v))
  {
    var k, bs := DefaultIndex(v.branches).value, Flatten(v, false);
    MarkedOne(v.branches, k);
    assert |bs| == |v.branches| && forall i | 0 <= i < |bs| :: bs[i] == v.branches[i];
    assert MarkAt(bs, k, Resolve(v));
  }

  lemma {:induction false} DefaultsJoin(a: seq<Branch>, b: seq<Branch>, g: Ground)
    requires DefaultIs(a, g) && NoMark(b)
    ensures DefaultIs(a + b, g) && DefaultIs(b + a, g)
  {
    hide ResolvesTo;
    var k: nat :| MarkAt(a, k, g);
    forall i | 0 <= i < |a + b| && i != k ensures !(a + b)[i].mode.Is? { if i >= |a| { assert b[i - |a|] in b; } }
    assert MarkAt(a + b, k, g);
    forall i | 0 <= i < |b + a| && i != |b| + k ensures !(b + a)[i].mode.Is? { if i < |b| { assert b[i] in b; } }
    assert MarkAt(b + a, |b| + k, g);
  }

  /** MAIN: a choice in parentheses keeps its default as an alternative of a larger choice that marks nothing else. */
  lemma NestedDefaultStays(m: Regexes, x: Expr, y: Expr)
    requires FitsBranch(PlainTools(m), x, false) && Fits(PlainTools(m), y, false)
    requires var a := EvalBranches(PlainTools(m), x, false, None); a.Ok? && NoMark(a.v.0)
    requires !(y.Unary? && y.uop.Mark?) && !(y.Binary? && y.op.Or?)
    requires var c := EvalExpr(PlainTools(m), y, None); c.Ok? && c.v.Disj? && IsConcrete(c.v)
    ensures var t := PlainTools(m); var g := Resolve(EvalExpr(t, y, None).v);
      var l, r := EvalExpr(t, Binary(Or, x, y), None), EvalExpr(t, Binary(Or, y, x), None);
      l.Ok? && ResolvesTo(l.v, g) && r.Ok? && ResolvesTo(r.v, g)
  {
    hide *;
    var t := PlainTools(m);
    var a, c := EvalBranches(t, x, false, None).v.0, EvalExpr(t, y, None).v;
    var b, g := Flatten(c, false), Resolve(c);
    EvalDenotes(m, y, false);
    AnswerOk(m, y);
    Compiled(t, y);
    BranchesStep(t, y, false);
    BranchesDenote(m, x, false, false);
    UnmarkedWf(m, x);
    FlatWf(c, false);
    FlatDefault(c);
    DefaultsJoin(b, a, g);
    BinaryChooses(t, x, y);
    BinaryChooses(t, y, x);
    BuildDefault(a + b, EvalBranches(t, x, false, None).v.1, g);
    BuildDefault(b + a, EvalBranches(t, x, false, None).v.1, g);
  }

  lemma FlatWf(v: Value, marked: bool)
    requires Wf(v)
    ensures forall b <- Flatten(v, marked) :: Wf(b.v)
  {
  }

  lemma AbsorbMarks(out: seq<Branch>, b: Branch)
    ensures |Absorb(out, b)| >= |out| && forall k | 0 <= k < |out| :: out[k].mode.Is? ==> Absorb(out, b)[k].mode.Is?
    ensures b.mode.Is? ==> exists k: nat :: k < |Absorb(out, b)| && Stays(Absorb(out, b)[k], b)
  {
    hide SameConcrete;
    match FirstSame(out, b.v)
    case Some(i) => assert b.mode.Is? ==> Stays(Absorb(out, b)[i], b);
    case None => assert Absorb(out, b)[|out|] == b;
  }

  /** A marked branch with the same value. */
  ghost predicate Stays(x: Branch, b: Branch)
  {
    x.mode.Is? && (x.v == b.v || SameConcrete(x.v, b.v))
  }

  /** A mark is never lost to folding. */
  lemma {:induction false} MarkKept(bs: seq<Branch>, i: nat) returns (k: nat)
    requires i < |bs| && bs[i].mode.Is?
    ensures k < |Dedupe(bs)| && Stays(Dedupe(bs)[k], bs[i])
  {
    hide SameConcrete;
    var n := |bs| - 1;
    var before := Dedupe(bs[..n]);
    AbsorbMarks(before, bs[n]);
    AbsorbKeeps(before, bs[n]);
    assert Dedupe(bs) == Absorb(before, bs[n]);
    hide Absorb, Dedupe;
    if i == n {
      k :| k < |Absorb(before, bs[n])| && Stays(Absorb(before, bs[n])[k], bs[n]);
    } else {
      k := MarkKept(bs[..n], i);
      assert bs[..n][i] == bs[i];
    }
  }

  lemma NotBoth(x: Branch, a: Branch, b: Branch)
    requires Wf(x.v) && Wf(a.v) && Wf(b.v) && Stays(x, a) && Stays(x, b) && IsConcrete(a.v) && IsConcrete(b.v) && ConcreteEqual(a.v, a.v)
    ensures SameConcrete(a.v, b.v)
  {
    hide IsConcrete, ConcreteEqual, Wf;
    if x.v != a.v {
      ConcreteEqualSymmetric(x.v, a.v);
      if x.v != b.v { ConcreteEqualTransitive(a.v, x.v, b.v); }
    }
  }

  /** MAIN: two marks on different values leave no default. */
  lemma TwoMarksAreOpen(bs: seq<Branch>, hasMark: bool, i: nat, j: nat)
    requires i < |bs| && j < |bs| && bs[i].mode.Is? && bs[j].mode.Is? && !bs[i].v.Bottom? && !bs[j].v.Bottom?
    requires IsConcrete(bs[i].v) && IsConcrete(bs[j].v) && ConcreteEqual(bs[i].v, bs[i].v) && !SameConcrete(bs[i].v, bs[j].v)
    requires forall b <- bs :: Wf(b.v)
    ensures !IsConcrete(BuildDisjunction(bs, hasMark))
  {
    hide *;
    var live := LiveOf(bs);
    LiveHas(bs, i);
    LiveHas(bs, j);
    var x :| 0 <= x < |live| && live[x] == bs[i];
    var y :| 0 <= y < |live| && live[y] == bs[j];
    var k := MarkKept(live, x);
    var l := MarkKept(live, y);
    DedupeOfAll(live, v => Wf(v));
    if k == l { NotBoth(Dedupe(live)[k], bs[i], bs[j]); }
    MarksRemain(Dedupe(live), hasMark, k, l);
    BuildIs(bs, hasMark);
  }

  lemma MarksRemain(live: seq<Branch>, hasMark: bool, k: nat, l: nat)
    requires k < |live| && l < |live| && k != l && (exists b :: Stays(live[k], b)) && exists b :: Stays(live[l], b)
    ensures |live| > 1 && !IsConcrete(Disj(Raised(live, hasMark)))
  {
    hide Raised;
    MarkedOne(Raised(live, hasMark), k);
    if DefaultIndex(Raised(live, hasMark)).Some? { MarkedOne(Raised(live, hasMark), DefaultIndex(Raised(live, hasMark)).value); }
  }

  /** Two different concrete values, neither with an open list. */
  predicate Differ(bs: seq<Branch>, i: nat, j: nat)
  {
    && i < |bs| && j < |bs| && IsConcrete(bs[i].v) && IsConcrete(bs[j].v)
    && ConcreteEqual(bs[i].v, bs[i].v) && !SameConcrete(bs[i].v, bs[j].v)
  }

  lemma DifferIs(bs: seq<Branch>, i: nat, j: nat)
    requires Differ(bs, i, j)
    ensures i < |bs| && j < |bs| && IsConcrete(bs[i].v) && IsConcrete(bs[j].v)
    ensures ConcreteEqual(bs[i].v, bs[i].v) && !SameConcrete(bs[i].v, bs[j].v)
  {
  }

  /** MAIN: a mark covers every alternative of the choice it stands before, so two different ones leave no default. */
  lemma MarkedChoiceIsOpen(m: Regexes, x: Expr, y: Expr, i: nat, j: nat)
    requires !(x.Unary? && x.uop.Mark?) && !(x.Binary? && x.op.Or?)
    requires Fits(PlainTools(m), x, false) && FitsBranch(PlainTools(m), y, false)
    requires var v := EvalExpr(PlainTools(m), x, None); v.Ok? && v.v.Disj? && Differ(v.v.branches, i, j)
    requires EvalBranches(PlainTools(m), y, false, None).Ok?
    ensures var r := EvalExpr(PlainTools(m), Binary(Or, Unary(Mark, x), y), None); r.Ok? && !IsConcrete(r.v)
  {
    hide *;
    var t := PlainTools(m);
    var v, b := EvalExpr(t, x, None).v, EvalBranches(t, y, false, None).v.0;
    EvalDenotes(m, x, false);
    AnswerOk(m, x);
    Compiled(t, x);
    BranchesStep(t, Unary(Mark, x), false);
    BranchesStep(t, x, true);
    BinaryChooses(t, Unary(Mark, x), y);
    DifferIs(v.branches, i, j);
    AllMarked(v, i);
    AllMarked(v, j);
    FlatWf(v, true);
    BranchesDenote(m, y, false, false);
    UnmarkedWf(m, y);
    var bs := Flatten(v, true) + b;
    assert bs[i] == Flatten(v, true)[i] && bs[j] == Flatten(v, true)[j];
    NoBottomConcrete(v.branches[i].v);
    NoBottomConcrete(v.branches[j].v);
    TwoMarksAreOpen(bs, true, i, j);
  }

  lemma AllMarked(v: Value, i: nat)
    requires v.Disj? && i < |v.branches|
    ensures i < |Flatten(v, true)| && Flatten(v, true)[i] == Branch(v.branches[i].v, Is)
  {
  }

  lemma NoBottomConcrete(v: Value)
    requires IsConcrete(v)
    ensures !v.Bottom?
  {
  }

  // ----- Equal alternatives that differ in flags -----

  function Fresh(fs: seq<Field>): (n: string)
    ensures !HasField(fs, n) && forall i | 0 <= i < |fs| :: |fs[i].name| < |n|
  {
    if fs == [] then "x"
    else
      var before := Fresh(fs[..|fs| - 1]);
      var last := fs[|fs| - 1].name;
      if |before| > |last| then before else last + "x"
  }

  lemma StructWitness(a: Value, b: Value)
    requires Wf(a) && Wf(b) && a.Struct? && ConcreteEqual(a, b)
    ensures IsConcrete(b) && Resolve(b).GStruct? && Member(Resolve(b), b)
    ensures forall n :: n in Resolve(b).m <==> HasField(b.fields, n)
    ensures forall n :: HasField(a.fields, n) <==> HasField(b.fields, n)
  {
    EqualResolves(a, b);
    ResolveIsMember(b);
    EqualStructResolves(a, b);
    ConcreteEqualSymmetric(a, b);
    EqualStructResolves(b, a);
    SameNames(a.fields, b.fields);
  }

  lemma ExtraKeyLost(a: Value, b: Value, g: Ground, n: string)
    requires a.Struct? && b.Struct? && a.closed && !b.closed && g.GStruct? && Member(g, b)
    requires !HasField(a.fields, n) && !HasField(b.fields, n)
    ensures var h := GStruct(g.m[n := GScalar(Null)]); Member(h, b) && !Member(h, a)
  {
    var h := GStruct(g.m[n := GScalar(Null)]);
    assert n in h.m;
    forall i | 0 <= i < |b.fields| ensures b.fields[i].name != n {}
    hide IsConcrete;
  }

  lemma DroppedKeyLost(a: Value, b: Value, g: Ground, i: nat, k: nat)
    requires a.Struct? && b.Struct? && g.GStruct? && Member(g, b) && i < |a.fields| && k < |b.fields| && UniqueNames(b.fields)
    requires a.fields[i].name == b.fields[k].name && b.fields[k].optional && !a.fields[i].optional
    ensures var h := GStruct(g.m - {a.fields[i].name}); Member(h, b) && !Member(h, a)
  {
    var n := a.fields[i].name;
    var h := GStruct(g.m - {n});
    assert n !in h.m;
    forall j | 0 <= j < |b.fields| ensures if b.fields[j].name in h.m then Member(h.m[b.fields[j].name], b.fields[j].val) else b.fields[j].optional {
      assert j != k ==> b.fields[j].name != n;
    }
    hide IsConcrete;
  }

  lemma ChangedKeyLost(a: Value, b: Value, g: Ground, i: nat, k: nat, x: Ground)
    requires a.Struct? && b.Struct? && g.GStruct? && Member(g, b) && i < |a.fields| && k < |b.fields| && UniqueNames(b.fields)
    requires a.fields[i].name == b.fields[k].name && Member(x, b.fields[k].val) && !Member(x, a.fields[i].val)
    ensures var h := GStruct(g.m[a.fields[i].name := x]); Member(h, b) && !Member(h, a)
  {
    var n := a.fields[i].name;
    var h := GStruct(g.m[n := x]);
    assert n in h.m;
    forall j | 0 <= j < |b.fields| ensures if b.fields[j].name in h.m then Member(h.m[b.fields[j].name], b.fields[j].val) else b.fields[j].optional {
      assert j != k ==> b.fields[j].name != n;
    }
    forall m <- h.m ensures b.closed ==> HasField(b.fields, m) { if m == n { assert b.fields[k].name == n; } }
    hide IsConcrete;
  }

  lemma ChangedElemLost(a: Value, b: Value, g: Ground, i: nat, x: Ground)
    requires a.List? && b.List? && g.GList? && Member(g, b) && i < |a.prefix| && i < |b.prefix|
    requires Member(x, b.prefix[i]) && !Member(x, a.prefix[i])
    ensures i < |g.xs| && Member(GList(g.xs[i := x]), b) && !Member(GList(g.xs[i := x]), a)
  {
    var h := GList(g.xs[i := x]);
    assert forall j | 0 <= j < |g.xs| :: j != i ==> h.xs[j] == g.xs[j];
    hide IsConcrete;
  }

  /** Where the first is the stricter. */
  lemma Stricter(a: Value, b: Value) returns (i: nat, k: nat)
    requires ConcreteEqual(a, b) && !Laxer(a, b) && (a.Struct? ==> !a.closed || b.closed)
    ensures (a.Struct? && b.Struct?) || (a.List? && b.List?)
    ensures a.List? ==> i < |a.prefix| && i < |b.prefix| && ConcreteEqual(a.prefix[i], b.prefix[i]) && !Laxer(a.prefix[i], b.prefix[i])
    ensures a.Struct? ==> i < |a.fields| && k < |b.fields| && a.fields[i].name == b.fields[k].name
    ensures a.Struct? ==> ConcreteEqual(a.fields[i].val, b.fields[k].val)
    ensures a.Struct? ==> (b.fields[k].optional && !a.fields[i].optional) || !Laxer(a.fields[i].val, b.fields[k].val)
  {
    if a.List? {
      i :| 0 <= i < |a.prefix| && i < |b.prefix| && !Laxer(a.prefix[i], b.prefix[i]);
      k := 0;
    } else {
      i :| 0 <= i < |a.fields| && HasField(b.fields, a.fields[i].name) &&
        var h := b.fields[IndexOf(b.fields, a.fields[i].name)];
        !((h.optional ==> a.fields[i].optional) && Laxer(a.fields[i].val, h.val));
      k := IndexOf(b.fields, a.fields[i].name);
    }
  }

  /** Where the first is stricter, a document the second admits is lost. */
  lemma {:induction false} StricterLoses(a: Value, b: Value) returns (g: Ground)
    requires Wf(a) && Wf(b) && ConcreteEqual(a, b) && !Laxer(a, b)
    ensures Member(g, b) && !Member(g, a)
    decreases a
  {
    hide *;
    EqualResolves(a, b);
    ResolveIsMember(b);
    g := Resolve(b);
    if a.Struct? && b.Struct? && a.closed && !b.closed {
      StructWitness(a, b);
      ExtraKeyLost(a, b, g, Fresh(b.fields));
      g := GStruct(g.m[Fresh(b.fields) := GScalar(Null)]);
    } else {
      ClosedBoth(a, b);
      var i, k := Stricter(a, b);
      if a.List? {
        ElemWf(a, b, i);
        var x := StricterLoses(a.prefix[i], b.prefix[i]);
        ListMembers(g, b);
        ChangedElemLost(a, b, g, i, x);
        g := GList(g.xs[i := x]);
      } else {
        StructWitness(a, b);
        PairWf(a, b, i, k);
        if b.fields[k].optional && !a.fields[i].optional {
          DroppedKeyLost(a, b, g, i, k);
          g := GStruct(g.m - {a.fields[i].name});
        } else {
          var x := StricterLoses(a.fields[i].val, b.fields[k].val);
          ChangedKeyLost(a, b, g, i, k, x);
          g := GStruct(g.m[a.fields[i].name := x]);
        }
      }
    }
  }

  lemma ClosedBoth(a: Value, b: Value)
    requires ConcreteEqual(a, b)
    ensures a.Struct? ==> b.Struct?
  {
  }

  lemma ListMembers(g: Ground, b: Value)
    requires Member(g, b) && b.List?
    ensures g.GList?
  {
  }

  lemma ElemWf(a: Value, b: Value, i: nat)
    requires Wf(a) && Wf(b) && a.List? && b.List? && i < |a.prefix| && i < |b.prefix|
    ensures Wf(a.prefix[i]) && Wf(b.prefix[i]) && a.prefix[i] < a
  {
  }

  lemma PairWf(a: Value, b: Value, i: nat, k: nat)
    requires Wf(a) && Wf(b) && a.Struct? && b.Struct? && i < |a.fields| && k < |b.fields|
    ensures Wf(a.fields[i].val) && Wf(b.fields[k].val) && UniqueNames(b.fields) && a.fields[i].val < a
  {
    assert a.fields[i].val < a.fields[i];
  }

  /** MAIN: folding two equal alternatives keeps every document exactly when the first is the more permissive. */
  lemma FoldKeepsIffLaxer(x: Branch, y: Branch, hasMark: bool)
    requires Wf(x.v) && Wf(y.v) && SameConcrete(x.v, y.v)
    ensures (forall g :: SomeAdmits(g, [x, y]) ==> Member(g, BuildDisjunction([x, y], hasMark))) <==> Laxer(x.v, y.v)
  {
    var r := BuildDisjunction([x, y], hasMark);
    PairFolds(x, y, hasMark);
    hide Wf, Laxer, Member, BuildDisjunction, SameConcrete;
    forall g ensures SomeAdmits(g, [x, y]) <==> Member(g, x.v) || Member(g, y.v) {
      assert [x, y][0] == x && [x, y][1] == y;
    }
    if Laxer(x.v, y.v) {
      forall g | SomeAdmits(g, [x, y]) ensures Member(g, r) { if Member(g, y.v) { EqualAdmits(x.v, y.v, g); } }
    } else {
      var g := LosesSome(x.v, y.v);
      assert SomeAdmits(g, [x, y]) && !Member(g, r);
    }
  }

  lemma LosesSome(a: Value, b: Value) returns (g: Ground)
    requires Wf(a) && Wf(b) && SameConcrete(a, b) && !Laxer(a, b)
    ensures Member(g, b) && !Member(g, a)
  {
    hide Wf, Laxer, Member, IsConcrete, ConcreteEqual;
    g := StricterLoses(a, b);
  }

  lemma EqualAdmits(a: Value, b: Value, g: Ground)
    requires Wf(a) && Wf(b) && SameConcrete(a, b) && Laxer(a, b) && Member(g, b)
    ensures Member(g, a)
  {
    hide Wf, Laxer, Member, IsConcrete, ConcreteEqual;
    LaxerAdmits(a, b, g);
  }

  lemma PairFolds(x: Branch, y: Branch, hasMark: bool)
    requires SameConcrete(x.v, y.v)
    ensures BuildDisjunction([x, y], hasMark) == x.v
  {
    hide *;
    NoBottoms(x.v, y.v);
    LivePair(x, y);
    FoldedPair(x, y);
    BuildIs([x, y], hasMark);
  }

  lemma NoBottoms(a: Value, b: Value)
    requires SameConcrete(a, b)
    ensures !a.Bottom? && !b.Bottom?
  {
  }

  lemma LivePair(x: Branch, y: Branch)
    requires !x.v.Bottom? && !y.v.Bottom?
    ensures LiveOf([x, y]) == [x, y]
  {
    assert [x, y][..1] == [x] && [x][..0] == [];
    assert LiveOf([x]) == LiveOf([x][..0]) + [x];
    assert LiveOf([x, y]) == LiveOf([x, y][..1]) + [y];
  }

  lemma DedupeStep(bs: seq<Branch>)
    requires bs != []
    ensures Dedupe(bs) == Absorb(Dedupe(bs[..|bs| - 1]), bs[|bs| - 1]) && Dedupe([]) == []
  {
    hide Absorb;
  }

  lemma AbsorbFirst(x: Branch)
    ensures Absorb([], x) == [x]
  {
    hide SameConcrete;
  }

  lemma AbsorbSecond(x: Branch, y: Branch)
    requires SameConcrete(x.v, y.v)
    ensures |Absorb([x], y)| == 1 && Absorb([x], y)[0].v == x.v
  {
    hide SameConcrete;
    assert [x][0] == x;
    assert FirstSame([x], y.v).Some?;
  }

  lemma FoldedPair(x: Branch, y: Branch)
    requires SameConcrete(x.v, y.v)
    ensures |Dedupe([x, y])| == 1 && Dedupe([x, y])[0].v == x.v
  {
    hide *;
    assert [x, y][..1] == [x] && [x][..0] == [];
    DedupeStep([x]);
    DedupeStep([x, y]);
    AbsorbFirst(x);
    AbsorbSecond(x, y);
  }

  // ----- Defaults and equal alternatives that have no effect -----

  /** A defaulted choice written as an operand is not read as its default: it equals nothing. */
  lemma DefaultIsNotRead(t: Tools, x: Expr, y: Expr)
    requires var l, r := EvalExpr(t, x, None), EvalExpr(t, y, None);
      l.Ok? && r.Ok? && l.v.Disj? && IsConcrete(l.v) && IsConcrete(r.v)
    ensures EvalExpr(t, Binary(Eql, x, y), None) == Ok(Con(Bool(false)))
    ensures EvalExpr(t, Binary(Neq, x, y), None) == Ok(Con(Bool(true)))
  {
    BinaryCompares(t, Eql, x, y);
    BinaryCompares(t, Neq, x, y);
    hide EvalExpr, IsConcrete;
  }

  /** The name of a field that holds the same choice is read as the default. */
  lemma NamedDefaultIsRead(n: string, v: Value, scope: Scope)
    requires v.Disj? && IsConcrete(v) && n in scope && scope[n] == v
    ensures exists i: nat :: i < |v.branches| && v.branches[i].mode.Is? && LookUp(n, Some(scope)) == Ok(v.branches[i].v)
  {
    var i := DefaultIndex(v.branches).value;
    assert v.branches[i].mode.Is? && LookUp(n, Some(scope)) == Ok(v.branches[i].v);
  }

}
