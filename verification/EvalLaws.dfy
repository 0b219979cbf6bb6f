/**
  What a deferred expression depends on: only the siblings recorded as its references. Once it
  evaluates, further siblings change nothing; so it does not matter in which pass it is forced.
 */
module EvalLaws {

  import opened Wrappers
  import opened Syntax
  import opened Values
  import opened Meet
  import opened MeetFacts
  import opened Thunks
  import opened Eval

  // ----- Only the references matter -----

  /** The scopes bind the references among these names alike. */
  ghost predicate Agree(s1: Scope, s2: Scope, names: seq<string>)
  {
    forall n | n in names && IsReference(n) :: (n in s1 <==> n in s2) && (n in s1 ==> s1[n] == s2[n])
  }

  lemma AgreeParts(s1: Scope, s2: Scope, a: seq<string>, b: seq<string>)
    requires Agree(s1, s2, a + b)
    ensures Agree(s1, s2, a) && Agree(s1, s2, b)
  {
    forall n | n in a ensures n in a + b {}
    forall n | n in b ensures n in a + b {}
  }

  lemma ReferenceOrKeyword(n: string)
    ensures IsReference(n) <==> Keyword(n).None?
  {
  }

  /** MAIN: scopes that agree on an expression's names give it the same value, or the same failure. */
  lemma {:induction false} DependsOnNames(t: Tools, e: Expr, s1: Scope, s2: Scope)
    requires Agree(s1, s2, Names(e))
    ensures EvalExpr(t, e, Some(s1)) == EvalExpr(t, e, Some(s2))
    decreases e, 0
  {
    hide Agree, Comparison, BuildDisjunction;
    match e
    case Ident(n) =>
      ReferenceOrKeyword(n);
      if IsReference(n) { AgreeAt(s1, s2, n); }
    case Index(target, index) =>
      AgreeParts(s1, s2, Names(target), Names(index));
      DependsOnNames(t, index, s1, s2);
      if target.ListLit? { ItemsDepend(t, target.elems, s1, s2); }
    case Binary(op, x, y) =>
      AgreeParts(s1, s2, Names(x), Names(y));
      if op.Or? {
        BranchesDepend(t, x, false, s1, s2);
        BranchesDepend(t, y, false, s1, s2);
      } else {
        DependsOnNames(t, x, s1, s2);
        DependsOnNames(t, y, s1, s2);
      }
    case Paren(x) => DependsOnNames(t, x, s1, s2);
    case ListLit(es) => ListDepends(t, es, s1, s2);
    case StructLit(ds) => DeclsDepend(t, ds, s1, s2);
    case _ =>
  }

  lemma AgreeAt(s1: Scope, s2: Scope, n: string)
    requires Agree(s1, s2, [n]) && IsReference(n)
    ensures LookUp(n, Some(s1)) == LookUp(n, Some(s2))
  {
    assert n in [n];
  }

  lemma {:induction false} BranchesDepend(t: Tools, e: Expr, marked: bool, s1: Scope, s2: Scope)
    requires Agree(s1, s2, Names(e))
    ensures EvalBranches(t, e, marked, Some(s1)) == EvalBranches(t, e, marked, Some(s2))
    decreases e, 3
  {
    hide Agree, EvalExpr;
    if e.Unary? && e.uop.Mark? {
      BranchesDepend(t, e.operand, true, s1, s2);
    } else if e.Binary? && e.op.Or? {
      AgreeParts(s1, s2, Names(e.x), Names(e.y));
      BranchesDepend(t, e.x, marked, s1, s2);
      BranchesDepend(t, e.y, marked, s1, s2);
    } else {
      DependsOnNames(t, e, s1, s2);
    }
  }

  /** The names of one list element. */
  function NamesOf(el: Elem): seq<string>
  {
    match el
    case Ellipsis(None) => []
    case Ellipsis(Some(e)) => Names(e)
    case CompElem(c) => CompNames(c)
    case Item(e) => Names(e)
  }

  lemma ElemNamesCons(es: seq<Elem>)
    requires es != []
    ensures ElemNames(es) == NamesOf(es[0]) + ElemNames(es[1..])
  {
  }

  lemma {:induction false} ElemNamesSnoc(es: seq<Elem>)
    requires es != []
    ensures ElemNames(es) == ElemNames(es[..|es| - 1]) + NamesOf(es[|es| - 1])
  {
    ElemNamesCons(es);
    if |es| == 1 {
      assert es[1..] == [] && es[..0] == [];
    } else {
      ElemNamesSnoc(es[1..]);
      assert es[1..][..|es| - 2] == es[..|es| - 1][1..];
      ElemNamesCons(es[..|es| - 1]);
    }
  }

  lemma {:induction false} ItemsDepend(t: Tools, es: seq<Elem>, s1: Scope, s2: Scope)
    requires Agree(s1, s2, ElemNames(es))
    ensures EvalItems(t, es, Some(s1)) == EvalItems(t, es, Some(s2))
    decreases es, 4
  {
    if es != [] {
      hide Agree, EvalExpr, EvalComp, ElemNames;
      var el := es[0];
      ElemNamesCons(es);
      AgreeParts(s1, s2, NamesOf(el), ElemNames(es[1..]));
      ItemsDepend(t, es[1..], s1, s2);
      match el
      case Ellipsis(_) =>
      case CompElem(c) => assert c < el; CompDepends(t, c, s1, s2);
      case Item(e) => assert e < el; DependsOnNames(t, e, s1, s2);
    }
  }

  lemma {:induction false} ListDepends(t: Tools, es: seq<Elem>, s1: Scope, s2: Scope)
    requires Agree(s1, s2, ElemNames(es))
    ensures EvalList(t, es, Some(s1)) == EvalList(t, es, Some(s2))
    decreases es, 4
  {
    if es != [] {
      hide Agree, EvalExpr, EvalComp, ElemNames;
      var n := |es| - 1;
      var el := es[n];
      ElemNamesSnoc(es);
      AgreeParts(s1, s2, ElemNames(es[..n]), NamesOf(el));
      ListDepends(t, es[..n], s1, s2);
      match el
      case Ellipsis(None) =>
      case Ellipsis(Some(typ)) => assert typ < el.typ && el.typ < el; DependsOnNames(t, typ, s1, s2);
      case CompElem(c) => assert c < el; CompDepends(t, c, s1, s2);
      case Item(e) => assert e < el; DependsOnNames(t, e, s1, s2);
    }
  }

  lemma {:induction false} CompDepends(t: Tools, c: Comprehension, s1: Scope, s2: Scope)
    requires Agree(s1, s2, CompNames(c))
    ensures EvalComp(t, c, Some(s1)) == EvalComp(t, c, Some(s2))
    decreases c, 4
  {
    if |c.clauses| == 1 && c.clauses[0].If? && c.body.StructLit? {
      hide Agree, EvalExpr, EvalStruct;
      var first := c.clauses[0];
      assert first.cond < first;
      AgreeParts(s1, s2, ClauseNames(c.clauses), Names(c.body));
      assert ClauseNames(c.clauses) == Names(first.cond) + [];
      AgreeParts(s1, s2, Names(first.cond), []);
      DependsOnNames(t, first.cond, s1, s2);
      StructDepends(t, c.body.decls, s1, s2);
    }
  }

  lemma {:induction false} StructDepends(t: Tools, ds: seq<Decl>, s1: Scope, s2: Scope)
    requires Agree(s1, s2, DeclNames(ds))
    ensures EvalStruct(t, ds, Some(s1)) == EvalStruct(t, ds, Some(s2))
    decreases ds, 5
  {
    hide EvalDecls, Finish;
    DeclsDepend(t, ds, s1, s2);
  }

  function NamesIn(d: Decl): seq<string>
  {
    match d
    case FieldDecl(_, _, e) => Names(e)
    case Embed(e) => Names(e)
    case OpenDecl => []
    case CompDecl(c) => CompNames(c)
  }

  lemma DeclNamesCons(ds: seq<Decl>)
    requires ds != []
    ensures DeclNames(ds) == NamesIn(ds[0]) + DeclNames(ds[1..])
  {
  }

  lemma {:induction false} DeclNamesSnoc(ds: seq<Decl>)
    requires ds != []
    ensures DeclNames(ds) == DeclNames(ds[..|ds| - 1]) + NamesIn(ds[|ds| - 1])
  {
    DeclNamesCons(ds);
    if |ds| == 1 {
      assert ds[1..] == [] && ds[..0] == [];
    } else {
      DeclNamesSnoc(ds[1..]);
      assert ds[1..][..|ds| - 2] == ds[..|ds| - 1][1..];
      DeclNamesCons(ds[..|ds| - 1]);
    }
  }

  lemma {:induction false} DeclsDepend(t: Tools, ds: seq<Decl>, s1: Scope, s2: Scope)
    requires Agree(s1, s2, DeclNames(ds))
    ensures EvalDecls(t, ds, Some(s1)) == EvalDecls(t, ds, Some(s2))
    decreases ds, 4
  {
    if ds != [] {
      hide Agree, EvalExpr, DeclNames, AppendOrUnify;
      var n := |ds| - 1;
      var d := ds[n];
      DeclNamesSnoc(ds);
      AgreeParts(s1, s2, DeclNames(ds[..n]), NamesIn(d));
      DeclsDepend(t, ds[..n], s1, s2);
      match d
      case FieldDecl(_, _, value) => assert value < d; DependsOnNames(t, value, s1, s2);
      case Embed(e) => assert e < d; DependsOnNames(t, e, s1, s2);
      case _ =>
    }
  }

  lemma DistinctSnoc(names: seq<string>, last: string)
    ensures var front := Distinct(names);
      Distinct(names + [last]) == if IsReference(last) && last !in front then front + [last] else front
  {
    hide IsReference;
    assert (names + [last])[..|names|] == names && (names + [last])[|names|] == last;
  }

  lemma OneReference(n: string)
    requires IsReference(n)
    ensures Distinct([n]) == [n]
  {
    assert Distinct([]) == [];
    hide IsReference, Distinct;
    DistinctSnoc([], n);
    assert [] + [n] == [n];
  }

  lemma ComparisonNames(op: BinOp, n: string, l: Lit)
    ensures Names(Binary(op, Ident(n), Basic(l))) == [n]
  {
    assert Names(Ident(n)) == [n] && Names(Basic(l)) == [];
    assert [n] + [] == [n];
  }

  /** MAIN: the recorded references are all a deferred expression depends on. */
  lemma DependsOnRefs(t: Tools, e: Expr, s1: Scope, s2: Scope)
    requires forall n <- FreeRefs(e) :: (n in s1 <==> n in s2) && (n in s1 ==> s1[n] == s2[n])
    ensures EvalExpr(t, e, Some(s1)) == EvalExpr(t, e, Some(s2))
  {
    assert Agree(s1, s2, Names(e)) by {
      forall n | n in Names(e) && IsReference(n) ensures (n in s1 <==> n in s2) && (n in s1 ==> s1[n] == s2[n]) {
        assert n in FreeRefs(e);
      }
    }
    DependsOnNames(t, e, s1, s2);
  }

  // ----- More siblings change nothing -----

  ghost predicate Larger(s1: Scope, s2: Scope)
  {
    forall n <- s1 :: n in s2 && s1[n] == s2[n]
  }

  /** MAIN: an expression that evaluates in a scope evaluates to the same value in every larger one. */
  lemma {:induction false} LargerScope(t: Tools, e: Expr, s1: Scope, s2: Scope)
    requires Larger(s1, s2) && EvalExpr(t, e, Some(s1)).Ok?
    ensures EvalExpr(t, e, Some(s2)) == EvalExpr(t, e, Some(s1))
    decreases e, 0
  {
    hide Comparison, BuildDisjunction, Larger, IsConcrete;
    match e
    case Ident(n) => if Keyword(n).None? { LookUpLarger(n, s1, s2); }
    case Index(target, index) =>
      LargerScope(t, index, s1, s2);
      ItemsLarger(t, target.elems, s1, s2);
    case Binary(op, x, y) =>
      if IsCompare(op) {
        ComparisonOk(t, op, x, y, EvalExpr(t, x, Some(s1)), EvalExpr(t, y, Some(s1)));
        LargerScope(t, x, s1, s2);
        LargerScope(t, y, s1, s2);
      } else if op.And? {
        LargerScope(t, x, s1, s2);
        LargerScope(t, y, s1, s2);
      } else {
        BranchesLarger(t, x, false, s1, s2);
        BranchesLarger(t, y, false, s1, s2);
      }
    case Paren(x) => LargerScope(t, x, s1, s2);
    case ListLit(es) => ListLarger(t, es, s1, s2);
    case StructLit(ds) => DeclsLarger(t, ds, s1, s2);
    case _ =>
  }

  lemma LookUpLarger(n: string, s1: Scope, s2: Scope)
    requires Larger(s1, s2) && LookUp(n, Some(s1)).Ok?
    ensures LookUp(n, Some(s2)) == LookUp(n, Some(s1))
  {
  }

  lemma ComparisonOk(t: Tools, op: BinOp, x: Expr, y: Expr, l: Res<Value>, r: Res<Value>)
    requires IsCompare(op) && Comparison(t, op, x, y, l, r).Ok?
    ensures l.Ok? && r.Ok?
  {
  }

  lemma {:induction false} BranchesLarger(t: Tools, e: Expr, marked: bool, s1: Scope, s2: Scope)
    requires Larger(s1, s2) && EvalBranches(t, e, marked, Some(s1)).Ok?
    ensures EvalBranches(t, e, marked, Some(s2)) == EvalBranches(t, e, marked, Some(s1))
    decreases e, 3
  {
    hide EvalExpr, Larger;
    if e.Unary? && e.uop.Mark? {
      BranchesLarger(t, e.operand, true, s1, s2);
    } else if e.Binary? && e.op.Or? {
      BranchesLarger(t, e.x, marked, s1, s2);
      BranchesLarger(t, e.y, marked, s1, s2);
    } else {
      LargerScope(t, e, s1, s2);
    }
  }

  lemma {:induction false} ItemsLarger(t: Tools, es: seq<Elem>, s1: Scope, s2: Scope)
    requires Larger(s1, s2) && EvalItems(t, es, Some(s1)).Ok?
    ensures EvalItems(t, es, Some(s2)) == EvalItems(t, es, Some(s1))
    decreases es, 4
  {
    if es != [] {
      hide EvalExpr, EvalComp, Larger;
      var el := es[0];
      ItemsLarger(t, es[1..], s1, s2);
      match el
      case Ellipsis(_) =>
      case CompElem(c) => assert c < el; CompLarger(t, c, s1, s2);
      case Item(e) => assert e < el; LargerScope(t, e, s1, s2);
    }
  }

  lemma {:induction false} ListLarger(t: Tools, es: seq<Elem>, s1: Scope, s2: Scope)
    requires Larger(s1, s2) && EvalList(t, es, Some(s1)).Ok?
    ensures EvalList(t, es, Some(s2)) == EvalList(t, es, Some(s1))
    decreases es, 4
  {
    if es != [] {
      hide EvalExpr, EvalComp, Larger;
      var n := |es| - 1;
      var el := es[n];
      ListLarger(t, es[..n], s1, s2);
      match el
      case Ellipsis(None) =>
      case Ellipsis(Some(typ)) => assert typ < el.typ && el.typ < el; LargerScope(t, typ, s1, s2);
      case CompElem(c) => assert c < el; CompLarger(t, c, s1, s2);
      case Item(e) => assert e < el; LargerScope(t, e, s1, s2);
    }
  }

  lemma {:induction false} CompLarger(t: Tools, c: Comprehension, s1: Scope, s2: Scope)
    requires Larger(s1, s2) && EvalComp(t, c, Some(s1)).Ok?
    ensures EvalComp(t, c, Some(s2)) == EvalComp(t, c, Some(s1))
    decreases c, 4
  {
    hide EvalExpr, EvalStruct, Larger;
    var first := c.clauses[0];
    assert first.cond < first;
    LargerScope(t, first.cond, s1, s2);
    StructLarger(t, c.body.decls, s1, s2);
  }

  lemma {:induction false} StructLarger(t: Tools, ds: seq<Decl>, s1: Scope, s2: Scope)
    requires Larger(s1, s2) && EvalStruct(t, ds, Some(s1)).Ok?
    ensures EvalStruct(t, ds, Some(s2)) == EvalStruct(t, ds, Some(s1))
    decreases ds, 5
  {
    hide EvalDecls, Finish, Larger;
    DeclsLarger(t, ds, s1, s2);
  }

  lemma {:induction false} DeclsLarger(t: Tools, ds: seq<Decl>, s1: Scope, s2: Scope)
    requires Larger(s1, s2) && EvalDecls(t, ds, Some(s1)).Ok?
    ensures EvalDecls(t, ds, Some(s2)) == EvalDecls(t, ds, Some(s1))
    decreases ds, 4
  {
    if ds != [] {
      hide EvalExpr, AppendOrUnify, Larger;
      var n := |ds| - 1;
      var d := ds[n];
      DeclsLarger(t, ds[..n], s1, s2);
      match d
      case FieldDecl(_, _, value) => assert value < d; LargerScope(t, value, s1, s2);
      case Embed(e) => assert e < d; LargerScope(t, e, s1, s2);
      case _ =>
    }
  }

  // ----- Forced values hold no thunk -----

  /** The meet makes no thunk of its own. */
  ghost predicate MeetAddsNoThunk(t: Tools)
  {
    forall a, b | !HasThunk(a) && !HasThunk(b) :: !HasThunk(t.meet(a, b))
  }

  ghost predicate NoneHasThunk(vs: seq<Value>)
  {
    forall v <- vs :: !HasThunk(v)
  }

  ghost predicate NoBranchHasThunk(bs: seq<Branch>)
  {
    forall b <- bs :: !HasThunk(b.v)
  }

  lemma ListHasNoThunk(p: seq<Value>, tl: Values.Tail)
    requires NoneHasThunk(p) && (tl.Open? ==> !HasThunk(tl.elem))
    ensures !HasThunk(List(p, tl))
  {
    forall i | 0 <= i < |p| ensures !HasThunk(p[i]) { assert p[i] in p; }
  }

  lemma DisjHasNoThunk(bs: seq<Branch>)
    ensures !HasThunk(Disj(bs)) <==> NoBranchHasThunk(bs)
  {
    if !HasThunk(Disj(bs)) {
      forall b <- bs ensures !HasThunk(b.v) { var i :| 0 <= i < |bs| && bs[i] == b; }
    }
    if NoBranchHasThunk(bs) {
      forall i | 0 <= i < |bs| ensures !HasThunk(bs[i].v) { assert bs[i] in bs; }
    }
  }

  lemma LiveDedupeNoThunk(bs: seq<Branch>)
    requires NoBranchHasThunk(bs)
    ensures NoBranchHasThunk(Dedupe(LiveOf(bs)))
  {
    var live := LiveOf(bs);
    forall b <- Dedupe(live) ensures !HasThunk(b.v) {
      var k :| 0 <= k < |Dedupe(live)| && Dedupe(live)[k] == b;
      DedupeOrigin(live, k);
      var i :| 0 <= i < |live| && live[i].v == b.v;
      assert live[i] in live && live[i] in bs;
    }
  }

  lemma BuildHasNoThunk(bs: seq<Branch>, hasMark: bool)
    requires NoBranchHasThunk(bs)
    ensures !HasThunk(BuildDisjunction(bs, hasMark))
  {
    hide HasThunk;
    var live := Dedupe(LiveOf(bs));
    LiveDedupeNoThunk(bs);
    var raised := if hasMark then RaiseMaybe(live) else live;
    forall b <- raised ensures !HasThunk(b.v) {
      var i :| 0 <= i < |raised| && raised[i] == b;
      assert live[i] in live && raised[i].v == live[i].v;
    }
    DisjHasNoThunk(raised);
    if raised == [] { BottomHasNoThunk(); } else { assert raised[0] in raised; }
  }

  lemma BottomHasNoThunk()
    ensures !HasThunk(Bottom)
  {
  }

  lemma FlattenHasNoThunk(v: Value, marked: bool)
    requires !HasThunk(v)
    ensures NoBranchHasThunk(Flatten(v, marked))
  {
    if v.Disj? {
      forall b <- Flatten(v, marked) ensures !HasThunk(b.v) {
        var i :| 0 <= i < |v.branches| && Flatten(v, marked)[i] == b;
      }
    }
  }

  lemma DefaultHasNoThunk(v: Value)
    requires !HasThunk(v) && v.Disj? && DefaultIndex(v.branches).Some?
    ensures !HasThunk(v.branches[DefaultIndex(v.branches).value].v)
  {
  }

  /** MAIN: evaluated in a scope without thunks, an expression holds no thunk where a force pass would look. */
  lemma {:induction false} ForcedHasNoThunk(t: Tools, e: Expr, s: Scope)
    requires Forceless(s) && MeetAddsNoThunk(t) && EvalExpr(t, e, Some(s)).Ok?
    ensures !HasThunk(EvalExpr(t, e, Some(s)).v)
    decreases e, 0
  {
    hide BuildDisjunction, Forceless, IsConcrete, Flatten;
    match e
    case Ident(n) => if Keyword(n).None? { LookedUpHasNoThunk(n, s); }
    case Index(target, index) =>
      ItemsHaveNoThunk(t, target.elems, s);
      var vs := EvalItems(t, target.elems, Some(s)).v;
      var k := EvalExpr(t, index, Some(s)).v;
      if 0 <= k.s.i < |vs| { assert vs[k.s.i] in vs; }
    case Binary(op, x, y) =>
      if op.And? {
        ForcedHasNoThunk(t, x, s);
        ForcedHasNoThunk(t, y, s);
      } else if op.Or? {
        BranchesHaveNoThunk(t, x, false, s);
        BranchesHaveNoThunk(t, y, false, s);
        var a, b := EvalBranches(t, x, false, Some(s)).v, EvalBranches(t, y, false, Some(s)).v;
        assert NoBranchHasThunk(a.0 + b.0);
        BuildHasNoThunk(a.0 + b.0, a.1 || b.1);
      }
    case Paren(x) => ForcedHasNoThunk(t, x, s);
    case ListLit(es) =>
      ListLitHasNoThunk(t, es, s);
      var l := EvalList(t, es, Some(s)).v;
      ListHasNoThunk(l.0, l.1);
    case StructLit(ds) => StructHasNoThunk(t, ds, s);
    case _ =>
  }

  lemma LookedUpHasNoThunk(n: string, s: Scope)
    requires Forceless(s) && LookUp(n, Some(s)).Ok?
    ensures !HasThunk(LookUp(n, Some(s)).v)
  {
    var v := s[n];
    if v.Disj? { DefaultHasNoThunk(v); }
  }

  lemma {:induction false} BranchesHaveNoThunk(t: Tools, e: Expr, marked: bool, s: Scope)
    requires Forceless(s) && MeetAddsNoThunk(t) && EvalBranches(t, e, marked, Some(s)).Ok?
    ensures NoBranchHasThunk(EvalBranches(t, e, marked, Some(s)).v.0)
    decreases e, 3
  {
    hide EvalExpr, Forceless, MeetAddsNoThunk, HasThunk, Flatten;
    if e.Unary? && e.uop.Mark? {
      BranchesHaveNoThunk(t, e.operand, true, s);
    } else if e.Binary? && e.op.Or? {
      BranchesHaveNoThunk(t, e.x, marked, s);
      BranchesHaveNoThunk(t, e.y, marked, s);
    } else {
      ForcedHasNoThunk(t, e, s);
      FlattenHasNoThunk(EvalExpr(t, e, Some(s)).v, marked);
    }
  }

  lemma {:induction false} ItemsHaveNoThunk(t: Tools, es: seq<Elem>, s: Scope)
    requires Forceless(s) && MeetAddsNoThunk(t) && EvalItems(t, es, Some(s)).Ok?
    ensures NoneHasThunk(EvalItems(t, es, Some(s)).v)
    decreases es, 4
  {
    if es != [] {
      hide EvalExpr, EvalComp, Forceless, MeetAddsNoThunk, HasThunk;
      var el := es[0];
      ItemsHaveNoThunk(t, es[1..], s);
      match el
      case Ellipsis(_) =>
      case CompElem(c) => assert c < el; CompHasNoThunk(t, c, s);
      case Item(e) => assert e < el; ForcedHasNoThunk(t, e, s);
    }
  }

  lemma {:induction false} ListLitHasNoThunk(t: Tools, es: seq<Elem>, s: Scope)
    requires Forceless(s) && MeetAddsNoThunk(t) && EvalList(t, es, Some(s)).Ok?
    ensures var l := EvalList(t, es, Some(s)).v; NoneHasThunk(l.0) && (l.1.Open? ==> !HasThunk(l.1.elem))
    decreases es, 4
  {
    if es != [] {
      TopHasNoThunk();
      hide EvalExpr, EvalComp, Forceless, MeetAddsNoThunk, HasThunk;
      var n := |es| - 1;
      var el := es[n];
      ListLitHasNoThunk(t, es[..n], s);
      match el
      case Ellipsis(None) => TopHasNoThunk();
      case Ellipsis(Some(typ)) => assert typ < el.typ && el.typ < el; ForcedHasNoThunk(t, typ, s);
      case CompElem(c) => assert c < el; CompHasNoThunk(t, c, s);
      case Item(e) => assert e < el; ForcedHasNoThunk(t, e, s);
    }
  }

  lemma TopHasNoThunk()
    ensures !HasThunk(Top)
  {
  }

  lemma {:induction false} CompHasNoThunk(t: Tools, c: Comprehension, s: Scope)
    requires Forceless(s) && MeetAddsNoThunk(t) && EvalComp(t, c, Some(s)).Ok?
    ensures NoneHasThunk(EvalComp(t, c, Some(s)).v)
    decreases c, 4
  {
    hide EvalExpr, EvalStruct, Forceless, MeetAddsNoThunk, HasThunk;
    StructHasNoThunk(t, c.body.decls, s);
  }

  lemma {:induction false} StructHasNoThunk(t: Tools, ds: seq<Decl>, s: Scope)
    requires Forceless(s) && MeetAddsNoThunk(t) && EvalStruct(t, ds, Some(s)).Ok?
    ensures !HasThunk(EvalStruct(t, ds, Some(s)).v)
    decreases ds, 5
  {
    hide EvalDecls, Forceless, RefsDeclared;
    EmbeddedHasNoThunk(t, ds, s);
    var b := EvalDecls(t, ds, Some(s)).v;
    assert !HasThunk(Struct(b.fields, false));
  }

  lemma {:induction false} EmbeddedHasNoThunk(t: Tools, ds: seq<Decl>, s: Scope)
    requires Forceless(s) && MeetAddsNoThunk(t) && EvalDecls(t, ds, Some(s)).Ok?
    ensures var b := EvalDecls(t, ds, Some(s)).v; b.embedded.Some? ==> !HasThunk(b.embedded.value)
    decreases ds, 4
  {
    if ds != [] {
      hide EvalExpr, AppendOrUnify, Forceless, HasThunk;
      var n := |ds| - 1;
      var d := ds[n];
      EmbeddedHasNoThunk(t, ds[..n], s);
      match d
      case FieldDecl(_, _, value) => assert value < d;
      case Embed(e) => assert e < d; ForcedHasNoThunk(t, e, s);
      case _ =>
    }
  }

  // ----- Names that must be concrete -----

  /** The names an expression cannot do without: all it evaluates in the scope it is forced in. */
  function Needed(e: Expr): set<string>
    decreases e, 0
  {
    match e
    case Ident(n) => if IsReference(n) then {n} else {}
    case Index(ListLit(es), i) => NeededItems(es) + Needed(i)
    case Binary(_, x, y) => Needed(x) + Needed(y)
    case Paren(x) => Needed(x)
    case ListLit(es) => NeededElems(es)
    case StructLit(ds) => NeededDecls(ds)
    case Unary(uop, x) => if uop.Mark? then Needed(x) else {}
    case _ => {}
  }

  /** An open tail is not among the elements an index picks from. */
  function NeededItems(es: seq<Elem>): set<string>
    decreases es, 2
  {
    if es == [] then {}
    else
      var el := es[0];
      (match el
       case Ellipsis(_) => {}
       case CompElem(c) => assert c < el; NeededComp(c)
       case Item(x) => assert x < el; Needed(x)) + NeededItems(es[1..])
  }

  function NeededElems(es: seq<Elem>): set<string>
    decreases es, 2
  {
    if es == [] then {}
    else
      var n := |es| - 1;
      var el := es[n];
      NeededElems(es[..n]) +
      (match el
       case Ellipsis(None) => {}
       case Ellipsis(Some(typ)) => assert typ < el.typ && el.typ < el; Needed(typ)
       case CompElem(c) => assert c < el; NeededComp(c)
       case Item(x) => assert x < el; Needed(x))
  }

  function NeededComp(c: Comprehension): set<string>
    decreases c, 1
  {
    if |c.clauses| == 1 && c.clauses[0].If? then
      var first := c.clauses[0];
      assert first.cond < first;
      Needed(first.cond) + Needed(c.body)
    else {}
  }

  function NeededDecls(ds: seq<Decl>): set<string>
    decreases ds, 2
  {
    if ds == [] then {}
    else
      var n := |ds| - 1;
      var d := ds[n];
      NeededDecls(ds[..n]) +
      (match d
       case FieldDecl(_, _, x) => assert x < d; Needed(x)
       case Embed(x) => assert x < d; Needed(x)
       case _ => {})
  }

  ghost predicate AllConcreteIn(s: Scope, names: set<string>)
  {
    forall n <- names :: n in s && IsConcrete(s[n])
  }

  /** MAIN: an expression has a value in a scope only if every name it needs is concrete there. */
  lemma {:induction false} NeedsConcrete(t: Tools, e: Expr, s: Scope)
    requires EvalExpr(t, e, Some(s)).Ok?
    ensures AllConcreteIn(s, Needed(e))
    decreases e, 0
  {
    hide IsConcrete, Comparison, BuildDisjunction, UnaryOf, HasThunk;
    match e
    case Ident(n) => if IsReference(n) { ReferenceOrKeyword(n); }
    case Index(target, index) =>
      NeedsConcrete(t, index, s);
      ItemsNeed(t, target.elems, s);
    case Binary(op, x, y) =>
      if IsCompare(op) {
        ComparisonOk(t, op, x, y, EvalExpr(t, x, Some(s)), EvalExpr(t, y, Some(s)));
        NeedsConcrete(t, x, s);
        NeedsConcrete(t, y, s);
      } else if op.And? {
        NeedsConcrete(t, x, s);
        NeedsConcrete(t, y, s);
      } else {
        BranchesNeed(t, x, false, s);
        BranchesNeed(t, y, false, s);
      }
    case Paren(x) => NeedsConcrete(t, x, s);
    case ListLit(es) => ListNeeds(t, es, s);
    case StructLit(ds) => DeclsNeed(t, ds, s);
    case _ =>
  }

  lemma {:induction false} BranchesNeed(t: Tools, e: Expr, marked: bool, s: Scope)
    requires EvalBranches(t, e, marked, Some(s)).Ok?
    ensures AllConcreteIn(s, Needed(e))
    decreases e, 3
  {
    hide EvalExpr, IsConcrete, Flatten;
    if e.Unary? && e.uop.Mark? {
      BranchesNeed(t, e.operand, true, s);
    } else if e.Binary? && e.op.Or? {
      BranchesNeed(t, e.x, marked, s);
      BranchesNeed(t, e.y, marked, s);
    } else {
      NeedsConcrete(t, e, s);
    }
  }

  lemma {:induction false} ItemsNeed(t: Tools, es: seq<Elem>, s: Scope)
    requires EvalItems(t, es, Some(s)).Ok?
    ensures AllConcreteIn(s, NeededItems(es))
    decreases es, 4
  {
    if es != [] {
      hide EvalExpr, EvalComp, IsConcrete, Needed, NeededComp;
      var el := es[0];
      ItemsNeed(t, es[1..], s);
      match el
      case Ellipsis(_) =>
      case CompElem(c) => assert c < el; CompNeeds(t, c, s);
      case Item(e) => assert e < el; NeedsConcrete(t, e, s);
    }
  }

  lemma {:induction false} ListNeeds(t: Tools, es: seq<Elem>, s: Scope)
    requires EvalList(t, es, Some(s)).Ok?
    ensures AllConcreteIn(s, NeededElems(es))
    decreases es, 4
  {
    if es != [] {
      hide EvalExpr, EvalComp, IsConcrete, Needed, NeededComp;
      var n := |es| - 1;
      var el := es[n];
      ListNeeds(t, es[..n], s);
      match el
      case Ellipsis(None) =>
      case Ellipsis(Some(typ)) => assert typ < el.typ && el.typ < el; NeedsConcrete(t, typ, s);
      case CompElem(c) => assert c < el; CompNeeds(t, c, s);
      case Item(e) => assert e < el; NeedsConcrete(t, e, s);
    }
  }

  lemma {:induction false} CompNeeds(t: Tools, c: Comprehension, s: Scope)
    requires EvalComp(t, c, Some(s)).Ok?
    ensures AllConcreteIn(s, NeededComp(c))
    decreases c, 4
  {
    hide EvalExpr, EvalDecls, IsConcrete, NeededDecls, Finish;
    var first := c.clauses[0];
    assert first.cond < first;
    NeedsConcrete(t, first.cond, s);
    DeclsNeed(t, c.body.decls, s);
    assert Needed(c.body) == NeededDecls(c.body.decls);
    hide Needed;
  }

  lemma {:induction false} DeclsNeed(t: Tools, ds: seq<Decl>, s: Scope)
    requires EvalDecls(t, ds, Some(s)).Ok?
    ensures AllConcreteIn(s, NeededDecls(ds))
    decreases ds, 4
  {
    if ds != [] {
      hide EvalExpr, IsConcrete, Needed, AppendOrUnify;
      var n := |ds| - 1;
      var d := ds[n];
      DeclsNeed(t, ds[..n], s);
      match d
      case FieldDecl(_, _, value) => assert value < d; NeedsConcrete(t, value, s);
      case Embed(e) => assert e < d; NeedsConcrete(t, e, s);
      case _ =>
    }
  }

}
