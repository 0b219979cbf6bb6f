/** Lists, index picks and structs: what is evaluated of their parts, put together, is what the whole means. */
module Compounds {

  import opened Wrappers
  import opened Syntax
  import opened Values
  import opened Semantics
  import opened Meet
  import opened MeetSound
  import opened MeetWf
  import opened Eval
  import opened Meaning
  import opened Combining
  import opened Constructs

  // ----- Elements -----

  ghost predicate ElemMeans(m: Regexes, v: Value, el: Elem, strict: bool)
  {
    Wf(v) && forall g :: (Member(g, v) ==> ElemAdmits(m, g, el)) && (strict && ElemAdmits(m, g, el) ==> Member(g, v))
  }

  /** The values are those of the elements that count, in order. */
  ghost predicate PrefixMeans(m: Regexes, vs: seq<Value>, es: seq<Elem>, strict: bool)
  {
    |vs| == Count(m, es) && forall k: nat | k < |vs| :: PickMeans(m, vs[k], es, k, strict)
  }

  ghost predicate PickMeans(m: Regexes, v: Value, es: seq<Elem>, k: nat, strict: bool)
  {
    Wf(v) && forall g :: (Member(g, v) ==> PickAdmits(m, g, es, k)) && (strict && PickAdmits(m, g, es, k) ==> Member(g, v))
  }

  ghost predicate TailMeans(m: Regexes, tl: Values.Tail, es: seq<Elem>, strict: bool)
  {
    match tl
    case Closed => forall g :: !TailAdmits(m, g, es)
    case Open(v) => Wf(v) && forall g :: (Member(g, v) ==> TailAdmits(m, g, es)) && (strict && TailAdmits(m, g, es) ==> Member(g, v))
  }

  lemma ItemMeans(m: Regexes, v: Value, e: Expr, strict: bool)
    requires Wf(v) && Means(m, v, e, strict)
    ensures ElemMeans(m, v, Item(e), strict)
  {
    hide Member, Wf;
    forall g ensures ElemAdmits(m, g, Item(e)) <==> Admits(m, g, e) {}
    hide ElemAdmits, Admits;
  }

  /** An `if` element: kept or not as its condition says. */
  lemma CompMeans(m: Regexes, c: Comprehension, cond: Value, body: Value, strict: bool)
    requires |c.clauses| == 1 && c.clauses[0].If? && cond.Con? && cond.s.Bool?
    requires Means(m, cond, c.clauses[0].cond, true) && Wf(body) && Means(m, body, c.body, strict)
    ensures Counts(m, CompElem(c)) <==> cond.s.b
    ensures ElemMeans(m, body, CompElem(c), strict)
  {
    MeansAt(m, cond, c.clauses[0].cond, true, GScalar(Bool(true)));
    hide Wf;
    forall g ensures ElemAdmits(m, g, CompElem(c)) <==> Admits(m, g, c.body) {}
    hide ElemAdmits, Admits;
  }

  lemma TypeMeans(m: Regexes, v: Value, typ: Option<Expr>, strict: bool)
    requires Wf(v) && if typ.None? then v.Top? else Means(m, v, typ.value, strict)
    ensures ElemMeans(m, v, Ellipsis(typ), strict)
  {
    hide Wf;
    forall g ensures ElemAdmits(m, g, Ellipsis(typ)) <==> typ.None? || Admits(m, g, typ.value) {}
    hide ElemAdmits, Admits;
  }

  // ----- Adding an element at either end -----

  lemma {:induction false} PickInRange(m: Regexes, g: Ground, es: seq<Elem>, k: nat)
    requires PickAdmits(m, g, es, k)
    ensures k < Count(m, es)
    decreases es
  {
    hide ElemAdmits, Counts;
    if !Counts(m, es[0]) {
      PickInRange(m, g, es[1..], k);
    } else if k > 0 {
      PickInRange(m, g, es[1..], k - 1);
    }
  }

  lemma ConsMeans(m: Regexes, here: seq<Value>, vs: seq<Value>, es: seq<Elem>, strict: bool)
    requires es != [] && PrefixMeans(m, vs, es[1..], strict)
    requires if Counts(m, es[0]) then |here| == 1 && ElemMeans(m, here[0], es[0], strict) else here == []
    ensures PrefixMeans(m, here + vs, es, strict)
  {
    hide Wf, Member, ElemAdmits, Counts;
    var all := here + vs;
    forall k: nat | k < |all| ensures PickMeans(m, all[k], es, k, strict) {
      if !Counts(m, es[0]) {
        assert all == vs;
        assert PickMeans(m, vs[k], es[1..], k, strict);
      } else if k > 0 {
        assert PickMeans(m, vs[k - 1], es[1..], k - 1, strict);
      }
    }
  }

  lemma {:induction false} CountSnoc(m: Regexes, es: seq<Elem>)
    requires es != []
    ensures Count(m, es) == Count(m, es[..|es| - 1]) + (if Counts(m, es[|es| - 1]) then 1 else 0)
    decreases |es|
  {
    hide Counts;
    if |es| > 1 {
      CountSnoc(m, es[1..]);
      assert es[1..][..|es| - 2] == es[..|es| - 1][1..];
    }
  }

  lemma {:induction false} PickSnoc(m: Regexes, g: Ground, es: seq<Elem>, k: nat)
    requires es != []
    ensures var n := |es| - 1; var before := Count(m, es[..n]);
      PickAdmits(m, g, es, k) <==>
      if k < before then PickAdmits(m, g, es[..n], k) else k == before && Counts(m, es[n]) && ElemAdmits(m, g, es[n])
    decreases |es|
  {
    hide Counts, ElemAdmits;
    if |es| > 1 {
      assert es[1..][..|es| - 2] == es[..|es| - 1][1..];
      if !Counts(m, es[0]) {
        PickSnoc(m, g, es[1..], k);
      } else if k > 0 {
        PickSnoc(m, g, es[1..], k - 1);
      }
    }
  }

  lemma SnocMeans(m: Regexes, vs: seq<Value>, here: seq<Value>, es: seq<Elem>, strict: bool)
    requires es != [] && PrefixMeans(m, vs, es[..|es| - 1], strict)
    requires var el := es[|es| - 1]; if Counts(m, el) then |here| == 1 && ElemMeans(m, here[0], el, strict) else here == []
    ensures PrefixMeans(m, vs + here, es, strict)
  {
    hide Wf, Member, ElemAdmits, Counts, PickAdmits, Count;
    var all := vs + here;
    CountSnoc(m, es);
    forall k: nat | k < |all| ensures PickMeans(m, all[k], es, k, strict) {
      forall g ensures PickAdmits(m, g, es, k) <==>
                       if k < |vs| then PickAdmits(m, g, es[..|es| - 1], k) else ElemAdmits(m, g, es[|es| - 1]) { PickSnoc(m, g, es, k); }
      if k < |vs| { assert PickMeans(m, vs[k], es[..|es| - 1], k, strict); }
    }
  }

  lemma NoElements(m: Regexes, strict: bool)
    ensures PrefixMeans(m, [], [], strict) && TailMeans(m, Closed, [], strict)
  {
  }

  lemma TailStays(m: Regexes, tl: Values.Tail, es: seq<Elem>, strict: bool)
    requires es != [] && !es[|es| - 1].Ellipsis? && TailMeans(m, tl, es[..|es| - 1], strict)
    ensures TailMeans(m, tl, es, strict)
  {
    hide Wf, Member, ElemAdmits;
    forall g ensures TailAdmits(m, g, es) <==> TailAdmits(m, g, es[..|es| - 1]) {}
  }

  lemma TailOpens(m: Regexes, v: Value, es: seq<Elem>, strict: bool)
    requires es != [] && es[|es| - 1].Ellipsis? && ElemMeans(m, v, es[|es| - 1], strict)
    ensures TailMeans(m, Open(v), es, strict) && !Counts(m, es[|es| - 1])
  {
    hide Wf, Member, ElemAdmits;
  }

  // ----- Lists and picks -----

  lemma ListMeans(m: Regexes, p: seq<Value>, tl: Values.Tail, es: seq<Elem>, strict: bool)
    requires PrefixMeans(m, p, es, strict) && TailMeans(m, tl, es, strict)
    ensures Wf(List(p, tl)) && Means(m, List(p, tl), ListLit(es), strict)
  {
    hide PickAdmits, TailAdmits, Count;
    forall k | 0 <= k < |p| ensures Wf(p[k]) { assert PickMeans(m, p[k], es, k, strict); }
    forall g ensures Member(g, List(p, tl)) ==> Admits(m, g, ListLit(es)) {
      if Member(g, List(p, tl)) { ListAdmits(m, g, p, tl, es, strict); }
    }
    forall g | strict && Admits(m, g, ListLit(es)) ensures Member(g, List(p, tl)) { ListHas(m, g, p, tl, es); }
    hide Member, Admits;
  }

  lemma ListAdmits(m: Regexes, g: Ground, p: seq<Value>, tl: Values.Tail, es: seq<Elem>, strict: bool)
    requires PrefixMeans(m, p, es, strict) && TailMeans(m, tl, es, strict) && Member(g, List(p, tl))
    ensures Admits(m, g, ListLit(es))
  {
    hide PickAdmits, TailAdmits, Count, Wf;
    forall i | 0 <= i < |g.xs| ensures if i < Count(m, es) then PickAdmits(m, g.xs[i], es, i) else TailAdmits(m, g.xs[i], es) {
      if i < |p| { assert PickMeans(m, p[i], es, i, strict); }
    }
  }

  ghost predicate InTail(g: Ground, tl: Values.Tail)
  {
    tl.Open? && Member(g, tl.elem)
  }

  lemma ListHas(m: Regexes, g: Ground, p: seq<Value>, tl: Values.Tail, es: seq<Elem>)
    requires PrefixMeans(m, p, es, true) && TailMeans(m, tl, es, true) && Admits(m, g, ListLit(es))
    ensures Member(g, List(p, tl))
  {
    hide PickAdmits, TailAdmits, Count, Wf;
    forall i: nat | i < |p| ensures Member(g.xs[i], p[i]) { assert PickMeans(m, p[i], es, i, true); }
    forall i: nat | |p| <= i < |g.xs| ensures InTail(g.xs[i], tl) { TailHas(m, g.xs[i], tl, es); }
    ListParts(g, p, tl);
  }

  lemma ListParts(g: Ground, p: seq<Value>, tl: Values.Tail)
    requires g.GList? && |p| <= |g.xs| && forall i: nat | i < |p| :: Member(g.xs[i], p[i])
    requires forall i: nat | |p| <= i < |g.xs| :: InTail(g.xs[i], tl)
    ensures Member(g, List(p, tl))
  {
    hide IsConcrete;
    assert |p| < |g.xs| ==> InTail(g.xs[|p|], tl);
  }

  lemma TailHas(m: Regexes, g: Ground, tl: Values.Tail, es: seq<Elem>)
    requires TailMeans(m, tl, es, true) && TailAdmits(m, g, es)
    ensures InTail(g, tl)
  {
    hide TailAdmits, Member, Wf;
  }

  function Picked(vs: seq<Value>, k: int): Value
  {
    if 0 <= k < |vs| then vs[k] else Bottom
  }

  lemma IndexMeans(m: Regexes, es: seq<Elem>, index: Expr, k: int, vs: seq<Value>, strict: bool)
    requires Means(m, Con(Int(k)), index, strict) && PrefixMeans(m, vs, es, strict)
    ensures Wf(Picked(vs, k)) && Means(m, Picked(vs, k), Index(ListLit(es), index), strict)
  {
    var v, e := Picked(vs, k), Index(ListLit(es), index);
    OnlyScalar(m, Int(k), index, strict);
    hide Wf, Member, PickAdmits, Count, Means;
    assert Wf(v) by { if 0 <= k < |vs| { assert PickMeans(m, vs[k], es, k, strict); } else { BottomIsEmpty(); } }
    BottomIsEmpty();
    forall g ensures Member(g, v) ==> Admits(m, g, e) {
      if Member(g, v) {
        assert PickMeans(m, vs[k], es, k, strict);
        assert Admits(m, GScalar(Int(k)), index) && PickAdmits(m, g, es, k);
      }
    }
    forall g | strict && Admits(m, g, e) ensures Member(g, v) {
      var j: nat :| Admits(m, GScalar(Int(j)), index) && PickAdmits(m, g, es, j);
      assert Int(j) == Int(k);
      PickInRange(m, g, es, j);
      assert PickMeans(m, vs[k], es, k, strict);
    }
    MeansBy(m, v, e, strict);
  }

  lemma BottomIsEmpty()
    ensures Wf(Bottom) && forall g :: !Member(g, Bottom)
  {
  }

  // ----- Fields -----

  predicate NamesKey(ds: seq<Decl>, n: string)
  {
    exists i | 0 <= i < |ds| :: ds[i].FieldDecl? && KeyOf(ds[i].lab) == Some(n)
  }

  ghost predicate KeysAdmit(m: Regexes, g: Ground, ds: seq<Decl>)
  {
    forall i | 0 <= i < |ds| :: ds[i].FieldDecl? ==> DeclAdmits(m, g, ds[i])
  }

  ghost predicate EmbedsAdmit(m: Regexes, g: Ground, ds: seq<Decl>)
  {
    forall i | 0 <= i < |ds| :: ds[i].Embed? ==> DeclAdmits(m, g, ds[i])
  }

  ghost predicate AllHold(g: Ground, fs: seq<Field>)
    requires g.GStruct?
  {
    forall i | 0 <= i < |fs| :: FieldHolds(g, fs[i])
  }

  ghost predicate WfFields(fs: seq<Field>)
  {
    UniqueNames(fs) && forall i | 0 <= i < |fs| :: Wf(fs[i].val)
  }

  /** The fields so far: their names, and the documents they admit. */
  ghost predicate FieldsMean(m: Regexes, fs: seq<Field>, ds: seq<Decl>, strict: bool)
  {
    && WfFields(fs) && (fs == [] <==> !HasKeys(ds)) && (forall n :: HasField(fs, n) <==> NamesKey(ds, n))
    && forall g: Ground | g.GStruct? :: (AllHold(g, fs) ==> KeysAdmit(m, g, ds)) && (strict && KeysAdmit(m, g, ds) ==> AllHold(g, fs))
  }

  /** The meet of what was embedded so far. */
  ghost predicate EmbedsMean(m: Regexes, v: Option<Value>, ds: seq<Decl>, strict: bool)
  {
    && (v.None? <==> !HasEmbed(ds))
    && (v.Some? ==> Wf(v.value))
    && (v.Some? ==> forall g :: (Member(g, v.value) ==> EmbedsAdmit(m, g, ds)) && (strict && EmbedsAdmit(m, g, ds) ==> Member(g, v.value)))
  }

  /** No comprehension among the fields: the evaluator refuses one. */
  predicate Plain(ds: seq<Decl>)
  {
    forall i | 0 <= i < |ds| :: !ds[i].CompDecl?
  }

  ghost predicate BuiltMeans(m: Regexes, b: Built, ds: seq<Decl>, strict: bool)
  {
    && FieldsMean(m, b.fields, ds, strict) && EmbedsMean(m, b.embedded, ds, strict)
    && Plain(ds)
  }

  lemma HoldsIffMember(g: Ground, fs: seq<Field>)
    requires g.GStruct?
    ensures AllHold(g, fs) <==> Member(g, Struct(fs, false))
  {
    hide IsConcrete;
  }

  // ----- A repeated key -----

  /** What the field list becomes with one more field: it holds where the list and the field both hold. */
  lemma {:induction false} AppendNames(m: Regexes, fs: seq<Field>, f: Field)
    requires WfFields(fs) && Wf(f.val)
    ensures var r := AppendOrUnify(PlainTools(m), fs, f);
      WfFields(r) && r != [] && forall n :: HasField(r, n) <==> HasField(fs, n) || n == f.name
    decreases |fs|
  {
    hide Wf, Unify;
    var r := AppendOrUnify(PlainTools(m), fs, f);
    if fs == [] {
      assert r[0] == f;
    } else if fs[0].name == f.name {
      MeetIsWf(fs[0].val, f.val);
      assert r[1..] == fs[1..] && r[0].name == f.name;
      SplitNames(r);
      SplitNames(fs);
    } else {
      AppendNames(m, fs[1..], f);
      assert r[1..] == AppendOrUnify(PlainTools(m), fs[1..], f) && r[0] == fs[0];
      SplitNames(r);
      SplitNames(fs);
    }
  }

  lemma SplitNames(fs: seq<Field>)
    requires fs != []
    ensures forall n :: HasField(fs, n) <==> fs[0].name == n || HasField(fs[1..], n)
    ensures UniqueNames(fs) <==> UniqueNames(fs[1..]) && !HasField(fs[1..], fs[0].name)
  {
    forall n ensures HasField(fs, n) <==> fs[0].name == n || HasField(fs[1..], n) {
      if HasField(fs, n) {
        var i :| 0 <= i < |fs| && fs[i].name == n;
        if i > 0 { assert fs[1..][i - 1] == fs[i]; }
      }
    }
    if UniqueNames(fs[1..]) && !HasField(fs[1..], fs[0].name) {
      forall i, j | 0 <= i < j < |fs| ensures fs[i].name != fs[j].name {
        assert fs[1..][j - 1] == fs[j];
        if i > 0 { assert fs[1..][i - 1] == fs[i]; }
      }
    }
  }

  lemma SplitHolds(g: Ground, fs: seq<Field>)
    requires g.GStruct? && fs != []
    ensures AllHold(g, fs) <==> FieldHolds(g, fs[0]) && AllHold(g, fs[1..])
  {
    hide FieldHolds;
    if FieldHolds(g, fs[0]) && AllHold(g, fs[1..]) {
      forall i | 0 <= i < |fs| ensures FieldHolds(g, fs[i]) { if i > 0 { assert fs[1..][i - 1] == fs[i]; } }
    }
  }

  lemma {:induction false} AppendSound(m: Regexes, fs: seq<Field>, f: Field, g: Ground)
    requires WfFields(fs) && Wf(f.val) && g.GStruct? && AllHold(g, AppendOrUnify(PlainTools(m), fs, f))
    ensures AllHold(g, fs) && FieldHolds(g, f)
    decreases |fs|
  {
    hide Wf, Unify, Member, AllHold;
    var r := AppendOrUnify(PlainTools(m), fs, f);
    SplitHolds(g, r);
    if fs == [] {
      assert AllHold(g, []) by { NothingHolds(g); }
    } else {
      SplitHolds(g, fs);
      if fs[0].name == f.name {
        if f.name in g.m { MeetIsSound(fs[0].val, f.val, g.m[f.name]); }
      } else {
        AppendSound(m, fs[1..], f, g);
      }
    }
  }

  lemma NothingHolds(g: Ground)
    requires g.GStruct?
    ensures AllHold(g, [])
  {
  }

  predicate Joins(fs: seq<Field>, f: Field)
  {
    forall i | 0 <= i < |fs| :: fs[i].name == f.name ==> Combines(fs[i].val, f.val)
  }

  lemma {:induction false} AppendComplete(m: Regexes, fs: seq<Field>, f: Field, g: Ground)
    requires WfFields(fs) && Wf(f.val) && g.GStruct? && Joins(fs, f) && AllHold(g, fs) && FieldHolds(g, f)
    ensures AllHold(g, AppendOrUnify(PlainTools(m), fs, f))
    decreases |fs|
  {
    hide Wf, Unify, Member, AllHold, Combines;
    var r := AppendOrUnify(PlainTools(m), fs, f);
    SplitHolds(g, r);
    if fs == [] {
      NothingHolds(g);
      assert r[1..] == [];
    } else {
      SplitHolds(g, fs);
      if fs[0].name == f.name {
        if f.name in g.m { CombinesKeeps(fs[0].val, f.val, g.m[f.name]); }
        assert r[1..] == fs[1..];
      } else {
        AppendComplete(m, fs[1..], f, g);
        assert r[1..] == AppendOrUnify(PlainTools(m), fs[1..], f);
      }
    }
  }

  // ----- One more declaration -----

  lemma NoDecls(m: Regexes, strict: bool)
    ensures BuiltMeans(m, Built([], None), [], strict)
  {
  }

  /** How the names and constraints of a declaration list grow with its last declaration. */
  lemma LastDecl(m: Regexes, g: Ground, ds: seq<Decl>)
    requires ds != []
    ensures var d, front := ds[|ds| - 1], ds[..|ds| - 1];
      && (HasKeys(ds) <==> HasKeys(front) || d.FieldDecl?) && (HasEmbed(ds) <==> HasEmbed(front) || d.Embed?)
      && (KeysAdmit(m, g, ds) <==> KeysAdmit(m, g, front) && (d.FieldDecl? ==> DeclAdmits(m, g, d)))
      && (EmbedsAdmit(m, g, ds) <==> EmbedsAdmit(m, g, front) && (d.Embed? ==> DeclAdmits(m, g, d)))
  {
    hide DeclAdmits;
    var n := |ds| - 1;
    assert forall i | 0 <= i < n :: ds[..n][i] == ds[i];
  }

  lemma LastKey(ds: seq<Decl>, n: string)
    requires ds != []
    ensures var d := ds[|ds| - 1]; NamesKey(ds, n) <==> NamesKey(ds[..|ds| - 1], n) || (d.FieldDecl? && KeyOf(d.lab) == Some(n))
  {
    var k := |ds| - 1;
    assert forall i | 0 <= i < k :: ds[..k][i] == ds[i];
  }

  lemma FieldAdmits(m: Regexes, g: Ground, lab: Label, optional: bool, x: Expr, v: Value, strict: bool)
    requires KeyOf(lab).Some? && Means(m, v, x, strict) && g.GStruct?
    ensures var f, d := Field(KeyOf(lab).value, v, optional), FieldDecl(lab, optional, x);
      (FieldHolds(g, f) ==> DeclAdmits(m, g, d)) && (strict && DeclAdmits(m, g, d) ==> FieldHolds(g, f))
  {
    var n := KeyOf(lab).value;
    if n in g.m { MeansAt(m, v, x, strict, g.m[n]); }
    hide Member, Admits;
  }

  /** One more field. */
  lemma FieldStep(m: Regexes, fs: seq<Field>, ds: seq<Decl>, v: Value, strict: bool)
    requires ds != [] && ds[|ds| - 1].FieldDecl? && KeyOf(ds[|ds| - 1].lab).Some?
    requires FieldsMean(m, fs, ds[..|ds| - 1], strict) && Wf(v) && Means(m, v, ds[|ds| - 1].value, strict)
    requires strict ==> Joins(fs, Field(KeyOf(ds[|ds| - 1].lab).value, v, ds[|ds| - 1].optional))
    ensures FieldsMean(m, AppendOrUnify(PlainTools(m), fs, Field(KeyOf(ds[|ds| - 1].lab).value, v, ds[|ds| - 1].optional)), ds, strict)
  {
    hide Wf, Means, AppendOrUnify, AllHold, KeysAdmit, HasKeys, NamesKey, HasField, FieldHolds, DeclAdmits, Joins, PlainTools, WfFields;
    var d := ds[|ds| - 1];
    var f := Field(KeyOf(d.lab).value, v, d.optional);
    var r := AppendOrUnify(PlainTools(m), fs, f);
    AppendNames(m, fs, f);
    forall n ensures HasField(r, n) <==> NamesKey(ds, n) { LastKey(ds, n); }
    forall g: Ground | g.GStruct? ensures (AllHold(g, r) ==> KeysAdmit(m, g, ds)) && (strict && KeysAdmit(m, g, ds) ==> AllHold(g, r)) {
      LastDecl(m, g, ds);
      FieldAdmits(m, g, d.lab, d.optional, d.value, v, strict);
      if AllHold(g, r) { AppendSound(m, fs, f, g); }
      if strict && KeysAdmit(m, g, ds) { AppendComplete(m, fs, f, g); }
    }
    LastDecl(m, GScalar(Null), ds);
  }

  lemma FieldsStay(m: Regexes, fs: seq<Field>, ds: seq<Decl>, strict: bool)
    requires ds != [] && !ds[|ds| - 1].FieldDecl? && FieldsMean(m, fs, ds[..|ds| - 1], strict)
    ensures FieldsMean(m, fs, ds, strict)
  {
    hide AllHold, KeysAdmit, HasKeys, NamesKey, HasField, WfFields;
    forall n ensures HasField(fs, n) <==> NamesKey(ds, n) { LastKey(ds, n); }
    forall g: Ground | g.GStruct? ensures (AllHold(g, fs) ==> KeysAdmit(m, g, ds)) && (strict && KeysAdmit(m, g, ds) ==> AllHold(g, fs)) {
      LastDecl(m, g, ds);
    }
    LastDecl(m, GScalar(Null), ds);
  }

  lemma EmbedsStay(m: Regexes, v: Option<Value>, ds: seq<Decl>, strict: bool)
    requires ds != [] && !ds[|ds| - 1].Embed? && EmbedsMean(m, v, ds[..|ds| - 1], strict)
    ensures EmbedsMean(m, v, ds, strict)
  {
    hide Member, EmbedsAdmit, HasEmbed, Wf;
    LastDecl(m, GScalar(Null), ds);
    forall g ensures EmbedsAdmit(m, g, ds) <==> EmbedsAdmit(m, g, ds[..|ds| - 1]) { LastDecl(m, g, ds); }
  }

  lemma EmbedDecl(m: Regexes, g: Ground, e: Expr)
    ensures DeclAdmits(m, g, Embed(e)) <==> Admits(m, g, e)
  {
  }

  lemma NoEmbeds(m: Regexes, g: Ground, ds: seq<Decl>)
    requires !HasEmbed(ds)
    ensures EmbedsAdmit(m, g, ds)
  {
  }

  function Embedded(before: Option<Value>, v: Value): Value
  {
    if before.None? then v else Unify(before.value, v)
  }

  lemma EmbeddedAdmits(m: Regexes, before: Option<Value>, ds: seq<Decl>, v: Value, strict: bool, g: Ground)
    requires ds != [] && ds[|ds| - 1].Embed? && EmbedsMean(m, before, ds[..|ds| - 1], strict)
    requires Wf(v) && Means(m, v, ds[|ds| - 1].e, strict) && (strict && before.Some? ==> Combines(before.value, v))
    ensures Member(g, Embedded(before, v)) ==> EmbedsAdmit(m, g, ds)
    ensures strict && EmbedsAdmit(m, g, ds) ==> Member(g, Embedded(before, v))
  {
    hide Member, EmbedsAdmit, HasEmbed, Wf, DeclAdmits, Admits, Means, Unify, Combines;
    LastDecl(m, g, ds);
    EmbedDecl(m, g, ds[|ds| - 1].e);
    MeansAt(m, v, ds[|ds| - 1].e, strict, g);
    if before.None? {
      NoEmbeds(m, g, ds[..|ds| - 1]);
    } else {
      if Member(g, Embedded(before, v)) { MeetIsSound(before.value, v, g); }
      if strict && EmbedsAdmit(m, g, ds) { CombinesKeeps(before.value, v, g); }
    }
  }

  /** One more embedded value. */
  lemma EmbedStep(m: Regexes, before: Option<Value>, ds: seq<Decl>, v: Value, strict: bool)
    requires ds != [] && ds[|ds| - 1].Embed? && EmbedsMean(m, before, ds[..|ds| - 1], strict)
    requires Wf(v) && Means(m, v, ds[|ds| - 1].e, strict) && (strict && before.Some? ==> Combines(before.value, v))
    ensures EmbedsMean(m, Some(Embedded(before, v)), ds, strict)
  {
    var r := Embedded(before, v);
    assert Wf(r) by { if before.Some? { MeetIsWf(before.value, v); } }
    forall g ensures (Member(g, r) ==> EmbedsAdmit(m, g, ds)) && (strict && EmbedsAdmit(m, g, ds) ==> Member(g, r)) {
      EmbeddedAdmits(m, before, ds, v, strict, g);
    }
    hide Member, EmbedsAdmit, Wf, Means, Unify, Combines, Embedded;
  }

  // ----- The whole struct -----

  lemma StructAdmits(m: Regexes, g: Ground, ds: seq<Decl>)
    requires Plain(ds)
    ensures Admits(m, g, StructLit(ds)) <==>
            (HasKeys(ds) || !HasEmbed(ds) ==> g.GStruct?) && KeysAdmit(m, g, ds) && EmbedsAdmit(m, g, ds)
  {
    forall i | 0 <= i < |ds| && ds[i].OpenDecl? ensures DeclAdmits(m, g, ds[i]) {}
    hide HasKeys, HasEmbed, DeclAdmits;
  }

  function Finished(b: Built): Value
  {
    if b.embedded.None? then Struct(b.fields, false)
    else if b.fields == [] then b.embedded.value
    else Unify(Struct(b.fields, false), b.embedded.value)
  }

  predicate Closes(b: Built)
  {
    b.fields != [] && b.embedded.Some? ==> Combines(Struct(b.fields, false), b.embedded.value)
  }

  lemma FieldsWf(fs: seq<Field>)
    requires WfFields(fs)
    ensures Wf(Struct(fs, false))
  {
  }

  lemma FinishedWf(m: Regexes, b: Built, ds: seq<Decl>, strict: bool)
    requires BuiltMeans(m, b, ds, strict)
    ensures Wf(Finished(b)) && Wf(Struct(b.fields, false)) && (b.embedded.Some? ==> Wf(b.embedded.value))
  {
    hide Wf, WfFields;
    FieldsWf(b.fields);
    if b.embedded.Some? { MeetIsWf(Struct(b.fields, false), b.embedded.value); }
  }

  lemma PartsAdmit(m: Regexes, b: Built, ds: seq<Decl>, strict: bool, g: Ground)
    requires BuiltMeans(m, b, ds, strict)
    ensures Member(g, Struct(b.fields, false)) ==> g.GStruct? && KeysAdmit(m, g, ds)
    ensures strict && g.GStruct? && KeysAdmit(m, g, ds) ==> Member(g, Struct(b.fields, false))
    ensures b.embedded.None? ==> !HasEmbed(ds) && EmbedsAdmit(m, g, ds)
    ensures b.embedded.Some? ==> HasEmbed(ds) && (Member(g, b.embedded.value) ==> EmbedsAdmit(m, g, ds))
    ensures b.embedded.Some? && strict && EmbedsAdmit(m, g, ds) ==> Member(g, b.embedded.value)
    ensures b.fields == [] ==> !HasKeys(ds) && KeysAdmit(m, g, ds)
    ensures b.fields != [] ==> HasKeys(ds)
  {
    hide Wf, KeysAdmit, EmbedsAdmit, AllHold, WfFields, HasKeys, HasEmbed, HasField, NamesKey;
    if g.GStruct? { HoldsIffMember(g, b.fields); }
    if b.embedded.None? { NoEmbeds(m, g, ds); }
    if b.fields == [] { NoKeys(m, g, ds); }
  }

  lemma NoKeys(m: Regexes, g: Ground, ds: seq<Decl>)
    requires !HasKeys(ds)
    ensures KeysAdmit(m, g, ds)
  {
  }

  lemma FinishMeans(m: Regexes, b: Built, ds: seq<Decl>, strict: bool)
    requires BuiltMeans(m, b, ds, strict) && (strict ==> Closes(b))
    ensures Wf(Finished(b)) && Means(m, Finished(b), StructLit(ds), strict)
  {
    FinishedWf(m, b, ds, strict);
    hide Wf, KeysAdmit, EmbedsAdmit, HasKeys, HasEmbed, Member, Unify, FieldsMean, EmbedsMean, Combines, Means, Admits;
    var v, s := Finished(b), Struct(b.fields, false);
    forall g ensures Member(g, v) ==> Admits(m, g, StructLit(ds)) {
      PartsAdmit(m, b, ds, strict, g);
      StructAdmits(m, g, ds);
      if Member(g, v) && b.embedded.Some? && b.fields != [] { MeetIsSound(s, b.embedded.value, g); }
    }
    forall g | strict && Admits(m, g, StructLit(ds)) ensures Member(g, v) {
      PartsAdmit(m, b, ds, strict, g);
      StructAdmits(m, g, ds);
      if b.embedded.Some? && b.fields != [] { CombinesKeeps(s, b.embedded.value, g); }
    }
    MeansBy(m, v, StructLit(ds), strict);
  }

  // ----- Closing -----

  ghost predicate NamesOf(v: Value, x: Expr)
  {
    v.Struct? && forall n :: HasField(v.fields, n) <==> Declares(x, n)
  }

  lemma ClosedAdmits(g: Ground, v: Value)
    requires v.Struct?
    ensures Member(g, v.(closed := true)) <==> g.GStruct? && Member(g, v) && forall n <- g.m :: HasField(v.fields, n)
  {
    hide IsConcrete;
  }

  lemma CloseMeans(m: Regexes, x: Expr, v: Value, strict: bool)
    requires Wf(v) && Means(m, v, x, strict) && NamesOf(v, x)
    ensures Wf(v.(closed := true)) && Means(m, v.(closed := true), Call(Ident("close"), [x]), strict)
  {
    var e, r := Call(Ident("close"), [x]), v.(closed := true);
    assert [x][0] == x;
    hide Means, Member, Declares;
    forall g ensures (Member(g, r) ==> Admits(m, g, e)) && (strict && Admits(m, g, e) ==> Member(g, r)) {
      ClosedAdmits(g, v);
      MeansAt(m, v, x, strict, g);
    }
    MeansBy(m, r, e, strict);
  }

}
