/**
  Which documents pass, exactly. For schemas whose disjunctions branch over struct-free values the
  report is empty if and only if the document conforms; outside that fragment a conforming document
  can fail, as the last two lemmas show.
 */
module Acceptance {

  import opened Wrappers
  import opened Values
  import opened Meet
  import opened MeetFacts
  import opened Semantics
  import opened Validate

  // ----- The specification -----

  /** g satisfies s, a missing required field being allowed where the schema itself supplies a value. */
  ghost predicate Conforms(g: Ground, s: Value)
    decreases s
  {
    match s
    case Disj(bs) => exists i :: 0 <= i < |bs| && Conforms(g, bs[i].v)
    case Struct(fs, closed) =>
      && g.GStruct?
      && (forall i :: 0 <= i < |fs| ==>
            if fs[i].name in g.m then Conforms(g.m[fs[i].name], fs[i].val)
            else fs[i].optional || IsConcrete(fs[i].val))
      && (closed ==> forall k <- g.m :: HasField(fs, k))
    case List(p, t) =>
      && g.GList?
      && |p| <= |g.xs|
      && (forall i :: 0 <= i < |p| ==> Conforms(g.xs[i], p[i]))
      && (match t
          case Closed => |p| == |g.xs|
          case Open(e) => forall i :: |p| <= i < |g.xs| ==> Conforms(g.xs[i], e))
    case _ => Member(g, s)
  }

  /** Membership is the strict case: nothing required is missing. */
  lemma {:induction false} MembersConform(g: Ground, s: Value)
    requires Member(g, s)
    ensures Conforms(g, s)
    decreases s
  {
    match s
    case Disj(bs) =>
      var i :| 0 <= i < |bs| && Member(g, bs[i].v);
      MembersConform(g, bs[i].v);
    case Struct(fs, _) =>
      forall i | 0 <= i < |fs| && fs[i].name in g.m ensures Conforms(g.m[fs[i].name], fs[i].val) {
        MembersConform(g.m[fs[i].name], fs[i].val);
      }
    case List(p, t) =>
      forall i | 0 <= i < |p| ensures Conforms(g.xs[i], p[i]) { MembersConform(g.xs[i], p[i]); }
      if t.Open? {
        forall i | |p| <= i < |g.xs| ensures Conforms(g.xs[i], t.elem) { MembersConform(g.xs[i], t.elem); }
      }
    case _ =>
  }

  // ----- The fragment -----

  /** No members: a scalar, a type, a bound, top or bottom. */
  predicate Simple(v: Value)
  {
    !v.Disj? && !v.Struct? && !v.List?
  }

  /** Struct-free, with disjunctions only over simple values: what a disjunction may branch over. */
  predicate Flat(v: Value)
  {
    match v
    case Disj(bs) => forall i | 0 <= i < |bs| :: Simple(bs[i].v)
    case Struct(_, _) => false
    case List(p, t) => (forall i | 0 <= i < |p| :: Flat(p[i])) && (t.Open? ==> Flat(t.elem))
    case _ => true
  }

  /** Every disjunction of the schema branches over flat values. */
  predicate Tame(v: Value)
  {
    match v
    case Disj(bs) => forall i | 0 <= i < |bs| :: Flat(bs[i].v)
    case Struct(fs, _) => forall i | 0 <= i < |fs| :: Tame(fs[i].val)
    case List(p, t) => (forall i | 0 <= i < |p| :: Tame(p[i])) && (t.Open? ==> Tame(t.elem))
    case _ => true
  }

  /** No optional field, at any depth, is declared with a constraint nothing meets. */
  predicate OptionalsSound(v: Value)
  {
    match v
    case Struct(fs, _) =>
      forall i | 0 <= i < |fs| :: (fs[i].optional ==> !HasBottom(fs[i].val)) && OptionalsSound(fs[i].val)
    case List(p, t) => (forall i | 0 <= i < |p| :: OptionalsSound(p[i])) && (t.Open? ==> OptionalsSound(t.elem))
    case _ => true
  }

  lemma {:induction false} FlatConformsIsMember(g: Ground, s: Value)
    requires Flat(s) && Conforms(g, s)
    ensures Member(g, s)
    decreases s
  {
    match s
    case Disj(bs) =>
      var i :| 0 <= i < |bs| && Conforms(g, bs[i].v);
      FlatConformsIsMember(g, bs[i].v);
    case List(p, t) =>
      forall i | 0 <= i < |p| ensures Member(g.xs[i], p[i]) { FlatConformsIsMember(g.xs[i], p[i]); }
      if t.Open? {
        forall i | |p| <= i < |g.xs| ensures Member(g.xs[i], t.elem) { FlatConformsIsMember(g.xs[i], t.elem); }
      }
    case _ =>
  }

  // ----- Meeting a lifted document with a flat value -----

  /** A meet that failed: bottom, or a list holding a failure. */
  predicate Broken(v: Value)
  {
    match v
    case Bottom => true
    case List(p, t) => t.Closed? && exists i | 0 <= i < |p| :: Broken(p[i])
    case _ => false
  }

  lemma {:induction false} BrokenIsNotConcrete(v: Value)
    requires Broken(v)
    ensures HasBottomLeaf(v) && !IsConcrete(v)
  {
    if v.List? {
      var i :| 0 <= i < |v.prefix| && Broken(v.prefix[i]);
      BrokenIsNotConcrete(v.prefix[i]);
    }
  }

  lemma LiftedFieldAt(d: Value, g: Ground, i: nat)
    requires Lifts(d, g) && g.GStruct? && i < |d.fields|
    ensures d.fields[i].name in g.m && Lifts(d.fields[i].val, g.m[d.fields[i].name])
    ensures HasField(d.fields, d.fields[i].name) && IndexOf(d.fields, d.fields[i].name) == i
  {
    LiftedNames(d, g, i);
    var n := d.fields[i].name;
    UniqueIndex(d.fields, i);
    hide UniqueNames, HasField;
    assert Lifts(d.fields[IndexOf(d.fields, n)].val, g.m[n]);
  }

  lemma LiftedNames(d: Value, g: Ground, i: nat)
    requires Lifts(d, g) && g.GStruct? && d.Struct? && i < |d.fields|
    ensures d.fields[i].name in g.m
  {
    var f := d.fields[i];
    assert f in d.fields;
    hide IndexOf, UniqueNames, HasField;
  }

  lemma UniqueIndex(fs: seq<Field>, i: nat)
    requires UniqueNames(fs) && i < |fs|
    ensures HasField(fs, fs[i].name) && IndexOf(fs, fs[i].name) == i
  {
  }

  lemma {:induction false} LiftedEqualsItself(d: Value, g: Ground)
    requires Lifts(d, g)
    ensures ConcreteEqual(d, d)
    decreases g
  {
    match g
    case GScalar(_) =>
    case GStruct(m) =>
      forall i | 0 <= i < |d.fields|
        ensures HasField(d.fields, d.fields[i].name) && IndexOf(d.fields, d.fields[i].name) == i
        ensures ConcreteEqual(d.fields[i].val, d.fields[i].val)
      {
        LiftedFieldAt(d, g, i);
        LiftedEqualsItself(d.fields[i].val, m[d.fields[i].name]);
      }
    case GList(xs) =>
      forall i | 0 <= i < |xs| ensures ConcreteEqual(d.prefix[i], d.prefix[i]) { LiftedEqualsItself(d.prefix[i], xs[i]); }
  }

  lemma SimpleMeet(d: Value, g: Ground, b: Value)
    requires Lifts(d, g) && Simple(b)
    ensures Unify(b, d) == if Member(g, b) then d else Bottom
    ensures Unify(d, b) == if Member(g, b) then d else Bottom
  {
  }

  /** Against a flat value a lifted document comes back unchanged if it is a member, and broken if not. */
  lemma {:induction false} FlatMeet(d: Value, g: Ground, b: Value)
    requires Lifts(d, g) && Flat(b)
    ensures var m := Unify(d, b); if Member(g, b) then m == d else Broken(m)
    ensures var m := Unify(b, d); if Member(g, b) then m == d else Broken(m)
    decreases g, b, 1
  {
    if Simple(b) {
      SimpleMeet(d, g, b);
    } else if b.Disj? {
      LiftedIsWf(d, g);
      forall i | 0 <= i < |b.branches| { SimpleMeet(d, g, b.branches[i].v); }
      SimpleDisjunctionMeet(d, g, b);
      assert Unify(d, b) == UnifyDisjunction(b, d) == Unify(b, d);
    } else if d.List? {
      if LengthsAgree(d, b) { FlatListMeet(d, g, b); }
      assert Unify(d, b) == UnifyList(d, b) && Unify(b, d) == UnifyList(b, d);
    }
  }

  lemma {:induction false} FlatListMeet(d: Value, g: Ground, b: Value)
    requires Lifts(d, g) && Flat(b) && b.List? && d.List? && LengthsAgree(d, b)
    ensures var m := UnifyList(d, b); if Member(g, b) then m == d else Broken(m)
    ensures var m := UnifyList(b, d); if Member(g, b) then m == d else Broken(m)
    decreases g, b, 0
  {
    var l, r := UnifyList(d, b), UnifyList(b, d);
    forall i | 0 <= i < |g.xs|
      ensures if Member(g.xs[i], ElemAt(b, i)) then l.prefix[i] == d.prefix[i] else Broken(l.prefix[i])
      ensures if Member(g.xs[i], ElemAt(b, i)) then r.prefix[i] == d.prefix[i] else Broken(r.prefix[i])
    {
      MeetElemAt(d, b, |d.prefix|, i);
      MeetElemAt(b, d, |d.prefix|, i);
      FlatMeet(d.prefix[i], g.xs[i], ElemAt(b, i));
    }
    if Member(g, b) {
      assert forall i | 0 <= i < |g.xs| :: Member(g.xs[i], ElemAt(b, i));
      assert l.prefix == d.prefix && r.prefix == d.prefix;
    } else {
      var i :| 0 <= i < |g.xs| && !Member(g.xs[i], ElemAt(b, i));
      assert Broken(l.prefix[i]) && Broken(r.prefix[i]);
    }
  }

  // ----- A disjunction whose branch meets are all d or broken -----

  /** Each branch of the disjunction meets d to d itself where g is a member, and to a failure elsewhere. */
  ghost predicate Decided(d: Value, g: Ground, s: Value)
    requires s.Disj?
  {
    forall i | 0 <= i < |s.branches| ::
      var m := Unify(s.branches[i].v, d);
      if Member(g, s.branches[i].v) then m == d else Broken(m)
  }

  lemma {:induction false} CrossSingle(ds: seq<Branch>, o: Value)
    ensures var cross := MeetCross(ds, [Branch(o, Maybe)]);
            |cross| == |ds| && forall i | 0 <= i < |ds| :: cross[i].v == Unify(ds[i].v, o)
  {
    hide Unify;
    if ds != [] {
      var n := |ds| - 1;
      CrossSingle(ds[..n], o);
      RowAt(ds[n], [Branch(o, Maybe)], 0);
      assert MeetCross(ds, [Branch(o, Maybe)]) == MeetCross(ds[..n], [Branch(o, Maybe)]) + MeetRow(ds[n], [Branch(o, Maybe)]);
      hide MeetCross, MeetRow;
    }
  }

  lemma {:induction false} CleanKeeps(bs: seq<Branch>, i: nat)
    requires i < |bs| && !HasBottomLeaf(bs[i].v)
    ensures bs[i] in CleanOf(bs)
  {
    if i < |bs| - 1 { CleanKeeps(bs[..|bs| - 1], i); }
  }

  lemma {:induction false} DedupeOfCopies(bs: seq<Branch>, d: Value)
    requires bs != [] && IsConcrete(d) && ConcreteEqual(d, d)
    requires forall b <- bs :: b.v == d
    ensures |Dedupe(bs)| == 1 && Dedupe(bs)[0].v == d
  {
    var n := |bs| - 1;
    if n == 0 {
      assert bs[..0] == [];
    } else {
      DedupeOfCopies(bs[..n], d);
    }
  }

  /** A surviving meet with d comes from one branch, is never a bare bottom, and is clean if any meet is. */
  lemma MetOrigin(s: Value, d: Value, k: nat)
    requires s.Disj? && !d.Disj? && k < |MeetBranches(s, d)|
    ensures exists c :: 0 <= c < |s.branches| && MeetBranches(s, d)[k].v == Unify(s.branches[c].v, d)
    ensures !MeetBranches(s, d)[k].v.Bottom?
    ensures (exists c :: 0 <= c < |s.branches| && !HasBottomLeaf(Unify(s.branches[c].v, d)))
            ==> !HasBottomLeaf(MeetBranches(s, d)[k].v)
  {
    CrossSingle(s.branches, d);
    var cross := MeetCross(s.branches, [Branch(d, Maybe)]);
    var clean, met := CleanOf(cross), MeetBranches(s, d);
    if clean != [] { CleanOrigin(cross, k); } else { DirtyOrigin(cross, k); }
    var c :| 0 <= c < |cross| && cross[c] == met[k];
    if i :| 0 <= i < |s.branches| && !HasBottomLeaf(Unify(s.branches[i].v, d)) {
      CleanKeeps(cross, i);
    }
  }

  lemma SomeCleanMeet(s: Value, d: Value, i: nat)
    requires s.Disj? && !d.Disj? && i < |s.branches| && !HasBottomLeaf(Unify(s.branches[i].v, d))
    ensures MeetBranches(s, d) != []
  {
    CrossSingle(s.branches, d);
    CleanKeeps(MeetCross(s.branches, [Branch(d, Maybe)]), i);
  }

  /** The branch meets that survive pruning: all d itself if the document is a member, else all failures. */
  lemma DecidedMeets(d: Value, g: Ground, s: Value)
    requires Lifts(d, g) && s.Disj? && Decided(d, g, s)
    ensures Member(g, s) ==> MeetBranches(s, d) != [] && forall b <- MeetBranches(s, d) :: b.v == d
    ensures !Member(g, s) ==> forall b <- MeetBranches(s, d) :: Broken(b.v) && !b.v.Bottom?
  {
    LiftedIsWf(d, g);
    var met := MeetBranches(s, d);
    if Member(g, s) {
      var i :| 0 <= i < |s.branches| && Member(g, s.branches[i].v);
      assert Unify(s.branches[i].v, d) == d;
      SomeCleanMeet(s, d, i);
    }
    forall k | 0 <= k < |met|
      ensures if Member(g, s) then met[k].v == d else Broken(met[k].v) && !met[k].v.Bottom?
    {
      MetOrigin(s, d, k);
      var c :| 0 <= c < |s.branches| && met[k].v == Unify(s.branches[c].v, d);
      if !Member(g, s.branches[c].v) { BrokenIsNotConcrete(met[k].v); }
    }
  }

  /** The surviving branches all equal d and collapse to it; if none survives the meet is not concrete. */
  lemma DisjunctionMeet(d: Value, g: Ground, s: Value)
    requires Lifts(d, g) && s.Disj? && Decided(d, g, s)
    ensures Member(g, s) ==> UnifyDisjunction(s, d) == d
    ensures !Member(g, s) ==> !IsConcrete(UnifyDisjunction(s, d))
  {
    DecidedMeets(d, g, s);
    var met := MeetBranches(s, d);
    if Member(g, s) {
      LiftedIsWf(d, g);
      LiftedEqualsItself(d, g);
      DedupeOfCopies(met, d);
    } else if met != [] {
      forall b <- met ensures !IsConcrete(b.v) { BrokenIsNotConcrete(b.v); }
      NothingConcrete(met, MeetDefault(s, d));
    }
  }

  lemma AllBottom(s: Value, d: Value)
    requires s.Disj? && !d.Disj? && forall i | 0 <= i < |s.branches| :: Unify(s.branches[i].v, d) == Bottom
    ensures UnifyDisjunction(s, d) == Bottom
  {
    hide Unify, MeetBranches, HasBottomLeaf, IsConcrete, Dedupe, Remark, MeetDefault;
    if MeetBranches(s, d) != [] { MetOrigin(s, d, 0); }
  }

  lemma SimpleDisjunctionMeet(d: Value, g: Ground, s: Value)
    requires Lifts(d, g) && s.Disj?
    requires forall i | 0 <= i < |s.branches| ::
               Simple(s.branches[i].v) && Unify(s.branches[i].v, d) == if Member(g, s.branches[i].v) then d else Bottom
    ensures UnifyDisjunction(s, d) == if Member(g, s) then d else Bottom
  {
    LiftedIsPlain(d, g);
    if Member(g, s) {
      hide Unify, Lifts, UnifyDisjunction;
      assert Broken(Bottom);
      DecidedIs(d, g, s);
      DisjunctionMeet(d, g, s);
    } else {
      forall i | 0 <= i < |s.branches| ensures Unify(s.branches[i].v, d) == Bottom {
        assert !Member(g, s.branches[i].v);
      }
      hide *;
      AllBottom(s, d);
    }
  }

  lemma {:induction false} NothingConcrete(bs: seq<Branch>, def: Option<Value>)
    requires bs != [] && forall b <- bs :: !IsConcrete(b.v)
    ensures forall b <- Dedupe(bs) :: !IsConcrete(b.v)
    ensures !IsConcrete(Disj(Remark(Dedupe(bs), def)))
  {
    forall k | 0 <= k < |Dedupe(bs)| ensures !IsConcrete(Dedupe(bs)[k].v) {
      DedupeOrigin(bs, k);
      var i :| 0 <= i < |bs| && Dedupe(bs)[k].v == bs[i].v;
      assert bs[i] in bs;
    }
  }

  // ----- Acceptance -----

  /** MAIN: on tame schemas validation accepts exactly the conforming documents. */
  lemma AcceptedIffConforms(d: Value, g: Ground, s: Value)
    requires Lifts(d, g) && Wf(s) && Tame(s) && OptionalsSound(s)
    ensures Leaves(Unify(d, s), []) == [] <==> Conforms(g, s)
  {
    NoLeavesIffConcrete(Unify(d, s), []);
    ConcreteIffConforms(d, g, s);
  }

  /** On tame schemas validation is complete: every member is accepted. */
  lemma MembersAreAccepted(d: Value, g: Ground, s: Value)
    requires Lifts(d, g) && Wf(s) && Tame(s) && OptionalsSound(s) && Member(g, s)
    ensures Leaves(Unify(d, s), []) == []
  {
    AcceptedIffConforms(d, g, s);
    MembersConform(g, s);
  }

  lemma TameIsDecided(d: Value, g: Ground, s: Value)
    requires Lifts(d, g) && Wf(s) && Tame(s) && s.Disj?
    ensures Decided(d, g, s)
  {
    forall i | 0 <= i < |s.branches|
      ensures Wf(s.branches[i].v) && Flat(s.branches[i].v)
    {
    }
    hide *;
    forall i | 0 <= i < |s.branches|
      ensures var m := Unify(s.branches[i].v, d);
              if Member(g, s.branches[i].v) then m == d else Broken(m)
    {
      FlatMeet(d, g, s.branches[i].v);
    }
    DecidedIs(d, g, s);
  }

  lemma DecidedIs(d: Value, g: Ground, s: Value)
    requires s.Disj?
    requires forall i | 0 <= i < |s.branches| ::
      var m := Unify(s.branches[i].v, d);
      if Member(g, s.branches[i].v) then m == d else Broken(m)
    ensures Decided(d, g, s)
  {
    hide Unify, Member, Broken;
  }

  lemma TameConformsIsMember(g: Ground, s: Value)
    requires Wf(s) && Tame(s) && s.Disj?
    ensures Conforms(g, s) <==> Member(g, s)
  {
    if Conforms(g, s) {
      var i :| 0 <= i < |s.branches| && Conforms(g, s.branches[i].v);
      FlatConformsIsMember(g, s.branches[i].v);
    }
    if Member(g, s) { MembersConform(g, s); }
  }

  lemma DisjAccepts(d: Value, g: Ground, s: Value)
    requires Lifts(d, g) && Wf(s) && Tame(s) && OptionalsSound(s) && s.Disj?
    ensures IsConcrete(Unify(d, s)) <==> Conforms(g, s)
  {
    LiftedIsWf(d, g);
    assert Unify(d, s) == UnifyDisjunction(s, d) by { hide UnifyDisjunction; LiftedIsPlain(d, g); }
    hide *;
    TameIsDecided(d, g, s);
    DisjunctionMeet(d, g, s);
    TameConformsIsMember(g, s);
  }

  lemma LiftedIsPlain(d: Value, g: Ground)
    requires Lifts(d, g)
    ensures d.Con? || d.Struct? || d.List?
  {
  }

  lemma {:induction false} ConcreteIffConforms(d: Value, g: Ground, s: Value)
    requires Lifts(d, g) && Wf(s) && Tame(s) && OptionalsSound(s)
    ensures IsConcrete(Unify(d, s)) <==> Conforms(g, s)
    decreases g, 2
  {
    hide ConcreteEqual, HasBottomLeaf, MeetBranches, Dedupe, MeetDefault, Remark, UnifyDisjunction;
    LiftedIsWf(d, g);
    if s.Disj? {
      DisjAccepts(d, g, s);
    } else if s.Struct? && d.Struct? {
      StructAccepts(d, g, s);
    } else if s.List? && d.List? {
      ListAccepts(d, g, s);
    }
  }

  lemma ConcreteByName(fs: seq<Field>, closed: bool)
    requires UniqueNames(fs)
    ensures IsConcrete(Struct(fs, closed)) <==> forall n :: FieldAccepts(Find(fs, n))
  {
    hide Absent;
    if IsConcrete(Struct(fs, closed)) {
      forall n ensures FieldAccepts(Find(fs, n)) {
        if HasField(fs, n) { assert Find(fs, n) == Some(fs[IndexOf(fs, n)]); }
      }
    }
    if forall n :: FieldAccepts(Find(fs, n)) {
      forall i | 0 <= i < |fs| ensures Absent(fs[i]) || IsConcrete(fs[i].val) {
        FindAt(fs, i);
        assert FieldAccepts(Find(fs, fs[i].name));
      }
    }
  }

  lemma ConformsByName(g: Ground, s: Value)
    requires Wf(s) && s.Struct? && g.GStruct?
    ensures Conforms(g, s) <==> forall n :: NameConforms(g, s, n)
  {
    hide IsConcrete;
    if Conforms(g, s) {
      forall n ensures NameConforms(g, s, n) {
        if HasField(s.fields, n) { assert Find(s.fields, n).value == s.fields[IndexOf(s.fields, n)]; }
      }
    }
    if forall n :: NameConforms(g, s, n) {
      forall i | 0 <= i < |s.fields| ensures NameConforms(g, s, s.fields[i].name) && Find(s.fields, s.fields[i].name) == Some(s.fields[i]) {
        FindAt(s.fields, i);
      }
      forall k <- g.m ensures NameConforms(g, s, k) { }
    }
  }

  lemma {:induction false} NameAccepts(d: Value, g: Ground, s: Value, n: string)
    requires Lifts(d, g) && Wf(s) && Tame(s) && OptionalsSound(s) && s.Struct? && d.Struct?
    ensures FieldAccepts(Find(UnifyStruct(d, s).fields, n)) <==> NameConforms(g, s, n)
    decreases g, 0
  {
    hide Unify, ConcreteEqual, HasBottomLeaf, MeetBranches, Dedupe, MeetDefault, Remark, UnifyDisjunction;
    StructMeetByName(d, s, n);
    LiftedFind(d, g, n);
    var x, f := Find(d.fields, n), Find(s.fields, n);
    if x.Some? && f.Some? {
      ConcreteIffConforms(x.value.val, g.m[n], f.value.val);
    } else if x.Some? {
      LiftedIsWf(x.value.val, g.m[n]);
    }
  }

  lemma {:induction false} StructAccepts(d: Value, g: Ground, s: Value)
    requires Lifts(d, g) && Wf(s) && Tame(s) && OptionalsSound(s) && s.Struct? && d.Struct?
    ensures IsConcrete(UnifyStruct(d, s)) <==> Conforms(g, s)
    decreases g, 1
  {
    LiftedIsWf(d, g);
    StructMeetUnique(d, s);
    ConformsByName(g, s);
    hide *;
    ConcreteByName(UnifyStruct(d, s).fields, UnifyStruct(d, s).closed);
    forall n ensures FieldAccepts(Find(UnifyStruct(d, s).fields, n)) <==> NameConforms(g, s, n) {
      NameAccepts(d, g, s, n);
    }
  }

  predicate FieldAccepts(f: Option<Field>)
  {
    f.Some? ==> Absent(f.value) || IsConcrete(f.value.val)
  }

  ghost predicate NameConforms(g: Ground, s: Value, n: string)
    requires g.GStruct? && s.Struct?
  {
    match Find(s.fields, n)
    case None => n in g.m ==> !s.closed
    case Some(f) => if n in g.m then Conforms(g.m[n], f.val) else f.optional || IsConcrete(f.val)
  }

  lemma {:induction false} ListAccepts(d: Value, g: Ground, s: Value)
    requires Lifts(d, g) && Wf(s) && Tame(s) && OptionalsSound(s) && s.List? && d.List?
    ensures IsConcrete(UnifyList(d, s)) <==> Conforms(g, s)
    decreases g, 0
  {
    hide Unify, ConcreteEqual, HasBottomLeaf, MeetBranches, Dedupe, MeetDefault, Remark, UnifyDisjunction;
    if LengthsAgree(d, s) {
      var out := UnifyList(d, s);
      forall i | 0 <= i < |g.xs| ensures IsConcrete(out.prefix[i]) <==> Conforms(g.xs[i], ElemAt(s, i)) {
        MeetElemAt(d, s, |d.prefix|, i);
        ConcreteIffConforms(d.prefix[i], g.xs[i], ElemAt(s, i));
      }
      if Conforms(g, s) {
        assert forall i | 0 <= i < |g.xs| :: Conforms(g.xs[i], ElemAt(s, i));
      }
      if IsConcrete(out) {
        forall i | 0 <= i < |g.xs| ensures Conforms(g.xs[i], ElemAt(s, i)) { assert IsConcrete(out.prefix[i]); }
        forall i | 0 <= i < |s.prefix| ensures Conforms(g.xs[i], s.prefix[i]) { assert ElemAt(s, i) == s.prefix[i]; }
      }
    }
  }


  // ----- Outside the fragment -----

  const ONE := Field("a", Con(Int(1)), false)
  const PLAIN := Struct([ONE], false)
  const WIDER := Struct([ONE, Field("b", Atom(AkInt), false)], false)
  const STRUCT_CHOICE := Disj([Branch(PLAIN, Maybe), Branch(WIDER, Maybe)])

  lemma PlainIsMember(g: Ground)
    requires g == GStruct(map["a" := GScalar(Int(1))])
    ensures Wf(STRUCT_CHOICE) && Lifts(PLAIN, g) && Member(g, STRUCT_CHOICE)
  {
    assert PLAIN.fields[0].name == "a" && HasField(PLAIN.fields, "a");
    assert Member(g, PLAIN);
    assert Member(g, STRUCT_CHOICE.branches[0].v);
  }

  /** {a: 1} | {a: 1, b: int}: the document {a: 1} is a member, yet two branches survive and neither is a default. */
  lemma StructBranchesCanReject(g: Ground)
    requires g == GStruct(map["a" := GScalar(Int(1))])
    ensures Wf(STRUCT_CHOICE) && Lifts(PLAIN, g) && Member(g, STRUCT_CHOICE)
    ensures Leaves(Unify(PLAIN, STRUCT_CHOICE), []) != []
  {
    hide *;
    PlainIsMember(g);
    StructChoiceStays();
    NoLeavesIffConcrete(Unify(PLAIN, STRUCT_CHOICE), []);
  }

  lemma WiderIsOpen()
    ensures !IsConcrete(WIDER)
  {
    assert !IsConcrete(WIDER.fields[1].val) && !Absent(WIDER.fields[1]);
  }

  lemma StructChoiceMeets()
    ensures Unify(PLAIN, PLAIN) == PLAIN && Unify(WIDER, PLAIN) == WIDER
  {
    hide Unify;
    FindAt(WIDER.fields, 0);
    MeetWithOne(PLAIN, PLAIN);
    MeetWithOne(WIDER, PLAIN);
  }

  lemma NeitherIsBroken()
    ensures !HasBottomLeaf(PLAIN) && !HasBottomLeaf(WIDER)
  {
  }

  lemma StructChoiceStays()
    ensures !IsConcrete(Unify(PLAIN, STRUCT_CHOICE))
  {
    hide Unify, IsConcrete, HasBottomLeaf, ConcreteEqual, UnifyDisjunction;
    WiderIsOpen();
    StructChoiceMeets();
    NeitherIsBroken();
    NoMarks(STRUCT_CHOICE);
    TwoSurvivors(STRUCT_CHOICE, PLAIN, PLAIN, WIDER);
  }

  lemma NoMarks(s: Value)
    requires s.Disj? && |s.branches| == 2 && forall b <- s.branches :: b.mode.Maybe?
    ensures OperandDefault(s).None?
  {
  }

  /** Meeting an open struct that declares a: 1 with {a: 1} changes nothing. */
  lemma MeetWithOne(b: Value, d: Value)
    requires d == Struct([Field("a", Con(Int(1)), false)], false)
    requires b.Struct? && !b.closed && UniqueNames(b.fields) && Find(b.fields, "a") == Some(d.fields[0])
    ensures Unify(b, d) == b
  {
    StructMeetParts(b, d);
    assert d.fields[..0] == [];
    assert ExtraFields(b.fields, false, d.fields) == [];
    forall i | 0 <= i < |b.fields| ensures MeetField(b.fields[i], d.fields, false) == b.fields[i] {
      if b.fields[i].name == "a" { FindAt(b.fields, i); }
    }
    assert UnifyStruct(b, d).fields == b.fields;
  }

  lemma PrunePair(x: Branch, y: Branch)
    requires HasBottomLeaf(x.v) == HasBottomLeaf(y.v) && !x.v.Bottom? && !y.v.Bottom?
    ensures (if CleanOf([x, y]) != [] then CleanOf([x, y]) else DirtyOf([x, y])) == [x, y]
  {
    assert [x, y][..1] == [x] && [x][..0] == [];
    assert CleanOf([x]) == if HasBottomLeaf(x.v) then [] else [x];
    assert DirtyOf([x]) == if HasBottomLeaf(x.v) then [x] else [];
  }

  lemma DedupePair(x: Branch, y: Branch)
    requires !SameConcrete(x.v, y.v)
    ensures Dedupe([x, y]) == [x, y]
  {
    assert [x, y][..1] == [x] && [x][..0] == [];
    assert Dedupe([x]) == [x];
    assert FirstSame([x], y.v).None?;
  }

  lemma {:induction false} RemarkedWithoutDefault(bs: seq<Branch>)
    ensures Marked(Remark(bs, None)) == []
  {
    if bs != [] {
      RemarkedWithoutDefault(bs[..|bs| - 1]);
      assert Remark(bs, None)[..|bs| - 1] == Remark(bs[..|bs| - 1], None);
    }
  }

  lemma MetPair(s: Value, d: Value, m1: Value, m2: Value)
    requires s.Disj? && |s.branches| == 2 && !d.Disj?
    requires Unify(s.branches[0].v, d) == m1 && Unify(s.branches[1].v, d) == m2
    requires HasBottomLeaf(m1) == HasBottomLeaf(m2) && !m1.Bottom? && !m2.Bottom?
    ensures |MeetBranches(s, d)| == 2 && MeetBranches(s, d)[0].v == m1 && MeetBranches(s, d)[1].v == m2
  {
    CrossSingle(s.branches, d);
    var cross := MeetCross(s.branches, [Branch(d, Maybe)]);
    assert cross == [cross[0], cross[1]];
    PrunePair(cross[0], cross[1]);
  }

  /** Two meets, both clean or both dirty, that are not equal concrete values stay two branches without a default. */
  lemma TwoSurvivors(s: Value, d: Value, m1: Value, m2: Value)
    requires s.Disj? && |s.branches| == 2 && OperandDefault(s).None?
    requires !d.Disj? && !d.Top? && !d.Bottom? && !d.Thunk?
    requires Unify(s.branches[0].v, d) == m1 && Unify(s.branches[1].v, d) == m2
    requires HasBottomLeaf(m1) == HasBottomLeaf(m2) && !m1.Bottom? && !m2.Bottom? && !SameConcrete(m1, m2)
    ensures Unify(d, s) == Unify(s, d) == UnifyDisjunction(s, d)
    ensures Unify(d, s).Disj? && !IsConcrete(Unify(d, s))
  {
    MetPair(s, d, m1, m2);
    NoDefaultToKeep(s, d);
    PairResult(s, d);
    RemarkedWithoutDefault(MeetBranches(s, d));
  }

  lemma NoDefaultToKeep(s: Value, d: Value)
    requires s.Disj? && !d.Disj? && OperandDefault(s).None?
    ensures MeetDefault(s, d).None?
  {
  }

  lemma PairResult(s: Value, d: Value)
    requires s.Disj? && |MeetBranches(s, d)| == 2 && MeetDefault(s, d).None?
    requires !SameConcrete(MeetBranches(s, d)[0].v, MeetBranches(s, d)[1].v)
    ensures UnifyDisjunction(s, d) == Disj(Remark(MeetBranches(s, d), None))
  {
    var met := MeetBranches(s, d);
    assert met == [met[0], met[1]];
    DedupePair(met[0], met[1]);
  }

  const LIST1 := List([Con(Int(1))], Closed)
  const LIST2 := List([Con(Int(2))], Closed)
  const LIST3 := List([Con(Int(3))], Closed)
  const INNER := Disj([Branch(LIST2, Maybe), Branch(LIST3, Maybe)])
  const NESTED := List([LIST1], Closed)
  const NESTED_CHOICE := Disj([Branch(List([INNER], Closed), Maybe), Branch(NESTED, Maybe)])

  lemma InnerMeet()
    ensures Unify(INNER, LIST1).Disj? && !IsConcrete(Unify(INNER, LIST1))
  {
    MeetElemAt(LIST2, LIST1, 1, 0);
    MeetElemAt(LIST3, LIST1, 1, 0);
    var m2, m3 := Unify(LIST2, LIST1), Unify(LIST3, LIST1);
    assert m2.prefix[0] == Bottom && m3.prefix[0] == Bottom;
    NoMarks(INNER);
    TwoSurvivors(INNER, LIST1, m2, m3);
  }

  lemma NestedIsWf()
    ensures Wf(NESTED_CHOICE)
  {
    assert Wf(LIST1) && Wf(LIST2) && Wf(LIST3);
    assert Wf(INNER);
    assert Wf(List([INNER], Closed)) && Wf(NESTED);
  }

  lemma NestedLifts(g: Ground)
    requires g == GList([GList([GScalar(Int(1))])])
    ensures Lifts(NESTED, g) && Member(g, NESTED)
  {
    assert Lifts(LIST1, g.xs[0]) && Member(g.xs[0], LIST1);
  }

  lemma NestedIsMember(g: Ground)
    requires g == GList([GList([GScalar(Int(1))])])
    ensures Wf(NESTED_CHOICE) && Lifts(NESTED, g) && Member(g, NESTED_CHOICE)
  {
    hide Wf, Lifts;
    NestedIsWf();
    NestedLifts(g);
    assert NESTED_CHOICE.branches[1].v == NESTED;
  }

  lemma SingletonMeet(x: Value, y: Value)
    ensures Unify(List([x], Closed), List([y], Closed)) == List([Unify(x, y)], Closed)
  {
    var v, o := List([x], Closed), List([y], Closed);
    MeetElemAt(v, o, 1, 0);
    hide MeetElems;
    assert UnifyList(v, o) == List(MeetElems(v, o, 1), Closed);
  }

  lemma NestedMeets()
    ensures Unify(List([INNER], Closed), NESTED) == List([Unify(INNER, LIST1)], Closed)
    ensures Unify(NESTED, NESTED) == NESTED
  {
    assert Unify(Con(Int(1)), Con(Int(1))) == Con(Int(1));
    hide Unify;
    SingletonMeet(INNER, LIST1);
    SingletonMeet(LIST1, LIST1);
    SingletonMeet(Con(Int(1)), Con(Int(1)));
  }

  /**
    In ([([2] | [3])] | [[1]]) the first branch fails on [[1]] only inside a disjunction, where
    pruning does not look, so it survives beside the branch that matches.
   */
  lemma NestedListBranchesCanReject(g: Ground)
    requires g == GList([GList([GScalar(Int(1))])])
    ensures Wf(NESTED_CHOICE) && Lifts(NESTED, g) && Member(g, NESTED_CHOICE)
    ensures Leaves(Unify(NESTED, NESTED_CHOICE), []) != []
  {
    hide *;
    NestedIsMember(g);
    NestedChoiceStays();
    NoLeavesIffConcrete(Unify(NESTED, NESTED_CHOICE), []);
  }

  lemma SurvivingBranch(m: Value)
    requires m.Disj? && !IsConcrete(m)
    ensures !HasBottomLeaf(List([m], Closed)) && !IsConcrete(List([m], Closed)) && !HasBottomLeaf(NESTED)
  {
    var l := List([m], Closed);
    assert l.prefix[0] == m && !HasBottomLeaf(m);
    assert !HasBottomLeaf(LIST1);
  }

  lemma NestedChoiceStays()
    ensures !IsConcrete(Unify(NESTED, NESTED_CHOICE))
  {
    hide Unify, IsConcrete, HasBottomLeaf, ConcreteEqual, UnifyDisjunction;
    InnerMeet();
    NestedMeets();
    NoMarks(NESTED_CHOICE);
    SurvivingBranch(Unify(INNER, LIST1));
    TwoSurvivors(NESTED_CHOICE, NESTED, List([Unify(INNER, LIST1)], Closed), NESTED);
  }

}
