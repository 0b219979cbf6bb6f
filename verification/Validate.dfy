/**
  Validation: which leaves are reported, and what an empty report means. A document passes when the
  meet of its lifted form with the schema reports no leaf.
 */
module Validate {

  import opened Values
  import opened Meet
  import opened MeetFacts
  import opened MeetSound
  import opened MeetWf
  import opened Semantics

  /** A step of a field path: a struct key or a list index. */
  datatype Step = Key(name: string) | Index(i: nat)

  type Path = seq<Step>

  /** The failing leaves of v in encounter order, each as the path walked to it. */
  function Leaves(v: Value, path: Path): seq<Path>
    decreases v, 0
  {
    match v
    case Con(_) => []
    case Disj(bs) =>
      (match DefaultIndex(bs)
       case Some(k) => Leaves(bs[k].v, path)
       case None => [path])
    case Struct(fs, _) => FieldLeaves(v, |fs|, path)
    case List(p, _) => ElemLeaves(v, |p|, path)
    case _ => [path]
  }

  function FieldLeaves(v: Value, n: nat, path: Path): seq<Path>
    requires v.Struct? && n <= |v.fields|
    decreases v, 0, n
  {
    if n == 0 then []
    else
      var f := v.fields[n - 1];
      FieldLeaves(v, n - 1, path) + (if Absent(f) then [] else Leaves(f.val, path + [Key(f.name)]))
  }

  function ElemLeaves(v: Value, n: nat, path: Path): seq<Path>
    requires v.List? && n <= |v.prefix|
    decreases v, 0, n
  {
    if n == 0 then []
    else ElemLeaves(v, n - 1, path) + Leaves(v.prefix[n - 1], path + [Index(n - 1)])
  }

  // ----- An empty report is concreteness -----

  /** MAIN: validation reports nothing exactly for concrete values. */
  lemma {:induction false} NoLeavesIffConcrete(v: Value, path: Path)
    ensures Leaves(v, path) == [] <==> IsConcrete(v)
    decreases v, 0
  {
    match v
    case Disj(bs) => if DefaultIndex(bs).Some? { NoLeavesIffConcrete(bs[DefaultIndex(bs).value].v, path); }
    case Struct(fs, _) => FieldsConcrete(v, |fs|, path);
    case List(p, _) => ElemsConcrete(v, |p|, path);
    case _ =>
  }

  lemma {:induction false} FieldsConcrete(v: Value, n: nat, path: Path)
    requires v.Struct? && n <= |v.fields|
    ensures FieldLeaves(v, n, path) == [] <==> forall i | 0 <= i < n :: Absent(v.fields[i]) || IsConcrete(v.fields[i].val)
    decreases v, 0, n
  {
    if n > 0 {
      FieldsConcrete(v, n - 1, path);
      NoLeavesIffConcrete(v.fields[n - 1].val, path + [Key(v.fields[n - 1].name)]);
    }
  }

  lemma {:induction false} ElemsConcrete(v: Value, n: nat, path: Path)
    requires v.List? && n <= |v.prefix|
    ensures ElemLeaves(v, n, path) == [] <==> forall i | 0 <= i < n :: IsConcrete(v.prefix[i])
    decreases v, 0, n
  {
    if n > 0 {
      ElemsConcrete(v, n - 1, path);
      NoLeavesIffConcrete(v.prefix[n - 1], path + [Index(n - 1)]);
    }
  }

  // ----- Which paths are reported -----

  /** Walking p from v, through defaults, ends at a node that is neither a scalar nor something with members. */
  ghost predicate FailsAt(v: Value, p: Path)
    decreases v
  {
    match v
    case Con(_) => false
    case Disj(bs) => if DefaultIndex(bs).Some? then FailsAt(bs[DefaultIndex(bs).value].v, p) else p == []
    case Struct(fs, _) =>
      p != [] && p[0].Key? && exists i :: 0 <= i < |fs| && fs[i].name == p[0].name && !Absent(fs[i]) && FailsAt(fs[i].val, p[1..])
    case List(xs, _) => p != [] && p[0].Index? && p[0].i < |xs| && FailsAt(xs[p[0].i], p[1..])
    case _ => p == []
  }

  /** MAIN: a path is reported exactly if walking it reaches a failing node. */
  lemma {:induction false} LeafIff(v: Value, path: Path, q: Path)
    ensures path + q in Leaves(v, path) <==> FailsAt(v, q)
    decreases v, 0
  {
    match v
    case Disj(bs) =>
      if DefaultIndex(bs).Some? {
        LeafIff(bs[DefaultIndex(bs).value].v, path, q);
      } else {
        assert path + q == path <==> q == [];
      }
    case Struct(fs, _) => FieldLeafIff(v, |fs|, path, q);
    case List(p, _) => ElemLeafIff(v, |p|, path, q);
    case Con(_) =>
    case _ => assert path + q == path <==> q == [];
  }

  /** Every reported path continues the path walked so far. */
  lemma {:induction false} LeavesBelow(v: Value, path: Path)
    ensures forall p <- Leaves(v, path) :: path <= p
    decreases v, 0
  {
    match v
    case Disj(bs) => if DefaultIndex(bs).Some? { LeavesBelow(bs[DefaultIndex(bs).value].v, path); }
    case Struct(fs, _) => FieldLeavesBelow(v, |fs|, path);
    case List(p, _) => ElemLeavesBelow(v, |p|, path);
    case _ =>
  }

  lemma {:induction false} FieldLeavesBelow(v: Value, n: nat, path: Path)
    requires v.Struct? && n <= |v.fields|
    ensures forall p <- FieldLeaves(v, n, path) :: path <= p
    decreases v, 0, n
  {
    if n > 0 {
      FieldLeavesBelow(v, n - 1, path);
      LeavesBelow(v.fields[n - 1].val, path + [Key(v.fields[n - 1].name)]);
    }
  }

  lemma {:induction false} ElemLeavesBelow(v: Value, n: nat, path: Path)
    requires v.List? && n <= |v.prefix|
    ensures forall p <- ElemLeaves(v, n, path) :: path <= p
    decreases v, 0, n
  {
    if n > 0 {
      ElemLeavesBelow(v, n - 1, path);
      LeavesBelow(v.prefix[n - 1], path + [Index(n - 1)]);
    }
  }

  /** What one step further contributes: only the paths that take that step. */
  lemma {:induction false} StepLeafIff(v: Value, path: Path, step: Step, q: Path)
    ensures path + q in Leaves(v, path + [step]) <==> q != [] && q[0] == step && FailsAt(v, q[1..])
    decreases v, 1
  {
    hide Leaves, FailsAt;
    if q != [] && q[0] == step {
      assert path + q == (path + [step]) + q[1..];
      LeafIff(v, path + [step], q[1..]);
    } else {
      LeavesBelow(v, path + [step]);
      if path + [step] <= path + q { TakesStep(path, step, q); }
    }
  }

  lemma TakesStep(path: Path, step: Step, q: Path)
    requires path + [step] <= path + q
    ensures q != [] && q[0] == step
  {
    assert (path + q)[|path|] == (path + [step])[|path|];
  }

  lemma {:induction false} FieldLeafIff(v: Value, n: nat, path: Path, q: Path)
    requires v.Struct? && n <= |v.fields|
    ensures path + q in FieldLeaves(v, n, path) <==>
            q != [] && q[0].Key? && exists i :: 0 <= i < n && v.fields[i].name == q[0].name && !Absent(v.fields[i]) && FailsAt(v.fields[i].val, q[1..])
    decreases v, 0, n
  {
    if n > 0 {
      FieldLeafIff(v, n - 1, path, q);
      StepLeafIff(v.fields[n - 1].val, path, Key(v.fields[n - 1].name), q);
    }
  }

  lemma {:induction false} ElemLeafIff(v: Value, n: nat, path: Path, q: Path)
    requires v.List? && n <= |v.prefix|
    ensures path + q in ElemLeaves(v, n, path) <==> q != [] && q[0].Index? && q[0].i < n && FailsAt(v.prefix[q[0].i], q[1..])
    decreases v, 0, n
  {
    if n > 0 {
      ElemLeafIff(v, n - 1, path, q);
      StepLeafIff(v.prefix[n - 1], path, Index(n - 1), q);
    }
  }

  ghost predicate NoRepeat(ps: seq<Path>)
  {
    forall i, j | 0 <= i < j < |ps| :: ps[i] != ps[j]
  }

  lemma JoinNoRepeat(a: seq<Path>, b: seq<Path>)
    requires NoRepeat(a) && NoRepeat(b) && forall p <- b :: p !in a
    ensures NoRepeat(a + b)
  {
    forall i, j | 0 <= i < j < |a + b| ensures (a + b)[i] != (a + b)[j] {
      if i < |a| <= j {
        assert (a + b)[j] == b[j - |a|] && b[j - |a|] in b;
        assert (a + b)[i] == a[i] && a[i] in a;
      }
    }
  }

  /** No path is reported twice. */
  lemma {:induction false} LeavesOnce(v: Value, path: Path)
    requires Wf(v)
    ensures NoRepeat(Leaves(v, path))
    decreases v, 0
  {
    match v
    case Disj(bs) => if DefaultIndex(bs).Some? { LeavesOnce(bs[DefaultIndex(bs).value].v, path); }
    case Struct(fs, _) => FieldLeavesOnce(v, |fs|, path);
    case List(p, _) => ElemLeavesOnce(v, |p|, path);
    case _ =>
  }

  lemma {:induction false} FieldLeavesOnce(v: Value, n: nat, path: Path)
    requires v.Struct? && Wf(v) && n <= |v.fields|
    ensures NoRepeat(FieldLeaves(v, n, path))
    decreases v, 0, n
  {
    if n > 0 {
      var f := v.fields[n - 1];
      var here := Leaves(f.val, path + [Key(f.name)]);
      FieldLeavesOnce(v, n - 1, path);
      LeavesOnce(f.val, path + [Key(f.name)]);
      LeavesBelow(f.val, path + [Key(f.name)]);
      forall p <- here ensures p !in FieldLeaves(v, n - 1, path) {
        assert p == path + p[|path|..] && p[|path|] == Key(f.name);
        FieldLeafIff(v, n - 1, path, p[|path|..]);
      }
      JoinNoRepeat(FieldLeaves(v, n - 1, path), here);
    }
  }

  lemma {:induction false} ElemLeavesOnce(v: Value, n: nat, path: Path)
    requires v.List? && Wf(v) && n <= |v.prefix|
    ensures NoRepeat(ElemLeaves(v, n, path))
    decreases v, 0, n
  {
    if n > 0 {
      var here := Leaves(v.prefix[n - 1], path + [Index(n - 1)]);
      ElemLeavesOnce(v, n - 1, path);
      LeavesOnce(v.prefix[n - 1], path + [Index(n - 1)]);
      LeavesBelow(v.prefix[n - 1], path + [Index(n - 1)]);
      forall p <- here ensures p !in ElemLeaves(v, n - 1, path) {
        assert p == path + p[|path|..] && p[|path|] == Index(n - 1);
        ElemLeafIff(v, n - 1, path, p[|path|..]);
      }
      JoinNoRepeat(ElemLeaves(v, n - 1, path), here);
    }
  }

  // ----- Resolving a concrete value to a document -----

  /** The document a concrete value stands for: defaults taken, absent optional fields dropped, tails empty. */
  function Resolve(v: Value): Ground
    requires IsConcrete(v)
  {
    match v
    case Con(s) => GScalar(s)
    case Disj(bs) => Resolve(bs[DefaultIndex(bs).value].v)
    case Struct(fs, _) =>
      GStruct(map n | n in PresentNames(fs) :: Resolve(fs[PresentIndex(fs, n)].val))
    case List(p, _) => GList(seq(|p|, i requires 0 <= i < |p| => Resolve(p[i])))
  }

  function PresentNames(fs: seq<Field>): set<string>
  {
    set i | 0 <= i < |fs| && !Absent(fs[i]) :: fs[i].name
  }

  function PresentIndex(fs: seq<Field>, n: string): (k: nat)
    requires n in PresentNames(fs)
    ensures k < |fs| && fs[k].name == n && !Absent(fs[k])
  {
    var last := |fs| - 1;
    if fs[last].name == n && !Absent(fs[last]) then last
    else
      assert n in PresentNames(fs[..last]);
      PresentIndex(fs[..last], n)
  }

  /** MAIN: a concrete value admits the document it resolves to. */
  lemma {:induction false} ResolveIsMember(v: Value)
    requires Wf(v) && IsConcrete(v)
    ensures Member(Resolve(v), v)
    decreases v, 1
  {
    match v
    case Disj(bs) => ResolveIsMember(bs[DefaultIndex(bs).value].v);
    case Struct(fs, closed) => StructResolveIsMember(v);
    case List(p, _) =>
      forall i | 0 <= i < |p| ensures Member(Resolve(v).xs[i], p[i]) { ResolveIsMember(p[i]); }
    case _ =>
  }

  /** What a resolved struct holds under the name of its i-th field. */
  lemma ResolvedField(v: Value, i: nat)
    requires Wf(v) && IsConcrete(v) && v.Struct? && i < |v.fields|
    ensures var f, m := v.fields[i], Resolve(v).m;
      && (Absent(f) ==> f.name !in m && f.optional)
      && (!Absent(f) ==> IsConcrete(f.val) && f.name in m && m[f.name] == Resolve(f.val))
  {
    var fs := v.fields;
    if Absent(fs[i]) {
      assert fs[i].name !in PresentNames(fs);
    } else {
      assert fs[i].name in PresentNames(fs) && PresentIndex(fs, fs[i].name) == i;
    }
    hide HasBottom;
  }

  lemma ResolvedKeys(v: Value)
    requires IsConcrete(v) && v.Struct?
    ensures Resolve(v).GStruct? && forall n <- Resolve(v).m :: HasField(v.fields, n)
  {
    hide HasBottom;
  }

  lemma {:induction false} StructResolveIsMember(v: Value)
    requires Wf(v) && IsConcrete(v) && v.Struct?
    ensures Member(Resolve(v), v)
    decreases v, 0
  {
    var fs, g := v.fields, Resolve(v);
    ResolvedKeys(v);
    hide Resolve, IsConcrete, Absent;
    forall i | 0 <= i < |fs|
      ensures if fs[i].name in g.m then Member(g.m[fs[i].name], fs[i].val) else fs[i].optional
    {
      ResolvedField(v, i);
      if !Absent(fs[i]) { ResolveIsMember(fs[i].val); }
    }
  }

  // ----- Lifted documents -----

  /** v is the document g lifted: open structs with required fields in any order, closed lists, scalars. */
  ghost predicate Lifts(v: Value, g: Ground)
    decreases g
  {
    match g
    case GScalar(s) => v == Con(s)
    case GStruct(m) =>
      && v.Struct? && !v.closed && UniqueNames(v.fields)
      && (forall n <- m :: HasField(v.fields, n))
      && (forall n <- m :: Lifts(v.fields[IndexOf(v.fields, n)].val, m[n]) && !v.fields[IndexOf(v.fields, n)].optional)
      && (forall f <- v.fields :: f.name in m)
    case GList(xs) =>
      && v.List? && v.tail.Closed? && |v.prefix| == |xs|
      && forall i :: 0 <= i < |xs| ==> Lifts(v.prefix[i], xs[i])
  }

  /** r has everything g has, and possibly further keys. */
  ghost predicate Extends(r: Ground, g: Ground)
    decreases g
  {
    match g
    case GScalar(_) => r == g
    case GStruct(m) => r.GStruct? && forall n <- m :: n in r.m && Extends(r.m[n], m[n])
    case GList(xs) => r.GList? && |r.xs| == |xs| && forall i :: 0 <= i < |xs| ==> Extends(r.xs[i], xs[i])
  }

  lemma LiftedFind(v: Value, g: Ground, n: string)
    requires g.GStruct? && Lifts(v, g)
    ensures Find(v.fields, n).Some? <==> n in g.m
    ensures n in g.m ==> Lifts(Find(v.fields, n).value.val, g.m[n]) && !Find(v.fields, n).value.optional
  {
    if HasField(v.fields, n) {
      assert v.fields[IndexOf(v.fields, n)] in v.fields;
    }
  }

  /** A lifted document admits exactly its extensions, and is well formed, concrete and free of disjunctions. */
  lemma {:induction false} LiftedAdmitsExtensions(v: Value, g: Ground, r: Ground)
    requires Lifts(v, g)
    ensures Member(r, v) <==> Extends(r, g)
    decreases g
  {
    match g
    case GScalar(_) =>
    case GStruct(m) =>
      if r.GStruct? {
        StructMember(r, v.fields, false);
        forall n | n in m && n in r.m
          ensures Member(r.m[n], Find(v.fields, n).value.val) <==> Extends(r.m[n], m[n])
        {
          LiftedFind(v, g, n);
          LiftedAdmitsExtensions(Find(v.fields, n).value.val, m[n], r.m[n]);
        }
        forall n ensures Find(v.fields, n).Some? <==> n in m
                 ensures n in m ==> !Find(v.fields, n).value.optional { LiftedFind(v, g, n); }
      }
    case GList(xs) =>
      if r.GList? && |r.xs| == |xs| {
        forall i | 0 <= i < |xs| ensures Member(r.xs[i], v.prefix[i]) <==> Extends(r.xs[i], xs[i]) {
          LiftedAdmitsExtensions(v.prefix[i], xs[i], r.xs[i]);
        }
      }
  }

  lemma {:induction false} LiftedIsWf(v: Value, g: Ground)
    requires Lifts(v, g)
    ensures Wf(v) && IsConcrete(v) && DisjFree(v) && !HasBottomLeaf(v)
    decreases g
  {
    match g
    case GScalar(_) =>
    case GStruct(m) =>
      forall i | 0 <= i < |v.fields|
        ensures Wf(v.fields[i].val) && IsConcrete(v.fields[i].val) && DisjFree(v.fields[i].val)
        ensures !HasBottomLeaf(v.fields[i].val)
      {
        var n := v.fields[i].name;
        assert v.fields[i] in v.fields && n in m;
        assert IndexOf(v.fields, n) == i;
        LiftedIsWf(v.fields[i].val, m[n]);
      }
    case GList(xs) =>
      forall i | 0 <= i < |xs|
        ensures Wf(v.prefix[i]) && IsConcrete(v.prefix[i]) && DisjFree(v.prefix[i]) && !HasBottomLeaf(v.prefix[i])
      {
        LiftedIsWf(v.prefix[i], xs[i]);
      }
  }

  // ----- Validation is sound -----

  /**
    MAIN: if document g, lifted to d in any field order, passes against schema s, then completing g
    with the defaults of the meet gives a document that extends g and is a member of s.
   */
  lemma ValidationIsSound(d: Value, g: Ground, s: Value)
    requires Lifts(d, g) && Wf(s)
    requires Leaves(Unify(d, s), []) == []
    ensures IsConcrete(Unify(d, s))
    ensures Extends(Resolve(Unify(d, s)), g) && Member(Resolve(Unify(d, s)), s)
  {
    var m := Unify(d, s);
    NoLeavesIffConcrete(m, []);
    LiftedIsWf(d, g);
    MeetIsWf(d, s);
    ResolveIsMember(m);
    MeetIsSound(d, s, Resolve(m));
    LiftedAdmitsExtensions(d, g, Resolve(m));
  }

}
