/**
  The meet as the engine runs it: loops that accumulate fields, elements and branches. Each method is
  proved to compute its specification in module Meet, so every theorem about Unify holds of it.
 */
module MeetLoops {

  import opened Wrappers
  import opened Values
  import opened Meet
  import opened Sequences

  method UnifyV(v: Value, o: Value) returns (r: Value)
    ensures r == Unify(v, o)
    decreases Size(v) + Size(o), 3
  {
    if v.Bottom? || o.Bottom? { return Bottom; }
    if v.Top? { return o; }
    if o.Top? { return v; }
    if v.Thunk? || o.Thunk? { return Bottom; }
    if v.Disj? { r := UnifyDisjunctionV(v, o); return; }
    if o.Disj? { r := UnifyDisjunctionV(o, v); return; }
    match v
    case Con(_) => r := UnifyConcrete(v, o);
    case Atom(_) => r := UnifyAtomLeft(v, o);
    case Bounded(_, _) => r := UnifyBoundLeftV(v, o);
    case Struct(_, _) => r := UnifyStructV(v, o);
    case List(_, _) => r := UnifyListV(v, o);
  }

  method UnifyBoundLeftV(v: Value, o: Value) returns (r: Value)
    requires v.Bounded?
    ensures r == UnifyBoundLeft(v, o)
  {
    if o.Bounded? {
      var ak := MeetAtom(v.base, o.base);
      if ak.None? { return Bottom; }
      var merged := v.bounds + o.bounds;
      var clash := FindClash(merged);
      return if clash.Some? then Bottom else Bounded(ak.value, merged);
    }
    r := UnifyBoundLeft(v, o);
  }

  /** The first lower and upper bound whose interval is empty. */
  method FindClash(bounds: seq<Bound>) returns (r: Option<(Bound, Bound)>)
    ensures r.Some? <==> IncompatibleBounds(bounds)
    ensures r.Some? ==> r.value.0 in bounds && r.value.1 in bounds && Clash(r.value.0, r.value.1)
  {
    for i := 0 to |bounds|
      invariant forall x, y | 0 <= x < i && 0 <= y < |bounds| :: !Clash(bounds[x], bounds[y])
    {
      var lo := bounds[i];
      if lo.IsLower() {
        for j := 0 to |bounds|
          invariant forall y | 0 <= y < j :: !Clash(lo, bounds[y])
        {
          if bounds[j].IsUpper() && EmptyInterval(lo, bounds[j]) {
            return Some((lo, bounds[j]));
          }
        }
      }
    }
    r := None;
  }

  /** The name-to-index table of a field list; a repeated name keeps its last index. */
  method IndexFields(fs: seq<Field>) returns (m: map<string, nat>)
    ensures forall n :: n in m <==> HasField(fs, n)
    ensures forall n <- m :: m[n] == IndexOf(fs, n)
  {
    m := map[];
    for i := 0 to |fs|
      invariant forall n :: n in m <==> HasField(fs[..i], n)
      invariant forall n <- m :: m[n] < i && fs[m[n]].name == n && forall k | m[n] < k < i :: fs[k].name != n
    {
      m := m[fs[i].name := i];
    }
    assert fs[..|fs|] == fs;
  }

  method UnifyStructV(v: Value, o: Value) returns (r: Value)
    requires v.Struct?
    ensures r == UnifyStruct(v, o)
    decreases Size(v) + Size(o), 2
  {
    if !o.Struct? { return Bottom; }
    var out, seen := MeetFieldsV(v.fields, o.fields, o.closed);
    var extra := ExtraFieldsV(v.fields, seen, v.closed, o.fields);
    r := Struct(out + extra, v.closed || o.closed);
  }

  /** The first loop of a struct meet: one pass over the left fields, noting the names seen. */
  method MeetFieldsV(vf: seq<Field>, of: seq<Field>, oClosed: bool) returns (out: seq<Field>, seen: set<string>)
    ensures out == MeetFields(vf, of, oClosed)
    ensures seen == NamesOf(vf)
    decreases SizeFields(vf) + SizeFields(of), 1
  {
    var oIndex := IndexFields(of);
    out, seen := [], {};
    for i := 0 to |vf|
      invariant out == MeetFields(vf[..i], of, oClosed)
      invariant seen == NamesOf(vf[..i])
    {
      hide *;
      var fv := vf[i];
      MeetFieldsStep(vf, of, oClosed, i);
      MeetFieldCases(fv, of, oClosed);
      NamesStep(vf, i);
      FieldSmaller(vf, i);
      seen := seen + {fv.name};
      var met := fv;
      if fv.name in oIndex {
        var h := of[oIndex[fv.name]];
        FieldSmaller(of, oIndex[fv.name]);
        var child := UnifyV(fv.val, h.val);
        met := Field(fv.name, child, fv.optional && h.optional);
      } else if oClosed {
        met := Field(fv.name, Bottom, false);
      }
      out := out + [met];
    }
    assert vf[..|vf|] == vf;
  }

  ghost function NamesOf(fs: seq<Field>): set<string>
  {
    set f | f in fs :: f.name
  }

  lemma NamesStep(fs: seq<Field>, i: nat)
    requires i < |fs|
    ensures NamesOf(fs[..i + 1]) == NamesOf(fs[..i]) + {fs[i].name}
  {
    assert fs[..i + 1] == fs[..i] + [fs[i]];
  }

  lemma NamesAreFields(fs: seq<Field>, name: string)
    ensures name in NamesOf(fs) <==> HasField(fs, name)
  {
  }

  lemma MeetFieldCases(fv: Field, of: seq<Field>, oClosed: bool)
    ensures HasField(of, fv.name) ==>
              var h := of[IndexOf(of, fv.name)];
              MeetField(fv, of, oClosed) == Field(fv.name, Unify(fv.val, h.val), fv.optional && h.optional)
    ensures !HasField(of, fv.name) ==> MeetField(fv, of, oClosed) == if oClosed then Field(fv.name, Bottom, false) else fv
  {
    hide Unify, HasField;
  }

  lemma MeetFieldsStep(vf: seq<Field>, of: seq<Field>, oClosed: bool, i: nat)
    requires i < |vf|
    ensures MeetFields(vf[..i + 1], of, oClosed) == MeetFields(vf[..i], of, oClosed) + [MeetField(vf[i], of, oClosed)]
  {
    assert vf[..i + 1][..i] == vf[..i];
  }

  /** The second loop: the right fields whose names were not seen. */
  method ExtraFieldsV(vf: seq<Field>, seen: set<string>, vClosed: bool, of: seq<Field>) returns (extra: seq<Field>)
    requires seen == NamesOf(vf)
    ensures extra == ExtraFields(vf, vClosed, of)
  {
    extra := [];
    for j := 0 to |of|
      invariant extra == ExtraFields(vf, vClosed, of[..j])
    {
      assert of[..j + 1][..j] == of[..j];
      NamesAreFields(vf, of[j].name);
      if of[j].name !in seen {
        extra := extra + [if vClosed then Field(of[j].name, Bottom, false) else of[j]];
      }
    }
    assert of[..|of|] == of;
  }

  method UnifyListV(v: Value, o: Value) returns (r: Value)
    requires v.List?
    ensures r == UnifyList(v, o)
    decreases Size(v) + Size(o), 2
  {
    if !o.List? || !LengthsAgree(v, o) { return Bottom; }
    var n := Longest(v, o);
    var prefix: seq<Value> := [];
    for i := 0 to n
      invariant prefix == MeetElems(v, o, i)
    {
      ElemSmaller(v, i);
      ElemSmaller(o, i);
      var el := UnifyV(ElemAt(v, i), ElemAt(o, i));
      prefix := prefix + [el];
    }
    if v.tail.Open? && o.tail.Open? {
      var tail := UnifyV(v.tail.elem, o.tail.elem);
      return List(prefix, Open(tail));
    }
    r := List(prefix, Closed);
  }

  method MeetBranchesV(d: Value, o: Value) returns (r: seq<Branch>)
    requires d.Disj?
    ensures r == MeetBranches(d, o)
    decreases Size(d) + Size(o), 1
  {
    BranchesSize(o);
    var dm, om := d.branches, BranchesOf(o);
    ghost var cross: seq<Branch> := [];
    var clean: seq<Branch>, dirty: seq<Branch> := [], [];
    for i := 0 to |dm|
      invariant cross == MeetCross(dm[..i], om) && clean == CleanOf(cross) && dirty == DirtyOf(cross)
    {
      hide *;
      BranchSmaller(dm, i);
      ghost var before := cross;
      RowStart(before, dm[i], om);
      for j := 0 to |om|
        invariant cross == before + MeetRow(dm[i], om[..j]) && clean == CleanOf(cross) && dirty == DirtyOf(cross)
      {
        BranchSmaller(om, j);
        var m := UnifyV(dm[i].v, om[j].v);
        var bm := Branch(m, CombineMode(dm[i].mode, om[j].mode));
        RowStep(dm[i], om, j);
        Assoc(before, MeetRow(dm[i], om[..j]), [bm]);
        SortedAppend(cross, bm);
        cross := cross + [bm];
        if m.Bottom? {
        } else if HasBottomLeaf(m) {
          dirty := dirty + [bm];
        } else {
          clean := clean + [bm];
        }
      }
      CrossStep(dm, om, i);
    }
    assert dm[..|dm|] == dm;
    r := if |clean| > 0 then clean else dirty;
  }

  lemma RowStart(before: seq<Branch>, d: Branch, os: seq<Branch>)
    ensures before + MeetRow(d, os[..0]) == before
  {
    EmptyRight(before);
  }

  lemma RowStep(d: Branch, os: seq<Branch>, j: nat)
    requires j < |os|
    ensures MeetRow(d, os[..j + 1]) == MeetRow(d, os[..j]) + [Branch(Unify(d.v, os[j].v), CombineMode(d.mode, os[j].mode))]
  {
    assert os[..j + 1][..j] == os[..j];
  }

  lemma CrossStep(ds: seq<Branch>, os: seq<Branch>, i: nat)
    requires i < |ds|
    ensures MeetCross(ds[..i + 1], os) == MeetCross(ds[..i], os) + MeetRow(ds[i], os[..|os|])
  {
    hide MeetRow;
    assert ds[..i + 1][..i] == ds[..i] && os[..|os|] == os;
  }

  lemma SortedAppend(bs: seq<Branch>, b: Branch)
    ensures CleanOf(bs + [b]) == if HasBottomLeaf(b.v) then CleanOf(bs) else CleanOf(bs) + [b]
    ensures DirtyOf(bs + [b]) == if !b.v.Bottom? && HasBottomLeaf(b.v) then DirtyOf(bs) + [b] else DirtyOf(bs)
    ensures b.v.Bottom? ==> HasBottomLeaf(b.v)
  {
    assert (bs + [b])[..|bs|] == bs;
  }

  /** Later equal concrete branches fold into the first one, which keeps the stronger mode. */
  method DedupeV(bs: seq<Branch>) returns (out: seq<Branch>)
    ensures out == Dedupe(bs)
  {
    out := [];
    for i := 0 to |bs|
      invariant out == Dedupe(bs[..i])
    {
      hide *;
      DedupeStep(bs, i);
      out := AbsorbV(out, bs[i]);
    }
    assert bs[..|bs|] == bs;
  }

  lemma DedupeStep(bs: seq<Branch>, i: nat)
    requires i < |bs|
    ensures Dedupe(bs[..i + 1]) == Absorb(Dedupe(bs[..i]), bs[i])
  {
    hide Absorb;
    assert bs[..i + 1][..i] == bs[..i];
  }

  method AbsorbV(out: seq<Branch>, b: Branch) returns (r: seq<Branch>)
    ensures r == Absorb(out, b)
  {
    hide FirstSame;
    if IsConcrete(b.v) {
      NoneBefore(out, b.v);
      for k := 0 to |out|
        invariant FirstSame(out[..k], b.v).None?
      {
        hide IsConcrete, ConcreteEqual, FirstSame;
        if IsConcrete(out[k].v) && ConcreteEqual(out[k].v, b.v) {
          FirstSameIsFirst(out, b.v, k);
          return out[k := Branch(out[k].v, CombineMode(out[k].mode, b.mode))];
        }
        FirstSameStep(out, b.v, k);
      }
      assert out[..|out|] == out;
    }
    r := out + [b];
  }

  lemma NoneBefore(bs: seq<Branch>, v: Value)
    ensures FirstSame(bs[..0], v).None?
  {
  }

  lemma FirstSameStep(bs: seq<Branch>, v: Value, k: nat)
    requires k < |bs| && FirstSame(bs[..k], v).None? && !SameConcrete(bs[k].v, v)
    ensures FirstSame(bs[..k + 1], v).None?
  {
    hide SameConcrete;
    assert bs[..k + 1][..k] == bs[..k];
  }

  lemma {:induction false} FirstSameIsFirst(bs: seq<Branch>, v: Value, k: nat)
    requires k < |bs| && FirstSame(bs[..k], v).None? && SameConcrete(bs[k].v, v)
    ensures FirstSame(bs, v) == Some(k)
  {
    var n := |bs| - 1;
    if k < n {
      assert bs[..n][..k] == bs[..k];
      FirstSameIsFirst(bs[..n], v, k);
    }
  }

  method UnifyDisjunctionV(d: Value, o: Value) returns (r: Value)
    requires d.Disj?
    ensures r == UnifyDisjunction(d, o)
    decreases Size(d) + Size(o), 2
  {
    hide MeetBranches, Dedupe, MeetDefault, Remark;
    var met := MeetBranchesV(d, o);
    if |met| == 0 { return Bottom; }
    var survivors := DedupeV(met);
    if |survivors| == 1 { return survivors[0].v; }
    var def := MeetDefaultV(d, o);
    var out := RemarkV(survivors, def);
    r := Disj(out);
  }

  /** Only the branch that equals the meet's default is marked. */
  method RemarkV(survivors: seq<Branch>, def: Option<Value>) returns (out: seq<Branch>)
    ensures out == Remark(survivors, def)
  {
    out := [];
    for i := 0 to |survivors|
      invariant out == Remark(survivors[..i], def)
    {
      hide *;
      RemarkStep(survivors, def, i);
      var s := survivors[i].v;
      var mode := Not;
      if def.Some? && IsConcrete(s) && ConcreteEqual(s, def.value) { mode := Is; }
      out := out + [Branch(s, mode)];
    }
    assert survivors[..|survivors|] == survivors;
  }

  lemma RemarkStep(bs: seq<Branch>, def: Option<Value>, i: nat)
    requires i < |bs|
    ensures Remark(bs[..i + 1], def) ==
            Remark(bs[..i], def) +
            [Branch(bs[i].v, if def.Some? && IsConcrete(bs[i].v) && ConcreteEqual(bs[i].v, def.value) then Is else Not)]
  {
    hide IsConcrete, ConcreteEqual;
    assert bs[..i + 1][..i] == bs[..i];
  }

  method MeetDefaultV(d: Value, o: Value) returns (r: Option<Value>)
    requires d.Disj?
    ensures r == MeetDefault(d, o)
    decreases Size(d) + Size(o), 1
  {
    var dd, od := OperandDefault(d), OperandDefault(o);
    if dd.Some? {
      var m := UnifyV(dd.value, o);
      if m.Bottom? { dd := None; }
    }
    if od.Some? {
      var m := UnifyV(od.value, d);
      if m.Bottom? { od := None; }
    }
    var m: Value;
    if dd.Some? && od.Some? {
      m := UnifyV(dd.value, od.value);
    } else if dd.Some? {
      m := UnifyV(dd.value, o);
    } else if od.Some? {
      m := UnifyV(od.value, d);
    } else {
      return None;
    }
    r := ConcreteOrNone(m);
  }

}
