/**
  What the recursive definitions of module Meet compute, position by position and name by name:
  the facts every later proof about meets uses instead of unfolding them.
 */
module MeetFacts {

  import opened Wrappers
  import opened Values
  import opened Meet

  // ----- Where the branches of a meet come from -----

  ghost predicate FromCross(m: Value, ds: seq<Branch>, os: seq<Branch>)
  {
    exists i, j :: 0 <= i < |ds| && 0 <= j < |os| && m == Unify(ds[i].v, os[j].v)
  }

  lemma {:induction false} RowAt(d: Branch, os: seq<Branch>, j: nat)
    requires j < |os|
    ensures MeetRow(d, os)[j] == Branch(Unify(d.v, os[j].v), CombineMode(d.mode, os[j].mode))
  {
    if j < |os| - 1 { RowAt(d, os[..|os| - 1], j); }
  }

  lemma {:induction false} CrossOrigin(ds: seq<Branch>, os: seq<Branch>, k: nat)
    requires k < |MeetCross(ds, os)|
    ensures FromCross(MeetCross(ds, os)[k].v, ds, os)
  {
    var n := |ds| - 1;
    var before := MeetCross(ds[..n], os);
    if k < |before| {
      CrossOrigin(ds[..n], os, k);
      var i, j :| 0 <= i < n && 0 <= j < |os| && before[k].v == Unify(ds[..n][i].v, os[j].v);
      assert ds[..n][i] == ds[i];
    } else {
      RowAt(ds[n], os, k - |before|);
    }
  }

  lemma {:induction false} CleanOrigin(bs: seq<Branch>, k: nat)
    requires k < |CleanOf(bs)|
    ensures CleanOf(bs)[k] in bs && !HasBottomLeaf(CleanOf(bs)[k].v)
  {
    var n := |bs| - 1;
    if k < |CleanOf(bs[..n])| { CleanOrigin(bs[..n], k); }
  }

  lemma {:induction false} DirtyOrigin(bs: seq<Branch>, k: nat)
    requires k < |DirtyOf(bs)|
    ensures DirtyOf(bs)[k] in bs && !DirtyOf(bs)[k].v.Bottom? && HasBottomLeaf(DirtyOf(bs)[k].v)
  {
    var n := |bs| - 1;
    if k < |DirtyOf(bs[..n])| { DirtyOrigin(bs[..n], k); }
  }

  lemma {:induction false} DedupeOrigin(bs: seq<Branch>, k: nat)
    requires k < |Dedupe(bs)|
    ensures exists i :: 0 <= i < |bs| && Dedupe(bs)[k].v == bs[i].v
  {
    var n := |bs| - 1;
    if k < |Dedupe(bs[..n])| {
      DedupeOrigin(bs[..n], k);
      var i :| 0 <= i < n && Dedupe(bs[..n])[k].v == bs[..n][i].v;
      assert Dedupe(bs)[k].v == bs[i].v;
    }
  }

  /** Every surviving branch is the meet of one branch of each operand. */
  lemma SurvivorOrigin(d: Value, o: Value, k: nat)
    requires d.Disj? && k < |Dedupe(MeetBranches(d, o))|
    ensures FromCross(Dedupe(MeetBranches(d, o))[k].v, d.branches, BranchesOf(o))
    ensures !Dedupe(MeetBranches(d, o))[k].v.Bottom?
  {
    BranchesSize(o);
    var cross := MeetCross(d.branches, BranchesOf(o));
    var met := MeetBranches(d, o);
    DedupeOrigin(met, k);
    var i :| 0 <= i < |met| && Dedupe(met)[k].v == met[i].v;
    if CleanOf(cross) != [] { CleanOrigin(cross, i); } else { DirtyOrigin(cross, i); }
    var c :| 0 <= c < |cross| && cross[c] == met[i];
    CrossOrigin(d.branches, BranchesOf(o), c);
  }

  // ----- Where a bottom is buried -----

  /** A step into a value: a field, an element, or the rest of an open list. */
  datatype Spot = InField(i: nat) | InElem(i: nat) | InRest

  /** Walking the path from v, never into a disjunction, ends at a bottom. */
  predicate BottomAt(v: Value, path: seq<Spot>)
    decreases |path|
  {
    if path == [] then v.Bottom?
    else
      match path[0]
      case InField(i) => v.Struct? && i < |v.fields| && BottomAt(v.fields[i].val, path[1..])
      case InElem(i) => v.List? && i < |v.prefix| && BottomAt(v.prefix[i], path[1..])
      case InRest => v.List? && v.tail.Open? && BottomAt(v.tail.elem, path[1..])
  }

  lemma BottomBelow(v: Value, x: Value, spot: Spot, path: seq<Spot>)
    requires BottomAt(x, path)
    requires match spot
             case InField(i) => v.Struct? && i < |v.fields| && x == v.fields[i].val
             case InElem(i) => v.List? && i < |v.prefix| && x == v.prefix[i]
             case InRest => v.List? && v.tail.Open? && x == v.tail.elem
    ensures BottomAt(v, [spot] + path)
  {
    assert ([spot] + path)[1..] == path;
  }

  /** A branch is broken exactly if some such path leads to a bottom. */
  lemma {:induction false} BuriedBottom(v: Value) returns (path: seq<Spot>)
    requires HasBottomLeaf(v)
    ensures BottomAt(v, path)
  {
    match v
    case Bottom => path := [];
    case Struct(fs, _) =>
      var i :| 0 <= i < |fs| && HasBottomLeaf(fs[i].val);
      path := BuriedBottom(fs[i].val);
      BottomBelow(v, fs[i].val, InField(i), path);
      path := [InField(i)] + path;
    case List(p, t) =>
      if t.Open? && HasBottomLeaf(t.elem) {
        path := BuriedBottom(t.elem);
        BottomBelow(v, t.elem, InRest, path);
        path := [InRest] + path;
      } else {
        var i :| 0 <= i < |p| && HasBottomLeaf(p[i]);
        path := BuriedBottom(p[i]);
        BottomBelow(v, p[i], InElem(i), path);
        path := [InElem(i)] + path;
      }
  }

  lemma {:induction false} BottomBreaks(v: Value, path: seq<Spot>)
    requires BottomAt(v, path)
    ensures HasBottomLeaf(v)
    decreases |path|
  {
    if path != [] {
      match path[0]
      case InField(i) => BottomBreaks(v.fields[i].val, path[1..]);
      case InElem(i) => BottomBreaks(v.prefix[i], path[1..]);
      case InRest => BottomBreaks(v.tail.elem, path[1..]);
    }
  }

  /** MAIN: a meet counts as broken exactly if a bottom is buried in it, under fields, elements or an open rest. */
  lemma BrokenIff(v: Value)
    ensures HasBottomLeaf(v) <==> exists path :: BottomAt(v, path)
  {
    hide HasBottomLeaf, BottomAt;
    if HasBottomLeaf(v) {
      var path := BuriedBottom(v);
      assert BottomAt(v, path);
    } else {
      forall path ensures !BottomAt(v, path) { if BottomAt(v, path) { BottomBreaks(v, path); } }
    }
  }

  lemma {:induction false} PlainBottom(v: Value) returns (path: seq<Spot>)
    requires HasBottom(v)
    ensures BottomAt(v, path) && InRest !in path
  {
    match v
    case Bottom => path := [];
    case Struct(fs, _) =>
      var i :| 0 <= i < |fs| && HasBottom(fs[i].val);
      path := PlainBottom(fs[i].val);
      BottomBelow(v, fs[i].val, InField(i), path);
      path := [InField(i)] + path;
    case List(p, _) =>
      var i :| 0 <= i < |p| && HasBottom(p[i]);
      path := PlainBottom(p[i]);
      BottomBelow(v, p[i], InElem(i), path);
      path := [InElem(i)] + path;
  }

  lemma {:induction false} PlainBottomFound(v: Value, path: seq<Spot>)
    requires BottomAt(v, path) && InRest !in path
    ensures HasBottom(v)
    decreases |path|
  {
    if path != [] {
      assert path[0] in path && forall s <- path[1..] :: s in path;
      match path[0]
      case InField(i) => PlainBottomFound(v.fields[i].val, path[1..]);
      case InElem(i) => PlainBottomFound(v.prefix[i], path[1..]);
    }
  }

  /** MAIN: an optional field or a source holds a bottom exactly if one is buried in it, the rests of lists left aside. */
  lemma BottomIff(v: Value)
    ensures HasBottom(v) <==> exists path :: BottomAt(v, path) && InRest !in path
  {
    hide HasBottom, BottomAt;
    if HasBottom(v) {
      var path := PlainBottom(v);
      assert BottomAt(v, path);
    } else {
      forall path ensures !(BottomAt(v, path) && InRest !in path) {
        if BottomAt(v, path) && InRest !in path { PlainBottomFound(v, path); }
      }
    }
  }

  // ----- What each field of a struct meet is -----

  lemma {:induction false} MeetFieldAt(vf: seq<Field>, of: seq<Field>, oClosed: bool, i: nat)
    requires i < |vf|
    ensures MeetFields(vf, of, oClosed)[i] == MeetField(vf[i], of, oClosed)
  {
    if i < |vf| - 1 { MeetFieldAt(vf[..|vf| - 1], of, oClosed, i); }
  }

  /** An undeclared field of the right struct, as ExtraFields carries or rejects it. */
  function ExtraField(vClosed: bool, f: Field): Field
  {
    if vClosed then Field(f.name, Bottom, false) else f
  }

  lemma {:induction false} ExtraHas(vf: seq<Field>, vClosed: bool, of: seq<Field>, j: nat)
    requires j < |of| && !HasField(vf, of[j].name)
    ensures ExtraField(vClosed, of[j]) in ExtraFields(vf, vClosed, of)
  {
    if j < |of| - 1 { ExtraHas(vf, vClosed, of[..|of| - 1], j); }
  }

  lemma {:induction false} ExtraFrom(vf: seq<Field>, vClosed: bool, of: seq<Field>, k: nat)
    requires k < |ExtraFields(vf, vClosed, of)|
    ensures exists j :: 0 <= j < |of| && !HasField(vf, of[j].name) && ExtraFields(vf, vClosed, of)[k] == ExtraField(vClosed, of[j])
  {
    var n := |of| - 1;
    var before := ExtraFields(vf, vClosed, of[..n]);
    if k < |before| {
      ExtraFrom(vf, vClosed, of[..n], k);
      var j :| 0 <= j < n && !HasField(vf, of[..n][j].name) && before[k] == ExtraField(vClosed, of[..n][j]);
      assert of[..n][j] == of[j];
    } else {
      assert ExtraFields(vf, vClosed, of)[k] == ExtraField(vClosed, of[n]);
    }
  }

  lemma {:induction false} MeetElemAt(v: Value, o: Value, n: nat, i: nat)
    requires v.List? && o.List? && LengthsAgree(v, o) && i < n <= Longest(v, o)
    ensures MeetElems(v, o, n)[i] == Unify(ElemAt(v, i), ElemAt(o, i))
  {
    ElemSmaller(v, n - 1);
    ElemSmaller(o, n - 1);
    if i < n - 1 { MeetElemAt(v, o, n - 1, i); }
  }

  // ----- Structs by name -----

  function Find(fs: seq<Field>, name: string): (r: Option<Field>)
    ensures r.Some? ==> r.value in fs && r.value.name == name
  {
    if HasField(fs, name) then Some(fs[IndexOf(fs, name)]) else None
  }

  lemma FindAt(fs: seq<Field>, i: nat)
    requires UniqueNames(fs) && i < |fs|
    ensures Find(fs, fs[i].name) == Some(fs[i])
  {
  }

  lemma FindSmaller(fs: seq<Field>, name: string)
    requires Find(fs, name).Some?
    ensures Size(Find(fs, name).value.val) < SizeFields(fs)
  {
    FieldSmaller(fs, IndexOf(fs, name));
  }

  /** The field a struct meet has under a name, from what each operand has under it. */
  function MeetOpt(name: string, a: Option<Field>, aClosed: bool, b: Option<Field>, bClosed: bool): Option<Field>
  {
    match (a, b)
    case (None, None) => None
    case (Some(f), None) => if bClosed then Some(Field(name, Bottom, false)) else Some(f)
    case (None, Some(f)) => if aClosed then Some(Field(name, Bottom, false)) else Some(f)
    case (Some(f), Some(h)) => Some(Field(name, Unify(f.val, h.val), f.optional && h.optional))
  }

  lemma {:induction false} ExtraUnique(vf: seq<Field>, vClosed: bool, of: seq<Field>)
    requires UniqueNames(of)
    ensures UniqueNames(ExtraFields(vf, vClosed, of))
  {
    if of != [] {
      var n := |of| - 1;
      ExtraUnique(vf, vClosed, of[..n]);
      var before := ExtraFields(vf, vClosed, of[..n]);
      forall k | 0 <= k < |before| ensures before[k].name != of[n].name {
        ExtraFrom(vf, vClosed, of[..n], k);
        var j :| 0 <= j < n && before[k] == ExtraField(vClosed, of[..n][j]);
        assert of[..n][j] == of[j];
      }
    }
  }

  /** The fields of a struct meet by position: the left ones first, then the extra ones. */
  lemma StructMeetParts(v: Value, o: Value)
    requires v.Struct? && o.Struct?
    ensures var out := UnifyStruct(v, o).fields;
            var extra := ExtraFields(v.fields, v.closed, o.fields);
            && |out| == |v.fields| + |extra|
            && (forall i | 0 <= i < |v.fields| :: out[i] == MeetField(v.fields[i], o.fields, o.closed))
            && (forall i | 0 <= i < |v.fields| :: out[i].name == v.fields[i].name)
            && (forall k | 0 <= k < |extra| :: out[|v.fields| + k] == extra[k])
            && (forall k | 0 <= k < |extra| :: !HasField(v.fields, extra[k].name) && HasField(o.fields, extra[k].name))
  {
    var extra := ExtraFields(v.fields, v.closed, o.fields);
    var left := MeetFields(v.fields, o.fields, o.closed);
    UnifyStructIs(v, o);
    hide *;
    forall i | 0 <= i < |v.fields|
      ensures left[i] == MeetField(v.fields[i], o.fields, o.closed) && left[i].name == v.fields[i].name
    {
      MeetFieldAt(v.fields, o.fields, o.closed, i);
      MeetFieldName(v.fields[i], o.fields, o.closed);
    }
    forall k | 0 <= k < |extra| ensures !HasField(v.fields, extra[k].name) && HasField(o.fields, extra[k].name) {
      ExtraFrom(v.fields, v.closed, o.fields, k);
    }
  }

  lemma UnifyStructIs(v: Value, o: Value)
    requires v.Struct? && o.Struct?
    ensures UnifyStruct(v, o) ==
            Struct(MeetFields(v.fields, o.fields, o.closed) + ExtraFields(v.fields, v.closed, o.fields), v.closed || o.closed)
  {
    hide MeetFields, ExtraFields;
  }

  lemma MeetFieldName(fv: Field, of: seq<Field>, oClosed: bool)
    ensures MeetField(fv, of, oClosed).name == fv.name
  {
    hide Unify;
  }

  lemma StructMeetUnique(v: Value, o: Value)
    requires v.Struct? && o.Struct? && UniqueNames(v.fields) && UniqueNames(o.fields)
    ensures UniqueNames(UnifyStruct(v, o).fields)
  {
    StructMeetParts(v, o);
    ExtraUnique(v.fields, v.closed, o.fields);
    var out := UnifyStruct(v, o).fields;
    forall i, j | 0 <= i < j < |out| ensures out[i].name != out[j].name {
      if i < |v.fields| <= j {
        assert out[j] == ExtraFields(v.fields, v.closed, o.fields)[j - |v.fields|];
      } else if |v.fields| <= i {
        assert out[i] == ExtraFields(v.fields, v.closed, o.fields)[i - |v.fields|];
        assert out[j] == ExtraFields(v.fields, v.closed, o.fields)[j - |v.fields|];
      }
    }
  }

  lemma StructMeetNames(v: Value, o: Value)
    requires v.Struct? && o.Struct?
    ensures forall f <- UnifyStruct(v, o).fields :: HasField(v.fields, f.name) || HasField(o.fields, f.name)
  {
    StructMeetParts(v, o);
    var out := UnifyStruct(v, o).fields;
    forall k | 0 <= k < |out| ensures HasField(v.fields, out[k].name) || HasField(o.fields, out[k].name) {
      if k < |v.fields| {
        assert v.fields[k].name == out[k].name;
      } else {
        assert out[k] == ExtraFields(v.fields, v.closed, o.fields)[k - |v.fields|];
      }
    }
  }

  lemma LeftByName(v: Value, o: Value, name: string, out: seq<Field>)
    requires v.Struct? && o.Struct? && UniqueNames(out) && HasField(v.fields, name)
    requires out == UnifyStruct(v, o).fields
    ensures Find(out, name) == MeetOpt(name, Find(v.fields, name), v.closed, Find(o.fields, name), o.closed)
  {
    StructMeetParts(v, o);
    var i := IndexOf(v.fields, name);
    assert out[i] == MeetField(v.fields[i], o.fields, o.closed);
    FindAt(out, i);
  }

  lemma RightByName(v: Value, o: Value, name: string, out: seq<Field>)
    requires v.Struct? && o.Struct? && UniqueNames(out) && !HasField(v.fields, name) && HasField(o.fields, name)
    requires out == UnifyStruct(v, o).fields
    ensures Find(out, name) == Some(ExtraField(v.closed, Find(o.fields, name).value))
  {
    hide *;
    StructMeetParts(v, o);
    var extra := ExtraFields(v.fields, v.closed, o.fields);
    var j := FindPlace(o.fields, name);
    ExtraHas(v.fields, v.closed, o.fields, j);
    var k :| 0 <= k < |extra| && extra[k] == ExtraField(v.closed, o.fields[j]);
    ExtraName(v.closed, o.fields[j]);
    FindAt(out, |v.fields| + k);
  }

  lemma FindPlace(fs: seq<Field>, name: string) returns (j: nat)
    requires HasField(fs, name)
    ensures j < |fs| && fs[j].name == name && Find(fs, name) == Some(fs[j])
  {
    j := IndexOf(fs, name);
  }

  lemma ExtraName(vClosed: bool, f: Field)
    ensures ExtraField(vClosed, f).name == f.name
  {
  }

  /** Each name's field in a struct meet is decided by what the operands have under that name alone. */
  lemma StructMeetByName(v: Value, o: Value, name: string)
    requires v.Struct? && o.Struct? && UniqueNames(v.fields) && UniqueNames(o.fields)
    ensures UniqueNames(UnifyStruct(v, o).fields)
    ensures Find(UnifyStruct(v, o).fields, name)
         == MeetOpt(name, Find(v.fields, name), v.closed, Find(o.fields, name), o.closed)
  {
    StructMeetUnique(v, o);
    var out := UnifyStruct(v, o).fields;
    if HasField(v.fields, name) {
      LeftByName(v, o, name, out);
    } else if HasField(o.fields, name) {
      RightByName(v, o, name, out);
    } else {
      StructMeetNames(v, o);
    }
  }

}
