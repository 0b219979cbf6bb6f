/** Validating against a schema with deferred fields: it is validating against what the fields resolve to. */
module DeferredSchemas {

  import opened Wrappers
  import opened Values
  import opened Meet
  import opened Semantics
  import opened Validate
  import opened MeetFacts
  import opened Acceptance
  import opened Thunks
  import opened Eval
  import opened EvalLaws
  import opened Engine

  lemma {:induction false} DataIsFree(d: Value, g: Ground)
    requires Lifts(d, g)
    ensures ThunkFree(d)
    decreases g
  {
    match g
    case GScalar(_) =>
    case GStruct(m) =>
      forall i | 0 <= i < |d.fields| ensures ThunkFree(d.fields[i].val) {
        assert d.fields[i] in d.fields;
        assert HasField(d.fields, d.fields[i].name) && IndexOf(d.fields, d.fields[i].name) == i;
        DataIsFree(d.fields[i].val, m[d.fields[i].name]);
      }
    case GList(xs) => forall i | 0 <= i < |xs| ensures ThunkFree(d.prefix[i]) { DataIsFree(d.prefix[i], xs[i]); }
  }

  /** Data has nothing to force. */
  lemma DataStaysAsIs(d: Value, s: Value, ev: Closures)
    requires d.Struct? && s.Struct? && !HasThunkField(d)
    ensures Resolved(d, s, ev).0 == d
  {
    hide ConcreteScope, HasThunkField;
    SettledData(d, s, ev);
    var (d1, s1) := Settle(d, s, ev);
    NothingToForce(d, ConcreteScope(d1, s1), false, ev);
  }

  lemma {:induction false} SettledData(d: Value, s: Value, ev: Closures)
    requires d.Struct? && s.Struct? && !HasThunkField(d)
    ensures Settle(d, s, ev).0 == d
    decreases |d.fields| + |s.fields| - |ConcreteScope(d, s)|
  {
    hide ConcreteScope, HasThunkField;
    ScopeNames(d, s);
    PassGrows(d, s, ev);
    if HasThunkField(s) {
      var (d1, s1) := Pass(d, s, ev);
      NothingToForce(d, ConcreteScope(d, s), true, ev);
      if |ConcreteScope(d1, s1)| != |ConcreteScope(d, s)| { SettledData(d1, s1, ev); }
    }
  }

  /** What the deferred fields of the schema resolve to beside the data. */
  function ResolvedSchema(n: nat, regex: string -> Option<string -> bool>, d: Value, s: Value): Value
    requires d.Struct? && s.Struct?
  {
    Resolved(d, s, Forcing(ToolsAt(n, regex))).1
  }

  lemma StructStep(t: Tools, v: Value, o: Value)
    requires v.Struct? && o.Struct?
    ensures Engine.Step(t, v, o) == StructBy(t.meet, Resolved(v, o, Forcing(t)).0, Resolved(v, o, Forcing(t)).1)
  {
    hide StructBy, Resolved;
  }

  /** MAIN: the meet of data and schema is the plain meet of the data and the resolved schema. */
  lemma DeferredMeetIsPlain(n: nat, regex: string -> Option<string -> bool>, d: Value, g: Ground, s: Value)
    requires Lifts(d, g) && d.Struct? && s.Struct?
    requires var s1 := ResolvedSchema(n, regex, d, s); ThunkFree(s1) && Size(d) + Size(s1) <= n
    ensures ToolsAt(n + 1, regex).meet(d, s) == Unify(d, ResolvedSchema(n, regex, d, s))
  {
    hide *;
    var t, s1 := ToolsAt(n, regex), ResolvedSchema(n, regex, d, s);
    DataIsFree(d, g);
    FieldsAreFree(d);
    EngineStep(n + 1, regex, d, s);
    StructStep(t, d, s);
    DataStaysAsIs(d, s, Forcing(t));
    ToolsAgree(n, regex, Size(d) + Size(s1));
    ResolvedIs(n, regex, d, s);
    FieldsAgree(t.meet, d, s1);
    StructMeetIs(d, s1);
  }

  lemma ResolvedIs(n: nat, regex: string -> Option<string -> bool>, d: Value, s: Value)
    requires d.Struct? && s.Struct?
    ensures ResolvedSchema(n, regex, d, s) == Resolved(d, s, Forcing(ToolsAt(n, regex))).1 && ResolvedSchema(n, regex, d, s).Struct?
  {
    hide Resolved;
  }

  lemma StructMeetIs(a: Value, b: Value)
    requires a.Struct? && b.Struct?
    ensures Unify(a, b) == UnifyStruct(a, b)
  {
    hide UnifyStruct;
  }

  lemma ToolsAgree(n: nat, regex: string -> Option<string -> bool>, bound: nat)
    requires bound <= n
    ensures Agrees(ToolsAt(n, regex).meet, bound)
  {
    hide Size, ThunkFree, Unify, ToolsAt;
    forall a, b | ThunkFree(a) && ThunkFree(b) && Size(a) + Size(b) < bound ensures ToolsAt(n, regex).meet(a, b) == Unify(a, b) {
      EngineIsMeet(n, regex, a, b);
    }
  }

  lemma FieldsAreFree(v: Value)
    requires v.Struct? && ThunkFree(v)
    ensures !HasThunkField(v)
  {
    forall i | 0 <= i < |v.fields| ensures !HasThunk(v.fields[i].val) { FreeHasNoThunk(v.fields[i].val); }
  }

  /**
    MAIN: a document that passes a schema with deferred fields resolves to an extension of the data that
    the resolved schema admits.
   */
  lemma DeferredValidationIsSound(n: nat, regex: string -> Option<string -> bool>, d: Value, g: Ground, s: Value)
    requires Lifts(d, g) && d.Struct? && s.Struct?
    requires var s1 := ResolvedSchema(n, regex, d, s); ThunkFree(s1) && Wf(s1) && Size(d) + Size(s1) <= n
    requires Leaves(ToolsAt(n + 1, regex).meet(d, s), []) == []
    ensures var m := ToolsAt(n + 1, regex).meet(d, s);
      IsConcrete(m) && Extends(Resolve(m), g) && Member(Resolve(m), ResolvedSchema(n, regex, d, s))
  {
    hide *;
    DeferredMeetIsPlain(n, regex, d, g, s);
    ValidationIsSound(d, g, ResolvedSchema(n, regex, d, s));
  }

  // ----- A field that gets no value -----

  /** What the scope holds when the passes have stopped. */
  function FinalScope(t: Tools, d: Value, s: Value): Scope
    requires d.Struct? && s.Struct?
  {
    ConcreteScope(Settle(d, s, Forcing(t)).0, Settle(d, s, Forcing(t)).1)
  }

  /** Field i of the schema when the passes have stopped. */
  function SettledField(t: Tools, d: Value, s: Value, i: nat): Value
    requires d.Struct? && s.Struct? && i < |s.fields|
  {
    Settle(d, s, Forcing(t)).1.fields[i].val
  }

  /** A waiting thunk, the value itself or a list element, whose expression has no value in the scope. */
  predicate Fails(t: Tools, v: Value, scope: Scope)
  {
    match v
    case Thunk(_, e) => !EvalExpr(t, e, Some(scope)).Ok?
    case List(p, _) => exists i | 0 <= i < |p| :: Fails(t, p[i], scope)
    case _ => false
  }

  /** A bottom, the value itself or a list element. */
  predicate Blocked(v: Value)
  {
    match v
    case Bottom => true
    case List(p, _) => exists i | 0 <= i < |p| :: Blocked(p[i])
    case _ => false
  }

  lemma {:induction false} FailsHasThunk(t: Tools, v: Value, scope: Scope)
    requires Fails(t, v, scope)
    ensures HasThunk(v)
  {
    hide EvalExpr;
    if v.List? {
      var i :| 0 <= i < |v.prefix| && Fails(t, v.prefix[i], scope);
      FailsHasThunk(t, v.prefix[i], scope);
    }
  }

  lemma {:induction false} FailureBlocks(t: Tools, v: Value, scope: Scope)
    requires Fails(t, v, scope)
    ensures Blocked(ForceValue(v, scope, false, Forcing(t)))
    decreases v
  {
    hide EvalExpr;
    FailsHasThunk(t, v, scope);
    if v.List? {
      var i :| 0 <= i < |v.prefix| && Fails(t, v.prefix[i], scope);
      FailureBlocks(t, v.prefix[i], scope);
      assert ForceValue(v, scope, false, Forcing(t)).prefix[i] == ForceValue(v.prefix[i], scope, false, Forcing(t));
    }
  }

  lemma {:induction false} BlockedIsOpen(v: Value)
    requires Blocked(v)
    ensures HasBottom(v) && !IsConcrete(v)
  {
    if v.List? {
      var i :| 0 <= i < |v.prefix| && Blocked(v.prefix[i]);
      BlockedIsOpen(v.prefix[i]);
    }
  }

  /** Data does not repair what is blocked. */
  lemma {:induction false} BlockedStays(n: nat, regex: string -> Option<string -> bool>, x: Value, g: Ground, b: Value)
    requires Lifts(x, g) && Blocked(b)
    ensures Blocked(ToolsAt(n, regex).meet(x, b))
    decreases n
  {
    hide ToolsAt, Resolved, StructBy, DisjBy;
    if n == 0 {
      AtDepthZero(regex, x, b);
    } else {
      EngineStep(n, regex, x, b);
      if b.List? && x.List? && LengthsAgree(x, b) {
        var i :| 0 <= i < |b.prefix| && Blocked(b.prefix[i]);
        var t := ToolsAt(n - 1, regex);
        assert Lifts(x.prefix[i], g.xs[i]);
        BlockedStays(n - 1, regex, x.prefix[i], g.xs[i], b.prefix[i]);
        assert ElemAt(x, i) == x.prefix[i] && ElemAt(b, i) == b.prefix[i] && i < Longest(x, b);
        assert ListBy(t.meet, x, b).prefix[i] == t.meet(x.prefix[i], b.prefix[i]);
      }
    }
  }

  lemma AtDepthZero(regex: string -> Option<string -> bool>, x: Value, b: Value)
    ensures ToolsAt(0, regex).meet(x, b) == Bottom
  {
  }

  lemma OpenFieldIsOpen(v: Value, k: nat)
    requires v.Struct? && k < |v.fields| && HasBottom(v.fields[k].val) && !IsConcrete(v.fields[k].val)
    ensures !IsConcrete(v)
  {
  }

  /** Field i of the second struct in the result: met with the first struct's field, or carried over. */
  lemma FieldOfMeet(rec: Meeting, v: Value, o: Value, i: nat) returns (k: nat)
    requires v.Struct? && o.Struct? && UniqueNames(o.fields) && i < |o.fields| && !v.closed
    ensures var out := StructBy(rec, v, o).fields; var f := o.fields[i];
      && k < |out|
      && (HasField(v.fields, f.name) ==>
            out[k].name == f.name && exists j :: 0 <= j < |v.fields| && v.fields[j].name == f.name && out[k].val == rec(v.fields[j].val, f.val))
      && (!HasField(v.fields, f.name) ==> out[k] == f)
  {
    hide ExtraFields, UniqueNames;
    var out, f := StructBy(rec, v, o).fields, o.fields[i];
    FindAt(o.fields, i);
    if HasField(v.fields, f.name) {
      k := IndexOf(v.fields, f.name);
      assert out[k] == FieldBy(rec, v.fields[k], o.fields, o.closed);
    } else {
      ExtraHas(v.fields, v.closed, o.fields, i);
      var extra := ExtraFields(v.fields, v.closed, o.fields);
      var e :| 0 <= e < |extra| && extra[e] == ExtraField(v.closed, f);
      k := |v.fields| + e;
    }
  }

  /** What the meet of a document and a schema is made of. */
  lemma DocumentMeet(n: nat, regex: string -> Option<string -> bool>, d: Value, g: Ground, s: Value)
    requires Lifts(d, g) && d.Struct? && s.Struct? && UniqueNames(s.fields)
    ensures var t := ToolsAt(n, regex); var s' := Resolved(d, s, Forcing(t)).1;
      && ToolsAt(n + 1, regex).meet(d, s) == StructBy(t.meet, d, s')
      && s'.Struct? && UniqueNames(s'.fields) && |s'.fields| == |s.fields| && !d.closed
      && forall i | 0 <= i < |s.fields| ::
           && s'.fields[i].name == s.fields[i].name
           && s'.fields[i].val == ForceValue(SettledField(t, d, s, i), FinalScope(t, d, s), false, Forcing(t))
  {
    var t := ToolsAt(n, regex);
    DataIsFree(d, g);
    FieldsAreFree(d);
    OpenData(d, g);
    hide ThunkFree, HasThunkField, ToolsAt, Lifts, StructBy, Engine.Step, ForceValue, Settle, ConcreteScope;
    EngineStep(n + 1, regex, d, s);
    StructStep(t, d, s);
    DataStaysAsIs(d, s, Forcing(t));
    ResolvedShape(d, s, Forcing(t));
  }

  lemma OpenData(d: Value, g: Ground)
    requires Lifts(d, g) && d.Struct?
    ensures g.GStruct? && !d.closed
  {
  }

  lemma DataField(d: Value, g: Ground, j: nat)
    requires Lifts(d, g) && d.Struct? && j < |d.fields|
    ensures g.GStruct? && d.fields[j].name in g.m && Lifts(d.fields[j].val, g.m[d.fields[j].name])
  {
    OpenData(d, g);
    LiftedFieldAt(d, g, j);
  }

  /**
    MAIN: if, when the passes have stopped, a thunk still waits in a field of the schema and its expression has
    no value in the final scope, the document is refused, at every depth.
   */
  lemma FailedFieldRefuses(n: nat, regex: string -> Option<string -> bool>, d: Value, g: Ground, s: Value, i: nat)
    requires Lifts(d, g) && d.Struct? && s.Struct? && UniqueNames(s.fields) && i < |s.fields|
    requires var t := ToolsAt(n, regex); Fails(t, SettledField(t, d, s, i), FinalScope(t, d, s))
    ensures Leaves(ToolsAt(n + 1, regex).meet(d, s), []) != []
  {
    hide *;
    var t, m := ToolsAt(n, regex), ToolsAt(n + 1, regex).meet(d, s);
    var s' := Resolved(d, s, Forcing(t)).1;
    DocumentMeet(n, regex, d, g, s);
    FailureBlocks(t, SettledField(t, d, s, i), FinalScope(t, d, s));
    StructByIsStruct(t.meet, d, s');
    var k := FieldOfMeet(t.meet, d, s', i);
    var f := s'.fields[i];
    if HasField(d.fields, f.name) {
      var j :| 0 <= j < |d.fields| && d.fields[j].name == f.name && StructBy(t.meet, d, s').fields[k].val == t.meet(d.fields[j].val, f.val);
      DataField(d, g, j);
      BlockedStays(n, regex, d.fields[j].val, g.m[d.fields[j].name], f.val);
    }
    BlockedIsOpen(StructBy(t.meet, d, s').fields[k].val);
    OpenFieldIsOpen(m, k);
    NoLeavesIffConcrete(m, []);
  }

  lemma StructByIsStruct(rec: Meeting, v: Value, o: Value)
    requires v.Struct? && o.Struct?
    ensures StructBy(rec, v, o).Struct?
  {
  }

  /** MAIN: so is one whose waiting field needs a name that nothing makes concrete. */
  lemma UnboundFieldRefuses(n: nat, regex: string -> Option<string -> bool>, d: Value, g: Ground, s: Value, i: nat, name: string)
    requires Lifts(d, g) && d.Struct? && s.Struct? && UniqueNames(s.fields) && i < |s.fields|
    requires var t := ToolsAt(n, regex);
      && SettledField(t, d, s, i).Thunk? && name in Needed(SettledField(t, d, s, i).expr) && name !in FinalScope(t, d, s)
    ensures Leaves(ToolsAt(n + 1, regex).meet(d, s), []) != []
  {
    hide *;
    var t := ToolsAt(n, regex);
    var th, scope := SettledField(t, d, s, i), FinalScope(t, d, s);
    if EvalExpr(t, th.expr, Some(scope)).Ok? {
      NeedsConcrete(t, th.expr, scope);
      NotConcrete(scope, Needed(th.expr), name);
    }
    ThunkFails(t, th, scope);
    FailedFieldRefuses(n, regex, d, g, s, i);
  }

  lemma NotConcrete(s: Scope, names: set<string>, name: string)
    requires name in names && name !in s
    ensures !AllConcreteIn(s, names)
  {
  }

  lemma ThunkFails(t: Tools, th: Value, scope: Scope)
    requires th.Thunk?
    ensures Fails(t, th, scope) <==> !EvalExpr(t, th.expr, Some(scope)).Ok?
  {
    hide EvalExpr;
  }

  /** The meet has v under the name, met with what the document has there if it has anything. */
  ghost predicate HasMet(t: Tools, m: Value, d: Value, name: string, v: Value)
    requires m.Struct? && d.Struct?
  {
    if HasField(d.fields, name) then
      exists k, j :: 0 <= k < |m.fields| && 0 <= j < |d.fields| && m.fields[k].name == d.fields[j].name == name &&
                     m.fields[k].val == t.meet(d.fields[j].val, v)
    else exists k :: 0 <= k < |m.fields| && m.fields[k].name == name && m.fields[k].val == v
  }

  /** MAIN: a field whose expression has a value in the final scope takes that value. */
  lemma DeferredFieldIsMet(n: nat, regex: string -> Option<string -> bool>, d: Value, g: Ground, s: Value, i: nat)
    requires Lifts(d, g) && d.Struct? && s.Struct? && UniqueNames(s.fields) && i < |s.fields|
    requires var t := ToolsAt(n, regex);
      SettledField(t, d, s, i).Thunk? && EvalExpr(t, SettledField(t, d, s, i).expr, Some(FinalScope(t, d, s))).Ok?
    ensures var t := ToolsAt(n, regex); var m := ToolsAt(n + 1, regex).meet(d, s);
      m.Struct? && HasMet(t, m, d, s.fields[i].name, EvalExpr(t, SettledField(t, d, s, i).expr, Some(FinalScope(t, d, s))).v)
  {
    hide *;
    var t, m := ToolsAt(n, regex), ToolsAt(n + 1, regex).meet(d, s);
    var s' := Resolved(d, s, Forcing(t)).1;
    DocumentMeet(n, regex, d, g, s);
    ThunkForced(t, SettledField(t, d, s, i), FinalScope(t, d, s));
    StructByIsStruct(t.meet, d, s');
    var k := FieldOfMeet(t.meet, d, s', i);
    MetIs(t, m, d, s'.fields[i], k);
  }

  lemma MetIs(t: Tools, m: Value, d: Value, f: Field, k: nat)
    requires m.Struct? && d.Struct? && k < |m.fields|
    requires HasField(d.fields, f.name) ==>
               m.fields[k].name == f.name && exists j :: 0 <= j < |d.fields| && d.fields[j].name == f.name && m.fields[k].val == t.meet(d.fields[j].val, f.val)
    requires !HasField(d.fields, f.name) ==> m.fields[k] == f
    ensures HasMet(t, m, d, f.name, f.val)
  {
  }

  lemma ThunkForced(t: Tools, th: Value, scope: Scope)
    requires th.Thunk? && EvalExpr(t, th.expr, Some(scope)).Ok?
    ensures ForceValue(th, scope, false, Forcing(t)) == EvalExpr(t, th.expr, Some(scope)).v
  {
    hide EvalExpr;
  }

}
