/**
  What the force loop guarantees: it stops only when no thunk left can be resolved, the names it makes
  concrete are the least closed set, and, when no name a thunk reads is bound twice, the order of the
  passes does not matter. Where a name is bound twice the order of the operands does matter.
 */
module ThunkLaws {

  import opened Values
  import opened Meet
  import opened MeetFacts
  import opened Defaults
  import opened Thunks

  /** Evaluated in a scope without thunks, an expression holds no thunk where the force pass looks. */
  ghost predicate Evaluates(ev: Closures)
  {
    forall e, scope | Forceless(scope) :: !HasThunk(ev(e, scope))
  }

  /** No pass meets a field that is concrete and still holds a thunk. */
  ghost predicate CleanPasses(v: Value, o: Value, ev: Closures)
    requires v.Struct? && o.Struct?
    decreases |v.fields| + |o.fields| - |ConcreteScope(v, o)|
  {
    ScopeNames(v, o);
    PassGrows(v, o, ev);
    && Forceless(ConcreteScope(v, o))
    && var (v1, o1) := Pass(v, o, ev);
      |ConcreteScope(v1, o1)| != |ConcreteScope(v, o)| ==> CleanPasses(v1, o1, ev)
  }

  /** Thunks only as fields or as elements of lists, which are concrete only once their thunks are gone. */
  ghost predicate Tidy(v: Value)
  {
    match v
    case Thunk(_, _) => true
    case List(p, t) => (forall i :: 0 <= i < |p| ==> Tidy(p[i])) && (t.Open? ==> !HasThunk(t.elem))
    case _ => !HasThunk(v)
  }

  ghost predicate TidyFields(v: Value)
    requires v.Struct?
  {
    forall i :: 0 <= i < |v.fields| ==> Tidy(v.fields[i].val)
  }

  lemma {:induction false} TidyConcrete(v: Value)
    requires Tidy(v) && IsConcrete(v)
    ensures !HasThunk(v)
  {
    if v.List? {
      forall i | 0 <= i < |v.prefix| ensures !HasThunk(v.prefix[i]) { TidyConcrete(v.prefix[i]); }
    }
  }

  lemma {:induction false} PlainIsTidy(v: Value)
    requires !HasThunk(v)
    ensures Tidy(v)
  {
    if v.List? {
      forall i | 0 <= i < |v.prefix| ensures Tidy(v.prefix[i]) { PlainIsTidy(v.prefix[i]); }
    }
  }

  lemma {:induction false} TidyForce(v: Value, scope: Scope, soft: bool, ev: Closures)
    requires Tidy(v) && Forceless(scope) && Evaluates(ev)
    ensures Tidy(ForceValue(v, scope, soft, ev))
    decreases v
  {
    match v
    case Thunk(refs, e) => if !soft || Resolvable(refs, scope) { PlainIsTidy(ev(e, scope)); }
    case List(p, t) =>
      if HasThunk(v) {
        forall i | 0 <= i < |p| ensures Tidy(ForceValue(p[i], scope, soft, ev)) { TidyForce(p[i], scope, soft, ev); }
        if t.Open? { Unthunked(t.elem, scope, soft, ev); }
      }
    case _ =>
  }

  lemma Unthunked(v: Value, scope: Scope, soft: bool, ev: Closures)
    requires !HasThunk(v)
    ensures ForceValue(v, scope, soft, ev) == v
  {
  }

  /** Also as branches of disjunctions without a default, which are never concrete. */
  ghost predicate Quiet(v: Value)
  {
    match v
    case List(p, t) => (forall i :: 0 <= i < |p| ==> Quiet(p[i])) && (t.Open? ==> !HasThunk(t.elem))
    case Disj(bs) => HasThunk(v) ==> NoMark(bs) && forall i :: 0 <= i < |bs| ==> Quiet(bs[i].v)
    case _ => true
  }

  ghost predicate QuietFields(v: Value)
    requires v.Struct?
  {
    forall i :: 0 <= i < |v.fields| ==> Quiet(v.fields[i].val)
  }

  lemma {:induction false} TidyIsQuiet(v: Value)
    requires Tidy(v)
    ensures Quiet(v)
  {
    if v.List? {
      forall i | 0 <= i < |v.prefix| ensures Quiet(v.prefix[i]) { TidyIsQuiet(v.prefix[i]); }
    }
  }

  lemma {:induction false} QuietConcrete(v: Value)
    requires Quiet(v) && IsConcrete(v)
    ensures !HasThunk(v)
  {
    if v.List? {
      forall i | 0 <= i < |v.prefix| ensures !HasThunk(v.prefix[i]) { QuietConcrete(v.prefix[i]); }
    }
    if v.Disj? {
      var k := DefaultIndex(v.branches).value;
      assert v.branches[k] in v.branches;
    }
  }

  lemma RebuildQuiet(bs: seq<Branch>)
    requires NoMark(bs) && forall b <- bs :: Quiet(b.v)
    ensures Quiet(RebuildDisjunction(bs))
  {
    hide Quiet, Dedupe;
    var live := Dedupe(LiveOf(bs));
    assert NoMark(LiveOf(bs));
    DedupeUnmarked(LiveOf(bs));
    forall k | 0 <= k < |live| ensures Quiet(live[k].v) {
      LiveOrigin(bs, k);
      var i :| 0 <= i < |bs| && live[k].v == bs[i].v;
      assert bs[i] in bs;
    }
    QuietDisj(live);
    assert Quiet(Bottom) by { PlainIsTidy(Bottom); TidyIsQuiet(Bottom); }
  }

  lemma QuietDisj(bs: seq<Branch>)
    requires NoMark(bs) && forall i | 0 <= i < |bs| :: Quiet(bs[i].v)
    ensures Quiet(Disj(bs))
  {
  }

  lemma {:induction false} QuietForce(v: Value, scope: Scope, soft: bool, ev: Closures)
    requires Quiet(v) && Forceless(scope) && Evaluates(ev)
    ensures Quiet(ForceValue(v, scope, soft, ev))
    decreases v
  {
    match v
    case Thunk(refs, e) =>
      if !soft || Resolvable(refs, scope) {
        PlainIsTidy(ev(e, scope));
        TidyIsQuiet(ev(e, scope));
      }
    case List(p, t) =>
      if HasThunk(v) {
        forall i | 0 <= i < |p| ensures Quiet(ForceValue(p[i], scope, soft, ev)) { QuietForce(p[i], scope, soft, ev); }
        if t.Open? { Unthunked(t.elem, scope, soft, ev); }
      }
    case Disj(bs) =>
      if HasThunk(v) {
        var forced := seq(|bs|, i requires 0 <= i < |bs| => Branch(ForceValue(bs[i].v, scope, soft, ev), bs[i].mode));
        forall i | 0 <= i < |bs| ensures Quiet(forced[i].v) && !forced[i].mode.Is? {
          assert bs[i] in bs;
          QuietForce(bs[i].v, scope, soft, ev);
        }
        RebuildQuiet(forced);
      }
    case _ =>
  }

  lemma {:induction false} BoundForceless(scope: Scope, fs: seq<Field>)
    requires Forceless(scope) && forall i :: 0 <= i < |fs| ==> Quiet(fs[i].val)
    ensures Forceless(BindConcrete(scope, fs))
  {
    if fs != [] {
      var n := |fs| - 1;
      BoundForceless(scope, fs[..n]);
      if IsConcrete(fs[n].val) { QuietConcrete(fs[n].val); }
    }
  }

  lemma QuietScope(v: Value, o: Value)
    requires v.Struct? && o.Struct? && QuietFields(v) && QuietFields(o)
    ensures Forceless(ConcreteScope(v, o))
  {
    hide Quiet, BindConcrete;
    assert Forceless(map[]);
    BoundForceless(map[], v.fields);
    BoundForceless(BindConcrete(map[], v.fields), o.fields);
  }

  lemma QuietPass(v: Value, scope: Scope, ev: Closures)
    requires v.Struct? && QuietFields(v) && Evaluates(ev) && Forceless(scope)
    ensures QuietFields(ForceFields(v, scope, true, ev))
  {
    hide Quiet;
    forall i | 0 <= i < |v.fields| ensures Quiet(ForceFields(v, scope, true, ev).fields[i].val) {
      QuietForce(v.fields[i].val, scope, true, ev);
    }
  }

  /** MAIN: structs whose thunks are fields, list elements or branches without a default only ever make thunk-free scopes. */
  lemma {:induction false} QuietPassesAreClean(v: Value, o: Value, ev: Closures)
    requires v.Struct? && o.Struct? && QuietFields(v) && QuietFields(o) && Evaluates(ev)
    ensures CleanPasses(v, o, ev)
    decreases |v.fields| + |o.fields| - |ConcreteScope(v, o)|
  {
    hide QuietFields, ConcreteScope, ForceFields;
    ScopeNames(v, o);
    PassGrows(v, o, ev);
    var scope := ConcreteScope(v, o);
    QuietScope(v, o);
    QuietPass(v, scope, ev);
    QuietPass(o, scope, ev);
    var (v1, o1) := Pass(v, o, ev);
    if |ConcreteScope(v1, o1)| != |scope| { QuietPassesAreClean(v1, o1, ev); }
  }

  /** MAIN: structs whose thunks are fields or list elements only ever make thunk-free scopes. */
  lemma TidyPassesAreClean(v: Value, o: Value, ev: Closures)
    requires v.Struct? && o.Struct? && TidyFields(v) && TidyFields(o) && Evaluates(ev)
    ensures CleanPasses(v, o, ev)
  {
    hide Tidy, Quiet, CleanPasses, Evaluates;
    forall i | 0 <= i < |v.fields| ensures Quiet(v.fields[i].val) { TidyIsQuiet(v.fields[i].val); }
    forall i | 0 <= i < |o.fields| ensures Quiet(o.fields[i].val) { TidyIsQuiet(o.fields[i].val); }
    QuietPassesAreClean(v, o, ev);
  }

  // ----- Nothing resolvable is left -----

  /** Some thunk in v has all its references among the names. */
  predicate ThunkWithin(v: Value, names: set<string>)
  {
    match v
    case Thunk(refs, _) => forall i | 0 <= i < |refs| :: refs[i] in names
    case List(p, t) => (exists i | 0 <= i < |p| :: ThunkWithin(p[i], names)) || (t.Open? && ThunkWithin(t.elem, names))
    case Disj(bs) => exists i | 0 <= i < |bs| :: ThunkWithin(bs[i].v, names)
    case _ => false
  }

  lemma {:induction false} ThunkWithinHasThunk(v: Value, names: set<string>)
    requires ThunkWithin(v, names)
    ensures HasThunk(v)
  {
    match v
    case List(p, t) =>
      if t.Open? && ThunkWithin(t.elem, names) { ThunkWithinHasThunk(t.elem, names); }
      else {
        var i :| 0 <= i < |p| && ThunkWithin(p[i], names);
        ThunkWithinHasThunk(p[i], names);
      }
    case Disj(bs) =>
      var i :| 0 <= i < |bs| && ThunkWithin(bs[i].v, names);
      ThunkWithinHasThunk(bs[i].v, names);
    case _ =>
  }

  lemma LiveOrigin(bs: seq<Branch>, k: nat)
    requires k < |Dedupe(LiveOf(bs))|
    ensures exists i :: 0 <= i < |bs| && Dedupe(LiveOf(bs))[k].v == bs[i].v
  {
    DedupeOrigin(LiveOf(bs), k);
    var j :| 0 <= j < |LiveOf(bs)| && Dedupe(LiveOf(bs))[k].v == LiveOf(bs)[j].v;
    assert LiveOf(bs)[j] in bs;
  }

  /** A thunk in a rebuilt disjunction was in one of the branches it was built from. */
  lemma RebuildWithin(bs: seq<Branch>, names: set<string>)
    requires ThunkWithin(RebuildDisjunction(bs), names)
    ensures exists i :: 0 <= i < |bs| && ThunkWithin(bs[i].v, names)
  {
    var live := Dedupe(LiveOf(bs));
    var k :| 0 <= k < |live| && ThunkWithin(live[k].v, names);
    LiveOrigin(bs, k);
  }

  function AllConcrete(scope: Scope): bool
  {
    forall n <- scope :: IsConcrete(scope[n])
  }

  /** Thunks only go away, and a soft force leaves none that the scope could resolve. */
  lemma {:induction false} SoftForceExhausts(v: Value, scope: Scope, names: set<string>, ev: Closures)
    requires Evaluates(ev) && Forceless(scope) && AllConcrete(scope)
    ensures ThunkWithin(ForceValue(v, scope, true, ev), names) ==> ThunkWithin(v, names)
    ensures !ThunkWithin(ForceValue(v, scope, true, ev), scope.Keys)
    decreases v
  {
    var r := ForceValue(v, scope, true, ev);
    match v
    case Thunk(refs, e) =>
      if ThunkWithin(ev(e, scope), names) { ThunkWithinHasThunk(ev(e, scope), names); }
      if ThunkWithin(ev(e, scope), scope.Keys) { ThunkWithinHasThunk(ev(e, scope), scope.Keys); }
    case List(p, t) =>
      if HasThunk(v) {
        forall i | 0 <= i < |p|
          ensures ThunkWithin(r.prefix[i], names) ==> ThunkWithin(p[i], names)
          ensures !ThunkWithin(r.prefix[i], scope.Keys)
        {
          SoftForceExhausts(p[i], scope, names, ev);
        }
        if t.Open? { SoftForceExhausts(t.elem, scope, names, ev); }
      } else {
        if ThunkWithin(v, scope.Keys) { ThunkWithinHasThunk(v, scope.Keys); }
      }
    case Disj(bs) =>
      if HasThunk(v) {
        var forced := seq(|bs|, i requires 0 <= i < |bs| => Branch(ForceValue(bs[i].v, scope, true, ev), bs[i].mode));
        forall i | 0 <= i < |bs|
          ensures ThunkWithin(forced[i].v, names) ==> ThunkWithin(bs[i].v, names)
          ensures !ThunkWithin(forced[i].v, scope.Keys)
        {
          SoftForceExhausts(bs[i].v, scope, names, ev);
        }
        if ThunkWithin(r, names) { RebuildWithin(forced, names); }
        if ThunkWithin(r, scope.Keys) { RebuildWithin(forced, scope.Keys); }
      } else {
        if ThunkWithin(v, scope.Keys) { ThunkWithinHasThunk(v, scope.Keys); }
      }
    case _ =>
  }

  /** No field of the struct holds a thunk whose references are all among the names. */
  ghost predicate Exhausted(v: Value, names: set<string>)
    requires v.Struct?
  {
    forall i :: 0 <= i < |v.fields| ==> !ThunkWithin(v.fields[i].val, names)
  }

  lemma PassExhausts(v: Value, o: Value, ev: Closures)
    requires v.Struct? && o.Struct? && Evaluates(ev) && Forceless(ConcreteScope(v, o))
    ensures Exhausted(Pass(v, o, ev).0, ConcreteScope(v, o).Keys)
    ensures Exhausted(Pass(v, o, ev).1, ConcreteScope(v, o).Keys)
  {
    var scope := ConcreteScope(v, o);
    ScopeNames(v, o);
    forall i | 0 <= i < |v.fields| { SoftForceExhausts(v.fields[i].val, scope, {}, ev); }
    forall i | 0 <= i < |o.fields| { SoftForceExhausts(o.fields[i].val, scope, {}, ev); }
  }

  lemma NoThunkFieldExhausted(v: Value, names: set<string>)
    requires v.Struct? && !HasThunkField(v)
    ensures Exhausted(v, names)
  {
    forall i | 0 <= i < |v.fields| ensures !ThunkWithin(v.fields[i].val, names) {
      if ThunkWithin(v.fields[i].val, names) { ThunkWithinHasThunk(v.fields[i].val, names); }
    }
  }

  /** MAIN: when the passes stop, no remaining thunk has all its references concrete; and no name was lost. */
  lemma {:induction false} SettleIsSettled(v: Value, o: Value, ev: Closures)
    requires v.Struct? && o.Struct? && Evaluates(ev) && CleanPasses(v, o, ev)
    ensures var (v1, o1) := Settle(v, o, ev);
            var names := ConcreteScope(v1, o1).Keys;
            Exhausted(v1, names) && Exhausted(o1, names) && ConcreteScope(v, o).Keys <= names
    decreases |v.fields| + |o.fields| - |ConcreteScope(v, o)|
  {
    ScopeNames(v, o);
    PassGrows(v, o, ev);
    if !HasThunkField(v) && !HasThunkField(o) {
      NoThunkFieldExhausted(v, ConcreteScope(v, o).Keys);
      NoThunkFieldExhausted(o, ConcreteScope(v, o).Keys);
    } else {
      var (v1, o1) := Pass(v, o, ev);
      PassExhausts(v, o, ev);
      if |ConcreteScope(v1, o1)| != |ConcreteScope(v, o)| { SettleIsSettled(v1, o1, ev); }
    }
  }

  // ----- The names made concrete are the least closed set -----

  /** A disjunction holding a thunk is already reduced: at least two live branches, no two equal. */
  predicate Reduced(v: Value)
  {
    match v
    case List(p, t) => (forall i | 0 <= i < |p| :: Reduced(p[i])) && (t.Open? ==> Reduced(t.elem))
    case Disj(bs) =>
      HasThunk(v) ==>
        && |bs| >= 2
        && (forall i, j | 0 <= i < j < |bs| :: !SameConcrete(bs[i].v, bs[j].v))
        && (forall i | 0 <= i < |bs| :: Reduced(bs[i].v) && !bs[i].v.Bottom?)
    case _ => true
  }

  lemma {:induction false} DedupeOfDistinct(bs: seq<Branch>)
    requires forall i, j | 0 <= i < j < |bs| :: !SameConcrete(bs[i].v, bs[j].v)
    ensures Dedupe(bs) == bs
  {
    hide SameConcrete;
    if bs != [] {
      var n := |bs| - 1;
      DedupeOfDistinct(bs[..n]);
      assert bs == bs[..n] + [bs[n]];
    }
  }

  lemma {:induction false} LiveOfLive(bs: seq<Branch>)
    requires forall b <- bs :: !b.v.Bottom?
    ensures LiveOf(bs) == bs
  {
    if bs != [] {
      var n := |bs| - 1;
      LiveOfLive(bs[..n]);
      assert bs == bs[..n] + [bs[n]];
    }
  }

  /** A reduced value in which nothing can be resolved comes back as it was. */
  lemma {:induction false} IdleForce(v: Value, scope: Scope, ev: Closures)
    requires Reduced(v) && AllConcrete(scope) && !ThunkWithin(v, scope.Keys)
    ensures ForceValue(v, scope, true, ev) == v
    decreases v
  {
    match v
    case List(p, t) =>
      if HasThunk(v) {
        forall i | 0 <= i < |p| ensures ForceValue(p[i], scope, true, ev) == p[i] { IdleForce(p[i], scope, ev); }
        if t.Open? { IdleForce(t.elem, scope, ev); }
        assert ForceValue(v, scope, true, ev).prefix == p;
      }
    case Disj(bs) =>
      if HasThunk(v) {
        var forced := seq(|bs|, i requires 0 <= i < |bs| => Branch(ForceValue(bs[i].v, scope, true, ev), bs[i].mode));
        forall i | 0 <= i < |bs| ensures forced[i] == bs[i] { IdleForce(bs[i].v, scope, ev); }
        assert forced == bs;
        LiveOfLive(bs);
        DedupeOfDistinct(bs);
      }
    case _ =>
  }

  lemma RebuildReduced(bs: seq<Branch>)
    requires forall b <- bs :: Reduced(b.v)
    ensures Reduced(RebuildDisjunction(bs))
  {
    var live := Dedupe(LiveOf(bs));
    DedupeDistinct(LiveOf(bs));
    forall k | 0 <= k < |live| ensures Reduced(live[k].v) && !live[k].v.Bottom? {
      DedupeOrigin(LiveOf(bs), k);
      var j :| 0 <= j < |LiveOf(bs)| && live[k].v == LiveOf(bs)[j].v;
      assert LiveOf(bs)[j] in bs;
    }
  }

  lemma {:induction false} NoThunkReduced(v: Value)
    requires !HasThunk(v)
    ensures Reduced(v)
  {
    if v.List? {
      forall i | 0 <= i < |v.prefix| { NoThunkReduced(v.prefix[i]); }
      if v.tail.Open? { NoThunkReduced(v.tail.elem); }
    }
  }

  lemma {:induction false} ForceReduced(v: Value, scope: Scope, ev: Closures)
    requires Reduced(v) && Evaluates(ev) && Forceless(scope)
    ensures Reduced(ForceValue(v, scope, true, ev))
    decreases v
  {
    match v
    case Thunk(_, e) => NoThunkReduced(ev(e, scope));
    case List(p, t) =>
      forall i | 0 <= i < |p| ensures Reduced(ForceValue(p[i], scope, true, ev)) { ForceReduced(p[i], scope, ev); }
      if t.Open? { ForceReduced(t.elem, scope, ev); }
    case Disj(bs) =>
      if HasThunk(v) {
        var forced := seq(|bs|, i requires 0 <= i < |bs| => Branch(ForceValue(bs[i].v, scope, true, ev), bs[i].mode));
        forall i | 0 <= i < |bs| ensures Reduced(forced[i].v) { ForceReduced(bs[i].v, scope, ev); }
        RebuildReduced(forced);
      }
    case _ =>
  }

  ghost predicate ReducedFields(v: Value)
    requires v.Struct?
  {
    forall i :: 0 <= i < |v.fields| ==> Reduced(v.fields[i].val)
  }

  /** The names contain each field that is concrete, and each field with a thunk that reads only those names. */
  ghost predicate ClosedUnder(names: set<string>, v: Value)
    requires v.Struct?
  {
    forall i :: 0 <= i < |v.fields| ==>
      (IsConcrete(v.fields[i].val) || ThunkWithin(v.fields[i].val, names) ==> v.fields[i].name in names)
  }

  lemma ScopeWithin(names: set<string>, v: Value, o: Value)
    requires v.Struct? && o.Struct? && ClosedUnder(names, v) && ClosedUnder(names, o)
    ensures ConcreteScope(v, o).Keys <= names
  {
    ScopeNames(v, o);
  }

  lemma {:induction false} WithinGrows(v: Value, a: set<string>, b: set<string>)
    requires ThunkWithin(v, a) && a <= b
    ensures ThunkWithin(v, b)
  {
    match v
    case List(p, t) =>
      if t.Open? && ThunkWithin(t.elem, a) { WithinGrows(t.elem, a, b); }
      else {
        var i :| 0 <= i < |p| && ThunkWithin(p[i], a);
        WithinGrows(p[i], a, b);
      }
    case Disj(bs) =>
      var i :| 0 <= i < |bs| && ThunkWithin(bs[i].v, a);
      WithinGrows(bs[i].v, a, b);
    case _ =>
  }

  lemma ClosedAfterForce(names: set<string>, v: Value, scope: Scope, ev: Closures)
    requires v.Struct? && ClosedUnder(names, v) && ReducedFields(v) && Evaluates(ev)
    requires AllConcrete(scope) && Forceless(scope) && scope.Keys <= names
    ensures ClosedUnder(names, ForceFields(v, scope, true, ev)) && ReducedFields(ForceFields(v, scope, true, ev))
  {
    var r := ForceFields(v, scope, true, ev);
    forall i | 0 <= i < |v.fields|
      ensures IsConcrete(r.fields[i].val) || ThunkWithin(r.fields[i].val, names) ==> r.fields[i].name in names
      ensures Reduced(r.fields[i].val)
    {
      var f := v.fields[i];
      ForceReduced(f.val, scope, ev);
      SoftForceExhausts(f.val, scope, names, ev);
      if ThunkWithin(f.val, scope.Keys) { WithinGrows(f.val, scope.Keys, names); } else { IdleForce(f.val, scope, ev); }
    }
  }

  /** MAIN: the loop makes no name concrete beyond need: its names lie in every closed set of names. */
  lemma {:induction false} SettledNamesAreLeast(v: Value, o: Value, ev: Closures, names: set<string>)
    requires v.Struct? && o.Struct? && Evaluates(ev) && CleanPasses(v, o, ev) && ReducedFields(v) && ReducedFields(o)
    requires ClosedUnder(names, v) && ClosedUnder(names, o)
    ensures var (v1, o1) := Settle(v, o, ev); ConcreteScope(v1, o1).Keys <= names
    decreases |v.fields| + |o.fields| - |ConcreteScope(v, o)|
  {
    ScopeNames(v, o);
    PassGrows(v, o, ev);
    ScopeWithin(names, v, o);
    if HasThunkField(v) || HasThunkField(o) {
      var scope := ConcreteScope(v, o);
      var (v1, o1) := Pass(v, o, ev);
      ClosedAfterForce(names, v, scope, ev);
      ClosedAfterForce(names, o, scope, ev);
      ScopeWithin(names, v1, o1);
      if |ConcreteScope(v1, o1)| != |scope| { SettledNamesAreLeast(v1, o1, ev, names); }
    }
  }

}
