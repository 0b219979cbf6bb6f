/**
  The shared walk of the checker. A pooled table lists, kind by kind, the rules that react to a node of
  that kind; it is built by counting, prefix sums, filling and shifting back, in place. The walk driven
  by it gives every rule the diagnostics the naive walk of that rule alone would give.
 */
module KindTable {

  import opened Sequences
  import opened Wrappers

  type Diag = string

  datatype Node = Node(kind: nat, id: nat, children: seq<Node>)

  /** A rule with the kinds it enters on, or none if it wants every node both ways. */
  datatype Checker = Checker(scope: Option<seq<nat>>, check: (Node, bool) -> seq<Diag>)

  // ----- What one rule sees -----

  function Count(ks: seq<nat>, k: nat): nat
  {
    if ks == [] then 0 else Count(ks[..|ks| - 1], k) + (if ks[|ks| - 1] == k then 1 else 0)
  }

  function Times(ds: seq<Diag>, n: nat): seq<Diag>
  {
    if n == 0 then [] else Times(ds, n - 1) + ds
  }

  /** The diagnostics of one rule walking the whole tree by itself, in pre-order. */
  function OwnWalk(c: Checker, node: Node): seq<Diag>
    decreases node, 1
  {
    match c.scope
    case Some(ks) => Times(c.check(node, true), Count(ks, node.kind)) + OwnWalks(c, node, |node.children|)
    case None => c.check(node, true) + OwnWalks(c, node, |node.children|) + c.check(node, false)
  }

  function OwnWalks(c: Checker, node: Node, n: nat): seq<Diag>
    requires n <= |node.children|
    decreases node, 0, n
  {
    if n == 0 then [] else OwnWalks(c, node, n - 1) + OwnWalk(c, node.children[n - 1])
  }

  // ----- The visits of a walk -----

  datatype Visit = Visit(node: Node, entering: bool)

  /** Every node entered, its children in order, then left. */
  function Visits(node: Node): seq<Visit>
    decreases node, 1
  {
    [Visit(node, true)] + Below(node, |node.children|) + [Visit(node, false)]
  }

  function Below(node: Node, n: nat): seq<Visit>
    requires n <= |node.children|
    decreases node, 0, n
  {
    if n == 0 then [] else Below(node, n - 1) + Visits(node.children[n - 1])
  }

  /** What a rule says to one visit: one for all kinds to every visit, others on entering, once for each mention of the kind. */
  function Answer(c: Checker, v: Visit): seq<Diag>
  {
    if c.scope.None? then c.check(v.node, v.entering)
    else if v.entering then Times(c.check(v.node, true), Count(c.scope.value, v.node.kind))
    else []
  }

  function Answers(c: Checker, vs: seq<Visit>): seq<Diag>
  {
    if vs == [] then [] else Answer(c, vs[0]) + Answers(c, vs[1..])
  }

  lemma {:induction false} AnswersConcat(c: Checker, a: seq<Visit>, b: seq<Visit>)
    ensures Answers(c, a + b) == Answers(c, a) + Answers(c, b)
  {
    hide Answer;
    if a == [] {
      assert a + b == b;
    } else {
      AnswersConcat(c, a[1..], b);
      assert (a + b)[1..] == a[1..] + b;
    }
  }

  /** MAIN: a rule walking alone answers the visits of the tree in their order. */
  lemma {:induction false} OwnWalkAnswers(c: Checker, node: Node)
    ensures OwnWalk(c, node) == Answers(c, Visits(node))
    decreases node, 1
  {
    OwnWalksAnswer(c, node, |node.children|);
    var enter, leave, below := Visit(node, true), Visit(node, false), Below(node, |node.children|);
    AnswersConcat(c, [enter] + below, [leave]);
    AnswersConcat(c, [enter], below);
    assert Answers(c, [enter]) == Answer(c, enter) + [] && Answers(c, [leave]) == Answer(c, leave) + [];
    hide Times, Count;
  }

  lemma {:induction false} OwnWalksAnswer(c: Checker, node: Node, n: nat)
    requires n <= |node.children|
    ensures OwnWalks(c, node, n) == Answers(c, Below(node, n))
    decreases node, 0, n
  {
    hide Answer;
    if n > 0 {
      OwnWalksAnswer(c, node, n - 1);
      OwnWalkAnswers(c, node.children[n - 1]);
      AnswersConcat(c, Below(node, n - 1), Visits(node.children[n - 1]));
    }
  }

  // ----- Interest in a kind, in rule order -----

  /** An entry of the table to be: rule `slot` is interested in `kind`. */
  datatype Interest = Interest(slot: nat, kind: nat)

  function Interests(slot: nat, ks: seq<nat>): seq<Interest>
  {
    seq(|ks|, i requires 0 <= i < |ks| => Interest(slot, ks[i]))
  }

  /** The entries of all scoped rules, rule by rule. */
  function AllInterests(cs: seq<Checker>): seq<Interest>
  {
    if cs == [] then []
    else
      var n := |cs| - 1;
      AllInterests(cs[..n]) + (if cs[n].scope.Some? then Interests(n, cs[n].scope.value) else [])
  }

  /** The slots interested in kind k, in order. */
  function RowOf(es: seq<Interest>, k: nat): seq<nat>
  {
    if es == [] then []
    else
      var n := |es| - 1;
      RowOf(es[..n], k) + (if es[n].kind == k then [es[n].slot] else [])
  }

  function Generics(cs: seq<Checker>): seq<nat>
  {
    if cs == [] then []
    else
      var n := |cs| - 1;
      Generics(cs[..n]) + (if cs[n].scope.None? then [n] else [])
  }

  /** Where row k starts: the lengths of the rows before it. */
  function Start(es: seq<Interest>, k: nat): nat
  {
    if k == 0 then 0 else Start(es, k - 1) + |RowOf(es, k - 1)|
  }

  /** Where row k ends, that is where the next one starts. */
  function RowEnd(es: seq<Interest>, k: nat): nat
  {
    Start(es, k) + |RowOf(es, k)|
  }

  lemma RowStep(es: seq<Interest>, e: Interest, k: nat)
    ensures RowOf(es + [e], k) == RowOf(es, k) + (if e.kind == k then [e.slot] else [])
  {
    assert (es + [e])[..|es|] == es;
  }

  lemma {:induction false} RowConcat(a: seq<Interest>, b: seq<Interest>, k: nat)
    ensures RowOf(a + b, k) == RowOf(a, k) + RowOf(b, k)
  {
    if b == [] {
      assert a + b == a;
    } else {
      var n := |b| - 1;
      RowConcat(a, b[..n], k);
      RowStep(a + b[..n], b[n], k);
      assert a + b == a + b[..n] + [b[n]];
    }
  }

  lemma {:induction false} StartGrows(es: seq<Interest>, j: nat, k: nat)
    requires j <= k
    ensures Start(es, j) <= Start(es, k)
    decreases k - j
  {
    if j < k { StartGrows(es, j, k - 1); }
  }

  lemma {:induction false} StartStep(es: seq<Interest>, e: Interest, k: nat)
    ensures Start(es + [e], k) == Start(es, k) + (if e.kind < k then 1 else 0)
  {
    if k > 0 {
      StartStep(es, e, k - 1);
      RowStep(es, e, k - 1);
    }
  }

  /** Every entry is in some row, so the last row ends where the entries do. */
  lemma {:induction false} StartOfEnd(es: seq<Interest>, n: nat)
    requires forall e <- es :: e.kind < n
    ensures Start(es, n) == |es|
  {
    if es == [] {
      StartOfNothing(n);
    } else {
      var m := |es| - 1;
      StartOfEnd(es[..m], n);
      StartStep(es[..m], es[m], n);
      assert es == es[..m] + [es[m]];
    }
  }

  lemma {:induction false} StartOfNothing(n: nat)
    ensures Start([], n) == 0
  {
    if n > 0 { StartOfNothing(n - 1); }
  }

  lemma {:induction false} InterestsInRange(cs: seq<Checker>, n: nat)
    requires KindsInRange(cs, n)
    ensures forall e <- AllInterests(cs) :: e.kind < n && e.slot < |cs|
  {
    if cs != [] {
      var m := |cs| - 1;
      InterestsInRange(cs[..m], n);
      if cs[m].scope.Some? {
        forall e <- Interests(m, cs[m].scope.value) ensures e.kind < n && e.slot == m {
          var i :| 0 <= i < |cs[m].scope.value| && Interests(m, cs[m].scope.value)[i] == e;
          assert cs[m].scope.value[i] in cs[m].scope.value;
        }
      }
    }
  }

  // ----- The pooled table -----

  /** Row k of `scoped`, as far as it is filled, holds the entries done so far. */
  ghost predicate RowFilled(offs: seq<nat>, sc: seq<nat>, all: seq<Interest>, done: seq<Interest>, k: nat)
  {
    && k < |offs| && offs[k] == Start(all, k) + |RowOf(done, k)|
    && offs[k] <= RowEnd(all, k) <= |sc|
    && sc[Start(all, k)..offs[k]] == RowOf(done, k)
  }

  ghost predicate Filled(offs: seq<nat>, sc: seq<nat>, all: seq<Interest>, done: seq<Interest>, n: nat)
  {
    forall k: nat | k < n :: RowFilled(offs, sc, all, done, k)
  }

  /** Every declared kind is one of the n node kinds. */
  ghost predicate KindsInRange(cs: seq<Checker>, n: nat)
  {
    forall c <- cs :: c.scope.Some? ==> forall k <- c.scope.value :: k < n
  }

  /** Row k of the finished table. */
  ghost predicate RowBuilt(offs: seq<nat>, sc: seq<nat>, all: seq<Interest>, k: nat)
  {
    && k + 1 < |offs| && offs[k] <= offs[k + 1] <= |sc|
    && sc[offs[k]..offs[k + 1]] == RowOf(all, k)
  }

  /** Reused across files: the arrays may be longer than needed and hold anything. */
  class Table {
    var offsets: array<nat>
    var scoped: array<nat>
    var generic: seq<nat>

    constructor ()
      ensures fresh(offsets) && fresh(scoped) && offsets as object != scoped as object
    {
      offsets, generic := new nat[0], [];
      scoped := new nat[0];
    }

    /** The rows hold the interested slots in rule order, and `generic` the rules without a scope. */
    ghost predicate Built(cs: seq<Checker>, n: nat)
      reads this, offsets, scoped
    {
      && (forall k: nat | k < n :: RowBuilt(offsets[..], scoped[..], AllInterests(cs), k))
      && generic == Generics(cs)
    }

    /** MAIN: whatever the pooled arrays held, afterwards row k is exactly the slots interested in kind k. */
    method Build(cs: seq<Checker>, n: nat)
      requires KindsInRange(cs, n)
      requires offsets as object != scoped as object
      modifies this, offsets, scoped
      ensures Built(cs, n)
      ensures offsets as object != scoped as object
      ensures offsets == old(offsets) || fresh(offsets)
      ensures scoped == old(scoped) || fresh(scoped)
    {
      ghost var all := AllInterests(cs);
      InterestsInRange(cs, n);
      StartOfEnd(all, n);
      if offsets.Length < n + 1 {
        offsets := new nat[n + 1](_ => 0);
      } else {
        ClearTo(offsets, n);
      }
      var total := CountInterest(offsets, cs, n);
      SumCounts(offsets, all, n);
      if scoped.Length < total { scoped := new nat[total]; }
      FillRows(offsets, scoped, cs, n);
      ghost var cursors := offsets[..];
      forall k: nat | k < n ensures offsets[k] == RowEnd(all, k) { assert RowFilled(cursors, scoped[..], all, all, k); }
      ShiftBack(offsets, all, n);
      FilledIsBuilt(cursors, offsets[..], scoped[..], all, n);
      generic := CollectGeneric(cs);
    }
  }

  method ClearTo(a: array<nat>, n: nat)
    requires n < a.Length
    modifies a
    ensures forall k | 0 <= k <= n :: a[k] == 0
  {
    for i := 0 to n + 1
      invariant forall k | 0 <= k < i :: a[k] == 0
    {
      a[i] := 0;
    }
  }

  method CollectGeneric(cs: seq<Checker>) returns (g: seq<nat>)
    ensures g == Generics(cs)
  {
    g := [];
    for s := 0 to |cs|
      invariant g == Generics(cs[..s])
    {
      assert cs[..s + 1][..s] == cs[..s];
      if cs[s].scope.None? { g := g + [s]; }
    }
    assert cs[..|cs|] == cs;
  }

  lemma InterestsStep(cs: seq<Checker>, s: nat)
    requires s < |cs|
    ensures cs[s].scope.Some? ==> AllInterests(cs[..s + 1]) == AllInterests(cs[..s]) + Interests(s, cs[s].scope.value)
    ensures cs[s].scope.None? ==> AllInterests(cs[..s + 1]) == AllInterests(cs[..s])
  {
    assert cs[..s + 1][..s] == cs[..s];
  }

  lemma InterestsSnoc(slot: nat, ks: seq<nat>, i: nat)
    requires i < |ks|
    ensures Interests(slot, ks[..i + 1]) == Interests(slot, ks[..i]) + [Interest(slot, ks[i])]
  {
  }

  ghost predicate Counted(offs: seq<nat>, es: seq<Interest>, n: nat)
  {
    |offs| > n && offs[0] == 0 && forall k: nat | k < n :: offs[k + 1] == |RowOf(es, k)|
  }

  lemma CountStep(offs: seq<nat>, es: seq<Interest>, e: Interest, n: nat)
    requires Counted(offs, es, n) && e.kind < n
    ensures Counted(offs[e.kind + 1 := offs[e.kind + 1] + 1], es + [e], n)
  {
    hide RowOf;
    forall k: nat | k < n { RowStep(es, e, k); }
  }

  /** Pass 1: interest per kind, one place up. */
  method CountInterest(offsets: array<nat>, cs: seq<Checker>, n: nat) returns (total: nat)
    requires offsets.Length > n && forall k | 0 <= k <= n :: offsets[k] == 0
    requires KindsInRange(cs, n)
    modifies offsets
    ensures Counted(offsets[..], AllInterests(cs), n)
    ensures total == |AllInterests(cs)|
  {
    total := 0;
    for s := 0 to |cs|
      invariant Counted(offsets[..], AllInterests(cs[..s]), n)
      invariant total == |AllInterests(cs[..s])|
    {
      hide Counted;
      InterestsStep(cs, s);
      if cs[s].scope.Some? {
        assert cs[s] in cs;
        ghost var before := AllInterests(cs[..s]);
        var more := CountOne(offsets, before, s, cs[s].scope.value, n);
        total := total + more;
      }
    }
    assert cs[..|cs|] == cs;
  }

  method CountOne(offsets: array<nat>, ghost before: seq<Interest>, slot: nat, ks: seq<nat>, n: nat) returns (more: nat)
    requires Counted(offsets[..], before, n) && forall k <- ks :: k < n
    modifies offsets
    ensures Counted(offsets[..], before + Interests(slot, ks), n) && more == |ks|
  {
    more := 0;
    assert before + Interests(slot, ks[..0]) == before;
    for i := 0 to |ks|
      invariant Counted(offsets[..], before + Interests(slot, ks[..i]), n)
      invariant more == i
    {
      assert ks[i] in ks;
      ghost var done := before + Interests(slot, ks[..i]);
      InterestsSnoc(slot, ks, i);
      assert before + Interests(slot, ks[..i + 1]) == done + [Interest(slot, ks[i])];
      CountStep(offsets[..], done, Interest(slot, ks[i]), n);
      ghost var was := offsets[..];
      offsets[ks[i] + 1] := offsets[ks[i] + 1] + 1;
      assert offsets[..] == was[ks[i] + 1 := was[ks[i] + 1] + 1];
      more := more + 1;
    }
    assert ks[..|ks|] == ks;
  }

  ghost predicate StartsAt(offs: seq<nat>, all: seq<Interest>, n: nat)
  {
    |offs| > n && forall k: nat | k <= n :: offs[k] == Start(all, k)
  }

  /** The counts become row starts. */
  method SumCounts(offsets: array<nat>, ghost all: seq<Interest>, n: nat)
    requires Counted(offsets[..], all, n)
    modifies offsets
    ensures StartsAt(offsets[..], all, n)
  {
    hide RowOf;
    for i := 0 to n
      invariant StartsAt(offsets[..], all, i)
      invariant offsets[..][i + 1..] == old(offsets[..])[i + 1..]
    {
      assert offsets[i + 1] == old(offsets[..])[i + 1];
      ghost var was := offsets[..];
      offsets[i + 1] := offsets[i + 1] + offsets[i];
      assert Start(all, i + 1) == Start(all, i) + |RowOf(all, i)|;
    }
  }

  lemma RowFits(all: seq<Interest>, done: seq<Interest>, e: Interest, rest: seq<Interest>)
    requires all == done + [e] + rest
    ensures Start(all, e.kind) + |RowOf(done, e.kind)| < RowEnd(all, e.kind)
  {
    RowConcat(done + [e], rest, e.kind);
    RowStep(done, e, e.kind);
  }

  /** One write leaves every row filled: its own grows by the entry, the others lie elsewhere. */
  lemma FillStep(offs: seq<nat>, sc: seq<nat>, all: seq<Interest>, done: seq<Interest>, e: Interest,
                 rest: seq<Interest>, n: nat, k: nat)
    requires Filled(offs, sc, all, done, n) && e.kind < n && k < n && all == done + [e] + rest
    requires n <= |offs| && offs[e.kind] < |sc|
    ensures RowFilled(offs[e.kind := offs[e.kind] + 1], sc[offs[e.kind] := e.slot], all, done + [e], k)
  {
    hide RowOf, Start;
    assert RowFilled(offs, sc, all, done, k) && RowFilled(offs, sc, all, done, e.kind);
    RowFits(all, done, e, rest);
    RowStep(done, e, k);
    RowEndIsNextStart(all, k);
    RowEndIsNextStart(all, e.kind);
    if k < e.kind {
      StartGrows(all, k + 1, e.kind);
    } else if k > e.kind {
      StartGrows(all, e.kind + 1, k);
    }
  }

  lemma RowEndIsNextStart(all: seq<Interest>, k: nat)
    ensures RowEnd(all, k) == Start(all, k + 1)
  {
  }

  /** Writes one entry at its row's cursor. */
  method FillOne(offsets: array<nat>, scoped: array<nat>, ghost all: seq<Interest>, ghost done: seq<Interest>,
                 e: Interest, ghost rest: seq<Interest>, n: nat)
    requires offsets as object != scoped as object
    requires Filled(offsets[..], scoped[..], all, done, n) && e.kind < n && all == done + [e] + rest
    modifies offsets, scoped
    ensures Filled(offsets[..], scoped[..], all, done + [e], n)
  {
    hide RowOf, Start;
    RowFits(all, done, e, rest);
    assert RowFilled(offsets[..], scoped[..], all, done, e.kind) && RowFilled(offsets[..], scoped[..], all, done, n - 1);
    ghost var offs, sc := offsets[..], scoped[..];
    var at := offsets[e.kind];
    scoped[at] := e.slot;
    offsets[e.kind] := at + 1;
    assert scoped[..] == sc[offs[e.kind] := e.slot];
    assert offsets[..] == offs[e.kind := offs[e.kind] + 1];
    forall k: nat | k < n ensures RowFilled(offsets[..], scoped[..], all, done + [e], k) {
      FillStep(offs, sc, all, done, e, rest, n, k);
    }
  }

  lemma NothingFilled(offs: seq<nat>, sc: seq<nat>, all: seq<Interest>, n: nat)
    requires StartsAt(offs, all, n) && Start(all, n) <= |sc|
    ensures Filled(offs, sc, all, [], n)
  {
    forall k: nat | k < n ensures RowFilled(offs, sc, all, [], k) {
      RowEndIsNextStart(all, k);
      StartGrows(all, k + 1, n);
    }
  }

  /** Pass 2: each entry is written at its row's cursor. */
  method FillRows(offsets: array<nat>, scoped: array<nat>, cs: seq<Checker>, n: nat)
    requires offsets as object != scoped as object && KindsInRange(cs, n)
    requires StartsAt(offsets[..], AllInterests(cs), n)
    requires Start(AllInterests(cs), n) <= scoped.Length
    modifies offsets, scoped
    ensures Filled(offsets[..], scoped[..], AllInterests(cs), AllInterests(cs), n)
    ensures offsets.Length > n
  {
    ghost var all := AllInterests(cs);
    NothingFilled(offsets[..], scoped[..], all, n);
    assert AllInterests(cs[..0]) == [];
    for s := 0 to |cs|
      invariant Filled(offsets[..], scoped[..], all, AllInterests(cs[..s]), n)
    {
      hide Filled, Start, RowOf;
      InterestsStep(cs, s);
      if cs[s].scope.Some? {
        assert cs[s] in cs;
        FillSlot(offsets, scoped, cs, s, n);
      }
    }
    assert cs[..|cs|] == cs;
  }

  method FillSlot(offsets: array<nat>, scoped: array<nat>, cs: seq<Checker>, s: nat, n: nat)
    requires offsets as object != scoped as object
    requires s < |cs| && cs[s].scope.Some? && forall k <- cs[s].scope.value :: k < n
    requires Filled(offsets[..], scoped[..], AllInterests(cs), AllInterests(cs[..s]), n)
    modifies offsets, scoped
    ensures Filled(offsets[..], scoped[..], AllInterests(cs), AllInterests(cs[..s]) + Interests(s, cs[s].scope.value), n)
  {
    hide Filled, Start, RowOf, AllInterests;
    var ks := cs[s].scope.value;
    ghost var before := AllInterests(cs[..s]);
    assert before + Interests(s, ks[..0]) == before;
    for i := 0 to |ks|
      invariant Filled(offsets[..], scoped[..], AllInterests(cs), before + Interests(s, ks[..i]), n)
    {
      assert ks[i] in ks;
      ghost var done := before + Interests(s, ks[..i]);
      InterestsSnoc(s, ks, i);
      assert before + Interests(s, ks[..i + 1]) == done + [Interest(s, ks[i])];
      ghost var rest := InterestsRest(cs, s, i);
      FillOne(offsets, scoped, AllInterests(cs), done, Interest(s, ks[i]), rest, n);
    }
    assert ks[..|ks|] == ks;
  }

  /** The entries still to come after entry i of rule s. */
  lemma InterestsRest(cs: seq<Checker>, s: nat, i: nat) returns (rest: seq<Interest>)
    requires s < |cs| && cs[s].scope.Some? && i < |cs[s].scope.value|
    ensures AllInterests(cs) ==
            AllInterests(cs[..s]) + Interests(s, cs[s].scope.value[..i]) + [Interest(s, cs[s].scope.value[i])] + rest
  {
    var ks := cs[s].scope.value;
    InterestsStep(cs, s);
    var later := InterestsPrefix(cs, s + 1);
    rest := Interests(s, ks)[i + 1..] + later;
    assert Interests(s, ks) == Interests(s, ks[..i]) + [Interest(s, ks[i])] + Interests(s, ks)[i + 1..];
  }

  lemma {:induction false} InterestsPrefix(cs: seq<Checker>, s: nat) returns (later: seq<Interest>)
    requires s <= |cs|
    ensures AllInterests(cs) == AllInterests(cs[..s]) + later
    decreases |cs| - s
  {
    if s == |cs| {
      assert cs[..s] == cs;
      later := [];
    } else {
      InterestsStep(cs, s);
      later := InterestsPrefix(cs, s + 1);
      if cs[s].scope.Some? { later := Interests(s, cs[s].scope.value) + later; }
    }
  }

  /** The cursors, each at the next row's start, are shifted back. */
  method ShiftBack(offsets: array<nat>, ghost all: seq<Interest>, n: nat)
    requires offsets.Length > n
    requires forall k: nat | k < n :: offsets[k] == RowEnd(all, k)
    modifies offsets
    ensures StartsAt(offsets[..], all, n)
  {
    hide RowOf;
    var i := n;
    while i > 0
      invariant 0 <= i <= n
      invariant forall k: nat | k < i :: offsets[k] == RowEnd(all, k)
      invariant forall k: nat | i < k <= n :: offsets[k] == Start(all, k)
    {
      RowEndIsNextStart(all, i - 1);
      offsets[i] := offsets[i - 1];
      i := i - 1;
    }
    offsets[0] := 0;
  }

  lemma FilledIsBuilt(cursors: seq<nat>, offs: seq<nat>, sc: seq<nat>, all: seq<Interest>, n: nat)
    requires Filled(cursors, sc, all, all, n) && StartsAt(offs, all, n)
    ensures forall k: nat | k < n :: RowBuilt(offs, sc, all, k)
  {
    hide RowOf;
    forall k: nat | k < n ensures RowBuilt(offs, sc, all, k) {
      assert RowFilled(cursors, sc, all, all, k);
      RowEndIsNextStart(all, k);
    }
  }

  // ----- The walk -----

  /** How often a slot occurs in a list. */
  function Occurs(slots: seq<nat>, s: nat): nat
  {
    if slots == [] then 0 else Occurs(slots[..|slots| - 1], s) + (if slots[|slots| - 1] == s then 1 else 0)
  }

  lemma {:induction false} OccursConcat(a: seq<nat>, b: seq<nat>, s: nat)
    ensures Occurs(a + b, s) == Occurs(a, s) + Occurs(b, s)
  {
    if b == [] {
      assert a + b == a;
    } else {
      OccursConcat(a, b[..|b| - 1], s);
      assert (a + b)[..|a + b| - 1] == a + b[..|b| - 1];
    }
  }

  lemma {:induction false} RowOfInterests(slot: nat, ks: seq<nat>, k: nat, s: nat)
    ensures Occurs(RowOf(Interests(slot, ks), k), s) == if slot == s then Count(ks, k) else 0
  {
    if ks == [] {
      assert Interests(slot, ks) == [];
    } else {
      var n := |ks| - 1;
      RowOfInterests(slot, ks[..n], k, s);
      assert Interests(slot, ks) == Interests(slot, ks[..n]) + [Interest(slot, ks[n])];
      RowStep(Interests(slot, ks[..n]), Interest(slot, ks[n]), k);
      OccursConcat(RowOf(Interests(slot, ks[..n]), k), if ks[n] == k then [slot] else [], s);
      assert Occurs([slot], s) == (if slot == s then 1 else 0);
    }
  }

  /** A scoped rule is in row k as often as it lists k, a generic rule never. */
  lemma {:induction false} RowMultiplicity(cs: seq<Checker>, k: nat, s: nat)
    ensures Occurs(RowOf(AllInterests(cs), k), s) ==
            if s < |cs| && cs[s].scope.Some? then Count(cs[s].scope.value, k) else 0
  {
    if cs != [] {
      var n := |cs| - 1;
      RowMultiplicity(cs[..n], k, s);
      var last := if cs[n].scope.Some? then Interests(n, cs[n].scope.value) else [];
      RowConcat(AllInterests(cs[..n]), last, k);
      OccursConcat(RowOf(AllInterests(cs[..n]), k), RowOf(last, k), s);
      if cs[n].scope.Some? { RowOfInterests(n, cs[n].scope.value, k, s); }
    }
  }

  lemma OccursOne(n: nat, s: nat)
    ensures Occurs([n], s) == if s == n then 1 else 0
  {
    assert [n][..0] == [];
  }

  lemma {:induction false} GenericOnce(cs: seq<Checker>, s: nat)
    ensures Occurs(Generics(cs), s) == if s < |cs| && cs[s].scope.None? then 1 else 0
    ensures forall g <- Generics(cs) :: g < |cs|
  {
    if cs != [] {
      var n := |cs| - 1;
      GenericOnce(cs[..n], s);
      if cs[n].scope.None? {
        OccursConcat(Generics(cs[..n]), [n], s);
        OccursOne(n, s);
      } else {
        EmptyRight(Generics(cs[..n]));
      }
    }
  }

  /** Calls each listed rule on the node and appends to that rule's bucket. */
  method CallAll(slots: seq<nat>, cs: seq<Checker>, node: Node, entering: bool, diags: array<seq<Diag>>)
    requires diags.Length == |cs| && forall s <- slots :: s < |cs|
    modifies diags
    ensures forall s | 0 <= s < |cs| :: diags[s] == old(diags[s]) + Times(cs[s].check(node, entering), Occurs(slots, s))
  {
    for i := 0 to |slots|
      invariant forall s | 0 <= s < |cs| :: diags[s] == old(diags[s]) + Times(cs[s].check(node, entering), Occurs(slots[..i], s))
    {
      var s := slots[i];
      assert s in slots && slots[..i + 1][..i] == slots[..i];
      var ds := cs[s].check(node, entering);
      if |ds| > 0 { diags[s] := diags[s] + ds; }
    }
    assert slots[..|slots|] == slots;
  }

  predicate KindsBelow(node: Node, n: nat)
  {
    node.kind < n && forall i | 0 <= i < |node.children| :: KindsBelow(node.children[i], n)
  }

  /** A table ready for a walk that writes the buckets. */
  ghost predicate Ready(t: Table, cs: seq<Checker>, n: nat, diags: array<seq<Diag>>)
    reads t, t.offsets, t.scoped
  {
    && t.Built(cs, n) && KindsInRange(cs, n) && diags.Length == |cs|
    && diags as object != t.offsets as object && diags as object != t.scoped as object
  }

  /** A rule's diagnostics on entering a node, when the table lists it for the node's kind. */
  function ScopedPart(c: Checker, node: Node): seq<Diag>
  {
    if c.scope.Some? then Times(c.check(node, true), Count(c.scope.value, node.kind)) else []
  }

  function GenericPart(c: Checker, node: Node, entering: bool): seq<Diag>
  {
    if c.scope.None? then c.check(node, entering) else []
  }

  lemma OwnWalkParts(c: Checker, node: Node)
    ensures OwnWalk(c, node) ==
            ScopedPart(c, node) + GenericPart(c, node, true) + OwnWalks(c, node, |node.children|) + GenericPart(c, node, false)
  {
  }

  /** The entering visit of the scoped rules registered for the node's kind. */
  method DispatchScoped(t: Table, cs: seq<Checker>, n: nat, node: Node, diags: array<seq<Diag>>)
    requires Ready(t, cs, n, diags) && node.kind < n
    modifies diags
    ensures forall s | 0 <= s < |cs| :: diags[s] == old(diags[s]) + ScopedPart(cs[s], node)
  {
    hide RowOf, AllInterests, Generics, Count, Times, Occurs;
    assert RowBuilt(t.offsets[..], t.scoped[..], AllInterests(cs), node.kind);
    var row := t.scoped[t.offsets[node.kind]..t.offsets[node.kind + 1]];
    assert row == RowOf(AllInterests(cs), node.kind);
    InterestsInRange(cs, n);
    RowInRange(AllInterests(cs), node.kind, |cs|);
    CallAll(row, cs, node, true, diags);
    forall s: nat | s < |cs| ensures Times(cs[s].check(node, true), Occurs(row, s)) == ScopedPart(cs[s], node) {
      RowMultiplicity(cs, node.kind, s);
      OnceIs(cs[s].check(node, true));
    }
  }

  lemma {:induction false} RowInRange(es: seq<Interest>, k: nat, m: nat)
    requires forall e <- es :: e.slot < m
    ensures forall s <- RowOf(es, k) :: s < m
  {
    if es != [] { RowInRange(es[..|es| - 1], k, m); }
  }

  /** One visit, entering or leaving, of every rule without a scope. */
  method DispatchGeneric(t: Table, cs: seq<Checker>, n: nat, node: Node, entering: bool, diags: array<seq<Diag>>)
    requires Ready(t, cs, n, diags)
    modifies diags
    ensures forall s | 0 <= s < |cs| :: diags[s] == old(diags[s]) + GenericPart(cs[s], node, entering)
  {
    hide RowBuilt, Generics, Times, Occurs;
    GenericOnce(cs, 0);
    CallAll(t.generic, cs, node, entering, diags);
    forall s: nat | s < |cs| ensures Times(cs[s].check(node, entering), Occurs(t.generic, s)) == GenericPart(cs[s], node, entering) {
      GenericOnce(cs, s);
      OnceIs(cs[s].check(node, entering));
    }
  }

  lemma OnceIs(ds: seq<Diag>)
    ensures Times(ds, 1) == ds && Times(ds, 0) == []
  {
    assert Times(ds, 0) + ds == ds;
  }

  lemma NoGenericLeft(cs: seq<Checker>, s: nat)
    requires Generics(cs) == [] && s < |cs|
    ensures cs[s].scope.Some?
  {
    GenericOnce(cs, s);
  }

  /** MAIN: without generic rules, entering visits alone give every rule its own walk. */
  method DispatchKindScoped(t: Table, cs: seq<Checker>, n: nat, node: Node, diags: array<seq<Diag>>)
    requires Ready(t, cs, n, diags) && KindsBelow(node, n) && t.generic == []
    modifies diags
    ensures forall s | 0 <= s < |cs| :: diags[s] == old(diags[s]) + OwnWalk(cs[s], node)
    decreases node
  {
    hide RowBuilt, Generics, OwnWalk, ScopedPart, AllInterests;
    ghost var start := diags[..];
    DispatchScoped(t, cs, n, node, diags);
    ghost var entered := diags[..];
    for i := 0 to |node.children|
      invariant forall s | 0 <= s < |cs| :: diags[s] == entered[s] + OwnWalks(cs[s], node, i)
    {
      DispatchKindScoped(t, cs, n, node.children[i], diags);
    }
    forall s: nat | s < |cs| ensures diags[s] == start[s] + OwnWalk(cs[s], node) {
      assert t.Built(cs, n);
      NoGenericLeft(cs, s);
      OwnWalkParts(cs[s], node);
    }
  }

  /** MAIN: with generic rules, which also get every node entering and leaving. */
  method DispatchWithGeneric(t: Table, cs: seq<Checker>, n: nat, node: Node, diags: array<seq<Diag>>)
    requires Ready(t, cs, n, diags) && KindsBelow(node, n)
    modifies diags
    ensures forall s | 0 <= s < |cs| :: diags[s] == old(diags[s]) + OwnWalk(cs[s], node)
    decreases node
  {
    hide RowBuilt, Generics, OwnWalk, ScopedPart, GenericPart, AllInterests;
    ghost var start := diags[..];
    DispatchScoped(t, cs, n, node, diags);
    DispatchGeneric(t, cs, n, node, true, diags);
    ghost var entered := diags[..];
    for i := 0 to |node.children|
      invariant forall s | 0 <= s < |cs| :: diags[s] == entered[s] + OwnWalks(cs[s], node, i)
    {
      DispatchWithGeneric(t, cs, n, node.children[i], diags);
    }
    DispatchGeneric(t, cs, n, node, false, diags);
    forall s: nat | s < |cs| ensures diags[s] == start[s] + OwnWalk(cs[s], node) {
      OwnWalkParts(cs[s], node);
    }
  }

  /** The bucket of every rule concatenated in rule order. */
  function Grouped(cs: seq<Checker>, root: Node, n: nat): seq<Diag>
    requires n <= |cs|
  {
    if n == 0 then [] else Grouped(cs, root, n - 1) + OwnWalk(cs[n - 1], root)
  }

  /** MAIN: one shared walk over a pooled table adds to every rule's bucket what that rule's own walk reports. */
  method WalkInto(t: Table, cs: seq<Checker>, n: nat, root: Node, diags: array<seq<Diag>>)
    requires KindsBelow(root, n) && KindsInRange(cs, n) && diags.Length == |cs|
    requires t.offsets as object != t.scoped as object
    requires diags as object != t.offsets as object && diags as object != t.scoped as object
    modifies t, t.offsets, t.scoped, diags
    ensures forall s | 0 <= s < |cs| :: diags[s] == old(diags[s]) + OwnWalk(cs[s], root)
    ensures t.offsets as object != t.scoped as object
  {
    hide RowBuilt, Generics, OwnWalk, AllInterests, KindsBelow;
    t.Build(cs, n);
    if |t.generic| == 0 {
      DispatchKindScoped(t, cs, n, root, diags);
    } else {
      DispatchWithGeneric(t, cs, n, root, diags);
    }
  }

  /** MAIN: one shared walk over a pooled table reports, rule by rule, what each rule's own walk reports. */
  method RunNodeCheckers(t: Table, cs: seq<Checker>, n: nat, root: Node) returns (out: seq<Diag>)
    requires KindsBelow(root, n) && KindsInRange(cs, n) && t.offsets as object != t.scoped as object
    modifies t, t.offsets, t.scoped
    ensures out == Grouped(cs, root, |cs|)
    ensures t.offsets as object != t.scoped as object
  {
    hide RowBuilt, Generics, OwnWalk, AllInterests, KindsBelow;
    var diags := new seq<Diag>[|cs|](_ => []);
    WalkInto(t, cs, n, root, diags);
    out := [];
    for s := 0 to |cs|
      invariant out == Grouped(cs, root, s)
    {
      assert diags[s] == [] + OwnWalk(cs[s], root);
      out := out + diags[s];
    }
  }

}
