/**
  The rules that do not walk the tree: each fills its own slot, one after the other or in the worker
  pool, and the slots are then concatenated in rule order.
 */
module CheckSlots {

  import opened Wrappers
  import opened WorkerPool
  import KindTable

  type Diag = KindTable.Diag

  /** The check of a slot, if its rule has one of its own; a file goes in, diagnostics come out. */
  type Check = string -> seq<Diag>

  function Concatenated(slots: seq<seq<Diag>>): seq<Diag>
  {
    if slots == [] then [] else Concatenated(slots[..|slots| - 1]) + slots[|slots| - 1]
  }

  /** The loop taken when the cap is one. */
  method RunSerially(checks: seq<Option<Check>>, file: string, diags: array<seq<Diag>>)
    requires diags.Length == |checks|
    modifies diags
    ensures forall i | 0 <= i < |checks| :: diags[i] == if checks[i].Some? then checks[i].value(file) else old(diags[i])
  {
    for i := 0 to |checks|
      invariant forall j | 0 <= j < i :: diags[j] == if checks[j].Some? then checks[j].value(file) else old(diags[j])
      invariant forall j | i <= j < |checks| :: diags[j] == old(diags[j])
    {
      if checks[i].None? { continue; }
      diags[i] := checks[i].value(file);
    }
  }

  method Concatenate(slots: seq<seq<Diag>>) returns (out: seq<Diag>)
    ensures out == Concatenated(slots)
  {
    out := [];
    for i := 0 to |slots|
      invariant out == Concatenated(slots[..i])
    {
      assert slots[..i + 1][..i] == slots[..i];
      out := out + slots[i];
    }
    assert slots[..|slots|] == slots;
  }

  function CheckJob(check: Option<Check>, file: string): Option<Job<seq<Diag>>>
  {
    match check
    case None => None
    case Some(c) => Some(Job({}, {}, (disk: Disk) => Done(map[], c(file))))
  }

  function CheckJobs(checks: seq<Option<Check>>, file: string): seq<Option<Job<seq<Diag>>>>
  {
    seq(|checks|, i requires 0 <= i < |checks| => CheckJob(checks[i], file))
  }

  /** What is in a slot after the join: the worker's result, or what was there when it has no check. */
  function AfterJoin(slot: Option<seq<Diag>>, before: seq<Diag>): seq<Diag>
  {
    if slot.Some? then slot.value else before
  }

  /** MAIN: every schedule of the slot workers fills the slots as the serial loop does. */
  lemma EveryScheduleFillsSlots(checks: seq<Option<Check>>, file: string, before: seq<seq<Diag>>, cap: nat, run: seq<State<seq<Diag>>>)
    requires |before| == |checks|
    requires Behaviour(CheckJobs(checks, file), cap, map[], run)
    requires Finished(CheckJobs(checks, file), run[|run| - 1])
    ensures forall i: nat | i < |checks| ::
              AfterJoin(run[|run| - 1].slots[i], before[i]) == if checks[i].Some? then checks[i].value(file) else before[i]
  {
    var jobs := CheckJobs(checks, file);
    assert Independent(jobs) by {
      forall i | 0 <= i < |jobs| && jobs[i].Some? ensures Local(jobs[i].value) {}
    }
    EveryScheduleIsSerial(jobs, cap, map[], run);
    forall i: nat | i < |checks|
      ensures AfterJoin(run[|run| - 1].slots[i], before[i]) == if checks[i].Some? then checks[i].value(file) else before[i]
    {
      assert run[|run| - 1].slots[i] == SerialSlot(jobs, map[], i);
    }
  }

  // ----- The whole check of a file -----

  /** A configured rule: it checks the file by itself, or takes part in the shared walk. */
  datatype Rule = FileRule(check: Check) | NodeRule(checker: KindTable.Checker)

  /** What the rule reports when it runs alone. */
  function Reports(r: Rule, file: string, root: KindTable.Node): seq<Diag>
  {
    match r
    case FileRule(check) => check(file)
    case NodeRule(checker) => KindTable.OwnWalk(checker, root)
  }

  /** The reports of all rules, each run alone, in rule order. */
  function InRuleOrder(rules: seq<Rule>, file: string, root: KindTable.Node): seq<Diag>
  {
    if rules == [] then [] else Reports(rules[0], file, root) + InRuleOrder(rules[1..], file, root)
  }

  function CheckOf(r: Rule): Option<Check>
  {
    if r.FileRule? then Some(r.check) else None
  }

  function Checks(rules: seq<Rule>): seq<Option<Check>>
  {
    seq(|rules|, i requires 0 <= i < |rules| => CheckOf(rules[i]))
  }

  /** The slot's part in the shared walk; a rule with its own check is registered for no kind. */
  function WalkerOf(r: Rule): KindTable.Checker
  {
    if r.NodeRule? then r.checker else KindTable.Checker(Some([]), (node, entering) => [])
  }

  function Walkers(rules: seq<Rule>): seq<KindTable.Checker>
  {
    seq(|rules|, i requires 0 <= i < |rules| => WalkerOf(rules[i]))
  }

  lemma {:induction false} SilentWalk(c: KindTable.Checker, node: KindTable.Node)
    requires c.scope == Some([])
    ensures KindTable.OwnWalk(c, node) == []
    decreases node, 1
  {
    SilentWalks(c, node, |node.children|);
  }

  lemma {:induction false} SilentWalks(c: KindTable.Checker, node: KindTable.Node, n: nat)
    requires c.scope == Some([]) && n <= |node.children|
    ensures KindTable.OwnWalks(c, node, n) == []
    decreases node, 0, n
  {
    if n > 0 {
      SilentWalks(c, node, n - 1);
      SilentWalk(c, node.children[n - 1]);
    }
  }

  /** Slots holding each rule's reports concatenate to the reports in rule order. */
  lemma {:induction false} ConcatenatedInOrder(rules: seq<Rule>, file: string, root: KindTable.Node, slots: seq<seq<Diag>>)
    requires |slots| == |rules| && forall i | 0 <= i < |rules| :: slots[i] == Reports(rules[i], file, root)
    ensures Concatenated(slots) == InRuleOrder(rules, file, root)
  {
    hide Reports;
    if rules != [] {
      ConcatenatedInOrder(rules[1..], file, root, slots[1..]);
      ConcatenatedHead(slots);
    }
  }

  lemma {:induction false} ConcatenatedHead(slots: seq<seq<Diag>>)
    requires slots != []
    ensures Concatenated(slots) == slots[0] + Concatenated(slots[1..])
  {
    var n := |slots| - 1;
    if n > 0 {
      ConcatenatedHead(slots[..n]);
      assert slots[..n][1..] == slots[1..][..n - 1];
      assert slots[0] + Concatenated(slots[1..][..n - 1]) + slots[n] == slots[0] + (Concatenated(slots[1..][..n - 1]) + slots[n]);
    } else {
      assert slots[..0] == [] && slots[1..] == [];
      assert [] + slots[0] == slots[0] && slots[0] + [] == slots[0];
    }
  }

  /** What the pool has left in the slots when the join returns, if it was used. */
  ghost predicate Joined(rules: seq<Rule>, file: string, cap: nat, run: seq<State<seq<Diag>>>, joined: seq<Option<seq<Diag>>>)
  {
    cap > 1 ==>
      && Behaviour(CheckJobs(Checks(rules), file), cap, map[], run)
      && Finished(CheckJobs(Checks(rules), file), run[|run| - 1])
      && joined == run[|run| - 1].slots
  }

  /** The file rules, one after the other or as the pool left them. */
  method FillSlots(rules: seq<Rule>, file: string, cap: nat, ghost run: seq<State<seq<Diag>>>,
                   joined: seq<Option<seq<Diag>>>, diags: array<seq<Diag>>)
    requires Joined(rules, file, cap, run, joined)
    requires diags.Length == |rules| && forall i | 0 <= i < |rules| :: diags[i] == []
    modifies diags
    ensures forall i | 0 <= i < |rules| :: diags[i] == if rules[i].FileRule? then rules[i].check(file) else []
  {
    var checks := Checks(rules);
    if cap <= 1 {
      RunSerially(checks, file, diags);
      assert forall i | 0 <= i < |rules| :: checks[i] == CheckOf(rules[i]);
    } else {
      hide CheckJobs, Behaviour, Finished;
      ghost var before := seq(|rules|, i => []);
      EveryScheduleFillsSlots(checks, file, before, cap, run);
      SlotPerJob(rules, file, cap, run);
      for i := 0 to |rules|
        invariant forall j | 0 <= j < i :: diags[j] == if rules[j].FileRule? then rules[j].check(file) else []
        invariant forall j | i <= j < |rules| :: diags[j] == []
      {
        assert checks[i] == CheckOf(rules[i]);
        assert AfterJoin(joined[i], before[i]) == if checks[i].Some? then checks[i].value(file) else before[i];
        if joined[i].Some? { diags[i] := joined[i].value; }
      }
    }
  }

  lemma SlotPerJob(rules: seq<Rule>, file: string, cap: nat, run: seq<State<seq<Diag>>>)
    requires Behaviour(CheckJobs(Checks(rules), file), cap, map[], run)
    ensures run != [] && |run[|run| - 1].slots| == |rules|
  {
  }

  /**
    MAIN: whatever the cap and the schedule, and with one walk shared by all node rules, the file's
    diagnostics are those of every rule run alone, in rule order.
   */
  method CheckConfiguredRules(t: KindTable.Table, rules: seq<Rule>, file: string, root: KindTable.Node, n: nat, cap: nat,
                              ghost run: seq<State<seq<Diag>>>, joined: seq<Option<seq<Diag>>>)
    returns (out: seq<Diag>)
    requires KindTable.KindsBelow(root, n) && KindTable.KindsInRange(Walkers(rules), n)
    requires t.offsets as object != t.scoped as object
    requires Joined(rules, file, cap, run, joined)
    modifies t, t.offsets, t.scoped
    ensures out == InRuleOrder(rules, file, root)
  {
    hide KindTable.OwnWalk, Joined, InRuleOrder;
    var diags := new seq<Diag>[|rules|](_ => []);
    FillSlots(rules, file, cap, run, joined, diags);
    ghost var filled := diags[..];
    var walkers := Walkers(rules);
    if exists i | 0 <= i < |rules| :: rules[i].NodeRule? {
      KindTable.WalkInto(t, walkers, n, root, diags);
    }
    forall i | 0 <= i < |rules| ensures diags[i] == Reports(rules[i], file, root) {
      assert walkers[i] == WalkerOf(rules[i]);
      if rules[i].FileRule? {
        SilentWalk(walkers[i], root);
        assert filled[i] + [] == filled[i];
      } else {
        assert [] + KindTable.OwnWalk(walkers[i], root) == KindTable.OwnWalk(walkers[i], root);
      }
    }
    ConcatenatedInOrder(rules, file, root, diags[..]);
    out := Concatenate(diags[..]);
  }

}
