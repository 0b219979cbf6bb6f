/**
  The build pass: a cached staleness verdict per target, the recipe when stale, and a cache entry to
  keep. Run one target at a time, or with every verdict fixed up front and the recipes in a worker
  pool. A content hash is modelled by the content itself and a recipe by a function of its command
  and of the contents of its inputs.
 */
module Builds {

  import opened Wrappers
  import opened WorkerPool

  datatype Verdict = Fresh | Stale

  datatype Outcome = Neutral | Failed | FoundStale | Rebuilt

  datatype Opts = Opts(force: bool, noCache: bool, checkStale: bool, dryRun: bool)

  datatype Target = Target(inputs: set<string>, outputs: set<string>, command: string)

  datatype ActionId = ActionId(command: string, inputs: Disk, outputs: set<string>)

  datatype Entry = Entry(outputs: Disk, action: ActionId)

  datatype Report = Report(outcome: Outcome, entry: Option<Entry>)

  /** The files a command produces from the files it is given, or none if it fails. */
  type Recipe = (string, Disk) -> Option<Disk>

  function Only(disk: Disk, ps: set<string>): Disk
  {
    map p | p in ps && p in disk :: disk[p]
  }

  function ActionOf(t: Target, disk: Disk): ActionId
  {
    ActionId(t.command, Only(disk, t.inputs), t.outputs)
  }

  // ----- The cache -----

  function LookupIn(es: seq<Entry>, outputs: set<string>): Option<Entry>
  {
    if es == [] then None
    else if es[0].outputs.Keys == outputs then Some(es[0])
    else LookupIn(es[1..], outputs)
  }

  function PutIn(es: seq<Entry>, e: Entry): seq<Entry>
  {
    if es == [] then [e]
    else if es[0].outputs.Keys == e.outputs.Keys then [e] + es[1..]
    else [es[0]] + PutIn(es[1..], e)
  }

  /** MAIN: what was put is found, and nothing else changes. */
  lemma {:induction false} LookupAfterPut(es: seq<Entry>, e: Entry, outputs: set<string>)
    ensures LookupIn(PutIn(es, e), outputs) == if outputs == e.outputs.Keys then Some(e) else LookupIn(es, outputs)
  {
    if es != [] && es[0].outputs.Keys != e.outputs.Keys {
      LookupAfterPut(es[1..], e, outputs);
      assert ([es[0]] + PutIn(es[1..], e))[1..] == PutIn(es[1..], e);
    }
  }

  lemma {:induction false} LookupFindsMember(es: seq<Entry>, outputs: set<string>)
    ensures LookupIn(es, outputs).Some? ==> LookupIn(es, outputs).value in es
    ensures LookupIn(es, outputs).Some? ==> LookupIn(es, outputs).value.outputs.Keys == outputs
  {
    if es != [] { LookupFindsMember(es[1..], outputs); }
  }

  lemma {:induction false} PutMembers(es: seq<Entry>, e: Entry)
    ensures forall x <- PutIn(es, e) :: x == e || x in es
  {
    if es != [] { PutMembers(es[1..], e); }
  }

  class BuildCache {
    var entries: seq<Entry>

    constructor ()
      ensures entries == []
    {
      entries := [];
    }

    method Lookup(outputs: set<string>) returns (found: Option<Entry>)
      ensures found == LookupIn(entries, outputs)
    {
      for i := 0 to |entries|
        invariant LookupIn(entries, outputs) == LookupIn(entries[i..], outputs)
      {
        if entries[i].outputs.Keys == outputs { return Some(entries[i]); }
      }
      return None;
    }

    method Put(e: Entry)
      modifies this
      ensures entries == PutIn(old(entries), e)
    {
      for i := 0 to |entries|
        invariant entries == old(entries)
        invariant PutIn(entries, e) == entries[..i] + PutIn(entries[i..], e)
      {
        if entries[i].outputs.Keys == e.outputs.Keys {
          assert entries[i := e] == entries[..i] + ([e] + entries[i..][1..]);
          entries := entries[i := e];
          return;
        }
        assert entries[..i] + ([entries[i]] + PutIn(entries[i..][1..], e)) == entries[..i + 1] + PutIn(entries[i + 1..], e);
      }
      assert entries[..|entries|] == entries;
      entries := entries + [e];
    }
  }

  // ----- One target -----

  /** None stands for an error: an input is missing. */
  function CheckStaleness(t: Target, disk: Disk, cache: seq<Entry>): Option<Verdict>
  {
    if !(t.inputs <= disk.Keys) then None
    else if !(t.outputs <= disk.Keys) then Some(Stale)
    else
      match LookupIn(cache, t.outputs)
      case None => Some(Stale)
      case Some(e) =>
        if e.action != ActionOf(t, disk) then Some(Stale)
        else if e.outputs != Only(disk, t.outputs) then Some(Stale)
        else Some(Fresh)
  }

  function TargetVerdict(t: Target, opts: Opts, disk: Disk, cache: seq<Entry>): Option<Verdict>
  {
    if opts.force || opts.noCache then
      if t.inputs <= disk.Keys then Some(Stale) else None
    else CheckStaleness(t, disk, cache)
  }

  /** Decides on a verdict already made and runs the recipe; the cache is not touched. */
  function DecideAndRun(t: Target, opts: Opts, verdict: Option<Verdict>, recipe: Recipe, disk: Disk): Done<Report>
  {
    if verdict.None? then Done(map[], Report(Failed, None))
    else if opts.checkStale then Done(map[], Report(if verdict.value.Stale? then FoundStale else Neutral, None))
    else if opts.dryRun || verdict.value.Fresh? then Done(map[], Report(Neutral, None))
    else if !(t.inputs <= disk.Keys) then Done(map[], Report(Failed, None))
    else
      match recipe(t.command, Only(disk, t.inputs))
      case None => Done(map[], Report(Failed, None))
      case Some(files) =>
        if !(t.outputs <= files.Keys) then Done(map[], Report(Failed, None))
        else
          var writes := Only(files, t.outputs);
          var after := disk + writes;
          Done(writes, Report(Rebuilt, if opts.noCache then None else Some(Entry(Only(after, t.outputs), ActionOf(t, after)))))
  }

  // ----- The serial pass -----

  datatype Pass = Pass(disk: Disk, cache: seq<Entry>, outcomes: seq<Outcome>)

  function PutReport(cache: seq<Entry>, r: Report): seq<Entry>
  {
    if r.entry.Some? then PutIn(cache, r.entry.value) else cache
  }

  function SerialPass(ts: seq<Target>, opts: Opts, recipe: Recipe, disk: Disk, cache: seq<Entry>): Pass
  {
    if ts == [] then Pass(disk, cache, [])
    else
      var t := ts[|ts| - 1];
      var p := SerialPass(ts[..|ts| - 1], opts, recipe, disk, cache);
      var d := DecideAndRun(t, opts, TargetVerdict(t, opts, p.disk, p.cache), recipe, p.disk);
      Pass(p.disk + d.writes, PutReport(p.cache, d.result), p.outcomes + [d.result.outcome])
  }

  /** The exit code follows from which outcomes occurred; saving the cache may fail. */
  function ExitCode(opts: Opts, outcomes: seq<Outcome>, saveOk: bool): nat
  {
    if opts.checkStale then (if FoundStale in outcomes then 2 else 0)
    else if Rebuilt in outcomes && !opts.noCache && !saveOk then 2
    else if Failed in outcomes then 2
    else 0
  }

  method DispatchTargets(ts: seq<Target>, opts: Opts, recipe: Recipe, before: Disk, cache: BuildCache, saveOk: bool)
    returns (code: nat, disk: Disk)
    modifies cache
    ensures disk == SerialPass(ts, opts, recipe, before, old(cache.entries)).disk
    ensures cache.entries == SerialPass(ts, opts, recipe, before, old(cache.entries)).cache
    ensures code == ExitCode(opts, SerialPass(ts, opts, recipe, before, old(cache.entries)).outcomes, saveOk)
  {
    disk := before;
    var failed, anyStale, rebuilt := false, false, false;
    for i := 0 to |ts|
      invariant var p := SerialPass(ts[..i], opts, recipe, before, old(cache.entries));
        && disk == p.disk && cache.entries == p.cache
        && failed == (Failed in p.outcomes) && anyStale == (FoundStale in p.outcomes) && rebuilt == (Rebuilt in p.outcomes)
    {
      assert ts[..i + 1][..i] == ts[..i];
      var d := DecideAndRun(ts[i], opts, TargetVerdict(ts[i], opts, disk, cache.entries), recipe, disk);
      disk := disk + d.writes;
      if d.result.entry.Some? { cache.Put(d.result.entry.value); }
      failed := failed || d.result.outcome == Failed;
      anyStale := anyStale || d.result.outcome == FoundStale;
      rebuilt := rebuilt || d.result.outcome == Rebuilt;
    }
    assert ts[..|ts|] == ts;
    if opts.checkStale { return if anyStale then 2 else 0, disk; }
    if rebuilt && !opts.noCache && !saveOk { return 2, disk; }
    code := if failed then 2 else 0;
  }

  // ----- The concurrent pass -----

  /** Outputs overlap with no output and no input of another target, and every target has one. */
  predicate Disjoint(ts: seq<Target>)
  {
    && (forall t <- ts :: t.outputs != {})
    && (forall i, j | 0 <= i < |ts| && 0 <= j < |ts| && i != j ::
          ts[i].outputs !! ts[j].outputs && ts[i].outputs !! ts[j].inputs)
  }

  function JobOf(t: Target, opts: Opts, verdict: Option<Verdict>, recipe: Recipe): Job<Report>
  {
    Job(t.inputs + t.outputs, t.outputs, d => DecideAndRun(t, opts, verdict, recipe, d))
  }

  /** The jobs of the pool: every verdict is computed first, on the disk and cache as they are. */
  function Jobs(ts: seq<Target>, opts: Opts, recipe: Recipe, disk: Disk, cache: seq<Entry>): seq<Option<Job<Report>>>
  {
    seq(|ts|, i requires 0 <= i < |ts| => Some(JobOf(ts[i], opts, TargetVerdict(ts[i], opts, disk, cache), recipe)))
  }

  function FoldReports(rs: seq<Report>, cache: seq<Entry>): seq<Entry>
  {
    if rs == [] then cache else PutReport(FoldReports(rs[..|rs| - 1], cache), rs[|rs| - 1])
  }

  function Outcomes(rs: seq<Report>): seq<Outcome>
  {
    seq(|rs|, i requires 0 <= i < |rs| => rs[i].outcome)
  }

  /** After the join: the slots are folded in declared order, and only now is the cache written. */
  method FoldResults(rs: seq<Report>, opts: Opts, cache: BuildCache, saveOk: bool) returns (code: nat)
    modifies cache
    ensures cache.entries == FoldReports(rs, old(cache.entries))
    ensures code == ExitCode(opts, Outcomes(rs), saveOk)
  {
    var failed, anyStale, rebuilt := false, false, false;
    for i := 0 to |rs|
      invariant cache.entries == FoldReports(rs[..i], old(cache.entries))
      invariant failed == (Failed in Outcomes(rs[..i]))
      invariant anyStale == (FoundStale in Outcomes(rs[..i]))
      invariant rebuilt == (Rebuilt in Outcomes(rs[..i]))
    {
      assert rs[..i + 1][..i] == rs[..i];
      assert Outcomes(rs[..i + 1]) == Outcomes(rs[..i]) + [rs[i].outcome];
      if rs[i].entry.Some? { cache.Put(rs[i].entry.value); }
      failed := failed || rs[i].outcome == Failed;
      anyStale := anyStale || rs[i].outcome == FoundStale;
      rebuilt := rebuilt || rs[i].outcome == Rebuilt;
    }
    assert rs[..|rs|] == rs;
    if opts.checkStale { return if anyStale then 2 else 0; }
    if rebuilt && !opts.noCache && !saveOk { return 2; }
    code := if failed then 2 else 0;
  }

  // ----- Every schedule is the serial pass -----

  lemma OnlyAgrees(a: Disk, b: Disk, ps: set<string>)
    requires AgreeOn(a, b, ps)
    ensures Only(a, ps) == Only(b, ps) && (ps <= a.Keys <==> ps <= b.Keys)
  {
    forall p | p in ps ensures p in a <==> p in b { assert SameAt(a, b, p); }
  }

  lemma AgreeOnParts(a: Disk, b: Disk, t: Target)
    requires AgreeOn(a, b, t.inputs + t.outputs)
    ensures AgreeOn(a, b, t.inputs) && AgreeOn(a, b, t.outputs)
  {
    forall p | p in t.inputs ensures SameAt(a, b, p) { assert p in t.inputs + t.outputs; }
    forall p | p in t.outputs ensures SameAt(a, b, p) { assert p in t.inputs + t.outputs; }
  }

  lemma AgreeAfter(a: Disk, b: Disk, w: Disk, ps: set<string>)
    requires AgreeOn(a, b, ps)
    ensures AgreeOn(a + w, b + w, ps)
  {
    forall p | p in ps ensures SameAt(a + w, b + w, p) { assert SameAt(a, b, p); }
  }

  lemma RunIsLocal(t: Target, opts: Opts, verdict: Option<Verdict>, recipe: Recipe, a: Disk, b: Disk)
    requires AgreeOn(a, b, t.inputs + t.outputs)
    ensures DecideAndRun(t, opts, verdict, recipe, a) == DecideAndRun(t, opts, verdict, recipe, b)
  {
    hide Only;
    AgreeOnParts(a, b, t);
    OnlyAgrees(a, b, t.inputs);
    var made := recipe(t.command, Only(a, t.inputs));
    if made.Some? {
      var w := Only(made.value, t.outputs);
      AgreeAfter(a, b, w, t.inputs);
      AgreeAfter(a, b, w, t.outputs);
      OnlyAgrees(a + w, b + w, t.inputs);
      OnlyAgrees(a + w, b + w, t.outputs);
    }
  }

  lemma VerdictIsLocal(t: Target, opts: Opts, a: Disk, b: Disk, ca: seq<Entry>, cb: seq<Entry>)
    requires AgreeOn(a, b, t.inputs + t.outputs) && LookupIn(ca, t.outputs) == LookupIn(cb, t.outputs)
    ensures TargetVerdict(t, opts, a, ca) == TargetVerdict(t, opts, b, cb)
  {
    hide Only;
    AgreeOnParts(a, b, t);
    OnlyAgrees(a, b, t.inputs);
    OnlyAgrees(a, b, t.outputs);
  }

  lemma JobsIndependent(ts: seq<Target>, opts: Opts, recipe: Recipe, disk: Disk, cache: seq<Entry>)
    requires Disjoint(ts)
    ensures Independent(Jobs(ts, opts, recipe, disk, cache))
  {
    var jobs := Jobs(ts, opts, recipe, disk, cache);
    forall i | 0 <= i < |jobs| ensures Local(jobs[i].value) {
      var v := TargetVerdict(ts[i], opts, disk, cache);
      forall a, b | AgreeOn(a, b, ts[i].inputs + ts[i].outputs)
        ensures jobs[i].value.body(a) == jobs[i].value.body(b)
      {
        RunIsLocal(ts[i], opts, v, recipe, a, b);
      }
    }
  }

  /** A report's cache entry is filed under its own target's outputs. */
  lemma EntryKey(t: Target, opts: Opts, verdict: Option<Verdict>, recipe: Recipe, disk: Disk)
    ensures var e := DecideAndRun(t, opts, verdict, recipe, disk).result.entry; e.Some? ==> e.value.outputs.Keys == t.outputs
  {
  }

  /** What the pool's jobs report on the initial disk. */
  ghost function OwnReports(ts: seq<Target>, opts: Opts, recipe: Recipe, disk: Disk, cache: seq<Entry>, n: nat): seq<Report>
    requires n <= |ts|
  {
    seq(n, i requires 0 <= i < n => DecideAndRun(ts[i], opts, TargetVerdict(ts[i], opts, disk, cache), recipe, disk).result)
  }

  /** Folding the other targets' entries leaves the lookup of this one alone. */
  lemma {:induction false} LookupUnaffected(ts: seq<Target>, opts: Opts, recipe: Recipe, disk: Disk, cache: seq<Entry>, n: nat, k: nat)
    requires Disjoint(ts) && n <= k < |ts|
    ensures LookupIn(FoldReports(OwnReports(ts, opts, recipe, disk, cache, n), cache), ts[k].outputs) == LookupIn(cache, ts[k].outputs)
  {
    if n > 0 {
      hide DecideAndRun;
      LookupUnaffected(ts, opts, recipe, disk, cache, n - 1, k);
      var rs := OwnReports(ts, opts, recipe, disk, cache, n);
      assert rs[..n - 1] == OwnReports(ts, opts, recipe, disk, cache, n - 1);
      EntryKey(ts[n - 1], opts, TargetVerdict(ts[n - 1], opts, disk, cache), recipe, disk);
      assert ts[k] in ts && ts[k].outputs != {} && ts[n - 1].outputs !! ts[k].outputs;
      if rs[n - 1].entry.Some? {
        LookupAfterPut(FoldReports(rs[..n - 1], cache), rs[n - 1].entry.value, ts[k].outputs);
      }
    }
  }

  lemma PassStep(ts: seq<Target>, opts: Opts, recipe: Recipe, disk: Disk, cache: seq<Entry>, n: nat)
    requires n < |ts|
    ensures var p := SerialPass(ts[..n], opts, recipe, disk, cache);
      var d := DecideAndRun(ts[n], opts, TargetVerdict(ts[n], opts, p.disk, p.cache), recipe, p.disk);
      SerialPass(ts[..n + 1], opts, recipe, disk, cache) ==
        Pass(p.disk + d.writes, PutReport(p.cache, d.result), p.outcomes + [d.result.outcome])
  {
    hide DecideAndRun, TargetVerdict, PutReport;
    assert ts[..n + 1][..n] == ts[..n];
  }

  lemma OwnStep(ts: seq<Target>, opts: Opts, recipe: Recipe, disk: Disk, cache: seq<Entry>, n: nat)
    requires n < |ts|
    ensures OwnReports(ts, opts, recipe, disk, cache, n + 1) ==
            OwnReports(ts, opts, recipe, disk, cache, n) +
            [DecideAndRun(ts[n], opts, TargetVerdict(ts[n], opts, disk, cache), recipe, disk).result]
  {
    hide DecideAndRun, TargetVerdict;
  }

  lemma FoldSnoc(rs: seq<Report>, r: Report, cache: seq<Entry>)
    ensures FoldReports(rs + [r], cache) == PutReport(FoldReports(rs, cache), r)
    ensures Outcomes(rs + [r]) == Outcomes(rs) + [r.outcome]
  {
    assert (rs + [r])[..|rs|] == rs;
  }

  lemma DiskStep(ts: seq<Target>, opts: Opts, recipe: Recipe, disk: Disk, cache: seq<Entry>, n: nat)
    requires n < |ts|
    ensures var jobs := Jobs(ts, opts, recipe, disk, cache);
      var before := SerialDisk(jobs, disk, n);
      SerialDisk(jobs, disk, n + 1) ==
        before + DecideAndRun(ts[n], opts, TargetVerdict(ts[n], opts, disk, cache), recipe, before).writes
  {
    hide DecideAndRun, TargetVerdict;
  }

  /** One by one, the pass does what each target would do alone. */
  lemma {:induction false} SerialPassIsOwn(ts: seq<Target>, opts: Opts, recipe: Recipe, disk: Disk, cache: seq<Entry>, n: nat)
    requires Disjoint(ts) && n <= |ts|
    ensures var p := SerialPass(ts[..n], opts, recipe, disk, cache);
      var rs := OwnReports(ts, opts, recipe, disk, cache, n);
      && p.disk == SerialDisk(Jobs(ts, opts, recipe, disk, cache), disk, n)
      && p.cache == FoldReports(rs, cache)
      && p.outcomes == Outcomes(rs)
  {
    if n > 0 {
      hide *;
      var t, verdict := ts[n - 1], TargetVerdict(ts[n - 1], opts, disk, cache);
      var p := SerialPass(ts[..n - 1], opts, recipe, disk, cache);
      SerialPassIsOwn(ts, opts, recipe, disk, cache, n - 1);
      LookupUnaffected(ts, opts, recipe, disk, cache, n - 1, n - 1);
      SerialSeesInitial(ts, opts, recipe, disk, cache, n - 1);
      VerdictIsLocal(t, opts, p.disk, disk, p.cache, cache);
      RunIsLocal(t, opts, verdict, recipe, p.disk, disk);
      PassStep(ts, opts, recipe, disk, cache, n - 1);
      OwnStep(ts, opts, recipe, disk, cache, n - 1);
      DiskStep(ts, opts, recipe, disk, cache, n - 1);
      FoldSnoc(OwnReports(ts, opts, recipe, disk, cache, n - 1), DecideAndRun(t, opts, verdict, recipe, disk).result, cache);
    }
  }

  /** When its turn comes, a target still finds its own files as they were at the start. */
  lemma SerialSeesInitial(ts: seq<Target>, opts: Opts, recipe: Recipe, disk: Disk, cache: seq<Entry>, k: nat)
    requires Disjoint(ts) && k < |ts|
    ensures AgreeOn(SerialDisk(Jobs(ts, opts, recipe, disk, cache), disk, k), disk, ts[k].inputs + ts[k].outputs)
  {
    var jobs := Jobs(ts, opts, recipe, disk, cache);
    JobsIndependent(ts, opts, recipe, disk, cache);
    SerialDiskOk(jobs, disk, k);
    AgreesOnOwnPaths(jobs, disk, SerialState(jobs, disk, k), k);
  }

  /** MAIN: whatever order the workers ran in, a disjoint build ends as the serial pass does. */
  lemma ConcurrentBuildIsSerial(ts: seq<Target>, opts: Opts, recipe: Recipe, disk: Disk, cache: seq<Entry>, cap: nat,
                                run: seq<State<Report>>, rs: seq<Report>)
    requires Disjoint(ts)
    requires Behaviour(Jobs(ts, opts, recipe, disk, cache), cap, disk, run)
    requires Finished(Jobs(ts, opts, recipe, disk, cache), run[|run| - 1])
    requires |rs| == |ts| && forall i | 0 <= i < |rs| :: run[|run| - 1].slots[i] == Some(rs[i])
    ensures var p := SerialPass(ts, opts, recipe, disk, cache);
      && run[|run| - 1].disk == p.disk
      && FoldReports(rs, cache) == p.cache
      && Outcomes(rs) == p.outcomes
  {
    hide DecideAndRun, TargetVerdict, Disjoint;
    var jobs := Jobs(ts, opts, recipe, disk, cache);
    JobsIndependent(ts, opts, recipe, disk, cache);
    EveryScheduleIsSerial(jobs, cap, disk, run);
    SerialPassIsOwn(ts, opts, recipe, disk, cache, |ts|);
    assert ts[..|ts|] == ts;
    forall i: nat | i < |rs| ensures rs[i] == OwnReports(ts, opts, recipe, disk, cache, |ts|)[i] {
      assert run[|run| - 1].slots[i] == SerialSlot(jobs, disk, i);
      SerialIsOwn(jobs, disk, i);
    }
    assert rs == OwnReports(ts, opts, recipe, disk, cache, |ts|);
  }

  // ----- Targets that feed each other -----

  /** What the build refuses to do without: no two targets share an output. */
  predicate OwnOutputs(ts: seq<Target>)
  {
    && (forall t <- ts :: t.outputs != {})
    && (forall i, j | 0 <= i < |ts| && 0 <= j < |ts| && i != j :: ts[i].outputs !! ts[j].outputs)
  }

  /** Earlier targets keep every file, the outputs of target j as they are, and its cache entry. */
  lemma {:induction false} PassLeavesOutputs(ts: seq<Target>, opts: Opts, recipe: Recipe, disk: Disk, cache: seq<Entry>, n: nat, j: nat)
    requires OwnOutputs(ts) && n <= j < |ts|
    ensures var p := SerialPass(ts[..n], opts, recipe, disk, cache);
      && disk.Keys <= p.disk.Keys
      && (forall x <- ts[j].outputs :: SameAt(p.disk, disk, x))
      && LookupIn(p.cache, ts[j].outputs) == LookupIn(cache, ts[j].outputs)
  {
    if n > 0 {
      hide DecideAndRun, TargetVerdict, LookupIn, PutIn;
      PassLeavesOutputs(ts, opts, recipe, disk, cache, n - 1, j);
      PassStep(ts, opts, recipe, disk, cache, n - 1);
      var p := SerialPass(ts[..n - 1], opts, recipe, disk, cache);
      var t, v := ts[n - 1], TargetVerdict(ts[n - 1], opts, p.disk, p.cache);
      assert t in ts && ts[j] in ts && t.outputs !! ts[j].outputs;
      EntryKey(t, opts, v, recipe, p.disk);
      WritesOwnOutputs(t, opts, v, recipe, p.disk);
      var d := DecideAndRun(t, opts, v, recipe, p.disk);
      if d.result.entry.Some? { LookupAfterPut(p.cache, d.result.entry.value, ts[j].outputs); }
    }
  }

  lemma WritesOwnOutputs(t: Target, opts: Opts, verdict: Option<Verdict>, recipe: Recipe, disk: Disk)
    ensures DecideAndRun(t, opts, verdict, recipe, disk).writes.Keys <= t.outputs
  {
  }

  lemma SameOutputs(a: Disk, b: Disk, ps: set<string>)
    requires forall x <- ps :: SameAt(a, b, x)
    ensures Only(a, ps) == Only(b, ps)
  {
  }

  /**
    MAIN: a target that is fresh up front is left alone by the concurrent pass on whatever disk its worker
    finds; the serial pass runs it exactly if the targets before it have changed one of its inputs.
   */
  lemma FreshTargetRerunIff(ts: seq<Target>, recipe: Recipe, disk: Disk, cache: seq<Entry>, j: nat, found: Disk)
    requires OwnOutputs(ts) && j < |ts| && CheckStaleness(ts[j], disk, cache) == Some(Fresh)
    ensures Jobs(ts, PLAIN, recipe, disk, cache)[j].value.body(found) == Done(map[], Report(Neutral, None))
    ensures var p := SerialPass(ts[..j], PLAIN, recipe, disk, cache);
      TargetVerdict(ts[j], PLAIN, p.disk, p.cache) ==
      Some(if Only(p.disk, ts[j].inputs) == Only(disk, ts[j].inputs) then Fresh else Stale)
  {
    PassLeavesOutputs(ts, PLAIN, recipe, disk, cache, j, j);
    var p := SerialPass(ts[..j], PLAIN, recipe, disk, cache);
    SameOutputs(p.disk, disk, ts[j].outputs);
    FreshIsNeutral(ts[j], recipe, found);
    hide Only, LookupIn, SerialPass, OwnOutputs, DecideAndRun;
  }

  /**
    Two chained targets, both up to date, whose source a has since changed from `was` to `now`: the
    first copies a to b, the second b to c.
   */
  datatype Chain = Chain(a: string, b: string, c: string, was: string, now: string, copyA: string, copyB: string)
  {
    predicate Valid(recipe: Recipe)
    {
      && a != b && b != c && a != c && was != now
      && recipe(copyA, map[a := now]) == Some(map[b := now])
      && recipe(copyB, map[b := now]) == Some(map[c := now])
    }

    function First(): Target { Target({a}, {b}, copyA) }

    function Second(): Target { Target({b}, {c}, copyB) }

    function Before(): Disk { map[a := now, b := was, c := was] }

    function OldFirst(): Entry { Entry(map[b := was], ActionId(copyA, map[a := was], {b})) }

    function OldSecond(): Entry { Entry(map[c := was], ActionId(copyB, map[b := was], {c})) }

    function NewFirst(): Entry { Entry(map[b := now], ActionId(copyA, map[a := now], {b})) }
  }

  const PLAIN := Opts(false, false, false, false)

  lemma OnlyOne(disk: Disk, p: string)
    requires p in disk
    ensures Only(disk, {p}) == map[p := disk[p]]
  {
  }

  /** The first target is rebuilt whenever it is reached. */
  lemma FirstRebuilds(x: Chain, recipe: Recipe)
    requires x.Valid(recipe)
    ensures TargetVerdict(x.First(), PLAIN, x.Before(), [x.OldFirst(), x.OldSecond()]) == Some(Stale)
    ensures DecideAndRun(x.First(), PLAIN, Some(Stale), recipe, x.Before()) ==
            Done(map[x.b := x.now], Report(Rebuilt, Some(x.NewFirst())))
  {
    hide Only;
    OnlyOne(x.Before(), x.a);
    OnlyOne(map[x.b := x.now], x.b);
    OnlyOne(x.Before() + map[x.b := x.now], x.a);
    OnlyOne(x.Before() + map[x.b := x.now], x.b);
    assert x.OldFirst().action.inputs[x.a] != Only(x.Before(), {x.a})[x.a];
    assert x.OldFirst().outputs.Keys == {x.b};
  }

  lemma SecondIsCached(x: Chain)
    requires x.b != x.c
    ensures LookupIn([x.OldFirst(), x.OldSecond()], {x.c}) == Some(x.OldSecond())
    ensures LookupIn(PutIn([x.OldFirst(), x.OldSecond()], x.NewFirst()), {x.c}) == Some(x.OldSecond())
  {
    var cache := [x.OldFirst(), x.OldSecond()];
    assert x.OldFirst().outputs.Keys == {x.b} && x.OldSecond().outputs.Keys == {x.c} && x.NewFirst().outputs.Keys == {x.b};
    assert x.b !in {x.c};
    assert cache[1..] == [x.OldSecond()];
    LookupAfterPut(cache, x.NewFirst(), {x.c});
  }

  /** Up front the second target is fresh; after the first has run it is stale. */
  lemma SecondDepends(x: Chain, recipe: Recipe, cache: seq<Entry>)
    requires x.Valid(recipe) && LookupIn(cache, {x.c}) == Some(x.OldSecond())
    ensures TargetVerdict(x.Second(), PLAIN, x.Before(), cache) == Some(Fresh)
    ensures TargetVerdict(x.Second(), PLAIN, x.Before() + map[x.b := x.now], cache) == Some(Stale)
    ensures var d := DecideAndRun(x.Second(), PLAIN, Some(Stale), recipe, x.Before() + map[x.b := x.now]);
      d.writes == map[x.c := x.now] && d.result.outcome == Rebuilt
  {
    hide Only;
    var after := x.Before() + map[x.b := x.now];
    OnlyOne(x.Before(), x.b);
    OnlyOne(x.Before(), x.c);
    OnlyOne(after, x.b);
    OnlyOne(map[x.c := x.now], x.c);
    assert x.OldSecond().action.inputs[x.b] != Only(after, {x.b})[x.b];
  }

  /**
    Disjointness is needed although only overlapping outputs are refused: of two chained targets the
    serial pass rebuilds both, while the concurrent pass has fixed the second verdict as fresh and
    leaves that target alone on whatever disk its worker finds.
   */
  lemma ChainedTargetsDiffer(x: Chain, recipe: Recipe, disk: Disk)
    requires x.Valid(recipe)
    ensures var ts, cache := [x.First(), x.Second()], [x.OldFirst(), x.OldSecond()];
      && SerialPass(ts, PLAIN, recipe, x.Before(), cache).outcomes == [Rebuilt, Rebuilt]
      && SerialPass(ts, PLAIN, recipe, x.Before(), cache).disk == map[x.a := x.now, x.b := x.now, x.c := x.now]
      && Jobs(ts, PLAIN, recipe, x.Before(), cache)[1].value.body(disk) == Done(map[], Report(Neutral, None))
  {
    hide Only, LookupIn, PutIn, DecideAndRun, TargetVerdict, SerialPass;
    SecondIsCached(x);
    SecondDepends(x, recipe, [x.OldFirst(), x.OldSecond()]);
    FreshIsNeutral(x.Second(), recipe, disk);
    ChainSerially(x, recipe);
    assert x.Before() + map[x.b := x.now] + map[x.c := x.now] == map[x.a := x.now, x.b := x.now, x.c := x.now];
  }

  lemma ChainSerially(x: Chain, recipe: Recipe)
    requires x.Valid(recipe)
    ensures var p := SerialPass([x.First(), x.Second()], PLAIN, recipe, x.Before(), [x.OldFirst(), x.OldSecond()]);
      p.outcomes == [Rebuilt, Rebuilt] && p.disk == x.Before() + map[x.b := x.now] + map[x.c := x.now]
  {
    hide Only, LookupIn, PutIn, DecideAndRun, TargetVerdict;
    var ts, cache := [x.First(), x.Second()], [x.OldFirst(), x.OldSecond()];
    assert ts[..1] == [x.First()] && [x.First()][..0] == [];
    FirstRebuilds(x, recipe);
    SecondIsCached(x);
    assert SerialPass([], PLAIN, recipe, x.Before(), cache) == Pass(x.Before(), cache, []);
    var p := SerialPass([x.First()], PLAIN, recipe, x.Before(), cache);
    assert p == Pass(x.Before() + map[x.b := x.now], PutIn(cache, x.NewFirst()), [Rebuilt]);
    SecondDepends(x, recipe, p.cache);
  }

  lemma FreshIsNeutral(t: Target, recipe: Recipe, disk: Disk)
    ensures DecideAndRun(t, PLAIN, Some(Fresh), recipe, disk) == Done(map[], Report(Neutral, None))
  {
  }

  // ----- What a fresh verdict is worth -----

  /** The recorded outputs are those the recorded command makes of the recorded inputs. */
  predicate Honest(e: Entry, recipe: Recipe)
  {
    var made := recipe(e.action.command, e.action.inputs);
    && e.outputs.Keys == e.action.outputs
    && made.Some? && e.outputs.Keys <= made.value.Keys
    && e.outputs == Only(made.value, e.outputs.Keys)
  }

  predicate HonestCache(es: seq<Entry>, recipe: Recipe)
  {
    forall e <- es :: Honest(e, recipe)
  }

  /** MAIN: skipping a fresh target is right: running its recipe would change nothing. */
  lemma FreshNeedsNoRun(t: Target, opts: Opts, disk: Disk, cache: seq<Entry>, recipe: Recipe)
    requires HonestCache(cache, recipe) && CheckStaleness(t, disk, cache) == Some(Fresh)
    requires !opts.checkStale && !opts.dryRun
    ensures var d := DecideAndRun(t, opts, Some(Stale), recipe, disk); d.result.outcome == Rebuilt && disk + d.writes == disk
  {
    LookupFindsMember(cache, t.outputs);
    var e := LookupIn(cache, t.outputs).value;
    assert Honest(e, recipe);
    var d := DecideAndRun(t, opts, Some(Stale), recipe, disk);
    assert d.writes == Only(disk, t.outputs);
  }

  lemma OutputsOnly(disk: Disk, writes: Disk, ps: set<string>)
    requires writes.Keys == ps
    ensures Only(disk + writes, ps) == writes
  {
  }

  lemma InputsKept(disk: Disk, writes: Disk, ps: set<string>)
    requires writes.Keys !! ps
    ensures Only(disk + writes, ps) == Only(disk, ps)
  {
  }

  /** A target that does not overwrite its own inputs records an honest entry. */
  lemma RunIsHonest(t: Target, opts: Opts, verdict: Option<Verdict>, recipe: Recipe, disk: Disk)
    requires t.outputs !! t.inputs
    ensures var r := DecideAndRun(t, opts, verdict, recipe, disk).result; r.entry.Some? ==> Honest(r.entry.value, recipe)
  {
    var d := DecideAndRun(t, opts, verdict, recipe, disk);
    if d.result.entry.Some? {
      OutputsOnly(disk, d.writes, t.outputs);
      InputsKept(disk, d.writes, t.inputs);
    }
  }

  /** MAIN: a pass keeps the cache honest, whether its targets are disjoint or chained. */
  lemma {:induction false} PassKeepsHonest(ts: seq<Target>, opts: Opts, recipe: Recipe, disk: Disk, cache: seq<Entry>)
    requires HonestCache(cache, recipe) && forall t <- ts :: t.outputs !! t.inputs
    ensures HonestCache(SerialPass(ts, opts, recipe, disk, cache).cache, recipe)
  {
    if ts != [] {
      hide DecideAndRun, TargetVerdict, Honest;
      var t := ts[|ts| - 1];
      PassKeepsHonest(ts[..|ts| - 1], opts, recipe, disk, cache);
      var p := SerialPass(ts[..|ts| - 1], opts, recipe, disk, cache);
      var v := TargetVerdict(t, opts, p.disk, p.cache);
      RunIsHonest(t, opts, v, recipe, p.disk);
      var r := DecideAndRun(t, opts, v, recipe, p.disk).result;
      if r.entry.Some? { PutMembers(p.cache, r.entry.value); }
    }
  }

  // ----- A second pass does nothing -----

  lemma FreshAfterRun(t: Target, opts: Opts, recipe: Recipe, disk: Disk, cache: seq<Entry>)
    requires t.outputs !! t.inputs && !opts.noCache && !opts.checkStale && !opts.dryRun
    ensures var d := DecideAndRun(t, opts, TargetVerdict(t, opts, disk, cache), recipe, disk);
      d.result.outcome != Failed ==> CheckStaleness(t, disk + d.writes, PutReport(cache, d.result)) == Some(Fresh)
  {
    var v := TargetVerdict(t, opts, disk, cache);
    var d := DecideAndRun(t, opts, v, recipe, disk);
    if d.result.outcome == Rebuilt {
      OutputsOnly(disk, d.writes, t.outputs);
      LookupAfterPut(cache, d.result.entry.value, t.outputs);
    } else if d.result.outcome == Neutral {
      assert disk + d.writes == disk;
    }
  }

  /** A later target leaves an earlier one's verdict alone. */
  lemma FreshStays(t: Target, u: Target, opts: Opts, v: Option<Verdict>, recipe: Recipe, disk: Disk, cache: seq<Entry>)
    requires u.outputs !! t.outputs && u.outputs !! t.inputs && t.outputs != {}
    ensures var d := DecideAndRun(u, opts, v, recipe, disk);
      CheckStaleness(t, disk + d.writes, PutReport(cache, d.result)) == CheckStaleness(t, disk, cache)
  {
    var d := DecideAndRun(u, opts, v, recipe, disk);
    assert d.writes.Keys <= u.outputs;
    InputsKept(disk, d.writes, t.inputs);
    InputsKept(disk, d.writes, t.outputs);
    EntryKey(u, opts, v, recipe, disk);
    if d.result.entry.Some? { LookupAfterPut(cache, d.result.entry.value, t.outputs); }
    assert t.inputs <= (disk + d.writes).Keys <==> t.inputs <= disk.Keys;
    assert t.outputs <= (disk + d.writes).Keys <==> t.outputs <= disk.Keys;
  }

  /** MAIN: after a pass every target that did not fail is fresh, so a second pass skips it. */
  lemma {:induction false} FreshAfterPass(ts: seq<Target>, opts: Opts, recipe: Recipe, disk: Disk, cache: seq<Entry>, k: nat)
    requires Disjoint(ts) && (forall t <- ts :: t.outputs !! t.inputs) && k < |ts|
    requires !opts.noCache && !opts.checkStale && !opts.dryRun
    ensures var p := SerialPass(ts, opts, recipe, disk, cache);
      |p.outcomes| == |ts| && (p.outcomes[k] != Failed ==> CheckStaleness(ts[k], p.disk, p.cache) == Some(Fresh))
  {
    hide DecideAndRun, TargetVerdict, CheckStaleness;
    var n := |ts| - 1;
    var p := SerialPass(ts[..n], opts, recipe, disk, cache);
    OutcomesPerTarget(ts[..n], opts, recipe, disk, cache);
    assert ts[n] in ts && ts[k] in ts;
    if k == n {
      FreshAfterRun(ts[n], opts, recipe, p.disk, p.cache);
    } else {
      FreshAfterPass(ts[..n], opts, recipe, disk, cache, k);
      FreshStays(ts[k], ts[n], opts, TargetVerdict(ts[n], opts, p.disk, p.cache), recipe, p.disk, p.cache);
    }
  }

  lemma {:induction false} OutcomesPerTarget(ts: seq<Target>, opts: Opts, recipe: Recipe, disk: Disk, cache: seq<Entry>)
    ensures |SerialPass(ts, opts, recipe, disk, cache).outcomes| == |ts|
  {
    if ts != [] { OutcomesPerTarget(ts[..|ts| - 1], opts, recipe, disk, cache); }
  }

}
