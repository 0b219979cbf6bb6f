/**
  What the options of a build pass change: when a target counts as up to date, which passes write nothing,
  which run everything, and what the exit code says about the targets.
 */
module BuildModes {

  import opened Wrappers
  import opened WorkerPool
  import opened Builds

  /** Inputs and outputs are there, and the cache records this very command on these inputs giving these outputs. */
  predicate UpToDate(t: Target, disk: Disk, cache: seq<Entry>)
  {
    && t.inputs <= disk.Keys && t.outputs <= disk.Keys
    && LookupIn(cache, t.outputs) ==
       Some(Entry(map p | p in t.outputs :: disk[p], ActionId(t.command, map p | p in t.inputs :: disk[p], t.outputs)))
  }

  lemma OnlyAll(disk: Disk, ps: set<string>)
    requires ps <= disk.Keys
    ensures Only(disk, ps) == map p | p in ps :: disk[p]
  {
  }

  /** MAIN: a target with a missing input fails; else it is fresh exactly if up to date, and nothing overrides that. */
  lemma VerdictIff(t: Target, opts: Opts, disk: Disk, cache: seq<Entry>)
    ensures var v := TargetVerdict(t, opts, disk, cache);
      && (v.None? <==> !(t.inputs <= disk.Keys))
      && (v == Some(Fresh) <==> UpToDate(t, disk, cache) && !opts.force && !opts.noCache)
  {
    if t.inputs <= disk.Keys { OnlyAll(disk, t.inputs); }
    if t.outputs <= disk.Keys { OnlyAll(disk, t.outputs); }
    hide Only, LookupIn;
  }

  /** Nothing runs and nothing is written. */
  predicate Quiet(opts: Opts)
  {
    opts.dryRun || opts.checkStale
  }

  /** The outcome of a target that is only looked at. */
  function LookedAt(t: Target, opts: Opts, disk: Disk, cache: seq<Entry>): Outcome
  {
    if !(t.inputs <= disk.Keys) then Failed
    else if opts.checkStale && (opts.force || opts.noCache || !UpToDate(t, disk, cache)) then FoundStale
    else Neutral
  }

  lemma QuietTarget(t: Target, opts: Opts, recipe: Recipe, disk: Disk, cache: seq<Entry>)
    requires Quiet(opts)
    ensures DecideAndRun(t, opts, TargetVerdict(t, opts, disk, cache), recipe, disk) == Done(map[], Report(LookedAt(t, opts, disk, cache), None))
  {
    VerdictIff(t, opts, disk, cache);
    hide UpToDate, TargetVerdict;
  }

  /** MAIN: a dry run or a check for staleness changes neither files nor cache, and sees every target as it is. */
  lemma {:induction false} QuietPass(ts: seq<Target>, opts: Opts, recipe: Recipe, disk: Disk, cache: seq<Entry>)
    requires Quiet(opts)
    ensures var p := SerialPass(ts, opts, recipe, disk, cache);
      && p.disk == disk && p.cache == cache && |p.outcomes| == |ts|
      && forall i | 0 <= i < |ts| :: p.outcomes[i] == LookedAt(ts[i], opts, disk, cache)
  {
    hide DecideAndRun, TargetVerdict, LookedAt;
    if ts != [] {
      var t := ts[|ts| - 1];
      QuietPass(ts[..|ts| - 1], opts, recipe, disk, cache);
      QuietTarget(t, opts, recipe, disk, cache);
      assert disk + map[] == disk;
    }
  }

  /** MAIN: a check for staleness exits with 2 exactly if some target that could run is stale, and else with 0. */
  lemma CheckTells(ts: seq<Target>, opts: Opts, recipe: Recipe, disk: Disk, cache: seq<Entry>, saveOk: bool)
    requires opts.checkStale
    ensures ExitCode(opts, SerialPass(ts, opts, recipe, disk, cache).outcomes, saveOk) ==
            if exists t <- ts :: t.inputs <= disk.Keys && (opts.force || opts.noCache || !UpToDate(t, disk, cache)) then 2 else 0
  {
    hide SerialPass, UpToDate;
    QuietPass(ts, opts, recipe, disk, cache);
    var os := SerialPass(ts, opts, recipe, disk, cache).outcomes;
    if FoundStale in os {
      var i :| 0 <= i < |os| && os[i] == FoundStale;
      assert ts[i] in ts;
    }
    forall t <- ts | t.inputs <= disk.Keys && (opts.force || opts.noCache || !UpToDate(t, disk, cache)) ensures FoundStale in os {
      var i :| 0 <= i < |ts| && ts[i] == t;
      assert os[i] == FoundStale;
    }
  }

  /** The recipe succeeds and leaves every declared output. */
  predicate Produces(t: Target, recipe: Recipe, disk: Disk)
  {
    recipe(t.command, Only(disk, t.inputs)).Some? && t.outputs <= recipe(t.command, Only(disk, t.inputs)).value.Keys
  }

  /** Files and cache as the target finds them. */
  function Turn(ts: seq<Target>, opts: Opts, recipe: Recipe, disk: Disk, cache: seq<Entry>, i: nat): Pass
    requires i < |ts|
  {
    SerialPass(ts[..i], opts, recipe, disk, cache)
  }

  lemma {:induction false} OutcomeAt(ts: seq<Target>, opts: Opts, recipe: Recipe, disk: Disk, cache: seq<Entry>, i: nat)
    requires i < |ts|
    ensures var q := Turn(ts, opts, recipe, disk, cache, i); var os := SerialPass(ts, opts, recipe, disk, cache).outcomes;
      |os| == |ts| && os[i] == DecideAndRun(ts[i], opts, TargetVerdict(ts[i], opts, q.disk, q.cache), recipe, q.disk).result.outcome
    decreases |ts|
  {
    hide DecideAndRun, TargetVerdict;
    var n := |ts| - 1;
    OutcomeCount(ts[..n], opts, recipe, disk, cache);
    if i < n {
      OutcomeAt(ts[..n], opts, recipe, disk, cache, i);
      assert ts[..n][..i] == ts[..i];
    }
  }

  lemma {:induction false} OutcomeCount(ts: seq<Target>, opts: Opts, recipe: Recipe, disk: Disk, cache: seq<Entry>)
    ensures |SerialPass(ts, opts, recipe, disk, cache).outcomes| == |ts|
  {
    if ts != [] { OutcomeCount(ts[..|ts| - 1], opts, recipe, disk, cache); }
  }

  /** MAIN: in a real run a target is skipped exactly if fresh at its turn, and rebuilt exactly if its recipe then produces it. */
  lemma RunTells(ts: seq<Target>, opts: Opts, recipe: Recipe, disk: Disk, cache: seq<Entry>, i: nat)
    requires i < |ts| && !Quiet(opts)
    ensures var q := Turn(ts, opts, recipe, disk, cache, i); var os := SerialPass(ts, opts, recipe, disk, cache).outcomes;
      var due := opts.force || opts.noCache || !UpToDate(ts[i], q.disk, q.cache);
      && |os| == |ts|
      && (os[i] == Neutral <==> ts[i].inputs <= q.disk.Keys && !due)
      && (os[i] == Rebuilt <==> ts[i].inputs <= q.disk.Keys && due && Produces(ts[i], recipe, q.disk))
      && os[i] != FoundStale
  {
    var q := Turn(ts, opts, recipe, disk, cache, i);
    OutcomeAt(ts, opts, recipe, disk, cache, i);
    VerdictIff(ts[i], opts, q.disk, q.cache);
    hide SerialPass, TargetVerdict, UpToDate, Only;
  }

  /** MAIN: a real run exits with 0 exactly if no target failed and a cache that had to be saved was saved. */
  lemma RunExits(ts: seq<Target>, opts: Opts, recipe: Recipe, disk: Disk, cache: seq<Entry>, saveOk: bool)
    requires !Quiet(opts)
    ensures var os := SerialPass(ts, opts, recipe, disk, cache).outcomes; var code := ExitCode(opts, os, saveOk);
      && (code == 0 || code == 2)
      && (code == 0 <==> Failed !in os && (Rebuilt in os && !opts.noCache ==> saveOk))
  {
    hide SerialPass;
  }

  /** Without the cache nothing is recorded in it. */
  lemma {:induction false} CacheLeftAlone(ts: seq<Target>, opts: Opts, recipe: Recipe, disk: Disk, cache: seq<Entry>)
    requires opts.noCache
    ensures SerialPass(ts, opts, recipe, disk, cache).cache == cache
  {
    if ts != [] { CacheLeftAlone(ts[..|ts| - 1], opts, recipe, disk, cache); }
    hide Only, TargetVerdict;
  }

}
