/**
  The worker pool shared by the rule checker and the build pass: a spawn loop that takes a semaphore
  slot per job, workers that read, write their files, fill their own result slot and give the
  semaphore slot back, and a join. Modelled as a state machine over single steps, so that every
  interleaving is a behaviour.
 */
module WorkerPool {

  import opened Wrappers

  type Disk = map<string, string>

  /** What one job leaves behind: files written and a result for its slot. */
  datatype Done<R> = Done(writes: Disk, result: R)

  /** A job, the paths it may look at and the paths it may write. */
  datatype Job<R> = Job(looks: set<string>, writes: set<string>, body: Disk -> Done<R>)

  /** Where the worker of one slot stands. */
  datatype Phase<R> = Waiting | Holding | Ran(done: Done<R>) | Stored(done: Done<R>) | Written | Released

  datatype State<R> = State(next: nat, tokens: nat, disk: Disk, phases: seq<Phase<R>>, slots: seq<Option<R>>)

  datatype Step = Skip | Acquire | Run(i: nat) | Store(i: nat) | Write(i: nat) | Release(i: nat)

  ghost function Idle<R>(n: nat): seq<Phase<R>>
  {
    seq(n, _ => Waiting)
  }

  ghost function Init<R>(n: nat, disk: Disk): State<R>
  {
    State(0, 0, disk, Idle(n), seq(n, _ => None))
  }

  /** One step of the spawn loop or of one worker. Slots without a job are passed over. */
  ghost predicate NextBy<R(!new)>(jobs: seq<Option<Job<R>>>, cap: nat, s: State<R>, step: Step, t: State<R>)
    requires |s.phases| == |s.slots| == |jobs|
  {
    match step
    case Skip =>
      s.next < |jobs| && jobs[s.next].None? && t == s.(next := s.next + 1)
    case Acquire =>
      && s.next < |jobs| && jobs[s.next].Some? && s.tokens < cap
      && t == s.(next := s.next + 1, tokens := s.tokens + 1, phases := s.phases[s.next := Holding])
    case Run(i) =>
      && i < |jobs| && jobs[i].Some? && s.phases[i].Holding?
      && t == s.(phases := s.phases[i := Ran(jobs[i].value.body(s.disk))])
    case Store(i) =>
      && i < |jobs| && s.phases[i].Ran?
      && t == s.(disk := s.disk + s.phases[i].done.writes, phases := s.phases[i := Stored(s.phases[i].done)])
    case Write(i) =>
      && i < |jobs| && s.phases[i].Stored?
      && t == s.(slots := s.slots[i := Some(s.phases[i].done.result)], phases := s.phases[i := Written])
    case Release(i) =>
      && i < |jobs| && s.phases[i].Written? && s.tokens > 0
      && t == s.(tokens := s.tokens - 1, phases := s.phases[i := Released])
  }

  ghost predicate Next<R(!new)>(jobs: seq<Option<Job<R>>>, cap: nat, s: State<R>, t: State<R>)
    requires |s.phases| == |s.slots| == |jobs|
  {
    exists step :: NextBy(jobs, cap, s, step, t)
  }

  ghost predicate CanStep<R(!new)>(jobs: seq<Option<Job<R>>>, cap: nat, s: State<R>)
    requires |s.phases| == |s.slots| == |jobs|
  {
    exists step, t :: NextBy(jobs, cap, s, step, t)
  }

  /** The join has returned: every job was spawned and every worker is done. */
  ghost predicate Finished<R(!new)>(jobs: seq<Option<Job<R>>>, s: State<R>)
    requires |s.phases| == |jobs|
  {
    s.next == |jobs| && forall i | 0 <= i < |jobs| && jobs[i].Some? :: s.phases[i].Released?
  }

  // ----- What jobs must promise -----

  predicate SameAt(a: Disk, b: Disk, p: string)
  {
    (p in a <==> p in b) && (p in a ==> a[p] == b[p])
  }

  ghost predicate AgreeOn(a: Disk, b: Disk, ps: set<string>)
  {
    forall p | p in ps :: SameAt(a, b, p)
  }

  /** A job looks only at its own paths and writes only its writes. */
  ghost predicate Local<R(!new)>(job: Job<R>)
  {
    && (forall a, b | AgreeOn(a, b, job.looks) :: job.body(a) == job.body(b))
    && (forall a :: job.body(a).writes.Keys <= job.writes)
  }

  /** No job writes what another reads or writes. */
  ghost predicate Independent<R(!new)>(jobs: seq<Option<Job<R>>>)
  {
    && (forall i | 0 <= i < |jobs| && jobs[i].Some? :: Local(jobs[i].value))
    && (forall i, j | 0 <= i < |jobs| && 0 <= j < |jobs| && i != j && jobs[i].Some? && jobs[j].Some? ::
          jobs[i].value.writes !! jobs[j].value.looks && jobs[i].value.writes !! jobs[j].value.writes)
  }

  /** What job i would do on the disk as it was at the start. */
  ghost function Own<R>(jobs: seq<Option<Job<R>>>, disk: Disk, i: nat): Done<R>
    requires i < |jobs| && jobs[i].Some?
  {
    jobs[i].value.body(disk)
  }

  // ----- The invariant -----

  predicate InFlight<R>(ph: Phase<R>)
  {
    !ph.Waiting? && !ph.Released?
  }

  predicate HasStored<R>(ph: Phase<R>)
  {
    ph.Stored? || ph.Written? || ph.Released?
  }

  function Flying<R>(phases: seq<Phase<R>>): nat
  {
    if phases == [] then 0 else Flying(phases[..|phases| - 1]) + (if InFlight(phases[|phases| - 1]) then 1 else 0)
  }

  /** Slot i in state s: spawned in order, holding what its own job computes on the initial disk. */
  ghost predicate SlotOk<R(!new)>(jobs: seq<Option<Job<R>>>, disk: Disk, s: State<R>, i: nat)
    requires |s.phases| == |s.slots| == |jobs| && i < |jobs|
  {
    && (jobs[i].None? || i >= s.next ==> s.phases[i].Waiting?)
    && (jobs[i].Some? && i < s.next ==> !s.phases[i].Waiting?)
    && (jobs[i].Some? && s.phases[i].Ran? ==> s.phases[i].done == Own(jobs, disk, i))
    && (jobs[i].Some? && s.phases[i].Stored? ==> s.phases[i].done == Own(jobs, disk, i))
    && (s.slots[i].Some? <==> s.phases[i].Written? || s.phases[i].Released?)
    && (jobs[i].Some? && s.slots[i].Some? ==> s.slots[i].value == Own(jobs, disk, i).result)
  }

  /** The files of job i are on disk once it has stored them. */
  ghost predicate FilesOk<R(!new)>(jobs: seq<Option<Job<R>>>, disk: Disk, s: State<R>, i: nat)
    requires |s.phases| == |jobs| && i < |jobs|
  {
    jobs[i].Some? && HasStored(s.phases[i]) ==>
      forall p | p in Own(jobs, disk, i).writes :: p in s.disk && s.disk[p] == Own(jobs, disk, i).writes[p]
  }

  ghost predicate StoredPath<R(!new)>(jobs: seq<Option<Job<R>>>, disk: Disk, phases: seq<Phase<R>>, p: string)
    requires |phases| == |jobs|
  {
    exists i :: 0 <= i < |jobs| && jobs[i].Some? && HasStored(phases[i]) && p in Own(jobs, disk, i).writes
  }

  ghost predicate DiskOk<R(!new)>(jobs: seq<Option<Job<R>>>, disk: Disk, s: State<R>)
    requires |s.phases| == |jobs|
  {
    && (forall i: nat | i < |jobs| :: FilesOk(jobs, disk, s, i))
    && (forall p | !StoredPath(jobs, disk, s.phases, p) :: SameAt(s.disk, disk, p))
  }

  ghost predicate Inv<R(!new)>(jobs: seq<Option<Job<R>>>, cap: nat, disk: Disk, s: State<R>)
  {
    && |s.phases| == |s.slots| == |jobs| && s.next <= |jobs|
    && s.tokens == Flying(s.phases) && s.tokens <= cap
    && (forall i: nat | i < |jobs| :: SlotOk(jobs, disk, s, i))
    && DiskOk(jobs, disk, s)
  }

  lemma {:induction false} FlyingUpdate<R>(phases: seq<Phase<R>>, i: nat, ph: Phase<R>)
    requires i < |phases|
    ensures Flying(phases[i := ph]) ==
            Flying(phases) - (if InFlight(phases[i]) then 1 else 0) + (if InFlight(ph) then 1 else 0)
  {
    var n := |phases| - 1;
    if i == n {
      assert phases[i := ph][..n] == phases[..n];
    } else {
      FlyingUpdate(phases[..n], i, ph);
      assert phases[i := ph][..n] == phases[..n][i := ph];
    }
  }

  lemma {:induction false} NoneFlying<R>(phases: seq<Phase<R>>)
    requires forall ph <- phases :: !InFlight(ph)
    ensures Flying(phases) == 0
  {
    if phases != [] { NoneFlying(phases[..|phases| - 1]); }
  }

  /** Whatever the others have stored, the paths of job i are as they were at the start. */
  lemma AgreesOnOwnPaths<R(!new)>(jobs: seq<Option<Job<R>>>, disk: Disk, s: State<R>, i: nat)
    requires |s.phases| == |jobs| && Independent(jobs)
    requires DiskOk(jobs, disk, s) && i < |jobs| && jobs[i].Some? && !HasStored(s.phases[i])
    ensures AgreeOn(s.disk, disk, jobs[i].value.looks)
  {
    forall p | p in jobs[i].value.looks ensures SameAt(s.disk, disk, p) {
      forall j: nat | j < |jobs| && j != i && jobs[j].Some? ensures p !in Own(jobs, disk, j).writes {
        assert Local(jobs[j].value) && jobs[j].value.writes !! jobs[i].value.looks;
      }
      assert !StoredPath(jobs, disk, s.phases, p);
    }
  }

  lemma SeesInitial<R(!new)>(jobs: seq<Option<Job<R>>>, disk: Disk, s: State<R>, i: nat)
    requires |s.phases| == |jobs| && Independent(jobs)
    requires DiskOk(jobs, disk, s) && i < |jobs| && jobs[i].Some? && !HasStored(s.phases[i])
    ensures jobs[i].value.body(s.disk) == Own(jobs, disk, i)
  {
    AgreesOnOwnPaths(jobs, disk, s, i);
    assert Local(jobs[i].value);
  }

  /** A step that stores nothing keeps the disk part. */
  lemma DiskKept<R(!new)>(jobs: seq<Option<Job<R>>>, disk: Disk, s: State<R>, t: State<R>)
    requires |s.phases| == |t.phases| == |jobs| && DiskOk(jobs, disk, s) && t.disk == s.disk
    requires forall i: nat | i < |jobs| :: HasStored(s.phases[i]) == HasStored(t.phases[i])
    ensures DiskOk(jobs, disk, t)
  {
    forall i: nat | i < |jobs| ensures FilesOk(jobs, disk, t, i) {
      assert FilesOk(jobs, disk, s, i);
    }
    forall p | !StoredPath(jobs, disk, t.phases, p) ensures SameAt(t.disk, disk, p) {
      assert !StoredPath(jobs, disk, s.phases, p);
    }
  }

  /** Storing a job's own files: the files of the others are elsewhere. */
  lemma StoreKeeps<R(!new)>(jobs: seq<Option<Job<R>>>, disk: Disk, s: State<R>, t: State<R>, i: nat)
    requires |s.phases| == |t.phases| == |jobs| && i < |jobs| && jobs[i].Some? && Independent(jobs)
    requires DiskOk(jobs, disk, s) && t.disk == s.disk + Own(jobs, disk, i).writes && HasStored(t.phases[i])
    requires forall j: nat | j < |jobs| && j != i :: HasStored(s.phases[j]) == HasStored(t.phases[j])
    requires !HasStored(s.phases[i])
    ensures DiskOk(jobs, disk, t)
  {
    var own := Own(jobs, disk, i);
    forall j: nat | j < |jobs| ensures FilesOk(jobs, disk, t, j) {
      assert FilesOk(jobs, disk, s, j);
      if j != i && jobs[j].Some? {
        assert Local(jobs[i].value) && Local(jobs[j].value);
        assert own.writes.Keys <= jobs[i].value.writes && Own(jobs, disk, j).writes.Keys <= jobs[j].value.writes;
        assert jobs[i].value.writes !! jobs[j].value.writes;
      }
    }
    forall p | !StoredPath(jobs, disk, t.phases, p) ensures SameAt(t.disk, disk, p) {
      assert p !in own.writes;
      assert !StoredPath(jobs, disk, s.phases, p);
    }
  }

  lemma SlotsKept<R(!new)>(jobs: seq<Option<Job<R>>>, cap: nat, disk: Disk, s: State<R>, step: Step, t: State<R>, i: nat)
    requires Inv(jobs, cap, disk, s) && Independent(jobs) && NextBy(jobs, cap, s, step, t) && i < |jobs|
    ensures SlotOk(jobs, disk, t, i)
  {
    hide Flying, DiskOk, Independent;
    assert SlotOk(jobs, disk, s, i);
    match step
    case Skip | Acquire =>
      assert SlotOk(jobs, disk, s, s.next);
    case Run(j) =>
      if j == i { SeesInitial(jobs, disk, s, i); }
    case _ =>
  }

  lemma TokensKept<R(!new)>(jobs: seq<Option<Job<R>>>, cap: nat, disk: Disk, s: State<R>, step: Step, t: State<R>)
    requires Inv(jobs, cap, disk, s) && NextBy(jobs, cap, s, step, t)
    ensures t.tokens == Flying(t.phases) && t.tokens <= cap
  {
    hide Flying, DiskOk;
    match step
    case Skip =>
    case Acquire =>
      assert SlotOk(jobs, disk, s, s.next);
      FlyingUpdate(s.phases, s.next, Holding);
    case _ =>
      FlyingUpdate(s.phases, step.i, t.phases[step.i]);
  }

  /** MAIN: every step keeps the invariant. */
  lemma StepKeepsInv<R(!new)>(jobs: seq<Option<Job<R>>>, cap: nat, disk: Disk, s: State<R>, t: State<R>)
    requires Inv(jobs, cap, disk, s) && Independent(jobs) && Next(jobs, cap, s, t)
    ensures Inv(jobs, cap, disk, t)
  {
    hide Flying, Independent;
    var step :| NextBy(jobs, cap, s, step, t);
    TokensKept(jobs, cap, disk, s, step, t);
    forall i: nat | i < |jobs| ensures SlotOk(jobs, disk, t, i) { SlotsKept(jobs, cap, disk, s, step, t, i); }
    if step.Store? {
      assert SlotOk(jobs, disk, s, step.i);
      StoreKeeps(jobs, disk, s, t, step.i);
    } else {
      if step.Acquire? { assert SlotOk(jobs, disk, s, s.next); }
      DiskKept(jobs, disk, s, t);
    }
  }

  lemma InitInv<R(!new)>(jobs: seq<Option<Job<R>>>, cap: nat, disk: Disk)
    ensures Inv(jobs, cap, disk, Init(|jobs|, disk))
  {
    NoneFlying(Init<R>(|jobs|, disk).phases);
  }

  // ----- Progress -----

  function Rank<R>(ph: Phase<R>): nat
  {
    match ph
    case Waiting => 5
    case Holding => 4
    case Ran(_) => 3
    case Stored(_) => 2
    case Written => 1
    case Released => 0
  }

  function Ranks<R>(phases: seq<Phase<R>>): nat
  {
    if phases == [] then 0 else Ranks(phases[..|phases| - 1]) + Rank(phases[|phases| - 1])
  }

  lemma {:induction false} RanksUpdate<R>(phases: seq<Phase<R>>, i: nat, ph: Phase<R>)
    requires i < |phases|
    ensures Ranks(phases[i := ph]) == Ranks(phases) - Rank(phases[i]) + Rank(ph)
  {
    var n := |phases| - 1;
    if i == n {
      assert phases[i := ph][..n] == phases[..n];
    } else {
      RanksUpdate(phases[..n], i, ph);
      assert phases[i := ph][..n] == phases[..n][i := ph];
    }
  }

  /** The work left: what the spawn loop and the workers still have to do. */
  function Left<R>(s: State<R>): int
  {
    Ranks(s.phases) + |s.phases| - s.next
  }

  /** Every step uses up some of the work. */
  lemma StepDecreases<R(!new)>(jobs: seq<Option<Job<R>>>, cap: nat, disk: Disk, s: State<R>, t: State<R>)
    requires Inv(jobs, cap, disk, s) && Next(jobs, cap, s, t)
    ensures Left(t) < Left(s)
  {
    hide Flying, DiskOk;
    var step :| NextBy(jobs, cap, s, step, t);
    match step
    case Skip =>
    case Acquire =>
      assert SlotOk(jobs, disk, s, s.next);
      RanksUpdate(s.phases, s.next, Holding);
    case _ =>
      RanksUpdate(s.phases, step.i, t.phases[step.i]);
  }

  ghost function After<R>(jobs: seq<Option<Job<R>>>, s: State<R>, step: Step): State<R>
    requires |s.phases| == |s.slots| == |jobs|
  {
    match step
    case Skip => s.(next := s.next + 1)
    case Acquire => if s.next < |jobs| then s.(next := s.next + 1, tokens := s.tokens + 1, phases := s.phases[s.next := Holding]) else s
    case Run(i) => if i < |jobs| && jobs[i].Some? then s.(phases := s.phases[i := Ran(jobs[i].value.body(s.disk))]) else s
    case Store(i) =>
      if i < |jobs| && s.phases[i].Ran?
      then s.(disk := s.disk + s.phases[i].done.writes, phases := s.phases[i := Stored(s.phases[i].done)]) else s
    case Write(i) =>
      if i < |jobs| && s.phases[i].Stored?
      then s.(slots := s.slots[i := Some(s.phases[i].done.result)], phases := s.phases[i := Written]) else s
    case Release(i) => if i < |jobs| && s.tokens > 0 then s.(tokens := s.tokens - 1, phases := s.phases[i := Released]) else s
  }

  /** MAIN: with room for one worker nothing gets stuck: before the join returns, some step is possible. */
  lemma NeverStuck<R(!new)>(jobs: seq<Option<Job<R>>>, cap: nat, disk: Disk, s: State<R>)
    requires Inv(jobs, cap, disk, s) && cap >= 1 && !Finished(jobs, s)
    ensures CanStep(jobs, cap, s)
  {
    hide DiskOk;
    var step: Step;
    if i: nat :| i < |jobs| && InFlight(s.phases[i]) {
      assert SlotOk(jobs, disk, s, i);
      step := match s.phases[i] { case Holding => Run(i) case Ran(_) => Store(i) case Stored(_) => Write(i) case _ => Release(i) };
      FlyingUpdate(s.phases, i, Released);
    } else {
      NoneFlying(s.phases);
      forall i: nat | i < |jobs| && jobs[i].Some? && i < s.next ensures s.phases[i].Released? {
        assert SlotOk(jobs, disk, s, i);
      }
      assert s.next < |jobs|;
      step := if jobs[s.next].Some? then Acquire else Skip;
    }
    assert NextBy(jobs, cap, s, step, After(jobs, s, step));
  }

  // ----- Whole runs -----

  ghost predicate Shaped<R(!new)>(jobs: seq<Option<Job<R>>>, run: seq<State<R>>)
  {
    forall k | 0 <= k < |run| :: |run[k].phases| == |run[k].slots| == |jobs|
  }

  /** A run: from the start, one step after another, in any order the steps allow. */
  ghost predicate Behaviour<R(!new)>(jobs: seq<Option<Job<R>>>, cap: nat, disk: Disk, run: seq<State<R>>)
  {
    && |run| > 0 && run[0] == Init(|jobs|, disk) && Shaped(jobs, run)
    && forall k | 0 < k < |run| :: Next(jobs, cap, run[k - 1], run[k])
  }

  /** MAIN: in every state of every run, at most cap workers are in flight and each slot is its own worker's. */
  lemma {:induction false} RunKeepsInv<R(!new)>(jobs: seq<Option<Job<R>>>, cap: nat, disk: Disk, run: seq<State<R>>, k: nat)
    requires Independent(jobs) && Behaviour(jobs, cap, disk, run) && k < |run|
    ensures Inv(jobs, cap, disk, run[k]) && Flying(run[k].phases) <= cap
  {
    if k == 0 {
      InitInv(jobs, cap, disk);
    } else {
      RunKeepsInv(jobs, cap, disk, run, k - 1);
      StepKeepsInv(jobs, cap, disk, run[k - 1], run[k]);
    }
  }

  /** MAIN: a slot once filled is never written again. */
  lemma {:induction false} SlotsWrittenOnce<R(!new)>(jobs: seq<Option<Job<R>>>, cap: nat, disk: Disk, run: seq<State<R>>, j: nat, k: nat, i: nat)
    requires Independent(jobs) && Behaviour(jobs, cap, disk, run) && j <= k < |run| && i < |jobs|
    requires run[j].slots[i].Some?
    ensures run[k].slots[i] == run[j].slots[i]
    decreases k - j
  {
    if j < k {
      SlotsWrittenOnce(jobs, cap, disk, run, j, k - 1, i);
      RunKeepsInv(jobs, cap, disk, run, k - 1);
      assert SlotOk(jobs, disk, run[k - 1], i);
      var step :| NextBy(jobs, cap, run[k - 1], step, run[k]);
    }
  }

  lemma {:induction false} WaitingRanks<R>(n: nat)
    ensures Ranks(Idle<R>(n)) == 5 * n
  {
    if n > 0 {
      WaitingRanks<R>(n - 1);
      assert Idle<R>(n)[..n - 1] == Idle<R>(n - 1);
    }
  }

  lemma {:induction false} LeftAfter<R(!new)>(jobs: seq<Option<Job<R>>>, cap: nat, disk: Disk, run: seq<State<R>>, k: nat)
    requires Independent(jobs) && Behaviour(jobs, cap, disk, run) && k < |run|
    ensures Left(run[k]) + k <= 6 * |jobs|
  {
    if k == 0 {
      WaitingRanks<R>(|jobs|);
    } else {
      LeftAfter(jobs, cap, disk, run, k - 1);
      RunKeepsInv(jobs, cap, disk, run, k - 1);
      StepDecreases(jobs, cap, disk, run[k - 1], run[k]);
    }
  }

  /** MAIN: no run is longer than six steps a job, and one that cannot go on has joined. */
  lemma RunsEnd<R(!new)>(jobs: seq<Option<Job<R>>>, cap: nat, disk: Disk, run: seq<State<R>>)
    requires Independent(jobs) && Behaviour(jobs, cap, disk, run) && cap >= 1
    ensures |run| <= 6 * |jobs| + 1
    ensures CanStep(jobs, cap, run[|run| - 1]) || Finished(jobs, run[|run| - 1])
  {
    var k := |run| - 1;
    LeftAfter(jobs, cap, disk, run, k);
    RunKeepsInv(jobs, cap, disk, run, k);
    if !Finished(jobs, run[k]) { NeverStuck(jobs, cap, disk, run[k]); }
  }

  // ----- The serial twin -----

  /** The jobs one after the other: the disk after the first n. */
  ghost function SerialDisk<R>(jobs: seq<Option<Job<R>>>, disk: Disk, n: nat): Disk
    requires n <= |jobs|
  {
    if n == 0 then disk
    else
      var before := SerialDisk(jobs, disk, n - 1);
      if jobs[n - 1].Some? then before + jobs[n - 1].value.body(before).writes else before
  }

  /** The result a serial loop stores in slot i. */
  ghost function SerialSlot<R>(jobs: seq<Option<Job<R>>>, disk: Disk, i: nat): Option<R>
    requires i < |jobs|
  {
    if jobs[i].Some? then Some(jobs[i].value.body(SerialDisk(jobs, disk, i)).result) else None
  }

  /** The serial disk, too, is a disk on which exactly the first n jobs have stored their files. */
  ghost function SerialState<R>(jobs: seq<Option<Job<R>>>, disk: Disk, n: nat): State<R>
    requires n <= |jobs|
  {
    State(n, 0, SerialDisk(jobs, disk, n), seq(|jobs|, i => if i < n then Released else Waiting), seq(|jobs|, _ => None))
  }

  lemma {:induction false} SerialDiskOk<R(!new)>(jobs: seq<Option<Job<R>>>, disk: Disk, n: nat)
    requires n <= |jobs| && Independent(jobs)
    ensures DiskOk(jobs, disk, SerialState(jobs, disk, n))
  {
    if n > 0 {
      var s, t := SerialState(jobs, disk, n - 1), SerialState(jobs, disk, n);
      SerialDiskOk(jobs, disk, n - 1);
      if jobs[n - 1].Some? {
        SeesInitial(jobs, disk, s, n - 1);
        StoreKeeps(jobs, disk, s, t, n - 1);
      } else {
        forall i: nat | i < |jobs| ensures FilesOk(jobs, disk, t, i) { assert FilesOk(jobs, disk, s, i); }
        forall p | !StoredPath(jobs, disk, t.phases, p) ensures SameAt(t.disk, disk, p) {
          assert !StoredPath(jobs, disk, s.phases, p);
        }
      }
    }
  }

  /** Two disks on which the same jobs have stored their files are the same. */
  lemma DiskOkDetermines<R(!new)>(jobs: seq<Option<Job<R>>>, disk: Disk, s: State<R>, t: State<R>)
    requires |s.phases| == |t.phases| == |jobs| && DiskOk(jobs, disk, s) && DiskOk(jobs, disk, t)
    requires forall i: nat | i < |jobs| && jobs[i].Some? :: HasStored(s.phases[i]) == HasStored(t.phases[i])
    ensures s.disk == t.disk
  {
    forall p: string ensures SameAt(s.disk, t.disk, p) {
      if StoredPath(jobs, disk, s.phases, p) {
        var j: nat :| j < |jobs| && jobs[j].Some? && HasStored(s.phases[j]) && p in Own(jobs, disk, j).writes;
        assert FilesOk(jobs, disk, s, j) && FilesOk(jobs, disk, t, j);
      } else {
        assert !StoredPath(jobs, disk, t.phases, p);
        assert SameAt(s.disk, disk, p) && SameAt(t.disk, disk, p);
      }
    }
    SameEverywhere(s.disk, t.disk);
  }

  lemma SameEverywhere(a: Disk, b: Disk)
    requires forall p: string :: SameAt(a, b, p)
    ensures a == b
  {
    assert forall p: string :: p in a <==> p in b by {
      forall p: string ensures p in a <==> p in b { assert SameAt(a, b, p); }
    }
    assert a.Keys == b.Keys;
    forall p | p in a ensures a[p] == b[p] { assert SameAt(a, b, p); }
  }

  /** In isolation or in a row, an independent job does the same. */
  lemma SerialIsOwn<R(!new)>(jobs: seq<Option<Job<R>>>, disk: Disk, i: nat)
    requires Independent(jobs) && i < |jobs| && jobs[i].Some?
    ensures jobs[i].value.body(SerialDisk(jobs, disk, i)) == Own(jobs, disk, i)
  {
    SerialDiskOk(jobs, disk, i);
    SeesInitial(jobs, disk, SerialState(jobs, disk, i), i);
  }

  /** MAIN: every run that joins leaves the slots and the disk of the serial loop. */
  lemma EveryScheduleIsSerial<R(!new)>(jobs: seq<Option<Job<R>>>, cap: nat, disk: Disk, run: seq<State<R>>)
    requires Independent(jobs) && Behaviour(jobs, cap, disk, run) && Finished(jobs, run[|run| - 1])
    ensures run[|run| - 1].disk == SerialDisk(jobs, disk, |jobs|)
    ensures forall i: nat | i < |jobs| :: run[|run| - 1].slots[i] == SerialSlot(jobs, disk, i)
  {
    var last := run[|run| - 1];
    RunKeepsInv(jobs, cap, disk, run, |run| - 1);
    SerialDiskOk(jobs, disk, |jobs|);
    DiskOkDetermines(jobs, disk, last, SerialState(jobs, disk, |jobs|));
    forall i: nat | i < |jobs| ensures last.slots[i] == SerialSlot(jobs, disk, i) {
      assert SlotOk(jobs, disk, last, i);
      if jobs[i].Some? { SerialIsOwn(jobs, disk, i); }
    }
  }

}
