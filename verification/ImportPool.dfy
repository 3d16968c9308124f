/** The worker pool of drizzleimport (client/drizzleimport.cc) as interleaved steps.

    One step is one access to the mutex, the counter or the thread library by one thread.
    A wait on the condition variable may end at any time (its three-second limit, a signal or
    a spurious wake-up), so signals need no state of their own. */
module ImportPool {

  /** A worker thread: connecting to the server; refused, and about to end the process; loading its
      table, taking the mutex, holding it before and after `counter--`, gone, or gone without
      `counter--` because the library gave it no connection to begin with. */
  datatype Phase = Connecting | Refused | Loading | Locking | Holding | Decremented | Finished | Lost

  datatype Worker = Worker(table: nat, phase: Phase)

  /** Where the main thread stands. */
  datatype MainPc =
    | NextTable     // at the head of the loop over the tables
    | Lock          // about to take the mutex
    | Check         // holding it, comparing counter with opt_use_threads
    | Wait          // in pthread_cond_timedwait
    | Counted       // holding it, after counter++
    | Create        // about to create the thread
    | FailLock      // the thread could not be created
    | FailCount     // holding the mutex, before counter--
    | FailUnlock    // holding it, after counter--
    | FinalLock     // no tables left
    | FinalCheck    // holding the mutex, comparing counter with 0
    | FinalWait
    | FinalUnlock   // holding it, counter was 0
    | Done

  datatype Owner = Free | ByMain | ByWorker(i: nat)

  datatype State = State(pc: MainPc, mutex: Owner, counter: int, table: nat, workers: seq<Worker>, failed: set<nat>,
                         ignoreErrors: bool, exited: bool)

  datatype Config = Config(threads: nat, tables: nat, ignoreErrors: bool)

  /** How connecting or loading goes: it works; the server refuses; or drizzle_create or
      drizzle_con_add_tcp gives no handle. */
  datatype How = Works | Fails | NoHandle

  /** `ok` is the outcome of creating a thread. */
  datatype Step = MainStep(ok: bool) | WorkerStep(i: nat, how: How)

  function Initial(c: Config): State { State(NextTable, Free, 0, 0, [], {}, c.ignoreErrors, false) }

  predicate Takes(pc: MainPc) {
    pc.Lock? || pc.Wait? || pc.FailLock? || pc.FinalLock? || pc.FinalWait?
  }

  predicate Enabled(s: State, step: Step) {
    !s.exited &&
    match step
    case MainStep(_) => !s.pc.Done? && (Takes(s.pc) ==> s.mutex.Free?)
    case WorkerStep(i, _) =>
      && i < |s.workers|
      && match s.workers[i].phase
         case Locking => s.mutex.Free?
         case Finished => false
         case Lost => false
         case _ => true
  }

  function MainNext(c: Config, s: State, ok: bool): State {
    match s.pc
    case NextTable => s.(pc := if s.table < c.tables then Lock else FinalLock)
    case Lock => s.(pc := Check, mutex := ByMain)
    case Check => if s.counter == c.threads then s.(pc := Wait, mutex := Free)
                  else s.(pc := Counted, counter := s.counter + 1)
    case Wait => s.(pc := Check, mutex := ByMain)
    case Counted => s.(pc := Create, mutex := Free)
    case Create => if ok then s.(pc := NextTable, table := s.table + 1,
                                 workers := s.workers + [Worker(s.table, Connecting)])
                   else s.(pc := FailLock)
    case FailLock => s.(pc := FailCount, mutex := ByMain)
    case FailCount => s.(pc := FailUnlock, counter := s.counter - 1)
    case FailUnlock => s.(pc := NextTable, mutex := Free, table := s.table + 1, failed := s.failed + {s.table})
    case FinalLock => s.(pc := FinalCheck, mutex := ByMain)
    case FinalCheck => if s.counter != 0 then s.(pc := FinalWait, mutex := Free) else s.(pc := FinalUnlock)
    case FinalWait => s.(pc := FinalCheck, mutex := ByMain)
    case FinalUnlock => s.(pc := Done, mutex := Free)
    case Done => s
  }

  /** A refused connection switches ignoring errors off, for everybody, and then ends the process; so
      does an error in loading when errors are not ignored. */
  function WorkerNext(s: State, i: nat, how: How): State
    requires i < |s.workers|
  {
    var w := s.workers[i];
    match w.phase
    case Connecting =>
      (match how
       case Works => s.(workers := s.workers[i := w.(phase := Loading)])
       case Fails => s.(workers := s.workers[i := w.(phase := Refused)], ignoreErrors := false)
       case NoHandle => s.(workers := s.workers[i := w.(phase := Lost)]))
    case Refused => s.(exited := true)
    case Loading =>
      if how.Works? || s.ignoreErrors then s.(workers := s.workers[i := w.(phase := Locking)]) else s.(exited := true)
    case Locking => s.(workers := s.workers[i := w.(phase := Holding)], mutex := ByWorker(i))
    case Holding => s.(workers := s.workers[i := w.(phase := Decremented)], counter := s.counter - 1)
    case Decremented => s.(workers := s.workers[i := w.(phase := Finished)], mutex := Free)
    case Finished => s
    case Lost => s
  }

  function Next(c: Config, s: State, step: Step): State
    requires Enabled(s, step)
  {
    match step
    case MainStep(ok) => MainNext(c, s, ok)
    case WorkerStep(i, how) => WorkerNext(s, i, how)
  }

  /** The steps lead from `s` to `t`, each enabled in its turn. */
  ghost predicate Runs(c: Config, s: State, steps: seq<Step>, t: State)
    decreases |steps|
  {
    if steps == [] then s == t
    else Enabled(s, steps[0]) && Runs(c, Next(c, s, steps[0]), steps[1..], t)
  }

  ghost predicate Reachable(c: Config, s: State) {
    exists steps :: Runs(c, Initial(c), steps, s)
  }

  // -------------------------------------------------------------------------
  // The invariant.

  /** A worker that the counter still counts. */
  function Weight(p: Phase): nat {
    match p
    case Decremented => 0
    case Finished => 0
    case _ => 1
  }

  predicate Alive(p: Phase) { !p.Finished? && !p.Lost? }

  function Total(ws: seq<Worker>, f: Phase -> nat): nat {
    if ws == [] then 0 else Total(ws[..|ws| - 1], f) + f(ws[|ws| - 1].phase)
  }

  function Counts(ws: seq<Worker>): nat { Total(ws, Weight) }

  function Live(ws: seq<Worker>): nat { Total(ws, p => if Alive(p) then 1 else 0) }

  lemma {:induction false} TotalUpdate(ws: seq<Worker>, i: nat, w: Worker, f: Phase -> nat)
    requires i < |ws|
    ensures Total(ws[i := w], f) == Total(ws, f) - f(ws[i].phase) + f(w.phase)
  {
    var ws' := ws[i := w];
    if i == |ws| - 1 {
      assert ws'[..|ws| - 1] == ws[..|ws| - 1];
    } else {
      assert ws'[..|ws| - 1] == ws[..|ws| - 1][i := w];
      TotalUpdate(ws[..|ws| - 1], i, w, f);
    }
  }

  /** The main thread has counted a worker that does not exist. */
  function Pending(pc: MainPc): nat {
    if pc.Counted? || pc.Create? || pc.FailLock? || pc.FailCount? then 1 else 0
  }

  predicate MainHolds(pc: MainPc) {
    pc.Check? || pc.Counted? || pc.FailCount? || pc.FailUnlock? || pc.FinalCheck? || pc.FinalUnlock?
  }

  predicate Holds(p: Phase) { p.Holding? || p.Decremented? }

  /** A worker has given its place back but not yet the mutex. */
  predicate Leaving(s: State) {
    s.mutex.ByWorker? && s.mutex.i < |s.workers| && s.workers[s.mutex.i].phase.Decremented?
  }

  ghost predicate CountInv(c: Config, s: State) {
    && s.counter == Counts(s.workers) + Pending(s.pc)
    && s.counter + (if Leaving(s) then 1 else 0) <= c.threads
    && (s.pc.FinalUnlock? || s.pc.Done? ==> s.counter == 0)
    && (s.exited ==> s.counter > 0)
  }

  ghost predicate MutexInv(s: State) {
    && (MainHolds(s.pc) <==> s.mutex.ByMain?)
    && (s.mutex.ByWorker? ==> s.mutex.i < |s.workers|)
    && (s.pc.Done? ==> s.mutex.Free?)
    && forall i :: 0 <= i < |s.workers| ==> (Holds(s.workers[i].phase) <==> s.mutex == ByWorker(i))
  }

  ghost predicate Served(t: nat, ws: seq<Worker>) {
    exists i :: 0 <= i < |ws| && ws[i].table == t
  }

  predicate FinalPart(pc: MainPc) {
    pc.FinalLock? || pc.FinalCheck? || pc.FinalWait? || pc.FinalUnlock? || pc.Done?
  }

  /** Every table before the current one went to exactly one worker, or its thread could not be
      created. */
  ghost predicate TableInv(c: Config, s: State) {
    && s.table <= c.tables
    && (FinalPart(s.pc) ==> s.table == c.tables)
    && (!FinalPart(s.pc) && !s.pc.NextTable? ==> s.table < c.tables)
    && (forall i, j :: 0 <= i < j < |s.workers| ==> s.workers[i].table != s.workers[j].table)
    && (forall t: nat :: t < s.table <==> (t in s.failed || Served(t, s.workers)))
    && (forall i :: 0 <= i < |s.workers| ==> s.workers[i].table !in s.failed)
  }

  ghost predicate Inv(c: Config, s: State) {
    CountInv(c, s) && MutexInv(s) && TableInv(c, s)
  }

  /** Every step of every thread keeps the invariant. */
  lemma StepKeepsInv(c: Config, s: State, step: Step)
    requires Inv(c, s) && Enabled(s, step)
    ensures Inv(c, Next(c, s, step))
  {
    match step
    case MainStep(ok) =>
      MainKeepsCounts(c, s, ok);
      MainKeepsTables(c, s, ok);
    case WorkerStep(i, how) =>
      WorkerKeepsCounts(c, s, i, how);
      WorkerKeepsTables(c, s, i, how);
  }

  lemma MainKeepsCounts(c: Config, s: State, ok: bool)
    requires CountInv(c, s) && MutexInv(s) && Enabled(s, MainStep(ok))
    ensures CountInv(c, MainNext(c, s, ok)) && MutexInv(MainNext(c, s, ok))
  {
    if s.pc.Create? && ok {
      CreateKeepsCounts(c, s);
    } else {
      assert MainNext(c, s, ok).workers == s.workers;
    }
  }

  lemma CreateKeepsCounts(c: Config, s: State)
    requires CountInv(c, s) && MutexInv(s) && s.pc.Create?
    ensures CountInv(c, MainNext(c, s, true)) && MutexInv(MainNext(c, s, true))
  {
    CreateKeepsMutex(c, s);
    CreateKeepsCount(c, s);
  }

  lemma CreateKeepsMutex(c: Config, s: State)
    requires MutexInv(s) && s.pc.Create?
    ensures MutexInv(MainNext(c, s, true))
  {
    var s' := MainNext(c, s, true);
    forall i | 0 <= i < |s'.workers|
      ensures Holds(s'.workers[i].phase) <==> s'.mutex == ByWorker(i)
    {
      if i < |s.workers| {
        assert s'.workers[i] == s.workers[i];
      }
    }
  }

  lemma CreateKeepsCount(c: Config, s: State)
    requires CountInv(c, s) && MutexInv(s) && s.pc.Create?
    ensures CountInv(c, MainNext(c, s, true))
  {
    TotalAdd(s.workers, Worker(s.table, Connecting), Weight);
    assert Leaving(MainNext(c, s, true)) == Leaving(s);
  }

  lemma TotalAdd(ws: seq<Worker>, w: Worker, f: Phase -> nat)
    ensures Total(ws + [w], f) == Total(ws, f) + f(w.phase)
  {
    assert (ws + [w])[..|ws|] == ws;
  }

  lemma MainKeepsTables(c: Config, s: State, ok: bool)
    requires TableInv(c, s)
    ensures TableInv(c, MainNext(c, s, ok))
  {
    var s' := MainNext(c, s, ok);
    if s.pc.Create? && ok {
      forall t: nat
        ensures Served(t, s'.workers) <==> Served(t, s.workers) || t == s.table
      {
        if t == s.table { assert s'.workers[|s.workers|].table == t; }
        if i :| 0 <= i < |s.workers| && s.workers[i].table == t { assert s'.workers[i].table == t; }
      }
      assert forall i :: 0 <= i < |s.workers| ==> Served(s.workers[i].table, s.workers);
    } else if s.pc.FailUnlock? {
      assert forall i :: 0 <= i < |s.workers| ==> Served(s.workers[i].table, s.workers);
    }
  }

  lemma WorkerKeepsCounts(c: Config, s: State, i: nat, how: How)
    requires CountInv(c, s) && MutexInv(s) && Enabled(s, WorkerStep(i, how))
    ensures CountInv(c, WorkerNext(s, i, how)) && MutexInv(WorkerNext(s, i, how))
  {
    WorkerKeepsCount(c, s, i, how);
    WorkerKeepsMutex(c, s, i, how);
  }

  lemma WorkerKeepsCount(c: Config, s: State, i: nat, how: How)
    requires CountInv(c, s) && MutexInv(s) && Enabled(s, WorkerStep(i, how))
    ensures CountInv(c, WorkerNext(s, i, how))
  {
    TotalUpdate(s.workers, i, WorkerNext(s, i, how).workers[i], Weight);
    WeightAtMostCounts(s.workers, i);
  }

  lemma WorkerKeepsMutex(c: Config, s: State, i: nat, how: How)
    requires CountInv(c, s) && MutexInv(s) && Enabled(s, WorkerStep(i, how))
    ensures MutexInv(WorkerNext(s, i, how))
  {
    WeightAtMostCounts(s.workers, i);
    var s' := WorkerNext(s, i, how);
    forall j | 0 <= j < |s.workers|
      ensures Holds(s'.workers[j].phase) <==> s'.mutex == ByWorker(j)
    {
      assert Holds(s.workers[j].phase) <==> s.mutex == ByWorker(j);
    }
  }

  lemma WorkerKeepsTables(c: Config, s: State, i: nat, how: How)
    requires TableInv(c, s) && Enabled(s, WorkerStep(i, how))
    ensures TableInv(c, WorkerNext(s, i, how))
  {
    var s' := WorkerNext(s, i, how);
    forall t: nat
      ensures Served(t, s'.workers) <==> Served(t, s.workers)
    {
      if j :| 0 <= j < |s.workers| && s.workers[j].table == t { assert s'.workers[j].table == t; }
      if j :| 0 <= j < |s'.workers| && s'.workers[j].table == t { assert s.workers[j].table == t; }
    }
  }

  lemma {:induction false} RunsKeepInv(c: Config, s: State, steps: seq<Step>, t: State)
    requires Inv(c, s) && Runs(c, s, steps, t)
    ensures Inv(c, t)
    decreases |steps|
  {
    if steps != [] {
      StepKeepsInv(c, s, steps[0]);
      RunsKeepInv(c, Next(c, s, steps[0]), steps[1..], t);
    }
  }

  lemma ReachableInv(c: Config, s: State)
    requires Reachable(c, s)
    ensures Inv(c, s)
  {
    var steps :| Runs(c, Initial(c), steps, s);
    RunsKeepInv(c, Initial(c), steps, s);
  }

  // -------------------------------------------------------------------------
  // What holds in every reachable state.

  /** No more workers than opt_use_threads are ever alive, counting those that have given their
      place back but not yet the mutex. */
  lemma NeverTooManyWorkers(c: Config, s: State)
    requires Reachable(c, s)
    ensures Live(s.workers) <= c.threads
  {
    ReachableInv(c, s);
    LiveCounted(s.workers, if Leaving(s) then s.mutex.i else |s.workers|);
  }

  /** At most the given worker is alive without being counted. */
  lemma {:induction false} LiveCounted(ws: seq<Worker>, leaving: nat)
    requires forall i :: 0 <= i < |ws| && ws[i].phase.Decremented? ==> i == leaving
    ensures Live(ws) <= Counts(ws) + if leaving < |ws| then 1 else 0
  {
    if ws != [] {
      LiveCounted(ws[..|ws| - 1], leaving);
    }
  }

  /** When the final wait is over every table has been loaded, unless its thread could not be
      created, and no worker is left behind. */
  lemma DoneMeansAllFinished(c: Config, s: State)
    requires Reachable(c, s) && (s.pc.FinalUnlock? || s.pc.Done?)
    ensures forall i :: 0 <= i < |s.workers| ==> s.workers[i].phase.Finished?
    ensures forall t: nat :: t < c.tables ==> (t in s.failed) != Served(t, s.workers)
    ensures forall i, j :: 0 <= i < j < |s.workers| ==> s.workers[i].table != s.workers[j].table
  {
    ReachableInv(c, s);
    forall i | 0 <= i < |s.workers|
      ensures s.workers[i].phase.Finished?
    {
      WeightAtMostCounts(s.workers, i);
      assert Holds(s.workers[i].phase) <==> s.mutex == ByWorker(i);
    }
  }

  lemma {:induction false} WeightAtMostCounts(ws: seq<Worker>, i: nat)
    requires i < |ws|
    ensures Weight(ws[i].phase) <= Counts(ws)
  {
    if i < |ws| - 1 {
      WeightAtMostCounts(ws[..|ws| - 1], i);
    }
  }

  // -------------------------------------------------------------------------
  // Workers that never give their place back.

  /** Without a connection a worker is gone, or about to end the process. */
  predicate Doomed(p: Phase) { p.Lost? || p.Refused? }

  lemma DoomedStays(c: Config, s: State, step: Step, i: nat)
    requires Enabled(s, step) && i < |s.workers| && Doomed(s.workers[i].phase)
    ensures i < |Next(c, s, step).workers| && Next(c, s, step).workers[i].phase == s.workers[i].phase
  {
  }

  /** A worker without a connection stays so, and the main thread never gets past its final wait: the
      process can only be ended by exit, if at all. */
  lemma {:induction false} LostWorkerBlocksForever(c: Config, s: State, steps: seq<Step>, t: State, i: nat)
    requires Inv(c, s) && Runs(c, s, steps, t)
    requires i < |s.workers| && Doomed(s.workers[i].phase)
    ensures i < |t.workers| && t.workers[i].phase == s.workers[i].phase
    ensures !t.pc.FinalUnlock? && !t.pc.Done?
    decreases |steps|
  {
    if steps == [] {
      WeightAtMostCounts(s.workers, i);
    } else {
      StepKeepsInv(c, s, steps[0]);
      DoomedStays(c, s, steps[0], i);
      LostWorkerBlocksForever(c, Next(c, s, steps[0]), steps[1..], t, i);
    }
  }

  ghost predicate SomeDoomed(s: State) {
    exists i :: 0 <= i < |s.workers| && Doomed(s.workers[i].phase)
  }

  ghost predicate SomeAlive(s: State) {
    exists i :: 0 <= i < |s.workers| && Alive(s.workers[i].phase)
  }

  /** The main thread can come to its end. */
  ghost predicate CanFinish(c: Config, s: State) {
    exists steps, t :: Runs(c, s, steps, t) && t.pc.Done?
  }

  /** How far a worker is from being gone. */
  function Left(p: Phase): nat {
    match p
    case Connecting => 5
    case Loading => 4
    case Locking => 3
    case Holding => 2
    case Decremented => 1
    case _ => 0
  }

  /** How far the main thread is from the next table; it waits for as long as workers are alive. */
  function MainLeft(pc: MainPc, alive: bool): nat {
    match pc
    case NextTable => 8
    case Lock => 7
    case FinalLock => 7
    case Wait => if alive then 4 else 7
    case FinalWait => if alive then 4 else 7
    case Check => 6
    case FinalCheck => 6
    case Counted => 5
    case Create => 4
    case FailLock => 3
    case FailCount => 2
    case FailUnlock => 1
    case FinalUnlock => 1
    case Done => 0
  }

  /** A schedule to the end: whoever holds the mutex goes on, then the workers, then the main thread. */
  lemma {:induction false} Drain(c: Config, s: State)
    requires Inv(c, s) && !s.exited && !SomeDoomed(s) && 1 <= c.threads
    ensures CanFinish(c, s)
    decreases c.tables - s.table, Total(s.workers, Left), MainLeft(s.pc, SomeAlive(s))
  {
    if s.pc.Done? {
      assert Runs(c, s, [], s);
    } else if s.mutex.ByWorker? || (s.mutex.Free? && SomeAlive(s)) {
      var i := SomeWorker(s);
      StepKeepsInv(c, s, WorkerStep(i, Works));
      WorkerProgress(s, i);
      Drain(c, WorkerNext(s, i, Works));
      ThenFinish(c, s, WorkerStep(i, Works));
    } else {
      StepKeepsInv(c, s, MainStep(true));
      MainProgress(c, s);
      Drain(c, MainNext(c, s, true));
      ThenFinish(c, s, MainStep(true));
    }
  }

  lemma SomeWorker(s: State) returns (i: nat)
    requires MutexInv(s) && !s.exited && (s.mutex.ByWorker? || (s.mutex.Free? && SomeAlive(s)))
    ensures i < |s.workers| && Enabled(s, WorkerStep(i, Works))
  {
    if s.mutex.ByWorker? {
      i := s.mutex.i;
    } else {
      i :| i < |s.workers| && Alive(s.workers[i].phase);
    }
  }

  lemma WorkerProgress(s: State, i: nat)
    requires Enabled(s, WorkerStep(i, Works)) && !s.workers[i].phase.Refused?
    ensures
      var s' := WorkerNext(s, i, Works);
      && !s'.exited && s'.table == s.table && s'.pc == s.pc && LostCount(s'.workers) == LostCount(s.workers)
      && Total(s'.workers, Left) < Total(s.workers, Left) && (SomeDoomed(s') ==> SomeDoomed(s))
  {
    TotalUpdate(s.workers, i, WorkerNext(s, i, Works).workers[i], Left);
    TotalUpdate(s.workers, i, WorkerNext(s, i, Works).workers[i], LostOne);
    assert SomeDoomed(WorkerNext(s, i, Works)) ==> SomeDoomed(s) by {
      if j :| 0 <= j < |s.workers| && Doomed(WorkerNext(s, i, Works).workers[j].phase) {
        assert Doomed(s.workers[j].phase);
      }
    }
  }

  lemma MainProgress(c: Config, s: State)
    requires Inv(c, s) && !SomeDoomed(s) && 1 <= c.threads && Enabled(s, MainStep(true))
    requires s.mutex.ByMain? || !SomeAlive(s)
    ensures
      var s' := MainNext(c, s, true);
      && !SomeDoomed(s') && s'.exited == s.exited
      && (s'.table > s.table
          || (s'.table == s.table && s'.workers == s.workers
              && MainLeft(s'.pc, SomeAlive(s')) < MainLeft(s.pc, SomeAlive(s))))
  {
    if s.pc.Create? {
      NewIsNotDoomed(c, s);
    } else {
      assert MainNext(c, s, true).workers == s.workers;
    }
    if !SomeAlive(s) {
      NoneCounted(s.workers);
    }
  }

  lemma NewIsNotDoomed(c: Config, s: State)
    requires !SomeDoomed(s) && s.pc.Create?
    ensures !SomeDoomed(MainNext(c, s, true))
  {
    var s' := MainNext(c, s, true);
    forall i | 0 <= i < |s'.workers|
      ensures !Doomed(s'.workers[i].phase)
    {
      assert i < |s.workers| ==> s'.workers[i] == s.workers[i];
    }
  }

  lemma ThenFinish(c: Config, s: State, step: Step)
    requires Enabled(s, step) && CanFinish(c, Next(c, s, step))
    ensures CanFinish(c, s)
  {
    var steps, t :| Runs(c, Next(c, s, step), steps, t) && t.pc.Done?;
    assert ([step] + steps)[1..] == steps;
    assert Runs(c, s, [step] + steps, t);
  }

  lemma {:induction false} NoneCounted(ws: seq<Worker>)
    requires forall i :: 0 <= i < |ws| ==> ws[i].phase.Finished?
    ensures Counts(ws) == 0
  {
    if ws != [] {
      NoneCounted(ws[..|ws| - 1]);
    }
  }

  /** From any reachable state the main thread can still come to its end if and only if the process
      has not exited and no worker is without a connection. */
  lemma CanFinishIff(c: Config, s: State)
    requires Reachable(c, s) && 1 <= c.threads
    ensures CanFinish(c, s) <==> !s.exited && !SomeDoomed(s)
  {
    ReachableInv(c, s);
    if SomeDoomed(s) {
      var i :| 0 <= i < |s.workers| && Doomed(s.workers[i].phase);
      forall steps, t | Runs(c, s, steps, t)
        ensures !t.pc.Done?
      {
        LostWorkerBlocksForever(c, s, steps, t, i);
      }
    } else if !s.exited {
      Drain(c, s);
    }
  }

  // -------------------------------------------------------------------------
  // When the process can end at all.

  /** The main thread comes to its end, or a worker ends the process by exit. */
  ghost predicate CanEnd(c: Config, s: State) {
    exists steps, t :: Runs(c, s, steps, t) && (t.pc.Done? || t.exited)
  }

  function LostOne(p: Phase): nat { if p.Lost? then 1 else 0 }

  function LostCount(ws: seq<Worker>): nat { Total(ws, LostOne) }

  /** A worker in this phase can end the process. */
  predicate MayExit(s: State, p: Phase) { p.Connecting? || p.Refused? || (p.Loading? && !s.ignoreErrors) }

  ghost predicate SomeMayExit(s: State) {
    exists i :: 0 <= i < |s.workers| && MayExit(s, s.workers[i].phase)
  }

  predicate CreateFailed(pc: MainPc) { pc.FailLock? || pc.FailCount? || pc.FailUnlock? }

  function Remaining(c: Config, s: State): int {
    c.tables - s.table - if CreateFailed(s.pc) then 1 else 0
  }

  /** Another worker will be, or at least can be, created: there is a table for it, and a place that is
      not held by a lost worker. */
  predicate CanStart(c: Config, s: State) {
    s.pc.Counted? || s.pc.Create? || (Remaining(c, s) > 0 && LostCount(s.workers) < c.threads)
  }

  /** The process waits for ever: a worker is lost, none of the others can end it, and there will be no new ones. */
  ghost predicate Stuck(c: Config, s: State) {
    !s.exited && LostCount(s.workers) > 0 && !SomeMayExit(s) && !CanStart(c, s)
  }

  lemma StuckStays(c: Config, s: State, step: Step)
    requires Inv(c, s) && Stuck(c, s) && Enabled(s, step)
    ensures Stuck(c, Next(c, s, step)) && !Next(c, s, step).pc.Done?
  {
    LostAreCounted(s.workers);
    match step
    case MainStep(ok) =>
      assert Next(c, s, step).workers == s.workers;
    case WorkerStep(i, how) =>
      StuckWorkerStays(s, i, how);
  }

  lemma StuckWorkerStays(s: State, i: nat, how: How)
    requires Enabled(s, WorkerStep(i, how)) && !SomeMayExit(s)
    ensures
      var s' := WorkerNext(s, i, how);
      !SomeMayExit(s') && !s'.exited && LostCount(s'.workers) == LostCount(s.workers)
  {
    var s' := WorkerNext(s, i, how);
    assert !MayExit(s, s.workers[i].phase);
    TotalUpdate(s.workers, i, s'.workers[i], LostOne);
    forall j | 0 <= j < |s.workers|
      ensures !MayExit(s', s'.workers[j].phase)
    {
      assert !MayExit(s, s.workers[j].phase);
    }
  }

  lemma {:induction false} LostAreCounted(ws: seq<Worker>)
    ensures LostCount(ws) <= Counts(ws)
  {
    if ws != [] {
      LostAreCounted(ws[..|ws| - 1]);
    }
  }

  lemma {:induction false} StuckForever(c: Config, s: State, steps: seq<Step>, t: State)
    requires Inv(c, s) && Stuck(c, s) && Runs(c, s, steps, t)
    ensures !t.pc.Done? && !t.exited
    decreases |steps|
  {
    if steps == [] {
      LostAreCounted(s.workers);
    } else {
      StepKeepsInv(c, s, steps[0]);
      StuckStays(c, s, steps[0]);
      StuckForever(c, Next(c, s, steps[0]), steps[1..], t);
    }
  }

  lemma ThenEnd(c: Config, s: State, step: Step)
    requires Enabled(s, step) && CanEnd(c, Next(c, s, step))
    ensures CanEnd(c, s)
  {
    var steps, t :| Runs(c, Next(c, s, step), steps, t) && (t.pc.Done? || t.exited);
    assert ([step] + steps)[1..] == steps;
    assert Runs(c, s, [step] + steps, t);
  }

  lemma Exits(c: Config, s: State)
    requires s.exited
    ensures CanEnd(c, s)
  {
    assert Runs(c, s, [], s);
  }

  /** A connection is refused, or an error in loading is not ignored. */
  lemma ExitSoon(c: Config, s: State)
    requires !s.exited && SomeMayExit(s)
    ensures CanEnd(c, s)
  {
    var i :| 0 <= i < |s.workers| && MayExit(s, s.workers[i].phase);
    var step := WorkerStep(i, Fails);
    var s' := Next(c, s, step);
    if s.workers[i].phase.Connecting? {
      Exits(c, Next(c, s', step));
      ThenEnd(c, s', step);
    } else {
      Exits(c, s');
    }
    ThenEnd(c, s, step);
  }

  /** As long as another worker can be started the process can end: that worker may be refused. */
  lemma {:induction false} StartToEnd(c: Config, s: State)
    requires Inv(c, s) && !s.exited && CanStart(c, s)
    ensures CanEnd(c, s)
    decreases c.tables - s.table, Total(s.workers, Left), MainLeft(s.pc, SomeAlive(s))
  {
    if SomeMayExit(s) {
      ExitSoon(c, s);
    } else if s.pc.Create? {
      var s' := MainNext(c, s, true);
      assert MayExit(s', s'.workers[|s.workers|].phase);
      ExitSoon(c, s');
      ThenEnd(c, s, MainStep(true));
    } else if s.mutex.ByWorker? || (s.mutex.Free? && SomeAlive(s)) {
      var i := SomeWorker(s);
      assert !MayExit(s, s.workers[i].phase);
      StepKeepsInv(c, s, WorkerStep(i, Works));
      WorkerProgress(s, i);
      StartToEnd(c, WorkerNext(s, i, Works));
      ThenEnd(c, s, WorkerStep(i, Works));
    } else {
      StepKeepsInv(c, s, MainStep(true));
      StartProgress(c, s);
      StartToEnd(c, MainNext(c, s, true));
      ThenEnd(c, s, MainStep(true));
    }
  }

  lemma StartProgress(c: Config, s: State)
    requires Inv(c, s) && CanStart(c, s) && !s.pc.Create? && !s.pc.Done? && Enabled(s, MainStep(true))
    requires s.mutex.ByMain? || !SomeAlive(s)
    ensures
      var s' := MainNext(c, s, true);
      && CanStart(c, s') && s'.exited == s.exited
      && (s'.table > s.table
          || (s'.table == s.table && s'.workers == s.workers
              && MainLeft(s'.pc, SomeAlive(s')) < MainLeft(s.pc, SomeAlive(s))))
  {
    if !SomeAlive(s) {
      OnlyLostCounted(s.workers);
    }
  }

  lemma {:induction false} OnlyLostCounted(ws: seq<Worker>)
    requires forall i :: 0 <= i < |ws| ==> !Alive(ws[i].phase)
    ensures Counts(ws) == LostCount(ws)
  {
    if ws != [] {
      OnlyLostCounted(ws[..|ws| - 1]);
    }
  }

  lemma {:induction false} SomeLost(ws: seq<Worker>, i: nat)
    requires i < |ws| && ws[i].phase.Lost?
    ensures LostCount(ws) > 0
  {
    if i < |ws| - 1 {
      SomeLost(ws[..|ws| - 1], i);
    }
  }

  /** From any reachable state the process can still end, in one way or the other, if and only if it
      is not stuck: a worker was lost, there are no tables or no places for new ones, and every other
      worker is past its connection and, unless errors are ignored, past its loading. */
  lemma CanEndIff(c: Config, s: State)
    requires Reachable(c, s) && 1 <= c.threads
    ensures CanEnd(c, s) <==> !Stuck(c, s)
  {
    ReachableInv(c, s);
    if Stuck(c, s) {
      forall steps, t | Runs(c, s, steps, t)
        ensures !t.pc.Done? && !t.exited
      {
        StuckForever(c, s, steps, t);
      }
    } else if s.exited {
      Exits(c, s);
    } else if SomeMayExit(s) {
      ExitSoon(c, s);
    } else if CanStart(c, s) {
      StartToEnd(c, s);
    } else {
      if i :| 0 <= i < |s.workers| && Doomed(s.workers[i].phase) {
        assert !MayExit(s, s.workers[i].phase);
        SomeLost(s.workers, i);
      }
      Drain(c, s);
    }
  }

  // -------------------------------------------------------------------------
  // What ends the process.

  ghost predicate SomeRefused(s: State) {
    exists i :: 0 <= i < |s.workers| && s.workers[i].phase.Refused?
  }

  lemma {:induction false} RunsKeepIgnoring(c: Config, s: State, steps: seq<Step>, t: State)
    requires Runs(c, s, steps, t) && (s.ignoreErrors <==> c.ignoreErrors && !SomeRefused(s))
    ensures t.ignoreErrors <==> c.ignoreErrors && !SomeRefused(t)
    decreases |steps|
  {
    if steps != [] {
      StepKeepsIgnoring(c, s, steps[0]);
      RunsKeepIgnoring(c, Next(c, s, steps[0]), steps[1..], t);
    }
  }

  lemma StepKeepsIgnoring(c: Config, s: State, step: Step)
    requires Enabled(s, step) && (s.ignoreErrors <==> c.ignoreErrors && !SomeRefused(s))
    ensures Next(c, s, step).ignoreErrors <==> c.ignoreErrors && !SomeRefused(Next(c, s, step))
  {
    var s' := Next(c, s, step);
    forall i | 0 <= i < |s.workers|
      ensures s.workers[i].phase.Refused? ==> s'.workers[i].phase.Refused?
    {
    }
    if step.WorkerStep? && s.workers[step.i].phase.Connecting? && step.how.Fails? {
      assert s'.workers[step.i].phase.Refused?;
    }
    if i :| 0 <= i < |s.workers| && s.workers[i].phase.Refused? {
      assert s'.workers[i].phase.Refused?;
    }
    if i :| 0 <= i < |s'.workers| && s'.workers[i].phase.Refused? && s.ignoreErrors {
      assert i < |s.workers| ==> !s.workers[i].phase.Refused?;
    }
  }

  /** Errors in loading are ignored as long as that was asked for and no connection was refused. */
  lemma ErrorsIgnoredIff(c: Config, s: State)
    requires Reachable(c, s)
    ensures s.ignoreErrors <==> c.ignoreErrors && !SomeRefused(s)
  {
    var steps :| Runs(c, Initial(c), steps, s);
    RunsKeepIgnoring(c, Initial(c), steps, s);
  }

  /** A step ends the process if and only if it is that of a worker that was refused, or that failed to load while
      errors were not asked to be ignored or after a refusal. */
  lemma ExitsIff(c: Config, s: State, step: Step)
    requires Reachable(c, s) && Enabled(s, step)
    ensures Next(c, s, step).exited <==>
      step.WorkerStep? &&
      match s.workers[step.i].phase
      case Refused => true
      case Loading => step.how != Works && (!c.ignoreErrors || SomeRefused(s))
      case _ => false
  {
    ErrorsIgnoredIff(c, s);
  }
}
