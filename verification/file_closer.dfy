/** The background closer: files are handed over one by one, closed in batches by a worker,
    and the rest by the destructor. Files are named by numbers. */
module FileClosing {
  import opened Bytes

  /** `batch` is the worker's local vector; `done` says that the worker has returned and
      `destroyed` that the destructor has. `scheduled` and `closed` are history variables. */
  datatype State = State(
    pending: seq<nat>,
    batch: seq<nat>,
    shutdown: bool,
    done: bool,
    destroyed: bool,
    scheduled: seq<nat>,
    closed: seq<nat>)

  datatype Action =
    | Schedule(file: nat)  // scheduleClose
    | Take                 // the worker's critical section after its wait
    | CloseBatch           // the worker closes what it took, outside the lock
    | Shutdown             // the destructor raises the flag
    | Join                 // the destructor, after joining the worker, closes the rest

  /** The wait of the worker ends when a batch is full or at shutdown. No file is scheduled
      once the destructor has joined the worker. */
  predicate Enabled(batchSize: nat, s: State, a: Action) {
    match a
    case Schedule(_) => !s.destroyed
    case Take => !s.done && s.batch == [] && (|s.pending| >= batchSize || s.shutdown)
    case CloseBatch => s.batch != []
    case Shutdown => !s.shutdown
    case Join => s.done && !s.destroyed
  }

  function Do(batchSize: nat, s: State, a: Action): State
    requires Enabled(batchSize, s, a)
  {
    match a
    case Schedule(f) => s.(pending := s.pending + [f], scheduled := s.scheduled + [f])
    case Take =>
      if s.shutdown && s.pending == [] then s.(done := true)
      else s.(batch := s.pending, pending := [])
    case CloseBatch => s.(closed := s.closed + s.batch, batch := [])
    case Shutdown => s.(shutdown := true)
    case Join => s.(closed := s.closed + s.pending, pending := [], destroyed := true)
  }

  function Initial(): State {
    State([], [], false, false, false, [], [])
  }

  ghost predicate StepAt(batchSize: nat, run: seq<State>, i: nat)
    requires i + 1 < |run|
  {
    exists a :: Enabled(batchSize, run[i], a) && run[i + 1] == Do(batchSize, run[i], a)
  }

  ghost predicate IsRun(batchSize: nat, run: seq<State>) {
    run != [] && run[0] == Initial() && forall i: nat | i + 1 < |run| :: StepAt(batchSize, run, i)
  }

  /** Closed, then taken, then pending: together what was scheduled, in that order. */
  ghost predicate Inv(s: State) {
    && s.closed + s.batch + s.pending == s.scheduled
    && (s.done ==> s.batch == [] && s.shutdown)
    && (s.destroyed ==> s.done && s.pending == [])
  }

  lemma ActionKeepsInv(batchSize: nat, s: State, a: Action)
    requires Inv(s) && Enabled(batchSize, s, a)
    ensures Inv(Do(batchSize, s, a))
  {
    match a
    case Schedule(f) =>
      assert s.closed + s.batch + (s.pending + [f]) == (s.closed + s.batch + s.pending) + [f];
    case Take =>
      assert s.closed + [] + s.pending == s.closed + s.pending + [];
    case CloseBatch =>
      assert (s.closed + s.batch) + [] + s.pending == s.closed + s.batch + s.pending;
    case Shutdown =>
    case Join =>
      assert (s.closed + s.pending) + [] + [] == s.closed + [] + s.pending;
  }

  lemma {:induction false} RunInv(batchSize: nat, run: seq<State>, i: nat)
    requires IsRun(batchSize, run) && i < |run|
    ensures Inv(run[i])
  {
    if i == 0 {
    } else {
      RunInv(batchSize, run, i - 1);
      assert StepAt(batchSize, run, i - 1);
      var a :| Enabled(batchSize, run[i - 1], a) && run[i] == Do(batchSize, run[i - 1], a);
      ActionKeepsInv(batchSize, run[i - 1], a);
    }
  }

  /** Whatever the batching and the interleaving: nothing is closed that was not scheduled,
      or twice, or out of order; and when the destructor has returned, every file handed
      over has been closed exactly once. */
  lemma ClosedExactlyOnce(batchSize: nat, run: seq<State>, i: nat)
    requires IsRun(batchSize, run) && i < |run|
    ensures run[i].closed <= run[i].scheduled
    ensures run[i].destroyed ==> run[i].closed == run[i].scheduled
  {
    RunInv(batchSize, run, i);
    assert run[i].closed + run[i].batch + run[i].pending == run[i].closed + (run[i].batch + run[i].pending);
  }

  // ---- Full batches are closed ----

  /** What is left to do for the worker and the destructor. */
  function Work(s: State): nat {
    (if s.pending != [] then 2 else 0) + (if s.batch != [] then 1 else 0)
    + (if s.done then 0 else 1) + (if s.destroyed then 0 else 1)
  }

  ghost predicate WorkerStepAt(batchSize: nat, path: seq<State>, i: nat)
    requires i + 1 < |path|
  {
    exists a: Action ::
      (a.Take? || a.CloseBatch?) && Enabled(batchSize, path[i], a) && path[i + 1] == Do(batchSize, path[i], a)
  }

  /** The worker alone is at work. */
  ghost predicate WorkerPath(batchSize: nat, path: seq<State>) {
    path != [] && forall i: nat | i + 1 < |path| :: WorkerStepAt(batchSize, path, i)
  }

  /** Before shutdown the worker rests exactly when fewer files than a batch are pending and it
      holds none; then all others that were handed over are closed. */
  lemma WorkerRestsExactly(batchSize: nat, s: State)
    requires Inv(s) && !s.shutdown
    ensures !Enabled(batchSize, s, Take) && !Enabled(batchSize, s, CloseBatch) <==>
            s.batch == [] && |s.pending| < batchSize
    ensures s.batch == [] ==> s.closed + s.pending == s.scheduled
  {
    assert s.closed + [] + s.pending == s.closed + s.pending;
  }

  lemma WorkerStepWorks(batchSize: nat, s: State, a: Action)
    requires Inv(s) && !s.shutdown && batchSize >= 1 && (a.Take? || a.CloseBatch?) && Enabled(batchSize, s, a)
    ensures !Do(batchSize, s, a).shutdown && Work(Do(batchSize, s, a)) < Work(s)
    ensures Do(batchSize, s, a).scheduled == s.scheduled && Do(batchSize, s, a).done == s.done
    ensures Do(batchSize, s, a).destroyed == s.destroyed
  {
  }

  lemma {:induction false} WorkerPathWorks(batchSize: nat, path: seq<State>, i: nat)
    requires WorkerPath(batchSize, path) && Inv(path[0]) && !path[0].shutdown && batchSize >= 1 && i < |path|
    ensures Inv(path[i]) && !path[i].shutdown && Work(path[i]) + i <= Work(path[0])
    ensures path[i].scheduled == path[0].scheduled
    ensures path[i].done == path[0].done && path[i].destroyed == path[0].destroyed
  {
    if i == 0 {
    } else {
      WorkerPathWorks(batchSize, path, i - 1);
      assert WorkerStepAt(batchSize, path, i - 1);
      var a: Action :| (a.Take? || a.CloseBatch?) && Enabled(batchSize, path[i - 1], a)
                       && path[i] == Do(batchSize, path[i - 1], a);
      WorkerStepWorks(batchSize, path[i - 1], a);
      ActionKeepsInv(batchSize, path[i - 1], a);
    }
  }

  /** A full batch does not wait for shutdown: from any reachable state the worker makes at most
      three steps, and where it rests all files but fewer than a batch are closed, in the order
      in which they were handed over. */
  lemma FullBatchIsClosed(batchSize: nat, run: seq<State>, i: nat, path: seq<State>)
    requires IsRun(batchSize, run) && i < |run| && !run[i].shutdown && batchSize >= 1
    requires WorkerPath(batchSize, path) && path[0] == run[i]
    ensures |path| <= 4
    ensures var last := path[|path| - 1];
            || Enabled(batchSize, last, Take) || Enabled(batchSize, last, CloseBatch)
            || (|last.pending| < batchSize && last.closed + last.pending == run[i].scheduled)
  {
    RunInv(batchSize, run, i);
    WorkerPathWorks(batchSize, path, |path| - 1);
    WorkerRestsExactly(batchSize, path[|path| - 1]);
  }

  // ---- Shutdown ends ----

  /** One step after the flag, with nothing more being scheduled. */
  ghost predicate ClosingStepAt(batchSize: nat, path: seq<State>, i: nat)
    requires i + 1 < |path|
  {
    exists a: Action :: !a.Schedule? && Enabled(batchSize, path[i], a) && path[i + 1] == Do(batchSize, path[i], a)
  }

  ghost predicate ClosingPath(batchSize: nat, path: seq<State>) {
    path != [] && forall i: nat | i + 1 < |path| :: ClosingStepAt(batchSize, path, i)
  }

  lemma ClosingStepWorks(batchSize: nat, s: State, a: Action)
    requires Inv(s) && s.shutdown && !a.Schedule? && Enabled(batchSize, s, a)
    ensures Do(batchSize, s, a).shutdown && Work(Do(batchSize, s, a)) < Work(s)
  {
  }

  lemma {:induction false} ClosingPathWorks(batchSize: nat, path: seq<State>, i: nat)
    requires ClosingPath(batchSize, path) && Inv(path[0]) && path[0].shutdown && i < |path|
    ensures Inv(path[i]) && path[i].shutdown && Work(path[i]) + i <= Work(path[0])
  {
    if i == 0 {
    } else {
      ClosingPathWorks(batchSize, path, i - 1);
      assert ClosingStepAt(batchSize, path, i - 1);
      var a: Action :| !a.Schedule? && Enabled(batchSize, path[i - 1], a) && path[i] == Do(batchSize, path[i - 1], a);
      ClosingStepWorks(batchSize, path[i - 1], a);
      ActionKeepsInv(batchSize, path[i - 1], a);
    }
  }

  lemma ClosingCanMove(batchSize: nat, s: State)
    requires Inv(s) && s.shutdown && !s.destroyed
    ensures exists a: Action :: !a.Schedule? && Enabled(batchSize, s, a)
  {
    var a := if s.done then Join else if s.batch != [] then CloseBatch else Take;
    assert !a.Schedule? && Enabled(batchSize, s, a);
  }

  /** Once the flag is up and nothing more is scheduled, at most five steps follow, in any
      order that the threads can take them; where they end, the destructor has returned and
      everything scheduled has been closed. */
  lemma ShutdownTerminates(batchSize: nat, run: seq<State>, i: nat, path: seq<State>)
    requires IsRun(batchSize, run) && i < |run| && run[i].shutdown
    requires ClosingPath(batchSize, path) && path[0] == run[i]
    ensures |path| <= 6
    ensures var last := path[|path| - 1];
            || (exists a: Action :: !a.Schedule? && Enabled(batchSize, last, a))
            || (last.destroyed && last.closed == last.scheduled)
  {
    RunInv(batchSize, run, i);
    ClosingPathWorks(batchSize, path, |path| - 1);
    var last := path[|path| - 1];
    if !last.destroyed {
      ClosingCanMove(batchSize, last);
    } else {
      assert last.closed + last.batch + last.pending == last.closed + [] + [];
    }
  }

  /** The object: one method for each critical section. */
  class FileCloser {
    const batchSize: nat
    var pending: seq<nat>
    var batch: seq<nat>
    var shutdown: bool
    var done: bool
    ghost var state: State

    ghost predicate Valid()
      reads this
    {
      && Inv(state)
      && pending == state.pending && batch == state.batch
      && shutdown == state.shutdown && done == state.done
    }

    constructor (batchSize: nat)
      ensures Valid() && this.batchSize == batchSize && state == Initial()
    {
      this.batchSize := batchSize;
      pending, batch, shutdown, done := [], [], false, false;
      state := Initial();
    }

    method ScheduleClose(file: nat) returns (notified: bool)
      requires Valid() && !state.destroyed
      modifies this
      ensures Valid() && state == Do(batchSize, old(state), Schedule(file))
      ensures notified <==> |pending| >= batchSize || shutdown
    {
      ActionKeepsInv(batchSize, state, Schedule(file));
      state := Do(batchSize, state, Schedule(file));
      pending := pending + [file];
      notified := |pending| >= batchSize || shutdown;
    }

    method WorkerTake() returns (returned: bool)
      requires Valid() && Enabled(batchSize, state, Take)
      modifies this
      ensures Valid() && state == Do(batchSize, old(state), Take)
      ensures returned <==> state.done
    {
      ActionKeepsInv(batchSize, state, Take);
      state := Do(batchSize, state, Take);
      if shutdown && |pending| == 0 {
        done := true;
        return true;
      }
      batch, pending := pending, [];
      returned := false;
    }

    method WorkerCloseBatch() returns (closedNow: seq<nat>)
      requires Valid() && batch != []
      modifies this
      ensures Valid() && state == Do(batchSize, old(state), CloseBatch)
      ensures state.closed == old(state.closed) + closedNow
    {
      ActionKeepsInv(batchSize, state, CloseBatch);
      closedNow := CloseAll(batch);
      state := Do(batchSize, state, CloseBatch);
      batch := [];
    }

    /** The destructor raises the flag. */
    method BeginShutdown()
      requires Valid() && !state.shutdown
      modifies this
      ensures Valid() && state == Do(batchSize, old(state), Shutdown)
    {
      ActionKeepsInv(batchSize, state, Shutdown);
      state := Do(batchSize, state, Shutdown);
      shutdown := true;
    }

    /** The whole destructor: it waits for the worker, which takes and closes what is there
        and returns, and closes the rest itself. */
    method Finish()
      requires Valid() && !state.destroyed
      modifies this
      ensures Valid() && state.destroyed && state.scheduled == old(state.scheduled)
      ensures state.closed == state.scheduled
    {
      if !shutdown {
        BeginShutdown();
      }
      while !done
        invariant Valid() && shutdown && !state.destroyed && state.scheduled == old(state.scheduled)
        decreases Work(state)
      {
        if |batch| > 0 {
          var closedNow := WorkerCloseBatch();
        } else {
          var returned := WorkerTake();
        }
      }
      var rest := Destroy();
    }

    /** What the destructor closes after it has joined the worker. */
    method Destroy() returns (closedNow: seq<nat>)
      requires Valid() && Enabled(batchSize, state, Join)
      modifies this
      ensures Valid() && state == Do(batchSize, old(state), Join)
      ensures state.closed == old(state.closed) + closedNow == state.scheduled
    {
      ActionKeepsInv(batchSize, state, Join);
      closedNow := CloseAll(pending);
      state := Do(batchSize, state, Join);
      pending := [];
      assert state.closed + [] + [] == state.closed;
    }

    /** The loop that closes the files of a vector. */
    static method CloseAll(files: seq<nat>) returns (closedNow: seq<nat>)
      ensures closedNow == files
    {
      closedNow := [];
      for i := 0 to |files|
        invariant closedNow == files[..i]
      {
        closedNow := closedNow + [files[i]];
      }
    }
  }
}
