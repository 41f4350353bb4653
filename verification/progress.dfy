/** No call waits forever: deadlock freedom, a measure that every step lowers once calls
    stop arriving, the size bounds and the life cycle of files, over all runs. */
module Progress {
  import opened Bytes
  import opened Log
  import opened MemtableLog
  import opened Machine
  import opened Invariants
  import opened Witnesses

  /** Steps of calls that are already running, and of the background threads. */
  predicate Internal(a: Action) {
    !a.Write? && !a.EnterBarrier? && !a.BeginClose?
  }

  /** A writer waits for room, a barrier waits for the drain, or `close` has not returned. */
  predicate SomeoneWaits(s: State) {
    s.writers != map[] || s.barriers != map[] || s.stage in {Joining, Draining}
  }

  ghost predicate CanMove(c: Config, s: State) {
    exists a :: Internal(a) && Enabled(c, s, a)
  }

  function FlushCost(f: Flush): nat {
    match f
    case Idle => 0
    case Popped(_) => 5
    case Acquired(_, _) => 2
    case Finished => 1
  }

  function StageCost(stage: Stage): nat {
    match stage
    case Open => 0
    case Joining => 10
    case Draining => 3
    case Closed => 0
  }

  /** Work left: the queue, the table in flight, the free places in the file pool, and the
      calls that have yet to return. */
  function Work(c: Config, s: State): int {
    var creating := if s.worker.Creating? then 1 else 0;
    if s.stage == Closed then creating
    else
      7 * |s.writers| + |s.barriers| + 6 * |s.mem.queue| + FlushCost(s.flush)
      + 2 * (c.poolSize - |s.pool|) - creating + StageCost(s.stage)
  }

  lemma WriterCount(writers: map<nat, Entry>, id: nat)
    requires id in writers
    ensures |writers - {id}| == |writers| - 1
  {
    assert (writers - {id}).Keys == writers.Keys - {id};
  }

  lemma ReturningCallWorks(c: Config, s: State, a: Action)
    requires FlagTruthful(s) && (a.Resume? || a.LeaveBarrier?) && Enabled(c, s, a)
    ensures Work(c, Do(c, s, a)) < Work(c, s)
  {
    if a.Resume? {
      WriterCount(s.writers, a.id);
      assert |Do(c, s, a).mem.queue| == |s.mem.queue| + 1;
    } else {
      BarrierCount(s.barriers, a.id, 0);
    }
  }

  lemma FlushStepWorks(c: Config, s: State, a: Action)
    requires FlagTruthful(s) && (a.Pop? || a.Skip? || a.Acquire? || a.Publish? || a.Clear?) && Enabled(c, s, a)
    ensures Work(c, Do(c, s, a)) < Work(c, s)
  {
  }

  lemma OtherStepWorks(c: Config, s: State, a: Action)
    requires |s.pool| + (if s.worker.Creating? then 1 else 0) <= c.poolSize
    requires FlagTruthful(s) && (a.StartFile? || a.PushFile? || a.Drain? || a.EndClose?) && Enabled(c, s, a)
    ensures Work(c, Do(c, s, a)) < Work(c, s)
  {
  }

  lemma InternalStepWorks(c: Config, s: State, a: Action)
    requires |s.pool| + (if s.worker.Creating? then 1 else 0) <= c.poolSize
    requires FlagTruthful(s) && Internal(a) && Enabled(c, s, a)
    ensures Work(c, Do(c, s, a)) < Work(c, s)
  {
    if a.Resume? || a.LeaveBarrier? {
      ReturningCallWorks(c, s, a);
    } else if a.StartFile? || a.PushFile? || a.Drain? || a.EndClose? {
      OtherStepWorks(c, s, a);
    } else {
      FlushStepWorks(c, s, a);
    }
  }

  /** The thread whose turn it is. */
  lemma WaitingCanMove(c: Config, s: State)
    requires Inv(c, s) && SomeoneWaits(s) && c.poolSize >= 1
    ensures CanMove(c, s)
  {
    var a :=
      match s.flush
      case Acquired(_, _) => Publish
      case Finished => Clear
      case Popped(log) =>
        if log == [] then Skip
        else if s.pool != [] then Acquire
        else if s.worker.Creating? then PushFile
        else StartFile
      case Idle =>
        if s.mem.queue != [] then Pop
        else if s.stage == Joining then Drain
        else if s.stage == Draining then EndClose
        else if s.writers != map[] then var id :| id in s.writers; Resume(id)
        else var id :| id in s.barriers; LeaveBarrier(id);
    assert Internal(a) && Enabled(c, s, a);
  }

  ghost predicate InternalStepAt(c: Config, path: seq<State>, i: nat)
    requires i + 1 < |path|
  {
    exists a :: Internal(a) && Enabled(c, path[i], a) && path[i + 1] == Do(c, path[i], a)
  }

  /** States that follow each other without any new call arriving. */
  ghost predicate InternalPath(c: Config, path: seq<State>) {
    path != [] && forall i: nat | i + 1 < |path| :: InternalStepAt(c, path, i)
  }

  lemma {:induction false} InternalPathWorks(c: Config, path: seq<State>, i: nat, s: State)
    requires InternalPath(c, path) && Inv(c, path[0]) && i < |path| && s == path[i]
    ensures Inv(c, s) && Work(c, s) <= Work(c, path[0]) - i
    decreases i
  {
    if i == 0 {
    } else {
      var before := path[i - 1];
      InternalPathWorks(c, path, i - 1, before);
      assert InternalStepAt(c, path, i - 1);
      var a :| Internal(a) && Enabled(c, before, a) && s == Do(c, before, a);
      InternalStepWorks(c, before, a);
      ActionKeepsInv(c, before, a);
    }
  }

  lemma WorkIsNonNegative(c: Config, s: State)
    requires Inv(c, s)
    ensures Work(c, s) >= 0
  {
  }

  /** Once calls stop arriving, a reachable store makes at most `Work` further steps,
      whatever the interleaving; and where it can make no more, every writer and barrier
      has returned and `close`, if it was called, has finished. */
  lemma WaitsEnd(c: Config, run: seq<State>, i: nat, path: seq<State>)
    requires IsRun(c, run) && i < |run| && c.poolSize >= 1
    requires InternalPath(c, path) && path[0] == run[i]
    ensures |path| - 1 <= Work(c, run[i])
    ensures var last := path[|path| - 1]; CanMove(c, last) || !SomeoneWaits(last)
  {
    RunInv(c, run, i);
    var last := path[|path| - 1];
    InternalPathWorks(c, path, |path| - 1, last);
    WorkIsNonNegative(c, last);
    if SomeoneWaits(last) {
      WaitingCanMove(c, last);
    }
  }

  ghost predicate NeverStuck(c: Config) {
    forall run, i | IsRun(c, run) && 0 <= i < |run| && SomeoneWaits(run[i]) :: CanMove(c, run[i])
  }

  /** With an empty file pool the flush thread waits for a file that nobody creates. */
  lemma EmptyPoolSticks(c: Config)
    requires ValidConfig(c) && c.poolSize == 0
    ensures !NeverStuck(c)
  {
    var run := WriteBarrierPop(c, Entry("k", "v"));
    var n := |run| - 1;
    var s := run[n];
    assert 0 in s.barriers;
    forall a | Internal(a)
      ensures !Enabled(c, s, a)
    {
    }
    assert IsRun(c, run) && 0 <= n < |run| && SomeoneWaits(run[n]) && !CanMove(c, run[n]);
  }

  /** No reachable state is stuck exactly when the pool may hold at least one file. */
  lemma NeverStuckExactly(c: Config)
    requires ValidConfig(c)
    ensures NeverStuck(c) <==> c.poolSize >= 1
  {
    if c.poolSize == 0 {
      EmptyPoolSticks(c);
    } else {
      forall run, i | IsRun(c, run) && 0 <= i < |run| && SomeoneWaits(run[i])
        ensures CanMove(c, run[i])
      {
        RunInv(c, run, i);
        WaitingCanMove(c, run[i]);
      }
    }
  }

  // ---- At rest ----

  /** A reachable store in which no call is running and no thread has anything to do: the
      queue is flushed, nothing is in flight and nobody waits, the pool is full until it shuts
      down, and all that has left the active table is published. */
  lemma RestsExactly(c: Config, run: seq<State>, i: nat)
    requires IsRun(c, run) && i < |run| && c.poolSize >= 1
    ensures var s := run[i];
            !CanMove(c, s) <==>
            && s.mem.queue == [] && s.flush == Idle && s.writers == map[] && s.barriers == map[]
            && s.worker == Waiting && (s.stage == Closed || (s.stage == Open && |s.pool| == c.poolSize))
    ensures !CanMove(c, run[i]) ==> Flat(Logs(run[i].published)) + run[i].mem.active == run[i].history
  {
    RunInv(c, run, i);
    var s := run[i];
    if SomeoneWaits(s) {
      WaitingCanMove(c, s);
    } else if a :| a in {Pop, Skip, Acquire, Publish, Clear, StartFile, PushFile} && Enabled(c, s, a) {
      assert Internal(a);
    } else {
      PoolAtRest(c, s);
      FlushAtRest(c, s);
    }
  }

  lemma NobodyWrites(c: Config, s: State, a: Action)
    requires Internal(a) && Enabled(c, s, a) && s.writers == map[] && s.stage != Open
    ensures var s' := Do(c, s, a); s'.history == s.history && s'.writers == map[] && s'.stage != Open
  {
  }

  lemma {:induction false} NobodyWritesAlong(c: Config, path: seq<State>, i: nat)
    requires InternalPath(c, path) && path[0].writers == map[] && path[0].stage != Open && i < |path|
    ensures path[i].history == path[0].history && path[i].writers == map[] && path[i].stage != Open
  {
    if i == 0 {
    } else {
      NobodyWritesAlong(c, path, i - 1);
      assert InternalStepAt(c, path, i - 1);
      var a :| Internal(a) && Enabled(c, path[i - 1], a) && path[i] == Do(c, path[i - 1], a);
      NobodyWrites(c, path[i - 1], a);
    }
  }

  /** `close` may be called in every open state in which no other call is running. However the
      threads interleave from there, they make a bounded number of steps, and where they can make
      no more the store is closed and everything ever written is published. */
  lemma CloseCompletes(c: Config, run: seq<State>, i: nat, path: seq<State>)
    requires IsRun(c, run) && i < |run| && c.poolSize >= 1
    requires run[i].stage == Open && run[i].writers == map[] && run[i].barriers == map[]
    ensures Enabled(c, run[i], BeginClose)
    ensures InternalPath(c, path) && path[0] == Do(c, run[i], BeginClose) ==>
              var last := path[|path| - 1];
              && |path| - 1 <= Work(c, path[0])
              && (CanMove(c, last) || (last.stage == Closed && Flat(Logs(last.published)) == run[i].history))
  {
    RunInv(c, run, i);
    if InternalPath(c, path) && path[0] == Do(c, run[i], BeginClose) {
      var last := path[|path| - 1];
      ActionKeepsInv(c, run[i], BeginClose);
      InternalPathWorks(c, path, |path| - 1, last);
      WorkIsNonNegative(c, last);
      NobodyWritesAlong(c, path, |path| - 1);
      if SomeoneWaits(last) {
        WaitingCanMove(c, last);
      } else {
        ClosedIsPublished(last);
      }
    }
  }

  lemma PoolAtRest(c: Config, s: State)
    requires FilesOrdered(c, s) && !Enabled(c, s, StartFile) && !Enabled(c, s, PushFile)
    ensures s.worker == Waiting && (s.stage == Closed || |s.pool| == c.poolSize)
  {
  }

  lemma FlushAtRest(c: Config, s: State)
    requires FlagTruthful(s) && c.poolSize >= 1 && (s.stage == Closed || |s.pool| == c.poolSize)
    requires !Enabled(c, s, Pop) && !Enabled(c, s, Skip) && !Enabled(c, s, Acquire)
    requires !Enabled(c, s, Publish) && !Enabled(c, s, Clear)
    ensures s.flush == Idle && s.mem.queue == []
  {
  }

  // ---- Bounds and files over runs ----

  /** In every reachable state every memory table is within the configured size, unless its
      only entry of non-zero size is its last; and the immutable queue is within its limit
      but for one table per blocked barrier. */
  lemma MemoryBounds(c: Config, run: seq<State>, i: nat, log: Log)
    requires IsRun(c, run) && i < |run|
    requires log == run[i].mem.active || log in run[i].mem.queue || log == InFlight(run[i])
    ensures Size(log) <= c.maxBytes || (log != [] && Size(log[..|log| - 1]) == 0)
    ensures |run[i].mem.queue| <= c.maxImmutable + |run[i].barriers|
  {
    RunInv(c, run, i);
  }

  lemma FilesOnlyExtend(c: Config, s: State, s': State)
    requires Next(c, s, s') && s'.stage != Closed
    ensures FilesInUse(s) <= FilesInUse(s')
  {
    var a :| Enabled(c, s, a) && s' == Do(c, s, a);
    ActionOnFiles(c, s, a);
  }

  lemma StageStays(c: Config, s: State, s': State)
    requires Next(c, s, s') && s'.stage != Closed
    ensures s.stage != Closed
  {
    var a :| Enabled(c, s, a) && s' == Do(c, s, a);
  }

  lemma {:induction false} FilesAlong(c: Config, run: seq<State>, i: nat, j: nat)
    requires IsPath(c, run) && i <= j < |run| && run[j].stage != Closed
    ensures FilesInUse(run[i]) <= FilesInUse(run[j])
    decreases j
  {
    if i == j {
    } else {
      assert StepAt(c, run, j - 1);
      StageStays(c, run[j - 1], run[j]);
      FilesOnlyExtend(c, run[j - 1], run[j]);
      FilesAlong(c, run, i, j - 1);
    }
  }

  /** The files that were handed out: published, or being written. */
  function HandedOut(s: State): seq<nat> {
    Files(s.published) + if s.flush.Acquired? then [s.flush.file] else []
  }

  lemma HandedOutExtends(c: Config, s: State, s': State)
    requires Next(c, s, s')
    ensures HandedOut(s) <= HandedOut(s')
  {
    var a :| Enabled(c, s, a) && s' == Do(c, s, a);
    if a.Publish? {
      PublishedIsHandedOut(c, s);
    } else {
      OthersHandOut(c, s, a);
    }
  }

  lemma PublishedIsHandedOut(c: Config, s: State)
    requires Enabled(c, s, Publish)
    ensures HandedOut(Do(c, s, Publish)) == HandedOut(s)
  {
    var t := Published(s.flush.file, s.flush.log);
    assert Files(s.published + [t]) == Files(s.published) + [t.file];
  }

  lemma OthersHandOut(c: Config, s: State, a: Action)
    requires Enabled(c, s, a) && !a.Publish?
    ensures HandedOut(s) <= HandedOut(Do(c, s, a))
  {
    assert Files(Do(c, s, a).published) == Files(s.published);
  }

  lemma {:induction false} HandedOutAlong(c: Config, run: seq<State>, i: nat, j: nat)
    requires IsPath(c, run) && i <= j < |run|
    ensures HandedOut(run[i]) <= HandedOut(run[j])
    decreases j
  {
    if i == j {
    } else {
      HandedOutAlong(c, run, i, j - 1);
      assert StepAt(c, run, j - 1);
      HandedOutExtends(c, run[j - 1], run[j]);
    }
  }

  /** Files are created with strictly increasing numbers above the recovered ones, queue in
      that order from creation through the pool and the writer to the published list, are
      never handed out twice, and the pool never exceeds its size. Until the pool has shut
      down none leaves this order; after that only what was handed out matters. */
  lemma FileLifeCycle(c: Config, run: seq<State>, i: nat, j: nat)
    requires IsRun(c, run) && i <= j < |run|
    ensures Ascending(FilesInUse(run[j])) && HandedOut(run[j]) <= FilesInUse(run[j])
    ensures HandedOut(run[i]) <= HandedOut(run[j]) && Files(run[0].published) <= HandedOut(run[j])
    ensures run[j].stage != Closed ==> FilesInUse(run[i]) <= FilesInUse(run[j])
    ensures |run[j].pool| <= c.poolSize
  {
    RunInv(c, run, j);
    HandedOutAlong(c, run, i, j);
    HandedOutAlong(c, run, 0, j);
    assert HandedOut(run[0]) == Files(run[0].published);
    var rest := run[j].pool + if run[j].worker.Creating? then [run[j].worker.file] else [];
    assert FilesInUse(run[j]) == HandedOut(run[j]) + rest;
    if run[j].stage != Closed {
      FilesAlong(c, run, i, j);
    }
  }
}
