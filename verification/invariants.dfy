/** What every action of the store machine keeps. */
module Invariants {
  import opened Bytes
  import opened Log
  import opened MemtableLog
  import opened Machine

  // ---- Nothing is lost, duplicated or reordered ----

  /** Everything that has left the active table. */
  function Sealed(s: State): Log {
    Flat(Logs(s.published)) + InFlight(s) + Flat(s.mem.queue)
  }

  ghost predicate Conserved(s: State) {
    Sealed(s) + s.mem.active == s.history
  }

  lemma PopKeepsSealed(s: State)
    requires s.flush == Idle && s.mem.queue != []
    ensures var log, rest := s.mem.queue[0], s.mem.queue[1..];
            Flat(Logs(s.published)) + log + Flat(rest) == Sealed(s)
  {
    var log, rest := s.mem.queue[0], s.mem.queue[1..];
    assert s.mem.queue == [log] + rest;
    FlatCons(log, rest);
    assert Flat(Logs(s.published)) + [] + (log + Flat(rest)) == Flat(Logs(s.published)) + log + Flat(rest);
  }

  lemma PublishKeepsSealed(tables: seq<Published>, t: Published)
    ensures Flat(Logs(tables + [t])) == Flat(Logs(tables)) + t.log
  {
    assert (tables + [t])[..|tables|] == tables;
    assert (Logs(tables) + [t.log])[..|tables|] == Logs(tables);
  }

  /** The entries that an action commits: at most one. */
  function Committed(c: Config, s: State, a: Action): (log: Log)
    requires Enabled(c, s, a)
    ensures |log| <= 1
  {
    match a
    case Write(_, e) => if !NeedsRotation(c, s.mem, e) || HasRoom(c, s.mem) then [e] else []
    case Resume(id) => [s.writers[id]]
    case _ => []
  }

  /** The action moves the active table to the immutable queue. */
  predicate Seals(c: Config, s: State, a: Action)
    requires Enabled(c, s, a)
  {
    match a
    case Write(_, e) => NeedsRotation(c, s.mem, e) && HasRoom(c, s.mem)
    case Resume(_) => true
    case EnterBarrier(_) => s.mem.active != []
    case Drain => s.mem.active != []
    case _ => false
  }

  lemma HistoryGrows(c: Config, s: State, a: Action)
    requires Enabled(c, s, a)
    ensures Do(c, s, a).history == s.history + Committed(c, s, a)
  {
  }

  lemma ActiveAfter(c: Config, s: State, a: Action)
    requires Enabled(c, s, a)
    ensures Do(c, s, a).mem.active == (if Seals(c, s, a) then [] else s.mem.active) + Committed(c, s, a)
  {
  }

  lemma FlatQueueAfterSeal(before: Log, queue: seq<Log>, active: Log)
    ensures before + Flat(queue + [active]) == before + Flat(queue) + active
  {
    FlatConcat(queue, [active]);
    FlatOne(active);
    assert before + (Flat(queue) + active) == before + Flat(queue) + active;
  }

  lemma SealedAfterSeal(c: Config, s: State, a: Action)
    requires Enabled(c, s, a) && Seals(c, s, a)
    ensures Sealed(Do(c, s, a)) == Sealed(s) + s.mem.active
  {
    var s' := Do(c, s, a);
    assert s'.mem.queue == s.mem.queue + [s.mem.active];
    assert s'.published == s.published && s'.flush == s.flush;
    FlatQueueAfterSeal(Flat(Logs(s.published)) + InFlight(s), s.mem.queue, s.mem.active);
  }

  lemma SealedAfterPop(c: Config, s: State)
    requires Enabled(c, s, Pop)
    ensures Sealed(Do(c, s, Pop)) == Sealed(s)
  {
    PopKeepsSealed(s);
  }

  lemma SealedAfterPublish(c: Config, s: State)
    requires Enabled(c, s, Publish)
    ensures Sealed(Do(c, s, Publish)) == Sealed(s)
  {
    var t, s' := Published(s.flush.file, s.flush.log), Do(c, s, Publish);
    PublishKeepsSealed(s.published, t);
    assert s'.published == s.published + [t] && InFlight(s') == [] && s'.mem == s.mem;
    NothingBetween(Flat(Logs(s.published)), t.log, Flat(s.mem.queue));
  }

  lemma NothingBetween(a: Log, b: Log, c: Log)
    ensures (a + b) + [] + c == a + b + c
  {
  }

  lemma SealedAfterOther(c: Config, s: State, a: Action)
    requires Enabled(c, s, a) && !Seals(c, s, a)
    ensures Sealed(Do(c, s, a)) == Sealed(s)
  {
    if a.Pop? {
      SealedAfterPop(c, s);
    } else if a.Publish? {
      SealedAfterPublish(c, s);
    } else {
      var s' := Do(c, s, a);
      assert s'.published == s.published && InFlight(s') == InFlight(s) && s'.mem.queue == s.mem.queue;
    }
  }

  /** Sealing a table moves the active entries, in order, behind the sealed ones; no other
      action changes the sealed sequence, whatever the flush thread does with its parts. */
  lemma SealedAfter(c: Config, s: State, a: Action)
    requires Enabled(c, s, a)
    ensures Sealed(Do(c, s, a)) == Sealed(s) + (if Seals(c, s, a) then s.mem.active else [])
  {
    if Seals(c, s, a) {
      SealedAfterSeal(c, s, a);
    } else {
      SealedAfterOther(c, s, a);
    }
  }

  lemma Regroup(sealed: Log, active: Log, e: Log)
    ensures (sealed + active) + ([] + e) == sealed + active + e
    ensures (sealed + []) + (active + e) == sealed + active + e
  {
  }

  lemma ActionConserves(c: Config, s: State, a: Action)
    requires Enabled(c, s, a) && Conserved(s)
    ensures Conserved(Do(c, s, a))
  {
    SealedAfter(c, s, a);
    ActiveAfter(c, s, a);
    HistoryGrows(c, s, a);
    Regroup(Sealed(s), s.mem.active, Committed(c, s, a));
  }

  // ---- Flags, stages and barriers ----

  /** The flag is up exactly while the flush thread holds or has just published a table;
      `close` drains without it. Client calls wait only while the store is open. */
  ghost predicate FlagTruthful(s: State) {
    && (s.inProgress <==> s.flush != Idle && s.stage in {Open, Joining})
    && (s.stage != Open ==> s.writers == map[] && s.barriers == map[])
    && (s.stage == Closed ==> s.flush == Idle && s.mem == Memory([], []))
    && (s.stage == Draining ==> s.mem.active == [])
  }

  lemma ActionKeepsFlag(c: Config, s: State, a: Action)
    requires Enabled(c, s, a) && FlagTruthful(s)
    ensures FlagTruthful(Do(c, s, a))
  {
  }

  /** What had been written when a waiting barrier was called has left the active table. */
  ghost predicate BarriersSealed(s: State) {
    forall id | id in s.barriers :: s.barriers[id] <= |Sealed(s)|
  }

  lemma ActionKeepsBarriers(c: Config, s: State, a: Action)
    requires Enabled(c, s, a) && BarriersSealed(s) && Conserved(s)
    ensures BarriersSealed(Do(c, s, a))
  {
    SealedAfter(c, s, a);
  }

  lemma ClosedIsPublished(s: State)
    requires Conserved(s) && FlagTruthful(s) && s.stage == Closed
    ensures Flat(Logs(s.published)) == s.history
  {
    assert Sealed(s) + s.mem.active == Flat(Logs(s.published)) + [] + [] + [];
  }

  // ---- Sizes ----

  /** At most the configured size, unless the only entry of non-zero size is the last. */
  predicate Bounded(c: Config, log: Log) {
    Size(log) <= c.maxBytes || (log != [] && Size(log[..|log| - 1]) == 0)
  }

  ghost predicate MemoryBounded(c: Config, m: Memory) {
    && Bounded(c, m.active)
    && forall i | 0 <= i < |m.queue| :: Bounded(c, m.queue[i])
  }

  ghost predicate SizesBounded(c: Config, s: State) {
    MemoryBounded(c, s.mem) && Bounded(c, InFlight(s))
  }

  /** The queue exceeds its limit by at most one table for every blocked barrier. */
  ghost predicate QueueBounded(c: Config, s: State) {
    |s.mem.queue| <= c.maxImmutable + |s.barriers|
  }

  lemma AppendBounded(c: Config, log: Log, e: Entry)
    requires Bounded(c, log)
    requires Size(log) + EntrySize(e) <= c.maxBytes || Size(log) == 0
    ensures Bounded(c, log + [e])
  {
    assert (log + [e])[..|log|] == log;
  }

  lemma BarrierCount(barriers: map<nat, nat>, id: nat, mark: nat)
    ensures id !in barriers ==> |barriers[id := mark]| == |barriers| + 1
    ensures id in barriers ==> |barriers - {id}| == |barriers| - 1
  {
    if id in barriers {
      assert (barriers - {id}).Keys == barriers.Keys - {id};
    } else {
      assert barriers[id := mark].Keys == barriers.Keys + {id};
    }
  }

  lemma RotateKeepsSizes(c: Config, m: Memory)
    requires MemoryBounded(c, m)
    ensures MemoryBounded(c, Rotate(m))
  {
  }

  lemma AppendKeepsSizes(c: Config, m: Memory, e: Entry)
    requires MemoryBounded(c, m)
    requires !NeedsRotation(c, m, e)
    ensures MemoryBounded(c, Append(m, e))
  {
    AppendBounded(c, m.active, e);
  }

  lemma ActionKeepsSizes(c: Config, s: State, a: Action)
    requires ValidConfig(c) && Enabled(c, s, a) && SizesBounded(c, s)
    ensures SizesBounded(c, Do(c, s, a))
  {
    RotateKeepsSizes(c, s.mem);
    match a
    case Write(_, e) =>
      if !NeedsRotation(c, s.mem, e) {
        AppendKeepsSizes(c, s.mem, e);
      } else {
        AppendKeepsSizes(c, Rotate(s.mem), e);
      }
    case Resume(id) =>
      AppendKeepsSizes(c, Rotate(s.mem), s.writers[id]);
    case _ =>
  }

  lemma ActionKeepsQueueBound(c: Config, s: State, a: Action)
    requires ValidConfig(c) && Enabled(c, s, a) && QueueBounded(c, s) && FlagTruthful(s)
    ensures QueueBounded(c, Do(c, s, a))
  {
    match a
    case EnterBarrier(id) =>
      BarrierCount(s.barriers, id, |s.history|);
    case LeaveBarrier(id) =>
      BarrierCount(s.barriers, id, 0);
    case _ =>
  }

  // ---- Files ----

  /** The file numbers in use, in the order they were created: those of published tables,
      of the table being written, of the pool, of the file being created. */
  function FilesInUse(s: State): seq<nat> {
    Files(s.published)
    + (if s.flush.Acquired? then [s.flush.file] else [])
    + s.pool
    + (if s.worker.Creating? then [s.worker.file] else [])
  }

  ghost predicate FilesOrdered(c: Config, s: State) {
    && Ascending(FilesInUse(s))
    && (forall i | 0 <= i < |FilesInUse(s)| :: FilesInUse(s)[i] < s.nextFile)
    && |s.pool| + (if s.worker.Creating? then 1 else 0) <= c.poolSize
  }

  lemma AcquireKeepsFiles(files: seq<nat>, pool: seq<nat>, creating: seq<nat>)
    requires pool != []
    ensures files + [pool[0]] + pool[1..] + creating == files + [] + pool + creating
  {
  }

  lemma PublishKeepsFiles(tables: seq<Published>, t: Published, rest: seq<nat>, creating: seq<nat>)
    ensures Files(tables + [t]) + [] + rest + creating == Files(tables) + [t.file] + rest + creating
  {
    assert Files(tables + [t]) == Files(tables) + [t.file];
  }

  lemma PushKeepsFiles(files: seq<nat>, pool: seq<nat>, f: nat)
    ensures files + (pool + [f]) + [] == files + pool + [f]
    ensures (files + pool + [f])[..|files + pool + [f]| - 1] == files + pool + []
  {
  }

  /** Files enter at the end, with the next number, and only move forward from there. */
  lemma ActionOnFiles(c: Config, s: State, a: Action)
    requires Enabled(c, s, a)
    ensures FilesInUse(Do(c, s, a)) ==
            if a.StartFile? then FilesInUse(s) + [s.nextFile]
            else if a.PushFile? && s.stage == Closed then FilesInUse(s)[..|FilesInUse(s)| - 1]
            else FilesInUse(s)
  {
    var creating := if s.worker.Creating? then [s.worker.file] else [];
    var writing := if s.flush.Acquired? then [s.flush.file] else [];
    if a.Acquire? {
      AcquireKeepsFiles(Files(s.published), s.pool, creating);
    } else if a.Publish? {
      PublishKeepsFiles(s.published, Published(s.flush.file, s.flush.log), s.pool, creating);
    } else if a.PushFile? {
      PushKeepsFiles(Files(s.published) + writing, s.pool, s.worker.file);
    }
  }

  lemma ActionKeepsFiles(c: Config, s: State, a: Action)
    requires Enabled(c, s, a) && FilesOrdered(c, s)
    ensures FilesOrdered(c, Do(c, s, a))
  {
    ActionOnFiles(c, s, a);
  }

  // ---- All runs ----

  ghost predicate Inv(c: Config, s: State) {
    && ValidConfig(c)
    && Conserved(s) && FlagTruthful(s) && BarriersSealed(s)
    && SizesBounded(c, s) && QueueBounded(c, s) && FilesOrdered(c, s)
  }

  lemma InitInv(c: Config, s: State)
    requires Init(c, s)
    ensures Inv(c, s)
  {
    assert Sealed(s) + s.mem.active == s.history;
    assert FilesInUse(s) == Files(s.published);
  }

  lemma ActionKeepsInv(c: Config, s: State, a: Action)
    requires Inv(c, s) && Enabled(c, s, a)
    ensures Inv(c, Do(c, s, a))
  {
    ActionConserves(c, s, a);
    ActionKeepsFlag(c, s, a);
    ActionKeepsBarriers(c, s, a);
    ActionKeepsSizes(c, s, a);
    ActionKeepsQueueBound(c, s, a);
    ActionKeepsFiles(c, s, a);
  }

  lemma StepKeepsInv(c: Config, s: State, s': State)
    requires Inv(c, s) && Next(c, s, s')
    ensures Inv(c, s')
  {
    var a :| Enabled(c, s, a) && s' == Do(c, s, a);
    ActionKeepsInv(c, s, a);
  }

  lemma {:induction false} PathInv(c: Config, run: seq<State>, i: nat, s: State)
    requires IsPath(c, run) && Inv(c, run[0]) && i < |run| && s == run[i]
    ensures Inv(c, s)
    decreases i
  {
    if i == 0 {
    } else {
      var before := run[i - 1];
      PathInv(c, run, i - 1, before);
      assert StepAt(c, run, i - 1);
      StepKeepsInv(c, before, s);
    }
  }

  lemma RunInv(c: Config, run: seq<State>, i: nat)
    requires IsRun(c, run) && i < |run|
    ensures Inv(c, run[i])
  {
    InitInv(c, run[0]);
    PathInv(c, run, i, run[i]);
  }

  /** In every reachable state of every interleaving, the published tables oldest to newest,
      the table in flight, the immutable queue and the active table make up the full write
      history, in order. */
  lemma HistoryIsConserved(c: Config, run: seq<State>, i: nat)
    requires IsRun(c, run) && i < |run|
    ensures var s := run[i];
            Flat(Logs(s.published)) + InFlight(s) + Flat(s.mem.queue) + s.mem.active == s.history
  {
    RunInv(c, run, i);
  }
}
