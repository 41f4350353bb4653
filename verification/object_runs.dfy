/** Runs of the store's object and its threads, and the proof that they are exactly the runs
    of the state machine: each piece of the object's code, in any interleaving, performs the
    machine's action. */
module ObjectRuns {
  import opened Wrappers
  import opened Bytes
  import opened Log
  import opened SSTable
  import opened Machine
  import opened Invariants
  import opened Reads
  import opened PrefixReads
  import opened Directory
  import opened DirectoryRuns
  import opened TableManager
  import opened MemoryTables
  import opened StoreViews

  /** The object, what its threads hold in local variables, and the calls that are blocked.
      `history` is a history variable. */
  datatype World = World(
    view: StoreView,
    flush: Flush,
    writers: map<nat, Entry>,
    barriers: set<nat>,
    stage: Stage,
    history: Log)

  /** Which piece of code may run next. Lengths below 2^32 and file numbers below 2^64 are
      assumed where they enter. */
  predicate Allowed(c: Config, w: World, a: Action) {
    match a
    case Write(id, e) => w.stage == Open && id !in w.writers && Fits(e)
    case Resume(id) => id in w.writers && HasRoom(c, w.view.mem)
    case EnterBarrier(id) => w.stage == Open && id !in w.barriers
    case LeaveBarrier(id) => id in w.barriers && BarrierMayLeave(w.view)
    case Pop => w.stage != Closed && w.flush == Idle && w.view.mem.queue != []
    case Skip => w.flush == Popped([])
    case Acquire => w.flush.Popped? && w.flush.log != [] && w.view.disk.pool != []
    case Publish => w.flush.Acquired? && CanPublish(w.view.disk, w.flush.file, w.flush.log)
    case Clear => w.flush == Finished
    case StartFile =>
      && w.stage != Closed && w.view.disk.worker == Waiting
      && |w.view.disk.pool| < c.poolSize && w.view.disk.nextId < UINT64_LIMIT
    case PushFile => w.view.disk.worker.Creating? && w.view.disk.worker.file < UINT64_LIMIT
    case BeginClose => w.stage == Open && w.writers == map[] && w.barriers == {}
    case Drain => w.stage == Joining && w.flush == Idle && w.view.mem.queue == []
    case EndClose => w.stage == Draining && w.flush == Idle && w.view.mem.queue == []
  }

  function WithMemory(w: World, m: Memory): World {
    w.(view := w.view.(mem := m))
  }

  function WithDisk(w: World, d: DiskView): World {
    w.(view := w.view.(disk := d))
  }

  /** Running it; `n` is how many bytes the pool's worker pre-allocates this time. */
  function Run(c: Config, w: World, a: Action, n: nat): World
    requires Allowed(c, w, a)
  {
    match a
    case Write(id, e) =>
      if MustWait(c, w.view.mem, e) then w.(writers := w.writers[id := e])
      else WithMemory(w, AfterMutation(c, w.view.mem, e)).(history := w.history + [e])
    case Resume(id) =>
      WithMemory(w, Append(Rotate(w.view.mem), w.writers[id])).(
      history := w.history + [w.writers[id]], writers := w.writers - {id})
    case EnterBarrier(id) => WithMemory(w, RotateNonEmpty(w.view.mem)).(barriers := w.barriers + {id})
    case LeaveBarrier(id) => w.(barriers := w.barriers - {id})
    case Pop => w.(view := AfterPop(w.view, w.stage != Draining), flush := Popped(w.view.mem.queue[0]))
    case Skip => w.(flush := Finished)
    case Acquire =>
      WithDisk(w, AfterAcquire(w.view.disk)).(flush := Acquired(w.flush.log, w.view.disk.pool[0]))
    case Publish => WithDisk(w, AfterPublish(w.view.disk, w.flush.file, w.flush.log)).(flush := Finished)
    case Clear => w.(view := w.view.(inProgress := false), flush := Idle)
    case StartFile => WithDisk(w, AfterStart(w.view.disk))
    case PushFile => WithDisk(w, AfterPush(w.view.disk, n))
    case BeginClose => w.(stage := Joining)
    case Drain => WithMemory(w, RotateNonEmpty(w.view.mem)).(stage := Draining)
    case EndClose => WithDisk(w, w.view.disk.(shutdown := true)).(stage := Closed)
  }

  // ---- The object represents a state of the machine ----

  /** The tables on disk read like the published logs, on every non-empty key. */
  ghost predicate Agrees(tables: seq<SSTable.Table>, published: seq<Published>) {
    forall key | key != [] :: TablesGet(tables, key) == NewestFirst(Logs(published), key)
  }

  /** Every indexed file is the file of a published table. */
  ghost predicate PathsNamed(paths: seq<Str>, published: seq<Published>) {
    forall path | path in paths :: exists p :: p in published && p.file < UINT64_LIMIT && NameOf(p.file) == path
  }

  ghost predicate DiskRepresents(d: DiskView, s: State) {
    && Agrees(d.tables, s.published) && PathsNamed(d.paths, s.published)
    && DirectoryFits(d.files, s)
    && d.pool == s.pool && d.worker == s.worker && d.nextId == s.nextFile
    && d.shutdown == (s.stage == Closed)
  }

  ghost predicate Represents(w: World, s: State) {
    && w.view.mem == s.mem && w.view.inProgress == s.inProgress
    && w.flush == s.flush && w.writers == s.writers && w.barriers == s.barriers.Keys
    && w.stage == s.stage && w.history == s.history
    && DiskRepresents(w.view.disk, s)
  }

  ghost predicate Limits(s: State) {
    WithinLimits(s) && forall id | id in s.writers :: Fits(s.writers[id])
  }

  // ---- Each piece of code is the machine's action ----

  /** The parts of the representation, put together. */
  lemma DiskParts(e: DiskView, s: State)
    requires Agrees(e.tables, s.published) && PathsNamed(e.paths, s.published) && DirectoryFits(e.files, s)
    requires e.pool == s.pool && e.worker == s.worker && e.nextId == s.nextFile
    requires e.shutdown == (s.stage == Closed)
    ensures DiskRepresents(e, s)
  {
  }

  lemma OthersLeaveDisk(c: Config, s: State, a: Action)
    requires Enabled(c, s, a)
    requires !a.Acquire? && !a.Publish? && !a.StartFile? && !a.PushFile? && !a.EndClose?
    ensures var s' := Do(c, s, a);
            && s'.published == s.published && s'.pool == s.pool && s'.worker == s.worker
            && s'.nextFile == s.nextFile && (s'.stage == Closed <==> s.stage == Closed)
  {
  }

  lemma DiskUntouched(c: Config, d: DiskView, s: State, a: Action)
    requires DiskRepresents(d, s) && Enabled(c, s, a)
    requires !a.Acquire? && !a.Publish? && !a.StartFile? && !a.PushFile? && !a.EndClose?
    ensures DiskRepresents(d, Do(c, s, a))
  {
    OtherActionsFit(c, s, a, d.files);
    OthersLeaveDisk(c, s, a);
    DiskParts(d, Do(c, s, a));
  }

  lemma AcquireOnDisk(c: Config, d: DiskView, s: State)
    requires DiskRepresents(d, s) && Enabled(c, s, Acquire)
    ensures DiskRepresents(AfterAcquire(d), Do(c, s, Acquire))
  {
    OtherActionsFit(c, s, Acquire, d.files);
  }

  lemma FlushedAgrees(tables: seq<SSTable.Table>, published: seq<Published>, p: Published, tail: Str)
    requires Agrees(tables, published) && AllFit(p.log)
    ensures Agrees(tables + [Flushed(p.log, tail)], published + [p])
  {
    forall key | key != []
      ensures TablesGet(tables + [Flushed(p.log, tail)], key) == NewestFirst(Logs(published + [p]), key)
    {
      FlushedReadsLog(p.log, tail, key);
      assert (tables + [Flushed(p.log, tail)])[..|tables|] == tables;
      assert (published + [p])[..|published|] == published;
      assert (Logs(published) + [p.log])[..|published|] == Logs(published);
    }
  }

  lemma FlushedIsNamed(paths: seq<Str>, published: seq<Published>, p: Published)
    requires PathsNamed(paths, published) && p.file < UINT64_LIMIT
    ensures PathsNamed([NameOf(p.file)] + paths, published + [p])
  {
    forall path | path in [NameOf(p.file)] + paths
      ensures exists q :: q in published + [p] && q.file < UINT64_LIMIT && NameOf(q.file) == path
    {
      if path in paths {
        var q :| q in published && q.file < UINT64_LIMIT && NameOf(q.file) == path;
        assert q in published + [p];
      } else {
        assert p in published + [p];
      }
    }
  }

  lemma PublishKeepsReads(d: DiskView, published: seq<Published>, p: Published)
    requires Agrees(d.tables, published) && PathsNamed(d.paths, published) && CanPublish(d, p.file, p.log)
    ensures var e := AfterPublish(d, p.file, p.log);
            && Agrees(e.tables, published + [p]) && PathsNamed(e.paths, published + [p])
            && e.files == Written(d.files, p.file, p.log)
  {
    FlushedAgrees(d.tables, published, p, Behind(d.files[NameOf(p.file)], |Serialize(p.log)|));
    FlushedIsNamed(d.paths, published, p);
  }

  lemma PublishOnDisk(c: Config, d: DiskView, s: State)
    requires DiskRepresents(d, s) && FilesOrdered(c, s) && s.flush.Acquired?
    requires CanPublish(d, s.flush.file, s.flush.log)
    ensures DiskRepresents(AfterPublish(d, s.flush.file, s.flush.log), Do(c, s, Publish))
  {
    PublishKeepsReads(d, s.published, Published(s.flush.file, s.flush.log));
    PublishFits(c, s, d.files);
    DiskParts(AfterPublish(d, s.flush.file, s.flush.log), Do(c, s, Publish));
  }

  lemma StartOnDisk(c: Config, d: DiskView, s: State)
    requires DiskRepresents(d, s) && Enabled(c, s, StartFile)
    ensures DiskRepresents(AfterStart(d), Do(c, s, StartFile))
  {
    OtherActionsFit(c, s, StartFile, d.files);
  }

  lemma PushOnDisk(c: Config, d: DiskView, s: State, n: nat)
    requires DiskRepresents(d, s) && FilesOrdered(c, s) && s.worker.Creating? && s.nextFile <= UINT64_LIMIT
    requires s.worker.file < UINT64_LIMIT
    ensures DiskRepresents(AfterPush(d, n), Do(c, s, PushFile))
  {
    PushFits(c, s, d.files, n);
    DiskParts(AfterPush(d, n), Do(c, s, PushFile));
  }

  lemma EndOnDisk(c: Config, d: DiskView, s: State)
    requires DiskRepresents(d, s) && Enabled(c, s, EndClose)
    ensures DiskRepresents(d.(shutdown := true), Do(c, s, EndClose))
  {
    OtherActionsFit(c, s, EndClose, d.files);
  }

  lemma UnusedName(published: seq<Published>, paths: seq<Str>, file: nat)
    requires PathsNamed(paths, published) && file < UINT64_LIMIT
    requires forall p | p in published :: p.file != file
    ensures NameOf(file) !in paths
  {
    if NameOf(file) in paths {
      var p :| p in published && p.file < UINT64_LIMIT && NameOf(p.file) == NameOf(file);
      NameIsInjective(p.file, file);
    }
  }

  /** The flush thread's file always exists and is in use nowhere else. */
  lemma AcquiredIsUsable(c: Config, d: DiskView, s: State)
    requires DiskRepresents(d, s) && FilesOrdered(c, s) && s.flush.Acquired? && AllFit(s.flush.log)
    ensures CanPublish(d, s.flush.file, s.flush.log)
  {
    SpareIsNew(c, s);
    assert s.flush.file == Spare(s)[0] && s.flush.file in Spare(s);
    UnusedName(s.published, d.paths, s.flush.file);
  }

  /** And so is the file that the pool's worker makes. */
  lemma NewFileIsUsable(c: Config, d: DiskView, s: State)
    requires DiskRepresents(d, s) && FilesOrdered(c, s) && s.worker.Creating? && s.nextFile <= UINT64_LIMIT
    ensures d.worker.file < UINT64_LIMIT && NameOf(d.worker.file) !in d.paths
  {
    SpareIsNew(c, s);
    UnusedName(s.published, d.paths, s.worker.file);
  }

  /** What the object assumes of lengths and file numbers. */
  predicate Assumed(s: State, a: Action) {
    (a.Write? ==> Fits(a.entry)) && (a.StartFile? ==> s.nextFile < UINT64_LIMIT)
  }

  /** The object may run a piece of code exactly when the machine may perform its action. */
  lemma GuardsAgree(c: Config, w: World, s: State, a: Action)
    requires Represents(w, s) && Inv(c, s) && Limits(s)
    ensures Allowed(c, w, a) <==> Enabled(c, s, a) && Assumed(s, a)
  {
    match a
    case Publish =>
      if s.flush.Acquired? {
        FlightFits(s);
        AcquiredIsUsable(c, w.view.disk, s);
      }
    case PushFile => SpareIsNew(c, s);
    case BeginClose => assert s.barriers == map[] <==> s.barriers.Keys == {};
    case _ =>
  }

  lemma DiskFollows(c: Config, w: World, s: State, a: Action, n: nat)
    requires Represents(w, s) && Inv(c, s) && Limits(s) && Allowed(c, w, a) && Enabled(c, s, a)
    ensures DiskRepresents(Run(c, w, a, n).view.disk, Do(c, s, a))
  {
    match a
    case Acquire => AcquireOnDisk(c, w.view.disk, s);
    case Publish => PublishOnDisk(c, w.view.disk, s);
    case StartFile => StartOnDisk(c, w.view.disk, s);
    case PushFile => PushOnDisk(c, w.view.disk, s, n);
    case EndClose => EndOnDisk(c, w.view.disk, s);
    case _ => DiskUntouched(c, w.view.disk, s, a);
  }

  lemma MemoryFollows(c: Config, w: World, s: State, a: Action, n: nat)
    requires Represents(w, s) && Allowed(c, w, a) && Enabled(c, s, a)
    ensures var w', s' := Run(c, w, a, n), Do(c, s, a);
            && w'.view.mem == s'.mem && w'.view.inProgress == s'.inProgress
            && w'.flush == s'.flush && w'.stage == s'.stage && w'.history == s'.history
  {
  }

  lemma CallsFollow(c: Config, w: World, s: State, a: Action, n: nat)
    requires Represents(w, s) && Allowed(c, w, a) && Enabled(c, s, a)
    ensures var w', s' := Run(c, w, a, n), Do(c, s, a);
            w'.writers == s'.writers && w'.barriers == s'.barriers.Keys
  {
  }

  lemma StaysInLimits(c: Config, s: State, a: Action)
    requires Limits(s) && Enabled(c, s, a) && Assumed(s, a)
    ensures Limits(Do(c, s, a))
  {
  }

  /** One piece of the object's code, whatever the other threads are doing, performs the
      machine's action. */
  lemma StepSimulates(c: Config, w: World, s: State, a: Action, n: nat)
    requires Represents(w, s) && Inv(c, s) && Limits(s) && Allowed(c, w, a)
    ensures Enabled(c, s, a) && Represents(Run(c, w, a, n), Do(c, s, a))
    ensures Inv(c, Do(c, s, a)) && Limits(Do(c, s, a))
  {
    GuardsAgree(c, w, s, a);
    DiskFollows(c, w, s, a, n);
    MemoryFollows(c, w, s, a, n);
    CallsFollow(c, w, s, a, n);
    ActionKeepsInv(c, s, a);
    StaysInLimits(c, s, a);
  }
}
