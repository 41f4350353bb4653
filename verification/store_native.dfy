/** The native store as an object. Every method is one critical section of one thread, or
    one uninterrupted read; its effect is stated on the object's view, and module StoreViews
    proves these effects to be the actions of the state machine. */
module NativeStore {
  import opened Wrappers
  import opened Bytes
  import opened Log
  import opened MemtableLog
  import opened SSTable
  import opened Machine
  import opened PrefixReads
  import opened Directory
  import opened TableManager
  import opened FilePooling
  import opened FileClosing
  import opened MemoryTables
  import opened StoreViews

  datatype MutationType = Put | Del

  /** What `_batchMutation` writes: a deletion is a put of the tombstone. */
  function Mutation(kind: MutationType, key: Str, value: Str): Entry {
    Entry(key, if kind == Del then TOMBSTONE else value)
  }

  ghost function DiskOf(manager: SSTableManager, filePool: FilePool): DiskView
    requires manager.Valid()
    reads manager, manager.nodes, filePool
  {
    DiskView(manager.files, manager.Tables(), PathsOf(manager.nodes),
             filePool.pool, filePool.worker, filePool.nextId, filePool.shutdown)
  }

  class Store {
    const config: Config
    const mem: Tables
    const manager: SSTableManager
    const filePool: FilePool
    const closer: FileCloser
    var flushInProgress: bool

    ghost predicate Valid()
      reads this, mem, mem.active, mem.immutables, manager, manager.nodes, filePool, closer
    {
      && mem.Valid() && manager.Valid() && filePool.Valid() && closer.Valid()
      && filePool.poolSize == config.poolSize
    }

    ghost function View(): StoreView
      requires Valid()
      reads this, mem, mem.active, mem.immutables, manager, manager.nodes, filePool, closer
    {
      StoreView(mem.View(), flushInProgress, Disk())
    }

    ghost function Disk(): DiskView
      requires manager.Valid()
      reads manager, manager.nodes, filePool
    {
      DiskOf(manager, filePool)
    }

    /** Opens a directory: recovery re-indexes its files, and the pool starts above the
        greatest number found. */
    constructor (config: Config, dir: map<Str, Str>, listing: seq<Str>)
      requires forall name | name in listing :: name in dir
      ensures Valid() && this.config == config && !flushInProgress
      ensures closer.state == FileClosing.Initial() && closer.batchSize == config.poolSize
      ensures forall f | f in OrderedFiles(listing) :: f.name in dir
      ensures View() == Opened(dir, listing)
      ensures fresh(mem) && fresh(mem.active) && fresh(manager) && fresh(filePool) && fresh(closer)
    {
      this.mem := new Tables();
      this.closer := new FileCloser(config.poolSize);
      var m, p := OpenDisk(dir, listing, config.poolSize);
      this.config, this.manager, this.filePool, this.flushInProgress := config, m, p, false;
    }

    /** The disk side of the constructor: recovery, then the pool. */
    static method OpenDisk(dir: map<Str, Str>, listing: seq<Str>, poolSize: nat)
      returns (m: SSTableManager, p: FilePool)
      requires forall name | name in listing :: name in dir
      ensures fresh(m) && fresh(p) && m.Valid() && p.Valid() && p.poolSize == poolSize
      ensures forall f | f in OrderedFiles(listing) :: f.name in dir
      ensures DiskOf(m, p) == Opened(dir, listing).disk
    {
      m := new SSTableManager(dir);
      var startId := m.RecoverState(listing);
      p := new FilePool(poolSize, startId);
    }

    /** `_batchMutation` up to its return, or up to its wait when it is blocked. */
    method BatchMutation(kind: MutationType, key: Str, value: Str) returns (blocked: bool)
      requires Valid()
      modifies mem, mem.active
      ensures Valid()
      ensures var m, written := old(View()).mem, Mutation(kind, key, value).value;
              blocked <==> && |m.queue| >= config.maxImmutable
                           && Size(m.active) > 0 && Size(m.active) + |key| + |written| > config.maxBytes
      ensures View() == if blocked then old(View())
                        else old(View()).(mem := AfterMutation(config, old(View()).mem, Mutation(kind, key, value)))
      ensures !blocked ==> PointRead(View(), key) ==
                           if kind == Del || value == "__LSM_TOMBSTONE_v1__" then None else Some(value)
      ensures forall other | other != key :: PointRead(View(), other) == PointRead(old(View()), other)
    {
      var actual := if kind == Del then TOMBSTONE else value;
      ghost var before := View();
      blocked := mem.Mutate(config, key, actual);
      forall k | !blocked
        ensures PointRead(View(), k) == if k != key then PointRead(before, k)
                                        else if actual == "__LSM_TOMBSTONE_v1__" then None else Some(actual)
      {
        MutationReads(config, before, Entry(key, actual), k);
      }
    }

    /** `_batchMutation` after its wait: it rotates whatever table is active by now. */
    method ResumeMutation(key: Str, actual: Str)
      requires Valid()
      modifies mem
      ensures Valid()
      ensures View() == old(View()).(mem := Append(Rotate(old(View()).mem), Entry(key, actual)))
      ensures PointRead(View(), key) == if actual == "__LSM_TOMBSTONE_v1__" then None else Some(actual)
      ensures forall other | other != key :: PointRead(View(), other) == PointRead(old(View()), other)
    {
      ghost var before := View();
      mem.RotateThenAdd(key, actual);
      forall k
        ensures PointRead(View(), k) == if k != key then PointRead(before, k)
                                        else if actual == "__LSM_TOMBSTONE_v1__" then None else Some(actual)
      {
        ResumedReads(before, Entry(key, actual), k);
      }
    }

    /** `writeBarrier` up to its wait. */
    method EnterBarrier()
      requires Valid()
      modifies mem
      ensures Valid() && View() == old(View()).(mem := RotateNonEmpty(old(View()).mem))
    {
      mem.RotateUnlessEmpty();
    }

    /** The predicate of `writeBarrier`'s wait. */
    method BarrierDone() returns (done: bool)
      requires Valid()
      ensures done <==> View().mem.queue == [] && !View().inProgress
    {
      var n := mem.QueueLength();
      done := n == 0 && !flushInProgress;
    }

    /** The critical section of the flush loop: pop and raise the flag together. */
    method PopForFlush() returns (table: Memtable)
      requires Valid() && View().mem.queue != []
      modifies this, mem
      ensures Valid() && View() == AfterPop(old(View()), true)
      ensures table.Valid() && table.data == old(View()).mem.queue[0]
    {
      table := mem.PopOldest();
      flushInProgress := true;
    }

    /** The wait of `acquire`. While the pool is empty its worker makes the next file. */
    method AwaitFile(preAllocated: nat)
      requires Valid() && WaitEnds(Disk(), config.poolSize)
      modifies filePool, manager`files
      ensures Valid() && filePool.pool != []
      ensures Disk() == AfterWait(old(Disk()), config.poolSize, preAllocated)
    {
      if |filePool.pool| == 0 {
        if filePool.worker == Waiting {
          StartFile();
        }
        PushFile(preAllocated);
      }
    }

    /** `acquire` after its wait. */
    method AcquireFile() returns (file: nat)
      requires Valid() && filePool.pool != []
      modifies filePool
      ensures Valid() && Disk() == AfterAcquire(old(Disk())) && file == old(filePool.pool)[0]
    {
      var acquired := filePool.Acquire();
      file := acquired.value;
    }

    /** The table is written to the file, which is handed to the closer, and indexed and
        published. */
    method PublishTable(table: Memtable, file: nat)
      requires Valid() && table.Valid() && table.data != [] && CanPublish(Disk(), file, table.data)
      requires !closer.state.destroyed
      modifies manager, closer
      ensures Valid() && Disk() == AfterPublish(old(Disk()), file, table.data)
      ensures closer.state == FileClosing.Do(closer.batchSize, old(closer.state), Schedule(file))
    {
      forall n | n in manager.nodes
        ensures n.path in PathsOf(manager.nodes)
      {
        NodePath(manager.nodes, n);
      }
      manager.FlushMemtable(table, NameOf(file));
      var notified := closer.ScheduleClose(file);
    }

    /** Empty tables are dropped; others get a file, which may take a wait, are written to
        it, indexed and published. */
    method FlushMemtableToL0(table: Memtable, preAllocated: nat)
      requires Valid() && table.Valid() && !closer.state.destroyed
      requires CanFlush(Disk(), table.data, config.poolSize, preAllocated)
      modifies manager, filePool, closer
      ensures Valid() && !closer.state.destroyed
      ensures Disk() == AfterFlush(old(Disk()), table.data, config.poolSize, preAllocated)
    {
      if |table.data| == 0 {
        return;
      }
      AwaitFile(preAllocated);
      var file := AcquireFile();
      PublishTable(table, file);
    }

    /** The flush loop lowers the flag in a critical section of its own. */
    method ClearFlush()
      requires Valid()
      modifies this
      ensures Valid() && View() == old(View()).(inProgress := false)
    {
      flushInProgress := false;
    }

    /** The pool's worker decides to create the next file. */
    method StartFile()
      requires Valid() && filePool.worker == Waiting && |filePool.pool| < filePool.poolSize && !filePool.shutdown
      modifies filePool
      ensures Valid() && Disk() == AfterStart(old(Disk()))
    {
      var needed := filePool.BeginReplenish();
    }

    /** It has created the file, with `preAllocated` zero bytes, and adds it to the pool
        unless that has shut down. */
    method PushFile(preAllocated: nat)
      requires Valid() && filePool.worker.Creating? && filePool.worker.file < UINT64_LIMIT
      requires NameOf(filePool.worker.file) !in PathsOf(manager.nodes)
      modifies filePool, manager`files
      ensures Valid() && Disk() == AfterPush(old(Disk()), preAllocated)
      ensures var name := NameOf(old(filePool.worker.file));
              name in manager.files && |manager.files[name]| == preAllocated
    {
      manager.CreateFile(NameOf(filePool.worker.file), preAllocated);
      filePool.FinishReplenish();
    }

    /** A point read that no other thread interrupts. */
    method Get(key: Str) returns (value: Option<Str>)
      requires Valid()
      ensures value == PointRead(View(), key)
    {
      var found := mem.Get(key);
      if found == None {
        found := manager.Get(key);
      }
      value := if found == Some(TOMBSTONE) then None else found;
    }

    /** A prefix read that no other thread interrupts: the keys that it shows, ascending,
        each with the value that is shown for it. */
    method GetPrefix(prefix: Str) returns (values: seq<Entry>, foundAny: bool)
      requires Valid()
      ensures forall i, j | 0 <= i < j < |values| :: Smaller(values[i].key, values[j].key)
      ensures forall e | e in values :: |prefix| <= |e.key| && e.key[..|prefix|] == prefix
      ensures forall e :: e in values <==> PrefixRead(View(), prefix, e.key) == Some(e.value)
      ensures foundAny <==> values != []
    {
      var acc := Collect(prefix);
      values := ListAscending(acc.results, acc.deleted);
      foundAny := acc.results != map[];
      ResultsAreSeen(acc);
      NonEmptyListing(acc.results, values);
      InByteOrder(values);
      OnlyWithPrefix(View(), prefix, values);
    }

    /** The three scans of `getPrefix`, each over what the earlier ones decided. */
    method Collect(prefix: Str) returns (acc: ScanState)
      requires Valid()
      ensures fresh(acc) && acc.Valid()
      ensures forall k :: Live(acc.Seen(k)) == PrefixRead(View(), prefix, k)
    {
      acc := new ScanState();
      mem.Scan(prefix, acc);
      var foundOnDisk := manager.Scan(prefix, acc);
    }

    /** `close` from the moment the flush thread has been joined: what is left is flushed
        in order, without the in-progress flag and waiting for files where it must; then
        every file that was handed over is closed, and the pool shuts down. */
    method CloseAfterJoin(preAllocated: nat)
      requires Valid() && CanClose(View(), config.poolSize, preAllocated) && !closer.state.destroyed
      modifies mem, manager, filePool, closer
      ensures Valid() && View() == AfterClose(old(View()), config.poolSize, preAllocated)
      ensures closer.state.destroyed && closer.state.closed == closer.state.scheduled
    {
      mem.RotateUnlessEmpty();
      DrainQueue(preAllocated);
      closer.Finish();
      filePool.Shutdown();
    }

    /** The drain loop of `close`. */
    method DrainQueue(preAllocated: nat)
      requires Valid() && CanDrain(Disk(), mem.View().queue, config.poolSize, preAllocated)
      requires !closer.state.destroyed
      modifies mem, manager, filePool, closer
      ensures Valid() && !closer.state.destroyed
      ensures mem.View() == old(mem.View()).(queue := [])
      ensures Disk() == AfterDrain(old(Disk()), old(mem.View()).queue, config.poolSize, preAllocated)
    {
      ghost var m := mem.View();
      ghost var total := AfterDrain(Disk(), m.queue, config.poolSize, preAllocated);
      var n := mem.QueueLength();
      while n > 0
        invariant Valid() && n == |mem.View().queue| && mem.View().active == m.active
        invariant DrainsTo(Disk(), mem.View().queue, config.poolSize, preAllocated, total)
        invariant !closer.state.destroyed
        decreases n
      {
        n := DrainNext(preAllocated, total);
      }
      DrainsNowhere(Disk(), config.poolSize, preAllocated, total);
    }

    /** One turn of the drain loop; `total` is where the loop will end. */
    method DrainNext(preAllocated: nat, ghost total: DiskView) returns (left: nat)
      requires Valid() && mem.View().queue != [] && !closer.state.destroyed
      requires DrainsTo(Disk(), mem.View().queue, config.poolSize, preAllocated, total)
      modifies mem, manager, filePool, closer
      ensures Valid() && !closer.state.destroyed
      ensures DrainsTo(Disk(), mem.View().queue, config.poolSize, preAllocated, total)
      ensures mem.View() == old(mem.View()).(queue := old(mem.View()).queue[1..])
      ensures left == |mem.View().queue|
    {
      DrainsFurther(Disk(), mem.View().queue, config.poolSize, preAllocated, total);
      FlushOldest(preAllocated);
      left := mem.QueueLength();
    }

    method FlushOldest(preAllocated: nat)
      requires Valid() && mem.View().queue != [] && !closer.state.destroyed
      requires CanFlush(Disk(), mem.View().queue[0], config.poolSize, preAllocated)
      modifies mem, manager, filePool, closer
      ensures Valid() && !closer.state.destroyed
      ensures mem.View() == old(mem.View()).(queue := old(mem.View()).queue[1..])
      ensures Disk() == AfterFlush(old(Disk()), old(mem.View()).queue[0], config.poolSize, preAllocated)
    {
      var table := mem.PopOldest();
      FlushMemtableToL0(table, preAllocated);
    }
  }

  ghost predicate DrainsTo(d: DiskView, queue: seq<Log>, poolSize: nat, n: nat, total: DiskView) {
    CanDrain(d, queue, poolSize, n) && AfterDrain(d, queue, poolSize, n) == total
  }

  lemma DrainsFurther(d: DiskView, queue: seq<Log>, poolSize: nat, n: nat, total: DiskView)
    requires queue != [] && DrainsTo(d, queue, poolSize, n, total)
    ensures CanFlush(d, queue[0], poolSize, n)
    ensures DrainsTo(AfterFlush(d, queue[0], poolSize, n), queue[1..], poolSize, n, total)
  {
  }

  lemma DrainsNowhere(d: DiskView, poolSize: nat, n: nat, total: DiskView)
    ensures DrainsTo(d, [], poolSize, n, total) <==> d == total
  {
  }

  // ---- Listing results in key order ----

  /** Iterating over the ordered map of results. */
  method ListAscending(results: map<Str, Str>, deleted: set<Str>) returns (values: seq<Entry>)
    ensures forall i, j | 0 <= i < j < |values| :: Less(values[i].key, values[j].key)
    ensures forall e :: e in values <==> e.key in results && results[e.key] == e.value && e.key !in deleted
  {
    values := [];
    var rest := results.Keys;
    while rest != {}
      invariant rest <= results.Keys
      invariant forall i, j | 0 <= i < j < |values| :: Less(values[i].key, values[j].key)
      invariant forall i, k | 0 <= i < |values| && k in rest :: Less(values[i].key, k)
      invariant forall e :: e in values <==>
                            e.key in results && e.key !in rest && results[e.key] == e.value && e.key !in deleted
      decreases rest
    {
      LeastExists(rest);
      var key :| key in rest && IsLeast(key, rest);
      rest := rest - {key};
      if key !in deleted {
        values := values + [Entry(key, results[key])];
      }
    }
  }

  lemma InByteOrder(values: seq<Entry>)
    ensures (forall i, j | 0 <= i < j < |values| :: Less(values[i].key, values[j].key)) <==>
            (forall i, j | 0 <= i < j < |values| :: Smaller(values[i].key, values[j].key))
  {
    forall i, j | 0 <= i < j < |values|
      ensures Less(values[i].key, values[j].key) <==> Smaller(values[i].key, values[j].key)
    {
      LessIsSmaller(values[i].key, values[j].key);
    }
  }

  lemma OnlyWithPrefix(v: StoreView, prefix: Str, values: seq<Entry>)
    requires forall e | e in values :: PrefixRead(v, prefix, e.key) == Some(e.value)
    ensures forall e | e in values :: |prefix| <= |e.key| && e.key[..|prefix|] == prefix
  {
    forall e | e in values
      ensures HasPrefix(e.key, prefix)
    {
      if !HasPrefix(e.key, prefix) {
        OutsidePrefix(MemoryLogs(v.mem), prefix, e.key, None);
      }
    }
  }

  lemma ResultsAreSeen(acc: ScanState)
    requires acc.Valid()
    ensures forall k, v ::
              k in acc.results && acc.results[k] == v && k !in acc.deleted <==> Live(acc.Seen(k)) == Some(v)
  {
  }

  lemma NonEmptyListing(results: map<Str, Str>, values: seq<Entry>)
    requires forall e | e in values :: e.key in results
    requires forall k | k in results :: Entry(k, results[k]) in values
    ensures results != map[] <==> values != []
  {
    if values != [] {
      assert values[0] in values;
    }
    if results != map[] {
      var k :| k in results;
      assert Entry(k, results[k]) in values;
    }
  }
}
