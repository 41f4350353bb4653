/** What the native store's object looks like from outside the heap, and the effect of each
    piece of its code on that view. */
module StoreViews {
  import opened Wrappers
  import opened Bytes
  import opened Log
  import opened SSTable
  import opened Machine
  import opened Reads
  import opened PrefixReads
  import opened Directory
  import opened DirectoryRuns
  import opened TableManager
  import opened MemoryTables

  /** The directory, the published tables (oldest first) with the names of their files
      (newest first), and the pool of files. */
  datatype DiskView = DiskView(
    files: map<Str, Str>,
    tables: seq<SSTable.Table>,
    paths: seq<Str>,
    pool: seq<nat>,
    worker: Worker,
    nextId: nat,
    shutdown: bool)

  datatype StoreView = StoreView(mem: Memory, inProgress: bool, disk: DiskView)

  // ---- The pool of files ----

  function AfterStart(d: DiskView): DiskView {
    d.(worker := Creating(d.nextId), nextId := d.nextId + 1)
  }

  /** The new file, with `preAllocated` zero bytes, joins the pool unless that shuts down. */
  function AfterPush(d: DiskView, preAllocated: nat): DiskView
    requires d.worker.Creating? && d.worker.file < UINT64_LIMIT
  {
    d.(files := Created(d.files, d.worker.file, preAllocated),
    pool := if d.shutdown then d.pool else d.pool + [d.worker.file],
    worker := Waiting)
  }

  function AfterAcquire(d: DiskView): DiskView
    requires d.pool != []
  {
    d.(pool := d.pool[1..])
  }

  function NextFile(d: DiskView): nat {
    if d.worker.Creating? then d.worker.file else d.nextId
  }

  /** A wait for a file ends: there is one, or the worker will make one that is not in use. */
  predicate WaitEnds(d: DiskView, poolSize: nat) {
    || d.pool != []
    || (!d.shutdown && poolSize >= 1 && NextFile(d) < UINT64_LIMIT && NameOf(NextFile(d)) !in d.paths)
  }

  /** The wait of `acquire`, in which the worker makes a file when the pool is empty. */
  function AfterWait(d: DiskView, poolSize: nat, preAllocated: nat): (e: DiskView)
    requires WaitEnds(d, poolSize)
    ensures e.pool != []
  {
    if d.pool != [] then d
    else AfterPush(if d.worker.Creating? then d else AfterStart(d), preAllocated)
  }

  // ---- Flushing ----

  /** The table's records fit, and its file exists and is used by no published table. */
  predicate CanPublish(d: DiskView, file: nat, log: Log) {
    AllFit(log) && file < UINT64_LIMIT && NameOf(file) in d.files && NameOf(file) !in d.paths
  }

  /** The file gets the records, in front of whatever lies behind them, and is indexed. */
  function AfterPublish(d: DiskView, file: nat, log: Log): DiskView
    requires CanPublish(d, file, log)
  {
    var name := NameOf(file);
    d.(files := Written(d.files, file, log),
    tables := d.tables + [Flushed(log, Behind(d.files[name], |Serialize(log)|))],
    paths := [name] + d.paths)
  }

  predicate CanFlush(d: DiskView, log: Log, poolSize: nat, preAllocated: nat) {
    log != [] ==>
      && WaitEnds(d, poolSize)
      && var e := AfterWait(d, poolSize, preAllocated); CanPublish(AfterAcquire(e), e.pool[0], log)
  }

  /** `FlushMemtableToL0`: nothing for an empty table; otherwise the oldest file of the pool,
      when there is one, is written and published. */
  function AfterFlush(d: DiskView, log: Log, poolSize: nat, preAllocated: nat): DiskView
    requires CanFlush(d, log, poolSize, preAllocated)
  {
    if log == [] then d
    else
      var e := AfterWait(d, poolSize, preAllocated);
      AfterPublish(AfterAcquire(e), e.pool[0], log)
  }

  /** The drain loop of `close` can run to its end. */
  predicate CanDrain(d: DiskView, queue: seq<Log>, poolSize: nat, preAllocated: nat)
    decreases |queue|
  {
    queue != [] ==>
      && CanFlush(d, queue[0], poolSize, preAllocated)
      && CanDrain(AfterFlush(d, queue[0], poolSize, preAllocated), queue[1..], poolSize, preAllocated)
  }

  /** The drain loop of `close`: every queued table, oldest first. */
  function AfterDrain(d: DiskView, queue: seq<Log>, poolSize: nat, preAllocated: nat): DiskView
    requires CanDrain(d, queue, poolSize, preAllocated)
    decreases |queue|
  {
    if queue == [] then d
    else AfterDrain(AfterFlush(d, queue[0], poolSize, preAllocated), queue[1..], poolSize, preAllocated)
  }

  // ---- Threads ----

  /** The predicate of the barrier's wait. */
  predicate BarrierMayLeave(v: StoreView) {
    v.mem.queue == [] && !v.inProgress
  }

  /** The oldest table leaves the queue, and the flush loop raises the flag with it. */
  function AfterPop(v: StoreView, inProgress: bool): StoreView
    requires v.mem.queue != []
  {
    v.(mem := v.mem.(queue := v.mem.queue[1..]), inProgress := inProgress)
  }

  /** `close` after the flush thread has been joined. */
  predicate CanClose(v: StoreView, poolSize: nat, preAllocated: nat) {
    CanDrain(v.disk, RotateNonEmpty(v.mem).queue, poolSize, preAllocated)
  }

  function AfterClose(v: StoreView, poolSize: nat, preAllocated: nat): StoreView
    requires CanClose(v, poolSize, preAllocated)
  {
    var m := RotateNonEmpty(v.mem);
    var drained := AfterDrain(v.disk, m.queue, poolSize, preAllocated);
    StoreView(Memory(m.active, []), v.inProgress, drained.(shutdown := true))
  }

  // ---- Reads ----

  /** A point read: memory as it is in the locked phase and, when it lacks the key, the
      tables as they are when the list head is loaded; the tombstone is not shown. */
  function PointReadFrom(locked: StoreView, loaded: StoreView, key: Str): Option<Str> {
    var found := MemoryGet(locked.mem, key);
    Live(if found.Some? then found else TablesGet(loaded.disk.tables, key))
  }

  function PointRead(v: StoreView, key: Str): Option<Str> {
    PointReadFrom(v, v, key)
  }

  /** What a prefix read decides for one key, with the same two phases. */
  function PrefixReadFrom(locked: StoreView, loaded: StoreView, prefix: Str, key: Str): Option<Str> {
    Live(AfterTables(loaded.disk.tables, prefix, key, ScanTables(MemoryLogs(locked.mem), prefix, key, None)))
  }

  function PrefixRead(v: StoreView, prefix: Str, key: Str): Option<Str> {
    PrefixReadFrom(v, v, prefix, key)
  }

  /** A write that does not wait is what a point read of its key returns next, unless it is
      a tombstone; no other key reads differently, whether or not a table was sealed. */
  lemma MutationReads(c: Config, v: StoreView, e: Entry, key: Str)
    ensures PointRead(v.(mem := AfterMutation(c, v.mem, e)), key) ==
            if key != e.key then PointRead(v, key)
            else if e.value == "__LSM_TOMBSTONE_v1__" then None else Some(e.value)
  {
    AppendReads(v.mem, e, key);
    ResumedReads(v, e, key);
  }

  /** The same for a write that has waited. */
  lemma ResumedReads(v: StoreView, e: Entry, key: Str)
    ensures PointRead(v.(mem := Append(Rotate(v.mem), e)), key) ==
            if key != e.key then PointRead(v, key)
            else if e.value == "__LSM_TOMBSTONE_v1__" then None else Some(e.value)
  {
    RotateReads(v.mem, key);
    AppendReads(Rotate(v.mem), e, key);
  }

  // ---- Open ----

  /** The object that the constructor builds over a directory. */
  function Opened(dir: map<Str, Str>, listing: seq<Str>): StoreView
    requires forall f | f in OrderedFiles(listing) :: f.name in dir
  {
    var files := OrderedFiles(listing);
    StoreView(Memory([], []), false,
              DiskView(dir, RecoverFiles(files, dir), NamesNewestFirst(files),
                       [], Waiting, MaxId(Found(listing)) + 1, false))
  }

  /** The pool of the opened object starts one above the greatest number found, or at one. */
  lemma OpenedNumbers(dir: map<Str, Str>, listing: seq<Str>)
    requires forall f | f in OrderedFiles(listing) :: f.name in dir
    ensures var next := Opened(dir, listing).disk.nextId;
            && (forall name | name in listing && ParseName(name).Some? :: ParseName(name).value < next)
            && (next == 1 || exists name :: name in listing && ParseName(name) == Some(next - 1))
  {
    var next := Opened(dir, listing).disk.nextId;
    forall name | name in listing && ParseName(name).Some?
      ensures ParseName(name).value < next
    {
      FoundHolds(listing, FoundFile(ParseName(name).value, name));
    }
    if next != 1 {
      MaxIdIsFound(Found(listing));
      var f :| f in Found(listing) && f.id == next - 1;
      FoundHolds(listing, f);
    }
  }
}
