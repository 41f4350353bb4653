/** The native store as a state machine. One action is one stretch of code between two
    points where the state mutex is released: the critical sections of the writers, of
    the barriers, of the flush thread, of the file pool's worker and of `close`. */
module Machine {
  import opened Bytes
  import opened Log
  import opened MemtableLog

  datatype Config = Config(maxBytes: nat, maxImmutable: nat, poolSize: nat)

  /** The constructor replaces zero limits by defaults. */
  predicate ValidConfig(c: Config) {
    c.maxBytes > 0 && c.maxImmutable > 0
  }

  /** What the state mutex protects: the active table and the immutable queue, oldest first. */
  datatype Memory = Memory(active: Log, queue: seq<Log>)

  predicate NeedsRotation(c: Config, m: Memory, e: Entry) {
    Size(m.active) + EntrySize(e) > c.maxBytes && Size(m.active) > 0
  }

  predicate HasRoom(c: Config, m: Memory) {
    |m.queue| < c.maxImmutable
  }

  function Rotate(m: Memory): Memory {
    Memory([], m.queue + [m.active])
  }

  function Append(m: Memory, e: Entry): Memory {
    m.(active := m.active + [e])
  }

  /** `writeBarrier` and `close` rotate without looking at the queue limit. */
  function RotateNonEmpty(m: Memory): Memory {
    if m.active == [] then m else Rotate(m)
  }

  datatype Published = Published(file: nat, log: Log)

  /** The thread that is flushing: with a table popped, with a file for it, or with the
      table published and the in-progress flag still up. */
  datatype Flush = Idle | Popped(log: Log) | Acquired(log: Log, file: nat) | Finished

  datatype Worker = Waiting | Creating(file: nat)

  datatype Stage = Open | Joining | Draining | Closed

  /** `writers` and `barriers` are the blocked calls. A barrier's number is how much history
      there was when it was called; `history` itself is a history variable. */
  datatype State = State(
    mem: Memory,
    flush: Flush,
    inProgress: bool,
    published: seq<Published>,
    writers: map<nat, Entry>,
    barriers: map<nat, nat>,
    pool: seq<nat>,
    worker: Worker,
    nextFile: nat,
    stage: Stage,
    history: Log)

  datatype Action =
    | Write(id: nat, entry: Entry)  // _batchMutation, up to its return or its wait
    | Resume(id: nat)               // _batchMutation, after the back-pressure wait
    | EnterBarrier(id: nat)         // writeBarrier, up to its wait
    | LeaveBarrier(id: nat)         // writeBarrier, after its wait
    | Pop                           // the flush loop, or close, takes the oldest table
    | Skip                          // an empty table is not flushed
    | Acquire                       // FilePool::acquire
    | Publish                       // the table is written, indexed and prepended
    | Clear                         // the flush loop lowers the flag
    | StartFile | PushFile          // FilePool::replenish
    | BeginClose | Drain | EndClose // close: flag up; thread joined; queue drained

  function InFlight(s: State): Log {
    match s.flush
    case Idle => []
    case Popped(log) => log
    case Acquired(log, _) => log
    case Finished => []
  }

  function Logs(tables: seq<Published>): (logs: seq<Log>)
    ensures |logs| == |tables|
  {
    if tables == [] then [] else Logs(tables[..|tables| - 1]) + [tables[|tables| - 1].log]
  }

  /** No client call runs concurrently with `close` or after it. */
  predicate Enabled(c: Config, s: State, a: Action) {
    match a
    case Write(id, _) => s.stage == Open && id !in s.writers
    case Resume(id) => id in s.writers && HasRoom(c, s.mem)
    case EnterBarrier(id) => s.stage == Open && id !in s.barriers
    case LeaveBarrier(id) => id in s.barriers && s.mem.queue == [] && !s.inProgress
    case Pop => s.stage != Closed && s.flush == Idle && s.mem.queue != []
    case Skip => s.flush == Popped([])
    case Acquire => s.flush.Popped? && s.flush.log != [] && s.pool != []
    case Publish => s.flush.Acquired?
    case Clear => s.flush == Finished
    case StartFile => s.stage != Closed && s.worker == Waiting && |s.pool| < c.poolSize
    case PushFile => s.worker.Creating?
    case BeginClose => s.stage == Open && s.writers == map[] && s.barriers == map[]
    case Drain => s.stage == Joining && s.flush == Idle && s.mem.queue == []
    case EndClose => s.stage == Draining && s.flush == Idle && s.mem.queue == []
  }

  function Commit(s: State, m: Memory, e: Entry): State {
    s.(mem := Append(m, e), history := s.history + [e])
  }

  function Do(c: Config, s: State, a: Action): State
    requires Enabled(c, s, a)
  {
    match a
    case Write(id, e) =>
      if !NeedsRotation(c, s.mem, e) then Commit(s, s.mem, e)
      else if HasRoom(c, s.mem) then Commit(s, Rotate(s.mem), e)
      else s.(writers := s.writers[id := e])
    case Resume(id) =>
      Commit(s, Rotate(s.mem), s.writers[id]).(writers := s.writers - {id})
    case EnterBarrier(id) =>
      s.(mem := RotateNonEmpty(s.mem), barriers := s.barriers[id := |s.history|])
    case LeaveBarrier(id) =>
      s.(barriers := s.barriers - {id})
    case Pop =>
      s.(flush := Popped(s.mem.queue[0]),
      mem := s.mem.(queue := s.mem.queue[1..]),
      inProgress := s.stage != Draining)
    case Skip => s.(flush := Finished)
    case Acquire => s.(flush := Acquired(s.flush.log, s.pool[0]), pool := s.pool[1..])
    case Publish => s.(flush := Finished, published := s.published + [Published(s.flush.file, s.flush.log)])
    case Clear => s.(flush := Idle, inProgress := false)
    case StartFile => s.(worker := Creating(s.nextFile), nextFile := s.nextFile + 1)
    case PushFile =>
      s.(worker := Waiting, pool := if s.stage == Closed then s.pool else s.pool + [s.worker.file])
    case BeginClose => s.(stage := Joining)
    case Drain => s.(stage := Draining, mem := RotateNonEmpty(s.mem))
    case EndClose => s.(stage := Closed)
  }

  ghost predicate Next(c: Config, s: State, s': State) {
    exists a :: Enabled(c, s, a) && s' == Do(c, s, a)
  }

  predicate Ascending(ids: seq<nat>) {
    forall i, j | 0 <= i < j < |ids| :: ids[i] < ids[j]
  }

  function Files(tables: seq<Published>): (ids: seq<nat>)
    ensures |ids| == |tables|
    ensures forall i | 0 <= i < |tables| :: ids[i] == tables[i].file
  {
    seq(|tables|, i requires 0 <= i < |tables| => tables[i].file)
  }

  /** A freshly opened store: the recovered tables in file order, and a pool that will
      hand out larger file numbers. */
  predicate Init(c: Config, s: State) {
    && ValidConfig(c)
    && s.mem == Memory([], []) && s.flush == Idle && !s.inProgress
    && s.writers == map[] && s.barriers == map[]
    && s.pool == [] && s.worker == Waiting && s.stage == Open
    && s.history == Flat(Logs(s.published))
    && Ascending(Files(s.published))
    && forall i | 0 <= i < |s.published| :: s.published[i].file < s.nextFile
  }

  ghost predicate StepAt(c: Config, run: seq<State>, i: nat)
    requires i + 1 < |run|
  {
    Next(c, run[i], run[i + 1])
  }

  /** Consecutive states of any interleaving. */
  ghost predicate IsPath(c: Config, run: seq<State>) {
    run != [] && forall i: nat | i + 1 < |run| :: StepAt(c, run, i)
  }

  ghost predicate IsRun(c: Config, run: seq<State>) {
    IsPath(c, run) && Init(c, run[0])
  }
}
