/** The directory along a run of the store: the pool's worker creates files, the flush thread
    writes them, and what they leave can be opened again. */
module DirectoryRuns {
  import opened Wrappers
  import opened Bytes
  import opened Log
  import opened SSTable
  import opened Machine
  import opened Invariants
  import opened Reads
  import opened Directory

  // ---- What each action does to the directory ----

  /** The pool's worker makes a file, with some zero bytes when it pre-allocates. */
  function Created(dir: map<Str, Str>, file: nat, n: nat): map<Str, Str> {
    dir[NameOf(file) := Zeros(n)]
  }

  /** The records of a table are written from the start of its file. */
  function Written(dir: map<Str, Str>, file: nat, log: Log): map<Str, Str>
    requires AllFit(log)
  {
    var name := NameOf(file);
    var before := if name in dir then dir[name] else [];
    dir[name := Serialize(log) + Behind(before, |Serialize(log)|)]
  }

  /** Nothing is known of the bytes when a length does not fit its field. */
  ghost predicate DirectoryStep(s: State, a: Action, dir: map<Str, Str>, dir': map<Str, Str>) {
    match a
    case PushFile => s.worker.Creating? && exists n :: dir' == Created(dir, s.worker.file, n)
    case Publish => s.flush.Acquired? && (AllFit(s.flush.log) ==> dir' == Written(dir, s.flush.file, s.flush.log))
    case _ => dir' == dir
  }

  ghost predicate DirectoryStepAt(c: Config, run: seq<State>, dirs: seq<map<Str, Str>>, i: nat)
    requires i + 1 < |run| == |dirs|
  {
    DirectoryNext(c, run[i], run[i + 1], dirs[i], dirs[i + 1])
  }

  ghost predicate DirectoryNext(c: Config, s: State, s': State, dir: map<Str, Str>, dir': map<Str, Str>) {
    exists a :: Enabled(c, s, a) && s' == Do(c, s, a) && DirectoryStep(s, a, dir, dir')
  }

  /** A run, and the directory in each of its states. */
  ghost predicate IsDirectoryRun(c: Config, run: seq<State>, dirs: seq<map<Str, Str>>) {
    && run != [] && |run| == |dirs| && Init(c, run[0])
    && DirectoryHolds(dirs[0], run[0].published)
    && forall i: nat | i + 1 < |run| :: DirectoryStepAt(c, run, dirs, i)
  }

  /** File numbers stay below 2^64, and keys and values below 2^32 bytes. */
  ghost predicate WithinLimits(s: State) {
    s.nextFile <= UINT64_LIMIT && AllFit(s.history)
  }

  // ---- What every action keeps ----

  /** The files that hold no records yet: the one the flush thread holds, and the pool. */
  function Spare(s: State): seq<nat> {
    (if s.flush.Acquired? then [s.flush.file] else []) + s.pool
  }

  /** These files exist and hold nothing but zeros. */
  ghost predicate AreBlank(files: map<Str, Str>, spare: seq<nat>) {
    forall f | f in spare :: f < UINT64_LIMIT && NameOf(f) in files && exists n :: files[NameOf(f)] == Zeros(n)
  }

  ghost predicate DirectoryFits(dir: map<Str, Str>, s: State) {
    DirectoryHolds(dir, s.published) && AreBlank(dir, Spare(s))
  }

  lemma BehindZeros(n: nat, m: nat)
    ensures Behind(Zeros(n), m) == Zeros(if m <= n then n - m else 0)
  {
  }

  /** File numbers further along the order belong to no published table. */
  lemma LaterFileIsNew(published: seq<Published>, later: seq<nat>, k: nat)
    requires Ascending(Files(published) + later) && k < |later|
    ensures forall p | p in published :: p.file != later[k]
  {
    var numbers := Files(published) + later;
    forall p | p in published
      ensures p.file != later[k]
    {
      var i :| 0 <= i < |published| && published[i] == p;
      assert numbers[i] == p.file && numbers[|published| + k] == later[k];
    }
  }

  /** Files without records, and the one being created, are distinct, belong to no published
      table and have been numbered. */
  lemma SpareIsNew(c: Config, s: State)
    requires FilesOrdered(c, s)
    ensures Ascending(Spare(s))
    ensures Spare(s) != [] ==> forall p | p in s.published :: p.file != Spare(s)[0]
    ensures s.worker.Creating? ==> s.worker.file < s.nextFile && forall p | p in s.published :: p.file != s.worker.file
  {
    var creating := if s.worker.Creating? then [s.worker.file] else [];
    var spare := Spare(s);
    var numbers := Files(s.published) + (spare + creating);
    assert FilesInUse(s) == numbers;
    assert forall i | 0 <= i < |spare| :: numbers[|s.published| + i] == spare[i];
    if spare != [] {
      LaterFileIsNew(s.published, spare + creating, 0);
    }
    if s.worker.Creating? {
      assert numbers[|numbers| - 1] == s.worker.file;
      LaterFileIsNew(s.published, spare + creating, |spare|);
    }
  }

  lemma CreatingKeeps(c: Config, s: State, dir: map<Str, Str>, n: nat)
    requires FilesOrdered(c, s) && DirectoryFits(dir, s) && s.worker.Creating? && s.nextFile <= UINT64_LIMIT
    ensures DirectoryHolds(Created(dir, s.worker.file, n), s.published)
    ensures AreBlank(Created(dir, s.worker.file, n), Spare(s) + [s.worker.file])
  {
    SpareIsNew(c, s);
    CreateKeepsDirectory(dir, s.published, s.worker.file, n);
  }

  /** Writing a blank file leaves the other blank files as they were. */
  lemma OthersStayBlank(spare: seq<nat>, dir: map<Str, Str>, bytes: Str)
    requires spare != [] && Ascending(spare) && AreBlank(dir, spare)
    ensures AreBlank(dir[NameOf(spare[0]) := bytes], spare[1..])
  {
    forall f | f in spare[1..]
      ensures f < UINT64_LIMIT && NameOf(f) in dir
      ensures exists n :: dir[NameOf(spare[0]) := bytes][NameOf(f)] == Zeros(n)
    {
      var i :| 1 <= i < |spare| && spare[i] == f;
      assert spare[0] < spare[i] && spare[0] in spare && f in spare;
      if NameOf(f) == NameOf(spare[0]) {
        NameIsInjective(f, spare[0]);
      }
    }
  }

  lemma WritingKeeps(dir: map<Str, Str>, published: seq<Published>, spare: seq<nat>, log: Log)
    requires DirectoryHolds(dir, published) && AreBlank(dir, spare) && spare != [] && Ascending(spare) && AllFit(log)
    ensures DirectoryHolds(Written(dir, spare[0], log), published + [Published(spare[0], log)])
    ensures AreBlank(Written(dir, spare[0], log), spare[1..])
  {
    assert spare[0] in spare;
    var n :| dir[NameOf(spare[0])] == Zeros(n);
    var tail := Behind(dir[NameOf(spare[0])], |Serialize(log)|);
    BehindZeros(n, |Serialize(log)|);
    PublishKeepsDirectory(dir, published, Published(spare[0], log), Serialize(log) + tail);
    OthersStayBlank(spare, dir, Serialize(log) + tail);
  }

  lemma PartFits(log: Log, part: Log, before: Log, after: Log)
    requires AllFit(log) && log == before + part + after
    ensures AllFit(part)
  {
    assert forall i | 0 <= i < |part| :: part[i] == log[|before| + i];
  }

  lemma FlightFits(s: State)
    requires Conserved(s) && AllFit(s.history)
    ensures AllFit(InFlight(s))
  {
    var pub, rest := Flat(Logs(s.published)), Flat(s.mem.queue) + s.mem.active;
    assert s.history == pub + InFlight(s) + rest;
    PartFits(s.history, InFlight(s), pub, rest);
  }

  lemma PublishFits(c: Config, s: State, dir: map<Str, Str>)
    requires FilesOrdered(c, s) && DirectoryFits(dir, s) && s.flush.Acquired? && AllFit(s.flush.log)
    ensures DirectoryFits(Written(dir, s.flush.file, s.flush.log), Do(c, s, Publish))
  {
    SpareIsNew(c, s);
    WritingKeeps(dir, s.published, Spare(s), s.flush.log);
    assert Spare(s)[1..] == s.pool == Spare(Do(c, s, Publish));
  }

  lemma PushFits(c: Config, s: State, dir: map<Str, Str>, n: nat)
    requires FilesOrdered(c, s) && DirectoryFits(dir, s) && s.worker.Creating? && s.nextFile <= UINT64_LIMIT
    ensures DirectoryFits(Created(dir, s.worker.file, n), Do(c, s, PushFile))
  {
    CreatingKeeps(c, s, dir, n);
    assert forall f | f in Spare(Do(c, s, PushFile)) :: f in Spare(s) + [s.worker.file];
  }

  lemma OtherActionsFit(c: Config, s: State, a: Action, dir: map<Str, Str>)
    requires Enabled(c, s, a) && !a.Publish? && !a.PushFile? && DirectoryFits(dir, s)
    ensures DirectoryFits(dir, Do(c, s, a))
  {
    if a.Acquire? {
      assert Spare(Do(c, s, a)) == [s.pool[0]] + s.pool[1..] == Spare(s);
    }
  }

  /** Whatever the other threads do meanwhile: the file of every published table holds its
      records, and the files that are still to be written are blank. */
  lemma StepFits(c: Config, s: State, a: Action, dir: map<Str, Str>, dir': map<Str, Str>)
    requires Inv(c, s) && Enabled(c, s, a) && DirectoryStep(s, a, dir, dir')
    requires DirectoryFits(dir, s) && WithinLimits(s)
    ensures DirectoryFits(dir', Do(c, s, a))
  {
    if a.Publish? {
      FlightFits(s);
      PublishFits(c, s, dir);
    } else if a.PushFile? {
      var n :| dir' == Created(dir, s.worker.file, n);
      PushFits(c, s, dir, n);
    } else {
      OtherActionsFit(c, s, a, dir);
    }
  }

  // ---- Along a run ----

  lemma DirectoryRunIsRun(c: Config, run: seq<State>, dirs: seq<map<Str, Str>>)
    requires IsDirectoryRun(c, run, dirs)
    ensures IsRun(c, run)
  {
    forall i: nat | i + 1 < |run|
      ensures StepAt(c, run, i)
    {
      assert DirectoryStepAt(c, run, dirs, i);
    }
  }

  lemma NextFits(c: Config, s: State, s': State, dir: map<Str, Str>, dir': map<Str, Str>)
    requires Inv(c, s) && DirectoryNext(c, s, s', dir, dir') && DirectoryFits(dir, s) && WithinLimits(s)
    ensures DirectoryFits(dir', s')
  {
    var a :| Enabled(c, s, a) && s' == Do(c, s, a) && DirectoryStep(s, a, dir, dir');
    StepFits(c, s, a, dir, dir');
  }

  lemma DirectoryGoesOn(c: Config, run: seq<State>, n: nat, before: seq<State>, earlier: seq<map<Str, Str>>)
    returns (dirs: seq<map<Str, Str>>)
    requires IsRun(c, run) && |run| == n + 1 && n > 0 && before == run[..n] && IsDirectoryRun(c, before, earlier)
    ensures IsDirectoryRun(c, run, dirs) && dirs[0] == earlier[0]
  {
    assert StepAt(c, run, n - 1);
    var last := DirectoryAfter(c, run[n - 1], run[n], earlier[n - 1]);
    dirs := earlier + [last];
    forall i: nat | i + 1 < |run|
      ensures DirectoryStepAt(c, run, dirs, i)
    {
      assert i + 1 < n ==> DirectoryStepAt(c, before, earlier, i);
    }
  }

  lemma RunBefore(c: Config, run: seq<State>, n: nat, before: seq<State>)
    requires IsRun(c, run) && 0 < n <= |run| && before == run[..n]
    ensures IsRun(c, before)
  {
    forall i: nat | i + 1 < n
      ensures StepAt(c, before, i)
    {
      assert StepAt(c, run, i);
    }
  }

  /** Some directory goes with every run. */
  lemma {:induction false} DirectoriesExist(c: Config, run: seq<State>, dir: map<Str, Str>)
    returns (dirs: seq<map<Str, Str>>)
    requires IsRun(c, run) && DirectoryHolds(dir, run[0].published)
    ensures IsDirectoryRun(c, run, dirs) && dirs[0] == dir
    decreases |run|
  {
    var n := |run| - 1;
    if n == 0 {
      dirs := [dir];
    } else {
      var before := run[..n];
      RunBefore(c, run, n, before);
      var earlier := DirectoriesExist(c, before, dir);
      dirs := DirectoryGoesOn(c, run, n, before, earlier);
    }
  }

  lemma DirectoryAfter(c: Config, s: State, s': State, dir: map<Str, Str>) returns (dir': map<Str, Str>)
    requires Next(c, s, s')
    ensures DirectoryNext(c, s, s', dir, dir')
  {
    var a :| Enabled(c, s, a) && s' == Do(c, s, a);
    dir' := dir;
    if a.PushFile? {
      dir' := Created(dir, s.worker.file, 0);
    } else if a.Publish? && AllFit(s.flush.log) {
      dir' := Written(dir, s.flush.file, s.flush.log);
    }
    assert DirectoryStep(s, a, dir, dir');
  }

  lemma LimitsBefore(c: Config, s: State, s': State)
    requires Next(c, s, s') && WithinLimits(s')
    ensures WithinLimits(s)
  {
    var a :| Enabled(c, s, a) && s' == Do(c, s, a);
    HistoryGrows(c, s, a);
    assert forall i | 0 <= i < |s.history| :: s.history[i] == s'.history[i];
  }

  lemma {:induction false} DirectoryAlong(c: Config, run: seq<State>, dirs: seq<map<Str, Str>>, i: nat)
    requires IsDirectoryRun(c, run, dirs) && i < |run| && WithinLimits(run[i])
    ensures DirectoryFits(dirs[i], run[i])
    decreases i
  {
    if i == 0 {
      assert Spare(run[0]) == [];
    } else {
      assert DirectoryStepAt(c, run, dirs, i - 1);
      LimitsBefore(c, run[i - 1], run[i]);
      DirectoryAlong(c, run, dirs, i - 1);
      DirectoryRunIsRun(c, run, dirs);
      RunInv(c, run, i - 1);
      NextFits(c, run[i - 1], run[i], dirs[i - 1], dirs[i]);
    }
  }

  // ---- Close, then open ----

  lemma PublishedFilesAscend(c: Config, s: State)
    requires FilesOrdered(c, s)
    ensures Ascending(Files(s.published))
  {
    assert forall i | 0 <= i < |s.published| :: Files(s.published)[i] == FilesInUse(s)[i];
  }

  /** After any run that ends with `close`, opening the directory that it left gives a list
      on which every non-empty key reads what the map of all writes holds. */
  lemma CloseThenReopen(c: Config, run: seq<State>, dirs: seq<map<Str, Str>>, j: nat, listing: seq<Str>, key: Str)
    requires IsDirectoryRun(c, run, dirs) && j < |run| && WithinLimits(run[j])
    requires run[j].stage == Closed && Lists(listing, dirs[j]) && key != []
    ensures forall f | f in OrderedFiles(listing) :: f.name in dirs[j]
    ensures Live(TablesGet(RecoverFiles(OrderedFiles(listing), dirs[j]), key)) == Lookup(Contents(run[j].history), key)
  {
    var s := run[j];
    DirectoryRunIsRun(c, run, dirs);
    RunInv(c, run, j);
    DirectoryAlong(c, run, dirs, j);
    PublishedFilesAscend(c, s);
    ClosedIsPublished(s);
    RecoveryReadsPublished(dirs[j], listing, s.published, key);
    NewestFirstIsLast(Logs(s.published), key);
    LastReadsContents(s.history, key);
  }

  /** The reopened store is an initial state of the machine with the history that was
      closed, and its directory is one that a run can start from: all guarantees hold again
      for the runs that follow. */
  lemma ReopenedIsInitial(c: Config, run: seq<State>, dirs: seq<map<Str, Str>>, j: nat, listing: seq<Str>)
    requires IsDirectoryRun(c, run, dirs) && j < |run| && WithinLimits(run[j])
    requires run[j].stage == Closed && Lists(listing, dirs[j])
    ensures var next := Reopened(run[j].published, listing);
            next.history == run[j].history && IsDirectoryRun(c, [next], [dirs[j]])
  {
    DirectoryRunIsRun(c, run, dirs);
    RunInv(c, run, j);
    DirectoryAlong(c, run, dirs, j);
    PublishedFilesAscend(c, run[j]);
    ClosedIsPublished(run[j]);
    OpenedIsInitial(c, run[j].published, dirs[j], listing);
    OpenedHolds(run[j].published, dirs[j], listing);
  }
}
