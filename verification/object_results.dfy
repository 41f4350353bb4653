/** What the runs of the store's object guarantee, from the directory it was opened on to the
    directory that its close leaves. */
module ObjectResults {
  import opened Wrappers
  import opened Bytes
  import opened Log
  import opened SSTable
  import opened Machine
  import opened Invariants
  import opened Reads
  import opened PrefixReads
  import opened Directory
  import opened DirectoryRuns
  import opened TableManager
  import opened StoreViews
  import opened ObjectRuns

  ghost predicate Next(c: Config, w: World, w': World) {
    exists a, n: nat :: Allowed(c, w, a) && w' == Run(c, w, a, n)
  }

  ghost predicate StepAt(c: Config, ws: seq<World>, i: nat)
    requires i + 1 < |ws|
  {
    Next(c, ws[i], ws[i + 1])
  }

  ghost predicate IsPath(c: Config, ws: seq<World>) {
    ws != [] && forall i: nat | i + 1 < |ws| :: StepAt(c, ws, i)
  }

  /** A directory that holds published tables, listed in any order. */
  datatype Origin = Origin(before: seq<Published>, dir: map<Str, Str>, listing: seq<Str>)

  ghost predicate ValidOrigin(o: Origin) {
    Ascending(Files(o.before)) && DirectoryHolds(o.dir, o.before) && Lists(o.listing, o.dir)
  }

  /** The object right after its constructor. */
  ghost predicate IsOpened(o: Origin, w: World) {
    && (forall f | f in OrderedFiles(o.listing) :: f.name in o.dir)
    && w == World(Opened(o.dir, o.listing), Idle, map[], {}, Open, Flat(Logs(o.before)))
  }

  /** Any interleaving of the object's threads and callers, from its opening on. */
  ghost predicate IsObjectRun(c: Config, o: Origin, ws: seq<World>) {
    ValidConfig(c) && ValidOrigin(o) && IsPath(c, ws) && IsOpened(o, ws[0])
  }

  // ---- Opening ----

  lemma OpenedNames(before: seq<Published>, dir: map<Str, Str>, listing: seq<Str>)
    requires DirectoryHolds(dir, before) && Lists(listing, dir)
    ensures PathsNamed(NamesNewestFirst(OrderedFiles(listing)), ReopenedTables(before, OrderedFiles(listing)))
  {
    var files, tables := OrderedFiles(listing), ReopenedTables(before, OrderedFiles(listing));
    forall i | 0 <= i < |files|
      ensures tables[i].file < UINT64_LIMIT && NameOf(tables[i].file) == files[i].name
    {
      OpenedFile(before, dir, listing, i);
    }
    NamesAreNamed(files, tables);
  }

  lemma {:induction false} NamesAreNamed(files: seq<FoundFile>, tables: seq<Published>)
    requires |files| == |tables|
    requires forall i | 0 <= i < |files| :: tables[i].file < UINT64_LIMIT && NameOf(tables[i].file) == files[i].name
    ensures PathsNamed(NamesNewestFirst(files), tables)
  {
    var paths := NamesNewestFirst(files);
    forall path | path in paths
      ensures exists p :: p in tables && p.file < UINT64_LIMIT && NameOf(p.file) == path
    {
      var i :| 0 <= i < |paths| && paths[i] == path;
      assert tables[|files| - 1 - i] in tables;
    }
  }

  lemma {:induction false} FlatFits(published: seq<Published>)
    requires forall i | 0 <= i < |published| :: AllFit(published[i].log)
    ensures AllFit(Flat(Logs(published)))
  {
    if published == [] {
    } else {
      FlatFits(published[..|published| - 1]);
      FlatSnoc(Logs(published[..|published| - 1]), published[|published| - 1].log);
    }
  }

  lemma {:induction false} FoundBelowLimit(listing: seq<Str>)
    ensures MaxId(Found(listing)) < UINT64_LIMIT
  {
    if listing == [] {
    } else {
      var init, name := listing[..|listing| - 1], listing[|listing| - 1];
      FoundBelowLimit(init);
      var found := Found(init) + [FoundFile(if ParseName(name).Some? then ParseName(name).value else 0, name)];
      assert found[..|found| - 1] == Found(init);
    }
  }

  /** The constructor builds an object that represents an initial state of the machine with
      the history of the directory. */
  lemma OpenSimulates(c: Config, o: Origin, w: World)
    requires ValidConfig(c) && ValidOrigin(o) && IsOpened(o, w)
    ensures var s := Reopened(o.before, o.listing);
            Init(c, s) && s.history == Flat(Logs(o.before)) && Represents(w, s) && Limits(s)
  {
    OpenedIsInitial(c, o.before, o.dir, o.listing);
    OpenedDisk(c, o, w);
    FlatFits(o.before);
    FoundBelowLimit(o.listing);
  }

  lemma OpenedDisk(c: Config, o: Origin, w: World)
    requires ValidConfig(c) && ValidOrigin(o) && IsOpened(o, w)
    ensures DiskRepresents(w.view.disk, Reopened(o.before, o.listing))
  {
    var s := Reopened(o.before, o.listing);
    OpenedIsInitial(c, o.before, o.dir, o.listing);
    OpenedHolds(o.before, o.dir, o.listing);
    OpenedNames(o.before, o.dir, o.listing);
    assert Spare(s) == [];
    DiskParts(w.view.disk, s);
  }

  // ---- Every run of the object is a run of the machine, and the other way round ----

  ghost predicate RunsAlike(c: Config, ws: seq<World>, run: seq<State>) {
    IsRun(c, run) && |run| == |ws| && forall i | 0 <= i < |ws| :: Alike(ws[i], run[i])
  }

  ghost predicate Alike(w: World, s: State) {
    Represents(w, s) && Limits(s)
  }

  lemma OneAlike(c: Config, w: World, s: State)
    requires Init(c, s) && Alike(w, s)
    ensures RunsAlike(c, [w], [s])
  {
  }

  /** One more state on either side. */
  lemma AlikeAfter(c: Config, ws: seq<World>, run: seq<State>, w: World, s: State)
    requires RunsAlike(c, ws, run) && Machine.Next(c, run[|run| - 1], s) && Alike(w, s)
    ensures RunsAlike(c, ws + [w], run + [s])
  {
    RunAfter(c, run, s);
    assert forall i | 0 <= i < |ws| :: Alike(ws[i], run[i]);
  }

  lemma PathBefore(c: Config, ws: seq<World>, n: nat, before: seq<World>)
    requires IsPath(c, ws) && 0 < n <= |ws| && before == ws[..n]
    ensures IsPath(c, before)
  {
    forall i: nat | i + 1 < n
      ensures StepAt(c, before, i)
    {
      assert StepAt(c, ws, i);
    }
  }

  lemma PathAfter(c: Config, ws: seq<World>, w: World)
    requires IsPath(c, ws) && Next(c, ws[|ws| - 1], w)
    ensures IsPath(c, ws + [w])
  {
    forall i: nat | i + 1 < |ws + [w]|
      ensures StepAt(c, ws + [w], i)
    {
      assert i + 1 < |ws| ==> StepAt(c, ws, i);
    }
  }

  lemma RunAfter(c: Config, run: seq<State>, s: State)
    requires IsRun(c, run) && Machine.Next(c, run[|run| - 1], s)
    ensures IsRun(c, run + [s])
  {
    forall i: nat | i + 1 < |run + [s]|
      ensures Machine.StepAt(c, run + [s], i)
    {
      assert i + 1 < |run| ==> Machine.StepAt(c, run, i);
    }
  }

  lemma NextSimulates(c: Config, w: World, w': World, s: State) returns (s': State)
    requires Alike(w, s) && Inv(c, s) && Next(c, w, w')
    ensures Machine.Next(c, s, s') && Alike(w', s')
  {
    var a, n: nat :| Allowed(c, w, a) && w' == Run(c, w, a, n);
    StepSimulates(c, w, s, a, n);
    s' := Do(c, s, a);
  }

  lemma MachineGoesOn(c: Config, ws: seq<World>, run: seq<State>, w: World, w': World) returns (s: State)
    requires ws != [] && RunsAlike(c, ws, run) && w == ws[|ws| - 1] && Next(c, w, w')
    ensures RunsAlike(c, ws + [w'], run + [s])
  {
    var n := |ws| - 1;
    assert Alike(ws[n], run[n]);
    RunInv(c, run, n);
    s := NextSimulates(c, w, w', run[n]);
    AlikeAfter(c, ws, run, w', s);
  }

  lemma LastStep(c: Config, ws: seq<World>, n: nat, before: seq<World>, earlier: seq<State>) returns (s: State)
    requires IsPath(c, ws) && |ws| == n + 1 && n > 0 && before == ws[..n] && RunsAlike(c, before, earlier)
    ensures RunsAlike(c, ws, earlier + [s])
  {
    var w, w' := ws[n - 1], ws[n];
    StepIsNext(c, ws, n - 1, w, w');
    s := MachineGoesOn(c, before, earlier, w, w');
    Snoc(ws, before, w');
    assert ws == before + [w'];
  }

  lemma StepIsNext(c: Config, ws: seq<World>, i: nat, w: World, w': World)
    requires IsPath(c, ws) && i + 1 < |ws| && w == ws[i] && w' == ws[i + 1]
    ensures Next(c, w, w')
  {
    assert StepAt(c, ws, i);
  }

  lemma Snoc(ws: seq<World>, before: seq<World>, last: World)
    requires ws != [] && before == ws[..|ws| - 1] && last == ws[|ws| - 1]
    ensures ws == before + [last]
  {
  }

  lemma {:induction false} MachineFollows(c: Config, ws: seq<World>, start: State) returns (run: seq<State>)
    requires IsPath(c, ws) && Init(c, start) && Alike(ws[0], start)
    ensures RunsAlike(c, ws, run) && run[0] == start
    decreases |ws|
  {
    var n := |ws| - 1;
    if n == 0 {
      run := [start];
      OneAlike(c, ws[0], start);
      assert ws == [ws[0]];
    } else {
      var before := ws[..n];
      PathBefore(c, ws, n, before);
      var earlier := MachineFollows(c, before, start);
      var s := LastStep(c, ws, n, before, earlier);
      run := earlier + [s];
    }
  }

  /** Whatever the object and its threads do, the machine does, state by state. */
  lemma ObjectRunsAreMachineRuns(c: Config, o: Origin, ws: seq<World>) returns (run: seq<State>)
    requires IsObjectRun(c, o, ws)
    ensures RunsAlike(c, ws, run) && run[0] == Reopened(o.before, o.listing)
  {
    OpenSimulates(c, o, ws[0]);
    run := MachineFollows(c, ws, Reopened(o.before, o.listing));
  }

  lemma ObjectGoesOn(c: Config, ws: seq<World>, run: seq<State>, s: State) returns (w: World)
    requires ws != [] && IsPath(c, ws) && RunsAlike(c, ws, run)
    requires Machine.Next(c, run[|run| - 1], s) && Limits(s)
    ensures IsPath(c, ws + [w]) && RunsAlike(c, ws + [w], run + [s])
  {
    var n := |ws| - 1;
    assert Alike(ws[n], run[n]);
    RunInv(c, run, n);
    w := ObjectFollows(c, ws[n], run[n], s);
    AlikeAfter(c, ws, run, w, s);
    PathAfter(c, ws, w);
  }

  ghost predicate AllWithinLimits(run: seq<State>) {
    forall i | 0 <= i < |run| :: Limits(run[i])
  }

  lemma {:induction false} ObjectPathFollows(c: Config, run: seq<State>, start: World) returns (ws: seq<World>)
    requires IsRun(c, run) && AllWithinLimits(run) && Alike(start, run[0])
    ensures IsPath(c, ws) && ws[0] == start && RunsAlike(c, ws, run)
    decreases |run|
  {
    var n := |run| - 1;
    if n == 0 {
      ws := [start];
      OneAlike(c, start, run[0]);
      assert run == [run[0]];
    } else {
      var before, last := run[..n], run[n];
      RunBefore(c, run, n, before);
      assert AllWithinLimits(before) && Limits(last);
      var earlier := ObjectPathFollows(c, before, start);
      assert Machine.StepAt(c, run, n - 1);
      var next := ObjectGoesOn(c, earlier, before, last);
      ws := earlier + [next];
      assert run == before + [last];
    }
  }

  /** And whatever the machine does within the limits, the object can do. */
  lemma MachineRunsAreObjectRuns(c: Config, o: Origin, run: seq<State>, w: World) returns (ws: seq<World>)
    requires ValidConfig(c) && ValidOrigin(o) && IsOpened(o, w)
    requires IsRun(c, run) && run[0] == Reopened(o.before, o.listing) && AllWithinLimits(run)
    ensures IsObjectRun(c, o, ws) && ws[0] == w && RunsAlike(c, ws, run)
  {
    OpenSimulates(c, o, w);
    ws := ObjectPathFollows(c, run, w);
  }

  lemma ObjectFollows(c: Config, w: World, s: State, s': State) returns (w': World)
    requires Alike(w, s) && Inv(c, s) && Machine.Next(c, s, s') && Limits(s')
    ensures Next(c, w, w') && Alike(w', s')
  {
    var a :| Enabled(c, s, a) && s' == Do(c, s, a);
    LimitsAreAssumed(c, s, a);
    GuardsAgree(c, w, s, a);
    StepSimulates(c, w, s, a, 0);
    w' := Run(c, w, a, 0);
  }

  /** The limits of the next state are what the object assumes of the action. */
  lemma LimitsAreAssumed(c: Config, s: State, a: Action)
    requires Enabled(c, s, a) && Limits(Do(c, s, a))
    ensures Assumed(s, a)
  {
    if a.Write? {
      var s' := Do(c, s, a);
      if a.id in s'.writers {
        assert s'.writers[a.id] == a.entry;
      } else {
        assert s'.history[|s'.history| - 1] == a.entry;
      }
    }
  }

  /** The machine's state behind a reachable state of the object. */
  lemma StateOf(c: Config, o: Origin, ws: seq<World>, i: nat, w: World) returns (s: State)
    requires IsObjectRun(c, o, ws) && i < |ws| && w == ws[i]
    ensures Alike(w, s) && Inv(c, s)
  {
    var run := ObjectRunsAreMachineRuns(c, o, ws);
    RunInv(c, run, i);
    s := run[i];
    assert Alike(ws[i], run[i]);
  }

  // ---- Reads of the object ----

  function FlightOf(f: Flush): Log {
    match f
    case Popped(log) => log
    case Acquired(log, _) => log
    case _ => []
  }

  /** The key's newest write sits in the table that is being flushed, and the tables on disk
      show something else. */
  predicate HiddenIn(w: World, key: Str) {
    && MemoryGet(w.view.mem, key) == None && Last(FlightOf(w.flush), key).Some?
    && Live(Last(FlightOf(w.flush), key)) != Live(TablesGet(w.view.disk.tables, key))
  }

  lemma ViewReads(w: World, later: World, s: State, t: State, prefix: Str, key: Str)
    requires Alike(w, s) && Alike(later, t) && key != []
    ensures HiddenIn(w, key) <==> Hidden(s, key)
    ensures PointReadFrom(w.view, later.view, key) == Get(s, t, key)
    ensures PrefixReadFrom(w.view, later.view, prefix, key) ==
            if HasPrefix(key, prefix) then PrefixGetFrom(s, t, key) else None
  {
    if HasPrefix(key, prefix) {
      OldestTableWins(MemoryLogs(w.view.mem), prefix, key, None);
    } else {
      OutsidePrefix(MemoryLogs(w.view.mem), prefix, key, None);
    }
  }

  /** In every reachable state of the object, a point read that nothing interrupts returns
      what the map of all writes holds, exactly when the key is not hidden. */
  lemma PointReadExact(c: Config, o: Origin, ws: seq<World>, i: nat, key: Str)
    requires IsObjectRun(c, o, ws) && i < |ws| && key != []
    ensures PointRead(ws[i].view, key) == Lookup(Contents(ws[i].history), key) <==> !HiddenIn(ws[i], key)
  {
    var run := ObjectRunsAreMachineRuns(c, o, ws);
    assert Alike(ws[i], run[i]);
    ViewReads(ws[i], ws[i], run[i], run[i], [], key);
    AtomicGetExact(c, run, i, key);
  }

  /** And a prefix read shows it for a key with the prefix exactly when the key is neither
      shadowed nor hidden. */
  lemma PrefixReadExact(c: Config, o: Origin, ws: seq<World>, i: nat, prefix: Str, key: Str)
    requires IsObjectRun(c, o, ws) && i < |ws| && key != [] && HasPrefix(key, prefix)
    ensures PrefixRead(ws[i].view, prefix, key) == Lookup(Contents(ws[i].history), key)
       <==> !Shadowed(ws[i].view.mem, key) && !HiddenIn(ws[i], key)
  {
    var run := ObjectRunsAreMachineRuns(c, o, ws);
    assert Alike(ws[i], run[i]);
    ViewReads(ws[i], ws[i], run[i], run[i], prefix, key);
    PrefixGetExact(c, run, i, key);
  }

  lemma PathBetween(c: Config, run: seq<State>, i: nat, j: nat, path: seq<State>)
    requires Machine.IsPath(c, run) && i <= j < |run| && path == run[i..j + 1]
    ensures Machine.IsPath(c, path)
  {
    forall k: nat | k + 1 < |path|
      ensures Machine.StepAt(c, path, k)
    {
      assert Machine.StepAt(c, run, i + k);
    }
  }

  lemma RunReadMoment(c: Config, run: seq<State>, i: nat, j: nat, key: Str) returns (k: nat)
    requires IsRun(c, run) && i <= j < |run| && !Hidden(run[i], key)
    ensures i <= k <= j && Get(run[i], run[j], key) == Lookup(Contents(run[k].history), key)
  {
    var path := run[i..j + 1];
    PathBetween(c, run, i, j, path);
    RunInv(c, run, i);
    var m := PathReadMoment(c, path, run[i], run[j], key);
    k := i + m;
    assert path[m] == run[k];
  }

  lemma PathReadMoment(c: Config, path: seq<State>, s: State, t: State, key: Str) returns (m: nat)
    requires Machine.IsPath(c, path) && Inv(c, s) && !Hidden(s, key)
    requires path[0] == s && path[|path| - 1] == t
    ensures m < |path| && Get(s, t, key) == Lookup(Contents(path[m].history), key)
  {
    VisibleIsLinearizable(c, path, key);
    m :| m < |path| && Get(path[0], path[|path| - 1], key) == Lookup(Contents(path[m].history), key);
  }

  /** A point read with its locked phase in one state of the object and its walk of the
      tables in a later one returns something that the map of all writes held in between,
      unless the key is hidden in the locked phase. */
  lemma PointReadLinearizable(c: Config, o: Origin, ws: seq<World>, i: nat, j: nat, key: Str) returns (k: nat)
    requires IsObjectRun(c, o, ws) && i <= j < |ws| && key != [] && !HiddenIn(ws[i], key)
    ensures i <= k <= j && PointReadFrom(ws[i].view, ws[j].view, key) == Lookup(Contents(ws[k].history), key)
  {
    var run := ObjectRunsAreMachineRuns(c, o, ws);
    assert Alike(ws[i], run[i]) && Alike(ws[j], run[j]);
    ViewReads(ws[i], ws[j], run[i], run[j], [], key);
    k := RunReadMoment(c, run, i, j, key);
    assert Alike(ws[k], run[k]);
  }

  /** So does a two-phase prefix read for every key that is not shadowed either. */
  lemma PrefixReadLinearizable(c: Config, o: Origin, ws: seq<World>, i: nat, j: nat, prefix: Str, key: Str)
    returns (k: nat)
    requires IsObjectRun(c, o, ws) && i <= j < |ws| && key != [] && HasPrefix(key, prefix)
    requires !HiddenIn(ws[i], key) && !Shadowed(ws[i].view.mem, key)
    ensures i <= k <= j
    ensures PrefixReadFrom(ws[i].view, ws[j].view, prefix, key) == Lookup(Contents(ws[k].history), key)
  {
    var run := ObjectRunsAreMachineRuns(c, o, ws);
    assert Alike(ws[i], run[i]) && Alike(ws[j], run[j]);
    ViewReads(ws[i], ws[j], run[i], run[j], prefix, key);
    UnshadowedReadsAlike(run[i], run[j], key);
    k := RunReadMoment(c, run, i, j, key);
    assert Alike(ws[k], run[k]);
  }

  lemma HistoriesGrow(c: Config, o: Origin, ws: seq<World>, i: nat, j: nat)
    requires IsObjectRun(c, o, ws) && i <= j < |ws|
    ensures ws[i].history <= ws[j].history
  {
    var run := ObjectRunsAreMachineRuns(c, o, ws);
    assert Alike(ws[i], run[i]) && Alike(ws[j], run[j]);
    PathGrows(c, run, i, j);
  }

  // ---- Barriers ----

  lemma OthersAddNoBarrier(c: Config, s: State, a: Action)
    requires Enabled(c, s, a) && !a.EnterBarrier?
    ensures Do(c, s, a).barriers.Keys <= s.barriers.Keys
  {
  }

  /** Only the call of a barrier makes it wait. */
  lemma BarrierArrives(c: Config, s: State, s': State, id: nat)
    requires Machine.Next(c, s, s') && id !in s.barriers && id in s'.barriers
    ensures Enabled(c, s, EnterBarrier(id)) && s' == Do(c, s, EnterBarrier(id))
  {
    var a :| Enabled(c, s, a) && s' == Do(c, s, a);
    if !a.EnterBarrier? {
      OthersAddNoBarrier(c, s, a);
    }
  }

  /** The tables on disk read like an initial segment of the history, no shorter than this. */
  ghost predicate OnDisk(w: World, least: nat) {
    exists m | least <= m <= |w.history| :: ReadAs(w.view.disk.tables, w.history[..m])
  }

  ghost predicate ReadAs(tables: seq<SSTable.Table>, log: Log) {
    forall key | key != [] :: TablesGet(tables, key) == Last(log, key)
  }

  lemma PublishedReadAs(tables: seq<SSTable.Table>, published: seq<Published>)
    requires Agrees(tables, published)
    ensures ReadAs(tables, Flat(Logs(published)))
  {
    forall key | key != []
      ensures TablesGet(tables, key) == Last(Flat(Logs(published)), key)
    {
      NewestFirstIsLast(Logs(published), key);
    }
  }

  lemma SegmentOnDisk(w: World, segment: Log, before: Log)
    requires before <= segment <= w.history && ReadAs(w.view.disk.tables, segment)
    ensures OnDisk(w, |before|)
  {
    assert w.history[..|segment|] == segment;
  }

  lemma PublishedIsOnDisk(w: World, s: State, before: Log)
    requires Represents(w, s) && Conserved(s) && before <= Flat(Logs(s.published))
    ensures before <= w.history && OnDisk(w, |before|)
  {
    PublishedIsPrefix(s);
    PublishedReadAs(w.view.disk.tables, s.published);
    SegmentOnDisk(w, Flat(Logs(s.published)), before);
  }

  /** When a barrier that was called in state `i` may return in state `j`, the tables on disk
      hold everything that had been written before the call: they read like an initial segment
      of the history that is no shorter. */
  lemma BarrierReachesDisk(c: Config, o: Origin, ws: seq<World>, i: nat, j: nat, id: nat)
    requires IsObjectRun(c, o, ws) && i < j < |ws| && id !in ws[i].barriers
    requires forall k | i < k <= j :: id in ws[k].barriers
    requires Allowed(c, ws[j], LeaveBarrier(id))
    ensures ws[i].history <= ws[j].history && OnDisk(ws[j], |ws[i].history|)
  {
    var run := ObjectRunsAreMachineRuns(c, o, ws);
    assert Alike(ws[i], run[i]) && Alike(ws[j], run[j]);
    forall k | i < k <= j
      ensures id in run[k].barriers
    {
      assert Alike(ws[k], run[k]);
    }
    assert Machine.StepAt(c, run, i);
    BarrierArrives(c, run[i], run[i + 1], id);
    BarrierPublishes(c, run, i, j, id);
    RunInv(c, run, j);
    PublishedIsOnDisk(ws[j], run[j], run[i].history);
  }

  // ---- Close, then open ----

  /** After any run of the object that ends with `close`, the next object opened on its
      directory reads every non-empty key as the map of all writes. */
  lemma CloseThenOpenReads(c: Config, o: Origin, ws: seq<World>, j: nat, listing: seq<Str>, key: Str)
    requires IsObjectRun(c, o, ws) && j < |ws| && ws[j].stage == Closed && key != []
    requires Lists(listing, ws[j].view.disk.files)
    ensures forall f | f in OrderedFiles(listing) :: f.name in ws[j].view.disk.files
    ensures PointRead(Opened(ws[j].view.disk.files, listing), key) == Lookup(Contents(ws[j].history), key)
  {
    var run := ObjectRunsAreMachineRuns(c, o, ws);
    var s, dir := run[j], ws[j].view.disk.files;
    assert Alike(ws[j], s);
    RunInv(c, run, j);
    PublishedFilesAscend(c, s);
    ClosedIsPublished(s);
    RecoveryReadsPublished(dir, listing, s.published, key);
    NewestFirstIsLast(Logs(s.published), key);
    LastReadsContents(s.history, key);
  }

  /** And what it leaves is a directory to start the next run from, with the same history. */
  lemma CloseThenOpenRuns(c: Config, o: Origin, ws: seq<World>, j: nat, listing: seq<Str>) returns (next: Origin)
    requires IsObjectRun(c, o, ws) && j < |ws| && ws[j].stage == Closed
    requires Lists(listing, ws[j].view.disk.files)
    ensures ValidOrigin(next) && next.dir == ws[j].view.disk.files && next.listing == listing
    ensures Flat(Logs(next.before)) == ws[j].history
  {
    var run := ObjectRunsAreMachineRuns(c, o, ws);
    assert Alike(ws[j], run[j]);
    RunInv(c, run, j);
    PublishedFilesAscend(c, run[j]);
    ClosedIsPublished(run[j]);
    next := Origin(run[j].published, ws[j].view.disk.files, listing);
  }
}
