/** Calls of the object that consist of several pieces of code, as paths of the object: a
    flush, which may wait for a file, and the end of `close`. */
module ObjectCalls {
  import opened Wrappers
  import opened Bytes
  import opened Log
  import opened SSTable
  import opened Machine
  import opened Invariants
  import opened Directory
  import opened DirectoryRuns
  import opened StoreViews
  import opened ObjectRuns
  import opened ObjectResults

  /** A path of the object from one state to another. */
  ghost predicate Leads(c: Config, path: seq<World>, from: World, to: World) {
    ObjectResults.IsPath(c, path) && path[0] == from && path[|path| - 1] == to
  }

  lemma Starts(c: Config, w: World)
    ensures Leads(c, [w], w, w)
  {
  }

  /** One more piece of code. */
  lemma Continue(c: Config, path: seq<World>, from: World, w: World, a: Action, n: nat) returns (more: seq<World>)
    requires Leads(c, path, from, w) && Allowed(c, w, a)
    ensures Leads(c, more, from, Run(c, w, a, n))
  {
    more := LeadsOn(c, path, from, w, Run(c, w, a, n));
  }

  /** The wait for a file, with the worker making one. */
  lemma WaitIsPath(c: Config, path: seq<World>, from: World, w: World, n: nat) returns (more: seq<World>)
    requires Leads(c, path, from, w) && w.stage != Closed && WaitEnds(w.view.disk, c.poolSize)
    ensures Leads(c, more, from, WithDisk(w, AfterWait(w.view.disk, c.poolSize, n)))
  {
    more := path;
    if w.view.disk.pool == [] {
      var making := w;
      if w.view.disk.worker == Waiting {
        more := Continue(c, more, from, w, StartFile, 0);
        making := Run(c, w, StartFile, 0);
      }
      more := Continue(c, more, from, making, PushFile, n);
    }
  }

  /** The flush of a popped table that is not empty. */
  lemma FlushIsPath(c: Config, path: seq<World>, from: World, w: World, n: nat) returns (more: seq<World>)
    requires Leads(c, path, from, w) && w.stage != Closed && w.flush.Popped? && w.flush.log != []
    requires CanFlush(w.view.disk, w.flush.log, c.poolSize, n)
    ensures Leads(c, more, from, WithDisk(w, AfterFlush(w.view.disk, w.flush.log, c.poolSize, n)).(flush := Finished))
  {
    more := WaitIsPath(c, path, from, w, n);
    var ready := WithDisk(w, AfterWait(w.view.disk, c.poolSize, n));
    more := Continue(c, more, from, ready, Acquire, 0);
    more := Continue(c, more, from, Run(c, ready, Acquire, 0), Publish, 0);
  }

  lemma DrainOne(d: DiskView, log: Log, poolSize: nat, n: nat)
    ensures CanDrain(d, [log], poolSize, n) <==> CanFlush(d, log, poolSize, n)
    ensures CanDrain(d, [log], poolSize, n) ==> AfterDrain(d, [log], poolSize, n) == AfterFlush(d, log, poolSize, n)
  {
    assert [log][1..] == [];
  }

  /** What the end of `close` leaves. */
  function ClosedWorld(c: Config, w: World, n: nat): World
    requires CanClose(w.view, c.poolSize, n)
  {
    w.(view := AfterClose(w.view, c.poolSize, n), stage := Closed)
  }

  /** The end of `close` is a path of the object, also when it has to wait for a file. */
  lemma CloseIsPath(c: Config, w: World, n: nat) returns (path: seq<World>)
    requires Allowed(c, w, Drain) && CanClose(w.view, c.poolSize, n) && !w.view.inProgress
    ensures Leads(c, path, w, ClosedWorld(c, w, n))
  {
    Starts(c, w);
    path := Continue(c, [w], w, w, Drain, 0);
    var drained := Run(c, w, Drain, 0);
    if w.view.mem.active != [] {
      path := DrainActive(c, path, w, drained, w.view.mem.active, n);
      drained := WithDisk(WithMemory(drained, Memory([], [])),
                          AfterFlush(w.view.disk, w.view.mem.active, c.poolSize, n));
    }
    path := Continue(c, path, w, drained, EndClose, 0);
  }

  lemma DrainActive(c: Config, path: seq<World>, from: World, w: World, log: Log, n: nat) returns (more: seq<World>)
    requires Leads(c, path, from, w) && w.stage == Draining && w.flush == Idle && !w.view.inProgress
    requires w.view.mem == Memory([], [] + [log]) && log != [] && CanDrain(w.view.disk, [] + [log], c.poolSize, n)
    ensures CanFlush(w.view.disk, log, c.poolSize, n)
    ensures AfterDrain(w.view.disk, [] + [log], c.poolSize, n) == AfterFlush(w.view.disk, log, c.poolSize, n)
    ensures Leads(c, more, from, WithDisk(WithMemory(w, Memory([], [])), AfterFlush(w.view.disk, log, c.poolSize, n)))
  {
    assert [] + [log] == [log] && [log][1..] == [];
    DrainOne(w.view.disk, log, c.poolSize, n);
    more := Continue(c, path, from, w, Pop, 0);
    var popped := Run(c, w, Pop, 0);
    more := FlushIsPath(c, more, from, popped, n);
    var flushed := WithDisk(popped, AfterFlush(w.view.disk, log, c.poolSize, n)).(flush := Finished);
    more := Continue(c, more, from, flushed, Clear, 0);
  }

  // ---- The end of close is always possible ----

  lemma WaitCanEnd(c: Config, d: DiskView, s: State)
    requires DiskRepresents(d, s) && FilesOrdered(c, s) && s.stage != Closed
    requires c.poolSize >= 1 && NextFile(d) < UINT64_LIMIT
    ensures WaitEnds(d, c.poolSize)
  {
    if d.pool == [] {
      SpareIsNew(c, s);
      PublishedAreNumbered(c, s);
      UnusedName(s.published, d.paths, NextFile(d));
    }
  }

  lemma PublishedAreNumbered(c: Config, s: State)
    requires FilesOrdered(c, s)
    ensures forall p | p in s.published :: p.file < s.nextFile
  {
    forall p | p in s.published
      ensures p.file < s.nextFile
    {
      var i :| 0 <= i < |s.published| && s.published[i] == p;
      assert FilesInUse(s)[i] == p.file;
    }
  }

  lemma FlushIsPossible(c: Config, d: DiskView, s: State, log: Log, n: nat)
    requires DiskRepresents(d, s) && FilesOrdered(c, s) && s.stage != Closed && !s.flush.Acquired?
    requires c.poolSize >= 1 && NextFile(d) < UINT64_LIMIT && AllFit(log)
    ensures CanFlush(d, log, c.poolSize, n)
  {
    WaitCanEnd(c, d, s);
    if d.pool != [] {
      SpareIsNew(c, s);
      assert Spare(s) == s.pool && s.pool[0] in Spare(s);
      UnusedName(s.published, d.paths, s.pool[0]);
    }
  }

  lemma ActiveFits(s: State)
    requires Conserved(s) && AllFit(s.history)
    ensures AllFit(s.mem.active)
  {
    assert s.history == Sealed(s) + s.mem.active + [];
    PartFits(s.history, s.mem.active, Sealed(s), []);
  }

  lemma RotatedQueue(m: Memory)
    requires m.queue == []
    ensures RotateNonEmpty(m).queue == if m.active == [] then [] else [m.active]
  {
  }

  lemma DrainIsPossible(c: Config, d: DiskView, s: State, log: Log, n: nat)
    requires DiskRepresents(d, s) && FilesOrdered(c, s) && s.stage != Closed && !s.flush.Acquired?
    requires c.poolSize >= 1 && NextFile(d) < UINT64_LIMIT && AllFit(log)
    ensures CanDrain(d, [log], c.poolSize, n)
  {
    FlushIsPossible(c, d, s, log, n);
    DrainOne(d, log, c.poolSize, n);
  }

  /** When the flush thread has been joined, `close` can run to its end, provided only that
      the pool may hold a file and that file numbers are not used up. */
  lemma CloseIsPossible(c: Config, w: World, s: State, n: nat)
    requires Alike(w, s) && Inv(c, s) && Allowed(c, w, Drain)
    requires c.poolSize >= 1 && NextFile(w.view.disk) < UINT64_LIMIT
    ensures CanClose(w.view, c.poolSize, n) && !w.view.inProgress
  {
    ActiveFits(s);
    DrainIsPossible(c, w.view.disk, s, s.mem.active, n);
    RotatedQueue(w.view.mem);
  }

  /** A path that starts where another ends goes on with it. */
  lemma {:induction false} JoinPaths(c: Config, ws: seq<World>, path: seq<World>, from: World, to: World)
    returns (whole: seq<World>)
    requires ws != [] && Leads(c, ws, ws[0], from) && Leads(c, path, from, to)
    ensures Leads(c, whole, ws[0], to)
    decreases |path|
  {
    var n := |path| - 1;
    if n == 0 {
      whole := ws;
    } else {
      var w := path[n - 1];
      PathBefore(c, path, n, path[..n]);
      var most := JoinPaths(c, ws, path[..n], from, w);
      StepIsNext(c, path, n - 1, w, to);
      whole := LeadsOn(c, most, ws[0], w, to);
    }
  }

  lemma LeadsOn(c: Config, path: seq<World>, from: World, w: World, to: World) returns (more: seq<World>)
    requires Leads(c, path, from, w) && ObjectResults.Next(c, w, to)
    ensures Leads(c, more, from, to)
  {
    PathAfter(c, path, to);
    more := path + [to];
  }

  lemma CloseIsReachable(c: Config, o: Origin, ws: seq<World>, w: World, n: nat)
    requires IsObjectRun(c, o, ws) && w == ws[|ws| - 1] && Allowed(c, w, Drain)
    requires c.poolSize >= 1 && NextFile(w.view.disk) < UINT64_LIMIT
    ensures CanClose(w.view, c.poolSize, n) && !w.view.inProgress
  {
    var s := StateOf(c, o, ws, |ws| - 1, w);
    CloseIsPossible(c, w, s, n);
  }

  /** From any state in which the flush thread has been joined, the run of the object goes on
      to the end of `close`. */
  lemma CloseEnds(c: Config, o: Origin, ws: seq<World>, w: World, n: nat) returns (whole: seq<World>)
    requires IsObjectRun(c, o, ws) && w == ws[|ws| - 1] && Allowed(c, w, Drain)
    requires c.poolSize >= 1 && NextFile(w.view.disk) < UINT64_LIMIT
    ensures CanClose(w.view, c.poolSize, n)
    ensures IsObjectRun(c, o, whole) && whole[|whole| - 1] == ClosedWorld(c, w, n)
  {
    CloseIsReachable(c, o, ws, w, n);
    var path := CloseIsPath(c, w, n);
    whole := JoinPaths(c, ws, path, w, ClosedWorld(c, w, n));
  }

  /** And leaves a directory on which the next object reads every non-empty key as the map of
      all writes, whether or not `close` had to wait for a file. */
  lemma CloseCallThenOpenReads(c: Config, o: Origin, ws: seq<World>, w: World, n: nat, left: map<Str, Str>,
                               listing: seq<Str>, key: Str)
    requires IsObjectRun(c, o, ws) && w == ws[|ws| - 1] && Allowed(c, w, Drain) && key != []
    requires c.poolSize >= 1 && NextFile(w.view.disk) < UINT64_LIMIT && Lists(listing, left)
    ensures CanClose(w.view, c.poolSize, n)
    ensures left == AfterClose(w.view, c.poolSize, n).disk.files ==>
              ReopenedReads(left, listing, key, Lookup(Contents(w.history), key))
  {
    var whole := CloseEnds(c, o, ws, w, n);
    if left == AfterClose(w.view, c.poolSize, n).disk.files {
      ClosedRunReopens(c, o, whole, ClosedWorld(c, w, n), listing, key);
    }
  }

  /** The next object, opened on a directory, reads this for a key. */
  ghost predicate ReopenedReads(dir: map<Str, Str>, listing: seq<Str>, key: Str, value: Option<Str>) {
    && (forall f | f in OrderedFiles(listing) :: f.name in dir)
    && PointRead(Opened(dir, listing), key) == value
  }

  lemma ClosedRunReopens(c: Config, o: Origin, ws: seq<World>, w: World, listing: seq<Str>, key: Str)
    requires IsObjectRun(c, o, ws) && w == ws[|ws| - 1] && w.stage == Closed && key != []
    requires Lists(listing, w.view.disk.files)
    ensures ReopenedReads(w.view.disk.files, listing, key, Lookup(Contents(w.history), key))
  {
    CloseThenOpenReads(c, o, ws, |ws| - 1, listing, key);
  }
}
