/** Point reads and barriers over whole runs of the store. */
module Reads {
  import opened Wrappers
  import opened Bytes
  import opened Log
  import opened Machine
  import opened Invariants
  import opened Witnesses

  // ---- What a read computes ----

  /** The first table that has the key, newest first. */
  function NewestFirst(logs: seq<Log>, key: Str): Option<Str> {
    if logs == [] then None
    else
      var found := Last(logs[|logs| - 1], key);
      if found.Some? then found else NewestFirst(logs[..|logs| - 1], key)
  }

  /** The locked phase of `get`: the active table, then the immutable queue. */
  function MemoryGet(m: Memory, key: Str): Option<Str> {
    var found := Last(m.active, key);
    if found.Some? then found else NewestFirst(m.queue, key)
  }

  /** `get`: the memory tables as they are in one state and, when they lack the key, the
      published list whose head is loaded in a later state. */
  function Get(locked: State, loaded: State, key: Str): Option<Str> {
    var found := MemoryGet(locked.mem, key);
    Live(if found.Some? then found else NewestFirst(Logs(loaded.published), key))
  }

  /** The key's newest write sits in the table that is being flushed, where `get` does not
      look. */
  predicate OnlyInFlight(s: State, key: Str) {
    MemoryGet(s.mem, key) == None && Last(InFlight(s), key).Some?
  }

  /** And what the published tables show instead differs from it. */
  predicate Hidden(s: State, key: Str) {
    OnlyInFlight(s, key) && Live(Last(InFlight(s), key)) != Live(NewestFirst(Logs(s.published), key))
  }

  lemma {:induction false} NewestFirstIsLast(logs: seq<Log>, key: Str)
    ensures NewestFirst(logs, key) == Last(Flat(logs), key)
  {
    if logs == [] {
    } else {
      NewestFirstIsLast(logs[..|logs| - 1], key);
      LastConcat(Flat(logs[..|logs| - 1]), logs[|logs| - 1], key);
    }
  }

  lemma MemoryGetIsLast(m: Memory, key: Str)
    ensures MemoryGet(m, key) == Last(Flat(m.queue) + m.active, key)
  {
    NewestFirstIsLast(m.queue, key);
    LastConcat(Flat(m.queue), m.active, key);
  }

  /** A write decides its key and no other. */
  lemma AppendReads(m: Memory, e: Entry, key: Str)
    ensures MemoryGet(Append(m, e), key) == if key == e.key then Some(e.value) else MemoryGet(m, key)
  {
    assert (m.active + [e])[..|m.active|] == m.active;
  }

  /** Moving the active table to the queue changes no read. */
  lemma RotateReads(m: Memory, key: Str)
    ensures MemoryGet(Rotate(m), key) == MemoryGet(m, key)
  {
    assert (m.queue + [m.active])[..|m.queue|] == m.queue;
  }

  /** Reading the whole history is reading memory, then the table in flight, then the
      published tables. */
  lemma HistoryReads(s: State, key: Str)
    requires Conserved(s)
    ensures Last(s.history, key) ==
            if MemoryGet(s.mem, key).Some? then MemoryGet(s.mem, key)
            else if Last(InFlight(s), key).Some? then Last(InFlight(s), key)
            else NewestFirst(Logs(s.published), key)
  {
    var pub, fly, queue := Flat(Logs(s.published)), InFlight(s), Flat(s.mem.queue);
    assert s.history == (pub + fly) + (queue + s.mem.active);
    LastConcat(pub + fly, queue + s.mem.active, key);
    LastConcat(pub, fly, key);
    MemoryGetIsLast(s.mem, key);
    NewestFirstIsLast(Logs(s.published), key);
  }

  /** In every reachable state an uninterrupted `get` returns what the map of all writes
      holds for the key, unless the key is hidden in the table in flight; and then it
      does not. */
  lemma AtomicGetExact(c: Config, run: seq<State>, i: nat, key: Str)
    requires IsRun(c, run) && i < |run|
    ensures var s := run[i]; Get(s, s, key) == Lookup(Contents(s.history), key) <==> !Hidden(s, key)
  {
    RunInv(c, run, i);
    HistoryReads(run[i], key);
    LastReadsContents(run[i].history, key);
  }

  // ---- Histories along a path ----

  lemma StepGrows(c: Config, s: State, s': State)
    requires Next(c, s, s')
    ensures s.history <= s'.history && |s'.history| <= |s.history| + 1
    ensures s.published <= s'.published
  {
    var a :| Enabled(c, s, a) && s' == Do(c, s, a);
    HistoryGrows(c, s, a);
  }

  lemma {:induction false} PathGrows(c: Config, run: seq<State>, i: nat, j: nat)
    requires IsPath(c, run) && i <= j < |run|
    ensures run[i].history <= run[j].history
    ensures run[i].published <= run[j].published
    decreases j
  {
    if i == j {
    } else {
      PathGrows(c, run, i, j - 1);
      assert StepAt(c, run, j - 1);
      StepGrows(c, run[j - 1], run[j]);
    }
  }

  /** History grows one entry at a time, so every length in between is the length of some
      state's history on the way. */
  lemma {:induction false} MomentOfLength(c: Config, run: seq<State>, j: nat, m: nat) returns (k: nat)
    requires IsPath(c, run) && j < |run|
    requires |run[0].history| <= m <= |run[j].history|
    ensures k <= j && run[k].history == run[j].history[..m]
    decreases j
  {
    if j == 0 || m == |run[j].history| {
      k := j;
    } else {
      assert StepAt(c, run, j - 1);
      StepGrows(c, run[j - 1], run[j]);
      k := MomentOfLength(c, run, j - 1, m);
    }
  }

  /** The next table to be published is the one in flight. */
  ghost predicate FlightAccounted(s0: State, s: State) {
    var n := |s0.published|;
    || (s.published == s0.published && InFlight(s) == InFlight(s0))
    || (s0.published <= s.published && n < |s.published| && s.published[n].log == InFlight(s0))
  }

  lemma FlightAfter(c: Config, s: State, a: Action)
    requires Enabled(c, s, a) && InFlight(s) != []
    ensures var s' := Do(c, s, a);
            if a.Publish? then s'.published == s.published + [Published(s.flush.file, InFlight(s))]
            else s'.published == s.published && InFlight(s') == InFlight(s)
  {
  }

  lemma StepAccountsFlight(c: Config, s0: State, s: State, s': State)
    requires InFlight(s0) != [] && FlightAccounted(s0, s) && Next(c, s, s')
    ensures FlightAccounted(s0, s')
  {
    StepGrows(c, s, s');
    if s.published == s0.published && InFlight(s) == InFlight(s0) {
      var a :| Enabled(c, s, a) && s' == Do(c, s, a);
      FlightAfter(c, s, a);
    }
  }

  lemma {:induction false} PathAccountsFlight(c: Config, run: seq<State>, j: nat)
    requires IsPath(c, run) && j < |run| && InFlight(run[0]) != []
    ensures FlightAccounted(run[0], run[j])
  {
    if j == 0 {
    } else {
      PathAccountsFlight(c, run, j - 1);
      assert StepAt(c, run, j - 1);
      StepAccountsFlight(c, run[0], run[j - 1], run[j]);
    }
  }

  lemma {:induction false} LogsPrefix(a: seq<Published>, b: seq<Published>)
    requires a <= b
    ensures Logs(a) <= Logs(b)
    ensures Flat(Logs(a)) <= Flat(Logs(b))
    decreases |b|
  {
    if |a| < |b| {
      LogsPrefix(a, b[..|b| - 1]);
      PublishKeepsSealed(b[..|b| - 1], b[|b| - 1]);
      assert b == b[..|b| - 1] + [b[|b| - 1]];
    } else {
      assert a == b;
    }
  }

  /** Published entries are an initial segment of the history. */
  lemma PublishedIsPrefix(s: State)
    requires Conserved(s)
    ensures Flat(Logs(s.published)) <= s.history
    ensures Flat(Logs(s.published)) + InFlight(s) <= s.history
  {
    var pub, fly := Flat(Logs(s.published)), InFlight(s);
    assert s.history == pub + (fly + Flat(s.mem.queue) + s.mem.active);
    assert s.history == (pub + fly) + (Flat(s.mem.queue) + s.mem.active);
  }

  /** Tables are published whole: either nothing has been published since, or everything
      that was in flight has. */
  lemma FlightPublishedWhole(c: Config, run: seq<State>, j: nat)
    requires IsPath(c, run) && j < |run|
    ensures var pub := Flat(Logs(run[0].published));
            || Flat(Logs(run[j].published)) == pub
            || pub + InFlight(run[0]) <= Flat(Logs(run[j].published))
  {
    var s0, s := run[0], run[j];
    PathGrows(c, run, 0, j);
    if InFlight(s0) == [] {
      LogsPrefix(s0.published, s.published);
      assert Flat(Logs(s0.published)) + [] == Flat(Logs(s0.published));
    } else {
      PathAccountsFlight(c, run, j);
      if s.published != s0.published {
        var n := |s0.published|;
        var first := s.published[n];
        assert s.published[..n + 1] == s0.published + [first];
        PublishKeepsSealed(s0.published, first);
        LogsPrefix(s.published[..n + 1], s.published);
      }
    }
  }

  // ---- Linearizability of the two-phase get ----

  /** The read returned something the map held for the key at some moment on the way. */
  ghost predicate Linearizable(path: seq<State>, key: Str)
    requires path != []
  {
    exists k | 0 <= k < |path| ::
      Get(path[0], path[|path| - 1], key) == Lookup(Contents(path[k].history), key)
  }

  /** A list that lacks nothing but a tail without the key reads like the whole. */
  lemma LongPrefixReads(pub: Log, rest: Log, some: Log, key: Str)
    requires pub <= some <= pub + rest
    requires Last(rest, key) == None
    ensures Last(some, key) == Last(pub, key)
  {
    var middle := some[|pub|..];
    assert some == pub + middle;
    assert rest == middle + rest[|middle|..];
    LastConcat(pub, middle, key);
    LastConcat(middle, rest[|middle|..], key);
  }

  /** Published entries found later, but not beyond the history of the locked phase, show
      what that history shows when the key is neither in memory nor hidden in flight. */
  lemma FoundWithinHistory(s: State, found: Log, key: Str)
    requires Conserved(s) && !Hidden(s, key) && MemoryGet(s.mem, key) == None
    requires var pub := Flat(Logs(s.published)); found == pub || (pub + InFlight(s) <= found <= s.history)
    ensures Live(Last(found, key)) == Live(Last(s.history, key))
  {
    var pub := Flat(Logs(s.published));
    HistoryReads(s, key);
    NewestFirstIsLast(Logs(s.published), key);
    if found != pub {
      var sealed, rest := pub + InFlight(s), Flat(s.mem.queue) + s.mem.active;
      assert s.history == sealed + rest;
      MemoryGetIsLast(s.mem, key);
      LongPrefixReads(sealed, rest, found, key);
      LongPrefixReads(sealed, rest, s.history, key);
    }
  }

  /** The moment at which the map held what the read returned. */
  lemma ReadMoment(c: Config, path: seq<State>, key: Str) returns (k: nat)
    requires IsPath(c, path) && Inv(c, path[0]) && !Hidden(path[0], key)
    ensures k < |path|
    ensures Get(path[0], path[|path| - 1], key) == Live(Last(path[k].history, key))
  {
    var n := |path| - 1;
    var s0, sn := path[0], path[n];
    var found := Flat(Logs(sn.published));
    k := 0;
    if MemoryGet(s0.mem, key).Some? {
      HistoryReads(s0, key);
    } else {
      PathInv(c, path, n, sn);
      PathGrows(c, path, 0, n);
      PublishedIsPrefix(sn);
      FlightPublishedWhole(c, path, n);
      NewestFirstIsLast(Logs(sn.published), key);
      if |found| > |s0.history| {
        k := MomentOfLength(c, path, n, |found|);
        assert path[k].history == found;
      } else {
        PublishedIsPrefix(s0);
        PrefixOfPrefix(found, s0.history, sn.history);
        FoundWithinHistory(s0, found, key);
      }
    }
  }

  lemma PrefixOfPrefix(a: Log, b: Log, whole: Log)
    requires a <= whole && b <= whole && |a| <= |b|
    ensures a <= b
  {
  }

  lemma VisibleIsLinearizable(c: Config, path: seq<State>, key: Str)
    requires IsPath(c, path) && Inv(c, path[0]) && !Hidden(path[0], key)
    ensures Linearizable(path, key)
  {
    var k := ReadMoment(c, path, key);
    LastReadsContents(path[k].history, key);
  }

  /** From a reachable state, every interleaving of writers, rotations, the flush thread
      and publications between the locked phase of a `get` and its load of the list head
      lets it return something the map held in between, exactly when the key is not
      hidden in the table in flight at the locked phase. */
  lemma GetLinearizableExactly(c: Config, run: seq<State>, i: nat, key: Str)
    requires IsRun(c, run) && i < |run|
    ensures (forall path | IsPath(c, path) && path[0] == run[i] :: Linearizable(path, key))
       <==> !Hidden(run[i], key)
  {
    RunInv(c, run, i);
    if Hidden(run[i], key) {
      var path := [run[i]];
      assert IsPath(c, path);
      AtomicGetExact(c, run, i, key);
    } else {
      forall path | IsPath(c, path) && path[0] == run[i]
        ensures Linearizable(path, key)
      {
        VisibleIsLinearizable(c, path, key);
      }
    }
  }

  /** Whatever the values: a `get` of a key that is in memory, or not in flight, is
      linearizable. */
  lemma GetOutsideFlight(c: Config, run: seq<State>, i: nat, path: seq<State>, key: Str)
    requires IsRun(c, run) && i < |run| && !OnlyInFlight(run[i], key)
    requires IsPath(c, path) && path[0] == run[i]
    ensures Linearizable(path, key)
  {
    GetLinearizableExactly(c, run, i, key);
  }

  /** The guard is needed: a write whose table has been popped but not yet published is
      missed by `get`, although the map has held it since before the read began. */
  lemma PoppedWriteIsMissed(c: Config, key: Str, value: Str) returns (run: seq<State>)
    requires ValidConfig(c) && value != TOMBSTONE
    ensures IsRun(c, run)
    ensures var s := run[|run| - 1];
            && Hidden(s, key)
            && Get(s, s, key) == None && Lookup(Contents(s.history), key) == Some(value)
  {
    var e := Entry(key, value);
    run := WriteBarrierPop(c, e);
    var s := run[|run| - 1];
    assert Last([e], key) == Some(value);
    LastReadsContents([e], key);
  }

  // ---- Barriers ----

  lemma {:induction false} MarkStays(c: Config, run: seq<State>, i: nat, j: nat, id: nat)
    requires IsPath(c, run) && i <= j < |run|
    requires forall k | i <= k <= j :: id in run[k].barriers
    ensures run[j].barriers[id] == run[i].barriers[id]
    decreases j
  {
    if i == j {
    } else {
      MarkStays(c, run, i, j - 1, id);
      assert StepAt(c, run, j - 1);
      var a :| Enabled(c, run[j - 1], a) && run[j] == Do(c, run[j - 1], a);
    }
  }

  lemma LeavingFindsSealed(c: Config, s: State, id: nat)
    requires Inv(c, s) && Enabled(c, s, LeaveBarrier(id))
    ensures s.barriers[id] <= |Flat(Logs(s.published))|
  {
    assert s.flush == Idle;
    assert Sealed(s) == Flat(Logs(s.published)) + [] + [];
  }

  /** When a `writeBarrier` that was called in state `i` may return in state `j`, every
      mutation written before the call is in a published table, in its original order. */
  lemma BarrierPublishes(c: Config, run: seq<State>, i: nat, j: nat, id: nat)
    requires IsRun(c, run) && i < j < |run|
    requires Enabled(c, run[i], EnterBarrier(id)) && run[i + 1] == Do(c, run[i], EnterBarrier(id))
    requires forall k | i < k <= j :: id in run[k].barriers
    requires Enabled(c, run[j], LeaveBarrier(id))
    ensures run[i].history <= Flat(Logs(run[j].published))
  {
    RunInv(c, run, j);
    MarkStays(c, run, i + 1, j, id);
    PathGrows(c, run, i, j);
    LeavingFindsSealed(c, run[j], id);
    PublishedIsPrefix(run[j]);
  }
}
