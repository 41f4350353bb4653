/** Prefix reads of the store, key by key. */
module PrefixReads {
  import opened Wrappers
  import opened Bytes
  import opened Log
  import opened MemtableLog
  import opened Machine
  import opened Invariants
  import opened Reads
  import opened Witnesses

  /** The memory tables, oldest first. */
  function MemoryLogs(m: Memory): seq<Log> {
    m.queue + [m.active]
  }

  /** The first table that has the key, oldest first. */
  function OldestFirst(logs: seq<Log>, key: Str): Option<Str> {
    if logs == [] then None
    else
      var found := Last(logs[0], key);
      if found.Some? then found else OldestFirst(logs[1..], key)
  }

  /** The scans of `getPrefix` over memory tables, newest first, each overwriting what the
      earlier ones decided for the key. */
  function ScanTables(logs: seq<Log>, prefix: Str, key: Str, before: Option<Str>): Option<Str> {
    if logs == [] then before
    else ScanTables(logs[..|logs| - 1], prefix, key, AfterScan(logs[|logs| - 1], prefix, key, before))
  }

  /** Overwriting newest first leaves the decision of the oldest table that has the key. */
  lemma {:induction false} OldestTableWins(logs: seq<Log>, prefix: Str, key: Str, before: Option<Str>)
    requires HasPrefix(key, prefix)
    ensures ScanTables(logs, prefix, key, before) ==
            if OldestFirst(logs, key).Some? then OldestFirst(logs, key) else before
  {
    if logs == [] {
    } else {
      var init, last := logs[..|logs| - 1], logs[|logs| - 1];
      OldestTableWins(init, prefix, key, AfterScan(last, prefix, key, before));
      OldestOfMore(init, last, key);
      assert logs == init + [last];
    }
  }

  lemma {:induction false} OldestOfMore(logs: seq<Log>, log: Log, key: Str)
    ensures OldestFirst(logs + [log], key) ==
            if OldestFirst(logs, key).Some? then OldestFirst(logs, key) else Last(log, key)
  {
    if logs == [] {
    } else {
      assert (logs + [log])[1..] == logs[1..] + [log];
      OldestOfMore(logs[1..], log, key);
    }
  }

  lemma {:induction false} OutsidePrefix(logs: seq<Log>, prefix: Str, key: Str, before: Option<Str>)
    requires !HasPrefix(key, prefix)
    ensures ScanTables(logs, prefix, key, before) == before
  {
    if logs == [] {
    } else {
      OutsidePrefix(logs[..|logs| - 1], prefix, key, before);
    }
  }

  /** What `getPrefix` shows for a key: the oldest memory table that has it in the locked
      phase decides, and only when none has it the published tables, newest first, as they
      are when the list head is loaded. */
  function PrefixGetFrom(locked: State, loaded: State, key: Str): Option<Str> {
    var found := OldestFirst(MemoryLogs(locked.mem), key);
    Live(if found.Some? then found else NewestFirst(Logs(loaded.published), key))
  }

  /** An uninterrupted `getPrefix`. */
  function PrefixGet(s: State, key: Str): Option<Str> {
    PrefixGetFrom(s, s, key)
  }

  /** Two memory tables have the key. */
  predicate InTwoTables(logs: seq<Log>, key: Str) {
    exists i, j | 0 <= i < j < |logs| :: Last(logs[i], key).Some? && Last(logs[j], key).Some?
  }

  /** And the oldest of those that have it shows something else than the newest. */
  predicate Shadowed(m: Memory, key: Str) {
    && InTwoTables(MemoryLogs(m), key)
    && Live(OldestFirst(MemoryLogs(m), key)) != Live(NewestFirst(MemoryLogs(m), key))
  }

  lemma UnshadowedAgrees(m: Memory, key: Str)
    ensures !Shadowed(m, key) <==> Live(OldestFirst(MemoryLogs(m), key)) == Live(NewestFirst(MemoryLogs(m), key))
  {
    if !InTwoTables(MemoryLogs(m), key) {
      OneTableAgrees(MemoryLogs(m), key);
    }
  }

  lemma {:induction false} FoundEitherWay(logs: seq<Log>, key: Str)
    ensures OldestFirst(logs, key).Some? <==> NewestFirst(logs, key).Some?
  {
    if logs == [] {
    } else {
      var init := logs[..|logs| - 1];
      FoundEitherWay(init, key);
      OldestOfMore(init, logs[|logs| - 1], key);
      assert logs == init + [logs[|logs| - 1]];
    }
  }

  lemma MemoryGetIsNewest(m: Memory, key: Str)
    ensures NewestFirst(MemoryLogs(m), key) == MemoryGet(m, key)
  {
    assert MemoryLogs(m)[..|m.queue|] == m.queue;
  }

  /** In every reachable state, an uninterrupted `getPrefix` shows for a key what the map of
      all writes holds, unless an older memory table shadows a newer one or the key is
      hidden in the table in flight; and then it does not. */
  lemma PrefixGetExact(c: Config, run: seq<State>, i: nat, key: Str)
    requires IsRun(c, run) && i < |run|
    ensures var s := run[i];
            PrefixGet(s, key) == Lookup(Contents(s.history), key) <==> !Shadowed(s.mem, key) && !Hidden(s, key)
  {
    var s := run[i];
    RunInv(c, run, i);
    HistoryReads(s, key);
    LastReadsContents(s.history, key);
    FoundEitherWay(MemoryLogs(s.mem), key);
    MemoryGetIsNewest(s.mem, key);
    UnshadowedAgrees(s.mem, key);
  }

  /** The prefix read showed something the map held for the key at some moment on the way. */
  ghost predicate PrefixLinearizable(path: seq<State>, key: Str)
    requires path != []
  {
    exists k | 0 <= k < |path| ::
      PrefixGetFrom(path[0], path[|path| - 1], key) == Lookup(Contents(path[k].history), key)
  }

  /** Without a shadow, a prefix read shows what a point read returns. */
  lemma UnshadowedReadsAlike(locked: State, loaded: State, key: Str)
    requires !Shadowed(locked.mem, key)
    ensures PrefixGetFrom(locked, loaded, key) == Get(locked, loaded, key)
  {
    FoundEitherWay(MemoryLogs(locked.mem), key);
    MemoryGetIsNewest(locked.mem, key);
    UnshadowedAgrees(locked.mem, key);
  }

  lemma UnshadowedIsLinearizable(c: Config, path: seq<State>, key: Str)
    requires IsPath(c, path) && Inv(c, path[0])
    requires !Shadowed(path[0].mem, key) && !Hidden(path[0], key)
    ensures PrefixLinearizable(path, key)
  {
    UnshadowedReadsAlike(path[0], path[|path| - 1], key);
    VisibleIsLinearizable(c, path, key);
  }

  /** From a reachable state, every interleaving between the locked phase of a `getPrefix`
      and its load of the list head lets it show for a key something the map held in
      between, exactly when the key is neither shadowed nor hidden at the locked phase. */
  lemma PrefixGetLinearizableExactly(c: Config, run: seq<State>, i: nat, key: Str)
    requires IsRun(c, run) && i < |run|
    ensures (forall path | IsPath(c, path) && path[0] == run[i] :: PrefixLinearizable(path, key))
       <==> !Shadowed(run[i].mem, key) && !Hidden(run[i], key)
  {
    RunInv(c, run, i);
    if Shadowed(run[i].mem, key) || Hidden(run[i], key) {
      var path := [run[i]];
      assert IsPath(c, path);
      PrefixGetExact(c, run, i, key);
    } else {
      forall path | IsPath(c, path) && path[0] == run[i]
        ensures PrefixLinearizable(path, key)
      {
        UnshadowedIsLinearizable(c, path, key);
      }
    }
  }

  /** A key that occurs in at most one memory table reads alike from either end. */
  lemma {:induction false} OneTableAgrees(logs: seq<Log>, key: Str)
    requires !InTwoTables(logs, key)
    ensures OldestFirst(logs, key) == NewestFirst(logs, key)
  {
    if logs == [] {
    } else {
      var init, last := logs[..|logs| - 1], logs[|logs| - 1];
      OldestOfMore(init, last, key);
      assert logs == init + [last];
      assert !InTwoTables(init, key) by {
        assert forall i | 0 <= i < |init| :: init[i] == logs[i];
      }
      OneTableAgrees(init, key);
      if Last(last, key).Some? {
        forall i | 0 <= i < |init|
          ensures Last(init[i], key) == None
        {
          assert init[i] == logs[i];
        }
        NoneFound(init, key);
      }
    }
  }

  lemma {:induction false} NoneFound(logs: seq<Log>, key: Str)
    requires forall i | 0 <= i < |logs| :: Last(logs[i], key) == None
    ensures OldestFirst(logs, key) == None
  {
    if logs == [] {
    } else {
      NoneFound(logs[1..], key);
    }
  }

  /** With nothing in flight and no key in two memory tables, `getPrefix` is exact. */
  lemma PrefixGetWithoutOverlap(c: Config, run: seq<State>, i: nat, key: Str)
    requires IsRun(c, run) && i < |run| && InFlight(run[i]) == []
    requires !InTwoTables(MemoryLogs(run[i].mem), key)
    ensures PrefixGet(run[i], key) == Lookup(Contents(run[i].history), key)
  {
    PrefixGetExact(c, run, i, key);
  }

  /** A rotation between two writes of one key is enough: until the older table is
      flushed, `getPrefix` shows the older value, which the map no longer holds. */
  lemma StalePrefixRead(c: Config, key: Str, older: Str, newer: Str) returns (run: seq<State>)
    requires ValidConfig(c) && 0 < |key| + |older| <= c.maxBytes < |key| + |older| + |key| + |newer|
    requires Live(Some(older)) != Live(Some(newer))
    ensures IsRun(c, run)
    ensures var s := run[|run| - 1];
            && InFlight(s) == []
            && PrefixGet(s, key) == Live(Some(older))
            && Get(s, s, key) == Lookup(Contents(s.history), key) == Live(Some(newer))
  {
    var a, b := Entry(key, older), Entry(key, newer);
    run := WriteTwice(c, a, b);
    var s := run[|run| - 1];
    assert Last([b], key) == Some(newer) && Last([a], key) == Some(older);
    assert MemoryLogs(s.mem) == [[a], [b]];
    AtomicGetExact(c, run, |run| - 1, key);
  }

  /** Key by key is all that can be said of a two-phase prefix read: here it shows an old
      value of one key, from memory, next to a value of another key, from the table that was
      published meanwhile, although the first had been overwritten before the second was
      written. The map never held the two together. */
  lemma ListMixesMoments(c: Config, a: Str, older: Str, newer: Str, b: Str, other: Str) returns (run: seq<State>)
    requires ValidConfig(c) && c.poolSize >= 1 && a != b && older != newer
    requires older != TOMBSTONE && newer != TOMBSTONE && other != TOMBSTONE
    requires 2 * |a| + |older| + |newer| + |b| + |other| <= c.maxBytes
    ensures IsRun(c, run) && |run| == 10 && run[1].history == [Entry(a, older)]
    ensures PrefixGetFrom(run[1], run[9], a) == Some(older) && PrefixGetFrom(run[1], run[9], b) == Some(other)
    ensures forall k | 0 <= k < |run| ::
              var m := Contents(run[k].history); Lookup(m, a) != Some(older) || Lookup(m, b) != Some(other)
  {
    var e, e', f := Entry(a, older), Entry(a, newer), Entry(b, other);
    run := ThreeWritesPublished(c, e, e', f);
    ReadFromEither(run[1], run[9], e, e', f);
    forall k | 0 <= k < |run|
      ensures var m := Contents(run[k].history); Lookup(m, a) != Some(older) || Lookup(m, b) != Some(other)
    {
      NeverTogether(e, e', f, run[k].history);
    }
  }

  lemma ReadFromEither(locked: State, loaded: State, e: Entry, e': Entry, f: Entry)
    requires locked.mem == Memory([e], []) && loaded.published == [Published(1, [e, e', f])] && e.key != f.key
    requires e.value != TOMBSTONE && f.value != TOMBSTONE
    ensures PrefixGetFrom(locked, loaded, e.key) == Some(e.value)
    ensures PrefixGetFrom(locked, loaded, f.key) == Some(f.value)
  {
    assert MemoryLogs(locked.mem) == [[e]] && [[e]][1..] == [];
    assert [e][..0] == [] && loaded.published[..0] == [];
    var log := [e, e', f];
    assert Logs(loaded.published) == [] + [log] == [log];
    assert Last([e], e.key) == Some(e.value) && Last([], f.key) == None && Last([e], f.key) == None;
    assert OldestFirst([], f.key) == None && OldestFirst([[e]], f.key) == None;
    assert Last(log, f.key) == Some(f.value) && NewestFirst([log], f.key) == Some(f.value);
  }

  lemma NeverTogether(e: Entry, e': Entry, f: Entry, history: Log)
    requires e.key == e'.key != f.key && e.value != e'.value
    requires e.value != TOMBSTONE && e'.value != TOMBSTONE && f.value != TOMBSTONE
    requires history in {[], [e], [e, e'], [e, e', f]}
    ensures Lookup(Contents(history), e.key) != Some(e.value) || Lookup(Contents(history), f.key) != Some(f.value)
  {
    assert [e][..0] == [] && [e, e'][..1] == [e] && [e, e', f][..2] == [e, e'];
    LastReadsContents(history, e.key);
    LastReadsContents(history, f.key);
    assert Last([], f.key) == None && Last([e], f.key) == None && Last([e, e'], f.key) == None;
    assert Last([e, e'], e.key) == Some(e'.value) && Last([e, e', f], e.key) == Some(e'.value);
  }
}
