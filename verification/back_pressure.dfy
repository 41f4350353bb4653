/** When a write waits, when it may go on, and when a memory table is sealed, in queue lengths
    and byte counts. */
module BackPressure {
  import opened Bytes
  import opened Log
  import opened MemtableLog
  import opened SSTable
  import opened Machine
  import opened Invariants
  import opened ObjectRuns

  /** The byte count of a log is the length of its file without the two lengths that each
      record carries. */
  lemma {:induction false} SizeInFile(log: Log)
    requires AllFit(log)
    ensures |Serialize(log)| == Size(log) + 8 * |log|
  {
    if log == [] {
    } else {
      SizeInFile(log[..|log| - 1]);
    }
  }

  /** The active table has an entry of some size and would exceed its limit. */
  predicate Full(c: Config, s: State, e: Entry) {
    Size(s.mem.active) > 0 && Size(s.mem.active) + |e.key| + |e.value| > c.maxBytes
  }

  /** A write waits exactly when the active table is full and the queue has reached its limit,
      and nothing else changes then. Otherwise it is committed: to a new table, with the full
      one sealed, or to the active one. */
  lemma WriteExactly(c: Config, s: State, id: nat, e: Entry)
    requires Enabled(c, s, Write(id, e))
    ensures Do(c, s, Write(id, e)) ==
            if Full(c, s, e) && |s.mem.queue| >= c.maxImmutable then s.(writers := s.writers[id := e])
            else s.(history := s.history + [e],
                 mem := if Full(c, s, e) then Memory([e], s.mem.queue + [s.mem.active])
                 else Memory(s.mem.active + [e], s.mem.queue))
  {
  }

  /** A blocked writer may go on exactly when the queue is shorter than its limit. It seals
      the table that is active by then and commits its entry to a new one. */
  lemma ResumeExactly(c: Config, s: State, id: nat)
    ensures Enabled(c, s, Resume(id)) <==> id in s.writers && |s.mem.queue| < c.maxImmutable
    ensures Enabled(c, s, Resume(id)) ==>
              Do(c, s, Resume(id)) ==
              s.(history := s.history + [s.writers[id]], writers := s.writers - {id},
              mem := Memory([s.writers[id]], s.mem.queue + [s.mem.active]))
  {
  }

  /** The call that is waiting arrived in this state, was blocked, and has waited since. */
  predicate BlockedFrom(c: Config, run: seq<State>, i: nat, j: nat, id: nat, e: Entry)
    requires i < j < |run|
  {
    && run[i].stage == Open && id !in run[i].writers
    && Size(run[i].mem.active) > 0 && Size(run[i].mem.active) + |e.key| + |e.value| > c.maxBytes
    && |run[i].mem.queue| >= c.maxImmutable
    && forall k | i < k <= j :: id in run[k].writers && run[k].writers[id] == e
  }

  lemma OthersBlockNobody(c: Config, s: State, a: Action)
    requires Enabled(c, s, a) && !a.Write?
    ensures forall id | id in Do(c, s, a).writers :: id in s.writers && Do(c, s, a).writers[id] == s.writers[id]
  {
  }

  lemma WriterArrives(c: Config, s: State, s': State, id: nat)
    requires Next(c, s, s') && id in s'.writers
    ensures if id in s.writers then s'.writers[id] == s.writers[id]
            else s.stage == Open && Full(c, s, s'.writers[id]) && |s.mem.queue| >= c.maxImmutable
  {
    var a :| Enabled(c, s, a) && s' == Do(c, s, a);
    if a.Write? {
      WriteExactly(c, s, a.id, a.entry);
    } else {
      OthersBlockNobody(c, s, a);
    }
  }

  /** Whoever waits in a reachable state came when the queue had reached its limit and the
      entry did not fit into the active table, which was not empty. */
  lemma {:induction false} OnlyBlockedWait(c: Config, run: seq<State>, j: nat, id: nat) returns (i: nat)
    requires IsRun(c, run) && j < |run| && id in run[j].writers
    ensures i < j && BlockedFrom(c, run, i, j, id, run[j].writers[id])
    decreases j
  {
    if j == 0 {
      assert false;
    } else {
      assert StepAt(c, run, j - 1);
      WriterArrives(c, run[j - 1], run[j], id);
      if id in run[j - 1].writers {
        i := OnlyBlockedWait(c, run, j - 1, id);
      } else {
        i := j - 1;
      }
    }
  }

  /** The same for the store's object: a write of it waits, or may go on, by these numbers. */
  lemma ObjectWaitsExactly(c: Config, w: World, id: nat, e: Entry, n: nat)
    requires Allowed(c, w, Write(id, e))
    ensures id in Run(c, w, Write(id, e), n).writers <==>
            && |w.view.mem.queue| >= c.maxImmutable
            && Size(w.view.mem.active) > 0 && Size(w.view.mem.active) + |e.key| + |e.value| > c.maxBytes
    ensures forall blocked | blocked in w.writers ::
              Allowed(c, w, Resume(blocked)) <==> |w.view.mem.queue| < c.maxImmutable
  {
  }
}
