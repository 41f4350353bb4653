/** Short concrete runs of the store that show why the guards of its guarantees are there. */
module Witnesses {
  import opened Bytes
  import opened Log
  import opened MemtableLog
  import opened Machine

  /** An empty store, freshly opened. */
  function Fresh(): State {
    State(Memory([], []), Idle, false, [], map[], map[], [], Waiting, 1, Open, [])
  }

  function Perform(c: Config, s: State, actions: seq<Action>): (run: seq<State>)
    requires CanPerform(c, s, actions)
    ensures run != [] && run[0] == s
    decreases |actions|
  {
    if actions == [] then [s] else [s] + Perform(c, Do(c, s, actions[0]), actions[1..])
  }

  predicate CanPerform(c: Config, s: State, actions: seq<Action>)
    decreases |actions|
  {
    actions == [] || (Enabled(c, s, actions[0]) && CanPerform(c, Do(c, s, actions[0]), actions[1..]))
  }

  lemma {:induction false} PerformIsPath(c: Config, s: State, actions: seq<Action>)
    requires CanPerform(c, s, actions)
    ensures IsPath(c, Perform(c, s, actions))
    decreases |actions|
  {
    if actions == [] {
    } else {
      var rest := Perform(c, Do(c, s, actions[0]), actions[1..]);
      PerformIsPath(c, Do(c, s, actions[0]), actions[1..]);
      var run := [s] + rest;
      forall i: nat | i + 1 < |run|
        ensures StepAt(c, run, i)
      {
        if i > 0 {
          assert StepAt(c, rest, i - 1);
        }
      }
    }
  }

  lemma Then(c: Config, s: State, a: Action, rest: seq<Action>)
    requires Enabled(c, s, a) && CanPerform(c, Do(c, s, a), rest)
    ensures CanPerform(c, s, [a] + rest)
    ensures Perform(c, s, [a] + rest) == [s] + Perform(c, Do(c, s, a), rest)
  {
    assert ([a] + rest)[1..] == rest;
  }

  /** One write, one barrier, and the flush thread has taken the table. */
  lemma WriteBarrierPop(c: Config, e: Entry) returns (run: seq<State>)
    requires ValidConfig(c)
    ensures IsRun(c, run)
    ensures run[|run| - 1] ==
            Fresh().(history := [e], barriers := map[0 := 1], flush := Popped([e]), inProgress := true)
  {
    var s0 := Fresh();
    var s1 := s0.(mem := Memory([e], []), history := [e]);
    var s2 := s1.(mem := Memory([], [[e]]), barriers := map[0 := 1]);
    var s3 := s2.(mem := Memory([], []), flush := Popped([e]), inProgress := true);
    assert [] + [e] == [e] && [] + [[e]] == [[e]] && [[e]][1..] == [];
    assert s1 == Do(c, s0, Write(0, e)) && s2 == Do(c, s1, EnterBarrier(0)) && s3 == Do(c, s2, Pop);
    Then(c, s2, Pop, []);
    Then(c, s1, EnterBarrier(0), [Pop]);
    Then(c, s0, Write(0, e), [EnterBarrier(0)] + [Pop]);
    var actions := [Write(0, e)] + ([EnterBarrier(0)] + [Pop]);
    PerformIsPath(c, s0, actions);
    run := Perform(c, s0, actions);
    assert run == [s0] + ([s1] + ([s2] + [s3]));
  }

  /** Two writes of one key into a table that has room for one of them. */
  lemma WriteTwice(c: Config, a: Entry, b: Entry) returns (run: seq<State>)
    requires ValidConfig(c) && 0 < EntrySize(a) <= c.maxBytes < EntrySize(a) + EntrySize(b)
    ensures IsRun(c, run)
    ensures run[|run| - 1] == Fresh().(history := [a, b], mem := Memory([b], [[a]]))
  {
    var s0 := Fresh();
    var s1 := s0.(mem := Memory([a], []), history := [a]);
    var s2 := s1.(mem := Memory([b], [[a]]), history := [a, b]);
    assert [] + [a] == [a] && [] + [b] == [b] && [] + [[a]] == [[a]] && [a] + [b] == [a, b];
    assert [a][..0] == [];
    assert s1 == Do(c, s0, Write(0, a)) && s2 == Do(c, s1, Write(0, b));
    Then(c, s1, Write(0, b), []);
    Then(c, s0, Write(0, a), [Write(0, b)]);
    PerformIsPath(c, s0, [Write(0, a)] + [Write(0, b)]);
    run := Perform(c, s0, [Write(0, a)] + [Write(0, b)]);
    assert run == [s0] + ([s1] + [s2]);
  }

  /** Three writes that share a table, which a barrier then sends to disk: the states after
      the first write and after the publication, and the run between them. */
  lemma ThreeWritesPublished(c: Config, a: Entry, a': Entry, b: Entry) returns (run: seq<State>)
    requires ValidConfig(c) && c.poolSize >= 1 && EntrySize(a) + EntrySize(a') + EntrySize(b) <= c.maxBytes
    ensures IsRun(c, run) && |run| == 10
    ensures run[1] == Fresh().(mem := Memory([a], []), history := [a])
    ensures run[9].mem == Memory([], []) && run[9].published == [Published(1, [a, a', b])]
    ensures forall k | 0 <= k < |run| :: run[k].history in {[], [a], [a, a'], [a, a', b]}
  {
    var log := [a, a', b];
    var s0 := Fresh();
    var s1 := s0.(mem := Memory([a], []), history := [a]);
    var s2 := s1.(mem := Memory([a, a'], []), history := [a, a']);
    var s3 := s2.(mem := Memory(log, []), history := log);
    var s4 := s3.(mem := Memory([], [log]), barriers := map[0 := 3]);
    var s5 := s4.(worker := Creating(1), nextFile := 2);
    var s6 := s5.(worker := Waiting, pool := [1]);
    var s7 := s6.(mem := Memory([], []), flush := Popped(log), inProgress := true);
    var s8 := s7.(flush := Acquired(log, 1), pool := []);
    var s9 := s8.(flush := Finished, published := [Published(1, log)]);
    run := [s0, s1, s2, s3, s4, s5, s6, s7, s8, s9];
    WritesFit(c, s0, a, s1, a', s2, b, s3);
    FileMade(c, s3, s4, s5, s6, log);
    TableFlushed(c, s6, s7, s8, s9, log);
    forall i: nat | i + 1 < |run|
      ensures StepAt(c, run, i)
    {
    }
  }

  lemma FileMade(c: Config, s3: State, s4: State, s5: State, s6: State, log: Log)
    requires c.poolSize >= 1 && log != [] && s3 == Fresh().(mem := Memory(log, []), history := log)
    requires s4 == s3.(mem := Memory([], [log]), barriers := map[0 := |log|])
    requires s5 == s4.(worker := Creating(1), nextFile := 2)
    requires s6 == s5.(worker := Waiting, pool := [1])
    ensures Next(c, s3, s4) && Next(c, s4, s5) && Next(c, s5, s6)
  {
    assert [] + [log] == [log] && [] + [1] == [1];
    StepBy(c, s3, EnterBarrier(0), s4);
    StepBy(c, s4, StartFile, s5);
    StepBy(c, s5, PushFile, s6);
  }

  lemma TableFlushed(c: Config, s6: State, s7: State, s8: State, s9: State, log: Log)
    requires log != [] && s6.mem == Memory([], [log]) && s6.flush == Idle && s6.stage == Open
    requires s6.pool == [1] && s6.published == []
    requires s7 == s6.(mem := Memory([], []), flush := Popped(log), inProgress := true)
    requires s8 == s7.(flush := Acquired(log, 1), pool := [])
    requires s9 == s8.(flush := Finished, published := [Published(1, log)])
    ensures Next(c, s6, s7) && Next(c, s7, s8) && Next(c, s8, s9)
  {
    assert [log][1..] == [] && [1][1..] == [] && [] + [Published(1, log)] == [Published(1, log)];
    StepBy(c, s6, Pop, s7);
    StepBy(c, s7, Acquire, s8);
    StepBy(c, s8, Publish, s9);
  }

  lemma StepBy(c: Config, s: State, a: Action, s': State)
    requires Enabled(c, s, a) && s' == Do(c, s, a)
    ensures Next(c, s, s')
  {
  }

  lemma WritesFit(c: Config, s0: State, a: Entry, s1: State, a': Entry, s2: State, b: Entry, s3: State)
    requires ValidConfig(c) && EntrySize(a) + EntrySize(a') + EntrySize(b) <= c.maxBytes && s0 == Fresh()
    requires s1 == s0.(mem := Memory([a], []), history := [a])
    requires s2 == s1.(mem := Memory([a, a'], []), history := [a, a'])
    requires s3 == s2.(mem := Memory([a, a', b], []), history := [a, a', b])
    ensures Next(c, s0, s1) && Next(c, s1, s2) && Next(c, s2, s3)
  {
    assert [] + [a] == [a] && [a] + [a'] == [a, a'] && [a, a'] + [b] == [a, a', b];
    assert [a][..0] == [] && [a, a'][..1] == [a];
    StepBy(c, s0, Write(0, a), s1);
    StepBy(c, s1, Write(0, a'), s2);
    StepBy(c, s2, Write(0, b), s3);
  }
}
