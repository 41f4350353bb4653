/** The protocol and the shared store together: what every client has in the store when the
    server is done. */
module CollectiveResults {
  import opened Wrappers
  import opened Bytes
  import opened Log
  import opened Collective
  import opened CollectiveRuns
  import opened RankIsolation

  const AGGREGATION_RANK := 0

  /** The clients are the ranks behind the aggregator's. */
  function RankOf(client: nat): nat {
    client + 1
  }

  /** The commands that the server passed to the callback. */
  function Events(scripts: Scripts, handled: seq<Handled>, n: nat): seq<Event>
    requires n <= |handled| && AllInScripts(scripts, handled)
  {
    if n == 0 then []
    else
      var h := handled[n - 1];
      assert InScripts(scripts, h);
      Events(scripts, handled, n - 1) + [Event(RankOf(h.rank), scripts[h.rank][h.command])]
  }

  /** Without the operations of the aggregator itself. */
  function ClientEvents(events: seq<Event>): seq<Event> {
    if events == [] then []
    else
      var last := events[|events| - 1];
      ClientEvents(events[..|events| - 1]) + if last.rank != AGGREGATION_RANK then [last] else []
  }

  predicate Below(numbers: seq<nat>, n: nat) {
    forall i | 0 <= i < |numbers| :: numbers[i] < n
  }

  /** The commands with these numbers. */
  function Picked(script: seq<Cmd>, numbers: seq<nat>): seq<Cmd>
    requires Below(numbers, |script|)
  {
    if numbers == [] then []
    else Picked(script, numbers[..|numbers| - 1]) + [script[numbers[|numbers| - 1]]]
  }

  lemma {:induction false} PickedUpTo(script: seq<Cmd>, n: nat)
    requires n <= |script|
    ensures Picked(script, UpTo(n)) == script[..n]
  {
    if n == 0 {
    } else {
      PickedUpTo(script, n - 1);
      PickedMore(script, UpTo(n - 1), [n - 1]);
      assert script[..n] == script[..n - 1] + [script[n - 1]];
    }
  }

  lemma BelowMore(numbers: seq<nat>, more: seq<nat>, n: nat)
    requires Below(numbers, n) && Below(more, n)
    ensures Below(numbers + more, n)
  {
  }

  lemma {:induction false} OfRankInScript(scripts: Scripts, handled: seq<Handled>, n: nat, i: nat)
    requires n <= |handled| && AllInScripts(scripts, handled) && i < |scripts|
    ensures Below(OfRank(handled, n, i), |scripts[i]|)
  {
    if n == 0 {
    } else {
      var h := handled[n - 1];
      OfRankInScript(scripts, handled, n - 1, i);
      assert InScripts(scripts, h);
      BelowMore(OfRank(handled, n - 1, i), if h.rank == i then [h.command] else [], |scripts[i]|);
    }
  }

  /** The callback sees each rank's commands as the protocol handled them. */
  lemma {:induction false} OwnEvents(scripts: Scripts, handled: seq<Handled>, n: nat, i: nat)
    requires n <= |handled| && AllInScripts(scripts, handled) && i < |scripts|
    ensures Below(OfRank(handled, n, i), |scripts[i]|)
    ensures OwnCommands(Events(scripts, handled, n), RankOf(i)) == Picked(scripts[i], OfRank(handled, n, i))
  {
    OfRankInScript(scripts, handled, n, i);
    if n == 0 {
    } else {
      var before, h := Events(scripts, handled, n - 1), handled[n - 1];
      assert InScripts(scripts, h);
      var event := Event(RankOf(h.rank), scripts[h.rank][h.command]);
      OwnEvents(scripts, handled, n - 1, i);
      OwnOfMore(before, event, RankOf(i));
      PickedMore(scripts[i], OfRank(handled, n - 1, i), if h.rank == i then [h.command] else []);
    }
  }

  lemma OwnOfMore(events: seq<Event>, event: Event, rank: nat)
    ensures OwnCommands(events + [event], rank) ==
            OwnCommands(events, rank) + if event.rank == rank then [event.cmd] else []
  {
    assert (events + [event])[..|events|] == events;
  }

  lemma PickedMore(script: seq<Cmd>, numbers: seq<nat>, more: seq<nat>)
    requires Below(numbers, |script|)
    requires |more| <= 1 && (more != [] ==> more[0] < |script|)
    ensures Picked(script, numbers + more) == Picked(script, numbers) + if more == [] then [] else [script[more[0]]]
  {
    if more == [] {
      assert numbers + more == numbers;
    } else {
      assert (numbers + more)[..|numbers|] == numbers;
    }
  }

  /** The aggregator's own operations are not commands of a client. */
  lemma {:induction false} OwnOfClients(events: seq<Event>, rank: nat)
    requires rank != AGGREGATION_RANK
    ensures OwnCommands(ClientEvents(events), rank) == OwnCommands(events, rank)
  {
    if events == [] {
    } else {
      var before, last := events[..|events| - 1], events[|events| - 1];
      OwnOfClients(before, rank);
      OwnOfMore(ClientEvents(before), last, rank);
      assert ClientEvents(before) + [] == ClientEvents(before);
    }
  }

  lemma DoneServesScript(scripts: Scripts, s: State, i: nat)
    requires Inv(scripts, s) && s.phase == Done && i < |scripts| && AllInScripts(scripts, s.handled)
    ensures OwnCommands(Events(scripts, s.handled, |s.handled|), RankOf(i)) == scripts[i]
  {
    var n := |scripts[0]|;
    DoneServesAll(scripts, s, n);
    OwnEvents(scripts, s.handled, |s.handled|, i);
    PickedUpTo(scripts[i], n);
    assert scripts[i][..n] == scripts[i];
  }

  /** When the server is out of its loop, whatever the interleaving was and whatever the
      aggregator did to the store in between under its own rank, every client's keys hold
      what its script alone would have left. */
  lemma DoneLeavesScripts(scripts: Scripts, s: State, events: seq<Event>, i: nat)
    requires Inv(scripts, s) && s.phase == Done && i < |scripts|
    requires AllInScripts(scripts, s.handled)
    requires ClientEvents(events) == Events(scripts, s.handled, |s.handled|)
    ensures Shows(Shared(map[], events), RankOf(i), Alone(Solo(map[], map[]), scripts[i]))
  {
    DoneServesScript(scripts, s, i);
    OwnOfClients(events, RankOf(i));
    EmptyShows(RankOf(i));
    RanksAreIsolated(map[], RankOf(i), Solo(map[], map[]), events);
  }

  lemma HandledInScripts(scripts: Scripts, s: State)
    requires Inv(scripts, s)
    ensures AllInScripts(scripts, s.handled)
  {
    RoundsInScripts(scripts, s.round);
    if s.phase.Handle? {
      TurnsInScripts(scripts, s.round, s.phase.rank);
    }
  }

  /** The same from the initial state on. */
  lemma FinishedRunLeavesScripts(scripts: Scripts, capacity: nat, run: seq<State>, j: nat,
                                 events: seq<Event>, i: nat)
    requires IsRun(scripts, capacity, run) && j < |run| && run[j].phase == Done && i < |scripts|
    ensures AllInScripts(scripts, run[j].handled)
    ensures ClientEvents(events) == Events(scripts, run[j].handled, |run[j].handled|) ==>
              Shows(Shared(map[], events), RankOf(i), Alone(Solo(map[], map[]), scripts[i]))
  {
    RunInv(scripts, capacity, run, j);
    HandledInScripts(scripts, run[j]);
    if ClientEvents(events) == Events(scripts, run[j].handled, |run[j].handled|) {
      DoneLeavesScripts(scripts, run[j], events, i);
    }
  }

  /** On values: what a client's script wrote last under a key is what the store holds for it
      in the end, and a deletion or a tombstone leaves nothing. */
  lemma FinishedRunHoldsLastWrites(scripts: Scripts, capacity: nat, run: seq<State>, j: nat, events: seq<Event>,
                                   i: nat, read: Cmd, k: nat)
    requires IsRun(scripts, capacity, run) && j < |run| && run[j].phase == Done && i < |scripts|
    requires read.op.Get? || read.op.MetaGet?
    requires k < |scripts[i]| && Decides(Event(i + 1, scripts[i][k]), i + 1, read)
    requires forall l | k < l < |scripts[i]| :: !Decides(Event(i + 1, scripts[i][l]), i + 1, read)
    ensures AllInScripts(scripts, run[j].handled)
    ensures ClientEvents(events) == Events(scripts, run[j].handled, |run[j].handled|) ==>
              var last := scripts[i][k];
              Lookup(Shared(map[], events), KeyRead(i + 1, read)) ==
              if last.op.Del? || last.value == "__LSM_TOMBSTONE_v1__" then None else Some(last.value)
  {
    FinishedRunLeavesScripts(scripts, capacity, run, j, events, i);
    if ClientEvents(events) == Events(scripts, run[j].handled, |run[j].handled|) {
      var solo := Alone(Solo(map[], map[]), scripts[i]);
      AloneHoldsLastWrite(Solo(map[], map[]), scripts[i], i + 1, read, k);
      assert ShowsAt(Shared(map[], events), RankOf(i), solo, read.key);
    }
  }
}
