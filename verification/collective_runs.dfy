/** Whole runs of the collective protocol: what every interleaving keeps, where it can end,
    and that it does end. */
module CollectiveRuns {
  import opened Bytes
  import opened Collective

  ghost predicate Next(scripts: Scripts, capacity: nat, s: State, s': State)
    requires |s.links| == |scripts|
  {
    exists step :: Enabled(scripts, capacity, s, step) && s' == Do(scripts, capacity, s, step)
  }

  ghost predicate StepAt(scripts: Scripts, capacity: nat, run: seq<State>, i: nat)
    requires i + 1 < |run|
  {
    |run[i].links| == |scripts| && Next(scripts, capacity, run[i], run[i + 1])
  }

  ghost predicate IsRun(scripts: Scripts, capacity: nat, run: seq<State>) {
    run != [] && Init(scripts, run[0]) && forall i: nat | i + 1 < |run| :: StepAt(scripts, capacity, run, i)
  }

  /** No client and no server can move. */
  ghost predicate Stuck(scripts: Scripts, capacity: nat, s: State) {
    |s.links| == |scripts| && forall step :: !Enabled(scripts, capacity, s, step)
  }

  // ---- The invariant ----

  /** How many messages of a rank have been received, and how many handled. */
  function ReceivedOf(s: State, i: nat): nat {
    if s.phase.Handle? || (s.phase.Receive? && i < s.phase.rank) then s.round + 1 else s.round
  }

  function HandledOf(s: State, i: nat): nat {
    if s.phase.Handle? && i < s.phase.rank then s.round + 1 else s.round
  }

  /** Channels of one client: nothing is handled before it is received nor received before
      it is sent; a client waits for the answer to its last command and to no other; the
      answer is under way exactly from its handling to its arrival. */
  ghost predicate LinkOk(script: seq<Cmd>, l: Link, received: nat, handled: nat) {
    && l.received == received && handled <= received <= l.sent <= |script| + 1
    && (l.eol <==> handled > |script|)
    && (l.awaiting ==> 1 <= l.sent <= |script| && Answered(script[l.sent - 1].op))
    && (forall k | handled <= k < l.sent && k < |script| && Answered(script[k].op) :: k == l.sent - 1 && l.awaiting)
    && l.replies == if l.awaiting && handled == l.sent then [l.sent - 1] else []
  }

  ghost predicate LinksOk(scripts: Scripts, s: State) {
    && |s.links| == |scripts| > 0
    && forall i | 0 <= i < |scripts| :: LinkOk(scripts[i], s.links[i], ReceivedOf(s, i), HandledOf(s, i))
  }

  /** A round is only started while some client's end of life has not been handled. */
  ghost predicate RoundNeeded(scripts: Scripts, s: State) {
    match s.phase
    case Top => true
    case Receive(i) => i < |scripts| && exists j :: 0 <= j < |scripts| && s.round <= |scripts[j]|
    case Handle(i) => i < |scripts| && exists j :: 0 <= j < |scripts| && s.round <= |scripts[j]|
    case Done => forall j | 0 <= j < |scripts| :: s.round > |scripts[j]|
  }

  ghost predicate HandledInOrder(scripts: Scripts, s: State) {
    s.handled == Rounds(scripts, s.round) +
    if s.phase.Handle? && s.phase.rank <= |scripts| then Turns(scripts, s.round, s.phase.rank) else []
  }

  ghost predicate Inv(scripts: Scripts, s: State) {
    LinksOk(scripts, s) && RoundNeeded(scripts, s) && HandledInOrder(scripts, s)
  }

  lemma SendKeepsLink(script: seq<Cmd>, l: Link, received: nat, handled: nat)
    requires LinkOk(script, l, received, handled) && !l.awaiting && l.sent <= |script|
    ensures LinkOk(script, Sent(script, l), received, handled)
  {
  }

  lemma ReplyKeepsLink(script: seq<Cmd>, l: Link, received: nat, handled: nat)
    requires LinkOk(script, l, received, handled) && l.awaiting && l.replies != []
    ensures LinkOk(script, Replied(l), received, handled)
    ensures l.replies[0] == l.sent - 1
  {
  }

  lemma ReceiveKeepsLink(script: seq<Cmd>, l: Link, received: nat, handled: nat)
    requires LinkOk(script, l, received, handled) && l.sent > l.received
    ensures LinkOk(script, l.(received := l.received + 1), received + 1, handled)
  {
  }

  lemma ServeKeepsLink(script: seq<Cmd>, l: Link, handled: nat)
    requires LinkOk(script, l, handled + 1, handled)
    ensures LinkOk(script, Served(script, l), handled + 1, handled + 1)
  {
  }

  /** Only one link changes in a step; the counts of the other ranks stay. */
  lemma LinkUpdate(scripts: Scripts, s: State, s': State, i: nat, l: Link)
    requires LinksOk(scripts, s) && i < |scripts| && s'.links == s.links[i := l]
    requires LinkOk(scripts[i], l, ReceivedOf(s', i), HandledOf(s', i))
    requires forall j | 0 <= j < |scripts| && j != i ::
               ReceivedOf(s', j) == ReceivedOf(s, j) && HandledOf(s', j) == HandledOf(s, j)
    ensures LinksOk(scripts, s')
  {
  }

  lemma ClientKeepsLinks(scripts: Scripts, s: State, i: nat, l: Link)
    requires LinksOk(scripts, s) && i < |scripts|
    requires LinkOk(scripts[i], l, ReceivedOf(s, i), HandledOf(s, i))
    ensures LinksOk(scripts, s.(links := s.links[i := l]))
  {
    LinkUpdate(scripts, s, s.(links := s.links[i := l]), i, l);
  }

  lemma ReceiveKeepsLinks(scripts: Scripts, s: State, s': State)
    requires LinksOk(scripts, s) && s.phase.Receive? && s.phase.rank < |scripts|
    requires s.links[s.phase.rank].sent > s.links[s.phase.rank].received
    requires var i := s.phase.rank;
             s' == s.(links := s.links[i := s.links[i].(received := s.links[i].received + 1)],
             phase := if i + 1 < |scripts| then Receive(i + 1) else Handle(0))
    ensures LinksOk(scripts, s')
  {
    var i := s.phase.rank;
    ReceiveKeepsLink(scripts[i], s.links[i], s.round, s.round);
    LinkUpdate(scripts, s, s', i, s'.links[i]);
  }

  lemma HandleKeepsLinks(scripts: Scripts, s: State, s': State)
    requires LinksOk(scripts, s) && s.phase.Handle? && s.phase.rank < |scripts|
    requires s.links[s.phase.rank].received > 0
    requires var i := s.phase.rank;
             && s'.links == s.links[i := Served(scripts[i], s.links[i])]
             && s'.phase == (if i + 1 < |scripts| then Handle(i + 1) else Top)
             && s'.round == if i + 1 < |scripts| then s.round else s.round + 1
    ensures LinksOk(scripts, s')
  {
    var i := s.phase.rank;
    ServeKeepsLink(scripts[i], s.links[i], s.round);
    LinkUpdate(scripts, s, s', i, s'.links[i]);
  }

  lemma StepKeepsLinks(scripts: Scripts, capacity: nat, s: State, step: Step)
    requires LinksOk(scripts, s) && RoundNeeded(scripts, s) && Enabled(scripts, capacity, s, step)
    ensures LinksOk(scripts, Do(scripts, capacity, s, step))
  {
    match step
    case Send(i) =>
      SendKeepsLink(scripts[i], s.links[i], ReceivedOf(s, i), HandledOf(s, i));
      ClientKeepsLinks(scripts, s, i, Sent(scripts[i], s.links[i]));
    case TakeReply(i) =>
      ReplyKeepsLink(scripts[i], s.links[i], ReceivedOf(s, i), HandledOf(s, i));
      ClientKeepsLinks(scripts, s, i, Replied(s.links[i]));
    case Serve =>
      ServeKeepsLinks(scripts, capacity, s);
  }

  lemma ServeKeepsLinks(scripts: Scripts, capacity: nat, s: State)
    requires LinksOk(scripts, s) && Enabled(scripts, capacity, s, Serve)
    ensures LinksOk(scripts, Do(scripts, capacity, s, Serve))
  {
    match s.phase
    case Receive(_) => ReceiveKeepsLinks(scripts, s, Do(scripts, capacity, s, Serve));
    case Handle(_) => HandleKeepsLinks(scripts, s, Do(scripts, capacity, s, Serve));
    case _ =>
  }

  lemma StepKeepsRound(scripts: Scripts, capacity: nat, s: State, step: Step)
    requires LinksOk(scripts, s) && RoundNeeded(scripts, s) && Enabled(scripts, capacity, s, step)
    ensures RoundNeeded(scripts, Do(scripts, capacity, s, step))
  {
    if step.Serve? && s.phase.Top? {
      forall i | 0 <= i < |scripts|
        ensures s.links[i].eol <==> s.round > |scripts[i]|
      {
        assert LinkOk(scripts[i], s.links[i], s.round, s.round);
      }
    }
  }

  lemma NextTurn(scripts: Scripts, handled: seq<Handled>, r: nat, i: nat)
    requires i < |scripts| && handled == Rounds(scripts, r) + Turns(scripts, r, i)
    ensures handled + Turn(scripts[i], i, r) == Rounds(scripts, r) + Turns(scripts, r, i + 1)
    ensures i + 1 == |scripts| ==> handled + Turn(scripts[i], i, r) == Rounds(scripts, r + 1) + []
  {
    var done, turns, turn := Rounds(scripts, r), Turns(scripts, r, i), Turn(scripts[i], i, r);
    assert done + turns + turn == done + (turns + turn);
  }

  lemma ServedLog(scripts: Scripts, capacity: nat, s: State)
    requires LinksOk(scripts, s) && RoundNeeded(scripts, s) && s.phase.Handle?
    requires Enabled(scripts, capacity, s, Serve)
    ensures var i := s.phase.rank;
            Do(scripts, capacity, s, Serve).handled == s.handled + Turn(scripts[i], i, s.round)
  {
    var i := s.phase.rank;
    assert LinkOk(scripts[i], s.links[i], s.round + 1, s.round);
  }

  lemma StepKeepsOrder(scripts: Scripts, capacity: nat, s: State, step: Step)
    requires Inv(scripts, s) && Enabled(scripts, capacity, s, step)
    ensures HandledInOrder(scripts, Do(scripts, capacity, s, step))
  {
    match step
    case Serve => ServeKeepsOrder(scripts, capacity, s);
    case _ =>
  }

  lemma ServeKeepsOrder(scripts: Scripts, capacity: nat, s: State)
    requires Inv(scripts, s) && Enabled(scripts, capacity, s, Serve)
    ensures HandledInOrder(scripts, Do(scripts, capacity, s, Serve))
  {
    if s.phase.Handle? {
      ServedLog(scripts, capacity, s);
      HandlingKeepsOrder(scripts, s, Do(scripts, capacity, s, Serve));
    } else {
      OrderStays(scripts, s, Do(scripts, capacity, s, Serve));
    }
  }

  lemma HandlingKeepsOrder(scripts: Scripts, s: State, s': State)
    requires HandledInOrder(scripts, s) && s.phase.Handle? && s.phase.rank < |scripts|
    requires var i := s.phase.rank;
             && s'.handled == s.handled + Turn(scripts[i], i, s.round)
             && s'.phase == (if i + 1 < |scripts| then Handle(i + 1) else Top)
             && s'.round == if i + 1 < |scripts| then s.round else s.round + 1
    ensures HandledInOrder(scripts, s')
  {
    NextTurn(scripts, s.handled, s.round, s.phase.rank);
  }

  lemma OrderStays(scripts: Scripts, s: State, s': State)
    requires HandledInOrder(scripts, s) && !s.phase.Handle?
    requires s'.handled == s.handled && s'.round == s.round && (s'.phase.Handle? ==> s'.phase.rank == 0)
    ensures HandledInOrder(scripts, s')
  {
  }

  lemma StepKeepsInv(scripts: Scripts, capacity: nat, s: State, step: Step)
    requires Inv(scripts, s) && Enabled(scripts, capacity, s, step)
    ensures Inv(scripts, Do(scripts, capacity, s, step))
  {
    StepKeepsLinks(scripts, capacity, s, step);
    StepKeepsRound(scripts, capacity, s, step);
    StepKeepsOrder(scripts, capacity, s, step);
  }

  lemma {:induction false} RunInv(scripts: Scripts, capacity: nat, run: seq<State>, i: nat)
    requires IsRun(scripts, capacity, run) && i < |run|
    ensures Inv(scripts, run[i])
    decreases i
  {
    if i == 0 {
    } else {
      RunInv(scripts, capacity, run, i - 1);
      var s := run[i - 1];
      assert StepAt(scripts, capacity, run, i - 1);
      var step :| Enabled(scripts, capacity, s, step) && run[i] == Do(scripts, capacity, s, step);
      StepKeepsInv(scripts, capacity, s, step);
    }
  }

  /** In every reachable state an answer under way to a client is the answer to the command
      the client waits on, and that command has been handled. */
  lemma AnswersAreOwn(scripts: Scripts, capacity: nat, run: seq<State>, j: nat, i: nat)
    requires IsRun(scripts, capacity, run) && j < |run| && i < |scripts|
    ensures |run[j].links| == |scripts|
    ensures var l := run[j].links[i];
            l.replies != [] ==> l.awaiting && l.replies == [l.sent - 1] && l.sent - 1 < HandledOf(run[j], i)
  {
    RunInv(scripts, capacity, run, j);
    assert LinkOk(scripts[i], run[j].links[i], ReceivedOf(run[j], i), HandledOf(run[j], i));
  }

  // ---- Where a run can end ----

  predicate SameLength(scripts: Scripts) {
    forall i, j | 0 <= i < |scripts| && 0 <= j < |scripts| :: |scripts[i]| == |scripts[j]|
  }

  /** The server waits for a message of a rank that has already sent its end of life. */
  predicate WaitsForShutRank(scripts: Scripts, s: State) {
    && s.phase.Receive? && s.phase.rank < |scripts| == |s.links|
    && s.links[s.phase.rank].sent == s.links[s.phase.rank].received == |scripts[s.phase.rank]| + 1
  }

  /** The first of the ranks with the fewest commands. */
  predicate FirstFewest(scripts: Scripts, i: nat) {
    && i < |scripts|
    && (forall j | 0 <= j < i :: |scripts[i]| < |scripts[j]|)
    && (forall j | i <= j < |scripts| :: |scripts[i]| <= |scripts[j]|)
  }

  /** When the server is out of its loop, all clients had the same number of commands, it
      took one round more than that, every command was handled once and in its sender's
      order, and no client waits for an answer. */
  lemma DoneServesAll(scripts: Scripts, s: State, n: nat)
    requires Inv(scripts, s) && s.phase == Done && n == |scripts[0]|
    ensures SameLength(scripts) && s.round == n + 1
    ensures s.handled == Rounds(scripts, n + 1)
    ensures forall i | 0 <= i < |scripts| ::
              && OfRank(s.handled, |s.handled|, i) == UpTo(n)
              && s.links[i].sent == n + 1 && !s.links[i].awaiting && s.links[i].replies == []
  {
    forall i | 0 <= i < |scripts|
      ensures |scripts[i]| + 1 == s.round
      ensures s.links[i].sent == |scripts[i]| + 1 && !s.links[i].awaiting && s.links[i].replies == []
    {
      assert LinkOk(scripts[i], s.links[i], s.round, s.round);
    }
    assert s.handled == Rounds(scripts, n + 1);
    forall i | 0 <= i < |scripts|
      ensures OfRank(s.handled, |s.handled|, i) == UpTo(n)
    {
      RoundsServeInOrder(scripts, n + 1, i);
    }
  }

  /** While the server waits for a rank that has not shut down, some step is possible. */
  lemma RankCanMove(scripts: Scripts, capacity: nat, s: State) returns (step: Step)
    requires Inv(scripts, s) && capacity >= 1 && s.phase != Done && !WaitsForShutRank(scripts, s)
    ensures Enabled(scripts, capacity, s, step)
  {
    step := Serve;
    if s.phase.Receive? {
      var i := s.phase.rank;
      assert LinkOk(scripts[i], s.links[i], s.round, s.round);
      if s.links[i].sent == s.links[i].received {
        step := if s.links[i].awaiting then TakeReply(i) else Send(i);
      }
    } else if s.phase.Handle? {
      assert LinkOk(scripts[s.phase.rank], s.links[s.phase.rank], s.round + 1, s.round);
    }
  }

  lemma WaitingRank(scripts: Scripts, s: State)
    requires Inv(scripts, s) && WaitsForShutRank(scripts, s)
    ensures FirstFewest(scripts, s.phase.rank) && s.round == |scripts[s.phase.rank]| + 1
    ensures !SameLength(scripts)
  {
    var i := s.phase.rank;
    assert LinkOk(scripts[i], s.links[i], s.round, s.round);
    forall j | 0 <= j < |scripts|
      ensures j < i ==> |scripts[i]| < |scripts[j]|
      ensures i <= j ==> |scripts[i]| <= |scripts[j]|
    {
      assert LinkOk(scripts[j], s.links[j], if j < i then s.round + 1 else s.round, s.round);
    }
    var j :| 0 <= j < |scripts| && s.round <= |scripts[j]|;
  }

  /** No step ends the wait for a rank that has shut down. */
  lemma StepLeavesWaiting(scripts: Scripts, capacity: nat, s: State, step: Step)
    requires WaitsForShutRank(scripts, s) && Enabled(scripts, capacity, s, step)
    ensures WaitsForShutRank(scripts, Do(scripts, capacity, s, step))
    ensures Do(scripts, capacity, s, step).phase == s.phase
    ensures Do(scripts, capacity, s, step).handled == s.handled
  {
  }

  /** So in every later state of a run it still waits, and has handled nothing more. */
  lemma {:induction false} WaitsForever(scripts: Scripts, capacity: nat, run: seq<State>, i: nat, j: nat)
    requires IsRun(scripts, capacity, run) && i <= j < |run| && WaitsForShutRank(scripts, run[i])
    ensures WaitsForShutRank(scripts, run[j]) && run[j].phase == run[i].phase && run[j].handled == run[i].handled
    decreases j
  {
    if i == j {
    } else {
      WaitsForever(scripts, capacity, run, i, j - 1);
      assert StepAt(scripts, capacity, run, j - 1);
      var s := run[j - 1];
      var step :| Enabled(scripts, capacity, s, step) && run[j] == Do(scripts, capacity, s, step);
      StepLeavesWaiting(scripts, capacity, s, step);
    }
  }

  /** A run that cannot be continued has finished if and only if all clients sent the same
      number of commands. Otherwise the server waits for the first of the ranks that sent
      the fewest, after one round more than that number. Either way, what was handled, and
      in which order, does not depend on the interleaving. */
  lemma FinishesExactly(scripts: Scripts, capacity: nat, run: seq<State>, last: State)
    requires IsRun(scripts, capacity, run) && capacity >= 1 && last == run[|run| - 1]
    requires Stuck(scripts, capacity, last)
    ensures last.phase == Done <==> SameLength(scripts)
    ensures last.phase == Done ==> FinishedState(scripts, last)
    ensures last.phase != Done ==>
              && WaitsForShutRank(scripts, last) && FirstFewest(scripts, last.phase.rank)
              && last.handled == Rounds(scripts, |scripts[last.phase.rank]| + 1)
  {
    RunInv(scripts, capacity, run, |run| - 1);
    if last.phase == Done {
      DoneServesAll(scripts, last, |scripts[0]|);
    } else if WaitsForShutRank(scripts, last) {
      WaitingRank(scripts, last);
    } else {
      var step := RankCanMove(scripts, capacity, last);
      assert false;
    }
  }

  ghost predicate FinishedState(scripts: Scripts, s: State) {
    && |s.links| == |scripts| > 0
    && s.round == |scripts[0]| + 1 && s.handled == Rounds(scripts, |scripts[0]| + 1)
    && forall i | 0 <= i < |scripts| ::
         OfRank(s.handled, |s.handled|, i) == UpTo(|scripts[i]|) && !s.links[i].awaiting && s.links[i].replies == []
  }

  // ---- Every run ends ----

  function Longest(scripts: Scripts): (n: nat)
    ensures forall i | 0 <= i < |scripts| :: |scripts[i]| <= n
  {
    if scripts == [] then 0
    else
      var n := Longest(scripts[1..]);
      if |scripts[0]| > n then |scripts[0]| else n
  }

  /** What the first `n` clients have left to do: sends, and an answer for each. */
  function ClientWork(scripts: Scripts, links: seq<Link>, n: nat): int
    requires n <= |scripts| == |links|
  {
    if n == 0 then 0 else ClientWork(scripts, links, n - 1) + LinkWork(scripts[n - 1], links[n - 1])
  }

  function LinkWork(script: seq<Cmd>, l: Link): int {
    2 * (|script| + 1 - l.sent) + if l.awaiting then 1 else 0
  }

  function Position(n: nat, phase: Phase): int {
    match phase
    case Top => 0
    case Receive(i) => 1 + i
    case Handle(i) => 1 + n + i
    case Done => 1
  }

  /** What the server has left to do. */
  function ServerWork(scripts: Scripts, s: State): int {
    (Longest(scripts) + 2 - s.round) * (2 * |scripts| + 1) - Position(|scripts|, s.phase)
  }

  function Work(scripts: Scripts, s: State): int
    requires |s.links| == |scripts|
  {
    ClientWork(scripts, s.links, |scripts|) + ServerWork(scripts, s)
  }

  lemma {:induction false} WorkOfUpdate(scripts: Scripts, links: seq<Link>, n: nat, i: nat, l: Link)
    requires n <= |scripts| == |links| && i < |scripts|
    ensures ClientWork(scripts, links[i := l], n) ==
            ClientWork(scripts, links, n) +
            if i < n then LinkWork(scripts[i], l) - LinkWork(scripts[i], links[i]) else 0
  {
    if n == 0 {
    } else {
      WorkOfUpdate(scripts, links, n - 1, i, l);
    }
  }

  lemma {:induction false} ClientWorkBounded(scripts: Scripts, links: seq<Link>, n: nat)
    requires n <= |scripts| == |links|
    requires forall i | 0 <= i < |scripts| :: links[i].sent <= |scripts[i]| + 1
    ensures ClientWork(scripts, links, n) >= 0
  {
    if n == 0 {
    } else {
      ClientWorkBounded(scripts, links, n - 1);
    }
  }

  lemma NextRoundIsLess(rounds: int, width: int)
    ensures (rounds - 1) * width == rounds * width - width
  {
  }

  lemma WorkBounded(scripts: Scripts, s: State)
    requires Inv(scripts, s)
    ensures Work(scripts, s) >= 0
  {
    forall i | 0 <= i < |scripts|
      ensures s.links[i].sent <= |scripts[i]| + 1
    {
      assert LinkOk(scripts[i], s.links[i], ReceivedOf(s, i), HandledOf(s, i));
    }
    ClientWorkBounded(scripts, s.links, |scripts|);
    assert LinkOk(scripts[0], s.links[0], ReceivedOf(s, 0), HandledOf(s, 0));
    assert s.round <= Longest(scripts) + 1;
    RoundsAreWide(Longest(scripts) + 2 - s.round, 2 * |scripts| + 1);
  }

  lemma RoundsAreWide(rounds: int, width: int)
    requires rounds >= 1 && width >= 0
    ensures rounds * width >= width
  {
  }

  /** Every step brings the end nearer. */
  lemma StepWorks(scripts: Scripts, capacity: nat, s: State, step: Step)
    requires Inv(scripts, s) && Enabled(scripts, capacity, s, step)
    ensures Work(scripts, Do(scripts, capacity, s, step)) < Work(scripts, s)
  {
    match step
    case Send(i) => ClientWorks(scripts, s, i, Sent(scripts[i], s.links[i]));
    case TakeReply(i) => ClientWorks(scripts, s, i, Replied(s.links[i]));
    case Serve => ServeWorks(scripts, capacity, s);
  }

  lemma ClientWorks(scripts: Scripts, s: State, i: nat, l: Link)
    requires |s.links| == |scripts| && i < |scripts|
    requires LinkWork(scripts[i], l) < LinkWork(scripts[i], s.links[i])
    ensures Work(scripts, s.(links := s.links[i := l])) < Work(scripts, s)
  {
    WorkOfUpdate(scripts, s.links, |scripts|, i, l);
  }

  lemma ReceiveWorks(scripts: Scripts, s: State, s': State)
    requires |s.links| == |scripts| && s.phase.Receive? && s.phase.rank < |scripts|
    requires var i := s.phase.rank;
             s' == s.(links := s.links[i := s.links[i].(received := s.links[i].received + 1)],
             phase := if i + 1 < |scripts| then Receive(i + 1) else Handle(0))
    ensures Work(scripts, s') == Work(scripts, s) - 1
  {
    var i := s.phase.rank;
    WorkOfUpdate(scripts, s.links, |scripts|, i, s.links[i].(received := s.links[i].received + 1));
  }

  lemma HandleWorks(scripts: Scripts, s: State, s': State)
    requires |s.links| == |scripts| && s.phase.Handle? && s.phase.rank < |scripts|
    requires s.links[s.phase.rank].received > 0
    requires var i := s.phase.rank;
             && s'.links == s.links[i := Served(scripts[i], s.links[i])]
             && s'.phase == (if i + 1 < |scripts| then Handle(i + 1) else Top)
             && s'.round == if i + 1 < |scripts| then s.round else s.round + 1
    ensures Work(scripts, s') == Work(scripts, s) - 1
  {
    var i := s.phase.rank;
    WorkOfUpdate(scripts, s.links, |scripts|, i, Served(scripts[i], s.links[i]));
    NextRoundIsLess(Longest(scripts) + 2 - s.round, 2 * |scripts| + 1);
  }

  lemma ServeWorks(scripts: Scripts, capacity: nat, s: State)
    requires Inv(scripts, s) && Enabled(scripts, capacity, s, Serve)
    ensures Work(scripts, Do(scripts, capacity, s, Serve)) < Work(scripts, s)
  {
    match s.phase
    case Receive(_) => ReceiveWorks(scripts, s, Do(scripts, capacity, s, Serve));
    case Handle(_) => HandleWorks(scripts, s, Do(scripts, capacity, s, Serve));
    case _ =>
  }

  lemma NextWorks(scripts: Scripts, capacity: nat, s: State, s': State)
    requires Inv(scripts, s) && Next(scripts, capacity, s, s')
    ensures |s'.links| == |scripts| && Work(scripts, s') < Work(scripts, s)
  {
    var step :| Enabled(scripts, capacity, s, step) && s' == Do(scripts, capacity, s, step);
    StepWorks(scripts, capacity, s, step);
  }

  /** The work left in the `i`-th state, whatever that is. */
  lemma RunStepWorks(scripts: Scripts, capacity: nat, run: seq<State>, i: nat) returns (before: int, after: int)
    requires IsRun(scripts, capacity, run) && i + 1 < |run|
    ensures |run[i].links| == |run[i + 1].links| == |scripts|
    ensures before == Work(scripts, run[i]) && after == Work(scripts, run[i + 1]) && 0 <= after < before
  {
    RunInv(scripts, capacity, run, i);
    RunInv(scripts, capacity, run, i + 1);
    assert StepAt(scripts, capacity, run, i);
    NextWorks(scripts, capacity, run[i], run[i + 1]);
    WorkBounded(scripts, run[i + 1]);
    before, after := Work(scripts, run[i]), Work(scripts, run[i + 1]);
  }

  /** No run is longer than the work there was at its start, whatever the interleaving. */
  lemma {:induction false} RunsEnd(scripts: Scripts, capacity: nat, run: seq<State>, i: nat)
    requires IsRun(scripts, capacity, run) && i < |run|
    ensures |run[0].links| == |run[i].links| == |scripts|
    ensures i <= Work(scripts, run[0]) - Work(scripts, run[i]) <= Work(scripts, run[0])
    decreases i
  {
    if i > 0 {
      RunsEnd(scripts, capacity, run, i - 1);
      var before, after := RunStepWorks(scripts, capacity, run, i - 1);
    } else {
      RunInv(scripts, capacity, run, 0);
      WorkBounded(scripts, run[0]);
    }
  }
}
