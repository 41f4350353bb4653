/** Collective I/O: one server, the aggregator, and its clients, which it serves in
    lock-step rounds. A round receives one message from every client, in rank order, and
    then handles them in rank order. A step of the machine is one send, receive or handling. */
module Collective {
  import opened Bytes

  datatype Op =
    | Get | Put | Del
    | MetaGet | MetaPut | MetaGetAll
    | ReadBarrier | WriteBarrier
    | Other(name: Str)

  datatype Cmd = Cmd(op: Op, key: Str, value: Str)

  /** The commands that the server answers and on whose answer the client waits. */
  predicate Answered(op: Op) {
    op.Get? || op.MetaGet? || op.MetaGetAll? || op.ReadBarrier? || op.WriteBarrier?
  }

  /** What each client sends before the end-of-life message that closes it. */
  type Scripts = seq<seq<Cmd>>

  /** One client and its two channels. Messages do not overtake one another, so numbers
      tell what is under way: the client's message `k` is command `k` of its script, or the
      end of life when there is none. `replies` lists the answers under way, by command. */
  datatype Link = Link(sent: nat, received: nat, awaiting: bool, replies: seq<nat>, eol: bool)

  /** At the test for the end; waiting for a rank's message of this round; about to handle
      a rank's message of this round; out of the loop. */
  datatype Phase = Top | Receive(rank: nat) | Handle(rank: nat) | Done

  datatype Handled = Handled(rank: nat, command: nat)

  datatype State = State(links: seq<Link>, phase: Phase, round: nat, handled: seq<Handled>)

  /** One step of a client, or of the server. */
  datatype Step = Send(rank: nat) | TakeReply(rank: nat) | Serve

  predicate AllEol(links: seq<Link>) {
    forall i | 0 <= i < |links| :: links[i].eol
  }

  /** `capacity` is how many messages of a client may be under way: 1 when a send returns
      only once it is received, more when sends are buffered. */
  predicate Enabled(scripts: Scripts, capacity: nat, s: State, step: Step)
    requires |s.links| == |scripts|
  {
    match step
    case Send(i) =>
      && i < |scripts| && !s.links[i].awaiting
      && s.links[i].sent <= |scripts[i]| && s.links[i].sent < s.links[i].received + capacity
    case TakeReply(i) => i < |scripts| && s.links[i].awaiting && s.links[i].replies != []
    case Serve =>
      match s.phase
      case Top => true
      case Receive(i) => i < |scripts| && s.links[i].sent > s.links[i].received
      case Handle(i) => i < |scripts| && s.links[i].received > 0
      case Done => false
  }

  function Sent(script: seq<Cmd>, l: Link): Link {
    l.(sent := l.sent + 1, awaiting := l.sent < |script| && Answered(script[l.sent].op))
  }

  function Replied(l: Link): Link
    requires l.replies != []
  {
    l.(awaiting := false, replies := l.replies[1..])
  }

  /** Handling the last message received: the end of life, or a command, which may be
      answered. */
  function Served(script: seq<Cmd>, l: Link): Link
    requires l.received > 0
  {
    var k := l.received - 1;
    if k >= |script| then l.(eol := true)
    else if Answered(script[k].op) then l.(replies := l.replies + [k])
    else l
  }

  function Do(scripts: Scripts, capacity: nat, s: State, step: Step): State
    requires |s.links| == |scripts| && Enabled(scripts, capacity, s, step)
  {
    match step
    case Send(i) => s.(links := s.links[i := Sent(scripts[i], s.links[i])])
    case TakeReply(i) => s.(links := s.links[i := Replied(s.links[i])])
    case Serve =>
      match s.phase
      case Top => s.(phase := if AllEol(s.links) then Done else Receive(0))
      case Receive(i) =>
        s.(links := s.links[i := s.links[i].(received := s.links[i].received + 1)],
        phase := if i + 1 < |scripts| then Receive(i + 1) else Handle(0))
      case Handle(i) =>
        var k := s.links[i].received - 1;
        s.(links := s.links[i := Served(scripts[i], s.links[i])],
        handled := if k < |scripts[i]| then s.handled + [Handled(i, k)] else s.handled,
        phase := if i + 1 < |scripts| then Handle(i + 1) else Top,
        round := if i + 1 < |scripts| then s.round else s.round + 1)
  }

  predicate Init(scripts: Scripts, s: State) {
    && |s.links| == |scripts| > 0
    && (forall i | 0 <= i < |s.links| :: s.links[i] == Link(0, 0, false, [], false))
    && s.phase == Top && s.round == 0 && s.handled == []
  }

  // ---- The order in which the server handles commands ----

  /** What one rank has handled in round `r`: nothing once its script is over. */
  function Turn(script: seq<Cmd>, rank: nat, r: nat): seq<Handled> {
    if r < |script| then [Handled(rank, r)] else []
  }

  /** Round `r`, up to but not including rank `n`. */
  function Turns(scripts: Scripts, r: nat, n: nat): seq<Handled>
    requires n <= |scripts|
  {
    if n == 0 then [] else Turns(scripts, r, n - 1) + Turn(scripts[n - 1], n - 1, r)
  }

  /** The first `r` rounds. */
  function Rounds(scripts: Scripts, r: nat): seq<Handled> {
    if r == 0 then [] else Rounds(scripts, r - 1) + Turns(scripts, r - 1, |scripts|)
  }

  /** The commands of one rank among the first `n` handled, in the order of handling. */
  function OfRank(handled: seq<Handled>, n: nat, rank: nat): seq<nat>
    requires n <= |handled|
  {
    if n == 0 then []
    else OfRank(handled, n - 1, rank) + (if handled[n - 1].rank == rank then [handled[n - 1].command] else [])
  }

  function UpTo(n: nat): (s: seq<nat>)
    ensures |s| == n && forall i | 0 <= i < n :: s[i] == i
  {
    if n == 0 then [] else UpTo(n - 1) + [n - 1]
  }

  lemma {:induction false} OfRankPrefix(a: seq<Handled>, b: seq<Handled>, n: nat, rank: nat)
    requires n <= |a|
    ensures OfRank(a + b, n, rank) == OfRank(a, n, rank)
  {
    if n == 0 {
    } else {
      OfRankPrefix(a, b, n - 1, rank);
    }
  }

  lemma {:induction false} OfRankConcat(a: seq<Handled>, b: seq<Handled>, n: nat, rank: nat)
    requires n <= |b|
    ensures OfRank(a + b, |a| + n, rank) == OfRank(a, |a|, rank) + OfRank(b, n, rank)
  {
    if n == 0 {
      OfRankPrefix(a, b, |a|, rank);
    } else {
      OfRankConcat(a, b, n - 1, rank);
    }
  }

  lemma OfRankTurn(script: seq<Cmd>, i: nat, r: nat, rank: nat)
    ensures var turn := Turn(script, i, r);
            OfRank(turn, |turn|, rank) == if i == rank && r < |script| then [r] else []
  {
    if r < |script| {
      assert OfRank([Handled(i, r)], 0, rank) == [];
    }
  }

  lemma OfRankMore(before: seq<Handled>, script: seq<Cmd>, i: nat, r: nat, rank: nat)
    ensures var after := before + Turn(script, i, r);
            OfRank(after, |after|, rank) ==
            OfRank(before, |before|, rank) + if i == rank && r < |script| then [r] else []
  {
    var turn := Turn(script, i, r);
    OfRankConcat(before, turn, |turn|, rank);
    OfRankTurn(script, i, r, rank);
  }

  /** A rank's share of (a part of) a round: its command of that round, or nothing. */
  ghost predicate RoundShare(turns: seq<Handled>, r: nat, rank: nat, present: bool) {
    OfRank(turns, |turns|, rank) == if present then [r] else []
  }

  lemma NextShare(before: seq<Handled>, script: seq<Cmd>, i: nat, r: nat, rank: nat, had: bool,
                  after: seq<Handled>, present: bool)
    requires RoundShare(before, r, rank, had) && (i == rank ==> !had)
    requires after == before + Turn(script, i, r) && present == (had || (i == rank && r < |script|))
    ensures RoundShare(after, r, rank, present)
  {
    OfRankMore(before, script, i, r, rank);
  }

  lemma {:induction false} OfRankInRound(scripts: Scripts, r: nat, n: nat, rank: nat,
                                         turns: seq<Handled>, present: bool)
    requires n <= |scripts| && rank < |scripts|
    requires turns == Turns(scripts, r, n) && present == (rank < n && r < |scripts[rank]|)
    ensures RoundShare(turns, r, rank, present)
  {
    if n == 0 {
    } else {
      var before, had := Turns(scripts, r, n - 1), rank < n - 1 && r < |scripts[rank]|;
      OfRankInRound(scripts, r, n - 1, rank, before, had);
      NextShare(before, scripts[n - 1], n - 1, r, rank, had, turns, present);
    }
  }

  lemma OfRankRound(before: seq<Handled>, round: seq<Handled>, r: nat, rank: nat, present: bool)
    requires RoundShare(round, r, rank, present)
    ensures OfRank(before + round, |before + round|, rank) ==
            OfRank(before, |before|, rank) + if present then [r] else []
  {
    OfRankConcat(before, round, |round|, rank);
  }

  lemma UpToNext(r: nat, n: nat)
    requires r > 0
    ensures UpTo(if r <= n then r else n) ==
            UpTo(if r - 1 <= n then r - 1 else n) + if r - 1 < n then [r - 1] else []
  {
    if r > n {
      assert UpTo(n) + [] == UpTo(n);
    }
  }

  /** Of `r` rounds, a rank's share is its first commands, once each and in order. */
  ghost predicate InOrder(scripts: Scripts, handled: seq<Handled>, r: nat, rank: nat)
    requires rank < |scripts|
  {
    OfRank(handled, |handled|, rank) == UpTo(if r <= |scripts[rank]| then r else |scripts[rank]|)
  }

  lemma NextRoundInOrder(scripts: Scripts, before: seq<Handled>, r: nat, rank: nat)
    requires rank < |scripts| && InOrder(scripts, before, r, rank)
    ensures InOrder(scripts, before + Turns(scripts, r, |scripts|), r + 1, rank)
  {
    var round, present := Turns(scripts, r, |scripts|), r < |scripts[rank]|;
    OfRankInRound(scripts, r, |scripts|, rank, round, present);
    OfRankRound(before, round, r, rank, present);
    UpToNext(r + 1, |scripts[rank]|);
  }

  /** Round robin handles each rank's commands once each, in the order of its script. */
  lemma {:induction false} RoundsServeInOrder(scripts: Scripts, r: nat, rank: nat)
    requires rank < |scripts|
    ensures InOrder(scripts, Rounds(scripts, r), r, rank)
  {
    if r == 0 {
    } else {
      RoundsServeInOrder(scripts, r - 1, rank);
      NextRoundInOrder(scripts, Rounds(scripts, r - 1), r - 1, rank);
    }
  }

  // ---- Answers ----

  predicate InScripts(scripts: Scripts, h: Handled) {
    h.rank < |scripts| && h.command < |scripts[h.rank]|
  }

  predicate AllInScripts(scripts: Scripts, handled: seq<Handled>) {
    forall i | 0 <= i < |handled| :: InScripts(scripts, handled[i])
  }

  lemma {:induction false} TurnsInScripts(scripts: Scripts, r: nat, n: nat)
    requires n <= |scripts|
    ensures AllInScripts(scripts, Turns(scripts, r, n))
  {
    if n == 0 {
    } else {
      TurnsInScripts(scripts, r, n - 1);
    }
  }

  lemma {:induction false} RoundsInScripts(scripts: Scripts, r: nat)
    ensures AllInScripts(scripts, Rounds(scripts, r))
  {
    if r == 0 {
    } else {
      RoundsInScripts(scripts, r - 1);
      TurnsInScripts(scripts, r - 1, |scripts|);
    }
  }

  /** The handled commands that are answered, in the order of handling. */
  function AnswersOf(scripts: Scripts, handled: seq<Handled>, n: nat): seq<Handled>
    requires n <= |handled| && AllInScripts(scripts, handled)
  {
    if n == 0 then []
    else
      var h := handled[n - 1];
      assert InScripts(scripts, h);
      AnswersOf(scripts, handled, n - 1) + if Answered(scripts[h.rank][h.command].op) then [h] else []
  }

  lemma {:induction false} AnswersOfPrefix(scripts: Scripts, a: seq<Handled>, b: seq<Handled>, n: nat)
    requires n <= |a| && AllInScripts(scripts, a) && AllInScripts(scripts, a + b)
    ensures AnswersOf(scripts, a + b, n) == AnswersOf(scripts, a, n)
  {
    if n == 0 {
    } else {
      AnswersOfPrefix(scripts, a, b, n - 1);
    }
  }

  /** The answers to everything that was handled. */
  ghost predicate AllAnswered(scripts: Scripts, handled: seq<Handled>, answers: seq<Handled>) {
    AllInScripts(scripts, handled) && answers == AnswersOf(scripts, handled, |handled|)
  }

  lemma AnswerNext(scripts: Scripts, handled: seq<Handled>, answers: seq<Handled>, rank: nat, r: nat)
    requires AllAnswered(scripts, handled, answers) && rank < |scripts| && r < |scripts[rank]|
    ensures AllAnswered(scripts, handled + [Handled(rank, r)],
                        answers + if Answered(scripts[rank][r].op) then [Handled(rank, r)] else [])
  {
    var h := Handled(rank, r);
    var more := handled + [h];
    forall i | 0 <= i < |more|
      ensures InScripts(scripts, more[i])
    {
      assert i < |handled| ==> InScripts(scripts, handled[i]);
    }
    AnswersOfPrefix(scripts, handled, [h], |handled|);
  }

  // ---- Which commands are handled and answered, and when ----

  /** Earlier in the order of handling: in an earlier round, or in the same round and of a
      lower rank. A client's command `k` belongs to round `k`. */
  predicate Earlier(a: Handled, b: Handled) {
    a.command < b.command || (a.command == b.command && a.rank < b.rank)
  }

  predicate InTurn(handled: seq<Handled>) {
    forall i, j | 0 <= i < j < |handled| :: Earlier(handled[i], handled[j])
  }

  lemma InTurnMore(handled: seq<Handled>, h: Handled)
    requires InTurn(handled) && forall g | g in handled :: Earlier(g, h)
    ensures InTurn(handled + [h])
  {
  }

  lemma InTurnConcat(a: seq<Handled>, b: seq<Handled>)
    requires InTurn(a) && InTurn(b) && forall g, h | g in a && h in b :: Earlier(g, h)
    ensures InTurn(a + b)
  {
  }

  lemma {:induction false} TurnsExactly(scripts: Scripts, r: nat, n: nat)
    requires n <= |scripts|
    ensures forall h :: h in Turns(scripts, r, n) <==> h.rank < n && h.command == r < |scripts[h.rank]|
    ensures InTurn(Turns(scripts, r, n))
  {
    if n == 0 {
    } else {
      TurnsExactly(scripts, r, n - 1);
      if r < |scripts[n - 1]| {
        InTurnMore(Turns(scripts, r, n - 1), Handled(n - 1, r));
      }
    }
  }

  /** The first `r` rounds handle the first `r` commands of every client, round by round and
      within a round in rank order. */
  lemma {:induction false} RoundsExactly(scripts: Scripts, r: nat)
    ensures forall h ::
              h in Rounds(scripts, r) <==>
                   h.rank < |scripts| && h.command < |scripts[h.rank]| && h.command < r
    ensures InTurn(Rounds(scripts, r))
  {
    if r == 0 {
    } else {
      RoundsExactly(scripts, r - 1);
      TurnsExactly(scripts, r - 1, |scripts|);
      InTurnConcat(Rounds(scripts, r - 1), Turns(scripts, r - 1, |scripts|));
    }
  }

  /** Which operations are answered: those that read, and the barriers. */
  lemma AnsweredExactly(op: Op)
    ensures Answered(op) <==> op in {Get, MetaGet, MetaGetAll, ReadBarrier, WriteBarrier}
  {
  }

  lemma {:induction false} AnswersExactly(scripts: Scripts, handled: seq<Handled>, n: nat)
    requires n <= |handled| && AllInScripts(scripts, handled)
    ensures forall h ::
              h in AnswersOf(scripts, handled, n) <==>
                   && h in handled[..n] && InScripts(scripts, h)
                   && scripts[h.rank][h.command].op in {Get, MetaGet, MetaGetAll, ReadBarrier, WriteBarrier}
    ensures InTurn(handled) ==> InTurn(AnswersOf(scripts, handled, n))
  {
    if n == 0 {
    } else {
      AnswersExactly(scripts, handled, n - 1);
      var h := handled[n - 1];
      assert handled[..n] == handled[..n - 1] + [h] && InScripts(scripts, h);
      AnsweredExactly(scripts[h.rank][h.command].op);
      if InTurn(handled) {
        assert forall g | g in AnswersOf(scripts, handled, n - 1) :: Earlier(g, h);
        InTurnMore(AnswersOf(scripts, handled, n - 1), h);
      }
    }
  }
}
