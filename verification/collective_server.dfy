/** The server loop as the aggregator's helper thread runs it, over what its clients send. */
module CollectiveServer {
  import opened Bytes
  import opened Collective
  import opened CollectiveRuns

  /** Whether the rank sends another message after `r` of them. */
  predicate HasMessage(scripts: Scripts, rank: nat, r: nat) {
    rank < |scripts| && r <= |scripts[rank]|
  }

  ghost predicate EolAfter(scripts: Scripts, eolRanks: array<bool>, round: nat, n: nat)
    reads eolRanks
  {
    && eolRanks.Length == |scripts| && n <= |scripts|
    && (forall i | 0 <= i < n :: eolRanks[i] <==> round + 1 > |scripts[i]|)
    && (forall i | n <= i < |scripts| :: eolRanks[i] <==> round > |scripts[i]|)
  }

  /** No rank has sent its end of life more than one round ago. */
  ghost predicate NoneOverdue(scripts: Scripts, round: nat) {
    forall i | 0 <= i < |scripts| :: round <= |scripts[i]| + 1
  }

  /** The client has a command of this number, and it reads or is a barrier. */
  predicate WantsAnswer(scripts: Scripts, h: Handled) {
    && h.rank < |scripts| && h.command < |scripts[h.rank]|
    && scripts[h.rank][h.command].op in {Get, MetaGet, MetaGetAll, ReadBarrier, WriteBarrier}
  }

  /** The commands of every client with numbers below `n`, and no others, are handled round by
      round and in rank order; those that read and the barriers are answered in that order. */
  ghost predicate Serves(scripts: Scripts, n: nat, handled: seq<Handled>, answers: seq<Handled>) {
    && InTurn(handled) && InTurn(answers)
    && (forall h :: h in handled <==> h.rank < |scripts| && h.command < |scripts[h.rank]| && h.command < n)
    && (forall h :: h in answers <==> h in handled && WantsAnswer(scripts, h))
  }

  lemma RoundsServe(scripts: Scripts, n: nat, handled: seq<Handled>, answers: seq<Handled>)
    requires handled == Rounds(scripts, n) && AllAnswered(scripts, handled, answers)
    ensures Serves(scripts, n, handled, answers)
  {
    RoundsExactly(scripts, n);
    AnswersExactly(scripts, handled, |handled|);
    assert handled[..|handled|] == handled;
  }

  /** One round for every command and one for the end of life have been handled. */
  ghost predicate FinishedWith(scripts: Scripts, handled: seq<Handled>, answers: seq<Handled>) {
    var n := if scripts == [] then 0 else |scripts[0]| + 1;
    handled == Rounds(scripts, n) && Serves(scripts, n, handled, answers)
  }

  /** The loop waits for the first rank with the fewest commands, after the same rounds. */
  ghost predicate BlockedWith(scripts: Scripts, rank: nat, handled: seq<Handled>, answers: seq<Handled>) {
    && FirstFewest(scripts, rank) && handled == Rounds(scripts, |scripts[rank]| + 1)
    && Serves(scripts, |scripts[rank]| + 1, handled, answers)
  }

  /** What holds at the top of the loop, after this many rounds. */
  ghost predicate AfterRounds(scripts: Scripts, eolRanks: array<bool>, round: nat, handled: seq<Handled>,
                              answers: seq<Handled>)
    reads eolRanks
  {
    && EolAfter(scripts, eolRanks, round, 0) && NoneOverdue(scripts, round)
    && handled == Rounds(scripts, round) && AllAnswered(scripts, handled, answers)
  }

  /** Every rank's end of life has been seen. */
  ghost predicate AllEnded(eolRanks: array<bool>)
    reads eolRanks
  {
    forall i | 0 <= i < eolRanks.Length :: eolRanks[i]
  }

  lemma NothingServed(scripts: Scripts, eolRanks: array<bool>)
    requires eolRanks.Length == |scripts| && forall i | 0 <= i < eolRanks.Length :: !eolRanks[i]
    ensures AfterRounds(scripts, eolRanks, 0, [], [])
  {
  }

  lemma AllRanksEnded(scripts: Scripts, eolRanks: array<bool>, round: nat, handled: seq<Handled>,
                      answers: seq<Handled>)
    requires AfterRounds(scripts, eolRanks, round, handled, answers)
    requires AllEnded(eolRanks)
    ensures SameLength(scripts) && FinishedWith(scripts, handled, answers)
  {
    forall i | 0 <= i < |scripts|
      ensures |scripts[i]| + 1 == round
    {
      assert eolRanks[i];
    }
    if scripts == [] {
      NoClients(scripts, round);
    }
    RoundsServe(scripts, if scripts == [] then 0 else |scripts[0]| + 1, handled, answers);
  }

  lemma {:induction false} NoClients(scripts: Scripts, round: nat)
    requires scripts == []
    ensures Rounds(scripts, round) == []
  {
    if round == 0 {
    } else {
      NoClients(scripts, round - 1);
    }
  }

  lemma SomeRankLeft(scripts: Scripts, eolRanks: array<bool>, round: nat, handled: seq<Handled>, answers: seq<Handled>)
    requires AfterRounds(scripts, eolRanks, round, handled, answers) && !AllEnded(eolRanks)
    ensures exists i :: 0 <= i < |scripts| && round <= |scripts[i]|
    ensures round <= Longest(scripts)
  {
    var i :| 0 <= i < eolRanks.Length && !eolRanks[i];
    assert round <= |scripts[i]|;
  }

  lemma EveryRankHeard(scripts: Scripts, round: nat, received: nat)
    requires received == |scripts| && forall i | 0 <= i < received :: HasMessage(scripts, i, round)
    ensures NoneOverdue(scripts, round + 1)
  {
    forall i | 0 <= i < |scripts|
      ensures round + 1 <= |scripts[i]| + 1
    {
      assert HasMessage(scripts, i, round);
    }
  }

  lemma BlockedOnFewest(scripts: Scripts, eolRanks: array<bool>, round: nat, blocked: nat, handled: seq<Handled>,
                        answers: seq<Handled>)
    requires AfterRounds(scripts, eolRanks, round, handled, answers)
    requires blocked < |scripts| && !HasMessage(scripts, blocked, round)
    requires forall i | 0 <= i < blocked :: HasMessage(scripts, i, round)
    requires exists i :: 0 <= i < |scripts| && round <= |scripts[i]|
    ensures BlockedWith(scripts, blocked, handled, answers) && !SameLength(scripts)
  {
    forall j | 0 <= j < blocked
      ensures |scripts[blocked]| < |scripts[j]|
    {
      assert HasMessage(scripts, j, round);
    }
    var i :| 0 <= i < |scripts| && round <= |scripts[i]|;
    assert |scripts[i]| != |scripts[blocked]|;
    RoundsServe(scripts, round, handled, answers);
  }

  /** `_waitForCommand`: rounds until every rank's end of life has been seen. A rank that
      sends nothing more blocks `_recvToBuffer` for good. `handled` are the commands passed to
      the callback, and `answers` those that were answered, in order. */
  method WaitForCommand(scripts: Scripts)
    returns (finished: bool, waitingFor: nat, handled: seq<Handled>, answers: seq<Handled>)
    ensures finished <==> SameLength(scripts)
    ensures if finished then FinishedWith(scripts, handled, answers)
            else BlockedWith(scripts, waitingFor, handled, answers)
  {
    var eolRanks := new bool[|scripts|](_ => false);
    var round := 0;
    handled, answers := [], [];
    NothingServed(scripts, eolRanks);
    while true
      invariant AfterRounds(scripts, eolRanks, round, handled, answers)
      decreases Longest(scripts) + 2 - round
    {
      var allClientsShutDown := AllShutDown(eolRanks);
      if allClientsShutDown {
        AllRanksEnded(scripts, eolRanks, round, handled, answers);
        return true, 0, handled, answers;
      }
      SomeRankLeft(scripts, eolRanks, round, handled, answers);
      var received;
      received, handled, answers := ServeRound(scripts, round, eolRanks, handled, answers);
      if received < |scripts| {
        return false, received, handled, answers;
      }
      round := round + 1;
    }
  }

  /** One round: a message from every rank, and then the handling of all of them. */
  method ServeRound(scripts: Scripts, round: nat, eolRanks: array<bool>,
                    handledBefore: seq<Handled>, answersBefore: seq<Handled>)
    returns (received: nat, handled: seq<Handled>, answers: seq<Handled>)
    requires AfterRounds(scripts, eolRanks, round, handledBefore, answersBefore)
    requires exists i :: 0 <= i < |scripts| && round <= |scripts[i]|
    modifies eolRanks
    ensures if received < |scripts| then BlockedWith(scripts, received, handled, answers) && !SameLength(scripts)
            else AfterRounds(scripts, eolRanks, round + 1, handled, answers)
  {
    handled, answers := handledBefore, answersBefore;
    received := ReceiveRound(scripts, round);
    if received < |scripts| {
      BlockedOnFewest(scripts, eolRanks, round, received, handled, answers);
    } else {
      EveryRankHeard(scripts, round, received);
      handled, answers := HandleRound(scripts, round, eolRanks, handled, answers);
    }
  }

  /** The test at the top of the loop. */
  method AllShutDown(eolRanks: array<bool>) returns (all: bool)
    ensures all <==> AllEnded(eolRanks)
  {
    for i := 0 to eolRanks.Length
      invariant forall j | 0 <= j < i :: eolRanks[j]
    {
      if !eolRanks[i] {
        return false;
      }
    }
    return true;
  }

  /** `_recvToBuffer`: one message from every rank, in rank order; the result is the rank
      that it is blocked on, or the number of ranks. */
  method ReceiveRound(scripts: Scripts, round: nat) returns (blocked: nat)
    ensures blocked <= |scripts|
    ensures forall i | 0 <= i < blocked :: HasMessage(scripts, i, round)
    ensures blocked < |scripts| ==> !HasMessage(scripts, blocked, round)
  {
    blocked := 0;
    while blocked < |scripts| && round <= |scripts[blocked]|
      invariant blocked <= |scripts|
      invariant forall i | 0 <= i < blocked :: HasMessage(scripts, i, round)
    {
      blocked := blocked + 1;
    }
  }

  /** Handling the messages of a round in rank order: an end of life is marked; any other
      command goes to the callback and is answered when its client waits for that. */
  method HandleRound(scripts: Scripts, round: nat, eolRanks: array<bool>,
                     handledBefore: seq<Handled>, answersBefore: seq<Handled>)
    returns (handled: seq<Handled>, answers: seq<Handled>)
    requires EolAfter(scripts, eolRanks, round, 0) && handledBefore == Rounds(scripts, round)
    requires AllAnswered(scripts, handledBefore, answersBefore)
    requires forall i | 0 <= i < |scripts| :: HasMessage(scripts, i, round)
    modifies eolRanks
    ensures EolAfter(scripts, eolRanks, round + 1, 0) && handled == Rounds(scripts, round + 1)
    ensures AllAnswered(scripts, handled, answers)
  {
    handled, answers := handledBefore, answersBefore;
    assert handled == Rounds(scripts, round) + Turns(scripts, round, 0);
    for i := 0 to |scripts|
      invariant EolAfter(scripts, eolRanks, round, i)
      invariant handled == Rounds(scripts, round) + Turns(scripts, round, i)
      invariant AllAnswered(scripts, handled, answers)
    {
      NextTurn(scripts, handled, round, i);
      handled, answers := HandleOne(scripts, round, i, eolRanks, handled, answers);
    }
    NoMoreTurns(scripts, round);
  }

  lemma NoMoreTurns(scripts: Scripts, round: nat)
    ensures Rounds(scripts, round + 1) == Rounds(scripts, round) + Turns(scripts, round, |scripts|)
  {
  }

  /** Handling the message of one rank. */
  method HandleOne(scripts: Scripts, round: nat, i: nat, eolRanks: array<bool>,
                   handledBefore: seq<Handled>, answersBefore: seq<Handled>)
    returns (handled: seq<Handled>, answers: seq<Handled>)
    requires EolAfter(scripts, eolRanks, round, i) && HasMessage(scripts, i, round)
    requires AllAnswered(scripts, handledBefore, answersBefore)
    modifies eolRanks
    ensures EolAfter(scripts, eolRanks, round, i + 1) && handled == handledBefore + Turn(scripts[i], i, round)
    ensures AllAnswered(scripts, handled, answers)
  {
    handled, answers := handledBefore, answersBefore;
    if round == |scripts[i]| {
      eolRanks[i] := true;
      assert handled == handledBefore + [];
    } else {
      AnswerNext(scripts, handled, answers, i, round);
      handled := handled + [Handled(i, round)];
      if Answered(scripts[i][round].op) {
        answers := answers + [Handled(i, round)];
      } else {
        assert answers == answers + [];
      }
    }
  }
}
