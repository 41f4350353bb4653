/** The aggregator's callback in the runs of the store: which step of the object each call is,
    when it waits, and what its answers mean for the client. */
module CallbackRuns {
  import opened Wrappers
  import opened Bytes
  import opened Log
  import opened MemtableLog
  import opened SSTable
  import opened Machine
  import opened Reads
  import opened Directory
  import opened MemoryTables
  import opened StoreViews
  import opened ObjectRuns
  import opened ObjectResults
  import opened Collective
  import opened Codecs
  import opened RankIsolation
  import opened Managers

  // ---- Which step a call is ----

  lemma RunGoesOn(c: Config, o: Origin, ws: seq<World>, w: World, a: Action, n: nat)
    requires IsObjectRun(c, o, ws) && w == ws[|ws| - 1] && Allowed(c, w, a)
    ensures IsObjectRun(c, o, ws + [Run(c, w, a, n)])
  {
    PathAfter(c, ws, Run(c, w, a, n));
  }

  /** What a put, a deletion or a metadata put of a rank writes to the store. */
  predicate IsWrittenBy(rank: nat, cmd: Cmd, e: Entry) {
    var ranked := Decimal(rank) + "::" + cmd.key;
    match cmd.op
    case Put => e == Entry(ranked, cmd.value)
    case Del => e == Entry(ranked, "__LSM_TOMBSTONE_v1__")
    case MetaPut => e == Entry("__lsmio_md::" + ranked, cmd.value)
    case _ => false
  }

  /** In every state of every run of the object, the callback of a write is the object's write
      of the ranked entry. It waits exactly when the queue is at its limit and the entry does
      not fit into a non-empty active table; otherwise the entry joins the history. */
  lemma WriteCallbackIsStep(c: Config, o: Origin, ws: seq<World>, w: World, rank: nat, cmd: Cmd, e: Entry, id: nat,
                            n: nat)
    requires IsObjectRun(c, o, ws) && w == ws[|ws| - 1] && w.stage == Open && id !in w.writers
    requires IsWrittenBy(rank, cmd, e) && Fits(e)
    ensures Allowed(c, w, Write(id, e))
    ensures var w' := Run(c, w, Write(id, e), n);
            && IsObjectRun(c, o, ws + [w']) && w'.view == AfterCallback(c, w.view, rank, cmd)
            && (CallbackWaits(c, w.view, rank, cmd) <==> id in w'.writers)
            && w'.history == if id in w'.writers then w.history else w.history + [e]
    ensures CallbackWaits(c, w.view, rank, cmd) <==>
            && |w.view.mem.queue| >= c.maxImmutable
            && Size(w.view.mem.active) > 0 && Size(w.view.mem.active) + |e.key| + |e.value| > c.maxBytes
  {
    WrittenEntry(rank, cmd, e);
    RunGoesOn(c, o, ws, w, Write(id, e), n);
  }

  lemma WrittenEntry(rank: nat, cmd: Cmd, e: Entry)
    ensures IsWrittenBy(rank, cmd, e) <==> StoreWrite(rank, cmd) == Some(e)
  {
    assert Decimal(rank) + "::" + cmd.key == RankedKey(rank, cmd.key);
  }

  /** After its wait the call goes on as the object's writer does. */
  lemma ResumedCallbackIsStep(c: Config, o: Origin, ws: seq<World>, w: World, rank: nat, cmd: Cmd, e: Entry, id: nat,
                              n: nat)
    requires IsObjectRun(c, o, ws) && w == ws[|ws| - 1] && id in w.writers && w.writers[id] == e
    requires IsWrittenBy(rank, cmd, e) && |w.view.mem.queue| < c.maxImmutable
    ensures Allowed(c, w, Resume(id)) && StoreWrite(rank, cmd) == Some(e)
    ensures var w' := Run(c, w, Resume(id), n);
            && IsObjectRun(c, o, ws + [w']) && id !in w'.writers && w'.history == w.history + [e]
            && w'.view == w.view.(mem := Append(Rotate(w.view.mem), StoreWrite(rank, cmd).value))
  {
    WrittenEntry(rank, cmd, e);
    RunGoesOn(c, o, ws, w, Resume(id), n);
  }

  lemma BarrierEffect(c: Config, w: World, rank: nat, cmd: Cmd, id: nat, n: nat)
    requires w.stage == Open && id !in w.barriers && cmd.op == WriteBarrier
    ensures Allowed(c, w, EnterBarrier(id))
    ensures var w' := Run(c, w, EnterBarrier(id), n);
            w'.view == AfterCallback(c, w.view, rank, cmd) && id in w'.barriers && w'.history == w.history
  {
  }

  /** The wait of the callback is over exactly when the barrier may leave. */
  lemma BarrierWaits(c: Config, w: World, w': World, rank: nat, cmd: Cmd, id: nat)
    requires cmd.op == WriteBarrier && id in w'.barriers && w'.view == AfterCallback(c, w.view, rank, cmd)
    ensures CallbackWaits(c, w.view, rank, cmd) <==> !Allowed(c, w', LeaveBarrier(id))
  {
  }

  /** The callback of a write barrier is the object's barrier: it waits exactly while the
      barrier may not leave. */
  lemma BarrierCallbackIsStep(c: Config, o: Origin, ws: seq<World>, w: World, rank: nat, cmd: Cmd, id: nat, n: nat)
    requires IsObjectRun(c, o, ws) && w == ws[|ws| - 1] && w.stage == Open && id !in w.barriers
    requires cmd.op == WriteBarrier
    ensures Allowed(c, w, EnterBarrier(id))
    ensures var w' := Run(c, w, EnterBarrier(id), n);
            && IsObjectRun(c, o, ws + [w']) && w'.view == AfterCallback(c, w.view, rank, cmd)
            && id in w'.barriers && w'.history == w.history
            && (CallbackWaits(c, w.view, rank, cmd) <==> !Allowed(c, w', LeaveBarrier(id)))
            && (CallbackWaits(c, w.view, rank, cmd) <==> w'.view.mem.queue != [] || w'.view.inProgress)
  {
    BarrierEffect(c, w, rank, cmd, id, n);
    BarrierWaits(c, w, Run(c, w, EnterBarrier(id), n), rank, cmd, id);
    RunGoesOn(c, o, ws, w, EnterBarrier(id), n);
  }

  /** Every other command leaves the store alone and waits for nothing. */
  lemma ReadCallbackChangesNothing(c: Config, v: StoreView, rank: nat, cmd: Cmd)
    requires cmd.op !in {Put, Del, MetaPut, WriteBarrier}
    ensures AfterCallback(c, v, rank, cmd) == v && !CallbackWaits(c, v, rank, cmd)
  {
  }

  // ---- What an answered barrier means ----

  /** The barrier called in one state is answered in another: at once, when the callback does not
      have to wait, or later, when its wait may end. */
  predicate BarrierAnswered(c: Config, called: World, answered: World, atOnce: bool, rank: nat, cmd: Cmd, id: nat) {
    && cmd.op == WriteBarrier && id !in called.barriers && id in answered.barriers
    && if atOnce then
         answered.view == AfterCallback(c, called.view, rank, cmd) && !CallbackWaits(c, called.view, rank, cmd)
       else
         answered.view.mem.queue == [] && !answered.view.inProgress
  }

  lemma AnsweredMayLeave(c: Config, called: World, answered: World, atOnce: bool, rank: nat, cmd: Cmd, id: nat)
    requires BarrierAnswered(c, called, answered, atOnce, rank, cmd, id)
    ensures Allowed(c, answered, LeaveBarrier(id))
  {
  }

  /** A client's write barrier is called in state `i` and answered in state `j`, at once or after
      a wait. Whatever the threads do, everything in the history at its call is in published
      tables by then: they read like an initial segment of the history that is no shorter. */
  lemma AnsweredBarrierIsOnDisk(c: Config, o: Origin, ws: seq<World>, i: nat, j: nat, rank: nat, cmd: Cmd, id: nat)
    requires IsObjectRun(c, o, ws) && i < j < |ws| && BarrierAnswered(c, ws[i], ws[j], j == i + 1, rank, cmd, id)
    requires forall k | i < k <= j :: id in ws[k].barriers
    ensures ws[i].history <= ws[j].history && OnDisk(ws[j], |ws[i].history|)
  {
    AnsweredMayLeave(c, ws[i], ws[j], j == i + 1, rank, cmd, id);
    BarrierReachesDisk(c, o, ws, i, j, id);
  }

  // ---- What a client is told ----

  /** On values: while the server serves a rank's `get` or `metaGet`, with the flush thread and
      the aggregator at work between the phases of the read, the client is told the value that
      it last wrote under the key. It is told nothing when that was a deletion. */
  lemma ClientIsToldItsLastWrite(c: Config, o: Origin, ws: seq<World>, i: nat, j: nat, events: seq<Event>,
                                 meanwhile: seq<Event>, rank: nat, cmd: Cmd, reply: Str, k: nat)
    requires IsObjectRun(c, o, ws) && i <= j < |ws| && (cmd.op.Get? || cmd.op.MetaGet?)
    requires ws[i].history == Flat(Logs(o.before)) + History(events)
    requires ws[j].history == ws[i].history + History(meanwhile) && OwnCommands(meanwhile, rank) == []
    requires ReadsPlainly(ws[i], rank, cmd) && Answers(reply, ws[i].view, ws[j].view, rank, cmd)
    requires k < |events| && Decides(events[k], rank, cmd)
    requires forall l | k < l < |events| :: !Decides(events[l], rank, cmd)
    ensures reply == if events[k].cmd.op.Del? || events[k].cmd.value == "__LSM_TOMBSTONE_v1__" then []
                     else events[k].cmd.value
  {
    var base := Flat(Logs(o.before));
    OthersDoNotDisturb(ws[i], ws[j], rank, cmd, meanwhile);
    AnswerIsFromMap(c, o, ws, i, j, rank, cmd, reply);
    SharedIsContents(base, events);
    ReplyIsLastWrite(Contents(base), events, rank, cmd, k);
  }

  /** And for `metaGetAll` the entries that it last put, under their full keys and in key order. */
  lemma ClientIsListedItsLastPuts(c: Config, o: Origin, ws: seq<World>, i: nat, j: nat, events: seq<Event>,
                                  meanwhile: seq<Event>, rank: nat, cmd: Cmd, reply: Str)
    requires IsObjectRun(c, o, ws) && i <= j < |ws| && cmd.op.MetaGetAll?
    requires forall key | key in Contents(Flat(Logs(o.before))) :: !HasPrefix(key, MetaTag(rank))
    requires ws[i].history == Flat(Logs(o.before)) + History(events)
    requires ws[j].history == ws[i].history + History(meanwhile) && OwnCommands(meanwhile, rank) == []
    requires ReadsPlainly(ws[i], rank, cmd) && Answers(reply, ws[i].view, ws[j].view, rank, cmd)
    ensures exists values ::
              && reply == Lines(values) && KeysAscend(values)
              && forall e :: e in values <==> IsLastMetaPut(events, rank, e)
  {
    var base := Flat(Logs(o.before));
    OthersDoNotDisturb(ws[i], ws[j], rank, cmd, meanwhile);
    AnswerIsFromMap(c, o, ws, i, j, rank, cmd, reply);
    SharedIsContents(base, events);
    MetaListIsLastPuts(Contents(base), events, rank, cmd);
  }
}
