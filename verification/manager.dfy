/** The aggregator's callback, over the native store. */
module Managers {
  import opened Wrappers
  import opened Bytes
  import opened Log
  import opened Machine
  import opened Reads
  import opened PrefixReads
  import opened MemoryTables
  import opened StoreViews
  import opened ObjectRuns
  import opened ObjectResults
  import opened NativeStore
  import opened Collective
  import opened Codecs
  import opened RankIsolation

  /** The store after a mutation, up to its wait when it is blocked. */
  function AfterWrite(c: Config, v: StoreView, e: Entry): StoreView {
    if MustWait(c, v.mem, e) then v else v.(mem := AfterMutation(c, v.mem, e))
  }

  /** The store after the callback, up to the wait of a blocked write or of the barrier. */
  function AfterCallback(c: Config, v: StoreView, rank: nat, cmd: Cmd): StoreView {
    match StoreWrite(rank, cmd)
    case Some(e) => AfterWrite(c, v, e)
    case None => if cmd.op.WriteBarrier? then v.(mem := RotateNonEmpty(v.mem)) else v
  }

  /** The call has to wait: for room in the queue, or for the queue to drain. */
  predicate CallbackWaits(c: Config, v: StoreView, rank: nat, cmd: Cmd) {
    match StoreWrite(rank, cmd)
    case Some(e) => MustWait(c, v.mem, e)
    case None => cmd.op.WriteBarrier? && !BarrierMayLeave(AfterCallback(c, v, rank, cmd))
  }

  /** Everything that the store shows under a prefix, in key order, with memory as it is in
      the locked phase and the tables as they are when the list head is loaded. */
  ghost predicate ListsPrefix(values: seq<Entry>, locked: StoreView, loaded: StoreView, prefix: Str) {
    && KeysAscend(values)
    && forall e :: e in values <==> PrefixReadFrom(locked, loaded, prefix, e.key) == Some(e.value)
  }

  /** The value that the callback leaves for the answer. */
  ghost predicate Answers(reply: Str, locked: StoreView, loaded: StoreView, rank: nat, cmd: Cmd) {
    match cmd.op
    case Get => reply == Shown(PointReadFrom(locked, loaded, RankedKey(rank, cmd.key)))
    case MetaGet => reply == Shown(PointReadFrom(locked, loaded, MetaKey(RankedKey(rank, cmd.key))))
    case MetaGetAll => exists values :: ListsPrefix(values, locked, loaded, MetaTag(rank)) && reply == Lines(values)
    case _ => reply == []
  }

  class Manager {
    const store: Store

    constructor (store: Store)
      ensures this.store == store
    {
      this.store := store;
    }

    /** `callbackForCollectiveIO`, up to its return or, for a blocked write and a barrier that
        is not yet done, up to its wait. */
    method CallbackForCollectiveIO(rank: nat, cmd: Cmd) returns (reply: Str, waits: bool)
      requires store.Valid()
      modifies store.mem, store.mem.active
      ensures store.Valid()
      ensures store.View() == AfterCallback(store.config, old(store.View()), rank, cmd)
      ensures waits <==> CallbackWaits(store.config, old(store.View()), rank, cmd)
      ensures Answers(reply, old(store.View()), old(store.View()), rank, cmd)
    {
      reply, waits := [], false;
      if cmd.op.Get? || cmd.op.MetaGet? {
        reply := ReadOne(if cmd.op.Get? then RankedKey(rank, cmd.key) else MetaKey(RankedKey(rank, cmd.key)));
      } else if cmd.op.MetaGetAll? {
        reply := ReadAll(MetaTag(rank));
      } else if cmd.op.WriteBarrier? {
        store.EnterBarrier();
        var done := store.BarrierDone();
        waits := !done;
      } else {
        waits := Write(rank, cmd);
      }
    }

    /** A blocked write goes on after its wait. */
    method ResumeCallback(rank: nat, cmd: Cmd)
      requires store.Valid() && StoreWrite(rank, cmd).Some?
      modifies store.mem
      ensures store.Valid()
      ensures store.View() ==
              old(store.View()).(mem := Append(Rotate(old(store.View()).mem), StoreWrite(rank, cmd).value))
    {
      var e := StoreWrite(rank, cmd).value;
      store.ResumeMutation(e.key, e.value);
    }

    method ReadOne(key: Str) returns (reply: Str)
      requires store.Valid()
      ensures reply == Shown(PointRead(store.View(), key))
    {
      var found := store.Get(key);
      reply := if found.Some? then found.value else [];
    }

    method ReadAll(prefix: Str) returns (reply: Str)
      requires store.Valid()
      ensures exists values :: ListsPrefix(values, store.View(), store.View(), prefix) && reply == Lines(values)
    {
      var values, foundAny := store.GetPrefix(prefix);
      reply := VectorTupleSerialize(values);
      InByteOrder(values);
      assert ListsPrefix(values, store.View(), store.View(), prefix);
    }

    /** `put`, `del` and `metaPut`; an unknown command and a read barrier do nothing. */
    method Write(rank: nat, cmd: Cmd) returns (blocked: bool)
      requires store.Valid() && !cmd.op.WriteBarrier?
      modifies store.mem, store.mem.active
      ensures store.Valid()
      ensures store.View() == AfterCallback(store.config, old(store.View()), rank, cmd)
      ensures blocked <==> CallbackWaits(store.config, old(store.View()), rank, cmd)
    {
      blocked := false;
      if cmd.op.Put? {
        blocked := WriteOne(MutationType.Put, RankedKey(rank, cmd.key), cmd.value);
      } else if cmd.op.Del? {
        blocked := WriteOne(MutationType.Del, RankedKey(rank, cmd.key), []);
      } else if cmd.op.MetaPut? {
        blocked := WriteOne(MutationType.Put, MetaKey(RankedKey(rank, cmd.key)), cmd.value);
      }
    }

    method WriteOne(kind: MutationType, key: Str, value: Str) returns (blocked: bool)
      requires store.Valid()
      modifies store.mem, store.mem.active
      ensures store.Valid()
      ensures store.View() == AfterWrite(store.config, old(store.View()), Mutation(kind, key, value))
      ensures blocked <==> MustWait(store.config, old(store.View()).mem, Mutation(kind, key, value))
    {
      blocked := store.BatchMutation(kind, key, value);
    }
  }

  // ---- Against the map of all writes ----

  /** The keys whose values the command looks at. */
  predicate IsReadBy(rank: nat, cmd: Cmd, key: Str) {
    match cmd.op
    case Get => key == RankedKey(rank, cmd.key)
    case MetaGet => key == MetaKey(RankedKey(rank, cmd.key))
    case MetaGetAll => HasPrefix(key, MetaTag(rank))
    case _ => false
  }

  /** None of them is hidden in the table in flight or, for a prefix read, shadowed by an older
      memory table. */
  ghost predicate ReadsPlainly(w: World, rank: nat, cmd: Cmd) {
    forall key | IsReadBy(rank, cmd, key) ::
      !HiddenIn(w, key) && (cmd.op.MetaGetAll? ==> !Shadowed(w.view.mem, key))
  }

  /** Nothing is written under them from one state of the object to another. */
  ghost predicate Undisturbed(w: World, later: World, rank: nat, cmd: Cmd) {
    && w.history <= later.history
    && forall e | e in later.history[|w.history|..] :: !IsReadBy(rank, cmd, e.key)
  }

  lemma ReadKeyIsNotEmpty(rank: nat, cmd: Cmd, key: Str)
    requires IsReadBy(rank, cmd, key)
    ensures key != []
  {
  }

  /** Entries of other keys do not change what a key holds. */
  lemma OtherKeysKeep(before: Log, part: Log, key: Str)
    requires forall e | e in part :: e.key != key
    ensures Lookup(Contents(before + part), key) == Lookup(Contents(before), key)
  {
    LastFinds(part, key);
    LastConcat(before, part, key);
    LastReadsContents(before, key);
    LastReadsContents(before + part, key);
  }

  /** What a key holds at any moment in between is what it held at the beginning. */
  lemma StaysTheSame(before: Log, between: Log, after: Log, rank: nat, cmd: Cmd, key: Str)
    requires before <= between <= after && IsReadBy(rank, cmd, key)
    requires forall e | e in after[|before|..] :: !IsReadBy(rank, cmd, e.key)
    ensures Lookup(Contents(between), key) == Lookup(Contents(before), key)
  {
    var part := between[|before|..];
    assert between == before + part;
    forall e | e in part
      ensures e.key != key
    {
      var m :| 0 <= m < |part| && part[m] == e;
      assert after[|before|..][m] == e;
    }
    OtherKeysKeep(before, part, key);
  }

  lemma PointFromMap(c: Config, o: Origin, ws: seq<World>, i: nat, j: nat, rank: nat, cmd: Cmd, key: Str)
    requires IsObjectRun(c, o, ws) && i <= j < |ws|
    requires ReadsPlainly(ws[i], rank, cmd) && Undisturbed(ws[i], ws[j], rank, cmd) && IsReadBy(rank, cmd, key)
    ensures PointReadFrom(ws[i].view, ws[j].view, key) == Lookup(Contents(ws[i].history), key)
  {
    ReadKeyIsNotEmpty(rank, cmd, key);
    var k := PointReadLinearizable(c, o, ws, i, j, key);
    HistoriesGrow(c, o, ws, i, k);
    HistoriesGrow(c, o, ws, k, j);
    StaysTheSame(ws[i].history, ws[k].history, ws[j].history, rank, cmd, key);
  }

  lemma PrefixFromMap(c: Config, o: Origin, ws: seq<World>, i: nat, j: nat, rank: nat, cmd: Cmd, key: Str)
    requires IsObjectRun(c, o, ws) && i <= j < |ws| && cmd.op == MetaGetAll
    requires ReadsPlainly(ws[i], rank, cmd) && Undisturbed(ws[i], ws[j], rank, cmd) && IsReadBy(rank, cmd, key)
    ensures PrefixReadFrom(ws[i].view, ws[j].view, MetaTag(rank), key) == Lookup(Contents(ws[i].history), key)
  {
    ReadKeyIsNotEmpty(rank, cmd, key);
    var k := PrefixReadLinearizable(c, o, ws, i, j, MetaTag(rank), key);
    HistoriesGrow(c, o, ws, i, k);
    HistoriesGrow(c, o, ws, k, j);
    StaysTheSame(ws[i].history, ws[k].history, ws[j].history, rank, cmd, key);
  }

  lemma ListFromMap(c: Config, o: Origin, ws: seq<World>, i: nat, j: nat, rank: nat, cmd: Cmd, values: seq<Entry>)
    requires IsObjectRun(c, o, ws) && i <= j < |ws| && cmd.op == MetaGetAll
    requires ReadsPlainly(ws[i], rank, cmd) && Undisturbed(ws[i], ws[j], rank, cmd)
    requires ListsPrefix(values, ws[i].view, ws[j].view, MetaTag(rank))
    ensures values == Listing(Contents(ws[i].history), MetaTag(rank))
  {
    var m, prefix := Contents(ws[i].history), MetaTag(rank);
    ListingIsListing(m, prefix);
    forall e
      ensures e in values <==> e in Listing(m, prefix)
    {
      if HasPrefix(e.key, prefix) {
        PrefixFromMap(c, o, ws, i, j, rank, cmd, e.key);
      } else {
        OutsidePrefix(MemoryLogs(ws[i].view.mem), prefix, e.key, None);
      }
    }
    AscendingIsUnique(values, Listing(m, prefix));
  }

  /** Whatever the flush thread and other callers do between the locked phase of the read and
      its walk of the tables: when nothing that the command reads was hidden or shadowed in
      the locked phase and nothing is written under it meanwhile, the answer is the answer
      from the map of all writes. */
  lemma AnswerIsFromMap(c: Config, o: Origin, ws: seq<World>, i: nat, j: nat, rank: nat, cmd: Cmd, reply: Str)
    requires IsObjectRun(c, o, ws) && i <= j < |ws|
    requires ReadsPlainly(ws[i], rank, cmd) && Undisturbed(ws[i], ws[j], rank, cmd)
    requires Answers(reply, ws[i].view, ws[j].view, rank, cmd)
    ensures reply == Reply(Contents(ws[i].history), rank, cmd)
  {
    match cmd.op
    case Get => PointFromMap(c, o, ws, i, j, rank, cmd, RankedKey(rank, cmd.key));
    case MetaGet => PointFromMap(c, o, ws, i, j, rank, cmd, MetaKey(RankedKey(rank, cmd.key)));
    case MetaGetAll =>
      var values :| ListsPrefix(values, ws[i].view, ws[j].view, MetaTag(rank)) && reply == Lines(values);
      ListFromMap(c, o, ws, i, j, rank, cmd, values);
    case _ =>
  }

  /** The callback's own answer, when nothing interrupts it. */
  lemma CallbackAnswersFromMap(c: Config, o: Origin, ws: seq<World>, i: nat, rank: nat, cmd: Cmd, reply: Str)
    requires IsObjectRun(c, o, ws) && i < |ws| && ReadsPlainly(ws[i], rank, cmd)
    requires Answers(reply, ws[i].view, ws[i].view, rank, cmd)
    ensures reply == Reply(Contents(ws[i].history), rank, cmd)
  {
    AnswerIsFromMap(c, o, ws, i, i, rank, cmd, reply);
  }

  // ---- What a rank is told ----

  /** While the server serves a rank's command, only others write. */
  lemma OthersDoNotDisturb(w: World, later: World, rank: nat, cmd: Cmd, meanwhile: seq<Event>)
    requires later.history == w.history + History(meanwhile) && OwnCommands(meanwhile, rank) == []
    ensures Undisturbed(w, later, rank, cmd)
  {
    assert later.history[|w.history|..] == History(meanwhile);
    forall e | e in History(meanwhile)
      ensures !IsReadBy(rank, cmd, e.key)
    {
      OthersWriteElsewhere(meanwhile, rank, cmd.key, e);
      if HasPrefix(e.key, MetaTag(rank)) {
        MetaTagSelects(rank, e.key);
        OthersWriteElsewhere(meanwhile, rank, e.key[|MetaTag(rank)|..], e);
      }
    }
  }

  /** The server has served `events`, its own rank's among them, and serves a client's command
      next, one at a time. Whatever the flush thread and the aggregator do meanwhile, also
      between the two phases of the read, the client is told what it would be told if it had
      a store to itself, unless something that it reads is hidden or shadowed. */
  lemma ClientIsToldItsOwn(c: Config, o: Origin, ws: seq<World>, i: nat, j: nat, solo: Solo, events: seq<Event>,
                           meanwhile: seq<Event>, rank: nat, cmd: Cmd, reply: Str)
    requires IsObjectRun(c, o, ws) && i <= j < |ws|
    requires Shows(Contents(Flat(Logs(o.before))), rank, solo)
    requires ws[i].history == Flat(Logs(o.before)) + History(events)
    requires ws[j].history == ws[i].history + History(meanwhile) && OwnCommands(meanwhile, rank) == []
    requires ReadsPlainly(ws[i], rank, cmd) && Answers(reply, ws[i].view, ws[j].view, rank, cmd)
    ensures reply == SoloReply(Alone(solo, OwnCommands(events, rank)), rank, cmd)
  {
    var base := Flat(Logs(o.before));
    OthersDoNotDisturb(ws[i], ws[j], rank, cmd, meanwhile);
    AnswerIsFromMap(c, o, ws, i, j, rank, cmd, reply);
    SharedIsContents(base, events);
    RepliesAreOwn(Contents(base), rank, solo, events, cmd);
  }
}
