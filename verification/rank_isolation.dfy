/** Several ranks share one store behind the aggregator. Keys carry the rank, so each rank
    sees the maps of data and metadata that it would have alone. */
module RankIsolation {
  import opened Wrappers
  import opened Bytes
  import opened Log
  import opened Directory
  import opened Collective
  import opened Codecs

  // ---- Keys ----

  /** `std::to_string(rank) + "::"`. */
  function Tag(rank: nat): Str {
    Decimal(rank) + "::"
  }

  function RankedKey(rank: nat, key: Str): Str {
    Tag(rank) + key
  }

  const META_PREFIX: Str := "__lsmio_md::"

  function MetaKey(key: Str): Str {
    META_PREFIX + key
  }

  lemma KeyTexts()
    ensures RankedKey(12, "k") == "12::k" && MetaKey("12::k") == "__lsmio_md::12::k"
    ensures MetaTag(12) == "__lsmio_md::12::"
  {
  }

  /** A string that starts with a rank's tag tells the rank. */
  lemma TagTellsRank(rank: nat, key: Str)
    ensures LeadingDigits(RankedKey(rank, key)) == Decimal(rank)
    ensures Value(LeadingDigits(RankedKey(rank, key))) == rank
  {
    DigitsStop(Decimal(rank), "::" + key);
    assert RankedKey(rank, key) == Decimal(rank) + ("::" + key);
    ValueOfDecimal(rank);
  }

  lemma RankedKeyIsInjective(r1: nat, k1: Str, r2: nat, k2: Str)
    ensures RankedKey(r1, k1) == RankedKey(r2, k2) <==> r1 == r2 && k1 == k2
  {
    if RankedKey(r1, k1) == RankedKey(r2, k2) {
      TagTellsRank(r1, k1);
      TagTellsRank(r2, k2);
      assert k1 == RankedKey(r1, k1)[|Tag(r1)|..];
      assert k2 == RankedKey(r2, k2)[|Tag(r2)|..];
    }
  }

  /** No data key is a metadata key. */
  lemma DataIsNotMeta(rank: nat, key: Str, other: Str)
    ensures RankedKey(rank, key) != MetaKey(other)
  {
    assert IsDigit(RankedKey(rank, key)[0]) by {
      assert RankedKey(rank, key)[0] == Decimal(rank)[0];
    }
    assert MetaKey(other)[0] == '_';
  }

  lemma MetaKeyIsInjective(a: Str, b: Str)
    ensures MetaKey(a) == MetaKey(b) <==> a == b
  {
    assert MetaKey(a)[|META_PREFIX|..] == a && MetaKey(b)[|META_PREFIX|..] == b;
  }

  /** The prefix of `metaGetAll` for a rank. */
  function MetaTag(rank: nat): Str {
    META_PREFIX + Tag(rank)
  }

  lemma MetaTagKey(rank: nat, key: Str)
    ensures MetaKey(RankedKey(rank, key)) == MetaTag(rank) + key
    ensures HasPrefix(MetaKey(RankedKey(rank, key)), MetaTag(rank))
    ensures MetaKey(RankedKey(rank, key))[|MetaTag(rank)|..] == key
  {
    assert MetaKey(RankedKey(rank, key)) == MetaTag(rank) + key;
  }

  /** The prefix selects exactly the metadata entries of the rank. */
  lemma MetaTagSelects(rank: nat, full: Str)
    ensures HasPrefix(full, MetaTag(rank)) <==> exists key :: full == MetaKey(RankedKey(rank, key))
    ensures HasPrefix(full, MetaTag(rank)) ==> full == MetaKey(RankedKey(rank, full[|MetaTag(rank)|..]))
  {
    if HasPrefix(full, MetaTag(rank)) {
      var key := full[|MetaTag(rank)|..];
      assert full == MetaTag(rank) + key;
      MetaTagKey(rank, key);
    }
    if key :| full == MetaKey(RankedKey(rank, key)) {
      MetaTagKey(rank, key);
    }
  }

  lemma MetaTagSparesOthers(rank: nat, other: nat, key: Str)
    ensures HasPrefix(MetaKey(RankedKey(other, key)), MetaTag(rank)) <==> rank == other
    ensures !HasPrefix(RankedKey(other, key), MetaTag(rank))
  {
    MetaTagKey(other, key);
    MetaTagSelects(rank, MetaKey(RankedKey(other, key)));
    MetaTagSelects(rank, RankedKey(other, key));
    forall k
      ensures MetaKey(RankedKey(other, key)) == MetaKey(RankedKey(rank, k)) ==> rank == other
      ensures RankedKey(other, key) != MetaKey(RankedKey(rank, k))
    {
      MetaKeyIsInjective(RankedKey(other, key), RankedKey(rank, k));
      RankedKeyIsInjective(other, key, rank, k);
      DataIsNotMeta(other, key, RankedKey(rank, k));
    }
  }

  // ---- Listings ----

  ghost predicate KeysAscend(values: seq<Entry>) {
    forall i, j | 0 <= i < j < |values| :: Less(values[i].key, values[j].key)
  }

  /** All entries of the map with the prefix, in key order. */
  ghost predicate IsListing(values: seq<Entry>, m: map<Str, Str>, prefix: Str) {
    && KeysAscend(values)
    && forall e :: e in values <==> HasPrefix(e.key, prefix) && Lookup(m, e.key) == Some(e.value)
  }

  ghost function KeysInOrder(keys: set<Str>): seq<Str>
    decreases keys
  {
    if keys == {} then []
    else
      LeastExists(keys);
      var least :| least in keys && IsLeast(least, keys);
      [least] + KeysInOrder(keys - {least})
  }

  /** What `getPrefix` lists for the map. */
  ghost function Listing(m: map<Str, Str>, prefix: Str): seq<Entry> {
    EntriesOf(m, KeysInOrder(set k | k in m && HasPrefix(k, prefix)))
  }

  ghost function EntriesOf(m: map<Str, Str>, keys: seq<Str>): (values: seq<Entry>)
    ensures |values| == |keys|
    ensures forall i | 0 <= i < |keys| :: values[i] == Entry(keys[i], if keys[i] in m then m[keys[i]] else [])
  {
    seq(|keys|, i requires 0 <= i < |keys| => Entry(keys[i], if keys[i] in m then m[keys[i]] else []))
  }

  lemma {:induction false} KeysInOrderExact(keys: set<Str>)
    ensures forall k :: k in KeysInOrder(keys) <==> k in keys
    ensures forall i, j | 0 <= i < j < |KeysInOrder(keys)| :: Less(KeysInOrder(keys)[i], KeysInOrder(keys)[j])
    decreases keys
  {
    if keys == {} {
    } else {
      var order := KeysInOrder(keys);
      var least := order[0];
      LeastExists(keys);
      KeysInOrderExact(keys - {least});
      assert order[1..] == KeysInOrder(keys - {least});
      forall j | 1 <= j < |order|
        ensures Less(least, order[j])
      {
        assert order[j] in order[1..];
      }
    }
  }

  lemma ListingIsListing(m: map<Str, Str>, prefix: Str)
    ensures IsListing(Listing(m, prefix), m, prefix)
  {
    var keys := set k | k in m && HasPrefix(k, prefix);
    var order := KeysInOrder(keys);
    KeysInOrderExact(keys);
    var values := Listing(m, prefix);
    forall e
      ensures e in values <==> HasPrefix(e.key, prefix) && Lookup(m, e.key) == Some(e.value)
    {
      if e in values {
        var i :| 0 <= i < |values| && values[i] == e;
        assert order[i] in keys;
      }
      if HasPrefix(e.key, prefix) && Lookup(m, e.key) == Some(e.value) {
        assert e.key in order;
        var i :| 0 <= i < |order| && order[i] == e.key;
        assert values[i] == e;
      }
    }
  }

  /** There is one listing only. */
  lemma {:induction false} AscendingIsUnique(a: seq<Entry>, b: seq<Entry>)
    requires KeysAscend(a) && KeysAscend(b) && forall e :: e in a <==> e in b
    ensures a == b
  {
    if b != [] {
      assert b[0] in a;
    }
    if a == [] {
    } else {
      assert a[0] in b;
      var i :| 0 <= i < |a| && a[i] == b[0];
      var j :| 0 <= j < |b| && b[j] == a[0];
      LessTotal(a[0].key, b[0].key);
      assert a[0] == b[0];
      SameTail(a, b);
      AscendingIsUnique(a[1..], b[1..]);
      assert a == [a[0]] + a[1..] && b == [b[0]] + b[1..];
    }
  }

  lemma SameTail(a: seq<Entry>, b: seq<Entry>)
    requires KeysAscend(a) && KeysAscend(b) && forall e :: e in a <==> e in b
    requires a != [] && b != [] && a[0] == b[0]
    ensures forall e :: e in a[1..] <==> e in b[1..]
  {
    NotInTail(a);
    NotInTail(b);
    assert forall e :: e in a <==> e == a[0] || e in a[1..];
    assert forall e :: e in b <==> e == b[0] || e in b[1..];
  }

  lemma NotInTail(a: seq<Entry>)
    requires KeysAscend(a) && a != []
    ensures a[0] !in a[1..]
  {
    if a[0] in a[1..] {
      var i :| 1 <= i < |a| && a[i] == a[0];
      LessTotal(a[0].key, a[i].key);
    }
  }

  // ---- Serving ----

  /** What a command writes to the shared store. */
  function StoreWrite(rank: nat, cmd: Cmd): Option<Entry> {
    match cmd.op
    case Put => Some(Entry(RankedKey(rank, cmd.key), cmd.value))
    case Del => Some(Entry(RankedKey(rank, cmd.key), TOMBSTONE))
    case MetaPut => Some(Entry(MetaKey(RankedKey(rank, cmd.key)), cmd.value))
    case _ => None
  }

  function Stored(m: map<Str, Str>, e: Option<Entry>): map<Str, Str> {
    if e.Some? then Apply(m, e.value) else m
  }

  /** A missing key is answered with the empty string, and with success. */
  function Shown(found: Option<Str>): Str {
    if found.Some? then found.value else []
  }

  /** What the callback leaves in the value that is sent back. */
  ghost function Reply(m: map<Str, Str>, rank: nat, cmd: Cmd): Str {
    match cmd.op
    case Get => Shown(Lookup(m, RankedKey(rank, cmd.key)))
    case MetaGet => Shown(Lookup(m, MetaKey(RankedKey(rank, cmd.key))))
    case MetaGetAll => Lines(Listing(m, MetaTag(rank)))
    case _ => []
  }

  /** One served command, or one operation of the aggregator under its own rank. */
  datatype Event = Event(rank: nat, cmd: Cmd)

  function Shared(m: map<Str, Str>, events: seq<Event>): map<Str, Str> {
    if events == [] then m
    else
      var last := events[|events| - 1];
      Stored(Shared(m, events[..|events| - 1]), StoreWrite(last.rank, last.cmd))
  }

  // ---- One rank alone ----

  /** The maps of a rank that has a store to itself. */
  datatype Solo = Solo(data: map<Str, Str>, meta: map<Str, Str>)

  function SoloDo(solo: Solo, cmd: Cmd): Solo {
    match cmd.op
    case Put => solo.(data := Apply(solo.data, Entry(cmd.key, cmd.value)))
    case Del => solo.(data := solo.data - {cmd.key})
    case MetaPut => solo.(meta := Apply(solo.meta, Entry(cmd.key, cmd.value)))
    case _ => solo
  }

  /** The metadata list names the entries by their full keys. */
  function FullKeys(rank: nat, values: seq<Entry>): (full: seq<Entry>)
    ensures |full| == |values|
    ensures forall i | 0 <= i < |values| :: full[i] == Entry(MetaTag(rank) + values[i].key, values[i].value)
  {
    seq(|values|, i requires 0 <= i < |values| => Entry(MetaTag(rank) + values[i].key, values[i].value))
  }

  ghost function SoloReply(solo: Solo, rank: nat, cmd: Cmd): Str {
    match cmd.op
    case Get => Shown(Lookup(solo.data, cmd.key))
    case MetaGet => Shown(Lookup(solo.meta, cmd.key))
    case MetaGetAll => Lines(FullKeys(rank, Listing(solo.meta, [])))
    case _ => []
  }

  /** The commands of one rank, in order. */
  function OwnCommands(events: seq<Event>, rank: nat): seq<Cmd> {
    if events == [] then []
    else
      var last := events[|events| - 1];
      OwnCommands(events[..|events| - 1], rank) + if last.rank == rank then [last.cmd] else []
  }

  function Alone(solo: Solo, cmds: seq<Cmd>): Solo {
    if cmds == [] then solo else SoloDo(Alone(solo, cmds[..|cmds| - 1]), cmds[|cmds| - 1])
  }

  // ---- Isolation ----

  /** Under the keys of the rank, the shared store is the rank's own two maps. */
  ghost predicate Shows(m: map<Str, Str>, rank: nat, solo: Solo) {
    forall key: Str :: ShowsAt(m, rank, solo, key)
  }

  ghost predicate ShowsAt(m: map<Str, Str>, rank: nat, solo: Solo, key: Str) {
    && Lookup(m, RankedKey(rank, key)) == Lookup(solo.data, key)
    && Lookup(m, MetaKey(RankedKey(rank, key))) == Lookup(solo.meta, key)
  }

  lemma LookupAfter(m: map<Str, Str>, e: Entry, key: Str)
    ensures Lookup(Apply(m, e), key) == if key == e.key then Live(Some(e.value)) else Lookup(m, key)
  {
  }

  /** A write under one full key, read under others. */
  lemma WriteSeparates(m: map<Str, Str>, other: nat, okey: Str, value: Str, rank: nat, key: Str)
    ensures var written := Apply(m, Entry(RankedKey(other, okey), value));
            && Lookup(written, MetaKey(RankedKey(rank, key))) == Lookup(m, MetaKey(RankedKey(rank, key)))
            && Lookup(written, RankedKey(rank, key)) ==
               if rank == other && key == okey then Live(Some(value)) else Lookup(m, RankedKey(rank, key))
  {
    var e := Entry(RankedKey(other, okey), value);
    LookupAfter(m, e, RankedKey(rank, key));
    LookupAfter(m, e, MetaKey(RankedKey(rank, key)));
    RankedKeyIsInjective(rank, key, other, okey);
    DataIsNotMeta(other, okey, RankedKey(rank, key));
  }

  lemma MetaWriteSeparates(m: map<Str, Str>, other: nat, okey: Str, value: Str, rank: nat, key: Str)
    ensures var written := Apply(m, Entry(MetaKey(RankedKey(other, okey)), value));
            && Lookup(written, RankedKey(rank, key)) == Lookup(m, RankedKey(rank, key))
            && Lookup(written, MetaKey(RankedKey(rank, key))) ==
               if rank == other && key == okey then Live(Some(value)) else Lookup(m, MetaKey(RankedKey(rank, key)))
  {
    var e := Entry(MetaKey(RankedKey(other, okey)), value);
    LookupAfter(m, e, RankedKey(rank, key));
    LookupAfter(m, e, MetaKey(RankedKey(rank, key)));
    RankedKeyIsInjective(rank, key, other, okey);
    MetaKeyIsInjective(RankedKey(rank, key), RankedKey(other, okey));
    DataIsNotMeta(rank, key, RankedKey(other, okey));
  }

  /** One command, seen under one key of one rank. */
  lemma StepAtKey(m: map<Str, Str>, rank: nat, solo: Solo, other: nat, cmd: Cmd, key: Str)
    requires ShowsAt(m, rank, solo, key)
    ensures ShowsAt(Stored(m, StoreWrite(other, cmd)), rank, if rank == other then SoloDo(solo, cmd) else solo, key)
  {
    match cmd.op
    case Put => WriteSeparates(m, other, cmd.key, cmd.value, rank, key);
    case Del => WriteSeparates(m, other, cmd.key, TOMBSTONE, rank, key);
    case MetaPut => MetaWriteSeparates(m, other, cmd.key, cmd.value, rank, key);
    case _ =>
  }

  /** A command of the rank acts on its own maps; what another rank does is not seen. */
  lemma StepIsIsolated(m: map<Str, Str>, rank: nat, solo: Solo, other: nat, cmd: Cmd)
    requires Shows(m, rank, solo)
    ensures Shows(Stored(m, StoreWrite(other, cmd)), rank, if rank == other then SoloDo(solo, cmd) else solo)
  {
    var solo' := if rank == other then SoloDo(solo, cmd) else solo;
    forall key: Str
      ensures ShowsAt(Stored(m, StoreWrite(other, cmd)), rank, solo', key)
    {
      StepAtKey(m, rank, solo, other, cmd, key);
    }
  }

  /** The listing of the rank's prefix is the rank's own listing under full keys. */
  lemma OwnListing(m: map<Str, Str>, rank: nat, solo: Solo)
    requires Shows(m, rank, solo)
    ensures Listing(m, MetaTag(rank)) == FullKeys(rank, Listing(solo.meta, []))
  {
    var own := Listing(solo.meta, []);
    var full := FullKeys(rank, own);
    ListingIsListing(solo.meta, []);
    ListingIsListing(m, MetaTag(rank));
    forall i, j | 0 <= i < j < |full|
      ensures Less(full[i].key, full[j].key)
    {
      LessBehindPrefix(MetaTag(rank), own[i].key, own[j].key);
    }
    forall e
      ensures e in full <==> e in Listing(m, MetaTag(rank))
    {
      FullEntry(m, rank, solo, own, e);
    }
    AscendingIsUnique(full, Listing(m, MetaTag(rank)));
  }

  lemma FullEntry(m: map<Str, Str>, rank: nat, solo: Solo, own: seq<Entry>, e: Entry)
    requires Shows(m, rank, solo) && IsListing(own, solo.meta, [])
    ensures e in FullKeys(rank, own) <==> HasPrefix(e.key, MetaTag(rank)) && Lookup(m, e.key) == Some(e.value)
  {
    var full := FullKeys(rank, own);
    if e in full {
      var i :| 0 <= i < |full| && full[i] == e;
      MetaTagKey(rank, own[i].key);
      assert ShowsAt(m, rank, solo, own[i].key);
      assert own[i] in own;
    }
    if HasPrefix(e.key, MetaTag(rank)) && Lookup(m, e.key) == Some(e.value) {
      var key := e.key[|MetaTag(rank)|..];
      MetaTagSelects(rank, e.key);
      MetaTagKey(rank, key);
      assert ShowsAt(m, rank, solo, key);
      OwnEntry(own, solo.meta, rank, key, e);
    }
  }

  lemma OwnEntry(own: seq<Entry>, meta: map<Str, Str>, rank: nat, key: Str, e: Entry)
    requires IsListing(own, meta, []) && Lookup(meta, key) == Some(e.value) && e.key == MetaTag(rank) + key
    ensures e in FullKeys(rank, own)
  {
    assert HasPrefix(key, []);
    assert Entry(key, e.value) in own;
    var i :| 0 <= i < |own| && own[i] == Entry(key, e.value);
    assert FullKeys(rank, own)[i] == e;
  }

  /** Over any interleaving of the commands of all ranks, the shared store under a rank's
      keys is what the rank's own commands would have made of its maps alone. */
  lemma {:induction false} RanksAreIsolated(m: map<Str, Str>, rank: nat, solo: Solo, events: seq<Event>)
    requires Shows(m, rank, solo)
    ensures Shows(Shared(m, events), rank, Alone(solo, OwnCommands(events, rank)))
  {
    if events == [] {
    } else {
      var before, last := events[..|events| - 1], events[|events| - 1];
      var cmds := OwnCommands(before, rank);
      RanksAreIsolated(m, rank, solo, before);
      StepIsIsolated(Shared(m, before), rank, Alone(solo, cmds), last.rank, last.cmd);
      assert cmds + [] == cmds && (cmds + [last.cmd])[..|cmds|] == cmds;
    }
  }

  /** So every answer that the rank gets is the answer it would get alone. */
  lemma RepliesAreOwn(m: map<Str, Str>, rank: nat, solo: Solo, events: seq<Event>, cmd: Cmd)
    requires Shows(m, rank, solo)
    ensures Reply(Shared(m, events), rank, cmd) == SoloReply(Alone(solo, OwnCommands(events, rank)), rank, cmd)
  {
    RanksAreIsolated(m, rank, solo, events);
    assert ShowsAt(Shared(m, events), rank, Alone(solo, OwnCommands(events, rank)), cmd.key);
    OwnListing(Shared(m, events), rank, Alone(solo, OwnCommands(events, rank)));
  }

  /** An empty store shows every rank empty maps. */
  lemma EmptyShows(rank: nat)
    ensures Shows(map[], rank, Solo(map[], map[]))
  {
  }

  // ---- On values ----

  /** The event decides what the read command finds: it is of the rank, under the same key,
      and a put or a deletion for `get`, a metadata put for `metaGet`. */
  predicate Decides(e: Event, rank: nat, read: Cmd) {
    && e.rank == rank && e.cmd.key == read.key
    && match read.op
       case Get => e.cmd.op == Put || e.cmd.op == Del
       case MetaGet => e.cmd.op == MetaPut
       case _ => false
  }

  /** Where a read command looks. */
  function KeyRead(rank: nat, read: Cmd): Str
    requires read.op.Get? || read.op.MetaGet?
  {
    if read.op.Get? then RankedKey(rank, read.key) else MetaKey(RankedKey(rank, read.key))
  }

  lemma EventAtKey(m: map<Str, Str>, e: Event, rank: nat, read: Cmd)
    requires read.op.Get? || read.op.MetaGet?
    ensures Lookup(Stored(m, StoreWrite(e.rank, e.cmd)), KeyRead(rank, read)) ==
            if !Decides(e, rank, read) then Lookup(m, KeyRead(rank, read))
            else if e.cmd.op.Del? || e.cmd.value == "__LSM_TOMBSTONE_v1__" then None else Some(e.cmd.value)
  {
    match e.cmd.op
    case Put => WriteSeparates(m, e.rank, e.cmd.key, e.cmd.value, rank, read.key);
    case Del => WriteSeparates(m, e.rank, e.cmd.key, TOMBSTONE, rank, read.key);
    case MetaPut => MetaWriteSeparates(m, e.rank, e.cmd.key, e.cmd.value, rank, read.key);
    case _ =>
  }

  lemma {:induction false} LastEventAtKey(m: map<Str, Str>, events: seq<Event>, rank: nat, read: Cmd, i: nat)
    requires read.op.Get? || read.op.MetaGet?
    requires i < |events| && Decides(events[i], rank, read)
    requires forall j | i < j < |events| :: !Decides(events[j], rank, read)
    ensures Lookup(Shared(m, events), KeyRead(rank, read)) ==
            if events[i].cmd.op.Del? || events[i].cmd.value == "__LSM_TOMBSTONE_v1__" then None
            else Some(events[i].cmd.value)
    decreases |events|
  {
    var n := |events| - 1;
    EventAtKey(Shared(m, events[..n]), events[n], rank, read);
    if i < n {
      LastEventAtKey(m, events[..n], rank, read, i);
    }
  }

  lemma {:induction false} NoEventAtKey(m: map<Str, Str>, events: seq<Event>, rank: nat, read: Cmd)
    requires read.op.Get? || read.op.MetaGet?
    requires forall j | 0 <= j < |events| :: !Decides(events[j], rank, read)
    ensures Lookup(Shared(m, events), KeyRead(rank, read)) == Lookup(m, KeyRead(rank, read))
    decreases |events|
  {
    if events == [] {
    } else {
      var n := |events| - 1;
      EventAtKey(Shared(m, events[..n]), events[n], rank, read);
      NoEventAtKey(m, events[..n], rank, read);
    }
  }

  /** The answer to a read, whatever the other ranks and the aggregator did: the value of the
      rank's own last write of the key. The answer is empty when that was a deletion or wrote
      the tombstone. */
  lemma ReplyIsLastWrite(m: map<Str, Str>, events: seq<Event>, rank: nat, read: Cmd, i: nat)
    requires read.op.Get? || read.op.MetaGet?
    requires i < |events| && Decides(events[i], rank, read)
    requires forall j | i < j < |events| :: !Decides(events[j], rank, read)
    ensures Reply(Shared(m, events), rank, read) ==
            if events[i].cmd.op.Del? || events[i].cmd.value == "__LSM_TOMBSTONE_v1__" then []
            else events[i].cmd.value
  {
    LastEventAtKey(m, events, rank, read, i);
  }

  /** And when the rank wrote nothing under the key, what the store held before, or nothing. */
  lemma ReplyWithoutWrite(m: map<Str, Str>, events: seq<Event>, rank: nat, read: Cmd)
    requires read.op.Get? || read.op.MetaGet?
    requires forall j | 0 <= j < |events| :: !Decides(events[j], rank, read)
    ensures var key := KeyRead(rank, read);
            Reply(Shared(m, events), rank, read) == if key in m then m[key] else []
  {
    NoEventAtKey(m, events, rank, read);
  }

  /** The same for the maps of a rank that is alone. */
  lemma {:induction false} AloneHoldsLastWrite(solo: Solo, cmds: seq<Cmd>, rank: nat, read: Cmd, i: nat)
    requires read.op.Get? || read.op.MetaGet?
    requires i < |cmds| && Decides(Event(rank, cmds[i]), rank, read)
    requires forall j | i < j < |cmds| :: !Decides(Event(rank, cmds[j]), rank, read)
    ensures var own := Alone(solo, cmds);
            Lookup(if read.op.Get? then own.data else own.meta, read.key) ==
            if cmds[i].op.Del? || cmds[i].value == "__LSM_TOMBSTONE_v1__" then None else Some(cmds[i].value)
    decreases |cmds|
  {
    var n := |cmds| - 1;
    if i < n {
      AloneHoldsLastWrite(solo, cmds[..n], rank, read, i);
    }
  }

  /** The last metadata put of its rank and key. */
  predicate LastMetaPut(events: seq<Event>, i: nat)
    requires i < |events|
  {
    && events[i].cmd.op.MetaPut?
    && forall j | i < j < |events| :: !Decides(events[j], events[i].rank, Cmd(MetaGet, events[i].cmd.key, []))
  }

  lemma {:induction false} LastDeciding(events: seq<Event>, rank: nat, read: Cmd) returns (i: nat)
    requires exists j :: 0 <= j < |events| && Decides(events[j], rank, read)
    ensures i < |events| && Decides(events[i], rank, read)
    ensures forall j | i < j < |events| :: !Decides(events[j], rank, read)
    decreases |events|
  {
    i := |events| - 1;
    if !Decides(events[i], rank, read) {
      i := LastDeciding(events[..i], rank, read);
    }
  }

  /** The entry is the rank's last metadata put of a key, under the full key, and no tombstone. */
  ghost predicate IsLastMetaPut(events: seq<Event>, rank: nat, e: Entry) {
    exists i | 0 <= i < |events| ::
      && LastMetaPut(events, i) && events[i].rank == rank && events[i].cmd.value == e.value
      && e.key == "__lsmio_md::" + Decimal(rank) + "::" + events[i].cmd.key
      && e.value != "__LSM_TOMBSTONE_v1__"
  }

  lemma MetaEntryIsLastPut(m: map<Str, Str>, events: seq<Event>, rank: nat, e: Entry)
    requires forall k | k in m :: !HasPrefix(k, MetaTag(rank))
    ensures HasPrefix(e.key, MetaTag(rank)) && Lookup(Shared(m, events), e.key) == Some(e.value) <==>
            IsLastMetaPut(events, rank, e)
  {
    if HasPrefix(e.key, MetaTag(rank)) && Lookup(Shared(m, events), e.key) == Some(e.value) {
      var key := e.key[|MetaTag(rank)|..];
      var read := Cmd(MetaGet, key, []);
      MetaTagSelects(rank, e.key);
      if exists j :: 0 <= j < |events| && Decides(events[j], rank, read) {
        var i := LastDeciding(events, rank, read);
        LastEventAtKey(m, events, rank, read, i);
        assert LastMetaPut(events, i);
      } else {
        NoEventAtKey(m, events, rank, read);
      }
    }
    if IsLastMetaPut(events, rank, e) {
      var i :| 0 <= i < |events| && LastMetaPut(events, i) && events[i].rank == rank
               && events[i].cmd.value == e.value
               && e.key == "__lsmio_md::" + Decimal(rank) + "::" + events[i].cmd.key
               && e.value != "__LSM_TOMBSTONE_v1__";
      LastEventAtKey(m, events, rank, Cmd(MetaGet, events[i].cmd.key, []), i);
      MetaTagKey(rank, events[i].cmd.key);
      assert e.key == MetaTag(rank) + events[i].cmd.key;
    }
  }

  /** The answer to `metaGetAll` lists, in key order, the rank's last metadata puts. */
  lemma MetaListIsLastPuts(m: map<Str, Str>, events: seq<Event>, rank: nat, cmd: Cmd)
    requires forall k | k in m :: !HasPrefix(k, MetaTag(rank))
    requires cmd.op.MetaGetAll?
    ensures exists values ::
              && Reply(Shared(m, events), rank, cmd) == Lines(values)
              && KeysAscend(values) && forall e :: e in values <==> IsLastMetaPut(events, rank, e)
  {
    var shared := Shared(m, events);
    var values := Listing(shared, MetaTag(rank));
    ListingIsListing(shared, MetaTag(rank));
    forall e
      ensures e in values <==> IsLastMetaPut(events, rank, e)
    {
      MetaEntryIsLastPut(m, events, rank, e);
    }
  }

  /** Answered are exactly the operations that can be told something, and the barriers. */
  lemma AnsweredAreTold(op: Op)
    ensures Answered(op) <==>
            || op.ReadBarrier? || op.WriteBarrier?
            || exists m, rank: nat, cmd: Cmd :: cmd.op == op && Reply(m, rank, cmd) != []
  {
    var value: Str := "v";
    var cmd := Cmd(op, [], []);
    if op.Get? || op.MetaGet? {
      assert Reply(map[KeyRead(0, cmd) := value], 0, cmd) != [];
    } else if op.MetaGetAll? {
      var m := map[MetaTag(0) := value];
      ListingIsListing(m, MetaTag(0));
      assert Entry(MetaTag(0), value) in Listing(m, MetaTag(0));
      assert Reply(m, 0, cmd) != [];
    }
  }

  // ---- Down to the store, and back to the client ----

  /** The write history that the events leave in the store. */
  function History(events: seq<Event>): Log {
    if events == [] then []
    else
      var last := events[|events| - 1];
      var before := History(events[..|events| - 1]);
      match StoreWrite(last.rank, last.cmd)
      case Some(e) => before + [e]
      case None => before
  }

  /** The shared map is the map of the store's write history. */
  lemma {:induction false} SharedIsContents(base: Log, events: seq<Event>)
    ensures Shared(Contents(base), events) == Contents(base + History(events))
  {
    if events == [] {
      assert base + [] == base;
    } else {
      var before, last := events[..|events| - 1], events[|events| - 1];
      SharedIsContents(base, before);
      if StoreWrite(last.rank, last.cmd).Some? {
        var log, e := base + History(before), StoreWrite(last.rank, last.cmd).value;
        assert base + (History(before) + [e]) == log + [e];
        assert (log + [e])[..|log|] == log;
      }
    }
  }

  /** Other ranks write under other keys. */
  lemma {:induction false} OthersWriteElsewhere(events: seq<Event>, rank: nat, key: Str, e: Entry)
    requires OwnCommands(events, rank) == [] && e in History(events)
    ensures e.key != RankedKey(rank, key) && e.key != MetaKey(RankedKey(rank, key))
  {
    var before, last := events[..|events| - 1], events[|events| - 1];
    if StoreWrite(last.rank, last.cmd) == Some(e) {
      RankedKeyIsInjective(rank, key, last.rank, last.cmd.key);
      MetaKeyIsInjective(RankedKey(rank, key), RankedKey(last.rank, last.cmd.key));
      DataIsNotMeta(rank, key, RankedKey(last.rank, last.cmd.key));
      DataIsNotMeta(last.rank, last.cmd.key, RankedKey(rank, key));
    } else {
      OthersWriteElsewhere(before, rank, key, e);
    }
  }

  ghost predicate ParsesTo(text: Str, values: seq<Entry>) {
    Parse(text) == values
  }

  /** The client parses the list that was sent exactly when its keys have no bars and no
      newlines and its values no newlines. */
  lemma MetaListArrives(m: map<Str, Str>, rank: nat, solo: Solo, cmd: Cmd, reply: Str)
    requires Shows(m, rank, solo) && cmd.op == MetaGetAll && reply == Reply(m, rank, cmd)
    ensures ParsesTo(reply, FullKeys(rank, Listing(solo.meta, []))) <==> AllListable(Listing(solo.meta, []))
  {
    OwnListing(m, rank, solo);
    FullListArrives(rank, Listing(solo.meta, []));
  }

  lemma FullListArrives(rank: nat, own: seq<Entry>)
    ensures ParsesTo(Lines(FullKeys(rank, own)), FullKeys(rank, own)) <==> AllListable(own)
  {
    ListRoundTrip(FullKeys(rank, own));
    FullKeysListable(rank, own);
  }

  lemma FullKeysListable(rank: nat, own: seq<Entry>)
    ensures AllListable(FullKeys(rank, own)) <==> AllListable(own)
  {
    var full := FullKeys(rank, own);
    forall i | 0 <= i < |own|
      ensures Listable(full[i]) <==> Listable(own[i])
    {
      TagIsListable(rank);
      assert full[i].key == MetaTag(rank) + own[i].key;
    }
    forall e | e in own && AllListable(full)
      ensures Listable(e)
    {
      var i :| 0 <= i < |own| && own[i] == e;
      assert full[i] in full;
    }
    forall e | e in full && AllListable(own)
      ensures Listable(e)
    {
      var i :| 0 <= i < |own| && full[i] == e;
      assert own[i] in own;
    }
  }

  lemma TagIsListable(rank: nat)
    ensures '|' !in MetaTag(rank) && '\n' !in MetaTag(rank)
  {
    assert '|' !in META_PREFIX && '\n' !in META_PREFIX;
    assert forall c | c in Decimal(rank) :: IsDigit(c);
  }
}
