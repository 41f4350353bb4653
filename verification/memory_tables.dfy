/** The tables that the state mutex protects: the active memtable and the queue of immutable
    ones. Each method is a piece of a critical section of the store. */
module MemoryTables {
  import opened Wrappers
  import opened Bytes
  import opened Log
  import opened MemtableLog
  import opened Machine
  import opened Reads
  import opened PrefixReads

  /** The contents of a queue of memtables. */
  ghost function Datas(tables: seq<Memtable>): (logs: seq<Log>)
    reads tables
    ensures |logs| == |tables|
  {
    if tables == [] then [] else Datas(tables[..|tables| - 1]) + [tables[|tables| - 1].data]
  }

  /** The memory after `_batchMutation`, when it does not have to wait. */
  function AfterMutation(c: Config, m: Memory, e: Entry): Memory {
    if NeedsRotation(c, m, e) then Append(Rotate(m), e) else Append(m, e)
  }

  predicate MustWait(c: Config, m: Memory, e: Entry) {
    NeedsRotation(c, m, e) && !HasRoom(c, m)
  }

  class Tables {
    var active: Memtable
    var immutables: seq<Memtable>  // oldest first

    ghost predicate Valid()
      reads this, active, immutables
    {
      active.Valid() && active !in immutables && forall t | t in immutables :: t.Valid()
    }

    ghost function View(): Memory
      reads this, active, immutables
    {
      Memory(active.data, Datas(immutables))
    }

    constructor ()
      ensures Valid() && View() == Memory([], []) && fresh(active)
    {
      active := new Memtable();
      immutables := [];
    }

    /** The test of `_batchMutation` on sizes. */
    method MustRotate(c: Config, key: Str, value: Str) returns (b: bool)
      requires Valid()
      ensures b <==> NeedsRotation(c, View(), Entry(key, value))
    {
      var entrySize := |key| + |value|;
      b := active.sizeBytes + entrySize > c.maxBytes && active.sizeBytes > 0;
    }

    method QueueLength() returns (n: nat)
      requires Valid()
      ensures n == |View().queue|
    {
      n := |immutables|;
    }

    method Add(key: Str, value: Str)
      requires Valid()
      modifies active
      ensures Valid() && View() == Append(old(View()), Entry(key, value))
    {
      active.Add(key, value);
    }

    /** `_batchMutation` up to its return, or up to its wait when it is blocked. */
    method Mutate(c: Config, key: Str, value: Str) returns (blocked: bool)
      requires Valid()
      modifies this, active
      ensures Valid()
      ensures blocked <==>
              && |old(View()).queue| >= c.maxImmutable && Size(old(View()).active) > 0
              && Size(old(View()).active) + |key| + |value| > c.maxBytes
      ensures View() == if blocked then old(View()) else AfterMutation(c, old(View()), Entry(key, value))
      ensures active == old(active) || fresh(active)
    {
      var rotate := MustRotate(c, key, value);
      blocked := false;
      if !rotate {
        Add(key, value);
      } else {
        var n := QueueLength();
        if n >= c.maxImmutable {
          blocked := true;
        } else {
          RotateThenAdd(key, value);
        }
      }
    }

    method RotateThenAdd(key: Str, value: Str)
      requires Valid()
      modifies this
      ensures Valid() && View() == Append(Rotate(old(View())), Entry(key, value)) && fresh(active)
    {
      RotateActive();
      Add(key, value);
    }

    /** Moves the active table to the end of the queue and starts a new one. */
    method RotateActive()
      requires Valid()
      modifies this
      ensures Valid() && View() == Rotate(old(View())) && fresh(active)
    {
      immutables := immutables + [active];
      active := new Memtable();
      assert immutables[..|immutables| - 1] == old(immutables);
    }

    method RotateUnlessEmpty()
      requires Valid()
      modifies this
      ensures Valid() && View() == RotateNonEmpty(old(View()))
      ensures active == old(active) || fresh(active)
    {
      if |active.data| != 0 {
        RotateActive();
      }
    }

    method PopOldest() returns (table: Memtable)
      requires Valid() && View().queue != []
      modifies this
      ensures Valid() && active == old(active)
      ensures table.Valid() && table.data == old(View()).queue[0]
      ensures View() == old(View()).(queue := old(View()).queue[1..])
    {
      table := immutables[0];
      FirstOfQueue(immutables);
      immutables := immutables[1..];
    }

    /** The locked phase of `get`: the active table, then the queue newest first. */
    method Get(key: Str) returns (found: Option<Str>)
      requires Valid()
      ensures found == MemoryGet(View(), key)
    {
      found := active.Get(key);
      if found == None {
        found := GetQueue(key);
      }
    }

    method GetQueue(key: Str) returns (found: Option<Str>)
      requires Valid()
      ensures found == NewestFirst(Datas(immutables), key)
    {
      found := None;
      var i := |immutables|;
      assert immutables[..i] == immutables;
      while i > 0
        invariant 0 <= i <= |immutables| && found == None
        invariant NewestFirst(Datas(immutables), key) == NewestFirst(Datas(immutables[..i]), key)
      {
        i := i - 1;
        LastOfQueue(immutables, i);
        found := immutables[i].Get(key);
        if found.Some? {
          return;
        }
      }
    }

    /** The locked phase of `getPrefix`: the same order, every table overwriting. */
    method Scan(prefix: Str, acc: ScanState)
      requires Valid() && acc.Valid()
      modifies acc
      ensures acc.Valid()
      ensures forall k :: acc.Seen(k) == ScanTables(MemoryLogs(View()), prefix, k, old(acc.Seen(k)))
    {
      ghost var queue := Datas(immutables);
      assert MemoryLogs(View())[..|queue|] == queue;
      active.Scan(prefix, acc);
      ScanQueue(prefix, acc);
    }

    method ScanQueue(prefix: Str, acc: ScanState)
      requires Valid() && acc.Valid()
      modifies acc
      ensures acc.Valid()
      ensures forall k :: acc.Seen(k) == ScanTables(Datas(immutables), prefix, k, old(acc.Seen(k)))
    {
      ghost var goal := imap k: Str :: ScanTables(Datas(immutables), prefix, k, acc.Seen(k));
      var i := |immutables|;
      assert immutables[..i] == immutables;
      while i > 0
        invariant 0 <= i <= |immutables| && acc.Valid()
        invariant ScanReaches(Datas(immutables[..i]), prefix, acc, goal)
      {
        i := i - 1;
        ScanAt(i, prefix, acc, goal);
      }
      assert immutables[..0] == [];
    }

    method ScanAt(i: nat, prefix: Str, acc: ScanState, ghost goal: imap<Str, Option<Str>>)
      requires Valid() && acc.Valid() && i < |immutables|
      requires ScanReaches(Datas(immutables[..i + 1]), prefix, acc, goal)
      modifies acc
      ensures acc.Valid()
      ensures ScanReaches(Datas(immutables[..i]), prefix, acc, goal)
    {
      LastOfQueue(immutables, i);
      ScanOne(immutables[i], Datas(immutables[..i]), prefix, acc);
    }

    /** One overwriting scan, with the older tables still to come. */
    method ScanOne(table: Memtable, ghost older: seq<Log>, prefix: Str, acc: ScanState)
      requires table.Valid() && acc.Valid()
      modifies acc
      ensures acc.Valid()
      ensures forall k :: ScanTables(older, prefix, k, acc.Seen(k)) ==
                          ScanTables(older + [table.data], prefix, k, old(acc.Seen(k)))
    {
      assert (older + [table.data])[..|older|] == older;
      table.Scan(prefix, acc);
    }
  }

  /** Scanning these older tables next will reach the goal for every key. */
  ghost predicate ScanReaches(older: seq<Log>, prefix: Str, acc: ScanState, goal: imap<Str, Option<Str>>)
    reads acc
  {
    forall k: Str :: k in goal && ScanTables(older, prefix, k, acc.Seen(k)) == goal[k]
  }

  lemma LastOfQueue(tables: seq<Memtable>, i: nat)
    requires i < |tables|
    ensures tables[i] in tables
    ensures Datas(tables[..i + 1]) == Datas(tables[..i]) + [tables[i].data]
  {
    assert tables[..i + 1][..i] == tables[..i];
  }

  lemma {:induction false} FirstOfQueue(tables: seq<Memtable>)
    requires tables != []
    ensures Datas(tables)[0] == tables[0].data
    ensures Datas(tables)[1..] == Datas(tables[1..])
  {
    if |tables| > 1 {
      var init := tables[..|tables| - 1];
      FirstOfQueue(init);
      assert init[1..] == tables[1..][..|tables| - 2];
    }
  }
}
