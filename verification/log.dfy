/** Write logs and what they mean. A log lists mutations oldest first; the store's
    specification is the map obtained by applying them in order. */
module Log {
  import opened Wrappers
  import opened Bytes

  /** A value equal to this string is a deletion, however it got there. */
  const TOMBSTONE: Str := "__LSM_TOMBSTONE_v1__"

  datatype Entry = Entry(key: Str, value: Str)
  type Log = seq<Entry>

  /** What the newest-first linear scan finds: the last value written for the key. */
  function Last(log: Log, key: Str): Option<Str> {
    if log == [] then None
    else if log[|log| - 1].key == key then Some(log[|log| - 1].value)
    else Last(log[..|log| - 1], key)
  }

  /** What a caller of `get` is shown for a stored value. */
  function Live(found: Option<Str>): Option<Str> {
    if found == Some(TOMBSTONE) then None else found
  }

  function Lookup(m: map<Str, Str>, key: Str): Option<Str> {
    if key in m then Some(m[key]) else None
  }

  /** One mutation of the abstract map. */
  function Apply(m: map<Str, Str>, e: Entry): map<Str, Str> {
    if e.value == TOMBSTONE then m - {e.key} else m[e.key := e.value]
  }

  /** The abstract map after a whole history. */
  function Contents(log: Log): map<Str, Str> {
    if log == [] then map[] else Apply(Contents(log[..|log| - 1]), log[|log| - 1])
  }

  function Flat(logs: seq<Log>): Log {
    if logs == [] then [] else Flat(logs[..|logs| - 1]) + logs[|logs| - 1]
  }

  lemma {:induction false} LastConcat(a: Log, b: Log, key: Str)
    ensures Last(a + b, key) == if Last(b, key).Some? then Last(b, key) else Last(a, key)
  {
    if b == [] {
      assert a + b == a;
    } else {
      assert (a + b)[..|a + b| - 1] == a + b[..|b| - 1];
      LastConcat(a, b[..|b| - 1], key);
    }
  }

  /** The linear scan, with tombstones hidden, reads the abstract map. */
  lemma {:induction false} LastReadsContents(log: Log, key: Str)
    ensures Live(Last(log, key)) == Lookup(Contents(log), key)
  {
    if log == [] {
    } else {
      LastReadsContents(log[..|log| - 1], key);
    }
  }

  /** The scan finds a key exactly when some entry has it. */
  lemma {:induction false} LastFinds(log: Log, key: Str)
    ensures Last(log, key).Some? <==> exists i | 0 <= i < |log| :: log[i].key == key
  {
    if log == [] {
    } else {
      var rest := log[..|log| - 1];
      LastFinds(rest, key);
      assert forall i | 0 <= i < |rest| :: rest[i] == log[i];
    }
  }

  /** The scan stops at the last entry that has the key. */
  lemma {:induction false} LastAt(log: Log, key: Str, i: nat)
    requires i < |log| && log[i].key == key
    requires forall j | i < j < |log| :: log[j].key != key
    ensures Last(log, key) == Some(log[i].value)
  {
    if i < |log| - 1 {
      LastAt(log[..|log| - 1], key, i);
    }
  }

  lemma {:induction false} LastOccurrence(log: Log, key: Str) returns (i: nat)
    requires Last(log, key).Some?
    ensures i < |log| && log[i].key == key
    ensures forall j | i < j < |log| :: log[j].key != key
    ensures Last(log, key) == Some(log[i].value)
  {
    i := |log| - 1;
    if log[i].key != key {
      i := LastOccurrence(log[..|log| - 1], key);
    }
  }

  /** What the map of a log holds, without its recursion: a key has the value of the last
      entry with that key, unless that is the tombstone. */
  lemma ContentsExactly(log: Log, key: Str, value: Str)
    ensures Lookup(Contents(log), key) == Some(value) <==>
            && value != "__LSM_TOMBSTONE_v1__"
            && exists i | 0 <= i < |log| ::
                 log[i] == Entry(key, value) && forall j | i < j < |log| :: log[j].key != key
  {
    LastReadsContents(log, key);
    LastFinds(log, key);
    if Last(log, key).Some? {
      var i := LastOccurrence(log, key);
      LastAt(log, key, i);
    }
    forall i | 0 <= i < |log| && log[i].key == key && forall j | i < j < |log| :: log[j].key != key
      ensures Last(log, key) == Some(log[i].value)
    {
      LastAt(log, key, i);
    }
  }

  lemma {:induction false} FlatConcat(a: seq<Log>, b: seq<Log>)
    ensures Flat(a + b) == Flat(a) + Flat(b)
  {
    if b == [] {
      assert a + b == a;
    } else {
      assert (a + b)[..|a + b| - 1] == a + b[..|b| - 1];
      FlatConcat(a, b[..|b| - 1]);
    }
  }

  lemma FlatSnoc(logs: seq<Log>, log: Log)
    ensures Flat(logs + [log]) == Flat(logs) + log
  {
    assert (logs + [log])[..|logs|] == logs;
  }

  lemma FlatOne(log: Log)
    ensures Flat([log]) == log
  {
    assert [log][..0] == [];
    assert [] + log == log;
  }

  lemma FlatCons(log: Log, rest: seq<Log>)
    ensures Flat([log] + rest) == log + Flat(rest)
  {
    FlatConcat([log], rest);
    FlatOne(log);
  }
}
