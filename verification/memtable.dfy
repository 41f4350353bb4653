/** The in-memory table: an append-only log with a byte count, read newest first. */
module MemtableLog {
  import opened Wrappers
  import opened Bytes
  import opened Log

  /** Bytes counted for a log: keys and values, nothing else. */
  function Size(log: Log): nat {
    if log == [] then 0
    else Size(log[..|log| - 1]) + EntrySize(log[|log| - 1])
  }

  function EntrySize(e: Entry): nat {
    |e.key| + |e.value|
  }

  /** The map and the set that the callers of `scan` pass by reference. */
  class ScanState {
    var results: map<Str, Str>
    var deleted: set<Str>

    ghost predicate Valid()
      reads this
    {
      && results.Keys !! deleted
      && forall k | k in results :: results[k] != TOMBSTONE
    }

    /** What has been decided for a key so far: a value, a deletion or nothing. */
    ghost function Seen(key: Str): Option<Str>
      reads this
    {
      if key in results then Some(results[key])
      else if key in deleted then Some(TOMBSTONE)
      else None
    }

    constructor ()
      ensures Valid() && results == map[] && deleted == {}
    {
      results, deleted := map[], {};
    }

    /** The overwriting update of `Memtable::scan`. */
    method Set(key: Str, value: Str)
      requires Valid()
      modifies this
      ensures Valid()
      ensures Seen(key) == Some(value)
      ensures forall k | k != key :: Seen(k) == old(Seen(k))
    {
      if value == TOMBSTONE {
        deleted := deleted + {key};
        results := results - {key};
      } else {
        results := results[key := value];
        deleted := deleted - {key};
      }
    }

    /** The fill-if-absent update of the table scan; says whether it added a live value. */
    method Fill(key: Str, value: Str) returns (added: bool)
      requires Valid() && Seen(key) == None
      modifies this
      ensures Valid()
      ensures Seen(key) == Some(value)
      ensures forall k | k != key :: Seen(k) == old(Seen(k))
      ensures added <==> results.Keys != old(results.Keys)
      ensures old(results.Keys) <= results.Keys
    {
      if value == TOMBSTONE {
        deleted := deleted + {key};
        added := false;
      } else {
        results := results[key := value];
        added := true;
      }
    }
  }

  /** What a memtable scan leaves for a key: the table's last write when it has one. */
  function AfterScan(log: Log, prefix: Str, key: Str, before: Option<Str>): Option<Str> {
    if HasPrefix(key, prefix) && Last(log, key).Some? then Last(log, key) else before
  }

  class Memtable {
    var data: Log
    var sizeBytes: nat

    ghost predicate Valid()
      reads this
    {
      sizeBytes == Size(data)
    }

    constructor ()
      ensures Valid() && data == []
    {
      data, sizeBytes := [], 0;
    }

    method Add(key: Str, value: Str)
      requires Valid()
      modifies this
      ensures Valid()
      ensures data == old(data) + [Entry(key, value)]
    {
      data := data + [Entry(key, value)];
      sizeBytes := sizeBytes + (|key| + |value|);
      assert data[..|data| - 1] == old(data);
    }

    /** The last value written for the key, a tombstone included. */
    method Get(key: Str) returns (found: Option<Str>)
      requires Valid()
      ensures found == Last(data, key)
    {
      var i := |data|;
      assert data[..i] == data;
      while i > 0
        invariant 0 <= i <= |data|
        invariant Last(data, key) == Last(data[..i], key)
      {
        i := i - 1;
        if data[i].key == key {
          return Some(data[i].value);
        }
        assert data[..i + 1][..i] == data[..i];
      }
      return None;
    }

    /** Every key with the prefix that the table holds is decided anew by this table;
        the other decisions stand. */
    method Scan(prefix: Str, acc: ScanState)
      requires Valid() && acc.Valid()
      modifies acc
      ensures acc.Valid()
      ensures forall k :: acc.Seen(k) == AfterScan(data, prefix, k, old(acc.Seen(k)))
    {
      var i := 0;
      while i < |data|
        invariant 0 <= i <= |data| && acc.Valid()
        invariant forall k :: acc.Seen(k) == AfterScan(data[..i], prefix, k, old(acc.Seen(k)))
      {
        assert data[..i + 1][..i] == data[..i];
        if HasPrefix(data[i].key, prefix) {
          acc.Set(data[i].key, data[i].value);
        }
        i := i + 1;
      }
      assert data[..i] == data;
    }
  }
}
