/** The table file: records laid end to end, read back by offset, and re-indexed at open. */
module SSTable {
  import opened Wrappers
  import opened Bytes
  import opened Log
  import opened Index

  /** A published table: the bytes of its file and the index held in memory. */
  datatype Table = Table(file: Str, index: seq<IndexEntry>)

  /** Lengths fit the `uint32_t` fields, as the source assumes. */
  predicate Fits(e: Entry) {
    |e.key| < U32_LIMIT && |e.value| < U32_LIMIT
  }

  predicate AllFit(log: Log) {
    forall i | 0 <= i < |log| :: Fits(log[i])
  }

  /** Everything of a record before its value: key length, key, value length. */
  function Header(e: Entry): (h: Str)
    requires Fits(e)
    ensures |h| == 8 + |e.key|
  {
    U32(|e.key|) + (e.key + U32(|e.value|))
  }

  function Record(e: Entry): (r: Str)
    requires Fits(e)
    ensures |r| == 8 + |e.key| + |e.value|
  {
    Header(e) + e.value
  }

  function Serialize(log: Log): Str
    requires AllFit(log)
  {
    if log == [] then [] else Serialize(log[..|log| - 1]) + Record(log[|log| - 1])
  }

  /** Where the record number `i` starts: the sum of the earlier record lengths. */
  function Offset(log: Log, i: nat): nat
    requires AllFit(log) && i <= |log|
  {
    |Serialize(log[..i])|
  }

  /** The pairs that the flush collects while it writes. */
  function Offsets(log: Log): seq<IndexEntry>
    requires AllFit(log)
  {
    seq(|log|, i requires 0 <= i < |log| => IndexEntry(log[i].key, Offset(log, i)))
  }

  /** `readValueAt`: the value of the record at an offset, when the file holds the whole
      record and its key is the expected one. */
  function ReadAt(file: Str, offset: nat, key: Str): Option<Str> {
    if offset + 4 > |file| then None
    else
      var keyEnd := offset + 4 + GetU32(file, offset);
      if keyEnd > |file| then None
      else if file[offset + 4..keyEnd] != key then None
      else if keyEnd + 4 > |file| then None
      else
        var end := keyEnd + 4 + GetU32(file, keyEnd);
        if end > |file| then None else Some(file[keyEnd + 4..end])
  }

  /** The pairs that recovery collects from a position on. A value is skipped without
      being read, so its record is indexed even when the file ends inside it. */
  function Scan(file: Str, pos: nat): seq<IndexEntry>
    decreases |file| - pos
  {
    if pos + 4 > |file| then []
    else
      var keyEnd := pos + 4 + GetU32(file, pos);
      if keyEnd + 4 > |file| then []
      else
        var next := keyEnd + 4 + GetU32(file, keyEnd);
        [IndexEntry(file[pos + 4..keyEnd], pos)] + Scan(file, next)
  }

  /** The file ends before the key and the lengths of a record that starts here. */
  predicate HeaderCut(file: Str, pos: nat) {
    pos + 4 > |file| || pos + 4 + GetU32(file, pos) + 4 > |file|
  }

  /** A point read of one table. */
  function TableGet(t: Table, key: Str): Option<Str> {
    var i := LowerBound(t.index, key);
    if i < |t.index| && t.index[i].key == key then ReadAt(t.file, t.index[i].offset, key) else None
  }

  /** The table left by a flush; the tail is what pre-allocation put behind the records. */
  function Flushed(log: Log, tail: Str): Table
    requires AllFit(log)
  {
    Table(Serialize(log) + tail, BuildIndex(Offsets(log)))
  }

  /** The table that recovery builds from a file. */
  function Recovered(file: Str): Table {
    Table(file, BuildIndex(Scan(file, 0)))
  }

  // ---- Writing into a file ----

  /** Writing into an open file at a position; bytes beyond the write stay. */
  function Overwrite(file: Str, pos: nat, bytes: Str): Str
    requires pos <= |file|
  {
    file[..pos] + bytes + Behind(file, pos + |bytes|)
  }

  function Behind(file: Str, pos: nat): Str {
    if pos <= |file| then file[pos..] else []
  }

  // ---- Records in a file ----

  /** The bytes of one record. */
  lemma RecordBytes()
    ensures Record(Entry("k", "vw")) ==
            [1 as char, 0 as char, 0 as char, 0 as char, 'k', 2 as char, 0 as char, 0 as char, 0 as char, 'v', 'w']
  {
    U32Bytes(1);
    U32Bytes(2);
  }

  /** A length fits exactly when four bytes can hold it. */
  lemma FitsExactly(e: Entry)
    ensures Fits(e) <==> |e.key| <= 4294967295 && |e.value| <= 4294967295
  {
  }

  /** Writing at the start of a file replaces as many bytes as are written, and no others. */
  lemma OverwriteExactly(file: Str, bytes: Str)
    ensures |bytes + Behind(file, |bytes|)| == if |bytes| <= |file| then |file| else |bytes|
    ensures forall i | 0 <= i < |bytes + Behind(file, |bytes|)| ::
              (bytes + Behind(file, |bytes|))[i] == if i < |bytes| then bytes[i] else file[i]
  {
  }

  /** Serialising is appending: an initial segment of the log is an initial segment of the
      file, and every record starts where the earlier ones end. */
  lemma {:induction false} SerializePrefix(log: Log, i: nat)
    requires AllFit(log) && i <= |log|
    ensures Offset(log, i) <= |Serialize(log)|
    ensures Serialize(log)[..Offset(log, i)] == Serialize(log[..i])
    ensures Offset(log, |log|) == |Serialize(log)|
  {
    if i < |log| {
      SerializePrefix(log[..|log| - 1], i);
      assert log[..|log| - 1][..i] == log[..i];
    } else {
      assert log[..i] == log;
    }
    assert log[..|log|] == log;
  }

  lemma NextOffset(log: Log, i: nat)
    requires AllFit(log) && i < |log|
    ensures Offset(log, i + 1) == Offset(log, i) + |Record(log[i])|
    ensures Offset(log, i + 1) <= |Serialize(log)|
    ensures Serialize(log)[Offset(log, i)..Offset(log, i + 1)] == Record(log[i])
  {
    assert log[..i + 1][..i] == log[..i];
    SerializePrefix(log, i + 1);
    SerializePrefix(log, i);
  }

  lemma {:induction false} OffsetsAscend(log: Log, i: nat, j: nat)
    requires AllFit(log) && i < j <= |log|
    ensures Offset(log, i) < Offset(log, j)
    decreases j
  {
    NextOffset(log, j - 1);
    if i < j - 1 {
      OffsetsAscend(log, i, j - 1);
    }
  }

  /** What a record header that lies in a file says. */
  lemma HeaderFields(file: Str, pos: nat, e: Entry)
    requires Fits(e) && At(file, pos, Header(e))
    ensures pos + 8 + |e.key| <= |file|
    ensures GetU32(file, pos) == |e.key|
    ensures file[pos + 4..pos + 4 + |e.key|] == e.key
    ensures GetU32(file, pos + 4 + |e.key|) == |e.value|
  {
    AtParts(file, pos, U32(|e.key|), e.key + U32(|e.value|));
    AtParts(file, pos + 4, e.key, U32(|e.value|));
    U32RoundTrip(|e.key|, file, pos);
    AtIsSlice(file, pos + 4, e.key);
    U32RoundTrip(|e.value|, file, pos + 4 + |e.key|);
  }

  /** A whole record reads back as its value. */
  lemma RecordReads(file: Str, pos: nat, e: Entry)
    requires Fits(e) && At(file, pos, Record(e))
    ensures ReadAt(file, pos, e.key) == Some(e.value)
  {
    AtParts(file, pos, Header(e), e.value);
    AtIsSlice(file, pos + |Header(e)|, e.value);
    HeaderFields(file, pos, e);
  }

  /** And nothing else reads: a value comes back exactly when a whole record of that key and value
      lies at the offset. */
  lemma ReadAtExactly(file: Str, pos: nat, key: Str, value: Str)
    ensures ReadAt(file, pos, key) == Some(value) <==>
            Fits(Entry(key, value)) && At(file, pos, Record(Entry(key, value)))
  {
    var e := Entry(key, value);
    if Fits(e) && At(file, pos, Record(e)) {
      RecordReads(file, pos, e);
    }
    if ReadAt(file, pos, key) == Some(value) {
      var keyEnd := pos + 4 + |key|;
      U32Converse(file, pos);
      U32Converse(file, keyEnd);
      AtIsSlice(file, pos, U32(|key|));
      AtIsSlice(file, pos + 4, key);
      AtIsSlice(file, keyEnd, U32(|value|));
      AtIsSlice(file, keyEnd + 4, value);
      JoinAt(file, pos + 4, key, U32(|value|));
      JoinAt(file, pos, U32(|key|), key + U32(|value|));
      JoinAt(file, pos, Header(e), value);
    }
  }

  /** In any file that starts with the serialised log, record `i` is at its offset. */
  lemma RecordAt(log: Log, tail: Str, i: nat)
    requires AllFit(log) && i < |log|
    ensures At(Serialize(log) + tail, Offset(log, i), Record(log[i]))
  {
    NextOffset(log, i);
    AtSlice(Serialize(log), tail, Offset(log, i), Offset(log, i + 1));
  }

  lemma LogReads(log: Log, tail: Str, i: nat)
    requires AllFit(log) && i < |log|
    ensures ReadAt(Serialize(log) + tail, Offset(log, i), log[i].key) == Some(log[i].value)
  {
    RecordAt(log, tail, i);
    RecordReads(Serialize(log) + tail, Offset(log, i), log[i]);
  }

  // ---- Index lookups ----

  /** A point read follows the newest pair of its key, and finds nothing without one. */
  lemma TableGetFollowsNewest(file: Str, pairs: seq<IndexEntry>, key: Str)
    ensures forall o :: Newest(pairs, IndexEntry(key, o)) ==>
                          TableGet(Table(file, BuildIndex(pairs)), key) == ReadAt(file, o, key)
    ensures (forall e | e in pairs :: e.key != key) ==> TableGet(Table(file, BuildIndex(pairs)), key) == None
  {
    var index := BuildIndex(pairs);
    IndexHoldsNewest(pairs);
    forall o | Newest(pairs, IndexEntry(key, o))
      ensures TableGet(Table(file, index), key) == ReadAt(file, o, key)
    {
      LowerBoundFinds(index, IndexEntry(key, o));
    }
    var i := LowerBound(index, key);
    if i < |index| && index[i].key == key {
      assert index[i] in index && Newest(pairs, index[i]);
    }
  }

  /** The pairs of a log, followed by pairs of other keys, send a key to its last record. */
  lemma NewestIsLast(log: Log, extra: seq<IndexEntry>, key: Str, i: nat)
    requires AllFit(log) && i < |log| && log[i].key == key
    requires forall j | i < j < |log| :: log[j].key != key
    requires forall e | e in extra :: e.key != key
    ensures Newest(Offsets(log) + extra, IndexEntry(key, Offset(log, i)))
  {
    var pairs := Offsets(log) + extra;
    assert pairs[i] == IndexEntry(key, Offset(log, i));
    forall f | f in pairs && f.key == key
      ensures f.offset <= Offset(log, i)
    {
      assert f in Offsets(log);
      var j :| 0 <= j < |log| && Offsets(log)[j] == f;
      if j < i {
        OffsetsAscend(log, j, i);
      }
    }
  }

  /** Pairs of a log followed by pairs of other keys read exactly like the log. */
  lemma PairsReadLog(log: Log, tail: Str, extra: seq<IndexEntry>, key: Str)
    requires AllFit(log)
    requires forall e | e in extra :: e.key != key
    ensures TableGet(Table(Serialize(log) + tail, BuildIndex(Offsets(log) + extra)), key) == Last(log, key)
  {
    var file := Serialize(log) + tail;
    var pairs := Offsets(log) + extra;
    TableGetFollowsNewest(file, pairs, key);
    if Last(log, key).Some? {
      var i := LastOccurrence(log, key);
      NewestIsLast(log, extra, key, i);
      LogReads(log, tail, i);
    } else {
      LastFinds(log, key);
      forall e | e in pairs
        ensures e.key != key
      {
        if e in Offsets(log) {
          var j :| 0 <= j < |log| && Offsets(log)[j] == e;
        }
      }
    }
  }

  /** Sort, keep-first, binary search and read-at-offset give what the newest-first linear
      scan of the log gives, whatever bytes follow the records. */
  lemma FlushedReadsLog(log: Log, tail: Str, key: Str)
    requires AllFit(log)
    ensures TableGet(Flushed(log, tail), key) == Last(log, key)
  {
    assert Offsets(log) + [] == Offsets(log);
    PairsReadLog(log, tail, [], key);
  }
}
