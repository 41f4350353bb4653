/** Re-indexing a table file at open: whole files, files with pre-allocated zeros behind
    the records, and files cut off at any byte. */
module Recovery {
  import opened Wrappers
  import opened Bytes
  import opened Log
  import opened Index
  import opened SSTable

  /** One turn of the recovery loop over a record whose header is complete. */
  lemma ScanStep(file: Str, pos: nat, e: Entry)
    requires Fits(e) && At(file, pos, Header(e))
    ensures Scan(file, pos) == [IndexEntry(e.key, pos)] + Scan(file, pos + |Record(e)|)
  {
    HeaderFields(file, pos, e);
  }

  lemma ScanRecord(file: Str, pos: nat, next: nat, e: Entry)
    requires Fits(e) && At(file, pos, Record(e)) && next == pos + |Record(e)|
    ensures Scan(file, pos) == [IndexEntry(e.key, pos)] + Scan(file, next)
  {
    AtParts(file, pos, Header(e), e.value);
    ScanStep(file, pos, e);
  }

  lemma ScanLogRecord(log: Log, tail: Str, i: nat)
    requires AllFit(log) && i < |log|
    ensures Scan(Serialize(log) + tail, Offset(log, i)) ==
            [IndexEntry(log[i].key, Offset(log, i))] + Scan(Serialize(log) + tail, Offset(log, i + 1))
  {
    var file, from, to := Serialize(log) + tail, Offset(log, i), Offset(log, i + 1);
    assert to == from + |Record(log[i])| by { NextOffset(log, i); }
    RecordAt(log, tail, i);
    ScanRecord(file, from, to, log[i]);
  }

  lemma Glue(pairs: seq<IndexEntry>, i: nat, rest: seq<IndexEntry>)
    requires i < |pairs|
    ensures [pairs[i]] + (pairs[i + 1..] + rest) == pairs[i..] + rest
  {
  }

  /** Recovery walks over the records that a file starts with, one pair each, at the
      offsets the flush gave them, and then meets whatever follows. */
  lemma {:induction false} ScanWalksRecords(log: Log, tail: Str, i: nat)
    requires AllFit(log) && i <= |log|
    ensures Scan(Serialize(log) + tail, Offset(log, i)) ==
            Offsets(log)[i..] + Scan(Serialize(log) + tail, |Serialize(log)|)
    decreases |log| - i
  {
    if i < |log| {
      ScanLogRecord(log, tail, i);
      ScanWalksRecords(log, tail, i + 1);
      Glue(Offsets(log), i, Scan(Serialize(log) + tail, |Serialize(log)|));
    } else {
      SerializePrefix(log, i);
    }
  }

  lemma ScanWholeLog(log: Log, tail: Str)
    requires AllFit(log)
    ensures Scan(Serialize(log) + tail, 0) == Offsets(log) + Scan(Serialize(log) + tail, |Serialize(log)|)
  {
    ScanWalksRecords(log, tail, 0);
    assert log[..0] == [];
    assert Offsets(log)[0..] == Offsets(log);
  }

  // ---- Pre-allocated zeros ----

  /** The pairs that recovery makes of `n` zero bytes: an empty key for every eight. */
  function EmptyPairs(from: nat, n: nat): (pairs: seq<IndexEntry>)
    decreases n
    ensures |pairs| == n / 8
    ensures forall i | 0 <= i < n / 8 :: pairs[i] == IndexEntry([], from + 8 * i)
  {
    if n < 8 then [] else [IndexEntry([], from)] + EmptyPairs(from + 8, n - 8)
  }

  lemma ScanEightZeros(file: Str, pos: nat)
    requires pos + 8 <= |file| && forall i | pos <= i < pos + 8 :: file[i] == 0 as char
    ensures Scan(file, pos) == [IndexEntry([], pos)] + Scan(file, pos + 8)
  {
    assert GetU32(file, pos) == 0;
    assert GetU32(file, pos + 4) == 0;
    assert file[pos + 4..pos + 4] == [];
  }

  lemma ScanFewZeros(file: Str, pos: nat)
    requires pos <= |file| < pos + 8 && forall i | pos <= i < |file| :: file[i] == 0 as char
    ensures Scan(file, pos) == []
  {
    if pos + 4 <= |file| {
      assert GetU32(file, pos) == 0;
    }
  }

  /** Every eight zero bytes parse as one record with an empty key; up to seven left over
      end the scan. */
  lemma {:induction false} ScanZeros(file: Str, pos: nat)
    requires pos <= |file|
    requires forall i | pos <= i < |file| :: file[i] == 0 as char
    ensures Scan(file, pos) == EmptyPairs(pos, |file| - pos)
    decreases |file| - pos
  {
    if pos + 8 <= |file| {
      ScanEightZeros(file, pos);
      ScanZeros(file, pos + 8);
    } else {
      ScanFewZeros(file, pos);
    }
  }

  /** A flushed file re-read: the same pairs at the same offsets, then one empty-key pair
      for every eight zero bytes behind them. */
  lemma ScanFlushed(log: Log, n: nat)
    requires AllFit(log)
    ensures Scan(Serialize(log) + Zeros(n), 0) == Offsets(log) + EmptyPairs(|Serialize(log)|, n)
  {
    ScanWholeLog(log, Zeros(n));
    ScanZeros(Serialize(log) + Zeros(n), |Serialize(log)|);
  }

  lemma ReadZeros(file: Str, pos: nat)
    requires pos + 8 <= |file| && forall i | pos <= i < pos + 8 :: file[i] == 0 as char
    ensures ReadAt(file, pos, []) == Some([])
  {
    assert GetU32(file, pos) == 0;
    assert GetU32(file, pos + 4) == 0;
    assert file[pos + 4..pos + 4] == [] && file[pos + 8..pos + 8] == [];
  }

  /** With eight zeros or more, the empty key is sent to the last eight of them. */
  lemma EmptyKeyReadsZeros(log: Log, n: nat)
    requires AllFit(log) && n >= 8
    ensures TableGet(Recovered(Serialize(log) + Zeros(n)), []) == Some([])
  {
    var file, from := Serialize(log) + Zeros(n), |Serialize(log)|;
    var zeros := EmptyPairs(from, n);
    var pairs := Offsets(log) + zeros;
    var last := pairs[|pairs| - 1];
    ScanFlushed(log, n);
    assert last == IndexEntry([], from + 8 * (n / 8 - 1));
    assert from + 8 * (n / 8) <= |file|;
    forall f | f in pairs
      ensures f.offset <= last.offset
    {
      if f in Offsets(log) {
        var j :| 0 <= j < |log| && Offsets(log)[j] == f;
        SerializePrefix(log, j);
      }
    }
    TableGetFollowsNewest(file, pairs, []);
    ReadZeros(file, last.offset);
    assert Newest(pairs, IndexEntry([], last.offset));
  }

  /** Recovery of a flushed file, with any number of zero bytes behind the records, reads
      every key as the log does, except that eight zeros or more make the empty key read
      as the empty string. */
  lemma RecoveredReadsLog(log: Log, n: nat, key: Str)
    requires AllFit(log)
    ensures TableGet(Recovered(Serialize(log) + Zeros(n)), key) ==
            if key == [] && n >= 8 then Some([]) else Last(log, key)
  {
    if key == [] && n >= 8 {
      EmptyKeyReadsZeros(log, n);
    } else {
      ScanFlushed(log, n);
      PairsReadLog(log, Zeros(n), EmptyPairs(|Serialize(log)|, n), key);
    }
  }

  /** On non-empty keys the rebuilt index is the index of the flush, entry for entry. */
  lemma RecoveredIndexAgrees(log: Log, n: nat, e: IndexEntry)
    requires AllFit(log) && e.key != []
    ensures e in Recovered(Serialize(log) + Zeros(n)).index <==> e in Flushed(log, Zeros(n)).index
  {
    ScanFlushed(log, n);
    IndexHoldsNewest(Offsets(log) + EmptyPairs(|Serialize(log)|, n));
    IndexHoldsNewest(Offsets(log));
  }

  // ---- Truncated files ----

  /** How many whole records fit into the first `t` bytes. */
  function Whole(log: Log, t: nat): (m: nat)
    requires AllFit(log)
    ensures m <= |log| && Offset(log, m) <= t
    ensures m < |log| ==> t < Offset(log, m + 1)
  {
    if Offset(log, |log|) <= t then |log|
    else
      assert log != [] by { assert log[..0] == []; }
      var init := log[..|log| - 1];
      var m := Whole(init, t);
      assert forall i | 0 <= i <= |init| :: init[..i] == log[..i];
      m
  }

  /** The cut leaves a record whose key and lengths are complete but whose value is not. */
  predicate Torn(log: Log, t: nat)
    requires AllFit(log)
  {
    var m := Whole(log, t);
    m < |log| && Offset(log, m) + |Header(log[m])| <= t
  }

  lemma CutSlice(s: Str, from: nat, to: nat, t: nat)
    requires from <= t <= to <= |s|
    ensures s[..t] == s[..from] + s[from..to][..t - from]
  {
  }

  /** A file cut inside a record is the whole records before it and a piece of it. */
  lemma CutFile(log: Log, t: nat)
    requires AllFit(log) && t <= |Serialize(log)|
    ensures var m := Whole(log, t);
            if m == |log| then Serialize(log)[..t] == Serialize(log)
            else t - Offset(log, m) < |Record(log[m])|
                 && Serialize(log)[..t] == Serialize(log[..m]) + Record(log[m])[..t - Offset(log, m)]
  {
    var m := Whole(log, t);
    SerializePrefix(log, m);
    if m < |log| {
      NextOffset(log, m);
      CutSlice(Serialize(log), Offset(log, m), Offset(log, m + 1), t);
    }
  }

  /** A piece that ends before the header does yields no pair. */
  lemma ScanShortPiece(s: Str, e: Entry, c: nat)
    requires Fits(e) && c < |Header(e)|
    ensures Scan(s + Record(e)[..c], |s|) == []
  {
    var piece := Record(e)[..c];
    if c >= 4 {
      assert piece == U32(|e.key|) + piece[4..];
      AtEnd(s, U32(|e.key|), piece[4..]);
      U32RoundTrip(|e.key|, s + piece, |s|);
      ScanNoHeader(s + piece, |s|);
    }
  }

  lemma ScanNoHeader(file: Str, pos: nat)
    requires pos + 4 <= |file| < pos + 8 + GetU32(file, pos)
    ensures Scan(file, pos) == []
  {
  }

  lemma TornHeader(file: Str, pos: nat, e: Entry)
    requires Fits(e) && At(file, pos, Header(e)) && |file| < pos + |Record(e)|
    ensures Scan(file, pos) == [IndexEntry(e.key, pos)]
    ensures ReadAt(file, pos, e.key) == None
  {
    TornValue(file, pos, e);
    ScanStep(file, pos, e);
  }

  lemma TornValue(file: Str, pos: nat, e: Entry)
    requires Fits(e) && At(file, pos, Header(e)) && |file| < pos + |Record(e)|
    ensures ReadAt(file, pos, e.key) == None
  {
    HeaderFields(file, pos, e);
  }

  /** A header followed by less than the value yields a pair that cannot be read. */
  lemma ScanTornPiece(s: Str, e: Entry, rest: Str)
    requires Fits(e) && |rest| < |e.value|
    ensures Scan(s + (Header(e) + rest), |s|) == [IndexEntry(e.key, |s|)]
    ensures ReadAt(s + (Header(e) + rest), |s|, e.key) == None
  {
    AtEnd(s, Header(e), rest);
    TornHeader(s + (Header(e) + rest), |s|, e);
  }

  lemma RecordPiece(e: Entry, c: nat)
    requires Fits(e) && |Header(e)| <= c < |Record(e)|
    ensures Record(e)[..c] == Header(e) + e.value[..c - |Header(e)|]
  {
  }

  /** Recovery of a file cut at any byte indexes the whole records and, when its key and
      lengths survived, the torn one. */
  lemma ScanTruncated(log: Log, t: nat)
    requires AllFit(log) && t <= |Serialize(log)|
    ensures var m := Whole(log, t);
            Scan(Serialize(log)[..t], 0) ==
            Offsets(log[..m]) + (if Torn(log, t) then [IndexEntry(log[m].key, Offset(log, m))] else [])
  {
    var m, file := Whole(log, t), Serialize(log)[..t];
    CutFile(log, t);
    if m == |log| {
      assert log[..m] == log;
      assert file == Serialize(log) + [];
      ScanWholeLog(log, []);
    } else {
      var whole, c := log[..m], t - Offset(log, m);
      assert file == Serialize(whole) + Record(log[m])[..c];
      ScanWholeLog(whole, Record(log[m])[..c]);
      if Torn(log, t) {
        RecordPiece(log[m], c);
        ScanTornPiece(Serialize(whole), log[m], log[m].value[..c - |Header(log[m])|]);
      } else {
        ScanShortPiece(Serialize(whole), log[m], c);
      }
    }
  }

  /** A torn record hides its key: the pair leads to a value that cannot be read. */
  lemma TornKeyReadsNothing(whole: Log, e: Entry, rest: Str)
    requires AllFit(whole) && Fits(e) && |rest| < |e.value|
    ensures TableGet(Table(Serialize(whole) + (Header(e) + rest),
                           BuildIndex(Offsets(whole) + [IndexEntry(e.key, |Serialize(whole)|)])), e.key) == None
  {
    var torn := IndexEntry(e.key, |Serialize(whole)|);
    var pairs := Offsets(whole) + [torn];
    assert pairs[|whole|] == torn;
    forall f | f in pairs
      ensures f.offset <= torn.offset
    {
      if f in Offsets(whole) {
        var j :| 0 <= j < |whole| && Offsets(whole)[j] == f;
        SerializePrefix(whole, j);
      }
    }
    ScanTornPiece(Serialize(whole), e, rest);
    TableGetFollowsNewest(Serialize(whole) + (Header(e) + rest), pairs, e.key);
  }

  /** Point reads after a cut at any byte: every key other than the torn record's reads as
      its last whole record. The torn key reads as nothing in this table, although an
      earlier whole record of it may be there, and so falls through to older tables. */
  lemma TruncatedReads(log: Log, t: nat, key: Str)
    requires AllFit(log) && t <= |Serialize(log)|
    ensures var m := Whole(log, t);
            TableGet(Recovered(Serialize(log)[..t]), key) ==
            if Torn(log, t) && key == log[m].key then None else Last(log[..m], key)
  {
    var m := Whole(log, t);
    CutFile(log, t);
    if m == |log| {
      assert log[..m] == log;
      assert Serialize(log)[..t] == Serialize(log) + Zeros(0);
      RecoveredReadsLog(log, 0, key);
    } else {
      ScanTruncated(log, t);
      var c := t - Offset(log, m);
      if Torn(log, t) {
        RecordPiece(log[m], c);
      }
      PieceReads(log[..m], log[m], c, Torn(log, t), Serialize(log)[..t], key);
    }
  }

  lemma PieceReads(whole: Log, e: Entry, c: nat, torn: bool, file: Str, key: Str)
    requires AllFit(whole) && Fits(e) && c < |Record(e)|
    requires file == Serialize(whole) + Record(e)[..c]
    requires torn ==> |Header(e)| <= c && Record(e)[..c] == Header(e) + e.value[..c - |Header(e)|]
    requires Scan(file, 0) == Offsets(whole) + (if torn then [IndexEntry(e.key, |Serialize(whole)|)] else [])
    ensures TableGet(Recovered(file), key) == if torn && key == e.key then None else Last(whole, key)
  {
    if torn && key == e.key {
      TornKeyReadsNothing(whole, e, e.value[..c - |Header(e)|]);
    } else {
      PairsReadLog(whole, Record(e)[..c], if torn then [IndexEntry(e.key, |Serialize(whole)|)] else [], key);
    }
  }
}
