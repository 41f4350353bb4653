/** A pre-allocated table file that was cut off while it was being written: whole records, a
    piece of the next one, and then the zero bytes that were there before. */
module PaddedCuts {
  import opened Wrappers
  import opened Bytes
  import opened Log
  import opened Index
  import opened SSTable
  import opened Recovery

  /** What recovery and reads make of the bytes behind the whole records: no pair, or a pair
      with some key, at which a value can be read or cannot. */
  datatype Remnant = Nothing | Remnant(key: Str, value: Option<Str>)

  function RemnantOf(piece: Str): Remnant {
    if HeaderCut(piece, 0) then Nothing
    else
      var key := piece[4..4 + GetU32(piece, 0)];
      Remnant(key, ReadAt(piece, 0, key))
  }

  function RemnantEnd(piece: Str): nat
    requires !HeaderCut(piece, 0)
  {
    var keyEnd := 4 + GetU32(piece, 0);
    keyEnd + 4 + GetU32(piece, keyEnd)
  }

  /** The first `c` bytes of a record, then `n` zeros. */
  function Piece(e: Entry, c: nat, n: nat): (p: Str)
    requires Fits(e) && c < |Record(e)|
    ensures |p| == c + n
  {
    Record(e)[..c] + Zeros(n)
  }

  lemma NumberBehind(s: Str, piece: Str, i: nat)
    requires i + 4 <= |piece|
    ensures GetU32(s + piece, |s| + i) == GetU32(piece, i)
  {
  }

  lemma HeaderBehind(s: Str, piece: Str)
    ensures HeaderCut(s + piece, |s|) <==> HeaderCut(piece, 0)
    ensures !HeaderCut(piece, 0) ==>
              var keyEnd := 4 + GetU32(piece, 0);
              && GetU32(s + piece, |s|) == GetU32(piece, 0)
              && GetU32(s + piece, |s| + keyEnd) == GetU32(piece, keyEnd)
  {
    if 4 <= |piece| {
      NumberBehind(s, piece, 0);
      var keyEnd := 4 + GetU32(piece, 0);
      if keyEnd + 4 <= |piece| {
        NumberBehind(s, piece, keyEnd);
      }
    }
  }

  lemma SliceBehind(s: Str, piece: Str, i: nat, j: nat)
    requires i <= j <= |piece|
    ensures (s + piece)[|s| + i..|s| + j] == piece[i..j]
  {
  }

  lemma ScanOnce(file: Str, pos: nat, keyEnd: nat, next: nat)
    requires !HeaderCut(file, pos) && keyEnd == pos + 4 + GetU32(file, pos)
    requires next == keyEnd + 4 + GetU32(file, keyEnd)
    ensures Scan(file, pos) == [IndexEntry(file[pos + 4..keyEnd], pos)] + Scan(file, next)
  {
  }

  lemma ScanCut(file: Str, pos: nat)
    requires HeaderCut(file, pos)
    ensures Scan(file, pos) == []
  {
  }

  /** Behind other records the piece is scanned as it would be alone. */
  lemma ScanBehind(file: Str, s: Str, piece: Str, next: nat)
    requires file == s + piece && !HeaderCut(piece, 0) && next == |s| + RemnantEnd(piece)
    ensures Scan(file, |s|) == [IndexEntry(RemnantOf(piece).key, |s|)] + Scan(file, next)
  {
    var keyEnd := 4 + GetU32(piece, 0);
    HeaderBehind(s, piece);
    SliceBehind(s, piece, 4, keyEnd);
    ScanOnce(file, |s|, |s| + keyEnd, next);
  }

  /** And read. */
  lemma ReadBehind(s: Str, piece: Str, key: Str)
    requires !HeaderCut(piece, 0)
    ensures ReadAt(s + piece, |s|, key) == ReadAt(piece, 0, key)
  {
    HeaderBehind(s, piece);
    var keyEnd, end := 4 + GetU32(piece, 0), RemnantEnd(piece);
    SliceBehind(s, piece, 4, keyEnd);
    if end <= |piece| {
      SliceBehind(s, piece, keyEnd + 4, end);
    }
  }

  /** The key length of a piece: whole when its four bytes are there. */
  lemma PieceKeyLength(e: Entry, c: nat, n: nat)
    requires Fits(e) && 4 <= c < |Record(e)|
    ensures GetU32(Piece(e, c, n), 0) == |e.key|
  {
    var p := Piece(e, c, n);
    assert forall i | 0 <= i < 4 :: p[i] == U32(|e.key|)[i];
    U32RoundTrip(|e.key|, p, 0);
  }

  lemma PieceHeader(e: Entry, c: nat, n: nat)
    requires Fits(e) && |Header(e)| <= c < |Record(e)|
    ensures At(Piece(e, c, n), 0, Header(e))
    ensures Piece(e, c, n)[|Header(e)|..] == e.value[..c - |Header(e)|] + Zeros(n)
  {
    var p, h := Piece(e, c, n), |Header(e)|;
    assert Record(e) == Header(e) + e.value;
    assert forall i | 0 <= i < h :: p[i] == Header(e)[i];
    assert Record(e)[..c][h..] == e.value[..c - h];
  }

  /** Nothing that was written lies behind the remnant. */
  lemma RemnantCoversPiece(e: Entry, c: nat, n: nat)
    requires Fits(e) && c < |Record(e)| && !HeaderCut(Piece(e, c, n), 0)
    ensures RemnantEnd(Piece(e, c, n)) >= c
  {
    var p := Piece(e, c, n);
    if 4 <= c {
      PieceKeyLength(e, c, n);
      if |Header(e)| <= c {
        PieceHeader(e, c, n);
        HeaderFields(p, 0, e);
      }
    }
  }

  lemma OnlyEmptyKeys(file: Str, pos: nat)
    requires forall i | pos <= i < |file| :: file[i] == 0 as char
    ensures forall e | e in Scan(file, pos) :: e.key == []
  {
    if pos <= |file| {
      ScanZeros(file, pos);
    }
  }

  /** The pairs of the whole records, the remnant's pair, and pairs of the empty key. */
  lemma PaddedPairsRead(whole: Log, piece: Str, extra: seq<IndexEntry>, key: Str)
    requires AllFit(whole) && key != [] && forall e | e in extra :: e.key == []
    requires !HeaderCut(piece, 0)
    ensures var r := RemnantOf(piece);
            var pairs := Offsets(whole) + ([IndexEntry(r.key, |Serialize(whole)|)] + extra);
            TableGet(Table(Serialize(whole) + piece, BuildIndex(pairs)), key) ==
            if key == r.key then r.value else Last(whole, key)
  {
    var r, s := RemnantOf(piece), Serialize(whole);
    var more := [IndexEntry(r.key, |s|)] + extra;
    var pairs := Offsets(whole) + more;
    if key == r.key {
      var torn := IndexEntry(r.key, |s|);
      assert pairs[|whole|] == torn;
      forall f | f in pairs && f.key == key
        ensures f.offset <= torn.offset
      {
        if f in Offsets(whole) {
          var j :| 0 <= j < |whole| && Offsets(whole)[j] == f;
          SerializePrefix(whole, j);
        }
      }
      TableGetFollowsNewest(s + piece, pairs, key);
      ReadBehind(s, piece, key);
    } else {
      PairsReadLog(whole, piece, more, key);
    }
  }

  lemma PaddedPieceReads(whole: Log, e: Entry, c: nat, n: nat, key: Str)
    requires AllFit(whole) && Fits(e) && c < |Record(e)| && key != []
    ensures var r := RemnantOf(Piece(e, c, n));
            TableGet(Recovered(Serialize(whole) + Piece(e, c, n)), key) ==
            if r.Remnant? && key == r.key then r.value else Last(whole, key)
  {
    var s, p := Serialize(whole), Piece(e, c, n);
    var file := s + p;
    ScanWholeLog(whole, p);
    HeaderBehind(s, p);
    if HeaderCut(p, 0) {
      ScanCut(file, |s|);
      PairsReadLog(whole, p, [], key);
    } else {
      RemnantCoversPiece(e, c, n);
      var end := |s| + RemnantEnd(p);
      ScanBehind(file, s, p, end);
      OnlyEmptyKeys(file, end);
      PaddedPairsRead(whole, p, Scan(file, end), key);
    }
  }

  /** The remnant that a cut at byte `t` leaves of a log's file with `n` zeros behind. */
  function RemnantAt(log: Log, t: nat, n: nat): Remnant
    requires AllFit(log) && t <= |Serialize(log)|
  {
    var m := Whole(log, t);
    if m == |log| then Nothing
    else
      CutFile(log, t);
      RemnantOf(Piece(log[m], t - Offset(log, m), n))
  }

  /** A file cut at any byte, with any number of zeros behind the cut: a non-empty key reads
      as its last whole record, unless it is the key that the remnant seems to have; then it
      reads what the remnant seems to hold. */
  lemma PaddedCutReads(log: Log, t: nat, n: nat, key: Str)
    requires AllFit(log) && t <= |Serialize(log)| && key != []
    ensures var r := RemnantAt(log, t, n);
            TableGet(Recovered(Serialize(log)[..t] + Zeros(n)), key) ==
            if r.Remnant? && key == r.key then r.value else Last(log[..Whole(log, t)], key)
  {
    var m := Whole(log, t);
    CutFile(log, t);
    if m == |log| {
      assert log[..m] == log;
      RecoveredReadsLog(log, n, key);
    } else {
      var whole, c := log[..m], t - Offset(log, m);
      assert Serialize(log)[..t] + Zeros(n) == Serialize(whole) + Piece(log[m], c, n);
      PaddedPieceReads(whole, log[m], c, n, key);
    }
  }

  // ---- What a remnant looks like ----

  /** Once the lengths and the key are complete, the remnant has the torn record's key, and
      its value is readable exactly when enough zeros follow; they then stand in for the
      bytes that were not written. */
  lemma TornValueIsPadded(e: Entry, c: nat, n: nat)
    requires Fits(e) && |Header(e)| <= c < |Record(e)|
    ensures var missing := |Record(e)| - c;
            RemnantOf(Piece(e, c, n)) ==
            Remnant(e.key, if n >= missing then Some(e.value[..c - |Header(e)|] + Zeros(missing)) else None)
  {
    var p, h := Piece(e, c, n), |Header(e)|;
    PieceHeader(e, c, n);
    HeaderFields(p, 0, e);
    var missing := |Record(e)| - c;
    if n >= missing {
      assert p[h..|Record(e)|] == p[h..][..|e.value|];
      assert (e.value[..c - h] + Zeros(n))[..|e.value|] == e.value[..c - h] + Zeros(missing);
    }
  }

  /** It is the value that was to be written exactly when the missing bytes are zeros too. */
  lemma PaddedValueIsRight(e: Entry, c: nat, n: nat)
    requires Fits(e) && |Header(e)| <= c < |Record(e)|
    ensures RemnantOf(Piece(e, c, n)) == Remnant(e.key, Some(e.value)) <==>
            n >= |Record(e)| - c && e.value[c - |Header(e)|..] == Zeros(|Record(e)| - c)
  {
    TornValueIsPadded(e, c, n);
    var k, missing := c - |Header(e)|, |Record(e)| - c;
    assert e.value == e.value[..k] + e.value[k..];
    assert (e.value[..k] + Zeros(missing))[k..] == Zeros(missing);
  }

  /** Before that, the remnant's key is what was written of the key and then zeros, or zeros
      alone when not even the key's length is whole; and its value is zeros. */
  lemma TornKeyIsPadded(e: Entry, c: nat, n: nat)
    requires Fits(e) && c < |Header(e)| && RemnantOf(Piece(e, c, n)).Remnant?
    ensures var r := RemnantOf(Piece(e, c, n));
            var k := if c < 4 + |e.key| then c - 4 else |e.key|;
            && r.key == (if c < 4 then Zeros(|r.key|) else e.key[..k] + Zeros(|e.key| - k))
            && (r.value.Some? ==> r.value.value == Zeros(|r.value.value|))
  {
    var p := Piece(e, c, n);
    assert forall i | c <= i < |p| :: p[i] == 0 as char;
    assert forall i | 0 <= i < c :: p[i] == Record(e)[i];
    if 4 <= c {
      PieceKeyLength(e, c, n);
      assert forall i | 0 <= i < |e.key| :: Record(e)[4 + i] == e.key[i];
    }
  }

  lemma SerializeOne(e: Entry)
    requires Fits(e)
    ensures Serialize([e]) == Record(e)
  {
    assert [e][..0] == [];
    assert [] + Record(e) == Record(e);
  }

  /** Nobody wrote a value that is read here, unless its missing bytes were zeros. */
  lemma ReadsPaddedValue(e: Entry, c: nat, n: nat)
    requires Fits(e) && |Header(e)| <= c < |Record(e)| && e.key != [] && n >= |Record(e)| - c
    ensures TableGet(Recovered(Piece(e, c, n)), e.key) ==
            Some(e.value[..c - |Header(e)|] + Zeros(|Record(e)| - c))
  {
    var none: Log := [];
    assert Serialize(none) + Piece(e, c, n) == Piece(e, c, n);
    PaddedPieceReads(none, e, c, n, e.key);
    TornValueIsPadded(e, c, n);
  }

  /** "vw", cut after its first byte in a file with a zero behind it. */
  lemma ReadsWhatNobodyWrote(n: nat)
    requires n >= 1
    ensures var log: Log := [Entry("k", "vw")];
            && AllFit(log) && |Serialize(log)| == 11
            && TableGet(Recovered(Serialize(log)[..10] + Zeros(n)), "k") == Some("v" + Zeros(1))
  {
    var e := Entry("k", "vw");
    SerializeOne(e);
    ReadsPaddedValue(e, 10, n);
    assert e.value[..1] == "v";
  }
}
