/** The manager of published tables: flushing a memtable into a file, the list of index
    nodes, point and prefix reads through it, and its reconstruction at open. */
module TableManager {
  import opened Wrappers
  import opened Bytes
  import opened Log
  import opened MemtableLog
  import opened Index
  import opened SSTable
  import opened Directory

  class IndexNode {
    const path: Str
    const offsets: seq<IndexEntry>
    var next: IndexNode?

    constructor (path: Str, offsets: seq<IndexEntry>)
      ensures this.path == path && this.offsets == offsets && next == null
    {
      this.path, this.offsets, this.next := path, offsets, null;
    }
  }

  /** The tables of a list of nodes that starts at the newest, oldest table first. */
  ghost function TableList(files: map<Str, Str>, nodes: seq<IndexNode>): (tables: seq<Table>)
    requires forall n | n in nodes :: n.path in files
    ensures |tables| == |nodes|
  {
    if nodes == [] then []
    else TableList(files, nodes[1..]) + [Table(files[nodes[0].path], nodes[0].offsets)]
  }

  /** The files of a list of nodes, newest first. */
  ghost function PathsOf(nodes: seq<IndexNode>): seq<Str> {
    if nodes == [] then [] else [nodes[0].path] + PathsOf(nodes[1..])
  }

  lemma {:induction false} NodePath(nodes: seq<IndexNode>, n: IndexNode)
    requires n in nodes
    ensures n.path in PathsOf(nodes)
  {
    if n != nodes[0] {
      NodePath(nodes[1..], n);
    }
  }

  function NamesNewestFirst(files: seq<FoundFile>): (names: seq<Str>)
    ensures |names| == |files|
    ensures forall i | 0 <= i < |files| :: names[i] == files[|files| - 1 - i].name
  {
    if files == [] then [] else [files[|files| - 1].name] + NamesNewestFirst(files[..|files| - 1])
  }

  /** What a prefix scan of published tables leaves for a key: a decision already made
      stands; otherwise the newest readable table decides. */
  function AfterTables(tables: seq<Table>, prefix: Str, key: Str, before: Option<Str>): Option<Str> {
    if before.Some? || !HasPrefix(key, prefix) then before else TablesGet(tables, key)
  }

  class SSTableManager {
    // The directory of the store: file names and their contents.
    var files: map<Str, Str>
    var head: IndexNode?
    ghost var nodes: seq<IndexNode>  // the list from `head`, newest first

    ghost predicate Valid()
      reads this, nodes
    {
      && (forall n | n in nodes :: n.path in files && StrictKeys(n.offsets))
      && head == NodeAt(0)
      && (forall i: nat | i < |nodes| :: nodes[i].next == NodeAt(i + 1))
    }

    ghost function NodeAt(i: nat): IndexNode?
      reads this
    {
      if i < |nodes| then nodes[i] else null
    }

    /** The published tables, oldest first. */
    ghost function Tables(): (tables: seq<Table>)
      requires Valid()
      reads this, nodes
      ensures |tables| == |nodes|
    {
      TableList(files, nodes)
    }

    constructor (files: map<Str, Str>)
      ensures Valid() && this.files == files && nodes == []
    {
      this.files, this.head, this.nodes := files, null, [];
    }

    /** Opens the file, seeks and reads field by field. */
    method ReadValueAt(path: Str, offset: nat, key: Str) returns (value: Option<Str>)
      ensures value == if path in files then ReadAt(files[path], offset, key) else None
    {
      if path !in files {
        return None;
      }
      var file, pos := files[path], offset;
      if pos + 4 > |file| {
        return None;
      }
      var keyLength := GetU32(file, pos);
      pos := pos + 4;
      if pos + keyLength > |file| {
        return None;
      }
      var keyFromFile := file[pos..pos + keyLength];
      pos := pos + keyLength;
      if keyFromFile != key {
        return None;
      }
      if pos + 4 > |file| {
        return None;
      }
      var valueLength := GetU32(file, pos);
      pos := pos + 4;
      if pos + valueLength > |file| {
        return None;
      }
      return Some(file[pos..pos + valueLength]);
    }

    /** Walks the list from the newest table and stops at the first readable value. */
    method Get(key: Str) returns (value: Option<Str>)
      requires Valid()
      ensures value == TablesGet(Tables(), key)
    {
      var curr := head;
      ghost var i := 0;
      ghost var rest := nodes;
      while curr != null
        invariant i <= |nodes| && curr == NodeAt(i) && rest == nodes[i..]
        invariant TablesGet(Tables(), key) == TablesGet(TableList(files, rest), key)
        decreases |nodes| - i
      {
        assert curr == rest[0] && curr in nodes;
        var b := BinarySearch(curr.offsets, key);
        if b < |curr.offsets| && curr.offsets[b].key == key {
          value := ReadValueAt(curr.path, curr.offsets[b].offset, key);
          if value.Some? {
            return;
          }
        }
        NewestTable(files, rest, key);
        curr := curr.next;
        i, rest := i + 1, rest[1..];
      }
      return None;
    }

    /** Fills in, from one table, the keys with the prefix that nothing newer has decided. */
    method ScanNode(node: IndexNode, prefix: Str, acc: ScanState) returns (foundAny: bool)
      requires node.path in files && StrictKeys(node.offsets) && acc.Valid()
      modifies acc
      ensures acc.Valid()
      ensures forall k :: acc.Seen(k) ==
                          if old(acc.Seen(k)).Some? || !HasPrefix(k, prefix) then old(acc.Seen(k))
                          else TableGet(Table(files[node.path], node.offsets), k)
      ensures foundAny <==> acc.results.Keys != old(acc.results.Keys)
      ensures old(acc.results.Keys) <= acc.results.Keys
    {
      var offsets := node.offsets;
      ghost var t := Table(files[node.path], offsets);
      var i := BinarySearch(offsets, prefix);
      foundAny := false;
      while i < |offsets| && HasPrefix(offsets[i].key, prefix)
        invariant LowerBound(offsets, prefix) <= i <= |offsets| && acc.Valid()
        invariant forall k :: acc.Seen(k) ==
                              if old(acc.Seen(k)).Some? || !Covered(offsets, prefix, i, k) then old(acc.Seen(k))
                              else TableGet(t, k)
        invariant foundAny <==> acc.results.Keys != old(acc.results.Keys)
        invariant old(acc.results.Keys) <= acc.results.Keys
        invariant forall j | LowerBound(offsets, prefix) <= j < i :: HasPrefix(offsets[j].key, prefix)
      {
        var key, offset := offsets[i].key, offsets[i].offset;
        CoveredNext(offsets, prefix, i);
        if key !in acc.results && key !in acc.deleted {
          var value := ReadValueAt(node.path, offset, key);
          if value.Some? {
            var added := acc.Fill(key, value.value);
            foundAny := foundAny || added;
          }
        }
        i := i + 1;
      }
      forall k
        ensures HasPrefix(k, prefix) && !Covered(offsets, prefix, i, k) ==> TableGet(t, k) == None
        ensures Covered(offsets, prefix, i, k) ==> HasPrefix(k, prefix)
      {
        OutsideRun(offsets, prefix, i, k);
      }
    }

    /** Newest table first, filling in what is still undecided. */
    method Scan(prefix: Str, acc: ScanState) returns (foundAny: bool)
      requires Valid() && acc.Valid()
      modifies acc
      ensures acc.Valid()
      ensures forall k :: acc.Seen(k) == AfterTables(Tables(), prefix, k, old(acc.Seen(k)))
      ensures foundAny <==> acc.results.Keys != old(acc.results.Keys)
    {
      var curr := head;
      ghost var i := 0;
      ghost var rest := nodes;
      foundAny := false;
      while curr != null
        invariant i <= |nodes| && curr == NodeAt(i) && rest == nodes[i..] && acc.Valid()
        invariant forall k :: AfterTables(TableList(files, rest), prefix, k, acc.Seen(k)) ==
                              AfterTables(Tables(), prefix, k, old(acc.Seen(k)))
        invariant foundAny <==> acc.results.Keys != old(acc.results.Keys)
        invariant old(acc.results.Keys) <= acc.results.Keys
        decreases |nodes| - i
      {
        assert curr == rest[0] && curr in nodes;
        forall k
          ensures TablesGet(TableList(files, rest), k) ==
                  var found := TableGet(Table(files[curr.path], curr.offsets), k);
                  if found.Some? then found else TablesGet(TableList(files, rest[1..]), k)
        {
          NewestTable(files, rest, k);
        }
        var added := ScanNode(curr, prefix, acc);
        foundAny := foundAny || added;
        curr := curr.next;
        i, rest := i + 1, rest[1..];
      }
    }

    /** Writes the records one after the other from the start of the file and collects
        where each begins. */
    method WriteRecords(data: Log, path: Str) returns (pairs: seq<IndexEntry>)
      requires AllFit(data) && path in files
      modifies this`files
      ensures pairs == Offsets(data)
      ensures files == old(files)[path := Serialize(data) + Behind(old(files[path]), |Serialize(data)|)]
    {
      var i, pos := 0, 0;
      ghost var before := files[path];
      pairs := [];
      assert [] + Behind(before, 0) == before && files[path := before] == files;
      while i < |data|
        invariant 0 <= i <= |data| && pos == Offset(data, i) && pairs == Offsets(data)[..i]
        invariant files == old(files)[path := Serialize(data[..i]) + Behind(before, pos)]
      {
        var key, value := data[i].key, data[i].value;
        pairs := pairs + [IndexEntry(key, pos)];
        var buffer := U32(|key|);
        buffer := buffer + key;
        buffer := buffer + U32(|value|);
        buffer := buffer + value;
        assert buffer == Record(data[i]);
        WriteAtEnd(Serialize(data[..i]), before, buffer);
        files := files[path := Overwrite(files[path], pos, buffer)];
        NextOffset(data, i);
        assert data[..i + 1][..i] == data[..i];
        pos, i := pos + |buffer|, i + 1;
      }
      assert data[..i] == data;
    }

    /** The new node points at the head it found and becomes the head, once the weak swap has
        stopped failing. A failure stores the head it saw. Other publishers do not interfere
        here; module Publication covers their interleavings. */
    method Prepend(path: Str, offsets: seq<IndexEntry>)
      requires Valid() && path in files && StrictKeys(offsets)
      modifies this`head, this`nodes
      ensures Valid()
      ensures Tables() == old(Tables()) + [Table(files[path], offsets)]
      ensures |nodes| == |old(nodes)| + 1 && nodes[1..] == old(nodes) && nodes[0].path == path && fresh(nodes[0])
    {
      var node := new IndexNode(path, offsets);
      node.next := head;
      var failures: nat := *;
      while failures > 0 || node.next != head
        invariant node.next == head
        modifies node
        decreases failures
      {
        node.next := head;
        failures := failures - 1;
      }
      head := node;
      nodes := [node] + nodes;
      assert nodes[1..] == old(nodes);
    }

    /** What the pool's worker does to the directory: a new file, with some zero bytes when
        it pre-allocates. */
    method CreateFile(path: Str, preAllocated: nat)
      requires Valid() && path !in PathsOf(nodes)
      modifies this`files
      ensures Valid() && Tables() == old(Tables())
      ensures files == old(files)[path := Zeros(preAllocated)]
    {
      forall n | n in nodes
        ensures n.path in PathsOf(nodes)
      {
        NodePath(nodes, n);
      }
      files := files[path := Zeros(preAllocated)];
      FilesElsewhere(old(files), files, nodes, path);
    }

    /** Writes, sorts, keeps the newest offset of each key and publishes. The file must have
        come from the pool, so that no published table uses it. */
    method FlushMemtable(memtable: Memtable, path: Str)
      requires Valid() && memtable.Valid() && AllFit(memtable.data)
      requires path in files && forall n | n in nodes :: n.path != path
      modifies this
      ensures Valid()
      ensures memtable.data == [] ==> files == old(files) && nodes == old(nodes) && Tables() == old(Tables())
      ensures memtable.data != [] ==>
                var tail := Behind(old(files[path]), |Serialize(memtable.data)|);
                && files == old(files)[path := Serialize(memtable.data) + tail]
                && Tables() == old(Tables()) + [Flushed(memtable.data, tail)]
                && |nodes| == |old(nodes)| + 1 && nodes[1..] == old(nodes) && nodes[0].path == path
    {
      if |memtable.data| == 0 {
        return;
      }
      var pairs := WriteRecords(memtable.data, path);
      FilesElsewhere(old(files), files, nodes, path);
      var offsets := BuildIndex(pairs);
      IndexHoldsNewest(pairs);
      Prepend(path, offsets);
    }

    /** Reads one record up to its value, which is skipped; nothing when the file ends in
        the middle of it. */
    method ReadHeader(file: Str, offset: nat) returns (entry: Option<IndexEntry>, next: nat)
      ensures entry == None <==> HeaderCut(file, offset)
      ensures entry.Some? ==>
                var keyEnd := offset + 4 + GetU32(file, offset);
                entry.value == IndexEntry(file[offset + 4..keyEnd], offset) && next == keyEnd + 4 + GetU32(file, keyEnd)
    {
      var pos := offset;
      if pos + 4 > |file| {
        return None, pos;
      }
      var keyLength := GetU32(file, pos);
      pos := pos + 4;
      if pos + keyLength > |file| {
        return None, pos;
      }
      var key := file[pos..pos + keyLength];
      pos := pos + keyLength;
      if pos + 4 > |file| {
        return None, pos;
      }
      return Some(IndexEntry(key, offset)), pos + 4 + GetU32(file, pos);
    }

    /** The recovery loop over one file. */
    method IndexFile(file: Str) returns (pairs: seq<IndexEntry>)
      ensures pairs == SSTable.Scan(file, 0)
    {
      ghost var all := SSTable.Scan(file, 0);
      var pos := 0;
      pairs := [];
      assert [] + all == all;
      while pos < |file|
        invariant 0 <= pos && ScansTo(file, pos, pairs, all)
        decreases |file| - pos
      {
        var entry, next := ReadHeader(file, pos);
        if entry == None {
          break;
        }
        ScanGoesOn(file, pos, pairs, all);
        pairs := pairs + [entry.value];
        pos := next;
      }
      ScanStops(file, pos, pairs, all);
    }

    /** Keeps the names of table files with their numbers, and the greatest number. */
    method CollectFiles(listing: seq<Str>) returns (found: seq<FoundFile>, maxId: nat)
      ensures found == Found(listing) && maxId == MaxId(found)
    {
      var i := 0;
      found, maxId := [], 0;
      while i < |listing|
        invariant 0 <= i <= |listing| && found == Found(listing[..i]) && maxId == MaxId(found)
      {
        assert listing[..i + 1][..i] == listing[..i];
        match ParseName(listing[i]) {
          case Some(id) =>
            assert (found + [FoundFile(id, listing[i])])[..|found|] == found;
            found := found + [FoundFile(id, listing[i])];
            if id > maxId {
              maxId := id;
            }
          case None =>
        }
        i := i + 1;
      }
      assert listing[..i] == listing;
    }

    /** Collects the table files of the listing, sorts them by number and re-indexes them
        oldest first; returns the number from which the pool will continue. */
    method RecoverState(listing: seq<Str>) returns (startId: nat)
      requires Valid() && nodes == [] && forall name | name in listing :: name in files
      modifies this`head, this`nodes
      ensures Valid()
      ensures forall f | f in OrderedFiles(listing) :: f.name in files
      ensures Tables() == RecoverFiles(OrderedFiles(listing), files)
      ensures PathsOf(nodes) == NamesNewestFirst(OrderedFiles(listing))
      ensures startId == MaxId(Found(listing)) + 1
    {
      var found, maxId := CollectFiles(listing);
      var ordered := SortFiles(found);
      forall f | f in ordered
        ensures f.name in files
      {
        SortFilesHolds(found, f);
        FoundHolds(listing, f);
      }
      IndexFiles(ordered);
      startId := maxId + 1;
    }

    /** Re-indexes one file and prepends its node. */
    method IndexOne(path: Str)
      requires Valid() && path in files
      modifies this`head, this`nodes
      ensures Valid()
      ensures Tables() == old(Tables()) + [Recovered(files[path])]
      ensures |nodes| == |old(nodes)| + 1 && nodes[1..] == old(nodes) && nodes[0].path == path && fresh(nodes[0])
    {
      var pairs := IndexFile(files[path]);
      var offsets := BuildIndex(pairs);
      IndexHoldsNewest(pairs);
      Prepend(path, offsets);
    }

    method IndexFiles(ordered: seq<FoundFile>)
      requires Valid() && nodes == [] && forall f | f in ordered :: f.name in files
      modifies this`head, this`nodes
      ensures Valid() && Tables() == RecoverFiles(ordered, files)
      ensures PathsOf(nodes) == NamesNewestFirst(ordered)
    {
      var i := 0;
      while i < |ordered|
        invariant 0 <= i <= |ordered| && Valid() && fresh(nodes)
        invariant Tables() == RecoverFiles(ordered[..i], files)
        invariant PathsOf(nodes) == NamesNewestFirst(ordered[..i])
      {
        assert ordered[i] in ordered;
        IndexOne(ordered[i].name);
        NextRecovered(ordered, i, files);
        i := i + 1;
      }
      assert ordered[..i] == ordered;
    }
  }

  /** What has been read, and what a scan from here on will add. */
  ghost predicate ScansTo(file: Str, pos: nat, pairs: seq<IndexEntry>, all: seq<IndexEntry>) {
    pairs + SSTable.Scan(file, pos) == all
  }

  lemma ScanStops(file: Str, pos: nat, pairs: seq<IndexEntry>, all: seq<IndexEntry>)
    requires ScansTo(file, pos, pairs, all) && HeaderCut(file, pos)
    ensures pairs == all
  {
  }

  lemma ScanGoesOn(file: Str, pos: nat, pairs: seq<IndexEntry>, all: seq<IndexEntry>)
    requires ScansTo(file, pos, pairs, all) && !HeaderCut(file, pos)
    ensures var keyEnd := pos + 4 + GetU32(file, pos);
            ScansTo(file, keyEnd + 4 + GetU32(file, keyEnd), pairs + [IndexEntry(file[pos + 4..keyEnd], pos)], all)
  {
    var keyEnd := pos + 4 + GetU32(file, pos);
    var entry := [IndexEntry(file[pos + 4..keyEnd], pos)];
    var rest := SSTable.Scan(file, keyEnd + 4 + GetU32(file, keyEnd));
    assert pairs + (entry + rest) == pairs + entry + rest;
  }

  lemma {:induction false} NextRecovered(ordered: seq<FoundFile>, i: nat, files: map<Str, Str>)
    requires i < |ordered| && forall f | f in ordered :: f.name in files
    ensures RecoverFiles(ordered[..i + 1], files) ==
            RecoverFiles(ordered[..i], files) + [Recovered(files[ordered[i].name])]
    ensures NamesNewestFirst(ordered[..i + 1]) == [ordered[i].name] + NamesNewestFirst(ordered[..i])
  {
    assert ordered[..i + 1][..i] == ordered[..i];
    assert ordered[i] in ordered;
  }

  lemma WriteAtEnd(written: Str, before: Str, bytes: Str)
    ensures Overwrite(written + Behind(before, |written|), |written|, bytes) ==
            written + bytes + Behind(before, |written + bytes|)
  {
    var file := written + Behind(before, |written|);
    assert file[..|written|] == written;
  }

  /** Writing a file that no published table uses leaves the published tables alone. */
  lemma {:induction false} FilesElsewhere(a: map<Str, Str>, b: map<Str, Str>, nodes: seq<IndexNode>, path: Str)
    requires forall n | n in nodes :: n.path in a && n.path in b && n.path != path
    requires forall p | p in a && p in b && p != path :: a[p] == b[p]
    ensures TableList(a, nodes) == TableList(b, nodes)
  {
    if nodes == [] {
    } else {
      FilesElsewhere(a, b, nodes[1..], path);
    }
  }

  lemma NewestTable(files: map<Str, Str>, nodes: seq<IndexNode>, key: Str)
    requires nodes != [] && forall n | n in nodes :: n.path in files
    ensures TablesGet(TableList(files, nodes), key) ==
            var found := TableGet(Table(files[nodes[0].path], nodes[0].offsets), key);
            if found.Some? then found else TablesGet(TableList(files, nodes[1..]), key)
  {
    var older := TableList(files, nodes[1..]);
    assert TableList(files, nodes)[..|older|] == older;
  }

  /** The key has its entry between the lower bound of the prefix and a position. */
  ghost predicate Covered(xs: seq<IndexEntry>, prefix: Str, end: nat, key: Str) {
    var i := LowerBound(xs, key);
    LowerBound(xs, prefix) <= i < end && i < |xs| && xs[i].key == key
  }

  lemma CoveredNext(xs: seq<IndexEntry>, prefix: Str, i: nat)
    requires StrictKeys(xs) && LowerBound(xs, prefix) <= i < |xs|
    ensures LowerBound(xs, xs[i].key) == i
    ensures forall k :: Covered(xs, prefix, i + 1, k) <==> Covered(xs, prefix, i, k) || k == xs[i].key
  {
    LowerBoundFinds(xs, xs[i]);
    LessTotal(xs[i].key, xs[i].key);
  }

  /** Past the run of the prefix, and before it, no key of the index carries the prefix. */
  lemma OutsideRun(xs: seq<IndexEntry>, prefix: Str, end: nat, key: Str)
    requires StrictKeys(xs) && LowerBound(xs, prefix) <= end <= |xs|
    requires forall j | LowerBound(xs, prefix) <= j < end :: HasPrefix(xs[j].key, prefix)
    requires end < |xs| ==> !HasPrefix(xs[end].key, prefix)
    ensures Covered(xs, prefix, end, key) ==> HasPrefix(key, prefix)
    ensures var i := LowerBound(xs, key);
            HasPrefix(key, prefix) && i < |xs| && xs[i].key == key ==> Covered(xs, prefix, end, key)
  {
    var i, b := LowerBound(xs, key), LowerBound(xs, prefix);
    if HasPrefix(key, prefix) && i < |xs| && xs[i].key == key {
      PrefixIsLeast(prefix, key);
      if end < i {
        PrefixRun(xs, prefix, end, i);
      }
    }
  }
}
