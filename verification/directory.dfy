/** Table files by name, and what opening a directory of them rebuilds. */
module Directory {
  import opened Wrappers
  import opened Bytes
  import opened Log
  import opened SSTable
  import opened Recovery
  import opened Machine
  import opened Invariants
  import opened Reads

  const UINT64_LIMIT := 0x1_0000_0000_0000_0000

  // ---- File names ----

  predicate IsDigit(c: Byte) {
    '0' <= c <= '9'
  }

  function Decimal(n: nat): (s: Str)
    ensures s != [] && forall i | 0 <= i < |s| :: IsDigit(s[i])
  {
    var digit := ('0' as int + n % 10) as char;
    if n < 10 then [digit] else Decimal(n / 10) + [digit]
  }

  function DigitValue(c: Byte): (d: nat)
    requires IsDigit(c)
    ensures d < 10
  {
    c as int - '0' as int
  }

  function Value(digits: Str): nat
    requires forall i | 0 <= i < |digits| :: IsDigit(digits[i])
  {
    if digits == [] then 0
    else Value(digits[..|digits| - 1]) * 10 + DigitValue(digits[|digits| - 1])
  }

  /** `std::setw(width) << std::setfill('0')`: padding, never truncation. */
  function Padded(s: Str, width: nat): Str
    decreases width - |s|
  {
    if |s| >= width then s else Padded(['0'] + s, width)
  }

  function NameOf(id: nat): Str {
    "L0-" + Padded(Decimal(id), 6) + ".sst"
  }

  /** The digits that `std::stoull` consumes. */
  function LeadingDigits(s: Str): (d: Str)
    ensures d <= s && forall i | 0 <= i < |d| :: IsDigit(d[i])
  {
    if s == [] || !IsDigit(s[0]) then [] else [s[0]] + LeadingDigits(s[1..])
  }

  /** The number of a table file, or nothing when the name does not have the form or
      `stoull` throws. */
  function ParseName(name: Str): Option<nat> {
    if |name| < 7 || !HasPrefix(name, "L0-") || name[|name| - 4..] != ".sst" then None
    else
      var digits := LeadingDigits(name[3..|name| - 4]);
      if digits == [] || Value(digits) >= UINT64_LIMIT then None else Some(Value(digits))
  }

  lemma {:induction false} ValueOfDecimal(n: nat)
    ensures Value(Decimal(n)) == n
  {
    if n >= 10 {
      ValueOfDecimal(n / 10);
      assert Decimal(n)[..|Decimal(n)| - 1] == Decimal(n / 10);
    }
  }

  lemma {:induction false} ValueIgnoresZero(s: Str)
    requires forall i | 0 <= i < |s| :: IsDigit(s[i])
    ensures Value(['0'] + s) == Value(s)
  {
    var z := ['0'] + s;
    if s == [] {
      assert z[..0] == [];
    } else {
      ValueIgnoresZero(s[..|s| - 1]);
      assert z[..|z| - 1] == ['0'] + s[..|s| - 1];
    }
  }

  lemma {:induction false} ValueOfPadded(s: Str, width: nat)
    requires s != [] && forall i | 0 <= i < |s| :: IsDigit(s[i])
    ensures var p := Padded(s, width);
            p != [] && (forall i | 0 <= i < |p| :: IsDigit(p[i])) && Value(p) == Value(s)
    decreases width - |s|
  {
    if |s| < width {
      ValueIgnoresZero(s);
      ValueOfPadded(['0'] + s, width);
    }
  }

  lemma {:induction false} AllLeading(s: Str)
    requires forall i | 0 <= i < |s| :: IsDigit(s[i])
    ensures LeadingDigits(s) == s
  {
    if s == [] {
    } else {
      AllLeading(s[1..]);
    }
  }

  /** The number parsed back from a name is the number it was made from, whether it fills
      the six digits, needs padding or has more. */
  lemma NameRoundTrip(id: nat)
    ensures ParseName(NameOf(id)) == if id < 18446744073709551616 then Some(id) else None
  {
    var digits := Padded(Decimal(id), 6);
    ValueOfDecimal(id);
    ValueOfPadded(Decimal(id), 6);
    AllLeading(digits);
    var name := NameOf(id);
    assert name == ("L0-" + digits) + ".sst";
    assert name[|name| - 4..] == ".sst";
    assert name[..3] == "L0-";
    assert name[3..|name| - 4] == digits;
  }

  lemma {:induction false} PaddedExactly(s: Str, width: nat)
    ensures Padded(s, width) == seq(if |s| < width then width - |s| else 0, i => '0') + s
    decreases width - |s|
  {
    if |s| < width {
      PaddedExactly(['0'] + s, width);
      var n := width - |s|;
      assert seq(n, i => '0') == seq(n - 1, i => '0') + ['0'];
    }
  }

  /** A name has the prefix, the decimal digits behind as many zeros as six places need, and the
      suffix. */
  lemma NameExactly(id: nat)
    ensures var digits := Decimal(id);
            NameOf(id) == "L0-" + (seq(if |digits| < 6 then 6 - |digits| else 0, i => '0') + digits) + ".sst"
  {
    PaddedExactly(Decimal(id), 6);
  }

  lemma NameText()
    ensures NameOf(27) == "L0-000027.sst"
  {
    assert Decimal(2) == "2" && Decimal(27) == "27";
    PaddedExactly("27", 6);
    assert seq(4, i => '0') == "0000";
  }

  lemma {:induction false} DigitsStop(digits: Str, tail: Str)
    requires forall i | 0 <= i < |digits| :: IsDigit(digits[i])
    requires tail == [] || !IsDigit(tail[0])
    ensures LeadingDigits(digits + tail) == digits
  {
    if digits == [] {
      assert digits + tail == tail;
    } else {
      assert (digits + tail)[1..] == digits[1..] + tail;
      DigitsStop(digits[1..], tail);
    }
  }

  lemma ParseBetween(middle: Str)
    ensures var digits := LeadingDigits(middle);
            ParseName("L0-" + middle + ".sst") ==
            if digits == [] || Value(digits) >= 18446744073709551616 then None else Some(Value(digits))
  {
    var name := "L0-" + middle + ".sst";
    assert name[..3] == "L0-" && name[|name| - 4..] == ".sst" && name[3..|name| - 4] == middle;
  }

  /** A name of the form has the number that its leading digits say, if there are any and it is
      below 2^64, whatever stands between them and the suffix. */
  lemma ParseNameExactly(digits: Str, tail: Str)
    requires forall i | 0 <= i < |digits| :: '0' <= digits[i] <= '9'
    requires tail == [] || !('0' <= tail[0] <= '9')
    ensures ParseName("L0-" + (digits + tail) + ".sst") ==
            if digits == [] || Value(digits) >= 18446744073709551616 then None else Some(Value(digits))
  {
    DigitsStop(digits, tail);
    ParseBetween(digits + tail);
  }

  // ---- Listing and sorting ----

  datatype FoundFile = FoundFile(id: nat, name: Str)

  /** The files that recovery collects while it walks the directory. */
  function Found(listing: seq<Str>): seq<FoundFile> {
    if listing == [] then []
    else
      var rest := Found(listing[..|listing| - 1]);
      var name := listing[|listing| - 1];
      match ParseName(name)
      case Some(id) => rest + [FoundFile(id, name)]
      case None => rest
  }

  /** `std::pair`'s order: by number, then by name. */
  predicate FileBefore(a: FoundFile, b: FoundFile) {
    if a.id != b.id then a.id < b.id else Less(a.name, b.name)
  }

  function InsertFile(f: FoundFile, files: seq<FoundFile>): seq<FoundFile> {
    if files == [] || !FileBefore(files[0], f) then [f] + files
    else [files[0]] + InsertFile(f, files[1..])
  }

  /** Stands for `std::sort`. */
  function SortFiles(files: seq<FoundFile>): seq<FoundFile> {
    if files == [] then [] else InsertFile(files[0], SortFiles(files[1..]))
  }

  predicate IdsDistinct(files: seq<FoundFile>) {
    forall i, j | 0 <= i < j < |files| :: files[i].id != files[j].id
  }

  predicate IdsAscend(files: seq<FoundFile>) {
    forall i, j | 0 <= i < j < |files| :: files[i].id < files[j].id
  }

  lemma {:induction false} InsertFileHolds(f: FoundFile, files: seq<FoundFile>, g: FoundFile)
    ensures g in InsertFile(f, files) <==> g == f || g in files
  {
    if files != [] && FileBefore(files[0], f) {
      InsertFileHolds(f, files[1..], g);
    }
  }

  lemma {:induction false} SortFilesHolds(files: seq<FoundFile>, g: FoundFile)
    ensures g in SortFiles(files) <==> g in files
  {
    if files == [] {
    } else {
      SortFilesHolds(files[1..], g);
      InsertFileHolds(files[0], SortFiles(files[1..]), g);
    }
  }

  lemma {:induction false} InsertFileAscends(f: FoundFile, files: seq<FoundFile>)
    requires IdsAscend(files) && forall g | g in files :: g.id != f.id
    ensures IdsAscend(InsertFile(f, files))
  {
    if files != [] && FileBefore(files[0], f) {
      var rest := InsertFile(f, files[1..]);
      InsertFileAscends(f, files[1..]);
      assert files[0] in files;
      forall i | 0 <= i < |rest|
        ensures files[0].id < rest[i].id
      {
        InsertFileHolds(f, files[1..], rest[i]);
      }
    } else if files != [] {
      assert files[0] in files;
    }
  }

  /** With distinct numbers, sorting the pairs is sorting by number, whatever the order in
      which the directory was listed. */
  lemma {:induction false} SortFilesAscends(files: seq<FoundFile>)
    requires IdsDistinct(files)
    ensures IdsAscend(SortFiles(files))
  {
    if files == [] {
    } else {
      SortFilesAscends(files[1..]);
      forall g | g in SortFiles(files[1..])
        ensures g.id != files[0].id
      {
        SortFilesHolds(files[1..], g);
      }
      InsertFileAscends(files[0], SortFiles(files[1..]));
    }
  }

  lemma {:induction false} FoundHolds(listing: seq<Str>, g: FoundFile)
    ensures g in Found(listing) <==> g.name in listing && ParseName(g.name) == Some(g.id)
  {
    if listing == [] {
    } else {
      FoundHolds(listing[..|listing| - 1], g);
      assert listing == listing[..|listing| - 1] + [listing[|listing| - 1]];
    }
  }

  /** Every name in the directory was made by the file pool. */
  predicate PoolMade(name: Str) {
    ParseName(name).Some? && name == NameOf(ParseName(name).value)
  }

  lemma {:induction false} FoundDistinct(listing: seq<Str>)
    requires forall i, j | 0 <= i < j < |listing| :: listing[i] != listing[j]
    requires forall name | name in listing :: PoolMade(name)
    ensures IdsDistinct(Found(listing))
  {
    if listing == [] {
    } else {
      var init, name := listing[..|listing| - 1], listing[|listing| - 1];
      FoundDistinct(init);
      assert name in listing;
      forall g | g in Found(init)
        ensures Some(g.id) != ParseName(name)
      {
        FoundHolds(init, g);
        var i :| 0 <= i < |init| && init[i] == g.name;
        assert listing[i] != name;
      }
    }
  }

  // ---- The rebuilt list of tables ----

  /** The recovered tables, oldest first; recovery prepends them in this order. */
  function RecoverFiles(files: seq<FoundFile>, dir: map<Str, Str>): (tables: seq<SSTable.Table>)
    requires forall f | f in files :: f.name in dir
    ensures |tables| == |files|
    ensures forall i | 0 <= i < |files| :: tables[i] == Recovered(dir[files[i].name])
  {
    seq(|files|, i requires 0 <= i < |files| => Recovered(dir[files[i].name]))
  }

  /** `SSTableManager::get` over tables given oldest first: the newest table from which a
      value can be read. */
  function TablesGet(tables: seq<SSTable.Table>, key: Str): Option<Str> {
    if tables == [] then None
    else
      var found := TableGet(tables[|tables| - 1], key);
      if found.Some? then found else TablesGet(tables[..|tables| - 1], key)
  }

  /** The log that was published under a file number; the files of the pool hold none. */
  function LogOf(published: seq<Published>, file: nat): Log {
    if published == [] then []
    else
      var last := published[|published| - 1];
      if last.file == file then last.log else LogOf(published[..|published| - 1], file)
  }

  /** The directory after a run: the file of every published table holds its records, the
      other files nothing, and pre-allocation may have put zero bytes behind either. */
  ghost predicate DirectoryHolds(dir: map<Str, Str>, published: seq<Published>) {
    && (forall i | 0 <= i < |published| ::
          NameOf(published[i].file) in dir && published[i].file < UINT64_LIMIT && AllFit(published[i].log))
    && (forall name | name in dir :: PoolMade(name))
    && (forall name | name in dir ::
          var log := LogOf(published, ParseName(name).value);
          AllFit(log) && exists n :: dir[name] == Serialize(log) + Zeros(n))
  }

  /** The names alone: those of published tables are there, and the pool made them all. */
  ghost predicate DirectoryNames(dir: map<Str, Str>, published: seq<Published>) {
    && (forall i | 0 <= i < |published| :: NameOf(published[i].file) in dir && published[i].file < UINT64_LIMIT)
    && (forall name | name in dir :: PoolMade(name))
  }

  /** Some enumeration of the directory: each name once, in any order. */
  ghost predicate Lists(listing: seq<Str>, dir: map<Str, Str>) {
    && (forall i, j | 0 <= i < j < |listing| :: listing[i] != listing[j])
    && (forall name :: name in listing <==> name in dir)
  }

  /** Reading tables one for one with logs that read alike is reading the logs. */
  lemma {:induction false} TablesReadLogs(tables: seq<SSTable.Table>, logs: seq<Log>, key: Str)
    requires |tables| == |logs|
    requires forall i | 0 <= i < |tables| :: TableGet(tables[i], key) == Last(logs[i], key)
    ensures TablesGet(tables, key) == NewestFirst(logs, key)
  {
    if tables == [] {
    } else {
      TablesReadLogs(tables[..|tables| - 1], logs[..|logs| - 1], key);
    }
  }

  function LogsOf(published: seq<Published>, files: seq<FoundFile>): (logs: seq<Log>)
    ensures |logs| == |files|
  {
    if files == [] then []
    else LogsOf(published, files[..|files| - 1]) + [LogOf(published, files[|files| - 1].id)]
  }

  lemma {:induction false} LogsOfAt(published: seq<Published>, files: seq<FoundFile>, i: nat)
    requires i < |files|
    ensures LogsOf(published, files)[i] == LogOf(published, files[i].id)
  {
    if i < |files| - 1 {
      LogsOfAt(published, files[..|files| - 1], i);
    }
  }

  lemma {:induction false} LogsOfAgree(a: seq<Published>, b: seq<Published>, files: seq<FoundFile>)
    requires forall i | 0 <= i < |files| :: LogOf(a, files[i].id) == LogOf(b, files[i].id)
    ensures LogsOf(a, files) == LogsOf(b, files)
  {
    if files == [] {
    } else {
      LogsOfAgree(a, b, files[..|files| - 1]);
    }
  }

  /** Every published table has its file in the directory. */
  ghost predicate Covers(files: seq<FoundFile>, published: seq<Published>) {
    forall p | p in published :: exists f :: f in files && f.id == p.file
  }

  lemma CoversNonEmpty(files: seq<FoundFile>, published: seq<Published>)
    requires Covers(files, published) && published != []
    ensures files != []
  {
    assert published[0] in published;
    var f :| f in files && f.id == published[0].file;
  }

  lemma {:induction false} LogOfAbsent(published: seq<Published>, file: nat)
    requires forall p | p in published :: p.file != file
    ensures LogOf(published, file) == []
  {
    if published == [] {
    } else {
      LogOfAbsent(published[..|published| - 1], file);
    }
  }

  /** The files in ascending order carry the published logs in publication order, with
      empty logs of pool files in between. */
  lemma {:induction false} FilesCarryLogs(published: seq<Published>, files: seq<FoundFile>)
    requires Ascending(Files(published)) && IdsAscend(files)
    requires Covers(files, published)
    ensures Flat(LogsOf(published, files)) == Flat(Logs(published))
    decreases |files|
  {
    if published != [] {
      CoversNonEmpty(files, published);
    }
    if files == [] {
    } else {
      var init, f := files[..|files| - 1], files[|files| - 1];
      OlderFiles(published, files);
      FlatSnoc(LogsOf(published, init), LogOf(published, f.id));
      if published != [] && published[|published| - 1].file == f.id {
        var older := published[..|published| - 1];
        FilesCarryLogs(older, init);
        LogsOfAgree(published, older, init);
        FlatSnoc(Logs(older), published[|published| - 1].log);
      } else {
        FilesCarryLogs(published, init);
        LogOfAbsent(published, f.id);
      }
    }
  }

  lemma OlderFiles(published: seq<Published>, files: seq<FoundFile>)
    requires Ascending(Files(published)) && IdsAscend(files) && files != []
    requires Covers(files, published)
    ensures var init, f := files[..|files| - 1], files[|files| - 1];
            if published != [] && published[|published| - 1].file == f.id then
              var older := published[..|published| - 1];
              && Ascending(Files(older))
              && Covers(init, older)
              && (forall i | 0 <= i < |init| :: LogOf(published, init[i].id) == LogOf(older, init[i].id))
            else
              && (forall p | p in published :: p.file != f.id)
              && Covers(init, published)
  {
    if published != [] && published[|published| - 1].file == files[|files| - 1].id {
      NewestFileIsNewest(published, files);
    } else {
      NewestFileIsBlank(published, files);
    }
  }

  lemma NewestFileIsNewest(published: seq<Published>, files: seq<FoundFile>)
    requires Ascending(Files(published)) && IdsAscend(files) && files != [] && Covers(files, published)
    requires published != [] && published[|published| - 1].file == files[|files| - 1].id
    ensures var init, older := files[..|files| - 1], published[..|published| - 1];
            && Ascending(Files(older)) && Covers(init, older)
            && (forall i | 0 <= i < |init| :: LogOf(published, init[i].id) == LogOf(older, init[i].id))
  {
    var init, older := files[..|files| - 1], published[..|published| - 1];
    assert Files(older) == Files(published)[..|older|];
    forall p | p in older
      ensures exists g :: g in init && g.id == p.file
    {
      var i :| 0 <= i < |older| && older[i] == p;
      assert Files(published)[i] < Files(published)[|older|];
      var g :| g in files && g.id == p.file;
      assert g in init;
    }
  }

  lemma NewestFileIsBlank(published: seq<Published>, files: seq<FoundFile>)
    requires Ascending(Files(published)) && IdsAscend(files) && files != [] && Covers(files, published)
    requires published != [] ==> published[|published| - 1].file != files[|files| - 1].id
    ensures forall p | p in published :: p.file != files[|files| - 1].id
    ensures Covers(files[..|files| - 1], published)
  {
    var init, f := files[..|files| - 1], files[|files| - 1];
    forall p | p in published
      ensures p.file != f.id && exists g :: g in init && g.id == p.file
    {
      var last := published[|published| - 1];
      var top :| top in files && top.id == last.file;
      var i :| 0 <= i < |published| && published[i] == p;
      assert Files(published)[i] <= Files(published)[|published| - 1];
      var g :| g in files && g.id == p.file;
    }
  }

  // ---- Close, then open ----

  /** The files of a directory, as recovery orders them. */
  function OrderedFiles(listing: seq<Str>): seq<FoundFile> {
    SortFiles(Found(listing))
  }

  lemma OrderedFilesOfDirectory(dir: map<Str, Str>, listing: seq<Str>, published: seq<Published>)
    requires DirectoryNames(dir, published) && Lists(listing, dir)
    ensures var files := OrderedFiles(listing);
            && IdsAscend(files) && Covers(files, published)
            && (forall f | f in files :: f.name in dir && ParseName(f.name) == Some(f.id))
            && (forall name | name in dir :: FoundFile(ParseName(name).value, name) in files)
  {
    var files := OrderedFiles(listing);
    FoundDistinct(listing);
    SortFilesAscends(Found(listing));
    forall f
      ensures f in files <==> f.name in dir && ParseName(f.name) == Some(f.id)
    {
      SortFilesHolds(Found(listing), f);
      FoundHolds(listing, f);
    }
    forall p | p in published
      ensures exists f :: f in files && f.id == p.file
    {
      NameRoundTrip(p.file);
      assert FoundFile(p.file, NameOf(p.file)) in files;
    }
  }

  lemma RecoveredFileReads(dir: map<Str, Str>, published: seq<Published>, name: Str, key: Str)
    requires DirectoryHolds(dir, published) && name in dir && key != []
    ensures TableGet(Recovered(dir[name]), key) == Last(LogOf(published, ParseName(name).value), key)
  {
    var log := LogOf(published, ParseName(name).value);
    var n :| dir[name] == Serialize(log) + Zeros(n);
    RecoveredReadsLog(log, n, key);
  }

  /** Whatever the order of the listing, the rebuilt list reads a key like logs that read
      like the files. */
  lemma RecoveryReads(dir: map<Str, Str>, listing: seq<Str>, published: seq<Published>, key: Str)
    requires Ascending(Files(published)) && DirectoryNames(dir, published) && Lists(listing, dir)
    requires forall name | name in dir ::
               TableGet(Recovered(dir[name]), key) == Last(LogOf(published, ParseName(name).value), key)
    ensures forall f | f in OrderedFiles(listing) :: f.name in dir
    ensures TablesGet(RecoverFiles(OrderedFiles(listing), dir), key) == NewestFirst(Logs(published), key)
  {
    var files := OrderedFiles(listing);
    OrderedFilesOfDirectory(dir, listing, published);
    var tables, logs := RecoverFiles(files, dir), LogsOf(published, files);
    forall i | 0 <= i < |files|
      ensures TableGet(tables[i], key) == Last(logs[i], key)
    {
      LogsOfAt(published, files, i);
      assert files[i] in files;
    }
    TablesReadLogs(tables, logs, key);
    FilesCarryLogs(published, files);
    NewestFirstIsLast(logs, key);
    NewestFirstIsLast(Logs(published), key);
  }

  /** Whatever the order of the listing, the rebuilt list reads every non-empty key as the
      published tables did. */
  lemma RecoveryReadsPublished(dir: map<Str, Str>, listing: seq<Str>, published: seq<Published>, key: Str)
    requires Ascending(Files(published)) && key != []
    requires DirectoryHolds(dir, published) && Lists(listing, dir)
    ensures forall f | f in OrderedFiles(listing) :: f.name in dir
    ensures TablesGet(RecoverFiles(OrderedFiles(listing), dir), key) == NewestFirst(Logs(published), key)
  {
    forall name | name in dir
      ensures TableGet(Recovered(dir[name]), key) == Last(LogOf(published, ParseName(name).value), key)
    {
      RecoveredFileReads(dir, published, name, key);
    }
    RecoveryReads(dir, listing, published, key);
  }

  // ---- The next run ----

  function MaxId(files: seq<FoundFile>): (m: nat)
    ensures forall f | f in files :: f.id <= m
  {
    if files == [] then 0
    else
      var m := MaxId(files[..|files| - 1]);
      if files[|files| - 1].id > m then files[|files| - 1].id else m
  }

  lemma {:induction false} MaxIdIsFound(files: seq<FoundFile>)
    ensures MaxId(files) == 0 || exists f :: f in files && f.id == MaxId(files)
  {
    if files == [] {
    } else {
      MaxIdIsFound(files[..|files| - 1]);
      assert files[|files| - 1] in files;
    }
  }

  function ReopenedTables(published: seq<Published>, files: seq<FoundFile>): (tables: seq<Published>)
    ensures |tables| == |files|
    ensures forall i | 0 <= i < |files| :: tables[i].file == files[i].id
  {
    if files == [] then []
    else
      var last := files[|files| - 1].id;
      ReopenedTables(published, files[..|files| - 1]) + [Published(last, LogOf(published, last))]
  }

  /** The store as the next constructor builds it: one table per file, empty ones for files
      that hold no records, and a pool that starts above the greatest number found. */
  function Reopened(published: seq<Published>, listing: seq<Str>): State {
    var files := OrderedFiles(listing);
    var tables := ReopenedTables(published, files);
    State(Memory([], []), Idle, false, tables, map[], map[], [], Waiting, MaxId(Found(listing)) + 1, Open,
          Flat(Logs(tables)))
  }

  lemma {:induction false} ReopenedLogs(published: seq<Published>, files: seq<FoundFile>)
    ensures Logs(ReopenedTables(published, files)) == LogsOf(published, files)
  {
    if files == [] {
    } else {
      var init := files[..|files| - 1];
      ReopenedLogs(published, init);
      assert ReopenedTables(published, files)[..|init|] == ReopenedTables(published, init);
    }
  }

  lemma ReopenedStarts(c: Config, published: seq<Published>, listing: seq<Str>)
    requires ValidConfig(c) && IdsAscend(OrderedFiles(listing))
    ensures Init(c, Reopened(published, listing))
  {
    var files := OrderedFiles(listing);
    forall i | 0 <= i < |files|
      ensures files[i].id <= MaxId(Found(listing))
    {
      SortFilesHolds(Found(listing), files[i]);
    }
  }

  /** Opening any directory that holds published tables yields an initial state of the
      machine with their history, whose tables read as the rebuilt list does. */
  lemma OpenedIsInitial(c: Config, published: seq<Published>, dir: map<Str, Str>, listing: seq<Str>)
    requires ValidConfig(c) && Ascending(Files(published))
    requires DirectoryHolds(dir, published) && Lists(listing, dir)
    ensures Init(c, Reopened(published, listing))
    ensures Reopened(published, listing).history == Flat(Logs(published))
    ensures forall f | f in OrderedFiles(listing) :: f.name in dir
    ensures forall key | key != [] ::
              TablesGet(RecoverFiles(OrderedFiles(listing), dir), key) ==
              NewestFirst(Logs(Reopened(published, listing).published), key)
  {
    var files := OrderedFiles(listing);
    OrderedFilesOfDirectory(dir, listing, published);
    FilesCarryLogs(published, files);
    ReopenedLogs(published, files);
    ReopenedStarts(c, published, listing);
    forall key | key != []
      ensures TablesGet(RecoverFiles(files, dir), key) == NewestFirst(LogsOf(published, files), key)
    {
      RecoveryReadsPublished(dir, listing, published, key);
      NewestFirstIsLast(LogsOf(published, files), key);
      NewestFirstIsLast(Logs(published), key);
    }
  }

  lemma {:induction false} ReopenedAt(published: seq<Published>, files: seq<FoundFile>, i: nat)
    requires i < |files|
    ensures ReopenedTables(published, files)[i] == Published(files[i].id, LogOf(published, files[i].id))
  {
    if i < |files| - 1 {
      ReopenedAt(published, files[..|files| - 1], i);
    }
  }

  lemma {:induction false} LogOfReopened(published: seq<Published>, files: seq<FoundFile>, i: nat)
    requires i < |files| && IdsAscend(files)
    ensures LogOf(ReopenedTables(published, files), files[i].id) == LogOf(published, files[i].id)
  {
    var init := files[..|files| - 1];
    var tables := ReopenedTables(published, files);
    assert tables[..|init|] == ReopenedTables(published, init);
    if i < |init| {
      LogOfReopened(published, init, i);
    }
  }

  /** Every recovered file is that of a table of the reopened store. */
  lemma OpenedFile(before: seq<Published>, dir: map<Str, Str>, listing: seq<Str>, i: nat)
    requires DirectoryHolds(dir, before) && Lists(listing, dir) && i < |OrderedFiles(listing)|
    ensures var f, p := OrderedFiles(listing)[i], ReopenedTables(before, OrderedFiles(listing))[i];
            && p == Published(f.id, LogOf(before, f.id))
            && f.id < UINT64_LIMIT && NameOf(f.id) == f.name && f.name in dir && AllFit(p.log)
            && LogOf(ReopenedTables(before, OrderedFiles(listing)), f.id) == LogOf(before, f.id)
  {
    var files := OrderedFiles(listing);
    OrderedFilesOfDirectory(dir, listing, before);
    assert files[i] in files && PoolMade(files[i].name);
    ReopenedAt(before, files, i);
    LogOfReopened(before, files, i);
  }

  lemma OpenedName(before: seq<Published>, dir: map<Str, Str>, listing: seq<Str>, name: Str)
    requires DirectoryHolds(dir, before) && Lists(listing, dir) && name in dir
    ensures LogOf(ReopenedTables(before, OrderedFiles(listing)), ParseName(name).value) ==
            LogOf(before, ParseName(name).value)
  {
    var files := OrderedFiles(listing);
    OrderedFilesOfDirectory(dir, listing, before);
    var f := FoundFile(ParseName(name).value, name);
    assert f in files;
    var i :| 0 <= i < |files| && files[i] == f;
    OpenedFile(before, dir, listing, i);
  }

  lemma OpenedHolds(before: seq<Published>, dir: map<Str, Str>, listing: seq<Str>)
    requires DirectoryHolds(dir, before) && Lists(listing, dir)
    ensures DirectoryHolds(dir, ReopenedTables(before, OrderedFiles(listing)))
  {
    var tables := ReopenedTables(before, OrderedFiles(listing));
    forall i | 0 <= i < |tables|
      ensures NameOf(tables[i].file) in dir && tables[i].file < UINT64_LIMIT && AllFit(tables[i].log)
    {
      OpenedFile(before, dir, listing, i);
    }
    forall name | name in dir
      ensures LogOf(tables, ParseName(name).value) == LogOf(before, ParseName(name).value)
    {
      OpenedName(before, dir, listing, name);
    }
  }

  // ---- What a running store does to its directory ----

  lemma LogOfMore(published: seq<Published>, p: Published, file: nat)
    ensures LogOf(published + [p], file) == if file == p.file then p.log else LogOf(published, file)
  {
    assert (published + [p])[..|published|] == published;
  }

  lemma NameIsInjective(a: nat, b: nat)
    requires a < UINT64_LIMIT && b < UINT64_LIMIT && NameOf(a) == NameOf(b)
    ensures a == b
  {
    NameRoundTrip(a);
    NameRoundTrip(b);
  }

  /** The pool's new file, empty or pre-allocated, holds no records yet. */
  lemma CreateKeepsDirectory(dir: map<Str, Str>, published: seq<Published>, file: nat, n: nat)
    requires DirectoryHolds(dir, published) && file < UINT64_LIMIT
    requires forall p | p in published :: p.file != file
    ensures DirectoryHolds(dir[NameOf(file) := Zeros(n)], published)
  {
    NameRoundTrip(file);
    LogOfAbsent(published, file);
    assert Zeros(n) == Serialize([]) + Zeros(n);
  }

  /** Writing the records of a log over a file of zeros, and publishing it. */
  lemma PublishKeepsDirectory(dir: map<Str, Str>, published: seq<Published>, p: Published, bytes: Str)
    requires DirectoryHolds(dir, published) && p.file < UINT64_LIMIT && AllFit(p.log)
    requires exists n :: bytes == Serialize(p.log) + Zeros(n)
    ensures DirectoryHolds(dir[NameOf(p.file) := bytes], published + [p])
  {
    var dir', published' := dir[NameOf(p.file) := bytes], published + [p];
    NameRoundTrip(p.file);
    forall name | name in dir'
      ensures PoolMade(name)
      ensures var log := LogOf(published', ParseName(name).value);
              AllFit(log) && exists n :: dir'[name] == Serialize(log) + Zeros(n)
    {
      assert PoolMade(name);
      LogOfMore(published, p, ParseName(name).value);
      if name != NameOf(p.file) {
        assert name in dir && ParseName(name).value != p.file;
      }
    }
  }
}
