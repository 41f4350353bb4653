/** A crash in any reachable state, at any byte of the file that is being written, and what
    the store that is opened afterwards shows. */
module Crashes {
  import opened Wrappers
  import opened Bytes
  import opened Log
  import opened SSTable
  import opened Recovery
  import opened PaddedCuts
  import opened Machine
  import opened Invariants
  import opened Reads
  import opened Directory
  import opened DirectoryRuns

  /** Published files are complete. Of the file that the flush thread holds, `t` bytes have
      been written, and `n` zero bytes of its pre-allocation lie behind them. */
  ghost predicate CrashLeaves(s: State, dir: map<Str, Str>, t: nat, n: nat, left: map<Str, Str>) {
    match s.flush
    case Acquired(log, file) =>
      AllFit(log) && t <= |Serialize(log)| && left == dir[NameOf(file) := Serialize(log)[..t] + Zeros(n)]
    case _ => left == dir
  }

  /** The writes that survive as whole records. */
  function Survivors(s: State, t: nat): Log
    requires s.flush.Acquired? ==> AllFit(s.flush.log)
  {
    Flat(Logs(s.published)) + if s.flush.Acquired? then s.flush.log[..Whole(s.flush.log, t)] else []
  }

  function RemnantLeft(s: State, t: nat, n: nat): Remnant
    requires s.flush.Acquired? ==> AllFit(s.flush.log) && t <= |Serialize(s.flush.log)|
  {
    if s.flush.Acquired? then RemnantAt(s.flush.log, t, n) else Nothing
  }

  /** What survives is an initial segment of the history. */
  lemma SurvivorsArePrefix(s: State, t: nat)
    requires Conserved(s) && (s.flush.Acquired? ==> AllFit(s.flush.log))
    ensures Survivors(s, t) <= s.history
  {
    PublishedIsPrefix(s);
    if s.flush.Acquired? {
      var pub, log := Flat(Logs(s.published)), s.flush.log;
      var m := Whole(log, t);
      assert log == log[..m] + log[m..];
      assert pub + log == (pub + log[..m]) + log[m..];
    }
  }

  // ---- A directory with one damaged file ----

  /** The damaged file is the newest, so it decides when it can be read, and what it cannot
      decide falls through to the published tables. */
  lemma DamagedFileFallsThrough(dir: map<Str, Str>, published: seq<Published>, file: nat, bytes: Str,
                                listing: seq<Str>, key: Str)
    requires DirectoryHolds(dir, published) && Ascending(Files(published) + [file]) && file < UINT64_LIMIT
    requires Lists(listing, dir[NameOf(file) := bytes]) && key != []
    ensures var left := dir[NameOf(file) := bytes];
            && (forall f | f in OrderedFiles(listing) :: f.name in left)
            && TablesGet(RecoverFiles(OrderedFiles(listing), left), key) ==
               var found := TableGet(Recovered(bytes), key);
               if found.Some? then found else NewestFirst(Logs(published), key)
  {
    var left, found := dir[NameOf(file) := bytes], TableGet(Recovered(bytes), key);
    var p := Published(file, if found.Some? then [Entry(key, found.value)] else []);
    DamagedReadsAs(dir, published, p, bytes, key);
    assert Files(published + [p]) == Files(published) + [file];
    RecoveryReads(left, listing, published + [p], key);
    NewestOfMore(published, p, key);
    LastOfOne(p.log, key);
  }

  lemma NewestOfMore(published: seq<Published>, p: Published, key: Str)
    ensures NewestFirst(Logs(published + [p]), key) ==
            if Last(p.log, key).Some? then Last(p.log, key) else NewestFirst(Logs(published), key)
  {
    assert (published + [p])[..|published|] == published;
    assert (Logs(published) + [p.log])[..|published|] == Logs(published);
  }

  lemma LastOfOne(log: Log, key: Str)
    requires |log| <= 1
    ensures Last(log, key) == if log != [] && log[0].key == key then Some(log[0].value) else None
  {
  }

  /** For one key, a log of at most one entry reads like the damaged file. */
  lemma DamagedReadsAs(dir: map<Str, Str>, published: seq<Published>, p: Published, bytes: Str, key: Str)
    requires DirectoryHolds(dir, published) && p.file < UINT64_LIMIT && key != []
    requires var found := TableGet(Recovered(bytes), key);
             p.log == if found.Some? then [Entry(key, found.value)] else []
    ensures var left := dir[NameOf(p.file) := bytes];
            && DirectoryNames(left, published + [p])
            && forall name | name in left ::
                 TableGet(Recovered(left[name]), key) == Last(LogOf(published + [p], ParseName(name).value), key)
  {
    var left := dir[NameOf(p.file) := bytes];
    NameRoundTrip(p.file);
    LastOfOne(p.log, key);
    forall name | name in left
      ensures PoolMade(name)
      ensures TableGet(Recovered(left[name]), key) == Last(LogOf(published + [p], ParseName(name).value), key)
    {
      assert PoolMade(name);
      LogOfMore(published, p, ParseName(name).value);
      if name != NameOf(p.file) {
        assert name in dir && ParseName(name).value != p.file;
        RecoveredFileReads(dir, published, name, key);
      }
    }
  }

  // ---- Crash, then open ----

  lemma WrittenFileIsNewest(c: Config, s: State, dir: map<Str, Str>)
    requires FilesOrdered(c, s) && DirectoryFits(dir, s) && s.flush.Acquired?
    ensures Ascending(Files(s.published) + [s.flush.file]) && s.flush.file < UINT64_LIMIT
  {
    var numbers := Files(s.published) + [s.flush.file];
    assert forall i | 0 <= i < |numbers| :: numbers[i] == FilesInUse(s)[i];
    assert Spare(s)[0] == s.flush.file && s.flush.file in Spare(s);
  }

  /** The reopened list after a crash: a non-empty key reads what the surviving writes give
      it, unless the remnant seems to have it. The remnant's key reads what the remnant seems
      to hold when that can be read, and the published tables' value when it cannot. */
  lemma CrashedListReads(c: Config, s: State, dir: map<Str, Str>, t: nat, n: nat, left: map<Str, Str>,
                         listing: seq<Str>, key: Str)
    requires Inv(c, s) && DirectoryFits(dir, s) && CrashLeaves(s, dir, t, n, left)
    requires Lists(listing, left) && key != []
    ensures forall f | f in OrderedFiles(listing) :: f.name in left
    ensures var r := RemnantLeft(s, t, n);
            Live(TablesGet(RecoverFiles(OrderedFiles(listing), left), key)) ==
            if r.Remnant? && key == r.key then
              if r.value.Some? then Live(r.value) else Lookup(Contents(Flat(Logs(s.published))), key)
            else Lookup(Contents(Survivors(s, t)), key)
  {
    var pub := Flat(Logs(s.published));
    PublishedFilesAscend(c, s);
    NewestFirstIsLast(Logs(s.published), key);
    LastReadsContents(pub, key);
    LastReadsContents(Survivors(s, t), key);
    if s.flush.Acquired? {
      var log, file := s.flush.log, s.flush.file;
      WrittenFileIsNewest(c, s, dir);
      DamagedFileFallsThrough(dir, s.published, file, Serialize(log)[..t] + Zeros(n), listing, key);
      PaddedCutReads(log, t, n, key);
      LastConcat(pub, log[..Whole(log, t)], key);
    } else {
      assert pub + [] == pub;
      RecoveryReadsPublished(dir, listing, s.published, key);
    }
  }

  /** For every reachable state, every cut and every amount of pre-allocation. */
  lemma CrashThenReopen(c: Config, run: seq<State>, dirs: seq<map<Str, Str>>, j: nat, t: nat, n: nat,
                        left: map<Str, Str>, listing: seq<Str>, key: Str)
    requires IsDirectoryRun(c, run, dirs) && j < |run| && WithinLimits(run[j])
    requires CrashLeaves(run[j], dirs[j], t, n, left) && Lists(listing, left) && key != []
    ensures Survivors(run[j], t) <= run[j].history
    ensures forall f | f in OrderedFiles(listing) :: f.name in left
    ensures var r := RemnantLeft(run[j], t, n);
            Live(TablesGet(RecoverFiles(OrderedFiles(listing), left), key)) ==
            if r.Remnant? && key == r.key then
              if r.value.Some? then Live(r.value) else Lookup(Contents(Flat(Logs(run[j].published))), key)
            else Lookup(Contents(Survivors(run[j], t)), key)
  {
    DirectoryRunIsRun(c, run, dirs);
    RunInv(c, run, j);
    DirectoryAlong(c, run, dirs, j);
    SurvivorsArePrefix(run[j], t);
    CrashedListReads(c, run[j], dirs[j], t, n, left, listing, key);
  }

  /** A crash after a barrier has returned loses nothing that was written before its call. */
  lemma BarrierSurvivesCrash(c: Config, run: seq<State>, i: nat, j: nat, id: nat, k: nat, t: nat)
    requires IsRun(c, run) && i < j <= k < |run| && WithinLimits(run[k])
    requires Enabled(c, run[i], EnterBarrier(id)) && run[i + 1] == Do(c, run[i], EnterBarrier(id))
    requires forall l | i < l <= j :: id in run[l].barriers
    requires Enabled(c, run[j], LeaveBarrier(id))
    ensures run[k].flush.Acquired? ==> AllFit(run[k].flush.log)
    ensures run[i].history <= Survivors(run[k], t)
  {
    BarrierPublishes(c, run, i, j, id);
    PathGrows(c, run, j, k);
    LogsPrefix(run[j].published, run[k].published);
    RunInv(c, run, k);
    FlightFits(run[k]);
  }
}
