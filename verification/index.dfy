/** The sorted key-to-offset index of a table: the sort, the keep-first `unique` and the
    binary search that the table code calls on its vector of pairs. */
module Index {
  import opened Bytes

  datatype IndexEntry = IndexEntry(key: Str, offset: nat)

  /** The comparator: key ascending, offset descending. */
  predicate Before(a: IndexEntry, b: IndexEntry) {
    if a.key != b.key then Less(a.key, b.key) else a.offset > b.offset
  }

  function Insert(e: IndexEntry, xs: seq<IndexEntry>): seq<IndexEntry> {
    if xs == [] || !Before(xs[0], e) then [e] + xs else [xs[0]] + Insert(e, xs[1..])
  }

  /** Stands for `std::sort` with the comparator; `SortIsUnique` shows that the choice of
      algorithm cannot matter. */
  function Sort(xs: seq<IndexEntry>): seq<IndexEntry> {
    if xs == [] then [] else Insert(xs[0], Sort(xs[1..]))
  }

  /** `std::unique` on keys followed by `erase`. */
  function KeepFirst(xs: seq<IndexEntry>): seq<IndexEntry> {
    if xs == [] then []
    else
      var kept := KeepFirst(xs[..|xs| - 1]);
      var x := xs[|xs| - 1];
      if kept != [] && kept[|kept| - 1].key == x.key then kept else kept + [x]
  }

  function BuildIndex(xs: seq<IndexEntry>): seq<IndexEntry> {
    KeepFirst(Sort(xs))
  }

  /** `std::lower_bound`: the first entry whose key is not below the given one. */
  function LowerBound(xs: seq<IndexEntry>, key: Str): (i: nat)
    ensures i <= |xs|
    ensures forall j | 0 <= j < i :: Less(xs[j].key, key)
    ensures i < |xs| ==> !Less(xs[i].key, key)
  {
    if xs == [] || !Less(xs[0].key, key) then 0
    else
      var rest := LowerBound(xs[1..], key);
      assert forall j | 1 <= j < 1 + rest :: xs[j] == xs[1..][j - 1];
      1 + rest
  }

  ghost predicate Sorted(xs: seq<IndexEntry>) {
    forall i, j | 0 <= i < j < |xs| :: !Before(xs[j], xs[i])
  }

  ghost predicate StrictKeys(xs: seq<IndexEntry>) {
    forall i, j | 0 <= i < j < |xs| :: Less(xs[i].key, xs[j].key)
  }

  /** The entry is the one with the greatest offset among those of its key. */
  ghost predicate Newest(xs: seq<IndexEntry>, e: IndexEntry) {
    e in xs && forall f | f in xs && f.key == e.key :: f.offset <= e.offset
  }

  lemma BeforeIsTotal(a: IndexEntry, b: IndexEntry)
    ensures Before(a, b) || a == b || Before(b, a)
    ensures !(Before(a, b) && Before(b, a))
  {
    LessTotal(a.key, b.key);
  }

  lemma BeforeTransitive(a: IndexEntry, b: IndexEntry, c: IndexEntry)
    requires !Before(b, a) && !Before(c, b)
    ensures !Before(c, a)
  {
    LessTotal(a.key, b.key);
    LessTotal(b.key, c.key);
    LessTotal(a.key, c.key);
    if Less(a.key, b.key) && Less(b.key, c.key) {
      LessTransitive(a.key, b.key, c.key);
    }
  }

  lemma {:induction false} InsertSorts(e: IndexEntry, xs: seq<IndexEntry>)
    requires Sorted(xs)
    ensures Sorted(Insert(e, xs))
    ensures multiset(Insert(e, xs)) == multiset{e} + multiset(xs)
  {
    if xs == [] {
    } else if !Before(xs[0], e) {
      forall j | 0 <= j < |xs|
        ensures !Before(xs[j], e)
      {
        if j > 0 {
          BeforeTransitive(e, xs[0], xs[j]);
        }
      }
    } else {
      var rest := Insert(e, xs[1..]);
      InsertSorts(e, xs[1..]);
      assert xs == [xs[0]] + xs[1..];
      forall j | 0 <= j < |rest|
        ensures !Before(rest[j], xs[0])
      {
        assert rest[j] in multiset(rest);
        if rest[j] == e {
          BeforeIsTotal(xs[0], e);
        } else {
          assert rest[j] in multiset(xs[1..]);
        }
      }
    }
  }

  lemma {:induction false} SortSorts(xs: seq<IndexEntry>)
    ensures Sorted(Sort(xs))
    ensures multiset(Sort(xs)) == multiset(xs)
  {
    if xs == [] {
    } else {
      SortSorts(xs[1..]);
      InsertSorts(xs[0], Sort(xs[1..]));
      assert xs == [xs[0]] + xs[1..];
    }
  }

  lemma SmallestFirst(xs: seq<IndexEntry>, e: IndexEntry)
    requires Sorted(xs) && e in multiset(xs)
    ensures xs != [] && !Before(e, xs[0])
  {
    var i :| 0 <= i < |xs| && xs[i] == e;
    BeforeIsTotal(xs[0], xs[i]);
  }

  /** The comparator is a strict total order, so the sorted arrangement is unique: any
      correct sort returns `Sort(xs)`. */
  lemma {:induction false} SortIsUnique(xs: seq<IndexEntry>, ys: seq<IndexEntry>)
    requires Sorted(xs) && Sorted(ys) && multiset(xs) == multiset(ys)
    ensures xs == ys
  {
    assert |multiset(xs)| == |xs| && |multiset(ys)| == |ys|;
    if xs != [] && ys != [] {
      RestOfMultiset(xs);
      RestOfMultiset(ys);
      SmallestFirst(xs, ys[0]);
      SmallestFirst(ys, xs[0]);
      BeforeIsTotal(xs[0], ys[0]);
      SortIsUnique(xs[1..], ys[1..]);
    }
  }

  lemma RestOfMultiset(xs: seq<IndexEntry>)
    requires xs != []
    ensures multiset(xs[1..]) == multiset(xs) - multiset{xs[0]}
    ensures xs[0] in multiset(xs)
    ensures xs == [xs[0]] + xs[1..]
  {
    assert xs == [xs[0]] + xs[1..];
  }

  /** Keys of a sorted vector never exceed that of its last entry, and offsets fall
      within one key. */
  lemma LastIsGreatest(xs: seq<IndexEntry>, f: IndexEntry)
    requires Sorted(xs) && f in xs
    ensures var x := xs[|xs| - 1]; if f.key == x.key then x.offset <= f.offset else Less(f.key, x.key)
  {
    var i :| 0 <= i < |xs| && xs[i] == f;
    if i < |xs| - 1 {
      BeforeIsTotal(f, xs[|xs| - 1]);
    }
  }

  lemma {:induction false} KeepFirstEndsAlike(xs: seq<IndexEntry>)
    requires xs != []
    ensures KeepFirst(xs) != [] && KeepFirst(xs)[|KeepFirst(xs)| - 1].key == xs[|xs| - 1].key
  {
  }

  /** Adding an entry at the end of a sorted vector: it is the newest of its key exactly
      when nothing before it has the key, and it never displaces another entry. */
  lemma NewestOfMore(init: seq<IndexEntry>, x: IndexEntry, e: IndexEntry)
    requires Sorted(init + [x])
    ensures Newest(init + [x], e) <==>
            Newest(init, e) || (e == x && forall f | f in init :: f.key != x.key)
  {
    var xs := init + [x];
    assert xs[|init|] == x;
    forall f | f in init
      ensures f in xs && (if f.key == x.key then x.offset <= f.offset else Less(f.key, x.key))
    {
      var i :| 0 <= i < |init| && init[i] == f;
      assert xs[i] == f;
      LastIsGreatest(xs, f);
    }
    if Newest(xs, e) && e == x && e !in init {
      forall f | f in init
        ensures f.key != x.key
      {
        assert f.key == x.key ==> f.offset == x.offset;
      }
    }
  }

  /** In a sorted vector the last entry's key is new exactly when its predecessor's differs. */
  lemma KeyIsNew(init: seq<IndexEntry>, x: IndexEntry)
    requires Sorted(init + [x]) && init != [] && init[|init| - 1].key != x.key
    ensures forall f | f in init :: f.key != x.key
  {
    var xs, last := init + [x], init[|init| - 1];
    assert Sorted(init) by {
      assert forall i | 0 <= i < |init| :: init[i] == xs[i];
    }
    forall f | f in init
      ensures f.key != x.key
    {
      assert xs[|init| - 1] == last && last in xs;
      LastIsGreatest(xs, last);
      LastIsGreatest(init, f);
      LessTotal(last.key, x.key);
    }
  }

  lemma {:induction false} KeepFirstNewest(xs: seq<IndexEntry>, e: IndexEntry)
    requires Sorted(xs)
    ensures e in KeepFirst(xs) <==> Newest(xs, e)
  {
    if xs == [] {
    } else {
      var init, x := xs[..|xs| - 1], xs[|xs| - 1];
      assert xs == init + [x];
      KeepFirstNewest(init, e);
      NewestOfMore(init, x, e);
      if init != [] {
        KeepFirstEndsAlike(init);
        if init[|init| - 1].key != x.key {
          KeyIsNew(init, x);
        } else {
          assert init[|init| - 1] in init;
        }
      }
    }
  }

  lemma {:induction false} KeepFirstStrict(xs: seq<IndexEntry>)
    requires Sorted(xs)
    ensures StrictKeys(KeepFirst(xs))
  {
    if xs == [] {
    } else {
      var init, x := xs[..|xs| - 1], xs[|xs| - 1];
      var kept := KeepFirst(init);
      KeepFirstStrict(init);
      if init != [] {
        KeepFirstEndsAlike(init);
        var last := kept[|kept| - 1];
        LastIsGreatest(xs, init[|init| - 1]);
        forall i | 0 <= i < |kept| && last.key != x.key
          ensures Less(kept[i].key, x.key)
        {
          if i < |kept| - 1 {
            LessTransitive(kept[i].key, last.key, x.key);
          }
        }
      }
    }
  }

  /** The index lists its keys in strictly ascending order and holds, for each key of the
      vector it was built from, exactly the entry with the greatest offset. */
  lemma IndexHoldsNewest(xs: seq<IndexEntry>)
    ensures StrictKeys(BuildIndex(xs))
    ensures forall e :: e in BuildIndex(xs) <==> Newest(xs, e)
  {
    SortSorts(xs);
    KeepFirstStrict(Sort(xs));
    forall e
      ensures e in Sort(xs) <==> e in xs
    {
      assert e in Sort(xs) <==> e in multiset(Sort(xs));
      assert e in xs <==> e in multiset(xs);
    }
    forall e
      ensures e in BuildIndex(xs) <==> Newest(xs, e)
    {
      KeepFirstNewest(Sort(xs), e);
    }
  }

  /** In an index, the lower bound of a key is its entry when there is one. */
  lemma LowerBoundFinds(xs: seq<IndexEntry>, e: IndexEntry)
    requires StrictKeys(xs) && e in xs
    ensures LowerBound(xs, e.key) < |xs| && xs[LowerBound(xs, e.key)] == e
  {
    var i :| 0 <= i < |xs| && xs[i] == e;
    LessTotal(e.key, e.key);
  }

  /** The keys that carry a prefix form one run of the index, and the run starts at the
      lower bound of the prefix. */
  lemma PrefixRun(xs: seq<IndexEntry>, prefix: Str, i: nat, j: nat)
    requires StrictKeys(xs) && i < j < |xs| && HasPrefix(xs[j].key, prefix)
    ensures i >= LowerBound(xs, prefix) ==> HasPrefix(xs[i].key, prefix)
    ensures j >= LowerBound(xs, prefix)
  {
    var b := LowerBound(xs, prefix);
    PrefixIsLeast(prefix, xs[j].key);
    if b <= i {
      LessTotal(xs[i].key, xs[j].key);
      if b < i && Less(xs[i].key, prefix) {
        LessTransitive(xs[b].key, xs[i].key, prefix);
      }
      PrefixIsConvex(prefix, xs[i].key, xs[j].key);
    }
  }

  /** The halving loop of the library call finds the same position. */
  method BinarySearch(xs: seq<IndexEntry>, key: Str) returns (i: nat)
    requires StrictKeys(xs)
    ensures i == LowerBound(xs, key)
  {
    i := 0;
    var n := |xs|;
    while n > 0
      invariant 0 <= i <= i + n <= |xs|
      invariant forall j | 0 <= j < i :: Less(xs[j].key, key)
      invariant forall j | i + n <= j < |xs| :: !Less(xs[j].key, key)
    {
      var half := n / 2;
      var mid := i + half;
      if Less(xs[mid].key, key) {
        forall j | i <= j < mid
          ensures Less(xs[j].key, key)
        {
          LessTransitive(xs[j].key, xs[mid].key, key);
        }
        i, n := mid + 1, n - half - 1;
      } else {
        forall j | mid < j < |xs|
          ensures !Less(xs[j].key, key)
        {
          if Less(xs[j].key, key) {
            LessTransitive(xs[mid].key, xs[j].key, key);
          }
        }
        n := half;
      }
    }
    var b := LowerBound(xs, key);
    assert i < |xs| ==> !Less(xs[i].key, key);
    assert b < |xs| ==> !Less(xs[b].key, key);
  }
}
