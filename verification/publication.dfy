/** Lock-free prepending to the list of tables, at the granularity of one atomic load or
    one compare-and-swap, with any number of publishers and with spurious failures. */
module Publication {
  import opened Wrappers
  import opened Bytes

  /** A publisher owns one node: allocated, then with a loaded expectation. */
  datatype Phase = Allocated | Loaded

  /** `published` is a history variable: the nodes whose swap succeeded, newest first. */
  datatype State = State(
    head: Option<nat>,
    next: map<nat, Option<nat>>,
    pending: map<nat, Phase>,
    published: seq<nat>)

  /** Following `next` from a node visits exactly this list and ends. */
  ghost predicate Chain(next: map<nat, Option<nat>>, from: Option<nat>, list: seq<nat>)
    decreases list
  {
    if list == [] then from == None
    else from == Some(list[0]) && list[0] in next && Chain(next, next[list[0]], list[1..])
  }

  ghost predicate NoDuplicates(list: seq<nat>) {
    forall i, j | 0 <= i < j < |list| :: list[i] != list[j]
  }

  ghost predicate IsSuffix(older: seq<nat>, newer: seq<nat>) {
    |older| <= |newer| && newer[|newer| - |older|..] == older
  }

  ghost predicate Init(s: State) {
    && Chain(s.next, s.head, s.published)
    && NoDuplicates(s.published)
    && s.pending == map[]
    && s.next.Keys == set n | n in s.published
  }

  ghost predicate Allocate(s: State, n: nat, s': State) {
    && n !in s.next
    && s' == s.(next := s.next[n := None], pending := s.pending[n := Allocated])
  }

  ghost predicate Load(s: State, n: nat, s': State) {
    && n in s.pending && s.pending[n] == Allocated
    && s' == s.(next := s.next[n := s.head], pending := s.pending[n := Loaded])
  }

  ghost predicate SwapSucceeds(s: State, n: nat, s': State) {
    && n in s.pending && s.pending[n] == Loaded && n in s.next && s.next[n] == s.head
    && s' == s.(head := Some(n), pending := s.pending - {n}, published := [n] + s.published)
  }

  /** A failed weak swap stores the head it saw; it may fail although the head matched. */
  ghost predicate SwapFails(s: State, n: nat, s': State) {
    && n in s.pending && s.pending[n] == Loaded
    && s' == s.(next := s.next[n := s.head])
  }

  ghost predicate Step(s: State, n: nat, s': State) {
    Allocate(s, n, s') || Load(s, n, s') || SwapSucceeds(s, n, s') || SwapFails(s, n, s')
  }

  ghost predicate Next(s: State, s': State) {
    exists n :: Step(s, n, s')
  }

  ghost predicate StepAt(run: seq<State>, i: nat)
    requires i + 1 < |run|
  {
    Next(run[i], run[i + 1])
  }

  ghost predicate IsRun(run: seq<State>) {
    && run != [] && Init(run[0])
    && forall i: nat | i + 1 < |run| :: StepAt(run, i)
  }

  ghost predicate Inv(s: State) {
    && Chain(s.next, s.head, s.published)
    && NoDuplicates(s.published)
    && (forall n | n in s.pending :: n in s.next && n !in s.published)
    && (forall n | n in s.next :: n in s.pending || n in s.published)
    && (forall n | n in s.published :: n in s.next)
  }

  lemma {:induction false} ChainFrame(next: map<nat, Option<nat>>, from: Option<nat>, list: seq<nat>,
                                      n: nat, v: Option<nat>)
    requires Chain(next, from, list) && n !in list
    ensures Chain(next[n := v], from, list)
    decreases list
  {
    if list == [] {
    } else {
      ChainFrame(next, next[list[0]], list[1..], n, v);
    }
  }

  /** From any node at most one list starts. */
  lemma {:induction false} ChainUnique(next: map<nat, Option<nat>>, from: Option<nat>, a: seq<nat>, b: seq<nat>)
    requires Chain(next, from, a) && Chain(next, from, b)
    ensures a == b
    decreases a
  {
    if a == [] {
    } else {
      ChainUnique(next, next[a[0]], a[1..], b[1..]);
    }
  }

  lemma SuffixTransitive(a: seq<nat>, b: seq<nat>, c: seq<nat>)
    requires IsSuffix(a, b) && IsSuffix(b, c)
    ensures IsSuffix(a, c)
  {
    assert forall i | 0 <= i < |a| ::
        c[|c| - |a|..][i] == c[|c| - |b|..][|b| - |a| + i] == b[|b| - |a|..][i] == a[i];
  }

  lemma SwapKeeps(s: State, n: nat, s': State)
    requires Inv(s) && SwapSucceeds(s, n, s')
    ensures Inv(s') && IsSuffix(s.published, s'.published)
  {
    assert s'.published[1..] == s.published;
  }

  lemma OtherStepsKeep(s: State, n: nat, s': State)
    requires Inv(s) && (Allocate(s, n, s') || Load(s, n, s') || SwapFails(s, n, s'))
    ensures Inv(s') && IsSuffix(s.published, s'.published)
  {
    assert n !in s.published;
    ChainFrame(s.next, s.head, s.published, n, s'.next[n]);
  }

  lemma {:induction false} RunInv(run: seq<State>, i: nat)
    requires IsRun(run) && i < |run|
    ensures Inv(run[i])
    ensures i > 0 ==> IsSuffix(run[i - 1].published, run[i].published)
  {
    if i == 0 {
    } else {
      RunInv(run, i - 1);
      assert StepAt(run, i - 1);
      var n :| Step(run[i - 1], n, run[i]);
      if SwapSucceeds(run[i - 1], n, run[i]) {
        SwapKeeps(run[i - 1], n, run[i]);
      } else {
        OtherStepsKeep(run[i - 1], n, run[i]);
      }
    }
  }

  /** In every interleaving the list is finite and acyclic, and holds every completed
      publication exactly once and nothing else. */
  lemma CompletedExactlyOnce(run: seq<State>, i: nat)
    requires IsRun(run) && i < |run|
    ensures Chain(run[i].next, run[i].head, run[i].published)
    ensures NoDuplicates(run[i].published)
    ensures forall n :: n in run[i].published <==> n in run[i].next && n !in run[i].pending
  {
    RunInv(run, i);
  }

  lemma {:induction false} PublishedOnlyGrows(run: seq<State>, i: nat, j: nat)
    requires IsRun(run) && i <= j < |run|
    ensures IsSuffix(run[i].published, run[j].published)
    decreases j
  {
    if i == j {
    } else {
      PublishedOnlyGrows(run, i, j - 1);
      RunInv(run, j);
      SuffixTransitive(run[i].published, run[j - 1].published, run[j].published);
    }
  }

  lemma {:induction false} ChainTail(next: map<nat, Option<nat>>, from: Option<nat>, list: seq<nat>, k: nat)
    requires Chain(next, from, list) && k <= |list|
    ensures Chain(next, if k < |list| then Some(list[k]) else None, list[k..])
    decreases list
  {
    if k > 0 {
      ChainTail(next, next[list[0]], list[1..], k - 1);
      assert list[1..][k - 1..] == list[k..];
    } else {
      assert list[0..] == list;
    }
  }

  lemma SuffixIsFrozen(a: State, b: State)
    requires Chain(a.next, a.head, a.published) && Chain(b.next, b.head, b.published)
    requires IsSuffix(a.published, b.published)
    ensures Chain(b.next, a.head, a.published)
  {
    ChainTail(b.next, b.head, b.published, |b.published| - |a.published|);
  }

  /** A head loaded at one moment denotes, at every later moment, the list it denoted
      then; and that list is a suffix of all later lists. */
  lemma LoadedHeadIsFrozen(run: seq<State>, i: nat, j: nat)
    requires IsRun(run) && i <= j < |run|
    ensures Chain(run[j].next, run[i].head, run[i].published)
    ensures IsSuffix(run[i].published, run[j].published)
  {
    RunInv(run, i);
    RunInv(run, j);
    PublishedOnlyGrows(run, i, j);
    SuffixIsFrozen(run[i], run[j]);
  }
}
