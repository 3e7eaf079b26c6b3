/** The page allocator carries out steps of the multi-version page store.

A call of the allocator in a reachable state is a run of the transition system: one step for
each record it took and one for the pages it handed out. What is proved of every run, above
all that no snapshot in use loses a page, thus holds of the allocator's code.
 */
module AllocatorRefines {
  import opened Basics
  import opened PageLists
  import opened PageStore
  import opened PageStoreInvariant
  import opened PageStoreRuns
  import opened PageAllocator
  import A = PageAlloc
  import I = IdlSort

  /** The transaction number of a slot whose reader has ended. */
  const NO_TXN := 0xFFFF_FFFF_FFFF_FFFF

  /** The reader table of the file shows the registered readers. */
  ghost predicate SameReaders(slots: seq<A.Slot>, readers: Readers) {
    forall i: nat ::
      && (i in readers <==> i < |slots| && slots[i].pid != 0 && slots[i].txnid != NO_TXN)
      && (i in readers ==> readers[i] == slots[i].txnid)
  }

  /** The free-page records that a writer may take. */
  function Base(s: Env): FreeMap {
    Snap(s.committed, s.current).free
  }

  ghost predicate OlderThanAll(s: Env, oldest: TxnId) {
    oldest <= s.current && forall slot :: slot in s.readers ==> oldest <= s.readers[slot]
  }

  lemma OldestIsOlder(s: Env, slots: seq<A.Slot>, oldest: TxnId)
    requires SameReaders(slots, s.readers) && A.IsOldest(slots, s.current + 1, oldest)
    ensures OlderThanAll(s, oldest)
  {
  }

  /** In every reachable state the lists are as the allocator needs them. */
  lemma AllocatorReady(s: Env)
    requires Reachable(s) && Writing(s) && s.txn.value.next <= A.P_INVALID
    ensures Descending(s.txn.value.pool) && Separate(Base(s), s.txn.value.pool, s.txn.value.last)
  {
    ReachableInv(s);
    hide GoodMetas, GoodReaders, Intact, Needed, Ready, Reachable, Private, CleanUnchanged, Tiled, Descending, Lists;
    assert GoodSnapshot(Snap(s.committed, s.current), s.current);
    SeparateLists(s.txn.value, Snap(s.committed, s.current), s.current);
  }

  lemma SeparateLists(t: Txn, snap: Snapshot, current: TxnId)
    requires GoodSnapshot(snap, current) && t.id == current + 1 && t.last <= current
    requires Tiled(t.tree.Keys, Lists(t, snap.free), t.next) && snap.next <= t.next <= A.P_INVALID
    ensures Separate(snap.free, t.pool, t.last)
  {
    hide Descending;
    var lists := Lists(t, snap.free);
    forall p | p in t.pool ensures Listed(lists, t.last, p) { }
    forall k: TxnId, p: PageNo | k > t.last && Listed(snap.free, k, p) ensures Listed(lists, k, p) {
      assert k <= current;
    }
  }

  ghost function WithPool(s: Env, pool: seq<PageNo>, last: TxnId): Env
    requires s.txn.Some?
  {
    s.(txn := Some(s.txn.value.(pool := pool, last := last)))
  }

  ghost function Reclaims(trace: seq<Took>): seq<Step> {
    if trace == [] then []
    else Reclaims(trace[..|trace| - 1]) + [Reclaim(trace[|trace| - 1].key, trace[|trace| - 1].merged)]
  }

  lemma {:induction false} RunsOneMore(s: Env, steps: seq<Step>, mid: Env, step: Step)
    requires Runs(s, steps, mid) && Enabled(mid, step)
    ensures Runs(s, steps + [step], Apply(mid, step))
    decreases |steps|
  {
    hide Enabled, Apply;
    if steps == [] {
      assert steps + [step] == [step];
      assert [step][1..] == [];
    } else {
      RunsOneMore(Apply(s, steps[0]), steps[1..], mid, step);
      assert (steps + [step])[1..] == steps[1..] + [step];
    }
  }

  lemma {:induction false} RunsOn(start: Env, before: seq<Step>, s: Env, steps: seq<Step>, end: Env)
    requires Runs(start, before, s) && Runs(s, steps, end)
    ensures Runs(start, before + steps, end)
    decreases |steps|
  {
    hide Enabled, Apply;
    if steps == [] {
      assert before + steps == before;
    } else {
      RunsOneMore(start, before, s, steps[0]);
      RunsOn(start, before + [steps[0]], Apply(s, steps[0]), steps[1..], end);
      assert before + [steps[0]] + steps[1..] == before + steps;
    }
  }

  lemma ReachableOn(s: Env, steps: seq<Step>, end: Env)
    requires Reachable(s) && Runs(s, steps, end)
    ensures Reachable(end)
  {
    hide Runs, Init;
    var start: Env, before: seq<Step> :| Init(start) && Runs(start, before, s);
    RunsOn(start, before, s, steps, end);
  }

  lemma ReclaimEnabled(s: Env, oldest: TxnId, took: Took)
    requires Writing(s) && OlderThanAll(s, oldest)
    requires MayTake(Base(s), oldest, s.txn.value.pool, s.txn.value.last, took)
    ensures Enabled(s, Reclaim(took.key, took.merged))
    ensures Apply(s, Reclaim(took.key, took.merged)) == WithPool(s, took.merged, took.key)
  {
  }

  /** The records that a call takes are steps of the store. */
  lemma {:induction false} TakesRuns(s: Env, oldest: TxnId, trace: seq<Took>)
    requires Writing(s) && OlderThanAll(s, oldest)
    requires Takes(Base(s), oldest, s.txn.value.pool, s.txn.value.last, trace)
    ensures var t := s.txn.value;
            Runs(s, Reclaims(trace), WithPool(s, PoolAfter(t.pool, trace), LastAfter(t.last, trace)))
    decreases |trace|
  {
    hide Enabled, Apply, MayTake;
    if trace != [] {
      var n := |trace| - 1;
      var mid := WithPool(s, PoolAfter(s.txn.value.pool, trace[..n]), LastAfter(s.txn.value.last, trace[..n]));
      TakesRuns(s, oldest, trace[..n]);
      ReclaimEnabled(mid, oldest, trace[n]);
      RunsOneMore(s, Reclaims(trace[..n]), mid, Reclaim(trace[n].key, trace[n].merged));
    }
  }

  /** Pages cut out of the pool: the call is a run of the store, and no page it hands out is in the
      snapshot of a registered reader, in the last committed one or in the one before. */
  lemma TakenIsSafe(s: Env, oldest: TxnId, trace: seq<Took>, num: nat, pgno: PageNo, left: seq<PageNo>,
                    contents: map<PageNo, Content>)
    requires Reachable(s) && Writing(s) && OlderThanAll(s, oldest)
    requires Takes(Base(s), oldest, s.txn.value.pool, s.txn.value.last, trace)
    requires pgno != A.P_INVALID && A.Taken(PoolAfter(s.txn.value.pool, trace), num, pgno, left)
    requires contents.Keys == Run(pgno, num)
    ensures var mid := WithPool(s, PoolAfter(s.txn.value.pool, trace), LastAfter(s.txn.value.last, trace));
            Enabled(mid, TakeRun(pgno, num, contents, left))
            && Runs(s, Reclaims(trace) + [TakeRun(pgno, num, contents, left)],
                    Apply(mid, TakeRun(pgno, num, contents, left)))
    ensures forall t: TxnId, p: PageNo :: Protected(s, t) && pgno <= p < pgno + num ==> NotInSnapshot(s, t, p)
  {
    var mid := WithPool(s, PoolAfter(s.txn.value.pool, trace), LastAfter(s.txn.value.last, trace));
    var step := TakeRun(pgno, num, contents, left);
    assert Enabled(mid, step);
    hide Enabled, Apply, Runs, Takes, Reachable;
    TakesRuns(s, oldest, trace);
    RunsOneMore(s, Reclaims(trace), mid, step);
    ReachableOn(s, Reclaims(trace), mid);
    forall t: TxnId, p: PageNo | Protected(s, t) && pgno <= p < pgno + num ensures NotInSnapshot(s, t, p) {
      SnapshotSafety(mid, step, t, p);
    }
  }

  /** Pages from the end of the file are equally safe. */
  lemma GrownIsSafe(s: Env, oldest: TxnId, trace: seq<Took>, num: nat, contents: map<PageNo, Content>)
    requires Reachable(s) && Writing(s) && OlderThanAll(s, oldest)
    requires Takes(Base(s), oldest, s.txn.value.pool, s.txn.value.last, trace)
    requires contents.Keys == Run(s.txn.value.next, num)
    ensures var mid := WithPool(s, PoolAfter(s.txn.value.pool, trace), LastAfter(s.txn.value.last, trace));
            Enabled(mid, Grow(num, contents))
            && Runs(s, Reclaims(trace) + [Grow(num, contents)], Apply(mid, Grow(num, contents)))
    ensures forall t: TxnId, p: PageNo ::
      Protected(s, t) && s.txn.value.next <= p < s.txn.value.next + num ==> NotInSnapshot(s, t, p)
  {
    var mid := WithPool(s, PoolAfter(s.txn.value.pool, trace), LastAfter(s.txn.value.last, trace));
    var step := Grow(num, contents);
    assert Enabled(mid, step);
    hide Enabled, Apply, Runs, Takes, Reachable;
    TakesRuns(s, oldest, trace);
    RunsOneMore(s, Reclaims(trace), mid, step);
    ReachableOn(s, Reclaims(trace), mid);
    forall t: TxnId, p: PageNo | Protected(s, t) && s.txn.value.next <= p < s.txn.value.next + num
      ensures NotInSnapshot(s, t, p)
    {
      SnapshotSafety(mid, step, t, p);
    }
  }

  ghost predicate Protected(s: Env, t: TxnId) {
    t == s.current || t == Before(s.current) || Held(s.readers, t)
  }

  ghost predicate NotInSnapshot(s: Env, t: TxnId, p: PageNo) {
    t in s.committed && p !in s.committed[t].tree
  }

  /** What a call may end with: a run cut out of the pool, new pages, or none. */
  ghost predicate Outcome(s: Env, trace: seq<Took>, r: Result, num: nat, left: seq<PageNo>, next: PageNo)
    requires s.txn.Some?
  {
    var pool := PoolAfter(s.txn.value.pool, trace);
    if r.Pages? && next == s.txn.value.next then r.pgno != A.P_INVALID && A.Taken(pool, num, r.pgno, left)
    else if r.Pages? then left == pool && r.pgno == s.txn.value.next && next == s.txn.value.next + num
    else left == pool && next == s.txn.value.next
  }

  /** The state of the store after a call. */
  ghost predicate Reached(s: Env, s': Env, left: seq<PageNo>, last: TxnId, next: PageNo) {
    && Reachable(s') && Writing(s')
    && s'.committed == s.committed && s'.current == s.current && s'.readers == s.readers
    && s'.txn.value.pool == left && s'.txn.value.last == last && s'.txn.value.next == next
  }

  ghost predicate Safe(s: Env, s': Env, pgno: PageNo, num: nat) {
    && Writing(s') && Run(pgno, num) <= s'.txn.value.dirty && Run(pgno, num) <= s'.txn.value.tree.Keys
    && forall t: TxnId, p: PageNo :: Protected(s, t) && pgno <= p < pgno + num ==> NotInSnapshot(s, t, p)
  }

  lemma AfterTake(s: Env, oldest: TxnId, trace: seq<Took>, num: nat, pgno: PageNo, left: seq<PageNo>, content: Content)
    returns (s': Env)
    requires Reachable(s) && Writing(s) && OlderThanAll(s, oldest)
    requires Takes(Base(s), oldest, s.txn.value.pool, s.txn.value.last, trace)
    requires pgno != A.P_INVALID && A.Taken(PoolAfter(s.txn.value.pool, trace), num, pgno, left)
    ensures Reached(s, s', left, LastAfter(s.txn.value.last, trace), s.txn.value.next) && Safe(s, s', pgno, num)
  {
    hide Reachable, Takes, A.Taken, Runs, Enabled, Protected, NotInSnapshot;
    hide Run, PoolAfter, LastAfter, OlderThanAll, Reclaims;
    var contents := map p | p in Run(pgno, num) :: content;
    assert contents.Keys == Run(pgno, num);
    TakenIsSafe(s, oldest, trace, num, pgno, left, contents);
    var mid := WithPool(s, PoolAfter(s.txn.value.pool, trace), LastAfter(s.txn.value.last, trace));
    var step := TakeRun(pgno, num, contents, left);
    s' := Apply(mid, step);
    ReachableOn(s, Reclaims(trace) + [step], s');
  }

  lemma AfterGrow(s: Env, oldest: TxnId, trace: seq<Took>, num: nat, content: Content) returns (s': Env)
    requires Reachable(s) && Writing(s) && OlderThanAll(s, oldest)
    requires Takes(Base(s), oldest, s.txn.value.pool, s.txn.value.last, trace)
    ensures var t := s.txn.value;
            Reached(s, s', PoolAfter(t.pool, trace), LastAfter(t.last, trace), t.next + num)
    ensures Safe(s, s', s.txn.value.next, num)
  {
    hide Reachable, Takes, Runs, Enabled, Protected, NotInSnapshot, Run, PoolAfter, LastAfter, OlderThanAll, Reclaims;
    var contents := map p | p in Run(s.txn.value.next, num) :: content;
    assert contents.Keys == Run(s.txn.value.next, num);
    GrownIsSafe(s, oldest, trace, num, contents);
    var mid := WithPool(s, PoolAfter(s.txn.value.pool, trace), LastAfter(s.txn.value.last, trace));
    s' := Apply(mid, Grow(num, contents));
    ReachableOn(s, Reclaims(trace) + [Grow(num, contents)], s');
  }

  lemma AfterCall(s: Env, oldest: TxnId, trace: seq<Took>, r: Result, num: nat, left: seq<PageNo>, next: PageNo,
                  content: Content)
    returns (s': Env)
    requires Reachable(s) && Writing(s) && OlderThanAll(s, oldest)
    requires Takes(Base(s), oldest, s.txn.value.pool, s.txn.value.last, trace) && Outcome(s, trace, r, num, left, next)
    ensures Reached(s, s', left, LastAfter(s.txn.value.last, trace), next) && (r.Pages? ==> Safe(s, s', r.pgno, num))
  {
    hide Reachable, Takes, A.Taken, Safe, OlderThanAll;
    if r.Pages? && next == s.txn.value.next {
      s' := AfterTake(s, oldest, trace, num, r.pgno, left, content);
    } else if r.Pages? {
      s' := AfterGrow(s, oldest, trace, num, content);
    } else {
      TakesRuns(s, oldest, trace);
      s' := WithPool(s, PoolAfter(s.txn.value.pool, trace), LastAfter(s.txn.value.last, trace));
      ReachableOn(s, Reclaims(trace), s');
    }
  }

  /** The allocator's fields and the reader table show this state of the store. */
  ghost predicate Represents(a: Allocator, s: Env)
    reads a, a.pghead, a.readers
  {
    && Writing(s) && a.Valid()
    && a.txnid == s.current + 1 && a.free == Base(s) && SameReaders(a.readers[..], s.readers)
    && s.txn.value.pool == a.Pool() && s.txn.value.last == a.pglast && s.txn.value.next == a.nextPgno
  }

  /** A call of the allocator on a reachable state of the store leads to a reachable state, which its
      fields show again, and no page that it returns is in the snapshot of a registered reader, in
      the last committed one or in the one before. */
  method AllocateInStore(a: Allocator, num: nat, ghost s: Env, ghost content: Content)
    returns (r: Result, ghost s': Env)
    requires Reachable(s) && Represents(a, s) && num >= 1
    modifies a`pghead, a`pglast, a`nextPgno, a`dirtyRoom, a.pghead
    ensures Reachable(s') && Represents(a, s')
    ensures s'.committed == s.committed && s'.current == s.current && s'.readers == s.readers
    ensures r.Pages? ==> Safe(s, s', r.pgno, num)
  {
    hide Reachable, Takes, A.Taken, SameReaders, NoRun, Exhausted, Run, Separate, Descending, Safe;
    ghost var oldest, trace;
    ghost var slots := a.readers[..];
    r, oldest, trace := a.Allocate(num);
    assert a.readers[..] == slots;
    OldestIsOlder(s, slots, oldest);
    s' := AfterCall(s, oldest, trace, r, num, a.Pool(), a.nextPgno, content);
  }

  /** Sorting the freed pages gives the list that a commit writes: a list of different numbers comes
      out strictly descending, with the same pages. */
  lemma SortedForCommit(s: seq<nat>, t: seq<nat>, n: nat)
    requires n < |s| && I.Shuffled(s, t, 1, n) && NoDup(s[1..n + 1])
    requires forall x, y :: 1 <= x < y <= n ==> t[x] >= t[y]
    ensures Descending(t[1..n + 1]) && multiset(t[1..n + 1]) == multiset(s[1..n + 1])
  {
    var a, b := s[1..n + 1], t[1..n + 1];
    assert s == s[..1] + a + s[n + 1..];
    assert t == s[..1] + b + s[n + 1..];
    I.MiddleEqual(s[..1], a, b, s[n + 1..]);
    NoDupPermutation(b, a);
    forall x, y | 0 <= x < y < |b| ensures b[x] > b[y] {
      assert b[x] == t[x + 1] && b[y] == t[y + 1];
      assert b[x] != b[y];
    }
  }
}
