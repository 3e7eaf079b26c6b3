/** What a reader may still find after it has ended.

The server's database_get ends its read transaction before the bytes that it found are used. They
stay as they are until the second commit after the one that was read; from then on the writer may
store into their pages.
 */
module PageStoreAfterRead {
  import opened Basics
  import opened PageLists
  import opened PageStore
  import opened PageStoreInvariant
  import opened PageStoreRuns

  /** The file has the pages that transaction `t` committed, with their contents. */
  ghost predicate Shows(s: Env, t: TxnId) {
    var tree := Snap(s.committed, t).tree;
    forall p :: p in tree ==> p in s.view && s.view[p] == tree[p]
  }

  predicate NoCrash(steps: seq<Step>) {
    forall i :: 0 <= i < |steps| ==> !steps[i].Crash?
  }

  lemma OneStep(s: Env, step: Step, t: TxnId)
    requires Inv(s) && Enabled(s, step) && !step.Crash? && t <= s.current
    ensures s.current <= Apply(s, step).current && Snap(Apply(s, step).committed, t) == Snap(s.committed, t)
    ensures Shows(s, t) && s.current <= t + 1 ==> Shows(Apply(s, step), t)
  {
    hide GoodMetas, GoodHistory, GoodReaders, Tiled, Intact, Needed, Ready, Apart, CleanUnchanged, Lists;
    assert s.txn.Some? ==> s.txn.value.id == s.current + 1;
    if step.StorePage? && s.current <= t + 1 {
      assert Guarded(s.readers, s.current, t);
      assert step.pgno !in Snap(s.committed, t).tree;
    }
    hide Inv, GoodTxn, Private;
  }

  /** Over every run without a crash, the pages of transaction `t` stay as they are until the second
      commit after it. */
  lemma {:induction false} PagesStay(s: Env, steps: seq<Step>, end: Env, t: TxnId)
    requires Inv(s) && Runs(s, steps, end) && NoCrash(steps) && t <= s.current
    ensures s.current <= end.current && Snap(end.committed, t) == Snap(s.committed, t)
    ensures Shows(s, t) && end.current <= t + 1 ==> Shows(end, t)
    decreases |steps|
  {
    hide Inv, Enabled, Apply, Snap, Shows;
    if steps != [] {
      var step := steps[0];
      StepKeeps(s, step);
      OneStep(s, step, t);
      PagesStay(Apply(s, step), steps[1..], end, t);
    }
  }

  /** A reader that ends on the way finds its snapshot unchanged until the second commit after it. */
  lemma ReadBytesStay(s: Env, slot: nat, steps: seq<Step>, end: Env)
    requires Reachable(s) && slot in s.readers && Runs(s, steps, end) && NoCrash(steps)
    requires end.current <= s.readers[slot] + 1
    ensures var t := s.readers[slot]; Shows(end, t) && Snap(end.committed, t) == Snap(s.committed, t)
  {
    ReachableInv(s);
    ReaderIsolation(s, slot);
    hide Runs, Reachable;
    var t := s.readers[slot];
    assert t <= s.current by { hide GoodMetas, GoodHistory, Intact, Needed, GoodTxn, Ready; }
    hide Inv;
    assert Shows(s, t) by {
      var tree, seen := s.committed[t].tree, map p | p in s.committed[t].tree :: s.view[p];
      forall p | p in tree ensures s.view[p] == tree[p] { assert seen[p] == s.view[p]; }
    }
    PagesStay(s, steps, end, t);
  }

  // A run after which they have changed.

  lemma RunsFrom(s: Env, step: Step, steps: seq<Step>, end: Env)
    requires Enabled(s, step) && Runs(Apply(s, step), steps, end)
    ensures Runs(s, [step] + steps, end)
  {
    hide Enabled, Apply;
    assert ([step] + steps)[1..] == steps;
  }

  lemma {:induction false} RunsOn(s: Env, steps: seq<Step>, mid: Env, more: seq<Step>, end: Env)
    requires Runs(s, steps, mid) && Runs(mid, more, end)
    ensures Runs(s, steps + more, end)
    decreases |steps|
  {
    hide Enabled, Apply;
    if steps == [] {
      assert steps + more == more;
    } else {
      RunsOn(Apply(s, steps[0]), steps[1..], mid, more, end);
      assert (steps + more)[1..] == steps[1..] + more;
    }
  }

  // The steps, one at a time.

  lemma Begins(s: Env)
    requires s.txn.None?
    ensures Enabled(s, BeginWrite)
    ensures var base := Snap(s.committed, s.current);
            Apply(s, BeginWrite) ==
              s.(txn := Some(Txn(s.current + 1, base.tree, {}, [], [], 0, base.next, Working, map[])))
  {
    hide Snap;
  }

  lemma Grows(s: Env, c: Content)
    requires Writing(s)
    ensures var t, contents := s.txn.value, map[s.txn.value.next := c];
            && Enabled(s, Grow(1, contents))
            && Apply(s, Grow(1, contents)) ==
                 s.(txn := Some(t.(next := t.next + 1, tree := t.tree[t.next := c], dirty := t.dirty + {t.next})))
  {
    hide Snap;
    var t, contents := s.txn.value, map[s.txn.value.next := c];
    assert contents.Keys == {t.next} == Run(t.next, 1);
    assert t.tree + contents == t.tree[t.next := c];
  }

  lemma Frees(s: Env, p: PageNo)
    requires Writing(s) && p in s.txn.value.tree
    ensures var t := s.txn.value;
            && Enabled(s, FreePage(p))
            && Apply(s, FreePage(p)) == s.(txn := Some(t.(tree := t.tree - {p}, freed := t.freed + [p])))
  {
    hide Snap;
  }

  lemma Takes(s: Env, key: TxnId, p: PageNo)
    requires Writing(s) && s.readers == map[] && s.txn.value.last < key < s.current && s.txn.value.pool == []
    requires Snap(s.committed, s.current).free == map[key := [p]]
    ensures Enabled(s, Reclaim(key, [p]))
    ensures Apply(s, Reclaim(key, [p])) == s.(txn := Some(s.txn.value.(pool := [p], last := key)))
  {
    hide Snap;
  }

  lemma Uses(s: Env, p: PageNo, c: Content)
    requires Writing(s) && s.txn.value.pool == [p]
    ensures var t, step := s.txn.value, TakeRun(p, 1, map[p := c], []);
            && Enabled(s, step)
            && Apply(s, step) == s.(txn := Some(t.(pool := [], tree := t.tree[p := c], dirty := t.dirty + {p})))
  {
    hide Snap;
    var t, contents := s.txn.value, map[p := c];
    assert contents.Keys == {p} == Run(p, 1) == Elems([p]);
    assert t.tree + contents == t.tree[p := c];
  }

  lemma Stores(s: Env, p: PageNo, c: Content)
    requires Writing(s) && p in s.txn.value.dirty
    ensures Enabled(s, StorePage(p, c))
    ensures Apply(s, StorePage(p, c)) == s.(view := s.view[p := c], unsynced := s.unsynced + {p})
  {
    hide Snap;
  }

  /** The steps of a commit: sync, meta page, publication. */
  function Commit(sorted: seq<PageNo>): seq<Step> {
    [Sync(sorted)] + ([WriteMeta(true)] + ([Publish] + []))
  }

  /** No write transaction and no reader. */
  predicate Idle(s: Env) {
    s.txn == None && s.readers == map[] && |s.metas| == 2
  }

  /** What a commit leaves of a transaction at work that has not taken over any record. */
  lemma Commits(s: Env, sorted: seq<PageNo>) returns (end: Env)
    requires Writing(s) && |s.metas| == 2 && s.readers == map[] && s.txn.value.pool == [] && s.txn.value.last == 0
    requires forall k :: k in Snap(s.committed, s.current).free ==> k >= 1
    requires var t := s.txn.value; forall p :: p in t.tree && p in t.dirty ==> p in s.view && s.view[p] == t.tree[p]
    requires s.txn.value.freed == sorted && |sorted| <= 1
    ensures Runs(s, Commit(sorted), end) && Idle(end) && end.current == s.txn.value.id
    ensures var t, base := s.txn.value, Snap(s.committed, s.current).free;
            end.committed ==
              s.committed[t.id := Snapshot(t.tree, if sorted == [] then base else base[t.id := sorted], t.next)]
  {
    NothingTaken(s.txn.value, Snap(s.committed, s.current).free, sorted, s.maxFree);
    hide CommittedFree, MetaOf, Snap;
    var s1 := Syncs(s, sorted);
    var s2 := WritesMeta(s1);
    end := Publishes(s2);
    hide Enabled, Apply;
    RunsFrom(s2, Publish, [], end);
    RunsFrom(s1, WriteMeta(true), [Publish] + [], end);
    RunsFrom(s, Sync(sorted), [WriteMeta(true)] + ([Publish] + []), end);
  }

  lemma Syncs(s: Env, sorted: seq<PageNo>) returns (s': Env)
    requires Writing(s) && s.txn.value.freed == sorted && |sorted| <= 1
    requires var t := s.txn.value; forall p :: p in t.tree && p in t.dirty ==> p in s.view && s.view[p] == t.tree[p]
    ensures Enabled(s, Sync(sorted)) && s' == Apply(s, Sync(sorted))
    ensures var t := s.txn.value;
            s' == s.(unsynced := {}, durable := s.metas, txn := Some(t.(phase := Synced,
                       result := CommittedFree(t, Snap(s.committed, s.current).free, sorted, s.maxFree))))
  {
    hide CommittedFree, Snap;
    s' := Apply(s, Sync(sorted));
  }

  lemma WritesMeta(s: Env) returns (s': Env)
    requires InPhase(s, Synced) && |s.metas| == 2
    ensures Enabled(s, WriteMeta(true)) && s' == Apply(s, WriteMeta(true))
    ensures InPhase(s', MetaWritten) && |s'.metas| == 2 && s'.readers == s.readers
    ensures var t := s.txn.value;
            s'.txn.value.id == t.id && s'.committed == s.committed[t.id := Snapshot(t.tree, t.result, t.next)]
  {
    hide MetaOf, Snap;
    s' := Apply(s, WriteMeta(true));
  }

  lemma Publishes(s: Env) returns (s': Env)
    requires InPhase(s, MetaWritten)
    ensures Enabled(s, Publish) && s' == Apply(s, Publish) == s.(current := s.txn.value.id, txn := None)
  {
    hide Snap;
    s' := Apply(s, Publish);
  }

  /** The records that a commit leaves when no record was taken over. */
  lemma NothingTaken(t: Txn, base: FreeMap, sorted: seq<PageNo>, maxFree: nat)
    requires t.pool == [] && t.last == 0 && forall k :: k in base ==> k >= 1
    ensures CommittedFree(t, base, sorted, maxFree) == if sorted == [] then base else base[t.id := sorted]
  {
    assert Rest(base, 0) + map[] == base;
  }

  /** A transaction that adds a page. */
  lemma AddsPage(s: Env, c: Content) returns (steps: seq<Step>, end: Env)
    requires Idle(s) && forall k :: k in Snap(s.committed, s.current).free ==> k >= 1
    ensures Runs(s, steps, end) && NoCrash(steps) && Idle(end) && end.current == s.current + 1
    ensures var base := Snap(s.committed, s.current);
            end.committed ==
              s.committed[s.current + 1 := Snapshot(base.tree[base.next := c], base.free, base.next + 1)]
  {
    hide Snap, Enabled, Apply, Runs;
    var n := Snap(s.committed, s.current).next;
    Begins(s);
    var s1 := Apply(s, BeginWrite);
    Grows(s1, c);
    var s2 := Apply(s1, Grow(1, map[n := c]));
    Stores(s2, n, c);
    var s3 := Apply(s2, StorePage(n, c));
    end := Commits(s3, []);
    RunsFrom(s2, StorePage(n, c), Commit([]), end);
    RunsFrom(s1, Grow(1, map[n := c]), [StorePage(n, c)] + Commit([]), end);
    steps := [BeginWrite] + ([Grow(1, map[n := c])] + ([StorePage(n, c)] + Commit([])));
    RunsFrom(s, BeginWrite, [Grow(1, map[n := c])] + ([StorePage(n, c)] + Commit([])), end);
  }

  /** A transaction that frees a page. */
  lemma FreesPage(s: Env, p: PageNo) returns (steps: seq<Step>, end: Env)
    requires Idle(s) && p in Snap(s.committed, s.current).tree
    requires forall k :: k in Snap(s.committed, s.current).free ==> k >= 1
    ensures Runs(s, steps, end) && NoCrash(steps) && Idle(end) && end.current == s.current + 1
    ensures var base := Snap(s.committed, s.current);
            end.committed ==
              s.committed[s.current + 1 := Snapshot(base.tree - {p}, base.free[s.current + 1 := [p]], base.next)]
  {
    hide Snap, Enabled, Apply, Runs;
    Begins(s);
    var s1 := Apply(s, BeginWrite);
    Frees(s1, p);
    var s2 := Apply(s1, FreePage(p));
    end := Commits(s2, [p]);
    RunsFrom(s1, FreePage(p), Commit([p]), end);
    steps := [BeginWrite] + ([FreePage(p)] + Commit([p]));
    RunsFrom(s, BeginWrite, [FreePage(p)] + Commit([p]), end);
  }

  /** A transaction that takes over the only free page, which is old enough, and stores into it. */
  lemma ReusesPage(s: Env, key: TxnId, p: PageNo, c: Content) returns (steps: seq<Step>, end: Env)
    requires Idle(s) && Snap(s.committed, s.current).free == map[key := [p]] && 0 < key < s.current
    ensures Runs(s, steps, end) && NoCrash(steps)
    ensures end.committed == s.committed && end.current == s.current && end.view == s.view[p := c]
  {
    hide Snap, Enabled, Apply;
    var take := TakeRun(p, 1, map[p := c], []);
    Begins(s);
    var s1 := Apply(s, BeginWrite);
    Takes(s1, key, p);
    var s2 := Apply(s1, Reclaim(key, [p]));
    Uses(s2, p, c);
    var s3 := Apply(s2, take);
    Stores(s3, p, c);
    end := Apply(s3, StorePage(p, c));
    RunsFrom(s3, StorePage(p, c), [], end);
    RunsFrom(s2, take, [StorePage(p, c)] + [], end);
    RunsFrom(s1, Reclaim(key, [p]), [take] + ([StorePage(p, c)] + []), end);
    steps := [BeginWrite] + ([Reclaim(key, [p])] + ([take] + ([StorePage(p, c)] + [])));
    RunsFrom(s, BeginWrite, [Reclaim(key, [p])] + ([take] + ([StorePage(p, c)] + [])), end);
  }

  lemma RunsTo(s: Env, step: Step)
    requires Enabled(s, step)
    ensures Runs(s, [step], Apply(s, step))
  {
    hide Enabled, Apply;
    RunsFrom(s, step, [], Apply(s, step));
    assert [step] + [] == [step];
  }

  /** A state in which page 2 is all that transaction 1 committed, with a reader and when it has ended. */
  lemma OneReader(a: Content) returns (s: Env, s': Env)
    ensures Reachable(s) && s.readers == map[0 := 1] && Idle(s') && s'.current == 1
    ensures Snap(s'.committed, 1) == Snapshot(map[2 := a], map[], 3)
    ensures Enabled(s, EndRead(0)) && Apply(s, EndRead(0)) == s'
  {
    var snap := Snapshot(map[], map[], 2);
    var metas := [MetaOf(0, snap), MetaOf(0, snap)];
    var s0 := Env(map[], {}, metas, metas, 0, map[], None, 1, map[0 := snap]);
    assert Init(s0);
    var steps, s1 := AddsPage(s0, a);
    s := Apply(s1, BeginRead(0));
    s' := Apply(s, EndRead(0));
    assert s1.readers[0 := 1] - {0} == map[];
    hide Init, Runs;
    RunsTo(s1, BeginRead(0));
    RunsOn(s0, steps, s1, [BeginRead(0)], s);
  }

  /** A reader of transaction 1 ends. Transaction 2 frees its page, transaction 3 commits, and the next
      one stores something else into the page. */
  lemma ReadBytesChange(a: Content, b: Content, c: Content) returns (s: Env, steps: seq<Step>, end: Env)
    requires a != c
    ensures Reachable(s) && 0 in s.readers && s.readers[0] == 1
    ensures Runs(s, steps, end) && NoCrash(steps) && end.current == 3 && !Shows(end, 1)
  {
    var s1;
    s, s1 := OneReader(a);
    hide Runs, Reachable, Enabled, Apply;
    var free, s2 := FreesPage(s1, 2);
    var add, s3 := AddsPage(s2, b);
    var reuse;
    reuse, end := ReusesPage(s3, 2, 2, c);
    RunsTo(s, EndRead(0));
    RunsOn(s2, add, s3, reuse, end);
    RunsOn(s1, free, s2, add + reuse, end);
    steps := [EndRead(0)] + (free + (add + reuse));
    RunsOn(s, [EndRead(0)], s1, free + (add + reuse), end);
    assert 2 in Snap(end.committed, 1).tree && Snap(end.committed, 1).tree[2] == a;
  }
}
