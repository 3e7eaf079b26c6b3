/** Commit and crash steps of the page store, and what follows for whole runs. */
module PageStoreRuns {
  import opened Basics
  import opened PageLists
  import opened PageStore
  import opened PageStoreInvariant

  /** The records to be committed keep clear of every guarded snapshot. */
  lemma CommitApart(s: Env, sorted: seq<PageNo>, g: TxnId)
    requires Inv(s) && Enabled(s, Sync(sorted)) && Guarded(s.readers, s.current, g)
    ensures var free := CommittedFree(s.txn.value, Snap(s.committed, s.current).free, sorted, s.maxFree);
            Apart(free, g, Snap(s.committed, g).tree)
  {
    hide Tiled, GoodMetas, GoodHistory, GoodReaders, Intact, Needed, Lists, CleanUnchanged, Descending;
    var t := s.txn.value;
    var base := Snap(s.committed, s.current).free;
    var tree := Snap(s.committed, g).tree;
    var free := CommittedFree(t, base, sorted, s.maxFree);
    assert t.last < t.id;
    OldRecordsApart(s, g);
    forall k: TxnId, p: PageNo | Listed(free, k, p) && k <= g ensures p !in tree {
      CommittedFrom(t, base, sorted, s.maxFree, k, p);
      assert p in t.pool ==> p in Elems(t.pool);
    }
  }

  /** Once synced, the tree of the transaction is in the file with its contents. */
  lemma SyncedTreeIntact(s: Env, sorted: seq<PageNo>)
    requires Inv(s) && Enabled(s, Sync(sorted))
    ensures Intact(s.view, {}, s.txn.value.tree)
  {
    hide Tiled, GoodMetas, GoodHistory, GoodReaders, Lists, Descending, Private;
    assert Needed(s, s.current);
  }

  lemma SyncKeeps(s: Env, sorted: seq<PageNo>)
    requires Inv(s) && Enabled(s, Sync(sorted))
    ensures Inv(Apply(s, Sync(sorted)))
  {
    hide Tiled, GoodHistory, GoodReaders, Lists, CleanUnchanged, Private, CommittedFree;
    var s' := Apply(s, Sync(sorted));
    var t, t' := s.txn.value, s'.txn.value;
    CurrentGood(s);
    CommitTiles(t, Snap(s.committed, s.current).free, sorted, s.maxFree);
    forall g: TxnId | Guarded(s.readers, s.current, g) ensures Apart(t'.result, g, Snap(s.committed, g).tree) {
      CommitApart(s, sorted, g);
    }
    SyncedTreeIntact(s, sorted);
    hide Apart, Descending, GoodSnapshot;
    assert GoodTxn(t', s.committed, s.readers, s.current) by { SameWork(t, t', s); }
    forall u: TxnId | Needed(s', u) ensures Intact(s'.view, s'.unsynced, Snap(s.committed, u).tree) {
      assert Needed(s, u);
    }
  }

  lemma SameWork(t: Txn, t': Txn, s: Env)
    requires GoodTxn(t, s.committed, s.readers, s.current)
    requires t' == t.(phase := t'.phase, result := t'.result)
    ensures GoodTxn(t', s.committed, s.readers, s.current)
  {
    hide Tiled, Private;
  }

  /** Two histories that say the same up to `n`. */
  ghost predicate SameUpTo(h: History, h': History, n: TxnId) {
    forall u: TxnId :: u <= n ==> Snap(h', u) == Snap(h, u)
  }

  /** A good history grows by a snapshot that is good by itself and good after the last one. */
  lemma ExtendHistory(h: History, n: TxnId, snap: Snapshot)
    requires GoodHistory(h, n) && GoodSnapshot(snap, n + 1)
    requires Snap(h, n).next <= snap.next && Apart(snap.free, n, Snap(h, n).tree)
    ensures GoodHistory(h[n + 1 := snap], n + 1) && SameUpTo(h, h[n + 1 := snap], n)
  {
    hide Apart, GoodSnapshot;
    var h' := h[n + 1 := snap];
    assert SameUpTo(h, h', n);
    assert Snap(h', n + 1) == snap;
    forall t: TxnId, u: TxnId | t == Before(u) && u <= n + 1 ensures Apart(Snap(h', u).free, t, Snap(h', t).tree) {}
    forall t: TxnId, u: TxnId | t <= u <= n + 1 ensures Snap(h', t).next <= Snap(h', u).next {
      if t <= n { assert Snap(h, t).next <= Snap(h, n).next; }
    }
  }

  /** The new meta page replaces the one of the transaction before the last. */
  lemma ExtendMetas(metas: seq<Meta>, durable: seq<Meta>, h: History, h': History, n: TxnId, synced: bool)
    requires GoodMetas(metas, durable, h, n) && durable[n % 2] == metas[n % 2] && SameUpTo(h, h', n)
    ensures var metas' := metas[(n + 1) % 2 := MetaOf(n + 1, Snap(h', n + 1))];
            GoodMetas(metas', if synced then metas' else durable, h', n + 1)
  {
    assert (n + 1) % 2 == 1 - n % 2;
    hide Snap, MetaOf;
  }

  lemma WriteMetaKeeps(s: Env, synced: bool)
    requires Inv(s) && Enabled(s, WriteMeta(synced))
    ensures Inv(Apply(s, WriteMeta(synced)))
  {
    hide Tiled, GoodHistory, GoodMetas, Intact, Lists, CleanUnchanged, Apart, GoodSnapshot, Descending, Private, MetaOf;
    var s' := Apply(s, WriteMeta(synced));
    var n, t, t' := s.current, s.txn.value, s'.txn.value;
    assert Newest(s) == n && Newest(s') == n + 1;
    assert Guarded(s.readers, n, n);
    var snap := Snapshot(t.tree, t.result, t.next);
    assert s'.committed == s.committed[n + 1 := snap];
    ExtendHistory(s.committed, n, snap);
    assert |s.metas| == 2 && |s.durable| == 2 && s.durable[n % 2] == s.metas[n % 2];
    ExtendMetas(s.metas, s.durable, s.committed, s'.committed, n, synced);
    SameWork2(t, t', s, s'.committed);
    hide GoodTxn, Ready;
    assert Snap(s'.committed, n + 1) == snap;
    assert Ready(t', s'.committed, s.readers, n) by { SameReady(t, t', s, s'.committed); }
    forall u: TxnId | Needed(s', u) ensures Intact(s'.view, s'.unsynced, Snap(s'.committed, u).tree) {
      assert u == n + 1 || (u <= n && Needed(s, u));
    }
  }

  lemma SameWork2(t: Txn, t': Txn, s: Env, h: History)
    requires GoodTxn(t, s.committed, s.readers, s.current)
    requires t' == t.(phase := t'.phase)
    requires SameUpTo(s.committed, h, s.current)
    ensures GoodTxn(t', h, s.readers, s.current)
  {
    hide Tiled;
  }

  lemma SameReady(t: Txn, t': Txn, s: Env, h: History)
    requires Ready(t, s.committed, s.readers, s.current)
    requires t' == t.(phase := MetaWritten)
    requires SameUpTo(s.committed, h, s.current) && Snap(h, t.id) == Snapshot(t.tree, t.result, t.next)
    ensures Ready(t', h, s.readers, s.current)
  {
    hide GoodSnapshot, Apart;
  }

  /** Whatever subset of the meta writes reached the disk, the meta page with the larger number
      is that of the newest transaction, or of the one before if the newest was not yet durable;
      it sits in the page of its parity, and the other page holds its predecessor. */
  lemma CrashPicks(s: Env, disk: map<PageNo, Content>, kept: seq<Meta>) returns (t: TxnId)
    requires Inv(s) && Enabled(s, Crash(disk, kept))
    ensures t == kept[PickMeta(kept)].txnid
    ensures t == Newest(s) || (t == Before(Newest(s)) && !NewestDurable(s))
    ensures PickMeta(kept) == t % 2 && kept[t % 2] == MetaOf(t, Snap(s.committed, t))
    ensures kept[1 - t % 2] == MetaOf(Before(t), Snap(s.committed, Before(t)))
  {
    hide GoodHistory, GoodReaders, GoodTxn, Ready, Intact, Needed, Snap;
    var n := Newest(s);
    t := kept[PickMeta(kept)].txnid;
    assert kept[1 - n % 2] == s.metas[1 - n % 2];
    if kept[n % 2] == s.metas[n % 2] {
      assert t == n;
    } else {
      assert kept[n % 2] == s.durable[n % 2] == MetaOf(Before(Before(n)), Snap(s.committed, Before(Before(n))));
      assert n != 0;
      assert t == n - 1;
    }
  }

  /** Crash recovery. The meta page found after a crash leads to exactly what its transaction
      committed: the pages with their contents, the free-page records and the file end. */
  lemma CrashRecovers(s: Env, disk: map<PageNo, Content>, kept: seq<Meta>)
    requires Inv(s) && Enabled(s, Crash(disk, kept))
    ensures var m := kept[PickMeta(kept)];
            && m.txnid in s.committed
            && (m.txnid == Newest(s) || (m.txnid == Before(Newest(s)) && !NewestDurable(s)))
            && m.pages <= disk.Keys
            && (map p | p in m.pages :: disk[p]) == s.committed[m.txnid].tree
            && m.free == s.committed[m.txnid].free && m.next == s.committed[m.txnid].next
  {
    var t := CrashPicks(s, disk, kept);
    assert t in s.committed by { assert t <= Newest(s); }
    hide GoodHistory, GoodMetas, GoodReaders, GoodTxn, Ready;
    assert Needed(s, t);
  }

  lemma TruncateHistory(h: History, n: TxnId, t: TxnId)
    requires GoodHistory(h, n) && t <= n
    ensures var h' := map k | k in h && k <= t :: h[k];
            GoodHistory(h', t) && SameUpTo(h, h', t)
  {
    hide Apart, GoodSnapshot;
    var h' := map k | k in h && k <= t :: h[k];
    assert SameUpTo(h, h', t);
  }

  lemma CrashKeeps(s: Env, disk: map<PageNo, Content>, kept: seq<Meta>)
    requires Inv(s) && Enabled(s, Crash(disk, kept))
    ensures Inv(Apply(s, Crash(disk, kept)))
  {
    var t := CrashPicks(s, disk, kept);
    var s' := Apply(s, Crash(disk, kept));
    assert Needed(s, t);
    TruncateHistory(s.committed, Newest(s), t);
    hide GoodHistory, GoodTxn, Ready, GoodReaders, MetaOf, PickMeta, Snap, GoodMetas;
    NoReaders(s'.committed, t);
    CrashMetas(s.committed, s'.committed, kept, t);
    assert Newest(s') == t && NewestDurable(s');
    forall u: TxnId | Needed(s', u) ensures Intact(disk, {}, Snap(s'.committed, u).tree) { assert u == t; }
  }

  lemma CrashMetas(h: History, h': History, kept: seq<Meta>, t: TxnId)
    requires |kept| == 2 && SameUpTo(h, h', t)
    requires kept[t % 2] == MetaOf(t, Snap(h, t)) && kept[1 - t % 2] == MetaOf(Before(t), Snap(h, Before(t)))
    ensures GoodMetas(kept, kept, h', t)
  {
    hide MetaOf, Snap;
  }

  lemma NoReaders(h: History, current: TxnId)
    ensures GoodReaders(map[], h, current)
  {
  }

  /** Every step keeps the invariant. */
  lemma StepKeeps(s: Env, step: Step)
    requires Inv(s) && Enabled(s, step)
    ensures Inv(Apply(s, step))
  {
    hide Inv, Enabled, Apply;
    match step
    case BeginRead(slot) => BeginReadKeeps(s, slot);
    case EndRead(slot) => EndReadKeeps(s, slot);
    case BeginWrite => BeginWriteKeeps(s);
    case Reclaim(key, merged) => ReclaimKeeps(s, key, merged);
    case TakeRun(pgno, num, contents, left) => TakeRunKeeps(s, pgno, num, contents, left);
    case Grow(num, contents) => GrowKeeps(s, num, contents);
    case FreePage(pgno) => FreePageKeeps(s, pgno);
    case GiveBack(pgno, num, merged) => GiveBackKeeps(s, pgno, num, merged);
    case Modify(pgno, content) => ModifyKeeps(s, pgno, content);
    case StorePage(pgno, content) => StorePageKeeps(s, pgno, content);
    case Sync(sorted) => SyncKeeps(s, sorted);
    case WriteMeta(synced) => WriteMetaKeeps(s, synced);
    case Publish => PublishKeeps(s);
    case Abort => AbortKeeps(s);
    case Crash(disk, kept) => CrashKeeps(s, disk, kept);
  }

  /** `steps` is a run from `s` to `end`. */
  ghost predicate Runs(s: Env, steps: seq<Step>, end: Env)
    decreases |steps|
  {
    if steps == [] then s == end
    else Enabled(s, steps[0]) && Runs(Apply(s, steps[0]), steps[1..], end)
  }

  ghost predicate Reachable(s: Env) {
    exists start: Env, steps: seq<Step> :: Init(start) && Runs(start, steps, s)
  }

  lemma {:induction false} RunKeeps(s: Env, steps: seq<Step>, end: Env)
    requires Inv(s) && Runs(s, steps, end)
    ensures Inv(end)
    decreases |steps|
  {
    hide Inv, Enabled, Apply;
    if steps != [] {
      StepKeeps(s, steps[0]);
      RunKeeps(Apply(s, steps[0]), steps[1..], end);
    }
  }

  lemma ReachableInv(s: Env)
    requires Reachable(s)
    ensures Inv(s)
  {
    hide Inv, Init;
    var start: Env, steps: seq<Step> :| Init(start) && Runs(start, steps, s);
    InitInv(start);
    RunKeeps(start, steps, s);
  }

  /** The page numbers that an allocation step hands out. */
  ghost function Allocated(s: Env, step: Step): set<PageNo>
    requires Enabled(s, step)
  {
    match step
    case TakeRun(pgno, num, _, _) => Run(pgno, num)
    case Grow(num, _) => Run(s.txn.value.next, num)
    case _ => {}
  }

  /** Snapshot safety. In every reachable state, no page number that the allocator hands out is in
      the snapshot of a registered reader, in the last committed snapshot or in the one before. */
  lemma SnapshotSafety(s: Env, step: Step, t: TxnId, p: PageNo)
    requires Reachable(s) && Enabled(s, step) && p in Allocated(s, step)
    requires t == s.current || t == Before(s.current) || Held(s.readers, t)
    ensures t in s.committed && p !in s.committed[t].tree
  {
    ReachableInv(s);
    hide GoodMetas, Intact, Needed, Ready, Tiled, Reachable;
    assert t <= s.current by { assert Held(s.readers, t) ==> t <= s.current; }
    assert Guarded(s.readers, s.current, t);
    if step.Grow? { BeyondPrivate(s, s.txn.value.next, step.num, {}); }
  }

  /** Isolation. In every reachable state, a reader finds in the file exactly the pages and the
      contents that its transaction committed. */
  lemma ReaderIsolation(s: Env, slot: nat)
    requires Reachable(s) && slot in s.readers
    ensures s.readers[slot] in s.committed
    ensures var tree := s.committed[s.readers[slot]].tree;
            tree.Keys <= s.view.Keys && (map p | p in tree :: s.view[p]) == tree
  {
    ReachableInv(s);
    hide GoodMetas, Ready, Tiled, Reachable, GoodTxn, GoodSnapshot, Apart;
    assert Held(s.readers, s.readers[slot]);
    assert Needed(s, s.readers[slot]);
  }

  /** This step neither ends the reader nor the process. */
  predicate Spares(step: Step, slot: nat) {
    step != EndRead(slot) && !step.Crash?
  }

  lemma SnapshotStays(s: Env, step: Step, slot: nat)
    requires Inv(s) && Enabled(s, step) && slot in s.readers && Spares(step, slot)
    ensures var s' := Apply(s, step);
            slot in s'.readers && s'.readers[slot] == s.readers[slot]
            && Snap(s'.committed, s.readers[slot]) == Snap(s.committed, s.readers[slot])
  {
    hide GoodMetas, GoodHistory, Tiled, Intact, Needed, Ready, Apart, Private, CleanUnchanged, Lists;
    assert s.readers[slot] <= s.current && (s.txn.Some? ==> s.txn.value.id == s.current + 1);
    hide Inv, GoodTxn, GoodReaders;
  }

  /** A reader keeps one and the same snapshot from the step that registers it to the step that
      ends it, whatever the writer does in between. */
  lemma {:induction false} ReaderSeesOneSnapshot(s: Env, steps: seq<Step>, end: Env, slot: nat)
    requires Inv(s) && Runs(s, steps, end) && slot in s.readers
    requires forall i :: 0 <= i < |steps| ==> Spares(steps[i], slot)
    ensures slot in end.readers && end.readers[slot] == s.readers[slot]
    ensures Snap(end.committed, s.readers[slot]) == Snap(s.committed, s.readers[slot])
    decreases |steps|
  {
    hide Inv, Enabled, Apply, Snap;
    if steps != [] {
      assert Spares(steps[0], slot);
      StepKeeps(s, steps[0]);
      SnapshotStays(s, steps[0], slot);
      ReaderSeesOneSnapshot(Apply(s, steps[0]), steps[1..], end, slot);
    }
  }

  /** Page conservation. In every reachable state the last commit accounts for each page number
      from 2 to the end of the file: it is in the trees or in one free-page record, not in both,
      and in that record once. */
  lemma PageConservation(s: Env, p: PageNo)
    requires Reachable(s)
    ensures s.current in s.committed
    ensures var snap := s.committed[s.current];
            2 <= p < snap.next <==> p in snap.tree || Somewhere(snap.free, p)
    ensures var snap := s.committed[s.current];
            && !(p in snap.tree && Somewhere(snap.free, p))
            && (forall k: TxnId, k': TxnId :: Listed(snap.free, k, p) && Listed(snap.free, k', p) ==> k == k')
            && (forall k :: k in snap.free ==> NoDup(snap.free[k]))
  {
    ReachableInv(s);
    hide Reachable;
    CurrentGood(s);
  }

  /** In every reachable state the meta page of parity t % 2 is that of the current transaction t. */
  lemma MetaParity(s: Env)
    requires Reachable(s)
    ensures |s.metas| == 2 && s.current in s.committed
    ensures s.metas[s.current % 2] == MetaOf(s.current, s.committed[s.current])
  {
    ReachableInv(s);
    hide Reachable;
  }

  /** Crash recovery, for every reachable state. */
  lemma ReachableCrashRecovers(s: Env, disk: map<PageNo, Content>, kept: seq<Meta>)
    requires Reachable(s) && Enabled(s, Crash(disk, kept))
    ensures var m := kept[PickMeta(kept)];
            && m.txnid in s.committed && (s.current <= m.txnid || !NewestDurable(s))
            && s.current <= m.txnid + 1
            && m.pages <= disk.Keys
            && (map p | p in m.pages :: disk[p]) == s.committed[m.txnid].tree
            && m.free == s.committed[m.txnid].free && m.next == s.committed[m.txnid].next
  {
    ReachableInv(s);
    hide Inv, Reachable;
    CrashRecovers(s, disk, kept);
  }

  /** Every meta page is written with a sync of its own (no MDB_NOMETASYNC). */
  predicate AllMetasSynced(steps: seq<Step>) {
    forall i :: 0 <= i < |steps| ==> steps[i] != WriteMeta(false)
  }

  lemma SyncedStep(s: Env, step: Step)
    requires Inv(s) && Enabled(s, step) && s.durable == s.metas && step != WriteMeta(false)
    ensures Apply(s, step).durable == Apply(s, step).metas
  {
    hide Inv;
  }

  /** Durability. If meta pages are written with a sync, a crash loses no published commit. */
  lemma {:induction false} NoLostCommit(s: Env, steps: seq<Step>, end: Env, disk: map<PageNo, Content>, kept: seq<Meta>)
    requires Inv(s) && s.durable == s.metas && Runs(s, steps, end) && AllMetasSynced(steps)
    requires Enabled(end, Crash(disk, kept))
    ensures end.current <= kept[PickMeta(kept)].txnid
    decreases |steps|
  {
    if steps == [] {
      hide GoodHistory, GoodReaders, GoodTxn, Ready, Intact, Needed;
      var t := CrashPicks(s, disk, kept);
    } else {
      StepKeeps(s, steps[0]);
      hide Inv, Apply;
      SyncedStep(s, steps[0]);
      NoLostCommit(Apply(s, steps[0]), steps[1..], end, disk, kept);
    }
  }
}
