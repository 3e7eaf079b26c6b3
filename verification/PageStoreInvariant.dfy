/** The invariant of the page store: what holds in every state of every run. */
module PageStoreInvariant {
  import opened Basics
  import opened PageLists
  import opened PageStore

  type Readers = map<nat, TxnId>

  function Before(t: TxnId): TxnId {
    if t == 0 then 0 else t - 1
  }

  /** The newest transaction that has a meta page. */
  function Newest(s: Env): TxnId {
    if InPhase(s, MetaWritten) then s.current + 1 else s.current
  }

  /** Pages that `free` lists under a transaction up to `t` are not in this tree. */
  ghost predicate Apart(free: FreeMap, t: TxnId, tree: map<PageNo, Content>) {
    forall k: TxnId, p: PageNo :: Listed(free, k, p) && k <= t ==> p !in tree
  }

  /** A snapshot accounts for every page, and its records are sorted and not from the future. */
  ghost predicate GoodSnapshot(snap: Snapshot, t: TxnId) {
    && Tiled(snap.tree.Keys, snap.free, snap.next)
    && (forall k :: k in snap.free ==> 1 <= k <= t && Descending(snap.free[k]))
  }

  /** Transactions 0 to n are committed. No page that one of them lists as free, other than the
      pages it freed itself, is in the tree of the one before. */
  ghost predicate GoodHistory(h: History, n: TxnId) {
    && (forall t: TxnId :: t in h <==> t <= n)
    && (forall t: TxnId :: t <= n ==> GoodSnapshot(Snap(h, t), t))
    && (forall t: TxnId, u: TxnId :: t <= u <= n ==> Snap(h, t).next <= Snap(h, u).next)
    && (forall t: TxnId, u: TxnId :: t == Before(u) && u <= n ==> Apart(Snap(h, u).free, t, Snap(h, t).tree))
  }

  /** The meta page of parity n % 2 holds the newest transaction n, the other one n - 1. On disk
      the former may still be the meta page of n - 2. */
  ghost predicate GoodMetas(metas: seq<Meta>, durable: seq<Meta>, h: History, n: TxnId) {
    && |metas| == 2 && |durable| == 2
    && metas[n % 2] == MetaOf(n, Snap(h, n))
    && metas[1 - n % 2] == MetaOf(Before(n), Snap(h, Before(n)))
    && durable[1 - n % 2] == metas[1 - n % 2]
    && (durable[n % 2] == metas[n % 2] || durable[n % 2] == MetaOf(Before(Before(n)), Snap(h, Before(Before(n)))))
  }

  /** The newest meta page is on disk for certain. */
  predicate NewestDurable(s: Env) {
    |s.metas| == 2 && |s.durable| == 2 && s.durable[Newest(s) % 2] == s.metas[Newest(s) % 2]
  }

  /** A registered reader holds a snapshot that was committed, and the records old enough to be
      reused as far as this reader is concerned hold none of its pages. */
  ghost predicate GoodReaders(readers: Readers, h: History, current: TxnId) {
    forall slot :: slot in readers ==>
      readers[slot] <= current && Apart(Snap(h, current).free, readers[slot], Snap(h, readers[slot]).tree)
  }

  /** The pages of a tree are in the file, with its contents, and no crash can change them. */
  ghost predicate Intact(view: map<PageNo, Content>, unsynced: set<PageNo>, tree: map<PageNo, Content>) {
    forall p :: p in tree ==> p in view && view[p] == tree[p] && p !in unsynced
  }

  ghost predicate Held(readers: Readers, t: TxnId) {
    exists slot :: slot in readers && readers[slot] == t
  }

  /** Snapshots that a reader or a recovery may ask for. */
  ghost predicate Needed(s: Env, t: TxnId) {
    || t == s.current
    || t == Newest(s)
    || (t == Before(Newest(s)) && !NewestDurable(s))
    || Held(s.readers, t)
  }

  /** Snapshots that the writer must not touch: those of the readers, the last commit and the
      one before it. */
  ghost predicate Guarded(readers: Readers, current: TxnId, t: TxnId) {
    t <= current && (t == current || t == Before(current) || Held(readers, t))
  }

  /** These pages are in no guarded snapshot. */
  ghost predicate Private(pages: set<PageNo>, h: History, readers: Readers, current: TxnId) {
    forall g: TxnId, p: PageNo :: Guarded(readers, current, g) && p in Snap(h, g).tree ==> p !in pages
  }

  /** All the free lists of a transaction at work: the records not taken, what is left of those
      taken, and the pages it freed. */
  function Lists(t: Txn, base: FreeMap): FreeMap {
    Rest(base, t.last)[t.last := t.pool][t.id := t.freed]
  }

  /** The pages that a transaction did not allocate itself have their committed contents. */
  ghost predicate CleanUnchanged(t: Txn, base: map<PageNo, Content>) {
    forall p :: p in t.tree && p !in t.dirty ==> p in base && t.tree[p] == base[p]
  }

  ghost predicate GoodTxn(t: Txn, h: History, readers: Readers, current: TxnId) {
    && t.id == current + 1
    && t.last <= current && (t.pool != [] ==> t.last >= 1)
    && Descending(t.pool)
    && Tiled(t.tree.Keys, Lists(t, Snap(h, current).free), t.next)
    && Snap(h, current).next <= t.next
    && Private(t.dirty + Elems(t.pool), h, readers, current)
    && CleanUnchanged(t, Snap(h, current).tree)
  }

  /** From the sync on, the snapshot to be committed is complete and on disk. */
  ghost predicate Ready(t: Txn, h: History, readers: Readers, current: TxnId) {
    && GoodSnapshot(Snapshot(t.tree, t.result, t.next), t.id)
    && (forall g: TxnId :: Guarded(readers, current, g) ==> Apart(t.result, g, Snap(h, g).tree))
    && (t.phase == MetaWritten ==> Snap(h, t.id) == Snapshot(t.tree, t.result, t.next))
  }

  ghost predicate Inv(s: Env) {
    && GoodHistory(s.committed, Newest(s))
    && GoodMetas(s.metas, s.durable, s.committed, Newest(s))
    && GoodReaders(s.readers, s.committed, s.current)
    && s.maxFree >= 1
    && (forall t: TxnId :: Needed(s, t) ==> Intact(s.view, s.unsynced, Snap(s.committed, t).tree))
    && (s.txn.Some? ==>
          GoodTxn(s.txn.value, s.committed, s.readers, s.current))
    && (s.txn.Some? && s.txn.value.phase != Working ==>
          Ready(s.txn.value, s.committed, s.readers, s.current)
          && Intact(s.view, s.unsynced, s.txn.value.tree) && (s.txn.value.phase == Synced ==> NewestDurable(s)))
  }

  lemma InitInv(s: Env)
    requires Init(s)
    ensures Inv(s)
  {
  }

  /** A new reader asks for the current snapshot, which is needed and guarded already. */
  lemma BeginReadKeeps(s: Env, slot: nat)
    requires Inv(s) && Enabled(s, BeginRead(slot))
    ensures Inv(Apply(s, BeginRead(slot)))
  {
    hide Tiled, GoodHistory, GoodMetas, Intact, CleanUnchanged, GoodSnapshot;
    var s' := Apply(s, BeginRead(slot));
    assert Apart(Snap(s.committed, s.current).free, s.current, Snap(s.committed, s.current).tree) by {
      CurrentApart(s);
    }
    hide Apart;
    forall t: TxnId ensures Held(s'.readers, t) ==> t == s.current || Held(s.readers, t) {}
    forall t: TxnId ensures Needed(s', t) ==> Needed(s, t) {}
    forall g: TxnId ensures Guarded(s'.readers, s.current, g) ==> Guarded(s.readers, s.current, g) {}
  }

  lemma CurrentApart(s: Env)
    requires Inv(s)
    ensures Apart(Snap(s.committed, s.current).free, s.current, Snap(s.committed, s.current).tree)
  {
    assert GoodSnapshot(Snap(s.committed, s.current), s.current);
  }

  lemma EndReadKeeps(s: Env, slot: nat)
    requires Inv(s) && Enabled(s, EndRead(slot))
    ensures Inv(Apply(s, EndRead(slot)))
  {
    hide Tiled, GoodHistory, GoodMetas, Intact, CleanUnchanged, GoodSnapshot, Apart;
    var s' := Apply(s, EndRead(slot));
    forall t: TxnId ensures Held(s'.readers, t) ==> Held(s.readers, t) {}
    forall t: TxnId ensures Needed(s', t) ==> Needed(s, t) {}
    forall g: TxnId ensures Guarded(s'.readers, s.current, g) ==> Guarded(s.readers, s.current, g) {}
  }

  lemma BeginWriteKeeps(s: Env)
    requires Inv(s) && Enabled(s, BeginWrite)
    ensures Inv(Apply(s, BeginWrite))
  {
    hide GoodHistory, GoodMetas, GoodReaders, Intact;
    var s' := Apply(s, BeginWrite);
    CurrentGood(s);
    FreshTxn(s);
    hide GoodTxn, GoodSnapshot, Snap;
    forall t: TxnId ensures Needed(s', t) == Needed(s, t) {}
  }

  lemma FreshTxn(s: Env)
    requires GoodSnapshot(Snap(s.committed, s.current), s.current) && Enabled(s, BeginWrite)
    ensures GoodTxn(Apply(s, BeginWrite).txn.value, s.committed, s.readers, s.current)
  {
    hide GoodSnapshot, Tiled, Rest;
    FreshLists(Snap(s.committed, s.current), s.current);
  }

  lemma CurrentGood(s: Env)
    requires Inv(s)
    ensures GoodSnapshot(Snap(s.committed, s.current), s.current)
  {
    hide GoodSnapshot, GoodMetas, GoodReaders, GoodTxn, Ready, Intact, Needed;
  }

  /** A new transaction starts with the committed records, an empty pool and nothing freed. */
  lemma FreshLists(base: Snapshot, t: TxnId)
    requires GoodSnapshot(base, t)
    ensures Tiled(base.tree.Keys, Rest(base.free, 0)[0 := []][t + 1 := []], base.next)
  {
    var free := Rest(base.free, 0)[0 := []][t + 1 := []];
    forall k: TxnId, p: PageNo ensures Listed(free, k, p) <==> Listed(base.free, k, p) {}
    forall p: PageNo ensures Somewhere(base.free, p) <==> Somewhere(free, p) {
      if Somewhere(base.free, p) {
        var k :| Listed(base.free, k, p);
        assert Listed(free, k, p);
      }
      if Somewhere(free, p) {
        var k :| Listed(free, k, p);
        assert Listed(base.free, k, p);
      }
    }
    Regroup(base.tree.Keys, base.free, base.next, free);
  }

  /** A step inside the transaction keeps the invariant if it keeps what is true of it. */
  lemma TxnStepKeeps(s: Env, t: Txn)
    requires Inv(s) && Writing(s) && t.phase == Working
    requires GoodTxn(t, s.committed, s.readers, s.current)
    ensures Inv(s.(txn := Some(t)))
  {
    hide GoodHistory, GoodMetas, GoodReaders, Intact, GoodTxn, Ready;
    var s' := s.(txn := Some(t));
    forall t: TxnId ensures Needed(s', t) == Needed(s, t) {}
  }

  /** A record older than every guarded snapshot holds none of their pages. */
  lemma OldRecordsApart(s: Env, g: TxnId)
    requires Inv(s) && Guarded(s.readers, s.current, g)
    ensures Apart(Snap(s.committed, s.current).free, g, Snap(s.committed, g).tree)
  {
    hide GoodMetas, GoodTxn, Ready, Intact, Needed;
    CurrentApart(s);
    hide Apart, GoodSnapshot;
  }

  /** Taking a record joins it to the pool. */
  lemma ReclaimLists(t: Txn, base: FreeMap, key: TxnId, merged: seq<PageNo>)
    requires Tiled(t.tree.Keys, Lists(t, base), t.next)
    requires key in base && t.last < key < t.id && (forall k :: k in base && t.last < k ==> key <= k)
    requires Descending(merged) && Elems(merged) == Elems(t.pool) + Elems(base[key])
    ensures Tiled(t.tree.Keys, Lists(t.(pool := merged, last := key), base), t.next)
  {
    hide Tiled;
    DescendingNoDup(merged);
    var lists := Lists(t, base);
    JoinLists(t.tree.Keys, lists, t.next, t.last, key, merged);
    assert (lists - {t.last})[key := merged] == Lists(t.(pool := merged, last := key), base);
  }

  lemma ReclaimPrivate(s: Env, key: TxnId, merged: seq<PageNo>)
    requires Inv(s) && Enabled(s, Reclaim(key, merged))
    ensures Private(s.txn.value.dirty + Elems(merged), s.committed, s.readers, s.current)
  {
    hide Tiled, GoodMetas, GoodHistory, GoodReaders, Intact, Needed, Lists, Descending, CleanUnchanged;
    var t := s.txn.value;
    var base := Snap(s.committed, s.current).free;
    forall g: TxnId, p: PageNo | Guarded(s.readers, s.current, g) && p in Snap(s.committed, g).tree
      ensures p !in t.dirty + Elems(merged)
    {
      OldRecordsApart(s, g);
      assert key <= g;
      assert p in base[key] ==> Listed(base, key, p);
    }
  }

  lemma ReclaimKeeps(s: Env, key: TxnId, merged: seq<PageNo>)
    requires Inv(s) && Enabled(s, Reclaim(key, merged))
    ensures Inv(Apply(s, Reclaim(key, merged)))
  {
    hide Tiled, GoodMetas, GoodHistory, GoodReaders, Intact, Needed, Lists, Private, Elems;
    CurrentGood(s);
    ReclaimPrivate(s, key, merged);
    ReclaimLists(s.txn.value, Snap(s.committed, s.current).free, key, merged);
    TxnStepKeeps(s, s.txn.value.(pool := merged, last := key));
  }

  /** A run taken from the pool comes into use. */
  lemma TakeRunLists(t: Txn, base: FreeMap, pgno: PageNo, num: nat, contents: map<PageNo, Content>, left: seq<PageNo>)
    requires Tiled(t.tree.Keys, Lists(t, base), t.next) && t.last < t.id
    requires Run(pgno, num) <= Elems(t.pool) && contents.Keys == Run(pgno, num)
    requires Descending(left) && Elems(left) == Elems(t.pool) - Run(pgno, num)
    ensures Tiled((t.tree + contents).Keys, Lists(t.(pool := left), base), t.next)
  {
    hide Tiled, Run;
    DescendingNoDup(left);
    var lists := Lists(t, base);
    TakeFromList(t.tree.Keys, lists, t.next, t.last, left, Run(pgno, num));
    assert lists[t.last := left] == Lists(t.(pool := left), base);
    assert (t.tree + contents).Keys == t.tree.Keys + Run(pgno, num);
  }

  lemma TakeRunKeeps(s: Env, pgno: PageNo, num: nat, contents: map<PageNo, Content>, left: seq<PageNo>)
    requires Inv(s) && Enabled(s, TakeRun(pgno, num, contents, left))
    ensures Inv(Apply(s, TakeRun(pgno, num, contents, left)))
  {
    hide GoodMetas, GoodHistory, GoodReaders, Intact, Needed, Tiled, Run, Private;
    var t := s.txn.value;
    var t' := t.(pool := left, tree := t.tree + contents, dirty := t.dirty + contents.Keys);
    TakeRunLists(t, Snap(s.committed, s.current).free, pgno, num, contents, left);
    assert t'.dirty + Elems(left) == t.dirty + Elems(t.pool);
    assert left != [] ==> left[0] in Elems(left);
    TxnStepKeeps(s, t');
  }

  /** Pages past the end of the file are in no committed tree. */
  lemma BeyondPrivate(s: Env, next: PageNo, num: nat, pages: set<PageNo>)
    requires Inv(s) && Snap(s.committed, s.current).next <= next
    requires Private(pages, s.committed, s.readers, s.current)
    ensures Private(pages + Run(next, num), s.committed, s.readers, s.current)
  {
    hide GoodMetas, GoodReaders, Intact, Needed, GoodTxn, Ready;
    forall g: TxnId, p: PageNo | Guarded(s.readers, s.current, g) && p in Snap(s.committed, g).tree
      ensures p !in pages + Run(next, num)
    {
      assert GoodSnapshot(Snap(s.committed, g), g);
      assert p < Snap(s.committed, g).next <= Snap(s.committed, s.current).next;
    }
  }

  lemma GrowKeeps(s: Env, num: nat, contents: map<PageNo, Content>)
    requires Inv(s) && Enabled(s, Grow(num, contents))
    ensures Inv(Apply(s, Grow(num, contents)))
  {
    hide GoodMetas, GoodHistory, GoodReaders, Intact, Needed, Tiled, Run, Private, Descending;
    var t := s.txn.value;
    var base := Snap(s.committed, s.current);
    var t' := t.(next := t.next + num, tree := t.tree + contents, dirty := t.dirty + contents.Keys);
    Extend(t.tree.Keys, Lists(t, base.free), t.next, num);
    assert t'.tree.Keys == t.tree.Keys + Run(t.next, num);
    BeyondPrivate(s, t.next, num, t.dirty + Elems(t.pool));
    assert t'.dirty + Elems(t.pool) == t.dirty + Elems(t.pool) + Run(t.next, num);
    hide Lists;
    TxnStepKeeps(s, t');
  }

  /** A page that goes out of use is listed with the pages freed by this transaction. */
  lemma FreePageLists(t: Txn, base: FreeMap, pgno: PageNo)
    requires Tiled(t.tree.Keys, Lists(t, base), t.next) && pgno in t.tree
    ensures Tiled((t.tree - {pgno}).Keys, Lists(t.(freed := t.freed + [pgno]), base), t.next)
  {
    var lists := Lists(t, base);
    var freed := t.freed + [pgno];
    forall i | 0 <= i < |t.freed| ensures t.freed[i] != pgno { assert Listed(lists, t.id, t.freed[i]); }
    assert NoDup(freed) by { assert NoDup(lists[t.id]); }
    assert Elems(freed) == Elems(t.freed) + {pgno};
    hide Tiled;
    PutOnList(t.tree.Keys, lists, t.next, t.id, freed, {pgno});
    assert lists[t.id := freed] == Lists(t.(freed := freed), base);
    assert (t.tree - {pgno}).Keys == t.tree.Keys - {pgno};
  }

  lemma FreePageKeeps(s: Env, pgno: PageNo)
    requires Inv(s) && Enabled(s, FreePage(pgno))
    ensures Inv(Apply(s, FreePage(pgno)))
  {
    hide GoodMetas, GoodHistory, GoodReaders, Intact, Needed, Tiled, Private;
    var t := s.txn.value;
    FreePageLists(t, Snap(s.committed, s.current).free, pgno);
    TxnStepKeeps(s, t.(tree := t.tree - {pgno}, freed := t.freed + [pgno]));
  }

  /** A run given back goes out of use and into the pool. */
  lemma GiveBackLists(t: Txn, base: FreeMap, run: set<PageNo>, merged: seq<PageNo>)
    requires Tiled(t.tree.Keys, Lists(t, base), t.next) && t.last < t.id && run <= t.tree.Keys
    requires Descending(merged) && Elems(merged) == Elems(t.pool) + run
    ensures Tiled((t.tree - run).Keys, Lists(t.(pool := merged), base), t.next)
  {
    hide Tiled;
    DescendingNoDup(merged);
    var lists := Lists(t, base);
    PutOnList(t.tree.Keys, lists, t.next, t.last, merged, run);
    assert lists[t.last := merged] == Lists(t.(pool := merged), base);
    assert (t.tree - run).Keys == t.tree.Keys - run;
  }

  lemma GiveBackKeeps(s: Env, pgno: PageNo, num: nat, merged: seq<PageNo>)
    requires Inv(s) && Enabled(s, GiveBack(pgno, num, merged))
    ensures Inv(Apply(s, GiveBack(pgno, num, merged)))
  {
    hide GoodMetas, GoodHistory, GoodReaders, Intact, Needed, Tiled, Private, Run;
    var t := s.txn.value;
    var run := Run(pgno, num);
    var t' := t.(tree := t.tree - run, dirty := t.dirty - run, pool := merged);
    GiveBackLists(t, Snap(s.committed, s.current).free, run, merged);
    assert t'.dirty + Elems(merged) == t.dirty + Elems(t.pool);
    hide Lists;
    TxnStepKeeps(s, t');
  }

  lemma ModifyKeeps(s: Env, pgno: PageNo, content: Content)
    requires Inv(s) && Enabled(s, Modify(pgno, content))
    ensures Inv(Apply(s, Modify(pgno, content)))
  {
    hide GoodMetas, GoodHistory, GoodReaders, Intact, Needed, Tiled, Private;
    var t := s.txn.value;
    var t' := t.(tree := t.tree[pgno := content]);
    assert t'.tree.Keys == t.tree.Keys;
    TxnStepKeeps(s, t');
  }

  /** The writer stores only into pages that no needed snapshot uses. */
  lemma StorePageKeeps(s: Env, pgno: PageNo, content: Content)
    requires Inv(s) && Enabled(s, StorePage(pgno, content))
    ensures Inv(Apply(s, StorePage(pgno, content)))
  {
    hide GoodMetas, GoodHistory, Ready, Tiled, Apart, CleanUnchanged;
    var s' := Apply(s, StorePage(pgno, content));
    forall t: TxnId | Needed(s', t) ensures Intact(s'.view, s'.unsynced, Snap(s.committed, t).tree) {
      assert Needed(s, t) && Guarded(s.readers, s.current, t);
      assert pgno !in Snap(s.committed, t).tree;
    }
  }

  lemma AbortKeeps(s: Env)
    requires Inv(s) && Enabled(s, Abort)
    ensures Inv(Apply(s, Abort))
  {
    hide GoodHistory, GoodMetas, GoodReaders, Intact, GoodTxn, Ready;
    var s' := Apply(s, Abort);
    forall t: TxnId ensures Needed(s', t) == Needed(s, t) {}
  }

  lemma PublishKeeps(s: Env)
    requires Inv(s) && Enabled(s, Publish)
    ensures Inv(Apply(s, Publish))
  {
    hide GoodHistory, GoodMetas, Intact, Apart, GoodSnapshot, Tiled;
    var s' := Apply(s, Publish);
    var t := s.txn.value;
    assert Newest(s') == Newest(s) == t.id;
    forall u: TxnId ensures Needed(s', u) ==> Needed(s, u) {}
    forall slot | slot in s.readers ensures Apart(t.result, s.readers[slot], Snap(s.committed, s.readers[slot]).tree) {
      assert Guarded(s.readers, s.current, s.readers[slot]);
    }
  }

  /** Records under transaction numbers from `key` down that hold each page of the pool once. */
  ghost predicate HoldsPool(l: FreeMap, pool: seq<PageNo>, key: TxnId) {
    && (forall k :: k in l ==> 1 <= k <= key && Descending(l[k]))
    && (forall k: TxnId, k': TxnId, p: PageNo :: Listed(l, k, p) && Listed(l, k', p) ==> k == k')
    && (forall k: TxnId, p: PageNo :: Listed(l, k, p) ==> p in pool)
    && (forall p :: p in pool ==> Somewhere(l, p))
  }

  /** The put-back loses no page and duplicates none. */
  lemma {:induction false} LeftoversHold(pool: seq<PageNo>, key: TxnId, maxFree: nat)
    requires Descending(pool) && maxFree >= 1 && (pool != [] ==> key >= 1)
    ensures HoldsPool(Leftovers(pool, key, maxFree), pool, key)
    decreases key
  {
    var l := Leftovers(pool, key, maxFree);
    if |pool| > maxFree && key > 4 {
      var head, rest := pool[..maxFree], pool[maxFree..];
      LeftoversHold(rest, key - 1, maxFree);
      var l' := Leftovers(rest, key - 1, maxFree);
      assert pool == head + rest;
      forall k: TxnId, p: PageNo | Listed(l, k, p) ensures if k == key then p in head else Listed(l', k, p) {}
      forall p | p in pool ensures Somewhere(l, p) {
        if p in head {
          assert Listed(l, key, p);
        } else {
          var k :| Listed(l', k, p);
          assert Listed(l, k, p);
        }
      }
      forall k: TxnId, k': TxnId, p: PageNo | Listed(l, k, p) && Listed(l, k', p) ensures k == k' {
        assert !(p in head && p in rest) by { ApartInDescending(pool, maxFree, p); }
      }
    } else if pool != [] {
      forall p | p in pool ensures Somewhere(l, p) { assert Listed(l, key, p); }
    }
  }

  /** The records from number `key` down, one behind the other. */
  function Together(l: FreeMap, key: TxnId): seq<PageNo> {
    (if key in l then l[key] else []) + if key == 0 then [] else Together(l, key - 1)
  }

  /** Full records from number `key` down, then a last one. */
  ghost predicate InFullRecords(l: FreeMap, key: TxnId, maxFree: nat) {
    && (forall k :: k in l ==> k <= key && l[k] != [] && (k > 4 ==> |l[k]| <= maxFree))
    && (forall k :: k in l && k < key ==> k + 1 in l && |l[k + 1]| == maxFree)
  }

  lemma OneMoreRecord(l: FreeMap, key: TxnId, maxFree: nat, record: seq<PageNo>)
    requires key > 0 && InFullRecords(l, key - 1, maxFree) && |record| == maxFree >= 1
    ensures InFullRecords(l[key := record], key, maxFree)
  {
  }

  /** They are the pool from its front, in records that fill one overflow page each; only the last of
      them may be shorter, or longer if its number is 4 or less. */
  lemma {:induction false} LeftoversSplit(pool: seq<PageNo>, key: TxnId, maxFree: nat)
    requires maxFree >= 1 && (pool != [] ==> key >= 1)
    ensures Together(Leftovers(pool, key, maxFree), key) == pool
    ensures InFullRecords(Leftovers(pool, key, maxFree), key, maxFree)
    decreases key
  {
    hide Leftovers, Together, InFullRecords;
    var l := Leftovers(pool, key, maxFree);
    LeftoversCases(pool, key, maxFree);
    if |pool| > maxFree && key > 4 {
      var head, rest := pool[..maxFree], pool[maxFree..];
      var l' := Leftovers(rest, key - 1, maxFree);
      LeftoversSplit(rest, key - 1, maxFree);
      OneMoreRecord(l', key, maxFree, head);
      RecordsBelow(l', l, key, head);
      assert pool == head + rest;
    } else {
      OneRecord(l, key, maxFree);
      NothingBelow(l, key);
    }
  }

  lemma LeftoversCases(pool: seq<PageNo>, key: TxnId, maxFree: nat)
    ensures Leftovers(pool, key, maxFree) ==
      if pool == [] then map[]
      else if |pool| > maxFree && key > 4 then Leftovers(pool[maxFree..], key - 1, maxFree)[key := pool[..maxFree]]
      else map[key := pool]
  {
  }

  lemma OneRecord(l: FreeMap, key: TxnId, maxFree: nat)
    requires forall k :: k in l ==> k == key && l[k] != [] && (k > 4 ==> |l[k]| <= maxFree)
    ensures InFullRecords(l, key, maxFree)
  {
  }

  lemma RecordsBelow(l: FreeMap, l': FreeMap, key: TxnId, record: seq<PageNo>)
    requires key > 0 && l' == l[key := record]
    ensures Together(l', key) == record + Together(l, key - 1)
  {
    SameBelow(l, l', key - 1);
  }

  lemma {:induction false} SameBelow(l: FreeMap, l': FreeMap, key: TxnId)
    requires forall k :: k <= key ==> (k in l <==> k in l') && (k in l ==> l[k] == l'[k])
    ensures Together(l, key) == Together(l', key)
  {
    if key > 0 { SameBelow(l, l', key - 1); }
  }

  lemma {:induction false} NothingBelow(l: FreeMap, key: TxnId)
    requires forall k :: k in l ==> k == key
    ensures Together(l, key) == if key in l then l[key] else []
  {
    if key > 0 { AllEmpty(l, key - 1); }
  }

  lemma {:induction false} AllEmpty(l: FreeMap, key: TxnId)
    requires forall k :: k <= key ==> k !in l
    ensures Together(l, key) == []
  {
    if key > 0 { AllEmpty(l, key - 1); }
  }

  lemma ApartInDescending(pool: seq<PageNo>, n: nat, p: PageNo)
    requires Descending(pool) && n <= |pool|
    ensures !(p in pool[..n] && p in pool[n..])
  {
  }

  /** The records that a commit writes hold exactly the pages on the lists of the transaction. */
  lemma CommitKeepsPages(t: Txn, base: FreeMap, sorted: seq<PageNo>, maxFree: nat, p: PageNo)
    requires t.last < t.id && Descending(t.pool) && maxFree >= 1 && (t.pool != [] ==> t.last >= 1)
    requires forall q :: q in sorted <==> q in t.freed
    requires forall k :: k in base ==> k < t.id
    ensures Somewhere(Lists(t, base), p) <==> Somewhere(CommittedFree(t, base, sorted, maxFree), p)
  {
    hide Descending;
    var free, lists, l := CommittedFree(t, base, sorted, maxFree), Lists(t, base), Leftovers(t.pool, t.last, maxFree);
    LeftoversHold(t.pool, t.last, maxFree);
    if Somewhere(lists, p) {
      var k :| Listed(lists, k, p);
      if k == t.last {
        var j :| Listed(l, j, p);
        assert Listed(free, j, p);
      } else {
        assert Listed(free, k, p);
      }
    }
    if Somewhere(free, p) {
      var k: TxnId :| Listed(free, k, p);
      CommittedFrom(t, base, sorted, maxFree, k, p);
      assert Listed(lists, if k <= t.last then t.last else k, p);
    }
  }

  /** Where a page listed by a commit comes from. */
  lemma CommittedFrom(t: Txn, base: FreeMap, sorted: seq<PageNo>, maxFree: nat, k: TxnId, p: PageNo)
    requires t.last < t.id && Descending(t.pool) && maxFree >= 1 && (t.pool != [] ==> t.last >= 1)
    requires Listed(CommittedFree(t, base, sorted, maxFree), k, p)
    ensures || (k == t.id && p in sorted)
            || (t.last < k && Listed(base, k, p))
            || (k <= t.last && Listed(Leftovers(t.pool, t.last, maxFree), k, p) && p in t.pool)
  {
    hide Descending;
    LeftoversHold(t.pool, t.last, maxFree);
    var rest, l := Rest(base, t.last), Leftovers(t.pool, t.last, maxFree);
    var free := CommittedFree(t, base, sorted, maxFree);
    if sorted != [] && k == t.id {
    } else if k in l {
      assert free[k] == l[k];
      assert Listed(l, k, p);
    } else {
      assert k in rest && free[k] == rest[k];
    }
  }

  /** A commit accounts for every page, exactly once. */
  lemma CommitTiles(t: Txn, base: FreeMap, sorted: seq<PageNo>, maxFree: nat)
    requires Tiled(t.tree.Keys, Lists(t, base), t.next)
    requires t.last < t.id && Descending(t.pool) && maxFree >= 1 && (t.pool != [] ==> t.last >= 1)
    requires Descending(sorted) && multiset(sorted) == multiset(t.freed)
    requires forall k :: k in base ==> 1 <= k < t.id && Descending(base[k])
    ensures GoodSnapshot(Snapshot(t.tree, CommittedFree(t, base, sorted, maxFree), t.next), t.id)
  {

    var lists := Lists(t, base);
    var free := CommittedFree(t, base, sorted, maxFree);
    forall q ensures q in sorted <==> q in t.freed { assert q in multiset(sorted) <==> q in multiset(t.freed); }
    LeftoversHold(t.pool, t.last, maxFree);
    var l := Leftovers(t.pool, t.last, maxFree);
    forall k | k in free ensures 1 <= k <= t.id && Descending(free[k]) && NoDup(free[k]) {
      if k in l && !(sorted != [] && k == t.id) { assert free[k] == l[k]; }
      DescendingNoDup(free[k]);
    }
    hide Descending, NoDup;
    forall k: TxnId, k': TxnId, p: PageNo | Listed(free, k, p) && Listed(free, k', p) ensures k == k' {
      CommittedFrom(t, base, sorted, maxFree, k, p);
      CommittedFrom(t, base, sorted, maxFree, k', p);
      ListedOnce(t, base, sorted, maxFree, k, p);
      ListedOnce(t, base, sorted, maxFree, k', p);
    }
    forall p: PageNo ensures Somewhere(lists, p) <==> Somewhere(free, p) {
      CommitKeepsPages(t, base, sorted, maxFree, p);
    }
    hide Lists, CommittedFree, Tiled;
    Regroup(t.tree.Keys, lists, t.next, free);
  }

  lemma ListedOnce(t: Txn, base: FreeMap, sorted: seq<PageNo>, maxFree: nat, k: TxnId, p: PageNo)
    requires t.last < t.id && Descending(t.pool) && maxFree >= 1 && (t.pool != [] ==> t.last >= 1)
    requires forall q :: q in sorted <==> q in t.freed
    requires forall j :: j in base ==> j < t.id
    requires Listed(CommittedFree(t, base, sorted, maxFree), k, p)
    ensures Listed(Lists(t, base), if k <= t.last then t.last else k, p)
  {
    CommittedFrom(t, base, sorted, maxFree, k, p);
    hide CommittedFree;
  }
}
