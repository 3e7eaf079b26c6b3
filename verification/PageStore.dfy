/** The multi-version page store as a transition system.

One writer works on a private copy of the tree while any number of readers hold earlier
snapshots. The writer may only store into pages that it allocated itself; a commit syncs
those pages and then writes one of two meta pages. Every interleaving of the steps below is
a run, including runs that are cut short by a crash in which any unsynced page write may or
may not have reached the disk, whole or in part.

The field `committed` is a history variable: what each transaction committed.
 */
module PageStore {
  import opened Basics
  import opened PageLists

  type Content = int   // the bytes of a page

  /** A committed state of the database: its pages with their contents, the free-page records
      (the page lists freed by each transaction) and the first page number never allocated. */
  datatype Snapshot = Snapshot(tree: map<PageNo, Content>, free: FreeMap, next: PageNo)

  /** A meta page: it names the transaction and leads to its pages, but holds no page contents. */
  datatype Meta = Meta(txnid: TxnId, pages: set<PageNo>, free: FreeMap, next: PageNo)

  datatype Phase = Working | Synced | MetaWritten

  /** The write transaction. `pool` is me_pghead, `last` is me_pglast, `freed` is mt_free_pgs. */
  datatype Txn = Txn(
    id: TxnId,
    tree: map<PageNo, Content>,
    dirty: set<PageNo>,
    freed: seq<PageNo>,
    pool: seq<PageNo>,
    last: TxnId,
    next: PageNo,
    phase: Phase,
    result: FreeMap)        // the free-page records to commit, once they are written

  datatype Env = Env(
    view: map<PageNo, Content>,   // the file as the memory map shows it
    unsynced: set<PageNo>,        // pages stored into since the last sync
    metas: seq<Meta>,             // the two meta pages as the memory map shows them
    durable: seq<Meta>,           // the two meta pages as they are on disk for certain
    current: TxnId,               // mti_txnid
    readers: map<nat, TxnId>,     // occupied reader slots
    txn: Option<Txn>,
    maxFree: nat,                 // me_maxfree_1pg
    committed: History)

  type History = map<TxnId, Snapshot>

  /** What transaction `t` committed. */
  function Snap(h: History, t: TxnId): Snapshot {
    if t in h then h[t] else Snapshot(map[], map[], 2)
  }

  function MetaOf(t: TxnId, s: Snapshot): Meta {
    Meta(t, s.tree.Keys, s.free, s.next)
  }

  /** mdb_env_pick_meta: the index of the meta page with the larger transaction. */
  function PickMeta(metas: seq<Meta>): nat
    requires |metas| == 2
  {
    if metas[0].txnid < metas[1].txnid then 1 else 0
  }

  /** Records that the writer has not taken yet. */
  function Rest(free: FreeMap, last: TxnId): FreeMap {
    map k | k in free && k > last :: free[k]
  }

  /** The put-back of unused pages: page lists that fit one overflow page, under descending
      transaction numbers; from number 4 down all that is left goes into one record. */
  function Leftovers(pool: seq<PageNo>, key: TxnId, maxFree: nat): FreeMap
    decreases key
  {
    if pool == [] then map[]
    else if |pool| > maxFree && key > 4 then
      Leftovers(pool[maxFree..], key - 1, maxFree)[key := pool[..maxFree]]
    else map[key := pool]
  }

  /** The free-page records a commit leaves behind; `sorted` is the sorted list of freed pages. */
  function CommittedFree(t: Txn, base: FreeMap, sorted: seq<PageNo>, maxFree: nat): FreeMap {
    var kept := Rest(base, t.last) + Leftovers(t.pool, t.last, maxFree);
    if sorted == [] then kept else kept[t.id := sorted]
  }

  datatype Step =
    | BeginRead(slot: nat)
    | EndRead(slot: nat)
    | BeginWrite
    | Reclaim(key: TxnId, merged: seq<PageNo>)
    | TakeRun(pgno: PageNo, num: nat, contents: map<PageNo, Content>, left: seq<PageNo>)
    | Grow(num: nat, contents: map<PageNo, Content>)
    | FreePage(pgno: PageNo)
    | GiveBack(pgno: PageNo, num: nat, merged: seq<PageNo>)
    | Modify(pgno: PageNo, content: Content)
    | StorePage(pgno: PageNo, content: Content)
    | Sync(sorted: seq<PageNo>)
    | WriteMeta(synced: bool)
    | Publish
    | Abort
    | Crash(disk: map<PageNo, Content>, kept: seq<Meta>)

  /** The writer is in the middle of its work. */
  predicate Writing(s: Env) {
    s.txn.Some? && s.txn.value.phase == Working
  }

  predicate InPhase(s: Env, phase: Phase) {
    s.txn.Some? && s.txn.value.phase == phase
  }

  ghost predicate Enabled(s: Env, step: Step) {
    match step
    // registering in the reader table and copying the meta record are one step
    case BeginRead(slot) => slot !in s.readers
    case EndRead(slot) => slot in s.readers
    case BeginWrite => s.txn.None?
    // only records older than every registered reader and than the last commit are taken,
    // in ascending order
    case Reclaim(key, merged) =>
      && Writing(s)
      && var t := s.txn.value;
         var base := Snap(s.committed, s.current).free;
      && key in base && t.last < key
      && (forall k :: k in base && t.last < k ==> key <= k)
      && key < s.current && (forall slot :: slot in s.readers ==> key < s.readers[slot])
      && Descending(merged) && Elems(merged) == Elems(t.pool) + Elems(base[key])
    case TakeRun(pgno, num, contents, left) =>
      && Writing(s)
      && Run(pgno, num) <= Elems(s.txn.value.pool) && contents.Keys == Run(pgno, num)
      && Descending(left) && Elems(left) == Elems(s.txn.value.pool) - Run(pgno, num)
    case Grow(num, contents) => Writing(s) && contents.Keys == Run(s.txn.value.next, num)
    case FreePage(pgno) => Writing(s) && pgno in s.txn.value.tree
    // a dirty overflow run goes back to the pool, if there is one
    case GiveBack(pgno, num, merged) =>
      && Writing(s)
      && Run(pgno, num) <= s.txn.value.dirty && Run(pgno, num) <= s.txn.value.tree.Keys
      && s.txn.value.pool != []
      && Descending(merged) && Elems(merged) == Elems(s.txn.value.pool) + Run(pgno, num)
    case Modify(pgno, _) => Writing(s) && pgno in s.txn.value.tree && pgno in s.txn.value.dirty
    case StorePage(pgno, _) => Writing(s) && pgno in s.txn.value.dirty
    // all dirty pages of the tree are stored and the freed pages are sorted before the sync
    case Sync(sorted) =>
      && Writing(s)
      && var t := s.txn.value;
      && (forall p :: p in t.tree && p in t.dirty ==> p in s.view && s.view[p] == t.tree[p])
      && Descending(sorted) && multiset(sorted) == multiset(t.freed)
    case WriteMeta(_) => InPhase(s, Synced) && |s.metas| == 2
    case Publish => InPhase(s, MetaWritten)
    case Abort => InPhase(s, Working) || InPhase(s, Synced)
    // pages stored into since the last sync may hold anything; a meta page is old or new
    case Crash(disk, kept) =>
      && disk.Keys == s.view.Keys
      && (forall p :: p in disk && p !in s.unsynced ==> disk[p] == s.view[p])
      && |s.metas| == 2 && |s.durable| == 2 && |kept| == 2
      && (forall i :: 0 <= i < 2 ==> kept[i] == s.metas[i] || kept[i] == s.durable[i])
  }

  ghost function Apply(s: Env, step: Step): Env
    requires Enabled(s, step)
  {
    match step
    case BeginRead(slot) => s.(readers := s.readers[slot := s.current])
    case EndRead(slot) => s.(readers := s.readers - {slot})
    case BeginWrite =>
      var base := Snap(s.committed, s.current);
      s.(txn := Some(Txn(s.current + 1, base.tree, {}, [], [], 0, base.next, Working, map[])))
    case Reclaim(key, merged) =>
      s.(txn := Some(s.txn.value.(pool := merged, last := key)))
    case TakeRun(pgno, num, contents, left) =>
      var t := s.txn.value;
      s.(txn := Some(t.(pool := left, tree := t.tree + contents, dirty := t.dirty + contents.Keys)))
    case Grow(num, contents) =>
      var t := s.txn.value;
      s.(txn := Some(t.(next := t.next + num, tree := t.tree + contents, dirty := t.dirty + contents.Keys)))
    case FreePage(pgno) =>
      var t := s.txn.value;
      s.(txn := Some(t.(tree := t.tree - {pgno}, freed := t.freed + [pgno])))
    case GiveBack(pgno, num, merged) =>
      var t := s.txn.value;
      s.(txn := Some(t.(tree := t.tree - Run(pgno, num), dirty := t.dirty - Run(pgno, num), pool := merged)))
    case Modify(pgno, content) =>
      s.(txn := Some(s.txn.value.(tree := s.txn.value.tree[pgno := content])))
    case StorePage(pgno, content) =>
      s.(view := s.view[pgno := content], unsynced := s.unsynced + {pgno})
    case Sync(sorted) =>
      var t := s.txn.value;
      var result := CommittedFree(t, Snap(s.committed, s.current).free, sorted, s.maxFree);
      s.(unsynced := {}, durable := s.metas, txn := Some(t.(phase := Synced, result := result)))
    case WriteMeta(synced) =>
      var t := s.txn.value;
      var snap := Snapshot(t.tree, t.result, t.next);
      var metas := s.metas[t.id % 2 := MetaOf(t.id, snap)];
      s.(metas := metas, durable := if synced then metas else s.durable,
         committed := s.committed[t.id := snap], txn := Some(t.(phase := MetaWritten)))
    case Publish => s.(current := s.txn.value.id, txn := None)
    case Abort => s.(txn := None)
    case Crash(disk, kept) =>
      var t := kept[PickMeta(kept)].txnid;
      s.(view := disk, unsynced := {}, metas := kept, durable := kept, current := t, readers := map[],
         txn := None, committed := map k | k in s.committed && k <= t :: s.committed[k])
  }

  /** A freshly created environment: both meta pages say transaction 0 and an empty database. */
  ghost predicate Init(s: Env) {
    && s.view == map[] && s.unsynced == {} && s.current == 0 && s.readers == map[] && s.txn == None
    && s.maxFree >= 1
    && s.committed == map[0 := Snapshot(map[], map[], 2)]
    && s.metas == s.durable == [MetaOf(0, s.committed[0]), MetaOf(0, s.committed[0])]
  }
}
