/** mdb_page_alloc on the state that a write transaction keeps for it.

Every call is described by the records it took (`trace`), the list of free pages after taking
them, and the run that was cut out of that list. Records are taken in ascending order, and a
call that has to extend the file has tried every record that may be used.
 */
module PageAllocator {
  import opened PageLists
  import opened PageRuns
  import opened PageAlloc

  /** A record that was taken, and the pool afterwards. */
  datatype Took = Took(key: TxnId, merged: seq<PageNo>)

  ghost function PoolAfter(pool: seq<PageNo>, trace: seq<Took>): seq<PageNo> {
    if trace == [] then pool else trace[|trace| - 1].merged
  }

  ghost function LastAfter(last: TxnId, trace: seq<Took>): TxnId {
    if trace == [] then last else trace[|trace| - 1].key
  }

  /** The next record may be taken: it is the first one after `last`, and older than `oldest`. */
  ghost predicate MayTake(free: FreeMap, oldest: TxnId, pool: seq<PageNo>, last: TxnId, took: Took) {
    && took.key in free && last < took.key < oldest
    && (forall k :: k in free && last < k ==> took.key <= k)
    && Descending(took.merged) && Elems(took.merged) == Elems(pool) + Elems(free[took.key])
  }

  ghost predicate Takes(free: FreeMap, oldest: TxnId, pool: seq<PageNo>, last: TxnId, trace: seq<Took>)
    decreases |trace|
  {
    trace == [] ||
    var rest := trace[..|trace| - 1];
    && Takes(free, oldest, pool, last, rest)
    && MayTake(free, oldest, PoolAfter(pool, rest), LastAfter(last, rest), trace[|trace| - 1])
  }

  lemma TakesOneMore(free: FreeMap, oldest: TxnId, pool: seq<PageNo>, last: TxnId, trace: seq<Took>, took: Took)
    requires Takes(free, oldest, pool, last, trace)
    requires MayTake(free, oldest, PoolAfter(pool, trace), LastAfter(last, trace), took)
    ensures Takes(free, oldest, pool, last, trace + [took])
    ensures PoolAfter(pool, trace + [took]) == took.merged && LastAfter(last, trace + [took]) == took.key
  {
    assert (trace + [took])[..|trace|] == trace;
  }

  lemma Unfold(free: FreeMap, oldest: TxnId, pool: seq<PageNo>, last: TxnId, trace: seq<Took>)
    requires Takes(free, oldest, pool, last, trace) && trace != []
    ensures var rest := trace[..|trace| - 1];
            && Takes(free, oldest, pool, last, rest)
            && MayTake(free, oldest, PoolAfter(pool, rest), LastAfter(last, rest), trace[|trace| - 1])
  {
  }

  lemma OneLonger(trace: seq<Took>, took: Took)
    ensures forall k :: 0 <= k <= |trace| ==> (trace + [took])[..k] == trace[..k]
    ensures trace[..|trace|] == trace
  {
  }

  /** No record is left that may be taken. */
  ghost predicate Exhausted(free: FreeMap, oldest: TxnId, last: TxnId) {
    forall k :: k in free ==> k <= last || oldest <= k
  }

  /** The records are descending lists of proper page numbers; no page is on two of them, and none
      is both in the pool and on a record that has not been taken. */
  ghost predicate Separate(free: FreeMap, pool: seq<PageNo>, last: TxnId) {
    && (forall k :: k in free ==> k >= 1 && Descending(free[k]))
    && (forall k: TxnId, p: PageNo :: Listed(free, k, p) ==> p < P_INVALID)
    && (forall p :: p in pool ==> p < P_INVALID)
    && (forall k: TxnId, k': TxnId, p: PageNo :: Listed(free, k, p) && Listed(free, k', p) ==> k == k')
    && (forall k: TxnId, p: PageNo :: k > last && Listed(free, k, p) ==> p !in pool)
  }

  ghost predicate NoRun(pool: seq<PageNo>, num: nat) {
    forall p: PageNo :: !(Run(p, num) <= Elems(pool))
  }

  /** Every record was taken for want of a run of `num` pages. */
  ghost predicate Frugal(pool: seq<PageNo>, trace: seq<Took>, num: nat) {
    forall k :: 0 <= k < |trace| ==> NoRun(PoolAfter(pool, trace[..k]), num)
  }

  lemma FrugalOneMore(pool: seq<PageNo>, trace: seq<Took>, took: Took, num: nat)
    requires Frugal(pool, trace, num) && NoRun(PoolAfter(pool, trace), num)
    ensures Frugal(pool, trace + [took], num)
  {
    hide NoRun, PoolAfter;
    var t := trace + [took];
    forall k | 0 <= k < |t| ensures NoRun(PoolAfter(pool, t[..k]), num) {
      assert t[..k] == trace[..k];
      assert trace[..|trace|] == trace;
    }
  }

  lemma FrugalBoth(pool: seq<PageNo>, a: seq<Took>, b: seq<Took>, num: nat)
    requires Frugal(pool, a, num) && Frugal(PoolAfter(pool, a), b, num)
    ensures Frugal(pool, a + b, num)
  {
    hide NoRun;
    var t := a + b;
    forall k | 0 <= k < |t| ensures NoRun(PoolAfter(pool, t[..k]), num) {
      if k < |a| {
        assert t[..k] == a[..k];
      } else {
        assert t[..k] == a + b[..k - |a|];
        assert PoolAfter(pool, t[..k]) == PoolAfter(PoolAfter(pool, a), b[..k - |a|]);
      }
    }
  }

  lemma TooShort(pool: seq<PageNo>, num: nat)
    requires Descending(pool) && |pool| < num
    ensures NoRun(pool, num)
  {
    forall p: PageNo ensures !(Run(p, num) <= Elems(pool)) {
      if Run(p, num) <= Elems(pool) { var i := RunIsAt(pool, p, num); }
    }
  }

  /** Taking the next record keeps the lists separate. */
  lemma StaysSeparate(free: FreeMap, pool: seq<PageNo>, last: TxnId, key: TxnId)
    requires Separate(free, pool, last) && key in free && last < key && Descending(pool)
    ensures var merged := MergedDown(free[key], pool);
            Separate(free, merged, key) && Descending(merged) && Elems(merged) == Elems(pool) + Elems(free[key])
  {
    var merged := MergedDown(free[key], pool);
    forall p | p in Elems(free[key]) ensures p !in Elems(pool) { assert Listed(free, key, p); }
    MergedDownDescends(free[key], pool);
    MergedDownElems(free[key], pool);
    forall p | p in merged ensures p in pool || Listed(free, key, p) { assert p in Elems(merged); }
  }

  lemma FewerPages(free: FreeMap, pool: seq<PageNo>, last: TxnId, left: seq<PageNo>)
    requires Separate(free, pool, last) && Elems(left) <= Elems(pool)
    ensures Separate(free, left, last)
  {
    forall p | p in left ensures p in pool { assert p in Elems(left); }
  }

  datatype Result = Pages(pgno: PageNo) | TxnFull | MapFull

  class Allocator {
    const txnid: TxnId
    const free: FreeMap          // the free-page records of the last commit
    const readers: array<Slot>
    const maxpg: nat
    var pghead: array?<nat>      // the pool, if there is one
    var pglast: TxnId            // the last record taken
    var nextPgno: PageNo
    var dirtyRoom: nat

    ghost predicate Valid()
      reads this, pghead
    {
      && txnid > 0
      && (pghead != null ==> Idl(pghead) && pghead[0] > 0 && txnid > 3)
      && Descending(Pool()) && Separate(free, Pool(), pglast)
    }

    ghost function Pool(): seq<PageNo>
      requires pghead != null ==> Idl(pghead)
      reads this, pghead
    {
      if pghead == null then [] else Ids(pghead)
    }

    /** The records not taken yet. */
    ghost function Unread(): set<TxnId>
      reads this
    {
      set k | k in free && k > pglast
    }

    /** Without a pool, the next record that is not empty becomes the pool. */
    method ReadFirst(oldest: TxnId) returns (ghost trace: seq<Took>)
      requires Valid() && pghead == null && txnid > 3
      modifies this`pghead, this`pglast
      ensures Valid() && (pghead == null || fresh(pghead))
      ensures Takes(free, oldest, [], old(pglast), trace)
      ensures Pool() == PoolAfter([], trace) && pglast == LastAfter(old(pglast), trace)
      ensures pghead == null ==> Exhausted(free, oldest, pglast)
      ensures forall k :: 0 <= k < |trace| ==> PoolAfter([], trace[..k]) == []
    {
      hide Takes, MayTake, Separate;
      trace := [];
      assert Takes(free, oldest, [], pglast, trace) by { NothingTaken(free, oldest, [], pglast); }
      while true
        invariant Valid() && pghead == null
        invariant Takes(free, oldest, [], old(pglast), trace)
        invariant PoolAfter([], trace) == [] && pglast == LastAfter(old(pglast), trace)
        invariant forall k :: 0 <= k < |trace| ==> PoolAfter([], trace[..k]) == []
        decreases Unread()
      {
        var found, key := NextRecord(free, pglast + 1);
        if !found || oldest <= key { break; }
        var idl := free[key];
        assert MergedDown(idl, []) == idl;
        StaysSeparate(free, [], pglast, key);
        TakesNext(free, oldest, [], pglast, key);
        TakesOneMore(free, oldest, [], old(pglast), trace, Took(key, idl));
        OneLonger(trace, Took(key, idl));
        trace := trace + [Took(key, idl)];
        assert key in Unread();
        pglast := key;
        if idl != [] {
          pghead := Copied(idl);
          break;
        }
      }
    }

    /** The pool is enlarged by further records until it holds a run of `num` pages. */
    method TakeMany(oldest: TxnId, num: nat) returns (pgno: nat, ghost trace: seq<Took>)
      requires Valid() && pghead != null && num >= 2
      modifies this`pghead, this`pglast, pghead
      ensures pghead != null && (pghead == old(pghead) || fresh(pghead))
      ensures Idl(pghead) && Descending(Pool()) && Separate(free, Pool(), pglast)
      ensures Takes(free, oldest, old(Pool()), old(pglast), trace) && pglast == LastAfter(old(pglast), trace)
      ensures Frugal(old(Pool()), trace, num)
      ensures Taken(PoolAfter(old(Pool()), trace), num, pgno, Pool())
      ensures pgno == P_INVALID ==> Exhausted(free, oldest, pglast) && pghead[0] > 0
    {
      hide Takes, MayTake, Separate, Taken, Descending, Elems, Run, NoRun;
      trace := [];
      NothingTaken(free, oldest, Pool(), pglast);
      var readit := pghead[0] < num;
      if readit { TooShort(Pool(), num); }
      pgno := P_INVALID;
      while true
        invariant Valid() && pghead != null && (pghead == old(pghead) || fresh(pghead)) && pgno == P_INVALID
        invariant Takes(free, oldest, old(Pool()), old(pglast), trace)
        invariant Pool() == PoolAfter(old(Pool()), trace) && pglast == LastAfter(old(pglast), trace)
        invariant Frugal(old(Pool()), trace, num)
        invariant readit ==> NoRun(Pool(), num)
        decreases Unread(), !readit
      {
        if readit {
          var more;
          ghost var trace0 := trace;
          more, trace := MergeNext(oldest, old(Pool()), old(pglast), trace);
          if !more { break; }
          FrugalOneMore(old(Pool()), trace0, trace[|trace0|], num);
          if pghead[0] < num {
            TooShort(Pool(), num);
            continue;
          }
        }
        BelowInvalid(free, Pool(), pglast);
        pgno := TakeRun(pghead, num);
        TakenKeeps(free, PoolAfter(old(Pool()), trace), pglast, num, pgno, Pool());
        if pgno != P_INVALID { return; }
        readit := true;
      }
      NotTaken(Pool(), num);
    }

    /** One more record is merged in, if there is one that may be used. */
    method MergeNext(oldest: TxnId, ghost pool: seq<PageNo>, ghost last0: TxnId, ghost trace0: seq<Took>)
      returns (more: bool, ghost trace: seq<Took>)
      requires Valid() && pghead != null
      requires Takes(free, oldest, pool, last0, trace0)
      requires Pool() == PoolAfter(pool, trace0) && pglast == LastAfter(last0, trace0)
      modifies this`pghead, this`pglast, pghead
      ensures Valid() && pghead != null && (pghead == old(pghead) || fresh(pghead))
      ensures Takes(free, oldest, pool, last0, trace)
      ensures Pool() == PoolAfter(pool, trace) && pglast == LastAfter(last0, trace)
      ensures !more ==> Pool() == old(Pool()) && pglast == old(pglast) && Exhausted(free, oldest, pglast)
      ensures if more then |trace| == |trace0| + 1 && trace == trace0 + [trace[|trace0|]] else trace == trace0
      ensures more ==> Unread() < old(Unread())
    {
      hide Takes, MayTake, Separate, MergedDown, Descending;
      trace := trace0;
      more := false;
      var last := pglast + 1;
      if oldest == last { return; }
      var found, key := NextRecord(free, last);
      if !found || oldest <= key { return; }
      ghost var p := Pool();
      StaysSeparate(free, p, pglast, key);
      TakesNext(free, oldest, p, pglast, key);
      trace := trace0 + [Took(key, MergedDown(free[key], p))];
      TakesOneMore(free, oldest, pool, last0, trace0, Took(key, MergedDown(free[key], p)));
      RecordNumbers(free, p, pglast, key);
      assert key in Unread();
      var mop2 := MergeRecord(free[key], pghead);
      pglast := key;
      pghead := mop2;
      more := true;
    }

    /** mdb_page_alloc. */
    method Allocate(num: nat) returns (r: Result, ghost oldest: TxnId, ghost trace: seq<Took>)
      requires Valid() && num >= 1
      modifies this`pghead, this`pglast, this`nextPgno, this`dirtyRoom, pghead
      ensures Valid() && IsOldest(readers[..], txnid, oldest)
      ensures Takes(free, oldest, old(Pool()), old(pglast), trace) && pglast == LastAfter(old(pglast), trace)
      ensures r.TxnFull? <==> old(dirtyRoom) == 0
      ensures dirtyRoom == if r.Pages? then old(dirtyRoom) - 1 else old(dirtyRoom)
      ensures r.TxnFull? ==> trace == [] && Pool() == old(Pool()) && nextPgno == old(nextPgno)
      // records are taken only for want of a run; the lowest run of free pages is used; the file
      // grows only if there is none, even with all the records that may be taken
      ensures Frugal(old(Pool()), trace, num)
      ensures r.Pages? && nextPgno == old(nextPgno) ==>
        r.pgno != P_INVALID && Taken(PoolAfter(old(Pool()), trace), num, r.pgno, Pool())
      ensures r.MapFull? || (r.Pages? && nextPgno != old(nextPgno)) ==>
        && Pool() == PoolAfter(old(Pool()), trace) && NoRun(Pool(), num)
        && (txnid > 3 ==> Exhausted(free, oldest, pglast))
      ensures r.Pages? && nextPgno != old(nextPgno) ==>
        r.pgno == old(nextPgno) && nextPgno == old(nextPgno) + num < maxpg
      ensures r.MapFull? ==> nextPgno == old(nextPgno) && nextPgno + num >= maxpg
    {
      hide Takes, Separate, Taken, Descending, NoRun;
      trace := [];
      var o := FindOldest(txnid, readers);
      oldest := o;
      NothingTaken(free, oldest, Pool(), pglast);
      if dirtyRoom == 0 {
        r := TxnFull;
        return;
      }
      var pgno := P_INVALID;
      NoPool(num);
      if txnid > 3 {
        pgno, trace := FromPool(o, num);
      }
      if pgno != P_INVALID {
        r := Pages(pgno);
      } else if nextPgno + num >= maxpg {
        r := MapFull;
        return;
      } else {
        r := Pages(nextPgno);
        nextPgno := nextPgno + num;
      }
      dirtyRoom := dirtyRoom - 1;
    }

    /** The part of mdb_page_alloc that looks for free pages. */
    method FromPool(oldest: TxnId, num: nat) returns (pgno: nat, ghost trace: seq<Took>)
      requires Valid() && num >= 1 && txnid > 3
      modifies this`pghead, this`pglast, pghead
      ensures Valid() && (pghead == null || pghead == old(pghead) || fresh(pghead))
      ensures Takes(free, oldest, old(Pool()), old(pglast), trace) && pglast == LastAfter(old(pglast), trace)
      ensures Frugal(old(Pool()), trace, num)
      ensures pgno != P_INVALID ==> Taken(PoolAfter(old(Pool()), trace), num, pgno, Pool())
      ensures pgno == P_INVALID ==> Pool() == PoolAfter(old(Pool()), trace) && NoRun(Pool(), num)
      ensures pgno == P_INVALID ==> Exhausted(free, oldest, pglast)
    {
      hide Takes, Separate, Descending, Taken, NoRun;
      trace := [];
      NothingTaken(free, oldest, Pool(), pglast);
      pgno := P_INVALID;
      NoPool(num);
      if pghead == null {
        trace := ReadFirst(oldest);
        assert Frugal(old(Pool()), trace, num);
      }
      if pghead != null {
        ghost var pool1, last1, trace1 := Pool(), pglast, trace;
        if num > 1 {
          pgno, trace := TakeMany(oldest, num);
          TakesBoth(free, oldest, old(Pool()), old(pglast), trace1, trace);
          FrugalBoth(old(Pool()), trace1, trace, num);
          trace := trace1 + trace;
          if pgno == P_INVALID { TakenNothing(PoolAfter(pool1, trace[|trace1|..]), num, Pool()); }
        } else {
          PeelLast(pool1, pglast, free);
          pgno := pghead[pghead[0]];
          pghead[0] := pghead[0] - 1;
          assert Pool() == pool1[..|pool1| - 1];
        }
        if pghead[0] == 0 {
          assert Pool() == [];
          pghead := null;
        }
      }
    }
  }

  lemma NothingTaken(free: FreeMap, oldest: TxnId, pool: seq<PageNo>, last: TxnId)
    ensures Takes(free, oldest, pool, last, []) && PoolAfter(pool, []) == pool && LastAfter(last, []) == last
  {
  }

  lemma NoPool(num: nat)
    requires num >= 1
    ensures NoRun([], num)
  {
    TooShort([], num);
  }

  lemma TakesNext(free: FreeMap, oldest: TxnId, pool: seq<PageNo>, last: TxnId, key: TxnId)
    requires Separate(free, pool, last) && Descending(pool) && key in free && last < key < oldest
    requires forall k :: k in free && last + 1 <= k ==> key <= k
    ensures MayTake(free, oldest, pool, last, Took(key, MergedDown(free[key], pool)))
  {
    StaysSeparate(free, pool, last, key);
  }

  lemma RecordNumbers(free: FreeMap, pool: seq<PageNo>, last: TxnId, key: TxnId)
    requires Separate(free, pool, last) && key in free
    ensures forall x :: 0 <= x < |free[key]| ==> free[key][x] < P_INVALID
  {
    forall x | 0 <= x < |free[key]| ensures free[key][x] < P_INVALID { assert Listed(free, key, free[key][x]); }
  }

  lemma BelowInvalid(free: FreeMap, pool: seq<PageNo>, last: TxnId)
    requires Separate(free, pool, last)
    ensures forall p :: p in Elems(pool) ==> p < P_INVALID
  {
  }

  lemma TakenKeeps(free: FreeMap, pool: seq<PageNo>, last: TxnId, num: nat, pgno: nat, left: seq<PageNo>)
    requires Separate(free, pool, last) && Descending(pool) && Taken(pool, num, pgno, left)
    ensures Separate(free, left, last) && Descending(left)
    ensures pgno == P_INVALID ==> left == pool && NoRun(left, num)
  {
    FewerPages(free, pool, last, left);
  }

  lemma NotTaken(pool: seq<PageNo>, num: nat)
    requires NoRun(pool, num)
    ensures Taken(pool, num, P_INVALID, pool)
  {
  }

  lemma TakenNothing(pool: seq<PageNo>, num: nat, left: seq<PageNo>)
    requires Taken(pool, num, P_INVALID, left)
    ensures left == pool && NoRun(pool, num)
  {
  }

  /** A list in its array form. */
  method Copied(idl: seq<PageNo>) returns (mop: array<nat>)
    ensures fresh(mop) && Idl(mop) && Ids(mop) == idl
  {
    mop := new nat[|idl| + 1];
    mop[0] := |idl|;
    var k := 0;
    while k < |idl|
      invariant 0 <= k <= |idl| && mop[0] == |idl|
      invariant forall x :: 0 <= x < k ==> mop[x + 1] == idl[x]
    {
      mop[k + 1] := idl[k];
      k := k + 1;
    }
  }

  /** Two traces, one after the other. */
  lemma {:induction false} TakesBoth(free: FreeMap, oldest: TxnId, pool: seq<PageNo>, last: TxnId,
                                     a: seq<Took>, b: seq<Took>)
    requires Takes(free, oldest, pool, last, a)
    requires Takes(free, oldest, PoolAfter(pool, a), LastAfter(last, a), b)
    ensures Takes(free, oldest, pool, last, a + b)
    ensures PoolAfter(pool, a + b) == PoolAfter(PoolAfter(pool, a), b)
    ensures LastAfter(last, a + b) == LastAfter(LastAfter(last, a), b)
    decreases |b|
  {
    hide MayTake;
    if b == [] {
      assert a + b == a;
    } else {
      var n := |b| - 1;
      Unfold(free, oldest, PoolAfter(pool, a), LastAfter(last, a), b);
      hide Takes;
      TakesBoth(free, oldest, pool, last, a, b[..n]);
      assert a + b == (a + b[..n]) + [b[n]];
      TakesOneMore(free, oldest, pool, last, a + b[..n], b[n]);
    }
  }

  /** A single page comes from the end of the list. */
  lemma PeelLast(pool: seq<PageNo>, last: TxnId, free: FreeMap)
    requires Descending(pool) && pool != [] && Separate(free, pool, last)
    ensures var left := pool[..|pool| - 1];
            && Taken(pool, 1, pool[|pool| - 1], left) && pool[|pool| - 1] != P_INVALID
            && Descending(left) && Separate(free, left, last)
  {
    var m := |pool| - 1;
    var left := pool[..m];
    PrefixElems(pool);
    assert Run(pool[m], 1) == {pool[m]};
    forall p: PageNo | Run(p, 1) <= Elems(pool) ensures pool[m] <= p { assert p in Run(p, 1); }
    FewerPages(free, pool, last, left);
  }
}
