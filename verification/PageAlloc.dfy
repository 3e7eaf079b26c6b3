/** The page allocator: runs of free pages from older transactions are reused first.

An ID list is an array whose element 0 is the number of IDs that follow, in descending order.
The allocator takes the free-page records of the last commit one after the other, in
ascending order of transaction, as long as they are older than every reader, and merges
them into its pool until the pool holds a run that is long enough.
 */
module PageAlloc {
  import opened PageLists
  import opened PageRuns

  const P_INVALID := 0xFFFF_FFFF_FFFF_FFFF

  ghost predicate Idl(mop: array<nat>)
    reads mop
  {
    mop.Length >= 1 && mop[0] < mop.Length
  }

  ghost function Ids(mop: array<nat>): (r: seq<PageNo>)
    requires Idl(mop)
    reads mop
    ensures |r| == mop[0]
  {
    mop[1..mop[0] + 1]
  }

  /** A slot of the reader table. */
  datatype Slot = Slot(pid: nat, txnid: nat)

  /** No occupied slot and no unpublished commit is below `oldest`, and one of them is there. */
  ghost predicate IsOldest(readers: seq<Slot>, txnid: nat, oldest: nat) {
    && oldest < txnid
    && (forall i :: 0 <= i < |readers| && readers[i].pid != 0 ==> oldest <= readers[i].txnid)
    && (oldest == txnid - 1 || exists i :: 0 <= i < |readers| && readers[i].pid != 0 && readers[i].txnid == oldest)
  }

  /** mdb_find_oldest. */
  method FindOldest(txnid: nat, readers: array<Slot>) returns (oldest: nat)
    requires txnid > 0
    ensures IsOldest(readers[..], txnid, oldest)
  {
    oldest := txnid - 1;
    var i := readers.Length;
    while i > 0
      invariant 0 <= i <= readers.Length && oldest < txnid
      invariant forall k :: i <= k < readers.Length && readers[k].pid != 0 ==> oldest <= readers[k].txnid
      invariant
        || oldest == txnid - 1
        || exists k :: 0 <= k < readers.Length && readers[k].pid != 0 && readers[k].txnid == oldest
    {
      i := i - 1;
      if readers[i].pid != 0 {
        var mr := readers[i].txnid;
        if oldest > mr { oldest := mr; }
      }
    }
    ghost var s := readers[..];
    assert oldest == txnid - 1 || exists k :: 0 <= k < |s| && s[k].pid != 0 && s[k].txnid == oldest;
  }

  /** The smallest record number from `from` on: a range search in the free-page tree. */
  method NextRecord(free: FreeMap, from: TxnId) returns (found: bool, key: TxnId)
    ensures found ==> key in free && from <= key && forall k :: k in free && from <= k ==> key <= k
    ensures !found ==> forall k :: k in free ==> k < from
  {
    found, key := false, 0;
    var rest := free.Keys;
    while rest != {}
      invariant rest <= free.Keys
      invariant found ==> key in free && from <= key && forall k :: k in free && k !in rest && from <= k ==> key <= k
      invariant !found ==> forall k :: k in free && k !in rest ==> k < from
      decreases |rest|
    {
      var k :| k in rest;
      rest := rest - {k};
      if from <= k && (!found || k < key) { found, key := true, k; }
    }
  }

  /** A record is merged into the pool, from the back. The count of the old list is overwritten by
      the largest number, which ends the copying of that list. */
  method MergeRecord(idl: seq<PageNo>, mop: array<nat>) returns (mop2: array<nat>)
    requires Idl(mop) && (forall x :: 0 <= x < |idl| ==> idl[x] < P_INVALID)
    modifies mop
    ensures fresh(mop2) && Idl(mop2) && Ids(mop2) == MergedDown(idl, old(Ids(mop)))
  {
    hide MergedDown;
    ghost var b := Ids(mop);
    var i, j := |idl|, mop[0];
    var k := i + j;
    mop2 := new nat[k + 1];
    mop2[0] := k;
    mop[0] := P_INVALID;
    ghost var r := MergedDown(idl, b);
    assert idl[..i] == idl && b[..j] == b && r[..k] == r;
    while i > 0 || j > 0
      invariant 0 <= i <= |idl| && 0 <= j <= |b| && k == i + j && mop2[0] == |r| && mop[0] == P_INVALID
      invariant forall x :: 1 <= x <= |b| ==> mop[x] == b[x - 1]
      invariant forall x :: k < x <= |r| ==> mop2[x] == r[x - 1]
      invariant r[..k] == MergedDown(idl[..i], b[..j])
      decreases i + j
    {
      MergeDownStep(idl, b, i, j);
      if i > 0 && idl[i - 1] < mop[j] {
        LastOfPrefix(r, k, MergedDown(idl[..i - 1], b[..j]), idl[i - 1]);
        mop2[k] := idl[i - 1];
        k, i := k - 1, i - 1;
      } else {
        LastOfPrefix(r, k, MergedDown(idl[..i], b[..j - 1]), b[j - 1]);
        mop2[k] := mop[j];
        k, j := k - 1, j - 1;
      }
    }
    assert Ids(mop2) == r;
  }

  lemma LastOfPrefix(r: seq<PageNo>, k: nat, m: seq<PageNo>, e: PageNo)
    requires k <= |r| && r[..k] == m + [e]
    ensures k > 0 && r[k - 1] == e && r[..k - 1] == m
  {
    assert r[..k - 1] == r[..k][..k - 1];
    assert r[k - 1] == r[..k][k - 1];
  }

  /** What a search for a run of `num` pages in the list l yields: the lowest one, taken out. */
  ghost predicate Taken(l: seq<PageNo>, num: nat, pgno: nat, left: seq<PageNo>) {
    if pgno == P_INVALID then
      left == l && forall p: PageNo :: !(Run(p, num) <= Elems(l))
    else
      && Run(pgno, num) <= Elems(l)
      && Descending(left) && Elems(left) == Elems(l) - Run(pgno, num)
      && forall p: PageNo :: Run(p, num) <= Elems(l) ==> pgno <= p
  }

  /** No run is left out by the search. */
  lemma NoRunBefore(l: seq<PageNo>, num: nat, i: nat, p: PageNo)
    requires Descending(l) && num >= 1 && Run(p, num) <= Elems(l)
    requires forall x :: i <= x && x + num <= |l| ==> !RunAt(l, x, num)
    ensures exists x :: 0 <= x < i && RunAt(l, x, num) && l[x + num - 1] == p
  {
    var x := RunIsAt(l, p, num);
  }

  /** The search for a run of several pages, and its removal. */
  method TakeRun(mop: array<nat>, num: nat) returns (pgno: nat)
    requires Idl(mop) && Descending(Ids(mop)) && num >= 2
    requires forall p :: p in Elems(Ids(mop)) ==> p < P_INVALID
    modifies mop
    ensures Idl(mop) && Taken(old(Ids(mop)), num, pgno, Ids(mop))
  {
    hide Run, Elems;
    ghost var l := Ids(mop);
    var n2 := num - 1;
    var i := mop[0];
    pgno := P_INVALID;
    while i >= num
      invariant 0 <= i <= |l| && Ids(mop) == l && Idl(mop) && pgno == P_INVALID
      invariant forall x :: i - num < x && 0 <= x && x + num <= |l| ==> !RunAt(l, x, num)
    {
      assert mop[i] == l[i - 1] && mop[i - n2] == l[i - num];
      if mop[i - n2] == mop[i] + n2 {
        pgno := mop[i];
        assert RunAt(l, i - num, num);
        LowestRun(l, i - num, num);
        RemoveRun(mop, i - n2, num);
        return;
      }
      assert !RunAt(l, i - num, num);
      i := i - 1;
    }
    forall p: PageNo ensures !(Run(p, num) <= Elems(l)) {
      if Run(p, num) <= Elems(l) { NoRunBefore(l, num, 0, p); }
    }
  }

  lemma LowestRun(l: seq<PageNo>, i: nat, num: nat)
    requires Descending(l) && RunAt(l, i, num)
    requires forall x :: i < x && x + num <= |l| ==> !RunAt(l, x, num)
    requires forall p :: p in Elems(l) ==> p < P_INVALID
    ensures Taken(l, num, l[i + num - 1], Without(l, i, num)) && l[i + num - 1] < P_INVALID
  {
    hide Run;
    WithoutRun(l, i, num);
    assert l[i + num - 1] in Elems(l);
    forall p: PageNo | Run(p, num) <= Elems(l) ensures l[i + num - 1] <= p {
      NoRunBefore(l, num, i + 1, p);
    }
  }

  /** The entries behind the run move down. */
  method RemoveRun(mop: array<nat>, i0: nat, num: nat)
    requires Idl(mop) && 1 <= i0 && i0 - 1 + num <= mop[0] && num >= 1
    modifies mop
    ensures Idl(mop) && Ids(mop) == Without(old(Ids(mop)), i0 - 1, num)
  {
    hide Without;
    ghost var s := mop[..];
    var i, j, n := i0, i0 + num, mop[0];
    while j <= n
      invariant i0 <= i && j == i + num && j <= n + 1 && mop[0] == n
      invariant forall x :: 0 <= x < i0 ==> mop[x] == s[x]
      invariant forall x, y :: i0 <= x < i && y == x + num ==> mop[x] == s[y]
      invariant forall x :: j <= x <= n ==> mop[x] == s[x]
    {
      mop[i] := mop[j];
      i, j := i + 1, j + 1;
    }
    mop[0] := n - num;
    Closed(mop[..], s, i0, num, n);
  }

  lemma Closed(t: seq<nat>, s: seq<nat>, i0: nat, num: nat, n: nat)
    requires 1 <= i0 <= i0 - 1 + num <= n < |s| == |t|
    requires forall x :: 1 <= x < i0 ==> t[x] == s[x]
    requires forall x, y :: i0 <= x <= n - num && y == x + num ==> t[x] == s[y]
    ensures t[1..n - num + 1] == Without(s[1..n + 1], i0 - 1, num)
  {
    hide Without;
    var l, r := s[1..n + 1], Without(s[1..n + 1], i0 - 1, num);
    forall x | 0 <= x < n - num ensures t[x + 1] == r[x] { WithoutAt(l, i0 - 1, num, x); }
  }

  /** The free-list part of mdb_ovpage_free: a dirty run goes back into the pool. */
  method GiveBackRun(mop0: array<nat>, pg: PageNo, num: nat) returns (mop: array<nat>)
    requires Idl(mop0) && Descending(Ids(mop0)) && Run(pg, num) !! Elems(Ids(mop0))
    modifies mop0
    ensures mop == mop0 || fresh(mop)
    ensures Idl(mop) && Descending(Ids(mop)) && Elems(Ids(mop)) == old(Elems(Ids(mop0))) + Run(pg, num)
  {
    hide Run, Elems;
    ghost var l := Ids(mop0);
    mop := mop0;
    if mop[0] + num > mop.Length - 1 {
      mop := Enlarged(mop0, num);
    }
    var i := PutBack(mop, pg, num);
    WithRun(l, i, pg, num);
  }

  /** mdb_midl_grow. */
  method Enlarged(mop: array<nat>, num: nat) returns (r: array<nat>)
    requires Idl(mop)
    ensures fresh(r) && r.Length == mop.Length + num && Idl(r) && Ids(r) == Ids(mop)
  {
    r := new nat[mop.Length + num];
    var k := 0;
    while k < mop.Length
      invariant 0 <= k <= mop.Length
      invariant forall x :: 0 <= x < k ==> r[x] == mop[x]
    {
      r[k] := mop[k];
      k := k + 1;
    }
  }

  method PutBack(mop: array<nat>, pg0: PageNo, num: nat) returns (i: nat)
    requires Idl(mop) && Descending(Ids(mop)) && mop[0] + num < mop.Length
    modifies mop
    ensures Idl(mop) && i <= |old(Ids(mop))| && Ids(mop) == With(old(Ids(mop)), i, pg0, num)
    ensures forall x :: 0 <= x < i ==> old(Ids(mop))[x] >= pg0
    ensures forall x :: i <= x < |old(Ids(mop))| ==> old(Ids(mop))[x] < pg0
  {
    hide With;
    ghost var l := Ids(mop);
    var n := mop[0];
    var j := n + num;
    i := n;
    while i > 0 && mop[i] < pg0
      invariant i <= n && j == i + num && mop[0] == n
      invariant forall x :: 1 <= x <= i ==> mop[x] == l[x - 1]
      invariant forall x, y :: i <= y < n && x == y + num + 1 ==> mop[x] == l[y]
      invariant forall x :: i <= x < n ==> l[x] < pg0
      decreases i
    {
      mop[j] := mop[i];
      i, j := i - 1, j - 1;
    }
    assert forall x :: 0 <= x < i ==> l[x] == mop[x + 1] >= pg0;
    FillRun(mop, l, i, j, n, pg0, num);
  }

  /** The run is stored in the gap, lowest number last. */
  method FillRun(mop: array<nat>, ghost l: seq<PageNo>, i: nat, j0: nat, n: nat, pg0: PageNo, num: nat)
    requires i <= n == |l| && j0 == i + num && n + num < mop.Length && mop[0] == n
    requires forall x :: 1 <= x <= i ==> mop[x] == l[x - 1]
    requires forall x, y :: i <= y < n && x == y + num + 1 ==> mop[x] == l[y]
    modifies mop
    ensures Idl(mop) && Ids(mop) == With(l, i, pg0, num)
  {
    hide With;
    var j, pg := j0, pg0;
    while j > i
      invariant i <= j <= j0 && pg == pg0 + (j0 - j) && mop[0] == n
      invariant forall x :: 1 <= x <= i ==> mop[x] == l[x - 1]
      invariant forall x, y :: i <= y < n && x == y + num + 1 ==> mop[x] == l[y]
      invariant forall x :: j < x <= j0 ==> mop[x] == pg0 + (j0 - x)
    {
      mop[j] := pg;
      j, pg := j - 1, pg + 1;
    }
    mop[0] := mop[0] + num;
    ghost var r := With(l, i, pg0, num);
    forall x | 0 <= x < n + num ensures mop[x + 1] == r[x] { WithAt(l, i, pg0, num, x); }
    assert Ids(mop) == r;
  }
}
