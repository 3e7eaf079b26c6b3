/** Free-page lists: the bookkeeping of which page number is where.

A page number from 2 up to the next unallocated page is either in use by a tree or on
exactly one list, exactly once. `Tiled` says so; the lemmas are the moves that keep it.
 */
module PageLists {
  type PageNo = nat
  type TxnId = nat
  type FreeMap = map<TxnId, seq<PageNo>>

  function Elems(l: seq<PageNo>): set<PageNo> {
    set p | p in l
  }

  predicate NoDup(l: seq<PageNo>) {
    forall i, j :: 0 <= i < j < |l| ==> l[i] != l[j]
  }

  predicate Descending(l: seq<PageNo>) {
    forall i, j :: 0 <= i < j < |l| ==> l[i] > l[j]
  }

  /** The page numbers p .. p + num - 1. */
  function Run(p: PageNo, num: nat): (r: set<PageNo>)
    ensures forall q :: q in r <==> p <= q < p + num
  {
    if num == 0 then {} else Run(p, num - 1) + {p + num - 1}
  }

  predicate Listed(free: FreeMap, k: TxnId, p: PageNo) {
    k in free && p in free[k]
  }

  ghost predicate Somewhere(free: FreeMap, p: PageNo) {
    exists k :: Listed(free, k, p)
  }

  /** Every page number in 2 .. next - 1 is used or listed, never both, and listed only once. */
  ghost predicate Tiled(used: set<PageNo>, free: FreeMap, next: PageNo) {
    && 2 <= next
    && (forall k :: k in free ==> NoDup(free[k]))
    && (forall k: TxnId, k': TxnId, p: PageNo :: Listed(free, k, p) && Listed(free, k', p) ==> k == k')
    && (forall k: TxnId, p: PageNo :: Listed(free, k, p) ==> p !in used && 2 <= p < next)
    && (forall p :: p in used ==> 2 <= p < next)
    && (forall p: PageNo :: 2 <= p < next && p !in used ==> Somewhere(free, p))
  }

  /** Pages leave the list under `k` and come into use. */
  lemma TakeFromList(used: set<PageNo>, free: FreeMap, next: PageNo, k: TxnId, l: seq<PageNo>, pages: set<PageNo>)
    requires Tiled(used, free, next) && k in free
    requires NoDup(l) && Elems(l) == Elems(free[k]) - pages && pages <= Elems(free[k])
    ensures Tiled(used + pages, free[k := l], next)
  {
    var free' := free[k := l];
    forall p | p in pages ensures Listed(free, k, p) { assert p in Elems(free[k]); }
    forall j: TxnId, p: PageNo | Listed(free', j, p) ensures Listed(free, j, p) && p !in pages {
      if j == k { assert p in Elems(l); }
      assert Listed(free, j, p);
    }
    forall p | 2 <= p < next && p !in used + pages ensures Somewhere(free', p) {
      var j :| Listed(free, j, p);
      if j == k { assert p in Elems(l); }
      assert Listed(free', j, p);
    }
  }

  /** Pages go out of use and onto the list under `k`. */
  lemma PutOnList(used: set<PageNo>, free: FreeMap, next: PageNo, k: TxnId, l: seq<PageNo>, pages: set<PageNo>)
    requires Tiled(used, free, next) && k in free && pages <= used
    requires NoDup(l) && Elems(l) == Elems(free[k]) + pages
    ensures Tiled(used - pages, free[k := l], next)
  {
    var free' := free[k := l];
    forall j, p | Listed(free', j, p) ensures if p in pages then j == k else Listed(free, j, p) {
      if j == k {
        assert p in Elems(free[k]) + pages;
      } else {
        assert Listed(free, j, p);
      }
    }
    forall p | 2 <= p < next && p !in used - pages ensures Somewhere(free', p) {
      if p in pages {
        assert p in Elems(l);
        assert Listed(free', k, p);
      } else {
        var j :| Listed(free, j, p);
        if j == k { assert p in Elems(l); }
        assert Listed(free', j, p);
      }
    }
  }

  /** New pages are taken from the end of the file. */
  lemma Extend(used: set<PageNo>, free: FreeMap, next: PageNo, num: nat)
    requires Tiled(used, free, next)
    ensures Tiled(used + Run(next, num), free, next + num)
  {
    forall p | 2 <= p < next + num && p !in used + Run(next, num) ensures Somewhere(free, p) {
      assert p < next;
    }
  }

  /** The list under `k` moves, as a whole, into the list under `k'`. */
  lemma JoinLists(used: set<PageNo>, free: FreeMap, next: PageNo, k: TxnId, k': TxnId, l: seq<PageNo>)
    requires Tiled(used, free, next) && k in free && k' in free && k != k'
    requires NoDup(l) && Elems(l) == Elems(free[k]) + Elems(free[k'])
    ensures Tiled(used, (free - {k})[k' := l], next)
  {
    var free' := (free - {k})[k' := l];
    forall j, p | Listed(free', j, p)
      ensures if j == k' then Listed(free, k, p) || Listed(free, k', p) else j != k && Listed(free, j, p)
    {
      if j == k' { assert p in Elems(l); }
    }
    forall p | Somewhere(free, p) ensures Somewhere(free', p) {
      var j :| Listed(free, j, p);
      if j == k || j == k' {
        assert p in Elems(l);
        assert Listed(free', k', p);
      } else {
        assert Listed(free', j, p);
      }
    }
  }

  /** The lists of `free` are replaced by others that hold the same pages. */
  lemma Regroup(used: set<PageNo>, free: FreeMap, next: PageNo, free': FreeMap)
    requires Tiled(used, free, next)
    requires forall k :: k in free' ==> NoDup(free'[k])
    requires forall k: TxnId, k': TxnId, p: PageNo :: Listed(free', k, p) && Listed(free', k', p) ==> k == k'
    requires forall p: PageNo :: Somewhere(free, p) <==> Somewhere(free', p)
    ensures Tiled(used, free', next)
  {
    forall k: TxnId, p: PageNo | Listed(free', k, p) ensures p !in used && 2 <= p < next {
      assert Somewhere(free', p);
      var j :| Listed(free, j, p);
    }
  }

  lemma DescendingNoDup(l: seq<PageNo>)
    requires Descending(l)
    ensures NoDup(l)
  {
  }

  /** Two lists without repetitions and with the same elements have the same multiset. */
  lemma {:induction false} NoDupPermutation(a: seq<PageNo>, b: seq<PageNo>)
    requires multiset(a) == multiset(b) && NoDup(b)
    ensures NoDup(a) && Elems(a) == Elems(b)
  {
    forall p ensures p in a <==> p in b {
      assert p in multiset(a) <==> p in multiset(b);
    }
    forall i, j | 0 <= i < j < |a| ensures a[i] != a[j] {
      if a[i] == a[j] {
        CountTwice(a, i, j);
        CountOnce(b, a[i]);
        assert false;
      }
    }
  }

  lemma CountTwice(l: seq<PageNo>, i: nat, j: nat)
    requires i < j < |l| && l[i] == l[j]
    ensures multiset(l)[l[i]] >= 2
  {
    assert l == l[..j] + [l[j]] + l[j + 1..];
    assert l[i] in l[..j];
  }

  lemma {:induction false} CountOnce(l: seq<PageNo>, p: PageNo)
    requires NoDup(l)
    ensures multiset(l)[p] <= 1
  {
    if l != [] {
      var rest := l[..|l| - 1];
      CountOnce(rest, p);
      assert l == rest + [l[|l| - 1]];
      if l[|l| - 1] == p { assert p !in rest; }
    }
  }
}
