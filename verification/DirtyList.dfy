/** The sorted list of dirty pages of a write transaction (MDB_ID2L).

Element 0 of the array holds the number of entries in its `mid` field; the entries follow in
ascending order of page number. The abstract value of a list is a map from page numbers to
pages, and an ascending list is determined by that map.
 */
module DirtyList {

  const UM_MAX := 0x1FFFF

  /** A page number and the memory page that holds its new contents. */
  datatype Entry = Entry(mid: nat, mptr: int)

  /** Page numbers 0 and 1 are the meta pages, so entries are positive. */
  ghost predicate Ascending(l: seq<Entry>) {
    && (forall i :: 0 <= i < |l| ==> l[i].mid > 0)
    && (forall i, j :: 0 <= i < j < |l| ==> l[i].mid < l[j].mid)
  }

  ghost function View(l: seq<Entry>): map<nat, int> {
    if l == [] then map[] else View(l[..|l| - 1])[l[|l| - 1].mid := l[|l| - 1].mptr]
  }

  lemma {:induction false} ViewKeys(l: seq<Entry>, p: nat)
    ensures p in View(l) <==> exists i :: 0 <= i < |l| && l[i].mid == p
  {
    if l != [] {
      var m := |l| - 1;
      ViewKeys(l[..m], p);
      assert forall i :: 0 <= i < m ==> l[..m][i] == l[i];
    }
  }

  lemma {:induction false} ViewAt(l: seq<Entry>, i: nat)
    requires Ascending(l) && i < |l|
    ensures l[i].mid in View(l) && View(l)[l[i].mid] == l[i].mptr
  {
    var m := |l| - 1;
    if i < m { ViewAt(l[..m], i); }
  }

  lemma ViewSnoc(a: seq<Entry>, e: Entry)
    ensures View(a + [e]) == View(a)[e.mid := e.mptr]
  {
    assert (a + [e])[..|a|] == a;
  }

  ghost predicate Lists(l: seq<Entry>, p: nat) {
    exists i :: 0 <= i < |l| && l[i].mid == p
  }

  lemma ViewIs(l: seq<Entry>, m: map<nat, int>)
    requires Ascending(l)
    requires forall i :: 0 <= i < |l| ==> l[i].mid in m && m[l[i].mid] == l[i].mptr
    requires forall p :: p in m ==> Lists(l, p)
    ensures View(l) == m
  {
    forall p ensures p in View(l) <==> p in m { ViewKeys(l, p); }
    forall p | p in m ensures View(l)[p] == m[p] {
      var i :| 0 <= i < |l| && l[i].mid == p;
      ViewAt(l, i);
    }
  }

  /** An ascending list has as many entries as its map has keys. */
  lemma {:induction false} ViewSize(l: seq<Entry>)
    requires Ascending(l)
    ensures |View(l)| == |l|
  {
    if l != [] {
      var m := |l| - 1;
      ViewSize(l[..m]);
      ViewKeys(l[..m], l[m].mid);
      assert View(l).Keys == View(l[..m]).Keys + {l[m].mid};
      assert |View(l).Keys| == |View(l)| && |View(l[..m]).Keys| == |View(l[..m])|;
    }
  }

  /** The largest key of the map is the last entry. */
  lemma LastIsLargest(a: seq<Entry>, b: seq<Entry>)
    requires Ascending(a) && Ascending(b) && View(a) == View(b) && a != []
    ensures b != [] && a[|a| - 1] == b[|b| - 1]
  {
    hide View;
    var x := |a| - 1;
    ViewAt(a, x);
    ViewKeys(b, a[x].mid);
    var y := |b| - 1;
    ViewAt(b, y);
    ViewKeys(a, b[y].mid);
  }

  /** An ascending list is determined by its map. */
  lemma {:induction false} AscendingUnique(a: seq<Entry>, b: seq<Entry>)
    requires Ascending(a) && Ascending(b) && View(a) == View(b)
    ensures a == b
    decreases |a|
  {
    if a == [] {
      if b != [] { ViewAt(b, 0); }
    } else {
      LastIsLargest(a, b);
      var x, y := |a| - 1, |b| - 1;
      WithoutLast(a);
      WithoutLast(b);
      AscendingUnique(a[..x], b[..y]);
      assert a == a[..x] + [a[x]] && b == b[..y] + [b[y]];
    }
  }

  lemma WithoutLast(a: seq<Entry>)
    requires Ascending(a) && a != []
    ensures Ascending(a[..|a| - 1]) && View(a[..|a| - 1]) == View(a) - {a[|a| - 1].mid}
  {
    ViewKeys(a[..|a| - 1], a[|a| - 1].mid);
  }

  /** A list array in good order; its entries are `Pages`. */
  ghost predicate Good(ids: array<Entry>)
    reads ids
  {
    ids.Length > UM_MAX && ids[0].mid <= UM_MAX && Ascending(Pages(ids))
  }

  ghost function Pages(ids: array<Entry>): seq<Entry>
    requires ids.Length > UM_MAX && ids[0].mid <= UM_MAX
    reads ids
  {
    ids[1..ids[0].mid + 1]
  }

  /** Everything before position x of the array is below `id`, everything from it on is not. */
  ghost predicate Position(l: seq<Entry>, id: nat, x: nat) {
    && 1 <= x <= |l| + 1
    && (forall i :: 0 <= i < x - 1 ==> l[i].mid < id)
    && (forall i :: x - 1 <= i < |l| ==> l[i].mid >= id)
  }

  /** The position that a search finds. */
  function PositionOf(l: seq<Entry>, id: nat): (x: nat)
    ensures 1 <= x <= |l| + 1
    ensures Ascending(l) ==> Position(l, id, x)
  {
    if l == [] then 1
    else if l[|l| - 1].mid < id then |l| + 1
    else PositionOf(l[..|l| - 1], id)
  }

  lemma PositionUnique(l: seq<Entry>, id: nat, x: nat)
    requires Ascending(l) && Position(l, id, x)
    ensures x == PositionOf(l, id)
  {
    hide PositionOf;
    var y := PositionOf(l, id);
    var i := if x < y then x - 1 else y - 1;
    assert i < |l| ==> (l[i].mid < id <==> i < x - 1);
  }

  /** mdb_mid2l_search: binary search. */
  method Search(ids: array<Entry>, id: nat) returns (cursor: nat)
    requires Good(ids)
    ensures Position(Pages(ids), id, cursor)
  {
    ghost var l := Pages(ids);
    var n := ids[0].mid;
    var base, val := 0, 0;
    cursor := 1;
    while 0 < n
      invariant 0 <= base && 0 <= n && base + n <= |l|
      invariant forall i :: 0 <= i < base ==> l[i].mid < id
      invariant forall i :: base + n <= i < |l| ==> l[i].mid > id
      invariant val > 0 ==> cursor == base
      invariant val < 0 ==> cursor == base + n + 1
      invariant val == 0 ==> base == 0 && cursor == 1
      decreases n
    {
      var pivot := n / 2;
      cursor := base + pivot + 1;
      assert ids[cursor] == l[cursor - 1];
      val := if id < ids[cursor].mid then -1 else if id > ids[cursor].mid then 1 else 0;
      if val < 0 {
        n := pivot;
      } else if val > 0 {
        base := cursor;
        n := n - (pivot + 1);
      } else {
        return;
      }
    }
    if val > 0 {
      cursor := cursor + 1;
    }
  }

  /** The entry goes to position x; the ones from there on move up. */
  ghost function Inserted(l: seq<Entry>, x: nat, e: Entry): seq<Entry>
    requires 1 <= x <= |l| + 1
  {
    l[..x - 1] + [e] + l[x - 1..]
  }

  /** On the map, an insertion at the right position adds one binding. */
  lemma InsertedView(l: seq<Entry>, x: nat, e: Entry)
    requires Ascending(l) && e.mid > 0 && Position(l, e.mid, x)
    requires x <= |l| ==> l[x - 1].mid != e.mid
    ensures Ascending(Inserted(l, x, e)) && View(Inserted(l, x, e)) == View(l)[e.mid := e.mptr]
  {
    hide View, Inserted;
    var r, m := Inserted(l, x, e), View(l)[e.mid := e.mptr];
    InsertedAscending(l, x, e);
    forall i | 0 <= i < |r| ensures r[i].mid in m && m[r[i].mid] == r[i].mptr {
      InsertedAt(l, x, e, i);
      if i < x - 1 { ViewAt(l, i); } else if i >= x { ViewAt(l, i - 1); }
    }
    forall p | p in m ensures Lists(r, p) {
      if p == e.mid {
        InsertedAt(l, x, e, x - 1);
      } else {
        ViewKeys(l, p);
        var i :| 0 <= i < |l| && l[i].mid == p;
        InsertedAt(l, x, e, if i < x - 1 then i else i + 1);
      }
    }
    ViewIs(r, m);
  }

  lemma InsertedAt(l: seq<Entry>, x: nat, e: Entry, i: nat)
    requires 1 <= x <= |l| + 1 && i <= |l|
    ensures |Inserted(l, x, e)| == |l| + 1
    ensures Inserted(l, x, e)[i] == if i < x - 1 then l[i] else if i == x - 1 then e else l[i - 1]
  {
  }

  lemma InsertedAscending(l: seq<Entry>, x: nat, e: Entry)
    requires Ascending(l) && e.mid > 0 && Position(l, e.mid, x)
    requires x <= |l| ==> l[x - 1].mid != e.mid
    ensures |Inserted(l, x, e)| == |l| + 1 && Ascending(Inserted(l, x, e))
  {
    hide Inserted;
    var r := Inserted(l, x, e);
    InsertedAt(l, x, e, 0);
    forall i | 0 <= i < |r| ensures r[i].mid > 0 { InsertedAt(l, x, e, i); }
    forall i, j | 0 <= i < j < |r| ensures r[i].mid < r[j].mid {
      InsertedAt(l, x, e, i);
      InsertedAt(l, x, e, j);
    }
  }

  /** mdb_mid2l_insert: 0 on success, -1 for a page already listed, -2 for a full list. */
  method Insert(ids: array<Entry>, id: Entry) returns (rc: int)
    requires Good(ids) && id.mid > 0
    modifies ids
    ensures Good(ids)
    ensures rc == -1 <==> id.mid in old(View(Pages(ids)))
    ensures rc == -2 <==> id.mid !in old(View(Pages(ids))) && old(ids[0].mid) >= UM_MAX
    ensures rc != 0 ==> ids[..] == old(ids[..]) && rc in {-1, -2}
    ensures rc == 0 ==> View(Pages(ids)) == old(View(Pages(ids)))[id.mid := id.mptr]
    ensures rc == 0 ==> Pages(ids) == Inserted(old(Pages(ids)), PositionOf(old(Pages(ids)), id.mid), id)
  {
    hide View, PositionOf;
    ghost var l := Pages(ids);
    var x := Search(ids, id.mid);
    PositionUnique(l, id.mid, x);
    ViewKeys(l, id.mid);
    assert x <= |l| ==> ids[x] == l[x - 1];
    if x <= ids[0].mid && ids[x].mid == id.mid {
      return -1;
    }
    if ids[0].mid >= UM_MAX {
      return -2;
    }
    MoveUp(ids, x, id);
    InsertedView(l, x, id);
    rc := 0;
  }

  /** The insertion loop. */
  method MoveUp(ids: array<Entry>, x: nat, id: Entry)
    requires ids.Length > UM_MAX && ids[0].mid < UM_MAX && 1 <= x <= ids[0].mid + 1
    modifies ids
    ensures ids[0].mid == old(ids[0].mid) + 1 && Pages(ids) == Inserted(old(Pages(ids)), x, id)
  {
    ghost var s := ids[..];
    var n := ids[0].mid + 1;
    ids[0] := ids[0].(mid := n);
    var i := n;
    while i > x
      invariant x <= i <= n && ids[0].mid == n
      invariant forall k :: 1 <= k <= i && k < n ==> ids[k] == s[k]
      invariant forall k, m :: i < k <= n && m == k - 1 ==> ids[k] == s[m]
    {
      ids[i] := ids[i - 1];
      i := i - 1;
    }
    ids[x] := id;
    hide Inserted;
    var l, r := s[1..n], Inserted(s[1..n], x, id);
    forall k | 0 <= k < n ensures |r| == n && ids[k + 1] == r[k] { InsertedAt(l, x, id, k); }
    assert ids[1..n + 1] == r;
  }

  /** The entry at position x is taken out; without one there, the last entry is. */
  ghost function Removed(l: seq<Entry>, x: nat): seq<Entry>
    requires 1 <= x <= |l| + 1 && l != []
  {
    if x <= |l| then l[..x - 1] + l[x..] else l[..|l| - 1]
  }

  lemma RemovedView(l: seq<Entry>, x: nat)
    requires Ascending(l) && 1 <= x <= |l|
    ensures Ascending(Removed(l, x)) && View(Removed(l, x)) == View(l) - {l[x - 1].mid}
  {
    hide View, Removed;
    var r, m := Removed(l, x), View(l) - {l[x - 1].mid};
    RemovedAscending(l, x);
    forall i | 0 <= i < |r| ensures r[i].mid in m && m[r[i].mid] == r[i].mptr {
      RemovedAt(l, x, i);
      ViewAt(l, if i < x - 1 then i else i + 1);
    }
    forall p | p in m ensures Lists(r, p) {
      ViewKeys(l, p);
      var i :| 0 <= i < |l| && l[i].mid == p;
      RemovedAt(l, x, if i < x - 1 then i else i - 1);
    }
    ViewIs(r, m);
  }

  lemma RemovedAt(l: seq<Entry>, x: nat, i: nat)
    requires 1 <= x <= |l| && i < |l| - 1
    ensures |Removed(l, x)| == |l| - 1
    ensures Removed(l, x)[i] == if i < x - 1 then l[i] else l[i + 1]
  {
  }

  lemma RemovedAscending(l: seq<Entry>, x: nat)
    requires Ascending(l) && 1 <= x <= |l|
    ensures |Removed(l, x)| == |l| - 1 && Ascending(Removed(l, x))
  {
    var r := Removed(l, x);
    assert |r| == |l| - 1;
    hide Removed;
    forall i | 0 <= i < |r| ensures r[i].mid > 0 { RemovedAt(l, x, i); }
    forall i, j | 0 <= i < j < |r| ensures r[i].mid < r[j].mid {
      RemovedAt(l, x, i);
      RemovedAt(l, x, j);
    }
  }

  /** The entry that leaves the list when page `pg` is given back. */
  ghost function Picked(l: seq<Entry>, pg: nat): Entry
    requires l != []
  {
    var x := PositionOf(l, pg);
    if x <= |l| then l[x - 1] else l[|l| - 1]
  }

  /** The list without the entry that is picked. */
  ghost function Dropping(l: seq<Entry>, pg: nat): seq<Entry>
    requires l != []
  {
    Removed(l, PositionOf(l, pg))
  }

  /** One entry leaves the list, and it is that of the given page exactly when the page is listed. */
  lemma DroppingView(l: seq<Entry>, pg: nat)
    requires Ascending(l) && l != []
    ensures Ascending(Dropping(l, pg)) && |Dropping(l, pg)| == |l| - 1
    ensures View(Dropping(l, pg)) == View(l) - {Picked(l, pg).mid}
    ensures Picked(l, pg).mid in View(l) && (Picked(l, pg).mid == pg <==> pg in View(l))
  {
    hide View, PositionOf;
    var x := PositionOf(l, pg);
    var y := if x <= |l| then x else |l|;
    assert Removed(l, x) == Removed(l, y);
    RemovedView(l, y);
    ViewAt(l, y - 1);
    ViewKeys(l, pg);
  }

  /** Lists on which a give-back takes the wrong entry: page y is not listed, and z goes. */
  lemma WrongEntryGoes(x: nat, y: nat, z: nat, a: int, b: int)
    requires 0 < x < y < z
    ensures var l := [Entry(x, a), Entry(z, b)];
            Ascending(l) && y !in View(l) && Picked(l, y).mid == z && Dropping(l, y) == [Entry(x, a)]
  {
    var l := [Entry(x, a), Entry(z, b)];
    ViewKeys(l, y);
    assert Position(l, y, 2);
    PositionUnique(l, y, 2);
  }

  /** The removal in mdb_ovpage_free: the search result is used without looking at the entry
      found. From an empty list nothing is taken, but its count wraps around. */
  method Remove(ids: array<Entry>, pg: nat)
    requires Good(ids)
    modifies ids
    ensures old(ids[0].mid) == 0 ==> ids[0].mid == 0xFFFF_FFFF_FFFF_FFFF && ids[1..] == old(ids[1..])
    ensures old(ids[0].mid) > 0 ==> Good(ids) && Pages(ids) == Dropping(old(Pages(ids)), pg)
    ensures old(ids[0].mid) > 0 ==>
      (View(Pages(ids)) == old(View(Pages(ids))) - {pg} <==> pg in old(View(Pages(ids))))
  {
    hide View, PositionOf;
    ghost var l := Pages(ids);
    var x := Search(ids, pg);
    PositionUnique(l, pg, x);
    if ids[0].mid == 0 {
      ids[0] := ids[0].(mid := 0xFFFF_FFFF_FFFF_FFFF);
      return;
    }
    MoveDown(ids, x);
    DroppingView(l, pg);
    assert Picked(l, pg).mid !in View(Pages(ids));
  }

  method MoveDown(ids: array<Entry>, x0: nat)
    requires ids.Length > UM_MAX && 1 <= ids[0].mid <= UM_MAX && 1 <= x0 <= ids[0].mid + 1
    modifies ids
    ensures ids[0].mid == old(ids[0].mid) - 1 && Pages(ids) == Removed(old(Pages(ids)), x0)
  {
    ghost var s := ids[..];
    var n, x := ids[0].mid, x0;
    while x < n
      invariant x0 <= x <= n + 1 && (x <= n || x0 == n + 1) && ids[0].mid == n
      invariant forall k :: 1 <= k < x0 && k <= n ==> ids[k] == s[k]
      invariant forall k :: x <= k <= n ==> ids[k] == s[k]
      invariant forall k, m :: x0 <= k < x && m == k + 1 && m <= n ==> ids[k] == s[m]
    {
      ids[x] := ids[x + 1];
      x := x + 1;
    }
    ids[0] := ids[0].(mid := n - 1);
    var l, r := s[1..n + 1], Removed(s[1..n + 1], x0);
    assert |r| == n - 1 && (x0 == n + 1 ==> r == l[..n - 1]);
    hide Removed;
    forall k | 0 <= k < n - 1 ensures ids[k + 1] == r[k] {
      if x0 <= n { RemovedAt(l, x0, k); }
    }
    assert ids[1..n] == r;
  }
}
