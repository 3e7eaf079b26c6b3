/** Commit of a nested write transaction: its dirty list is merged into the parent's.

The merge works backwards inside the parent's array, so that no parent entry is overwritten
before it has been read. `Merged` is the merge on values; on the page maps it is the parent's
map overridden by the child's.
 */
module NestedCommit {
  import opened DirtyList

  /** Merge from the back; the child's entry wins. */
  function Merged(d: seq<Entry>, s: seq<Entry>): (r: seq<Entry>)
    ensures |d| <= |r| <= |d| + |s|
    decreases |d| + |s|
  {
    if s == [] then d
    else if d == [] then s
    else
      var ld, ls := d[|d| - 1], s[|s| - 1];
      if ls.mid < ld.mid then Merged(d[..|d| - 1], s) + [ld]
      else if ls.mid == ld.mid then Merged(d[..|d| - 1], s[..|s| - 1]) + [ls]
      else Merged(d, s[..|s| - 1]) + [ls]
  }

  /** The parent entries that the child's replace, last first. */
  function Dropped(d: seq<Entry>, s: seq<Entry>): (r: seq<Entry>)
    decreases |d| + |s|
  {
    if s == [] || d == [] then []
    else
      var ld, ls := d[|d| - 1], s[|s| - 1];
      if ls.mid < ld.mid then Dropped(d[..|d| - 1], s)
      else if ls.mid == ld.mid then [ld] + Dropped(d[..|d| - 1], s[..|s| - 1])
      else Dropped(d, s[..|s| - 1])
  }

  /** One step of the merge. */
  lemma MergeLast(d: seq<Entry>, ld: Entry, s: seq<Entry>, ls: Entry)
    ensures ls.mid < ld.mid ==>
      && Merged(d + [ld], s + [ls]) == Merged(d, s + [ls]) + [ld]
      && Dropped(d + [ld], s + [ls]) == Dropped(d, s + [ls])
    ensures ls.mid == ld.mid ==>
      && Merged(d + [ld], s + [ls]) == Merged(d, s) + [ls]
      && Dropped(d + [ld], s + [ls]) == [ld] + Dropped(d, s)
    ensures ls.mid > ld.mid ==>
      && Merged(d + [ld], s + [ls]) == Merged(d + [ld], s) + [ls]
      && Dropped(d + [ld], s + [ls]) == Dropped(d + [ld], s)
  {
    assert (d + [ld])[..|d|] == d && (s + [ls])[..|s|] == s;
  }

  lemma OneSided(d: seq<Entry>, s: seq<Entry>)
    requires d == [] || s == []
    ensures Merged(d, s) == d + s && Dropped(d, s) == []
  {
  }

  lemma {:induction false} MergedBelow(d: seq<Entry>, s: seq<Entry>, b: nat)
    requires forall i :: 0 <= i < |d| ==> 0 < d[i].mid < b
    requires forall i :: 0 <= i < |s| ==> 0 < s[i].mid < b
    ensures forall i :: 0 <= i < |Merged(d, s)| ==> 0 < Merged(d, s)[i].mid < b
    decreases |d| + |s|
  {
    if s != [] && d != [] {
      MergedBelow(d[..|d| - 1], s, b);
      MergedBelow(d[..|d| - 1], s[..|s| - 1], b);
      MergedBelow(d, s[..|s| - 1], b);
    }
  }

  lemma Snoc(l: seq<Entry>) returns (a: seq<Entry>, e: Entry)
    requires l != []
    ensures l == a + [e] && |a| < |l|
    ensures Ascending(l) ==> Ascending(a) && e.mid > 0 && (forall i :: 0 <= i < |a| ==> 0 < a[i].mid < e.mid)
  {
    a, e := l[..|l| - 1], l[|l| - 1];
  }

  lemma AscendingSnoc(a: seq<Entry>, e: Entry)
    requires Ascending(a) && e.mid > 0 && forall i :: 0 <= i < |a| ==> 0 < a[i].mid < e.mid
    ensures Ascending(a + [e])
  {
  }

  lemma {:induction false} MergedAscending(d: seq<Entry>, s: seq<Entry>)
    requires Ascending(d) && Ascending(s)
    ensures Ascending(Merged(d, s))
    decreases |d| + |s|
  {
    hide Merged, Dropped;
    if s == [] || d == [] {
      OneSided(d, s);
    } else {
      var d', ld := Snoc(d);
      var s', ls := Snoc(s);
      MergeLast(d', ld, s', ls);
      var d1, s1 := if ls.mid <= ld.mid then d' else d, if ls.mid >= ld.mid then s' else s;
      var e := if ls.mid < ld.mid then ld else ls;
      MergedAscending(d1, s1);
      MergedBelow(d1, s1, e.mid);
      AscendingSnoc(Merged(d1, s1), e);
    }
  }

  lemma NoPages()
    ensures View([]) == map[]
  {
  }

  /** On the maps the merge is an override. */
  lemma {:induction false} MergedView(d: seq<Entry>, s: seq<Entry>)
    requires Ascending(d) && Ascending(s)
    ensures View(Merged(d, s)) == View(d) + View(s)
    decreases |d| + |s|
  {
    hide Merged, Dropped, View;
    if s == [] || d == [] {
      OneSided(d, s);
      NoPages();
      assert d + s == if d == [] then s else d;
    } else {
      ViewOfLast(d, s);
    }
  }

  lemma {:induction false} ViewOfLast(d: seq<Entry>, s: seq<Entry>)
    requires Ascending(d) && Ascending(s) && d != [] && s != []
    ensures View(Merged(d, s)) == View(d) + View(s)
    decreases |d| + |s|, 0
  {
    hide Merged, Dropped, View;
    var d', ld := Snoc(d);
    var s', ls := Snoc(s);
    MergeLast(d', ld, s', ls);
    ViewSnoc(d', ld);
    ViewSnoc(s', ls);
    if ls.mid < ld.mid {
      MergedView(d', s);
      ViewSnoc(Merged(d', s), ld);
      ViewKeys(s, ld.mid);
    } else if ls.mid == ld.mid {
      MergedView(d', s');
      ViewSnoc(Merged(d', s'), ls);
    } else {
      MergedView(d, s');
      ViewSnoc(Merged(d, s'), ls);
    }
  }

  lemma Swapped(a: multiset<Entry>, e: multiset<Entry>, b: multiset<Entry>, m: multiset<Entry>, r: multiset<Entry>)
    requires a + b == m + r
    ensures a + e + b == m + e + r
    ensures a + (b + e) == m + e + r
  {
    assert a + e + b == (a + b) + e && m + e + r == (m + r) + e;
  }

  lemma TwoMore(a: multiset<Entry>, x: multiset<Entry>, b: multiset<Entry>, y: multiset<Entry>,
                m: multiset<Entry>, r: multiset<Entry>)
    requires a + b == m + r
    ensures (a + x) + (b + y) == (m + y) + (x + r)
  {
    assert (a + x) + (b + y) == (a + b) + (x + y) && (m + y) + (x + r) == (m + r) + (x + y);
  }

  /** Every page of either list is kept or released, once. */
  lemma {:induction false} MergedConserves(d: seq<Entry>, s: seq<Entry>)
    ensures multiset(d) + multiset(s) == multiset(Merged(d, s)) + multiset(Dropped(d, s))
    decreases |d| + |s|
  {
    hide Merged, Dropped;
    if s == [] || d == [] {
      OneSided(d, s);
    } else {
      var d', ld := Snoc(d);
      var s', ls := Snoc(s);
      MergeLast(d', ld, s', ls);
      if ls.mid < ld.mid {
        MergedConserves(d', s);
        Swapped(multiset(d'), multiset([ld]), multiset(s), multiset(Merged(d', s)), multiset(Dropped(d', s)));
      } else if ls.mid == ld.mid {
        MergedConserves(d', s');
        TwoMore(multiset(d'), multiset([ld]), multiset(s'), multiset([ls]),
                multiset(Merged(d', s')), multiset(Dropped(d', s')));
      } else {
        MergedConserves(d, s');
        Swapped(multiset(d), multiset([ls]), multiset(s'), multiset(Merged(d, s')), multiset(Dropped(d, s')));
      }
    }
  }

  /** One step of the merge, on prefixes of the two lists. */
  lemma MergeStep(d: seq<Entry>, s: seq<Entry>, x: nat, y: nat)
    requires x <= |d| && 1 <= y <= |s|
    ensures x > 0 && s[y - 1].mid < d[x - 1].mid ==>
      && Merged(d[..x], s[..y]) == Merged(d[..x - 1], s[..y]) + [d[x - 1]]
      && Dropped(d[..x], s[..y]) == Dropped(d[..x - 1], s[..y])
    ensures x > 0 && s[y - 1].mid == d[x - 1].mid ==>
      && Merged(d[..x], s[..y]) == Merged(d[..x - 1], s[..y - 1]) + [s[y - 1]]
      && Dropped(d[..x], s[..y]) == [d[x - 1]] + Dropped(d[..x - 1], s[..y - 1])
    ensures (x > 0 ==> s[y - 1].mid > d[x - 1].mid) ==>
      && Merged(d[..x], s[..y]) == Merged(d[..x], s[..y - 1]) + [s[y - 1]]
      && Dropped(d[..x], s[..y]) == Dropped(d[..x], s[..y - 1])
  {
    hide Merged, Dropped;
    assert s[..y] == s[..y - 1] + [s[y - 1]];
    if x > 0 {
      assert d[..x] == d[..x - 1] + [d[x - 1]];
      MergeLast(d[..x - 1], d[x - 1], s[..y - 1], s[y - 1]);
    } else {
      OneSided(d[..x], s[..y]);
      OneSided(d[..x], s[..y - 1]);
    }
  }

  /** Child entries above all parent entries are simply appended. */
  lemma {:induction false} MergedTail(d: seq<Entry>, s: seq<Entry>, y: nat, n: nat)
    requires y <= n <= |s|
    requires forall i, j :: 0 <= i < |d| && y <= j < |s| ==> d[i].mid < s[j].mid
    ensures Merged(d, s[..n]) == Merged(d, s[..y]) + s[y..n]
    decreases n
  {
    hide Merged, Dropped;
    if y < n {
      MergedTail(d, s, y, n - 1);
      assert d[..|d|] == d && s[y..n] == s[y..n - 1] + [s[n - 1]];
      MergeStep(d, s, |d|, n);
    }
  }

  /** The counting loop for a parent that is itself nested. */
  method MergedLength(dst: array<Entry>, src: array<Entry>, x: nat) returns (len: nat)
    requires dst.Length > UM_MAX >= x && dst[0].mid == 0 && Ascending(dst[1..x + 1]) && Good(src)
    ensures len == |Merged(dst[1..x + 1], Pages(src))|
  {
    hide Merged, Dropped;
    ghost var d, s := dst[1..x + 1], Pages(src);
    var n: int := x + src[0].mid;
    var y := Search(src, dst[x].mid + 1);
    y := y - 1;
    assert x > 0 ==> dst[x] == d[x - 1];
    assert s[..|s|] == s;
    MergedTail(d, s, y, |s|);
    var i: nat := x;
    assert d[..i] == d;
    while y > 0 && i > 0
      invariant i <= x && y <= |s|
      invariant |Merged(d[..i], s[..y])| - i - y == |Merged(d, s)| - n
      decreases y
    {
      var yp := src[y].mid;
      assert src[y] == s[y - 1];
      i := PassLarger(dst, yp, i, d, s, y);
      assert i > 0 ==> dst[i] == d[i - 1];
      MergeStep(d, s, i, y);
      if yp == dst[i].mid {
        i := i - 1;
        n := n - 1;
      }
      y := y - 1;
    }
    OneSided(d[..i], s[..y]);
    len := n;
  }

  /** Passes over the parent entries that are larger than the child's. */
  method PassLarger(dst: array<Entry>, yp: nat, i0: nat, ghost d: seq<Entry>, ghost s: seq<Entry>, ghost y: nat)
    returns (i: nat)
    requires i0 <= |d| < dst.Length && dst[0].mid == 0 && dst[1..|d| + 1] == d
    requires 1 <= y <= |s| && s[y - 1].mid == yp
    ensures i <= i0 && yp >= dst[i].mid
    ensures |Merged(d[..i], s[..y])| - i == |Merged(d[..i0], s[..y])| - i0
  {
    hide Merged, Dropped;
    i := i0;
    while yp < dst[i].mid
      invariant i <= i0 && |Merged(d[..i], s[..y])| - i == |Merged(d[..i0], s[..y])| - i0
      decreases i
    {
      assert dst[i] == d[i - 1];
      MergeStep(d, s, i, y);
      i := i - 1;
    }
  }

  /** The state of the backward merge: entries behind `i` are final, those up to `x` are still the
      parent's. `len` may exceed the size of the union; the excess is the distance kept. */
  ghost predicate Merging(a: seq<Entry>, d: seq<Entry>, s: seq<Entry>, len: nat,
                          x: nat, y: nat, i: nat, freed: seq<Entry>)
  {
    && x <= |d| && y <= |s| && i <= len < |a| && x < |a|
    && i == |Merged(d[..x], s[..y])| + len - |Merged(d, s)|
    && a[1..x + 1] == d[..x]
    && Merged(d, s) == Merged(d[..x], s[..y]) + a[i + 1..len + 1]
    && Dropped(d, s) == freed + Dropped(d[..x], s[..y])
  }

  /** Storing above the unread entries leaves them alone. */
  lemma StoreAbove(a: seq<Entry>, x: nat, i: nat, len: nat, e: Entry)
    requires x < i <= len < |a|
    ensures a[i := e][i..len + 1] == [e] + a[i + 1..len + 1]
    ensures a[i := e][1..x + 1] == a[1..x + 1]
  {
  }

  lemma Shorter(a: seq<Entry>, d: seq<Entry>, x: nat)
    requires 0 < x < |a| && x <= |d| && a[1..x + 1] == d[..x]
    ensures a[1..x] == d[..x - 1] && a[x] == d[x - 1]
  {
    assert a[1..x] == a[1..x + 1][..x - 1];
    assert a[x] == a[1..x + 1][x - 1];
  }

  /** A parent entry moves up. */
  lemma MoveParent(a: seq<Entry>, d: seq<Entry>, s: seq<Entry>, len: nat, x: nat, y: nat, i: nat, freed: seq<Entry>)
    requires Merging(a, d, s, len, x, y, i, freed) && x > 0 && y > 0 && s[y - 1].mid < d[x - 1].mid
    requires len >= |Merged(d, s)|
    ensures i > 0 && Merging(a[i := a[x]], d, s, len, x - 1, y, i - 1, freed)
  {
    hide Merged, Dropped;
    MergeStep(d, s, x, y);
    Shorter(a, d, x);
    StoreAbove(a, x - 1, i, len, a[x]);
  }

  /** The child's entry replaces an equal parent entry, which is released. */
  lemma StoreOver(a: seq<Entry>, d: seq<Entry>, s: seq<Entry>, len: nat, x: nat, y: nat, i: nat, freed: seq<Entry>)
    requires Merging(a, d, s, len, x, y, i, freed) && x > 0 && y > 0 && s[y - 1].mid == d[x - 1].mid
    requires len >= |Merged(d, s)|
    ensures i > 0 && Merging(a[i := s[y - 1]], d, s, len, x - 1, y - 1, i - 1, freed + [d[x - 1]])
  {
    hide Merged, Dropped;
    MergeStep(d, s, x, y);
    Shorter(a, d, x);
    StoreAbove(a, x - 1, i, len, s[y - 1]);
  }

  lemma Assoc(a: seq<Entry>, e: Entry, b: seq<Entry>)
    ensures a + [e] + b == a + ([e] + b)
  {
  }

  /** The child's entry goes between two parent entries. */
  lemma StoreBetween(a: seq<Entry>, d: seq<Entry>, s: seq<Entry>, len: nat, x: nat, y: nat, i: nat, freed: seq<Entry>)
    requires Merging(a, d, s, len, x, y, i, freed) && y > 0 && (x > 0 ==> s[y - 1].mid > d[x - 1].mid)
    requires len >= |Merged(d, s)|
    ensures i > 0 && Merging(a[i := s[y - 1]], d, s, len, x, y - 1, i - 1, freed)
  {
    hide Merged, Dropped;
    MergeStep(d, s, x, y);
    assert x < i;
    StoreAbove(a, x, i, len, s[y - 1]);
    Assoc(Merged(d[..x], s[..y - 1]), s[y - 1], a[i + 1..len + 1]);
  }

  /** The merge loop. It ends with i == x if and only if `len` is the size of the union. */
  method MergeInto(dst: array<Entry>, src: array<Entry>, x0: nat, len: nat)
    returns (freed: seq<Entry>, i: nat, x: nat)
    requires dst != src && dst.Length > UM_MAX >= x0 && dst[0].mid == 0
    requires Ascending(dst[1..x0 + 1]) && Good(src)
    requires |Merged(dst[1..x0 + 1], Pages(src))| <= len <= UM_MAX
    modifies dst
    ensures i - x == len - old(|Merged(dst[1..x0 + 1], Pages(src))|)
    ensures x <= i <= len && dst[1..x + 1] + dst[i + 1..len + 1] == old(Merged(dst[1..x0 + 1], Pages(src)))
    ensures freed == old(Dropped(dst[1..x0 + 1], Pages(src)))
    ensures dst[0] == old(dst[0])
  {
    hide Merged, Dropped, Merging;
    ghost var d, s := dst[1..x0 + 1], Pages(src);
    ghost var n := |Merged(d, s)|;
    var y: nat := src[0].mid;
    i, x, freed := len, x0, [];
    MergingStarts(dst[..], d, s, len);
    while y > 0
      invariant Merging(dst[..], d, s, len, x, y, i, freed) && dst[0] == old(dst[0])
      invariant x <= |d| && y <= |s|
      decreases y
    {
      var yp := src[y].mid;
      assert src[y] == s[y - 1];
      i, x := MoveParents(dst, d, s, len, x, y, i, freed, yp);
      if yp == dst[x].mid {
        StoreOver(dst[..], d, s, len, x, y, i, freed);
        freed := freed + [dst[x]];
        x := x - 1;
      } else {
        StoreBetween(dst[..], d, s, len, x, y, i, freed);
      }
      dst[i] := src[y];
      i, y := i - 1, y - 1;
    }
    MergingEnds(dst[..], d, s, len, x, i, freed);
  }

  lemma MergingStarts(a: seq<Entry>, d: seq<Entry>, s: seq<Entry>, len: nat)
    requires |d| < |a| && a[1..|d| + 1] == d && |Merged(d, s)| <= len < |a|
    ensures Merging(a, d, s, len, |d|, |s|, len, [])
  {
    hide Merged, Dropped;
    assert d[..|d|] == d && s[..|s|] == s;
  }

  lemma MergingEnds(a: seq<Entry>, d: seq<Entry>, s: seq<Entry>, len: nat, x: nat, i: nat, freed: seq<Entry>)
    requires Merging(a, d, s, len, x, 0, i, freed)
    ensures i - x == len - |Merged(d, s)| && freed == Dropped(d, s) && x < |a| && i <= len < |a|
    ensures a[1..x + 1] + a[i + 1..len + 1] == Merged(d, s)
  {
    OneSided(d[..x], s[..0]);
  }

  /** The inner loop: parent entries above `yp` move up. */
  method MoveParents(dst: array<Entry>, ghost d: seq<Entry>, ghost s: seq<Entry>, ghost len: nat,
                     x0: nat, ghost y: nat, i0: nat, ghost freed: seq<Entry>, yp: nat)
    returns (i: nat, x: nat)
    requires Merging(dst[..], d, s, len, x0, y, i0, freed) && 1 <= y <= |s| && s[y - 1].mid == yp && yp > 0
    requires dst.Length > 0 && dst[0].mid == 0 && |Merged(d, s)| <= len
    modifies dst
    ensures Merging(dst[..], d, s, len, x, y, i, freed) && dst[0] == old(dst[0])
    ensures x <= |d| && 0 < i < dst.Length && x < dst.Length && dst[x].mid <= yp
    ensures x > 0 ==> dst[x] == d[x - 1]
  {
    hide Merged, Dropped;
    i, x := i0, x0;
    while yp < dst[x].mid
      invariant Merging(dst[..], d, s, len, x, y, i, freed) && dst[0] == old(dst[0])
      decreases x
    {
      assert dst[x] == dst[1..x + 1][x - 1] == d[x - 1];
      MoveParent(dst[..], d, s, len, x, y, i, freed);
      dst[i] := dst[x];
      i, x := i - 1, x - 1;
    }
    assert x > 0 ==> dst[x] == dst[1..x + 1][x - 1] == d[x - 1];
    MergeStep(d, s, x, y);
  }

  /** `l` is `merged`, or `merged` with surplus entries after the first x of them. */
  ghost predicate WithSurplus(l: seq<Entry>, merged: seq<Entry>, x: nat) {
    && x <= |merged| <= |l|
    && l[..x] + l[x + |l| - |merged|..] == merged
  }

  /** The arrays: the length is computed, the lists are merged and the count is set. */
  method MergeLists(dst: array<Entry>, src: array<Entry>, deep: bool, room: nat)
    returns (freed: seq<Entry>, settled: bool, x: nat)
    requires dst != src && Good(dst) && Good(src)
    requires |Merged(Pages(dst), Pages(src))| <= if deep then UM_MAX else UM_MAX - room
    modifies dst
    ensures dst[0].mid == if deep then old(|Merged(Pages(dst), Pages(src))|) else UM_MAX - room
    ensures settled <==> dst[0].mid == old(|Merged(Pages(dst), Pages(src))|)
    ensures WithSurplus(Pages(dst), old(Merged(Pages(dst), Pages(src))), x)
    ensures freed == old(Dropped(Pages(dst), Pages(src)))
  {
    hide Merged, Dropped, WithSurplus;
    ghost var d, s := Pages(dst), Pages(src);
    var n := dst[0].mid;
    dst[0] := dst[0].(mid := 0);
    assert dst[1..n + 1] == d;
    var len: nat;
    if deep {
      len := MergedLength(dst, src, n);
    } else {
      len := UM_MAX - room;
    }
    var i;
    freed, i, x := MergeInto(dst, src, n, len);
    settled := i == x;
    Surplus(dst[..], len, i, x, Merged(d, s));
    dst[0] := dst[0].(mid := len);
  }

  lemma Surplus(a: seq<Entry>, len: nat, i: nat, x: nat, merged: seq<Entry>)
    requires x <= i <= len < |a| && i - x == len - |merged| && a[1..x + 1] + a[i + 1..len + 1] == merged
    ensures WithSurplus(a[1..len + 1], merged, x)
  {
    var l := a[1..len + 1];
    assert l[..x] == a[1..x + 1] && l[i..] == a[i + 1..len + 1];
  }

  lemma SurplusShows(l: seq<Entry>, merged: seq<Entry>, x: nat)
    requires WithSurplus(l, merged, x) && Ascending(merged)
    ensures |l| == |merged| ==> l == merged
    ensures |l| == |merged| <==> Ascending(l) && View(l) == View(merged)
  {
    hide View;
    ViewSize(merged);
    if Ascending(l) { ViewSize(l); }
    assert |l| == |merged| ==> l == l[..x] + l[x..];
  }

  /** The dirty-list part of committing a nested transaction. `deep` says that the parent is nested
      itself; otherwise the length of the merged list is taken from the room left. `settled` is the
      assertion that the two indices have met. If they have not, the list has the right entries in
      order, but after the first `x` of them there are surplus entries left over in the array. */
  method CommitNested(dst: array<Entry>, src: array<Entry>, deep: bool, room: nat)
    returns (freed: seq<Entry>, settled: bool, x: nat)
    requires dst != src && Good(dst) && Good(src)
    requires |View(Pages(dst)) + View(Pages(src))| <= if deep then UM_MAX else UM_MAX - room
    modifies dst
    ensures settled <==> deep || UM_MAX - room == old(|View(Pages(dst)) + View(Pages(src))|)
    ensures settled <==> Good(dst) && View(Pages(dst)) == old(View(Pages(dst)) + View(Pages(src)))
    ensures settled ==> multiset(Pages(dst)) + multiset(freed) == old(multiset(Pages(dst)) + multiset(Pages(src)))
    ensures dst[0].mid <= UM_MAX && (!settled ==> dst[0].mid == UM_MAX - room)
    ensures WithSurplus(Pages(dst), old(Merged(Pages(dst), Pages(src))), x)
  {
    hide View, Merged, Dropped, WithSurplus;
    ghost var d, s := Pages(dst), Pages(src);
    MergedAscending(d, s);
    MergedView(d, s);
    MergedConserves(d, s);
    ViewSize(Merged(d, s));
    freed, settled, x := MergeLists(dst, src, deep, room);
    SurplusShows(Pages(dst), Merged(d, s), x);
  }
}
