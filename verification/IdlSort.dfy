/** mdb_midl_sort: quicksort with an explicit stack, insertion sort for small segments.

An ID list is an array whose element 0 is the number of IDs that follow. The result is
proved to be a descending permutation; the sentinel loops stay inside the segment, the
insertion pass never moves an element below its segment, and the stack of 64 slots is
enough for every list shorter than 2^31.
 */
module IdlSort {
  import opened PowersOfTwo

  const SMALL := 8

  /** Exchanging two elements keeps the multiset. */
  lemma SwapKeeps(s: seq<nat>, i: nat, j: nat)
    requires i < |s| && j < |s|
    ensures multiset(s[i := s[j]][j := s[i]]) == multiset(s)
  {
  }

  /** Everything up to position `i` is at least as large as everything behind it. */
  ghost predicate Cut(s: seq<nat>, n: nat, i: int)
    requires n < |s|
  {
    forall x, y :: 1 <= x <= i < y <= n ==> s[x] >= s[y]
  }

  /** `t` is `s` with the elements of [l, ir] in some order. */
  ghost predicate Shuffled(s: seq<nat>, t: seq<nat>, l: nat, ir: int) {
    && |s| == |t|
    && multiset(s) == multiset(t)
    && (forall x :: 0 <= x < |s| && !(l <= x <= ir) ==> t[x] == s[x])
  }

  lemma MiddleEqual(a: seq<nat>, b: seq<nat>, b': seq<nat>, c: seq<nat>)
    requires multiset(a + b + c) == multiset(a + b' + c)
    ensures multiset(b) == multiset(b')
  {
    assert multiset(a + b + c) == multiset(a) + multiset(b) + multiset(c);
    assert multiset(a + b' + c) == multiset(a) + multiset(b') + multiset(c);
    forall v ensures multiset(b)[v] == multiset(b')[v] {
      assert multiset(a + b + c)[v] == multiset(a + b' + c)[v];
    }
  }

  /** An element of the shuffled segment was in the segment before. */
  lemma ShuffledFrom(s: seq<nat>, t: seq<nat>, l: nat, ir: nat, y: nat) returns (x: nat)
    requires Shuffled(s, t, l, ir) && l <= y <= ir < |s|
    ensures l <= x <= ir && s[x] == t[y]
  {
    ghost var a, b := s[l..ir + 1], t[l..ir + 1];
    assert s == s[..l] + a + s[ir + 1..] && t == s[..l] + b + s[ir + 1..];
    MiddleEqual(s[..l], a, b, s[ir + 1..]);
    var k := SameElement(a, b, y - l);
    x := l + k;
  }

  lemma SameElement(a: seq<nat>, b: seq<nat>, j: nat) returns (k: nat)
    requires multiset(a) == multiset(b) && j < |b|
    ensures k < |a| && a[k] == b[j]
  {
    assert b[j] in multiset(b);
    assert b[j] in a;
    k :| 0 <= k < |a| && a[k] == b[j];
  }

  /** Shuffling a segment keeps every cut outside of it. */
  lemma CutKept(s: seq<nat>, t: seq<nat>, n: nat, l: nat, ir: int, i: int)
    requires n < |s| && Shuffled(s, t, l, ir) && 1 <= l && ir <= n && Cut(s, n, i) && !(l <= i < ir)
    ensures Cut(t, n, i)
  {
    forall x, y | 1 <= x <= i < y <= n ensures t[x] >= t[y] {
      var x' := x;
      if l <= x <= ir { x' := ShuffledFrom(s, t, l, ir, x); }
      var y' := y;
      if l <= y <= ir { y' := ShuffledFrom(s, t, l, ir, y); }
      assert s[x'] >= s[y'];
    }
  }

  /** Exchanges two elements of the segment; `s0` is any earlier state that was only shuffled. */
  method Swap(ids: array<nat>, i: nat, j: nat, ghost l: nat, ghost ir: nat, ghost s0: seq<nat>)
    requires l <= i <= ir < ids.Length && l <= j <= ir && Shuffled(s0, ids[..], l, ir)
    modifies ids
    ensures forall x :: 0 <= x < ids.Length ==>
              ids[x] == if x == i then old(ids[j]) else if x == j then old(ids[i]) else old(ids[x])
    ensures Shuffled(s0, ids[..], l, ir)
  {
    ghost var s := ids[..];
    SwapKeeps(s, i, j);
    ids[i], ids[j] := ids[j], ids[i];
    assert ids[..] == s[i := s[j]][j := s[i]];
  }

  /** The element at `j` is moved in front of those at i + 1 .. j - 1. */
  ghost function Rotated(s: seq<nat>, i: int, j: nat): seq<nat>
    requires -1 <= i < j < |s|
  {
    s[..i + 1] + [s[j]] + s[i + 1..j] + s[j + 1..]
  }

  /** The elements at i + 1 .. j - 1 have been moved up by one. */
  ghost function Moved(s: seq<nat>, i: int, j: nat): (r: seq<nat>)
    requires -1 <= i < j < |s|
    ensures |r| == |s| && forall x :: 0 <= x <= i ==> r[x] == s[x]
  {
    s[..i + 2] + s[i + 1..j] + s[j + 1..]
  }

  lemma OneMove(s: seq<nat>, i: int, j: nat)
    requires 0 <= i < j < |s|
    ensures Moved(s, i, j)[i + 1 := s[i]] == Moved(s, i - 1, j)
  {
    assert s[..i + 2][i + 1 := s[i]] == s[..i + 1] + [s[i]];
    assert s[i..j] == [s[i]] + s[i + 1..j];
  }

  lemma LastMove(s: seq<nat>, i: int, j: nat)
    requires -1 <= i < j < |s|
    ensures Moved(s, i, j)[i + 1 := s[j]] == Rotated(s, i, j)
  {
    assert s[..i + 2][i + 1 := s[j]] == s[..i + 1] + [s[j]];
  }

  lemma RotatedSorted(s: seq<nat>, i: int, j: nat, l: nat)
    requires 1 <= l <= i + 1 <= j < |s|
    requires forall x, y :: l <= x < y < j ==> s[x] >= s[y]
    requires forall x :: i < x < j ==> s[x] < s[j]
    requires l <= i ==> s[i] >= s[j]
    ensures forall x, y :: l <= x < y <= j ==> Rotated(s, i, j)[x] >= Rotated(s, i, j)[y]
  {
    var r := Rotated(s, i, j);
    forall x, y | l <= x < y <= j ensures r[x] >= r[y] {
      assert r[x] == if x <= i then s[x] else if x == i + 1 then s[j] else s[x - 1];
      assert r[y] == if y <= i then s[y] else if y == i + 1 then s[j] else s[y - 1];
    }
  }

  lemma RotatedShuffles(s: seq<nat>, i: int, j: nat, l: nat)
    requires -1 <= i < j < |s| && l <= i + 1
    ensures Shuffled(s, Rotated(s, i, j), l, j)
  {
    assert s == s[..i + 1] + s[i + 1..j] + [s[j]] + s[j + 1..];
  }

  /** Finds the place of the element at `j` among the larger ones before it and moves it there. */
  method ShiftIn(ids: array<nat>, j: nat, ghost l: nat) returns (i: int)
    requires 1 <= l < j < ids.Length && (l > 1 ==> ids[l - 1] >= ids[j])
    modifies ids
    ensures l - 1 <= i < j && ids[..] == Rotated(old(ids[..]), i, j)
    ensures forall x :: i < x < j ==> old(ids[..])[x] < old(ids[..])[j]
    ensures i >= 1 ==> old(ids[..])[i] >= old(ids[..])[j]
  {
    ghost var s := ids[..];
    assert s == Moved(s, j - 1, j);
    hide Rotated, Moved;
    var a := ids[j];
    i := j - 1;
    while i >= 1 && ids[i] < a
      invariant l - 1 <= i <= j - 1
      invariant ids[..] == Moved(s, i, j)
      invariant forall x :: i < x < j ==> s[x] < a
      decreases i
    {
      assert ids[i] == ids[..][i] == s[i];
      OneMove(s, i, j);
      ids[i + 1] := ids[i];
      i := i - 1;
    }
    assert i >= 1 ==> ids[i] == ids[..][i] == s[i];
    LastMove(s, i, j);
    ids[i + 1] := a;
  }

  /** Insertion of the element at `j` into the descending run l .. j - 1. The inner loop would go
      down to position 1, but the element before the segment stops it. */
  method Insert(ids: array<nat>, n: nat, l: nat, j: nat)
    requires 1 <= l < j <= n < ids.Length && Cut(ids[..], n, l - 1)
    requires forall x, y :: l <= x < y < j ==> ids[x] >= ids[y]
    modifies ids
    ensures Shuffled(old(ids[..]), ids[..], l, j)
    ensures forall x, y :: l <= x < y <= j ==> ids[x] >= ids[y]
  {
    hide Shuffled, Rotated;
    ghost var s := ids[..];
    assert l > 1 ==> s[l - 1] >= s[j];
    var i := ShiftIn(ids, j, l);
    RotatedShuffles(s, i, j, l);
    RotatedSorted(s, i, j, l);
    assert forall x, y :: l <= x < y <= j ==> ids[..][x] >= ids[..][y];
  }

  /** Insertion sort of the segment l .. ir. */
  method InsertionSort(ids: array<nat>, n: nat, l: nat, ir: int)
    requires 1 <= l && ir <= n < ids.Length && Cut(ids[..], n, l - 1)
    modifies ids
    ensures Shuffled(old(ids[..]), ids[..], l, ir)
    ensures forall x, y :: l <= x < y <= ir ==> ids[x] >= ids[y]
  {
    var j := l + 1;
    while j <= ir
      invariant l + 1 <= j && (j <= ir + 1 || j == l + 1)
      invariant Shuffled(old(ids[..]), ids[..], l, ir)
      invariant Cut(ids[..], n, l - 1)
      invariant forall x, y :: l <= x < y < j && y <= ir ==> ids[x] >= ids[y]
    {
      ghost var before := ids[..];
      Insert(ids, n, l, j);
      assert Shuffled(before, ids[..], l, ir);
      CutKept(before, ids[..], n, l, ir, l - 1);
      j := j + 1;
    }
  }

  /** Puts the largest, median and smallest of three elements at l, l + 1 and ir. */
  method MedianOfThree(ids: array<nat>, l: nat, ir: nat)
    requires 1 <= l && l + SMALL <= ir < ids.Length
    modifies ids
    ensures Shuffled(old(ids[..]), ids[..], l, ir)
    ensures ids[l] >= ids[l + 1] >= ids[ir]
  {
    ghost var s0 := ids[..];
    assert Shuffled(s0, s0, l, ir);
    hide Shuffled;
    var k := (l + ir) / 2;
    Swap(ids, k, l + 1, l, ir, s0);
    if ids[l] < ids[ir] { Swap(ids, l, ir, l, ir, s0); }
    if ids[l + 1] < ids[ir] { Swap(ids, l + 1, ir, l, ir, s0); }
    if ids[l] < ids[l + 1] { Swap(ids, l, l + 1, l, ir, s0); }
  }

  /** What is known between rounds of the partition loop: up to `i` everything is at least the
      pivot, from `j` on everything is at most the pivot. */
  ghost predicate Split(s: seq<nat>, l: nat, ir: nat, i: nat, j: nat, a: nat) {
    && l + 1 <= i <= ir < |s| && l + 1 <= j <= ir
    && s[l + 1] == a
    && (forall x :: l <= x <= i ==> s[x] >= a)
    && (forall x :: j <= x <= ir ==> s[x] <= a)
  }

  /** One round: both scans, which the pivot region of the other side stops. */
  method Scan(ids: array<nat>, l: nat, ir: nat, i0: nat, j0: nat, a: nat) returns (i: nat, j: nat)
    requires Split(ids[..], l, ir, i0, j0, a) && i0 <= j0 && (i0 < j0 || (l + 1 < i0 && j0 < ir))
    ensures i0 < i <= ir && l + 1 <= j < j0
    ensures ids[i] <= a && ids[j] >= a
    ensures forall x :: l <= x < i ==> ids[x] >= a
    ensures forall x :: j < x <= ir ==> ids[x] <= a
  {
    ghost var s := ids[..];
    i := i0 + 1;
    while ids[i] > a
      invariant i0 < i <= ir && (i <= j0 || i == i0 + 1)
      invariant forall x :: l <= x < i ==> s[x] >= a
      decreases ir - i
    {
      assert s[i] == ids[i] > a && i < j0;
      i := i + 1;
    }
    j := j0 - 1;
    while ids[j] < a
      invariant l + 1 <= j < j0 && (i0 <= j || j == j0 - 1)
      invariant forall x :: j < x <= ir ==> s[x] <= a
      decreases j
    {
      assert s[j] == ids[j] < a && j > i0;
      j := j - 1;
    }
    assert s[i] == ids[i] && s[j] == ids[j];
  }

  /** Partition of l .. ir: afterwards the elements before `j` are at least the pivot, those from
      `i` on at most the pivot, and those between equal it. */
  method Partition(ids: array<nat>, l: nat, ir: nat) returns (i: nat, j: nat, ghost a: nat)
    requires 1 <= l && l + SMALL <= ir < ids.Length
    modifies ids
    ensures Shuffled(old(ids[..]), ids[..], l, ir)
    ensures l + 1 <= j < i <= ir
    ensures forall x :: l <= x < i ==> ids[x] >= a
    ensures forall x :: j <= x <= ir ==> ids[x] <= a
  {
    hide Shuffled;
    ghost var s0 := ids[..];
    MedianOfThree(ids, l, ir);
    i, j := l + 1, ir;
    var pivot := ids[l + 1];
    a := pivot;
    while true
      invariant Split(ids[..], l, ir, i, j, a) && i <= j && (i < j || (l + 1 < i && j < ir))
      invariant Shuffled(s0, ids[..], l, ir)
      decreases j
    {
      i, j := Scan(ids, l, ir, i, j, pivot);
      if j < i { break; }
      Swap(ids, i, j, l, ir, s0);
    }
    Swap(ids, l + 1, j, l, ir, s0);   // ids[l + 1] is still the pivot
  }

  /** A segment lo .. hi that still has to be sorted. */
  datatype Segment = Segment(lo: nat, hi: int) {
    predicate Inside(i: int) { lo <= i < hi }
    predicate AwayFrom(other: Segment) { hi < other.lo || other.hi < lo }
    function Size(): int { hi - lo + 1 }
  }

  /** The positions at which the list need not be cut yet. */
  ghost predicate Pending(segs: seq<Segment>, i: int) {
    exists d :: 0 <= d < |segs| && segs[d].Inside(i)
  }

  /** The segments to be sorted are apart from each other, the list is cut around each of them,
      and it is cut everywhere outside of them. */
  ghost predicate Sorting(s: seq<nat>, n: nat, segs: seq<Segment>) {
    && n < |s|
    && (forall d :: 0 <= d < |segs| ==> 1 <= segs[d].lo && segs[d].hi <= n && segs[d].lo <= segs[d].hi + 1)
    && (forall d :: 0 <= d < |segs| ==> Cut(s, n, segs[d].lo - 1) && Cut(s, n, segs[d].hi))
    && (forall d, e :: 0 <= d < e < |segs| ==> segs[d].AwayFrom(segs[e]))
    && (forall i :: 1 <= i < n && !Pending(segs, i) ==> Cut(s, n, i))
  }

  /** Segment number d from the bottom has at most n / 2^d elements. */
  ghost predicate Halving(segs: seq<Segment>, n: nat) {
    forall d :: 0 <= d < |segs| ==> segs[d].Size() * Pow2(d) <= n
  }

  /** Work left: it falls with every partition and every finished segment. */
  ghost function Work(segs: seq<Segment>): nat {
    if segs == [] then 0
    else
      var last := segs[|segs| - 1];
      Work(segs[..|segs| - 1]) + 1 + (if last.Size() > 0 then 2 * last.Size() else 0)
  }

  /** A sorted segment between two cuts is cut everywhere. */
  lemma SegmentDone(s: seq<nat>, s': seq<nat>, n: nat, segs: seq<Segment>)
    requires segs != [] && Sorting(s, n, segs)
    requires var cur := segs[|segs| - 1];
             Shuffled(s, s', cur.lo, cur.hi) && forall x, y :: cur.lo <= x < y <= cur.hi ==> s'[x] >= s'[y]
    ensures Sorting(s', n, segs[..|segs| - 1])
  {
    var m := |segs| - 1;
    var l, ir := segs[m].lo, segs[m].hi;
    var segs' := segs[..m];
    CutKept(s, s', n, l, ir, l - 1);
    CutKept(s, s', n, l, ir, ir);
    forall d | 0 <= d < |segs'| ensures Cut(s', n, segs'[d].lo - 1) && Cut(s', n, segs'[d].hi) {
      assert segs[d].AwayFrom(segs[m]);
      CutKept(s, s', n, l, ir, segs[d].lo - 1);
      CutKept(s, s', n, l, ir, segs[d].hi);
    }
    forall i | 1 <= i < n && !Pending(segs', i) ensures Cut(s', n, i) {
      if l <= i < ir {
        CutInside(s', n, l, ir, i);
      } else {
        assert !Pending(segs, i);
        CutKept(s, s', n, l, ir, i);
      }
    }
  }

  /** Between two cuts, comparing the elements of the segment is enough. */
  lemma CutInside(s: seq<nat>, n: nat, l: nat, ir: int, i: int)
    requires n < |s| && 1 <= l && l - 1 <= i <= ir <= n && Cut(s, n, l - 1) && Cut(s, n, ir)
    requires forall x, y :: l <= x <= i < y <= ir ==> s[x] >= s[y]
    ensures Cut(s, n, i)
  {
    forall x, y | 1 <= x <= i < y <= n ensures s[x] >= s[y] {
      if x < l { assert s[x] >= s[y]; } else if y > ir { assert s[x] >= s[y]; }
    }
  }

  /** The two parts lie inside the segment they replace, with nothing but cuts between them. */
  lemma Parts(n: nat, segs: seq<Segment>, i: nat, j: nat, swap: bool)
    requires segs != [] && segs[|segs| - 1].lo + 1 <= j < i <= segs[|segs| - 1].hi
    requires forall d, e :: 0 <= d < e < |segs| ==> segs[d].AwayFrom(segs[e])
    ensures var r := Replaced(segs, i, j, swap);
            forall d, e :: 0 <= d < e < |r| ==> r[d].AwayFrom(r[e])
    ensures forall k :: Pending(segs, k) && !(j - 1 <= k < i) ==> Pending(Replaced(segs, i, j, swap), k)
  {
    var m, r := |segs| - 1, Replaced(segs, i, j, swap);
    forall d, e | 0 <= d < e < |r| ensures r[d].AwayFrom(r[e]) {
      if d < m { assert segs[d].AwayFrom(segs[m]); }
    }
    forall k | Pending(segs, k) && !(j - 1 <= k < i) ensures Pending(r, k) {
      var d :| 0 <= d < |segs| && segs[d].Inside(k);
      if d == m {
        assert r[m].Inside(k) || r[m + 1].Inside(k);
      } else {
        assert r[d].Inside(k);
      }
    }
  }

  /** A partitioned segment is cut into two, in whichever order they are kept. */
  lemma SegmentSplit(s: seq<nat>, s': seq<nat>, n: nat, segs: seq<Segment>, i: nat, j: nat, a: nat, swap: bool)
    requires segs != [] && Sorting(s, n, segs) && |s'| == |s|
    requires var cur := segs[|segs| - 1];
             && Shuffled(s, s', cur.lo, cur.hi) && cur.lo + 1 <= j < i <= cur.hi
             && (forall x :: cur.lo <= x < i ==> s'[x] >= a)
             && (forall x :: j <= x <= cur.hi ==> s'[x] <= a)
    ensures Sorting(s', n, Replaced(segs, i, j, swap))
  {
    hide Shuffled, Pending;
    var m := |segs| - 1;
    var l, ir := segs[m].lo, segs[m].hi;
    var segs' := Replaced(segs, i, j, swap);
    Parts(n, segs, i, j, swap);
    CutKept(s, s', n, l, ir, l - 1);
    CutKept(s, s', n, l, ir, ir);
    forall k | j - 1 <= k < i ensures Cut(s', n, k) { CutInside(s', n, l, ir, k); }
    forall d | 0 <= d < m ensures Cut(s', n, segs'[d].lo - 1) && Cut(s', n, segs'[d].hi) {
      assert segs[d].AwayFrom(segs[m]);
      CutKept(s, s', n, l, ir, segs[d].lo - 1);
      CutKept(s, s', n, l, ir, segs[d].hi);
    }
    hide Cut;
    forall k | 1 <= k < n && !Pending(segs', k) ensures Cut(s', n, k) {
      if !(j - 1 <= k < i) {
        assert !Pending(segs, k);
        assert !(l <= k < ir) by { NotPending(segs, m, k); }
        CutKept(s, s', n, l, ir, k);
      }
    }
  }

  lemma NotPending(segs: seq<Segment>, d: nat, k: int)
    requires d < |segs| && !Pending(segs, k)
    ensures !segs[d].Inside(k)
  {
  }

  /** The last segment is replaced by its two parts. */
  ghost function Replaced(segs: seq<Segment>, i: nat, j: nat, swap: bool): seq<Segment>
    requires segs != [] && j >= 1
  {
    var cur := segs[|segs| - 1];
    var left, right := Segment(cur.lo, j - 1), Segment(i, cur.hi);
    segs[..|segs| - 1] + (if swap then [left, right] else [right, left])
  }

  lemma WorkOfLast(segs: seq<Segment>, x: Segment)
    requires x.Size() >= 0
    ensures Work(segs + [x]) == Work(segs) + 1 + 2 * x.Size()
  {
    assert (segs + [x])[..|segs|] == segs;
  }

  lemma WorkFalls(segs: seq<Segment>, i: nat, j: nat, swap: bool)
    requires segs != [] && segs[|segs| - 1].lo + 1 <= j < i <= segs[|segs| - 1].hi
    ensures Work(Replaced(segs, i, j, swap)) < Work(segs)
  {
    hide Work;
    var m := |segs| - 1;
    var cur := segs[m];
    var left, right := Segment(cur.lo, j - 1), Segment(i, cur.hi);
    var x, y := if swap then left else right, if swap then right else left;
    assert segs == segs[..m] + [cur] && Replaced(segs, i, j, swap) == segs[..m] + [x] + [y];
    WorkOfLast(segs[..m], cur);
    WorkOfLast(segs[..m], x);
    WorkOfLast(segs[..m] + [x], y);
  }

  /** The smaller part comes last: it has at most half the elements. */
  lemma HalvingKept(segs: seq<Segment>, n: nat, i: nat, j: nat, swap: bool)
    requires segs != [] && Halving(segs, n) && segs[|segs| - 1].lo + 1 <= j < i <= segs[|segs| - 1].hi
    requires swap <==> segs[|segs| - 1].hi - i + 1 < j - segs[|segs| - 1].lo
    ensures Halving(Replaced(segs, i, j, swap), n)
  {
    var m := |segs| - 1;
    var segs' := Replaced(segs, i, j, swap);
    var z, p := segs[m].Size(), Pow2(m);
    assert segs'[m].Size() <= z && 2 * segs'[m + 1].Size() <= z;
    Monotone(segs'[m].Size(), z, p);
    Monotone(2 * segs'[m + 1].Size(), z, p);
    assert 2 * segs'[m + 1].Size() * p == segs'[m + 1].Size() * Pow2(m + 1);
  }

  lemma Monotone(a: int, b: int, p: nat)
    requires a <= b
    ensures a * p <= b * p
  {
  }

  lemma {:induction false} Pow2AtLeast(k: nat)
    requires k >= 28
    ensures Pow2(k) >= 0x1000_0000
  {
    if k > 28 {
      Pow2AtLeast(k - 1);
    } else {
      assert Pow2(7) == 128;
      assert Pow2(14) == 128 * Pow2(7);
      assert Pow2(21) == 128 * Pow2(14);
      assert Pow2(28) == 128 * Pow2(21);
    }
  }

  /** Fewer than 28 segments are stacked when a segment of nine or more is at hand. */
  lemma StackDepth(segs: seq<Segment>, n: nat)
    requires segs != [] && Halving(segs, n) && n < 0x8000_0000 && segs[|segs| - 1].Size() >= 9
    ensures |segs| - 1 < 28
  {
    var m := |segs| - 1;
    if m >= 28 {
      Pow2AtLeast(m);
      Monotone(9, segs[m].Size(), Pow2(m));
    }
  }

  /** What every turn of the main loop keeps; the last segment is the one at hand. */
  ghost predicate Stage(s0: seq<nat>, s: seq<nat>, n: nat, segs: seq<Segment>) {
    Shuffled(s0, s, 1, n) && Sorting(s, n, segs) && Halving(segs, n)
  }

  lemma FirstStage(s: seq<nat>, n: nat)
    requires n < |s|
    ensures Stage(s, s, n, [Segment(1, n)])
  {
    assert Pow2(0) == 1;
    assert [Segment(1, n)][0].Size() * Pow2(0) == n;
    forall i | 1 <= i < n ensures Pending([Segment(1, n)], i) {
      assert [Segment(1, n)][0].Inside(i);
    }
  }

  lemma LastStage(s0: seq<nat>, s: seq<nat>, n: nat)
    requires Stage(s0, s, n, [])
    ensures Shuffled(s0, s, 1, n) && forall x, y :: 1 <= x < y <= n ==> s[x] >= s[y]
  {
    forall x, y | 1 <= x < y <= n ensures s[x] >= s[y] {
      assert !Pending([], x);
      assert Cut(s, n, x);
    }
  }

  lemma StageEnds(s0: seq<nat>, s: seq<nat>, n: nat, segs: seq<Segment>)
    requires segs != [] && Stage(s0, s, n, segs)
    ensures segs[|segs| - 1].hi <= n
  {
  }

  /** A small segment is sorted and done with. */
  method SortSmall(ids: array<nat>, n: nat, l: nat, ir: int, ghost s0: seq<nat>, ghost segs: seq<Segment>)
    returns (ghost rest: seq<Segment>)
    requires segs != [] && segs[|segs| - 1] == Segment(l, ir) && Stage(s0, ids[..], n, segs)
    modifies ids
    ensures rest == segs[..|segs| - 1] && Stage(s0, ids[..], n, rest)
    ensures Work(rest) < Work(segs)
  {
    hide Pow2, Pending, Cut;
    ghost var before := ids[..];
    InsertionSort(ids, n, l, ir);
    SegmentDone(before, ids[..], n, segs);
    rest := segs[..|segs| - 1];
  }

  /** A large segment is partitioned; `rest` has its smaller part last. */
  method SplitSegment(ids: array<nat>, n: nat, l: nat, ir: int, ghost s0: seq<nat>, ghost segs: seq<Segment>)
    returns (i: nat, j: nat, ghost rest: seq<Segment>)
    requires segs != [] && segs[|segs| - 1] == Segment(l, ir) && Stage(s0, ids[..], n, segs)
    requires ir - l >= SMALL && n < 0x8000_0000
    modifies ids
    ensures l + 1 <= j < i <= ir && |segs| <= 28
    ensures rest == Replaced(segs, i, j, ir - i + 1 < j - l) && Stage(s0, ids[..], n, rest)
    ensures Work(rest) < Work(segs)
  {
    hide Pow2, Pending, Cut, Work;
    ghost var before := ids[..];
    StackDepth(segs, n);
    ghost var a;
    i, j, a := Partition(ids, l, ir);
    ghost var swap := ir - i + 1 < j - l;
    SegmentSplit(before, ids[..], n, segs, i, j, a, swap);
    HalvingKept(segs, n, i, j, swap);
    WorkFalls(segs, i, j, swap);
    rest := Replaced(segs, i, j, swap);
  }

  /** The largest list for which `l + ir` fits an `int` whatever the segment. */
  const SAFE_LENGTH := 0x4000_0003

  /** The sum of the ends of a large segment fits, and no longer list has that guarantee. */
  lemma SumFitsIff(n: nat)
    ensures n <= SAFE_LENGTH <==> forall l, ir :: 1 <= l && l + SMALL <= ir <= n ==> EndsSum(l, ir) < 0x8000_0000
  {
    if n > SAFE_LENGTH { assert EndsSum(n - SMALL, n) >= 0x8000_0000; }
  }

  function EndsSum(l: int, ir: int): int {
    l + ir
  }

  /** mdb_midl_sort. `fits` says that `l + ir`, which is an `int`, fits in every round. */
  method Sort(ids: array<nat>) returns (ghost fits: bool)
    requires ids.Length >= 1 && ids[0] < ids.Length && ids[0] < 0x8000_0000
    modifies ids
    ensures old(ids[0]) <= SAFE_LENGTH ==> fits
    ensures old(ids[0]) == 0x7FFF_FFFF ==> !fits
    ensures Shuffled(old(ids[..]), ids[..], 1, old(ids[0]))
    ensures ids[0] == old(ids[0])
    ensures forall x, y :: 1 <= x < y <= ids[0] ==> ids[x] >= ids[y]
  {
    hide Stage, Work;
    ghost var s0 := ids[..];
    var n := ids[0];
    var istack := new int[64];
    var ir: int, l: nat, jstack := n, 1, 0;
    ghost var segs := [Segment(l, ir)];
    fits := true;
    FirstStage(s0, n);
    while true
      invariant segs != [] && jstack == 2 * (|segs| - 1) && jstack <= 56
      invariant segs[|segs| - 1] == Segment(l, ir)
      invariant forall d :: 0 <= d < |segs| - 1 ==> istack[2 * d + 1] == segs[d].lo && istack[2 * d + 2] == segs[d].hi
      invariant Stage(s0, ids[..], n, segs)
      invariant n <= SAFE_LENGTH ==> fits
      invariant n == 0x7FFF_FFFF ==> !fits || (l == 1 && ir == n)
      decreases Work(segs)
    {
      if ir - l < SMALL {
        assert jstack > 0 ==> istack[jstack - 1] == segs[|segs| - 2].lo && istack[jstack] == segs[|segs| - 2].hi;
        segs := SortSmall(ids, n, l, ir, s0, segs);
        if jstack == 0 { break; }
        ir, l, jstack := istack[jstack], istack[jstack - 1], jstack - 2;
      } else {
        StageEnds(s0, ids[..], n, segs);
        fits := fits && EndsSum(l, ir) < 0x8000_0000;
        var i, j;
        i, j, segs := SplitSegment(ids, n, l, ir, s0, segs);
        jstack := jstack + 2;
        if ir - i + 1 >= j - l {
          istack[jstack] := ir;
          istack[jstack - 1] := i;
          ir := j - 1;
        } else {
          istack[jstack] := j - 1;
          istack[jstack - 1] := l;
          l := i;
        }
      }
    }
    LastStage(s0, ids[..], n);
  }
}
