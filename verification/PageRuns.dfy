/** Runs of consecutive page numbers in descending ID lists, on values.

A request for several pages is served by a run p .. p + num - 1 that lies in the list. As the
list is descending, such a run takes up neighbouring positions.
 */
module PageRuns {
  import opened PageLists

  lemma FirstListed(l: seq<PageNo>)
    ensures l == [] || l[0] in Elems(l)
  {
  }

  /** A descending list is determined by its elements. */
  lemma {:induction false} DescendingUnique(a: seq<PageNo>, b: seq<PageNo>)
    requires Descending(a) && Descending(b) && Elems(a) == Elems(b)
    ensures a == b
    decreases |a|
  {
    FirstListed(b);
    if a != [] {
      assert a[0] in Elems(b);
      assert b[0] in Elems(a);
      var a', b' := a[1..], b[1..];
      assert a == [a[0]] + a' && b == [b[0]] + b';
      forall p ensures p in a' <==> p in b' {
        assert p in Elems(a) <==> p in Elems(b);
      }
      DescendingUnique(a', b');
    }
  }

  /** The num entries from position i on are consecutive numbers: the test made by the search. */
  predicate RunAt(l: seq<PageNo>, i: nat, num: nat) {
    num >= 1 && i + num <= |l| && l[i] == l[i + num - 1] + num - 1
  }

  lemma {:induction false} RunEntries(l: seq<PageNo>, i: nat, num: nat, k: nat)
    requires Descending(l) && RunAt(l, i, num) && k < num
    ensures l[i + k] == l[i] - k
  {
    // descending from both ends
    Falls(l, i, k);
    Falls(l, i + k, num - 1 - k);
  }

  lemma {:induction false} Falls(l: seq<PageNo>, i: nat, k: nat)
    requires Descending(l) && i + k < |l|
    ensures l[i] >= l[i + k] + k
  {
    if k > 0 {
      Falls(l, i, k - 1);
    }
  }

  /** A run that is in the list takes up neighbouring positions. */
  lemma {:induction false} RunIsAt(l: seq<PageNo>, p: PageNo, num: nat) returns (i: nat)
    requires Descending(l) && num >= 1 && Run(p, num) <= Elems(l)
    ensures RunAt(l, i, num) && l[i + num - 1] == p
    decreases num
  {
    var top := p + num - 1;
    assert top in Elems(l);
    var a :| 0 <= a < |l| && l[a] == top;
    if num == 1 {
      i := a;
    } else {
      assert Run(p, num - 1) <= Run(p, num);
      var j := RunIsAt(l, p, num - 1);
      assert l[j] == top - 1;
      assert a < j;
      Falls(l, a, j - a);
      i := a;
    }
  }

  /** The list without the num entries from position i on. */
  function Without(l: seq<PageNo>, i: nat, num: nat): (r: seq<PageNo>)
    requires i + num <= |l|
    ensures |r| == |l| - num
  {
    l[..i] + l[i + num..]
  }

  lemma WithoutAt(l: seq<PageNo>, i: nat, num: nat, x: nat)
    requires i + num <= |l| && x < |l| - num
    ensures Without(l, i, num)[x] == if x < i then l[x] else l[x + num]
  {
  }

  /** The entries of a run are the numbers of the run, and those outside of it are not. */
  lemma RunSlots(l: seq<PageNo>, i: nat, num: nat)
    requires Descending(l) && RunAt(l, i, num)
    ensures forall x :: 0 <= x < |l| ==> (l[x] in Run(l[i + num - 1], num) <==> i <= x < i + num)
    ensures Run(l[i + num - 1], num) <= Elems(l)
  {
    var p := l[i + num - 1];
    forall x | 0 <= x < |l| ensures l[x] in Run(p, num) <==> i <= x < i + num {
      if i <= x < i + num { RunEntries(l, i, num, x - i); }
    }
    forall q | q in Run(p, num) ensures q in Elems(l) {
      RunEntries(l, i, num, l[i] - q);
    }
  }

  lemma WithoutRun(l: seq<PageNo>, i: nat, num: nat)
    requires Descending(l) && RunAt(l, i, num)
    ensures Descending(Without(l, i, num))
    ensures Run(l[i + num - 1], num) <= Elems(l)
    ensures Elems(Without(l, i, num)) == Elems(l) - Run(l[i + num - 1], num)
  {
    hide Without, Run;
    var p, r := l[i + num - 1], Without(l, i, num);
    RunSlots(l, i, num);
    forall x, y | 0 <= x < y < |r| ensures r[x] > r[y] {
      WithoutAt(l, i, num, x);
      WithoutAt(l, i, num, y);
    }
    forall x | 0 <= x < |r| ensures r[x] in Elems(l) && r[x] !in Run(p, num) {
      WithoutAt(l, i, num, x);
    }
    forall q | q in Elems(l) && q !in Run(p, num) ensures q in Elems(r) {
      var x :| 0 <= x < |l| && l[x] == q;
      WithoutAt(l, i, num, if x < i then x else x - num);
    }
  }

  /** The numbers pg + num - 1 down to pg. */
  function Down(pg: PageNo, num: nat): (r: seq<PageNo>)
    ensures |r| == num && forall k :: 0 <= k < num ==> r[k] == pg + num - 1 - k
  {
    seq(num, k requires 0 <= k < num => pg + num - 1 - k)
  }

  /** The list with the numbers pg + num - 1 .. pg put in at position i. */
  function With(l: seq<PageNo>, i: nat, pg: PageNo, num: nat): (r: seq<PageNo>)
    requires i <= |l|
    ensures |r| == |l| + num
  {
    l[..i] + Down(pg, num) + l[i..]
  }

  lemma WithAt(l: seq<PageNo>, i: nat, pg: PageNo, num: nat, x: nat)
    requires i <= |l| && x < |l| + num
    ensures With(l, i, pg, num)[x] ==
      if x < i then l[x] else if x < i + num then pg + num - 1 - (x - i) else l[x - num]
  {
  }

  lemma WithRun(l: seq<PageNo>, i: nat, pg: PageNo, num: nat)
    requires Descending(l) && i <= |l| && Run(pg, num) !! Elems(l)
    requires forall x :: 0 <= x < i ==> l[x] >= pg
    requires forall x :: i <= x < |l| ==> l[x] < pg
    ensures Descending(With(l, i, pg, num)) && Elems(With(l, i, pg, num)) == Elems(l) + Run(pg, num)
  {
    hide With;
    var r := With(l, i, pg, num);
    forall x | 0 <= x < i ensures l[x] >= pg + num {
      assert l[x] in Elems(l);
      assert l[x] !in Run(pg, num);
    }
    forall x, y | 0 <= x < y < |r| ensures r[x] > r[y] {
      WithAt(l, i, pg, num, x);
      WithAt(l, i, pg, num, y);
    }
    forall x | 0 <= x < |r| ensures r[x] in Elems(l) + Run(pg, num) {
      WithAt(l, i, pg, num, x);
    }
    forall q | q in Run(pg, num) ensures q in Elems(r) {
      WithAt(l, i, pg, num, i + (pg + num - 1 - q));
    }
    forall q | q in Elems(l) ensures q in Elems(r) {
      var x :| 0 <= x < |l| && l[x] == q;
      WithAt(l, i, pg, num, if x < i then x else x + num);
    }
  }

  /** Giving a run back undoes taking it, whatever position the search finds. */
  lemma GiveBackUndoesTake(l: seq<PageNo>, i: nat, num: nat, j: nat)
    requires Descending(l) && RunAt(l, i, num)
    requires var p, r := l[i + num - 1], Without(l, i, num);
             j <= |r| && (forall x :: 0 <= x < j ==> r[x] >= p) && (forall x :: j <= x < |r| ==> r[x] < p)
    ensures With(Without(l, i, num), j, l[i + num - 1], num) == l
  {
    hide Without, With;
    var p := l[i + num - 1];
    WithoutRun(l, i, num);
    WithRun(Without(l, i, num), j, p, num);
    DescendingUnique(With(Without(l, i, num), j, p, num), l);
  }

  /** The backward merge of a record into the pool, smallest numbers first. */
  function MergedDown(a: seq<PageNo>, b: seq<PageNo>): (r: seq<PageNo>)
    ensures |r| == |a| + |b|
    decreases |a| + |b|
  {
    if a == [] then b
    else if b == [] then a
    else if a[|a| - 1] < b[|b| - 1] then MergedDown(a[..|a| - 1], b) + [a[|a| - 1]]
    else MergedDown(a, b[..|b| - 1]) + [b[|b| - 1]]
  }

  lemma {:induction false} MergedDownBag(a: seq<PageNo>, b: seq<PageNo>)
    ensures multiset(MergedDown(a, b)) == multiset(a) + multiset(b)
    decreases |a| + |b|
  {
    if a != [] && b != [] {
      var m, n := |a| - 1, |b| - 1;
      assert a == a[..m] + [a[m]] && b == b[..n] + [b[n]];
      if a[m] < b[n] {
        MergedDownBag(a[..m], b);
      } else {
        MergedDownBag(a, b[..n]);
      }
    }
  }

  lemma MergedDownElems(a: seq<PageNo>, b: seq<PageNo>)
    ensures Elems(MergedDown(a, b)) == Elems(a) + Elems(b)
  {
    MergedDownBag(a, b);
    forall p ensures p in MergedDown(a, b) <==> p in a || p in b {
      assert p in multiset(MergedDown(a, b)) <==> p in multiset(a) || p in multiset(b);
    }
  }

  lemma BelowAll(r: seq<PageNo>, low: PageNo)
    requires Descending(r) && forall p :: p in Elems(r) ==> p > low
    ensures Descending(r + [low])
  {
    forall x | 0 <= x < |r| ensures r[x] > low { assert r[x] in Elems(r); }
  }

  lemma PrefixElems(a: seq<PageNo>)
    requires Descending(a) && a != []
    ensures Descending(a[..|a| - 1]) && Elems(a[..|a| - 1]) == Elems(a) - {a[|a| - 1]}
    ensures a[|a| - 1] in Elems(a) && forall p :: p in Elems(a) ==> p >= a[|a| - 1]
  {
    var m := |a| - 1;
    assert a == a[..m] + [a[m]];
  }

  lemma {:induction false} MergedDownDescends(a: seq<PageNo>, b: seq<PageNo>)
    requires Descending(a) && Descending(b) && Elems(a) !! Elems(b)
    ensures Descending(MergedDown(a, b))
    decreases |a| + |b|
  {
    if a != [] && b != [] {
      hide Descending, Elems;
      var m, n := |a| - 1, |b| - 1;
      PrefixElems(a);
      PrefixElems(b);
      if a[m] < b[n] {
        MergedDownDescends(a[..m], b);
        MergedDownElems(a[..m], b);
        BelowAll(MergedDown(a[..m], b), a[m]);
      } else {
        MergedDownDescends(a, b[..n]);
        MergedDownElems(a, b[..n]);
        BelowAll(MergedDown(a, b[..n]), b[n]);
      }
    }
  }

  /** One step of the merge, on prefixes. */
  lemma MergeDownStep(a: seq<PageNo>, b: seq<PageNo>, i: nat, j: nat)
    requires i <= |a| && j <= |b| && (i > 0 || j > 0)
    ensures i > 0 && (j > 0 ==> a[i - 1] < b[j - 1]) ==>
              MergedDown(a[..i], b[..j]) == MergedDown(a[..i - 1], b[..j]) + [a[i - 1]]
    ensures j > 0 && (i > 0 ==> a[i - 1] >= b[j - 1]) ==>
              MergedDown(a[..i], b[..j]) == MergedDown(a[..i], b[..j - 1]) + [b[j - 1]]
  {
    if i > 0 { assert a[..i] == a[..i - 1] + [a[i - 1]] && a[..i][..i - 1] == a[..i - 1]; }
    if j > 0 { assert b[..j] == b[..j - 1] + [b[j - 1]] && b[..j][..j - 1] == b[..j - 1]; }
  }
}
