/** Trees of pages, the paths that a cursor holds into them, and the order of those paths.

A path is the sequence of indices on the cursor's stack. Its last index may point to a child
page or, on a leaf page, to an entry: both are items of a level of the tree. The rank of a
path is the place of its item within the level, from left to right.
 */
module BTree {
  import opened Basics

  /** An entry of a leaf page. Large data is on the overflow pages ovpg .. ovpg + ovpages - 1. */
  datatype Entry = Entry(key: int, data: int, bigdata: bool, ovpg: nat, ovpages: nat)

  /** A branch node is a key and a child; the key of node 0 is not used. */
  datatype Tree =
    | Leaf(pgno: nat, entries: seq<Entry>)
    | Branch(pgno: nat, keys: seq<int>, children: seq<Tree>)

  /** NUMKEYS of the page. */
  function Kids(t: Tree): nat {
    if t.Leaf? then |t.entries| else |t.children|
  }

  /** All leaves are at this distance from the root; no page is empty, no branch has one child. */
  ghost predicate Uniform(t: Tree, depth: nat) {
    match t
    case Leaf(_, entries) => depth == 0 && |entries| >= 1
    case Branch(_, keys, children) =>
      && depth >= 1 && |keys| == |children| >= 2
      && forall i :: 0 <= i < |children| ==> Uniform(children[i], depth - 1)
  }

  /** Number of items of level d: level 0 is the page itself, then its children, and so on. */
  function Count(t: Tree, d: nat): nat {
    if d == 0 then 1
    else if t.Leaf? then if d == 1 then |t.entries| else 0
    else CountAll(t.children, d - 1)
  }

  function CountAll(ts: seq<Tree>, d: nat): nat {
    if ts == [] then 0 else CountAll(ts[..|ts| - 1], d) + Count(ts[|ts| - 1], d)
  }

  /** The path leads to an item. */
  ghost predicate IsPath(t: Tree, p: seq<nat>) {
    p == [] ||
    (p[0] < Kids(t) && if t.Leaf? then |p| == 1 else IsPath(t.children[p[0]], p[1..]))
  }

  function Rank(t: Tree, p: seq<nat>): nat
    requires IsPath(t, p)
  {
    if p == [] then 0
    else if t.Leaf? then p[0]
    else CountAll(t.children[..p[0]], |p| - 1) + Rank(t.children[p[0]], p[1..])
  }

  ghost predicate IsPagePath(t: Tree, p: seq<nat>) {
    p == [] || (t.Branch? && p[0] < |t.children| && IsPagePath(t.children[p[0]], p[1..]))
  }

  /** The page that the path leads to. */
  function PageAt(t: Tree, p: seq<nat>): Tree
    requires IsPagePath(t, p)
    decreases |p|
  {
    if p == [] then t else PageAt(t.children[p[0]], p[1..])
  }

  /** A path is a path to a page and an index on that page. */
  lemma {:induction false} PathSplits(t: Tree, p: seq<nat>, i: nat)
    ensures IsPath(t, p + [i]) <==> IsPagePath(t, p) && i < Kids(PageAt(t, p))
    decreases |p|
  {
    if p == [] {
      assert p + [i] == [i] && [i][1..] == [];
    } else {
      assert (p + [i])[0] == p[0] && (p + [i])[1..] == p[1..] + [i];
      if t.Branch? && p[0] < |t.children| { PathSplits(t.children[p[0]], p[1..], i); }
    }
  }

  /** The page below a page. */
  lemma {:induction false} PageBelow(t: Tree, p: seq<nat>, i: nat)
    requires IsPagePath(t, p) && PageAt(t, p).Branch? && i < Kids(PageAt(t, p))
    ensures IsPagePath(t, p + [i]) && PageAt(t, p + [i]) == PageAt(t, p).children[i]
    decreases |p|
  {
    if p == [] {
      assert p + [i] == [i] && [i][1..] == [];
    } else {
      assert (p + [i])[0] == p[0] && (p + [i])[1..] == p[1..] + [i];
      PageBelow(t.children[p[0]], p[1..], i);
    }
  }

  lemma {:induction false} PageDepth(t: Tree, depth: nat, p: seq<nat>)
    requires Uniform(t, depth) && IsPagePath(t, p)
    ensures |p| <= depth && Uniform(PageAt(t, p), depth - |p|)
    decreases |p|
  {
    if p != [] { PageDepth(t.children[p[0]], depth - 1, p[1..]); }
  }

  /** In a tree of uniform depth, short paths lead to pages. */
  lemma {:induction false} ShortPath(t: Tree, depth: nat, p: seq<nat>)
    requires Uniform(t, depth) && IsPath(t, p)
    ensures |p| <= depth + 1 && (|p| <= depth ==> IsPagePath(t, p))
    decreases |p|
  {
    if p != [] && t.Branch? { ShortPath(t.children[p[0]], depth - 1, p[1..]); }
  }

  lemma {:induction false} CountAllSplit(ts: seq<Tree>, i: nat, d: nat)
    requires i < |ts|
    ensures CountAll(ts[..i], d) + Count(ts[i], d) == CountAll(ts[..i + 1], d) <= CountAll(ts, d)
    decreases |ts|
  {
    assert ts[..i + 1][..i] == ts[..i];
    if i + 1 < |ts| {
      var init := ts[..|ts| - 1];
      CountAllSplit(init, i, d);
      assert init[..i] == ts[..i] && init[..i + 1] == ts[..i + 1];
    } else {
      assert ts[..i + 1] == ts;
    }
  }

  lemma CountTwo(ts: seq<Tree>, i: nat, j: nat, d: nat)
    requires i < j <= |ts|
    ensures CountAll(ts[..i], d) + Count(ts[i], d) <= CountAll(ts[..j], d)
  {
    CountAllSplit(ts[..j], i, d);
    assert ts[..j][..i] == ts[..i] && ts[..j][..i + 1] == ts[..i + 1];
  }

  /** The rank of an item is a place within its level. */
  lemma {:induction false} RankBelow(t: Tree, p: seq<nat>)
    requires IsPath(t, p)
    ensures Rank(t, p) < Count(t, |p|)
    decreases |p|
  {
    if p != [] && t.Branch? {
      RankBelow(t.children[p[0]], p[1..]);
      CountAllSplit(t.children, p[0], |p| - 1);
    }
  }

  /** The rank identifies the item. */
  lemma {:induction false} RankInjective(t: Tree, p: seq<nat>, q: seq<nat>)
    requires IsPath(t, p) && IsPath(t, q) && |p| == |q| && Rank(t, p) == Rank(t, q)
    ensures p == q
    decreases |p|
  {
    if p != [] && t.Branch? {
      var d := |p| - 1;
      RankBelow(t.children[p[0]], p[1..]);
      RankBelow(t.children[q[0]], q[1..]);
      if p[0] < q[0] { CountTwo(t.children, p[0], q[0], d); }
      if q[0] < p[0] { CountTwo(t.children, q[0], p[0], d); }
      RankInjective(t.children[p[0]], p[1..], q[1..]);
    }
    if p != [] { assert p == [p[0]] + p[1..] && q == [q[0]] + q[1..]; }
  }

  function Zeros(n: nat): (r: seq<nat>)
    ensures |r| == n && forall i :: 0 <= i < n ==> r[i] == 0
  {
    if n == 0 then [] else [0] + Zeros(n - 1)
  }

  /** The leftmost item of a level. */
  lemma {:induction false} Leftmost(t: Tree, depth: nat, n: nat)
    requires Uniform(t, depth) && n <= depth + 1
    ensures IsPath(t, Zeros(n)) && Rank(t, Zeros(n)) == 0
    decreases n
  {
    if n > 0 {
      assert Zeros(n)[1..] == Zeros(n - 1);
      if t.Branch? {
        Leftmost(t.children[0], depth - 1, n - 1);
        assert t.children[..0] == [];
      }
    }
  }

  lemma ZerosSnoc(n: nat)
    ensures Zeros(n) + [0] == Zeros(n + 1)
  {
  }

  /** The path to the rightmost item of a level. */
  function Rightmost(t: Tree, n: nat): seq<nat>
    decreases n
  {
    if n == 0 || Kids(t) == 0 then []
    else [Kids(t) - 1] + if t.Leaf? then [] else Rightmost(t.children[Kids(t) - 1], n - 1)
  }

  lemma UniformCases(t: Tree, depth: nat)
    requires Uniform(t, depth)
    ensures Kids(t) > 0 && (t.Leaf? ==> depth == 0)
    ensures t.Branch? ==> depth > 0 && forall i :: 0 <= i < |t.children| ==> Uniform(t.children[i], depth - 1)
  {
  }

  /** What a path through a branch page is, and where it ranks. */
  lemma PathThrough(t: Tree, c: nat, rest: seq<nat>)
    requires t.Branch? && c < |t.children|
    ensures IsPath(t, [c] + rest) <==> IsPath(t.children[c], rest)
    ensures IsPath(t.children[c], rest) ==>
      Rank(t, [c] + rest) == CountAll(t.children[..c], |rest|) + Rank(t.children[c], rest)
  {
    hide Rank, Count, CountAll;
    assert ([c] + rest)[1..] == rest;
    if IsPath(t.children[c], rest) { RankThrough(t, c, rest); }
  }

  lemma RankThrough(t: Tree, c: nat, rest: seq<nat>)
    requires t.Branch? && c < |t.children| && IsPath(t.children[c], rest) && IsPath(t, [c] + rest)
    ensures Rank(t, [c] + rest) == CountAll(t.children[..c], |rest|) + Rank(t.children[c], rest)
  {
    hide IsPath, Count, CountAll;
    assert ([c] + rest)[1..] == rest;
  }

  lemma PageThrough(t: Tree, c: nat, rest: seq<nat>)
    requires t.Branch? && c < |t.children|
    ensures IsPagePath(t, [c] + rest) <==> IsPagePath(t.children[c], rest)
    ensures IsPagePath(t.children[c], rest) ==> PageAt(t, [c] + rest) == PageAt(t.children[c], rest)
  {
    assert ([c] + rest)[1..] == rest;
  }

  lemma CountThrough(t: Tree, d: nat)
    requires t.Branch?
    ensures Count(t, d + 1) == CountAll(t.children, d) && CountAll(t.children[..0], d) == 0
  {
  }

  lemma RightmostThrough(t: Tree, n: nat)
    requires Kids(t) > 0
    ensures t.Branch? ==> Rightmost(t, n + 1) == [Kids(t) - 1] + Rightmost(t.children[Kids(t) - 1], n)
    ensures t.Leaf? ==> Rightmost(t, n + 1) == [Kids(t) - 1]
    ensures Rightmost(t, 0) == []
  {
  }

  lemma LeafPath(t: Tree, i: nat)
    requires t.Leaf? && i < Kids(t)
    ensures IsPath(t, [i]) && Rank(t, [i]) == i && Count(t, 1) == Kids(t)
  {
  }

  lemma EmptyPath(t: Tree)
    ensures IsPath(t, []) && Rank(t, []) == 0 && Count(t, 0) == 1 && IsPagePath(t, []) && PageAt(t, []) == t
  {
  }

  lemma {:induction false} RightmostRank(t: Tree, depth: nat, n: nat)
    requires Uniform(t, depth) && n <= depth + 1
    ensures |Rightmost(t, n)| == n && IsPath(t, Rightmost(t, n)) && Rank(t, Rightmost(t, n)) + 1 == Count(t, n)
    decreases n
  {
    hide Uniform, IsPath, Rank, Count, CountAll, Rightmost;
    UniformCases(t, depth);
    if n == 0 {
      RightmostThrough(t, 0);
      EmptyPath(t);
    } else if t.Leaf? {
      RightmostThrough(t, 0);
      LeafPath(t, Kids(t) - 1);
    } else {
      var last := Kids(t) - 1;
      RightmostThrough(t, n - 1);
      RightmostRank(t.children[last], depth - 1, n - 1);
      PathThrough(t, last, Rightmost(t.children[last], n - 1));
      CountThrough(t, n - 1);
      CountAllSplit(t.children, last, n - 1);
      assert t.children[..last + 1] == t.children;
    }
  }

  lemma {:induction false} RightmostSnoc(t: Tree, depth: nat, n: nat)
    requires Uniform(t, depth) && n <= depth
    ensures IsPagePath(t, Rightmost(t, n)) && Kids(PageAt(t, Rightmost(t, n))) > 0
    ensures Rightmost(t, n + 1) == Rightmost(t, n) + [Kids(PageAt(t, Rightmost(t, n))) - 1]
    decreases n
  {
    hide Uniform, IsPagePath, PageAt, Rightmost;
    UniformCases(t, depth);
    var last := Kids(t) - 1;
    RightmostThrough(t, n);
    if n == 0 {
      EmptyPath(t);
      if t.Branch? {
        UniformCases(t.children[last], depth - 1);
        RightmostThrough(t.children[last], 0);
      }
    } else {
      RightmostThrough(t, n - 1);
      RightmostSnoc(t.children[last], depth - 1, n - 1);
      var q := Rightmost(t.children[last], n - 1);
      PageThrough(t, last, q);
      Regroup(last, q, Kids(PageAt(t.children[last], q)) - 1);
    }
  }

  lemma Regroup(c: nat, q: seq<nat>, k: nat)
    ensures [c] + (q + [k]) == ([c] + q) + [k]
  {
  }

  /** The next item of the level to the right. */
  function Right(t: Tree, p: seq<nat>): Option<seq<nat>>
    requires IsPath(t, p)
    decreases |p|
  {
    if p == [] then None
    else
      var below := if t.Leaf? then None else Right(t.children[p[0]], p[1..]);
      if below.Some? then Some([p[0]] + below.value)
      else if p[0] + 1 < Kids(t) then Some([p[0] + 1] + Zeros(|p| - 1))
      else None
  }

  /** The next item of the level to the left. */
  function Left(t: Tree, p: seq<nat>): Option<seq<nat>>
    requires IsPath(t, p)
    decreases |p|
  {
    if p == [] then None
    else
      var below := if t.Leaf? then None else Left(t.children[p[0]], p[1..]);
      if below.Some? then Some([p[0]] + below.value)
      else if p[0] == 0 then None
      else Some([p[0] - 1] + if t.Leaf? then [] else Rightmost(t.children[p[0] - 1], |p| - 1))
  }

  lemma RightThroughChild(t: Tree, c: nat, rest: seq<nat>)
    requires t.Branch? && c < |t.children| && IsPath(t.children[c], rest) && IsPath(t, [c] + rest)
    ensures Right(t, [c] + rest) ==
      var below := Right(t.children[c], rest);
      if below.Some? then Some([c] + below.value)
      else if c + 1 < Kids(t) then Some([c + 1] + Zeros(|rest|)) else None
    ensures Left(t, [c] + rest) ==
      var below := Left(t.children[c], rest);
      if below.Some? then Some([c] + below.value)
      else if c == 0 then None else Some([c - 1] + Rightmost(t.children[c - 1], |rest|))
  {
    assert ([c] + rest)[1..] == rest;
  }

  lemma LeafSides(t: Tree, i: nat)
    requires t.Leaf? && i < Kids(t) && IsPath(t, [i])
    ensures Right(t, [i]) == if i + 1 < Kids(t) then Some([i + 1]) else None
    ensures Left(t, [i]) == if i > 0 then Some([i - 1]) else None
  {
    assert [i + 1] + Zeros(0) == [i + 1];
    FirstLevel(t, i);
  }

  lemma EmptySides(t: Tree)
    requires IsPath(t, [])
    ensures Right(t, []) == None && Left(t, []) == None
  {
  }

  /** To the right the rank grows by one, until the end of the level. */
  lemma {:induction false} RightRank(t: Tree, depth: nat, p: seq<nat>)
    requires Uniform(t, depth) && IsPath(t, p)
    ensures Right(t, p).Some? ==>
      var q := Right(t, p).value; |q| == |p| && IsPath(t, q) && Rank(t, q) == Rank(t, p) + 1
    ensures Right(t, p).None? ==> Rank(t, p) + 1 == Count(t, |p|)
    decreases |p|
  {
    hide Uniform, IsPath, Rank, Count, CountAll, Right, Zeros;
    UniformCases(t, depth);
    ShortPath(t, depth, p);
    if p == [] {
      EmptyPath(t);
      EmptySides(t);
    } else if t.Leaf? {
      var i := FirstIndex(t, p);
      LeafSides(t, i);
      LeafPath(t, i);
      if i + 1 < Kids(t) { LeafPath(t, i + 1); }
    } else {
      var c := FirstIndex(t, p);
      var rest := p[1..];
      PathThrough(t, c, rest);
      CountThrough(t, |rest|);
      RightRank(t.children[c], depth - 1, rest);
      RightThroughChild(t, c, rest);
      CountAllSplit(t.children, c, |rest|);
      var below := Right(t.children[c], rest);
      if below.Some? {
        PathThrough(t, c, below.value);
      } else if c + 1 < Kids(t) {
        Leftmost(t.children[c + 1], depth - 1, |rest|);
        PathThrough(t, c + 1, Zeros(|rest|));
      } else {
        assert t.children[..c + 1] == t.children;
      }
    }
  }

  lemma FirstIndex(t: Tree, p: seq<nat>) returns (c: nat)
    requires IsPath(t, p) && p != []
    ensures c == p[0] < Kids(t) && p == [c] + p[1..] && (t.Leaf? ==> p == [c])
  {
    c := p[0];
    assert p == [c] + p[1..];
    assert t.Leaf? ==> p[1..] == [];
  }

  /** To the left the rank falls by one, until the start of the level. */
  lemma {:induction false} LeftRank(t: Tree, depth: nat, p: seq<nat>)
    requires Uniform(t, depth) && IsPath(t, p)
    ensures Left(t, p).Some? ==>
      var q := Left(t, p).value; |q| == |p| && IsPath(t, q) && Rank(t, q) + 1 == Rank(t, p)
    ensures Left(t, p).None? ==> Rank(t, p) == 0
    decreases |p|
  {
    hide Uniform, IsPath, Rank, Count, CountAll, Left, Rightmost;
    UniformCases(t, depth);
    ShortPath(t, depth, p);
    if p == [] {
      EmptyPath(t);
      EmptySides(t);
    } else if t.Leaf? {
      var i := FirstIndex(t, p);
      LeafSides(t, i);
      LeafPath(t, i);
      if i > 0 { LeafPath(t, i - 1); }
    } else {
      var c := FirstIndex(t, p);
      var rest := p[1..];
      PathThrough(t, c, rest);
      CountThrough(t, |rest|);
      LeftRank(t.children[c], depth - 1, rest);
      RightThroughChild(t, c, rest);
      var below := Left(t.children[c], rest);
      if below.Some? {
        PathThrough(t, c, below.value);
      } else if c > 0 {
        RightmostRank(t.children[c - 1], depth - 1, |rest|);
        PathThrough(t, c - 1, Rightmost(t.children[c - 1], |rest|));
        CountAllSplit(t.children, c - 1, |rest|);
      }
    }
  }

  lemma {:induction false} PagePathIsPath(t: Tree, p: seq<nat>)
    requires IsPagePath(t, p)
    ensures IsPath(t, p)
    decreases |p|
  {
    if p != [] { PagePathIsPath(t.children[p[0]], p[1..]); }
  }

  /** How a cursor finds the item to the right: on the same page, or first on the next page. */
  lemma {:induction false} RightOnPage(t: Tree, p: seq<nat>, i: nat)
    requires IsPagePath(t, p) && i < Kids(PageAt(t, p)) && IsPath(t, p) && IsPath(t, p + [i])
    ensures i + 1 < Kids(PageAt(t, p)) ==> Right(t, p + [i]) == Some(p + [i + 1])
    ensures i + 1 >= Kids(PageAt(t, p)) ==>
      Right(t, p + [i]) == if Right(t, p).Some? then Some(Right(t, p).value + [0]) else None
    decreases |p|
  {
    if p == [] {
      assert p + [i] == [i] && [i][1..] == [];
      assert [i + 1] + Zeros(0) == p + [i + 1];
    } else {
      var c, rest := p[0], p[1..];
      assert (p + [i])[0] == c && (p + [i])[1..] == rest + [i];
      RightOnPage(t.children[c], rest, i);
      assert [c] + (rest + [i + 1]) == p + [i + 1];
      var below := Right(t.children[c], rest);
      if i + 1 >= Kids(PageAt(t, p)) {
        if below.Some? {
          assert [c] + (below.value + [0]) == ([c] + below.value) + [0];
        } else {
          ZerosSnoc(|rest|);
          assert [c + 1] + (Zeros(|rest|) + [0]) == ([c + 1] + Zeros(|rest|)) + [0];
        }
      }
    }
  }

  /** How a cursor finds the item to the left: on the same page, or last on the page before. */
  lemma {:induction false} LeftOnPage(t: Tree, depth: nat, p: seq<nat>, i: nat)
    requires Uniform(t, depth)
    requires IsPagePath(t, p) && i < Kids(PageAt(t, p)) && IsPath(t, p) && IsPath(t, p + [i])
    ensures i > 0 ==> Left(t, p + [i]) == Some(p + [i - 1])
    ensures i == 0 && Left(t, p).None? ==> Left(t, p + [i]) == None
    ensures i == 0 && Left(t, p).Some? ==> LastOf(t, p, Left(t, p).value)
    decreases |p|
  {
    hide Uniform, IsPath, IsPagePath, PageAt, Left, Rightmost;
    UniformCases(t, depth);
    if p == [] {
      EmptyPath(t);
      EmptySides(t);
      assert p + [i] == [i];
      FirstLevel(t, i);
      assert i > 0 ==> p + [i - 1] == [i - 1];
    } else {
      var c := FirstIndex(t, p);
      var rest := p[1..];
      PagePathThrough(t, depth, p);
      PathThrough(t, c, rest);
      PageThrough(t, c, rest);
      assert p + [i] == [c] + (rest + [i]);
      PathThrough(t, c, rest + [i]);
      LeftOnPage(t.children[c], depth - 1, rest, i);
      RightThroughChild(t, c, rest);
      RightThroughChild(t, c, rest + [i]);
      var below := Left(t.children[c], rest);
      if i > 0 {
        Regroup(c, rest, i - 1);
      } else if below.Some? {
        PageThrough(t, c, below.value);
        Regroup(c, below.value, Kids(PageAt(t.children[c], below.value)) - 1);
      } else if c > 0 {
        RightmostSnoc(t.children[c - 1], depth - 1, |rest|);
        var q := Rightmost(t.children[c - 1], |rest|);
        PageThrough(t, c - 1, q);
        Regroup(c - 1, q, Kids(PageAt(t.children[c - 1], q)) - 1);
      }
    }
  }

  /** The item to the left of the first one on page p is the last one on page q. */
  ghost predicate LastOf(t: Tree, p: seq<nat>, q: seq<nat>)
    requires IsPath(t, p + [0])
  {
    IsPagePath(t, q) && Kids(PageAt(t, q)) > 0 && Left(t, p + [0]) == Some(q + [Kids(PageAt(t, q)) - 1])
  }

  lemma FirstLevel(t: Tree, i: nat)
    requires i < Kids(t) && IsPath(t, [i])
    ensures Left(t, [i]) == if i > 0 then Some([i - 1]) else None
  {
    assert [i][1..] == [];
    assert i > 0 && t.Branch? ==> Rightmost(t.children[i - 1], 0) == [];
    assert i > 0 ==> [i - 1] + [] == [i - 1];
  }

  lemma PagePathThrough(t: Tree, depth: nat, p: seq<nat>)
    requires Uniform(t, depth) && IsPagePath(t, p) && p != []
    ensures t.Branch? && p[0] < |t.children| && IsPagePath(t.children[p[0]], p[1..]) && |p| <= depth
    ensures PageAt(t, p) == PageAt(t.children[p[0]], p[1..])
  {
    PageDepth(t, depth, p);
  }

  /** The entries of the tree, from left to right. */
  function Flat(t: Tree): seq<Entry> {
    if t.Leaf? then t.entries else FlatAll(t.children)
  }

  function FlatAll(ts: seq<Tree>): seq<Entry> {
    if ts == [] then [] else FlatAll(ts[..|ts| - 1]) + Flat(ts[|ts| - 1])
  }

  /** The pages of a level, from left to right. */
  function Level(t: Tree, d: nat): seq<Tree> {
    if d == 0 then [t] else if t.Leaf? then [] else LevelAll(t.children, d - 1)
  }

  function LevelAll(ts: seq<Tree>, d: nat): seq<Tree> {
    if ts == [] then [] else LevelAll(ts[..|ts| - 1], d) + Level(ts[|ts| - 1], d)
  }

  lemma {:induction false} FlatSize(t: Tree, depth: nat)
    requires Uniform(t, depth)
    ensures |Flat(t)| == Count(t, depth + 1)
    decreases t, 1
  {
    if t.Branch? { FlatAllSize(t.children, depth - 1); }
  }

  lemma {:induction false} FlatAllSize(ts: seq<Tree>, depth: nat)
    requires forall i :: 0 <= i < |ts| ==> Uniform(ts[i], depth)
    ensures |FlatAll(ts)| == CountAll(ts, depth + 1)
    decreases ts, 0
  {
    if ts != [] {
      FlatAllSize(ts[..|ts| - 1], depth);
      FlatSize(ts[|ts| - 1], depth);
    }
  }

  lemma {:induction false} FlatAllAt(ts: seq<Tree>, i: nat, k: nat)
    requires i < |ts| && k < |Flat(ts[i])|
    ensures |FlatAll(ts[..i])| + k < |FlatAll(ts)| && FlatAll(ts)[|FlatAll(ts[..i])| + k] == Flat(ts[i])[k]
    decreases |ts|
  {
    if i == |ts| - 1 {
    } else {
      var init := ts[..|ts| - 1];
      FlatAllAt(init, i, k);
      assert init[..i] == ts[..i];
    }
  }

  /** The entry at rank r is number r of the tree. */
  lemma {:induction false} FlatAt(t: Tree, depth: nat, p: seq<nat>, i: nat)
    requires Uniform(t, depth) && |p| == depth && IsPagePath(t, p) && i < Kids(PageAt(t, p)) && IsPath(t, p + [i])
    ensures PageAt(t, p).Leaf? && Rank(t, p + [i]) < |Flat(t)|
    ensures Flat(t)[Rank(t, p + [i])] == PageAt(t, p).entries[i]
    decreases |p|
  {
    hide Uniform, IsPath, IsPagePath, PageAt, Rank, Count, CountAll;
    UniformCases(t, depth);
    if p == [] {
      EmptyPath(t);
      assert p + [i] == [i];
      LeafPath(t, i);
    } else {
      PagePathThrough(t, depth, p);
      var c, rest := p[0], p[1..];
      assert p + [i] == [c] + (rest + [i]);
      PathThrough(t, c, rest + [i]);
      FlatAt(t.children[c], depth - 1, rest, i);
      FlatAllAt(t.children, c, Rank(t.children[c], rest + [i]));
      FlatAllSize(t.children[..c], depth - 1);
    }
  }

  lemma {:induction false} LevelSize(t: Tree, depth: nat, d: nat)
    requires Uniform(t, depth) && d <= depth
    ensures |Level(t, d)| == Count(t, d)
    decreases t, 1
  {
    if t.Branch? && d > 0 { LevelAllSize(t.children, depth - 1, d - 1); }
  }

  lemma {:induction false} LevelAllSize(ts: seq<Tree>, depth: nat, d: nat)
    requires d <= depth && forall i :: 0 <= i < |ts| ==> Uniform(ts[i], depth)
    ensures |LevelAll(ts, d)| == CountAll(ts, d)
    decreases ts, 0
  {
    if ts != [] {
      LevelAllSize(ts[..|ts| - 1], depth, d);
      LevelSize(ts[|ts| - 1], depth, d);
    }
  }

  lemma {:induction false} LevelAllAt(ts: seq<Tree>, d: nat, i: nat, k: nat)
    requires i < |ts| && k < |Level(ts[i], d)|
    ensures |LevelAll(ts[..i], d)| + k < |LevelAll(ts, d)|
    ensures LevelAll(ts, d)[|LevelAll(ts[..i], d)| + k] == Level(ts[i], d)[k]
    decreases |ts|
  {
    if i == |ts| - 1 {
    } else {
      var init := ts[..|ts| - 1];
      LevelAllAt(init, d, i, k);
      assert init[..i] == ts[..i];
    }
  }

  /** The page at rank r is number r of its level. */
  lemma {:induction false} LevelAt(t: Tree, depth: nat, p: seq<nat>)
    requires Uniform(t, depth) && IsPagePath(t, p) && IsPath(t, p)
    ensures Rank(t, p) < |Level(t, |p|)| && Level(t, |p|)[Rank(t, p)] == PageAt(t, p)
    decreases |p|
  {
    hide Uniform, IsPath, IsPagePath, PageAt, Rank, Count, CountAll;
    UniformCases(t, depth);
    if p == [] {
      EmptyPath(t);
    } else {
      PagePathThrough(t, depth, p);
      var c, rest := p[0], p[1..];
      assert p == [c] + rest;
      PathThrough(t, c, rest);
      LevelAt(t.children[c], depth - 1, rest);
      LevelAllAt(t.children, |rest|, c, Rank(t.children[c], rest));
      LevelAllSize(t.children[..c], depth - 1, |rest|);
    }
  }

  /** Moving left undoes moving right, and the other way round. */
  lemma LeftUndoesRight(t: Tree, depth: nat, p: seq<nat>, q: seq<nat>)
    requires Uniform(t, depth) && IsPath(t, p) && IsPath(t, q)
    ensures Right(t, p) == Some(q) <==> Left(t, q) == Some(p)
  {
    hide Uniform, IsPath, Rank, Right, Left, Count;
    RightRank(t, depth, p);
    LeftRank(t, depth, q);
    RankBelow(t, q);
    if Right(t, p) == Some(q) {
      RankInjective(t, Left(t, q).value, p);
    } else if Left(t, q) == Some(p) {
      RankInjective(t, Right(t, p).value, q);
    }
  }
}
