/** mdb_drop0: all the pages of a tree are put on the list of freed pages.

The cursor walks through the tree level by level, from the leaves up. On a leaf page it frees
the overflow pages, on a branch page the child pages, and at the end the root. `DropOrder`
is the resulting list; it is proved to have every page of the tree exactly once.
 */
module TreeDrop {
  import opened BTree
  import opened BTreeCursor

  function Overflow(e: Entry): (r: seq<nat>)
    ensures |r| == if e.bigdata then e.ovpages else 0
    ensures forall k :: 0 <= k < |r| ==> r[k] == e.ovpg + k
  {
    if e.bigdata then seq<nat>(e.ovpages, k requires 0 <= k < e.ovpages => e.ovpg + k) else []
  }

  function Overflows(es: seq<Entry>): seq<nat> {
    if es == [] then [] else Overflows(es[..|es| - 1]) + Overflow(es[|es| - 1])
  }

  function Pgnos(ts: seq<Tree>): seq<nat> {
    if ts == [] then [] else Pgnos(ts[..|ts| - 1]) + [ts[|ts| - 1].pgno]
  }

  /** Every page of the tree: the page itself, overflow pages, and the pages of its children. */
  function AllPages(t: Tree): seq<nat> {
    [t.pgno] + if t.Leaf? then Overflows(t.entries) else PagesBelow(t.children)
  }

  function PagesBelow(ts: seq<Tree>): seq<nat> {
    if ts == [] then [] else PagesBelow(ts[..|ts| - 1]) + AllPages(ts[|ts| - 1])
  }

  /** What is freed on one page, and on a row of pages. */
  function FreedOn(t: Tree): seq<nat> {
    if t.Leaf? then Overflows(t.entries) else Pgnos(t.children)
  }

  function FreedBy(ts: seq<Tree>): seq<nat> {
    if ts == [] then [] else FreedBy(ts[..|ts| - 1]) + FreedOn(ts[|ts| - 1])
  }

  /** What is freed on the levels from the leaves up to level d. */
  function FreedDownTo(t: Tree, depth: nat, d: nat): seq<nat>
    decreases depth + 1 - d
  {
    if d > depth then [] else FreedDownTo(t, depth, d + 1) + FreedBy(Level(t, d))
  }

  function DropOrder(t: Tree, depth: nat): seq<nat> {
    FreedDownTo(t, depth, 0) + [t.pgno]
  }

  lemma FreedBySnoc(a: seq<Tree>, x: Tree)
    ensures FreedBy(a + [x]) == FreedBy(a) + FreedOn(x)
    ensures FreedBy([]) == [] && FreedBy([x]) == FreedOn(x)
  {
    assert [x][..0] == [];
    assert (a + [x])[..|a|] == a;
  }

  lemma NothingFreed()
    ensures FreedBy([]) == []
  {
  }

  lemma {:induction false} FreedByJoin(a: seq<Tree>, b: seq<Tree>)
    ensures FreedBy(a + b) == FreedBy(a) + FreedBy(b)
    decreases |b|
  {
    hide FreedBy, FreedOn;
    if b == [] {
      assert a + b == a;
      NothingFreed();
    } else {
      var init, x := b[..|b| - 1], b[|b| - 1];
      FreedByJoin(a, init);
      assert b == init + [x] && a + b == (a + init) + [x];
      FreedBySnoc(a + init, x);
      FreedBySnoc(init, x);
    }
  }

  /** The pages freed on the first n levels, without their order. */
  ghost function LevelBag(t: Tree, n: nat): multiset<nat> {
    if n == 0 then multiset{} else LevelBag(t, n - 1) + multiset(FreedBy(Level(t, n - 1)))
  }

  ghost function LevelBagAll(ts: seq<Tree>, n: nat): multiset<nat> {
    if n == 0 then multiset{} else LevelBagAll(ts, n - 1) + multiset(FreedBy(LevelAll(ts, n - 1)))
  }

  lemma {:induction false} FirstLevelBag(t: Tree, n: nat)
    requires t.Branch?
    ensures LevelBag(t, n + 1) == multiset(Pgnos(t.children)) + LevelBagAll(t.children, n)
    decreases n
  {
    if n == 0 {
      assert [t][..0] == [];
      assert FreedBy([t]) == Pgnos(t.children);
      assert LevelBag(t, 0) == multiset{};
    } else {
      FirstLevelBag(t, n - 1);
    }
  }

  /** Sums of bags may be taken in any order. */
  lemma Exchange(a: multiset<nat>, b: multiset<nat>, c: multiset<nat>, d: multiset<nat>)
    ensures (a + b) + (c + d) == (a + c) + (b + d)
  {
  }

  lemma BagSteps(t: Tree, ts: seq<Tree>, n: nat)
    ensures LevelBag(t, n + 1) == LevelBag(t, n) + multiset(FreedBy(Level(t, n)))
    ensures LevelBagAll(ts, n + 1) == LevelBagAll(ts, n) + multiset(FreedBy(LevelAll(ts, n)))
    ensures LevelBag(t, 0) == multiset{} == LevelBagAll(ts, 0)
  {
  }

  lemma LastTree(ts: seq<Tree>, d: nat)
    requires ts != []
    ensures LevelAll(ts, d) == LevelAll(ts[..|ts| - 1], d) + Level(ts[|ts| - 1], d)
    ensures Pgnos(ts) == Pgnos(ts[..|ts| - 1]) + [ts[|ts| - 1].pgno]
    ensures PagesBelow(ts) == PagesBelow(ts[..|ts| - 1]) + AllPages(ts[|ts| - 1])
  {
  }

  lemma {:induction false} LevelBagLast(ts: seq<Tree>, n: nat)
    requires ts != []
    ensures LevelBagAll(ts, n) == LevelBagAll(ts[..|ts| - 1], n) + LevelBag(ts[|ts| - 1], n)
    decreases n
  {
    hide LevelBag, LevelBagAll, FreedBy, Level, LevelAll, Pgnos, PagesBelow, AllPages;
    var init, last := ts[..|ts| - 1], ts[|ts| - 1];
    if n == 0 {
      BagSteps(last, ts, 0);
      BagSteps(last, init, 0);
    } else {
      LevelBagLast(ts, n - 1);
      BagSteps(last, ts, n - 1);
      BagSteps(last, init, n - 1);
      LastTree(ts, n - 1);
      FreedByJoin(LevelAll(init, n - 1), Level(last, n - 1));
      Exchange(LevelBagAll(init, n - 1), LevelBag(last, n - 1),
               multiset(FreedBy(LevelAll(init, n - 1))), multiset(FreedBy(Level(last, n - 1))));
    }
  }

  /** Level by level or subtree by subtree, the pages are the same. */
  lemma {:induction false} LevelsAreAll(t: Tree, depth: nat)
    requires Uniform(t, depth)
    ensures LevelBag(t, depth + 1) + multiset{t.pgno} == multiset(AllPages(t))
    decreases t, 1
  {
    hide LevelBag, LevelBagAll, FreedBy, PagesBelow, Overflows, Pgnos;
    if t.Leaf? {
      FreedBySnoc([], t);
      BagSteps(t, [], 0);
      assert Level(t, 0) == [t];
    } else {
      FirstLevelBag(t, depth);
      LevelsBelow(t.children, depth - 1);
    }
  }

  lemma {:induction false} LevelsBelow(ts: seq<Tree>, depth: nat)
    requires forall i :: 0 <= i < |ts| ==> Uniform(ts[i], depth)
    ensures multiset(Pgnos(ts)) + LevelBagAll(ts, depth + 1) == multiset(PagesBelow(ts))
    decreases ts, 0
  {
    hide LevelBag, LevelBagAll, FreedBy, Level, LevelAll, AllPages;
    if ts == [] {
      NoLevels(depth + 1);
    } else {
      var init, last := ts[..|ts| - 1], ts[|ts| - 1];
      LevelsBelow(init, depth);
      LevelsAreAll(last, depth);
      LevelBagLast(ts, depth + 1);
      LastTree(ts, 0);
      Exchange(multiset(Pgnos(init)), multiset{last.pgno}, LevelBagAll(init, depth + 1), LevelBag(last, depth + 1));
    }
  }

  lemma {:induction false} NoLevels(n: nat)
    ensures LevelBagAll([], n) == multiset{}
    decreases n
  {
    if n > 0 {
      NoLevels(n - 1);
      assert LevelAll([], n - 1) == [];
    }
  }

  lemma DownToStep(t: Tree, depth: nat, d: nat)
    ensures FreedDownTo(t, depth, d) ==
      if d > depth then [] else FreedDownTo(t, depth, d + 1) + FreedBy(Level(t, d))
  {
  }

  lemma {:induction false} BagOfDownTo(t: Tree, depth: nat, d: nat)
    requires d <= depth + 1
    ensures multiset(FreedDownTo(t, depth, d)) + LevelBag(t, d) == LevelBag(t, depth + 1)
    decreases depth + 1 - d
  {
    hide LevelBag, FreedBy, Level, FreedDownTo;
    DownToStep(t, depth, d);
    if d <= depth {
      BagOfDownTo(t, depth, d + 1);
      BagSteps(t, [], d);
      var a, b, c := multiset(FreedDownTo(t, depth, d + 1)), multiset(FreedBy(Level(t, d))), LevelBag(t, d);
      assert a + b + c == a + (c + b);
    }
  }

  /** Every branch, leaf and overflow page of the tree is freed exactly once. */
  lemma DropsEachPageOnce(t: Tree, depth: nat)
    requires Uniform(t, depth)
    ensures multiset(DropOrder(t, depth)) == multiset(AllPages(t))
  {
    BagOfDownTo(t, depth, 0);
    assert LevelBag(t, 0) == multiset{};
    LevelsAreAll(t, depth);
  }

  /** The list of freed pages when the cursor is about to visit the page at the top of its stack. */
  ghost predicate FreedUpTo(t: Tree, depth: nat, ki: seq<nat>, freed: seq<nat>) {
    && 1 <= |ki| <= depth + 1 && IsPath(t, ki[..|ki| - 1])
    && var d, r := |ki| - 1, Rank(t, ki[..|ki| - 1]);
       r < |Level(t, d)| && freed == FreedDownTo(t, depth, d + 1) + FreedBy(Level(t, d)[..r])
  }

  /** ... and after it has visited it. */
  ghost predicate FreedWith(t: Tree, depth: nat, ki: seq<nat>, freed: seq<nat>) {
    && 1 <= |ki| <= depth + 1 && IsPath(t, ki[..|ki| - 1])
    && var d, r := |ki| - 1, Rank(t, ki[..|ki| - 1]);
       r < |Level(t, d)| && freed == FreedDownTo(t, depth, d + 1) + FreedBy(Level(t, d)[..r + 1])
  }

  /** Visiting a page. */
  lemma Visited(t: Tree, depth: nat, pg: seq<Tree>, ki: seq<nat>, freed: seq<nat>)
    requires Uniform(t, depth) && Stacked(t, pg, ki) && FreedUpTo(t, depth, ki, freed)
    ensures FreedWith(t, depth, ki, freed + FreedOn(pg[|pg| - 1]))
  {
    hide Uniform, Stacked, IsPath, IsPagePath, PageAt, Rank, Level, FreedBy, FreedOn, FreedDownTo;
    StackedTop(t, pg, ki);
    var p := ki[..|ki| - 1];
    LevelAt(t, depth, p);
    var l, r := Level(t, |p|), Rank(t, p);
    FreedBySnoc(l[..r], l[r]);
    assert l[..r + 1] == l[..r] + [l[r]];
  }

  /** From a page to the next one of its level. */
  lemma ToSibling(t: Tree, depth: nat, ki0: seq<nat>, ki: seq<nat>, freed: seq<nat>)
    requires Uniform(t, depth) && FreedWith(t, depth, ki0, freed) && |ki| == |ki0| && SiblingOf(t, ki0, ki, true, true)
    ensures FreedUpTo(t, depth, ki, freed) && Rank(t, ki[..|ki| - 1]) == Rank(t, ki0[..|ki0| - 1]) + 1
  {
    hide Uniform, IsPath, Rank, Level, FreedBy, FreedDownTo, Right, Count;
    var p, q := ki0[..|ki0| - 1], ki[..|ki| - 1];
    RightRank(t, depth, p);
    assert q == Right(t, p).value;
    RankBelow(t, q);
    LevelSize(t, depth, |q|);
  }

  /** From the last page of a level to the first page of the level above. */
  lemma ToLevelAbove(t: Tree, depth: nat, ki0: seq<nat>, freed: seq<nat>)
    requires Uniform(t, depth) && FreedWith(t, depth, ki0, freed) && |ki0| >= 2 && SiblingOf(t, ki0, ki0, true, false)
    ensures FreedUpTo(t, depth, Zeros(|ki0| - 1), freed)
  {
    hide Uniform, IsPath, Rank, Level, FreedBy, FreedDownTo, Right, Count;
    var p, d := ki0[..|ki0| - 1], |ki0| - 1;
    RightRank(t, depth, p);
    LevelSize(t, depth, d);
    assert Level(t, d)[..|Level(t, d)|] == Level(t, d);
    DownToStep(t, depth, d);
    ToStart(t, depth, d - 1, freed);
  }

  lemma ToStart(t: Tree, depth: nat, d: nat, freed: seq<nat>)
    requires Uniform(t, depth) && d <= depth && freed == FreedDownTo(t, depth, d + 1)
    ensures FreedUpTo(t, depth, Zeros(d + 1), freed)
  {
    hide Uniform, IsPath, Rank, Level, FreedDownTo, Count, FreedOn;
    Leftmost(t, depth, d);
    ZerosSnoc(d);
    assert Zeros(d + 1)[..d] == Zeros(d);
    RankBelow(t, Zeros(d));
    LevelSize(t, depth, d);
    NothingFreed();
  }

  /** The pages of a stack prefix. */
  lemma StackedPrefix(t: Tree, pg: seq<Tree>, ki: seq<nat>, n: nat)
    requires Stacked(t, pg, ki) && 1 <= n <= |pg|
    ensures Stacked(t, pg[..n], ki[..n])
  {
    forall i | 0 <= i < n ensures ki[..n][..i] == ki[..i] { }
  }

  /** The overflow pages of one entry. */
  method FreeOverflow(e: Entry, freed0: seq<nat>) returns (freed: seq<nat>)
    ensures freed == freed0 + Overflow(e)
  {
    freed := freed0;
    if e.bigdata {
      var j, pg := 0, e.ovpg;
      while j < e.ovpages
        invariant 0 <= j <= e.ovpages && pg == e.ovpg + j
        invariant freed == freed0 + Overflow(e)[..j]
      {
        freed := freed + [pg];
        j, pg := j + 1, pg + 1;
      }
    }
  }

  lemma OneMore(es: seq<Entry>, ts: seq<Tree>, i: nat)
    ensures i < |es| ==> Overflows(es[..i + 1]) == Overflows(es[..i]) + Overflow(es[i])
    ensures i < |ts| ==> Pgnos(ts[..i + 1]) == Pgnos(ts[..i]) + [ts[i].pgno]
    ensures Overflows(es[..0]) == [] && Pgnos(ts[..0]) == []
  {
    assert i < |es| ==> es[..i + 1][..i] == es[..i];
    assert i < |ts| ==> ts[..i + 1][..i] == ts[..i];
  }

  /** What the visit of a leaf page adds to the list. */
  method VisitLeaf(es: seq<Entry>, freed0: seq<nat>) returns (freed: seq<nat>)
    ensures freed == freed0 + Overflows(es)
  {
    hide Overflows, Overflow, Pgnos;
    freed := freed0;
    OneMore(es, [], 0);
    var i := 0;
    while i < |es|
      invariant 0 <= i <= |es| && freed == freed0 + Overflows(es[..i])
    {
      OneMore(es, [], i);
      freed := FreeOverflow(es[i], freed);
      i := i + 1;
    }
    assert es[..|es|] == es;
  }

  /** What the visit of a branch page adds to the list. */
  method VisitBranch(ts: seq<Tree>, freed0: seq<nat>) returns (freed: seq<nat>)
    ensures freed == freed0 + Pgnos(ts)
  {
    hide Overflows, Overflow, Pgnos;
    freed := freed0;
    OneMore([], ts, 0);
    var i := 0;
    while i < |ts|
      invariant 0 <= i <= |ts| && freed == freed0 + Pgnos(ts[..i])
    {
      OneMore([], ts, i);
      freed := freed + [ts[i].pgno];
      i := i + 1;
    }
    assert ts[..|ts|] == ts;
  }

  method VisitPage(page: Tree, freed0: seq<nat>) returns (freed: seq<nat>)
    ensures freed == freed0 + FreedOn(page)
  {
    if page.Leaf? {
      freed := VisitLeaf(page.entries, freed0);
    } else {
      freed := VisitBranch(page.children, freed0);
    }
  }

  /** The place of the page at the top of the stack on its level. */
  ghost function TopRank(t: Tree, ki: seq<nat>): nat {
    if |ki| >= 1 && IsPath(t, ki[..|ki| - 1]) then Rank(t, ki[..|ki| - 1]) else 0
  }

  lemma RankInLevel(t: Tree, depth: nat, ki: seq<nat>, freed: seq<nat>)
    requires FreedUpTo(t, depth, ki, freed)
    ensures TopRank(t, ki) < |Level(t, |ki| - 1)|
  {
  }

  lemma RankGrows(t: Tree, depth: nat, ki0: seq<nat>, ki: seq<nat>, freed: seq<nat>)
    requires Uniform(t, depth) && FreedWith(t, depth, ki0, freed) && |ki| == |ki0| && SiblingOf(t, ki0, ki, true, true)
    ensures FreedUpTo(t, depth, ki, freed) && TopRank(t, ki) == TopRank(t, ki0) + 1
  {
    hide Uniform, IsPath, Rank, SiblingOf;
    ToSibling(t, depth, ki0, ki, freed);
  }

  lemma IndexDoesNotMatter(t: Tree, depth: nat, ki: seq<nat>, k: nat, freed: seq<nat>)
    requires FreedWith(t, depth, ki, freed)
    ensures FreedWith(t, depth, ki[|ki| - 1 := k], freed) && TopRank(t, ki[|ki| - 1 := k]) == TopRank(t, ki)
  {
    hide IsPath, Rank, Level, FreedBy, FreedDownTo;
    assert ki[|ki| - 1 := k][..|ki| - 1] == ki[..|ki| - 1];
  }

  /** To the next page of the level, or to the first page of the level above. `mx` is the stack of
      leftmost pages. */
  method Advance(mc: Cursor, mx: seq<Tree>, ghost freed: seq<nat>)
    requires mc.Valid() && |mc.pg| >= 2 && FreedWith(mc.root, mc.depth, mc.ki, freed)
    requires Stacked(mc.root, mx, Zeros(mc.depth + 1))
    modifies mc`pg, mc`ki
    ensures mc.Valid() && FreedUpTo(mc.root, mc.depth, mc.ki, freed)
    ensures
      || |mc.ki| < |old(mc.ki)|
      || (|mc.ki| == |old(mc.ki)| && TopRank(mc.root, mc.ki) > TopRank(mc.root, old(mc.ki)))
  {
    hide Uniform, Stacked, FreedUpTo, FreedWith, SiblingOf, TopRank;
    ghost var k := Kids(mc.pg[|mc.pg| - 1]);
    IndexDoesNotMatter(mc.root, mc.depth, mc.ki, k, freed);
    mc.MoveTo(Kids(mc.pg[|mc.pg| - 1]));
    ghost var ki1 := mc.ki;
    var ok := mc.Sibling(true);
    if ok {
      RankGrows(mc.root, mc.depth, ki1, mc.ki, freed);
    } else {
      ToLevelAbove(mc.root, mc.depth, ki1, freed);
      var n := |mc.pg| - 1;
      StackedPrefix(mc.root, mx, Zeros(mc.depth + 1), n);
      assert Zeros(mc.depth + 1)[..n] == Zeros(n);
      mc.pg := mx[..n];
      mc.ki := Zeros(n);
    }
  }

  /** mdb_drop0. */
  method Drop(mc: Cursor) returns (freed: seq<nat>)
    requires Uniform(mc.root, mc.depth)
    modifies mc`pg, mc`ki
    ensures freed == DropOrder(mc.root, mc.depth)
    // every branch, leaf and overflow page exactly once
    ensures multiset(freed) == multiset(AllPages(mc.root))
  {
    hide Uniform, Stacked, FreedUpTo, FreedWith, FreedOn, FreedDownTo, TopRank, Level;
    mc.SearchLowest();
    var mx := mc.pg;
    freed := [];
    DownToStep(mc.root, mc.depth, mc.depth + 1);
    ToStart(mc.root, mc.depth, mc.depth, freed);
    while true
      invariant mc.Valid() && FreedUpTo(mc.root, mc.depth, mc.ki, freed)
      invariant Stacked(mc.root, mx, Zeros(mc.depth + 1))
      decreases |mc.ki|, |Level(mc.root, |mc.ki| - 1)| - TopRank(mc.root, mc.ki)
    {
      RankInLevel(mc.root, mc.depth, mc.ki, freed);
      ghost var freed0 := freed;
      freed := VisitPage(mc.pg[|mc.pg| - 1], freed);
      Visited(mc.root, mc.depth, mc.pg, mc.ki, freed0);
      if |mc.pg| == 1 { break; }
      Advance(mc, mx, freed);
    }
    RootVisited(mc.root, mc.depth, mc.ki, freed);
    freed := freed + [mc.root.pgno];
    DropsEachPageOnce(mc.root, mc.depth);
  }

  lemma RootVisited(t: Tree, depth: nat, ki: seq<nat>, freed: seq<nat>)
    requires |ki| == 1 && FreedWith(t, depth, ki, freed)
    ensures freed == FreedDownTo(t, depth, 0)
  {
    assert ki[..0] == [];
    assert Level(t, 0) == [t] && [t][..1] == [t];
  }
}
