/** Cursors over a tree of pages.

A cursor is a stack of pages with an index on each. Moving it is proved to step through the
sequence of all entries: `First` and repeated `Next` visit every entry once and in order,
`Prev` goes the same way back, and `Set` finds a key if and only if the tree has it, also
when it takes a short cut because the cursor is already on the right page.
 */
module BTreeCursor {
  import opened Basics
  import opened BTree
  import opened BTreeSearch

  /** The pages on the stack are those that the indices lead to. */
  ghost predicate Stacked(root: Tree, pg: seq<Tree>, ki: seq<nat>)
    ensures Stacked(root, pg, ki) ==> |pg| == |ki| >= 1
  {
    && |pg| == |ki| >= 1
    && forall i :: 0 <= i < |pg| ==> IsPagePath(root, ki[..i]) && pg[i] == PageAt(root, ki[..i])
  }

  lemma StackedTop(root: Tree, pg: seq<Tree>, ki: seq<nat>)
    requires Stacked(root, pg, ki)
    ensures IsPagePath(root, ki[..|ki| - 1]) && pg[|pg| - 1] == PageAt(root, ki[..|ki| - 1])
    ensures ki == ki[..|ki| - 1] + [ki[|ki| - 1]]
  {
  }

  lemma StackedPop(root: Tree, pg: seq<Tree>, ki: seq<nat>)
    requires Stacked(root, pg, ki) && |pg| >= 2
    ensures Stacked(root, pg[..|pg| - 1], ki[..|ki| - 1])
    ensures pg[|pg| - 2].Branch? && ki[|ki| - 2] < Kids(pg[|pg| - 2])
  {
    hide IsPagePath, PageAt;
    var n := |pg| - 1;
    forall i | 0 <= i < n ensures ki[..n][..i] == ki[..i] { }
    assert ki[..n] == ki[..n - 1] + [ki[n - 1]];
    LastStep(root, ki[..n - 1], ki[n - 1]);
  }

  lemma {:induction false} LastStep(t: Tree, p: seq<nat>, i: nat)
    requires IsPagePath(t, p + [i])
    ensures IsPagePath(t, p) && PageAt(t, p).Branch? && i < Kids(PageAt(t, p))
    decreases |p|
  {
    if p == [] {
      assert (p + [i])[0] == i;
    } else {
      assert (p + [i])[0] == p[0] && (p + [i])[1..] == p[1..] + [i];
      LastStep(t.children[p[0]], p[1..], i);
    }
  }

  lemma StackedPush(root: Tree, pg: seq<Tree>, ki: seq<nat>, k: nat)
    requires Stacked(root, pg, ki) && pg[|pg| - 1].Branch? && ki[|ki| - 1] < Kids(pg[|pg| - 1])
    ensures Stacked(root, pg + [pg[|pg| - 1].children[ki[|ki| - 1]]], ki + [k])
  {
    hide IsPagePath, PageAt;
    var n := |pg|;
    var pg', ki' := pg + [pg[n - 1].children[ki[n - 1]]], ki + [k];
    StackedTop(root, pg, ki);
    PageBelow(root, ki[..n - 1], ki[n - 1]);
    assert ki'[..n] == ki;
    forall i | 0 <= i < n ensures ki'[..i] == ki[..i] { }
  }

  lemma StackedSet(root: Tree, pg: seq<Tree>, ki: seq<nat>, k: nat)
    requires Stacked(root, pg, ki)
    ensures Stacked(root, pg, ki[|ki| - 1 := k]) && ki[|ki| - 1 := k] == ki[..|ki| - 1] + [k]
  {
    var ki' := ki[|ki| - 1 := k];
    forall i | 0 <= i < |pg| ensures ki'[..i] == ki[..i] { }
  }

  /** The pages are determined by the indices. */
  lemma StackUnique(root: Tree, pg: seq<Tree>, pg': seq<Tree>, ki: seq<nat>)
    requires Stacked(root, pg, ki) && Stacked(root, pg', ki)
    ensures pg == pg'
  {
  }

  /** The page path to one side. */
  ghost function Target(t: Tree, p: seq<nat>, right: bool): Option<seq<nat>>
    requires IsPath(t, p)
  {
    if right then Right(t, p) else Left(t, p)
  }

  /** The cursor stood at ki0 and now stands at ki, at the near end of the page to that side. */
  ghost predicate SiblingOf(t: Tree, ki0: seq<nat>, ki: seq<nat>, right: bool, ok: bool) {
    && |ki0| >= 1 && IsPath(t, ki0[..|ki0| - 1])
    && var target := Target(t, ki0[..|ki0| - 1], right);
    && (ok <==> target.Some?)
    && (ok ==> AtNearEnd(t, target.value, ki, right))
  }

  ghost predicate AtNearEnd(t: Tree, q: seq<nat>, ki: seq<nat>, right: bool) {
    && IsPagePath(t, q) && Kids(PageAt(t, q)) > 0
    && ki == q + [if right then 0 else Kids(PageAt(t, q)) - 1]
  }

  lemma RootAlone(t: Tree, ki: seq<nat>, right: bool)
    requires |ki| == 1
    ensures SiblingOf(t, ki, ki, right, false)
  {
    EmptySides(t);
    assert ki[..0] == [];
  }

  /** There is a page to that side below the same parent. */
  lemma TargetInner(t: Tree, depth: nat, pg: seq<Tree>, ki: seq<nat>, right: bool)
    requires Uniform(t, depth) && Stacked(t, pg, ki) && IsPath(t, ki)
    requires if right then ki[|ki| - 1] + 1 < Kids(pg[|pg| - 1]) else ki[|ki| - 1] > 0
    ensures var k := if right then ki[|ki| - 1] + 1 else ki[|ki| - 1] - 1;
            Target(t, ki, right) == Some(ki[..|ki| - 1] + [k])
  {
    hide Uniform, Stacked, IsPath, IsPagePath, PageAt, Right, Left;
    StackedTop(t, pg, ki);
    var p, i := ki[..|ki| - 1], ki[|ki| - 1];
    PagePathIsPath(t, p);
    PathSplits(t, p, i);
    RightOnPage(t, p, i);
    LeftOnPage(t, depth, p, i);
  }

  /** There is none: the page is at an end of the page to that side of the parent. */
  lemma TargetOuter(t: Tree, depth: nat, pg: seq<Tree>, ki: seq<nat>, right: bool, kir: seq<nat>, ok: bool)
    requires Uniform(t, depth) && Stacked(t, pg, ki) && IsPath(t, ki)
    requires if right then ki[|ki| - 1] + 1 >= Kids(pg[|pg| - 1]) else ki[|ki| - 1] == 0
    requires SiblingOf(t, ki, kir, right, ok)
    ensures Target(t, ki, right) == if ok then Some(kir) else None
  {
    hide Uniform, Stacked, IsPath, IsPagePath, PageAt, Right, Left;
    StackedTop(t, pg, ki);
    var p, i := ki[..|ki| - 1], ki[|ki| - 1];
    PagePathIsPath(t, p);
    PathSplits(t, p, i);
    RightOnPage(t, p, i);
    LeftOnPage(t, depth, p, i);
  }

  lemma TargetIsPath(t: Tree, depth: nat, p: seq<nat>, right: bool)
    requires Uniform(t, depth) && IsPath(t, p)
    ensures Target(t, p, right).Some? ==> IsPath(t, Target(t, p, right).value) && |Target(t, p, right).value| == |p|
  {
    hide Uniform, IsPath, Right, Left, Rank;
    if right { RightRank(t, depth, p); } else { LeftRank(t, depth, p); }
  }

  /** The page to that side is found below the stack. */
  lemma TargetPage(t: Tree, depth: nat, p: seq<nat>, right: bool, pg: seq<Tree>, ki: seq<nat>)
    requires Uniform(t, depth) && IsPath(t, p) && |p| <= depth && Target(t, p, right) == Some(ki)
    requires Stacked(t, pg, ki)
    ensures pg[|pg| - 1].Branch? && ki[|ki| - 1] < Kids(pg[|pg| - 1]) && |ki| == |p|
    ensures IsPagePath(t, ki) && PageAt(t, ki) == pg[|pg| - 1].children[ki[|ki| - 1]] && Kids(PageAt(t, ki)) > 0
  {
    hide Uniform, Stacked, IsPath, IsPagePath, PageAt, Target;
    TargetIsPath(t, depth, p, right);
    ShortPath(t, depth, ki);
    BelowStack(t, pg, ki);
    PageDepth(t, depth, ki);
    UniformCases(PageAt(t, ki), depth - |ki|);
  }

  lemma BelowStack(t: Tree, pg: seq<Tree>, ki: seq<nat>)
    requires Stacked(t, pg, ki) && IsPagePath(t, ki)
    ensures pg[|pg| - 1].Branch? && ki[|ki| - 1] < Kids(pg[|pg| - 1])
    ensures PageAt(t, ki) == pg[|pg| - 1].children[ki[|ki| - 1]]
  {
    hide Stacked, IsPagePath, PageAt;
    StackedTop(t, pg, ki);
    var p, i := ki[..|ki| - 1], ki[|ki| - 1];
    LastStep(t, p, i);
    PageBelow(t, p, i);
  }

  lemma TopIsPath(t: Tree, pg: seq<Tree>, ki: seq<nat>)
    requires Stacked(t, pg, ki)
    ensures IsPath(t, ki[..|ki| - 1])
  {
    PagePathIsPath(t, ki[..|ki| - 1]);
  }

  lemma EntryThere(t: Tree, depth: nat, pg: seq<Tree>, ki: seq<nat>)
    requires Uniform(t, depth) && Stacked(t, pg, ki) && |ki| == depth + 1 && ki[depth] < Kids(pg[depth])
    ensures IsPath(t, ki) && Rank(t, ki) < |Flat(t)| && pg[depth].Leaf?
    ensures Flat(t)[Rank(t, ki)] == pg[depth].entries[ki[depth]]
  {
    hide Uniform, Stacked, IsPath, IsPagePath, PageAt, Rank, Flat;
    StackedTop(t, pg, ki);
    PathSplits(t, ki[..depth], ki[depth]);
    FlatAt(t, depth, ki[..depth], ki[depth]);
  }

  class Cursor {
    const root: Tree
    ghost const depth: nat
    var pg: seq<Tree>
    var ki: seq<nat>
    var initialized: bool
    var eof: bool

    ghost predicate Valid()
      reads this
    {
      Uniform(root, depth) && Stacked(root, pg, ki) && |ki| <= depth + 1
    }

    /** On a leaf page, at an entry. */
    ghost predicate OnEntry()
      reads this
    {
      Valid() && |ki| == depth + 1 && ki[depth] < Kids(pg[depth])
    }

    /** The number of the entry at which the cursor is. */
    ghost function Pos(): (r: nat)
      requires OnEntry()
      reads this
      ensures IsPath(root, ki) && r == Rank(root, ki) < |Flat(root)| && pg[depth].Leaf?
      ensures Flat(root)[r] == pg[depth].entries[ki[depth]]
    {
      EntryThere(root, depth, pg, ki);
      Rank(root, ki)
    }

    method Pop() returns (topPage: Tree, topKi: nat)
      requires Valid() && |pg| >= 2
      modifies this`pg, this`ki
      ensures Valid() && old(pg) == pg + [topPage] && old(ki) == ki + [topKi] && |pg| >= 1 && IsPath(root, ki)
    {
      hide Uniform, Stacked, IsPath;
      TopIsPath(root, pg, ki);
      StackedPop(root, pg, ki);
      topPage, topKi := pg[|pg| - 1], ki[|ki| - 1];
      pg, ki := pg[..|pg| - 1], ki[..|ki| - 1];
    }

    /** mdb_cursor_sibling: to the page on the right or left, at its near end. */
    method Sibling(right: bool) returns (ok: bool)
      requires Valid()
      modifies this`pg, this`ki
      ensures Valid() && |ki| == |old(ki)| && SiblingOf(root, old(ki), ki, right, ok)
      ensures !ok ==> ki == old(ki) && pg == old(pg)
      decreases |pg|
    {
      hide Uniform, Stacked, IsPath, IsPagePath, PageAt, Target, SiblingOf, Kids;
      ghost var ki0 := ki;
      if |pg| < 2 {
        RootAlone(root, ki, right);
        return false;
      }
      var topPage, topKi := Pop();
      ghost var p, pgp := ki, pg;
      assert ki0[..|ki0| - 1] == p;
      var top := |pg| - 1;
      if (if right then ki[top] + 1 >= Kids(pg[top]) else ki[top] == 0) {
        ok := Sibling(right);
        TargetOuter(root, depth, pgp, p, right, ki, ok);
        if !ok {
          pg, ki := pg + [topPage], ki + [topKi];
          SiblingFound(root, ki0, ki, 0, right, false);
          return;
        }
      } else {
        TargetInner(root, depth, pg, ki, right);
        StackedSet(root, pg, ki, if right then ki[top] + 1 else ki[top] - 1);
        ki := ki[top := if right then ki[top] + 1 else ki[top] - 1];
        ok := true;
      }
      Enter(right, ki0);
    }

    /** The page at the index is pushed, and the cursor put at its near end. */
    method Enter(right: bool, ghost ki0: seq<nat>)
      requires Valid() && 1 <= |ki0| <= depth + 1 && IsPath(root, ki0[..|ki0| - 1])
      requires Target(root, ki0[..|ki0| - 1], right) == Some(ki)
      modifies this`pg, this`ki
      ensures Valid() && |ki| == |ki0| && SiblingOf(root, ki0, ki, right, true)
    {
      hide Uniform, Stacked, IsPath, IsPagePath, PageAt, Target, SiblingOf;
      TargetPage(root, depth, ki0[..|ki0| - 1], right, pg, ki);
      var mp := pg[|pg| - 1].children[ki[|ki| - 1]];
      var k := if right then 0 else Kids(mp) - 1;
      StackedPush(root, pg, ki, k);
      SiblingFound(root, ki0, ki, k, right, true);
      pg, ki := pg + [mp], ki + [k];
    }

    /** mdb_cursor_next. */
    method Next() returns (ok: bool)
      requires OnEntry() && !eof
      modifies this
      ensures ok ==> OnEntry() && Pos() == old(Pos()) + 1 && !eof && initialized == old(initialized)
      ensures !ok ==> old(Pos()) + 1 == |Flat(root)| && eof && !initialized && ki == old(ki) && pg == old(pg)
    {
      hide Uniform, Stacked, IsPath, Rank, Flat, Target;
      ghost var pos, pg0, ki0 := Pos(), pg, ki;
      if ki[|ki| - 1] + 1 >= Kids(pg[|pg| - 1]) {
        ok := Sibling(true);
        TargetOuter(root, depth, pg0, ki0, true, ki, ok);
        if !ok {
          TargetPos(root, depth, pg0, ki0, true);
          eof, initialized := true, false;
          return;
        }
        NearEndEntry(root, depth, pg, ki, ki0, true);
      } else {
        TargetInner(root, depth, pg, ki, true);
        StackedSet(root, pg, ki, ki[|ki| - 1] + 1);
        ki := ki[|ki| - 1 := ki[|ki| - 1] + 1];
        ok := true;
      }
      TargetPos(root, depth, pg0, ki0, true);
    }

    /** mdb_cursor_prev. */
    method Prev() returns (ok: bool)
      requires OnEntry()
      modifies this
      ensures ok ==> OnEntry() && Pos() + 1 == old(Pos()) && !eof && initialized == old(initialized)
      ensures !ok ==> old(Pos()) == 0 && !initialized && ki == old(ki) && pg == old(pg)
    {
      hide Uniform, Stacked, IsPath, Rank, Flat, Target;
      ghost var pos, pg0, ki0 := Pos(), pg, ki;
      if ki[|ki| - 1] == 0 {
        ok := Sibling(false);
        TargetOuter(root, depth, pg0, ki0, false, ki, ok);
        if !ok {
          TargetPos(root, depth, pg0, ki0, false);
          initialized := false;
          return;
        }
        NearEndEntry(root, depth, pg, ki, ki0, false);
        StackedSet(root, pg, ki, Kids(pg[|pg| - 1]) - 1);
        ki := ki[|ki| - 1 := Kids(pg[|pg| - 1]) - 1];
      } else {
        TargetInner(root, depth, pg, ki, false);
        StackedSet(root, pg, ki, ki[|ki| - 1] - 1);
        ki := ki[|ki| - 1 := ki[|ki| - 1] - 1];
        ok := true;
      }
      eof := false;
      TargetPos(root, depth, pg0, ki0, false);
    }

    /** The descent of mdb_page_search for the lowest page. */
    method SearchLowest()
      requires Uniform(root, depth)
      modifies this`pg, this`ki
      ensures Valid() && ki == Zeros(depth + 1)
    {
      hide Uniform, Stacked;
      pg, ki := [root], [0];
      StackedRoot(root, 0);
      assert [0] == Zeros(1) by { assert Zeros(0) == []; }
      TopDepth(root, depth, pg, ki);
      while pg[|pg| - 1].Branch?
        invariant Stacked(root, pg, ki) && ki == Zeros(|ki|)
        invariant |ki| <= depth + 1 && Uniform(pg[|pg| - 1], depth + 1 - |ki|)
        decreases depth + 1 - |ki|
      {
        UniformCases(pg[|pg| - 1], depth + 1 - |ki|);
        StackedPush(root, pg, ki, 0);
        ZerosSnoc(|ki|);
        pg, ki := pg + [pg[|pg| - 1].children[ki[|ki| - 1]]], ki + [0];
        TopDepth(root, depth, pg, ki);
      }
      UniformCases(pg[|pg| - 1], depth + 1 - |ki|);
    }

    /** mdb_cursor_first. */
    method First()
      requires Uniform(root, depth)
      requires initialized ==> Valid() && |ki| == depth + 1
      modifies this
      ensures OnEntry() && Pos() == 0 && initialized && !eof
    {
      hide Uniform, Stacked, Rank, IsPath, Flat;
      if !initialized || |pg| > 1 {
        SearchLowest();
      }
      StackedSet(root, pg, ki, 0);
      ki := ki[|ki| - 1 := 0];
      initialized, eof := true, false;
      TopDepth(root, depth, pg, ki);
      UniformCases(pg[|pg| - 1], depth + 1 - |ki|);
      Leftmost(root, depth, depth + 1);
      assert ki == Zeros(depth + 1);
    }

    /** First and then Next to the end: all the entries, once and in order. */
    method Enumerate() returns (all: seq<Entry>)
      requires Uniform(root, depth)
      requires initialized ==> Valid() && |ki| == depth + 1
      modifies this
      ensures all == Flat(root)
    {
      hide Uniform, Stacked, Rank, IsPath, Flat;
      First();
      all := [Current()];
      while true
        invariant OnEntry() && !eof
        invariant all == Flat(root)[..Pos() + 1]
        decreases |Flat(root)| - Pos()
      {
        ghost var pos := Pos();
        var ok := Next();
        if !ok { break; }
        all := all + [Current()];
        assert Flat(root)[..Pos() + 1] == Flat(root)[..pos + 1] + [Flat(root)[Pos()]];
      }
    }

    /** The descent of mdb_page_search for a key. */
    method SearchPage(key: int) returns (ghost b: nat)
      requires Uniform(root, depth) && Ordered(root, Unbounded, Unbounded)
      modifies this`pg, this`ki
      ensures Valid() && |ki| == depth + 1 && Around(root, pg[depth], key, b) && OnWay(pg, ki, key, depth)
    {
      hide Uniform, Stacked, Ordered, Around, Follows;
      pg, ki := [root], [0];
      StackedRoot(root, 0);
      AroundItself(root, key);
      b := 0;
      ghost var lo, hi := Unbounded, Unbounded;
      TopDepth(root, depth, pg, ki);
      while pg[|pg| - 1].Branch?
        invariant Stacked(root, pg, ki) && Ordered(pg[|pg| - 1], lo, hi)
        invariant |ki| <= depth + 1 && Uniform(pg[|pg| - 1], depth + 1 - |ki|)
        invariant Around(root, pg[|pg| - 1], key, b) && OnWay(pg, ki, key, |pg| - 1)
        decreases depth + 1 - |ki|
      {
        ghost var page := pg[|pg| - 1];
        OrderedSearchable(page, depth + 1 - |ki|, lo, hi);
        var c := ChildFor(pg[|pg| - 1], key);
        FollowsAround(page, lo, hi, key, c);
        AroundBelow(root, page, page.children[c], key, b, |FlatAll(page.children[..c])|);
        b := b + |FlatAll(page.children[..c])|;
        OrderedChild(page, lo, hi, c);
        StackedSet(root, pg, ki, c);
        ki := ki[|ki| - 1 := c];
        StackedPush(root, pg, ki, 0);
        lo, hi := LowOf(page, c, lo), HighOf(page, c, hi);
        pg, ki := pg + [pg[|pg| - 1].children[c]], ki + [0];
        TopDepth(root, depth, pg, ki);
      }
      UniformCases(pg[|pg| - 1], depth + 1 - |ki|);
    }

    /** The search on the leaf page at hand, for an exact match. */
    method SearchHere(key: int, ghost b: nat) returns (found: bool)
      requires Valid() && |ki| == depth + 1 && Rising(Flat(root)) && Around(root, pg[depth], key, b)
      modifies this
      ensures found <==> Has(root, key)
      ensures found ==> At(key) && initialized && !eof
      ensures !found ==> InFrontOf(key) && initialized == old(initialized) && eof == old(eof)
      ensures Valid() && |ki| == depth + 1 && pg == old(pg) && ki[..depth] == old(ki)[..depth]
    {
      hide Uniform, Stacked, Rank, IsPath, Around, Gap, Has;
      ghost var r := PageEntries(root, depth, pg, ki);
      PageRises(root, pg[depth], r);
      var page := pg[|pg| - 1];
      var i, exact := NodeSearch(page, key);
      OnPage(page, key, i, exact);
      AroundHas(root, page, key, b);
      if !exact { GapHere(root, page, r, b, key, i); }
      StackedSet(root, pg, ki, i);
      ki := ki[|ki| - 1 := i];
      found := exact;
      if found { initialized, eof := true, false; }
    }

    /** At the entry with this key. */
    ghost predicate At(key: int)
      reads this
    {
      OnEntry() && pg[depth].Leaf? && pg[depth].entries[ki[depth]].key == key
    }

    /** On the leaf page and at the index where a new entry with this key belongs. */
    ghost predicate InFrontOf(key: int)
      reads this
    {
      && Valid() && |ki| == depth + 1 && ki[depth] <= Kids(pg[depth]) && IsPath(root, ki[..depth] + [0])
      && Gap(Flat(root), Rank(root, ki[..depth] + [0]) + ki[depth], key)
    }

    /** The short cuts taken when the cursor is on a page already. `done` says that they settled
        the matter, `here` that the key can only be on this page. */
    method ShortCut(key: int) returns (done: bool, found: bool, here: bool, ghost r: nat)
      requires Valid() && |ki| == depth + 1 && Rising(Flat(root)) && Ordered(root, Unbounded, Unbounded)
      modifies this`ki
      ensures Valid() && |ki| == depth + 1 && (done || here ==> OnWay(pg, ki, key, depth))
      ensures done ==> (found <==> Has(root, key)) && if found then At(key) else InFrontOf(key)
      // otherwise the key is between the ends of this page, or there are other pages on its side
      ensures !done ==> !found && pg[depth].Leaf? && Kids(pg[depth]) > 0 && ki == old(ki)
      ensures !done ==>
        var first, last := pg[depth].entries[0].key, pg[depth].entries[Kids(pg[depth]) - 1].key;
        if here then first < key < last
        else (key < first && depth > 0) || (last < key && !AllLast(pg, ki, depth))
      ensures !done && here ==> Around(root, pg[depth], key, r)
    {
      hide Uniform, Stacked, Rank, IsPath, Has, Rising, Around, Gap, Ordered, OnWay, Flat;
      r := PageEntries(root, depth, pg, ki);
      var page, top := pg[|pg| - 1], |pg| - 1;
      var nkeys := Kids(page);
      OwnEntries(page);
      done, found, here := false, false, false;
      if key == page.entries[0].key {
        MoveTo(0);
        HasHere(root, page, r, 0);
        WayToHere(root, pg, ki, key, page.entries[0], page.entries[0]);
        return true, true, false, r;
      }
      if key > page.entries[0].key {
        if nkeys > 1 && key == page.entries[nkeys - 1].key {
          MoveTo(nkeys - 1);
          HasHere(root, page, r, nkeys - 1);
          WayToHere(root, pg, ki, key, page.entries[nkeys - 1], page.entries[nkeys - 1]);
          return true, true, false, r;
        }
        if nkeys > 1 && key < page.entries[nkeys - 1].key {
          BetweenEnds(root, page, r, key);
          WayToHere(root, pg, ki, key, page.entries[0], page.entries[nkeys - 1]);
          if ki[top] < nkeys && key == page.entries[ki[top]].key {
            HasHere(root, page, r, ki[top]);
            return true, true, false, r;
          }
          return false, false, true, r;
        }
        var last := NoRightSiblings();
        if last {
          LastPageEnds(root, depth, pg, ki, r + nkeys - 1);
          BeyondEnds(root, page, r, key);
          WayToHere(root, pg, ki, key, page.entries[0], page.entries[0]);
          MoveTo(nkeys);
          SameWay(pg, old(ki), ki, key, depth);
          return true, false, false, r;
        }
      }
      if top == 0 {
        OnlyPage(root, depth, pg, ki, r);
        BeyondEnds(root, page, r, key);
        MoveTo(0);
        EmptyWay(pg, ki, key);
        return true, false, false, r;
      }
    }

    method MoveTo(k: nat)
      requires Valid()
      modifies this`ki
      ensures Valid() && ki == old(ki)[|old(ki)| - 1 := k] && ki[..|ki| - 1] == old(ki[..|ki| - 1])
    {
      StackedSet(root, pg, ki, k);
      ki := ki[|ki| - 1 := k];
    }

    method NoRightSiblings() returns (last: bool)
      requires Valid()
      ensures last <==> AllLast(pg, ki, |pg| - 1)
    {
      hide Uniform, Stacked;
      var i := 0;
      while i < |pg| - 1
        invariant 0 <= i <= |pg| - 1 && AllLast(pg, ki, i)
      {
        if ki[i] + 1 < Kids(pg[i]) { return false; }
        i := i + 1;
      }
      last := true;
    }

    /** mdb_cursor_set for an exact match. */
    method Set(key: int) returns (found: bool)
      requires Uniform(root, depth) && Ordered(root, Unbounded, Unbounded)
      requires initialized ==> Valid() && |ki| == depth + 1
      modifies this
      ensures found <==> Has(root, key)
      ensures found ==> At(key) && initialized && !eof
      ensures !found ==> InFrontOf(key) && initialized == old(initialized) && eof == old(eof)
      ensures Valid() && |ki| == depth + 1 && OnWay(pg, ki, key, depth)
    {
      hide Uniform, Stacked, Ordered, Has, Rising, Around, Gap, Follows;
      FlatRising(root, Unbounded, Unbounded);
      if initialized {
        var done, here;
        ghost var r;
        done, found, here, r := ShortCut(key);
        if done {
          if found { eof := false; }
          return;
        }
        if here {
          found := SearchHere(key, r);
          return;
        }
      }
      ghost var b := SearchPage(key);
      found := SearchHere(key, b);
    }

    /** The entry at the cursor. */
    function Current(): (e: Entry)
      requires OnEntry()
      reads this
      ensures e == Flat(root)[Pos()]
    {
      assert Pos() >= 0;
      pg[|pg| - 1].entries[ki[|ki| - 1]]
    }
  }

  /** The entries of a page have consecutive numbers. */
  lemma {:induction false} PageRanks(t: Tree, depth: nat, p: seq<nat>, i: nat)
    requires Uniform(t, depth) && IsPagePath(t, p) && |p| == depth && i < Kids(PageAt(t, p))
    ensures IsPath(t, p + [0]) && IsPath(t, p + [i]) && Rank(t, p + [i]) == Rank(t, p + [0]) + i
    decreases i
  {
    hide Uniform, IsPath, IsPagePath, PageAt, Rank, Right;
    PathSplits(t, p, i);
    PathSplits(t, p, 0);
    if i > 0 {
      PageRanks(t, depth, p, i - 1);
      PathSplits(t, p, i - 1);
      PagePathIsPath(t, p);
      RightOnPage(t, p, i - 1);
      RightRank(t, depth, p + [i - 1]);
    }
  }

  /** The leaf page at the top of the stack, and the number of its first entry. */
  ghost predicate PageFrom(t: Tree, page: Tree, r: nat) {
    && page.Leaf? && Kids(page) > 0 && r + Kids(page) <= |Flat(t)|
    && forall i :: 0 <= i < Kids(page) ==> Flat(t)[r + i] == page.entries[i]
  }

  lemma PageEntries(t: Tree, depth: nat, pg: seq<Tree>, ki: seq<nat>) returns (r: nat)
    requires Uniform(t, depth) && Stacked(t, pg, ki) && |ki| == depth + 1
    ensures PageFrom(t, pg[depth], r) && IsPath(t, ki[..depth] + [0]) && r == Rank(t, ki[..depth] + [0])
    ensures IsPath(t, ki[..depth] + [Kids(pg[depth]) - 1])
    ensures Rank(t, ki[..depth] + [Kids(pg[depth]) - 1]) == r + Kids(pg[depth]) - 1
  {
    hide Uniform, Stacked, IsPath, IsPagePath, PageAt, Rank, Flat;
    StackedTop(t, pg, ki);
    TopDepth(t, depth, pg, ki);
    var p, page := ki[..depth], pg[depth];
    UniformCases(page, 0);
    PathSplits(t, p, 0);
    r := Rank(t, p + [0]);
    forall i | 0 <= i < Kids(page) ensures r + i < |Flat(t)| && Flat(t)[r + i] == page.entries[i] {
      PageRanks(t, depth, p, i);
      FlatAt(t, depth, p, i);
    }
    PageRanks(t, depth, p, Kids(page) - 1);
    FlatAt(t, depth, p, Kids(page) - 1);
  }

  /** A key between the first and the last one of a page is on that page or nowhere. */
  lemma BetweenEnds(t: Tree, page: Tree, r: nat, key: int)
    requires PageFrom(t, page, r) && Rising(Flat(t))
    requires page.entries[0].key < key < page.entries[Kids(page) - 1].key
    ensures Around(t, page, key, r)
  {
    var s, n := Flat(t), Kids(page);
    assert s[r + 0] == page.entries[0] && s[r + (n - 1)] == page.entries[n - 1];
    assert s[r..r + n] == page.entries;
  }

  /** The place of a key on a page is its place in the tree, if all around the page is sorted out. */
  lemma GapHere(t: Tree, page: Tree, r: nat, b: nat, key: int, i: nat)
    requires PageFrom(t, page, r) && Rising(Flat(t)) && Around(t, page, key, b) && Placed(page, key, i, false)
    ensures i <= Kids(page) && Gap(Flat(t), r + i, key)
  {
    var s, n := Flat(t), Kids(page);
    assert s[b..b + n][0] == page.entries[0] && s[r + 0] == page.entries[0];
    assert b == r;
    forall j | 0 <= j < r + i ensures s[j].key < key {
      if j >= r { assert s[r + (j - r)] == page.entries[j - r] && KeyAt(page, j - r) < key; }
    }
    forall j | r + i <= j < |s| ensures key < s[j].key {
      if j < r + n { assert s[r + (j - r)] == page.entries[j - r] && key < KeyAt(page, j - r); }
    }
  }

  /** A key above the last page, or below the first one, is nowhere. */
  lemma BeyondEnds(t: Tree, page: Tree, r: nat, key: int)
    requires PageFrom(t, page, r) && Rising(Flat(t))
    requires
      || (r + Kids(page) == |Flat(t)| && key > page.entries[Kids(page) - 1].key)
      || (r == 0 && key < page.entries[0].key)
    ensures !Has(t, key) && Gap(Flat(t), if key < page.entries[0].key then r else r + Kids(page), key)
  {
    var s, n := Flat(t), Kids(page);
    assert s[r + 0] == page.entries[0] && s[r + (n - 1)] == page.entries[n - 1];
    forall i | 0 <= i < |s| ensures s[i].key != key { }
  }

  /** On the first n pages of the stack, the index is the one that a descent for the key follows. */
  ghost predicate OnWay(pg: seq<Tree>, ki: seq<nat>, key: int, n: nat)
    requires n <= |pg| == |ki|
  {
    forall i :: 0 <= i < n ==>
      pg[i].Branch? && |pg[i].keys| == |pg[i].children| && Follows(pg[i], key, ki[i])
  }

  lemma SameWay(pg: seq<Tree>, ki: seq<nat>, ki': seq<nat>, key: int, n: nat)
    requires n < |pg| == |ki| == |ki'| && OnWay(pg, ki, key, n) && ki[..n] == ki'[..n]
    ensures OnWay(pg, ki', key, n)
  {
    hide Follows;
    assert forall i :: 0 <= i < n ==> ki[i] == ki[..n][i] == ki'[..n][i] == ki'[i];
  }

  lemma EmptyWay(pg: seq<Tree>, ki: seq<nat>, key: int)
    requires |pg| == |ki|
    ensures OnWay(pg, ki, key, 0)
  {
  }

  lemma OwnEntries(page: Tree)
    requires page.Leaf?
    ensures forall i :: 0 <= i < |page.entries| ==> page.entries[i] in Flat(page)
  {
  }

  lemma NextOnStack(t: Tree, pg: seq<Tree>, ki: seq<nat>, i: nat)
    requires Stacked(t, pg, ki) && i + 1 < |pg|
    ensures pg[i].Branch? && ki[i] < Kids(pg[i]) && pg[i + 1] == pg[i].children[ki[i]]
  {
    hide IsPagePath, PageAt;
    assert ki[..i + 1] == ki[..i] + [ki[i]];
    LastStep(t, ki[..i], ki[i]);
    PageBelow(t, ki[..i], ki[i]);
  }

  lemma {:induction false} OrderedOnStack(t: Tree, pg: seq<Tree>, ki: seq<nat>, i: nat) returns (lo: Limit, hi: Limit)
    requires Stacked(t, pg, ki) && Ordered(t, Unbounded, Unbounded) && i < |pg|
    ensures Ordered(pg[i], lo, hi)
  {
    if i == 0 {
      assert ki[..0] == [];
      lo, hi := Unbounded, Unbounded;
    } else {
      var lo', hi' := OrderedOnStack(t, pg, ki, i - 1);
      NextOnStack(t, pg, ki, i - 1);
      hide Ordered, Stacked;
      OrderedChild(pg[i - 1], lo', hi', ki[i - 1]);
      lo, hi := LowOf(pg[i - 1], ki[i - 1], lo'), HighOf(pg[i - 1], ki[i - 1], hi');
    }
  }

  lemma {:induction false} EntryOnStack(t: Tree, pg: seq<Tree>, ki: seq<nat>, i: nat, e: Entry)
    requires Stacked(t, pg, ki) && i < |pg| && e in Flat(pg[|pg| - 1])
    ensures e in Flat(pg[i])
    decreases |pg| - i
  {
    if i + 1 < |pg| {
      EntryOnStack(t, pg, ki, i + 1, e);
      NextOnStack(t, pg, ki, i);
      var k :| 0 <= k < |Flat(pg[i + 1])| && Flat(pg[i + 1])[k] == e;
      FlatAllAt(pg[i].children, ki[i], k);
    }
  }

  /** The separators on the way to a page enclose its entries. */
  lemma EntryWithin(t: Tree, pg: seq<Tree>, ki: seq<nat>, i: nat, e: Entry)
    requires Stacked(t, pg, ki) && Ordered(t, Unbounded, Unbounded) && i + 1 < |pg| && e in Flat(pg[|pg| - 1])
    ensures pg[i].Branch? && |pg[i].keys| == |pg[i].children| && ki[i] < Kids(pg[i])
    ensures ki[i] > 0 ==> pg[i].keys[ki[i]] <= e.key
    ensures ki[i] + 1 < Kids(pg[i]) ==> e.key < pg[i].keys[ki[i] + 1]
  {
    NextOnStack(t, pg, ki, i);
    var lo, hi := OrderedOnStack(t, pg, ki, i);
    EntryOnStack(t, pg, ki, i + 1, e);
    OrderedChild(pg[i], lo, hi, ki[i]);
    assert |pg[i].keys| == |pg[i].children|;
    hide Stacked, Ordered, Flat;
    FlatWithin(pg[i].children[ki[i]], LowOf(pg[i], ki[i], lo), HighOf(pg[i], ki[i], hi), e);
  }

  /** A key not below an entry of the page, and not above one unless nothing is to the right of the page,
      is on the way. */
  lemma WayToHere(t: Tree, pg: seq<Tree>, ki: seq<nat>, key: int, a: Entry, b: Entry)
    requires Stacked(t, pg, ki) && Ordered(t, Unbounded, Unbounded)
    requires a in Flat(pg[|pg| - 1]) && b in Flat(pg[|pg| - 1]) && a.key <= key
    requires key <= b.key || AllLast(pg, ki, |pg| - 1)
    ensures OnWay(pg, ki, key, |pg| - 1)
  {
    hide Stacked, Ordered, Flat;
    forall i | 0 <= i < |pg| - 1
      ensures pg[i].Branch? && |pg[i].keys| == |pg[i].children| && Follows(pg[i], key, ki[i])
    {
      EntryWithin(t, pg, ki, i, a);
      EntryWithin(t, pg, ki, i, b);
    }
  }

  /** A stack is determined by the key whose way it is on. */
  lemma {:induction false} WayUnique(t: Tree, pg: seq<Tree>, ki: seq<nat>, pg': seq<Tree>, ki': seq<nat>, key: int,
                                     n: nat)
    requires Stacked(t, pg, ki) && Stacked(t, pg', ki') && Ordered(t, Unbounded, Unbounded)
    requires n < |pg| && n < |pg'| && OnWay(pg, ki, key, n) && OnWay(pg', ki', key, n)
    ensures pg[..n + 1] == pg'[..n + 1] && ki[..n] == ki'[..n]
  {
    if n == 0 {
      assert ki[..0] == [] == ki'[..0];
      assert pg[..1] == [pg[0]] && pg'[..1] == [pg'[0]];
    } else {
      WayUnique(t, pg, ki, pg', ki', key, n - 1);
      assert pg[n - 1] == pg[..n][n - 1] == pg'[..n][n - 1] == pg'[n - 1];
      var lo, hi := OrderedOnStack(t, pg, ki, n - 1);
      OneFollows(pg[n - 1], lo, hi, key, ki[n - 1], ki'[n - 1]);
      NextOnStack(t, pg, ki, n - 1);
      NextOnStack(t, pg', ki', n - 1);
      hide Stacked, Ordered, OnWay;
      assert pg[..n + 1] == pg[..n] + [pg[n]] && pg'[..n + 1] == pg'[..n] + [pg'[n]];
      assert ki[..n] == ki[..n - 1] + [ki[n - 1]] && ki'[..n] == ki'[..n - 1] + [ki'[n - 1]];
    }
  }

  lemma OneFollows(page: Tree, lo: Limit, hi: Limit, key: int, c: nat, d: nat)
    requires page.Branch? && Ordered(page, lo, hi) && Follows(page, key, c) && Follows(page, key, d)
    ensures c == d
  {
    NextAtMost(page, lo, hi, c, d);
    NextAtMost(page, lo, hi, d, c);
  }

  /** No page on the stack, from the root on, has a page to the right of it. */
  ghost predicate AllLast(pg: seq<Tree>, ki: seq<nat>, n: nat)
    requires n <= |pg| == |ki|
  {
    forall i :: 0 <= i < n ==> ki[i] + 1 >= Kids(pg[i])
  }

  lemma {:induction false} LastPage(t: Tree, depth: nat, pg: seq<Tree>, ki: seq<nat>, n: nat)
    requires Uniform(t, depth) && Stacked(t, pg, ki) && n < |pg| && AllLast(pg, ki, n)
    ensures IsPath(t, ki[..n]) && Right(t, ki[..n]) == None
    decreases n
  {
    hide Uniform, IsPath, IsPagePath, PageAt, Right;
    assert IsPagePath(t, ki[..n]);
    PagePathIsPath(t, ki[..n]);
    if n == 0 {
      assert ki[..0] == [];
      EmptySides(t);
    } else {
      LastPage(t, depth, pg, ki, n - 1);
      assert ki[..n] == ki[..n - 1] + [ki[n - 1]];
      PathSplits(t, ki[..n - 1], ki[n - 1]);
      RightOnPage(t, ki[..n - 1], ki[n - 1]);
    }
  }

  /** The last page ends with the last entry. */
  lemma LastPageEnds(t: Tree, depth: nat, pg: seq<Tree>, ki: seq<nat>, r: nat)
    requires Uniform(t, depth) && Stacked(t, pg, ki) && |ki| == depth + 1
    requires AllLast(pg, ki, depth) && Kids(pg[depth]) > 0
    requires IsPath(t, ki[..depth] + [Kids(pg[depth]) - 1]) && Rank(t, ki[..depth] + [Kids(pg[depth]) - 1]) == r
    ensures r + 1 == |Flat(t)|
  {
    hide Uniform, IsPath, IsPagePath, PageAt, Right, Rank, Flat, Count;
    LastPage(t, depth, pg, ki, depth);
    StackedTop(t, pg, ki);
    var p, k := ki[..depth], Kids(pg[depth]) - 1;
    RightOnPage(t, p, k);
    RightRank(t, depth, p + [k]);
    FlatSize(t, depth);
  }

  lemma OrderedChild(t: Tree, lo: Limit, hi: Limit, c: nat)
    requires t.Branch? && Ordered(t, lo, hi) && c < |t.children|
    ensures c < |t.keys| && Ordered(t.children[c], LowOf(t, c, lo), HighOf(t, c, hi))
  {
  }

  lemma PageRises(t: Tree, page: Tree, r: nat)
    requires PageFrom(t, page, r) && Rising(Flat(t))
    ensures Rising(page.entries) && Searchable(page)
  {
    forall i, j | 0 <= i < j < Kids(page) ensures page.entries[i].key < page.entries[j].key {
      assert Flat(t)[r + i] == page.entries[i] && Flat(t)[r + j] == page.entries[j];
    }
  }

  lemma OnPage(page: Tree, key: int, i: nat, exact: bool)
    requires page.Leaf? && Placed(page, key, i, exact)
    ensures exact <==> Has(page, key)
    ensures exact ==> i < Kids(page) && page.entries[i].key == key
  {
    if exact {
      assert KeyAt(page, i) == Flat(page)[i].key;
    }
    forall k | 0 <= k < Kids(page) ensures !exact ==> Flat(page)[k].key != key {
      assert KeyAt(page, k) == Flat(page)[k].key;
    }
  }

  lemma HasHere(t: Tree, page: Tree, r: nat, i: nat)
    requires PageFrom(t, page, r) && i < Kids(page)
    ensures Has(t, page.entries[i].key)
  {
    assert Flat(t)[r + i] == page.entries[i];
  }

  lemma OnlyPage(t: Tree, depth: nat, pg: seq<Tree>, ki: seq<nat>, r: nat)
    requires Uniform(t, depth) && Stacked(t, pg, ki) && |ki| == 1 == depth + 1 && PageFrom(t, pg[0], r)
    ensures r == 0 && Kids(pg[0]) == |Flat(t)|
  {
    assert ki[..0] == [];
  }

  lemma StackedRoot(t: Tree, k: nat)
    ensures Stacked(t, [t], [k])
  {
    assert [k][..0] == [];
  }

  lemma TopDepth(t: Tree, depth: nat, pg: seq<Tree>, ki: seq<nat>)
    requires Uniform(t, depth) && Stacked(t, pg, ki)
    ensures |ki| <= depth + 1 && Uniform(pg[|pg| - 1], depth + 1 - |ki|)
  {
    hide Uniform;
    PageDepth(t, depth, ki[..|ki| - 1]);
  }

  /** What moving to one side does to the number of the entry. */
  lemma TargetPos(t: Tree, depth: nat, pg: seq<Tree>, ki: seq<nat>, right: bool)
    requires Uniform(t, depth) && Stacked(t, pg, ki) && |ki| == depth + 1 && IsPath(t, ki)
    ensures var target := Target(t, ki, right);
            && (target.Some? ==> |target.value| == |ki| && IsPath(t, target.value))
            && (target.Some? ==> Rank(t, target.value) == if right then Rank(t, ki) + 1 else Rank(t, ki) - 1)
            && (target.None? ==> Rank(t, ki) == if right then |Flat(t)| - 1 else 0)
  {
    hide Uniform, Stacked, IsPath, Right, Left, Rank, Flat, Count;
    FlatSize(t, depth);
    if right { RightRank(t, depth, ki); } else { LeftRank(t, depth, ki); }
  }

  /** The near end of a leaf page is an entry. */
  lemma NearEndEntry(t: Tree, depth: nat, pg: seq<Tree>, ki: seq<nat>, ki0: seq<nat>, right: bool)
    requires Uniform(t, depth) && Stacked(t, pg, ki) && |ki| == depth + 1 && SiblingOf(t, ki0, ki, right, true)
    ensures ki[depth] < Kids(pg[depth]) && (!right ==> ki[depth] == Kids(pg[depth]) - 1)
  {
    hide Uniform, IsPath, Target;
    StackedTop(t, pg, ki);
  }

  lemma SiblingFound(t: Tree, ki0: seq<nat>, q: seq<nat>, k: nat, right: bool, ok: bool)
    requires |ki0| >= 1 && IsPath(t, ki0[..|ki0| - 1])
    requires Target(t, ki0[..|ki0| - 1], right) == if ok then Some(q) else None
    requires ok ==> IsPagePath(t, q) && Kids(PageAt(t, q)) > 0 && k == if right then 0 else Kids(PageAt(t, q)) - 1
    ensures SiblingOf(t, ki0, if ok then q + [k] else q, right, ok)
  {
  }

  /** Two cursors at the same key are in the same state: a short cut ends where a search from the
      root ends. */
  lemma SameKeySameStack(t: Tree, depth: nat, pg: seq<Tree>, ki: seq<nat>, pg': seq<Tree>, ki': seq<nat>)
    requires Uniform(t, depth) && Ordered(t, Unbounded, Unbounded)
    requires Stacked(t, pg, ki) && |ki| == depth + 1 && ki[depth] < Kids(pg[depth]) && pg[depth].Leaf?
    requires Stacked(t, pg', ki') && |ki'| == depth + 1 && ki'[depth] < Kids(pg'[depth]) && pg'[depth].Leaf?
    requires pg[depth].entries[ki[depth]].key == pg'[depth].entries[ki'[depth]].key
    ensures pg == pg' && ki == ki'
  {
    hide Uniform, Stacked, IsPath, Rank, Flat, Ordered;
    FlatRising(t, Unbounded, Unbounded);
    EntryThere(t, depth, pg, ki);
    EntryThere(t, depth, pg', ki');
    RankInjective(t, ki, ki');
    StackUnique(t, pg, pg', ki);
  }

  /** Two cursors where an absent key belongs, both on its way, are in the same state. */
  lemma AbsentKeySameStack(t: Tree, depth: nat, pg: seq<Tree>, ki: seq<nat>, pg': seq<Tree>, ki': seq<nat>, key: int)
    requires Ordered(t, Unbounded, Unbounded)
    requires Stacked(t, pg, ki) && |ki| == depth + 1 && OnWay(pg, ki, key, depth) && IsPath(t, ki[..depth] + [0])
    requires Stacked(t, pg', ki') && |ki'| == depth + 1 && OnWay(pg', ki', key, depth) && IsPath(t, ki'[..depth] + [0])
    requires Gap(Flat(t), Rank(t, ki[..depth] + [0]) + ki[depth], key)
    requires Gap(Flat(t), Rank(t, ki'[..depth] + [0]) + ki'[depth], key)
    ensures pg == pg' && ki == ki'
  {
    hide Stacked, OnWay, Ordered, IsPath, Rank, Flat;
    WayUnique(t, pg, ki, pg', ki', key, depth);
    assert pg == pg[..depth + 1] && pg' == pg'[..depth + 1];
    var r, i, j := Rank(t, ki[..depth] + [0]), ki[depth], ki'[depth];
    assert r + i == r + j by { OneGap(Flat(t), r + i, r + j, key); }
    assert ki == ki[..depth] + [i] && ki' == ki'[..depth] + [j];
  }

  lemma OneGap(s: seq<Entry>, n: nat, m: nat, key: int)
    requires Gap(s, n, key) && Gap(s, m, key)
    ensures n == m
  {
    var i := if n < m then n else m;
    assert i < |s| ==> (s[i].key < key <==> i < n) && (s[i].key < key <==> i < m);
  }
}
