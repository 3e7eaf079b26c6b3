/** mdb_page_split for leaf pages: a full page and a new node are spread over two pages.

The nodes are moved, in order and with the new node among them, first to a scratch page and
then to the right sibling; the scratch page is copied back at the end. The two pages are
proved to hold the old nodes and the new one in order, neither page is empty, the separator
is the first key of the right page. The split fails exactly when the new node fits neither with
the nodes before it nor with those behind it or, if the page has too many nodes for the sizes
to be checked, when the half that takes it overflows.
 */
module LeafSplit {
  import opened Basics
  import opened SlottedPage
  import opened SlottedPageOps

  lemma FillFirst(nodes: seq<Node>, i: nat)
    requires i < |nodes|
    ensures Fill(nodes[..i + 1]) == Fill(nodes[..i]) + Cost(nodes[i])
    ensures Fill(nodes[i..]) == Fill(nodes[i + 1..]) + Cost(nodes[i])
  {
    assert nodes[..i + 1][..i] == nodes[..i];
    assert nodes[i..] == [nodes[i]] + nodes[i + 1..];
    assert [nodes[i]][..0] == [];
    FillJoin([nodes[i]], nodes[i + 1..]);
  }

  /** The new node stays on the left page. */
  predicate GoesLeft(newindx: nat, split: nat, newpos: bool) {
    newindx < split || (newindx == split && !newpos)
  }

  /** The number of nodes on the left page. */
  function Cut(newindx: nat, split: nat, newpos: bool): nat {
    if GoesLeft(newindx, split, newpos) then split + 1 else split
  }

  /** The size of node number i as the search for the split point counts it. */
  method CountNode(mp: Page, i: nat, psize0: nat) returns (psize: nat)
    requires mp.Valid() && i < mp.NumKeys() && psize0 % 2 == 0
    ensures psize == psize0 + Cost(mp.Contents()[i]) && psize % 2 == 0
  {
    hide Page.Valid, Page.Contents;
    var room := mp.RoomOf(i);
    psize := psize0 + room + 2;
  }

  /** The nodes can be divided after the first k of them. */
  ghost predicate FitsAt(all: seq<Node>, k: nat, pmax: nat) {
    k <= |all| && Fill(all[..k]) <= pmax && Fill(all[k..]) <= pmax
  }

  ghost predicate NoCut(all: seq<Node>, pmax: nat) {
    forall k :: 0 <= k <= |all| ==> !FitsAt(all, k, pmax)
  }

  /** The new node fits neither with the nodes before it nor with those behind it. */
  ghost predicate Wedged(nodes: seq<Node>, newindx: nat, node: Node, pmax: nat)
    requires newindx <= |nodes|
  {
    Cost(node) + Fill(nodes[..newindx]) > pmax && Cost(node) + Fill(nodes[newindx..]) > pmax
  }

  /** The sizes of the two parts, for every cut. */
  lemma PartSizes(nodes: seq<Node>, newindx: nat, node: Node, k: nat)
    requires newindx <= |nodes| && k <= |nodes| + 1
    ensures var all := Inserted(nodes, newindx, node);
            && (k <= newindx ==> Fill(all[..k]) == Fill(nodes[..k]) && Fill(all[k..]) == Cost(node) + Fill(nodes[k..]))
            && (k > newindx ==>
                  && Fill(all[..k]) == Cost(node) + Fill(nodes[..k - 1])
                  && Fill(all[k..]) == Fill(nodes[k - 1..]))
  {
    hide Fill, Cost;
    var all := Inserted(nodes, newindx, node);
    if k <= newindx {
      assert all[..k] == nodes[..k];
      assert all[k..] == Inserted(nodes[k..], newindx - k, node);
      FillInserted(nodes[k..], newindx - k, node);
    } else {
      assert all[k..] == nodes[k - 1..];
      assert all[..k] == Inserted(nodes[..k - 1], newindx, node);
      FillInserted(nodes[..k - 1], newindx, node);
    }
  }

  lemma PartOf(nodes: seq<Node>, i: nat, j: nat)
    requires i <= j <= |nodes|
    ensures Fill(nodes[..i]) <= Fill(nodes[..j]) && Fill(nodes[j..]) <= Fill(nodes[i..])
    ensures Fill(nodes[..i]) + Fill(nodes[i..]) == Fill(nodes)
  {
    hide Fill;
    assert nodes[..j] == nodes[..i] + nodes[i..j] && nodes[i..] == nodes[i..j] + nodes[j..];
    FillJoin(nodes[..i], nodes[i..j]);
    FillJoin(nodes[i..j], nodes[j..]);
    assert nodes == nodes[..i] + nodes[i..];
    FillJoin(nodes[..i], nodes[i..]);
  }

  /** The nodes can be divided somewhere unless the new node is wedged in. */
  lemma WedgedIff(nodes: seq<Node>, newindx: nat, node: Node, pmax: nat)
    requires newindx <= |nodes| && Fill(nodes) <= pmax
    ensures NoCut(Inserted(nodes, newindx, node), pmax) <==> Wedged(nodes, newindx, node, pmax)
  {
    var all := Inserted(nodes, newindx, node);
    assert |all| == |nodes| + 1;
    hide Fill, Cost, Inserted, FitsAt, Wedged;
    if Wedged(nodes, newindx, node, pmax) {
      forall k | 0 <= k <= |all| ensures !FitsAt(all, k, pmax) { NoFit(nodes, newindx, node, k, pmax); }
    } else {
      SomeFit(nodes, newindx, node, pmax);
    }
  }

  lemma NoFit(nodes: seq<Node>, newindx: nat, node: Node, k: nat, pmax: nat)
    requires newindx <= |nodes| && k <= |nodes| + 1 && Wedged(nodes, newindx, node, pmax)
    ensures !FitsAt(Inserted(nodes, newindx, node), k, pmax)
  {
    hide Fill, Cost, Inserted;
    PartSizes(nodes, newindx, node, k);
    if k <= newindx { PartOf(nodes, k, newindx); } else { PartOf(nodes, newindx, k - 1); }
  }

  lemma SomeFit(nodes: seq<Node>, newindx: nat, node: Node, pmax: nat)
    requires newindx <= |nodes| && Fill(nodes) <= pmax && !Wedged(nodes, newindx, node, pmax)
    ensures var all := Inserted(nodes, newindx, node); FitsAt(all, newindx, pmax) || FitsAt(all, newindx + 1, pmax)
  {
    hide Fill, Cost, Inserted;
    PartSizes(nodes, newindx, node, newindx);
    PartSizes(nodes, newindx, node, newindx + 1);
    PartOf(nodes, newindx, newindx);
  }

  /** A node of at most half a page, rounded up, is not wedged in. */
  lemma SmallNodeFits(nodes: seq<Node>, newindx: nat, node: Node, pmax: nat)
    requires newindx <= |nodes| && Fill(nodes) <= pmax && pmax % 2 == 0 && 2 * Cost(node) <= pmax + 2
    ensures !Wedged(nodes, newindx, node, pmax)
  {
    hide Fill;
    PartOf(nodes, newindx, newindx);
    FillEven(nodes[..newindx]);
    FillEven(nodes[newindx..]);
    hide Cost;
    EvenSums(Cost(node), Fill(nodes[..newindx]), Fill(nodes[newindx..]), pmax);
  }

  lemma EvenSums(c: nat, l: nat, r: nat, pmax: nat)
    requires l % 2 == 0 && r % 2 == 0 && c % 2 == 0 && pmax % 2 == 0 && l + r <= pmax && 2 * c <= pmax + 2
    ensures !(c + l > pmax && c + r > pmax)
  {
  }

  lemma {:induction false} FillEven(nodes: seq<Node>)
    ensures Fill(nodes) % 2 == 0
  {
    if nodes != [] { FillEven(nodes[..|nodes| - 1]); }
  }

  /** The size check is made for pages with few nodes and for large new nodes. */
  predicate Checked(nkeys: nat, nsize: nat, pmax: nat) {
    nkeys < 20 || nsize > pmax / 16
  }

  /** The new node fits on the left page with the first k nodes, or on the right one with those from
      k on. */
  ghost predicate FitsLeft(nodes: seq<Node>, node: Node, k: int, pmax: nat) {
    0 <= k <= |nodes| && Cost(node) + Fill(nodes[..k]) <= pmax
  }

  ghost predicate FitsRight(nodes: seq<Node>, node: Node, k: int, pmax: nat) {
    0 <= k <= |nodes| && Cost(node) + Fill(nodes[k..]) <= pmax
  }

  /** The number of nodes that go to the left page, the new one among them or not. Without the size
      check the page is split in the middle. With it, the middle is kept if the new node fits with its
      half; if not, the new node takes as many nodes of that half with it as fit, down to its own
      place; and if not even that fits, it goes to the other page. */
  ghost predicate Chosen(nodes: seq<Node>, newindx: nat, node: Node, pmax: nat, cut: nat) {
    var mid := |nodes| / 2;
    if !Checked(|nodes|, Cost(node), pmax) then cut == if newindx < mid then mid + 1 else mid
    else if newindx <= mid then
      if FitsLeft(nodes, node, mid, pmax) then cut == mid + 1
      else if FitsLeft(nodes, node, newindx, pmax) then
        newindx < cut <= mid && FitsLeft(nodes, node, cut - 1, pmax) && !FitsLeft(nodes, node, cut, pmax)
      else cut == newindx
    else
      if FitsRight(nodes, node, mid, pmax) then cut == mid
      else if FitsRight(nodes, node, newindx, pmax) then
        mid < cut <= newindx && FitsRight(nodes, node, cut, pmax) && !FitsRight(nodes, node, cut - 1, pmax)
      else cut == newindx + 1
  }

  /** The choice of the split point. */
  method ChooseSplit(mp: Page, newindx: nat, nsize: nat, pmax: nat, ghost node: Node) returns (split: nat, newpos: bool)
    requires mp.Valid() && newindx <= mp.NumKeys() && nsize == Cost(node)
    requires nsize <= pmax < nsize + Fill(mp.Contents()) && Fill(mp.Contents()) <= pmax
    ensures split <= mp.NumKeys()
    // neither page is left empty
    ensures 1 <= Cut(newindx, split, newpos) <= mp.NumKeys()
    // a checked split point fits if any does
    ensures Checked(mp.NumKeys(), nsize, pmax) ==>
      || FitsAt(Inserted(mp.Contents(), newindx, node), Cut(newindx, split, newpos), pmax)
      || Wedged(mp.Contents(), newindx, node, pmax)
    ensures !Checked(mp.NumKeys(), nsize, pmax) ==> split == mp.NumKeys() / 2 && newpos == (split <= newindx)
    ensures Chosen(mp.Contents(), newindx, node, pmax, Cut(newindx, split, newpos))
  {
    hide Page.Valid, Page.Contents, Fill, Cost, FitsAt, Wedged, FitsLeft, FitsRight;
    var nkeys := mp.NumKeys();
    if nkeys == 0 { NothingToFill(mp.Contents()); }
    split, newpos := nkeys / 2, nkeys / 2 <= newindx;
    if nkeys < 20 || nsize > pmax / 16 {
      if newindx <= split {
        split, newpos := FromLeft(mp, newindx, nsize, pmax, node);
      } else {
        split, newpos := FromRight(mp, newindx, nsize, pmax, node);
      }
    }
  }

  lemma NothingToFill(nodes: seq<Node>)
    ensures nodes == [] ==> Fill(nodes) == 0
  {
  }

  /** The new node is on the left half: how far does the left page reach? */
  method FromLeft(mp: Page, newindx: nat, nsize: nat, pmax: nat, ghost node: Node) returns (split: nat, newpos: bool)
    requires mp.Valid() && mp.NumKeys() > 0 && newindx <= mp.NumKeys() / 2 && nsize == Cost(node)
    requires nsize <= pmax && Fill(mp.Contents()) <= pmax
    ensures split <= mp.NumKeys() / 2 && 1 <= Cut(newindx, split, newpos) <= mp.NumKeys()
    ensures || FitsAt(Inserted(mp.Contents(), newindx, node), Cut(newindx, split, newpos), pmax)
            || Wedged(mp.Contents(), newindx, node, pmax)
    ensures Checked(mp.NumKeys(), nsize, pmax) ==>
      Chosen(mp.Contents(), newindx, node, pmax, Cut(newindx, split, newpos))
  {
    hide Page.Valid, Page.Contents, Fill, FitsAt, Wedged, Inserted, Checked;
    ghost var nodes := mp.Contents();
    split, newpos := mp.NumKeys() / 2, false;
    var psize, i := nsize, 0;
    NothingToFill(nodes[..0]);
    while i < split
      invariant 0 <= i <= split == |nodes| / 2 && !newpos
      invariant psize % 2 == 0 && psize == nsize + Fill(nodes[..i]) <= pmax
    {
      psize := CountNode(mp, i, psize);
      FillFirst(nodes, i);
      if psize > pmax {
        if i <= newindx {
          split := newindx;
          if i < newindx { newpos := true; }
        } else {
          split := i;
        }
        StopsLeft(nodes, newindx, node, i, pmax);
        if i + 1 <= newindx { PartOf(nodes, i + 1, newindx); } else { PartOf(nodes, newindx, i); }
        PartOf(nodes, i + 1, |nodes| / 2);
        return;
      }
      i := i + 1;
    }
    LeftFits(nodes, newindx, node, split, pmax);
  }

  /** The new node with the first i nodes fits, and so do the rest. */
  lemma LeftFits(nodes: seq<Node>, newindx: nat, node: Node, i: nat, pmax: nat)
    requires newindx <= i <= |nodes| && Fill(nodes) <= pmax && Cost(node) + Fill(nodes[..i]) <= pmax
    ensures FitsAt(Inserted(nodes, newindx, node), i + 1, pmax)
  {
    hide Fill, Cost;
    PartSizes(nodes, newindx, node, i + 1);
    PartOf(nodes, i, i);
  }

  lemma StopsLeft(nodes: seq<Node>, newindx: nat, node: Node, i: nat, pmax: nat)
    requires newindx <= |nodes| && i < |nodes| && Fill(nodes) <= pmax
    requires Cost(node) + Fill(nodes[..i]) <= pmax < Cost(node) + Fill(nodes[..i + 1])
    ensures i < newindx ==> FitsAt(Inserted(nodes, newindx, node), newindx, pmax) || Wedged(nodes, newindx, node, pmax)
    ensures i >= newindx ==> FitsAt(Inserted(nodes, newindx, node), i + 1, pmax)
  {
    hide Fill, Cost;
    if i < newindx {
      PartSizes(nodes, newindx, node, newindx);
      PartOf(nodes, i + 1, newindx);
      PartOf(nodes, newindx, newindx);
    } else {
      LeftFits(nodes, newindx, node, i, pmax);
    }
  }

  /** The new node is on the right half: how far does the right page reach? */
  method FromRight(mp: Page, newindx: nat, nsize: nat, pmax: nat, ghost node: Node) returns (split: nat, newpos: bool)
    requires mp.Valid() && mp.NumKeys() / 2 < newindx <= mp.NumKeys() && nsize == Cost(node)
    requires nsize <= pmax < nsize + Fill(mp.Contents()) && Fill(mp.Contents()) <= pmax
    ensures split <= mp.NumKeys() && 1 <= Cut(newindx, split, newpos) <= mp.NumKeys()
    ensures || FitsAt(Inserted(mp.Contents(), newindx, node), Cut(newindx, split, newpos), pmax)
            || Wedged(mp.Contents(), newindx, node, pmax)
    ensures Checked(mp.NumKeys(), nsize, pmax) ==>
      Chosen(mp.Contents(), newindx, node, pmax, Cut(newindx, split, newpos))
  {
    hide Page.Valid, Page.Contents, Fill, FitsAt, Wedged, Inserted, Checked;
    ghost var nodes := mp.Contents();
    split, newpos := mp.NumKeys() / 2, true;
    var psize, i := nsize, mp.NumKeys();   // i is one more than the index in the source
    NothingToFill(nodes[i..]);
    assert nodes[0..] == nodes;
    while i > split
      invariant split == |nodes| / 2 <= i <= |nodes| && newpos
      invariant psize % 2 == 0 && psize == nsize + Fill(nodes[i..]) <= pmax
    {
      i := i - 1;
      psize := CountNode(mp, i, psize);
      FillFirst(nodes, i);
      if psize > pmax {
        if i >= newindx {
          split, newpos := newindx, false;
        } else {
          split := i + 1;
        }
        StopsRight(nodes, newindx, node, i, pmax);
        if newindx <= i { PartOf(nodes, newindx, i); } else { PartOf(nodes, i + 1, newindx); }
        PartOf(nodes, |nodes| / 2, i);
        return;
      }
    }
    RightFits(nodes, newindx, node, split, pmax);
  }

  /** The new node with the nodes from i on fits, and so do the others. */
  lemma RightFits(nodes: seq<Node>, newindx: nat, node: Node, i: nat, pmax: nat)
    requires i <= newindx <= |nodes| && Fill(nodes) <= pmax && Cost(node) + Fill(nodes[i..]) <= pmax
    ensures FitsAt(Inserted(nodes, newindx, node), i, pmax)
  {
    hide Fill, Cost;
    PartSizes(nodes, newindx, node, i);
    PartOf(nodes, i, i);
  }

  lemma StopsRight(nodes: seq<Node>, newindx: nat, node: Node, i: nat, pmax: nat)
    requires newindx <= |nodes| && i < |nodes| && Fill(nodes) <= pmax
    requires Cost(node) + Fill(nodes[i + 1..]) <= pmax < Cost(node) + Fill(nodes[i..])
    ensures i >= newindx ==>
      FitsAt(Inserted(nodes, newindx, node), newindx + 1, pmax) || Wedged(nodes, newindx, node, pmax)
    ensures i < newindx ==> FitsAt(Inserted(nodes, newindx, node), i + 1, pmax)
  {
    hide Fill, Cost;
    if i >= newindx {
      PartSizes(nodes, newindx, node, newindx + 1);
      PartOf(nodes, newindx, i);
      PartOf(nodes, newindx, newindx);
    } else {
      RightFits(nodes, newindx, node, i + 1, pmax);
    }
  }

  /** A page that has no slack: what the nodes do not take is free. Additions and deletions keep it
      so (Page.Perform). */
  ghost predicate Compact(p: Page, pmax: nat)
    requires p.Valid()
    reads p, p.mem
  {
    p.upper - p.lower + Fill(p.Contents()) == pmax
  }

  /** A node is put behind the others. */
  method AddLast(p: Page, j: nat, node: Node, ghost pmax: nat) returns (full: bool)
    requires p.Valid() && Compact(p, pmax) && j == p.NumKeys() && Fits(node, p.leaf)
    modifies p`lower, p`upper, p.mem
    ensures p.Valid() && Compact(p, pmax)
    ensures full <==> Fill(old(p.Contents()) + [node]) > pmax
    ensures p.Contents() == if full then old(p.Contents()) else old(p.Contents()) + [node]
    ensures !full ==> Ptr(p.mem[..], j) == p.upper
    ensures full ==> p.mem[..] == old(p.mem[..]) && p.upper == old(p.upper)
  {
    hide Page.Valid, Page.Contents, Ptr, Inserted, Fill;
    ghost var s := p.Contents();
    FillMore(s, node);
    AtEnd(s, node);
    full := p.Add(j, node);
  }

  lemma AtEnd(s: seq<Node>, node: Node)
    ensures Inserted(s, |s|, node) == s + [node]
  {
  }

  lemma FillMore(s: seq<Node>, node: Node)
    ensures Fill(s + [node]) == Fill(s) + Cost(node)
  {
    assert (s + [node])[..|s|] == s;
  }

  lemma FillPart(s: seq<Node>, a: nat, b: nat, c: nat)
    requires a <= b <= c <= |s|
    ensures Fill(s[a..b]) <= Fill(s[a..c])
  {
    assert s[a..c] == s[a..b] + s[b..c];
    FillJoin(s[a..b], s[b..c]);
  }

  /** The t nodes moved so far are on their pages. */
  ghost predicate Moved(all: seq<Node>, cut: nat, t: nat, l: seq<Node>, r: seq<Node>) {
    && t <= |all| && cut <= |all|
    && (if t <= cut then l == all[..t] && r == [] else l == all[..cut] && r == all[cut..t])
  }

  /** The next node goes to the left page up to the cut, and to the right page from there on. */
  lemma MovedOne(all: seq<Node>, cut: nat, t: nat, l: seq<Node>, r: seq<Node>)
    requires Moved(all, cut, t, l, r) && t < |all|
    ensures t < cut ==> |l| == t && Moved(all, cut, t + 1, l + [all[t]], r) && l + [all[t]] == all[0..t + 1]
    ensures t >= cut ==> |l| == cut && |r| == t - cut
    ensures t >= cut ==> Moved(all, cut, t + 1, l, r + [all[t]]) && r + [all[t]] == all[cut..t + 1]
  {
  }

  lemma PicksNext(nodes: seq<Node>, newindx: nat, new_: Node, i: nat, ins: bool)
    requires newindx <= |nodes| && i <= |nodes| && (if ins then i >= newindx else i <= newindx)
    ensures i == newindx && !ins ==> Inserted(nodes, newindx, new_)[i] == new_
    ensures i < |nodes| && !(i == newindx && !ins) ==>
              Inserted(nodes, newindx, new_)[if ins then i + 1 else i] == nodes[i]
  {
  }

  /** The node added last is the lowest one. */
  ghost predicate LastIsLowest(p: Page)
    requires p.Valid()
    reads p, p.mem
  {
    p.NumKeys() > 0 ==> Ptr(p.mem[..], p.NumKeys() - 1) == p.upper
  }

  /** The two pages after t nodes have been moved. */
  ghost predicate Moving(left: Page, right: Page, all: seq<Node>, cut: nat, t: nat, pmax: nat)
    reads left, left.mem, right, right.mem
  {
    && left != right && left.mem != right.mem && left.leaf && right.leaf
    && left.Valid() && right.Valid() && Compact(left, pmax) && Compact(right, pmax)
    && Moved(all, cut, t, left.Contents(), right.Contents()) && LastIsLowest(left)
  }

  /** The next node is put on the left page. */
  method PutLeft(left: Page, right: Page, next: Node,
                 ghost all: seq<Node>, ghost cut: nat, j: nat, ghost pmax: nat) returns (full: bool)
    requires Moving(left, right, all, cut, j, pmax) && j < cut <= |all| && next == all[j] && Fits(next, true)
    modifies left`lower, left`upper, left.mem
    ensures left.Valid() && right.Valid() && LastIsLowest(left)
    ensures !full ==> Moving(left, right, all, cut, j + 1, pmax)
    ensures full ==> Fill(all[..cut]) > pmax || Fill(all[cut..]) > pmax
    ensures full ==> left.NumKeys() == j && (j == 0 ==> Cost(all[0]) > pmax)
  {
    hide Page.Valid, Page.Contents, Ptr, Fill, Cost;
    ghost var l, r := left.Contents(), right.Contents();
    MovedOne(all, cut, j, l, r);
    FillOne(all[0]);
    full := AddLast(left, j, next, pmax);
    if full { DoesNotFit(all, cut, j, pmax); }
  }

  /** The next node is put on the right page. */
  method PutRight(left: Page, right: Page, next: Node,
                  ghost all: seq<Node>, ghost cut: nat, j: nat, ghost pmax: nat) returns (full: bool)
    requires Moving(left, right, all, cut, cut + j, pmax) && cut + j < |all| && next == all[cut + j] && Fits(next, true)
    modifies right`lower, right`upper, right.mem
    ensures left.Valid() && right.Valid() && LastIsLowest(left) && left.NumKeys() == cut
    ensures !full ==> Moving(left, right, all, cut, cut + j + 1, pmax)
    ensures full ==> Fill(all[..cut]) > pmax || Fill(all[cut..]) > pmax
  {
    hide Page.Valid, Page.Contents, Ptr, Fill, Cost;
    ghost var l, r := left.Contents(), right.Contents();
    MovedOne(all, cut, cut + j, l, r);
    full := AddLast(right, j, next, pmax);
    if full { DoesNotFit(all, cut, cut + j, pmax); }
  }

  /** The next node is put on the page at hand. */
  method Put(left: Page, right: Page, onRight: bool, next: Node,
             ghost all: seq<Node>, ghost cut: nat, ghost t: nat, j: nat, ghost pmax: nat) returns (full: bool)
    requires Moving(left, right, all, cut, t, pmax) && t < |all| && 1 <= cut <= |all|
    requires next == all[t] && Fits(next, true)
    requires (onRight <==> t >= cut) && j == if onRight then t - cut else t
    modifies left`lower, left`upper, left.mem, right`lower, right`upper, right.mem
    ensures left.Valid() && right.Valid() && LastIsLowest(left)
    ensures !full ==> Moving(left, right, all, cut, t + 1, pmax)
    ensures full ==> Fill(all[..cut]) > pmax || Fill(all[cut..]) > pmax
    ensures full && Cost(all[0]) <= pmax ==> left.NumKeys() > 0
  {
    hide Page.Valid, Page.Contents, Ptr, Fill, Cost, Moving, LastIsLowest;
    if onRight {
      full := PutRight(left, right, next, all, cut, j, pmax);
    } else {
      full := PutLeft(left, right, next, all, cut, j, pmax);
    }
  }

  /** The place of node number i, or of the new node, in the sequence of all nodes. */
  function Place(i: nat, ins: bool): nat {
    if ins then i + 1 else i
  }

  /** The test for changing to the right page succeeds at the cut and nowhere else. */
  lemma SwitchesAtCut(split: nat, newindx: nat, newpos: bool, i: nat, ins: bool)
    requires if ins then i >= newindx else i <= newindx
    ensures i == split && (i != newindx || newpos != ins) <==> Place(i, ins) == Cut(newindx, split, newpos)
  {
  }

  /** The next node to be moved: the new one at its index, otherwise the next one of the page. */
  method NextNode(mp: Page, i: nat, ins: bool, newindx: nat, node: Node)
    returns (next: Node, i': nat, ins': bool)
    requires mp.Valid() && mp.leaf && Fits(node, true) && newindx <= mp.NumKeys()
    requires i <= mp.NumKeys() && (if ins then newindx <= i < mp.NumKeys() else i <= newindx)
    ensures i' <= mp.NumKeys() && (if ins' then i' >= newindx else i' <= newindx)
    ensures Place(i', ins') == Place(i, ins) + 1 && (ins' <==> Place(i', ins') > newindx)
    ensures next == Inserted(mp.Contents(), newindx, node)[Place(i, ins)] && Fits(next, true)
  {
    hide Page.Valid, Page.Contents, Inserted;
    PicksNext(mp.Contents(), newindx, node, i, ins);
    if i == newindx && !ins {
      next, i', ins' := node, i, true;
    } else {
      next := mp.Fetch(i);
      i', ins' := i + 1, ins;
    }
  }

  /** The loop that moves the nodes. `ki` is the index of the new node on its page. */
  method MoveNodes(mp: Page, left: Page, right: Page, split: nat, newindx: nat, newpos: bool, node: Node,
                   ghost all: seq<Node>, ghost cut: nat, ghost pmax: nat)
    returns (full: bool, ki: nat)
    requires mp.Valid() && mp.leaf && Fits(node, true)
    requires mp != left && mp != right && mp.mem != left.mem && mp.mem != right.mem
    requires newindx <= mp.NumKeys() && split <= mp.NumKeys() && all == Inserted(mp.Contents(), newindx, node)
    requires cut == Cut(newindx, split, newpos) && 1 <= cut < |all| && Moving(left, right, all, cut, 0, pmax)
    modifies left`lower, left`upper, left.mem, right`lower, right`upper, right.mem
    ensures left.Valid() && right.Valid() && LastIsLowest(left)
    ensures full ==> Fill(all[..cut]) > pmax || Fill(all[cut..]) > pmax
    ensures !full ==> Moving(left, right, all, cut, |all|, pmax)
    ensures !full ==> ki == if newindx < cut then newindx else newindx - cut
    ensures Cost(all[0]) <= pmax ==> left.NumKeys() > 0
  {
    hide Page.Valid, Page.Contents, Ptr, Fill, Cost, Inserted, Moving, Cut, LastIsLowest;
    var nkeys := mp.NumKeys();
    var i: nat, j: nat, ins, onRight := 0, 0, false, false;
    ki := 0;
    while !(ins && i == nkeys)
      invariant Moving(left, right, all, cut, Place(i, ins), pmax)
      invariant i <= nkeys && (if ins then i >= newindx else i <= newindx)
      invariant onRight <==> Place(i, ins) > cut
      invariant j == if onRight then Place(i, ins) - cut else Place(i, ins)
      invariant ins ==> ki == if newindx < cut then newindx else newindx - cut
      decreases |all| - Place(i, ins)
    {
      ghost var t := Place(i, ins);
      SwitchesAtCut(split, newindx, newpos, i, ins);
      if i == split && (i != newindx || newpos != ins) {
        j := 0;
        onRight := true;
      }
      var was := ins;
      var next;
      next, i, ins := NextNode(mp, i, ins, newindx, node);
      if ins && !was { ki := j; }
      HasMoved(left, right, all, cut, t, pmax);
      full := Put(left, right, onRight, next, all, cut, t, j, pmax);
      if full { return; }
      j := j + 1;
    }
    HasMoved(left, right, all, cut, Place(i, ins), pmax);
    full := false;
  }

  lemma HasMoved(left: Page, right: Page, all: seq<Node>, cut: nat, t: nat, pmax: nat)
    requires Moving(left, right, all, cut, t, pmax)
    ensures left.Valid() && right.Valid() && LastIsLowest(left) && left.NumKeys() == if t <= cut then t else cut
  {
  }

  lemma DoesNotFit(all: seq<Node>, cut: nat, t: nat, pmax: nat)
    requires cut <= |all| && t < |all|
    requires Fill(if t < cut then all[0..t + 1] else all[cut..t + 1]) > pmax
    ensures Fill(all[..cut]) > pmax || Fill(all[cut..]) > pmax
  {
    if t < cut {
      FillPart(all, 0, t + 1, cut);
      assert all[0..cut] == all[..cut];
    } else {
      FillPart(all, cut, t + 1, |all|);
      assert all[cut..|all|] == all[cut..];
    }
  }

  /** Every node of a page fits an empty page. */
  lemma NodeFits(p: Page, i: nat)
    requires p.Valid() && i < p.NumKeys()
    ensures Cost(p.Contents()[i]) <= p.mem.Length - PAGEHDRSZ
  {
    hide Ptr, ReadNode, RawSize, InBounds, Good, NodesOf;
    GoodAt(p.mem[..], p.leaf, p.upper, Ptrs(p.mem[..], p.NumKeys()), i);
  }

  /** The separator chosen before the move is the first key behind the cut. */
  lemma SeparatorIsFirst(nodes: seq<Node>, newindx: nat, node: Node, split: nat, newpos: bool)
    requires newindx <= |nodes| && split <= |nodes| && Cut(newindx, split, newpos) <= |nodes|
    ensures newindx == split && newpos ==> Inserted(nodes, newindx, node)[Cut(newindx, split, newpos)] == node
    ensures !(newindx == split && newpos) ==>
              split < |nodes| && Inserted(nodes, newindx, node)[Cut(newindx, split, newpos)] == nodes[split]
  {
  }

  /** The separating key between the two pages. */
  method Separator(mp: Page, newindx: nat, node: Node, split: nat, newpos: bool) returns (sepkey: seq<byte>)
    requires mp.Valid() && newindx <= mp.NumKeys() && split <= mp.NumKeys()
    requires Cut(newindx, split, newpos) <= mp.NumKeys()
    ensures sepkey == Inserted(mp.Contents(), newindx, node)[Cut(newindx, split, newpos)].key
  {
    hide Page.Valid, Page.Contents, Inserted, Cut;
    SeparatorIsFirst(mp.Contents(), newindx, node, split, newpos);
    if newindx == split && newpos {
      sepkey := node.key;
    } else {
      var first := mp.Fetch(split);
      sepkey := first.key;
    }
  }

  /** Both pages are ready for the move. */
  lemma Starts(left: Page, right: Page, all: seq<Node>, cut: nat, pmax: nat)
    requires left != right && left.mem != right.mem && left.leaf && right.leaf && cut <= |all|
    requires left.Valid() && right.Valid() && left.Contents() == [] == right.Contents()
    requires left.upper - left.lower == pmax == right.upper - right.lower
    ensures Moving(left, right, all, cut, 0, pmax)
  {
    hide Page.Valid, Page.Contents, Ptr;
  }

  lemma Finished(left: Page, right: Page, all: seq<Node>, cut: nat, pmax: nat)
    requires Moving(left, right, all, cut, |all|, pmax) && cut < |all|
    ensures left.Valid() && right.Valid() && left.Contents() == all[..cut] && right.Contents() == all[cut..]
    ensures Fill(all[..cut]) <= pmax && Fill(all[cut..]) <= pmax
  {
    hide Page.Valid, Page.Contents, Ptr, Fill;
  }

  /** The half of the page that takes the new node when the page is split in the middle. */
  function HalfFor(nodes: seq<Node>, newindx: nat): seq<Node> {
    if newindx < |nodes| / 2 then nodes[..|nodes| / 2] else nodes[|nodes| / 2..]
  }

  /** When a split reports a full page: after the size check, if the new node is wedged in; without
      it, if the half that takes the node overflows. */
  ghost predicate SplitFails(nodes: seq<Node>, newindx: nat, node: Node, pmax: nat)
    requires newindx <= |nodes|
  {
    if Checked(|nodes|, Cost(node), pmax) then Wedged(nodes, newindx, node, pmax)
    else Cost(node) + Fill(HalfFor(nodes, newindx)) > pmax
  }

  /** The outcome of the move, from the choice of the split point. */
  lemma FailsIff(nodes: seq<Node>, newindx: nat, node: Node, split: nat, newpos: bool, pmax: nat)
    requires newindx <= |nodes| && split <= |nodes| && Fill(nodes) <= pmax && Cut(newindx, split, newpos) <= |nodes|
    requires Checked(|nodes|, Cost(node), pmax) ==>
      || FitsAt(Inserted(nodes, newindx, node), Cut(newindx, split, newpos), pmax)
      || Wedged(nodes, newindx, node, pmax)
    requires !Checked(|nodes|, Cost(node), pmax) ==> split == |nodes| / 2 && newpos == (split <= newindx)
    ensures SplitFails(nodes, newindx, node, pmax) <==>
      !FitsAt(Inserted(nodes, newindx, node), Cut(newindx, split, newpos), pmax)
  {
    hide Fill, Cost, Wedged, Inserted, FitsAt, HalfFor, Checked;
    var cut := Cut(newindx, split, newpos);
    if Checked(|nodes|, Cost(node), pmax) {
      if Wedged(nodes, newindx, node, pmax) { NoFit(nodes, newindx, node, cut, pmax); }
    } else {
      HalfIff(nodes, newindx, node, pmax);
    }
  }

  lemma HalfIff(nodes: seq<Node>, newindx: nat, node: Node, pmax: nat)
    requires newindx <= |nodes| && Fill(nodes) <= pmax
    ensures var mid := |nodes| / 2;
            Cost(node) + Fill(HalfFor(nodes, newindx)) <= pmax <==>
            FitsAt(Inserted(nodes, newindx, node), if newindx < mid then mid + 1 else mid, pmax)
  {
    hide Fill, Cost, Inserted;
    var mid := |nodes| / 2;
    PartSizes(nodes, newindx, node, if newindx < mid then mid + 1 else mid);
    PartOf(nodes, mid, mid);
  }

  /** mdb_page_split for a leaf page `mp`, which has no room for the new node, and its new right
      sibling `rp`. */
  method SplitLeaf(mp: Page, rp: Page, newindx: nat, node: Node)
    returns (full: bool, sepkey: seq<byte>, ki: nat, cut: nat)
    requires mp.Valid() && mp.leaf && newindx <= mp.NumKeys() && Fits(node, true)
    requires rp.Valid() && rp.leaf && rp.Contents() == [] && rp != mp && rp.mem != mp.mem
    requires rp.mem.Length == mp.mem.Length && rp.upper - rp.lower == mp.mem.Length - PAGEHDRSZ
    requires Compact(mp, mp.mem.Length - PAGEHDRSZ)
    requires mp.upper - mp.lower < Cost(node) <= mp.mem.Length - PAGEHDRSZ
    modifies mp`lower, mp`upper, mp.mem, rp`lower, rp`upper, rp.mem
    ensures mp.Valid() && rp.Valid() && 1 <= cut <= |old(mp.Contents())|
    ensures Chosen(old(mp.Contents()), newindx, node, mp.mem.Length - PAGEHDRSZ, cut)
    ensures full <==> SplitFails(old(mp.Contents()), newindx, node, mp.mem.Length - PAGEHDRSZ)
    ensures !full ==> mp.Contents() + rp.Contents() == Inserted(old(mp.Contents()), newindx, node)
    ensures !full ==> |mp.Contents()| == cut && rp.Contents() != [] && sepkey == rp.Contents()[0].key
    ensures !full ==> if newindx < cut then ki == newindx else ki == newindx - cut
  {
    hide Page.Valid, Page.Contents, Ptr, Fill, Cost, Inserted, Cut, SplitFails, Checked, Wedged, Chosen;
    var pmax := mp.mem.Length - PAGEHDRSZ;
    ghost var nodes := mp.Contents();
    ghost var all := Inserted(nodes, newindx, node);
    var split, newpos := ChooseSplit(mp, newindx, Cost(node), pmax, node);
    cut := Cut(newindx, split, newpos);
    FailsIff(nodes, newindx, node, split, newpos, pmax);
    sepkey := Separator(mp, newindx, node, split, newpos);
    full, ki := Divide(mp, rp, split, newindx, newpos, node, all, cut);
    assert all[..cut] + all[cut..] == all;
  }

  /** The nodes go to a scratch page and to `rp`, and the scratch page is copied back. */
  method Divide(mp: Page, rp: Page, split: nat, newindx: nat, newpos: bool, node: Node,
                ghost all: seq<Node>, ghost cut: nat)
    returns (full: bool, ki: nat)
    requires mp.Valid() && mp.leaf && newindx <= mp.NumKeys() && split <= mp.NumKeys() && Fits(node, true)
    requires rp.Valid() && rp.leaf && rp.Contents() == [] && rp != mp && rp.mem != mp.mem
    requires rp.mem.Length == mp.mem.Length && rp.upper - rp.lower == mp.mem.Length - PAGEHDRSZ
    requires Cost(node) <= mp.mem.Length - PAGEHDRSZ && all == Inserted(mp.Contents(), newindx, node)
    requires cut == Cut(newindx, split, newpos) && 1 <= cut < |all|
    modifies mp`lower, mp`upper, mp.mem, rp`lower, rp`upper, rp.mem
    ensures mp.Valid() && rp.Valid()
    ensures full <==> !FitsAt(all, cut, mp.mem.Length - PAGEHDRSZ)
    ensures !full ==> mp.Contents() == all[..cut] && rp.Contents() == all[cut..]
    ensures !full ==> ki == if newindx < cut then newindx else newindx - cut
  {
    hide Page.Valid, Page.Contents, Ptr, Fill, Cost, Inserted, Moving, Cut;
    ghost var pmax := mp.mem.Length - PAGEHDRSZ;
    if mp.NumKeys() > 0 {
      NodeFits(mp, 0);
      FirstFits(mp.Contents(), newindx, node, pmax);
    }
    var copy := new Page(mp.mem.Length, true);
    Starts(copy, rp, all, cut, pmax);
    full, ki := MoveNodes(mp, copy, rp, split, newindx, newpos, node, all, cut, pmax);
    mp.CopyFrom(copy);
    if !full { Finished(copy, rp, all, cut, pmax); }
  }

  lemma FirstFits(nodes: seq<Node>, newindx: nat, node: Node, pmax: nat)
    requires newindx <= |nodes| && nodes != [] && Cost(node) <= pmax && Cost(nodes[0]) <= pmax
    ensures Cost(Inserted(nodes, newindx, node)[0]) <= pmax
  {
  }

  /** A node of this size with a key of one byte. */
  function Sized(n: nat): (r: Node)
    requires 9 <= n < 0x1_0000
    ensures SizeOf(r) == n && Fits(r, true)
  {
    Node(n - 9, 0, 0, [0], seq(n - 9, _ => 0))
  }

  lemma {:induction false} FillOfEqual(n: nat, node: Node)
    ensures Fill(seq(n, _ => node)) == n * Cost(node)
  {
    if n > 0 {
      FillOfEqual(n - 1, node);
      assert seq(n, _ => node)[..n - 1] == seq(n - 1, _ => node);
    }
  }

  /** A checked split that fails, on pages of 4096 bytes. Two nodes of 2038 bytes fill the page, and a
      node of 2039 bytes is small enough not to go to an overflow page. Between the two it fits
      with neither. */
  lemma NoRoomBetween()
    ensures var nodes, node := [Sized(2038), Sized(2038)], Sized(2039);
            && Fill(nodes) == 4080 && SizeOf(node) < 4080 / 2 && Checked(2, Cost(node), 4080)
            && Wedged(nodes, 1, node, 4080) && SplitFails(nodes, 1, node, 4080)
  {
    var a := Sized(2038);
    FillOne(a);
    FillJoin([a], [a]);
    assert [a] + [a] == [a, a] && [a, a][..1] == [a] && [a, a][1..] == [a];
  }

  /** A split without the size check that fails although there is a cut that fits: ten nodes of 394
      bytes, ten of 10 bytes, and a new node of 128 bytes in front of them. */
  lemma HalfOverflows()
    ensures var nodes, node := seq(10, _ => Sized(394)) + seq(10, _ => Sized(10)), Sized(128);
            && Fill(nodes) == 4080 && !Checked(|nodes|, Cost(node), 4080)
            && SplitFails(nodes, 0, node, 4080) && !NoCut(Inserted(nodes, 0, node), 4080)
  {
    var a, b, node := seq(10, _ => Sized(394)), seq(10, _ => Sized(10)), Sized(128);
    FillOfEqual(10, Sized(394));
    FillOfEqual(10, Sized(10));
    hide Fill, Inserted;
    FillJoin(a, b);
    assert (a + b)[..10] == a && (a + b)[..0] == [];
    FillOne(node);
    WedgedIff(a + b, 0, node, 4080);
  }
}
