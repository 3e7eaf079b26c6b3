/** mdb_node_add and mdb_node_del on the bytes of a page. */
module SlottedPageOps {
  import opened Basics
  import opened SlottedPage

  /** Pointers depend on the bytes before them only. */
  lemma PtrsSame(m: seq<byte>, m': seq<byte>, n: nat)
    requires PAGEHDRSZ + 2 * n <= |m| == |m'|
    requires forall k :: 0 <= k < PAGEHDRSZ + 2 * n ==> m'[k] == m[k]
    ensures Ptrs(m', n) == Ptrs(m, n)
  {
  }

  class Page {
    const leaf: bool
    const mem: array<byte>
    var lower: nat
    var upper: nat

    function NumKeys(): nat
      requires lower >= PAGEHDRSZ
      reads this
    {
      (lower - PAGEHDRSZ) / 2
    }

    ghost predicate Valid()
      reads this, mem
      ensures Valid() ==> PAGEHDRSZ <= lower <= upper <= mem.Length <= 0x8000 && lower % 2 == 0
    {
      && PAGEHDRSZ <= mem.Length <= 0x8000
      && PAGEHDRSZ <= lower && lower % 2 == 0
      && Layout(mem[..], leaf, NumKeys(), upper)
    }

    /** The nodes that the bytes of the page say it has. */
    ghost function Contents(): (r: seq<Node>)
      requires Valid()
      reads this, mem
      ensures |r| == NumKeys()
    {
      Nodes(mem[..], leaf, NumKeys(), upper)
    }

    /** mdb_page_new: an empty page. */
    constructor (psize: nat, leaf: bool)
      requires PAGEHDRSZ <= psize <= 0x8000
      ensures Valid() && Contents() == [] && fresh(mem) && mem.Length == psize && this.leaf == leaf
      ensures lower == PAGEHDRSZ && upper == psize
    {
      this.leaf := leaf;
      mem := new byte[psize];
      lower := PAGEHDRSZ;
      upper := psize;
    }

    method StorePtr(i: nat, v: nat)
      requires PAGEHDRSZ + 2 * i + 2 <= mem.Length && v < 0x1_0000
      modifies mem
      ensures mem[..] == SetPtr(old(mem[..]), i, v)
    {
      mem[PAGEHDRSZ + 2 * i] := v % 0x100;
      mem[PAGEHDRSZ + 2 * i + 1] := v / 0x100;
    }

    method LoadPtr(i: nat) returns (v: nat)
      requires PAGEHDRSZ + 2 * i + 2 <= mem.Length
      ensures v == Ptr(mem[..], i)
    {
      var lo, hi := mem[PAGEHDRSZ + 2 * i], mem[PAGEHDRSZ + 2 * i + 1];
      v := (lo as int) + 0x100 * (hi as int);
    }

    /** Pointers from `indx` on move up one slot; the slot gets `ofs`. */
    method InsertPtr(n: nat, indx: nat, ofs: nat)
      requires indx <= n && PAGEHDRSZ + 2 * n + 2 <= mem.Length && ofs < 0x1_0000
      modifies mem
      ensures Ptrs(mem[..], n + 1) == Inserted<nat>(old(Ptrs(mem[..], n)), indx, ofs)
      ensures mem[PAGEHDRSZ + 2 * n + 2..] == old(mem[PAGEHDRSZ + 2 * n + 2..])
    {
      hide Ptr, SetPtr, Inserted;
      ghost var m := mem[..];
      var i := n;
      while i > indx
        invariant indx <= i <= n
        invariant forall k :: 0 <= k <= i && k < n ==> Ptr(mem[..], k) == Ptr(m, k)
        invariant forall k, j :: i < k <= n && j == k - 1 ==> Ptr(mem[..], k) == Ptr(m, j)
        invariant Tail(mem[..], n) == Tail(m, n)
      {
        var v := LoadPtr(i - 1);
        ghost var before := mem[..];
        StorePtr(i, v);
        PtrStored(before, i, v, n + 1);
        i := i - 1;
      }
      ghost var before := mem[..];
      StorePtr(indx, ofs);
      PtrStored(before, indx, ofs, n + 1);
      forall k | 0 <= k <= n ensures Ptrs(mem[..], n + 1)[k] == Inserted<nat>(Ptrs(m, n), indx, ofs)[k] {
        InsertedAt<nat>(Ptrs(m, n), indx, ofs, k);
      }
    }

    /** The bytes of the node are stored at `at`. */
    method WriteNode(at: nat, node: Node)
      requires node.lo < 0x1_0000 && node.hi < 0x1_0000 && node.flags < 0x1_0000 && |node.key| < 0x1_0000
      requires at + SizeOf(node) <= mem.Length
      modifies mem
      ensures mem[at..at + SizeOf(node)] == Encoded(node)
      ensures forall k :: 0 <= k < mem.Length && !(at <= k < at + SizeOf(node)) ==> mem[k] == old(mem[k])
    {
      ghost var m := mem[..];
      var h := Header(node);
      forall k | 0 <= k < NODESIZE { mem[at + k] := h[k]; }
      forall k | 0 <= k < |node.key| { mem[at + NODESIZE + k] := node.key[k]; }
      var p := at + NODESIZE + |node.key|;
      forall k | 0 <= k < |node.payload| { mem[p + k] := node.payload[k]; }
      EncodedParts(node);
      hide Encoded, Header;
      assert mem[at..at + NODESIZE] == h;
      assert mem[at + NODESIZE..p] == node.key;
      assert mem[p..p + |node.payload|] == node.payload;
      assert mem[at..at + SizeOf(node)] == mem[at..at + NODESIZE] + mem[at + NODESIZE..p] + mem[p..p + |node.payload|];
    }

    /** The node is stored at `ofs`, and its pointer goes in at `indx`. */
    method Link(indx: nat, ofs: nat, node: Node)
      requires PAGEHDRSZ <= lower && lower % 2 == 0 && indx <= NumKeys() && lower + 2 <= ofs < 0x1_0000
      requires ofs + SizeOf(node) <= upper <= mem.Length && Fits(node, leaf)
      modifies this`lower, this`upper, mem
      ensures lower == old(lower) + 2 && upper == ofs
      ensures Ptrs(mem[..], NumKeys()) == Inserted<nat>(old(Ptrs(mem[..], NumKeys())), indx, ofs)
      ensures mem[ofs..ofs + SizeOf(node)] == Encoded(node) && mem[old(upper)..] == old(mem[upper..])
    {
      hide Inserted, Ptr, Encoded;
      ghost var m, u, n := mem[..], upper, NumKeys();
      InsertPtr(NumKeys(), indx, ofs);
      ghost var m2 := mem[..];
      upper := ofs;
      lower := lower + 2;
      WriteNode(ofs, node);
      PtrsSame(m2, mem[..], n + 1);
      SameTail(m, m2, PAGEHDRSZ + 2 * n + 2, mem[..], u);
    }

    /** mdb_node_add, once the node to be stored is known. */
    method Add(indx: nat, node: Node) returns (full: bool)
      requires Valid() && indx <= NumKeys() && Fits(node, leaf)
      modifies this`lower, this`upper, mem
      ensures Valid()
      ensures full <==> Even(SizeOf(node)) + 2 > old(upper) - old(lower)
      ensures full ==> mem[..] == old(mem[..]) && lower == old(lower) && upper == old(upper)
      ensures full ==> Contents() == old(Contents())
      ensures !full ==> lower == old(lower) + 2 && upper == old(upper) - Even(SizeOf(node))
      ensures !full ==> Contents() == Inserted(old(Contents()), indx, node) && Ptr(mem[..], indx) == upper
    {
      hide Good, NodesOf, Inserted, Ptr, Encoded;
      var size := Even(SizeOf(node));
      if size + 2 > upper - lower {
        return true;
      }
      ghost var m, u, n := mem[..], upper, NumKeys();
      var ofs := upper - size;
      Link(indx, ofs, node);
      Added(m, mem[..], leaf, u, Ptrs(m, n), indx, node, ofs);
      InsertedAt<nat>(Ptrs(m, n), indx, ofs, indx);
      assert Ptrs(mem[..], n + 1)[indx] == ofs;
      full := false;
    }

    /** mdb_node_add for a leaf page. `ovpgno` is the number of the overflow page, if one is needed. */
    method AddLeaf(indx: nat, key: seq<byte>, data: seq<byte>, size: nat, flags: nat, nodemax: nat, ovpgno: seq<byte>)
      returns (full: bool)
      requires Valid() && leaf && indx <= NumKeys()
      requires |key| < 0x1_0000 && size < 0x1_0000_0000 && flags < 0x1_0000 && |ovpgno| == 8
      requires |data| == if flags % 2 == F_BIGDATA then 8 else size
      modifies this`lower, this`upper, mem
      ensures Valid()
      ensures var over := Overflows(key, size, flags, nodemax);
              var payload := if over || flags % 2 == F_BIGDATA then 8 else size;
              full <==> Even(NODESIZE + |key| + payload) + 2 > old(upper - lower)
      ensures full ==> Contents() == old(Contents())
      ensures !full ==>
        var over := Overflows(key, size, flags, nodemax);
        exists node ::
          && Contents() == Inserted(old(Contents()), indx, node) && Fits(node, true)
          && node.key == key && node.lo + 0x1_0000 * node.hi == size
          && node.flags == (if over then flags + 1 else flags)
          && node.payload == (if over then ovpgno else data)
    {
      hide Page.Valid, Page.Contents, Inserted;
      full := Add(indx, LeafNode(key, data, size, flags, nodemax, ovpgno));
    }

    /** mdb_node_add for a branch page. */
    method AddBranch(indx: nat, key: seq<byte>, pgno: nat) returns (full: bool)
      requires Valid() && !leaf && indx <= NumKeys() && |key| < 0x1_0000
      modifies this`lower, this`upper, mem
      ensures Valid() && (full <==> Even(NODESIZE + |key|) + 2 > old(upper - lower))
      ensures full ==> Contents() == old(Contents())
      ensures !full ==>
        exists node ::
          && Contents() == Inserted(old(Contents()), indx, node) && Fits(node, false)
          && node.key == key && PgnoOf(node) == pgno % 0x1_0000_0000_0000
    {
      hide Page.Valid, Page.Contents, Inserted;
      BranchPgno(key, pgno);
      full := Add(indx, BranchNode(key, pgno));
    }

    /** Pointers to nodes below `ptr` grow by `sz`, and pointer number `indx` is dropped. */
    method DropPtr(n: nat, indx: nat, ptr: nat, sz: nat)
      requires indx < n && PAGEHDRSZ + 2 * n <= mem.Length && ptr == Ptr(mem[..], indx) && ptr + sz < 0x1_0000
      modifies mem
      ensures Ptrs(mem[..], n - 1) == Closed(old(Ptrs(mem[..], n)), indx, sz)
      ensures mem[PAGEHDRSZ + 2 * n..] == old(mem[PAGEHDRSZ + 2 * n..])
    {
      hide Ptr, SetPtr, Closed;
      ghost var m := mem[..];
      ghost var r := Closed(Ptrs(m, n), indx, sz);
      var i, j := 0, 0;
      while i < n
        invariant 0 <= i <= n && j == if i <= indx then i else i - 1
        invariant forall k :: 0 <= k < j ==> Ptr(mem[..], k) == r[k]
        invariant forall k :: i <= k < n ==> Ptr(mem[..], k) == Ptr(m, k)
        invariant Tail(mem[..], n - 1) == Tail(m, n - 1)
      {
        if i != indx {
          var v := LoadPtr(i);
          if v < ptr { v := v + sz; }
          assert v == r[j];
          ghost var before := mem[..];
          StorePtr(j, v);
          PtrStored(before, j, v, n);
          j := j + 1;
        }
        i := i + 1;
      }
    }

    /** The bytes from `from` up to `ptr` move up by `sz`. */
    method MoveNodesUp(from: nat, ptr: nat, sz: nat)
      requires from <= ptr && ptr + sz <= mem.Length
      modifies mem
      ensures mem[from + sz..ptr + sz] == old(mem[from..ptr]) && mem[ptr + sz..] == old(mem[ptr + sz..])
      ensures forall k :: 0 <= k < from + sz ==> mem[k] == old(mem[k])
    {
      forall k | from <= k < ptr { mem[k + sz] := mem[k]; }
    }

    /** mdb_node_del, on the bytes: the node at `ptr` takes `sz` bytes. */
    method Unlink(indx: nat, ptr: nat, sz: nat)
      requires PAGEHDRSZ + 2 * indx + 2 <= lower <= upper <= ptr && ptr + sz <= mem.Length <= 0x8000
      requires lower % 2 == 0 && ptr == Ptr(mem[..], indx)
      modifies this`lower, this`upper, mem
      ensures lower == old(lower) - 2 && upper == old(upper) + sz
      ensures Ptrs(mem[..], NumKeys()) == Closed(old(Ptrs(mem[..], NumKeys())), indx, sz)
      ensures mem[upper..ptr + sz] == old(mem[upper..ptr]) && mem[ptr + sz..] == old(mem[ptr + sz..])
    {
      hide Closed, Ptr;
      ghost var m, n := mem[..], NumKeys();
      DropPtr(NumKeys(), indx, ptr, sz);
      ghost var m2 := mem[..];
      MovedBytes(m, m2, PAGEHDRSZ + 2 * n, upper, ptr, sz);
      MoveNodesUp(upper, ptr, sz);
      lower := lower - 2;
      upper := upper + sz;
      PtrsSame(m2, mem[..], n - 1);
    }

    /** mdb_node_del. */
    method Delete(indx: nat)
      requires Valid() && indx < NumKeys()
      modifies this`lower, this`upper, mem
      ensures Valid() && Contents() == Removed(old(Contents()), indx)
      ensures lower == old(lower) - 2 && upper == old(upper) + Even(SizeOf(old(Contents())[indx]))
    {
      hide Good, NodesOf, Closed, Ptr, ReadNode, RawSize, InBounds, Room, Removed;
      ghost var m, u, n := mem[..], upper, NumKeys();
      GoodAt(m, leaf, u, Ptrs(m, n), indx);
      var ptr := LoadPtr(indx);
      var sz := NodeRoom(ptr);
      Unlink(indx, ptr, sz);
      Deleted(m, mem[..], leaf, u, Ptrs(m, n), indx, sz);
    }

    /** Any sequence of changes, up to the first node that does not fit. */
    method Perform(es: seq<Edit>) returns (done: nat)
      requires Valid() && AllApplicable(Contents(), es, leaf)
      modifies this`lower, this`upper, mem
      ensures Valid() && done <= |es| && AllApplicable(old(Contents()), es[..done], leaf)
      ensures Contents() == EditedAll(old(Contents()), es[..done], leaf)
      ensures done < |es| ==> es[done].AddAt? && Cost(es[done].node) > upper - lower
      // free space and nodes add up to the same
      ensures upper - lower + Fill(Contents()) == old(upper - lower + Fill(Contents()))
      decreases |es|
    {
      hide Page.Valid, Page.Contents, Inserted, Removed, Fill;
      done := 0;
      assert es[..0] == [];
      if es == [] { return; }
      ghost var s := Contents();
      var full := false;
      match es[0] {
        case AddAt(indx, node) =>
          FillInserted(s, indx, node);
          full := Add(indx, node);
        case DeleteAt(indx) =>
          FillRemoved(s, indx);
          Delete(indx);
      }
      if full { return; }
      var k := Perform(es[1..]);
      EditedFirst(s, es, k, leaf);
      assert k < |es| - 1 ==> es[k + 1] == es[1..][k];
      done := k + 1;
    }

    method CopyPtrs(copy: Page, n: nat)
      requires copy.mem != mem && copy.mem.Length == mem.Length && PAGEHDRSZ + 2 * n <= mem.Length
      modifies mem
      ensures Ptrs(mem[..], n) == Ptrs(copy.mem[..], n)
    {
      hide Ptr, SetPtr;
      var i := 0;
      while i < n
        invariant 0 <= i <= n
        invariant forall k :: 0 <= k < i ==> Ptr(mem[..], k) == Ptr(copy.mem[..], k)
      {
        var v := copy.LoadPtr(i);
        ghost var before := mem[..];
        StorePtr(i, v);
        PtrStored(before, i, v, n);
        i := i + 1;
      }
    }

    /** Pointers, bounds and the bytes from the last pointer on. */
    method CopyBytes(copy: Page, n: nat)
      requires copy.mem != mem && copy.mem.Length == mem.Length && n > 0
      requires PAGEHDRSZ + 2 * n <= copy.upper <= mem.Length && Ptr(copy.mem[..], n - 1) == copy.upper
      modifies this`lower, this`upper, mem
      ensures lower == copy.lower && upper == copy.upper
      ensures Ptrs(mem[..], n) == Ptrs(copy.mem[..], n) && mem[..][upper..] == copy.mem[..][upper..]
    {
      hide Ptr;
      CopyPtrs(copy, n);
      ghost var m := mem[..];
      lower := copy.lower;
      upper := copy.upper;
      var from := copy.LoadPtr(n - 1);
      CopyTail(copy, from);
      PtrsSame(m, mem[..], n);
    }

    /** The nodes of `copy`, whose lowest node is the last one, are copied here. */
    method CopyFrom(copy: Page)
      requires copy.Valid() && copy.NumKeys() > 0 && Ptr(copy.mem[..], copy.NumKeys() - 1) == copy.upper
      requires copy != this && copy.mem != mem && copy.mem.Length == mem.Length && copy.leaf == leaf
      modifies this`lower, this`upper, mem
      ensures Valid() && Contents() == copy.Contents()
    {
      hide Ptr, Layout, Nodes;
      ghost var c, n := copy.mem[..], copy.NumKeys();
      CopyBytes(copy, copy.NumKeys());
      assert copy.mem[..] == c;
      SameLayout(c, mem[..], leaf, n, upper);
    }

    method CopyTail(copy: Page, from: nat)
      requires copy.mem != mem && from <= mem.Length == copy.mem.Length
      modifies mem
      ensures mem[..][from..] == copy.mem[..][from..]
      ensures forall k :: 0 <= k < from ==> mem[..][k] == old(mem[..][k])
    {
      forall k | from <= k < mem.Length { mem[k] := copy.mem[k]; }
    }

    /** Node number i, read from the bytes. */
    method Fetch(i: nat) returns (node: Node)
      requires Valid() && i < NumKeys()
      ensures node == Contents()[i] && Fits(node, leaf)
    {
      hide Good, NodesOf, Ptr, RawSize;
      GoodAt(mem[..], leaf, upper, Ptrs(mem[..], NumKeys()), i);
      var ptr := LoadPtr(i);
      node := ReadNode(mem[..], ptr, leaf);
    }

    /** The room of node number i. */
    method RoomOf(i: nat) returns (sz: nat)
      requires Valid() && i < NumKeys()
      ensures sz == Even(SizeOf(Contents()[i]))
    {
      hide Good, NodesOf, Ptr, RawSize, ReadNode, InBounds, Room;
      GoodAt(mem[..], leaf, upper, Ptrs(mem[..], NumKeys()), i);
      var ptr := LoadPtr(i);
      sz := NodeRoom(ptr);
    }

    /** The room of the node at `at`, from its header. */
    method NodeRoom(at: nat) returns (sz: nat)
      requires InBounds(mem[..], at, leaf)
      ensures sz == Room(mem[..], at, leaf)
    {
      sz := NODESIZE + U16(mem[..], at + 6);
      if leaf {
        if U16(mem[..], at + 4) % 2 == F_BIGDATA {
          sz := sz + 8;
        } else {
          sz := sz + U16(mem[..], at) + 0x1_0000 * U16(mem[..], at + 2);
        }
      }
      sz := sz + sz % 2;
    }
  }

  lemma SameLayout(m: seq<byte>, m': seq<byte>, leaf: bool, n: nat, upper: nat)
    requires |m'| == |m| && Layout(m, leaf, n, upper) && Ptrs(m', n) == Ptrs(m, n) && m'[upper..] == m[upper..]
    ensures Layout(m', leaf, n, upper) && Nodes(m', leaf, n, upper) == Nodes(m, leaf, n, upper)
  {
    hide Ptr, ReadNode, RawSize, InBounds, Room;
    var ps := Ptrs(m, n);
    forall i | 0 <= i < n ensures SameNode(m, ps[i], m', ps[i], leaf) && Inside(m', leaf, upper, ps[i]) {
      assert Inside(m, leaf, upper, ps[i]);
      Untouched(m, m', upper, ps[i], leaf);
    }
    forall i, j | 0 <= i < j < n ensures Apart(m', leaf, ps[i], ps[j]) {
      assert Apart(m, leaf, ps[i], ps[j]);
    }
  }

  ghost function Tail(m: seq<byte>, n: nat): seq<byte>
    requires PAGEHDRSZ + 2 * n + 2 <= |m|
  {
    m[PAGEHDRSZ + 2 * n + 2..]
  }

  lemma TailKept(m: seq<byte>, i: nat, v: nat, n: nat)
    requires i <= n && PAGEHDRSZ + 2 * n + 2 <= |m| && v < 0x1_0000
    ensures Tail(SetPtr(m, i, v), n) == Tail(m, n)
  {
  }

  lemma PtrStored(m: seq<byte>, i: nat, v: nat, n: nat)
    requires i < n && PAGEHDRSZ + 2 * n <= |m| && v < 0x1_0000
    ensures forall k :: 0 <= k < n ==> Ptr(SetPtr(m, i, v), k) == if k == i then v else Ptr(m, k)
    ensures Tail(SetPtr(m, i, v), n - 1) == Tail(m, n - 1)
  {
    hide Ptr, SetPtr;
    forall k | 0 <= k < n ensures Ptr(SetPtr(m, i, v), k) == if k == i then v else Ptr(m, k) {
      SetPtrReads(m, i, v, k);
    }
    TailKept(m, i, v, n - 1);
  }

  function Header(node: Node): (r: seq<byte>)
    requires node.lo < 0x1_0000 && node.hi < 0x1_0000 && node.flags < 0x1_0000 && |node.key| < 0x1_0000
    ensures |r| == NODESIZE
  {
    [node.lo % 0x100, node.lo / 0x100, node.hi % 0x100, node.hi / 0x100,
     node.flags % 0x100, node.flags / 0x100, |node.key| % 0x100, |node.key| / 0x100]
  }

  lemma EncodedParts(node: Node)
    requires node.lo < 0x1_0000 && node.hi < 0x1_0000 && node.flags < 0x1_0000 && |node.key| < 0x1_0000
    ensures Encoded(node) == Header(node) + node.key + node.payload
  {
  }

  lemma SameTail(m: seq<byte>, m2: seq<byte>, a: nat, m3: seq<byte>, u: nat)
    requires |m| == |m2| == |m3| && a <= u <= |m| && m2[a..] == m[a..]
    requires forall k :: u <= k < |m| ==> m3[k] == m2[k]
    ensures m3[u..] == m[u..]
  {
    forall k | u <= k < |m| ensures m3[k] == m[k] { assert m2[a..][k - a] == m[a..][k - a]; }
  }

  lemma GoodAt(m: seq<byte>, leaf: bool, upper: nat, ps: seq<nat>, i: nat)
    requires Good(m, leaf, upper, ps) && i < |ps|
    ensures Inside(m, leaf, upper, ps[i])
    ensures Room(m, ps[i], leaf) == Even(SizeOf(NodesOf(m, leaf, upper, ps)[i]))
    ensures NodesOf(m, leaf, upper, ps)[i] == ReadNode(m, ps[i], leaf) && Fits(ReadNode(m, ps[i], leaf), leaf)
  {
  }

  lemma MovedBytes(m: seq<byte>, m2: seq<byte>, a: nat, u: nat, ptr: nat, sz: nat)
    requires |m| == |m2| && a <= u <= ptr <= ptr + sz <= |m| && m2[a..] == m[a..]
    ensures m2[u..ptr] == m[u..ptr] && m2[ptr + sz..] == m[ptr + sz..]
  {
    forall k | a <= k < |m| ensures m2[k] == m[k] { assert m2[a..][k - a] == m[a..][k - a]; }
  }
}
