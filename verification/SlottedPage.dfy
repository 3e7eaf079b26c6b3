/** Slotted pages: pointers grow up from the page header, nodes grow down from the page end.

The whole page is one array of bytes. A node is whatever the bytes at its pointer say: eight
bytes of header, the key, and for leaf pages the data or the number of its overflow page.
`Layout` says that the node regions lie apart from each other between `upper` and the end of
the page, and that the pointers end before `upper`. Adding and deleting nodes is proved
to insert into and remove from the sequence of nodes read off the bytes.
 */
module SlottedPage {
  import opened Basics
  import opened DivMod

  const PAGEHDRSZ := 16
  const NODESIZE := 8
  const F_BIGDATA := 1

  /** A node as its fields are stored; `lo` and `hi` are the data size or part of a page number. */
  datatype Node = Node(lo: nat, hi: nat, flags: nat, key: seq<byte>, payload: seq<byte>)

  function U16(m: seq<byte>, at: nat): (r: nat)
    requires at + 2 <= |m|
    ensures r < 0x1_0000
  {
    (m[at] as int) + 0x100 * (m[at + 1] as int)
  }

  /** Pointer number i of the page. */
  function Ptr(m: seq<byte>, i: nat): (r: nat)
    requires PAGEHDRSZ + 2 * i + 2 <= |m|
    ensures r < 0x1_0000
  {
    U16(m, PAGEHDRSZ + 2 * i)
  }

  /** The number of bytes after the key. */
  function PayloadSize(leaf: bool, lo: nat, hi: nat, flags: nat): nat {
    if !leaf then 0 else if flags % 2 == F_BIGDATA then 8 else lo + 0x1_0000 * hi
  }

  function RawSize(m: seq<byte>, at: nat, leaf: bool): (r: nat)
    requires at + NODESIZE <= |m|
    ensures r >= NODESIZE
  {
    NODESIZE + U16(m, at + 6) + PayloadSize(leaf, U16(m, at), U16(m, at + 2), U16(m, at + 4))
  }

  function Even(n: nat): (r: nat)
    ensures n <= r <= n + 1 && r % 2 == 0
  {
    n + n % 2
  }

  predicate InBounds(m: seq<byte>, at: nat, leaf: bool) {
    at + NODESIZE <= |m| && at + Even(RawSize(m, at, leaf)) <= |m|
  }

  /** The room taken by the node at `at`. */
  function Room(m: seq<byte>, at: nat, leaf: bool): (r: nat)
    requires InBounds(m, at, leaf)
    ensures r >= NODESIZE && at + r <= |m|
  {
    Even(RawSize(m, at, leaf))
  }

  function ReadNode(m: seq<byte>, at: nat, leaf: bool): Node
    requires InBounds(m, at, leaf)
  {
    var ksize, size := U16(m, at + 6), RawSize(m, at, leaf);
    Node(U16(m, at), U16(m, at + 2), U16(m, at + 4), m[at + NODESIZE..at + NODESIZE + ksize],
         m[at + NODESIZE + ksize..at + size])
  }

  /** The first n pointers of the page. */
  function Ptrs(m: seq<byte>, n: nat): (r: seq<nat>)
    requires PAGEHDRSZ + 2 * n <= |m|
    ensures |r| == n && forall i :: 0 <= i < n ==> r[i] == Ptr(m, i)
  {
    seq(n, i requires 0 <= i < n => Ptr(m, i))
  }

  ghost predicate Inside(m: seq<byte>, leaf: bool, upper: nat, p: nat) {
    upper <= p && InBounds(m, p, leaf)
  }

  ghost predicate Apart(m: seq<byte>, leaf: bool, p: nat, q: nat) {
    InBounds(m, p, leaf) && InBounds(m, q, leaf) && (p + Room(m, p, leaf) <= q || q + Room(m, q, leaf) <= p)
  }

  /** The pointers lead to nodes between `upper` and the end of the page, apart from each other. */
  ghost predicate Good(m: seq<byte>, leaf: bool, upper: nat, ps: seq<nat>) {
    && (forall i :: 0 <= i < |ps| ==> Inside(m, leaf, upper, ps[i]))
    && (forall i, j :: 0 <= i < j < |ps| ==> Apart(m, leaf, ps[i], ps[j]))
  }

  ghost function NodesOf(m: seq<byte>, leaf: bool, upper: nat, ps: seq<nat>): (r: seq<Node>)
    requires Good(m, leaf, upper, ps)
    ensures |r| == |ps| && forall i :: 0 <= i < |ps| ==> InBounds(m, ps[i], leaf) && r[i] == ReadNode(m, ps[i], leaf)
  {
    seq(|ps|, i requires 0 <= i < |ps| => ReadNode(m, ps[i], leaf))
  }

  /** A page of n nodes: the pointers end before `upper`. */
  ghost predicate Layout(m: seq<byte>, leaf: bool, n: nat, upper: nat) {
    PAGEHDRSZ + 2 * n <= upper <= |m| && Good(m, leaf, upper, Ptrs(m, n))
  }

  ghost function Nodes(m: seq<byte>, leaf: bool, n: nat, upper: nat): (r: seq<Node>)
    requires Layout(m, leaf, n, upper)
    ensures |r| == n
  {
    NodesOf(m, leaf, upper, Ptrs(m, n))
  }

  lemma SubSlice(m: seq<byte>, a: nat, b: nat, x: nat, y: nat)
    requires a <= b <= |m| && x <= y <= b - a
    ensures m[a..b][x..y] == m[a + x..a + y]
  {
    var s := m[a..b];
    forall k | 0 <= k < y - x ensures s[x..y][k] == m[a + x..a + y][k] { }
  }

  lemma SameSlice(m: seq<byte>, at: nat, b: seq<byte>, x: nat, y: nat)
    requires at + |b| <= |m| && m[at..at + |b|] == b && x <= y <= |b|
    ensures m[at + x..at + y] == b[x..y]
  {
    SubSlice(m, at, at + |b|, x, y);
  }

  lemma SameU16(m: seq<byte>, at: nat, b: seq<byte>, x: nat)
    requires at + |b| <= |m| && m[at..at + |b|] == b && x + 2 <= |b|
    ensures U16(m, at + x) == U16(b, x)
  {
    assert m[at + x] == m[at..at + |b|][x] && m[at + x + 1] == m[at..at + |b|][x + 1];
  }

  /** A node depends on its own bytes only. */
  lemma OwnBytes(m: seq<byte>, at: nat, b: seq<byte>, leaf: bool)
    requires at + |b| <= |m| && m[at..at + |b|] == b && NODESIZE <= |b|
    ensures RawSize(m, at, leaf) == RawSize(b, 0, leaf)
    ensures InBounds(b, 0, leaf) ==>
      && InBounds(m, at, leaf)
      && Room(m, at, leaf) == Room(b, 0, leaf)
      && ReadNode(m, at, leaf) == ReadNode(b, 0, leaf)
  {
    hide U16;
    SameU16(m, at, b, 0);
    SameU16(m, at, b, 2);
    SameU16(m, at, b, 4);
    SameU16(m, at, b, 6);
    if InBounds(b, 0, leaf) {
      var ks, sz := U16(b, 6), RawSize(b, 0, leaf);
      SameSlice(m, at, b, NODESIZE, NODESIZE + ks);
      SameSlice(m, at, b, NODESIZE + ks, sz);
    }
  }

  /** Equal bytes are read as equal nodes, wherever they are. */
  lemma SameBytes(m: seq<byte>, at: nat, m': seq<byte>, at': nat, leaf: bool)
    requires InBounds(m, at, leaf) && at' + Room(m, at, leaf) <= |m'|
    requires m'[at'..at' + Room(m, at, leaf)] == m[at..at + Room(m, at, leaf)]
    ensures InBounds(m', at', leaf) && Room(m', at', leaf) == Room(m, at, leaf)
    ensures ReadNode(m', at', leaf) == ReadNode(m, at, leaf)
  {
    hide ReadNode, RawSize;
    var b := m[at..at + Room(m, at, leaf)];
    OwnBytes(m, at, b, leaf);
    OwnBytes(m', at', b, leaf);
  }

  /** The fields of a node fit their widths and agree with the kind of page. */
  predicate Fits(node: Node, leaf: bool) {
    && node.lo < 0x1_0000 && node.hi < 0x1_0000 && node.flags < 0x1_0000 && |node.key| < 0x1_0000
    && |node.payload| == PayloadSize(leaf, node.lo, node.hi, node.flags)
  }

  function SizeOf(node: Node): (r: nat)
    ensures r >= NODESIZE
  {
    NODESIZE + |node.key| + |node.payload|
  }

  /** The bytes of a node. */
  function Encoded(node: Node): (r: seq<byte>)
    requires node.lo < 0x1_0000 && node.hi < 0x1_0000 && node.flags < 0x1_0000 && |node.key| < 0x1_0000
    ensures |r| == SizeOf(node)
  {
    [node.lo % 0x100, node.lo / 0x100, node.hi % 0x100, node.hi / 0x100,
     node.flags % 0x100, node.flags / 0x100, |node.key| % 0x100, |node.key| / 0x100] + node.key + node.payload
  }

  lemma HalfWords(v: nat)
    requires v < 0x1_0000
    ensures v % 0x100 + 0x100 * (v / 0x100) == v
  {
  }

  lemma EncodedHeader(node: Node)
    requires node.lo < 0x1_0000 && node.hi < 0x1_0000 && node.flags < 0x1_0000 && |node.key| < 0x1_0000
    ensures var e := Encoded(node);
            && U16(e, 0) == node.lo && U16(e, 2) == node.hi && U16(e, 4) == node.flags && U16(e, 6) == |node.key|
            && e[NODESIZE..NODESIZE + |node.key|] == node.key && e[NODESIZE + |node.key|..] == node.payload
  {
    HalfWords(node.lo);
    HalfWords(node.hi);
    HalfWords(node.flags);
    HalfWords(|node.key|);
  }

  /** Reading a node that was written gives the node. */
  lemma ReadWritten(m: seq<byte>, at: nat, node: Node, leaf: bool)
    requires Fits(node, leaf) && at + Even(SizeOf(node)) <= |m|
    requires m[at..at + SizeOf(node)] == Encoded(node)
    ensures InBounds(m, at, leaf) && Room(m, at, leaf) == Even(SizeOf(node)) && ReadNode(m, at, leaf) == node
  {
    hide U16, Encoded;
    var e, sz, ks := Encoded(node), SizeOf(node), |node.key|;
    EncodedHeader(node);
    SameU16(m, at, e, 0);
    SameU16(m, at, e, 2);
    SameU16(m, at, e, 4);
    SameU16(m, at, e, 6);
    SameSlice(m, at, e, NODESIZE, NODESIZE + ks);
    SameSlice(m, at, e, NODESIZE + ks, sz);
  }

  function Inserted<T>(s: seq<T>, i: nat, x: T): (r: seq<T>)
    requires i <= |s|
    ensures |r| == |s| + 1
  {
    s[..i] + [x] + s[i..]
  }

  lemma InsertedAt<T>(s: seq<T>, i: nat, x: T, k: nat)
    requires i <= |s| && k <= |s|
    ensures Inserted(s, i, x)[k] == if k < i then s[k] else if k == i then x else s[k - 1]
  {
  }

  function Removed<T>(s: seq<T>, i: nat): (r: seq<T>)
    requires i < |s|
    ensures |r| == |s| - 1
  {
    s[..i] + s[i + 1..]
  }

  /** The bytes with pointer number i set to v. */
  function SetPtr(m: seq<byte>, i: nat, v: nat): (r: seq<byte>)
    requires PAGEHDRSZ + 2 * i + 2 <= |m| && v < 0x1_0000
    ensures |r| == |m|
  {
    m[PAGEHDRSZ + 2 * i := v % 0x100][PAGEHDRSZ + 2 * i + 1 := v / 0x100]
  }

  lemma SetPtrReads(m: seq<byte>, i: nat, v: nat, j: nat)
    requires PAGEHDRSZ + 2 * i + 2 <= |m| && v < 0x1_0000 && PAGEHDRSZ + 2 * j + 2 <= |m|
    ensures Ptr(SetPtr(m, i, v), j) == if i == j then v else Ptr(m, j)
  {
    HalfWords(v);
  }

  /** The node at p is found unchanged at p'. */
  ghost predicate SameNode(m: seq<byte>, p: nat, m': seq<byte>, p': nat, leaf: bool) {
    && InBounds(m, p, leaf) && InBounds(m', p', leaf)
    && Room(m', p', leaf) == Room(m, p, leaf) && ReadNode(m', p', leaf) == ReadNode(m, p, leaf)
  }

  /** A node behind `from` is not changed if the bytes behind `from` are not. */
  lemma Untouched(m: seq<byte>, m': seq<byte>, from: nat, at: nat, leaf: bool)
    requires |m'| == |m| && from <= at && InBounds(m, at, leaf) && from <= |m| && m'[from..] == m[from..]
    ensures SameNode(m, at, m', at, leaf)
  {
    hide ReadNode, RawSize;
    var r := Room(m, at, leaf);
    SubSlice(m', from, |m'|, at - from, at - from + r);
    SubSlice(m, from, |m|, at - from, at - from + r);
    SameBytes(m, at, m', at, leaf);
  }

  /** A new node was stored below `upper`; its pointer goes in at `indx`. */
  lemma Added(m: seq<byte>, m': seq<byte>, leaf: bool, upper: nat, ps: seq<nat>, indx: nat, node: Node, ofs: nat)
    requires Good(m, leaf, upper, ps) && indx <= |ps| && Fits(node, leaf) && |m'| == |m|
    requires ofs + Even(SizeOf(node)) == upper <= |m| && m'[upper..] == m[upper..]
    requires m'[ofs..ofs + SizeOf(node)] == Encoded(node)
    ensures Good(m', leaf, ofs, Inserted<nat>(ps, indx, ofs))
    ensures NodesOf(m', leaf, ofs, Inserted<nat>(ps, indx, ofs)) == Inserted(NodesOf(m, leaf, upper, ps), indx, node)
  {
    hide ReadNode, RawSize, InBounds, Room, Encoded, Inserted;
    ReadWritten(m', ofs, node, leaf);
    forall i | 0 <= i < |ps| ensures SameNode(m, ps[i], m', ps[i], leaf) && ps[i] >= upper {
      Untouched(m, m', upper, ps[i], leaf);
    }
    var ps' := Inserted<nat>(ps, indx, ofs);
    forall i | 0 <= i < |ps'| ensures Inside(m', leaf, ofs, ps'[i]) { InsertedAt<nat>(ps, indx, ofs, i); }
    forall i, j | 0 <= i < j < |ps'| ensures Apart(m', leaf, ps'[i], ps'[j]) {
      InsertedAt<nat>(ps, indx, ofs, i);
      InsertedAt<nat>(ps, indx, ofs, j);
      if i != indx && j != indx {
        assert Apart(m, leaf, ps[if i < indx then i else i - 1], ps[if j < indx then j else j - 1]);
      }
    }
    var a, b := NodesOf(m', leaf, ofs, ps'), Inserted(NodesOf(m, leaf, upper, ps), indx, node);
    forall i | 0 <= i < |ps'| ensures a[i] == b[i] {
      InsertedAt<nat>(ps, indx, ofs, i);
      InsertedAt(NodesOf(m, leaf, upper, ps), indx, node, i);
    }
  }

  function Shifted(p: nat, ptr: nat, sz: nat): nat {
    if p < ptr then p + sz else p
  }

  /** A node apart from the deleted one is found whole at its new place. */
  lemma MovedUp(m: seq<byte>, m': seq<byte>, leaf: bool, upper: nat, p: nat, ptr: nat)
    requires |m'| == |m| && upper <= p && upper <= ptr && Apart(m, leaf, p, ptr)
    requires var sz := Room(m, ptr, leaf);
             m'[upper + sz..ptr + sz] == m[upper..ptr] && m'[ptr + sz..] == m[ptr + sz..]
    ensures SameNode(m, p, m', Shifted(p, ptr, Room(m, ptr, leaf)), leaf)
  {
    hide ReadNode, RawSize;
    var r, sz := Room(m, p, leaf), Room(m, ptr, leaf);
    if p < ptr {
      SubSlice(m', upper + sz, ptr + sz, p - upper, p - upper + r);
      SubSlice(m, upper, ptr, p - upper, p - upper + r);
      SameBytes(m, p, m', p + sz, leaf);
    } else {
      Untouched(m, m', ptr + sz, p, leaf);
    }
  }

  /** Moving keeps nodes apart. */
  lemma MovedApart(m: seq<byte>, m': seq<byte>, leaf: bool, p: nat, q: nat, ptr: nat)
    requires Apart(m, leaf, p, q) && Apart(m, leaf, p, ptr) && Apart(m, leaf, q, ptr)
    requires SameNode(m, p, m', Shifted(p, ptr, Room(m, ptr, leaf)), leaf)
    requires SameNode(m, q, m', Shifted(q, ptr, Room(m, ptr, leaf)), leaf)
    ensures Apart(m', leaf, Shifted(p, ptr, Room(m, ptr, leaf)), Shifted(q, ptr, Room(m, ptr, leaf)))
  {
    hide ReadNode, RawSize, InBounds, Room;
  }

  /** The pointers after a deletion. */
  function Closed(ps: seq<nat>, indx: nat, sz: nat): (r: seq<nat>)
    requires indx < |ps|
    ensures |r| == |ps| - 1
    ensures forall i :: 0 <= i < |r| ==> r[i] == Shifted(ps[if i < indx then i else i + 1], ps[indx], sz)
  {
    seq<nat>(|ps| - 1, i requires 0 <= i < |ps| - 1 => Shifted(ps[if i < indx then i else i + 1], ps[indx], sz))
  }

  /** The nodes below the deleted one were moved up over it. */
  lemma Deleted(m: seq<byte>, m': seq<byte>, leaf: bool, upper: nat, ps: seq<nat>, indx: nat, sz: nat)
    requires Good(m, leaf, upper, ps) && indx < |ps| && |m'| == |m|
    requires Inside(m, leaf, upper, ps[indx]) && sz == Room(m, ps[indx], leaf)
    requires m'[upper + sz..ps[indx] + sz] == m[upper..ps[indx]] && m'[ps[indx] + sz..] == m[ps[indx] + sz..]
    ensures Good(m', leaf, upper + sz, Closed(ps, indx, sz))
    ensures NodesOf(m', leaf, upper + sz, Closed(ps, indx, sz)) == Removed(NodesOf(m, leaf, upper, ps), indx)
  {
    hide ReadNode, RawSize, InBounds, Room;
    var ptr := ps[indx];
    forall k | 0 <= k < |ps| && k != indx
      ensures Apart(m, leaf, ps[k], ptr) && SameNode(m, ps[k], m', Shifted(ps[k], ptr, sz), leaf)
      ensures upper + sz <= Shifted(ps[k], ptr, sz)
    {
      assert Apart(m, leaf, ps[if k < indx then k else indx], ps[if k < indx then indx else k]);
      MovedUp(m, m', leaf, upper, ps[k], ptr);
    }
    var ps' := Closed(ps, indx, sz);
    forall i, j | 0 <= i < j < |ps'| ensures Apart(m', leaf, ps'[i], ps'[j]) {
      MovedApart(m, m', leaf, ps[if i < indx then i else i + 1], ps[if j < indx then j else j + 1], ptr);
    }
  }

  /** The data is put on overflow pages. */
  predicate Overflows(key: seq<byte>, size: nat, flags: nat, nodemax: nat) {
    flags % 2 != F_BIGDATA && NODESIZE + |key| + size >= nodemax
  }

  /** The node that mdb_node_add stores for a key and data of a leaf page. Data that would make the
      node too large goes to overflow pages, and the node gets the number of the first of them;
      with F_BIGDATA given, `data` already is such a number. */
  function LeafNode(key: seq<byte>, data: seq<byte>, size: nat, flags: nat, nodemax: nat, ovpgno: seq<byte>): (r: Node)
    requires |key| < 0x1_0000 && size < 0x1_0000_0000 && flags < 0x1_0000 && |ovpgno| == 8
    requires |data| == if flags % 2 == F_BIGDATA then 8 else size
    ensures Fits(r, true) && r.key == key && r.lo + 0x1_0000 * r.hi == size
    ensures r.flags % 2 == F_BIGDATA <==> flags % 2 == F_BIGDATA || Overflows(key, size, flags, nodemax)
    ensures r.flags / 2 == flags / 2
    ensures r.payload == if Overflows(key, size, flags, nodemax) then ovpgno else data
    ensures SizeOf(r) < nodemax || r.flags % 2 == F_BIGDATA
  {
    var over := Overflows(key, size, flags, nodemax);
    Node(size % 0x1_0000, size / 0x1_0000, if over then flags + 1 else flags, key, if over then ovpgno else data)
  }

  /** The node of a branch page; the page number is cut to 48 bits. */
  function BranchNode(key: seq<byte>, pgno: nat): Node {
    Node(pgno % 0x1_0000, pgno / 0x1_0000 % 0x1_0000, pgno / 0x1_0000_0000 % 0x1_0000, key, [])
  }

  function PgnoOf(node: Node): nat {
    node.lo + 0x1_0000 * node.hi + 0x1_0000_0000 * node.flags
  }

  lemma BranchPgno(key: seq<byte>, pgno: nat)
    requires |key| < 0x1_0000
    ensures Fits(BranchNode(key, pgno), false)
    ensures PgnoOf(BranchNode(key, pgno)) == pgno % 0x1_0000_0000_0000
    ensures PgnoOf(BranchNode(key, pgno)) == pgno <==> pgno < 0x1_0000_0000_0000
  {
    var high := pgno / 0x1_0000 / 0x1_0000;
    assert pgno / 0x1_0000_0000 == high;
    var lo, hi, flags := pgno % 0x1_0000, pgno / 0x1_0000 % 0x1_0000, high % 0x1_0000;
    Quotient(pgno, 0x1_0000_0000_0000, high / 0x1_0000, lo + 0x1_0000 * hi + 0x1_0000_0000 * flags);
  }

  /** A change of a page: a node put in, or one taken out. */
  datatype Edit = AddAt(indx: nat, node: Node) | DeleteAt(indx: nat)

  predicate Applicable(s: seq<Node>, e: Edit, leaf: bool) {
    match e
    case AddAt(indx, node) => indx <= |s| && Fits(node, leaf)
    case DeleteAt(indx) => indx < |s|
  }

  function Edited(s: seq<Node>, e: Edit): seq<Node>
    requires match e case AddAt(indx, _) => indx <= |s| case DeleteAt(indx) => indx < |s|
  {
    match e
    case AddAt(indx, node) => Inserted(s, indx, node)
    case DeleteAt(indx) => Removed(s, indx)
  }

  ghost predicate AllApplicable(s: seq<Node>, es: seq<Edit>, leaf: bool)
    decreases |es|
  {
    es == [] || (Applicable(s, es[0], leaf) && AllApplicable(Edited(s, es[0]), es[1..], leaf))
  }

  ghost function EditedAll(s: seq<Node>, es: seq<Edit>, leaf: bool): seq<Node>
    requires AllApplicable(s, es, leaf)
    decreases |es|
  {
    if es == [] then s else EditedAll(Edited(s, es[0]), es[1..], leaf)
  }

  lemma EditedFirst(s: seq<Node>, es: seq<Edit>, k: nat, leaf: bool)
    requires es != [] && k < |es| && Applicable(s, es[0], leaf) && AllApplicable(Edited(s, es[0]), es[1..][..k], leaf)
    ensures AllApplicable(s, es[..k + 1], leaf)
    ensures EditedAll(s, es[..k + 1], leaf) == EditedAll(Edited(s, es[0]), es[1..][..k], leaf)
  {
    hide Inserted, Removed;
    assert es[..k + 1][0] == es[0] && es[..k + 1][1..] == es[1..][..k];
  }

  /** The bytes that a node costs: its even size and its pointer. */
  function Cost(node: Node): nat {
    Even(SizeOf(node)) + 2
  }

  function Fill(nodes: seq<Node>): nat {
    if nodes == [] then 0 else Fill(nodes[..|nodes| - 1]) + Cost(nodes[|nodes| - 1])
  }

  lemma {:induction false} FillJoin(a: seq<Node>, b: seq<Node>)
    ensures Fill(a + b) == Fill(a) + Fill(b)
    decreases |b|
  {
    if b == [] {
      assert a + b == a;
    } else {
      FillJoin(a, b[..|b| - 1]);
      assert (a + b)[..|a + b| - 1] == a + b[..|b| - 1];
    }
  }

  lemma FillOne(node: Node)
    ensures Fill([node]) == Cost(node) && Fill([]) == 0
  {
    assert [node][..0] == [];
  }

  lemma FillInserted(s: seq<Node>, i: nat, node: Node)
    requires i <= |s|
    ensures Fill(Inserted(s, i, node)) == Fill(s) + Cost(node)
  {
    hide Fill, Cost;
    assert s == s[..i] + s[i..];
    FillAround(s[..i], node, s[i..]);
  }

  lemma FillAround(a: seq<Node>, node: Node, b: seq<Node>)
    ensures Fill(a + [node] + b) == Fill(a + b) + Cost(node)
  {
    hide Fill, Cost;
    FillJoin(a, b);
    FillJoin(a + [node], b);
    FillJoin(a, [node]);
    FillOne(node);
  }

  lemma CutOut(s: seq<Node>, i: nat)
    requires i < |s|
    ensures s == s[..i] + [s[i]] + s[i + 1..] && Removed(s, i) == s[..i] + s[i + 1..]
  {
  }

  lemma FillRemoved(s: seq<Node>, i: nat)
    requires i < |s|
    ensures Fill(Removed(s, i)) + Cost(s[i]) == Fill(s)
  {
    CutOut(s, i);
    hide Fill, Cost, Removed;
    FillAround(s[..i], s[i], s[i + 1..]);
  }
}
