/** How a block is cut into literals and copies, without a hash table.

The compressor remembers positions that it has passed, and compares the four bytes at a place
with those at the latest remembered position whose four bytes have the same hash. Where they
agree it copies as much as it can. Here the positions are a list, and the cutting is a function
of the block; the compressor with its table of hash values is proved to emit exactly this.
 */
module SnappyGreedy {
  import opened Basics
  import opened SnappyFormat
  import opened SnappyEmit
  import opened SnappyMatch

  const INPUT_MARGIN := 15   // kinput_margin_bytes

  /** A part of the block: bytes as they are, or `len` bytes at `at` that repeat those at `from`. */
  datatype Part = Literal(from: nat, to: nat) | Copy(from: nat, at: nat, len: nat)

  /** The four bytes at two positions agree. */
  predicate Same(block: seq<byte>, p: nat, q: nat) {
    p + 4 <= |block| && q + 4 <= |block| && block[p..p + 4] == block[q..q + 4]
  }

  lemma SameIsLoad(block: seq<byte>, p: nat, q: nat)
    requires p + 4 <= |block| && q + 4 <= |block|
    ensures Same(block, p, q) <==> Load32(block, p) == Load32(block, q)
  {
    if Load32(block, p) == Load32(block, q) { LittleEndianInjective(block[p..p + 4], block[q..q + 4]); }
  }

  ghost function Hash(block: seq<byte>, hash: nat -> nat, p: nat): nat {
    if p + 4 <= |block| then hash(Load32(block, p)) else 0
  }

  /** The latest of the remembered positions with hash value h, or 0. */
  ghost function Latest(block: seq<byte>, hash: nat -> nat, passed: seq<nat>, h: nat): nat {
    if passed == [] then 0
    else
      var n := |passed| - 1;
      if Hash(block, hash, passed[n]) == h then passed[n] else Latest(block, hash, passed[..n], h)
  }

  lemma LatestOneMore(block: seq<byte>, hash: nat -> nat, passed: seq<nat>, p: nat, h: nat)
    ensures Latest(block, hash, passed + [p], h) ==
      if Hash(block, hash, p) == h then p else Latest(block, hash, passed, h)
  {
    assert (passed + [p])[..|passed|] == passed;
  }

  /** A place `at` whose four bytes are those at `from`; `passed` are the positions remembered then. */
  datatype Match = Match(at: nat, from: nat, passed: seq<nat>)

  /** Looks for a match from p on. The stride grows by one for every 32 places tried. */
  ghost function Scan(block: seq<byte>, hash: nat -> nat, passed: seq<nat>, p: nat, skip: nat): (r: Option<Match>)
    requires skip >= 32
    ensures r.Some? ==> p <= r.value.at && r.value.at + INPUT_MARGIN < |block|
    decreases |block| - p
  {
    var next := p + skip / 32;
    if next + INPUT_MARGIN > |block| then None
    else
      var q := Latest(block, hash, passed, Hash(block, hash, p));
      if Same(block, p, q) then Some(Match(p, q, passed + [p]))
      else Scan(block, hash, passed + [p], next, skip + 1)
  }

  /** The number of bytes from b on that agree with those from a on. */
  ghost function Common(block: seq<byte>, a: nat, b: nat): (n: nat)
    ensures b <= |block| ==> b + n <= |block|
    decreases |block| - b
  {
    if a < b < |block| && block[a] == block[b] then 1 + Common(block, a + 1, b + 1) else 0
  }

  ghost function Rest(block: seq<byte>, next: nat): seq<Part> {
    if next < |block| then [Literal(next, |block|)] else []
  }

  /** The parts from `next` on, when matches are looked for from p on. */
  ghost function Parts(block: seq<byte>, hash: nat -> nat, passed: seq<nat>, next: nat, p: nat): seq<Part>
    decreases |block| - p, 1
  {
    match Scan(block, hash, passed, p, 32)
    case None => Rest(block, next)
    case Some(m) => [Literal(next, m.at)] + Copies(block, hash, m.passed, m.at, m.from)
  }

  /** The parts from p on, where a match was found. Behind a copy the next one may follow at once. */
  ghost function Copies(block: seq<byte>, hash: nat -> nat, passed: seq<nat>, p: nat, q: nat): seq<Part>
    decreases |block| - p, 0
  {
    var len := 4 + Common(block, q + 4, p + 4);
    var p' := p + len;
    [Copy(q, p, len)] +
    if p' + INPUT_MARGIN >= |block| then Rest(block, p')
    else
      var passed' := passed + [p' - 1];
      var q' := Latest(block, hash, passed', Hash(block, hash, p'));
      if Same(block, p', q') then Copies(block, hash, passed' + [p'], p', q')
      else Parts(block, hash, passed' + [p'], p', p' + 1)
  }

  ghost function AllParts(block: seq<byte>, hash: nat -> nat): seq<Part> {
    if |block| < INPUT_MARGIN then Rest(block, 0) else Parts(block, hash, [], 0, 1)
  }

  /** The bytes of a part. */
  ghost function Bytes(block: seq<byte>, part: Part): seq<byte> {
    match part
    case Literal(from, to) => if from < to <= |block| < 0x8000_0000 then LiteralBytes(block[from..to]) else []
    case Copy(from, at, len) => if from < at < from + 0x1_0000 && len >= 4 then CopyStream(at - from, len) else []
  }

  ghost function AllBytes(block: seq<byte>, parts: seq<Part>): seq<byte> {
    if parts == [] then [] else Bytes(block, parts[0]) + AllBytes(block, parts[1..])
  }

  lemma AllBytesFirst(block: seq<byte>, part: Part, parts: seq<Part>)
    ensures AllBytes(block, [part] + parts) == Bytes(block, part) + AllBytes(block, parts)
    ensures AllBytes(block, []) == []
  {
    assert ([part] + parts)[1..] == parts;
  }

  // What the scan finds.

  /** The k-th place that a scan from p tries. */
  function Probe(p: nat, k: nat): nat {
    if k == 0 then p else Probe(p, k - 1) + (31 + k) / 32
  }

  function Probes(p: nat, k: nat): seq<nat> {
    if k == 0 then [] else Probes(p, k - 1) + [Probe(p, k - 1)]
  }

  /** The k-th place is a match: its four bytes are those at the latest position with the same hash,
      among the ones remembered before and the places tried so far. */
  ghost predicate MatchAt(block: seq<byte>, hash: nat -> nat, passed: seq<nat>, p: nat, k: nat) {
    Same(block, Probe(p, k), Latest(block, hash, passed + Probes(p, k), Hash(block, hash, Probe(p, k))))
  }

  lemma ProbesOneMore(passed: seq<nat>, p: nat, i: nat)
    ensures Probe(p, i + 1) == Probe(p, i) + (32 + i) / 32
    ensures passed + Probes(p, i + 1) == passed + Probes(p, i) + [Probe(p, i)]
  {
  }

  lemma ScanStep(block: seq<byte>, hash: nat -> nat, passed: seq<nat>, p: nat, i: nat)
    ensures var at, seen := Probe(p, i), passed + Probes(p, i);
            Scan(block, hash, seen, at, 32 + i) ==
              if Probe(p, i + 1) + INPUT_MARGIN > |block| then None
              else if MatchAt(block, hash, passed, p, i) then
                Some(Match(at, Latest(block, hash, seen, Hash(block, hash, at)), passed + Probes(p, i + 1)))
              else Scan(block, hash, passed + Probes(p, i + 1), Probe(p, i + 1), 32 + (i + 1))
  {
    ProbesOneMore(passed, p, i);
    hide Probe, Probes, Latest, Hash, Same;
  }

  /** What a scan finds from the i-th place on: the first match, or there is none among the places
      tried before the next one would be too close to the end. */
  lemma {:induction false} ScanFrom(block: seq<byte>, hash: nat -> nat, passed: seq<nat>, p: nat, i: nat)
    returns (k: nat)
    ensures k >= i && forall j :: i <= j < k ==> !MatchAt(block, hash, passed, p, j)
    ensures match Scan(block, hash, passed + Probes(p, i), Probe(p, i), 32 + i)
            case Some(m) => m.at == Probe(p, k) && MatchAt(block, hash, passed, p, k)
            case None => Probe(p, k + 1) + INPUT_MARGIN > |block|
    decreases |block| - Probe(p, i)
  {
    ProbesOneMore(passed, p, i);
    ScanStep(block, hash, passed, p, i);
    hide Scan, MatchAt, Probe, Probes, Latest, Hash;
    if Probe(p, i + 1) + INPUT_MARGIN > |block| || MatchAt(block, hash, passed, p, i) {
      k := i;
    } else {
      k := ScanFrom(block, hash, passed, p, i + 1);
    }
  }

  lemma ScanFindsFirst(block: seq<byte>, hash: nat -> nat, passed: seq<nat>, p: nat) returns (k: nat)
    ensures forall j :: 0 <= j < k ==> !MatchAt(block, hash, passed, p, j)
    ensures match Scan(block, hash, passed, p, 32)
            case Some(m) => m.at == Probe(p, k) && MatchAt(block, hash, passed, p, k)
            case None => Probe(p, k + 1) + INPUT_MARGIN > |block|
  {
    hide Scan, MatchAt;
    assert passed + Probes(p, 0) == passed;
    k := ScanFrom(block, hash, passed, p, 0);
  }

  /** A copy is as long as it can be. */
  lemma {:induction false} CommonIs(block: seq<byte>, a: nat, b: nat, n: nat)
    requires a < b && b + n <= |block|
    requires Repeats(block[..b + n], b, b - a)
    requires b + n < |block| ==> block[a + n] != block[b + n]
    ensures Common(block, a, b) == n
    decreases n
  {
    if n > 0 {
      assert block[..b + n][b] == block[..b + n][a];
      CommonIs(block, a + 1, b + 1, n - 1);
    }
  }

  // Blocks of equal bytes.

  ghost predicate AllEqual(s: seq<byte>) {
    forall i, j :: 0 <= i < j < |s| ==> s[i] == s[j]
  }

  /** From 17 bytes on, a block of equal bytes is a literal of one byte and one copy. */
  lemma EqualParts(block: seq<byte>, hash: nat -> nat)
    requires AllEqual(block) && |block| >= 17
    ensures AllParts(block, hash) == [Literal(0, 1), Copy(0, 1, |block| - 1)]
  {
    assert Same(block, 1, 0) by { assert block[1..5] == block[0..4]; }
    assert Scan(block, hash, [], 1, 32) == Some(Match(1, 0, [] + [1]));
    CommonIs(block, 4, 5, |block| - 5);
    assert Copies(block, hash, [] + [1], 1, 0) == [Copy(0, 1, |block| - 1)] + [];
  }

  lemma {:induction false} CopyStreamPieces(offset: nat, len: nat)
    requires 4 <= len && offset < 0x1_0000
    ensures |CopyStream(offset, len)| <= 3 * ((len + 59) / 60)
    decreases len
  {
    if len > 64 { CopyStreamPieces(offset, len - Piece(len)); }
  }

  /** The literal takes two bytes, the copy at most three for every started 60 bytes. */
  lemma EqualSize(block: seq<byte>, hash: nat -> nat)
    requires AllEqual(block) && 17 <= |block| < 0x8000_0000
    ensures |AllBytes(block, AllParts(block, hash))| <= 2 + 3 * ((|block| + 58) / 60)
  {
    EqualParts(block, hash);
    hide AllParts, CopyStream;
    var a, b := Literal(0, 1), Copy(0, 1, |block| - 1);
    AllBytesFirst(block, a, [b]);
    AllBytesFirst(block, b, []);
    assert [a] + [b] == [a, b] && [b] + [] == [b];
    CopyStreamPieces(1, |block| - 1);
    LiteralHeaderSize(1);
  }
}
