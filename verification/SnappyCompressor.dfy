/** The compressor: one block against a hash table of earlier positions, then all blocks.

The invariant of the block loop is that decoding what was emitted so far gives the block
up to `nextEmit`. It holds for any hash function; the table only has to hold positions
that were already passed. The same invariant counts bytes: every literal is paid for by
the copy that follows it, so the output never outgrows `MaxCompressedLength`.
 */
module SnappyCompressor {
  import opened Basics
  import opened DivMod
  import opened PowersOfTwo
  import opened SnappyConformance
  import opened SnappyFormat
  import opened SnappyVarint
  import opened SnappyEmit
  import opened SnappyGreedy
  import opened SnappyMatch

  const BLOCK_SIZE := 0x8000            // kblock_size
  const MAX_HASH_TABLE_SIZE := 0x4000   // kmax_hash_table_size

  function MaxCompressedLength(n: nat): nat {
    32 + n + n / 6
  }

  /** Seven bytes for six, and 32 more. */
  lemma SevenForSix(n: nat)
    ensures 6 * (MaxCompressedLength(n) - 32) <= 7 * n < 6 * (MaxCompressedLength(n) - 31)
  {
  }

  /** Decoding `tags` behind `prev` gives the first `next` bytes of the block, and the tags take
      at most 7 bytes for 6 of input, give or take `debt` sixths of a byte. */
  ghost predicate Encodes(tags: seq<byte>, block: seq<byte>, next: nat, prev: seq<byte>, limit: nat, debt: int) {
    && next <= |block| <= BLOCK_SIZE
    && |prev| + |block| <= limit
    && RunTags(tags, prev, limit, false) == Done(prev + block[..next])
    && 6 * |tags| <= 7 * next + debt
  }

  /** A literal for block[next..ip] costs its header: no more than five sixths above the rate. */
  lemma AddLiteral(tags: seq<byte>, block: seq<byte>, next: nat, ip: nat, prev: seq<byte>, limit: nat, debt: int)
    requires Encodes(tags, block, next, prev, limit, debt) && next < ip <= |block|
    ensures Encodes(tags + LiteralBytes(block[next..ip]), block, ip, prev, limit, debt + 5)
    ensures ip - next >= 18 ==>
              Encodes(tags + LiteralBytes(block[next..ip]), block, ip, prev, limit, debt)
  {
    var data := block[next..ip];
    var mid := prev + block[..next];
    LiteralDecodes(data, mid, limit);
    assert mid + data == prev + block[..ip];
    DecodeInTurn(tags, LiteralBytes(data), prev, mid, prev + block[..ip], limit);
    LiteralHeaderSize(|data|);
  }

  /** A copy costs at most 3 bytes for 4 of input, which pays back at least ten sixths. */
  lemma AddCopy(tags: seq<byte>, block: seq<byte>, ip: nat, candidate: nat, matched: nat,
                prev: seq<byte>, limit: nat, debt: int)
    requires Encodes(tags, block, ip, prev, limit, debt)
    requires candidate < ip && 4 <= matched && ip + matched <= |block|
    requires Repeats(block[..ip + matched], ip, ip - candidate)
    ensures Encodes(tags + CopyStream(ip - candidate, matched), block, ip + matched, prev, limit, debt - 10)
  {
    var offset := ip - candidate;
    var mid, end := prev + block[..ip], prev + block[..ip + matched];
    forall i, j | |mid| <= i < |end| && 0 <= j == i - offset ensures end[i] == end[j] {
      assert end[i] == block[..ip + matched][i - |prev|] && end[j] == block[..ip + matched][j - |prev|];
    }
    OverlapCopyUnique(mid, offset, end);
    CopyStreamDecodes(offset, matched, mid, limit);
    DecodeInTurn(tags, CopyStream(offset, matched), prev, mid, end, limit);
    CopyStreamSize(offset, matched);
  }

  /** A four-byte match at `ip` extended by the bytes that agree behind it. */
  lemma MatchRepeats(block: seq<byte>, candidate: nat, ip: nat, more: nat)
    requires candidate < ip && ip + 4 + more <= |block|
    requires Load32(block, ip) == Load32(block, candidate)
    requires Repeats(block[..ip + 4 + more], ip + 4, ip - candidate)
    ensures Repeats(block[..ip + 4 + more], ip, ip - candidate)
  {
    LittleEndianInjective(block[ip..ip + 4], block[candidate..candidate + 4]);
    WordRepeats(block, candidate, ip, 4);
    var r := block[..ip + 4 + more];
    forall i, j | ip <= i < |r| && 0 <= j == i - (ip - candidate) ensures r[i] == r[j] {
      if i < ip + 4 { assert block[..ip + 4][i] == block[..ip + 4][j]; }
    }
  }

  /** The table has, for each hash value, the latest of the positions passed. */
  ghost predicate Remembers(table: array<nat>, size: nat, block: seq<byte>, hash: nat -> nat, passed: seq<nat>)
    reads table
  {
    size <= table.Length && forall h :: 0 <= h < size ==> table[h] == Latest(block, hash, passed, h)
  }

  /** Enters a position. */
  method Remember(table: array<nat>, h: nat, p: nat, ghost size: nat, ghost block: seq<byte>, ghost hash: nat -> nat,
                  ghost passed: seq<nat>)
    requires Remembers(table, size, block, hash, passed) && h == Hash(block, hash, p) && h < size
    modifies table
    ensures Remembers(table, size, block, hash, passed + [p])
    ensures forall k :: 0 <= k < size ==> table[k] == if k == h then p else old(table[k])
  {
    hide Latest, Hash;
    table[h] := p;
    forall k | 0 <= k < size ensures table[k] == Latest(block, hash, passed + [p], k) {
      LatestOneMore(block, hash, passed, p, k);
    }
  }

  /** Step 1: looks for a place whose four bytes also stand at the position remembered for their
      hash. The stride grows by one for every 32 places tried. Fails near the end of the input. */
  method ScanForMatch(block: seq<byte>, table: array<nat>, tableSize: nat, start: nat, startHash: nat,
                      ipLimit: nat, hash: nat -> nat, ghost passed0: seq<nat>)
    returns (found: bool, ip: nat, candidate: nat, ghost passed: seq<nat>)
    requires |block| <= BLOCK_SIZE && ipLimit + INPUT_MARGIN == |block| && start + 4 <= |block|
    requires tableSize <= table.Length && forall x :: hash(x) < tableSize
    requires startHash == hash(Load32(block, start))
    requires forall k :: 0 <= k < tableSize ==> table[k] < start
    requires Remembers(table, tableSize, block, hash, passed0)
    modifies table
    ensures Scan(block, hash, passed0, start, 32) == if found then Some(Match(ip, candidate, passed)) else None
    ensures found ==> candidate < ip && start <= ip < ipLimit
    ensures found ==> Load32(block, ip) == Load32(block, candidate)
    ensures found ==> forall k :: 0 <= k < tableSize ==> table[k] <= ip
    ensures found ==> Remembers(table, tableSize, block, hash, passed)
  {
    hide Remembers, Load32, Latest, Same;
    var skipBytes := 32;
    var nextIp, nextHash := start, startHash;
    passed := passed0;
    ip, candidate := start, 0;
    while true
      invariant skipBytes >= 32 && start <= nextIp && nextIp + 4 <= |block|
      invariant nextHash == hash(Load32(block, nextIp))
      invariant forall k :: 0 <= k < tableSize ==> table[k] < nextIp
      invariant Remembers(table, tableSize, block, hash, passed)
      invariant Scan(block, hash, passed0, start, 32) == Scan(block, hash, passed, nextIp, skipBytes)
      decreases |block| - nextIp
    {
      ip := nextIp;
      var hval := nextHash;
      var bytesBetweenHashLookups := skipBytes / 32;
      skipBytes := skipBytes + 1;
      nextIp := ip + bytesBetweenHashLookups;
      if nextIp > ipLimit { return false, ip, candidate, passed; }
      nextHash := hash(Load32(block, nextIp));
      candidate := table[hval];
      Found(table, tableSize, block, hash, passed, hval);
      SameIsLoad(block, ip, candidate);
      assert ip < 0x1_0000;  // the table holds 16-bit positions
      Remember(table, hval, ip, tableSize, block, hash, passed);
      passed := passed + [ip];
      if Load32(block, ip) == Load32(block, candidate) { return true, ip, candidate, passed; }
    }
  }

  lemma Found(table: array<nat>, size: nat, block: seq<byte>, hash: nat -> nat, passed: seq<nat>, h: nat)
    requires Remembers(table, size, block, hash, passed) && h < size
    ensures table[h] == Latest(block, hash, passed, h)
  {
  }

  /** Emits the match of `ip` with `candidate`, as long as it goes. */
  method EmitMatch(block: seq<byte>, dst: array<byte>, ip: nat, op: nat, candidate: nat,
                   ghost front: seq<byte>, ghost tags: seq<byte>, ghost prev: seq<byte>, ghost limit: nat)
    returns (next: nat, end: nat, ghost tags': seq<byte>)
    requires candidate < ip && ip + 4 <= |block| && Load32(block, ip) == Load32(block, candidate)
    requires Encodes(tags, block, ip, prev, limit, 5)
    requires op <= dst.Length && dst[..op] == front + tags && 7 * |block| + 132 <= 6 * (dst.Length - |front|)
    modifies dst
    ensures ip < next && Encodes(tags', block, next, prev, limit, -5)
    ensures end <= dst.Length && dst[..end] == front + tags'
    ensures next == ip + 4 + Common(block, candidate + 4, ip + 4)
    ensures tags' == tags + Bytes(block, Copy(candidate, ip, next - ip))
  {
    hide RunTags, CopyStream, Repeats, Common;
    var matched := FindMatchLength(block, candidate + 4, ip + 4, |block|);
    MatchRepeats(block, candidate, ip, matched);
    CommonIs(block, candidate + 4, ip + 4, matched);
    matched := 4 + matched;
    AddCopy(tags, block, ip, candidate, matched, prev, limit, 5);
    next := ip + matched;
    assert op == |front| + |tags|;
    end := EmitCopy(dst, op, ip - candidate, matched);
    tags' := tags + CopyStream(ip - candidate, matched);
    assert front + tags + CopyStream(ip - candidate, matched) == front + tags';
  }

  /** What is still to be emitted: nothing but the rest, what a new scan finds, or another copy. */
  datatype Ahead = Ended | Scanning | Copying

  ghost function PartsAhead(ahead: Ahead, block: seq<byte>, hash: nat -> nat, passed: seq<nat>, ip: nat, candidate: nat)
    : seq<Part>
  {
    match ahead
    case Ended => Rest(block, ip)
    case Scanning => Parts(block, hash, passed, ip, ip + 1)
    case Copying => Copies(block, hash, passed, ip, candidate)
  }

  /** Emits one copy and looks whether the next match starts right behind it. */
  method EmitOneCopy(block: seq<byte>, dst: array<byte>, start: nat, op0: nat, candidate0: nat,
                     table: array<nat>, tableSize: nat, ipLimit: nat, hash: nat -> nat,
                     ghost front: seq<byte>, ghost tags0: seq<byte>, ghost prev: seq<byte>, ghost limit: nat,
                     ghost passed0: seq<nat>)
    returns (ahead: Ahead, ip: nat, op: nat, candidate: nat, nextHash: nat,
             ghost tags: seq<byte>, ghost passed: seq<nat>)
    requires ipLimit + INPUT_MARGIN == |block| && candidate0 < start < ipLimit
    requires Load32(block, start) == Load32(block, candidate0)
    requires forall x :: hash(x) < tableSize
    requires tableSize <= table.Length && forall k :: 0 <= k < tableSize ==> table[k] <= start
    requires Remembers(table, tableSize, block, hash, passed0)
    requires Encodes(tags0, block, start, prev, limit, 5)
    requires op0 <= dst.Length && dst[..op0] == front + tags0 && 7 * |block| + 132 <= 6 * (dst.Length - |front|)
    modifies dst, table
    ensures Encodes(tags, block, ip, prev, limit, -5) && start < ip
    ensures op <= dst.Length && dst[..op] == front + tags
    ensures ahead != Ended ==> ip < ipLimit && Remembers(table, tableSize, block, hash, passed)
    ensures ahead != Ended ==> forall k :: 0 <= k < tableSize ==> table[k] <= ip
    ensures ahead == Scanning ==> nextHash == hash(Load32(block, ip + 1))
    ensures ahead == Copying ==> candidate < ip && Load32(block, ip) == Load32(block, candidate)
    ensures tags0 + AllBytes(block, Copies(block, hash, passed0, start, candidate0)) ==
            tags + AllBytes(block, PartsAhead(ahead, block, hash, passed, ip, candidate))
  {
    BlockBounds(tags0, block, start, prev, limit, 5);
    hide Encodes, Load32, Remembers, AllBytes, Bytes, Copies, PartsAhead, Common, Same, Latest;
    passed := passed0;
    ip, op, tags := EmitMatch(block, dst, start, op0, candidate0, front, tags0, prev, limit);
    if ip >= ipLimit {
      CopiesStep(block, hash, passed0, start, candidate0, tags0, ip, tags, Ended, passed, 0);
      return Ended, ip, op, 0, 0, tags, passed;
    }
    var same;
    same, candidate, nextHash := LookBehindCopy(block, ip, table, tableSize, hash, passed);
    passed := passed + [ip - 1] + [ip];
    ahead := if same then Copying else Scanning;
    CopiesStep(block, hash, passed0, start, candidate0, tags0, ip, tags, ahead, passed, candidate);
  }

  /** Step 3: emits copies as long as the bytes right behind one copy start the next match.
      Stops for good near the end of the input. */
  method EmitCopies(block: seq<byte>, dst: array<byte>, start: nat, op0: nat, candidate0: nat,
                    table: array<nat>, tableSize: nat, ipLimit: nat, hash: nat -> nat,
                    ghost front: seq<byte>, ghost tags0: seq<byte>, ghost prev: seq<byte>, ghost limit: nat,
                    ghost passed0: seq<nat>)
    returns (more: bool, ip: nat, op: nat, nextHash: nat, ghost tags: seq<byte>, ghost passed: seq<nat>)
    requires ipLimit + INPUT_MARGIN == |block| && candidate0 < start < ipLimit
    requires Load32(block, start) == Load32(block, candidate0)
    requires forall x :: hash(x) < tableSize
    requires tableSize <= table.Length && forall k :: 0 <= k < tableSize ==> table[k] <= start
    requires Remembers(table, tableSize, block, hash, passed0)
    requires Encodes(tags0, block, start, prev, limit, 5)
    requires op0 <= dst.Length && dst[..op0] == front + tags0 && 7 * |block| + 132 <= 6 * (dst.Length - |front|)
    modifies dst, table
    ensures Encodes(tags, block, ip, prev, limit, -5) && start < ip
    ensures op <= dst.Length && dst[..op] == front + tags
    ensures more ==> ip < ipLimit && nextHash == hash(Load32(block, ip + 1))
    ensures more ==> forall k :: 0 <= k < tableSize ==> table[k] <= ip
    ensures more ==> Remembers(table, tableSize, block, hash, passed)
    ensures tags0 + AllBytes(block, Copies(block, hash, passed0, start, candidate0)) ==
            tags + AllBytes(block, if more then Parts(block, hash, passed, ip, ip + 1) else Rest(block, ip))
  {
    hide Encodes, Load32, Remembers, AllBytes, Copies, Parts, Rest;
    ghost var all := tags0 + AllBytes(block, Copies(block, hash, passed0, start, candidate0));
    var candidate: nat, ahead: Ahead;
    ahead, ip, op, candidate, nextHash, tags, passed :=
      EmitOneCopy(block, dst, start, op0, candidate0, table, tableSize, ipLimit, hash,
                  front, tags0, prev, limit, passed0);
    while ahead == Copying
      invariant Encodes(tags, block, ip, prev, limit, -5) && start < ip
      invariant op <= dst.Length && dst[..op] == front + tags
      invariant ahead != Ended ==> ip < ipLimit && Remembers(table, tableSize, block, hash, passed)
      invariant ahead != Ended ==> forall k :: 0 <= k < tableSize ==> table[k] <= ip
      invariant ahead == Scanning ==> nextHash == hash(Load32(block, ip + 1))
      invariant ahead == Copying ==> candidate < ip && Load32(block, ip) == Load32(block, candidate)
      invariant all == tags + AllBytes(block, PartsAhead(ahead, block, hash, passed, ip, candidate))
      decreases |block| - ip
    {
      LessDebt(tags, block, ip, prev, limit, -5, 5);
      ahead, ip, op, candidate, nextHash, tags, passed :=
        EmitOneCopy(block, dst, ip, op, candidate, table, tableSize, ipLimit, hash, front, tags, prev, limit, passed);
    }
    more := ahead == Scanning;
  }

  /** What follows a copy. */
  lemma CopiesStep(block: seq<byte>, hash: nat -> nat, passed: seq<nat>, at: nat, from: nat, tags0: seq<byte>,
                   ip: nat, tags: seq<byte>, ahead: Ahead, passed': seq<nat>, q: nat)
    requires ip == at + 4 + Common(block, from + 4, at + 4)
    requires tags == tags0 + Bytes(block, Copy(from, at, ip - at))
    requires ahead == Ended <==> ip + INPUT_MARGIN >= |block|
    requires ahead != Ended ==>
      && passed' == passed + [ip - 1] + [ip]
      && q == Latest(block, hash, passed + [ip - 1], Hash(block, hash, ip))
      && (ahead == Copying <==> Same(block, ip, q))
    ensures tags0 + AllBytes(block, Copies(block, hash, passed, at, from)) ==
            tags + AllBytes(block, PartsAhead(ahead, block, hash, passed', ip, q))
  {
    hide Common, Latest, Hash, Same, Bytes, Rest, Parts, AllBytes;
    var rest := PartsAhead(ahead, block, hash, passed', ip, q);
    assert Copies(block, hash, passed, at, from) == [Copy(from, at, ip - at)] + rest;
    AllBytesFirst(block, Copy(from, at, ip - at), rest);
  }

  /** Enters the positions at the end of a copy into the table and looks for a match at `ip`. */
  method LookBehindCopy(block: seq<byte>, ip: nat, table: array<nat>, tableSize: nat, hash: nat -> nat,
                        ghost passed: seq<nat>)
    returns (same: bool, candidate: nat, nextHash: nat)
    requires 1 <= ip && ip + 7 <= |block| <= BLOCK_SIZE
    requires tableSize <= table.Length && forall x :: hash(x) < tableSize
    requires forall k :: 0 <= k < tableSize ==> table[k] < ip
    requires Remembers(table, tableSize, block, hash, passed)
    modifies table
    ensures forall k :: 0 <= k < tableSize ==> table[k] <= ip
    ensures Remembers(table, tableSize, block, hash, passed + [ip - 1] + [ip])
    ensures candidate < ip && (same <==> Load32(block, ip) == Load32(block, candidate))
    ensures candidate == Latest(block, hash, passed + [ip - 1], Hash(block, hash, ip))
    ensures same <==> Same(block, ip, candidate)
    ensures nextHash == hash(Load32(block, ip + 1))
  {
    hide LittleEndian, GetU32AtOffset, Load64, Load32, Remembers, Latest, Same;
    var inputBytes := Load64(block, ip - 1);
    U32FromU64(block, ip - 1, 0);
    U32FromU64(block, ip - 1, 1);
    U32FromU64(block, ip - 1, 2);
    Remember(table, hash(GetU32AtOffset(inputBytes, 0)), ip - 1, tableSize, block, hash, passed);
    var curHash := hash(GetU32AtOffset(inputBytes, 1));
    candidate := table[curHash];
    Found(table, tableSize, block, hash, passed + [ip - 1], curHash);
    SameIsLoad(block, ip, candidate);
    var candidateBytes := Load32(block, candidate);
    assert ip < 0x1_0000;  // the table holds 16-bit positions
    Remember(table, curHash, ip, tableSize, block, hash, passed + [ip - 1]);
    same := GetU32AtOffset(inputBytes, 1) == candidateBytes;
    nextHash := hash(GetU32AtOffset(inputBytes, 2));
  }

  /** Steps 1 to 3: looks for the next match, and emits the literal before it and the copies. */
  method CompressRound(block: seq<byte>, dst: array<byte>, start: nat, next: nat, op0: nat, startHash: nat,
                       table: array<nat>, tableSize: nat, hash: nat -> nat,
                       ghost front: seq<byte>, ghost tags0: seq<byte>, ghost prev: seq<byte>, ghost limit: nat,
                       ghost debt0: int, ghost passed0: seq<nat>)
    returns (more: bool, ip: nat, nextEmit: nat, op: nat, nextHash: nat, ghost tags: seq<byte>, ghost debt: int,
             ghost passed: seq<nat>)
    requires next < start && start + 4 <= |block| <= BLOCK_SIZE && |block| >= INPUT_MARGIN
    requires startHash == hash(Load32(block, start))
    requires tableSize <= table.Length && forall x :: hash(x) < tableSize
    requires forall k :: 0 <= k < tableSize ==> table[k] < start
    requires Remembers(table, tableSize, block, hash, passed0)
    requires Encodes(tags0, block, next, prev, limit, debt0) && ((next == 0 && debt0 == 0) || debt0 == -5)
    requires op0 <= dst.Length && dst[..op0] == front + tags0 && 7 * |block| + 132 <= 6 * (dst.Length - |front|)
    modifies dst, table
    ensures Encodes(tags, block, nextEmit, prev, limit, debt) && ((nextEmit == 0 && debt == 0) || debt == -5)
    ensures op <= dst.Length && dst[..op] == front + tags
    ensures more ==> nextEmit < ip && start < ip && ip + 4 <= |block| && nextHash == hash(Load32(block, ip))
    ensures more ==> forall k :: 0 <= k < tableSize ==> table[k] < ip
    ensures more ==> Remembers(table, tableSize, block, hash, passed)
    ensures tags0 + AllBytes(block, Parts(block, hash, passed0, next, start)) ==
            tags + AllBytes(block, if more then Parts(block, hash, passed, nextEmit, ip) else Rest(block, nextEmit))
  {
    hide Encodes, Load32, Remembers, AllBytes, Bytes, Copies, Parts, Rest, Scan;
    var ipLimit := |block| - INPUT_MARGIN;
    nextEmit, op, tags, debt := next, op0, tags0, debt0;
    var found, candidate;
    found, ip, candidate, passed := ScanForMatch(block, table, tableSize, start, startHash, ipLimit, hash, passed0);
    PartsStep(block, hash, passed0, next, start, tags);
    if !found { return false, ip, nextEmit, op, 0, tags, debt, passed; }
    op, tags := EmitPending(block, dst, nextEmit, ip, op, true, front, tags, prev, limit, debt);
    if debt < 0 { LessDebt(tags, block, ip, prev, limit, debt + 5, 5); }
    more, nextEmit, op, nextHash, tags, passed :=
      EmitCopies(block, dst, ip, op, candidate, table, tableSize, ipLimit, hash, front, tags, prev, limit, passed);
    debt := -5;
    ip := nextEmit + 1;
  }

  lemma PartsStep(block: seq<byte>, hash: nat -> nat, passed: seq<nat>, next: nat, p: nat, tags: seq<byte>)
    ensures var r := Scan(block, hash, passed, p, 32);
            tags + AllBytes(block, Parts(block, hash, passed, next, p)) ==
            match r
            case None => tags + AllBytes(block, Rest(block, next))
            case Some(m) =>
              tags + Bytes(block, Literal(next, m.at)) + AllBytes(block, Copies(block, hash, m.passed, m.at, m.from))
  {
    hide Scan, Bytes, Rest, Copies, AllBytes;
    var r := Scan(block, hash, passed, p, 32);
    if r.Some? {
      var m := r.value;
      AllBytesFirst(block, Literal(next, m.at), Copies(block, hash, m.passed, m.at, m.from));
    }
  }

  /** compress_fragment. `prev` is what the decoder has produced before this block and `limit`
      what it expects in all. */
  method CompressFragment(block: seq<byte>, dst: array<byte>, op0: nat, table: array<nat>, tableSize: nat,
                          hash: nat -> nat, ghost prev: seq<byte>, ghost limit: nat)
    returns (op: nat, ghost tags: seq<byte>)
    requires 1 <= |block| <= BLOCK_SIZE && |prev| + |block| <= limit
    requires tableSize <= table.Length && forall x :: hash(x) < tableSize
    requires forall k :: 0 <= k < tableSize ==> table[k] == 0
    requires op0 <= dst.Length && 7 * |block| + 132 <= 6 * (dst.Length - op0)
    modifies dst, table
    ensures op <= dst.Length && dst[..op] == old(dst[..op0]) + tags
    ensures Encodes(tags, block, |block|, prev, limit, if |block| >= 18 then 0 else 5)
    ensures tags == AllBytes(block, AllParts(block, hash))
  {
    assert RunTags([], prev, limit, false) == Done(prev);
    var ip: nat, nextEmit: nat := 0, 0;
    ghost var front := dst[..op0];
    op, tags := op0, [];
    ghost var debt := 0;
    assert prev + block[..0] == prev;
    assert Encodes(tags, block, nextEmit, prev, limit, debt);
    ghost var passed: seq<nat>, rest := [], AllParts(block, hash);
    assert Remembers(table, tableSize, block, hash, passed);
    assert tags + AllBytes(block, rest) == AllBytes(block, AllParts(block, hash));
    hide Encodes, Load32, RunTags, AllBytes, Parts, Remembers, Bytes;
    if |block| >= INPUT_MARGIN {
      ip := 1;
      var nextHash := hash(Load32(block, ip));
      while true
        invariant nextEmit < ip && ip + 4 <= |block|
        invariant nextHash == hash(Load32(block, ip))
        invariant forall k :: 0 <= k < tableSize ==> table[k] < ip
        invariant Encodes(tags, block, nextEmit, prev, limit, debt)
        invariant (nextEmit == 0 && debt == 0) || debt == -5
        invariant op <= dst.Length && dst[..op] == front + tags
        invariant Remembers(table, tableSize, block, hash, passed)
        invariant tags + AllBytes(block, Parts(block, hash, passed, nextEmit, ip)) ==
                  AllBytes(block, AllParts(block, hash))
        decreases |block| - ip
      {
        var more;
        more, ip, nextEmit, op, nextHash, tags, debt, passed :=
          CompressRound(block, dst, ip, nextEmit, op, nextHash, table, tableSize, hash, front, tags, prev, limit, debt,
                        passed);
        if !more { break; }
      }
    }
    LastPart(block, nextEmit);
    if nextEmit < |block| {
      op, tags := EmitPending(block, dst, nextEmit, |block|, op, false, front, tags, prev, limit, debt);
      if debt < 0 { LessDebt(tags, block, |block|, prev, limit, debt + 5, if |block| >= 18 then 0 else 5); }
    } else {
      BlockBounds(tags, block, nextEmit, prev, limit, debt);
      LessDebt(tags, block, |block|, prev, limit, debt, if |block| >= 18 then 0 else 5);
    }
  }

  lemma LastPart(block: seq<byte>, next: nat)
    ensures AllBytes(block, Rest(block, next)) == if next < |block| then Bytes(block, Literal(next, |block|)) else []
  {
    if next < |block| { AllBytesFirst(block, Literal(next, |block|), []); }
    assert [Literal(next, |block|)] + [] == [Literal(next, |block|)];
  }

  lemma BlockBounds(tags: seq<byte>, block: seq<byte>, next: nat, prev: seq<byte>, limit: nat, debt: int)
    requires Encodes(tags, block, next, prev, limit, debt)
    ensures next <= |block| <= BLOCK_SIZE
  {
  }

  lemma LessDebt(tags: seq<byte>, block: seq<byte>, next: nat, prev: seq<byte>, limit: nat, debt: int, debt': int)
    requires Encodes(tags, block, next, prev, limit, debt) && debt <= debt'
    ensures Encodes(tags, block, next, prev, limit, debt')
  {
  }

  /** Emits block[next..ip] as a literal. */
  method EmitPending(block: seq<byte>, dst: array<byte>, next: nat, ip: nat, op: nat, fast: bool,
                     ghost front: seq<byte>, ghost tags: seq<byte>, ghost prev: seq<byte>, ghost limit: nat,
                     ghost debt: int)
    returns (end: nat, ghost tags': seq<byte>)
    requires next < ip <= |block| && (fast ==> next + 16 <= |block|)
    requires Encodes(tags, block, next, prev, limit, debt) && debt <= 0
    requires op <= dst.Length && dst[..op] == front + tags && 7 * |block| + 132 <= 6 * (dst.Length - |front|)
    modifies dst
    ensures end <= dst.Length && dst[..end] == front + tags'
    ensures Encodes(tags', block, ip, prev, limit, debt + 5)
    ensures ip - next >= 18 ==> Encodes(tags', block, ip, prev, limit, debt)
    ensures tags' == tags + Bytes(block, Literal(next, ip))
  {
    hide RunTags, LiteralBytes;
    AddLiteral(tags, block, next, ip, prev, limit, debt);
    LiteralHeaderSize(ip - next);
    assert op == |front| + |tags|;
    end := EmitLiteral(dst, op, block, next, ip - next, fast);
    tags' := tags + LiteralBytes(block[next..ip]);
    assert front + tags + LiteralBytes(block[next..ip]) == front + tags';
  }

  /** log2_floor for positive arguments. */
  function Log2Floor(n: nat): nat
    requires n > 0
  {
    if n == 1 then 0 else 1 + Log2Floor(n / 2)
  }

  lemma {:induction false} Log2OfPow2(k: nat)
    ensures Log2Floor(Pow2(k)) == k
  {
    if k > 0 { Log2OfPow2(k - 1); }
  }

  lemma {:induction false} Pow2Sum(a: nat, b: nat)
    ensures Pow2(a + b) == Pow2(a) * Pow2(b)
  {
    if a > 0 {
      Pow2Sum(a - 1, b);
      assert 2 * (Pow2(a - 1) * Pow2(b)) == Pow2(a) * Pow2(b);
    }
  }

  /** The 32-bit product of the hash function. */
  function Product32(bytes: nat): (v: nat)
    ensures v < 0x1_0000_0000
  {
    bytes * 0x1e35a7bd % 0x1_0000_0000
  }

  /** hash_bytes: the top bits of the product. */
  function HashBytes(bytes: nat, shift: nat): nat {
    QuotientBelow(Product32(bytes), Pow2(shift), 0x1_0000_0000);
    Product32(bytes) / Pow2(shift)
  }

  lemma HashInRange(bytes: nat, bits: nat)
    requires bits <= 32
    ensures HashBytes(bytes, 32 - bits) < Pow2(bits)
  {
    hide Product32, Pow2;
    Pow2Sum(32 - bits, bits);
    Pow2Of32();
    QuotientBelow(Product32(bytes), Pow2(32 - bits), Pow2(bits));
  }

  /** The hash is what is left of the low 32 bits of a product without the lowest `shift` bits. */
  lemma TopBits(bytes: nat, shift: nat)
    ensures var product := bytes * 0x1e35a7bd % 0x1_0000_0000;
            HashBytes(bytes, shift) * Pow2(shift) <= product < HashBytes(bytes, shift) * Pow2(shift) + Pow2(shift)
  {
    var product := Product32(bytes);
    assert product == product / Pow2(shift) * Pow2(shift) + product % Pow2(shift);
  }

  lemma Pow2Of32()
    ensures Pow2(32) == 0x1_0000_0000
  {
    assert Pow2(4) == 16;
    hide Pow2;
    Pow2Sum(4, 4);
    assert Pow2(8) == 256;
    Pow2Sum(8, 8);
    assert Pow2(16) == 0x1_0000;
    Pow2Sum(16, 16);
  }

  /** The smallest number of bits from b on, up to 14, for a table with a place for each byte. */
  ghost function BitsFrom(b: nat, n: nat): (r: nat)
    requires b <= 14
    ensures b <= r <= 14 && (r < 14 ==> n <= Pow2(r)) && (b < r ==> Pow2(r - 1) < n)
    decreases 14 - b
  {
    if b == 14 || n <= Pow2(b) then b else BitsFrom(b + 1, n)
  }

  ghost function TableBits(n: nat): nat {
    BitsFrom(8, n)
  }

  /** get_hash_table: a power of two between 256 and the maximum, cleared. */
  method GetHashTable(table: array<nat>, inputSize: nat) returns (htsize: nat, ghost bits: nat)
    requires table.Length == MAX_HASH_TABLE_SIZE
    modifies table
    ensures htsize == Pow2(bits) && bits == TableBits(inputSize) && 8 <= bits <= 14 && htsize <= table.Length
    ensures forall k :: 0 <= k < htsize ==> table[k] == 0
  {
    htsize, bits := 256, 8;
    assert Pow2(8) == 4 * (4 * (4 * (4 * Pow2(0))));
    hide Pow2;
    while htsize < MAX_HASH_TABLE_SIZE && htsize < inputSize
      invariant htsize == Pow2(bits) && 8 <= bits <= 14
      invariant
        || (bits == 8 && htsize == 0x100) || (bits == 9 && htsize == 0x200) || (bits == 10 && htsize == 0x400)
        || (bits == 11 && htsize == 0x800) || (bits == 12 && htsize == 0x1000) || (bits == 13 && htsize == 0x2000)
        || (bits == 14 && htsize == 0x4000)
      invariant TableBits(inputSize) == BitsFrom(bits, inputSize)
      decreases MAX_HASH_TABLE_SIZE - htsize
    {
      TwiceAsMany(bits);
      htsize, bits := 2 * htsize, bits + 1;
    }
    forall k | 0 <= k < htsize { table[k] := 0; }
  }

  lemma TwiceAsMany(bits: nat)
    ensures Pow2(bits + 1) == 2 * Pow2(bits)
  {
  }

  /** The tags emitted so far decode to the first `pos` bytes of the input, at no more than 7
      bytes for 6. */
  ghost predicate EncodesInput(tags: seq<byte>, input: seq<byte>, pos: nat, debt: int) {
    && pos <= |input|
    && RunTags(tags, [], |input|, false) == Done(input[..pos])
    && 6 * |tags| <= 7 * pos + debt
  }

  lemma AddBlock(tags: seq<byte>, input: seq<byte>, pos: nat, n: nat, more: seq<byte>, debt: int)
    requires EncodesInput(tags, input, pos, 0) && pos + n <= |input|
    requires Encodes(more, input[pos..pos + n], n, input[..pos], |input|, debt)
    ensures EncodesInput(tags + more, input, pos + n, debt)
  {
    hide RunTags;
    var block := input[pos..pos + n];
    assert block[..n] == block && input[..pos] + block == input[..pos + n];
    DecodeInTurn(tags, more, [], input[..pos], input[..pos + n], |input|);
  }

  lemma HeaderAndTags(tags: seq<byte>, input: seq<byte>)
    requires |input| < 0x1_0000_0000 && RunTags(tags, [], |input|, false) == Done(input)
    ensures var s := Encode(|input|) + tags; Meaning(s) == Uncompress(s) == Some(input)
  {
    hide RunTags, Encode, ReadLength, ExactLength, Parse, Uncompress, Irregular;
    var s := Encode(|input|) + tags;
    EncodeRoundTrip(|input|, tags);
    ParseIsExact(s);
    assert s[|Encode(|input|)|..] == tags;
    DecoderConforms(s);
  }

  function Hasher(shift: nat): nat -> nat {
    x => HashBytes(x, shift)
  }

  /** What becomes of a block. */
  ghost function BlockBytes(block: seq<byte>): seq<byte> {
    AllBytes(block, AllParts(block, Hasher(32 - TableBits(|block|))))
  }

  /** What becomes of the input from `pos` on, cut into blocks. */
  ghost function Blocks(input: seq<byte>, pos: nat): seq<byte>
    decreases |input| - pos
  {
    if pos >= |input| then []
    else
      var end := if |input| - pos < BLOCK_SIZE then |input| else pos + BLOCK_SIZE;
      BlockBytes(input[pos..end]) + Blocks(input, end)
  }

  /** One round of the block loop: a fresh table and the next block. */
  method CompressBlock(input: seq<byte>, pos: nat, n: nat, dst: array<byte>, op: nat, table: array<nat>,
                       ghost header: seq<byte>, ghost tags: seq<byte>)
    returns (end: nat, ghost tags': seq<byte>)
    requires pos < |input| < 0x8000_0000 && table.Length == MAX_HASH_TABLE_SIZE
    requires n == if |input| - pos < BLOCK_SIZE then |input| - pos else BLOCK_SIZE
    requires EncodesInput(tags, input, pos, 0) && |header| <= 5 && BlocksDone(tags, input, pos)
    requires dst.Length >= MaxCompressedLength(|input|) && op <= dst.Length && dst[..op] == header + tags
    modifies dst, table
    ensures end <= dst.Length && dst[..end] == header + tags'
    ensures EncodesInput(tags', input, pos + n, if n >= 18 then 0 else 5)
    ensures BlocksDone(tags', input, pos + n)
  {
    hide BlocksDone, EncodesInput, Pow2, HashBytes, Encodes, AllBytes, AllParts, TableBits, Log2Floor;
    var htsize, bits := GetHashTable(table, n);
    Log2OfPow2(bits);
    var shift := 32 - Log2Floor(htsize);
    forall x: nat ensures HashBytes(x, shift) < htsize { HashInRange(x, bits); }
    assert op == |header| + |tags|;
    SizeSoFar(tags, input, pos);
    ghost var more;
    end, more := CompressFragment(input[pos..pos + n], dst, op, table, htsize, Hasher(shift), input[..pos], |input|);
    AddBlock(tags, input, pos, n, more, if n >= 18 then 0 else 5);
    assert header + tags + more == header + (tags + more);
    tags' := tags + more;
    BlocksStep(input, pos, n, tags);
  }

  /** The block loop of `compress`. */
  method CompressBlocks(input: seq<byte>, dst: array<byte>, op0: nat) returns (op: nat, ghost tags: seq<byte>)
    requires |input| < 0x8000_0000 && op0 <= 5 && dst.Length >= MaxCompressedLength(|input|)
    modifies dst
    ensures op <= dst.Length && dst[..op] == old(dst[..op0]) + tags
    ensures EncodesInput(tags, input, |input|, 5)
    ensures tags == Blocks(input, 0)
  {
    assert op0 <= dst.Length;
    hide EncodesInput, BlockBytes, Blocks, MaxCompressedLength, BlocksDone;
    ghost var header, debt := dst[..op0], 0;
    NothingYet(input);
    BlocksStart(input);
    op, tags := op0, [];
    assert header + tags == header;
    var table := new nat[MAX_HASH_TABLE_SIZE];
    var pos := 0;
    while pos < |input|
      invariant pos <= |input| && EncodesInput(tags, input, pos, debt) && (debt == 0 || (pos == |input| && debt == 5))
      invariant op <= dst.Length && dst[..op] == header + tags
      invariant BlocksDone(tags, input, pos)
    {
      var numToRead := if |input| - pos < BLOCK_SIZE then |input| - pos else BLOCK_SIZE;
      op, tags := CompressBlock(input, pos, numToRead, dst, op, table, header, tags);
      pos := pos + numToRead;
      debt := if numToRead >= 18 then 0 else 5;
    }
    MoreDebt(tags, input, pos);
    BlocksEnd(input, tags);
  }

  lemma MoreDebt(tags: seq<byte>, input: seq<byte>, pos: nat)
    ensures EncodesInput(tags, input, pos, 0) ==> EncodesInput(tags, input, pos, 5)
  {
  }

  lemma SizeSoFar(tags: seq<byte>, input: seq<byte>, pos: nat)
    requires EncodesInput(tags, input, pos, 0)
    ensures 6 * |tags| <= 7 * pos
  {
  }

  lemma NothingYet(input: seq<byte>)
    ensures EncodesInput([], input, 0, 0) && EncodesInput([], input, 0, 5)
  {
  }

  /** `tags` are the blocks in front of `pos`. */
  ghost predicate BlocksDone(tags: seq<byte>, input: seq<byte>, pos: nat) {
    tags + Blocks(input, pos) == Blocks(input, 0)
  }

  lemma BlocksStart(input: seq<byte>)
    ensures BlocksDone([], input, 0)
  {
    hide Blocks;
  }

  lemma BlocksStep(input: seq<byte>, pos: nat, n: nat, tags: seq<byte>)
    requires pos < |input| && n == (if |input| - pos < BLOCK_SIZE then |input| - pos else BLOCK_SIZE)
    requires BlocksDone(tags, input, pos)
    ensures BlocksDone(tags + BlockBytes(input[pos..pos + n]), input, pos + n)
  {
    hide BlockBytes;
    assert Blocks(input, pos) == BlockBytes(input[pos..pos + n]) + Blocks(input, pos + n);
    hide Blocks;
  }

  lemma BlocksEnd(input: seq<byte>, tags: seq<byte>)
    requires BlocksDone(tags, input, |input|)
    ensures tags == Blocks(input, 0)
  {
    hide BlockBytes;
  }

  /** snappy_compress. The length is counted in a 32-bit `int`: from 2^31 on the block loop does
      not run, and what is written is the header alone. */
  method Compress(input: seq<byte>, dst: array<byte>) returns (written: nat)
    requires |input| < 0x1_0000_0000 && dst.Length >= MaxCompressedLength(|input|)
    modifies dst
    ensures written < MaxCompressedLength(|input|)
    ensures |input| < 0x8000_0000 ==> Meaning(dst[..written]) == Uncompress(dst[..written]) == Some(input)
    ensures |input| >= 0x8000_0000 ==> dst[..written] == Encode(|input|)
    ensures Encode(|input|) <= dst[..written]
    ensures |input| < 0x8000_0000 ==> dst[..written] == Encode(|input|) + Blocks(input, 0)
    ensures |input| < 0x8000_0000 && AllEqual(input) ==> written <= |Encode(|input|)| + EqualBound(|input|)
  {
    hide RunTags, Encode, Blocks, EqualBound, Meaning, Uncompress;
    var header := Encode(|input|);
    Store(dst, 0, header);
    written := |header|;
    assert dst[..written] == header;
    if |input| < 0x8000_0000 {
      ghost var tags;
      written, tags := CompressBlocks(input, dst, written);
      assert input[..|input|] == input;
      HeaderAndTags(tags, input);
      if AllEqual(input) { EqualBlocks(input, 0); }
    }
  }

  /** A bound for n equal bytes: for every block, two bytes for a literal and three for every started 60
      bytes of copy; a block of fewer than 17 bytes may be a literal. */
  function EqualBound(n: nat): nat {
    if n == 0 then 0
    else if n < 17 then n + 1
    else if n < BLOCK_SIZE then 2 + 3 * ((n + 58) / 60)
    else 2 + 3 * ((BLOCK_SIZE + 58) / 60) + EqualBound(n - BLOCK_SIZE)
  }

  lemma {:induction false} EqualBlocks(input: seq<byte>, pos: nat)
    requires AllEqual(input) && pos <= |input|
    ensures |Blocks(input, pos)| <= EqualBound(|input| - pos)
    decreases |input| - pos
  {
    hide BlockBytes;
    if pos < |input| {
      var end := if |input| - pos < BLOCK_SIZE then |input| else pos + BLOCK_SIZE;
      EqualBlock(input[pos..end]);
      EqualBlocks(input, end);
    }
  }

  lemma EqualBlock(block: seq<byte>)
    requires AllEqual(block) && 0 < |block| <= BLOCK_SIZE
    ensures |BlockBytes(block)| <= if |block| < 17 then |block| + 1 else 2 + 3 * ((|block| + 58) / 60)
  {
    var hash := Hasher(32 - TableBits(|block|));
    if |block| >= 17 { EqualSize(block, hash); } else { ShortBlock(block, hash); }
  }

  /** No match is looked for in a short block. */
  lemma ShortBlock(block: seq<byte>, hash: nat -> nat)
    requires 0 < |block| < 17
    ensures |AllBytes(block, AllParts(block, hash))| == |block| + 1
  {
    assert |block| >= INPUT_MARGIN ==> Scan(block, hash, [], 1, 32) == None;
    hide AllBytes, Scan, LiteralBytes;
    LastPart(block, 0);
    assert block[0..|block|] == block;
    LiteralHeaderSize(|block|);
    OneLiteral(block);
  }

  lemma OneLiteral(block: seq<byte>)
    requires 1 <= |block| < 0x8000_0000
    ensures |LiteralBytes(block)| == |LiteralHeader(|block|)| + |block|
  {
  }

  /** A header without tags announces bytes that never come. */
  lemma BareHeaderFails(n: nat)
    requires 0 < n < 0x1_0000_0000
    ensures Uncompress(Encode(n)) == None
  {
    hide Encode, ReadLength;
    assert Encode(n) + [] == Encode(n);
    EncodeRoundTrip(n, []);
  }
}
