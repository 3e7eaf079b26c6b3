/** The compressor's output side: literals and copies as bytes, and what the format makes of them. */
module SnappyEmit {
  import opened Basics
  import opened SnappyFormat

  /** `n` in as few little-endian bytes as possible. */
  function LengthBytes(n: nat): seq<byte> {
    if n == 0 then [] else [n % 256] + LengthBytes(n / 256)
  }

  lemma {:induction false} LengthBytesValue(n: nat)
    ensures LittleEndian(LengthBytes(n)) == n
    ensures n < 0x1_0000_0000 ==> |LengthBytes(n)| <= 4
    ensures n < 0x100_0000 ==> |LengthBytes(n)| <= 3
    ensures n < 0x1_0000 ==> |LengthBytes(n)| <= 2
    ensures n < 0x100 ==> |LengthBytes(n)| <= 1
    ensures n > 0 ==> |LengthBytes(n)| >= 1
  {
    if n > 0 {
      LengthBytesValue(n / 256);
      assert LengthBytes(n)[1..] == LengthBytes(n / 256);
    }
  }

  /** The tag byte of a literal of `len` bytes and the length bytes behind it. */
  function LiteralHeader(len: nat): (h: seq<byte>)
    requires 1 <= len < 0x8000_0000
    ensures 1 <= |h| <= 5
  {
    LengthBytesValue(len - 1);
    if len - 1 < 60 then [4 * (len - 1)]
    else [4 * (59 + |LengthBytes(len - 1)|)] + LengthBytes(len - 1)
  }

  /** Header size of the literals that a block of 32768 bytes can contain. */
  lemma LiteralHeaderSize(len: nat)
    requires 1 <= len <= 0x8000
    ensures |LiteralHeader(len)| == (if len <= 60 then 1 else if len <= 256 then 2 else 3)
  {
    var n := len - 1;
    LengthBytesValue(n);
    if n >= 256 {
      assert LengthBytes(n) == [n % 256] + LengthBytes(n / 256);
      LengthBytesValue(n / 256);
    }
  }

  /** A literal element. */
  function LiteralBytes(data: seq<byte>): seq<byte>
    requires 1 <= |data| < 0x8000_0000
  {
    LiteralHeader(|data|) + data
  }

  /** A literal decodes to its data. */
  lemma LiteralDecodes(data: seq<byte>, out: seq<byte>, limit: nat)
    requires 1 <= |data| < 0x8000_0000 && |out| + |data| <= limit
    ensures RunTags(LiteralBytes(data), out, limit, false) == Done(out + data)
  {
    var h := LiteralHeader(|data|);
    var s := h + data;
    var n := |data| - 1;
    LengthBytesValue(n);
    assert s[0] % 4 == 0 && 1 + TagExtra(s[0]) == |h|;
    assert s[1..|h|] == h[1..];
    assert s[|h|..] == data;
    if n >= 60 { assert h[1..] == LengthBytes(n); }
    assert LiteralLength(s[0], LittleEndian(h[1..]), false) == |data|;
    assert RunTags(s, out, limit, false) == FinishLiteral(data, |data|, out, limit, false);
    assert data[|data|..] == [] && data[..|data|] == data;
    assert FinishLiteral(data, |data|, out, limit, false) == RunTags([], out + data, limit, false);
  }

  /** The bytes of one copy element: two bytes when they suffice, otherwise three. */
  function CopyBytes(offset: nat, len: nat): (s: seq<byte>)
    requires 4 <= len <= 64 && offset < 0x1_0000
    ensures 2 <= |s| <= 3
  {
    if len < 12 && offset < 2048 then [1 + (len - 4) * 4 + offset / 256 * 32, offset % 256]
    else [2 + (len - 1) * 4, offset % 256, offset / 256]
  }

  lemma CopyBytesFields(offset: nat, len: nat)
    requires 4 <= len <= 64 && offset < 0x1_0000
    ensures var s := CopyBytes(offset, len);
            s[0] % 4 != 0 && TagExtra(s[0]) + 1 == |s|
            && CopyLength(s[0]) == len && CopyOffset(s[0], LittleEndian(s[1..])) == offset
  {
    var s := CopyBytes(offset, len);
    LittleEndianBound(s[1..]);
    if len < 12 && offset < 2048 {
      ShortCopyTag(len - 4, offset / 256);
    } else {
      assert s[0] % 4 == 2 && s[0] / 4 == len - 1;
    }
  }

  lemma ShortCopyTag(lenMinus4: nat, high: nat)
    requires lenMinus4 < 8
    ensures var c := 1 + lenMinus4 * 4 + high * 32;
            c % 4 == 1 && c / 4 % 8 == lenMinus4 && c / 32 == high
  {
    var c := 1 + lenMinus4 * 4 + high * 32;
    assert c / 4 == lenMinus4 + 8 * high;
  }

  lemma CopyBytesDecode(offset: nat, len: nat, out: seq<byte>, limit: nat)
    requires 4 <= len <= 64 && offset < 0x1_0000
    requires 1 <= offset <= |out| && |out| + len <= limit
    ensures RunTags(CopyBytes(offset, len), out, limit, false) == Done(OverlapCopy(out, offset, len))
  {
    hide CopyBytes, TagExtra, CopyLength, CopyOffset, OverlapCopy, LittleEndian;
    var s := CopyBytes(offset, len);
    CopyBytesFields(offset, len);
    assert s[1..|s|] == s[1..] && s[|s|..] == [];
    assert RunTags([], OverlapCopy(out, offset, len), limit, false) == Done(OverlapCopy(out, offset, len));
  }

  /** Length of the next piece of a copy: 64 while at least four bytes stay behind, then 60 if
      that is not enough, then what is left. */
  function Piece(len: nat): (n: nat)
    requires 4 <= len
    ensures 4 <= n <= 64 && n <= len && (if len > 64 then len - n >= 4 else n == len)
  {
    if len >= 68 then 64 else if len > 64 then 60 else len
  }

  /** A copy of any length from 4 up, in pieces of 4 to 64 bytes. */
  function CopyStream(offset: nat, len: nat): seq<byte>
    requires 4 <= len && offset < 0x1_0000
  {
    if len > 64 then CopyBytes(offset, Piece(len)) + CopyStream(offset, len - Piece(len))
    else CopyBytes(offset, len)
  }

  lemma {:induction false} CopyStreamSize(offset: nat, len: nat)
    requires 4 <= len && offset < 0x1_0000
    ensures 2 <= |CopyStream(offset, len)| && 4 * |CopyStream(offset, len)| <= 3 * len
    decreases len
  {
    if len > 64 { CopyStreamSize(offset, len - Piece(len)); }
  }

  /** The pieces decode one after the other to the one overlapping copy they were cut from. */
  lemma {:induction false} CopyStreamDecodes(offset: nat, len: nat, out: seq<byte>, limit: nat)
    requires 4 <= len && 1 <= offset < 0x1_0000 && offset <= |out| && |out| + len <= limit
    ensures RunTags(CopyStream(offset, len), out, limit, false) == Done(OverlapCopy(out, offset, len))
    decreases len
  {
    hide RunTags, CopyBytes, OverlapCopy;
    if len > 64 {
      var n := Piece(len);
      var mid := OverlapCopy(out, offset, n);
      CopyBytesDecode(offset, n, out, limit);
      CopyStreamDecodes(offset, len - n, mid, limit);
      OverlapCopyCompose(out, offset, n, len - n);
      DecodeInTurn(CopyBytes(offset, n), CopyStream(offset, len - n), out, mid, OverlapCopy(out, offset, len), limit);
    } else {
      CopyBytesDecode(offset, len, out, limit);
    }
  }

  lemma DecodeInTurn(a: seq<byte>, b: seq<byte>, out: seq<byte>, mid: seq<byte>, end: seq<byte>, limit: nat)
    requires RunTags(a, out, limit, false) == Done(mid) && RunTags(b, mid, limit, false) == Done(end)
    ensures RunTags(a + b, out, limit, false) == Done(end)
  {
    hide RunTags;
    RunTagsAppend(a, b, out, limit, false);
  }

  /** Stores `data` at `at`. */
  method Store(dst: array<byte>, at: nat, data: seq<byte>)
    requires at + |data| <= dst.Length
    modifies dst
    ensures dst[..at + |data|] == old(dst[..at]) + data
  {
    forall k | 0 <= k < |data| { dst[at + k] := data[k]; }
  }

  /** The length bytes behind the tag byte of a long literal, low byte first. */
  method StoreLength(dst: array<byte>, at: nat, n0: nat) returns (end: nat)
    requires at + |LengthBytes(n0)| <= dst.Length
    modifies dst
    ensures end == at + |LengthBytes(n0)|
    ensures dst[..end] == old(dst[..at]) + LengthBytes(n0)
  {
    var n := n0;
    end := at;
    while n > 0
      invariant end + |LengthBytes(n)| == at + |LengthBytes(n0)|
      invariant dst[..end] + LengthBytes(n) == old(dst[..at]) + LengthBytes(n0)
      decreases n
    {
      ghost var front, rest := dst[..end], LengthBytes(n / 256);
      dst[end] := n % 256;
      end := end + 1;
      assert dst[..end] == front + [dst[end - 1]];
      assert front + ([dst[end - 1]] + rest) == front + [dst[end - 1]] + rest;
      n := n / 256;
    }
  }

  /** The tag byte of a literal and its length bytes. */
  method EmitLiteralHeader(dst: array<byte>, op: nat, len: nat) returns (at: nat)
    requires 1 <= len < 0x8000_0000 && op + |LiteralHeader(len)| <= dst.Length
    modifies dst
    ensures at == op + |LiteralHeader(len)|
    ensures dst[..at] == old(dst[..op]) + LiteralHeader(len)
  {
    var n := len - 1;
    if n < 60 {
      dst[op] := 4 * n;
      at := op + 1;
    } else {
      LengthBytesValue(n);
      hide LengthBytes;
      ghost var front := dst[..op + 1];
      at := StoreLength(dst, op + 1, n);
      ghost var stored := dst[..at];
      dst[op] := 4 * (59 + (at - op - 1));
      assert dst[..at] == stored[op := dst[op]];
      Retag(front, LengthBytes(n), dst[op]);
      assert front[..op] == old(dst[..op]);
    }
  }

  lemma Retag(a: seq<byte>, b: seq<byte>, tag: byte)
    requires a != []
    ensures (a + b)[|a| - 1 := tag] == a[..|a| - 1] + ([tag] + b)
  {
  }

  /** Emits a literal at `op` and returns the end of what it emitted. With `fast`, short literals
      are stored as sixteen bytes, of which those past the returned end are meaningless. */
  method EmitLiteral(dst: array<byte>, op: nat, input: seq<byte>, lit: nat, len: nat, fast: bool) returns (end: nat)
    requires 1 <= len < 0x8000_0000 && lit + len <= |input|
    requires fast ==> lit + 16 <= |input| && op + 17 <= dst.Length
    requires op + |LiteralHeader(len)| + len <= dst.Length
    modifies dst
    ensures end == op + |LiteralHeader(len)| + len
    ensures dst[..end] == old(dst[..op]) + LiteralBytes(input[lit..lit + len])
  {
    assert len <= 60 ==> |LiteralHeader(len)| == 1;
    hide LiteralHeader;
    ghost var data := input[lit..lit + len];
    var at := EmitLiteralHeader(dst, op, len);
    end := at + len;
    if fast && len <= 16 {
      Store(dst, at, input[lit..lit + 16]);
      assert dst[..end] == dst[..at + 16][..end];
      assert input[lit..lit + 16][..len] == data;
    } else {
      Store(dst, at, input[lit..lit + len]);
    }
    assert old(dst[..op]) + LiteralHeader(len) + data == old(dst[..op]) + (LiteralHeader(len) + data);
  }

  /** emit_copy_less_than64. */
  method EmitCopyLessThan64(dst: array<byte>, op: nat, offset: nat, len: nat) returns (end: nat)
    requires 4 <= len <= 64 && offset < 0x1_0000 && op + 3 <= dst.Length
    modifies dst
    ensures end == op + |CopyBytes(offset, len)|
    ensures dst[..end] == old(dst[..op]) + CopyBytes(offset, len)
  {
    if len < 12 && offset < 2048 {
      var lenMinus4 := len - 4;
      dst[op] := 1 + lenMinus4 * 4 + offset / 256 * 32;
      dst[op + 1] := offset % 256;
      end := op + 2;
    } else {
      dst[op] := 2 + (len - 1) * 4;
      dst[op + 1] := offset % 256;
      dst[op + 2] := offset / 256;
      end := op + 3;
    }
  }

  /** emit_copy: 64-byte pieces while at least four bytes stay behind, then up to two more. */
  method EmitCopy(dst: array<byte>, op: nat, offset: nat, len0: nat) returns (end: nat)
    requires 4 <= len0 && offset < 0x1_0000 && 4 * op + 3 * len0 + 8 <= 4 * dst.Length
    modifies dst
    ensures end == op + |CopyStream(offset, len0)| <= dst.Length
    ensures dst[..end] == old(dst[..op]) + CopyStream(offset, len0)
  {
    var len := len0;
    end := op;
    ghost var total := dst[..op] + CopyStream(offset, len0);
    while len >= 68
      invariant 4 <= len && 4 * end + 3 * len + 8 <= 4 * dst.Length
      invariant dst[..end] + CopyStream(offset, len) == total
      decreases len
    {
      end := EmitPiece(dst, end, offset, len, total);
      len := len - 64;
    }
    if len > 64 {
      end := EmitPiece(dst, end, offset, len, total);
      len := len - 60;
    }
    end := EmitCopyLessThan64(dst, end, offset, len);
  }

  /** One piece that is not the last. */
  method EmitPiece(dst: array<byte>, op: nat, offset: nat, len: nat, ghost total: seq<byte>) returns (end: nat)
    requires 64 < len && offset < 0x1_0000 && op + 3 <= dst.Length
    requires dst[..op] + CopyStream(offset, len) == total
    modifies dst
    ensures op < end <= op + 3
    ensures dst[..end] + CopyStream(offset, len - Piece(len)) == total
  {
    hide CopyBytes, Piece;
    end := EmitCopyLessThan64(dst, op, offset, Piece(len));
    var a, b, c := old(dst[..op]), CopyBytes(offset, Piece(len)), CopyStream(offset, len - Piece(len));
    assert a + (b + c) == (a + b) + c;
  }
}
