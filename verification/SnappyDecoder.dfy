/** The decoder proper: a scatter-gather source, the refill buffer and the tag loop.

A compressed string arrives as a list of fragments. Tags that run over the end of a
fragment are stitched together in a 5-byte scratch buffer. The tag loop is proved to
compute the reference decoder on the concatenation of the fragments, so its verdict and
its output do not depend on how the string was cut.
 */
module SnappyDecoder {
  import opened Basics
  import opened DivMod
  import opened SnappyFormat
  import opened SnappyTagTable
  import opened SnappyVarint
  import opened SnappyWriter

  function Flatten(fragments: seq<seq<byte>>): seq<byte> {
    if fragments == [] then [] else fragments[0] + Flatten(fragments[1..])
  }

  /** Every fragment but the last holds at least one byte. */
  predicate Gathered(fragments: seq<seq<byte>>) {
    |fragments| >= 1 && forall i :: 0 <= i < |fragments| - 1 ==> fragments[i] != []
  }

  /** `struct source` of the scatter-gather build. The pair (`curvec`, `curoff`) is kept as what
      it stands for: the rest of the current fragment and the fragments after it. */
  class Source {
    var current: seq<byte>       // iov[curvec][curoff..]
    var later: seq<seq<byte>>    // iov[curvec + 1..]

    /** The current fragment is exhausted only when it is the last one. */
    ghost predicate Valid() reads this {
      && (forall i :: 0 <= i < |later| - 1 ==> later[i] != [])
      && (current == [] ==> later == [])
    }

    /** The bytes not yet skipped. */
    ghost function Rest(): seq<byte> reads this {
      current + Flatten(later)
    }

    constructor (fragments: seq<seq<byte>>)
      requires Gathered(fragments)
      ensures Valid() && Rest() == Flatten(fragments) && later == fragments[1..]
    {
      current, later := fragments[0], fragments[1..];
    }

    method Skip(n: nat)
      requires Valid() && n <= |current|
      modifies this
      ensures Valid() && Rest() == old(current)[n..] + Flatten(old(later))
      ensures old(later) == [] ==> later == [] && current == old(current)[n..]
    {
      current := current[n..];
      if current == [] && later != [] {
        current, later := later[0], later[1..];
      }
    }
  }

  /** The first tag of `s` with its extra bytes is complete. */
  predicate WholeTag(s: seq<byte>) {
    s != [] && |s| >= 1 + TagExtra(s[0])
  }

  function AfterTag(s: seq<byte>): seq<byte>
    requires WholeTag(s)
  {
    s[1 + TagExtra(s[0])..]
  }

  function Trailer(s: seq<byte>): nat
    requires WholeTag(s)
  {
    LittleEndian(s[1..1 + TagExtra(s[0])])
  }

  function LiteralSize(s: seq<byte>): nat
    requires WholeTag(s)
  {
    LiteralLength(s[0], Trailer(s), true)
  }

  /** How much of a literal of `n` bytes is stored when `avail` bytes are in one piece and the output
      has `room` left: all of it, what there is of it, or nothing. */
  function Kept(n: nat, avail: nat, room: int): nat {
    var m := if n <= avail then n else avail;
    if m <= room then m else 0
  }

  /** Decoding the tags in `s`, which are in one piece, stores no byte at all. */
  predicate StoresNothing(s: seq<byte>, limit: nat)
    decreases |s|
  {
    || s == [] || !WholeTag(s) || s[0] % 4 != 0
    || (var n := LiteralSize(s);
        if n == 0 then StoresNothing(AfterTag(s), limit) else Kept(n, |AfterTag(s)|, limit) == 0)
  }

  lemma CopyStores(s: seq<byte>, limit: nat)
    requires s != [] && s[0] % 4 != 0
    ensures StoresNothing(s, limit)
  {
  }

  lemma StoresStep(s: seq<byte>, limit: nat, ok: bool, s': seq<byte>, op: nat)
    requires WholeTag(s) && s[0] % 4 == 0
    requires ok <==> LiteralSize(s) <= |AfterTag(s)| && LiteralSize(s) <= limit
    requires ok ==> s' == AfterTag(s)[LiteralSize(s)..]
    requires op == Kept(LiteralSize(s), |AfterTag(s)|, limit)
    ensures op > 0 ==> !StoresNothing(s, limit)
    ensures op == 0 ==> StoresNothing(s, limit) == (ok ==> StoresNothing(s', limit))
  {
    hide AfterTag, LiteralSize;
    assert ok && LiteralSize(s) == 0 ==> s' == AfterTag(s);
  }

  /** Short literals keep their length in the tag byte, long ones in up to four bytes after it. */
  lemma LiteralForms(s: seq<byte>)
    requires WholeTag(s) && s[0] % 4 == 0
    ensures TagExtra(s[0]) == if s[0] / 4 < 60 then 0 else s[0] / 4 - 59
    ensures s[0] / 4 < 60 ==> AfterTag(s) == s[1..] && LiteralSize(s) == s[0] / 4 + 1
    ensures s[0] / 4 >= 60 ==> var extra := s[0] / 4 - 59;
                               extra <= |s[1..]| && AfterTag(s) == s[1..][extra..]
                               && LiteralSize(s) == (LittleEndian(s[1..][..extra]) + 1) % 0x1_0000_0000
  {
    var extra := TagExtra(s[0]);
    assert s[1..][..extra] == s[1..1 + extra];
  }

  /** What decoding the literal in front of `s` does to the input and the output. */
  ghost predicate LiteralOutcome(s: seq<byte>, out: seq<byte>, limit: nat, ok: bool, s': seq<byte>, out': seq<byte>)
    requires WholeTag(s)
  {
    var rest, n := AfterTag(s), LiteralSize(s);
    && (ok <==> n <= |rest| && |out| + n <= limit)
    && (ok ==> s' == rest[n..] && out' == out + rest[..n])
  }

  /** What decoding the copy in front of `s` does to the input and the output. */
  ghost predicate CopyOutcome(s: seq<byte>, out: seq<byte>, limit: nat, ok: bool, s': seq<byte>, out': seq<byte>)
    requires WholeTag(s)
  {
    var offset, len := CopyOffset(s[0], Trailer(s)), CopyLength(s[0]);
    && (ok <==> 1 <= offset <= |out| && |out| + len <= limit)
    && (ok ==> s' == AfterTag(s) && out' == OverlapCopy(out, offset, len))
  }

  /** The reference decoder on no input and on a cut-off tag. */
  lemma StreamEnd(s: seq<byte>, out: seq<byte>, limit: nat)
    ensures s == [] ==> RunTags(s, out, limit, true) == Done(out)
    ensures s != [] && !WholeTag(s) ==> RunTags(s, out, limit, true) == Fail
    ensures s == [] || !WholeTag(s) ==> StoresNothing(s, limit)
  {
  }

  lemma LiteralStep(s: seq<byte>, out: seq<byte>, limit: nat, ok: bool, s': seq<byte>, out': seq<byte>)
    requires WholeTag(s) && s[0] % 4 == 0 && LiteralOutcome(s, out, limit, ok, s', out')
    ensures RunTags(s, out, limit, true) == if ok then RunTags(s', out', limit, true) else Fail
    ensures ok ==> |s'| < |s|
  {
  }

  lemma CopyStep(s: seq<byte>, out: seq<byte>, limit: nat, ok: bool, s': seq<byte>, out': seq<byte>)
    requires WholeTag(s) && s[0] % 4 != 0 && CopyOutcome(s, out, limit, ok, s', out')
    ensures RunTags(s, out, limit, true) == if ok then RunTags(s', out', limit, true) else Fail
    ensures ok ==> |s'| < |s|
  {
  }

  /** The low `n` bytes of a 32-bit load are the load of the first `n` bytes; `wordmask[n]` is
      256^n - 1, and masking with it is taking the remainder by 256^n. */
  lemma MaskedLoad(s: seq<byte>, n: nat)
    requires n <= |s|
    ensures LittleEndian(s) % ByteRange(n) == LittleEndian(s[..n])
  {
    LittleEndianSplit(s, n);
    Quotient(LittleEndian(s), ByteRange(n), LittleEndian(s[n..]), LittleEndian(s[..n]));
  }

  /** A copy tag as the lookup table has it: length and high bits of the offset. */
  method CopyFields(c: byte) returns (len: nat, offsetHigh: nat)
    requires c % 4 != 0
    ensures len == CopyLength(c) && 1 <= len <= 64
    ensures offsetHigh == CopyOffset(c, 0)
  {
    TableIsFormat(c);
    len := CharTable(c) % 256;
    offsetHigh := CharTable(c) / 256 % 8 * 256;
  }

  lemma CopyOffsetParts(c: byte, trailer: nat)
    requires c % 4 != 0 && trailer < ByteRange(TagExtra(c))
    ensures CopyOffset(c, 0) + trailer == CopyOffset(c, trailer) < 0x1_0000_0000
  {
    assert ByteRange(1) == 256 && ByteRange(2) == 0x1_0000 && ByteRange(4) == 256 * (256 * ByteRange(2));
  }

  /** Bytes of a tag as the lookup table has it, with the tag byte itself. */
  method TagBytes(c: byte) returns (needed: nat)
    ensures needed == TagExtra(c) + 1
  {
    TableIsFormat(c);
    needed := CharTable(c) / 2048 + 1;
  }

  lemma Regrouped(data: seq<byte>, piece: seq<byte>, rest: seq<byte>, out: seq<byte>)
    ensures data + (piece + rest) == data + piece + rest && out + data + piece == out + (data + piece)
  {
  }

  lemma Stitched(mem: seq<byte>, n: nat, data: seq<byte>, k: nat, rest: seq<byte>)
    requires n + k <= |mem| && k <= |data|
    ensures var mem' := mem[..n] + data[..k] + mem[n + k..];
            && |mem'| == |mem| && mem'[..n + k] == mem[..n] + data[..k]
            && mem'[..n + k] + (data[k..] + rest) == mem[..n] + (data + rest)
  {
    assert data == data[..k] + data[k..];
  }

  class Decompressor {
    const reader: Source
    var mem: seq<byte>      // the buffer `ip` points into: a fragment, or the scratch buffer
    var ip: nat             // next buffered byte
    var ipLimit: nat        // just past the buffered bytes
    var peeked: nat         // bytes shown by the reader that are still to be skipped
    var eof: bool
    const stale: seq<byte>  // what the scratch buffer holds where nothing was stored

    /** The compressed bytes still to be decoded: what is buffered, then what the reader has
        beyond the bytes it already showed. */
    ghost var pending: seq<byte>

    ghost predicate Valid() reads this, reader {
      && reader.Valid()
      && ip <= ipLimit <= |mem|
      && peeked <= |reader.current|
      && |stale| == 5
      && pending == mem[ip..ipLimit] + (reader.current[peeked..] + Flatten(reader.later))
    }

    /** All bytes still to be decoded are buffered. */
    ghost predicate Whole() reads this, reader {
      reader.later == [] && peeked == |reader.current|
    }

    /** There is no later fragment, and what is left of this one will be buffered as a whole. */
    ghost predicate LastPiece() reads this, reader {
      Whole() || (reader.later == [] && ip == ipLimit)
    }

    lemma Buffered()
      requires Valid()
      ensures ip <= ipLimit <= |mem| && ipLimit - ip <= |pending|
      ensures ip < ipLimit ==> mem[ip] == pending[0]
      ensures Whole() ==> |pending| == ipLimit - ip
    {
    }

    constructor (r: Source, garbage: seq<byte>)
      requires r.Valid() && |garbage| == 5
      ensures reader == r && Valid() && !eof && pending == r.Rest() && mem == [] && peeked == 0
    {
      reader, mem, ip, ipLimit, peeked, eof := r, [], 0, 0, 0, false;
      stale := garbage;
      pending := r.Rest();
    }

    /** Reads the stored length straight from the source, one byte at a time. */
    method ReadUncompressedLength() returns (ok: bool, result: nat)
      requires Valid() && mem == [] && peeked == 0
      modifies reader, this`pending
      ensures Valid() && (old(reader.later) == [] ==> reader.later == [])
      ensures ok <==> ReadLength(old(pending), 1, 0).Some?
      ensures ok ==> ReadLength(old(pending), 1, 0) == Some((result, pending))
    {
      result := 0;
      var scale := 1;
      while true
        invariant Valid() && scale >= 1 && (old(reader.later) == [] ==> reader.later == [])
        invariant ReadLength(pending, scale, result) == ReadLength(old(pending), 1, 0)
        decreases |pending|
      {
        if scale >= 0x8_0000_0000 { return false, 0; }
        if reader.current == [] { return false, 0; }
        var c := reader.current[0];
        assert pending[0] == c;
        assert pending[1..] == reader.current[1..] + Flatten(reader.later);
        reader.Skip(1);
        pending := pending[1..];
        result := result + Digit(c) * scale % 0x1_0000_0000;
        if c < 128 { break; }
        scale := scale * 128;
      }
      return true, result;
    }

    /** Makes a whole tag available at `ip`, with five readable bytes from there on, or reports
        why that is not possible: `eof` at a tag boundary, otherwise a cut-off tag. */
    method RefillTag() returns (ok: bool)
      requires Valid() && !eof
      modifies this, reader
      ensures Valid() && pending == old(pending)
      ensures ok ==> AtTag() && !eof && (old(LastPiece()) ==> Whole())
      ensures ok <==> WholeTag(pending)
      ensures eof <==> pending == []
    {
      hide TagExtra, Flatten, Valid, Source.Valid;
      Buffered();
      if ip == ipLimit {
        NextFragment();
        if mem == [] {
          AtEnd();
          return false;
        }
        Buffered();
      }
      var needed := TagBytes(mem[ip]);
      if ipLimit - ip < needed {
        ok := Stitch(needed);
      } else {
        if ipLimit - ip < 5 { MoveToScratch(); }
        ok := true;
      }
      Buffered();
    }

    method AtEnd()
      requires Valid()
      modifies this`eof
      ensures Valid() && eof
    {
      eof := true;
    }

    /** A whole tag is buffered at `ip`, and the four bytes behind the tag byte are readable. */
    ghost predicate AtTag() reads this {
      ip < ipLimit <= |mem| && ip + 5 <= |mem| && ipLimit - ip >= 1 + TagExtra(mem[ip])
    }

    /** All buffered bytes are used up: skip them and look at the next fragment. */
    method NextFragment()
      requires Valid() && ip == ipLimit
      modifies this, reader
      ensures Valid() && pending == old(pending) && eof == old(eof)
      ensures ip == 0 && ipLimit == |mem| == peeked
      ensures mem == [] <==> pending == []
      ensures mem != [] ==> mem[0] == pending[0]
      ensures old(reader.later) == [] ==> Whole()
    {
      reader.Skip(peeked);
      mem := reader.current;
      ip, ipLimit, peeked := 0, |mem|, |mem|;
    }

    /** Enough bytes for the tag but fewer than five: move them so that no read goes past the
        end of the input. */
    method MoveToScratch()
      requires Valid() && ipLimit - ip < 5
      modifies this, reader
      ensures Valid() && pending == old(pending) && eof == old(eof)
      ensures |mem| == 5 && peeked == 0 && ip == 0 && ipLimit == old(ipLimit - ip)
      ensures ipLimit > 0 ==> mem[0] == old(mem)[old(ip)]
      ensures old(Whole()) ==> Whole()
    {
      var nbuf := ipLimit - ip;
      mem := mem[ip..ipLimit] + stale[nbuf..];
      reader.Skip(peeked);
      peeked := 0;
      ip, ipLimit := 0, nbuf;
    }

    /** Too few bytes for the tag: collect the missing ones from as many fragments as it takes. */
    method Stitch(needed: nat) returns (ok: bool)
      requires Valid() && 0 < ipLimit - ip < needed <= 5
      modifies this, reader
      ensures Valid() && pending == old(pending) && eof == old(eof)
      ensures ok <==> |pending| >= needed
      ensures ok ==> ip == 0 && ipLimit == needed && |mem| == 5 && mem[0] == old(mem)[old(ip)]
    {
      MoveToScratch();
      while ipLimit < needed
        invariant Valid() && eof == old(eof) && ip == 0 < ipLimit <= needed
        invariant |mem| == 5 && peeked == 0 && pending == old(pending)
        invariant mem[0] == old(mem)[old(ip)]
        decreases needed - ipLimit
      {
        var more := AddToScratch(needed);
        if !more { return false; }
      }
      return true;
    }

    /** One round of stitching: as much of the current fragment as is needed. */
    method AddToScratch(needed: nat) returns (more: bool)
      requires Valid() && ip == 0 < ipLimit < needed <= 5 && |mem| == 5 && peeked == 0
      modifies this, reader
      ensures Valid() && eof == old(eof) && ip == 0 && |mem| == 5 && peeked == 0
      ensures pending == old(pending) && mem[0] == old(mem)[0]
      ensures !more ==> |pending| < needed
      ensures more ==> old(ipLimit) < ipLimit <= needed
    {
      var data := reader.current;
      if data == [] { return false; }
      var toAdd := if needed - ipLimit < |data| then needed - ipLimit else |data|;
      Stitched(mem, ipLimit, data, toAdd, Flatten(reader.later));
      mem := mem[..ipLimit] + data[..toAdd] + mem[ipLimit + toAdd..];
      reader.Skip(toAdd);
      ipLimit := ipLimit + toAdd;
      more := true;
    }

    /** get_unaligned_le32 at `ip`, masked to `n` bytes: all four bytes read lie in the buffer. */
    method LoadTrailer(n: nat) returns (v: nat)
      requires Valid() && n <= 4 && ip + 4 <= |mem| && ip + n <= ipLimit
      ensures v == LittleEndian(pending[..n]) && v < ByteRange(n)
    {
      var word := mem[ip..ip + 4];
      MaskedLoad(word, n);
      LittleEndianSplit(word, n);
      assert word[..n] == mem[ip..ipLimit][..n] == pending[..n];
      v := LittleEndian(word) % ByteRange(n);
    }

    /** Moves `ip` over `n` buffered bytes. */
    method Advance(n: nat)
      requires Valid() && n <= ipLimit - ip
      modifies this`ip, this`pending
      ensures Valid() && ip == old(ip) + n
      ensures n <= |old(pending)| && pending == old(pending)[n..]
      ensures old(pending)[..n] == mem[old(ip)..ip]
    {
      assert pending[n..] == mem[ip + n..ipLimit] + (reader.current[peeked..] + Flatten(reader.later));
      assert pending[..n] == mem[ip..ip + n];
      ip := ip + n;
      pending := pending[n..];
    }

    /** Appends the next `n` buffered bytes to the output. */
    method TakeBuffered(w: Writer, n: nat) returns (ok: bool, ghost data: seq<byte>)
      requires Valid() && w.Valid() && n <= ipLimit - ip
      modifies this`ip, this`pending, w`op, w.buf
      ensures Valid() && w.Valid() && n <= |old(pending)|
      ensures ok <==> old(w.op) + n <= w.opLimit
      ensures ok ==> |data| == n && old(pending) == data + pending && ip == old(ip) + n
      ensures ok ==> w.Out() == old(w.Out()) + data
      ensures w.Grown(old(w.op), old(w.buf[..])) && w.op == old(w.op) + if ok then n else 0
      ensures forall k :: w.opLimit <= k < w.buf.Length ==> w.buf[k] == old(w.buf[k])
    {
      data := mem[ip..ip + n];
      ok := w.Append(mem[ip..ip + n]);
      if ok { Advance(n); }
    }

    /** Appends everything buffered and moves on to the next fragment. */
    method DrainBuffer(w: Writer) returns (ok: bool, ghost data: seq<byte>)
      requires Valid() && w.Valid()
      modifies this, reader, w`op, w.buf
      ensures Valid() && w.Valid() && eof == old(eof) && old(ipLimit - ip) <= |old(pending)|
      ensures ok <==> old(w.op) + old(ipLimit - ip) <= w.opLimit
      ensures ok ==> |data| == old(ipLimit - ip) && old(pending) == data + pending
      ensures ok ==> w.Out() == old(w.Out()) + data
      ensures ok ==> ip == 0 && ipLimit == |mem| && (mem == [] <==> pending == [])
      ensures w.Grown(old(w.op), old(w.buf[..])) && w.op == old(w.op) + if ok then old(ipLimit - ip) else 0
      ensures forall k :: w.opLimit <= k < w.buf.Length ==> w.buf[k] == old(w.buf[k])
    {
      ok, data := TakeBuffered(w, ipLimit - ip);
      if ok { NextFragment(); }
    }

    /** While the buffer holds less than the literal still needs, appends all of it. Afterwards
        `left` bytes are missing and buffered, unless the input or the output room ran out. */
    method DrainLiteral(w: Writer, n: nat) returns (ok: bool, left: nat, ghost data: seq<byte>)
      requires Valid() && w.Valid()
      modifies this, reader, w`op, w.buf
      ensures Valid() && w.Valid() && eof == old(eof)
      ensures ok ==> left <= ipLimit - ip && |data| + left == n
      ensures ok ==> old(pending) == data + pending && w.Out() == old(w.Out()) + data && w.op == old(w.op) + |data|
      ensures !ok ==> n > |old(pending)| || old(w.op) + n > w.opLimit
      ensures w.Grown(old(w.op), old(w.buf[..]))
      ensures old(Whole()) && ok ==> Whole() && w.op == old(w.op) && left == n
      ensures old(Whole()) && !ok ==>
        n > |old(pending)| && w.op == old(w.op) + Kept(n, |old(pending)|, w.opLimit - old(w.op))
      ensures forall k :: w.opLimit <= k < w.buf.Length ==> w.buf[k] == old(w.buf[k])
    {
      hide Valid, Flatten, Source.Valid, Writer.Valid, Writer.Out;
      ok, left, data := true, n, [];
      Buffered();
      while ipLimit - ip < left
        invariant Valid() && w.Valid() && eof == old(eof) && 0 <= ipLimit - ip <= |pending|
        invariant |data| + left == n && old(pending) == data + pending
        invariant w.Out() == old(w.Out()) + data && w.op == old(w.op) + |data|
        invariant w.Grown(old(w.op), old(w.buf[..]))
        invariant old(Whole()) ==> Whole() && left == n && ipLimit - ip == |pending|
        invariant forall k :: w.opLimit <= k < w.buf.Length ==> w.buf[k] == old(w.buf[k])
        decreases left, ip == ipLimit
      {
        left := left - (ipLimit - ip);
        ghost var piece;
        ok, piece := DrainBuffer(w);
        if !ok { return; }
        Regrouped(data, piece, pending, old(w.Out()));
        data := data + piece;
        ok := mem != [];
        if !ok { return; }
        Buffered();
      }
    }

    /** Appends a literal of `n` bytes that may run over many fragments. It fails exactly when
        the input or the room for output is too short. */
    method CopyLiteral(w: Writer, n: nat) returns (ok: bool, ghost data: seq<byte>)
      requires Valid() && w.Valid()
      modifies this, reader, w`op, w.buf
      ensures Valid() && w.Valid() && eof == old(eof)
      ensures ok <==> n <= |old(pending)| && old(w.op) + n <= w.opLimit
      ensures ok ==> |data| == n && old(pending) == data + pending && w.Out() == old(w.Out()) + data
      ensures w.Grown(old(w.op), old(w.buf[..]))
      ensures old(Whole()) ==> w.op == old(w.op) + Kept(n, |old(pending)|, w.opLimit - old(w.op)) && (ok ==> Whole())
      ensures forall k :: w.opLimit <= k < w.buf.Length ==> w.buf[k] == old(w.buf[k])
    {
      hide Valid, Flatten, Source.Valid, Writer.Valid, Writer.Out;
      var left;
      ok, left, data := DrainLiteral(w, n);
      Buffered();
      if ok {
        ghost var piece;
        ok, piece := TakeBuffered(w, left);
        Regrouped(data, piece, pending, old(w.Out()));
        data := data + piece;
      }
    }

    /** The literal tag at `ip` is read and passed over. Literals of up to 16 bytes are also
        appended on the way when both sides have 16 bytes to spare. */
    method ReadLiteralTag(w: Writer) returns (n: nat, done: bool)
      requires Valid() && w.Valid() && AtTag() && mem[ip] % 4 == 0
      modifies this`ip, this`pending, w`op, w.buf
      ensures Valid() && w.Valid() && WholeTag(old(pending)) && n == LiteralSize(old(pending))
      ensures !done ==> w.Out() == old(w.Out()) && pending == AfterTag(old(pending))
      ensures done ==> n <= |AfterTag(old(pending))| && pending == AfterTag(old(pending))[n..]
      ensures done ==> w.Out() == old(w.Out()) + AfterTag(old(pending))[..n]
      ensures w.Grown(old(w.op), old(w.buf[..])) && w.op == old(w.op) + if done then n else 0
      ensures forall k :: w.opLimit <= k < w.buf.Length ==> w.buf[k] == old(w.buf[k])
    {
      hide TagExtra, AfterTag, LiteralSize, LittleEndian, Flatten, Writer.Valid, Writer.Out;
      var c := mem[ip];
      assert pending[0] == c;
      LiteralForms(pending);
      Advance(1);
      n := c / 4 + 1;
      done := w.TryFastAppend(mem[ip..ipLimit], n);
      if done {
        Advance(n);
      } else if n >= 61 {
        n := ReadLongLength(n - 60);
      }
    }

    /** The length bytes of a long literal. */
    method ReadLongLength(extra: nat) returns (n: nat)
      requires Valid() && extra <= 4 && ip + 4 <= |mem| && ip + extra <= ipLimit
      modifies this`ip, this`pending
      ensures Valid() && extra <= |old(pending)|
      ensures n == (LittleEndian(old(pending)[..extra]) + 1) % 0x1_0000_0000
      ensures pending == old(pending)[extra..]
    {
      var trailer := LoadTrailer(extra);
      n := (trailer + 1) % 0x1_0000_0000;
      Advance(extra);
    }

    /** Decodes the literal whose tag is at `ip`. */
    method LiteralTag(w: Writer) returns (ok: bool)
      requires Valid() && w.Valid() && AtTag() && mem[ip] % 4 == 0
      modifies this, reader, w`op, w.buf
      ensures Valid() && w.Valid() && eof == old(eof) && WholeTag(old(pending))
      ensures LiteralOutcome(old(pending), old(w.Out()), w.opLimit, ok, pending, w.Out())
      ensures w.Grown(old(w.op), old(w.buf[..])) && (old(Whole()) && ok ==> Whole())
      ensures old(Whole()) ==>
        w.op == old(w.op) + Kept(LiteralSize(old(pending)), |AfterTag(old(pending))|, w.opLimit - old(w.op))
      ensures forall k :: w.opLimit <= k < w.buf.Length ==> w.buf[k] == old(w.buf[k])
    {
      var n, done := ReadLiteralTag(w);
      if done {
        ok := true;
      } else {
        ghost var rest := pending;
        ghost var data;
        ok, data := CopyLiteral(w, n);
        assert ok ==> rest[..n] == data && rest[n..] == pending;
      }
    }

    /** Decodes the copy whose tag is at `ip`. */
    method CopyTag(w: Writer) returns (ok: bool)
      requires Valid() && w.Valid() && AtTag() && mem[ip] % 4 != 0
      modifies this`ip, this`pending, w`op, w.buf
      ensures Valid() && w.Valid() && WholeTag(old(pending))
      ensures CopyOutcome(old(pending), old(w.Out()), w.opLimit, ok, pending, w.Out())
      ensures w.Grown(old(w.op), old(w.buf[..])) && (!ok ==> w.op == old(w.op))
      ensures forall k :: w.opLimit <= k < w.buf.Length ==> w.buf[k] == old(w.buf[k])
    {
      hide TagExtra, LittleEndian, ByteRange, Flatten, OverlapCopy, CopyOffset, CopyLength;
      var c := mem[ip];
      assert pending[0] == c;
      var len, offsetHigh := CopyFields(c);
      var tagBytes := TagBytes(c);
      var extra := tagBytes - 1;
      Advance(1);
      var trailer := LoadTrailer(extra);
      assert pending[..extra] == old(pending)[1..1 + extra];
      Advance(extra);
      CopyOffsetParts(c, trailer);
      ok := w.AppendFromSelf(offsetHigh + trailer, len);
    }

    /** Decodes the tag at `ip`. */
    method DecodeTag(w: Writer) returns (ok: bool)
      requires Valid() && w.Valid() && AtTag() && pending != [] && mem[ip] == pending[0]
      modifies this, reader, w`op, w.buf
      ensures Valid() && w.Valid() && eof == old(eof) && (ok ==> |pending| < |old(pending)|)
      ensures RunTags(old(pending), old(w.Out()), w.opLimit, true) ==
        if ok then RunTags(pending, w.Out(), w.opLimit, true) else Fail
      ensures w.Grown(old(w.op), old(w.buf[..])) && (old(Whole()) && ok ==> Whole())
      ensures old(Whole()) && old(w.op) == 0 && w.op > 0 ==> !StoresNothing(old(pending), w.opLimit)
      ensures old(Whole()) && w.op == 0 ==>
        StoresNothing(old(pending), w.opLimit) == (ok ==> StoresNothing(pending, w.opLimit))
      ensures forall k :: w.opLimit <= k < w.buf.Length ==> w.buf[k] == old(w.buf[k])
    {
      hide RunTags, Flatten, TagExtra, AfterTag, LiteralSize, Kept, StoresNothing;
      ghost var before, out := pending, w.Out();
      if mem[ip] % 4 == 0 {
        ok := LiteralTag(w);
        LiteralStep(before, out, w.opLimit, ok, pending, w.Out());
        if old(Whole()) && |out| == 0 { StoresStep(before, w.opLimit, ok, pending, w.op); }
      } else {
        ok := CopyTag(w);
        CopyStep(before, out, w.opLimit, ok, pending, w.Out());
        CopyStores(before, w.opLimit);
      }
    }

    /** The tag loop. The source repeats the refill test at the end of every branch; a second
        test in a row finds the tag already buffered. */
    method DecompressAllTags(w: Writer)
      requires Valid() && w.Valid() && !eof
      modifies this, reader, w`op, w.buf
      ensures Valid() && w.Valid()
      ensures eof ==> RunTags(old(pending), old(w.Out()), w.opLimit, true) == Done(w.Out())
      ensures !eof ==> RunTags(old(pending), old(w.Out()), w.opLimit, true) == Fail
      ensures w.Grown(old(w.op), old(w.buf[..]))
      ensures old(LastPiece()) && old(w.op) == 0 ==> (w.op == 0 <==> StoresNothing(old(pending), w.opLimit))
      ensures forall k :: w.opLimit <= k < w.buf.Length ==> w.buf[k] == old(w.buf[k])
    {
      hide RunTags, Flatten, TagExtra, StoresNothing, Writer.Out;
      ghost var first := RunTags(pending, w.Out(), w.opLimit, true);
      ghost var single, quiet := LastPiece() && w.op == 0, StoresNothing(pending, w.opLimit);
      var ok := true;
      while ok
        invariant Valid() && w.Valid()
        invariant ok ==> !eof && RunTags(pending, w.Out(), w.opLimit, true) == first
        invariant !ok ==> first == if eof then Done(w.Out()) else Fail
        invariant w.Grown(old(w.op), old(w.buf[..]))
        invariant single ==> (w.op > 0 ==> !quiet) && (ok ==> LastPiece())
        invariant single && w.op == 0 ==> quiet == (ok ==> StoresNothing(pending, w.opLimit))
        invariant forall k :: w.opLimit <= k < w.buf.Length ==> w.buf[k] == old(w.buf[k])
        decreases ok, |pending|
      {
        StreamEnd(pending, w.Out(), w.opLimit);
        if ipLimit - ip < 5 { ok := RefillTag(); }
        if ok {
          assert mem[ip] == pending[0];
          ok := DecodeTag(w);
        }
      }
    }
  }

  /** Decoding a string that is in one piece stores no byte: its length cannot be read, or decoding
      stops before the first byte. */
  predicate Untouched(s: seq<byte>) {
    var h := ReadLength(s, 1, 0);
    h.None? || StoresNothing(h.value.1, h.value.0)
  }

  /** Decodes a compressed string given in fragments into `memory`, which must be able to hold
      the stored length. The verdict and the output are those of the reference decoder on the
      concatenation: they do not depend on how the string was cut, nor on what the scratch
      buffer held. On failure the output memory past the stored length is untouched as well.
      `produced` bytes have been decoded when it stops; bytes are stored only if there are any. */
  method InternalUncompress(fragments: seq<seq<byte>>, memory: array<byte>, garbage: seq<byte>)
    returns (status: int, produced: nat)
    requires Gathered(fragments) && |garbage| == 5
    requires StoredLength(Flatten(fragments)) <= memory.Length
    modifies memory
    ensures status == if Uncompress(Flatten(fragments)).Some? then 0 else -5   // -EIO
    ensures status == 0 ==> Uncompress(Flatten(fragments)) == Some(memory[..StoredLength(Flatten(fragments))])
    ensures forall k :: StoredLength(Flatten(fragments)) <= k < memory.Length ==> memory[k] == old(memory[k])
    ensures produced == 0 ==> memory[..] == old(memory[..])
    ensures status == 0 ==> produced == StoredLength(Flatten(fragments))
    ensures |fragments| == 1 ==> (produced == 0 <==> Untouched(Flatten(fragments)))
  {
    hide RunTags, ReadLength, Flatten, StoresNothing;
    var r := new Source(fragments);
    var d := new Decompressor(r, garbage);
    var w := new Writer(memory);
    var ok, len := d.ReadUncompressedLength();
    if !ok { return -5, 0; }
    ReadLengthFits(Flatten(fragments));
    w.SetExpectedLength(len);
    d.DecompressAllTags(w);
    status, produced := if d.eof && w.op == w.opLimit then 0 else -5, w.op;
  }
}
