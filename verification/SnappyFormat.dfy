/** The Snappy compressed format, read from a flat byte string by a reference decoder.

Everything here is a specification: one tag is decoded at a time, copies are done one
byte at a time, and the whole compressed string is available. The buffered decoder, its
copy fast paths and the compressor are related to these functions in other modules. With
`narrow`, literal lengths are kept in 32 bits as in the source; without it they are exact.
 */
module SnappyFormat {
  import opened Basics

  /** Value of a little-endian byte string. */
  function LittleEndian(s: seq<byte>): nat {
    if s == [] then 0 else s[0] + 256 * LittleEndian(s[1..])
  }

  /** Number of bytes that follow the tag byte `c` before any literal data. */
  function TagExtra(c: byte): (n: nat)
    ensures n <= 4
  {
    if c % 4 == 0 then (if c / 4 < 60 then 0 else c / 4 - 59)
    else if c % 4 == 1 then 1
    else if c % 4 == 2 then 2
    else 4
  }

  /** Literal length of tag `c`. The source computes it in 32 bits, where 2^32 becomes 0. */
  function LiteralLength(c: byte, trailer: nat, narrow: bool): nat {
    if c / 4 < 60 then c / 4 + 1 else if narrow then (trailer + 1) % 0x1_0000_0000 else trailer + 1
  }

  function CopyLength(c: byte): nat {
    if c % 4 == 1 then 4 + c / 4 % 8 else c / 4 + 1
  }

  function CopyOffset(c: byte, trailer: nat): nat {
    if c % 4 == 1 then c / 32 * 256 + trailer else trailer
  }

  /** Every byte of `r` from index `from` on equals the byte `offset` places before it. */
  ghost predicate Repeats(r: seq<byte>, from: nat, offset: nat) {
    forall i, j :: from <= i < |r| && 0 <= j == i - offset ==> r[i] == r[j]
  }

  /** Appends `len` bytes to `out`, each equal to the byte `offset` places before it. */
  function OverlapCopy(out: seq<byte>, offset: nat, len: nat): (r: seq<byte>)
    requires 1 <= offset <= |out|
    ensures |r| == |out| + len
    ensures out <= r
    ensures Repeats(r, |out|, offset)
    decreases len
  {
    if len == 0 then out
    else OverlapCopy(out + [out[|out| - offset]], offset, len - 1)
  }

  datatype Outcome = Done(out: seq<byte>) | Fail

  /** Appends a literal of `n` bytes found at the front of `rest` and goes on with the tags. */
  function FinishLiteral(rest: seq<byte>, n: nat, out: seq<byte>, limit: nat, narrow: bool): Outcome
    decreases |rest|, 1
  {
    if |rest| < n || |out| + n > limit then Fail
    else RunTags(rest[n..], out + rest[..n], limit, narrow)
  }

  /** Decodes all tags of `s` behind `out`; no more than `limit` bytes may be produced. */
  function RunTags(s: seq<byte>, out: seq<byte>, limit: nat, narrow: bool): Outcome
    decreases |s|, 0
  {
    if s == [] then Done(out)
    else
      var c := s[0];
      var e := TagExtra(c);
      if |s| < 1 + e then Fail
      else
        var trailer := LittleEndian(s[1..1 + e]);
        var rest := s[1 + e..];
        if c % 4 == 0 then
          FinishLiteral(rest, LiteralLength(c, trailer, narrow), out, limit, narrow)
        else
          var offset := CopyOffset(c, trailer);
          var len := CopyLength(c);
          if offset == 0 || offset > |out| || |out| + len > limit then Fail
          else RunTags(rest, OverlapCopy(out, offset, len), limit, narrow)
  }

  function Digit(b: byte): (d: nat)
    ensures d < 128
  {
    b % 128
  }

  /** The stored length: base-128 digits, low first, at most five of them, kept in 32 bits.
      `scale` is the weight of the next digit. */
  function ReadLength(s: seq<byte>, scale: nat, acc: nat): Option<(nat, seq<byte>)>
    decreases |s|
  {
    if scale >= 0x8_0000_0000 || s == [] then None
    else
      var v := acc + Digit(s[0]) * scale % 0x1_0000_0000;
      if s[0] < 128 then Some((v, s[1..])) else ReadLength(s[1..], scale * 128, v)
  }

  /** What the decoder makes of a compressed string. */
  function Uncompress(s: seq<byte>): Option<seq<byte>> {
    match ReadLength(s, 1, 0)
    case None => None
    case Some((len, tags)) =>
      match RunTags(tags, [], len, true)
      case Fail => None
      case Done(out) => if |out| == len then Some(out) else None
  }

  /** The overlapping copy is the only extension in which every new byte repeats the byte
      `offset` places before it. */
  lemma {:induction false} OverlapCopyUnique(out: seq<byte>, offset: nat, r: seq<byte>)
    requires 1 <= offset <= |out|
    requires out <= r && Repeats(r, |out|, offset)
    ensures r == OverlapCopy(out, offset, |r| - |out|)
    decreases |r| - |out|
  {
    if |r| > |out| {
      assert r[|out|] == r[|out| - offset];
      OverlapCopyUnique(out + [out[|out| - offset]], offset, r);
    }
  }

  /** Two overlapping copies with the same offset make one of the summed length. */
  lemma {:induction false} OverlapCopyCompose(out: seq<byte>, offset: nat, a: nat, b: nat)
    requires 1 <= offset <= |out|
    ensures OverlapCopy(OverlapCopy(out, offset, a), offset, b) == OverlapCopy(out, offset, a + b)
    decreases a
  {
    if a > 0 {
      OverlapCopyCompose(out + [out[|out| - offset]], offset, a - 1, b);
    }
  }

  /** Decoding tags in two parts: if `a` is a whole number of tags, `a + b` decodes as `a` then `b`. */
  lemma {:induction false} RunTagsAppend(a: seq<byte>, b: seq<byte>, out: seq<byte>, limit: nat, narrow: bool)
    requires RunTags(a, out, limit, narrow).Done?
    ensures RunTags(a + b, out, limit, narrow) == RunTags(b, RunTags(a, out, limit, narrow).out, limit, narrow)
    decreases |a|
  {
    hide LittleEndian, LiteralLength, CopyOffset, CopyLength, OverlapCopy, TagExtra;
    if a == [] {
      assert a + b == b;
    } else {
      var c := a[0];
      var e := TagExtra(c);
      assert (a + b)[1..1 + e] == a[1..1 + e];
      assert (a + b)[1 + e..] == a[1 + e..] + b;
      var trailer := LittleEndian(a[1..1 + e]);
      var rest := a[1 + e..];
      if c % 4 == 0 {
        var n := LiteralLength(c, trailer, narrow);
        assert (rest + b)[n..] == rest[n..] + b;
        assert (rest + b)[..n] == rest[..n];
        RunTagsAppend(rest[n..], b, out + rest[..n], limit, narrow);
      } else {
        RunTagsAppend(rest, b, OverlapCopy(out, CopyOffset(c, trailer), CopyLength(c)), limit, narrow);
      }
    }
  }

  /** Decoding only ever appends, and stays within the limit. */
  lemma {:induction false} RunTagsExtends(s: seq<byte>, out: seq<byte>, limit: nat, narrow: bool)
    requires RunTags(s, out, limit, narrow).Done? && |out| <= limit
    ensures out <= RunTags(s, out, limit, narrow).out
    ensures |RunTags(s, out, limit, narrow).out| <= limit
    decreases |s|
  {
    if s != [] {
      var c := s[0];
      var e := TagExtra(c);
      var trailer := LittleEndian(s[1..1 + e]);
      var rest := s[1 + e..];
      if c % 4 == 0 {
        var n := LiteralLength(c, trailer, narrow);
        RunTagsExtends(rest[n..], out + rest[..n], limit, narrow);
      } else {
        var next := OverlapCopy(out, CopyOffset(c, trailer), CopyLength(c));
        RunTagsExtends(rest, next, limit, narrow);
      }
    }
  }

  lemma {:induction false} LittleEndianBound(s: seq<byte>)
    ensures |s| == 1 ==> LittleEndian(s) == s[0]
    ensures |s| == 2 ==> LittleEndian(s) == s[0] as int + 256 * (s[1] as int) < 0x1_0000
    ensures |s| == 3 ==> LittleEndian(s) == s[0] as int + 256 * (s[1] as int) + 0x1_0000 * (s[2] as int) < 0x100_0000
    ensures |s| == 4 ==>
      LittleEndian(s) == s[0] as int + 256 * (s[1] as int) + 0x1_0000 * (s[2] as int) + 0x100_0000 * (s[3] as int)
      && LittleEndian(s) < 0x1_0000_0000
  {
    if 1 <= |s| <= 4 {
      assert s[1..] == [] || s[1..][0] == s[1];
      LittleEndianBound(s[1..]);
    }
  }

  /** Equal-length little-endian strings with the same value are the same string. */
  lemma {:induction false} LittleEndianInjective(a: seq<byte>, b: seq<byte>)
    requires |a| == |b|
    requires LittleEndian(a) == LittleEndian(b)
    ensures a == b
  {
    if a != [] {
      assert a[0] == LittleEndian(a) % 256;
      assert b[0] == LittleEndian(b) % 256;
      LittleEndianInjective(a[1..], b[1..]);
      assert a == [a[0]] + a[1..] && b == [b[0]] + b[1..];
    }
  }

  /** 256 to the power n. */
  function ByteRange(n: nat): (r: nat)
    ensures r >= 1
  {
    if n == 0 then 1 else 256 * ByteRange(n - 1)
  }

  /** A little-endian number is its low part plus its scaled high part. */
  lemma {:induction false} LittleEndianSplit(s: seq<byte>, n: nat)
    requires n <= |s|
    ensures LittleEndian(s) == LittleEndian(s[..n]) + ByteRange(n) * LittleEndian(s[n..])
    ensures LittleEndian(s[..n]) < ByteRange(n)
  {
    if n == 0 {
      assert s[0..] == s;
    } else {
      LittleEndianSplit(s[1..], n - 1);
      assert s[..n][1..] == s[1..][..n - 1];
      assert s[1..][n - 1..] == s[n..];
      Regroup(s[0], LittleEndian(s[..n][1..]), ByteRange(n - 1), LittleEndian(s[n..]));
    }
  }

  lemma Regroup(digit: nat, low: nat, scale: nat, high: nat)
    ensures digit + 256 * (low + scale * high) == (digit + 256 * low) + 256 * scale * high
  {
    assert 256 * (scale * high) == 256 * scale * high;
  }
}
