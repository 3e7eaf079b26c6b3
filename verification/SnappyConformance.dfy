/** Where the decoder departs from the format.

The decoder keeps lengths in 32 bits. It reads a stored length of 2^32 or more without its high
bits, and a literal of 2^32 bytes as one of none. `Meaning` has exact lengths; the decoder
accepts more strings, and the lemmas say exactly which.
 */
module SnappyConformance {
  import opened Basics
  import opened SnappyFormat
  import opened SnappyVarint

  /** The stored length: at most five base-128 digits, low first, for a number below 2^32. */
  function ExactLength(s: seq<byte>, scale: nat, acc: nat): Option<(nat, seq<byte>)>
    decreases |s|
  {
    if scale >= 0x8_0000_0000 || s == [] then None
    else
      var v := acc + Digit(s[0]) * scale;
      if s[0] >= 128 then ExactLength(s[1..], scale * 128, v)
      else if v < 0x1_0000_0000 then Some((v, s[1..])) else None
  }

  /** The meaning of a compressed string by the format. */
  function Meaning(s: seq<byte>): Option<seq<byte>> {
    match ExactLength(s, 1, 0)
    case None => None
    case Some((len, tags)) =>
      match RunTags(tags, [], len, false)
      case Fail => None
      case Done(out) => if |out| == len then Some(out) else None
  }

  lemma ExactStep(s: seq<byte>, scale: nat, acc: nat)
    requires Weight(scale) && acc < scale
    ensures s == [] ==> ExactLength(s, scale, acc) == None
    ensures s != [] && s[0] < 128 ==>
      var v := acc + Digit(s[0]) * scale;
      && ExactLength(s, scale, acc) == (if v < 0x1_0000_0000 then Some((v, s[1..])) else None)
      && (v >= 0x1_0000_0000 <==> scale == 0x1000_0000 && s[0] >= 16)
    ensures s != [] && s[0] >= 128 ==>
      && ExactLength(s, scale, acc) == ExactLength(s[1..], scale * 128, acc + Digit(s[0]) * scale)
      && acc + Digit(s[0]) * scale < scale * 128
      && (scale == 0x1000_0000 ==> ExactLength(s, scale, acc) == None)
  {
  }

  /** `varint_parse32_with_limit` reads the length that the format gives. */
  lemma ParseIsExact(s: seq<byte>)
    ensures ExactLength(s, 1, 0) == ParseRest(s)
  {
    hide ExactLength;
    ExactStep(s, 1, 0);
    if |s| >= 1 && s[0] >= 128 {
      var r1 := Digit(s[0]);
      ExactStep(s[1..], 0x80, r1);
      if |s| >= 2 && s[1] >= 128 {
        var r2 := r1 + Digit(s[1]) * 0x80;
        assert s[1..][1..] == s[2..];
        ExactStep(s[2..], 0x4000, r2);
        if |s| >= 3 && s[2] >= 128 {
          var r3 := r2 + Digit(s[2]) * 0x4000;
          assert s[2..][1..] == s[3..];
          ExactStep(s[3..], 0x20_0000, r3);
          if |s| >= 4 && s[3] >= 128 {
            var r4 := r3 + Digit(s[3]) * 0x20_0000;
            assert s[3..][1..] == s[4..];
            ExactStep(s[4..], 0x1000_0000, r4);
          }
        }
      }
    }
  }

  /** While it decodes `s`, the decoder meets a literal tag that announces 2^32 bytes. */
  predicate MeetsWrap(s: seq<byte>, out: seq<byte>, limit: nat)
    decreases |s|
  {
    s != [] && |s| >= 1 + TagExtra(s[0]) &&
    var c, e := s[0], TagExtra(s[0]);
    var trailer, rest := LittleEndian(s[1..1 + e]), s[1 + e..];
    if c % 4 == 0 then
      var n := LiteralLength(c, trailer, true);
      || n == 0
      || (n <= |rest| && |out| + n <= limit && MeetsWrap(rest[n..], out + rest[..n], limit))
    else
      var offset, len := CopyOffset(c, trailer), CopyLength(c);
      1 <= offset <= |out| && |out| + len <= limit && MeetsWrap(rest, OverlapCopy(out, offset, len), limit)
  }

  lemma ExactLiteral(s: seq<byte>)
    requires s != [] && |s| >= 1 + TagExtra(s[0]) && s[0] % 4 == 0
    ensures var trailer := LittleEndian(s[1..1 + TagExtra(s[0])]);
            LiteralLength(s[0], trailer, false) ==
              var n := LiteralLength(s[0], trailer, true); if n == 0 then 0x1_0000_0000 else n
  {
    LittleEndianBound(s[1..1 + TagExtra(s[0])]);
    hide LittleEndian;
  }

  /** With exact lengths the tags decode to the same, unless a literal of 2^32 bytes is met. */
  lemma {:induction false} ExactTags(s: seq<byte>, out: seq<byte>, limit: nat)
    requires limit < 0x1_0000_0000
    ensures RunTags(s, out, limit, false) == if MeetsWrap(s, out, limit) then Fail else RunTags(s, out, limit, true)
    decreases |s|
  {
    hide LittleEndian, LiteralLength, CopyOffset, CopyLength, OverlapCopy, TagExtra;
    if s != [] && |s| >= 1 + TagExtra(s[0]) {
      var c, e := s[0], TagExtra(s[0]);
      var trailer, rest := LittleEndian(s[1..1 + e]), s[1 + e..];
      if c % 4 == 0 {
        ExactLiteral(s);
        var n := LiteralLength(c, trailer, true);
        if 0 < n <= |rest| && |out| + n <= limit { ExactTags(rest[n..], out + rest[..n], limit); }
      } else {
        var offset, len := CopyOffset(c, trailer), CopyLength(c);
        if 1 <= offset <= |out| && |out| + len <= limit { ExactTags(rest, OverlapCopy(out, offset, len), limit); }
      }
    }
  }

  /** The length readers disagree, or a literal of 2^32 bytes is met. */
  predicate Irregular(s: seq<byte>) {
    || (FiveByteForm(s) && 16 <= s[4] < 128)
    || (ReadLength(s, 1, 0).Some? && MeetsWrap(ReadLength(s, 1, 0).value.1, [], StoredLength(s)))
  }

  /** The decoder's result is that of the format, except that an irregular string, which has no
      meaning, may decode. */
  lemma DecoderConforms(s: seq<byte>)
    ensures Meaning(s) == if Irregular(s) then None else Uncompress(s)
  {
    hide ExactLength, ReadLength, RunTags, MeetsWrap, Parse;
    ParseIsExact(s);
    ReadLengthUnrolled(s);
    ReadersAgreeIff(s);
    ReadLengthFits(s);
    var h := ReadLength(s, 1, 0);
    if h.Some? { ExactTags(h.value.1, [], h.value.0); }
  }

  /** A string that decodes although it announces 2^32 bytes which it does not have. */
  lemma EmptyLiteralDecodes()
    ensures Uncompress([0, 0xFC, 255, 255, 255, 255]) == Some([])
    ensures Meaning([0, 0xFC, 255, 255, 255, 255]) == None
  {
    var tags: seq<byte> := [0xFC, 255, 255, 255, 255];
    var s := [0] + tags;
    assert s == [0, 0xFC, 255, 255, 255, 255] && s[1..] == tags;
    ReadStep(s, 1, 0);
    EmptyLiteral(tags);
    hide RunTags, ReadLength, MeetsWrap, Meaning;
    DecoderConforms(s);
  }

  lemma EmptyLiteral(tags: seq<byte>)
    requires tags == [0xFC, 255, 255, 255, 255]
    ensures MeetsWrap(tags, [], 0) && RunTags(tags, [], 0, true) == Done([])
  {
    assert tags[1..5] == [255, 255, 255, 255] && tags[5..] == [];
    LittleEndianBound(tags[1..5]);
    hide LittleEndian;
    assert LiteralLength(0xFC, LittleEndian(tags[1..5]), true) == 0;
    assert RunTags([], [], 0, true) == Done([]) == FinishLiteral([], 0, [], 0, true);
  }
}
