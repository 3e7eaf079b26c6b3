/** The 32-bit varint in front of every compressed string: one writer and two readers.

`varint_encode32` writes it, `read_uncompressed_length` (the decoder, `ReadLength` in the
format) and `varint_parse32_with_limit` (`snappy_uncompressed_length`) read it. The two
readers do not agree on every input: the lemmas say exactly when they do.
 */
module SnappyVarint {
  import opened Basics
  import opened SnappyFormat

  function Low7(v: nat): byte { v % 128 + 128 }

  /** varint_encode32: `v | B` keeps the low seven bits in a byte and sets its top bit. */
  function Encode(v: nat): (s: seq<byte>)
    requires v < 0x1_0000_0000
    ensures 1 <= |s| <= 5
  {
    if v < 0x80 then [v]
    else if v < 0x4000 then [Low7(v), v / 0x80]
    else if v < 0x20_0000 then [Low7(v), Low7(v / 0x80), v / 0x4000]
    else if v < 0x1000_0000 then [Low7(v), Low7(v / 0x80), Low7(v / 0x4000), v / 0x20_0000]
    else [Low7(v), Low7(v / 0x80), Low7(v / 0x4000), Low7(v / 0x20_0000), v / 0x1000_0000]
  }

  /** varint_parse32_with_limit: the value and the number of bytes used. */
  function Parse(s: seq<byte>): (r: Option<(nat, nat)>)
    ensures r.Some? ==> r.value.1 <= |s| && r.value.0 < 0x1_0000_0000
  {
    if |s| < 1 then None
    else
      var r1 := Digit(s[0]);
      if s[0] < 128 then Some((r1, 1))
      else if |s| < 2 then None
      else
        var r2 := r1 + Digit(s[1]) * 0x80;
        if s[1] < 128 then Some((r2, 2))
        else if |s| < 3 then None
        else
          var r3 := r2 + Digit(s[2]) * 0x4000;
          if s[2] < 128 then Some((r3, 3))
          else if |s| < 4 then None
          else
            var r4 := r3 + Digit(s[3]) * 0x20_0000;
            if s[3] < 128 then Some((r4, 4))
            else if |s| < 5 then None
            else if s[4] < 16 then Some((r4 + Digit(s[4]) * 0x1000_0000, 5))
            else None
  }

  /** `Parse` in the form of the decoder's reader: the value and the bytes left over. */
  function ParseRest(s: seq<byte>): Option<(nat, seq<byte>)> {
    var r := Parse(s);
    if r.None? then None else Some((r.value.0, s[r.value.1..]))
  }

  /** Five bytes are present and the first four ask for more. */
  predicate FiveByteForm(s: seq<byte>) {
    |s| >= 5 && s[0] >= 128 && s[1] >= 128 && s[2] >= 128 && s[3] >= 128
  }

  /** The weights of the five digits. */
  predicate Weight(scale: nat) {
    scale == 1 || scale == 0x80 || scale == 0x4000 || scale == 0x20_0000 || scale == 0x1000_0000
  }

  /** What a digit adds; the fifth one loses the bits above the 32nd. */
  function Weighted(d: nat, scale: nat): (v: nat)
    requires d < 128 && Weight(scale)
    ensures v == d * scale % 0x1_0000_0000
    ensures scale == 0x1000_0000 ==> v <= 15 * 0x1000_0000
  {
    if scale == 0x1000_0000 then d % 16 * 0x1000_0000 else d * scale
  }

  /** One round of the decoder's loop, and the ways it ends. */
  lemma ReadStep(s: seq<byte>, scale: nat, acc: nat)
    requires Weight(scale)
    ensures s == [] ==> ReadLength(s, scale, acc) == None
    ensures s != [] && s[0] < 128 ==>
              ReadLength(s, scale, acc) == Some((acc + Weighted(Digit(s[0]), scale), s[1..]))
    ensures s != [] && s[0] >= 128 ==>
              ReadLength(s, scale, acc) == ReadLength(s[1..], scale * 128, acc + Weighted(Digit(s[0]), scale))
    ensures s != [] && s[0] >= 128 && scale == 0x1000_0000 ==> ReadLength(s, scale, acc) == None
  {
  }

  /** What the decoder's loop computes, written out digit by digit. */
  lemma ReadLengthUnrolled(s: seq<byte>)
    ensures !FiveByteForm(s) ==> ReadLength(s, 1, 0) == ParseRest(s)
    ensures FiveByteForm(s) && s[4] < 16 ==> Parse(s).Some? && ReadLength(s, 1, 0) == ParseRest(s)
    ensures FiveByteForm(s) && 16 <= s[4] < 128 ==> Parse(s) == None && ReadLength(s, 1, 0).Some?
    ensures FiveByteForm(s) && 128 <= s[4] ==> Parse(s) == None && ReadLength(s, 1, 0) == None
  {
    hide ReadLength;
    ReadStep(s, 1, 0);
    if |s| >= 5 && s[4] < 128 { assert s[4] < 16 ==> Digit(s[4]) % 16 == Digit(s[4]); }
    if |s| >= 1 && s[0] >= 128 {
      var r1 := Digit(s[0]);
      ReadStep(s[1..], 0x80, r1);
      if |s| >= 2 && s[1] >= 128 {
        var r2 := r1 + Digit(s[1]) * 0x80;
        assert s[1..][1..] == s[2..];
        ReadStep(s[2..], 0x4000, r2);
        if |s| >= 3 && s[2] >= 128 {
          var r3 := r2 + Digit(s[2]) * 0x4000;
          assert s[2..][1..] == s[3..];
          ReadStep(s[3..], 0x20_0000, r3);
          if |s| >= 4 && s[3] >= 128 {
            var r4 := r3 + Digit(s[3]) * 0x20_0000;
            assert s[3..][1..] == s[4..];
            ReadStep(s[4..], 0x1000_0000, r4);
          }
        }
      }
    }
  }

  /** The two readers agree on an input if and only if it is not a five-byte form whose last
      digit lies in 16 .. 127: there the decoder drops the high bits and `Parse` fails. */
  lemma ReadersAgreeIff(s: seq<byte>)
    ensures (FiveByteForm(s) && 16 <= s[4] < 128) <==>
            ReadLength(s, 1, 0) != ParseRest(s)
  {
    ReadLengthUnrolled(s);
  }

  /** A five-byte form that the decoder reads as length zero and the other reader rejects. */
  lemma ReadersDisagree()
    ensures Parse([128, 128, 128, 128, 16]) == None
    ensures ReadLength([128, 128, 128, 128, 16], 1, 0) == Some((0, []))
  {
    hide ReadLength;
    var s: seq<byte> := [128, 128, 128, 128, 16];
    assert s[1..][1..][1..][1..] == [16] && s[1..][1..][1..][1..][1..] == [];
    ReadStep(s, 1, 0);
    ReadStep(s[1..], 0x80, 0);
    ReadStep(s[1..][1..], 0x4000, 0);
    ReadStep(s[1..][1..][1..], 0x20_0000, 0);
    ReadStep(s[1..][1..][1..][1..], 0x1000_0000, 0);
  }

  /** The base-128 digits of a number. */
  lemma Digits(v: nat)
    ensures v / 0x80 / 0x80 == v / 0x4000
    ensures v / 0x4000 / 0x80 == v / 0x20_0000
    ensures v / 0x20_0000 / 0x80 == v / 0x1000_0000
    ensures v == v % 128 + 0x80 * (v / 0x80 % 128) + 0x4000 * (v / 0x4000 % 128)
                 + 0x20_0000 * (v / 0x20_0000 % 128) + 0x1000_0000 * (v / 0x1000_0000)
  {
  }

  lemma Low7Digit(v: nat)
    ensures Low7(v) >= 128 && Digit(Low7(v)) == v % 128
  {
  }

  /** The value of at most five base-128 digits, low digit first. */
  function DigitsValue(s: seq<byte>): nat {
    (if |s| > 0 then Digit(s[0]) else 0)
    + (if |s| > 1 then 0x80 * Digit(s[1]) else 0)
    + (if |s| > 2 then 0x4000 * Digit(s[2]) else 0)
    + (if |s| > 3 then 0x20_0000 * Digit(s[3]) else 0)
    + (if |s| > 4 then 0x1000_0000 * Digit(s[4]) else 0)
  }

  /** All digits but the last are marked to continue; a fifth digit has four bits. */
  predicate Terminated(s: seq<byte>) {
    1 <= |s| <= 5 && (forall k :: 0 <= k < |s| - 1 ==> s[k] >= 128) && s[|s| - 1] < (if |s| == 5 then 16 else 128)
  }

  lemma ParseTerminated(s: seq<byte>, rest: seq<byte>)
    requires Terminated(s)
    ensures Parse(s + rest) == Some((DigitsValue(s), |s|))
  {
    assert forall k :: 0 <= k < |s| ==> (s + rest)[k] == s[k];
    assert |s| > 1 ==> s[0] >= 128;
    assert |s| > 2 ==> s[1] >= 128;
    assert |s| > 3 ==> s[2] >= 128;
    assert |s| > 4 ==> s[3] >= 128;
  }

  lemma EncodeTerminated(v: nat)
    requires v < 0x1_0000_0000
    ensures Terminated(Encode(v)) && DigitsValue(Encode(v)) == v
    ensures |Encode(v)| > 1 ==> Encode(v)[|Encode(v)| - 1] != 0   // no digit more than is needed
  {
    hide Low7, Digit;
    Low7Digit(v);
    Low7Digit(v / 0x80);
    Low7Digit(v / 0x4000);
    Low7Digit(v / 0x20_0000);
    SmallDigit(v / 0x80);
    SmallDigit(v / 0x4000);
    SmallDigit(v / 0x20_0000);
    SmallDigit(v / 0x1000_0000);
    SmallDigit(v);
    Digits(v);
  }

  lemma SmallDigit(v: nat)
    ensures v < 128 ==> Digit(v) == v == v % 128
  {
  }

  /** Both readers read back what the writer wrote, whatever follows it. */
  lemma EncodeRoundTrip(v: nat, rest: seq<byte>)
    requires v < 0x1_0000_0000
    ensures Parse(Encode(v) + rest) == Some((v, |Encode(v)|))
    ensures ReadLength(Encode(v) + rest, 1, 0) == Some((v, rest))
  {
    var s := Encode(v) + rest;
    EncodeTerminated(v);
    ParseTerminated(Encode(v), rest);
    ReadLengthUnrolled(s);
    assert s[|Encode(v)|..] == rest;
  }

  /** No string that starts with an encoded length is one on which the readers disagree. */
  lemma EncodedLengthIsAgreed(v: nat, s: seq<byte>)
    requires v < 0x1_0000_0000 && Encode(v) <= s
    ensures !(FiveByteForm(s) && 16 <= s[4] < 128)
  {
    hide Encode;
    EncodeTerminated(v);
    var e := Encode(v);
    assert s[|e| - 1] == e[|e| - 1];
  }

  /** The length the decoder expects to produce, 0 when there is none. */
  function StoredLength(s: seq<byte>): nat {
    var h := ReadLength(s, 1, 0);
    if h.None? then 0 else h.value.0
  }

  /** The stored length always fits in 32 bits. */
  lemma ReadLengthFits(s: seq<byte>)
    ensures StoredLength(s) < 0x1_0000_0000
  {
    ReadLengthFitsFrom(s, 1, 0);
  }

  lemma {:induction false} ReadLengthFitsFrom(s: seq<byte>, scale: nat, acc: nat)
    requires Weight(scale) && acc < scale
    ensures ReadLength(s, scale, acc).Some? ==> ReadLength(s, scale, acc).value.0 < 0x1_0000_0000
    decreases |s|
  {
    hide ReadLength;
    ReadStep(s, scale, acc);
    if s != [] && scale != 0x1000_0000 && s[0] >= 128 {
      ReadLengthFitsFrom(s[1..], scale * 128, acc + Weighted(Digit(s[0]), scale));
    }
  }
}
