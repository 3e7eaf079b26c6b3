/** Match finding: how far two places of the input agree.

The source compares eight bytes at a time and finds the first differing byte of a word
with an exclusive or and a count of trailing zero bits. Both are defined here bit by bit.
 */
module SnappyMatch {
  import opened Basics
  import opened DivMod
  import opened SnappyFormat

  /** Bitwise exclusive or. */
  function Xor(a: nat, b: nat): nat
    decreases a + b
  {
    if a == 0 && b == 0 then 0
    else (if a % 2 != b % 2 then 1 else 0) + 2 * Xor(a / 2, b / 2)
  }

  /** Number of zero bits below the lowest one bit. */
  function TrailingZeros(n: nat): nat
    requires n > 0
  {
    if n % 2 == 1 then 0 else 1 + TrailingZeros(n / 2)
  }

  lemma {:induction false} XorZero(a: nat, b: nat)
    ensures Xor(a, b) == 0 <==> a == b
    decreases a + b
  {
    if a != 0 || b != 0 { XorZero(a / 2, b / 2); }
  }

  lemma TrailingZerosDouble(n: nat)
    requires n > 0
    ensures TrailingZeros(2 * n) == 1 + TrailingZeros(n)
  {
    assert 2 * n % 2 == 0 && 2 * n / 2 == n;
  }

  lemma XorHalves(a: nat, b: nat)
    requires a % 2 == b % 2
    ensures Xor(a, b) == 2 * Xor(a / 2, b / 2)
  {
  }

  /** One equal low bit: one more trailing zero. */
  lemma XorEqualBit(a: nat, b: nat)
    requires a != b && a % 2 == b % 2
    ensures Xor(a, b) > 0 && Xor(a / 2, b / 2) > 0
    ensures TrailingZeros(Xor(a, b)) == 1 + TrailingZeros(Xor(a / 2, b / 2))
  {
    var x := Xor(a / 2, b / 2);
    XorHalves(a, b);
    XorZero(a / 2, b / 2);
    TrailingZerosDouble(x);
  }

  lemma XorUnequalBit(a: nat, b: nat)
    requires a % 2 != b % 2
    ensures Xor(a, b) > 0 && TrailingZeros(Xor(a, b)) == 0
  {
    XorZero(a, b);
  }

  /** Two equal low bits, then four, then eight. */
  lemma XorEqualBits2(a: nat, b: nat)
    requires a != b && a % 4 == b % 4
    ensures Xor(a, b) > 0 && Xor(a / 4, b / 4) > 0
    ensures TrailingZeros(Xor(a, b)) == 2 + TrailingZeros(Xor(a / 4, b / 4))
  {
    assert a / 2 / 2 == a / 4 && b / 2 / 2 == b / 4;
    XorEqualBit(a, b);
    XorEqualBit(a / 2, b / 2);
  }

  lemma XorEqualBits4(a: nat, b: nat)
    requires a != b && a % 16 == b % 16
    ensures Xor(a, b) > 0 && Xor(a / 16, b / 16) > 0
    ensures TrailingZeros(Xor(a, b)) == 4 + TrailingZeros(Xor(a / 16, b / 16))
  {
    assert a / 4 / 4 == a / 16 && b / 4 / 4 == b / 16;
    XorEqualBits2(a, b);
    XorEqualBits2(a / 4, b / 4);
  }

  lemma XorEqualByte(a: nat, b: nat)
    requires a != b && a % 256 == b % 256
    ensures Xor(a, b) > 0 && Xor(a / 256, b / 256) > 0
    ensures TrailingZeros(Xor(a, b)) == 8 + TrailingZeros(Xor(a / 256, b / 256))
  {
    assert a / 16 / 16 == a / 256 && b / 16 / 16 == b / 256;
    XorEqualBits4(a, b);
    XorEqualBits4(a / 16, b / 16);
  }

  lemma HalvesDiffer(a: nat, b: nat, m: nat)
    requires m in {2, 4, 8, 16, 32, 64, 128, 256}
    requires a % 2 == b % 2 && a % m != b % m
    ensures m > 2 && a / 2 % (m / 2) != b / 2 % (m / 2)
  {
    HalfRemainder(a, m / 2);
    HalfRemainder(b, m / 2);
  }

  lemma HalfRemainder(a: nat, h: nat)
    requires h >= 1
    ensures a % (2 * h) == 2 * (a / 2 % h) + a % 2
  {
    var q, r := a / 2 / h, a / 2 % h;
    assert a / 2 == r + h * q;
    assert a == (2 * r + a % 2) + 2 * h * q;
    Quotient(a, 2 * h, q, 2 * r + a % 2);
  }

  /** Unequal low bytes: fewer than eight trailing zeros; in general, fewer than `k` when the
      numbers differ in the low `k` bits. */
  lemma {:induction false} XorUnequalByte(a: nat, b: nat, m: nat, k: nat)
    requires (m, k) in {(2, 1), (4, 2), (8, 3), (16, 4), (32, 5), (64, 6), (128, 7), (256, 8)}
    requires a % m != b % m
    ensures Xor(a, b) > 0 && TrailingZeros(Xor(a, b)) < k
    decreases k
  {
    if a % 2 != b % 2 {
      XorUnequalBit(a, b);
    } else {
      HalvesDiffer(a, b, m);
      XorUnequalByte(a / 2, b / 2, m / 2, k - 1);
      XorEqualBit(a, b);
    }
  }

  /** The index of the first byte in which two equally long strings differ is the number of
      trailing zero bits of the exclusive or of their little-endian values, divided by eight. */
  lemma {:induction false} FirstDifference(a: seq<byte>, b: seq<byte>) returns (k: nat)
    requires |a| == |b| && a != b
    ensures Xor(LittleEndian(a), LittleEndian(b)) > 0
    ensures k == TrailingZeros(Xor(LittleEndian(a), LittleEndian(b))) / 8
    ensures k < |a| && a[..k] == b[..k] && a[k] != b[k]
  {
    var x, y := LittleEndian(a), LittleEndian(b);
    if x == y { LittleEndianInjective(a, b); }
    assert x % 256 == a[0] && y % 256 == b[0];
    assert x / 256 == LittleEndian(a[1..]) && y / 256 == LittleEndian(b[1..]);
    if a[0] == b[0] {
      assert a == [a[0]] + a[1..] && b == [b[0]] + b[1..];
      XorEqualByte(x, y);
      var j := FirstDifference(a[1..], b[1..]);
      k := j + 1;
      assert a[..k] == [a[0]] + a[1..][..j] && b[..k] == [b[0]] + b[1..][..j];
    } else {
      XorUnequalByte(x, y, 256, 8);
      k := 0;
    }
  }

  /** UNALIGNED_LOAD64 on a little-endian machine. */
  function Load64(s: seq<byte>, p: nat): nat
    requires p + 8 <= |s|
  {
    LittleEndian(s[p..p + 8])
  }

  function Load32(s: seq<byte>, p: nat): nat
    requires p + 4 <= |s|
  {
    LittleEndian(s[p..p + 4])
  }

  /** get_u32_at_offset: bytes `k` to `k + 3` of a 64-bit word. */
  function GetU32AtOffset(v: nat, k: nat): nat
    requires k <= 4
  {
    v / ByteRange(k) % 0x1_0000_0000
  }

  lemma U32FromU64(s: seq<byte>, p: nat, k: nat)
    requires p + 8 <= |s| && k <= 4
    ensures GetU32AtOffset(Load64(s, p), k) == Load32(s, p + k)
  {
    var w := s[p..p + 8];
    LittleEndianSplit(w, k);
    Quotient(LittleEndian(w), ByteRange(k), LittleEndian(w[k..]), LittleEndian(w[..k]));
    LowWord(w[k..]);
    assert w[k..][..4] == s[p + k..p + k + 4];
  }

  lemma LowWord(w: seq<byte>)
    requires |w| >= 4
    ensures LittleEndian(w) % 0x1_0000_0000 == LittleEndian(w[..4])
  {
    LittleEndianSplit(w, 4);
    ByteRange4();
    Quotient(LittleEndian(w), 0x1_0000_0000, LittleEndian(w[4..]), LittleEndian(w[..4]));
  }

  lemma ByteRange4()
    ensures ByteRange(4) == 0x1_0000_0000
  {
    assert ByteRange(2) == 256 * ByteRange(1);
    assert ByteRange(4) == 256 * (256 * ByteRange(2));
  }

  /** The length of the longest common prefix of s[s1..] and s[s2..limit]; the places from s2 on
      that match repeat what lies s2 - s1 before them. */
  method FindMatchLength(s: seq<byte>, s1: nat, s2: nat, limit: nat) returns (matched: nat)
    requires s1 <= s2 <= limit <= |s|
    ensures matched <= limit - s2
    ensures Repeats(s[..s2 + matched], s2, s2 - s1)
    ensures matched < limit - s2 ==> s[s1 + matched] != s[s2 + matched]
  {
    hide Repeats;
    matched := 0;
    var p := s2;
    NoneRepeats(s, s2, s2 - s1);
    while p + 8 <= limit
      invariant p == s2 + matched <= limit && Repeats(s[..p], s2, s2 - s1)
    {
      var k := EqualBytesOfWord(s, s1 + matched, p);
      RepeatsOn(s, s2, p, p + k, s2 - s1);
      if k == 8 {
        p := p + 8;
        matched := matched + 8;
      } else {
        return matched + k;
      }
    }
    while p < limit
      invariant p == s2 + matched <= limit && Repeats(s[..p], s2, s2 - s1)
    {
      if s[s1 + matched] == s[p] {
        OneRepeats(s, p, s2 - s1);
        RepeatsOn(s, s2, p, p + 1, s2 - s1);
        p := p + 1;
        matched := matched + 1;
      } else {
        return;
      }
    }
  }

  lemma NoneRepeats(s: seq<byte>, p: nat, offset: nat)
    requires p <= |s|
    ensures Repeats(s[..p], p, offset)
  {
  }

  lemma OneRepeats(s: seq<byte>, p: nat, offset: nat)
    requires offset <= p < |s| && s[p - offset] == s[p]
    ensures Repeats(s[..p + 1], p, offset)
  {
  }

  lemma RepeatsOn(s: seq<byte>, from: nat, p: nat, q: nat, offset: nat)
    requires from <= p <= q <= |s| && Repeats(s[..p], from, offset) && Repeats(s[..q], p, offset)
    ensures Repeats(s[..q], from, offset)
  {
    forall i, j | from <= i < q && 0 <= j == i - offset ensures s[..q][i] == s[..q][j] {
      if i < p { assert s[..p][i] == s[..p][j]; }
    }
  }

  /** Compares two words: 8 if they are equal, otherwise the index of the first different byte,
      from the trailing zeros of their exclusive or. */
  method EqualBytesOfWord(s: seq<byte>, q: nat, p: nat) returns (k: nat)
    requires q <= p && p + 8 <= |s|
    ensures k <= 8
    ensures Repeats(s[..p + k], p, p - q)
    ensures k < 8 ==> s[q + k] != s[p + k]
  {
    ghost var a, b := s[q..q + 8], s[p..p + 8];
    if Load64(s, p) == Load64(s, q) {
      LittleEndianInjective(a, b);
      WordRepeats(s, q, p, 8);
      return 8;
    }
    ghost var j := FirstDifference(b, a);
    assert a[..j] == s[q..q + j] && b[..j] == s[p..p + j];
    WordRepeats(s, q, p, j);
    k := TrailingZeros(Xor(Load64(s, p), Load64(s, q))) / 8;
  }

  lemma WordRepeats(s: seq<byte>, q: nat, p: nat, n: nat)
    requires q <= p && p + n <= |s| && s[q..q + n] == s[p..p + n]
    ensures Repeats(s[..p + n], p, p - q)
  {
    forall i, j | p <= i < p + n && 0 <= j == i - (p - q) ensures s[i] == s[j] {
      assert s[i] == s[p..p + n][i - p] && s[j] == s[q..q + n][j - q];
    }
  }
}
