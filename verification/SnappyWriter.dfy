/** The decoder's output side: `struct writer` and its copy routines.

The three ways of carrying out a copy (two 8-byte moves, pattern doubling followed by
8-byte moves, and the byte loop) are proved to leave the bytes of the reference
`OverlapCopy`, and to store nothing at or past `opLimit`.
 */
module SnappyWriter {
  import opened Basics
  import opened DivMod
  import opened SnappyFormat

  /** UNALIGNED_STORE64(dst, UNALIGNED_LOAD64(src)): eight bytes are read before any is written. */
  method Move8(buf: array<byte>, src: nat, dst: nat)
    requires src + 8 <= buf.Length && dst + 8 <= buf.Length
    modifies buf
    ensures forall k :: 0 <= k < buf.Length ==>
              buf[k] == if dst <= k < dst + 8 then old(buf[src + (k - dst)]) else old(buf[k])
  {
    var word := buf[src..src + 8];
    for t := 0 to 8
      invariant forall k :: 0 <= k < buf.Length ==>
                  buf[k] == if dst <= k < dst + t then word[k - dst] else old(buf[k])
    {
      buf[dst + t] := word[t];
    }
  }

  /** Two 8-byte moves at a distance of at least eight copy sixteen bytes. */
  method MoveTwice8(buf: array<byte>, src: nat, op: nat)
    requires src + 8 <= op && op + 16 <= buf.Length
    modifies buf
    ensures forall k :: 0 <= k < buf.Length && !(op <= k < op + 16) ==> buf[k] == old(buf[k])
    ensures Repeats(buf[..op + 16], op, op - src)
  {
    Move8(buf, src, op);
    Move8(buf, src + 8, op + 8);
  }

  /** Copies one byte at a time, so that the source may run into freshly written bytes. */
  method IncrementalCopy(buf: array<byte>, src: nat, op: nat, len: nat)
    requires 1 <= len && src < op && op + len <= buf.Length
    modifies buf
    ensures forall k :: 0 <= k < buf.Length && !(op <= k < op + len) ==> buf[k] == old(buf[k])
    ensures Repeats(buf[..op + len], op, op - src)
  {
    var s, o, n := src, op, len;
    while true
      invariant 1 <= n <= len && o + n == op + len && o - s == op - src
      invariant forall k :: 0 <= k < buf.Length && !(op <= k < o) ==> buf[k] == old(buf[k])
      invariant Repeats(buf[..o], op, op - src)
      decreases n
    {
      buf[o] := buf[s];
      o, s, n := o + 1, s + 1, n - 1;
      if n == 0 { break; }
    }
  }

  /** Says that `buf[src..hi]` repeats the first `period` bytes of `pat` over and over. */
  ghost predicate Periodic(buf: seq<byte>, src: nat, hi: nat, pat: seq<byte>)
    requires hi <= |buf|
  {
    |pat| > 0 && forall k :: src <= k < hi ==> buf[k] == pat[(k - src) % |pat|]
  }

  lemma PeriodicStart(buf: seq<byte>, src: nat, hi: nat)
    requires src < hi <= |buf|
    ensures Periodic(buf, src, hi, buf[src..hi])
  {
    var pat := buf[src..hi];
    forall k | src <= k < hi ensures buf[k] == pat[(k - src) % |pat|] {
      SmallMod(k - src, |pat|);
    }
  }

  ghost predicate Multiple(d: int, p: nat) {
    exists m: nat :: d == m * p
  }

  lemma DoubledPeriod(d: int, p: nat)
    requires d == p || d == 2 * p || d == 4 * p || d == 8 * p
    ensures Multiple(d, p)
  {
    assert d == 1 * p || d == 2 * p || d == 4 * p || d == 8 * p;
  }

  /** An 8-byte move over a distance that is a multiple of the period lengthens the pattern by
      as many bytes as were already known to follow it. */
  lemma PeriodicMove(before: seq<byte>, after: seq<byte>, base: nat, src: nat, op: nat, n: nat, pat: seq<byte>)
    requires |before| == |after| && base <= src < op && op + n <= |before| && src + n <= op
    requires Periodic(before, base, op, pat)
    requires Multiple(op - src, |pat|)
    requires forall k :: 0 <= k < op ==> after[k] == before[k]
    requires forall k :: op <= k < op + n ==> after[k] == before[src + (k - op)]
    ensures Periodic(after, base, op + n, pat)
  {
    var m: nat :| op - src == m * |pat|;
    forall k | base <= k < op + n ensures after[k] == pat[(k - base) % |pat|] {
      if op <= k {
        ModPeriod(src + (k - op) - base, m, |pat|);
      }
    }
  }

  /** What both loops of the fast path keep: the output so far repeats the pattern, and only
      bytes from `op0` to ten past the end of the copy have changed. */
  twostate predicate Copying(buf: array<byte>, src0: nat, op0: nat, end: nat, op: nat, pat: seq<byte>)
    reads buf
  {
    && op0 <= op <= buf.Length
    && Periodic(buf[..], src0, op, pat)
    && forall k :: 0 <= k < buf.Length && !(op0 <= k < end + 10) ==> buf[k] == old(buf[k])
  }

  /** First loop of the fast path: `src` stays put while the distance doubles to eight or more. */
  method ExpandPattern(buf: array<byte>, src: nat, op0: nat, end: nat, ghost pat: seq<byte>) returns (op: nat)
    requires src < op0 < end && end + 10 <= buf.Length && pat == buf[src..op0]
    modifies buf
    ensures op - src >= 8 && Multiple(op - src, |pat|)
    ensures Copying(buf, src, op0, end, op, pat)
  {
    hide Periodic, Multiple;
    op := op0;
    PeriodicStart(buf[..], src, op0);
    while op - src < 8
      invariant op - src == |pat| || op - src == 2 * |pat| || op - src == 4 * |pat| || op - src == 8 * |pat|
      invariant Copying(buf, src, op0, end, op, pat)
      decreases 8 + src - op
    {
      ghost var before := buf[..];
      DoubledPeriod(op - src, |pat|);
      Move8(buf, src, op);
      PeriodicMove(before, buf[..], src, src, op, op - src, pat);
      op := op + (op - src);
    }
    DoubledPeriod(op - src, |pat|);
  }

  /** Copies `len` bytes in 8-byte moves, first doubling the distance until it is at least
      eight; up to ten bytes past the end of the copy may be overwritten. */
  method IncrementalCopyFastPath(buf: array<byte>, src0: nat, op0: nat, len0: nat)
    requires 1 <= len0 && src0 < op0 && op0 + len0 + 10 <= buf.Length
    modifies buf
    ensures forall k :: 0 <= k < buf.Length && !(op0 <= k < op0 + len0 + 10) ==> buf[k] == old(buf[k])
    ensures Repeats(buf[..op0 + len0], op0, op0 - src0)
  {
    ghost var pat := buf[src0..op0];
    var op := ExpandPattern(buf, src0, op0, op0 + len0, pat);
    var src: nat, len: int := src0, op0 + len0 - op;
    while len > 0
      invariant src0 <= src && op - src >= 8 && Multiple(op - src, |pat|)
      invariant len + op == op0 + len0
      invariant Copying(buf, src0, op0, op0 + len0, op, pat)
      decreases len
    {
      ghost var before := buf[..];
      Move8(buf, src, op);
      PeriodicMove(before, buf[..], src0, src, op, 8, pat);
      src, op, len := src + 8, op + 8, len - 8;
    }
    PeriodicRepeats(buf[..], src0, op, pat, op0 + len0);
    assert buf[..][..op0 + len0] == buf[..op0 + len0];
  }

  lemma PeriodicRepeats(buf: seq<byte>, src: nat, hi: nat, pat: seq<byte>, n: nat)
    requires hi <= |buf| && Periodic(buf, src, hi, pat) && n <= hi
    ensures Repeats(buf[..n], src + |pat|, |pat|)
  {
    forall i, j | src + |pat| <= i < n && 0 <= j == i - |pat| ensures buf[i] == buf[j] {
      ModPeriod(j - src, 1, |pat|);
    }
  }

  /** Chooses among the three ways of copying by the length, the offset and the space left. */
  method CopyWithin(buf: array<byte>, op: nat, opLimit: nat, offset: nat, len: nat) returns (ok: bool)
    requires 1 <= offset <= op <= opLimit <= buf.Length && 1 <= len
    modifies buf
    ensures ok <==> op + len <= opLimit
    ensures forall k :: 0 <= k < buf.Length && !(ok && op <= k < opLimit) ==> buf[k] == old(buf[k])
    ensures ok ==> buf[..op + len] == OverlapCopy(old(buf[..op]), offset, len)
  {
    var spaceLeft := opLimit - op;
    if len <= 16 && offset >= 8 && spaceLeft >= 16 {
      MoveTwice8(buf, op - offset, op);
    } else if spaceLeft >= len + 10 {
      IncrementalCopyFastPath(buf, op - offset, op, len);
    } else {
      if spaceLeft < len { return false; }
      IncrementalCopy(buf, op - offset, op, len);
    }
    assert Repeats(buf[..op + len], op, offset);
    OverlapCopyUnique(old(buf[..op]), offset, buf[..op + len]);
    return true;
  }

  /** `op - base <= offset - 1u` in 32-bit arithmetic: offset 0 wraps to the largest value. */
  predicate OffsetTooFar(produced: nat, offset: nat)
    requires produced < 0x1_0000_0000 && offset < 0x1_0000_0000
    ensures OffsetTooFar(produced, offset) <==> offset == 0 || offset > produced
  {
    produced <= (offset - 1) % 0x1_0000_0000
  }

  class Writer {
    const buf: array<byte>   // memory from `base` on
    var op: nat              // next byte to produce
    var opLimit: nat         // expected end of the output

    ghost predicate Valid() reads this {
      op <= opLimit <= buf.Length && opLimit < 0x1_0000_0000
    }

    ghost function Out(): seq<byte>
      requires Valid()
      reads this, buf
    {
      buf[..op]
    }

    /** Bytes are only stored when the output grows. */
    ghost predicate Grown(op0: nat, buf0: seq<byte>)
      reads this, buf
    {
      op0 <= op && (op == op0 ==> buf[..] == buf0)
    }

    constructor (memory: array<byte>)
      ensures buf == memory && op == 0 && opLimit == 0 && Valid()
    {
      buf, op, opLimit := memory, 0, 0;
    }

    method SetExpectedLength(len: nat)
      requires Valid() && op + len <= buf.Length && op + len < 0x1_0000_0000
      modifies this`opLimit
      ensures Valid() && opLimit == op + len
    {
      opLimit := op + len;
    }

    /** A copy element. It fails exactly when the offset is zero or reaches before the start
        of the output, or when the output limit would be passed. */
    method AppendFromSelf(offset: nat, len: nat) returns (ok: bool)
      requires Valid() && offset < 0x1_0000_0000 && 1 <= len < 0x8000_0000
      modifies this`op, buf
      ensures Valid()
      ensures ok <==> 1 <= offset <= old(op) && old(op) + len <= opLimit
      ensures ok ==> Out() == OverlapCopy(old(Out()), offset, len)
      ensures !ok ==> op == old(op) && buf[..] == old(buf[..])
      ensures forall k :: opLimit <= k < buf.Length ==> buf[k] == old(buf[k])
    {
      if OffsetTooFar(op, offset) { return false; }
      ok := CopyWithin(buf, op, opLimit, offset, len);
      if !ok { return; }
      op := op + len;
      return true;
    }

    /** A literal, or one piece of it. */
    method Append(data: seq<byte>) returns (ok: bool)
      requires Valid()
      modifies this`op, buf
      ensures Valid()
      ensures ok <==> old(op) + |data| <= opLimit
      ensures ok ==> Out() == old(Out()) + data
      ensures !ok ==> op == old(op)
      ensures !ok || data == [] ==> buf[..] == old(buf[..])
      ensures forall k :: opLimit <= k < buf.Length ==> buf[k] == old(buf[k])
    {
      if opLimit - op < |data| { return false; }
      forall k | 0 <= k < |data| { buf[op + k] := data[k]; }
      op := op + |data|;
      return true;
    }

    /** Short literals: sixteen bytes are moved whatever the length, when both sides have them. */
    method TryFastAppend(ip: seq<byte>, len: nat) returns (ok: bool)
      requires Valid() && 1 <= len
      modifies this`op, buf
      ensures Valid()
      ensures ok <==> len <= 16 && |ip| >= 16 && opLimit - old(op) >= 16
      ensures ok ==> Out() == old(Out()) + ip[..len] && op == old(op) + len
      ensures !ok ==> op == old(op) && buf[..] == old(buf[..]) && Out() == old(Out())
      ensures forall k :: opLimit <= k < buf.Length ==> buf[k] == old(buf[k])
    {
      if len <= 16 && |ip| >= 16 && opLimit - op >= 16 {
        forall k | 0 <= k < 16 { buf[op + k] := ip[k]; }
        op := op + len;
        return true;
      }
      return false;
    }
  }
}
