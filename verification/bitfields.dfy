/** Attester bitfields: one bit per committee member, packed eight to a
    byte, most significant bit first. Bit `i` lives in byte `i / 8`.
 */
module Bitfields {

  type Bitfield = seq<bv8>

  /** The mask selecting bit `i % 8` of its byte. */
  function Mask(i: nat): bv8 {
    (0x80 as bv8) >> (i % 8)
  }

  /** Whether committee member `index` set its bit. A position past the end
      of the bitfield reads as unset. */
  predicate HasVoted(bitfield: Bitfield, index: nat) {
    index / 8 < |bitfield| && bitfield[index / 8] & Mask(index) != 0
  }

  /** The number of bytes needed to hold `bitCount` bits. */
  function BitfieldLength(bitCount: nat): (n: nat)
    ensures bitCount <= 8 * n < bitCount + 8
  {
    (bitCount + 7) / 8
  }

  /** `n` zero bytes. */
  function ZeroBytes(n: nat): (r: Bitfield)
    ensures |r| == n
  {
    if n == 0 then [] else [0 as bv8] + ZeroBytes(n - 1)
  }

  lemma {:induction false} ZeroBytesAt(n: nat, k: nat)
    requires k < n
    ensures ZeroBytes(n)[k] == 0
  {
    if k > 0 {
      ZeroBytesAt(n - 1, k - 1);
    }
  }

  /** A bitfield for `bitCount` members in which nobody has voted. */
  function EmptyBitfield(bitCount: nat): (bitfield: Bitfield)
    ensures |bitfield| == BitfieldLength(bitCount)
  {
    ZeroBytes(BitfieldLength(bitCount))
  }

  lemma EmptyBitfieldUnset(bitCount: nat, i: nat)
    ensures !HasVoted(EmptyBitfield(bitCount), i)
  {
    if i / 8 < BitfieldLength(bitCount) {
      ZeroBytesAt(BitfieldLength(bitCount), i / 8);
    }
  }

  /** Byte `k` of `bitfield`, or zero past its end. */
  function ByteAt(bitfield: Bitfield, k: nat): bv8 {
    if k < |bitfield| then bitfield[k] else 0
  }

  lemma OrMask(x: bv8, y: bv8, m: bv8)
    ensures (x | y) & m != 0 <==> x & m != 0 || y & m != 0
  {
  }

  /** The bitwise union of two bitfields, byte by byte; the shorter one is
      read as zero-extended. */
  function Or2(a: Bitfield, b: Bitfield): (c: Bitfield)
    ensures |c| == if |a| >= |b| then |a| else |b|
    decreases |a| + |b|
  {
    if |a| == 0 then b
    else if |b| == 0 then a
    else [a[0] | b[0]] + Or2(a[1..], b[1..])
  }

  lemma {:induction false} Or2At(a: Bitfield, b: Bitfield, k: nat)
    requires k < |Or2(a, b)|
    ensures Or2(a, b)[k] == ByteAt(a, k) | ByteAt(b, k)
    decreases |a| + |b|
  {
    if |a| > 0 && |b| > 0 && k > 0 {
      Or2At(a[1..], b[1..], k - 1);
    }
  }

  /** A bit is set in the union exactly when it is set in either part. */
  lemma Or2Voted(a: Bitfield, b: Bitfield, i: nat)
    ensures HasVoted(Or2(a, b), i) <==> HasVoted(a, i) || HasVoted(b, i)
  {
    if i / 8 < |Or2(a, b)| {
      Or2At(a, b, i / 8);
      OrMask(ByteAt(a, i / 8), ByteAt(b, i / 8), Mask(i));
    }
  }

  /** The union of a list of bitfields. */
  function OrBitfields(bitfields: seq<Bitfield>): (c: Bitfield)
    decreases |bitfields|
  {
    if |bitfields| == 0 then [] else Or2(bitfields[0], OrBitfields(bitfields[1..]))
  }

  /** A member has voted in the union exactly when it voted in at least one
      of the bitfields. */
  lemma {:induction false} OrBitfieldsVoted(bitfields: seq<Bitfield>, i: nat)
    ensures HasVoted(OrBitfields(bitfields), i) <==> exists k :: 0 <= k < |bitfields| && HasVoted(bitfields[k], i)
    decreases |bitfields|
  {
    if |bitfields| > 0 {
      var rest := OrBitfields(bitfields[1..]);
      Or2Voted(bitfields[0], rest, i);
      OrBitfieldsVoted(bitfields[1..], i);
      if HasVoted(rest, i) {
        var k :| 0 <= k < |bitfields[1..]| && HasVoted(bitfields[1..][k], i);
        assert HasVoted(bitfields[k + 1], i);
      }
      if exists k :: 0 <= k < |bitfields| && HasVoted(bitfields[k], i) {
        var k :| 0 <= k < |bitfields| && HasVoted(bitfields[k], i);
        if k > 0 {
          assert HasVoted(bitfields[1..][k - 1], i);
        }
      }
    }
  }

  /** The trailing-bit rule for a committee of `n` members: every bit at a
      position `n` or later is unset (positions past the end read as unset
      anyway). */
  predicate TrailingBitsZero(bitfield: Bitfield, n: nat) {
    forall i: nat :: n <= i < 8 * |bitfield| ==> !HasVoted(bitfield, i)
  }
}
