/** How many bits a dictionary code needs, as the builder and the reader each compute it. */
module CodeWidth {

  import opened Powers
  import opened MemoryBytes

  lemma Pow2At32()
    ensures Pow2(31) == 0x8000_0000 && Pow2(32) == TWO_TO_32
  {
    assert Pow2(8) == 256 by { assert Pow2(4) == 16; }
    assert Pow2(16) == 65536 by { assert Pow2(12) == 4096; }
    assert Pow2(24) == 65536 * 256 by { assert Pow2(20) == 65536 * 16; }
    assert Pow2(28) == 65536 * 4096;
    assert Pow2(31) == 2 * Pow2(30);
  }

  /** No entries need no bits, one or two entries need one bit, and any other
      number of entries needs the least b for which 2^b codes are enough. */
  ghost predicate IsCodeWidth(entries: nat, bits: nat) {
    if entries == 0 then bits == 0
    else bits >= 1 && entries <= Pow2(bits) && (bits == 1 || Pow2(bits - 1) < entries)
  }

  lemma CodeWidthIsLeast(entries: nat, bits: nat, other: nat)
    requires entries > 0 && IsCodeWidth(entries, bits)
    requires other >= 1 && entries <= Pow2(other)
    ensures bits <= other
  {
    if other < bits - 1 {
      Pow2Monotone(other, bits - 1);
    }
  }

  lemma CodeWidthUnique(entries: nat, a: nat, b: nat)
    requires IsCodeWidth(entries, a) && IsCodeWidth(entries, b)
    ensures a == b
  {
    if entries > 0 {
      CodeWidthIsLeast(entries, a, b);
      CodeWidthIsLeast(entries, b, a);
    }
  }

  /** The code width, computed by halving. */
  function CodeBits(entries: nat): nat {
    if entries == 0 then 0 else if entries <= 2 then 1 else 1 + CodeBits((entries + 1) / 2)
  }

  lemma {:induction false} CodeBitsIsWidth(entries: nat)
    ensures IsCodeWidth(entries, CodeBits(entries))
  {
    if entries > 2 {
      CodeBitsIsWidth((entries + 1) / 2);
    }
  }

  /** Every code of a dictionary fits in the code width and in the width
      padded to 1, 2 or 4 whole bytes. */
  lemma CodesFit(entries: nat, bits: nat, code: nat)
    requires IsCodeWidth(entries, bits) && code < entries <= UINT32_MAX
    ensures code < Pow2(bits) <= Pow2(8 * PaddedBytes(bits))
  {
    Pow2At32();
    if bits > 32 {
      Pow2Monotone(31, bits - 1);
    }
    if bits < 8 * PaddedBytes(bits) {
      Pow2Monotone(bits, 8 * PaddedBytes(bits));
    }
  }

  function PaddedBytes(bits: nat): nat {
    if bits < 9 then 1 else if bits < 17 then 2 else 4
  }

  /** The padded width is the least of 8, 16 and 32 bits that holds the codes. */
  lemma PaddedIsLeast(bits: nat)
    requires bits <= 32
    ensures PaddedBytes(bits) in {1, 2, 4} && bits <= 8 * PaddedBytes(bits)
    ensures forall bytes | bytes in {1, 2, 4} && bits <= 8 * bytes :: PaddedBytes(bits) <= bytes
  {
  }

  lemma QuotientIsZero(x: nat, p: nat)
    requires p > 0
    ensures x / p == 0 <==> x < p
  {
    assert x == p * (x / p) + x % p;
  }

  /** The reader's loop: shift the largest code right until a bit remains. The
      subtraction is on 32-bit words, so no codes at all give a width of 32 and
      a single code a width of 0; from two codes on it is the builder's width. */
  method ReaderCodeWidth(codes: nat) returns (bits: nat)
    requires codes <= UINT32_MAX
    ensures codes == 0 ==> bits == 32
    ensures codes == 1 ==> bits == 0
    ensures codes >= 2 ==> IsCodeWidth(codes, bits)
  {
    Pow2At32();
    var largest := (codes + UINT32_MAX) % TWO_TO_32;
    bits := 32;
    while bits > 0
      invariant 0 <= bits <= 32
      invariant largest < Pow2(bits)
      invariant largest == UINT32_MAX ==> bits == 32
    {
      QuotientIsZero(largest, Pow2(bits - 1));
      if largest / Pow2(bits - 1) != 0 {
        break;
      }
      bits := bits - 1;
    }
  }
}
