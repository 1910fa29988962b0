/** Bytes and the little-endian integers that the physical dictionary is made of. */
module MemoryBytes {

  type byte = b: int | 0 <= b < 256

  const UINT32_MAX: nat := 0xFFFF_FFFF
  const TWO_TO_32: nat := 0x1_0000_0000
  const SIZEOF_UINT32: nat := 4

  /** The value a 32-bit unsigned word holds after an operation that yields `x`. */
  function WrapUint32(x: nat): nat {
    if x < TWO_TO_32 then x else x % TWO_TO_32
  }

  /** Subtraction of 32-bit unsigned words. */
  function SubUint32(a: nat, b: nat): nat
    requires b <= UINT32_MAX
  {
    if b <= a then a - b else a + (TWO_TO_32 - b)
  }

  function Pow256(n: nat): nat {
    if n == 0 then 1 else 256 * Pow256(n - 1)
  }

  /** The `width` low-order bytes of `x`, least significant first. */
  function ToBytes(x: nat, width: nat): (s: seq<byte>)
    ensures |s| == width
  {
    if width == 0 then [] else [x % 256] + ToBytes(x / 256, width - 1)
  }

  function FromBytes(s: seq<byte>): nat {
    if s == [] then 0 else s[0] + 256 * FromBytes(s[1..])
  }

  lemma {:induction false} BytesRoundTrip(x: nat, width: nat)
    requires x < Pow256(width)
    ensures FromBytes(ToBytes(x, width)) == x
  {
    if width > 0 {
      BytesRoundTrip(x / 256, width - 1);
      assert ToBytes(x, width)[1..] == ToBytes(x / 256, width - 1);
    }
  }

  function EncodeUint32(x: nat): (s: seq<byte>)
    ensures |s| == SIZEOF_UINT32
  {
    ToBytes(x, SIZEOF_UINT32)
  }

  /** Reads the 32-bit word stored at byte position `at`. */
  function ReadUint32(memory: seq<byte>, at: nat): nat
    requires at + SIZEOF_UINT32 <= |memory|
  {
    var b0: int, b1: int, b2: int, b3: int := memory[at], memory[at + 1], memory[at + 2], memory[at + 3];
    b0 + 0x100 * b1 + 0x1_0000 * b2 + 0x100_0000 * b3
  }

  lemma FourBytesHoldUint32()
    ensures Pow256(SIZEOF_UINT32) == TWO_TO_32
  {
    assert Pow256(2) == 65536;
    assert Pow256(3) == 256 * Pow256(2);
  }

  lemma ReadIsUint32(memory: seq<byte>, at: nat)
    requires at + SIZEOF_UINT32 <= |memory|
    ensures ReadUint32(memory, at) <= UINT32_MAX
  {
  }

  lemma FourBytesValue(s: seq<byte>)
    requires |s| == SIZEOF_UINT32
    ensures FromBytes(s) == ReadUint32(s, 0)
  {
    assert FromBytes(s[1..]) == s[1] + 256 * FromBytes(s[2..]) by { assert s[1..][1..] == s[2..]; }
    assert FromBytes(s[2..]) == s[2] + 256 * FromBytes(s[3..]) by { assert s[2..][1..] == s[3..]; }
    assert FromBytes(s[3..]) == s[3] by { assert s[3..][1..] == []; }
  }

  lemma ReadsBackUint32(memory: seq<byte>, at: nat, x: nat)
    requires at + SIZEOF_UINT32 <= |memory|
    requires memory[at..at + SIZEOF_UINT32] == EncodeUint32(x)
    requires x <= UINT32_MAX
    ensures ReadUint32(memory, at) == x
  {
    FourBytesHoldUint32();
    BytesRoundTrip(x, SIZEOF_UINT32);
    FourBytesValue(memory[at..at + SIZEOF_UINT32]);
  }
}
