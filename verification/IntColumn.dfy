/** INT columns compared with a FLOAT, which C++ decides after rounding the integer
    to a float. */
module IntColumn {

  import opened MemoryBytes
  import opened ValueOrder
  import opened DictionaryReader
  import opened DictionaryQueries

  function IntOf(v: Bytes): int
    requires |v| == SIZEOF_UINT32
  {
    var word := ReadUint32(v, 0);
    if word < 0x8000_0000 then word else word - TWO_TO_32
  }

  function IntType(nullable: bool): Type {
    Type(false, SIZEOF_UINT32, SIZEOF_UINT32, nullable,
         (a: Bytes, b: Bytes) => |a| == SIZEOF_UINT32 && |b| == SIZEOF_UINT32 && IntOf(a) < IntOf(b))
  }

  lemma WordDeterminesBytes(a: Bytes, b: Bytes)
    requires |a| == |b| == SIZEOF_UINT32 && ReadUint32(a, 0) == ReadUint32(b, 0)
    ensures a == b
  {
    var a0: int, a1: int, a2: int, a3: int := a[0], a[1], a[2], a[3];
    var b0: int, b1: int, b2: int, b3: int := b[0], b[1], b[2], b[3];
    assert a3 == b3;
    assert a2 == b2;
    assert a1 == b1;
  }

  lemma IntTypeIsOrdered(nullable: bool)
    ensures IntType(nullable).IsOrdered()
  {
    var ty := IntType(nullable);
    forall a, b | ty.IsInstance(a) && ty.IsInstance(b) && a != b ensures ty.less(a, b) || ty.less(b, a) {
      ReadIsUint32(a, 0);
      ReadIsUint32(b, 0);
      if ReadUint32(a, 0) == ReadUint32(b, 0) {
        WordDeterminesBytes(a, b);
      }
    }
  }

  /** A float has 24 bits of precision: the integer after this one lies half-way
      between two floats and rounds to this one. */
  const TWO_TO_24: int := 16777216

  /** The float 16777216.0 against an INT: 16777216 and 16777217 equal it, every
      smaller integer is below it and every larger one above. */
  function FloatProbe(): Probe {
    Probe(a => |a| == SIZEOF_UINT32 && IntOf(a) < TWO_TO_24,
          a => |a| == SIZEOF_UINT32 && IntOf(a) > TWO_TO_24 + 1,
          a => |a| == SIZEOF_UINT32 && TWO_TO_24 <= IntOf(a) <= TWO_TO_24 + 1)
  }

  lemma EncodedInt(x: nat)
    requires x < 0x8000_0000
    ensures IntOf(EncodeUint32(x)) == x
  {
    assert EncodeUint32(x)[0..SIZEOF_UINT32] == EncodeUint32(x);
    ReadsBackUint32(EncodeUint32(x), 0, x);
  }

  /** Both integers equal the same float. In a dictionary of the two, whatever
      range of at most one code stands for the comparison is wrong. */
  lemma FloatEqualsTwoInts(nullable: bool, sorted: seq<Bytes>)
    requires sorted == [EncodeUint32(TWO_TO_24), EncodeUint32(TWO_TO_24 + 1)]
    ensures var ty := IntType(nullable);
            ty.IsOrdered() && AllInstances(ty, sorted) && Ascending(ty, sorted) && Comparable(ty, FloatProbe())
    ensures !AtMostOneEqual(FloatProbe(), sorted)
    ensures forall d: Dictionary, hasNull: bool, first: nat, second: nat
              | d.ty == IntType(nullable) && IsDictionary(d, sorted, hasNull) && second <= first + 1
              :: !RangeIsExact(d, Equal, FloatProbe(), first, second)
  {
    var p := FloatProbe();
    IntTypeIsOrdered(nullable);
    EncodedInt(TWO_TO_24);
    EncodedInt(TWO_TO_24 + 1);
    assert p.equal(sorted[0]) && p.equal(sorted[1]);
    forall d: Dictionary, hasNull: bool, first: nat, second: nat
      | d.ty == IntType(nullable) && IsDictionary(d, sorted, hasNull) && second <= first + 1
      ensures !RangeIsExact(d, Equal, p, first, second)
    {
      assert d.TypedValueForCode(0) == Data(sorted[0]) && d.TypedValueForCode(1) == Data(sorted[1]);
    }
  }
}
