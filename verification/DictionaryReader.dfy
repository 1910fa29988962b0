/** The reader: opens a physical dictionary in memory and turns codes back into values. */
module DictionaryReader {

  import opened MemoryBytes
  import opened CodeWidth
  import opened ValueOrder
  import opened DictionaryLayout

  datatype Dictionary = Dictionary(
    ty: Type,
    memory: seq<byte>,
    numberOfCodesIncludingNull: nat,
    codeLengthBits: nat,
    dataRegion: nat)
  {
    predicate HasHeader() {
      |memory| >= HEADER_BYTES
    }

    function NonNullCodes(): nat
      requires HasHeader()
    {
      ReadUint32(memory, 0)
    }

    function NullCode(): nat
      requires HasHeader()
    {
      ReadUint32(memory, SIZEOF_UINT32)
    }

    predicate HasWord(index: nat) {
      SIZEOF_UINT32 * index + SIZEOF_UINT32 <= |memory|
    }

    function Word(index: nat): nat
      requires HasWord(index)
    {
      ReadUint32(memory, SIZEOF_UINT32 * index)
    }

    /** The last code in 32-bit arithmetic, where it is UINT32_MAX for no codes. */
    predicate IsLast(code: nat)
      requires HasHeader()
    {
      code == SubUint32(NonNullCodes(), 1)
    }

    /** Where the bytes of a variable-length value start, and how many there are:
        up to the next offset, or for the last value up to the end of memory. */
    function ValueStart(code: nat): nat
      requires HasWord(code + 2)
    {
      dataRegion + Word(code + 2)
    }

    function ValueSize(code: nat): int
      requires HasHeader() && HasWord(code + 2) && (!IsLast(code) ==> HasWord(code + 3))
    {
      if IsLast(code) then |memory| - ValueStart(code)
      else SubUint32(Word(code + 3), Word(code + 2))
    }

    /** Decoding `code` reads only bytes of the dictionary. */
    predicate InBounds(code: nat) {
      && HasHeader()
      && (code != NullCode() ==>
            if ty.isVariableLength then
              && HasWord(code + 2)
              && (!IsLast(code) ==> HasWord(code + 3))
              && 0 <= ValueSize(code)
              && ValueStart(code) + ValueSize(code) <= |memory|
            else
              HEADER_BYTES + code * ty.maximumByteLength + ty.maximumByteLength <= |memory|)
    }

    function TypedValueForCode(code: nat): Value
      requires InBounds(code)
    {
      if code == NullCode() then Null
      else if ty.isVariableLength then
        Data(memory[ValueStart(code)..ValueStart(code) + ValueSize(code)])
      else
        var at := HEADER_BYTES + code * ty.maximumByteLength;
        Data(memory[at..at + ty.maximumByteLength])
    }
  }

  /** The dictionary maps code i to sorted[i], and NULL, if present, to the code
      after those. */
  ghost predicate Represents(d: Dictionary, sorted: seq<Bytes>, hasNull: bool) {
    && d.HasHeader()
    && |sorted| < 0x8000_0000
    && d.NonNullCodes() == |sorted|
    && d.NullCode() == (if hasNull then |sorted| else UINT32_MAX)
    && d.numberOfCodesIncludingNull == |sorted| + (if hasNull then 1 else 0)
    && (forall code | 0 <= code < |sorted| :: d.InBounds(code) && d.TypedValueForCode(code) == Data(sorted[code]))
    && (hasNull ==> d.InBounds(|sorted|) && d.TypedValueForCode(|sorted|) == Null)
  }

  datatype OpenOutcome = Opened(dictionary: Dictionary) | FatalSize

  /** The size test as it stands: a floor for variable-length values, but a
      ceiling for fixed-length ones. */
  predicate PassesSizeCheck(ty: Type, nonNullCodes: nat, memorySize: nat) {
    if ty.isVariableLength then
      2 * SIZEOF_UINT32 + nonNullCodes * (SIZEOF_UINT32 + ty.minimumByteLength) <= memorySize
    else
      memorySize <= nonNullCodes * ty.maximumByteLength + 2 * SIZEOF_UINT32
  }

  method Open(ty: Type, memory: seq<byte>) returns (r: OpenOutcome)
    requires |memory| >= HEADER_BYTES
    ensures r.Opened? <==> PassesSizeCheck(ty, ReadUint32(memory, 0), |memory|)
    ensures r.Opened? ==>
              var d, n := r.dictionary, ReadUint32(memory, 0);
              && d.ty == ty && d.memory == memory
              && d.numberOfCodesIncludingNull ==
                   (if ReadUint32(memory, SIZEOF_UINT32) == n then WrapUint32(n + 1) else n)
              && (d.numberOfCodesIncludingNull >= 2 ==> IsCodeWidth(d.numberOfCodesIncludingNull, d.codeLengthBits))
              && (d.numberOfCodesIncludingNull == 1 ==> d.codeLengthBits == 0)
              && (d.numberOfCodesIncludingNull == 0 ==> d.codeLengthBits == 32)
              && d.dataRegion == WrapUint32(n + 2) * SIZEOF_UINT32
  {
    ReadIsUint32(memory, 0);
    var nonNullCodes := ReadUint32(memory, 0);
    var codes := nonNullCodes;
    if ReadUint32(memory, SIZEOF_UINT32) == codes {
      codes := WrapUint32(codes + 1);
    }
    var bits := ReaderCodeWidth(codes);
    var dataRegion := WrapUint32(nonNullCodes + 2) * SIZEOF_UINT32;
    if ty.isVariableLength {
      if |memory| < 2 * SIZEOF_UINT32 + nonNullCodes * (SIZEOF_UINT32 + ty.minimumByteLength) {
        return FatalSize;
      }
    } else {
      if nonNullCodes * ty.maximumByteLength + 2 * SIZEOF_UINT32 < |memory| {
        return FatalSize;
      }
    }
    return Opened(Dictionary(ty, memory, codes, bits, dataRegion));
  }

  // ---------- Reading back what was written ----------

  lemma LayoutHeader(ty: Type, sorted: seq<Bytes>, hasNull: bool)
    ensures Layout(ty, sorted, hasNull)[..HEADER_BYTES] == Header(|sorted|, hasNull)
  {
  }

  lemma LayoutOffsetBytes(ty: Type, sorted: seq<Bytes>, hasNull: bool, at: nat)
    requires ty.isVariableLength && at + SIZEOF_UINT32 <= SIZEOF_UINT32 * |sorted|
    ensures Layout(ty, sorted, hasNull)[HEADER_BYTES + at..HEADER_BYTES + at + SIZEOF_UINT32]
         == Offsets(sorted)[at..at + SIZEOF_UINT32]
  {
    SliceOfRight(Header(|sorted|, hasNull), Body(ty, sorted), at, at + SIZEOF_UINT32);
    SliceOfLeft(Offsets(sorted), Concatenated(sorted), at, at + SIZEOF_UINT32);
  }

  /** The bytes of a value lie after the header, the offsets and the values before it. */
  lemma LayoutValue(ty: Type, sorted: seq<Bytes>, hasNull: bool, code: nat)
    requires code < |sorted|
    ensures var start := RegionStart(ty, |sorted|) + TotalSize(sorted[..code]);
            start + |sorted[code]| <= |Layout(ty, sorted, hasNull)|
            && Layout(ty, sorted, hasNull)[start..start + |sorted[code]|] == sorted[code]
  {
    var from, to := TotalSize(sorted[..code]), TotalSize(sorted[..code + 1]);
    ValueSlice(sorted, code);
    if ty.isVariableLength {
      var skip := SIZEOF_UINT32 * |sorted|;
      SliceOfRight(Header(|sorted|, hasNull), Body(ty, sorted), skip + from, skip + to);
      SliceOfRight(Offsets(sorted), Concatenated(sorted), from, to);
    } else {
      SliceOfRight(Header(|sorted|, hasNull), Body(ty, sorted), from, to);
    }
  }

  /** What a memory with the layout of `sorted` holds at each position. */
  ghost predicate Holds(memory: seq<byte>, ty: Type, sorted: seq<Bytes>, hasNull: bool) {
    && |memory| == RegionStart(ty, |sorted|) + TotalSize(sorted)
    && ReadUint32(memory, 0) == |sorted|
    && ReadUint32(memory, SIZEOF_UINT32) == (if hasNull then |sorted| else UINT32_MAX)
    && (forall code | 0 <= code < |sorted| :: HoldsValue(memory, ty, sorted, code))
  }

  ghost predicate HoldsValue(memory: seq<byte>, ty: Type, sorted: seq<Bytes>, code: nat)
    requires code < |sorted| && |memory| >= RegionStart(ty, |sorted|)
  {
    var start := RegionStart(ty, |sorted|) + TotalSize(sorted[..code]);
    && TotalSize(sorted[..code]) + |sorted[code]| == TotalSize(sorted[..code + 1]) <= TotalSize(sorted)
    && (ty.isVariableLength ==> ReadUint32(memory, SIZEOF_UINT32 * (code + 2)) == TotalSize(sorted[..code]))
    && start + |sorted[code]| <= |memory|
    && memory[start..start + |sorted[code]|] == sorted[code]
  }

  lemma HeaderReadsBack(memory: seq<byte>, count: nat, hasNull: bool)
    requires |memory| >= HEADER_BYTES && memory[..HEADER_BYTES] == Header(count, hasNull)
    requires count < 0x8000_0000
    ensures ReadUint32(memory, 0) == count
    ensures ReadUint32(memory, SIZEOF_UINT32) == if hasNull then count else UINT32_MAX
  {
    var nullCode := if hasNull then count else UINT32_MAX;
    assert memory[0..SIZEOF_UINT32] == memory[..HEADER_BYTES][..SIZEOF_UINT32] == EncodeUint32(count);
    assert memory[SIZEOF_UINT32..HEADER_BYTES] == memory[..HEADER_BYTES][SIZEOF_UINT32..] == EncodeUint32(nullCode);
    ReadsBackUint32(memory, 0, count);
    ReadsBackUint32(memory, SIZEOF_UINT32, nullCode);
  }

  lemma OffsetReadsBack(memory: seq<byte>, ty: Type, sorted: seq<Bytes>, hasNull: bool, code: nat)
    requires memory == Layout(ty, sorted, hasNull)
    requires ty.isVariableLength && code < |sorted|
    requires TotalSize(sorted[..code]) <= UINT32_MAX
    ensures ReadUint32(memory, SIZEOF_UINT32 * (code + 2)) == TotalSize(sorted[..code])
  {
    var at, before := SIZEOF_UINT32 * (code + 2), TotalSize(sorted[..code]);
    LayoutOffsetBytes(ty, sorted, hasNull, SIZEOF_UINT32 * code);
    assert at + SIZEOF_UINT32 <= |memory| && memory[at..at + SIZEOF_UINT32] == EncodeUint32(before) by {
      OffsetSlice(sorted, code);
    }
    ReadsBackUint32(memory, at, before);
  }

  lemma LayoutHolds(memory: seq<byte>, ty: Type, sorted: seq<Bytes>, hasNull: bool)
    requires memory == Layout(ty, sorted, hasNull)
    requires TotalSize(sorted) <= UINT32_MAX && |sorted| < 0x8000_0000
    ensures Holds(memory, ty, sorted, hasNull)
  {
    LayoutHeader(ty, sorted, hasNull);
    HeaderReadsBack(memory, |sorted|, hasNull);
    forall code | 0 <= code < |sorted| ensures HoldsValue(memory, ty, sorted, code) {
      LayoutValue(ty, sorted, hasNull, code);
      ValueSlice(sorted, code);
      if ty.isVariableLength {
        OffsetReadsBack(memory, ty, sorted, hasNull, code);
      }
    }
  }

  lemma FixedLengthDecodes(d: Dictionary, sorted: seq<Bytes>, hasNull: bool, code: nat)
    requires !d.ty.isVariableLength && AllInstances(d.ty, sorted)
    requires Holds(d.memory, d.ty, sorted, hasNull)
    requires code < |sorted| < 0x8000_0000
    ensures d.InBounds(code) && d.TypedValueForCode(code) == Data(sorted[code])
  {
    assert HoldsValue(d.memory, d.ty, sorted, code);
    FixedLengthTotal(d.ty, sorted[..code]);
  }

  lemma DecodesAt(d: Dictionary, code: nat, before: nat, value: Bytes)
    requires d.ty.isVariableLength && d.HasHeader() && code != d.NullCode()
    requires d.HasWord(code + 2) && d.Word(code + 2) == before
    requires d.dataRegion + before + |value| <= |d.memory|
    requires d.memory[d.dataRegion + before..d.dataRegion + before + |value|] == value
    requires if d.IsLast(code) then d.dataRegion + before + |value| == |d.memory|
             else d.HasWord(code + 3) && d.Word(code + 3) == before + |value|
    ensures d.InBounds(code) && d.TypedValueForCode(code) == Data(value)
  {
  }

  /** Where a value ends: at the next offset, or at the end of memory. */
  lemma NextOffset(d: Dictionary, sorted: seq<Bytes>, hasNull: bool, code: nat)
    requires d.ty.isVariableLength && Holds(d.memory, d.ty, sorted, hasNull)
    requires d.dataRegion == RegionStart(d.ty, |sorted|)
    requires code < |sorted| < 0x8000_0000
    ensures var next := TotalSize(sorted[..code]) + |sorted[code]|;
            if d.IsLast(code) then d.dataRegion + next == |d.memory|
            else d.HasWord(code + 3) && d.Word(code + 3) == next
  {
    assert HoldsValue(d.memory, d.ty, sorted, code);
    if code + 1 == |sorted| {
      assert sorted[..code + 1] == sorted;
    } else {
      assert HoldsValue(d.memory, d.ty, sorted, code + 1);
    }
  }

  lemma VariableLengthDecodes(d: Dictionary, sorted: seq<Bytes>, hasNull: bool, code: nat)
    requires d.ty.isVariableLength && Holds(d.memory, d.ty, sorted, hasNull)
    requires d.dataRegion == RegionStart(d.ty, |sorted|)
    requires code < |sorted| < 0x8000_0000
    ensures d.InBounds(code) && d.TypedValueForCode(code) == Data(sorted[code])
  {
    NextOffset(d, sorted, hasNull, code);
    assert HoldsValue(d.memory, d.ty, sorted, code);
    DecodesAt(d, code, TotalSize(sorted[..code]), sorted[code]);
  }

  lemma LayoutIsReadable(d: Dictionary, sorted: seq<Bytes>, hasNull: bool)
    requires AllInstances(d.ty, sorted) && TotalSize(sorted) <= UINT32_MAX
    requires |sorted| < 0x8000_0000
    requires Holds(d.memory, d.ty, sorted, hasNull)
    requires d.numberOfCodesIncludingNull == |sorted| + (if hasNull then 1 else 0)
    requires d.ty.isVariableLength ==> d.dataRegion == RegionStart(d.ty, |sorted|)
    ensures Represents(d, sorted, hasNull)
  {
    forall code | 0 <= code < |sorted|
      ensures d.InBounds(code) && d.TypedValueForCode(code) == Data(sorted[code])
    {
      if d.ty.isVariableLength {
        VariableLengthDecodes(d, sorted, hasNull, code);
      } else {
        FixedLengthDecodes(d, sorted, hasNull, code);
      }
    }
  }

  lemma LayoutPassesSizeCheck(ty: Type, sorted: seq<Bytes>, hasNull: bool)
    requires AllInstances(ty, sorted)
    ensures PassesSizeCheck(ty, |sorted|, |Layout(ty, sorted, hasNull)|)
  {
    if ty.isVariableLength {
      TotalSizeAtLeast(sorted, ty.minimumByteLength);
      assert |sorted| * (SIZEOF_UINT32 + ty.minimumByteLength)
          == SIZEOF_UINT32 * |sorted| + |sorted| * ty.minimumByteLength;
    } else {
      FixedLengthTotal(ty, sorted);
    }
  }

  /** The size that the check compares with is that of a layout whose values all
      have the least size: nothing smaller passes for variable-length values, and
      nothing larger for fixed-length ones. */
  lemma SizeCheckIsLeastLayout(ty: Type, values: seq<Bytes>, hasNull: bool, size: nat)
    requires forall i | 0 <= i < |values| ::
               |values[i]| == if ty.isVariableLength then ty.minimumByteLength else ty.maximumByteLength
    ensures PassesSizeCheck(ty, |values|, size)
            <==> if ty.isVariableLength then |Layout(ty, values, hasNull)| <= size else size <= |Layout(ty, values, hasNull)|
  {
    EqualSizesTotal(values, if ty.isVariableLength then ty.minimumByteLength else ty.maximumByteLength);
    assert |values| * (SIZEOF_UINT32 + ty.minimumByteLength)
        == SIZEOF_UINT32 * |values| + |values| * ty.minimumByteLength;
  }

  lemma {:induction false} EqualSizesTotal(values: seq<Bytes>, size: nat)
    requires forall i | 0 <= i < |values| :: |values[i]| == size
    ensures TotalSize(values) == |values| * size
  {
    if values != [] {
      EqualSizesTotal(values[..|values| - 1], size);
    }
  }

  // ---------- The offset check ----------

  /** Offsets ascend strictly and point into memory. */
  ghost predicate OffsetsAscend(d: Dictionary)
    requires d.HasHeader()
  {
    forall code | 0 <= code < d.NonNullCodes() :: OffsetAscends(d, code)
  }

  ghost predicate OffsetAscends(d: Dictionary, code: nat) {
    && d.HasWord(code + 2)
    && d.ValueStart(code) < |d.memory|
    && (code > 0 ==> d.ValueStart(code - 1) < d.ValueStart(code))
  }

  const SIZE_MAX: nat := 0xFFFF_FFFF_FFFF_FFFF

  /** With 2^32 - 2 codes the region starts at 0 in 32 bits; the offset before it
      is then the largest there is, and the check fails at the first code. */
  method ParanoidOffsetsCheck(d: Dictionary) returns (ok: bool)
    requires d.HasHeader()
    requires d.NonNullCodes() > 0 ==> d.HasWord(d.NonNullCodes() + 1)
    requires d.dataRegion == WrapUint32(d.NonNullCodes() + 2) * SIZEOF_UINT32
    ensures ok <==> d.dataRegion > 0 && OffsetsAscend(d)
  {
    var lastOffset := if d.dataRegion > 0 then d.dataRegion - 1 else SIZE_MAX;
    for code := 0 to d.NonNullCodes()
      invariant code == 0 ==> lastOffset == if d.dataRegion > 0 then d.dataRegion - 1 else SIZE_MAX
      invariant code > 0 ==> d.dataRegion > 0 && lastOffset == d.ValueStart(code - 1)
      invariant forall c | 0 <= c < code :: OffsetAscends(d, c)
    {
      ReadIsUint32(d.memory, (code + 2) * SIZEOF_UINT32);
      var valueOffset := d.dataRegion + d.Word(code + 2);
      if valueOffset >= |d.memory| || valueOffset <= lastOffset {
        assert d.dataRegion == 0 || !OffsetAscends(d, code);
        return false;
      }
      lastOffset := valueOffset;
    }
    return true;
  }

  lemma LayoutPassesOffsetCheck(d: Dictionary, sorted: seq<Bytes>, hasNull: bool)
    requires d.ty.isVariableLength && AllInstances(d.ty, sorted) && TotalSize(sorted) <= UINT32_MAX
    requires |sorted| < 0x8000_0000
    requires Holds(d.memory, d.ty, sorted, hasNull)
    requires d.ty.isVariableLength ==> d.dataRegion == RegionStart(d.ty, |sorted|)
    ensures OffsetsAscend(d)
  {
    forall code | 0 <= code < |sorted| ensures OffsetAscends(d, code) {
      assert HoldsValue(d.memory, d.ty, sorted, code);
      if code > 0 {
        assert HoldsValue(d.memory, d.ty, sorted, code - 1);
      }
    }
  }

  // ---------- What the two checks guarantee about any memory ----------

  /** For variable-length values, memory that passes both checks can be decoded
      without leaving it, and no value is empty. */
  lemma CheckedOffsetsStayInBounds(d: Dictionary, code: nat)
    requires d.HasHeader() && d.ty.isVariableLength
    requires d.dataRegion == WrapUint32(d.NonNullCodes() + 2) * SIZEOF_UINT32
    requires PassesSizeCheck(d.ty, d.NonNullCodes(), |d.memory|) && OffsetsAscend(d)
    requires code < d.NonNullCodes()
    ensures d.InBounds(code)
    ensures code != d.NullCode() ==> d.ValueSize(code) >= 1
  {
    ReadIsUint32(d.memory, 0);
    assert OffsetAscends(d, code);
    ReadIsUint32(d.memory, SIZEOF_UINT32 * (code + 2));
    if code + 1 < d.NonNullCodes() {
      assert OffsetAscends(d, code + 1);
      ReadIsUint32(d.memory, SIZEOF_UINT32 * (code + 3));
      assert d.ValueSize(code) == d.Word(code + 3) - d.Word(code + 2) >= 1;
    }
  }

  ghost predicate AllInBounds(d: Dictionary)
    requires d.HasHeader()
  {
    forall code: nat | code < d.NonNullCodes() :: d.InBounds(code)
  }

  /** How many values a fixed-length dictionary must hold for its codes to be
      decoded: the last is not looked at if the header gives its code to NULL. */
  function ValuesRead(d: Dictionary): nat
    requires d.HasHeader()
  {
    var n := d.NonNullCodes();
    if n > 0 && d.NullCode() == n - 1 then n - 1 else n
  }

  /** For fixed-length values the size check is a ceiling, so passing it is not
      enough: every code can be decoded exactly if the values fit. Unless NULL
      has the last code, that takes exactly the greatest size that passes. */
  lemma FixedLengthInBoundsIffExact(d: Dictionary)
    requires d.HasHeader() && !d.ty.isVariableLength
    requires PassesSizeCheck(d.ty, d.NonNullCodes(), |d.memory|)
    ensures AllInBounds(d) <==> HEADER_BYTES + ValuesRead(d) * d.ty.maximumByteLength <= |d.memory|
    ensures d.NullCode() >= d.NonNullCodes() ==>
              (AllInBounds(d) <==> |d.memory| == HEADER_BYTES + d.NonNullCodes() * d.ty.maximumByteLength)
  {
    var n, length := ValuesRead(d), d.ty.maximumByteLength;
    if HEADER_BYTES + n * length <= |d.memory| {
      forall code: nat | code < d.NonNullCodes() ensures d.InBounds(code) {
        if code < n {
          OneMoreFits(code, n, length);
        }
      }
    } else {
      OneMoreFits(n - 1, n, length);
      assert !d.InBounds(n - 1);
    }
  }

  lemma {:induction false} OneMoreFits(code: nat, n: nat, length: nat)
    requires code < n
    ensures code * length + length <= n * length
    ensures code + 1 == n ==> code * length + length == n * length
  {
    assert n * length == (n - 1) * length + length;
    if code + 1 < n {
      OneMoreFits(code, n - 1, length);
    }
  }

  /** A bare header that announces one value passes the size check. */
  lemma HeaderAlonePassesSizeCheck(ty: Type)
    requires !ty.isVariableLength && ty.maximumByteLength >= 1
    ensures PassesSizeCheck(ty, 1, HEADER_BYTES)
    ensures forall d: Dictionary | d.ty == ty && d.memory == Header(1, false) :: !d.InBounds(0)
  {
    FourBytesHoldUint32();
    var m := Header(1, false);
    assert m[SIZEOF_UINT32..2 * SIZEOF_UINT32] == EncodeUint32(UINT32_MAX);
    ReadsBackUint32(m, SIZEOF_UINT32, UINT32_MAX);
  }
}
