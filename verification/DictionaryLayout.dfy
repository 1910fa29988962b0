/** The physical dictionary: a header of two 32-bit words (number of values, code
    of NULL), then either the fixed-length values one after another, or one 32-bit
    offset per value followed by the variable-length values. */
module DictionaryLayout {

  import opened MemoryBytes
  import opened ValueOrder

  const HEADER_BYTES: nat := 8  // 2 * SIZEOF_UINT32

  function Concatenated(values: seq<Bytes>): (s: seq<byte>)
    ensures |s| == TotalSize(values)
  {
    if values == [] then []
    else Concatenated(values[..|values| - 1]) + values[|values| - 1]
  }

  /** One word per value: how many value bytes come before it. */
  function Offsets(values: seq<Bytes>): (s: seq<byte>)
    ensures |s| == SIZEOF_UINT32 * |values|
  {
    if values == [] then []
    else
      var before := values[..|values| - 1];
      Offsets(before) + EncodeUint32(TotalSize(before))
  }

  function Header(count: nat, hasNull: bool): (s: seq<byte>)
    ensures |s| == HEADER_BYTES
  {
    EncodeUint32(count) + EncodeUint32(if hasNull then count else UINT32_MAX)
  }

  /** Where the value bytes start. */
  function RegionStart(ty: Type, count: nat): nat {
    if ty.isVariableLength then HEADER_BYTES + SIZEOF_UINT32 * count else HEADER_BYTES
  }

  function Body(ty: Type, sorted: seq<Bytes>): (s: seq<byte>)
    ensures |s| == (if ty.isVariableLength then SIZEOF_UINT32 * |sorted| else 0) + TotalSize(sorted)
  {
    if ty.isVariableLength then Offsets(sorted) + Concatenated(sorted) else Concatenated(sorted)
  }

  function Layout(ty: Type, sorted: seq<Bytes>, hasNull: bool): (s: seq<byte>)
    ensures |s| == HEADER_BYTES + |Body(ty, sorted)|
  {
    Header(|sorted|, hasNull) + Body(ty, sorted)
  }

  lemma SliceOfLeft(a: seq<byte>, b: seq<byte>, i: nat, j: nat)
    requires i <= j <= |a|
    ensures (a + b)[i..j] == a[i..j]
  {
  }

  lemma SliceOfRight(a: seq<byte>, b: seq<byte>, i: nat, j: nat)
    requires i <= j <= |b|
    ensures (a + b)[|a| + i..|a| + j] == b[i..j]
  {
  }

  lemma {:induction false} ValueSlice(values: seq<Bytes>, k: nat)
    requires k < |values|
    ensures TotalSize(values[..k]) + |values[k]| == TotalSize(values[..k + 1]) <= TotalSize(values)
    ensures Concatenated(values)[TotalSize(values[..k])..TotalSize(values[..k + 1])] == values[k]
  {
    assert values[..k + 1][..k] == values[..k];
    if k + 1 == |values| {
      assert values[..k + 1] == values;
    } else {
      var front := values[..|values| - 1];
      ValueSlice(front, k);
      assert front[..k] == values[..k] && front[..k + 1] == values[..k + 1];
    }
  }

  lemma {:induction false} OffsetSlice(values: seq<Bytes>, k: nat)
    requires k < |values|
    ensures Offsets(values)[SIZEOF_UINT32 * k..SIZEOF_UINT32 * k + SIZEOF_UINT32] == EncodeUint32(TotalSize(values[..k]))
  {
    var front := values[..|values| - 1];
    if k + 1 < |values| {
      OffsetSlice(front, k);
      assert front[..k] == values[..k];
    }
  }

  lemma {:induction false} FixedLengthTotal(ty: Type, values: seq<Bytes>)
    requires !ty.isVariableLength && AllInstances(ty, values)
    ensures TotalSize(values) == |values| * ty.maximumByteLength
  {
    if values != [] {
      FixedLengthTotal(ty, values[..|values| - 1]);
    }
  }

  lemma {:induction false} TotalSizeAtLeast(values: seq<Bytes>, size: nat)
    requires forall i | 0 <= i < |values| :: |values[i]| >= size
    ensures TotalSize(values) >= |values| * size
  {
    if values != [] {
      TotalSizeAtLeast(values[..|values| - 1], size);
    }
  }

  // ---------- Writing ----------

  /** `s` with the bytes from `at` on overwritten by `value`. */
  function Overwritten(s: seq<byte>, at: nat, value: seq<byte>): (r: seq<byte>)
    requires at + |value| <= |s|
    ensures |r| == |s|
  {
    s[..at] + value + s[at + |value|..]
  }

  /** Writing `value` just after the bytes `done` that were written from `start` on. */
  lemma OverwriteNext(was: seq<byte>, start: nat, done: seq<byte>, value: seq<byte>)
    requires start + |done| + |value| <= |was|
    ensures Overwritten(Overwritten(was, start, done), start + |done|, value) == Overwritten(was, start, done + value)
  {
  }

  lemma OverwriteTwice(was: seq<byte>, start: nat, a: seq<byte>, at: nat, b: seq<byte>)
    requires start + |a| <= at && at + |b| <= |was|
    ensures Overwritten(Overwritten(was, start, a), at, b) == Overwritten(Overwritten(was, at, b), start, a)
  {
  }

  lemma TakeOneMore(values: seq<Bytes>, k: nat)
    requires k < |values|
    ensures Concatenated(values[..k + 1]) == Concatenated(values[..k]) + values[k]
    ensures Offsets(values[..k + 1]) == Offsets(values[..k]) + EncodeUint32(TotalSize(values[..k]))
    ensures TotalSize(values[..k]) + |values[k]| == TotalSize(values[..k + 1]) <= TotalSize(values)
  {
    ValueSlice(values, k);
    assert values[..k + 1][..k] == values[..k];
  }

  method CopyInto(value: seq<byte>, location: array<byte>, at: nat)
    requires at + |value| <= location.Length
    modifies location
    ensures location[..] == Overwritten(old(location[..]), at, value)
  {
    forall i | 0 <= i < |value| {
      location[at + i] := value[i];
    }
  }

  method CopyFixedLengthValuesToLocation(ty: Type, values: seq<Bytes>, location: array<byte>, start: nat)
    requires !ty.isVariableLength && AllInstances(ty, values)
    requires start + TotalSize(values) <= location.Length
    modifies location
    ensures location[..] == Overwritten(old(location[..]), start, Concatenated(values))
  {
    var at := start;
    ghost var was := location[..];
    for k := 0 to |values|
      invariant at == start + TotalSize(values[..k]) <= start + TotalSize(values)
      invariant location[..] == Overwritten(was, start, Concatenated(values[..k]))
    {
      TakeOneMore(values, k);
      CopyInto(values[k], location, at);
      OverwriteNext(was, start, Concatenated(values[..k]), values[k]);
      at := at + ty.maximumByteLength;
    }
    assert values[..|values|] == values;
  }

  lemma AppendBoth(was: seq<byte>, start: nat, offsets: seq<byte>, word: seq<byte>, region: nat, data: seq<byte>, value: seq<byte>)
    requires start + |offsets| + |word| <= region && region + |data| + |value| <= |was|
    ensures var s := Overwritten(Overwritten(was, start, offsets), region, data);
            Overwritten(Overwritten(s, start + |offsets|, word), region + |data|, value)
            == Overwritten(Overwritten(was, start, offsets + word), region, data + value)
  {
    var first := Overwritten(was, start, offsets);
    OverwriteTwice(first, start + |offsets|, word, region, data);
    OverwriteNext(was, start, offsets, word);
    OverwriteNext(Overwritten(was, start, offsets + word), region, data, value);
  }

  /** One turn of the loop that writes variable-length values: an offset word
      after the `offsets` and the bytes of `value` after the `data` already written. */
  method WriteEntry(value: seq<byte>, valueOffset: nat, location: array<byte>, ghost start: nat, offsetAt: nat, valuesLocation: nat,
                    ghost was: seq<byte>, ghost offsets: seq<byte>, ghost data: seq<byte>)
    requires start + |offsets| == offsetAt && offsetAt + SIZEOF_UINT32 <= valuesLocation
    requires valueOffset == |data| && |was| == location.Length
    requires valuesLocation + valueOffset + |value| <= location.Length
    requires location[..] == Overwritten(Overwritten(was, start, offsets), valuesLocation, data)
    modifies location
    ensures location[..] == Overwritten(Overwritten(was, start, offsets + EncodeUint32(valueOffset)),
                                        valuesLocation, data + value)
  {
    CopyInto(EncodeUint32(valueOffset), location, offsetAt);
    CopyInto(value, location, valuesLocation + valueOffset);
    AppendBoth(was, start, offsets, EncodeUint32(valueOffset), valuesLocation, data, value);
  }

  method CopyVariableLengthValuesToLocation(values: seq<Bytes>, location: array<byte>, start: nat)
    requires TotalSize(values) <= UINT32_MAX
    requires start + SIZEOF_UINT32 * |values| + TotalSize(values) <= location.Length
    modifies location
    ensures location[..] == Overwritten(old(location[..]), start, Offsets(values) + Concatenated(values))
  {
    var offsetAt := start;
    var valuesLocation := start + SIZEOF_UINT32 * |values|;
    var valueOffset := 0;
    ghost var was := location[..];
    ghost var offsets: seq<byte>, data: seq<byte> := [], [];
    for k := 0 to |values|
      invariant offsetAt == start + SIZEOF_UINT32 * k
      invariant valueOffset == TotalSize(values[..k]) <= TotalSize(values)
      invariant offsets == Offsets(values[..k]) && data == Concatenated(values[..k])
      invariant location[..] == Overwritten(Overwritten(was, start, offsets), valuesLocation, data)
    {
      TakeOneMore(values, k);
      WriteEntry(values[k], valueOffset, location, start, offsetAt, valuesLocation, was, offsets, data);
      offsets, data := offsets + EncodeUint32(valueOffset), data + values[k];
      offsetAt := offsetAt + SIZEOF_UINT32;
      assert valueOffset + |values[k]| <= UINT32_MAX;  // the 32-bit sum does not wrap
      valueOffset := valueOffset + |values[k]|;
    }
    assert values[..|values|] == values;
    OverwriteNext(was, start, Offsets(values), Concatenated(values));
  }
}
