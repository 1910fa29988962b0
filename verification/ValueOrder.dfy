/** Column types as the dictionary sees them: byte strings of a known size with a
    strict total order. Sorted duplicate-free sequences, ranks and byte totals. */
module ValueOrder {

  import opened MemoryBytes

  type Bytes = seq<byte>

  /** A stored value, or NULL. */
  datatype Value = Null | Data(bytes: Bytes)

  datatype Type = Type(
    isVariableLength: bool,
    minimumByteLength: nat,
    maximumByteLength: nat,
    isNullable: bool,
    less: (Bytes, Bytes) -> bool)
  {
    predicate IsInstance(v: Bytes) {
      && |v| >= 1
      && (isVariableLength ==> minimumByteLength <= |v|)
      && (!isVariableLength ==> |v| == maximumByteLength)
    }

    /** The order the source takes from LessComparison: strict, total, and in
        agreement with the equality of the builder's hash table. */
    ghost predicate IsOrdered() {
      && (!isVariableLength ==> maximumByteLength >= 1)
      && (forall a {:trigger less(a, a)} | IsInstance(a) :: !less(a, a))
      && (forall a, b {:trigger less(a, b)} | IsInstance(a) && IsInstance(b) && a != b :: less(a, b) || less(b, a))
      && (forall a, b, c {:trigger less(a, b), less(b, c)}
            | IsInstance(a) && IsInstance(b) && IsInstance(c) && less(a, b) && less(b, c) :: less(a, c))
    }
  }

  ghost predicate AllInstances(ty: Type, values: seq<Bytes>) {
    forall i | 0 <= i < |values| :: ty.IsInstance(values[i])
  }

  ghost predicate Ascending(ty: Type, values: seq<Bytes>) {
    forall i, j | 0 <= i < j < |values| :: ty.less(values[i], values[j])
  }

  function Elements(values: seq<Bytes>): set<Bytes> {
    set v | v in values
  }

  /** `sorted` lists the set `values` in ascending order. */
  ghost predicate Lists(ty: Type, sorted: seq<Bytes>, values: set<Bytes>) {
    AllInstances(ty, sorted) && Ascending(ty, sorted) && Elements(sorted) == values
  }

  /** How many members of `values` come before `v`: the code `v` must get. */
  ghost function Rank(ty: Type, values: set<Bytes>, v: Bytes): nat {
    |set u | u in values && ty.less(u, v)|
  }

  lemma {:induction false} DistinctCount(values: seq<Bytes>)
    requires forall i, j | 0 <= i < j < |values| :: values[i] != values[j]
    ensures |Elements(values)| == |values|
  {
    if values != [] {
      var n := |values| - 1;
      DistinctCount(values[..n]);
      assert Elements(values) == Elements(values[..n]) + {values[n]};
    }
  }

  lemma AscendingIsDistinct(ty: Type, sorted: seq<Bytes>)
    requires ty.IsOrdered() && AllInstances(ty, sorted) && Ascending(ty, sorted)
    ensures |Elements(sorted)| == |sorted|
  {
    DistinctCount(sorted);
  }

  /** The position of a value in the sorted listing is its rank. */
  lemma RankOfListed(ty: Type, sorted: seq<Bytes>, values: set<Bytes>, i: nat)
    requires ty.IsOrdered() && Lists(ty, sorted, values) && i < |sorted|
    ensures Rank(ty, values, sorted[i]) == i
  {
    var smaller := set u | u in values && ty.less(u, sorted[i]);
    assert smaller == Elements(sorted[..i]) by {
      forall u | u in smaller ensures u in sorted[..i] {
        var j :| 0 <= j < |sorted| && sorted[j] == u;
        assert j < i;
        assert sorted[..i][j] == u;
      }
    }
    AscendingIsDistinct(ty, sorted[..i]);
  }

  /** A set has one ascending listing, so the order in which a hash table
      yields its keys cannot show in what is built from them. */
  lemma ListingIsUnique(ty: Type, a: seq<Bytes>, b: seq<Bytes>, values: set<Bytes>)
    requires ty.IsOrdered() && Lists(ty, a, values) && Lists(ty, b, values)
    ensures a == b
  {
    AscendingIsDistinct(ty, a);
    AscendingIsDistinct(ty, b);
    forall i | 0 <= i < |a| ensures a[i] == b[i] {
      assert b[i] in values;
      var j :| 0 <= j < |a| && a[j] == b[i];
      RankOfListed(ty, a, values, j);
      RankOfListed(ty, b, values, i);
    }
  }

  /** SortValues: rearranges `values` into ascending order (insertion sort on a
      duplicate-free input). */
  method SortValues(ty: Type, values: seq<Bytes>) returns (sorted: seq<Bytes>)
    requires ty.IsOrdered() && AllInstances(ty, values)
    requires forall i, j | 0 <= i < j < |values| :: values[i] != values[j]
    ensures Lists(ty, sorted, Elements(values))
  {
    sorted := [];
    for k := 0 to |values|
      invariant Lists(ty, sorted, Elements(values[..k]))
    {
      assert values[k] !in sorted by { assert values[k] !in Elements(values[..k]); }
      sorted := InsertSorted(ty, sorted, values[k]);
      assert values[..k + 1] == values[..k] + [values[k]];
    }
    assert values[..|values|] == values;
  }

  method InsertSorted(ty: Type, sorted: seq<Bytes>, v: Bytes) returns (r: seq<Bytes>)
    requires ty.IsOrdered() && AllInstances(ty, sorted) && Ascending(ty, sorted)
    requires ty.IsInstance(v) && v !in sorted
    ensures Lists(ty, r, Elements(sorted) + {v})
  {
    var i := 0;
    while i < |sorted| && ty.less(sorted[i], v)
      invariant 0 <= i <= |sorted|
      invariant forall j | 0 <= j < i :: ty.less(sorted[j], v)
    {
      i := i + 1;
    }
    assert forall j | i <= j < |sorted| :: ty.less(v, sorted[j]) by {
      if i < |sorted| { assert ty.less(v, sorted[i]); }
    }
    r := sorted[..i] + [v] + sorted[i..];
    InsertedAt(ty, sorted, v, i);
  }

  lemma InsertedAt(ty: Type, sorted: seq<Bytes>, v: Bytes, i: nat)
    requires AllInstances(ty, sorted) && Ascending(ty, sorted) && ty.IsInstance(v) && i <= |sorted|
    requires forall j | 0 <= j < i :: ty.less(sorted[j], v)
    requires forall j | i <= j < |sorted| :: ty.less(v, sorted[j])
    ensures Lists(ty, sorted[..i] + [v] + sorted[i..], Elements(sorted) + {v})
  {
    var r := sorted[..i] + [v] + sorted[i..];
    assert forall j | 0 <= j < i :: r[j] == sorted[j];
    assert forall j | i < j < |r| :: r[j] == sorted[j - 1];
    assert r[i] == v;
    assert Elements(r) == Elements(sorted) + {v} by {
      assert sorted == sorted[..i] + sorted[i..];
    }
  }

  // ---------- Byte totals ----------

  function TotalSize(values: seq<Bytes>): nat {
    if values == [] then 0 else TotalSize(values[..|values| - 1]) + |values[|values| - 1]|
  }

  ghost function SetSize(values: set<Bytes>): nat {
    if values == {} then 0 else
    var v :| v in values;
    |v| + SetSize(values - {v})
  }

  lemma {:induction false} SetSizeWithout(values: set<Bytes>, v: Bytes)
    requires v in values
    ensures SetSize(values) == |v| + SetSize(values - {v})
  {
    var u :| u in values && SetSize(values) == |u| + SetSize(values - {u});
    if u != v {
      SetSizeWithout(values - {u}, v);
      SetSizeWithout(values - {v}, u);
      assert values - {u} - {v} == values - {v} - {u};
    }
  }

  lemma SetSizeWith(values: set<Bytes>, v: Bytes)
    requires v !in values
    ensures SetSize(values + {v}) == |v| + SetSize(values)
  {
    SetSizeWithout(values + {v}, v);
    assert values + {v} - {v} == values;
  }

  /** Sorting conserves bytes. */
  lemma {:induction false} ListingConservesSize(values: seq<Bytes>)
    requires forall i, j | 0 <= i < j < |values| :: values[i] != values[j]
    ensures TotalSize(values) == SetSize(Elements(values))
  {
    if values != [] {
      var n := |values| - 1;
      ListingConservesSize(values[..n]);
      assert Elements(values) == Elements(values[..n]) + {values[n]};
      SetSizeWith(Elements(values[..n]), values[n]);
    }
  }

  // ---------- How many distinct values fit in 2^32 - 1 bytes ----------

  /** The byte strings of one or two bytes, numbered from 0 to 65791. */
  function ShortNumber(v: Bytes): nat
    requires 1 <= |v| <= 2
  {
    if |v| == 1 then v[0] else 256 + 256 * (v[0] as int) + v[1]
  }

  lemma {:induction false} BoundedSetSize(s: set<nat>, n: nat)
    requires forall x | x in s :: x < n
    ensures |s| <= n
  {
    if n == 0 {
      assert s == {};
    } else {
      BoundedSetSize(s - {n - 1}, n - 1);
    }
  }

  lemma {:induction false} NumberingCounts(short: set<Bytes>)
    requires forall v | v in short :: 1 <= |v| <= 2
    ensures |set v | v in short :: ShortNumber(v)| == |short|
  {
    if short != {} {
      var v :| v in short;
      var rest := short - {v};
      NumberingCounts(rest);
      var numbers := set u | u in rest :: ShortNumber(u);
      assert (set u | u in short :: ShortNumber(u)) == numbers + {ShortNumber(v)};
      forall u | u in rest ensures ShortNumber(u) != ShortNumber(v) {
        ShortNumberInjective(u, v);
      }
    }
  }

  lemma ShortNumberInjective(u: Bytes, v: Bytes)
    requires 1 <= |u| <= 2 && 1 <= |v| <= 2 && u != v
    ensures ShortNumber(u) != ShortNumber(v)
  {
    if |u| == |v| == 2 {
      assert u[0] != v[0] || u[1] != v[1];
    }
  }

  lemma {:induction false} SizeByCount(values: set<Bytes>)
    requires forall v | v in values :: |v| >= 1
    ensures SetSize(values) + 2 * |set v | v in values && |v| <= 2| >= 3 * |values|
  {
    if values != {} {
      var v :| v in values && SetSize(values) == |v| + SetSize(values - {v});
      SizeByCount(values - {v});
      var short := set u | u in values && |u| <= 2;
      var shortRest := set u | u in values - {v} && |u| <= 2;
      assert short == if |v| <= 2 then shortRest + {v} else shortRest;
    }
  }

  /** There are too few one- and two-byte strings for 2^31 distinct values to
      fit in the byte limit: the byte limit is always hit first. */
  lemma ByteLimitBoundsCount(values: set<Bytes>)
    requires forall v | v in values :: |v| >= 1
    requires SetSize(values) <= UINT32_MAX
    ensures |values| < 0x7FFF_FFFF
  {
    var short := set v | v in values && |v| <= 2;
    SizeByCount(values);
    NumberingCounts(short);
    BoundedSetSize(set v | v in short :: ShortNumber(v), 65792);
  }
}
