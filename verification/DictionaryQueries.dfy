/** Lookups in an opened dictionary: value to code, bounds, and the rewriting of a
    comparison with a value into a range of codes. */
module DictionaryQueries {

  import opened Wrappers
  import opened MemoryBytes
  import opened CodeWidth
  import opened ValueOrder
  import opened DictionaryLayout
  import opened DictionaryBuilder
  import opened DictionaryReader

  /** A value to look up. It may be of another type than the dictionary's, so all
      that is known of it is how stored values compare with it. */
  datatype Probe = NullProbe | Probe(below: Bytes -> bool, above: Bytes -> bool, equal: Bytes -> bool)

  /** Comparison with the probe respects the order of the stored values. */
  ghost predicate Comparable(ty: Type, p: Probe) {
    p.Probe? ==>
      && (forall a | ty.IsInstance(a) :: p.equal(a) <==> !p.below(a) && !p.above(a))
      && (forall a | ty.IsInstance(a) :: !(p.below(a) && p.above(a)))
      && (forall a, b | ty.IsInstance(a) && ty.IsInstance(b) && ty.less(a, b) && p.below(b) :: p.below(a))
      && (forall a, b | ty.IsInstance(a) && ty.IsInstance(b) && ty.less(a, b) && p.above(a) :: p.above(b))
  }

  /** The probe for a value of the dictionary's own type. */
  function SameTypeProbe(ty: Type, v: Value): Probe {
    match v
    case Null => NullProbe
    case Data(bytes) => Probe(a => ty.less(a, bytes), a => ty.less(bytes, a), a => a == bytes)
  }

  lemma SameTypeIsComparable(ty: Type, v: Value)
    requires ty.IsOrdered() && (v.Data? ==> ty.IsInstance(v.bytes))
    ensures Comparable(ty, SameTypeProbe(ty, v))
  {
    if v.Data? {
      var p := SameTypeProbe(ty, v);
      forall a | ty.IsInstance(a)
        ensures p.equal(a) <==> !p.below(a) && !p.above(a)
        ensures !(p.below(a) && p.above(a))
      {
        assert !ty.less(a, a);
      }
    }
  }

  datatype Comparison = Equal | NotEqual | Less | LessOrEqual | Greater | GreaterOrEqual

  /** "stored-value comparison probe" as SQL means it: never true of NULL. */
  predicate Satisfies(v: Value, comp: Comparison, p: Probe) {
    && v.Data?
    && p.Probe?
    && match comp
       case Equal => p.equal(v.bytes)
       case NotEqual => !p.equal(v.bytes)
       case Less => p.below(v.bytes)
       case LessOrEqual => !p.above(v.bytes)
       case Greater => p.above(v.bytes)
       case GreaterOrEqual => !p.below(v.bytes)
  }

  /** The six comparisons against one another: a stored value is less than, equal to
      or greater than the probe, and the other three are made of these. */
  lemma ComparisonsAgree(ty: Type, bytes: Bytes, p: Probe)
    requires ty.IsInstance(bytes) && p.Probe? && Comparable(ty, p)
    ensures var v := Data(bytes);
            && (Satisfies(v, Less, p) || Satisfies(v, Equal, p) || Satisfies(v, Greater, p))
            && !(Satisfies(v, Less, p) && Satisfies(v, Equal, p))
            && !(Satisfies(v, Less, p) && Satisfies(v, Greater, p))
            && !(Satisfies(v, Equal, p) && Satisfies(v, Greater, p))
            && (Satisfies(v, LessOrEqual, p) <==> Satisfies(v, Less, p) || Satisfies(v, Equal, p))
            && (Satisfies(v, GreaterOrEqual, p) <==> Satisfies(v, Greater, p) || Satisfies(v, Equal, p))
            && (Satisfies(v, NotEqual, p) <==> Satisfies(v, Less, p) || Satisfies(v, Greater, p))
  {
  }

  /** What they mean for a value of the dictionary's own type. Nothing compares
      with NULL. */
  lemma OwnTypeComparisons(ty: Type, v: Value, comp: Comparison, u: Value)
    requires ty.IsOrdered()
    requires (v.Data? ==> ty.IsInstance(v.bytes)) && (u.Data? ==> ty.IsInstance(u.bytes))
    ensures Satisfies(v, comp, SameTypeProbe(ty, u))
            <==> && v.Data? && u.Data?
                 && match comp
                    case Equal => v.bytes == u.bytes
                    case NotEqual => v.bytes != u.bytes
                    case Less => ty.less(v.bytes, u.bytes)
                    case LessOrEqual => v.bytes == u.bytes || ty.less(v.bytes, u.bytes)
                    case Greater => ty.less(u.bytes, v.bytes)
                    case GreaterOrEqual => v.bytes == u.bytes || ty.less(u.bytes, v.bytes)
  {
    if v.Data? && u.Data? {
      SameTypeIsComparable(ty, u);
      ComparisonsAgree(ty, v.bytes, SameTypeProbe(ty, u));
    }
  }

  /** `d` is an opened dictionary of the sorted listing of some set of values. */
  ghost predicate IsDictionary(d: Dictionary, sorted: seq<Bytes>, hasNull: bool) {
    d.ty.IsOrdered() && AllInstances(d.ty, sorted) && Ascending(d.ty, sorted) && Represents(d, sorted, hasNull)
  }

  // ---------- Bounds ----------

  lemma BelowIsPrefix(ty: Type, p: Probe, sorted: seq<Bytes>, middle: nat)
    requires AllInstances(ty, sorted) && Ascending(ty, sorted) && middle < |sorted|
    requires p.Probe? && Comparable(ty, p)
    ensures p.below(sorted[middle]) ==> forall i | 0 <= i <= middle :: p.below(sorted[i])
    ensures !p.below(sorted[middle]) ==> forall i | middle <= i < |sorted| :: !p.below(sorted[i])
  {
  }

  lemma AboveIsSuffix(ty: Type, p: Probe, sorted: seq<Bytes>, middle: nat)
    requires AllInstances(ty, sorted) && Ascending(ty, sorted) && middle < |sorted|
    requires p.Probe? && Comparable(ty, p)
    ensures p.above(sorted[middle]) ==> forall i | middle <= i < |sorted| :: p.above(sorted[i])
    ensures !p.above(sorted[middle]) ==> forall i | 0 <= i <= middle :: !p.above(sorted[i])
  {
  }

  /** std::lower_bound over the codes: how many values come before the probe. */
  method LowerBound(d: Dictionary, p: Probe, ghost sorted: seq<Bytes>, ghost hasNull: bool) returns (code: nat)
    requires IsDictionary(d, sorted, hasNull) && p.Probe? && Comparable(d.ty, p)
    ensures code <= |sorted|
    ensures forall i | 0 <= i < |sorted| :: p.below(sorted[i]) <==> i < code
  {
    var first: nat, count: nat := 0, d.NonNullCodes();
    while count > 0
      invariant first + count <= |sorted|
      invariant forall i | 0 <= i < first :: p.below(sorted[i])
      invariant forall i | first + count <= i < |sorted| :: !p.below(sorted[i])
    {
      var step := count / 2;
      var middle := first + step;
      assert d.InBounds(middle) && d.TypedValueForCode(middle) == Data(sorted[middle]);
      BelowIsPrefix(d.ty, p, sorted, middle);
      if p.below(d.TypedValueForCode(middle).bytes) {
        first, count := middle + 1, count - step - 1;
      } else {
        count := step;
      }
    }
    code := first;
  }

  /** std::upper_bound over the codes: how many values do not come after the probe. */
  method UpperBound(d: Dictionary, p: Probe, ghost sorted: seq<Bytes>, ghost hasNull: bool) returns (code: nat)
    requires IsDictionary(d, sorted, hasNull) && p.Probe? && Comparable(d.ty, p)
    ensures code <= |sorted|
    ensures forall i | 0 <= i < |sorted| :: p.above(sorted[i]) <==> i >= code
  {
    var first: nat, count: nat := 0, d.NonNullCodes();
    while count > 0
      invariant first + count <= |sorted|
      invariant forall i | 0 <= i < first :: !p.above(sorted[i])
      invariant forall i | first + count <= i < |sorted| :: p.above(sorted[i])
    {
      var step := count / 2;
      var middle := first + step;
      assert d.InBounds(middle) && d.TypedValueForCode(middle) == Data(sorted[middle]);
      AboveIsSuffix(d.ty, p, sorted, middle);
      if !p.above(d.TypedValueForCode(middle).bytes) {
        first, count := middle + 1, count - step - 1;
      } else {
        count := step;
      }
    }
    code := first;
  }

  /** The first code whose value is not less than the probe. Past the last value
      it is the number of codes, which counts NULL unless NULL is to be ignored. */
  method GetLowerBoundCode(d: Dictionary, p: Probe, ignoreNullCode: bool, ghost sorted: seq<Bytes>, ghost hasNull: bool)
    returns (code: nat)
    requires IsDictionary(d, sorted, hasNull) && p.Probe? && Comparable(d.ty, p)
    ensures forall i | 0 <= i < |sorted| :: p.below(sorted[i]) <==> i < code
    ensures code < |sorted| || code == if ignoreNullCode then |sorted| else d.numberOfCodesIncludingNull
  {
    code := LowerBound(d, p, sorted, hasNull);
    if !ignoreNullCode && code == d.NonNullCodes() {
      code := d.numberOfCodesIncludingNull;
    }
  }

  // ---------- Value to code ----------

  /** The first code whose value equals the probe, or the number of codes if
      there is none. NULL finds the code of NULL. */
  ghost predicate IsCodeFor(d: Dictionary, p: Probe, sorted: seq<Bytes>, hasNull: bool, code: nat) {
    match p
    case NullProbe => code == |sorted|
    case Probe(_, _, equal) =>
      if code < |sorted| then equal(sorted[code]) && forall i | 0 <= i < code :: !equal(sorted[i])
      else code == d.numberOfCodesIncludingNull && forall i | 0 <= i < |sorted| :: !equal(sorted[i])
  }

  method GetCodeForUntypedValue(d: Dictionary, p: Probe, ghost sorted: seq<Bytes>, ghost hasNull: bool) returns (code: nat)
    requires IsDictionary(d, sorted, hasNull) && Comparable(d.ty, p)
    ensures IsCodeFor(d, p, sorted, hasNull, code)
  {
    if p.NullProbe? {
      return if d.NullCode() == UINT32_MAX then d.numberOfCodesIncludingNull else d.NullCode();
    }
    var candidate := GetLowerBoundCode(d, p, false, sorted, hasNull);
    if candidate >= d.NonNullCodes() {
      return d.numberOfCodesIncludingNull;
    }
    NotBelowNotEqual(d, p, sorted, candidate);
    assert d.InBounds(candidate) && d.TypedValueForCode(candidate) == Data(sorted[candidate]);
    return if p.equal(d.TypedValueForCode(candidate).bytes) then candidate else d.numberOfCodesIncludingNull;
  }

  method GetCodeForDifferentTypedValue(d: Dictionary, p: Probe, ghost sorted: seq<Bytes>, ghost hasNull: bool)
    returns (code: nat)
    requires IsDictionary(d, sorted, hasNull) && Comparable(d.ty, p)
    ensures IsCodeFor(d, p, sorted, hasNull, code)
  {
    if p.NullProbe? {
      return if d.NullCode() == UINT32_MAX then d.numberOfCodesIncludingNull else d.NullCode();
    }
    var candidate := GetLowerBoundCode(d, p, false, sorted, hasNull);
    if candidate >= d.NonNullCodes() {
      return candidate;
    }
    NotBelowNotEqual(d, p, sorted, candidate);
    assert d.InBounds(candidate) && d.TypedValueForCode(candidate) == Data(sorted[candidate]);
    return if p.equal(d.TypedValueForCode(candidate).bytes) then candidate else d.numberOfCodesIncludingNull;
  }

  /** If the lower bound is not equal to the probe, nothing in the dictionary is. */
  lemma NotBelowNotEqual(d: Dictionary, p: Probe, sorted: seq<Bytes>, bound: nat)
    requires AllInstances(d.ty, sorted) && Ascending(d.ty, sorted)
    requires p.Probe? && Comparable(d.ty, p)
    requires bound < |sorted| && forall i | 0 <= i < |sorted| :: p.below(sorted[i]) <==> i < bound
    ensures forall i | 0 <= i < bound :: !p.equal(sorted[i])
    ensures !p.equal(sorted[bound]) ==> forall i | 0 <= i < |sorted| :: !p.equal(sorted[i])
  {
    if !p.equal(sorted[bound]) {
      assert p.above(sorted[bound]);
      forall i | bound < i < |sorted| ensures !p.equal(sorted[i]) {
        assert d.ty.less(sorted[bound], sorted[i]);
      }
    }
  }

  /** A lookup of a value of the dictionary's own type finds its rank, which is
      the code the builder's hash table gives. */
  lemma OwnTypeCodeIsRank(d: Dictionary, v: Value, sorted: seq<Bytes>, values: set<Bytes>, hasNull: bool, code: nat)
    requires IsDictionary(d, sorted, hasNull) && Lists(d.ty, sorted, values)
    requires IsCodeFor(d, SameTypeProbe(d.ty, v), sorted, hasNull, code)
    ensures v.Null? ==> code == |values|
    ensures v.Data? && v.bytes in values ==> code == Rank(d.ty, values, v.bytes)
    ensures v.Data? && v.bytes !in values ==> code == d.numberOfCodesIncludingNull
  {
    AscendingIsDistinct(d.ty, sorted);
    if v.Data? {
      if v.bytes in values {
        var i :| 0 <= i < |sorted| && sorted[i] == v.bytes;
        RankOfListed(d.ty, sorted, values, i);
        assert code <= i;
        assert sorted[code] == sorted[i];
      }
    }
  }

  // ---------- Comparison to code range ----------

  datatype LimitCodes = Range(first: nat, second: nat) | FatalNotEqual

  /** A code is in the range exactly if its value satisfies the comparison. */
  ghost predicate RangeIsExact(d: Dictionary, comp: Comparison, p: Probe, first: nat, second: nat) {
    forall code: nat | code < d.numberOfCodesIncludingNull ::
      d.InBounds(code) && (first <= code < second <==> Satisfies(d.TypedValueForCode(code), comp, p))
  }

  /** No two stored values compare equal to the probe. */
  ghost predicate AtMostOneEqual(p: Probe, sorted: seq<Bytes>) {
    p.Probe? ==> forall i, j | 0 <= i < j < |sorted| :: !(p.equal(sorted[i]) && p.equal(sorted[j]))
  }

  /** Ranges can be judged on the listing: NULL is in none of them. */
  lemma RangeOnListing(d: Dictionary, comp: Comparison, p: Probe, first: nat, second: nat, sorted: seq<Bytes>, hasNull: bool)
    requires Represents(d, sorted, hasNull)
    requires second <= |sorted| || first >= second
    ensures RangeIsExact(d, comp, p, first, second)
            <==> forall i | 0 <= i < |sorted| :: first <= i < second <==> Satisfies(Data(sorted[i]), comp, p)
  {
    if RangeIsExact(d, comp, p, first, second) {
      forall i | 0 <= i < |sorted| ensures first <= i < second <==> Satisfies(Data(sorted[i]), comp, p) {
        assert d.TypedValueForCode(i) == Data(sorted[i]);
      }
    }
  }

  /** Every comparison but "not equal" becomes one half-open range of codes. The
      range is exact, except that an equality range holds a single code and so
      misses the others when several stored values equal a probe of another type. */
  method GetLimitCodesForComparison(d: Dictionary, comp: Comparison, p: Probe, sameType: bool,
                                    ghost sorted: seq<Bytes>, ghost hasNull: bool)
    returns (limits: LimitCodes)
    requires IsDictionary(d, sorted, hasNull) && Comparable(d.ty, p)
    ensures limits.FatalNotEqual? <==> p.Probe? && comp == NotEqual
    ensures limits.Range? && comp != Equal ==> RangeIsExact(d, comp, p, limits.first, limits.second)
    ensures limits.Range? && comp == Equal ==>
              (RangeIsExact(d, comp, p, limits.first, limits.second) <==> AtMostOneEqual(p, sorted))
    ensures limits.Range? && comp == Equal && p.Probe? ==>
              && IsCodeFor(d, p, sorted, hasNull, limits.first)
              && limits.second == limits.first + if limits.first == d.numberOfCodesIncludingNull then 0 else 1
  {
    var all := d.numberOfCodesIncludingNull;
    if p.NullProbe? {
      RangeOnListing(d, comp, p, all, all, sorted, hasNull);
      return Range(all, all);
    }
    var first, second := 0, 0;
    match comp {
      case Equal =>
        if sameType {
          first := GetCodeForUntypedValue(d, p, sorted, hasNull);
        } else {
          first := GetCodeForDifferentTypedValue(d, p, sorted, hasNull);
        }
        second := if first == all then first else first + 1;
      case NotEqual =>
        return FatalNotEqual;
      case Less =>
        second := GetLowerBoundCode(d, p, true, sorted, hasNull);
      case LessOrEqual =>
        second := UpperBound(d, p, sorted, hasNull);
      case Greater =>
        first := UpperBound(d, p, sorted, hasNull);
        second := d.NonNullCodes();
      case GreaterOrEqual =>
        first := GetLowerBoundCode(d, p, false, sorted, hasNull);
        second := d.NonNullCodes();
    }
    RangeOnListing(d, comp, p, first, second, sorted, hasNull);
    if comp == Equal {
      EqualRange(d, p, first, second, sorted, hasNull);
    }
    return Range(first, second);
  }

  lemma EqualRange(d: Dictionary, p: Probe, first: nat, second: nat, sorted: seq<Bytes>, hasNull: bool)
    requires IsDictionary(d, sorted, hasNull) && p.Probe?
    requires IsCodeFor(d, p, sorted, hasNull, first)
    requires second == if first == d.numberOfCodesIncludingNull then first else first + 1
    ensures (forall i | 0 <= i < |sorted| :: first <= i < second <==> Satisfies(Data(sorted[i]), Equal, p))
            <==> AtMostOneEqual(p, sorted)
  {
    if first < |sorted| && !AtMostOneEqual(p, sorted) {
      var i, j :| 0 <= i < j < |sorted| && p.equal(sorted[i]) && p.equal(sorted[j]);
      assert j != first;
    }
  }

  lemma OwnTypeAtMostOneEqual(ty: Type, v: Value, sorted: seq<Bytes>)
    requires ty.IsOrdered() && AllInstances(ty, sorted) && Ascending(ty, sorted)
    ensures AtMostOneEqual(SameTypeProbe(ty, v), sorted)
  {
    var p := SameTypeProbe(ty, v);
    if p.Probe? {
      forall i, j | 0 <= i < j < |sorted| ensures !(p.equal(sorted[i]) && p.equal(sorted[j])) {
        assert ty.less(sorted[i], sorted[j]) && !ty.less(sorted[i], sorted[i]);
      }
    }
  }

  // ---------- Filtering a compressed column ----------

  function SelectByCode(column: seq<nat>, first: nat, second: nat): seq<nat> {
    if column == [] then []
    else (if first <= column[0] < second then [column[0]] else []) + SelectByCode(column[1..], first, second)
  }

  function SelectByValue(values: seq<Value>, comp: Comparison, p: Probe): seq<Value> {
    if values == [] then []
    else (if Satisfies(values[0], comp, p) then [values[0]] else []) + SelectByValue(values[1..], comp, p)
  }

  ghost predicate ValidColumn(d: Dictionary, column: seq<nat>) {
    forall i | 0 <= i < |column| :: column[i] < d.numberOfCodesIncludingNull && d.InBounds(column[i])
  }

  function Decompressed(d: Dictionary, column: seq<nat>): (values: seq<Value>)
    requires ValidColumn(d, column)
    ensures |values| == |column|
  {
    if column == [] then [] else [d.TypedValueForCode(column[0])] + Decompressed(d, column[1..])
  }

  /** The range holds no code whose value fails the comparison. */
  ghost predicate RangeIsSound(d: Dictionary, comp: Comparison, p: Probe, first: nat, second: nat) {
    forall code: nat | code < d.numberOfCodesIncludingNull && first <= code < second ::
      d.InBounds(code) && Satisfies(d.TypedValueForCode(code), comp, p)
  }

  /** The range holds every code in the column whose value satisfies the comparison. */
  ghost predicate CoversColumn(d: Dictionary, column: seq<nat>, comp: Comparison, p: Probe, first: nat, second: nat)
    requires ValidColumn(d, column)
  {
    forall i | 0 <= i < |column| :: Satisfies(d.TypedValueForCode(column[i]), comp, p) ==> first <= column[i] < second
  }

  /** Selecting codes by a range and then decompressing is the same as
      decompressing and then comparing every value, exactly if the range misses
      no code of the column. */
  lemma {:induction false} FilterCommutes(d: Dictionary, column: seq<nat>, comp: Comparison, p: Probe, first: nat, second: nat)
    requires ValidColumn(d, column) && RangeIsSound(d, comp, p, first, second)
    ensures ValidColumn(d, SelectByCode(column, first, second))
    ensures |SelectByCode(column, first, second)| <= |SelectByValue(Decompressed(d, column), comp, p)|
    ensures Decompressed(d, SelectByCode(column, first, second)) == SelectByValue(Decompressed(d, column), comp, p)
            <==> CoversColumn(d, column, comp, p, first, second)
  {
    if column != [] {
      var code, rest := column[0], column[1..];
      FilterCommutes(d, rest, comp, p, first, second);
      var kept := SelectByCode(rest, first, second);
      assert Decompressed(d, column)[1..] == Decompressed(d, rest);
      CoversOneMore(d, column, comp, p, first, second);
      if first <= code < second {
        SelectedOneMore(d, code, kept, SelectByValue(Decompressed(d, rest), comp, p));
      } else {
        assert [] + kept == kept;
      }
    }
  }

  lemma SelectedOneMore(d: Dictionary, code: nat, kept: seq<nat>, values: seq<Value>)
    requires code < d.numberOfCodesIncludingNull && d.InBounds(code) && ValidColumn(d, kept)
    ensures ValidColumn(d, [code] + kept)
    ensures Decompressed(d, [code] + kept) == [d.TypedValueForCode(code)] + values <==> Decompressed(d, kept) == values
  {
    assert ([code] + kept)[1..] == kept;
    var value := d.TypedValueForCode(code);
    assert ([value] + values)[1..] == values && ([value] + Decompressed(d, kept))[1..] == Decompressed(d, kept);
  }

  lemma CoversOneMore(d: Dictionary, column: seq<nat>, comp: Comparison, p: Probe, first: nat, second: nat)
    requires column != [] && ValidColumn(d, column)
    ensures CoversColumn(d, column, comp, p, first, second)
            <==> && (Satisfies(d.TypedValueForCode(column[0]), comp, p) ==> first <= column[0] < second)
                 && CoversColumn(d, column[1..], comp, p, first, second)
  {
    var rest := column[1..];
    assert forall i | 0 <= i < |rest| :: rest[i] == column[i + 1];
    assert forall i | 0 < i < |column| :: column[i] == rest[i - 1];
  }

  /** No row of the column has a value equal to the probe but a later code than
      another such value of the dictionary. */
  ghost predicate EqualRowsComeFirst(p: Probe, sorted: seq<Bytes>, column: seq<nat>) {
    p.Probe? ==>
      forall i, j | 0 <= i < |column| && 0 <= j < column[i] < |sorted| :: !(p.equal(sorted[column[i]]) && p.equal(sorted[j]))
  }

  /** Filtering a column by the range of codes for a comparison keeps exactly the
      rows whose values satisfy it. For an equality that is so exactly if the rows
      equal to the probe all have the first code that is. */
  method FilterColumn(d: Dictionary, column: seq<nat>, comp: Comparison, p: Probe, sameType: bool,
                      ghost sorted: seq<Bytes>, ghost hasNull: bool)
    returns (kept: Option<seq<nat>>)
    requires IsDictionary(d, sorted, hasNull) && Comparable(d.ty, p) && ValidColumn(d, column)
    ensures kept.None? <==> p.Probe? && comp == NotEqual
    ensures kept.Some? ==>
              && ValidColumn(d, kept.value)
              && (Decompressed(d, kept.value) == SelectByValue(Decompressed(d, column), comp, p)
                  <==> comp != Equal || EqualRowsComeFirst(p, sorted, column))
  {
    var limits := GetLimitCodesForComparison(d, comp, p, sameType, sorted, hasNull);
    if limits.FatalNotEqual? {
      return None;
    }
    if comp == Equal && p.Probe? {
      EqualRangeCovers(d, column, p, limits.first, limits.second, sorted, hasNull);
    } else {
      ExactRangeCovers(d, column, comp, p, limits.first, limits.second);
    }
    FilterCommutes(d, column, comp, p, limits.first, limits.second);
    return Some(SelectByCode(column, limits.first, limits.second));
  }

  lemma ExactRangeCovers(d: Dictionary, column: seq<nat>, comp: Comparison, p: Probe, first: nat, second: nat)
    requires ValidColumn(d, column) && RangeIsExact(d, comp, p, first, second)
    ensures RangeIsSound(d, comp, p, first, second) && CoversColumn(d, column, comp, p, first, second)
  {
  }

  lemma EqualOnListing(d: Dictionary, code: nat, p: Probe, sorted: seq<Bytes>, hasNull: bool)
    requires Represents(d, sorted, hasNull) && p.Probe? && code < d.numberOfCodesIncludingNull
    ensures d.InBounds(code)
    ensures Satisfies(d.TypedValueForCode(code), Equal, p) <==> code < |sorted| && p.equal(sorted[code])
  {
  }

  lemma EqualRangeCovers(d: Dictionary, column: seq<nat>, p: Probe, first: nat, second: nat,
                         sorted: seq<Bytes>, hasNull: bool)
    requires IsDictionary(d, sorted, hasNull) && p.Probe? && ValidColumn(d, column)
    requires IsCodeFor(d, p, sorted, hasNull, first)
    requires second == first + if first == d.numberOfCodesIncludingNull then 0 else 1
    ensures RangeIsSound(d, Equal, p, first, second)
    ensures CoversColumn(d, column, Equal, p, first, second) <==> EqualRowsComeFirst(p, sorted, column)
  {
    forall code: nat | code < d.numberOfCodesIncludingNull
      ensures d.InBounds(code)
      ensures Satisfies(d.TypedValueForCode(code), Equal, p) <==> code < |sorted| && p.equal(sorted[code])
    {
      EqualOnListing(d, code, p, sorted, hasNull);
    }
    RowsEqualFirst(column, p, first, sorted);
  }

  /** Whether all equal rows have the first equal code, seen on the listing. */
  lemma RowsEqualFirst(column: seq<nat>, p: Probe, first: nat, sorted: seq<Bytes>)
    requires p.Probe?
    requires first < |sorted| ==> p.equal(sorted[first])
    requires forall i | 0 <= i < first && i < |sorted| :: !p.equal(sorted[i])
    ensures (forall i | 0 <= i < |column| :: column[i] < |sorted| && p.equal(sorted[column[i]]) ==> column[i] == first)
            <==> EqualRowsComeFirst(p, sorted, column)
  {
    if EqualRowsComeFirst(p, sorted, column) {
      forall i | 0 <= i < |column| && column[i] < |sorted| && p.equal(sorted[column[i]])
        ensures column[i] == first
      {
        assert first <= column[i] && p.equal(sorted[first]);
      }
    }
  }

  // ---------- From builder to reader ----------

  /** Opening what was written for `sorted` succeeds and gives `sorted` back. */
  method OpenBuilt(ty: Type, memory: seq<byte>, ghost sorted: seq<Bytes>, ghost hasNull: bool) returns (d: Dictionary)
    requires AllInstances(ty, sorted) && TotalSize(sorted) <= UINT32_MAX && |sorted| < 0x8000_0000
    requires memory == Layout(ty, sorted, hasNull)
    ensures d.ty == ty && d.memory == memory && Represents(d, sorted, hasNull)
    ensures d.numberOfCodesIncludingNull >= 2 ==> IsCodeWidth(d.numberOfCodesIncludingNull, d.codeLengthBits)
    ensures ty.isVariableLength ==> OffsetsAscend(d)
  {
    LayoutHolds(memory, ty, sorted, hasNull);
    LayoutPassesSizeCheck(ty, sorted, hasNull);
    var outcome := Open(ty, memory);
    d := outcome.dictionary;
    LayoutIsReadable(d, sorted, hasNull);
    if ty.isVariableLength {
      LayoutPassesOffsetCheck(d, sorted, hasNull);
    }
  }

  /** Building into memory of exactly the reported size and opening that memory:
      the checks pass, every inserted value decodes from its code, and the two
      sides agree on the number of codes and, from two codes on, on their width. */
  method BuildAndOpen(b: CompressionDictionaryBuilder) returns (d: Dictionary, ghost sorted: seq<Bytes>)
    requires b.Valid()
    modifies b`valueSet, b`built
    ensures b.Valid() && b.built && b.contents == old(b.contents)
    ensures d.ty == b.ty && |d.memory| == b.DictionarySizeBytes()
    ensures Lists(b.ty, sorted, b.valueSet.Keys) && IsDictionary(d, sorted, b.nullValuePresent)
    ensures d.numberOfCodesIncludingNull == b.numValues
    ensures b.numValues >= 2 ==> d.codeLengthBits == b.codeLengthBits
    ensures d.ty.isVariableLength ==> OffsetsAscend(d)
    ensures forall v | b.ContainsValue(v) ::
              var code := b.GetCodeForValue(v);
              code < b.numValues && d.InBounds(code) && d.TypedValueForCode(code) == v
  {
    var location := new byte[b.DictionarySizeBytes()];
    sorted := b.BuildDictionary(location);
    b.SizeIsLayoutSize(sorted);
    d := OpenBuilt(b.ty, location[..], sorted, b.nullValuePresent);
    SameWidth(b, d);
    CodesDecode(b, d, sorted);
  }

  lemma SameWidth(b: CompressionDictionaryBuilder, d: Dictionary)
    requires b.Valid() && b.numValues >= 2 ==> IsCodeWidth(b.numValues, d.codeLengthBits)
    ensures b.Valid() && b.numValues >= 2 ==> d.codeLengthBits == b.codeLengthBits
  {
    if b.Valid() && b.numValues >= 2 {
      CodeBitsIsWidth(b.numValues);
      CodeWidthUnique(b.numValues, d.codeLengthBits, b.codeLengthBits);
    }
  }

  lemma CodesDecode(b: CompressionDictionaryBuilder, d: Dictionary, sorted: seq<Bytes>)
    requires b.Valid() && b.built && d.ty == b.ty
    requires Lists(b.ty, sorted, b.valueSet.Keys) && Represents(d, sorted, b.nullValuePresent)
    ensures forall v | b.ContainsValue(v) ::
              var code := b.GetCodeForValue(v);
              code < b.numValues && d.InBounds(code) && d.TypedValueForCode(code) == v
  {
    b.SizeIsLayoutSize(sorted);
    AscendingIsDistinct(b.ty, sorted);
    forall v | b.ContainsValue(v)
      ensures var code := b.GetCodeForValue(v);
              code < b.numValues && d.InBounds(code) && d.TypedValueForCode(code) == v
    {
      if v.Data? {
        assert v.bytes in Elements(sorted);
        var i :| 0 <= i < |sorted| && sorted[i] == v.bytes;
        RankOfListed(b.ty, sorted, b.valueSet.Keys, i);
        assert b.GetCodeForValue(v) == i;
      }
    }
  }
}
