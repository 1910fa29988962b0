/** The schema of a relation. Adding an attribute updates about a dozen cached totals
    and index arrays instead of recomputing them from all the attributes. */
module CatalogRelationSchema {

  const CATALOG_MAX_ID: nat := 0x7FFF_FFFF
  const INVALID_CATALOG_ID: int := -1

  datatype Type = Type(
    isVariableLength: bool,
    isNullable: bool,
    minimumByteLength: nat,
    maximumByteLength: nat,
    averageByteLength: nat)

  datatype Attribute = Attribute(name: string, id: int, ty: Type)

  // ---------- What an attribute contributes to each total ----------

  function MaxBytes(t: Type): nat { t.maximumByteLength }
  function MinBytes(t: Type): nat { t.minimumByteLength }
  function AverageBytes(t: Type): nat { t.averageByteLength }
  function FixedBytes(t: Type): nat { if t.isVariableLength then 0 else t.maximumByteLength }
  function VariableMaxBytes(t: Type): nat { if t.isVariableLength then t.maximumByteLength else 0 }
  function VariableMinBytes(t: Type): nat { if t.isVariableLength then t.minimumByteLength else 0 }
  function VariableMinBytesNotNull(t: Type): nat { if t.isVariableLength && !t.isNullable then t.minimumByteLength else 0 }
  function VariableAverageBytes(t: Type): nat { if t.isVariableLength then t.averageByteLength else 0 }
  function OneIfNullable(t: Type): nat { if t.isNullable then 1 else 0 }
  function OneIfVariable(t: Type): nat { if t.isVariableLength then 1 else 0 }

  /** The sum of a measure over the first `n` attributes. */
  function SumTo(attributes: seq<Attribute>, n: nat, measure: Type -> nat): nat
    requires n <= |attributes|
  {
    if n == 0 then 0 else SumTo(attributes, n - 1, measure) + measure(attributes[n - 1].ty)
  }

  function Sum(attributes: seq<Attribute>, measure: Type -> nat): nat {
    SumTo(attributes, |attributes|, measure)
  }

  lemma {:induction false} SumToKept(attributes: seq<Attribute>, a: Attribute, n: nat, measure: Type -> nat)
    requires n <= |attributes|
    ensures SumTo(attributes + [a], n, measure) == SumTo(attributes, n, measure)
  {
    if n > 0 {
      SumToKept(attributes, a, n - 1, measure);
    }
  }

  lemma SumOneMore(attributes: seq<Attribute>, a: Attribute, measure: Type -> nat)
    ensures Sum(attributes + [a], measure) == Sum(attributes, measure) + measure(a.ty)
  {
    SumToKept(attributes, a, |attributes|, measure);
  }

  /** The attributes whose type has a property, in order. */
  function Where(attributes: seq<Attribute>, n: nat, property: Type -> bool): seq<Attribute>
    requires n <= |attributes|
  {
    if n == 0 then []
    else Where(attributes, n - 1, property) + if property(attributes[n - 1].ty) then [attributes[n - 1]] else []
  }

  /** A measure that counts only types with a property is the sum over just the
      attributes that have it. */
  lemma {:induction false} SumWhere(attributes: seq<Attribute>, n: nat, property: Type -> bool, measure: Type -> nat,
                                    restricted: Type -> nat)
    requires n <= |attributes|
    requires forall t: Type :: restricted(t) == if property(t) then measure(t) else 0
    ensures SumTo(attributes, n, restricted) == Sum(Where(attributes, n, property), measure)
  {
    if n > 0 {
      SumWhere(attributes, n - 1, property, measure, restricted);
      if property(attributes[n - 1].ty) {
        SumOneMore(Where(attributes, n - 1, property), attributes[n - 1], measure);
      } else {
        assert Where(attributes, n, property) == Where(attributes, n - 1, property);
      }
    }
  }

  function One(t: Type): nat { 1 }
  predicate IsVariable(t: Type) { t.isVariableLength }
  predicate IsFixed(t: Type) { !t.isVariableLength }
  predicate IsNullable(t: Type) { t.isNullable }
  predicate IsVariableNotNull(t: Type) { t.isVariableLength && !t.isNullable }

  lemma {:induction false} SumOfOnes(attributes: seq<Attribute>, n: nat)
    requires n <= |attributes|
    ensures SumTo(attributes, n, One) == n
  {
    if n > 0 {
      SumOfOnes(attributes, n - 1);
    }
  }

  /** What the restricted totals are totals of. */
  lemma TotalsMean(attributes: seq<Attribute>)
    ensures var variable := Where(attributes, |attributes|, IsVariable);
            && Sum(attributes, OneIfVariable) == |variable|
            && Sum(attributes, VariableMaxBytes) == Sum(variable, MaxBytes)
            && Sum(attributes, VariableMinBytes) == Sum(variable, MinBytes)
            && Sum(attributes, VariableAverageBytes) == Sum(variable, AverageBytes)
    ensures Sum(attributes, OneIfNullable) == |Where(attributes, |attributes|, IsNullable)|
    ensures Sum(attributes, FixedBytes) == Sum(Where(attributes, |attributes|, IsFixed), MaxBytes)
    ensures Sum(attributes, VariableMinBytesNotNull) == Sum(Where(attributes, |attributes|, IsVariableNotNull), MinBytes)
  {
    var n := |attributes|;
    SumWhere(attributes, n, IsVariable, One, OneIfVariable);
    SumOfOnes(Where(attributes, n, IsVariable), |Where(attributes, n, IsVariable)|);
    SumWhere(attributes, n, IsVariable, MaxBytes, VariableMaxBytes);
    SumWhere(attributes, n, IsVariable, MinBytes, VariableMinBytes);
    SumWhere(attributes, n, IsVariable, AverageBytes, VariableAverageBytes);
    SumWhere(attributes, n, IsNullable, One, OneIfNullable);
    SumOfOnes(Where(attributes, n, IsNullable), |Where(attributes, n, IsNullable)|);
    SumWhere(attributes, n, IsFixed, MaxBytes, FixedBytes);
    SumWhere(attributes, n, IsVariableNotNull, MinBytes, VariableMinBytesNotNull);
  }

  /** The sizes of a type as the type system gives them. */
  predicate IsSized(t: Type) {
    && t.minimumByteLength <= t.averageByteLength <= t.maximumByteLength
    && (!t.isVariableLength ==> t.minimumByteLength == t.maximumByteLength)
  }

  /** Each total splits into its fixed and its variable part, and the estimate lies
      between the extremes. */
  lemma {:induction false} TotalsSplit(attributes: seq<Attribute>, n: nat)
    requires n <= |attributes| && forall i | 0 <= i < |attributes| :: IsSized(attributes[i].ty)
    ensures SumTo(attributes, n, MaxBytes) == SumTo(attributes, n, FixedBytes) + SumTo(attributes, n, VariableMaxBytes)
    ensures SumTo(attributes, n, MinBytes) == SumTo(attributes, n, FixedBytes) + SumTo(attributes, n, VariableMinBytes)
    ensures SumTo(attributes, n, AverageBytes)
         == SumTo(attributes, n, FixedBytes) + SumTo(attributes, n, VariableAverageBytes)
    ensures SumTo(attributes, n, VariableMinBytesNotNull) <= SumTo(attributes, n, VariableMinBytes)
    ensures SumTo(attributes, n, MinBytes) <= SumTo(attributes, n, AverageBytes) <= SumTo(attributes, n, MaxBytes)
  {
    if n > 0 {
      TotalsSplit(attributes, n - 1);
      assert IsSized(attributes[n - 1].ty);
    }
  }

  // ---------- Prefix sums as layout ----------

  /** Attribute `i` covers `x` when the attributes are laid out one after another. */
  ghost predicate Covers(attributes: seq<Attribute>, measure: Type -> nat, i: nat, x: int)
    requires i < |attributes|
  {
    SumTo(attributes, i, measure) <= x < SumTo(attributes, i, measure) + measure(attributes[i].ty)
  }

  lemma {:induction false} SomeAttributeCovers(attributes: seq<Attribute>, n: nat, measure: Type -> nat, x: int) returns (i: nat)
    requires n <= |attributes| && 0 <= x < SumTo(attributes, n, measure)
    ensures i < n && Covers(attributes, measure, i, x)
  {
    if x < SumTo(attributes, n - 1, measure) {
      i := SomeAttributeCovers(attributes, n - 1, measure, x);
    } else {
      i := n - 1;
    }
  }

  lemma {:induction false} PrefixSumsAscend(attributes: seq<Attribute>, measure: Type -> nat, i: nat, j: nat)
    requires i < j <= |attributes|
    ensures SumTo(attributes, i, measure) + measure(attributes[i].ty) <= SumTo(attributes, j, measure)
    decreases j
  {
    if i < j - 1 {
      PrefixSumsAscend(attributes, measure, i, j - 1);
    }
  }

  /** The layout tiles: every position below the total is covered by exactly one
      attribute, and no attribute reaches beyond the total. With the fixed-length
      bytes this is the placement of the fixed-length attributes; with a count of
      one per nullable or variable-length attribute it says that those are
      numbered 0, 1, 2, ... in id order without gaps. */
  lemma LayoutTiles(attributes: seq<Attribute>, measure: Type -> nat, x: int)
    ensures 0 <= x < Sum(attributes, measure) <==> exists i: nat | i < |attributes| :: Covers(attributes, measure, i, x)
    ensures forall i: nat, j: nat | i < |attributes| && j < |attributes| &&
              Covers(attributes, measure, i, x) && Covers(attributes, measure, j, x) :: i == j
  {
    if 0 <= x < Sum(attributes, measure) {
      var i := SomeAttributeCovers(attributes, |attributes|, measure, x);
    }
    forall i: nat | i < |attributes| && Covers(attributes, measure, i, x) ensures x < Sum(attributes, measure) {
      PrefixSumsAscend(attributes, measure, i, |attributes|);
    }
    forall i: nat, j: nat | i < |attributes| && j < |attributes|
        && Covers(attributes, measure, i, x) && Covers(attributes, measure, j, x)
      ensures i == j
    {
      if i < j {
        PrefixSumsAscend(attributes, measure, i, j);
      } else if j < i {
        PrefixSumsAscend(attributes, measure, j, i);
      }
    }
  }

  // ---------- The index arrays ----------

  ghost predicate IsNumbering(indices: seq<int>, attributes: seq<Attribute>, count: Type -> nat) {
    && |indices| == |attributes|
    && forall i | 0 <= i < |indices| ::
         indices[i] == if count(attributes[i].ty) == 1 then SumTo(attributes, i, count) else INVALID_CATALOG_ID
  }

  /** Offsets are recorded up to the last fixed-length attribute. */
  ghost predicate AreOffsets(offsets: seq<nat>, attributes: seq<Attribute>) {
    && |offsets| <= |attributes|
    && (forall i | 0 <= i < |offsets| :: offsets[i] == SumTo(attributes, i, FixedBytes))
    && (forall i | |offsets| <= i < |attributes| :: attributes[i].ty.isVariableLength)
  }

  ghost predicate AreMaxLengths(lengths: seq<nat>, attributes: seq<Attribute>) {
    |lengths| == |attributes| && forall i | 0 <= i < |lengths| :: lengths[i] == attributes[i].ty.maximumByteLength
  }

  /** std::vector::resize with a fill value. */
  function Resized(s: seq<nat>, size: nat, fill: nat): (r: seq<nat>)
    ensures |r| == size
    ensures forall i | 0 <= i < size :: r[i] == if i < |s| then s[i] else fill
  {
    seq(size, i requires 0 <= i => if i < |s| then s[i] else fill)
  }

  lemma {:induction false} NoFixedBytesAdded(attributes: seq<Attribute>, i: nat, n: nat)
    requires i <= n <= |attributes| && forall j | i <= j < n :: attributes[j].ty.isVariableLength
    ensures SumTo(attributes, n, FixedBytes) == SumTo(attributes, i, FixedBytes)
  {
    if i < n {
      NoFixedBytesAdded(attributes, i, n - 1);
    }
  }

  lemma OffsetsOneMore(offsets: seq<nat>, attributes: seq<Attribute>, a: Attribute)
    requires AreOffsets(offsets, attributes) && !a.ty.isVariableLength
    ensures AreOffsets(Resized(offsets, |attributes| + 1, Sum(attributes, FixedBytes)), attributes + [a])
  {
    forall i | 0 <= i <= |attributes|
      ensures SumTo(attributes + [a], i, FixedBytes) == SumTo(attributes, i, FixedBytes)
      ensures |offsets| <= i ==> SumTo(attributes, i, FixedBytes) == Sum(attributes, FixedBytes)
    {
      SumToKept(attributes, a, i, FixedBytes);
      if |offsets| <= i {
        NoFixedBytesAdded(attributes, i, |attributes|);
      }
    }
  }

  lemma VariableKeepsOffsets(offsets: seq<nat>, attributes: seq<Attribute>, a: Attribute)
    requires AreOffsets(offsets, attributes) && a.ty.isVariableLength
    ensures AreOffsets(offsets, attributes + [a])
  {
    forall i | 0 <= i < |offsets| ensures SumTo(attributes + [a], i, FixedBytes) == SumTo(attributes, i, FixedBytes) {
      SumToKept(attributes, a, i, FixedBytes);
    }
  }

  lemma NumberingOneMore(indices: seq<int>, attributes: seq<Attribute>, a: Attribute, count: Type -> nat, index: int)
    requires IsNumbering(indices, attributes, count)
    requires index == if count(a.ty) == 1 then Sum(attributes, count) else INVALID_CATALOG_ID
    ensures IsNumbering(indices + [index], attributes + [a], count)
  {
    forall i | 0 <= i <= |attributes| ensures SumTo(attributes + [a], i, count) == SumTo(attributes, i, count) {
      SumToKept(attributes, a, i, count);
    }
  }

  // ---------- What the arrays mean ----------

  /** The fixed-length attributes lie side by side: every byte below the fixed
      length belongs to exactly one of them, and no other byte to any. */
  lemma FixedSlotsTile(offsets: seq<nat>, attributes: seq<Attribute>, x: int)
    requires AreOffsets(offsets, attributes)
    ensures 0 <= x < Sum(attributes, FixedBytes) <==> exists i: nat | i < |offsets| :: InFixedSlot(offsets, attributes, i, x)
    ensures forall i: nat, j: nat | i < |offsets| && j < |offsets|
              && InFixedSlot(offsets, attributes, i, x) && InFixedSlot(offsets, attributes, j, x) :: i == j
  {
    LayoutTiles(attributes, FixedBytes, x);
    forall i: nat | i < |attributes|
      ensures Covers(attributes, FixedBytes, i, x) <==> i < |offsets| && InFixedSlot(offsets, attributes, i, x)
    {
    }
  }

  ghost predicate InFixedSlot(offsets: seq<nat>, attributes: seq<Attribute>, i: nat, x: int)
    requires i < |offsets| <= |attributes|
  {
    !attributes[i].ty.isVariableLength && offsets[i] <= x < offsets[i] + attributes[i].ty.maximumByteLength
  }

  /** An index array gives each number below the count to exactly one attribute,
      in the order of the ids. */
  lemma NumbersAreUsedOnce(indices: seq<int>, attributes: seq<Attribute>, count: Type -> nat, k: nat)
    requires IsNumbering(indices, attributes, count) && forall t: Type :: count(t) <= 1
    ensures k < Sum(attributes, count) <==> k in indices
    ensures forall i, j | 0 <= i < |indices| && 0 <= j < |indices| && indices[i] == indices[j] == k :: i == j
    ensures forall i, j | 0 <= i < j < |indices| && indices[i] >= 0 && indices[j] >= 0 :: indices[i] < indices[j]
  {
    LayoutTiles(attributes, count, k);
    forall i: nat | i < |attributes| ensures Covers(attributes, count, i, k) <==> indices[i] == k {
    }
    forall i: nat, j: nat | i < j < |indices| && indices[i] >= 0 && indices[j] >= 0 ensures indices[i] < indices[j] {
      PrefixSumsAscend(attributes, count, i, j);
    }
  }

  class CatalogRelationSchema {
    var attrVec: seq<Attribute>
    var numNullableAttributes: nat
    var numVariableLengthAttributes: nat
    var maxByteLength: nat
    var minByteLength: nat
    var estimatedByteLength: nat
    var fixedByteLength: nat
    var maxVariableByteLength: nat
    var minVariableByteLength: nat
    var minVariableByteLengthExcludingNullable: nat
    var estimatedVariableByteLength: nat
    var fixedLengthAttributeOffsets: seq<nat>
    var maxByteLengths: seq<nat>
    var nullableAttributeIndices: seq<int>
    var currentNullableAttributeIndex: int
    var variableLengthAttributeIndices: seq<int>
    var currentVariableLengthAttributeIndex: int

    /** Every cached total is what recomputing it would give. */
    ghost predicate TotalsMatch(attributes: seq<Attribute>)
      reads this`numNullableAttributes, this`numVariableLengthAttributes, this`maxByteLength, this`minByteLength,
            this`estimatedByteLength, this`fixedByteLength, this`maxVariableByteLength, this`minVariableByteLength,
            this`minVariableByteLengthExcludingNullable, this`estimatedVariableByteLength
    {
      && numNullableAttributes == Sum(attributes, OneIfNullable)
      && numVariableLengthAttributes == Sum(attributes, OneIfVariable)
      && maxByteLength == Sum(attributes, MaxBytes)
      && minByteLength == Sum(attributes, MinBytes)
      && estimatedByteLength == Sum(attributes, AverageBytes)
      && fixedByteLength == Sum(attributes, FixedBytes)
      && maxVariableByteLength == Sum(attributes, VariableMaxBytes)
      && minVariableByteLength == Sum(attributes, VariableMinBytes)
      && minVariableByteLengthExcludingNullable == Sum(attributes, VariableMinBytesNotNull)
      && estimatedVariableByteLength == Sum(attributes, VariableAverageBytes)
    }

    ghost predicate IndexesMatch(attributes: seq<Attribute>)
      reads this`fixedLengthAttributeOffsets, this`maxByteLengths, this`nullableAttributeIndices,
            this`variableLengthAttributeIndices, this`currentNullableAttributeIndex,
            this`currentVariableLengthAttributeIndex
    {
      && AreOffsets(fixedLengthAttributeOffsets, attributes)
      && (attributes != [] ==> AreMaxLengths(maxByteLengths, attributes))
      && IsNumbering(nullableAttributeIndices, attributes, OneIfNullable)
      && IsNumbering(variableLengthAttributeIndices, attributes, OneIfVariable)
      && currentNullableAttributeIndex == Sum(attributes, OneIfNullable) - 1
      && currentVariableLengthAttributeIndex == Sum(attributes, OneIfVariable) - 1
    }

    ghost predicate Valid()
      reads this
    {
      && TotalsMatch(attrVec) && IndexesMatch(attrVec)
      && (forall i | 0 <= i < |attrVec| :: attrVec[i].id == i)
      && |attrVec| <= CATALOG_MAX_ID + 1
    }

    /** A new relation without attributes. */
    constructor ()
      ensures Valid() && attrVec == []
    {
      attrVec := [];
      numNullableAttributes, numVariableLengthAttributes := 0, 0;
      maxByteLength, minByteLength, estimatedByteLength, fixedByteLength := 0, 0, 0, 0;
      maxVariableByteLength, minVariableByteLength := 0, 0;
      minVariableByteLengthExcludingNullable, estimatedVariableByteLength := 0, 0;
      fixedLengthAttributeOffsets, maxByteLengths := [], [];
      nullableAttributeIndices, variableLengthAttributeIndices := [], [];
      currentNullableAttributeIndex, currentVariableLengthAttributeIndex := -1, -1;
    }

    method AddAttribute(newAttr: Attribute) returns (id: int)
      requires Valid()
      modifies this
      ensures Valid()
      ensures id == INVALID_CATALOG_ID <==> |old(attrVec)| > CATALOG_MAX_ID  // throws CatalogIDOverflow
      ensures id == INVALID_CATALOG_ID ==> attrVec == old(attrVec)
      ensures id != INVALID_CATALOG_ID ==> id == |old(attrVec)| && attrVec == old(attrVec) + [newAttr.(id := id)]
    {
      if |attrVec| > CATALOG_MAX_ID {
        return INVALID_CATALOG_ID;
      }
      id := |attrVec|;
      Append(newAttr.(id := id));
    }

    method Append(placed: Attribute)
      requires Valid() && placed.id == |attrVec| <= CATALOG_MAX_ID
      modifies this
      ensures Valid() && attrVec == old(attrVec) + [placed]
    {
      ghost var longer := attrVec + [placed];
      UpdateIndexes(placed);
      UpdateTotals(placed);
      assert IndexesMatch(longer);
      attrVec := attrVec + [placed];
      assert TotalsMatch(longer) && IndexesMatch(longer);
    }

    method UpdateIndexes(placed: Attribute)
      requires IndexesMatch(attrVec) && fixedByteLength == Sum(attrVec, FixedBytes)
      modifies this`fixedLengthAttributeOffsets, this`maxByteLengths, this`nullableAttributeIndices,
               this`variableLengthAttributeIndices, this`currentNullableAttributeIndex,
               this`currentVariableLengthAttributeIndex
      ensures IndexesMatch(attrVec + [placed])
    {
      UpdateVariableLengthIndex(placed);
      UpdateNullableIndex(placed);
      UpdateMaxByteLengths(placed);
    }

    /** The vector is cut or extended to end at the new attribute. */
    method UpdateMaxByteLengths(placed: Attribute)
      requires attrVec != [] ==> AreMaxLengths(maxByteLengths, attrVec)
      modifies this`maxByteLengths
      ensures AreMaxLengths(maxByteLengths, attrVec + [placed])
    {
      maxByteLengths := Resized(maxByteLengths, |attrVec| + 1, 0);
      maxByteLengths := maxByteLengths[|attrVec| := placed.ty.maximumByteLength];
    }

    method UpdateVariableLengthIndex(placed: Attribute)
      requires AreOffsets(fixedLengthAttributeOffsets, attrVec) && fixedByteLength == Sum(attrVec, FixedBytes)
      requires IsNumbering(variableLengthAttributeIndices, attrVec, OneIfVariable)
      requires currentVariableLengthAttributeIndex == Sum(attrVec, OneIfVariable) - 1
      modifies this`fixedLengthAttributeOffsets, this`variableLengthAttributeIndices,
               this`currentVariableLengthAttributeIndex
      ensures AreOffsets(fixedLengthAttributeOffsets, attrVec + [placed])
      ensures IsNumbering(variableLengthAttributeIndices, attrVec + [placed], OneIfVariable)
      ensures currentVariableLengthAttributeIndex == Sum(attrVec + [placed], OneIfVariable) - 1
    {
      SumOneMore(attrVec, placed, OneIfVariable);
      if placed.ty.isVariableLength {
        currentVariableLengthAttributeIndex := currentVariableLengthAttributeIndex + 1;
        NumberingOneMore(variableLengthAttributeIndices, attrVec, placed, OneIfVariable, currentVariableLengthAttributeIndex);
        variableLengthAttributeIndices := variableLengthAttributeIndices + [currentVariableLengthAttributeIndex];
        VariableKeepsOffsets(fixedLengthAttributeOffsets, attrVec, placed);
      } else {
        NumberingOneMore(variableLengthAttributeIndices, attrVec, placed, OneIfVariable, INVALID_CATALOG_ID);
        variableLengthAttributeIndices := variableLengthAttributeIndices + [INVALID_CATALOG_ID];
        OffsetsOneMore(fixedLengthAttributeOffsets, attrVec, placed);
        fixedLengthAttributeOffsets := Resized(fixedLengthAttributeOffsets, |attrVec| + 1, fixedByteLength);
      }
    }

    method UpdateNullableIndex(placed: Attribute)
      requires IsNumbering(nullableAttributeIndices, attrVec, OneIfNullable)
      requires currentNullableAttributeIndex == Sum(attrVec, OneIfNullable) - 1
      modifies this`nullableAttributeIndices, this`currentNullableAttributeIndex
      ensures IsNumbering(nullableAttributeIndices, attrVec + [placed], OneIfNullable)
      ensures currentNullableAttributeIndex == Sum(attrVec + [placed], OneIfNullable) - 1
    {
      SumOneMore(attrVec, placed, OneIfNullable);
      if placed.ty.isNullable {
        currentNullableAttributeIndex := currentNullableAttributeIndex + 1;
        NumberingOneMore(nullableAttributeIndices, attrVec, placed, OneIfNullable, currentNullableAttributeIndex);
        nullableAttributeIndices := nullableAttributeIndices + [currentNullableAttributeIndex];
      } else {
        NumberingOneMore(nullableAttributeIndices, attrVec, placed, OneIfNullable, INVALID_CATALOG_ID);
        nullableAttributeIndices := nullableAttributeIndices + [INVALID_CATALOG_ID];
      }
    }

    method UpdateTotals(placed: Attribute)
      requires TotalsMatch(attrVec)
      modifies this`numNullableAttributes, this`numVariableLengthAttributes, this`maxByteLength, this`minByteLength,
               this`estimatedByteLength, this`fixedByteLength, this`maxVariableByteLength, this`minVariableByteLength,
               this`minVariableByteLengthExcludingNullable, this`estimatedVariableByteLength
      ensures TotalsMatch(attrVec + [placed])
    {
      AccountFor(placed.ty);
      SumOneMore(attrVec, placed, OneIfNullable);
      SumOneMore(attrVec, placed, OneIfVariable);
      SumOneMore(attrVec, placed, MaxBytes);
      SumOneMore(attrVec, placed, MinBytes);
      SumOneMore(attrVec, placed, AverageBytes);
      SumOneMore(attrVec, placed, FixedBytes);
      SumOneMore(attrVec, placed, VariableMaxBytes);
      SumOneMore(attrVec, placed, VariableMinBytes);
      SumOneMore(attrVec, placed, VariableMinBytesNotNull);
      SumOneMore(attrVec, placed, VariableAverageBytes);
    }

    method AccountFor(ty: Type)
      modifies this`numNullableAttributes, this`numVariableLengthAttributes, this`maxByteLength, this`minByteLength,
               this`estimatedByteLength, this`fixedByteLength, this`maxVariableByteLength, this`minVariableByteLength,
               this`minVariableByteLengthExcludingNullable, this`estimatedVariableByteLength
      ensures numNullableAttributes == old(numNullableAttributes) + OneIfNullable(ty)
      ensures numVariableLengthAttributes == old(numVariableLengthAttributes) + OneIfVariable(ty)
      ensures maxByteLength == old(maxByteLength) + MaxBytes(ty)
      ensures minByteLength == old(minByteLength) + MinBytes(ty)
      ensures estimatedByteLength == old(estimatedByteLength) + AverageBytes(ty)
      ensures fixedByteLength == old(fixedByteLength) + FixedBytes(ty)
      ensures maxVariableByteLength == old(maxVariableByteLength) + VariableMaxBytes(ty)
      ensures minVariableByteLength == old(minVariableByteLength) + VariableMinBytes(ty)
      ensures minVariableByteLengthExcludingNullable
           == old(minVariableByteLengthExcludingNullable) + VariableMinBytesNotNull(ty)
      ensures estimatedVariableByteLength == old(estimatedVariableByteLength) + VariableAverageBytes(ty)
    {
      if ty.isVariableLength {
        numVariableLengthAttributes := numVariableLengthAttributes + 1;
        maxVariableByteLength := maxVariableByteLength + ty.maximumByteLength;
        minVariableByteLength := minVariableByteLength + ty.minimumByteLength;
        if !ty.isNullable {
          minVariableByteLengthExcludingNullable := minVariableByteLengthExcludingNullable + ty.minimumByteLength;
        }
        estimatedVariableByteLength := estimatedVariableByteLength + ty.averageByteLength;
      } else {
        fixedByteLength := fixedByteLength + ty.maximumByteLength;
      }
      maxByteLength := maxByteLength + ty.maximumByteLength;
      minByteLength := minByteLength + ty.minimumByteLength;
      estimatedByteLength := estimatedByteLength + ty.averageByteLength;
      if ty.isNullable {
        numNullableAttributes := numNullableAttributes + 1;
      }
    }

    /** Rebuilding from the attributes of a serialized schema without gaps, as the
        constructor's own check of the serialized form demands. The vector of lengths is sized for all of them beforehand. */
    constructor FromProto(attributes: seq<Attribute>)
      requires |attributes| <= CATALOG_MAX_ID + 1
      requires forall i | 0 <= i < |attributes| :: attributes[i].id == i
      ensures Valid() && attrVec == attributes
    {
      attrVec := [];
      numNullableAttributes, numVariableLengthAttributes := 0, 0;
      maxByteLength, minByteLength, estimatedByteLength, fixedByteLength := 0, 0, 0, 0;
      maxVariableByteLength, minVariableByteLength := 0, 0;
      minVariableByteLengthExcludingNullable, estimatedVariableByteLength := 0, 0;
      fixedLengthAttributeOffsets, maxByteLengths := [], seq(|attributes|, _ => 0);
      nullableAttributeIndices, variableLengthAttributeIndices := [], [];
      currentNullableAttributeIndex, currentVariableLengthAttributeIndex := -1, -1;
      new;
      for i := 0 to |attributes|
        invariant Valid() && attrVec == attributes[..i]
      {
        var id := AddAttribute(attributes[i]);
      }
    }
  }
}
