/** The builder: it collects distinct values, keeps its counters up to date on every
    insert and undo, and writes the sorted values out as a physical dictionary. */
module DictionaryBuilder {

  import opened Wrappers
  import opened Powers
  import opened MemoryBytes
  import opened CodeWidth
  import opened ValueOrder
  import opened DictionaryLayout

  /** What a builder holds, without the counters it caches: the set of values,
      whether NULL is in, and what the next undo will take out. */
  datatype Entries = Entries(values: set<Bytes>, hasNull: bool, last: Option<Bytes>, lastWasNull: bool) {

    predicate Contains(v: Value) {
      match v
      case Null => hasNull
      case Data(bytes) => bytes in values
    }

    ghost function Count(): nat {
      |values| + if hasNull then 1 else 0
    }

    predicate IsSound() {
      && (last.Some? ==> last.value in values)
      && (lastWasNull ==> hasNull)
    }

    predicate CanUndo() {
      lastWasNull || last.Some?
    }
  }

  function Inserted(e: Entries, v: Value): Entries {
    match v
    case Null => e.(hasNull := true, lastWasNull := !e.hasNull)
    case Data(bytes) =>
      if bytes in e.values then e
      else e.(values := e.values + {bytes}, last := Some(bytes), lastWasNull := false)
  }

  function Undone(e: Entries): Entries
    requires e.CanUndo()
  {
    if e.lastWasNull then e.(hasNull := false, lastWasNull := false)
    else e.(values := e.values - {e.last.value}, last := None)
  }

  predicate SameContents(a: Entries, b: Entries) {
    a.values == b.values && a.hasNull == b.hasNull
  }

  /** The counters a builder caches, and what each must be for given contents. */
  datatype Counters = Counters(numValues: nat, codeLengthBits: nat, totalValueSize: nat)

  ghost predicate CountersMatch(c: Counters, e: Entries) {
    && c.numValues == e.Count()
    && c.codeLengthBits == CodeBits(c.numValues)
    && c.totalValueSize == SetSize(e.values)
  }

  // ---------- Undo ----------

  function InsertedAll(e: Entries, vs: seq<Value>): Entries
    decreases |vs|
  {
    if vs == [] then e else InsertedAll(Inserted(e, vs[0]), vs[1..])
  }

  /** Inserts of values that are already in change nothing, except that an
      insert of NULL makes the builder forget that NULL came last. */
  lemma {:induction false} DuplicatesKeepEntries(e: Entries, duplicates: seq<Value>)
    requires forall i | 0 <= i < |duplicates| :: e.Contains(duplicates[i])
    ensures InsertedAll(e, duplicates) == e.(lastWasNull := e.lastWasNull && Null !in duplicates)
    decreases |duplicates|
  {
    if duplicates != [] {
      DuplicatesKeepEntries(Inserted(e, duplicates[0]), duplicates[1..]);
    }
  }

  /** Undo takes back the last successful insert, also when failed inserts came
      in between, unless that insert was of NULL and NULL was tried again. */
  lemma UndoTakesBackLastInsert(e: Entries, v: Value, duplicates: seq<Value>)
    requires e.IsSound() && !e.Contains(v)
    requires forall i | 0 <= i < |duplicates| :: Inserted(e, v).Contains(duplicates[i])
    ensures var after := InsertedAll(Inserted(e, v), duplicates);
            after.CanUndo() && SameContents(Undone(after), e) <==> !(v.Null? && Null in duplicates)
  {
    DuplicatesKeepEntries(Inserted(e, v), duplicates);
    if v.Data? {
      assert e.values + {v.bytes} - {v.bytes} == e.values;
    }
  }

  /** The incremental width is the least sufficient one, and every code fits in
      it and in the padded width. */
  lemma IncrementalWidthIsLeast(c: Counters, e: Entries, code: nat)
    requires CountersMatch(c, e) && c.numValues <= UINT32_MAX
    ensures IsCodeWidth(e.Count(), c.codeLengthBits)
    ensures code < e.Count() ==> code < Pow2(c.codeLengthBits) <= Pow2(8 * PaddedBytes(c.codeLengthBits))
  {
    CodeBitsIsWidth(c.numValues);
    if code < e.Count() {
      CodesFit(c.numValues, c.codeLengthBits, code);
    }
  }

  /** Inserting a value, then NULL, then NULL again makes undo remove the value. */
  lemma RepeatedNullUndoesTheWrongEntry(v: Bytes)
    ensures var e := InsertedAll(Entries({}, false, None, false), [Data(v), Null, Null]);
            e.CanUndo() && Undone(e).values == {} && Undone(e).hasNull
  {
    var e1 := Inserted(Entries({}, false, None, false), Data(v));
    DuplicatesKeepEntries(Inserted(e1, Null), [Null]);
    assert [Data(v), Null, Null][1..] == [Null, Null] && [Null, Null][1..] == [Null];
  }

  /** Within the byte limit there are fewer than 2^31 entries: the entry-count
      limit is never what stops an insert, and `1u << codeLengthBits` is defined. */
  lemma EntryCountIsSmall(c: Counters, e: Entries)
    requires CountersMatch(c, e) && c.totalValueSize <= UINT32_MAX
    requires forall v | v in e.values :: |v| >= 1
    ensures c.numValues < 0x8000_0000 && c.codeLengthBits <= 31
  {
    ByteLimitBoundsCount(e.values);
    Pow2At32();
    CodeBitsIsWidth(c.numValues);
    if c.codeLengthBits > 31 {
      CodeWidthIsLeast(c.numValues, c.codeLengthBits, 31);
    }
  }

  lemma InsertedTotals(e: Entries, v: Value)
    requires !e.Contains(v)
    ensures Inserted(e, v).Count() == e.Count() + 1
    ensures SetSize(Inserted(e, v).values) == SetSize(e.values) + if v.Null? then 0 else |v.bytes|
  {
    if v.Data? {
      SetSizeWith(e.values, v.bytes);
    }
  }

  lemma UndoneTotals(e: Entries)
    requires e.IsSound() && e.CanUndo()
    ensures Undone(e).IsSound()
    ensures Undone(e).Count() == e.Count() - 1
    ensures SetSize(Undone(e).values) == SetSize(e.values) - if e.lastWasNull then 0 else |e.last.value|
  {
    if !e.lastWasNull {
      SetSizeWithout(e.values, e.last.value);
    }
  }

  // ---------- The builder ----------

  datatype InsertOutcome = Added | AlreadyPresent | FatalByteLimit

  class CompressionDictionaryBuilder {
    const ty: Type
    var valueSet: map<Bytes, nat>
    var lastInserted: Option<Bytes>
    var numValues: nat
    var codeLengthBits: nat
    var totalValueSize: nat
    var nullValuePresent: bool
    var lastInsertWasNull: bool
    var built: bool

    ghost var contents: Entries

    ghost function CurrentCounters(): Counters
      reads this
    {
      Counters(numValues, codeLengthBits, totalValueSize)
    }

    ghost predicate Valid()
      reads this
    {
      IsConsistent() && totalValueSize <= UINT32_MAX
    }

    ghost predicate IsConsistent()
      reads this
    {
      && ty.IsOrdered()
      && (forall v | v in valueSet :: ty.IsInstance(v))
      && (nullValuePresent ==> ty.isNullable)
      && contents == Entries(valueSet.Keys, nullValuePresent, lastInserted, lastInsertWasNull)
      && contents.IsSound()
      && CountersMatch(CurrentCounters(), contents)
      && (built ==> forall v | v in valueSet :: valueSet[v] == Rank(ty, valueSet.Keys, v))
    }

    constructor (ty: Type)
      requires ty.IsOrdered()
      ensures Valid() && !built && this.ty == ty
      ensures contents == Entries({}, false, None, false)
    {
      this.ty := ty;
      valueSet := map[];
      lastInserted := None;
      numValues, codeLengthBits, totalValueSize := 0, 0, 0;
      nullValuePresent, lastInsertWasNull, built := false, false, false;
      contents := Entries({}, false, None, false);
    }

    /** Both ways in: by copy and by reference. The process ends on a fatal
        outcome, which happens only when the bytes no longer fit 32 bits. */
    method InsertEntry(value: Value) returns (outcome: InsertOutcome)
      requires Valid() && !built
      requires value.Null? ==> ty.isNullable
      requires value.Data? ==> ty.IsInstance(value.bytes)
      modifies this
      ensures outcome.AlreadyPresent? <==> old(contents.Contains(value))
      ensures outcome.FatalByteLimit? <==>
                value.Data? && !old(contents.Contains(value)) && old(totalValueSize) + |value.bytes| > UINT32_MAX
      ensures !outcome.FatalByteLimit? ==> Valid() && !built && contents == Inserted(old(contents), value)
    {
      if ty.isNullable && value.Null? {
        outcome := InsertNull();
      } else {
        EntryCountIsSmall(CurrentCounters(), contents);
        if numValues == UINT32_MAX {
          assert false;
        }
        outcome := InsertData(value.bytes);
      }
    }

    method InsertNull() returns (outcome: InsertOutcome)
      requires Valid() && !built && ty.isNullable
      modifies this
      ensures outcome == if old(nullValuePresent) then AlreadyPresent else Added
      ensures Valid() && !built && contents == Inserted(old(contents), Null)
    {
      lastInsertWasNull := !nullValuePresent;
      nullValuePresent := true;
      if lastInsertWasNull {
        InsertedTotals(contents, Null);
        CountOneMore();
      }
      contents := Inserted(contents, Null);
      outcome := if lastInsertWasNull then Added else AlreadyPresent;
    }

    method InsertData(bytes: Bytes) returns (outcome: InsertOutcome)
      requires Valid() && !built && ty.IsInstance(bytes)
      modifies this
      ensures outcome == if bytes in old(valueSet) then AlreadyPresent
                         else if old(totalValueSize) + |bytes| > UINT32_MAX then FatalByteLimit else Added
      ensures !outcome.FatalByteLimit? ==> Valid() && !built && contents == Inserted(old(contents), Data(bytes))
    {
      if bytes in valueSet {
        return AlreadyPresent;
      }
      AddNew(bytes);
      return if totalValueSize > UINT32_MAX then FatalByteLimit else Added;
    }

    method AddNew(bytes: Bytes)
      requires Valid() && !built && ty.IsInstance(bytes) && bytes !in valueSet
      modifies this
      ensures IsConsistent() && !built && contents == Inserted(old(contents), Data(bytes))
      ensures totalValueSize == old(totalValueSize) + |bytes|
    {
      InsertedTotals(contents, Data(bytes));
      Emplace(bytes);
      CountOneMore();
      totalValueSize := totalValueSize + if ty.isVariableLength then |bytes| else ty.maximumByteLength;
    }

    /** A new key; its code is not known before the dictionary is built. */
    method Emplace(bytes: Bytes)
      requires bytes !in valueSet
      requires contents == Entries(valueSet.Keys, nullValuePresent, lastInserted, lastInsertWasNull)
      modifies this`valueSet, this`lastInserted, this`lastInsertWasNull, this`contents
      ensures forall v | v in valueSet :: v == bytes || v in old(valueSet)
      ensures contents == Inserted(old(contents), Data(bytes)) && contents.IsSound()
      ensures contents == Entries(valueSet.Keys, nullValuePresent, lastInserted, lastInsertWasNull)
    {
      valueSet := valueSet[bytes := UINT32_MAX];
      lastInserted := Some(bytes);
      lastInsertWasNull := false;
      contents := Inserted(contents, Data(bytes));
    }

    /** Adds one to the entry count and widens the codes when they run out. */
    method CountOneMore()
      requires codeLengthBits == CodeBits(numValues)
      modifies this`numValues, this`codeLengthBits
      ensures numValues == old(numValues) + 1
      ensures codeLengthBits == CodeBits(numValues)
    {
      CodeBitsIsWidth(numValues);
      numValues := numValues + 1;
      if codeLengthBits == 0 || numValues == Pow2(codeLengthBits) + 1 {
        codeLengthBits := codeLengthBits + 1;
      }
      CodeBitsIsWidth(numValues);
      CodeWidthUnique(numValues, codeLengthBits, CodeBits(numValues));
    }

    method UndoLastInsert()
      requires Valid() && !built
      requires contents.CanUndo()
      modifies this
      ensures Valid() && !built
      ensures contents == Undone(old(contents))
    {
      ghost var before := contents;
      UndoneTotals(before);
      if lastInsertWasNull {
        nullValuePresent := false;
        lastInsertWasNull := false;
      } else {
        var bytes := lastInserted.value;
        totalValueSize := totalValueSize - (if ty.isVariableLength then |bytes| else ty.maximumByteLength);
        valueSet := valueSet - {bytes};
        lastInserted := None;
      }
      CountOneLess();
      contents := Undone(before);
    }

    method CountOneLess()
      requires numValues > 0 && codeLengthBits == CodeBits(numValues)
      modifies this`numValues, this`codeLengthBits
      ensures numValues == old(numValues) - 1
      ensures codeLengthBits == CodeBits(numValues)
    {
      CodeBitsIsWidth(numValues);
      numValues := numValues - 1;
      if numValues == 0 {
        codeLengthBits := 0;
      } else if codeLengthBits > 1 && numValues == Pow2(codeLengthBits - 1) {
        codeLengthBits := codeLengthBits - 1;
      }
      CodeBitsIsWidth(numValues);
      CodeWidthUnique(numValues, codeLengthBits, CodeBits(numValues));
    }

    /** The sum of counters is a 32-bit one; see BuildDictionary for what it measures. */
    function DictionarySizeBytes(): nat
      reads this
    {
      if !ty.isVariableLength then 2 * SIZEOF_UINT32 + totalValueSize
      else
        WrapUint32(numValues + 2 - (if nullValuePresent then 1 else 0)) * SIZEOF_UINT32 + totalValueSize
    }

    function ContainsValue(v: Value): bool
      reads this
    {
      match v
      case Null => nullValuePresent
      case Data(bytes) => bytes in valueSet
    }

    /** The code of a value of the finished dictionary: its rank, with NULL
        after every other value. */
    function GetCodeForValue(v: Value): (code: nat)
      requires Valid() && built && ContainsValue(v)
      reads this
      ensures code == match v case Null => |valueSet.Keys| case Data(bytes) => Rank(ty, valueSet.Keys, bytes)
    {
      match v
      case Null => numValues - 1
      case Data(bytes) => valueSet[bytes]
    }

    /** The reported size is that of the layout of the sorted values. */
    lemma SizeIsLayoutSize(sorted: seq<Bytes>)
      requires Valid() && Lists(ty, sorted, valueSet.Keys)
      ensures numValues == |sorted| + (if nullValuePresent then 1 else 0) < 0x8000_0000
      ensures TotalSize(sorted) == totalValueSize <= UINT32_MAX
      ensures DictionarySizeBytes() == |Layout(ty, sorted, nullValuePresent)|
    {
      EntryCountIsSmall(CurrentCounters(), contents);
      AscendingIsDistinct(ty, sorted);
      ListingConservesSize(sorted);
    }

    /** Writes exactly DictionarySizeBytes() bytes: the layout of the sorted
        values. Afterwards each value's code is its rank. */
    method BuildDictionary(location: array<byte>) returns (ghost sorted: seq<Bytes>)
      requires Valid() && location.Length >= DictionarySizeBytes()
      modifies this`valueSet, this`built, location
      ensures Valid() && built && contents == old(contents)
      ensures Lists(ty, sorted, valueSet.Keys)
      ensures |Layout(ty, sorted, nullValuePresent)| == old(DictionarySizeBytes()) == DictionarySizeBytes()
      ensures location[..] == Overwritten(old(location[..]), 0, Layout(ty, sorted, nullValuePresent))
    {
      var sortedValues := SortedValues();
      UpdateCodes(sortedValues);
      WriteDictionary(sortedValues, location);
      sorted := sortedValues;
      built := true;
    }

    method SortedValues() returns (sorted: seq<Bytes>)
      requires Valid()
      ensures Lists(ty, sorted, valueSet.Keys)
      ensures numValues == |sorted| + (if nullValuePresent then 1 else 0) && TotalSize(sorted) <= UINT32_MAX
      ensures DictionarySizeBytes() == |Layout(ty, sorted, nullValuePresent)|
    {
      var keys := KeysInHashOrder(valueSet.Keys);
      sorted := SortValues(ty, keys);
      SizeIsLayoutSize(sorted);
    }

    method UpdateCodes(sorted: seq<Bytes>)
      requires ty.IsOrdered() && Lists(ty, sorted, valueSet.Keys)
      modifies this`valueSet
      ensures valueSet.Keys == old(valueSet.Keys)
      ensures forall v | v in valueSet :: valueSet[v] == Rank(ty, valueSet.Keys, v)
    {
      ghost var keys := valueSet.Keys;
      for code := 0 to |sorted|
        invariant valueSet.Keys == keys
        invariant forall i | 0 <= i < code :: valueSet[sorted[i]] == Rank(ty, keys, sorted[i])
      {
        RankOfListed(ty, sorted, keys, code);
        assert sorted[code] in keys;
        valueSet := valueSet[sorted[code] := code];
      }
    }

    method WriteDictionary(sorted: seq<Bytes>, location: array<byte>)
      requires numValues == |sorted| + (if nullValuePresent then 1 else 0)
      requires AllInstances(ty, sorted) && TotalSize(sorted) <= UINT32_MAX
      requires location.Length >= |Layout(ty, sorted, nullValuePresent)|
      modifies location
      ensures location[..] == Overwritten(old(location[..]), 0, Layout(ty, sorted, nullValuePresent))
    {
      ghost var was := location[..];
      WriteHeader(location);
      WriteValues(sorted, location);
      OverwriteNext(was, 0, Header(|sorted|, nullValuePresent), Body(ty, sorted));
    }

    method WriteHeader(location: array<byte>)
      requires nullValuePresent ==> numValues >= 1
      requires location.Length >= HEADER_BYTES
      modifies location
      ensures location[..] == Overwritten(old(location[..]), 0,
                                          Header(numValues - (if nullValuePresent then 1 else 0), nullValuePresent))
    {
      ghost var was := location[..];
      var nonNull := numValues - if nullValuePresent then 1 else 0;
      CopyInto(EncodeUint32(nonNull), location, 0);
      var nullCode := if nullValuePresent then numValues - 1 else UINT32_MAX;
      CopyInto(EncodeUint32(nullCode), location, SIZEOF_UINT32);
      OverwriteNext(was, 0, EncodeUint32(nonNull), EncodeUint32(nullCode));
    }

    method WriteValues(sorted: seq<Bytes>, location: array<byte>)
      requires AllInstances(ty, sorted) && TotalSize(sorted) <= UINT32_MAX
      requires location.Length >= HEADER_BYTES + |Body(ty, sorted)|
      modifies location
      ensures location[..] == Overwritten(old(location[..]), HEADER_BYTES, Body(ty, sorted))
    {
      if !ty.isVariableLength {
        CopyFixedLengthValuesToLocation(ty, sorted, location, HEADER_BYTES);
      } else {
        CopyVariableLengthValuesToLocation(sorted, location, HEADER_BYTES);
      }
    }
  }

  /** The keys of the hash table, in whatever order it yields them. */
  method KeysInHashOrder(keys: set<Bytes>) returns (s: seq<Bytes>)
    ensures Elements(s) == keys
    ensures forall i, j | 0 <= i < j < |s| :: s[i] != s[j]
  {
    s := [];
    var rest := keys;
    while rest != {}
      invariant Elements(s) + rest == keys && Elements(s) !! rest
      invariant forall i, j | 0 <= i < j < |s| :: s[i] != s[j]
      decreases rest
    {
      var v :| v in rest;
      assert v !in Elements(s);
      s := s + [v];
      rest := rest - {v};
    }
  }

  /** Inserting a new value, then values that are already in, then taking the
      last insert back if there is one to take back. Contents, entry count, code
      width and byte size are then all as before, exactly if the value was not
      NULL or NULL was not tried again. */
  method InsertAndUndo(b: CompressionDictionaryBuilder, v: Value, duplicates: seq<Value>) returns (fatal: bool)
    requires b.Valid() && !b.built && !b.contents.Contains(v)
    requires v.Null? ==> b.ty.isNullable
    requires v.Data? ==> b.ty.IsInstance(v.bytes)
    requires forall u | u in duplicates :: Inserted(b.contents, v).Contains(u)
    modifies b
    ensures fatal <==> v.Data? && old(b.totalValueSize) + |v.bytes| > UINT32_MAX
    ensures !fatal ==>
              && b.Valid() && !b.built
              && (SameContents(b.contents, old(b.contents)) && b.CurrentCounters() == old(b.CurrentCounters())
                  <==> !(v.Null? && Null in duplicates))
  {
    ghost var before := b.contents;
    var outcome := b.InsertEntry(v);
    if outcome.FatalByteLimit? {
      return true;
    }
    ghost var inserted := b.contents;
    for i := 0 to |duplicates|
      invariant b.Valid() && !b.built
      invariant b.contents == inserted.(lastWasNull := inserted.lastWasNull && Null !in duplicates[..i])
    {
      assert duplicates[i] in duplicates;
      assert duplicates[..i + 1] == duplicates[..i] + [duplicates[i]];
      outcome := b.InsertEntry(duplicates[i]);
    }
    assert duplicates[..|duplicates|] == duplicates;
    DuplicatesKeepEntries(inserted, duplicates);
    UndoTakesBackLastInsert(before, v, duplicates);
    if b.lastInsertWasNull || b.lastInserted.Some? {
      b.UndoLastInsert();
    }
    return false;
  }
}
