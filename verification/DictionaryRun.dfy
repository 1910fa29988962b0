/** Whole runs: any sequence of inserts and undos, then a build, then opening what was
    built. */
module DictionaryRun {

  import opened Wrappers
  import opened MemoryBytes
  import opened ValueOrder
  import opened DictionaryBuilder
  import opened DictionaryReader
  import opened DictionaryQueries

  datatype Operation = Insert(value: Value) | Undo

  const EMPTY := Entries({}, false, None, false)

  /** The operation is one the builder's debug checks let through. */
  predicate IsLegal(ty: Type, e: Entries, op: Operation) {
    match op
    case Insert(Null) => ty.isNullable
    case Insert(Data(bytes)) => ty.IsInstance(bytes)
    case Undo => e.CanUndo()
  }

  function Applied(e: Entries, op: Operation): Entries {
    match op
    case Insert(value) => Inserted(e, value)
    case Undo => if e.CanUndo() then Undone(e) else e
  }

  function Contents(ops: seq<Operation>): Entries {
    if ops == [] then EMPTY else Applied(Contents(ops[..|ops| - 1]), ops[|ops| - 1])
  }

  predicate LegalAt(ty: Type, ops: seq<Operation>, i: nat)
    requires i < |ops|
  {
    IsLegal(ty, Contents(ops[..i]), ops[i])
  }

  ghost predicate IsLegalRun(ty: Type, ops: seq<Operation>) {
    forall i | 0 <= i < |ops| :: LegalAt(ty, ops, i)
  }

  lemma ContentsOneMore(ops: seq<Operation>, op: Operation)
    ensures Contents(ops + [op]) == Applied(Contents(ops), op)
  {
    assert (ops + [op])[..|ops|] == ops;
  }

  /** One more insert adds the value and nothing else. */
  lemma InsertInRun(ops: seq<Operation>, v: Value, u: Value)
    ensures Contents(ops + [Insert(v)]).Contains(u) <==> u == v || Contents(ops).Contains(u)
  {
    ContentsOneMore(ops, Insert(v));
  }

  /** Any run of inserts and undos can be taken back by one operation if its last
      one was an insert of a new value. */
  lemma UndoInRun(ops: seq<Operation>, v: Value)
    requires !Contents(ops).Contains(v)
    ensures SameContents(Contents(ops + [Insert(v), Undo]), Contents(ops))
  {
    ContentsOneMore(ops, Insert(v));
    ContentsOneMore(ops + [Insert(v)], Undo);
    assert ops + [Insert(v), Undo] == ops + [Insert(v)] + [Undo];
    if v.Data? {
      assert Contents(ops).values + {v.bytes} - {v.bytes} == Contents(ops).values;
    }
  }

  /** At no point of the first `n` operations does the builder hold more than
      2^32 - 1 bytes. */
  ghost predicate FitsUpTo(ops: seq<Operation>, n: nat)
    requires n <= |ops|
  {
    SetSize(Contents(ops[..n]).values) <= UINT32_MAX && (n == 0 || FitsUpTo(ops, n - 1))
  }

  lemma {:induction false} FitsLess(ops: seq<Operation>, k: nat, n: nat)
    requires k <= n <= |ops| && FitsUpTo(ops, n)
    ensures FitsUpTo(ops, k)
  {
    if k < n {
      FitsLess(ops, k, n - 1);
    }
  }

  ghost predicate AlwaysFits(ops: seq<Operation>) {
    FitsUpTo(ops, |ops|)
  }

  method Perform(b: CompressionDictionaryBuilder, op: Operation) returns (fits: bool)
    requires b.Valid() && !b.built && IsLegal(b.ty, b.contents, op)
    modifies b
    ensures fits <==> SetSize(Applied(old(b.contents), op).values) <= UINT32_MAX
    ensures fits ==> b.Valid() && !b.built && b.contents == Applied(old(b.contents), op)
  {
    match op {
      case Insert(value) =>
        if !b.contents.Contains(value) {
          InsertedTotals(b.contents, value);
        }
        var outcome := b.InsertEntry(value);
        fits := !outcome.FatalByteLimit?;
      case Undo =>
        b.UndoLastInsert();
        fits := true;
    }
  }

  lemma RunOneMore(ty: Type, ops: seq<Operation>, i: nat)
    requires IsLegalRun(ty, ops) && i < |ops| && FitsUpTo(ops, i)
    ensures IsLegal(ty, Contents(ops[..i]), ops[i])
    ensures Contents(ops[..i + 1]) == Applied(Contents(ops[..i]), ops[i])
    ensures FitsUpTo(ops, i + 1) <==> SetSize(Contents(ops[..i + 1]).values) <= UINT32_MAX
    ensures AlwaysFits(ops) ==> FitsUpTo(ops, i + 1)
  {
    assert LegalAt(ty, ops, i);
    assert ops[..i + 1] == ops[..i] + [ops[i]];
    ContentsOneMore(ops[..i], ops[i]);
    if AlwaysFits(ops) {
      FitsLess(ops, i + 1, |ops|);
    }
  }

  method RunBuilder(ty: Type, ops: seq<Operation>) returns (b: CompressionDictionaryBuilder, fits: bool)
    requires ty.IsOrdered() && IsLegalRun(ty, ops)
    ensures fresh(b) && b.ty == ty
    ensures fits <==> AlwaysFits(ops)
    ensures fits ==> b.Valid() && !b.built && b.contents == Contents(ops)
  {
    b := new CompressionDictionaryBuilder(ty);
    for i := 0 to |ops|
      invariant fresh(b) && b.ty == ty && b.Valid() && !b.built
      invariant b.contents == Contents(ops[..i])
      invariant FitsUpTo(ops, i)
    {
      RunOneMore(ty, ops, i);
      fits := Perform(b, ops[i]);
      if !fits {
        return;
      }
    }
    assert ops[..|ops|] == ops;
    fits := true;
  }

  /** After every legal run, the dictionary that is built and opened lists exactly
      what the run has left in the builder. There is one exactly if the values
      always fitted. */
  method DictionaryOfRun(ty: Type, ops: seq<Operation>) returns (d: Option<Dictionary>, ghost sorted: seq<Bytes>)
    requires ty.IsOrdered() && IsLegalRun(ty, ops)
    ensures d.Some? <==> AlwaysFits(ops)
    ensures d.Some? ==>
              && Lists(ty, sorted, Contents(ops).values)
              && d.value.ty == ty && IsDictionary(d.value, sorted, Contents(ops).hasNull)
  {
    sorted := [];
    var b, fits := RunBuilder(ty, ops);
    if !fits {
      return None, sorted;
    }
    var dictionary;
    dictionary, sorted := BuildAndOpen(b);
    d := Some(dictionary);
  }

  datatype Lookup = Lookup(byReader: nat, byBuilder: Option<nat>, numberOfCodes: nat)

  /** After every legal run, searching the opened dictionary for a value gives the
      code the builder's hash table has for it. A value the run has not left there
      gets the number of codes. */
  method LookUpAfterRun(ty: Type, ops: seq<Operation>, v: Value) returns (found: Option<Lookup>)
    requires ty.IsOrdered() && IsLegalRun(ty, ops) && (v.Data? ==> ty.IsInstance(v.bytes))
    ensures found.Some? <==> AlwaysFits(ops)
    ensures found.Some? ==>
              && found.value.numberOfCodes == Contents(ops).Count()
              && (found.value.byBuilder.Some? <==> Contents(ops).Contains(v))
              && found.value.byReader == (if found.value.byBuilder.Some? then found.value.byBuilder.value
                                          else found.value.numberOfCodes)
  {
    var b, fits := RunBuilder(ty, ops);
    if !fits {
      return None;
    }
    ghost var sorted;
    var d;
    d, sorted := BuildAndOpen(b);
    SameTypeIsComparable(ty, v);
    var code := GetCodeForUntypedValue(d, SameTypeProbe(ty, v), sorted, b.nullValuePresent);
    OwnTypeCodeIsRank(d, v, sorted, b.valueSet.Keys, b.nullValuePresent, code);
    var byBuilder := if b.ContainsValue(v) then Some(b.GetCodeForValue(v)) else None;
    return Some(Lookup(code, byBuilder, d.numberOfCodesIncludingNull));
  }
}
