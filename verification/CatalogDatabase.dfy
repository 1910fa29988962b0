/** A database of the catalog: relations by id in a vector that keeps a hole for each
    dropped one, and by lower-case name in a map. */
module CatalogDatabase {

  import opened Wrappers

  const CATALOG_MAX_ID: nat := 0x7FFF_FFFF

  /** A relation of the database; `body` stands for all that is not name and id. */
  datatype Relation = Relation(name: string, id: int, body: string)

  function LowerChar(c: char): char {
    if 'A' <= c <= 'Z' then c - 'A' + 'a' else c
  }

  function ToLower(s: string): string {
    seq(|s|, i requires 0 <= i < |s| => LowerChar(s[i]))
  }

  lemma ToLowerTwice(s: string)
    ensures ToLower(ToLower(s)) == ToLower(s)
  {
  }

  /** The capital and the small form of one letter. */
  predicate IsCapitalOf(capital: char, small: char) {
    'A' <= capital <= 'Z' && small as int == capital as int + 32
  }

  /** Two names that differ at most in capital and small letters. */
  predicate SameUpToCase(a: string, b: string) {
    && |a| == |b|
    && forall i | 0 <= i < |a| :: a[i] == b[i] || IsCapitalOf(a[i], b[i]) || IsCapitalOf(b[i], a[i])
  }

  lemma LowerCharIdentifies(a: char, b: char)
    ensures LowerChar(a) == LowerChar(b) <==> a == b || IsCapitalOf(a, b) || IsCapitalOf(b, a)
  {
  }

  /** Lower-case names are equal exactly if the names are the same up to case. */
  lemma ToLowerIdentifies(a: string, b: string)
    ensures ToLower(a) == ToLower(b) <==> SameUpToCase(a, b)
  {
    forall i | 0 <= i < |a| && i < |b|
      ensures ToLower(a)[i] == ToLower(b)[i] <==> a[i] == b[i] || IsCapitalOf(a[i], b[i]) || IsCapitalOf(b[i], a[i])
    {
      LowerCharIdentifies(a[i], b[i]);
    }
    assert ToLower(a) == ToLower(b) ==> |a| == |b| by {
      assert |ToLower(a)| == |a| && |ToLower(b)| == |b|;
    }
  }

  lemma SameNames()
    ensures forall a, b :: SameUpToCase(a, b) <==> ToLower(a) == ToLower(b)
  {
    forall a, b ensures SameUpToCase(a, b) <==> ToLower(a) == ToLower(b) {
      ToLowerIdentifies(a, b);
    }
  }

  type Slots = seq<Option<Relation>>

  /** Each relation sits in the slot of its id. */
  ghost predicate IdsAreSlots(slots: Slots) {
    forall i | 0 <= i < |slots| && slots[i].Some? :: slots[i].value.id == i
  }

  /** No two live relations have the same name up to case. */
  ghost predicate NamesDiffer(slots: Slots) {
    forall i, j | 0 <= i < j < |slots| && slots[i].Some? && slots[j].Some? ::
      !SameUpToCase(slots[i].value.name, slots[j].value.name)
  }

  ghost predicate HoldsName(slots: Slots, i: int, name: string) {
    0 <= i < |slots| && slots[i].Some? && SameUpToCase(slots[i].value.name, name)
  }

  ghost predicate NameIsLive(slots: Slots, name: string) {
    exists i :: HoldsName(slots, i, name)
  }

  /** The name map and the live slots are two views of the same relations. */
  ghost predicate Agree(slots: Slots, names: map<string, Relation>) {
    && (forall i | 0 <= i < |slots| && slots[i].Some? ::
          ToLower(slots[i].value.name) in names && names[ToLower(slots[i].value.name)] == slots[i].value)
    && (forall n | n in names ::
          && 0 <= names[n].id < |slots|
          && slots[names[n].id] == Some(names[n])
          && ToLower(names[n].name) == n)
  }

  // ---------- Size ----------

  function LiveIds(slots: Slots): set<int> {
    set i | 0 <= i < |slots| && slots[i].Some?
  }

  lemma {:induction false} ImageCounts(keys: set<string>, names: map<string, Relation>)
    requires keys <= names.Keys
    requires forall a, b | a in keys && b in keys && a != b :: names[a].id != names[b].id
    ensures |set a | a in keys :: names[a].id| == |keys|
  {
    if keys != {} {
      var a :| a in keys;
      ImageCounts(keys - {a}, names);
      assert (set b | b in keys :: names[b].id) == (set b | b in keys - {a} :: names[b].id) + {names[a].id};
    }
  }

  /** As many names as live slots. */
  lemma NamesCountSlots(slots: Slots, names: map<string, Relation>)
    requires Agree(slots, names) && IdsAreSlots(slots)
    ensures |names| == |LiveIds(slots)|
  {
    var ids := set n | n in names.Keys :: names[n].id;
    assert ids == LiveIds(slots) by {
      forall x | x in LiveIds(slots) ensures x in ids {
        assert ToLower(slots[x].value.name) in names.Keys;
      }
    }
    ImageCounts(names.Keys, names);
  }

  // ---------- History ----------

  /** What an operation may do to the slots: add at the end, and empty some. */
  ghost predicate Evolves(before: Slots, after: Slots) {
    && |before| <= |after|
    && forall i | 0 <= i < |before| :: after[i] == before[i] || after[i] == None
  }

  datatype Operation = Add(relation: Relation) | DropByName(name: string) | DropById(id: int)

  /** The slots after an operation, which changes nothing if it fails. */
  ghost function Applied(slots: Slots, op: Operation): Slots {
    match op
    case Add(relation) =>
      if NameIsLive(slots, relation.name) || |slots| > CATALOG_MAX_ID then slots
      else slots + [Some(relation.(id := |slots|))]
    case DropByName(name) =>
      if !NameIsLive(slots, name) then slots
      else var i :| HoldsName(slots, i, name); slots[i := None]
    case DropById(id) =>
      if 0 <= id < |slots| then slots[id := None] else slots
  }

  /** The slots of a database that starts empty, after the first `n` operations. */
  ghost function SlotsAfter(ops: seq<Operation>, n: nat): Slots
    requires n <= |ops|
  {
    if n == 0 then [] else Applied(SlotsAfter(ops, n - 1), ops[n - 1])
  }

  lemma {:induction false} RunEvolves(ops: seq<Operation>, j: nat, k: nat)
    requires j <= k <= |ops|
    ensures Evolves(SlotsAfter(ops, j), SlotsAfter(ops, k))
  {
    if j < k {
      RunEvolves(ops, j, k - 1);
    }
  }

  /** Ids and names stay unique in every run. */
  lemma {:induction false} RunKeepsIdsAndNames(ops: seq<Operation>, n: nat)
    requires n <= |ops|
    ensures IdsAreSlots(SlotsAfter(ops, n)) && NamesDiffer(SlotsAfter(ops, n))
    ensures |SlotsAfter(ops, n)| <= CATALOG_MAX_ID + 1
  {
    if n > 0 {
      RunKeepsIdsAndNames(ops, n - 1);
      if ops[n - 1].Add? {
        var slots := SlotsAfter(ops, n - 1);
        assert forall i | 0 <= i < |slots| && slots[i].Some? ::
            HoldsName(slots, i, ops[n - 1].relation.name)
            <==> SameUpToCase(slots[i].value.name, ops[n - 1].relation.name);
      }
    }
  }

  /** Over any run of adds and drops an id that was ever given out never stands
      for another relation, not even after the first is dropped. */
  lemma {:induction false} IdsAreNeverReused(ops: seq<Operation>, j: nat, k: nat, id: nat)
    requires j <= k <= |ops| && id < |SlotsAfter(ops, j)|
    ensures id < |SlotsAfter(ops, k)|
    ensures SlotsAfter(ops, k)[id].Some? ==> SlotsAfter(ops, j)[id] == SlotsAfter(ops, k)[id]
  {
    RunEvolves(ops, j, k);
  }

  ghost predicate HoldsAt(slots: Slots, id: nat, relation: Relation) {
    id < |slots| && slots[id] == Some(relation)
  }

  /** The operation succeeds in adding the relation, which gets this id. */
  ghost predicate Adds(slots: Slots, op: Operation, id: nat, relation: Relation) {
    && op.Add? && relation == op.relation.(id := id)
    && id == |slots| <= CATALOG_MAX_ID && !NameIsLive(slots, relation.name)
  }

  predicate Drops(op: Operation, relation: Relation) {
    match op
    case Add(_) => false
    case DropByName(name) => SameUpToCase(relation.name, name)
    case DropById(id) => id == relation.id
  }

  lemma HoldsOneMore(slots: Slots, op: Operation, id: nat, relation: Relation)
    requires IdsAreSlots(slots) && NamesDiffer(slots)
    ensures HoldsAt(Applied(slots, op), id, relation)
            <==> Adds(slots, op, id, relation) || (HoldsAt(slots, id, relation) && !Drops(op, relation))
  {
    match op
    case Add(added) =>
    case DropByName(name) =>
      SameNames();
      if HoldsAt(slots, id, relation) && Drops(op, relation) {
        assert HoldsName(slots, id, name);
      }
    case DropById(_) =>
  }

  ghost predicate AddedAt(ops: seq<Operation>, i: nat, id: nat, relation: Relation) {
    i < |ops| && Adds(SlotsAfter(ops, i), ops[i], id, relation)
  }

  predicate KeptSince(ops: seq<Operation>, i: nat, n: nat, relation: Relation)
    requires n <= |ops|
  {
    forall j | i < j < n :: !Drops(ops[j], relation)
  }

  /** Some operation before the `n`-th added the relation with this id, and none
      since dropped it. */
  ghost predicate AddedAndKept(ops: seq<Operation>, n: nat, id: nat, relation: Relation)
    requires n <= |ops|
  {
    exists i: nat | i < n :: AddedAt(ops, i, id, relation) && KeptSince(ops, i, n, relation)
  }

  /** After every run the relations there are exactly those that were added and not
      dropped since, by name in any case or by id. */
  lemma {:induction false} LiveIffAddedAndKept(ops: seq<Operation>, n: nat, id: nat, relation: Relation)
    requires n <= |ops|
    ensures HoldsAt(SlotsAfter(ops, n), id, relation) <==> AddedAndKept(ops, n, id, relation)
  {
    if n > 0 {
      LiveIffAddedAndKept(ops, n - 1, id, relation);
      RunKeepsIdsAndNames(ops, n - 1);
      HoldsOneMore(SlotsAfter(ops, n - 1), ops[n - 1], id, relation);
      KeptOneMore(ops, n, id, relation);
    }
  }

  lemma KeptOneMore(ops: seq<Operation>, n: nat, id: nat, relation: Relation)
    requires 0 < n <= |ops|
    ensures AddedAndKept(ops, n, id, relation)
            <==> || AddedAt(ops, n - 1, id, relation)
                 || (AddedAndKept(ops, n - 1, id, relation) && !Drops(ops[n - 1], relation))
  {
    if AddedAndKept(ops, n - 1, id, relation) && !Drops(ops[n - 1], relation) {
      var i: nat :| i < n - 1 && AddedAt(ops, i, id, relation) && KeptSince(ops, i, n - 1, relation);
      assert KeptSince(ops, i, n, relation);
    }
    if AddedAt(ops, n - 1, id, relation) {
      assert KeptSince(ops, n - 1, n, relation);
    }
    if AddedAndKept(ops, n, id, relation) {
      var i: nat :| i < n && AddedAt(ops, i, id, relation) && KeptSince(ops, i, n, relation);
      if i < n - 1 {
        assert KeptSince(ops, i, n - 1, relation);
      }
    }
  }

  // ---------- Serialization ----------

  /** The relations that are left and the ids of the holes, each in order. */
  datatype Proto = Proto(name: string, relations: seq<Relation>, nullRelations: seq<nat>)

  function Live(slots: Slots): seq<Relation> {
    if slots == [] then []
    else
      var n := |slots| - 1;
      Live(slots[..n]) + match slots[n] case Some(r) => [r] case None => []
  }

  function Holes(slots: Slots): seq<nat> {
    if slots == [] then []
    else
      var n := |slots| - 1;
      Holes(slots[..n]) + match slots[n] case Some(_) => [] case None => [n]
  }

  /** Where slot `i` is found in the serialized form. */
  lemma {:induction false} SlotInProto(slots: Slots, i: nat)
    requires i < |slots|
    ensures var live, holes := |Live(slots[..i])|, |Holes(slots[..i])|;
            && live + holes == i
            && (slots[i].Some? ==> live < |Live(slots)| && Live(slots)[live] == slots[i].value)
            && (slots[i].Some? ==> holes >= |Holes(slots)| || Holes(slots)[holes] > i)
            && (slots[i].None? ==> holes < |Holes(slots)| && Holes(slots)[holes] == i)
  {
    var n := |slots| - 1;
    LengthsAddUp(slots[..i]);
    if i < n {
      SlotInProto(slots[..n], i);
      assert slots[..n][..i] == slots[..i];
    }
  }

  lemma {:induction false} LengthsAddUp(slots: Slots)
    ensures |Live(slots)| + |Holes(slots)| == |slots|
  {
    if slots != [] {
      LengthsAddUp(slots[..|slots| - 1]);
    }
  }

  /** The serialized form tells where every hole was: no two databases share it. */
  lemma {:induction false} ProtoDeterminesSlots(a: Slots, b: Slots, i: nat)
    requires Live(a) == Live(b) && Holes(a) == Holes(b)
    ensures |a| == |b|
    ensures i <= |a| ==> a[..i] == b[..i]
  {
    LengthsAddUp(a);
    LengthsAddUp(b);
    if 0 < i <= |a| {
      ProtoDeterminesSlots(a, b, i - 1);
      SlotInProto(a, i - 1);
      SlotInProto(b, i - 1);
      assert a[..i] == a[..i - 1] + [a[i - 1]] && b[..i] == b[..i - 1] + [b[i - 1]];
    }
  }

  lemma TakeOneMore(slots: Slots, i: nat)
    requires i < |slots|
    ensures Live(slots[..i + 1]) == Live(slots[..i]) + match slots[i] case Some(r) => [r] case None => []
    ensures Holes(slots[..i + 1]) == Holes(slots[..i]) + match slots[i] case Some(_) => [] case None => [i]
  {
    assert slots[..i + 1][..i] == slots[..i];
  }

  // ---------- The database ----------

  datatype AddResult = Added(id: int) | RelationNameCollision | CatalogIDOverflow

  class CatalogDatabase {
    const name: string
    var relVec: Slots
    var relMap: map<string, Relation>

    ghost predicate Valid()
      reads this
    {
      && IdsAreSlots(relVec) && NamesDiffer(relVec) && Agree(relVec, relMap)
      && |relVec| <= CATALOG_MAX_ID + 1
    }

    constructor (name: string)
      ensures Valid() && this.name == name && relVec == []
    {
      this.name := name;
      relVec, relMap := [], map[];
    }

    method AddRelation(relation: Relation) returns (result: AddResult)
      requires Valid()
      modifies this
      ensures Valid() && Evolves(old(relVec), relVec)
      ensures result.RelationNameCollision? <==> NameIsLive(old(relVec), relation.name)
      ensures result.CatalogIDOverflow? <==> !NameIsLive(old(relVec), relation.name) && |old(relVec)| > CATALOG_MAX_ID
      ensures !result.Added? ==> relVec == old(relVec)
      ensures result.Added? ==>
                result.id == |old(relVec)| && relVec == old(relVec) + [Some(relation.(id := result.id))]
      ensures relVec == Applied(old(relVec), Add(relation))
    {
      var lowerName := ToLower(relation.name);
      NameIsLiveIffMapped(relVec, relMap, relation.name);
      SameNames();
      if HasRelationWithName(lowerName) {
        return RelationNameCollision;
      } else if |relVec| > CATALOG_MAX_ID {
        return CatalogIDOverflow;
      }
      var placed := relation.(id := |relVec|);
      relMap := relMap[lowerName := placed];
      relVec := relVec + [Some(placed)];
      return Added(placed.id);
    }

    method DropRelationByName(relName: string) returns (found: bool)
      requires Valid()
      modifies this
      ensures Valid() && Evolves(old(relVec), relVec)
      ensures found <==> NameIsLive(old(relVec), relName)
      ensures !found ==> relVec == old(relVec)
      ensures found ==> exists i :: HoldsName(old(relVec), i, relName) && relVec == old(relVec)[i := None]
      ensures relVec == Applied(old(relVec), DropByName(relName))
    {
      NameIsLiveIffMapped(relVec, relMap, relName);
      SameNames();
      var lowerName := ToLower(relName);
      if lowerName !in relMap {
        return false;
      }
      var id := relMap[lowerName].id;
      Dropping(relVec, relMap, id);
      relVec := relVec[id := None];
      relMap := relMap - {lowerName};
      return true;
    }

    method DropRelationById(id: int) returns (found: bool)
      requires Valid()
      modifies this
      ensures Valid() && Evolves(old(relVec), relVec)
      ensures found <==> 0 <= id < |old(relVec)| && old(relVec)[id].Some?
      ensures relVec == if found then old(relVec)[id := None] else old(relVec)
      ensures relVec == Applied(old(relVec), DropById(id))
    {
      if !HasRelationWithId(id) {
        return false;
      }
      Dropping(relVec, relMap, id);
      relMap := relMap - {ToLower(relVec[id].value.name)};
      relVec := relVec[id := None];
      return true;
    }

    predicate HasRelationWithId(id: int)
      reads this
    {
      0 <= id < |relVec| && relVec[id].Some?
    }

    predicate HasRelationWithName(relName: string)
      reads this
    {
      ToLower(relName) in relMap
    }

    /** Lookup by name, in any case, finds the live relation of that name. */
    method GetRelationByName(relName: string) returns (relation: Option<Relation>)
      requires Valid()
      ensures relation.Some? <==> NameIsLive(relVec, relName)
      ensures relation.Some? ==>
                && HasRelationWithId(relation.value.id) && relVec[relation.value.id] == relation
                && SameUpToCase(relation.value.name, relName)
    {
      NameIsLiveIffMapped(relVec, relMap, relName);
      SameNames();
      return if ToLower(relName) in relMap then Some(relMap[ToLower(relName)]) else None;
    }

    method Size() returns (n: nat)
      requires Valid()
      ensures n == |LiveIds(relVec)|
    {
      NamesCountSlots(relVec, relMap);
      return |relMap|;
    }

    method GetProto() returns (proto: Proto)
      ensures proto == Proto(name, Live(relVec), Holes(relVec))
    {
      var relations, nullRelations := [], [];
      for i := 0 to |relVec|
        invariant relations == Live(relVec[..i]) && nullRelations == Holes(relVec[..i])
      {
        TakeOneMore(relVec, i);
        match relVec[i] {
          case None => nullRelations := nullRelations + [i];
          case Some(relation) => relations := relations + [relation];
        }
      }
      assert relVec[..|relVec|] == relVec;
      return Proto(name, relations, nullRelations);
    }

    /** Rebuilding from the serialized form of any valid database gives back its
        slots: holes stay holes and every relation keeps its id. */
    constructor FromProto(proto: Proto, ghost slots: Slots)
      requires IdsAreSlots(slots) && NamesDiffer(slots) && |slots| <= CATALOG_MAX_ID + 1
      requires proto == Proto(proto.name, Live(slots), Holes(slots))
      ensures Valid() && name == proto.name && relVec == slots
    {
      name := proto.name;
      relVec, relMap := [], map[];
      new;
      LengthsAddUp(slots);
      var nullIndex := 0;
      for i := 0 to |proto.nullRelations| + |proto.relations|
        invariant Valid() && relVec == slots[..i] && nullIndex == |Holes(slots[..i])|
      {
        nullIndex := RestoreSlot(proto, i, nullIndex, slots);
      }
      assert slots[..|slots|] == slots;
    }

    /** One turn of the rebuilding loop. */
    method RestoreSlot(proto: Proto, i: nat, nullIndex: nat, ghost slots: Slots) returns (newNullIndex: nat)
      requires IdsAreSlots(slots) && NamesDiffer(slots) && i < |slots| <= CATALOG_MAX_ID + 1
      requires proto.relations == Live(slots) && proto.nullRelations == Holes(slots)
      requires Valid() && relVec == slots[..i] && nullIndex == |Holes(slots[..i])|
      modifies this
      ensures Valid() && relVec == slots[..i + 1] && newNullIndex == |Holes(slots[..i + 1])|
    {
      NextSlot(slots, i, nullIndex);
      assert slots[..i + 1] == slots[..i] + [slots[i]];
      if nullIndex < |proto.nullRelations| && i == proto.nullRelations[nullIndex] {
        AppendHole();
        return nullIndex + 1;
      } else {
        var result := AddRelation(proto.relations[i - nullIndex]);
        return nullIndex;
      }
    }

    method AppendHole()
      requires Valid() && |relVec| <= CATALOG_MAX_ID
      modifies this`relVec
      ensures Valid() && relVec == old(relVec) + [None]
    {
      relVec := relVec + [None];
    }
  }

  lemma NameIsLiveIffMapped(slots: Slots, names: map<string, Relation>, name: string)
    requires Agree(slots, names)
    ensures NameIsLive(slots, name) <==> ToLower(name) in names
    ensures ToLower(ToLower(name)) == ToLower(name)
  {
    ToLowerTwice(name);
    SameNames();
    if ToLower(name) in names {
      assert HoldsName(slots, names[ToLower(name)].id, name);
    }
  }

  /** A live relation is found under its own name and no other. */
  lemma Dropping(slots: Slots, names: map<string, Relation>, id: int)
    requires IdsAreSlots(slots) && NamesDiffer(slots) && Agree(slots, names)
    requires 0 <= id < |slots| && slots[id].Some?
    ensures Agree(slots[id := None], names - {ToLower(slots[id].value.name)})
  {
    SameNames();
    var key := ToLower(slots[id].value.name);
    var fewer, emptied := names - {key}, slots[id := None];
    forall n | n in fewer ensures names[n].id != id {
      assert ToLower(names[n].name) == n;
    }
  }

  /** The rebuilding loop tells holes from relations, and a relation's name is
      not in use yet. */
  lemma NextSlot(slots: Slots, i: nat, nullIndex: nat)
    requires IdsAreSlots(slots) && NamesDiffer(slots) && i < |slots| && nullIndex == |Holes(slots[..i])|
    ensures slots[i].None? <==> nullIndex < |Holes(slots)| && i == Holes(slots)[nullIndex]
    ensures |Holes(slots[..i + 1])| == nullIndex + if slots[i].None? then 1 else 0
    ensures slots[i].Some? ==>
              && nullIndex <= i && i - nullIndex < |Live(slots)| && Live(slots)[i - nullIndex] == slots[i].value
              && slots[i].value.id == i && !NameIsLive(slots[..i], slots[i].value.name)
  {
    SlotInProto(slots, i);
    TakeOneMore(slots, i);
    if slots[i].Some? {
      NotYetLive(slots, i);
    }
  }

  lemma NotYetLive(slots: Slots, i: nat)
    requires NamesDiffer(slots) && i < |slots| && slots[i].Some?
    ensures !NameIsLive(slots[..i], slots[i].value.name)
  {
  }

  /** Any run of adds and drops on an empty database, with failures in between. */
  method RunOperations(name: string, ops: seq<Operation>) returns (db: CatalogDatabase)
    ensures fresh(db) && db.Valid() && db.name == name && db.relVec == SlotsAfter(ops, |ops|)
  {
    db := new CatalogDatabase(name);
    for n := 0 to |ops|
      invariant fresh(db) && db.Valid() && db.name == name
      invariant db.relVec == SlotsAfter(ops, n)
    {
      match ops[n] {
        case Add(relation) =>
          var _ := db.AddRelation(relation);
        case DropByName(relName) =>
          var _ := db.DropRelationByName(relName);
        case DropById(id) =>
          var _ := db.DropRelationById(id);
      }
    }
  }
}
