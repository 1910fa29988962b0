/** The cache of relation schemas that each worker node keeps. An update takes the
    lock twice: it looks under a shared lock for the relations it lacks, and installs
    those under an exclusive lock. Other updates and drops may come in between. */
module CatalogDatabaseCache {

  type RelationId = int

  datatype RelationProto = RelationProto(id: RelationId, schema: string)

  type Schemas = map<RelationId, string>

  /** The positions in the message of relations that the cache lacks. */
  function Missing(cache: Schemas, protos: seq<RelationProto>): seq<nat> {
    if protos == [] then []
    else
      var n := |protos| - 1;
      Missing(cache, protos[..n]) + if protos[n].id in cache then [] else [n]
  }

  /** Installing never replaces a schema that is there already. */
  function Installed(cache: Schemas, protos: seq<RelationProto>, indices: seq<nat>): Schemas
    requires forall k | 0 <= k < |indices| :: indices[k] < |protos|
  {
    if indices == [] then cache
    else
      var n := |indices| - 1;
      var before := Installed(cache, protos, indices[..n]);
      var proto := protos[indices[n]];
      if proto.id in before then before else before[proto.id := proto.schema]
  }

  lemma {:induction false} MissingAreIndices(cache: Schemas, protos: seq<RelationProto>)
    ensures forall k | 0 <= k < |Missing(cache, protos)| ::
              Missing(cache, protos)[k] < |protos| && protos[Missing(cache, protos)[k]].id !in cache
    ensures forall i | 0 <= i < |protos| && protos[i].id !in cache :: i in Missing(cache, protos)
  {
    if protos != [] {
      var n := |protos| - 1;
      MissingAreIndices(cache, protos[..n]);
      forall k | 0 <= k < |Missing(cache, protos)|
        ensures Missing(cache, protos)[k] < |protos| && protos[Missing(cache, protos)[k]].id !in cache
      {
        if k < |Missing(cache, protos[..n])| {
          assert protos[..n][Missing(cache, protos[..n])[k]].id !in cache;
        }
      }
      forall i | 0 <= i < |protos| && protos[i].id !in cache ensures i in Missing(cache, protos) {
        if i < n {
          assert protos[..n][i] == protos[i];
        }
      }
    }
  }

  lemma {:induction false} InstallingAdds(cache: Schemas, protos: seq<RelationProto>, indices: seq<nat>)
    requires forall k | 0 <= k < |indices| :: indices[k] < |protos|
    ensures forall id | id in cache :: id in Installed(cache, protos, indices) && Installed(cache, protos, indices)[id] == cache[id]
    ensures forall k | 0 <= k < |indices| :: protos[indices[k]].id in Installed(cache, protos, indices)
    ensures forall id | id in Installed(cache, protos, indices) ::
              id in cache || exists k | 0 <= k < |indices| :: protos[indices[k]].id == id
  {
    if indices != [] {
      InstallingAdds(cache, protos, indices[..|indices| - 1]);
    }
  }

  /** Relation `n` of the message is the first with this id. */
  predicate IsFirst(protos: seq<RelationProto>, n: nat, id: RelationId) {
    n < |protos| && protos[n].id == id && forall m | 0 <= m < n :: protos[m].id != id
  }

  /** The same among the collected positions. */
  predicate IsFirstCollected(protos: seq<RelationProto>, indices: seq<nat>, k: nat, id: RelationId)
    requires forall k | 0 <= k < |indices| :: indices[k] < |protos|
  {
    k < |indices| && protos[indices[k]].id == id && forall j | 0 <= j < k :: protos[indices[j]].id != id
  }

  /** A schema that was not there comes from the first collected relation with its
      id, and from that relation's own entry in the message. */
  lemma {:induction false} InstalledIsFirst(cache: Schemas, protos: seq<RelationProto>, indices: seq<nat>, id: RelationId)
      returns (k: nat)
    requires forall k | 0 <= k < |indices| :: indices[k] < |protos|
    requires id in Installed(cache, protos, indices) && id !in cache
    ensures IsFirstCollected(protos, indices, k, id)
    ensures protos[indices[k]] == RelationProto(id, Installed(cache, protos, indices)[id])
  {
    var n := |indices| - 1;
    var before := indices[..n];
    if id in Installed(cache, protos, before) {
      k := InstalledIsFirst(cache, protos, before, id);
      assert forall j | 0 <= j <= k :: before[j] == indices[j];
    } else {
      k := n;
      InstallingAdds(cache, protos, before);
      assert forall j | 0 <= j < n :: before[j] == indices[j];
    }
  }

  lemma {:induction false} MissingAscend(cache: Schemas, protos: seq<RelationProto>)
    ensures forall i, j | 0 <= i < j < |Missing(cache, protos)| :: Missing(cache, protos)[i] < Missing(cache, protos)[j]
  {
    if protos != [] {
      var n := |protos| - 1;
      MissingAscend(cache, protos[..n]);
      MissingAreIndices(cache, protos[..n]);
    }
  }

  /** The first collected relation with an id is the first of the whole message. */
  lemma FirstCollectedIsFirst(cache: Schemas, protos: seq<RelationProto>, indices: seq<nat>, k: nat, id: RelationId)
    requires indices == Missing(cache, protos) && forall k | 0 <= k < |indices| :: indices[k] < |protos|
    requires IsFirstCollected(protos, indices, k, id)
    ensures IsFirst(protos, indices[k], id)
  {
    MissingAreIndices(cache, protos);
    MissingAscend(cache, protos);
    forall m | 0 <= m < indices[k] ensures protos[m].id != id {
      if m in indices {
        var j :| 0 <= j < |indices| && indices[j] == m;
        assert j < k;
      }
    }
  }

  class CatalogDatabaseCache {
    var relMap: Schemas

    constructor ()
      ensures relMap == map[]
    {
      relMap := map[];
    }

    /** The part under the shared lock. */
    method CollectMissing(protos: seq<RelationProto>) returns (indices: seq<nat>)
      ensures indices == Missing(relMap, protos)
    {
      indices := [];
      for i := 0 to |protos|
        invariant indices == Missing(relMap, protos[..i])
      {
        assert protos[..i + 1][..i] == protos[..i];
        if protos[i].id !in relMap {
          indices := indices + [i];
        }
      }
      assert protos[..|protos|] == protos;
    }

    /** The part under the exclusive lock. */
    method Install(protos: seq<RelationProto>, indices: seq<nat>)
      requires forall k | 0 <= k < |indices| :: indices[k] < |protos|
      modifies this
      ensures relMap == Installed(old(relMap), protos, indices)
    {
      for k := 0 to |indices|
        invariant relMap == Installed(old(relMap), protos, indices[..k])
      {
        assert indices[..k + 1][..k] == indices[..k];
        var proto := protos[indices[k]];
        if proto.id !in relMap {
          relMap := relMap[proto.id := proto.schema];
        }
      }
      assert indices[..|indices|] == indices;
    }

    method DropRelationById(id: RelationId)
      modifies this
      ensures relMap == old(relMap) - {id}
    {
      if id in relMap {
        relMap := relMap - {id};
      }
    }
  }

  // ---------- Interleavings ----------

  /** An update in progress: its message and what its first part has found. */
  datatype Update = Update(protos: seq<RelationProto>, indices: seq<nat>, done: bool)

  type UpdateId = nat

  datatype System = System(cache: Schemas, updates: map<UpdateId, Update>)

  datatype Event =
    | ReadPhase(update: UpdateId, protos: seq<RelationProto>)
    | WritePhase(update: UpdateId)
    | Drop(id: RelationId)

  ghost predicate Step(s: System, e: Event, t: System) {
    match e
    case ReadPhase(update, protos) =>
      && update !in s.updates
      && t == s.(updates := s.updates[update := Update(protos, Missing(s.cache, protos), false)])
    case WritePhase(update) =>
      && update in s.updates && !s.updates[update].done
      && (forall k | 0 <= k < |s.updates[update].indices| :: s.updates[update].indices[k] < |s.updates[update].protos|)
      && t == System(Installed(s.cache, s.updates[update].protos, s.updates[update].indices),
                     s.updates[update := s.updates[update].(done := true)])
    case Drop(id) => t == s.(cache := s.cache - {id})
  }

  ghost predicate Execution(states: seq<System>, events: seq<Event>) {
    && |states| == |events| + 1
    && states[0] == System(map[], map[])
    && forall i | 0 <= i < |events| :: Step(states[i], events[i], states[i + 1])
  }

  ghost predicate NoDrop(events: seq<Event>, id: RelationId, from: nat, to: nat) {
    forall i | from <= i < to && i < |events| :: events[i] != Drop(id)
  }

  /** Unless it is dropped, an installed schema stays and is never replaced. */
  lemma {:induction false} InstalledStays(states: seq<System>, events: seq<Event>, id: RelationId, i: nat, j: nat)
    requires Execution(states, events) && i <= j < |states| && NoDrop(events, id, i, j)
    requires id in states[i].cache
    ensures id in states[j].cache && states[j].cache[id] == states[i].cache[id]
  {
    if i < j {
      InstalledStays(states, events, id, i, j - 1);
      var s, e := states[j - 1], events[j - 1];
      assert Step(s, e, states[j - 1 + 1]);
      if e.WritePhase? {
        InstallingAdds(s.cache, s.updates[e.update].protos, s.updates[e.update].indices);
      }
    }
  }

  /** An update keeps what it has found until it installs it. */
  ghost predicate ReadAt(states: seq<System>, events: seq<Event>, i: nat, update: UpdateId, u: Update) {
    && i < |events| < |states|
    && events[i] == ReadPhase(update, u.protos)
    && u.indices == Missing(states[i].cache, u.protos)
  }

  lemma {:induction false} UpdateHistory(states: seq<System>, events: seq<Event>, j: nat, update: UpdateId) returns (i: nat)
    requires Execution(states, events) && j < |states| && update in states[j].updates
    ensures i < j && ReadAt(states, events, i, update, states[j].updates[update])
    decreases j
  {
    var s, e := states[j - 1], events[j - 1];
    assert Step(s, e, states[j - 1 + 1]);
    if update in s.updates {
      i := UpdateHistory(states, events, j - 1, update);
    } else {
      i := j - 1;
    }
  }

  /** What the first part has found are positions in the message, so the second
      part can always follow. */
  lemma WritePhaseIsEnabled(states: seq<System>, events: seq<Event>, j: nat, update: UpdateId)
    requires Execution(states, events) && j < |states| && update in states[j].updates
    ensures var u := states[j].updates[update]; forall k | 0 <= k < |u.indices| :: u.indices[k] < |u.protos|
  {
    var i := UpdateHistory(states, events, j, update);
    MissingAreIndices(states[i].cache, states[j].updates[update].protos);
  }

  /** In every interleaving, when an update ends, every relation of its message
      that was not dropped while it ran is in the cache, also if the message
      names a relation twice or another update was faster. What an update can end
      without is exactly a relation that its first part found and that is gone
      when its second part starts. */
  lemma CompletedUpdateIsPresent(states: seq<System>, events: seq<Event>, j: nat, update: UpdateId, n: nat) returns (i: nat)
    requires Execution(states, events) && j < |events| && events[j] == WritePhase(update)
    requires update in states[j].updates && n < |states[j].updates[update].protos|
    ensures i < j && events[i] == ReadPhase(update, states[j].updates[update].protos)
    ensures var id := states[j].updates[update].protos[n].id;
            && (NoDrop(events, id, i, j) ==> id in states[j + 1].cache)
            && (id !in states[j + 1].cache <==> id in states[i].cache && id !in states[j].cache)
  {
    i := UpdateHistory(states, events, j, update);
    var s, u := states[j], states[j].updates[update];
    assert Step(s, events[j], states[j + 1]);
    InstallingAdds(s.cache, u.protos, u.indices);
    var id := u.protos[n].id;
    MissingAreIndices(states[i].cache, u.protos);
    if id in states[i].cache {
      if NoDrop(events, id, i, j) {
        InstalledStays(states, events, id, i, j);
      }
    } else {
      assert n in u.indices;
      var k :| 0 <= k < |u.indices| && u.indices[k] == n;
    }
  }

  /** Step `w` installed the schema of relation `n` of the update's message, the
      first there with this id, in a cache that had none. */
  ghost predicate InstalledAt(states: seq<System>, events: seq<Event>, w: nat, n: nat, id: RelationId, schema: string) {
    && w < |events| < |states| && events[w].WritePhase? && events[w].update in states[w].updates
    && id !in states[w].cache
    && var protos := states[w].updates[events[w].update].protos;
       IsFirst(protos, n, id) && protos[n].schema == schema
  }

  lemma InstalledNow(states: seq<System>, events: seq<Event>, w: nat, id: RelationId) returns (n: nat)
    requires Execution(states, events) && w < |events| && events[w].WritePhase?
    requires id in states[w + 1].cache && id !in states[w].cache
    ensures InstalledAt(states, events, w, n, id, states[w + 1].cache[id])
  {
    var s, update := states[w], events[w].update;
    assert Step(s, events[w], states[w + 1]);
    var u := s.updates[update];
    var k := InstalledIsFirst(s.cache, u.protos, u.indices, id);
    var i := UpdateHistory(states, events, w, update);
    FirstCollectedIsFirst(states[i].cache, u.protos, u.indices, k, id);
    n := u.indices[k];
  }

  /** In every interleaving a cached schema is that of the first relation with its
      id in the message of the update that installed it, and the relation was not
      dropped since. */
  lemma {:induction false} CachedSchemaIsFirst(states: seq<System>, events: seq<Event>, j: nat, id: RelationId)
      returns (w: nat, n: nat)
    requires Execution(states, events) && j < |states| && id in states[j].cache
    ensures w < j && InstalledAt(states, events, w, n, id, states[j].cache[id]) && NoDrop(events, id, w, j)
    decreases j
  {
    var s, e := states[j - 1], events[j - 1];
    assert Step(s, e, states[j - 1 + 1]);
    if id in s.cache {
      w, n := CachedSchemaIsFirst(states, events, j - 1, id);
      if e.WritePhase? {
        InstallingAdds(s.cache, s.updates[e.update].protos, s.updates[e.update].indices);
      }
    } else {
      w := j - 1;
      n := InstalledNow(states, events, w, id);
    }
  }
}
