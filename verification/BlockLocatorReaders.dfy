/** Foreman threads that ask the block locator for a block's Shiftboss while messages
    are being handled. A lookup takes two locks one after the other: it reads the
    domains of the block under the first and their Shiftboss indexes under the second,
    and any messages may come in between. */
module BlockLocatorReaders {

  import opened Wrappers
  import opened BlockLocator

  datatype Reader =
    | Idle
    | HasDomains(block: BlockId, domains: set<Domain>)
    | Answered(block: BlockId, domains: set<Domain>, answer: Option<nat>)

  type ReaderId = nat

  datatype System = System(locator: View, readers: map<ReaderId, Reader>)

  datatype Event =
    | Deliver(message: Message)
    | ReadDomains(reader: ReaderId, block: BlockId)
    | ReadIndex(reader: ReaderId)

  function DomainsOf(v: View, block: BlockId): set<Domain> {
    set p | p in v.held && p.0 == block :: p.1
  }

  /** The first domain found with an entry gives the answer; which one is first
      depends on the hash table. */
  ghost predicate MayAnswer(v: View, domains: set<Domain>, answer: Option<nat>) {
    match answer
    case None => forall d | d in domains :: d !in v.shiftboss
    case Some(index) => exists d | d in domains :: d in v.shiftboss && v.shiftboss[d] == index
  }

  ghost predicate Step(s: System, e: Event, t: System) {
    match e
    case Deliver(message) => t == s.(locator := Next(s.locator, message))
    case ReadDomains(reader, block) =>
      && block != INVALID_BLOCK_ID
      && t == s.(readers := s.readers[reader := HasDomains(block, DomainsOf(s.locator, block))])
    case ReadIndex(reader) =>
      && reader in s.readers && s.readers[reader].HasDomains?
      && t.locator == s.locator
      && reader in t.readers && t.readers[reader].Answered?
      && MayAnswer(s.locator, s.readers[reader].domains, t.readers[reader].answer)
      && t.readers == s.readers[reader := Answered(s.readers[reader].block, s.readers[reader].domains, t.readers[reader].answer)]
  }

  /** Every interleaving of messages and lookups from the start. */
  ghost predicate Execution(states: seq<System>, events: seq<Event>) {
    && |states| == |events| + 1
    && states[0] == System(INITIAL, map[])
    && forall i | 0 <= i < |events| :: Step(states[i], events[i], states[i + 1])
  }

  /** Once recorded, a Shiftboss index stays, unregistration or not. */
  lemma {:induction false} ShiftbossIsPermanent(states: seq<System>, events: seq<Event>, i: nat, j: nat, d: Domain)
    requires Execution(states, events) && i <= j < |states|
    requires d in states[i].locator.shiftboss
    ensures d in states[j].locator.shiftboss && states[j].locator.shiftboss[d] == states[i].locator.shiftboss[d]
  {
    if i < j {
      ShiftbossIsPermanent(states, events, i, j - 1, d);
      assert Step(states[j - 1], events[j - 1], states[j - 1 + 1]);
    }
  }

  predicate Asks(e: Event, reader: ReaderId) {
    e.ReadDomains? && e.reader == reader
  }

  /** Step `i` began the lookup that this reader is in, or was last in, at state
      `j`: it asked for this block, and has not asked again since. The domains
      it holds are those of the block at that step. */
  ghost predicate ReadAt(states: seq<System>, events: seq<Event>, i: nat, j: nat,
                         reader: ReaderId, block: BlockId, domains: set<Domain>) {
    && i < j <= |events| < |states|
    && events[i] == ReadDomains(reader, block)
    && domains == DomainsOf(states[i].locator, block)
    && forall m | i < m < j :: !Asks(events[m], reader)
  }

  /** The step at which a reader got its answer from the second lock. */
  ghost predicate AnsweredAt(states: seq<System>, events: seq<Event>, i: nat, reader: ReaderId, domains: set<Domain>, answer: Option<nat>) {
    && i < |events| < |states|
    && events[i] == ReadIndex(reader)
    && MayAnswer(states[i].locator, domains, answer)
  }

  lemma {:induction false} ReaderHistory(states: seq<System>, events: seq<Event>, j: nat, reader: ReaderId)
    requires Execution(states, events) && j < |states| && reader in states[j].readers
    ensures var r := states[j].readers[reader];
            && !r.Idle?
            && (r.HasDomains? ==> exists i | 0 <= i < j :: ReadAt(states, events, i, j, reader, r.block, r.domains))
            && (r.Answered? ==> exists i, k | 0 <= i < k < j ::
                  && ReadAt(states, events, i, j, reader, r.block, r.domains)
                  && AnsweredAt(states, events, k, reader, r.domains, r.answer))
    decreases j
  {
    if j > 0 {
      var s, e, t := states[j - 1], events[j - 1], states[j];
      assert Step(s, e, states[j - 1 + 1]);
      var r := t.readers[reader];
      if Asks(e, reader) {
        assert ReadAt(states, events, j - 1, j, reader, r.block, r.domains);
      } else {
        ReaderHistory(states, events, j - 1, reader);
        var i :| 0 <= i < j - 1 && ReadAt(states, events, i, j - 1, reader, r.block, r.domains)
                 && (r == s.readers[reader] && r.Answered? ==>
                       exists k | i < k < j - 1 :: AnsweredAt(states, events, k, reader, r.domains, r.answer));
        assert ReadAt(states, events, i, j, reader, r.block, r.domains);
        if e == ReadIndex(reader) {
          assert AnsweredAt(states, events, j - 1, reader, r.domains, r.answer);
        }
      }
    }
  }

  /** In every interleaving, a Shiftboss index that a lookup returns belongs to a
      domain that held the block when this very lookup read its domains, and is
      that domain's index from then on for good. */
  lemma AnswerIsPermanentShiftboss(states: seq<System>, events: seq<Event>, j: nat, reader: ReaderId)
    requires Execution(states, events) && j < |states| && reader in states[j].readers
    requires states[j].readers[reader].Answered? && states[j].readers[reader].answer.Some?
    ensures var r := states[j].readers[reader];
            exists i: nat, d | i < j && i < |events| ::
              && events[i] == ReadDomains(reader, r.block)
              && (forall m | i < m < j :: !Asks(events[m], reader))
              && (r.block, d) in states[i].locator.held
              && forall k | j <= k < |states| ::
                   d in states[k].locator.shiftboss && states[k].locator.shiftboss[d] == r.answer.value
  {
    var r := states[j].readers[reader];
    ReaderHistory(states, events, j, reader);
    var i, m :| 0 <= i < m < j && ReadAt(states, events, i, j, reader, r.block, r.domains)
                && AnsweredAt(states, events, m, reader, r.domains, r.answer);
    var d :| d in r.domains && d in states[m].locator.shiftboss && states[m].locator.shiftboss[d] == r.answer.value;
    assert (r.block, d) in states[i].locator.held;
    forall k | j <= k < |states|
      ensures d in states[k].locator.shiftboss && states[k].locator.shiftboss[d] == r.answer.value
    {
      ShiftbossIsPermanent(states, events, m, k, d);
    }
  }

  /** In every interleaving, if a lookup finds nothing, then none of the domains that
      held the block when it read them had an index when it read the indexes. */
  lemma NoAnswerMeansNone(states: seq<System>, events: seq<Event>, j: nat, reader: ReaderId)
    requires Execution(states, events) && j < |states| && reader in states[j].readers
    requires states[j].readers[reader].Answered? && states[j].readers[reader].answer.None?
    ensures var r := states[j].readers[reader];
            exists i: nat, m: nat | i < m < j && m < |events| ::
              && events[i] == ReadDomains(reader, r.block) && events[m] == ReadIndex(reader)
              && (forall k | i < k < j :: !Asks(events[k], reader))
              && forall d | (r.block, d) in states[i].locator.held :: d !in states[m].locator.shiftboss
  {
    var r := states[j].readers[reader];
    ReaderHistory(states, events, j, reader);
    var i, m :| 0 <= i < m < j && ReadAt(states, events, i, j, reader, r.block, r.domains)
                && AnsweredAt(states, events, m, reader, r.domains, r.answer);
    forall d | (r.block, d) in states[i].locator.held ensures d !in states[m].locator.shiftboss {
      assert d in r.domains;
    }
  }
}
