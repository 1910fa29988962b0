/** The hand-off of network requests: gRPC threads queue them, the Quickstep thread
    takes and answers them, and shutting down cancels those still queued. The threads
    interleave at the points where each takes a lock. */
module RequestHandOff {

  type Request = nat
  type KillId = nat

  /** The fields of a request's state that tell its producer how it ended. */
  datatype Flags = Flags(responseReady: bool, canceled: bool)

  /** Where a thread in the shutdown procedure stands: about to test the queue,
      about to take from it, holding a request to cancel, or done. */
  datatype Killer = Testing | Popping | Holding(request: Request) | Returned

  datatype System = System(
    running: bool,
    queue: seq<Request>,
    flags: map<Request, Flags>,
    accepted: set<Request>,
    handles: set<Request>,  // taken by the Quickstep thread and not yet answered
    killers: map<KillId, Killer>)

  const INITIAL := System(true, [], map[], {}, {}, map[])

  datatype Event =
    | Send(request: Request)
    | Take
    | Respond(request: Request)
    | KillStart(kill: KillId)
    | KillTest(kill: KillId)
    | KillPop(kill: KillId)
    | KillCancel(kill: KillId)

  predicate Ready(s: System, r: Request) {
    r in s.flags && s.flags[r].responseReady
  }

  /** One step. Taking from an empty queue blocks, so it is no step; that requests
      in service or held have flags is no restriction, as Inv shows. */
  ghost predicate Step(s: System, e: Event, t: System) {
    match e
    case Send(r) =>
      && r !in s.flags
      && var created := s.flags[r := Flags(false, false)];
         if s.running then t == s.(flags := created, accepted := s.accepted + {r}, queue := s.queue + [r])
         else t == s.(flags := created)
    case Take =>
      && s.queue != []
      && t == s.(queue := s.queue[1..], handles := s.handles + {s.queue[0]})
    case Respond(r) =>
      && r in s.handles && r in s.flags
      && t == s.(handles := s.handles - {r}, flags := s.flags[r := s.flags[r].(responseReady := true)])
    case KillStart(k) =>
      && k !in s.killers
      && t == s.(running := false, killers := s.killers[k := Testing])
    case KillTest(k) =>
      && k in s.killers && s.killers[k].Testing?
      && t == s.(killers := s.killers[k := if s.queue == [] then Returned else Popping])
    case KillPop(k) =>
      && k in s.killers && s.killers[k].Popping? && s.queue != []
      && t == s.(queue := s.queue[1..], killers := s.killers[k := Holding(s.queue[0])])
    case KillCancel(k) =>
      && k in s.killers && s.killers[k].Holding? && s.killers[k].request in s.flags
      && t == s.(killers := s.killers[k := Testing],
                 flags := s.flags[s.killers[k].request := Flags(true, true)])
  }

  /** Every interleaving of producers, the Quickstep thread and shutdowns. */
  ghost predicate Execution(states: seq<System>, events: seq<Event>) {
    && |states| == |events| + 1
    && states[0] == INITIAL
    && forall i | 0 <= i < |events| :: Step(states[i], events[i], states[i + 1])
  }

  ghost predicate HeldToCancel(s: System, r: Request) {
    exists k | k in s.killers :: s.killers[k] == Holding(r)
  }

  /** The places a request can be in. */
  datatype Place = Queued | InService | BeingCanceled | Answered | Canceled

  ghost predicate At(s: System, r: Request, place: Place) {
    match place
    case Queued => r in s.queue
    case InService => r in s.handles
    case BeingCanceled => HeldToCancel(s, r)
    case Answered => Ready(s, r) && !s.flags[r].canceled
    case Canceled => Ready(s, r) && s.flags[r].canceled
  }

  ghost predicate Inv(s: System) {
    && (forall i, j | 0 <= i < j < |s.queue| :: s.queue[i] != s.queue[j])
    && (forall r | r in s.queue :: r in s.accepted && r !in s.handles && !Ready(s, r))
    && (forall r | r in s.handles :: r in s.accepted && !Ready(s, r))
    && (forall k | k in s.killers && s.killers[k].Holding? ::
          var r := s.killers[k].request; r in s.accepted && r !in s.queue && r !in s.handles && !Ready(s, r))
    && (forall k, l | k in s.killers && l in s.killers && s.killers[k].Holding? && s.killers[l] == s.killers[k] :: k == l)
    && (forall r | r in s.accepted ::
          r in s.flags && (Ready(s, r) || r in s.queue || r in s.handles || HeldToCancel(s, r)))
    && (forall r | Ready(s, r) :: r in s.accepted)
    && (s.killers != map[] ==> !s.running)
    && (forall k | k in s.killers && s.killers[k].Returned? :: s.queue == [])
  }

  lemma StepKeepsInv(s: System, e: Event, t: System)
    requires Inv(s) && Step(s, e, t)
    ensures Inv(t)
  {
    match e
    case Send(r) => SendKeepsInv(s, e, t);
    case Take => TakeKeepsInv(s, e, t);
    case Respond(r) => RespondKeepsInv(s, e, t);
    case KillStart(k) => HeldStays(s, e, t);
    case KillTest(k) => HeldStays(s, e, t);
    case KillPop(k) => KillPopKeepsInv(s, e, t);
    case KillCancel(k) => KillCancelKeepsInv(s, e, t);
  }

  lemma SendKeepsInv(s: System, e: Event, t: System)
    requires Inv(s) && e.Send? && Step(s, e, t)
    ensures Inv(t)
  {
    HeldStays(s, e, t);
    assert forall r :: r in t.queue ==> r in s.queue || r == e.request;
  }

  lemma TakeKeepsInv(s: System, e: Event, t: System)
    requires Inv(s) && e.Take? && Step(s, e, t)
    ensures Inv(t)
  {
    HeldStays(s, e, t);
    SplitQueue(s);
  }

  lemma RespondKeepsInv(s: System, e: Event, t: System)
    requires Inv(s) && e.Respond? && Step(s, e, t)
    ensures Inv(t)
  {
    HeldStays(s, e, t);
  }

  lemma KillPopKeepsInv(s: System, e: Event, t: System)
    requires Inv(s) && e.KillPop? && Step(s, e, t)
    ensures Inv(t)
  {
    HeldStays(s, e, t);
    SplitQueue(s);
    assert HeldToCancel(t, s.queue[0]) by { assert t.killers[e.kill] == Holding(s.queue[0]); }
  }

  lemma KillCancelKeepsInv(s: System, e: Event, t: System)
    requires Inv(s) && e.KillCancel? && Step(s, e, t)
    ensures Inv(t)
  {
    HeldStays(s, e, t);
  }

  lemma SplitQueue(s: System)
    requires Inv(s) && s.queue != []
    ensures s.queue[0] !in s.queue[1..]
    ensures forall r :: r in s.queue <==> r == s.queue[0] || r in s.queue[1..]
  {
    assert s.queue == [s.queue[0]] + s.queue[1..];
  }

  /** A request that is being canceled stays so until it is canceled. */
  lemma HeldStays(s: System, e: Event, t: System)
    requires Step(s, e, t)
    ensures forall r | HeldToCancel(s, r) :: HeldToCancel(t, r) || (e.KillCancel? && s.killers[e.kill] == Holding(r))
  {
    forall r | HeldToCancel(s, r)
      ensures HeldToCancel(t, r) || (e.KillCancel? && s.killers[e.kill] == Holding(r))
    {
      var k :| k in s.killers && s.killers[k] == Holding(r);
      if !(e.KillCancel? && e.kill == k) {
        assert k in t.killers && t.killers[k] == Holding(r);
      }
    }
  }

  lemma {:induction false} AlwaysInv(states: seq<System>, events: seq<Event>, i: nat)
    requires Execution(states, events) && i < |states|
    ensures Inv(states[i])
  {
    if i > 0 {
      AlwaysInv(states, events, i - 1);
      StepKeepsInv(states[i - 1], events[i - 1], states[i - 1 + 1]);
    }
  }

  /** At every moment an accepted request is in exactly one place, and a request
      that was turned away is in none. */
  lemma InExactlyOnePlace(states: seq<System>, events: seq<Event>, i: nat, r: Request)
    requires Execution(states, events) && i < |states|
    ensures r in states[i].accepted <==> exists p :: At(states[i], r, p)
    ensures forall p, q | At(states[i], r, p) && At(states[i], r, q) :: p == q
  {
    AlwaysInv(states, events, i);
    var s := states[i];
    if r in s.accepted {
      assert At(s, r, Queued) || At(s, r, InService) || At(s, r, BeingCanceled) || At(s, r, Answered) || At(s, r, Canceled);
    }
  }

  // ---------- Completion ----------

  /** The step completes the request, with an answer or by canceling it. */
  predicate Completes(s: System, e: Event, r: Request) {
    match e
    case Respond(x) => x == r
    case KillCancel(k) => k in s.killers && s.killers[k] == Holding(r)
    case _ => false
  }

  /** Flags once set stay as they are: the producer reads the same outcome
      whenever it looks. */
  lemma ReadyStays(s: System, e: Event, t: System, r: Request)
    requires Inv(s) && Step(s, e, t)
    ensures Ready(s, r) ==> Ready(t, r) && t.flags[r] == s.flags[r] && !Completes(s, e, r)
    ensures !Ready(s, r) ==> (Ready(t, r) <==> Completes(s, e, r))
    ensures Completes(s, e, r) ==> (t.flags[r].canceled <==> e.KillCancel? || (r in s.flags && s.flags[r].canceled))
  {
  }

  lemma {:induction false} OutcomeIsFinal(states: seq<System>, events: seq<Event>, i: nat, j: nat, r: Request)
    requires Execution(states, events) && i <= j < |states| && Ready(states[i], r)
    ensures Ready(states[j], r) && states[j].flags[r] == states[i].flags[r]
  {
    if i < j {
      OutcomeIsFinal(states, events, i, j - 1, r);
      AlwaysInv(states, events, j - 1);
      assert Step(states[j - 1], events[j - 1], states[j - 1 + 1]);
      ReadyStays(states[j - 1], events[j - 1], states[j], r);
    }
  }

  /** No request is completed twice. */
  lemma CompletedAtMostOnce(states: seq<System>, events: seq<Event>, i: nat, j: nat, r: Request)
    requires Execution(states, events) && i < |events| && j < |events|
    requires Completes(states[i], events[i], r) && Completes(states[j], events[j], r)
    ensures i == j
  {
    if i != j {
      var first, second := if i < j then i else j, if i < j then j else i;
      AlwaysInv(states, events, first);
      AlwaysInv(states, events, second);
      assert Step(states[first], events[first], states[first + 1]);
      assert Step(states[second], events[second], states[second + 1]);
      ReadyStays(states[first], events[first], states[first + 1], r);
      OutcomeIsFinal(states, events, first + 1, second, r);
    }
  }

  /** Some step before state `j` answered the request; some step canceled it. */
  ghost predicate WasAnswered(events: seq<Event>, j: nat, r: Request) {
    exists i | 0 <= i < j && i < |events| :: events[i] == Respond(r)
  }

  ghost predicate WasCanceled(states: seq<System>, events: seq<Event>, j: nat, r: Request) {
    exists i | 0 <= i < j && i < |events| && i < |states| :: events[i].KillCancel? && Completes(states[i], events[i], r)
  }

  predicate NotYetCanceled(s: System, r: Request) {
    r in s.flags && !s.flags[r].responseReady ==> !s.flags[r].canceled
  }

  lemma OutcomeOfStep(s: System, e: Event, t: System, r: Request)
    requires Inv(s) && Step(s, e, t) && NotYetCanceled(s, r)
    ensures NotYetCanceled(t, r)
    ensures At(t, r, Answered) <==> At(s, r, Answered) || e == Respond(r)
    ensures At(t, r, Canceled) <==> At(s, r, Canceled) || (e.KillCancel? && Completes(s, e, r))
  {
    ReadyStays(s, e, t, r);
  }

  /** The producer reads "answered" exactly if the Quickstep thread answered the
      request, and "canceled" exactly if a shutdown canceled it. */
  lemma {:induction false} OutcomeIsWhatHappened(states: seq<System>, events: seq<Event>, j: nat, r: Request)
    requires Execution(states, events) && j < |states|
    ensures At(states[j], r, Answered) <==> WasAnswered(events, j, r)
    ensures At(states[j], r, Canceled) <==> WasCanceled(states, events, j, r)
    ensures NotYetCanceled(states[j], r)
  {
    if j > 0 {
      OutcomeIsWhatHappened(states, events, j - 1, r);
      AlwaysInv(states, events, j - 1);
      assert Step(states[j - 1], events[j - 1], states[j - 1 + 1]);
      OutcomeOfStep(states[j - 1], events[j - 1], states[j], r);
    }
  }

  // ---------- Order ----------

  /** The requests accepted, and the requests taken off the queue by either side,
      in the first `i` steps. */
  ghost function AcceptedOrder(states: seq<System>, events: seq<Event>, i: nat): seq<Request>
    requires i <= |events| < |states|
  {
    if i == 0 then []
    else
      AcceptedOrder(states, events, i - 1)
      + (if events[i - 1].Send? && states[i - 1].running then [events[i - 1].request] else [])
  }

  ghost function TakenOrder(states: seq<System>, events: seq<Event>, i: nat): seq<Request>
    requires i <= |events| < |states|
  {
    if i == 0 then []
    else
      TakenOrder(states, events, i - 1)
      + (if (events[i - 1].Take? || events[i - 1].KillPop?) && states[i - 1].queue != [] then [states[i - 1].queue[0]] else [])
  }

  /** First come, first out, and nothing is lost: the requests taken, followed by
      those still queued, are the requests accepted, in that order. */
  lemma {:induction false} FirstComeFirstOut(states: seq<System>, events: seq<Event>, i: nat)
    requires Execution(states, events) && i <= |events|
    ensures TakenOrder(states, events, i) + states[i].queue == AcceptedOrder(states, events, i)
  {
    if i > 0 {
      FirstComeFirstOut(states, events, i - 1);
      var s, e, t := states[i - 1], events[i - 1], states[i];
      assert Step(s, e, states[i - 1 + 1]);
      var taken := TakenOrder(states, events, i - 1);
      if e.Take? || e.KillPop? {
        TakeFront(taken, s.queue);
        assert AcceptedOrder(states, events, i) == AcceptedOrder(states, events, i - 1);
      } else if e.Send? && s.running {
        assert taken + (s.queue + [e.request]) == taken + s.queue + [e.request];
        assert TakenOrder(states, events, i) == taken;
      } else {
        assert TakenOrder(states, events, i) == taken && t.queue == s.queue;
        assert AcceptedOrder(states, events, i) == AcceptedOrder(states, events, i - 1);
      }
    }
  }

  lemma TakeFront(taken: seq<Request>, queue: seq<Request>)
    requires queue != []
    ensures taken + [queue[0]] + queue[1..] == taken + queue
  {
  }

  // ---------- Shutdown ----------

  /** Once the service has stopped, nothing enters the queue: what is queued later
      is the tail of what was queued then, in the same order. */
  lemma {:induction false} StoppedQueueOnlyDrains(states: seq<System>, events: seq<Event>, i: nat, j: nat) returns (taken: nat)
    requires Execution(states, events) && i <= j < |states| && !states[i].running
    ensures !states[j].running && states[j].accepted == states[i].accepted
    ensures taken <= |states[i].queue| && states[j].queue == states[i].queue[taken..]
  {
    if i == j {
      taken := 0;
    } else {
      var before := StoppedQueueOnlyDrains(states, events, i, j - 1);
      var s, e := states[j - 1], events[j - 1];
      assert Step(s, e, states[j - 1 + 1]);
      taken := if e.Take? || e.KillPop? then before + 1 else before;
    }
  }

  /** When a shutdown has returned, the queue is empty and stays so. */
  lemma QueueEmptyAfterKill(states: seq<System>, events: seq<Event>, i: nat, j: nat, k: KillId)
    requires Execution(states, events) && i <= j < |states|
    requires k in states[i].killers && states[i].killers[k].Returned?
    ensures states[j].queue == [] && !states[j].running
  {
    AlwaysInv(states, events, i);
    assert states[i].killers != map[];
    var taken := StoppedQueueOnlyDrains(states, events, i, j);
  }
}
