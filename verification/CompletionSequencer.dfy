/** The completion sequencer: completions are delivered in the order their tickets were reserved, although the
    tickets resolve in any order. Each method is one section under a mutex; any interleaving is a run. */
module CompletionSequencer {
  import opened Wrappers

  /** A ticket waits, is skipped, or holds a completion to deliver. */
  datatype Ticket = Unresolved | Skipped | Sequenced(completion: nat)

  /** A delivery call under way: whether the call has returned and whether the delivery has finished. */
  datatype Continuation = Continuation(deliveryCallReturned: bool, deliveryFinished: bool)

  /** Completions of the first tickets, skipped ones left out. */
  ghost function Completions(tickets: seq<Ticket>): seq<nat>
    decreases |tickets|
  {
    if tickets == [] then [] else
      var last := tickets[|tickets| - 1];
      Completions(tickets[..|tickets| - 1]) + if last.Sequenced? then [last.completion] else []
  }

  /** The first tickets keep their completions when later tickets are added or resolved. */
  lemma CompletionsOfPrefix(tickets: seq<Ticket>, n: nat)
    requires n < |tickets|
    ensures Completions(tickets[..n + 1]) ==
            Completions(tickets[..n]) + if tickets[n].Sequenced? then [tickets[n].completion] else []
  {
    assert tickets[..n + 1][..n] == tickets[..n];
  }

  class CompletionDeliverySequencer {
    /** Every ticket by reservation number; the queue holds the tickets from head on. */
    var tickets: seq<Ticket>
    var head: nat
    var deliveryActive: bool
    /** Threads inside deliverNext that are about to take the mutex, and the delivery calls under way. */
    var looping: nat
    var continuations: seq<Continuation>
    ghost var delivered: seq<nat>

    /** One delivery at a time, begun in reservation order; an idle sequencer has nothing to deliver. */
    ghost predicate Valid()
      reads this
    {
      && head <= |tickets| && (forall t | 0 <= t < head :: !tickets[t].Unresolved?)
      && delivered == Completions(tickets[..head])
      && looping + |continuations| == (if deliveryActive then 1 else 0)
      && (forall c | c in continuations :: !(c.deliveryCallReturned && c.deliveryFinished))
      && (!deliveryActive ==> head == |tickets| || tickets[head].Unresolved?)
    }

    constructor ()
      ensures Valid() && tickets == [] && delivered == []
    {
      tickets, head, deliveryActive, looping, continuations, delivered := [], 0, false, 0, [], [];
    }

    method Reserve() returns (ticket: nat)
      requires Valid()
      modifies this`tickets
      ensures Valid() && ticket == |old(tickets)| && tickets == old(tickets) + [Unresolved]
    {
      ticket := |tickets|;
      tickets := tickets + [Unresolved];
      assert tickets[..head] == old(tickets[..head]);
    }

    /** Resolving, with a completion or without; a ticket resolved before stays as it is. Resolving the head of
        an idle sequencer starts the loop. */
    method Resolve(ticket: nat, resolution: Ticket)
      requires Valid() && ticket < |tickets| && !resolution.Unresolved?
      modifies this`tickets, this`deliveryActive, this`looping
      ensures Valid()
      ensures tickets == if old(tickets)[ticket].Unresolved? then old(tickets)[ticket := resolution] else old(tickets)
      ensures var starts := old(!deliveryActive && ticket == head && tickets[ticket].Unresolved?);
              && deliveryActive == (old(deliveryActive) || starts)
              && looping == old(looping) + if starts then 1 else 0
    {
      if !tickets[ticket].Unresolved? {
        return;
      }
      tickets := tickets[ticket := resolution];
      assert tickets[..head] == old(tickets[..head]);
      if !deliveryActive && head < |tickets| && !tickets[head].Unresolved? {
        deliveryActive := true;
        looping := looping + 1;
      }
    }

    /** The section at the top of the delivery loop: stop at an open head, pass over a skipped ticket, or start
        the delivery of the head. */
    method DeliverNext() returns (started: Option<nat>)
      requires Valid() && looping > 0
      modifies this`head, this`deliveryActive, this`looping, this`continuations, this`delivered
      ensures Valid() && old(continuations) == [] && head == old(head) + (if old(HeadOpen()) then 0 else 1)
      ensures started == if old(HeadOpen()) || tickets[old(head)].Skipped? then None
                         else Some(tickets[old(head)].completion)
      ensures delivered == old(delivered) + if started.Some? then [started.value] else []
      ensures continuations == if started.Some? then [Continuation(false, false)] else []
      ensures deliveryActive == !old(HeadOpen()) && looping == if old(HeadOpen()) || started.Some? then 0 else 1
    {
      if head == |tickets| || tickets[head].Unresolved? {
        deliveryActive := false;
        looping := looping - 1;
        return None;
      }
      var ticket := tickets[head];
      CompletionsOfPrefix(tickets, head);
      head := head + 1;
      if ticket.Skipped? {
        return None;
      }
      looping := looping - 1;
      continuations := [Continuation(false, false)];
      delivered := delivered + [ticket.completion];
      started := Some(ticket.completion);
    }

    /** The delivery finished: whichever of its two ends comes second goes on with the loop. */
    method DeliveryFinished() returns (continueAsynchronously: bool)
      requires Valid() && continuations != [] && !continuations[0].deliveryFinished
      modifies this`continuations, this`looping
      ensures Valid() && continueAsynchronously == old(continuations)[0].deliveryCallReturned
      ensures continuations == if continueAsynchronously then [] else [Continuation(false, true)]
      ensures looping == if continueAsynchronously then 1 else 0
    {
      continueAsynchronously := continuations[0].deliveryCallReturned;
      Second(continuations[0].(deliveryFinished := true), continueAsynchronously);
    }

    method DeliveryCallReturned() returns (continueSynchronously: bool)
      requires Valid() && continuations != [] && !continuations[0].deliveryCallReturned
      modifies this`continuations, this`looping
      ensures Valid() && continueSynchronously == old(continuations)[0].deliveryFinished
      ensures continuations == if continueSynchronously then [] else [Continuation(true, false)]
      ensures looping == if continueSynchronously then 1 else 0
    {
      continueSynchronously := continuations[0].deliveryFinished;
      Second(continuations[0].(deliveryCallReturned := true), continueSynchronously);
    }

    /** The record of a delivery is dropped when both its ends are known, and the loop goes on once. */
    method Second(c: Continuation, goesOn: bool)
      requires |continuations| == 1 && looping == 0 && deliveryActive
      requires goesOn == (c.deliveryCallReturned && c.deliveryFinished)
      modifies this`continuations, this`looping
      ensures continuations == (if goesOn then [] else [c]) && looping == if goesOn then 1 else 0
    {
      continuations, looping := if goesOn then [] else [c], if goesOn then 1 else 0;
    }

    /** The two ends of a delivery, in either order and whatever happens in between: the first does not go on,
        the second does, and the loop is entered once. */
    method TwoEnds(finishedFirst: bool, between: seq<Event>) returns (first: bool, second: bool)
      requires Valid() && continuations == [Continuation(false, false)]
      requires forall e | e in between :: !e.Finishes? && !e.CallReturns?
      modifies this
      ensures Valid() && !first && second && looping == 1 && continuations == []
    {
      if finishedFirst {
        first := DeliveryFinished();
      } else {
        first := DeliveryCallReturned();
      }
      for i := 0 to |between|
        invariant Valid() && continuations == [Continuation(!finishedFirst, finishedFirst)]
      {
        assert between[i] in between;
        Happen(between[i], 0);
      }
      if finishedFirst {
        second := DeliveryCallReturned();
      } else {
        second := DeliveryFinished();
      }
    }

    /** The steps that are owed while a delivery is under way: the loop's, or an end of the delivery. */
    predicate Owed(e: Event)
      reads this
    {
      match e
      case LoopRuns => looping > 0
      case Finishes => continuations != [] && !continuations[0].deliveryFinished
      case CallReturns => continuations != [] && !continuations[0].deliveryCallReturned
      case _ => false
    }

    predicate HeadOpen()
      reads this
    {
      head >= |tickets| || tickets[head].Unresolved?
    }

    /** How many of them at most until the head has reached a ticket. */
    function Work(target: nat): nat
      reads this
    {
      if head >= target then 0 else 3 * (target - head) + if continuations == [] then 0 else Ends(continuations[0])
    }

    /** One event of a run; an event that cannot happen now is passed over. While all tickets before a target
        are resolved, an event that is owed brings the head closer to it, and no other one delays it. */
    method Happen(e: Event, ghost target: nat)
      requires Valid() && target <= FirstOpen(tickets)
      modifies this
      ensures Valid() && old(delivered) <= delivered && |old(tickets)| <= |tickets| && old(head) <= head
      ensures forall t | 0 <= t < |old(tickets)| && !old(tickets)[t].Unresolved? :: tickets[t] == old(tickets)[t]
      ensures old(Owed(e) && head < target) ==> Work(target) < old(Work(target))
      ensures old(!Owed(e)) ==> continuations == old(continuations) && head == old(head)
      ensures old(!Owed(e) && head < target) ==> looping == old(looping)
    {
      match e
      case Reserves => var _ := Reserve();
      case Resolves(t, completion) => if t < |tickets| { Resolve(t, Sequenced(completion)); }
      case Skips(t) => if t < |tickets| { Resolve(t, Skipped); }
      case LoopRuns => if looping > 0 { var _ := DeliverNext(); }
      case Finishes => if Owed(e) { var _ := DeliveryFinished(); }
      case CallReturns => if Owed(e) { var _ := DeliveryCallReturned(); }
    }

    /** Every run: completions are delivered in reservation order, skipped tickets left out, each at most once
        and one at a time; and a sequencer at rest has delivered everything up to its first open ticket. */
    method Run(events: seq<Event>)
      requires Valid()
      modifies this
      ensures Valid() && old(delivered) <= delivered && looping + |continuations| <= 1
      ensures delivered == Completions(tickets[..head])
      ensures !deliveryActive ==> head == FirstOpen(tickets)
    {
      ghost var before := delivered;
      for i := 0 to |events|
        invariant Valid() && before <= delivered
      {
        Happen(events[i], 0);
      }
    }

    /** The loop and both ends of a delivery get their turn, among any other events. */
    ghost predicate Fair(round: seq<Event>) {
      LoopRuns in round && Finishes in round && CallReturns in round
    }

    lemma SomethingOwed(round: seq<Event>, target: nat) returns (turn: nat)
      requires Valid() && head < target <= FirstOpen(tickets) && Fair(round)
      ensures turn < |round| && Owed(round[turn])
    {
      var e := if looping > 0 then LoopRuns else if continuations[0].deliveryFinished then CallReturns else Finishes;
      turn :| turn < |round| && round[turn] == e;
    }

    method Round(round: seq<Event>, ghost target: nat)
      requires Valid() && target <= FirstOpen(tickets) && Fair(round)
      modifies this
      ensures Valid() && target <= FirstOpen(tickets) && tickets[..target] == old(tickets)[..target]
      ensures old(head) >= target ==> head >= target
      ensures old(head) < target ==> Work(target) < old(Work(target))
    {
      ghost var first, there, work, turn := tickets, head >= target, Work(target), 0;
      if !there {
        turn := SomethingOwed(round, target);
      }
      for i := 0 to |round|
        invariant Valid() && target <= FirstOpen(tickets) && tickets[..target] == first[..target]
        invariant there ==> head >= target
        invariant !there ==> Work(target) < work || (Work(target) == work && i <= turn < |round| && Owed(round[turn]))
      {
        Happen(round[i], target);
      }
    }

    /** Nothing resolved waits for ever: from any state, as many fair rounds as steps are owed bring the head to
        the ticket that was the first open one, and everything before it has been delivered. */
    method FairRun(rounds: seq<seq<Event>>)
      requires Valid() && |rounds| >= Work(FirstOpen(tickets)) && forall i | 0 <= i < |rounds| :: Fair(rounds[i])
      modifies this
      ensures Valid() && head >= old(FirstOpen(tickets))
      ensures Completions(old(tickets)[..FirstOpen(old(tickets))]) <= delivered
    {
      ghost var target, work, first := FirstOpen(tickets), Work(FirstOpen(tickets)), tickets;
      for i := 0 to |rounds|
        invariant Valid() && target <= FirstOpen(tickets) && tickets[..target] == first[..target]
        invariant head >= target || Work(target) + i <= work
      {
        Round(rounds[i], target);
      }
      EarlierCompletions(tickets[..head], target);
      assert tickets[..head][..target] == first[..target];
    }
  }

  datatype Event = Reserves | Resolves(ticket: nat, completion: nat) | Skips(ticket: nat) | LoopRuns | Finishes
                 | CallReturns

  /** The ends of a delivery that are still to come. */
  function Ends(c: Continuation): nat {
    (if c.deliveryCallReturned then 0 else 1) + if c.deliveryFinished then 0 else 1
  }

  /** The number of the first ticket that is not resolved. */
  function FirstOpen(tickets: seq<Ticket>): (first: nat)
    ensures first <= |tickets| && forall t | 0 <= t < first :: !tickets[t].Unresolved?
    ensures first < |tickets| ==> tickets[first].Unresolved?
  {
    if tickets == [] || tickets[0].Unresolved? then 0 else 1 + FirstOpen(tickets[1..])
  }

  lemma {:induction false} EarlierCompletions(tickets: seq<Ticket>, n: nat)
    requires n <= |tickets|
    ensures Completions(tickets[..n]) <= Completions(tickets)
    decreases |tickets|
  {
    if n < |tickets| {
      var shorter := tickets[..|tickets| - 1];
      EarlierCompletions(shorter, n);
      assert shorter[..n] == tickets[..n];
    } else {
      assert tickets[..n] == tickets;
    }
  }

  /** The numbers of the tickets that carry a completion, in reservation order. */
  ghost function SequencedTickets(tickets: seq<Ticket>): seq<nat>
    decreases |tickets|
  {
    if tickets == [] then [] else
      var last := |tickets| - 1;
      SequencedTickets(tickets[..last]) + if tickets[last].Sequenced? then [last] else []
  }

  lemma {:induction false} SequencedTicketsInOrder(tickets: seq<Ticket>)
    ensures forall k | 0 <= k < |SequencedTickets(tickets)| :: SequencedTickets(tickets)[k] < |tickets|
    ensures forall j, k | 0 <= j < k < |SequencedTickets(tickets)| ::
            SequencedTickets(tickets)[j] < SequencedTickets(tickets)[k]
    ensures forall t | 0 <= t < |tickets| :: t in SequencedTickets(tickets) <==> tickets[t].Sequenced?
    decreases |tickets|
  {
    if tickets != [] {
      var last := |tickets| - 1;
      var earlier, order := SequencedTickets(tickets[..last]), SequencedTickets(tickets);
      SequencedTicketsInOrder(tickets[..last]);
      assert forall k | 0 <= k < |earlier| :: order[k] == earlier[k];
      assert forall t :: t in order <==> t in earlier || (t == last && tickets[last].Sequenced?);
      assert forall t | t in earlier :: t < last;
    }
  }

  /** The delivered completions are those of distinct tickets, in reservation order. */
  lemma {:induction false} DeliveredInReservationOrder(tickets: seq<Ticket>)
    ensures |SequencedTickets(tickets)| == |Completions(tickets)|
    ensures forall k | 0 <= k < |SequencedTickets(tickets)| ::
              SequencedTickets(tickets)[k] < |tickets| && tickets[SequencedTickets(tickets)[k]] ==
                  Sequenced(Completions(tickets)[k])
    decreases |tickets|
  {
    SequencedTicketsInOrder(tickets);
    if tickets != [] {
      var last := |tickets| - 1;
      var earlier := SequencedTickets(tickets[..last]);
      DeliveredInReservationOrder(tickets[..last]);
      forall k | 0 <= k < |SequencedTickets(tickets)|
        ensures tickets[SequencedTickets(tickets)[k]] == Sequenced(Completions(tickets)[k])
      {
        if k < |earlier| {
          assert SequencedTickets(tickets)[k] == earlier[k]
                 && Completions(tickets)[k] == Completions(tickets[..last])[k];
        }
      }
    }
  }
}
