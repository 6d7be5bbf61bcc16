/** The worker's request queue: callers enqueue from any thread, a pump on the lane thread drains it, a waiting
    caller may cancel before the start. Each method is one section under a mutex or one step between two
    sections; any interleaving is a run. */
module DispatchQueue {
  import opened Wrappers

  /** One queued request: its flags, its result once completed, and how its caller gets the answer. */
  datatype Request = Request(needsResult: bool, fallback: nat, started: bool, canceled: bool, completed: bool,
                             result: Option<nat>)

  /** The pump events of the lane: announced by the enqueuer of a request, in the lane's event queue, running. */
  datatype Pumps = Pumps(announced: Option<nat>, posted: nat, running: nat) {
    function Count(): nat {
      (if announced.Some? then 1 else 0) + posted + running
    }
  }

  /** Strictly increasing. */
  ghost predicate Increasing(s: seq<nat>) {
    forall i, j | 0 <= i < j < |s| :: s[i] < s[j]
  }

  /** QQueue::removeOne */
  function RemoveOne(queue: seq<nat>, id: nat): (rest: seq<nat>)
    decreases |queue|
  {
    if queue == [] then [] else if queue[0] == id then queue[1..] else [queue[0]] + RemoveOne(queue[1..], id)
  }

  lemma {:induction false} RemoveOneKeepsOrder(queue: seq<nat>, id: nat)
    requires Increasing(queue)
    ensures Increasing(RemoveOne(queue, id))
    ensures forall k :: k in RemoveOne(queue, id) <==> k in queue && k != id
    decreases |queue|
  {
    if queue != [] {
      FirstAndRest(queue);
      assert forall k :: k in queue <==> k == queue[0] || k in queue[1..];
      if queue[0] != id {
        var rest := RemoveOne(queue[1..], id);
        RemoveOneKeepsOrder(queue[1..], id);
        MoreInFront(queue[0], rest);
      }
    }
  }

  lemma FirstAndRest(queue: seq<nat>)
    requires Increasing(queue) && queue != []
    ensures Increasing(queue[1..]) && queue[0] in queue
    ensures forall k :: k in queue[1..] ==> k in queue && queue[0] < k
  {
    forall k | k in queue[1..]
      ensures k in queue && queue[0] < k
    {
      var j :| 0 < j < |queue| && queue[j] == k;
    }
    forall i, j | 0 <= i < j < |queue[1..]|
      ensures queue[1..][i] < queue[1..][j]
    {
      assert queue[i + 1] < queue[j + 1];
    }
  }

  lemma MoreAtTheEnd(s: seq<nat>, last: nat)
    requires Increasing(s) && forall k | k in s :: k < last
    ensures Increasing(s + [last])
    ensures forall k :: k in s + [last] <==> k in s || k == last
  {
    forall i, j | 0 <= i < j < |s + [last]|
      ensures (s + [last])[i] < (s + [last])[j]
    {
      assert (s + [last])[i] == s[i] && s[i] in s;
    }
  }

  lemma MoreInFront(first: nat, s: seq<nat>)
    requires Increasing(s) && forall k | k in s :: first < k
    ensures Increasing([first] + s)
    ensures forall k :: k in [first] + s <==> k in s || k == first
  {
    forall i, j | 0 <= i < j < |[first] + s|
      ensures ([first] + s)[i] < ([first] + s)[j]
    {
      assert ([first] + s)[j] == s[j - 1] && s[j - 1] in s;
    }
  }

  /** What the pump promise depends on: a request was enqueued, or a post failed and left requests queued. */
  datatype Record = Enqueued | PostFailed(left: set<nat>)

  /** The requests that a failed post has left behind since the last request was enqueued. */
  ghost function LeftBehind(log: seq<Record>): set<nat> {
    if log == [] || log[|log| - 1].Enqueued? then {} else log[|log| - 1].left
  }

  class Lane {
    /** Requests by the order they were enqueued in, and the numbers still queued. */
    var requests: seq<Request>
    var dispatchQueue: seq<nat>
    var dispatchQueuePumpQueued: bool
    var pumps: Pumps
    /** The request the lane thread has taken from the queue and not yet looked at. */
    var taken: Option<nat>
    ghost var starts: seq<nat>
    ghost var log: seq<Record>

    /** Requests start in the order they were enqueued; what is canceled never started. */
    ghost predicate Valid()
      reads this
    {
      && InOrder() && Flagged() && Accounted()
    }

    /** What has started comes before what was taken, and that before what is queued. */
    ghost predicate InOrder()
      reads this
    {
      && Increasing(dispatchQueue) && Increasing(starts)
      && (forall k | k in dispatchQueue :: k < |requests|)
      && (taken.Some? ==> taken.value < |requests| && (forall k | k in dispatchQueue :: taken.value < k)
                          && (forall s | s in starts :: s < taken.value))
      && (forall s, k | s in starts && k in dispatchQueue :: s < k)
    }

    ghost predicate Flagged()
      reads this
    {
      && (forall s | s in starts :: s < |requests| && requests[s].started)
      && (forall r | 0 <= r < |requests| && requests[r].started :: r in starts && !requests[r].canceled)
      && (forall r | 0 <= r < |requests| && requests[r].canceled :: requests[r].completed && !requests[r].started)
      && (forall r | 0 <= r < |requests| && requests[r].completed && !requests[r].started ::
            requests[r].result == Some(requests[r].fallback))
      && (forall r | 0 <= r < |requests| :: requests[r].completed <==> requests[r].result.Some?)
      && (forall r | 0 <= r < |requests| && requests[r].completed :: requests[r].needsResult)
    }

    /** The flag says whether there is a pump; a queue without one holds only what a failed post left. */
    ghost predicate Accounted()
      reads this
    {
      && pumps.Count() == (if dispatchQueuePumpQueued then 1 else 0)
      && (pumps.announced.Some? ==> pumps.announced.value < |requests|)
      && (if dispatchQueuePumpQueued then LeftBehind(log) == {}
          else forall k | k in dispatchQueue :: k in LeftBehind(log))
    }

    /** A non-empty queue has a pump on its way. */
    ghost predicate Pumped()
      reads this
    {
      dispatchQueue != [] ==> pumps.Count() == 1
    }

    constructor ()
      ensures Valid() && requests == [] && starts == [] && dispatchQueue == [] && taken == None && log == []
      ensures !dispatchQueuePumpQueued && pumps == Pumps(None, 0, 0)
    {
      requests, dispatchQueue, dispatchQueuePumpQueued, pumps := [], [], false, Pumps(None, 0, 0);
      taken, starts, log := None, [], [];
    }

    method Enqueue(needsResult: bool, fallback: nat) returns (schedulePump: bool)
      requires Valid()
      modifies this`requests, this`dispatchQueue, this`dispatchQueuePumpQueued, this`pumps, this`log
      ensures Valid() && Pumped() && dispatchQueuePumpQueued && log == old(log) + [Enqueued]
      ensures requests == old(requests) + [Request(needsResult, fallback, false, false, false, None)]
      ensures dispatchQueue == old(dispatchQueue) + [|old(requests)|]
      ensures schedulePump == !old(dispatchQueuePumpQueued)
      ensures pumps == if schedulePump then old(pumps).(announced := Some(|old(requests)|)) else old(pumps)
    {
      MoreAtTheEnd(dispatchQueue, |requests|);
      schedulePump := !dispatchQueuePumpQueued;
      if schedulePump {
        dispatchQueuePumpQueued := true;
        pumps := pumps.(announced := Some(|requests|));
      }
      dispatchQueue := dispatchQueue + [|requests|];
      requests := requests + [Request(needsResult, fallback, false, false, false, None)];
      log := log + [Enqueued];
    }

    /** The announced pump is posted to the lane thread. */
    method PostPump()
      requires Valid() && pumps.announced.Some?
      modifies this`pumps
      ensures Valid() && pumps == old(pumps).(announced := None, posted := old(pumps).posted + 1)
    {
      pumps := pumps.(announced := None, posted := pumps.posted + 1);
    }

    /** The post fails: the enqueuer that announced the pump withdraws its own request, and completes it with
        its fallback if somebody waits for it. */
    method PostFails()
      requires Valid() && pumps.announced.Some?
      modifies this`requests, this`dispatchQueue, this`dispatchQueuePumpQueued, this`pumps, this`log
      ensures Valid() && SameResults(old(requests), requests)
      ensures !dispatchQueuePumpQueued && pumps == old(pumps).(announced := None)
      ensures old(pumps).announced.value < |old(requests)|
      ensures dispatchQueue == RemoveOne(old(dispatchQueue), old(pumps).announced.value)
      ensures log == old(log) + [PostFailed(set k | k in dispatchQueue)]
      ensures var id := old(pumps).announced.value;
              var r := old(requests)[id];
              requests == if id in old(dispatchQueue) && r.needsResult
                          then old(requests)[id := r.(completed := true, result := Some(r.fallback))] else old(requests)
    {
      var id := pumps.announced.value;
      var removed := UndoEnqueue(id);
      if removed && requests[id].needsResult {
        requests := requests[id := requests[id].(completed := true, result := Some(requests[id].fallback))];
      }
    }

    /** The part of it under the queue's mutex. */
    method UndoEnqueue(id: nat) returns (removed: bool)
      requires Valid() && pumps.announced == Some(id)
      modifies this`dispatchQueue, this`dispatchQueuePumpQueued, this`pumps, this`log
      ensures Valid() && removed == (id in old(dispatchQueue)) && (removed ==> !requests[id].started)
      ensures !dispatchQueuePumpQueued && pumps == old(pumps).(announced := None)
      ensures dispatchQueue == RemoveOne(old(dispatchQueue), id)
      ensures log == old(log) + [PostFailed(set k | k in dispatchQueue)]
    {
      RemoveOneKeepsOrder(dispatchQueue, id);
      removed := id in dispatchQueue;
      dispatchQueuePumpQueued := false;
      pumps := pumps.(announced := None);
      dispatchQueue := RemoveOne(dispatchQueue, id);
      log := log + [PostFailed(set k | k in dispatchQueue)];
    }

    method PumpStarts()
      requires Valid() && pumps.posted > 0
      modifies this`pumps
      ensures Valid() && pumps == old(pumps).(posted := old(pumps).posted - 1, running := old(pumps).running + 1)
    {
      pumps := pumps.(posted := pumps.posted - 1, running := pumps.running + 1);
    }

    /** The lane thread takes the next request. */
    method Take() returns (some: bool)
      requires Valid() && taken == None
      modifies this`dispatchQueue, this`taken
      ensures Valid() && some == taken.Some? == (old(dispatchQueue) != [])
      ensures old(dispatchQueue) == if some then [taken.value] + dispatchQueue else dispatchQueue
    {
      if dispatchQueue == [] {
        return false;
      }
      FirstAndRest(dispatchQueue);
      taken := Some(dispatchQueue[0]);
      dispatchQueue := dispatchQueue[1..];
      some := true;
    }

    /** It looks at the request: one that was canceled or completed meanwhile is dropped, else it starts. */
    method StartTaken() returns (started: bool)
      requires Valid() && taken.Some?
      modifies this`requests, this`taken, this`starts
      ensures Valid() && taken == None && SameResults(old(requests), requests)
      ensures old(taken).value < |old(requests)|
      ensures var id := old(taken).value;
              var r := old(requests)[id];
              && started == (!r.canceled && !r.completed) && starts == old(starts) + (if started then [id] else [])
              && requests == if started then old(requests)[id := r.(started := true)] else old(requests)
    {
      var id := taken.value;
      var request := requests[id];
      taken := None;
      if request.completed || request.canceled {
        return false;
      }
      requests := requests[id := request.(started := true)];
      MoreAtTheEnd(starts, id);
      starts := starts + [id];
      started := true;
    }

    /** A started request completes; a result that is already there stays. */
    method Complete(id: nat, result: nat)
      requires Valid() && id < |requests| && requests[id].started
      modifies this`requests
      ensures Valid() && SameResults(old(requests), requests)
      ensures var r := old(requests)[id];
              requests == if r.needsResult && !r.completed
                          then old(requests)[id := r.(completed := true, result := Some(result))] else old(requests)
    {
      if requests[id].needsResult && !requests[id].completed {
        requests := requests[id := requests[id].(completed := true, result := Some(result))];
      }
    }

    /** The pump ends when it finds the queue empty. */
    method PumpEnds() returns (ended: bool)
      requires Valid() && pumps.running > 0
      modifies this`pumps, this`dispatchQueuePumpQueued
      ensures Valid() && ended == (dispatchQueue == [])
      ensures old(dispatchQueuePumpQueued) && dispatchQueuePumpQueued == !ended
      ensures pumps == if ended then old(pumps).(running := old(pumps).running - 1) else old(pumps)
    {
      if dispatchQueue != [] {
        return false;
      }
      dispatchQueuePumpQueued := false;
      pumps := pumps.(running := pumps.running - 1);
      ended := true;
    }

    /** Cancelling takes the request out of the queue first. */
    method CancelRemoves(id: nat)
      requires Valid() && id < |requests|
      modifies this`dispatchQueue
      ensures Valid() && dispatchQueue == RemoveOne(old(dispatchQueue), id)
      ensures forall k :: k in dispatchQueue <==> k in old(dispatchQueue) && k != id
    {
      RemoveOneKeepsOrder(dispatchQueue, id);
      dispatchQueue := RemoveOne(dispatchQueue, id);
    }

    /** Then it completes the request with its fallback, unless it has started or completed. */
    method CancelCompletes(id: nat) returns (canceled: bool)
      requires Valid() && id < |requests| && requests[id].needsResult
      modifies this`requests
      ensures Valid() && SameResults(old(requests), requests)
      ensures var r := old(requests)[id];
              && canceled == (!r.completed && !r.started)
              && requests == if canceled
                             then old(requests)[id := r.(canceled := true, completed := true,
                                                         result := Some(r.fallback))]
                             else old(requests)
    {
      if requests[id].completed || requests[id].started {
        return false;
      }
      requests := requests[id := requests[id].(canceled := true, completed := true,
                                               result := Some(requests[id].fallback))];
      canceled := true;
    }

    /** The pump promise over a whole run: it holds exactly when no failed post has left a request behind, since
        the last one was enqueued, that is still queued. */
    lemma PromiseHolds()
      requires Valid()
      ensures Pumped() <==> forall k | k in dispatchQueue :: k !in LeftBehind(log)
    {
      if dispatchQueue != [] {
        assert dispatchQueue[0] in dispatchQueue;
      }
    }

    ghost function State(): LaneState
      reads this
    {
      LaneState(requests, dispatchQueue, dispatchQueuePumpQueued, pumps, taken, starts, log)
    }

    /** One event of a run; an event that cannot happen now is passed over. */
    method Happen(e: Event)
      requires Valid()
      modifies this
      ensures Valid() && State() == Next(old(State()), e)
      ensures old(starts) <= starts && SameResults(old(requests), requests)
      ensures e.Enqueues? || (!e.PostFailing? && old(Pumped())) ==> Pumped()
    {
      hide Valid, Increasing;
      match e
      case Enqueues(needsResult, fallback) => var _ := Enqueue(needsResult, fallback);
      case Posts => if pumps.announced.Some? { PostPump(); }
      case PostFailing => if pumps.announced.Some? { PostFails(); }
      case PumpBegins => if pumps.posted > 0 { PumpStarts(); }
      case PumpTakes => if pumps.running > 0 && taken == None { var _ := Take(); }
      case Takes => if taken == None { var _ := Take(); }
      case Starts => if taken.Some? { var _ := StartTaken(); }
      case Completes(id, result) => if id < |requests| && requests[id].started { Complete(id, result); }
      case PumpStops => if pumps.running > 0 { var _ := PumpEnds(); }
      case Withdraws(id) => if id < |requests| { CancelRemoves(id); }
      case Cancels(id) => if id < |requests| && requests[id].needsResult { var _ := CancelCompletes(id); }
    }

    /** Every run, failing posts included, is what its events make of the first state, and in it requests start
        in enqueue order, a canceled one never starts and a started one is never canceled, and a result never
        changes. A non-empty queue has a pump announced, posted or running, exactly unless a failed post of the
        run left some of it behind; it has one whenever no failed post follows the last enqueued request. */
    method Run(events: seq<Event>)
      requires Valid()
      modifies this
      ensures Valid() && State() == After(old(State()), events)
      ensures Increasing(starts) && old(starts) <= starts && SameResults(old(requests), requests)
      ensures forall r | 0 <= r < |requests| ::
                !(requests[r].started && requests[r].canceled) && (requests[r].started <==> r in starts)
      ensures Pumped() <==> forall k | k in dispatchQueue :: k !in LeftBehind(After(old(State()), events).log)
      ensures Undisturbed(events, old(Pumped())) ==> Pumped()
    {
      hide Pumped, Next;
      ghost var before, first := starts, requests;
      for i := 0 to |events|
        invariant Valid() && before <= starts && SameResults(first, requests)
        invariant State() == After(old(State()), events[..i])
        invariant Undisturbed(events[..i], old(Pumped())) ==> Pumped()
      {
        assert events[..i + 1][..i] == events[..i];
        Happen(events[i]);
      }
      assert events[..|events|] == events;
      PromiseHolds();
    }

    /** One pass over the queue: its head has started, or was completed before. */
    method Serve()
      requires Valid() && taken == None && dispatchQueue != []
      modifies this`requests, this`dispatchQueue, this`taken, this`starts
      ensures Valid() && taken == None && dispatchQueue == old(dispatchQueue)[1..]
      ensures SameResults(old(requests), requests) && |requests| == |old(requests)|
      ensures var id := old(dispatchQueue)[0]; id < |requests| && Served(requests[id])
    {
      var some := Take();
      assert some && taken.value == old(dispatchQueue)[0] && dispatchQueue == old(dispatchQueue)[1..];
      var _ := StartTaken();
    }

    /** Nothing queued waits for ever: a pump on its way is posted and starts, its passes over the queue start
        or drop every request that is queued, in order, and the pump ends. */
    method Drain()
      requires Valid() && taken == None && pumps.Count() == 1
      modifies this
      ensures Valid() && dispatchQueue == [] && taken == None && !dispatchQueuePumpQueued && log == old(log)
      ensures SameResults(old(requests), requests) && |requests| == |old(requests)|
      ensures forall k | k in old(dispatchQueue) :: Served(requests[k])
    {
      if pumps.announced.Some? {
        PostPump();
      }
      if pumps.posted > 0 {
        PumpStarts();
      }
      ServeAll();
      var _ := PumpEnds();
    }

    method ServeAll()
      requires Valid() && taken == None
      modifies this`requests, this`dispatchQueue, this`taken, this`starts
      ensures Valid() && dispatchQueue == [] && taken == None
      ensures SameResults(old(requests), requests) && |requests| == |old(requests)|
      ensures forall k | k in old(dispatchQueue) :: Served(requests[k])
    {
      ghost var queued, served := dispatchQueue, 0;
      while dispatchQueue != []
        invariant Valid() && taken == None && served <= |queued| && dispatchQueue == queued[served..]
        invariant SameResults(old(requests), requests) && |requests| == |old(requests)|
        invariant forall i | 0 <= i < served :: queued[i] < |requests| && Served(requests[queued[i]])
        decreases |dispatchQueue|
      {
        Serve();
        served := served + 1;
      }
    }

    /** The lane's own steps get their turn, among any other events. */
    ghost predicate Fair(round: seq<Event>) {
      Posts in round && PumpBegins in round && PumpTakes in round && Starts in round
    }

    lemma SomethingOwed(round: seq<Event>, id: nat) returns (turn: nat)
      requires Valid() && Pumped() && State().Waits(id) && Fair(round)
      ensures turn < |round| && State().OwedTo(id, round[turn])
    {
      var e := if taken.Some? then Starts else if pumps.announced.Some? then Posts
               else if pumps.posted > 0 then PumpBegins else PumpTakes;
      turn :| turn < |round| && round[turn] == e;
    }

    lemma Orderly()
      requires Valid()
      ensures State().InOrder()
    {
    }

    method Round(round: seq<Event>, ghost id: nat)
      requires Valid() && Pumped() && id < |requests| && Fair(round) && PostFailing !in round
      modifies this
      ensures Valid() && Pumped() && SameResults(old(requests), requests)
      ensures old(State().Waits(id)) ==>
                || Withdraws(id) in round || Served(requests[id])
                || (State().Waits(id) && State().Work(id) < old(State().Work(id)))
    {
      hide Valid, Pumped, SameResults;
      ghost var first, waits, work, turn := requests, State().Waits(id), State().Work(id), 0;
      if waits {
        turn := SomethingOwed(round, id);
      }
      Unchanged(first);
      for i := 0 to |round|
        invariant Valid() && Pumped() && SameResults(first, requests) && id < |requests|
        invariant waits ==>
                    || Withdraws(id) in round[..i] || Served(requests[id])
                    || State().StillOwed(id, work, i, turn, round)
      {
        assert round[i] in round && round[..i + 1] == round[..i] + [round[i]];
        ghost var before := State();
        Orderly();
        Happen(round[i]);
        LaterResults(first, before.requests, requests);
        StaysServed(before.requests, requests, id);
        if before.Waits(id) && round[i] != Withdraws(id) {
          Progress(before, round[i], id);
        }
      }
      assert round[..|round|] == round;
    }

    /** Nothing queued waits for ever: unless a post fails, or the request is withdrawn, as many fair rounds as
        steps are owed to a queued request start it, or find it completed, whatever else happens. */
    method FairRun(rounds: seq<seq<Event>>, ghost id: nat)
      requires Valid() && Pumped() && State().Waits(id) && id < |requests| && |rounds| >= State().Work(id)
      requires forall i | 0 <= i < |rounds| :: Fair(rounds[i]) && PostFailing !in rounds[i]
      modifies this
      ensures Valid() && SameResults(old(requests), requests) && id < |requests|
      ensures Served(requests[id]) || exists i | 0 <= i < |rounds| :: Withdraws(id) in rounds[i]
    {
      ghost var first, work := requests, State().Work(id);
      for i := 0 to |rounds|
        invariant Valid() && Pumped() && SameResults(first, requests) && id < |requests|
        invariant || Served(requests[id]) || (exists k | 0 <= k < i :: Withdraws(id) in rounds[k])
                  || (State().Waits(id) && State().Work(id) + i <= work)
      {
        ghost var before := requests;
        Round(rounds[i], id);
        LaterResults(first, before, requests);
        StaysServed(before, requests, id);
      }
    }
  }

  predicate Served(r: Request) {
    r.started || r.completed
  }

  /** A run that strands a request: a second caller enqueues while the first one's post is failing. */
  method StrandedBehindAFailedPost() returns (lane: Lane)
    ensures lane.Valid() && !lane.Pumped() && lane.dispatchQueue == [1]
  {
    lane := new Lane();
    var _ := lane.Enqueue(true, 0);
    var _ := lane.Enqueue(true, 0);
    assert lane.dispatchQueue == [0, 1];
    lane.PostFails();
  }

  datatype Event = Enqueues(needsResult: bool, fallback: nat) | Posts | PostFailing | PumpBegins | PumpTakes | Takes
                 | Starts | Completes(id: nat, result: nat) | PumpStops | Withdraws(id: nat) | Cancels(id: nat)

  // ----- What the events of a run make of a lane -----

  datatype LaneState = LaneState(requests: seq<Request>, queue: seq<nat>, pumpQueued: bool, pumps: Pumps,
                                 taken: Option<nat>, starts: seq<nat>, log: seq<Record>)
  {
    ghost function With(id: nat, r: Request): LaneState
      requires id < |requests|
    {
      this.(requests := requests[id := r])
    }

    /** Strictly increasing numbers, and at most one pump. */
    ghost predicate InOrder() {
      && Increasing(queue) && (taken.Some? ==> forall k | k in queue :: taken.value < k)
      && pumps.Count() == (if pumpQueued then 1 else 0)
      && (forall k | k in queue :: k < |requests|) && (taken.Some? ==> taken.value < |requests|)
      && (forall r | 0 <= r < |requests| && requests[r].canceled :: requests[r].completed)
    }

    /** A request that is queued, with a pump on its way, or taken and not yet looked at. */
    ghost predicate Waits(id: nat) {
      taken == Some(id) || (id in queue && pumpQueued)
    }

    /** The next steps on the way of a waiting request. */
    ghost predicate OwedTo(id: nat, e: Event) {
      if taken == Some(id) then e.Starts?
      else
        match e
        case Posts => pumps.announced.Some?
        case PumpBegins => pumps.posted > 0
        case PumpTakes => pumps.running > 0 && taken.None?
        case Starts => taken.Some?
        case _ => false
    }

    /** How many there are at most. */
    ghost function Work(id: nat): nat {
      if taken == Some(id) then 1
      else
        2 * Ahead(queue, id) + 2 + (if taken.Some? then 1 else 0)
        + if pumps.announced.Some? then 2 else if pumps.posted > 0 then 1 else 0
    }

    ghost predicate StillOwed(id: nat, work: nat, i: nat, turn: nat, round: seq<Event>) {
      Waits(id) && (Work(id) < work || (Work(id) == work && i <= turn < |round| && OwedTo(id, round[turn])))
    }

    ghost function Taking(): LaneState {
      if taken.None? && queue != [] then this.(taken := Some(queue[0]), queue := queue[1..]) else this
    }

    ghost function Starting(): LaneState {
      if taken.None? || taken.value >= |requests| then this
      else
        var r, idle := requests[taken.value], this.(taken := None);
        if r.completed || r.canceled then idle
        else idle.With(taken.value, r.(started := true)).(starts := starts + [taken.value])
    }

    ghost function Failing(): LaneState {
      if pumps.announced.None? then this
      else
        var id := pumps.announced.value;
        var rest := RemoveOne(queue, id);
        var withdrawn := this.(queue := rest, pumpQueued := false, pumps := pumps.(announced := None),
                               log := log + [PostFailed(set k | k in rest)]);
        if id in queue && id < |requests| && requests[id].needsResult
        then withdrawn.With(id, requests[id].(completed := true, result := Some(requests[id].fallback)))
        else withdrawn
    }
  }

  ghost function Next(s: LaneState, e: Event): LaneState {
    match e
    case Enqueues(needsResult, fallback) =>
      s.(requests := s.requests + [Request(needsResult, fallback, false, false, false, None)],
         queue := s.queue + [|s.requests|], pumpQueued := true, log := s.log + [Enqueued],
         pumps := if s.pumpQueued then s.pumps else s.pumps.(announced := Some(|s.requests|)))
    case Posts =>
      if s.pumps.announced.None? then s
      else s.(pumps := s.pumps.(announced := None, posted := s.pumps.posted + 1))
    case PostFailing => s.Failing()
    case PumpBegins =>
      if s.pumps.posted == 0 then s
      else s.(pumps := s.pumps.(posted := s.pumps.posted - 1, running := s.pumps.running + 1))
    case PumpTakes => if s.pumps.running > 0 then s.Taking() else s
    case Takes => s.Taking()
    case Starts => s.Starting()
    case Completes(id, result) =>
      if id < |s.requests| && s.requests[id].started && s.requests[id].needsResult && !s.requests[id].completed
      then s.With(id, s.requests[id].(completed := true, result := Some(result)))
      else s
    case PumpStops =>
      if s.pumps.running > 0 && s.queue == []
      then s.(pumpQueued := false, pumps := s.pumps.(running := s.pumps.running - 1))
      else s
    case Withdraws(id) => if id < |s.requests| then s.(queue := RemoveOne(s.queue, id)) else s
    case Cancels(id) =>
      if id < |s.requests| && s.requests[id].needsResult && !s.requests[id].completed && !s.requests[id].started
      then s.With(id, s.requests[id].(canceled := true, completed := true, result := Some(s.requests[id].fallback)))
      else s
  }

  ghost function After(s: LaneState, events: seq<Event>): LaneState
    decreases |events|
  {
    if events == [] then s else Next(After(s, events[..|events| - 1]), events[|events| - 1])
  }

  /** Requests in front of another in the queue. */
  function Ahead(queue: seq<nat>, id: nat): nat {
    if queue == [] || queue[0] == id then 0 else 1 + Ahead(queue[1..], id)
  }

  lemma {:induction false} AheadOfLast(queue: seq<nat>, id: nat, last: nat)
    requires id in queue
    ensures Ahead(queue + [last], id) == Ahead(queue, id)
    decreases |queue|
  {
    if queue[0] != id {
      assert id in queue[1..] && (queue + [last])[1..] == queue[1..] + [last];
      AheadOfLast(queue[1..], id, last);
    }
  }

  lemma {:induction false} AheadWithout(queue: seq<nat>, id: nat, other: nat)
    requires id in queue && other != id
    ensures id in RemoveOne(queue, other) && Ahead(RemoveOne(queue, other), id) <= Ahead(queue, id)
    decreases |queue|
  {
    if queue[0] == other {
      assert id in queue[1..];
    } else if queue[0] != id {
      assert id in queue[1..];
      AheadWithout(queue[1..], id, other);
    }
  }

  /** While a request waits, a step owed to it lessens what is owed, and no other event adds to it. */
  lemma Progress(s: LaneState, e: Event, id: nat)
    requires s.InOrder() && s.Waits(id) && id < |s.requests| && !e.PostFailing? && e != Withdraws(id)
    ensures var t := Next(s, e);
            && id < |t.requests| && (t.Waits(id) || Served(t.requests[id]))
            && (t.Waits(id) ==> CloserTo(id, s, t) && (s.OwedTo(id, e) ==> t.Work(id) < s.Work(id)))
  {
    match e
    case Enqueues(_, _) => EnqueuedBehind(s, e, id);
    case Withdraws(other) => WithdrawnElsewhere(s, other, id);
    case PumpTakes => OneTaken(s, id);
    case Takes => OneTaken(s, id);
    case Starts => OneStarted(s, id);
    case _ =>
  }

  /** Less is owed to a waiting request, or the same steps. */
  ghost predicate CloserTo(id: nat, s: LaneState, t: LaneState) {
    t.Work(id) < s.Work(id)
    || (t.Work(id) == s.Work(id) && t.taken == s.taken && (s.taken == Some(id) || t.pumps == s.pumps))
  }

  lemma EnqueuedBehind(s: LaneState, e: Event, id: nat)
    requires s.InOrder() && s.Waits(id) && e.Enqueues?
    ensures Next(s, e).Waits(id) && CloserTo(id, s, Next(s, e))
  {
    if id in s.queue {
      AheadOfLast(s.queue, id, |s.requests|);
    }
  }

  lemma WithdrawnElsewhere(s: LaneState, other: nat, id: nat)
    requires s.InOrder() && s.Waits(id) && other != id
    ensures var t := Next(s, Withdraws(other)); t.Waits(id) && CloserTo(id, s, t)
  {
    if id in s.queue {
      AheadWithout(s.queue, id, other);
    }
  }

  lemma OneTaken(s: LaneState, id: nat)
    requires s.InOrder() && s.Waits(id)
    ensures var t := s.Taking(); t.Waits(id) && CloserTo(id, s, t) && (s.taken.None? ==> t.Work(id) < s.Work(id))
  {
  }

  lemma OneStarted(s: LaneState, id: nat)
    requires s.InOrder() && s.Waits(id)
    ensures var t := s.Starting();
            && (t.Waits(id) ==> CloserTo(id, s, t) && (s.taken.Some? ==> t.Work(id) < s.Work(id)))
            && (t.Waits(id) || (id < |t.requests| && Served(t.requests[id])))
  {
  }

  // Keeping results is reflexive, transitive, and keeps a served request served.

  lemma Unchanged(requests: seq<Request>)
    ensures SameResults(requests, requests)
  {
  }

  lemma LaterResults(first: seq<Request>, before: seq<Request>, after: seq<Request>)
    requires SameResults(first, before) && SameResults(before, after)
    ensures SameResults(first, after)
  {
  }

  lemma StaysServed(before: seq<Request>, after: seq<Request>, id: nat)
    requires SameResults(before, after) && id < |before|
    ensures id < |after| && (Served(before[id]) ==> Served(after[id]))
  {
  }

  /** No failed post follows the last enqueued request, or, if none is enqueued, the start of the run. */
  predicate Undisturbed(events: seq<Event>, before: bool)
    decreases |events|
  {
    if events == [] then before
    else
      var last := events[|events| - 1];
      last.Enqueues? || (!last.PostFailing? && Undisturbed(events[..|events| - 1], before))
  }

  /** No request goes away, none that was completed changes its result, none that started or was canceled
      is what it was not. */
  ghost predicate SameResults(before: seq<Request>, after: seq<Request>) {
    && |before| <= |after|
    && forall r | 0 <= r < |before| ::
         && (before[r].completed ==> after[r].completed && after[r].result == before[r].result)
         && (before[r].started ==> after[r].started) && (before[r].canceled ==> after[r].canceled)
         && after[r].needsResult == before[r].needsResult && after[r].fallback == before[r].fallback
  }
}
